/**
 * The second half of `parse_fasta` for one record: splitting a UniProt
 * header line
 *
 *     >db|Accession|EntryName Protein name OS=... OX=... GN=... PE=... SV=...
 *
 * into the ten columns `db, UniProtID, UniProtKB, proteinName, OS, OX, GN,
 * PE, SV, OX_GN`.
 *
 * The third `|`-field is cut at the five tags " OS=", " OX=", " GN=", " PE="
 * and " SV=" by a leftmost, non-overlapping scan (what `re.split` and
 * `re.findall` do with that alternation: all five alternatives have four
 * characters and none is a prefix of another). When the tags found are
 * exactly OS, OX, GN, PE, SV in that order, the five values are the pieces
 * between them; otherwise a table filled in tag order gives each tag the
 * piece after its last occurrence, and '' when it does not occur.
 */
module UniProtHeader {
  import opened Wrappers
  import opened Strings

  datatype Tag = OS | OX | GN | PE | SV

  /** `key_list_2`: the order of the five tags in a well-formed header. */
  const TagOrder: seq<Tag> := [OS, OX, GN, PE, SV]

  function TagText(t: Tag): string {
    match t
    case OS => " OS="
    case OX => " OX="
    case GN => " GN="
    case PE => " PE="
    case SV => " SV="
  }

  /** The tag whose text is `w`, if there is one. */
  function TagOf(w: string): (r: Option<Tag>)
    ensures r.Some? ==> TagText(r.value) == w && |w| == 4 && w[3] == '='
    ensures r.None? ==> forall t: Tag :: TagText(t) != w
  {
    if w == " OS=" then Some(OS)
    else if w == " OX=" then Some(OX)
    else if w == " GN=" then Some(GN)
    else if w == " PE=" then Some(PE)
    else if w == " SV=" then Some(SV)
    else None
  }

  /** A tag text starts at position `j` of `s`. */
  predicate TagAt(s: string, j: int) {
    0 <= j && j + 4 <= |s| && TagOf(s[j..j + 4]).Some?
  }

  /** No tag text occurs anywhere inside `s`. */
  predicate NoTag(s: string) {
    forall j :: 0 <= j < |s| ==> !TagAt(s, j)
  }

  /** The result of `re.split` (the pieces) and of `re.findall` (the tags)
      on one string. */
  datatype TagSplit = TagSplit(pieces: seq<string>, tags: seq<Tag>)

  /** The leftmost scan for the five tags. */
  function ScanTags(s: string): (r: TagSplit)
    ensures |r.pieces| == |r.tags| + 1
    decreases |s|
  {
    if |s| < 4 then TagSplit([s], [])
    else
      match TagOf(s[..4])
      case Some(t) =>
        var rest := ScanTags(s[4..]);
        TagSplit([""] + rest.pieces, [t] + rest.tags)
      case None =>
        var rest := ScanTags(s[1..]);
        TagSplit([[s[0]] + rest.pieces[0]] + rest.pieces[1..], rest.tags)
  }

  /** The pieces put back together with the tags between them. */
  function Rebuild(pieces: seq<string>, tags: seq<Tag>): string
    requires |pieces| == |tags| + 1
    decreases |tags|
  {
    if tags == [] then pieces[0]
    else pieces[0] + TagText(tags[0]) + Rebuild(pieces[1..], tags[1..])
  }

  /** Scanning loses nothing: the pieces and the tags give back the string. */
  lemma {:induction false} ScanRebuild(s: string)
    ensures Rebuild(ScanTags(s).pieces, ScanTags(s).tags) == s
    decreases |s|
  {
    if |s| >= 4 {
      match TagOf(s[..4])
      case Some(t) =>
        ScanRebuild(s[4..]);
        var rest := ScanTags(s[4..]);
        RebuildTag(t, rest.pieces, rest.tags);
        assert s == s[..4] + s[4..];
      case None =>
        ScanRebuild(s[1..]);
        var rest := ScanTags(s[1..]);
        RebuildCons(s[0], rest.pieces, rest.tags);
        assert s == [s[0]] + s[1..];
    }
  }

  /** A tag found first: an empty first piece, then the tag. */
  lemma RebuildTag(t: Tag, pieces: seq<string>, tags: seq<Tag>)
    requires |pieces| == |tags| + 1
    ensures Rebuild([""] + pieces, [t] + tags) == TagText(t) + Rebuild(pieces, tags)
  {
    assert ([""] + pieces)[1..] == pieces;
    assert ([t] + tags)[1..] == tags;
  }

  /** A character that starts no tag joins the first piece. */
  lemma RebuildCons(c: char, pieces: seq<string>, tags: seq<Tag>)
    requires |pieces| == |tags| + 1
    ensures Rebuild([[c] + pieces[0]] + pieces[1..], tags) == [c] + Rebuild(pieces, tags)
  {
    var ps := [[c] + pieces[0]] + pieces[1..];
    assert ps[1..] == pieces[1..];
    if tags != [] {
      assert Rebuild(ps, tags) == [c] + pieces[0] + TagText(tags[0]) + Rebuild(pieces[1..], tags[1..]);
    }
  }

  /** A tag cannot begin inside a tag-free piece that is followed by a tag:
      the fourth character of a tag is '=', and the first three characters of
      a tag are not. */
  lemma TagFreeBeforeTag(p: string, t: Tag, rest: string, j: int)
    requires NoTag(p) && 0 <= j < |p|
    ensures !TagAt(p + TagText(t) + rest, j)
  {
    var s := p + TagText(t) + rest;
    if j + 4 <= |p| {
      assert s[j..j + 4] == p[j..j + 4];
      assert !TagAt(p, j);
    } else {
      assert s[j + 3] == TagText(t)[j + 3 - |p|];
      assert s[j..j + 4][3] == s[j + 3];
    }
  }

  /** Scanning a tag-free piece followed by a tag. */
  lemma {:induction false} ScanPrefixed(p: string, t: Tag, rest: string)
    requires NoTag(p)
    ensures ScanTags(p + TagText(t) + rest)
         == TagSplit([p] + ScanTags(rest).pieces, [t] + ScanTags(rest).tags)
    decreases |p|
  {
    var s := p + TagText(t) + rest;
    if p == [] {
      assert s[..4] == TagText(t);
      assert s[4..] == rest;
    } else {
      TagFreeBeforeTag(p, t, rest, 0);
      assert s[..4] == s[0..4];
      assert TagOf(s[..4]).None?;
      TagFreeTail(p);
      assert s[1..] == p[1..] + TagText(t) + rest;
      ScanPrefixed(p[1..], t, rest);
      var r := ScanTags(rest);
      var tail := ScanTags(s[1..]);
      assert tail.pieces == [p[1..]] + r.pieces;
      assert tail.pieces[0] == p[1..] && tail.pieces[1..] == r.pieces;
      assert [p[0]] + p[1..] == p;
    }
  }

  lemma TagFreeTail(s: string)
    requires NoTag(s) && s != []
    ensures NoTag(s[1..])
  {
    forall j | 0 <= j < |s[1..]|
      ensures !TagAt(s[1..], j)
    {
      assert !TagAt(s, j + 1);
      if j + 4 <= |s[1..]| {
        assert s[1..][j..j + 4] == s[j + 1..j + 5];
      }
    }
  }

  /** Scanning a tag-free string gives that string as the only piece. */
  lemma {:induction false} ScanPlain(s: string)
    requires NoTag(s)
    ensures ScanTags(s) == TagSplit([s], [])
    decreases |s|
  {
    if |s| >= 4 {
      assert s[..4] == s[0..4];
      assert !TagAt(s, 0);
      TagFreeTail(s);
      ScanPlain(s[1..]);
      assert [s[0]] + s[1..] == s;
    }
  }

  /** Scanning undoes rebuilding when no piece contains a tag. */
  lemma {:induction false} ScanOfRebuild(pieces: seq<string>, tags: seq<Tag>)
    requires |pieces| == |tags| + 1
    requires forall k :: 0 <= k < |pieces| ==> NoTag(pieces[k])
    ensures ScanTags(Rebuild(pieces, tags)) == TagSplit(pieces, tags)
    decreases |tags|
  {
    if tags == [] {
      ScanPlain(pieces[0]);
    } else {
      ScanOfRebuild(pieces[1..], tags[1..]);
      ScanPrefixed(pieces[0], tags[0], Rebuild(pieces[1..], tags[1..]));
      assert [pieces[0]] + pieces[1..] == pieces;
      assert [tags[0]] + tags[1..] == tags;
    }
  }

  /** The scan finds every tag: no piece it returns holds a tag text. With
      `ScanRebuild` and `ScanOfRebuild`, the scan is the only split of a
      field into tag-free pieces and tags. */
  lemma {:induction false} ScanTagFree(s: string)
    ensures forall k :: 0 <= k < |ScanTags(s).pieces| ==> NoTag(ScanTags(s).pieces[k])
    decreases |s|
  {
    if |s| < 4 {
      assert ScanTags(s).pieces == [s];
    } else {
      match TagOf(s[..4])
      case Some(t) =>
        ScanTagFree(s[4..]);
        assert ScanTags(s).pieces == [""] + ScanTags(s[4..]).pieces;
      case None =>
        ScanTagFree(s[1..]);
        var rest := ScanTags(s[1..]);
        ScanRebuild(s[1..]);
        RebuildPrefix(rest.pieces, rest.tags);
        ConsTagFree(s, rest.pieces[0]);
        assert ScanTags(s).pieces == [[s[0]] + rest.pieces[0]] + rest.pieces[1..];
    }
  }

  /** The first piece begins the rebuilt string. */
  lemma RebuildPrefix(pieces: seq<string>, tags: seq<Tag>)
    requires |pieces| == |tags| + 1
    ensures pieces[0] <= Rebuild(pieces, tags)
  {
  }

  /** A character where no tag starts, put before a tag-free prefix of the
      rest of the string, starts no tag either. */
  lemma ConsTagFree(s: string, p: string)
    requires |s| >= 4 && TagOf(s[..4]).None?
    requires p <= s[1..] && NoTag(p)
    ensures NoTag([s[0]] + p)
  {
    var q := [s[0]] + p;
    forall j | 0 <= j < |q|
      ensures !TagAt(q, j)
    {
      if j == 0 {
        if 4 <= |q| {
          assert q[..4] == s[..4];
        }
      } else {
        assert !TagAt(p, j - 1);
        if j + 4 <= |q| {
          assert q[j..j + 4] == p[j - 1..j + 3];
        }
      }
    }
  }

  /** A character in no piece and in no tag text is not in the rebuilt string. */
  lemma {:induction false} RebuildWithout(pieces: seq<string>, tags: seq<Tag>, c: char)
    requires |pieces| == |tags| + 1
    requires forall k :: 0 <= k < |pieces| ==> c !in pieces[k]
    requires forall t: Tag :: c !in TagText(t)
    ensures c !in Rebuild(pieces, tags)
    decreases |tags|
  {
    if tags != [] {
      RebuildWithout(pieces[1..], tags[1..], c);
    }
  }

  /** The tag table `dict_key_temp`: every tag starts at '', and each tag
      found overwrites its own entry with the piece that follows it, so the
      last occurrence wins. */
  function TableValue(pieces: seq<string>, tags: seq<Tag>, t: Tag): (v: string)
    requires |pieces| == |tags| + 1
    ensures t !in tags ==> v == ""
    decreases |tags|
  {
    if tags == [] then ""
    else if tags[|tags| - 1] == t then pieces[|tags|]
    else
      assert t !in tags ==> t !in tags[..|tags| - 1];
      TableValue(pieces[..|tags|], tags[..|tags| - 1], t)
  }

  /** The table entry of a tag is the piece after its last occurrence. */
  lemma {:induction false} TableValueLast(pieces: seq<string>, tags: seq<Tag>, t: Tag, i: nat)
    requires |pieces| == |tags| + 1
    requires i < |tags| && tags[i] == t
    requires forall j :: i < j < |tags| ==> tags[j] != t
    ensures TableValue(pieces, tags, t) == pieces[i + 1]
    decreases |tags|
  {
    if i < |tags| - 1 {
      TableValueLast(pieces[..|tags|], tags[..|tags| - 1], t, i);
    }
  }

  /** With the tags in order, each tag's table entry is the piece after it. */
  lemma InOrderTable(pieces: seq<string>)
    requires |pieces| == 6
    ensures forall k :: 0 <= k < 5 ==> TableValue(pieces, TagOrder, TagOrder[k]) == pieces[k + 1]
  {
    forall k | 0 <= k < 5
      ensures TableValue(pieces, TagOrder, TagOrder[k]) == pieces[k + 1]
    {
      assert forall j :: k < j < 5 ==> TagOrder[j] != TagOrder[k];
      TableValueLast(pieces, TagOrder, TagOrder[k], k);
    }
  }

  /** The five values `temp_list_use`, in the order OS, OX, GN, PE, SV. The
      in-order shortcut gives the same five values as the table would. */
  function FieldValues(sp: TagSplit): (v: seq<string>)
    requires |sp.pieces| == |sp.tags| + 1
    ensures |v| == 5
    ensures forall k :: 0 <= k < 5 ==> v[k] == TableValue(sp.pieces, sp.tags, TagOrder[k])
  {
    if sp.tags == TagOrder then
      InOrderTable(sp.pieces);
      sp.pieces[1..]
    else
      seq(5, k requires 0 <= k < 5 => TableValue(sp.pieces, sp.tags, TagOrder[k]))
  }

  /** One parsed header, with the columns of `label_key_list` in order. */
  datatype Label = Label(
    db: string, uniProtId: string, uniProtKB: string, proteinName: string,
    os: string, ox: string, gn: string, pe: string, sv: string, oxGn: string)

  /** The `|`-fields of a header line, its leading '>' removed. */
  function HeaderFields(h: string): (fields: seq<string>)
    ensures |fields| >= 1
  {
    Split(Drop(h, 1), '|')
  }

  /** The header of one record as `parse_fasta` reads it; `None` where
      `parse_fasta` fails reading the third field because the header has fewer than
      three `|`-fields. */
  function ParseHeader(h: string): (r: Option<Label>)
    ensures r.Some? <==> |HeaderFields(h)| >= 3
  {
    var fields := HeaderFields(h);
    if |fields| < 3 then None
    else
      var sp := ScanTags(fields[2]);
      var v := FieldValues(sp);
      var names := Split(sp.pieces[0], ' ');
      Some(Label(fields[0], fields[1], names[0], Join(names[1..], ' '),
                 v[0], v[1], v[2], v[3], v[4], Upper(v[1] + "_" + v[2])))
  }

  /** The columns of a parsed header: db and accession are the first two
      `|`-fields; the entry name is the text of the pre-tag part up to its
      first space, holding no space and no '|', and the protein name the rest
      after that space ('' when there is none); OS, OX, GN, PE and SV are the
      values of the tag table; OX_GN is the upper-cased OX + "_" + GN. */
  lemma HeaderColumns(h: string)
    requires |HeaderFields(h)| >= 3
    ensures var l := ParseHeader(h).value; var sp := ScanTags(HeaderFields(h)[2]);
      && l.db == HeaderFields(h)[0] && l.uniProtId == HeaderFields(h)[1]
      && ' ' !in l.uniProtKB && '|' !in l.uniProtKB
      && [l.os, l.ox, l.gn, l.pe, l.sv] == FieldValues(sp)
      && (' ' in sp.pieces[0] ==> sp.pieces[0] == l.uniProtKB + " " + l.proteinName)
      && (' ' !in sp.pieces[0] ==> sp.pieces[0] == l.uniProtKB && l.proteinName == "")
      && l.oxGn == Upper(l.ox + "_" + l.gn)
  {
    TagColumns(h);
    NameColumns(h);
  }

  /** The identifier and tag columns of a parsed header. */
  lemma TagColumns(h: string)
    requires |HeaderFields(h)| >= 3
    ensures var l := ParseHeader(h).value; var sp := ScanTags(HeaderFields(h)[2]);
      && l.db == HeaderFields(h)[0] && l.uniProtId == HeaderFields(h)[1]
      && [l.os, l.ox, l.gn, l.pe, l.sv] == FieldValues(sp)
      && l.oxGn == Upper(l.ox + "_" + l.gn)
  {
    IdColumns(h);
    ValueColumns(h);
    OxGnColumn(h);
  }

  /** db and accession are the first two `|`-fields. */
  lemma IdColumns(h: string)
    requires |HeaderFields(h)| >= 3
    ensures var l := ParseHeader(h).value;
      l.db == HeaderFields(h)[0] && l.uniProtId == HeaderFields(h)[1]
  {
  }

  /** OS, OX, GN, PE and SV are the five tag values. */
  lemma ValueColumns(h: string)
    requires |HeaderFields(h)| >= 3
    ensures var l := ParseHeader(h).value;
      [l.os, l.ox, l.gn, l.pe, l.sv] == FieldValues(ScanTags(HeaderFields(h)[2]))
  {
    FiveItems(FieldValues(ScanTags(HeaderFields(h)[2])));
  }

  /** A five-element list is the display of its elements. */
  lemma FiveItems(v: seq<string>)
    requires |v| == 5
    ensures v == [v[0], v[1], v[2], v[3], v[4]]
  {
  }

  /** OX_GN is OX and GN joined by '_', upper-cased. */
  lemma OxGnColumn(h: string)
    requires |HeaderFields(h)| >= 3
    ensures var l := ParseHeader(h).value; l.oxGn == Upper(l.ox + "_" + l.gn)
  {
  }

  /** The entry-name and protein-name columns of a parsed header. */
  lemma NameColumns(h: string)
    requires |HeaderFields(h)| >= 3
    ensures var l := ParseHeader(h).value; var p := ScanTags(HeaderFields(h)[2]).pieces[0];
      && ' ' !in l.uniProtKB && '|' !in l.uniProtKB
      && (' ' in p ==> p == l.uniProtKB + " " + l.proteinName)
      && (' ' !in p ==> p == l.uniProtKB && l.proteinName == "")
  {
    var f := HeaderFields(h)[2];
    FieldFree(h);
    PieceFree(f, '|');
    NameSplit(ScanTags(f).pieces[0]);
  }

  /** The third `|`-field holds no '|'. */
  lemma FieldFree(h: string)
    requires |HeaderFields(h)| >= 3
    ensures '|' !in HeaderFields(h)[2]
  {
    SplitParts(Drop(h, 1), '|');
  }

  /** A character missing from a field is missing from its pre-tag piece. */
  lemma PieceFree(f: string, c: char)
    requires c !in f
    ensures c !in ScanTags(f).pieces[0]
  {
    var sp := ScanTags(f);
    ScanRebuild(f);
    if c in sp.pieces[0] {
      PieceInRebuild(sp.pieces, sp.tags, c);
    }
  }

  /** The entry name is the pre-tag piece up to its first space, and the
      protein name what follows that space. */
  lemma NameSplit(p: string)
    requires '|' !in p
    ensures var names := Split(p, ' ');
      && ' ' !in names[0] && '|' !in names[0]
      && (' ' in p ==> p == names[0] + " " + Join(names[1..], ' '))
      && (' ' !in p ==> p == names[0] && Join(names[1..], ' ') == "")
  {
    var names := Split(p, ' ');
    SplitParts(p, ' ');
    if '|' in names[0] {
      JoinHasFirst(names, ' ', '|');
    }
    if |names| == 1 {
      assert Join(names, ' ') == names[0];
    } else {
      assert Join(names, ' ') == names[0] + " " + Join(names[1..], ' ');
    }
  }

  /** A header whose third field carries the five tags in order, with no tag
      inside any value, has the values between consecutive tags as its
      columns, SV running to the end. */
  lemma InOrderFields(h: string, pre: string, os: string, ox: string, gn: string, pe: string, sv: string)
    requires |HeaderFields(h)| >= 3
    requires HeaderFields(h)[2] == Rebuild([pre, os, ox, gn, pe, sv], TagOrder)
    requires NoTag(pre) && NoTag(os) && NoTag(ox) && NoTag(gn) && NoTag(pe) && NoTag(sv)
    ensures var l := ParseHeader(h).value;
      l.os == os && l.ox == ox && l.gn == gn && l.pe == pe && l.sv == sv
  {
    var pieces := [pre, os, ox, gn, pe, sv];
    ScanOfRebuild(pieces, TagOrder);
    HeaderColumns(h);
  }

  lemma PieceInRebuild(pieces: seq<string>, tags: seq<Tag>, c: char)
    requires |pieces| == |tags| + 1 && c in pieces[0]
    ensures c in Rebuild(pieces, tags)
  {
  }

  lemma JoinHasFirst(parts: seq<string>, sep: char, c: char)
    requires |parts| >= 1 && c in parts[0]
    ensures c in Join(parts, sep)
  {
  }

  /** The header line UniProt writes for a label. */
  function FormatHeader(l: Label): string {
    ">" + l.db + "|" + l.uniProtId + "|"
    + Rebuild([l.uniProtKB + " " + l.proteinName, l.os, l.ox, l.gn, l.pe, l.sv], TagOrder)
  }

  /** A label that a UniProt header can carry without ambiguity: no value
      holds '|', the entry name holds no space, no value holds a tag, and the
      OX_GN column is the upper-cased "OX_GN". */
  ghost predicate Writable(l: Label) {
    && '|' !in l.db && '|' !in l.uniProtId && '|' !in l.uniProtKB && '|' !in l.proteinName
    && '|' !in l.os && '|' !in l.ox && '|' !in l.gn && '|' !in l.pe && '|' !in l.sv
    && ' ' !in l.uniProtKB
    && NoTag(l.uniProtKB + " " + l.proteinName)
    && NoTag(l.os) && NoTag(l.ox) && NoTag(l.gn) && NoTag(l.pe) && NoTag(l.sv)
    && l.oxGn == Upper(l.ox + "_" + l.gn)
  }

  /** Parsing a well-formed UniProt header gives back every column. */
  lemma FormatThenParse(l: Label)
    requires Writable(l)
    ensures ParseHeader(FormatHeader(l)) == Some(l)
  {
    var p0 := l.uniProtKB + " " + l.proteinName;
    var pieces := [p0, l.os, l.ox, l.gn, l.pe, l.sv];
    var f2 := Rebuild(pieces, TagOrder);
    FormatFields(l);
    ScanOfRebuild(pieces, TagOrder);
    assert ScanTags(f2).pieces[1..] == [l.os, l.ox, l.gn, l.pe, l.sv];
    FormatNames(l.uniProtKB, l.proteinName);
  }

  /** The `|`-fields of a written header: db, accession, and the rest. */
  lemma FormatFields(l: Label)
    requires Writable(l)
    ensures HeaderFields(FormatHeader(l))
         == [l.db, l.uniProtId, Rebuild([l.uniProtKB + " " + l.proteinName, l.os, l.ox, l.gn, l.pe, l.sv], TagOrder)]
  {
    var p0 := l.uniProtKB + " " + l.proteinName;
    var pieces := [p0, l.os, l.ox, l.gn, l.pe, l.sv];
    var f2 := Rebuild(pieces, TagOrder);
    assert '|' !in p0;
    RebuildWithout(pieces, TagOrder, '|');
    assert FormatHeader(l) == ">" + (l.db + ['|'] + (l.uniProtId + ['|'] + f2));
    SplitThree(l.db, l.uniProtId, f2, '|');
  }

  lemma SplitThree(a: string, b: string, c: string, sep: char)
    requires sep !in a && sep !in b && sep !in c
    ensures Split(a + [sep] + (b + [sep] + c), sep) == [a, b, c]
  {
    SplitAppend(a, b + [sep] + c, sep);
    SplitAppend(b, c, sep);
    SplitWithout(a, sep);
    SplitWithout(b, sep);
    SplitWithout(c, sep);
  }

  /** The text before the tags, split at spaces: an entry name without a
      space comes first, and the rest joins back into the protein name. */
  lemma FormatNames(kb: string, name: string)
    requires ' ' !in kb
    ensures var names := Split(kb + " " + name, ' ');
      names[0] == kb && Join(names[1..], ' ') == name
  {
    SplitAppend(kb, name, ' ');
    SplitWithout(kb, ' ');
    SplitParts(name, ' ');
    var names := Split(kb + " " + name, ' ');
    assert names == [kb] + Split(name, ' ');
    assert names[1..] == Split(name, ' ');
  }
}
