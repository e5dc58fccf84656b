/**
 * `write_aligned_fasta`: both FASTA files are parsed, their labels selected
 * as in `Selection`, and each side is written as a FASTA file whose headers
 * are the taxon identifiers, under a name made from the two input names.
 */
module AlignedFasta {
  import opened Wrappers
  import opened Strings
  import opened FastaLines
  import opened UniProtHeader
  import opened FastaParse
  import opened Selection

  /** One written record: the taxon as header, the residues as sequence. */
  datatype Entry = Entry(ox: string, residues: string)

  /** Every row's accession has a sequence in the map. */
  predicate Covered(rows: seq<Label>, sequences: map<string, string>) {
    forall i :: 0 <= i < |rows| ==> rows[i].uniProtId in sequences
  }

  /** The records written for the rows of a frame: each row's taxon, and the
      sequence the parsed map holds for the row's accession. */
  function Entries(rows: seq<Label>, sequences: map<string, string>): (es: seq<Entry>)
    requires Covered(rows, sequences)
    ensures |es| == |rows|
  {
    seq(|rows|, i requires 0 <= i < |rows| => Entry(rows[i].ox, sequences[rows[i].uniProtId]))
  }

  /** The text of a written file: `">" + OX + "\n"` then `seq + "\n"` for
      each record, in order. */
  function Serialize(es: seq<Entry>): (text: string)
    ensures es == [] <==> text == ""
    ensures es != [] ==> text[0] == '>'
  {
    if es == [] then ""
    else ">" + es[0].ox + "\n" + es[0].residues + "\n" + Serialize(es[1..])
  }

  lemma {:induction false} SerializeAppend(a: seq<Entry>, b: seq<Entry>)
    ensures Serialize(a + b) == Serialize(a) + Serialize(b)
    decreases |a|
  {
    if a == [] {
      assert a + b == b;
    } else {
      assert (a + b)[0] == a[0] && (a + b)[1..] == a[1..] + b;
      SerializeAppend(a[1..], b);
    }
  }

  /** The loop that writes one output file for each side: a header line with the taxon, then the row's sequence. */
  method WriteRecords(rows: seq<Label>, sequences: map<string, string>) returns (text: string)
    requires Covered(rows, sequences)
    ensures text == Serialize(Entries(rows, sequences))
  {
    text := "";
    var i := 0;
    while i < |rows|
      invariant 0 <= i <= |rows|
      invariant text == Serialize(Entries(rows[..i], sequences))
    {
      var row := rows[i];
      text := text + ">" + row.ox + "\n";
      text := text + sequences[row.uniProtId] + "\n";
      var e := Entry(row.ox, sequences[row.uniProtId]);
      assert Entries(rows[..i + 1], sequences) == Entries(rows[..i], sequences) + [e];
      SerializeAppend(Entries(rows[..i], sequences), [e]);
      i := i + 1;
    }
    assert rows[..i] == rows;
  }

  /** A record that reads back as itself: the header line keeps its text
      after `strip()`, the sequence is one stripped line that is not a
      header. */
  predicate Readable(e: Entry) {
    && '\n' !in e.ox && (e.ox == [] || !IsSpace(e.ox[|e.ox| - 1]))
    && '\n' !in e.residues && Stripped(e.residues) && !IsHeader(e.residues)
  }

  function Records(es: seq<Entry>): seq<Record> {
    seq(|es|, i requires 0 <= i < |es| => Record(">" + es[i].ox, es[i].residues))
  }

  lemma StripStripped(s: string)
    requires Stripped(s)
    ensures Strip(s) == s
  {
    StripAround("", s, "");
    assert "" + s + "" == s;
  }

  /** The lines of a written file: header and sequence line per entry, and
      the empty piece after the final '\n'. */
  function WrittenLines(es: seq<Entry>): seq<string> {
    if es == [] then [""] else [">" + es[0].ox, es[0].residues] + WrittenLines(es[1..])
  }

  lemma {:induction false} SplitSerialize(es: seq<Entry>)
    requires forall i :: 0 <= i < |es| ==> '\n' !in es[i].ox && '\n' !in es[i].residues
    ensures Split(Serialize(es), '\n') == WrittenLines(es)
    decreases |es|
  {
    if es != [] {
      var e := es[0];
      var h := ">" + e.ox;
      var tail := Serialize(es[1..]);
      SplitSerialize(es[1..]);
      assert Serialize(es) == h + ['\n'] + (e.residues + ['\n'] + tail);
      SplitTwoLines(h, e.residues, tail);
    }
  }

  lemma SplitTwoLines(h: string, r: string, tail: string)
    requires '\n' !in h && '\n' !in r
    ensures Split(h + ['\n'] + (r + ['\n'] + tail), '\n') == [h, r] + Split(tail, '\n')
  {
    SplitAppend(h, r + ['\n'] + tail, '\n');
    SplitAppend(r, tail, '\n');
    SplitWithout(h, '\n');
    SplitWithout(r, '\n');
  }

  /** Reading a written file back line by line (each line with its '\n'
      removed, as `strip()` would) gives one record per entry, with header
      `">" + OX` and the entry's residues as its sequence. */
  lemma {:induction false} ReadBack(es: seq<Entry>)
    requires forall i :: 0 <= i < |es| ==> Readable(es[i])
    ensures var c := Cleaned(Split(Serialize(es), '\n'));
      && Fold(c) == Folded("", Records(es))
      && (c == [] || IsHeader(c[0]))
  {
    SplitSerialize(es);
    ReadBackLines(es);
  }

  lemma {:induction false} ReadBackLines(es: seq<Entry>)
    requires forall i :: 0 <= i < |es| ==> Readable(es[i])
    ensures var c := Cleaned(WrittenLines(es));
      && Fold(c) == Folded("", Records(es))
      && (c == [] || IsHeader(c[0]))
    decreases |es|
  {
    if es == [] {
      assert Cleaned([""]) == Cleaned([]) + [];
    } else {
      ReadBackLines(es[1..]);
      RecordsCons(es);
      ReadBackStep(es[0], WrittenLines(es[1..]), Records(es[1..]));
    }
  }

  /** One written record in front of lines that read back as `recs`. */
  lemma ReadBackStep(e: Entry, lines: seq<string>, recs: seq<Record>)
    requires Readable(e)
    requires var c := Cleaned(lines); Fold(c) == Folded("", recs) && (c == [] || IsHeader(c[0]))
    ensures var c := Cleaned([">" + e.ox, e.residues] + lines);
      && Fold(c) == Folded("", [Record(">" + e.ox, e.residues)] + recs)
      && IsHeader(c[0])
  {
    var h := ">" + e.ox;
    assert Stripped(h);
    StripStripped(h);
    StripStripped(e.residues);
    if e.residues == "" {
      ReadBackBare(h, lines, recs);
    } else {
      ReadBackFull(h, e.residues, lines, recs);
    }
  }

  lemma ReadBackBare(h: string, lines: seq<string>, recs: seq<Record>)
    requires IsHeader(h) && Strip(h) == h
    requires var c := Cleaned(lines); Fold(c) == Folded("", recs) && (c == [] || IsHeader(c[0]))
    ensures var c := Cleaned([h, ""] + lines);
      Fold(c) == Folded("", [Record(h, "")] + recs) && IsHeader(c[0])
  {
    assert [h, ""] + lines == [h] + ([""] + lines);
    CleanedCons(h, [""] + lines);
    CleanedBlank(lines);
    FoldCons(h, Cleaned(lines));
  }

  lemma CleanedBlank(lines: seq<string>)
    ensures Cleaned([""] + lines) == Cleaned(lines)
  {
    CleanedCons("", lines);
    assert Strip("") == "";
    assert [] + Cleaned(lines) == Cleaned(lines);
  }

  lemma ReadBackFull(h: string, res: string, lines: seq<string>, recs: seq<Record>)
    requires IsHeader(h) && Strip(h) == h
    requires res != "" && !IsHeader(res) && Strip(res) == res
    requires var c := Cleaned(lines); Fold(c) == Folded("", recs) && (c == [] || IsHeader(c[0]))
    ensures var c := Cleaned([h, res] + lines);
      Fold(c) == Folded("", [Record(h, res)] + recs) && IsHeader(c[0])
  {
    assert [h, res] + lines == [h] + ([res] + lines);
    CleanedCons(h, [res] + lines);
    CleanedCons(res, lines);
    var rest := Cleaned(lines);
    FoldCons(res, rest);
    assert res + "" == res;
    FoldCons(h, [res] + rest);
  }

  lemma RecordsCons(es: seq<Entry>)
    requires es != []
    ensures Records(es) == [Record(">" + es[0].ox, es[0].residues)] + Records(es[1..])
  {
    var a := Records(es);
    var b := [Record(">" + es[0].ox, es[0].residues)] + Records(es[1..]);
    assert |a| == |b|;
    forall i | 0 <= i < |a| ensures a[i] == b[i] {
      if i > 0 {
        assert b[i] == Records(es[1..])[i - 1];
      }
    }
  }

  /** The last '/'-separated part of a path. */
  function Basename(path: string): (b: string)
    ensures '/' !in b
  {
    var parts := Split(path, '/');
    SplitParts(path, '/');
    parts[|parts| - 1]
  }

  lemma {:induction false} JoinLast(parts: seq<string>, sep: char)
    requires |parts| >= 1
    ensures |parts| == 1 ==> Join(parts, sep) == parts[0]
    ensures |parts| >= 2 ==> Join(parts, sep) == Join(parts[..|parts| - 1], sep) + [sep] + parts[|parts| - 1]
    decreases |parts|
  {
    if |parts| > 2 {
      var t := parts[1..];
      JoinLast(t, sep);
      assert t[..|t| - 1] == parts[..|parts| - 1][1..];
      assert parts[..|parts| - 1][0] == parts[0];
    }
  }

  /** The basename is what follows the last '/' of the path, or the whole
      path when it has no '/'. */
  lemma BasenameSuffix(path: string)
    ensures var b := Basename(path); var k := |path| - |b|;
      && 0 <= k && path[k..] == b
      && (k == 0 || path[k - 1] == '/')
      && ('/' !in path ==> b == path)
  {
    var parts := Split(path, '/');
    SplitParts(path, '/');
    JoinLast(parts, sep := '/');
    if '/' !in path {
      SplitWithout(path, '/');
    }
  }

  /** The output path for the pair (a, b): in directory `./BLASTS/`, the
      first six characters of each basename joined by '_', then the suffix
      `_blast.fasta`. */
  function OutputName(a: string, b: string): (name: string)
    ensures 22 <= |name| <= 34
    ensures name[..9] == "./BLASTS/" && name[|name| - 12..] == "_blast.fasta"
  {
    "./BLASTS/" + Take(Basename(a), 6) + "_" + Take(Basename(b), 6) + "_blast.fasta"
  }

  /** For the input paths `./FASTAS/<id>.fasta` that the driver passes, with
      six-character accessions, the output name is the one the driver then
      hands to the aligner: `./BLASTS/<id1>_<id2>_blast.fasta`. */
  lemma RunNames(id1: string, id2: string)
    requires |id1| == 6 && |id2| == 6 && '/' !in id1 && '/' !in id2
    ensures OutputName("./FASTAS/" + id1 + ".fasta", "./FASTAS/" + id2 + ".fasta")
         == "./BLASTS/" + id1 + "_" + id2 + "_blast.fasta"
  {
    BasenameOfFasta(id1);
    BasenameOfFasta(id2);
  }

  lemma BasenameOfFasta(id: string)
    requires '/' !in id
    ensures Basename("./FASTAS/" + id + ".fasta") == id + ".fasta"
  {
    var f := id + ".fasta";
    assert '/' !in f;
    assert "./FASTAS/" + id + ".fasta" == "." + ['/'] + ("FASTAS" + ['/'] + f);
    SplitAppend(".", "FASTAS" + ['/'] + f, '/');
    SplitAppend("FASTAS", f, '/');
    SplitWithout(".", '/');
    SplitWithout("FASTAS", '/');
    SplitWithout(f, '/');
  }

  /** The two output names coincide when the two basenames agree in their
      first six characters. */
  lemma OutputNamesCoincide(a: string, b: string)
    requires Take(Basename(a), 6) == Take(Basename(b), 6)
    ensures OutputName(a, b) == OutputName(b, a)
  {
  }

  /** Two accessions of six or more characters that share their first six,
      such as A0A024R161 and A0A024R1R8, give both sides the same output path. */
  lemma SharedPrefixCollides(id1: string, id2: string)
    requires '/' !in id1 && '/' !in id2 && |id1| >= 6 && |id2| >= 6 && id1[..6] == id2[..6]
    ensures OutputName("./FASTAS/" + id1 + ".fasta", "./FASTAS/" + id2 + ".fasta")
         == OutputName("./FASTAS/" + id2 + ".fasta", "./FASTAS/" + id1 + ".fasta")
  {
    BasenameOfFasta(id1);
    BasenameOfFasta(id2);
    assert (id1 + ".fasta")[..6] == id1[..6];
    assert (id2 + ".fasta")[..6] == id2[..6];
    OutputNamesCoincide("./FASTAS/" + id1 + ".fasta", "./FASTAS/" + id2 + ".fasta");
  }

  /** An output file: its path and its text. */
  /** The output files after both writes, from path to text. Each write
      opens its path with "w", so when both paths coincide the second write
      replaces the first. */
  function WrittenFiles(name1: string, text1: string, name2: string, text2: string): map<string, string> {
    map[name1 := text1][name2 := text2]
  }

  /** Both paths are written; the second always holds the second text, and
      the first holds the first text unless the two paths coincide. */
  lemma WrittenFilesHold(name1: string, text1: string, name2: string, text2: string)
    ensures var files := WrittenFiles(name1, text1, name2, text2);
      && files.Keys == {name1, name2}
      && files[name2] == text2
      && (name1 != name2 ==> files[name1] == text1)
      && (name1 == name2 ==> files == map[name2 := text2])
  {
  }

  /** `parse_fasta` raised on the first or on the second input. */
  datatype AlignError = InFirst(error: ParseError) | InSecond(error: ParseError)

  /** Rows drawn from a successful parse have their accessions in its map. */
  lemma FromParseCovered(p: Parsed, rows: seq<Label>)
    requires forall i :: 0 <= i < |p.labels| ==> p.labels[i].uniProtId in p.sequences
    requires multiset(rows) <= multiset(p.labels)
    ensures Covered(rows, p.sequences)
  {
    forall i | 0 <= i < |rows| ensures rows[i].uniProtId in p.sequences {
      assert rows[i] in multiset(rows);
      assert rows[i] in multiset(p.labels);
      var j :| 0 <= j < |p.labels| && p.labels[j] == rows[i];
    }
  }

  /** The text one side of a successful run writes. */
  function SideText(rows: seq<Label>, p: Parsed): string
    requires Covered(rows, p.sequences)
  {
    Serialize(Entries(rows, p.sequences))
  }

  /** `write_aligned_fasta(a, b)` on the lines of the two files. The rows each
      frame keeps after `sort_values`/`drop_duplicates` are returned as
      `kept1`/`kept2`: the sort is not stable, so which of several rows with
      the same taxon and database survives is not determined. */
  method WriteAlignedFasta(name1: string, lines1: seq<string>, name2: string, lines2: seq<string>)
    returns (r: Result<map<string, string>, AlignError>, ghost kept1: seq<Label>, ghost kept2: seq<Label>)
    ensures Parse(lines1).Err? ==> r == Err(InFirst(Parse(lines1).error))
    ensures Parse(lines1).Ok? && Parse(lines2).Err? ==> r == Err(InSecond(Parse(lines2).error))
    ensures Parse(lines1).Ok? && Parse(lines2).Ok? ==>
      && r.Ok?
      && IsDedup(Parse(lines1).value.labels, kept1)
      && IsDedup(Parse(lines2).value.labels, kept2)
      && Covered(Sides(kept1, kept2).0, Parse(lines1).value.sequences)
      && Covered(Sides(kept1, kept2).1, Parse(lines2).value.sequences)
      && r.value == WrittenFiles(OutputName(name1, name2), SideText(Sides(kept1, kept2).0, Parse(lines1).value),
                                 OutputName(name2, name1), SideText(Sides(kept1, kept2).1, Parse(lines2).value))
      && Keys(Sides(kept1, kept2).0, Ox) == Keys(Sides(kept1, kept2).1, Ox)
      && Ascending(Keys(Sides(kept1, kept2).0, Ox))
  {
    var parsed1 := ParseFasta(lines1);
    if parsed1.Err? {
      return Err(InFirst(parsed1.error)), [], [];
    }
    var parsed2 := ParseFasta(lines2);
    if parsed2.Err? {
      return Err(InSecond(parsed2.error)), [], [];
    }
    var p1, p2 := parsed1.value, parsed2.value;
    var frame1 := new LabelFrame(p1.labels);
    var frame2 := new LabelFrame(p2.labels);
    frame1.SortValues(Db);
    ghost var sorted1 := frame1.rows;
    frame1.DropDuplicates(Ox);
    frame2.SortValues(Db);
    ghost var sorted2 := frame2.rows;
    frame2.DropDuplicates(Ox);
    DedupMinimalDb(p1.labels, sorted1);
    DedupMinimalDb(p2.labels, sorted2);
    kept1, kept2 := frame1.rows, frame2.rows;
    var sides := Sides(frame1.rows, frame2.rows);
    SidesAgree(kept1, kept2);
    FromParseCovered(p1, sides.0);
    FromParseCovered(p2, sides.1);
    var text1 := WriteRecords(sides.0, p1.sequences);
    var text2 := WriteRecords(sides.1, p2.sequences);
    assert text1 == SideText(Sides(kept1, kept2).0, Parse(lines1).value);
    assert text2 == SideText(Sides(kept1, kept2).1, Parse(lines2).value);
    r := Ok(WrittenFiles(OutputName(name1, name2), text1, OutputName(name2, name1), text2));
  }
}
