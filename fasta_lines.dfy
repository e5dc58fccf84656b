/**
 * The first half of `parse_fasta`: reading a FASTA file line by line and
 * grouping the lines into (header, sequence) records.
 *
 * A line is stripped; an empty stripped line is skipped; a stripped line that
 * starts with '>' opens a new record; any other stripped line is appended to
 * the sequence of the record being read. Text before the first header is kept
 * only while no header has been seen: when the file has no header at all, the
 * parser returns that text as its one and only sequence.
 */
module FastaLines {
  import opened Strings

  predicate IsHeader(line: string) {
    |line| > 0 && line[0] == '>'
  }

  /** The lines the parser acts on, in order: every line stripped, and the
      lines that are empty after stripping left out. */
  function Cleaned(lines: seq<string>): (c: seq<string>)
    ensures |c| <= |lines|
  {
    if lines == [] then []
    else
      var last := Strip(lines[|lines| - 1]);
      Cleaned(lines[..|lines| - 1]) + (if last == "" then [] else [last])
  }

  /** The lines acted on are stripped and none is empty. */
  lemma {:induction false} CleanedLines(lines: seq<string>)
    ensures forall i :: 0 <= i < |Cleaned(lines)| ==> Cleaned(lines)[i] != "" && Stripped(Cleaned(lines)[i])
    decreases |lines|
  {
    if lines != [] {
      var front := lines[..|lines| - 1];
      var last := Strip(lines[|lines| - 1]);
      CleanedLines(front);
      var c := Cleaned(lines);
      var p := Cleaned(front);
      if last == "" {
        assert c == p + [];
      } else {
        assert c == p + [last];
        forall i | 0 <= i < |c| ensures c[i] != "" && Stripped(c[i]) {
          if i < |p| {
            assert c[i] == p[i];
          }
        }
      }
    }
  }

  lemma {:induction false} CleanedAppend(a: seq<string>, b: seq<string>)
    ensures Cleaned(a + b) == Cleaned(a) + Cleaned(b)
    decreases |b|
  {
    if b == [] {
      assert a + b == a;
    } else {
      var b' := b[..|b| - 1];
      var y := b[|b| - 1];
      assert b == b' + [y];
      assert a + b == (a + b') + [y];
      CleanedPush(a + b', y);
      CleanedPush(b', y);
      CleanedAppend(a, b');
      AppendAssoc(Cleaned(a), Cleaned(b'), if Strip(y) == "" then [] else [Strip(y)]);
    }
  }

  /** Cleaning one more line at the end. */
  lemma CleanedPush(s: seq<string>, x: string)
    ensures Cleaned(s + [x]) == Cleaned(s) + (if Strip(x) == "" then [] else [Strip(x)])
  {
    assert (s + [x])[..|s|] == s;
  }

  /** Cleaning from the front: the first line's stripped form, unless empty,
      then the rest cleaned. */
  lemma CleanedCons(l: string, rest: seq<string>)
    ensures Cleaned([l] + rest) == (if Strip(l) == "" then [] else [Strip(l)]) + Cleaned(rest)
  {
    CleanedAppend([l], rest);
    assert [l][..0] == [];
  }

  datatype Record = Record(header: string, body: string)

  /** The text before the first header, and the records that follow it. */
  datatype Folded = Folded(preamble: string, records: seq<Record>)

  /** Reference reading of a cleaned file, from the front: a header takes
      all the non-header text up to the next header as its body. */
  function Fold(c: seq<string>): (f: Folded)
  {
    if c == [] then Folded("", [])
    else
      var rest := Fold(c[1..]);
      if IsHeader(c[0]) then Folded("", [Record(c[0], rest.preamble)] + rest.records)
      else Folded(c[0] + rest.preamble, rest.records)
  }

  function Headers(rs: seq<Record>): seq<string> {
    seq(|rs|, i requires 0 <= i < |rs| => rs[i].header)
  }

  function Bodies(rs: seq<Record>): seq<string> {
    seq(|rs|, i requires 0 <= i < |rs| => rs[i].body)
  }

  /** The header lines of a cleaned file, in order. */
  function HeaderLines(c: seq<string>): seq<string> {
    if c == [] then [] else (if IsHeader(c[0]) then [c[0]] else []) + HeaderLines(c[1..])
  }

  /** The sequence lines of a cleaned file, in order. */
  function TextLines(c: seq<string>): seq<string> {
    if c == [] then [] else (if IsHeader(c[0]) then [] else [c[0]]) + TextLines(c[1..])
  }

  predicate NoHeaders(c: seq<string>) {
    forall i :: 0 <= i < |c| ==> !IsHeader(c[i])
  }

  /** What `parse_fasta` collects as `seq_list`: one sequence per header,
      or, in a file without headers, the whole text as one sequence. */
  function Sequences(f: Folded): (s: seq<string>)
    ensures |s| == if f.records == [] then 1 else |f.records|
  {
    if f.records == [] then [f.preamble] else Bodies(f.records)
  }

  /** There is one record per header line, in the order of the header lines. */
  lemma {:induction false} FoldHeaders(c: seq<string>)
    ensures Headers(Fold(c).records) == HeaderLines(c)
    decreases |c|
  {
    if c != [] {
      FoldHeaders(c[1..]);
      var rest := Fold(c[1..]);
      if IsHeader(c[0]) {
        assert Headers([Record(c[0], rest.preamble)] + rest.records)
            == [c[0]] + Headers(rest.records);
      }
    }
  }

  /** No sequence text is lost, duplicated or reordered: the preamble followed
      by the bodies is all the non-header text of the file. */
  lemma {:induction false} FoldText(c: seq<string>)
    ensures Fold(c).preamble + Concat(Bodies(Fold(c).records)) == Concat(TextLines(c))
    decreases |c|
  {
    if c != [] {
      var u := c[1..];
      FoldText(u);
      assert c == [c[0]] + u;
      FoldCons(c[0], u);
      if IsHeader(c[0]) {
        HeaderText(c[0], Fold(u), Concat(TextLines(u)));
        assert TextLines(c) == [] + TextLines(u) == TextLines(u);
      } else {
        LineText(c[0], Fold(u), TextLines(u));
      }
    }
  }

  /** A header in front: its body is the old preamble, and no text is added. */
  lemma HeaderText(h: string, rest: Folded, text: string)
    requires rest.preamble + Concat(Bodies(rest.records)) == text
    ensures var rs := [Record(h, rest.preamble)] + rest.records;
      "" + Concat(Bodies(rs)) == text
  {
    var rs := [Record(h, rest.preamble)] + rest.records;
    var bs := Bodies(rs);
    assert bs == [rest.preamble] + Bodies(rest.records);
    assert bs[1..] == Bodies(rest.records);
    assert Concat(bs) == rest.preamble + Concat(Bodies(rest.records));
    assert "" + Concat(bs) == Concat(bs);
  }

  /** A text line in front: it joins the preamble and the text. */
  lemma LineText(l: string, rest: Folded, lines: seq<string>)
    requires rest.preamble + Concat(Bodies(rest.records)) == Concat(lines)
    ensures (l + rest.preamble) + Concat(Bodies(rest.records)) == Concat([l] + lines)
  {
    assert ([l] + lines)[1..] == lines;
    assert Concat([l] + lines) == l + Concat(lines);
    assert (l + rest.preamble) + Concat(Bodies(rest.records)) == l + (rest.preamble + Concat(Bodies(rest.records)));
  }

  /** A file that is only sequence text has no records; all of it is preamble. */
  lemma {:induction false} FoldNoHeaders(c: seq<string>)
    requires NoHeaders(c)
    ensures Fold(c) == Folded(Concat(c), [])
    decreases |c|
  {
    if c != [] {
      FoldNoHeaders(c[1..]);
    }
  }

  /** The block structure of a file: the text before a header is preamble, the
      text after it up to the next header (or the end) is that header's body. */
  lemma FoldBlock(pre: seq<string>, h: string, body: seq<string>, rest: seq<string>)
    requires NoHeaders(pre) && NoHeaders(body) && IsHeader(h)
    requires rest == [] || IsHeader(rest[0])
    ensures Fold(pre + [h] + body + rest)
         == Folded(Concat(pre), [Record(h, Concat(body))] + Fold(rest).records)
  {
    var u := body + rest;
    var t := [h] + u;
    FoldPreamble(body, rest);
    FoldCons(h, u);
    assert t[0] == h;
    FoldPreamble(pre, t);
    AppendAssoc(pre + [h], body, rest);
    AppendAssoc(pre, [h], u);
  }

  lemma AppendAssoc(a: seq<string>, b: seq<string>, c: seq<string>)
    ensures a + b + c == a + (b + c)
  {
  }

  /** One step of `Fold`, from the front. */
  lemma FoldCons(l: string, u: seq<string>)
    ensures var rest := Fold(u);
      Fold([l] + u) == if IsHeader(l) then Folded("", [Record(l, rest.preamble)] + rest.records)
                       else Folded(l + rest.preamble, rest.records)
  {
    assert ([l] + u)[0] == l && ([l] + u)[1..] == u;
  }

  /** Text lines in front of a file are added to its preamble. */
  lemma {:induction false} FoldPreamble(text: seq<string>, rest: seq<string>)
    requires NoHeaders(text)
    requires rest == [] || IsHeader(rest[0])
    ensures Fold(text + rest) == Folded(Concat(text), Fold(rest).records)
    ensures Fold(rest).preamble == ""
    decreases |text|
  {
    if text == [] {
      assert text + rest == rest;
    } else {
      assert (text + rest)[0] == text[0] && (text + rest)[1..] == text[1..] + rest;
      FoldPreamble(text[1..], rest);
    }
  }

  /** Text before the first header reaches neither the headers nor the
      sequences: once a header exists, the parser discards it. */
  lemma PreambleDiscarded(text: seq<string>, rest: seq<string>)
    requires NoHeaders(text) && rest != [] && IsHeader(rest[0])
    ensures Headers(Fold(text + rest).records) == Headers(Fold(rest).records)
    ensures Sequences(Fold(text + rest)) == Sequences(Fold(rest))
  {
    FoldPreamble(text, rest);
  }

  /** Reading one more cleaned line `l` after the lines that gave `f`: a
      header opens an empty record; text extends the last record's body, or
      the preamble while there is no record. */
  function Step(f: Folded, l: string): (g: Folded)
    ensures |g.records| == if IsHeader(l) then |f.records| + 1 else |f.records|
  {
    var n := |f.records|;
    if IsHeader(l) then Folded(f.preamble, f.records + [Record(l, "")])
    else if n == 0 then Folded(f.preamble + l, [])
    else Folded(f.preamble, f.records[..n - 1]
                            + [Record(f.records[n - 1].header, f.records[n - 1].body + l)])
  }

  /** The left-to-right reading agrees with `Fold`. */
  lemma {:induction false} FoldSnoc(c: seq<string>, l: string)
    ensures Fold(c + [l]) == Step(Fold(c), l)
    decreases |c|
  {
    if c == [] {
      assert c + [l] == [l];
    } else {
      var s := c + [l];
      assert s[0] == c[0] && s[1..] == c[1..] + [l];
      FoldSnoc(c[1..], l);
      var rest := Fold(c[1..]);
      var n := |rest.records|;
      if !IsHeader(l) && n > 0 && IsHeader(c[0]) {
        var r0 := Record(c[0], rest.preamble);
        assert ([r0] + rest.records)[..n] == [r0] + rest.records[..n - 1];
      }
      if !IsHeader(l) && n == 0 && IsHeader(c[0]) {
        assert ([Record(c[0], rest.preamble)] + rest.records)[..0] == [];
      }
    }
  }

  /** Cleaning one more line adds its stripped form unless that is empty. */
  lemma CleanedSnoc(lines: seq<string>, k: nat)
    requires k < |lines|
    ensures var line := Strip(lines[k]);
      Cleaned(lines[..k + 1]) == if line == "" then Cleaned(lines[..k]) else Cleaned(lines[..k]) + [line]
  {
    assert lines[..k + 1][..k] == lines[..k];
    assert Cleaned(lines[..k] + []) == Cleaned(lines[..k]) by { assert lines[..k] + [] == lines[..k]; }
  }

  /** What the loop variables of the line loop hold after reading lines that
      fold to `f`: the header lines so far; the finished sequences, i.e. the
      bodies of all records but the last; and the sequence being read, i.e.
      the last body, or the preamble while no header has been seen. */
  ghost predicate LoopState(f: Folded, isFirst: bool, labels: seq<string>, seqs: seq<string>, current: string) {
    var n := |f.records|;
    && isFirst == (n == 0)
    && labels == Headers(f.records)
    && (n == 0 ==> seqs == [] && current == f.preamble)
    && (n > 0 ==> seqs == Bodies(f.records[..n - 1]) && current == f.records[n - 1].body)
  }

  lemma HeadersSnoc(rs: seq<Record>, r: Record)
    ensures Headers(rs + [r]) == Headers(rs) + [r.header]
    ensures Bodies(rs + [r]) == Bodies(rs) + [r.body]
  {
  }

  /** A header line: it is added to the labels, the sequence being read (if
      any) is finished, and a new empty one begins. */
  lemma HeaderStep(f: Folded, line: string, isFirst: bool, labels: seq<string>, seqs: seq<string>, current: string)
    requires LoopState(f, isFirst, labels, seqs, current) && IsHeader(line)
    ensures LoopState(Step(f, line), false, labels + [line], if isFirst then seqs else seqs + [current], "")
  {
    var rs := f.records;
    var n := |rs|;
    var r := Record(line, "");
    HeadersSnoc(rs, r);
    assert Step(f, line).records == rs + [r];
    assert (rs + [r])[..n] == rs;
    if n > 0 {
      assert rs == rs[..n - 1] + [rs[n - 1]];
      HeadersSnoc(rs[..n - 1], rs[n - 1]);
    }
  }

  /** A sequence line: it is appended to the sequence being read. */
  lemma TextStep(f: Folded, line: string, isFirst: bool, labels: seq<string>, seqs: seq<string>, current: string)
    requires LoopState(f, isFirst, labels, seqs, current) && !IsHeader(line)
    ensures LoopState(Step(f, line), isFirst, labels, seqs, current + line)
  {
    var rs := f.records;
    var n := |rs|;
    if n > 0 {
      var last := Record(rs[n - 1].header, rs[n - 1].body + line);
      var rs' := rs[..n - 1] + [last];
      assert Step(f, line).records == rs';
      assert rs == rs[..n - 1] + [rs[n - 1]];
      HeadersSnoc(rs[..n - 1], rs[n - 1]);
      HeadersSnoc(rs[..n - 1], last);
      assert rs'[..n - 1] == rs[..n - 1];
    }
  }

  /** After the last line, the sequence being read is the last one. */
  lemma LoopDone(f: Folded, isFirst: bool, labels: seq<string>, seqs: seq<string>, current: string)
    requires LoopState(f, isFirst, labels, seqs, current)
    ensures labels == Headers(f.records) && seqs + [current] == Sequences(f)
  {
    var rs := f.records;
    var n := |rs|;
    if n > 0 {
      assert rs == rs[..n - 1] + [rs[n - 1]];
      HeadersSnoc(rs[..n - 1], rs[n - 1]);
    }
  }

  /** The state of the line loop after its first `k` lines. */
  ghost predicate LoopInv(lines: seq<string>, k: nat, isFirst: bool, labels: seq<string>, seqs: seq<string>, current: string)
    requires k <= |lines|
  {
    LoopState(Fold(Cleaned(lines[..k])), isFirst, labels, seqs, current)
  }

  /** A line that is empty once stripped changes nothing. */
  lemma SkipLine(lines: seq<string>, k: nat, isFirst: bool, labels: seq<string>, seqs: seq<string>, current: string)
    requires k < |lines| && Strip(lines[k]) == ""
    requires LoopInv(lines, k, isFirst, labels, seqs, current)
    ensures LoopInv(lines, k + 1, isFirst, labels, seqs, current)
  {
    CleanedSnoc(lines, k);
  }

  /** A header line, through `HeaderStep`. */
  lemma HeaderLine(lines: seq<string>, k: nat, isFirst: bool, labels: seq<string>, seqs: seq<string>, current: string)
    requires k < |lines| && IsHeader(Strip(lines[k]))
    requires LoopInv(lines, k, isFirst, labels, seqs, current)
    ensures var line := Strip(lines[k]);
      LoopInv(lines, k + 1, false, labels + [line], if isFirst then seqs else seqs + [current], "")
  {
    var line := Strip(lines[k]);
    CleanedSnoc(lines, k);
    FoldSnoc(Cleaned(lines[..k]), line);
    HeaderStep(Fold(Cleaned(lines[..k])), line, isFirst, labels, seqs, current);
  }

  /** A sequence line, through `TextStep`. */
  lemma TextLine(lines: seq<string>, k: nat, isFirst: bool, labels: seq<string>, seqs: seq<string>, current: string)
    requires k < |lines| && Strip(lines[k]) != "" && !IsHeader(Strip(lines[k]))
    requires LoopInv(lines, k, isFirst, labels, seqs, current)
    ensures LoopInv(lines, k + 1, isFirst, labels, seqs, current + Strip(lines[k]))
  {
    var line := Strip(lines[k]);
    CleanedSnoc(lines, k);
    FoldSnoc(Cleaned(lines[..k]), line);
    TextStep(Fold(Cleaned(lines[..k])), line, isFirst, labels, seqs, current);
  }

  /** The line loop of `parse_fasta`: returns the header lines (`label_list`)
      and the sequences (`seq_list`). */
  method FoldLines(lines: seq<string>) returns (labels: seq<string>, seqs: seq<string>)
    ensures labels == Headers(Fold(Cleaned(lines)).records)
    ensures seqs == Sequences(Fold(Cleaned(lines)))
  {
    labels, seqs := [], [];
    var isFirst := true;
    var current := "";
    var k := 0;
    while k < |lines|
      invariant 0 <= k <= |lines|
      invariant LoopInv(lines, k, isFirst, labels, seqs, current)
    {
      var line := Strip(lines[k]);
      if line == "" {
        SkipLine(lines, k, isFirst, labels, seqs, current);
      } else if line[0] == '>' {
        HeaderLine(lines, k, isFirst, labels, seqs, current);
        labels := labels + [line];
        if isFirst {
          isFirst := false;
          current := "";
        } else {
          seqs := seqs + [current];
          current := "";
        }
      } else {
        TextLine(lines, k, isFirst, labels, seqs, current);
        current := current + line;
      }
      k := k + 1;
    }
    assert lines[..|lines|] == lines;
    LoopDone(Fold(Cleaned(lines)), isFirst, labels, seqs, current);
    seqs := seqs + [current];
  }
}
