/**
 * `parse_fasta` as a whole: the line loop of FastaLines, then the loop over
 * the header lines that parses each one into a Label and records its
 * sequence under its accession. The result is the accession-to-sequence
 * map and the list of labels, in header order.
 */
module FastaParse {
  import opened Wrappers
  import opened Strings
  import opened FastaLines
  import opened UniProtHeader

  /** `parse_fasta` raises on the first header with fewer than three `|`-fields
      (it reads the third field); `index` counts headers from 0. */
  datatype ParseError = MalformedHeader(index: nat)

  /** `[dict_fasta, label_list_list]`. */
  datatype Parsed = Parsed(sequences: map<string, string>, labels: seq<Label>)

  /** What each header line parses to, in order. */
  function Outcomes(headers: seq<string>): (os: seq<Option<Label>>)
    ensures |os| == |headers|
  {
    seq(|headers|, i requires 0 <= i < |headers| => ParseHeader(headers[i]))
  }

  /** The index of the first header that does not parse, if any. */
  function FirstMalformed(os: seq<Option<Label>>): (r: Option<nat>)
    ensures r.None? <==> forall i :: 0 <= i < |os| ==> os[i].Some?
    ensures r.Some? ==> r.value < |os| && os[r.value].None?
    ensures r.Some? ==> forall i :: 0 <= i < r.value ==> os[i].Some?
  {
    if os == [] then None
    else if os[0].None? then Some(0)
    else
      match FirstMalformed(os[1..])
      case None => None
      case Some(k) => Some(k + 1)
  }

  /** The labels of headers that all parse. */
  function Labels(os: seq<Option<Label>>): (ls: seq<Label>)
    requires forall i :: 0 <= i < |os| ==> os[i].Some?
  {
    seq(|os|, i requires 0 <= i < |os| => os[i].value)
  }

  /** `dict_fasta`: the i-th label's accession is mapped to the i-th sequence;
      a later label with the same accession overwrites an earlier one. */
  function SequenceMap(labels: seq<Label>, seqs: seq<string>): (m: map<string, string>)
    requires |labels| <= |seqs|
    ensures m.Keys == set i | 0 <= i < |labels| :: labels[i].uniProtId
    decreases |labels|
  {
    if labels == [] then map[]
    else
      var n := |labels| - 1;
      var m := SequenceMap(labels[..n], seqs);
      assert forall i :: 0 <= i < n ==> labels[..n][i] == labels[i];
      m[labels[n].uniProtId := seqs[n]]
  }

  /** The last record with an accession is the one whose sequence the map keeps. */
  lemma {:induction false} SequenceMapLast(labels: seq<Label>, seqs: seq<string>, i: nat)
    requires |labels| <= |seqs| && i < |labels|
    requires forall j :: i < j < |labels| ==> labels[j].uniProtId != labels[i].uniProtId
    ensures SequenceMap(labels, seqs)[labels[i].uniProtId] == seqs[i]
    decreases |labels|
  {
    var n := |labels| - 1;
    var prefix := labels[..n];
    assert SequenceMap(labels, seqs) == SequenceMap(prefix, seqs)[labels[n].uniProtId := seqs[n]];
    if i < n {
      assert prefix[i] == labels[i];
      assert forall j :: i < j < n ==> prefix[j] == labels[j];
      SequenceMapLast(prefix, seqs, i);
    }
  }

  /** The per-header part of `parse_fasta`, given the header lines and the
      sequences the line loop collected. */
  function ParseHeaders(headers: seq<string>, seqs: seq<string>): (r: Result<Parsed, ParseError>)
    requires |headers| <= |seqs|
    ensures r.Err? <==> FirstMalformed(Outcomes(headers)).Some?
    ensures r.Err? ==> r.error.index < |headers| && ParseHeader(headers[r.error.index]).None?
    ensures r.Ok? ==> |r.value.labels| == |headers|
    ensures r.Ok? ==> forall i :: 0 <= i < |r.value.labels| ==> r.value.labels[i].uniProtId in r.value.sequences
  {
    var os := Outcomes(headers);
    match FirstMalformed(os)
    case Some(i) => Err(MalformedHeader(i))
    case None =>
      var ls := Labels(os);
      Ok(Parsed(SequenceMap(ls, seqs), ls))
  }

  /** `parse_fasta` on the lines of a file. */
  function Parse(lines: seq<string>): (r: Result<Parsed, ParseError>)
    ensures r.Err? ==> r.error.index < |Fold(Cleaned(lines)).records|
    ensures r.Ok? ==> |r.value.labels| == |Fold(Cleaned(lines)).records|
  {
    var f := Fold(Cleaned(lines));
    ParseHeaders(Headers(f.records), Sequences(f))
  }

  /** Every label of a successful parse is one of the file's header lines,
      parsed, and in the order of the header lines. */
  lemma ParseLabels(lines: seq<string>)
    requires Parse(lines).Ok?
    ensures var c := Cleaned(lines); var ls := Parse(lines).value.labels;
      |ls| == |HeaderLines(c)|
      && forall i :: 0 <= i < |ls| ==> Some(ls[i]) == ParseHeader(HeaderLines(c)[i])
  {
    FoldHeaders(Cleaned(lines));
  }

  /** The accession map sends each header's accession to the sequence that
      follows that header, the last such header winning, and has no other keys. */
  lemma ParseSequences(lines: seq<string>)
    requires Parse(lines).Ok?
    ensures var f := Fold(Cleaned(lines)); var p := Parse(lines).value;
      && p.sequences.Keys == (set i | 0 <= i < |p.labels| :: p.labels[i].uniProtId)
      && forall i :: 0 <= i < |p.labels|
           && (forall j :: i < j < |p.labels| ==> p.labels[j].uniProtId != p.labels[i].uniProtId)
           ==> p.sequences[p.labels[i].uniProtId] == f.records[i].body
  {
    var f := Fold(Cleaned(lines));
    var p := Parse(lines).value;
    forall i | 0 <= i < |p.labels|
        && (forall j :: i < j < |p.labels| ==> p.labels[j].uniProtId != p.labels[i].uniProtId)
      ensures p.sequences[p.labels[i].uniProtId] == f.records[i].body
    {
      SequenceMapLast(p.labels, Sequences(f), i);
    }
  }

  lemma {:induction false} FirstMalformedAt(os: seq<Option<Label>>, i: nat)
    requires i < |os| && os[i].None?
    requires forall k :: 0 <= k < i ==> os[k].Some?
    ensures FirstMalformed(os) == Some(i)
    decreases i
  {
    if i > 0 {
      var tail := os[1..];
      assert forall k :: 0 <= k < i - 1 ==> tail[k] == os[k + 1];
      FirstMalformedAt(tail, i - 1);
    }
  }

  lemma LabelsSnoc(os: seq<Option<Label>>, i: nat)
    requires i < |os|
    requires forall k :: 0 <= k <= i ==> os[k].Some?
    ensures Labels(os[..i + 1]) == Labels(os[..i]) + [os[i].value]
  {
    var a := Labels(os[..i + 1]);
    var b := Labels(os[..i]) + [os[i].value];
    assert |a| == |b|;
    forall j | 0 <= j < |a| ensures a[j] == b[j] {
      assert os[..i + 1][j] == os[j];
    }
  }

  lemma SequenceMapSnoc(labels: seq<Label>, l: Label, seqs: seq<string>)
    requires |labels| < |seqs|
    ensures SequenceMap(labels + [l], seqs) == SequenceMap(labels, seqs)[l.uniProtId := seqs[|labels|]]
  {
    assert (labels + [l])[..|labels|] == labels;
  }

  /** The loop over the header lines: parse each one, stop at the first
      malformed one, and record its sequence under its accession. */
  method ParseLabelLines(headers: seq<string>, seqs: seq<string>) returns (r: Result<Parsed, ParseError>)
    requires |headers| <= |seqs|
    ensures r == ParseHeaders(headers, seqs)
  {
    ghost var os := Outcomes(headers);
    var labels: seq<Label> := [];
    var table: map<string, string> := map[];
    var i := 0;
    while i < |headers|
      invariant 0 <= i <= |headers|
      invariant forall k :: 0 <= k < i ==> os[k].Some?
      invariant labels == Labels(os[..i])
      invariant table == SequenceMap(labels, seqs)
    {
      var parsed := ParseHeader(headers[i]);
      assert parsed == os[i];
      if parsed.None? {
        FirstMalformedAt(os, i);
        return Err(MalformedHeader(i));
      }
      LabelsSnoc(os, i);
      SequenceMapSnoc(labels, parsed.value, seqs);
      labels := labels + [parsed.value];
      table := table[parsed.value.uniProtId := seqs[i]];
      i := i + 1;
    }
    assert os[..i] == os;
    assert FirstMalformed(os).None?;
    r := Ok(Parsed(table, labels));
  }

  /** `parse_fasta`. */
  method ParseFasta(lines: seq<string>) returns (r: Result<Parsed, ParseError>)
    ensures r == Parse(lines)
  {
    var labelLines, seqs := FoldLines(lines);
    r := ParseLabelLines(labelLines, seqs);
  }
}
