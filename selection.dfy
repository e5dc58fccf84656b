/**
 * The record selection of `write_aligned_fasta`: each file's labels are put
 * in a frame, sorted by database and deduplicated by taxon in place; labels
 * without a gene name are dropped; both sides are restricted to the taxa
 * they share and sorted by taxon.
 */
module Selection {
  import opened Strings
  import opened UniProtHeader

  /** The columns of the label frame, in the order of `label_key_list`. */
  datatype Column = Db | UniProtId | UniProtKB | ProteinName | Os | Ox | Gn | Pe | Sv | OxGn

  function Cell(l: Label, c: Column): string {
    match c
    case Db => l.db
    case UniProtId => l.uniProtId
    case UniProtKB => l.uniProtKB
    case ProteinName => l.proteinName
    case Os => l.os
    case Ox => l.ox
    case Gn => l.gn
    case Pe => l.pe
    case Sv => l.sv
    case OxGn => l.oxGn
  }

  /** The column `c` of a frame, as a list, in frame order. */
  function Keys(rows: seq<Label>, c: Column): seq<string> {
    seq(|rows|, i requires 0 <= i < |rows| => Cell(rows[i], c))
  }

  /** The values of column `c` in a frame, as a set. */
  function KeySet(rows: seq<Label>, c: Column): set<string> {
    set x | x in rows :: Cell(x, c)
  }

  predicate SortedBy(rows: seq<Label>, c: Column) {
    forall i :: 0 < i < |rows| ==> LessEq(Cell(rows[i - 1], c), Cell(rows[i], c))
  }

  predicate StrictlySortedBy(rows: seq<Label>, c: Column) {
    forall i :: 0 < i < |rows| ==> Less(Cell(rows[i - 1], c), Cell(rows[i], c))
  }

  /** No two rows share a value in column `c`. */
  predicate DistinctKeys(rows: seq<Label>, c: Column) {
    forall i, j :: 0 <= i < j < |rows| ==> Cell(rows[i], c) != Cell(rows[j], c)
  }

  /** A list of strings in strictly ascending order. */
  predicate Ascending(s: seq<string>) {
    forall i, j :: 0 <= i < j < |s| ==> Less(s[i], s[j])
  }

  lemma {:induction false} SortedPairs(rows: seq<Label>, c: Column, i: nat, j: nat)
    requires SortedBy(rows, c) && i <= j < |rows|
    ensures LessEq(Cell(rows[i], c), Cell(rows[j], c))
    decreases j - i
  {
    if i < j {
      SortedPairs(rows, c, i + 1, j);
      LessEqTransitive(Cell(rows[i], c), Cell(rows[i + 1], c), Cell(rows[j], c));
    }
  }

  lemma {:induction false} StrictPairs(rows: seq<Label>, c: Column, i: nat, j: nat)
    requires StrictlySortedBy(rows, c) && i < j < |rows|
    ensures Less(Cell(rows[i], c), Cell(rows[j], c))
    decreases j - i
  {
    if i + 1 < j {
      StrictPairs(rows, c, i + 1, j);
      LessTransitive(Cell(rows[i], c), Cell(rows[i + 1], c), Cell(rows[j], c));
    }
  }

  /** A strictly sorted frame has its column in strictly ascending order. */
  lemma StrictKeysAscending(rows: seq<Label>, c: Column)
    requires StrictlySortedBy(rows, c)
    ensures Ascending(Keys(rows, c))
  {
    forall i, j | 0 <= i < j < |rows| ensures Less(Keys(rows, c)[i], Keys(rows, c)[j]) {
      StrictPairs(rows, c, i, j);
    }
  }

  lemma KeysSet(rows: seq<Label>, c: Column)
    ensures Elems(Keys(rows, c)) == KeySet(rows, c)
  {
    var ks := Keys(rows, c);
    forall k | k in ks ensures k in KeySet(rows, c) {
      var i :| 0 <= i < |ks| && ks[i] == k;
      assert rows[i] in rows;
    }
    forall k | k in KeySet(rows, c) ensures k in ks {
      var x :| x in rows && Cell(x, c) == k;
      var i :| 0 <= i < |rows| && rows[i] == x;
      assert ks[i] == k;
    }
  }

  function Elems(s: seq<string>): set<string> {
    set x | x in s
  }

  lemma ElemsEmpty(s: seq<string>)
    ensures Elems(s) == {} <==> s == []
  {
    if s != [] {
      assert s[0] in Elems(s);
    }
  }

  /** Two strictly ascending lists with the same elements are equal. */
  lemma {:induction false} AscendingUnique(a: seq<string>, b: seq<string>)
    requires Ascending(a) && Ascending(b)
    requires Elems(a) == Elems(b)
    ensures a == b
    decreases |a|
  {
    ElemsEmpty(a);
    ElemsEmpty(b);
    if a != [] {
      assert a[0] in Elems(a);
      assert a[0] in b;
      assert b[0] in Elems(b);
      assert b[0] in a;
      if a[0] != b[0] {
        var j :| 0 <= j < |b| && b[j] == a[0];
        var i :| 0 <= i < |a| && a[i] == b[0];
        LessAsymmetric(a[0], b[0]);
      }
      LessIrreflexive(a[0]);
      assert Elems(a[1..]) == Elems(a) - {a[0]} by {
        assert forall x :: x in a <==> x == a[0] || x in a[1..];
      }
      assert Elems(b[1..]) == Elems(b) - {b[0]} by {
        assert forall x :: x in b <==> x == b[0] || x in b[1..];
      }
      AscendingUnique(a[1..], b[1..]);
      assert a == [a[0]] + a[1..] && b == [b[0]] + b[1..];
    }
  }

  /** One step of the sort: `x` placed before the first row it does not
      follow. */
  function Insert(x: Label, rows: seq<Label>, c: Column): (r: seq<Label>)
    ensures multiset(r) == multiset(rows) + multiset{x}
    ensures |r| > 0 && (r[0] == x || (rows != [] && r[0] == rows[0]))
  {
    if rows == [] then [x]
    else if LessEq(Cell(x, c), Cell(rows[0], c)) then [x] + rows
    else
      var t := Insert(x, rows[1..], c);
      assert rows == [rows[0]] + rows[1..];
      [rows[0]] + t
  }

  /** Inserting into a sorted frame keeps it sorted. */
  lemma {:induction false} InsertSorted(x: Label, rows: seq<Label>, c: Column)
    requires SortedBy(rows, c)
    ensures SortedBy(Insert(x, rows, c), c)
    decreases |rows|
  {
    if rows != [] && !LessEq(Cell(x, c), Cell(rows[0], c)) {
      LessTotal(Cell(x, c), Cell(rows[0], c));
      var tail := rows[1..];
      assert SortedBy(tail, c) by {
        forall i | 0 < i < |tail| ensures LessEq(Cell(tail[i - 1], c), Cell(tail[i], c)) {
          assert tail[i - 1] == rows[i] && tail[i] == rows[i + 1];
        }
      }
      InsertSorted(x, tail, c);
      var t := Insert(x, tail, c);
      assert LessEq(Cell(rows[0], c), Cell(t[0], c)) by {
        if t[0] != x {
          assert t[0] == rows[1];
        }
      }
      var r := [rows[0]] + t;
      forall i | 0 < i < |r| ensures LessEq(Cell(r[i - 1], c), Cell(r[i], c)) {
        if i > 1 {
          assert r[i - 1] == t[i - 2] && r[i] == t[i - 1];
        }
      }
    }
  }

  /** Inserting a row whose key is new into a strictly sorted frame keeps it
      strictly sorted. */
  lemma {:induction false} InsertStrict(x: Label, rows: seq<Label>, c: Column)
    requires StrictlySortedBy(rows, c)
    requires forall i :: 0 <= i < |rows| ==> Cell(rows[i], c) != Cell(x, c)
    ensures StrictlySortedBy(Insert(x, rows, c), c)
    decreases |rows|
  {
    if rows != [] && !LessEq(Cell(x, c), Cell(rows[0], c)) {
      LessTotal(Cell(x, c), Cell(rows[0], c));
      InsertStrict(x, rows[1..], c);
    }
  }

  /** `sort_values(c)`: a frame sorted by column `c` holding the same rows. */
  function SortBy(rows: seq<Label>, c: Column): (r: seq<Label>)
    ensures SortedBy(r, c)
    ensures multiset(r) == multiset(rows)
  {
    if rows == [] then []
    else
      assert rows == [rows[0]] + rows[1..];
      InsertSorted(rows[0], SortBy(rows[1..], c), c);
      Insert(rows[0], SortBy(rows[1..], c), c)
  }

  /** Sorting a frame whose keys are distinct orders it strictly; with
      distinct keys the sorted order is unique. */
  lemma {:induction false} SortDistinct(rows: seq<Label>, c: Column)
    requires DistinctKeys(rows, c)
    ensures StrictlySortedBy(SortBy(rows, c), c)
    decreases |rows|
  {
    if rows != [] {
      var t := SortBy(rows[1..], c);
      SortDistinct(rows[1..], c);
      forall i | 0 <= i < |t| ensures Cell(t[i], c) != Cell(rows[0], c) {
        assert t[i] in multiset(rows[1..]);
        var j :| 0 <= j < |rows[1..]| && rows[1..][j] == t[i];
        assert rows[j + 1] == t[i];
      }
      InsertStrict(rows[0], t, c);
    }
  }

  lemma KeySetSnoc(rows: seq<Label>, x: Label, c: Column)
    ensures KeySet(rows + [x], c) == KeySet(rows, c) + {Cell(x, c)}
  {
    assert forall y :: y in rows + [x] <==> y in rows || y == x;
  }

  /** `drop_duplicates(c)`: the first row with each value of column `c`,
      in frame order. */
  function KeepFirstBy(rows: seq<Label>, c: Column): (r: seq<Label>)
    ensures |r| <= |rows|
  {
    if rows == [] then []
    else
      var n := |rows| - 1;
      var k := KeepFirstBy(rows[..n], c);
      var x := rows[n];
      if Cell(x, c) in KeySet(rows[..n], c) then k else k + [x]
  }

  /** The rows kept have distinct keys, all the keys of the frame, and are
      drawn from the frame. */
  lemma {:induction false} KeepFirstKeys(rows: seq<Label>, c: Column)
    ensures var r := KeepFirstBy(rows, c);
      && DistinctKeys(r, c)
      && KeySet(r, c) == KeySet(rows, c)
      && multiset(r) <= multiset(rows)
    decreases |rows|
  {
    if rows != [] {
      var n := |rows| - 1;
      var k := KeepFirstBy(rows[..n], c);
      var x := rows[n];
      KeepFirstKeys(rows[..n], c);
      assert rows == rows[..n] + [x];
      KeySetSnoc(rows[..n], x, c);
      if Cell(x, c) !in KeySet(rows[..n], c) {
        KeySetSnoc(k, x, c);
        DistinctSnoc(k, x, c);
      }
    }
  }

  lemma DistinctSnoc(rows: seq<Label>, x: Label, c: Column)
    requires DistinctKeys(rows, c) && Cell(x, c) !in KeySet(rows, c)
    ensures DistinctKeys(rows + [x], c)
  {
    forall i | 0 <= i < |rows| ensures Cell(rows[i], c) != Cell(x, c) {
      assert rows[i] in rows;
    }
  }

  lemma KeepFirstSnoc(rows: seq<Label>, x: Label, c: Column)
    ensures KeepFirstBy(rows + [x], c)
         == if Cell(x, c) in KeySet(rows, c) then KeepFirstBy(rows, c) else KeepFirstBy(rows, c) + [x]
  {
    assert (rows + [x])[..|rows|] == rows;
  }

  /** The state of the `drop_duplicates` loop after the first `k` rows: the
      rows kept so far and the keys seen so far. */
  ghost predicate DedupInv(input: seq<Label>, k: nat, kept: seq<Label>, seen: set<string>, c: Column)
    requires k <= |input|
  {
    kept == KeepFirstBy(input[..k], c) && seen == KeySet(input[..k], c)
  }

  /** One row of the `drop_duplicates` loop: a row whose key has been seen
      is skipped, any other is kept and its key marked as seen. */
  lemma DedupStep(input: seq<Label>, k: nat, kept: seq<Label>, seen: set<string>, c: Column)
    requires k < |input| && DedupInv(input, k, kept, seen, c)
    ensures var x := input[k];
      if Cell(x, c) in seen then DedupInv(input, k + 1, kept, seen, c)
      else DedupInv(input, k + 1, kept + [x], seen + {Cell(x, c)}, c)
  {
    var x := input[k];
    assert input[..k + 1] == input[..k] + [x];
    KeepFirstSnoc(input[..k], x, c);
    KeySetSnoc(input[..k], x, c);
  }

  /** Each row that survives `drop_duplicates` is the first row with its key. */
  lemma {:induction false} KeptIsFirst(rows: seq<Label>, c: Column, k: nat) returns (i: nat)
    requires k < |KeepFirstBy(rows, c)|
    ensures i < |rows| && rows[i] == KeepFirstBy(rows, c)[k]
    ensures forall j :: 0 <= j < i ==> Cell(rows[j], c) != Cell(rows[i], c)
    decreases |rows|
  {
    var n := |rows| - 1;
    var p := KeepFirstBy(rows[..n], c);
    if k < |p| {
      i := KeptIsFirst(rows[..n], c, k);
      assert rows[..n][i] == rows[i];
      forall j | 0 <= j < i ensures Cell(rows[j], c) != Cell(rows[i], c) {
        assert rows[..n][j] == rows[j];
      }
    } else {
      i := n;
      forall j | 0 <= j < n ensures Cell(rows[j], c) != Cell(rows[n], c) {
        assert rows[..n][j] in rows[..n];
      }
    }
  }

  /** The frame after sorting by `db` and deduplicating by `OX`: one row per
      taxon, every taxon kept, rows drawn from the labels, and each row has a
      lexicographically least `db` among the labels of its taxon. */
  predicate IsDedup(labels: seq<Label>, kept: seq<Label>) {
    && DistinctKeys(kept, Ox)
    && KeySet(kept, Ox) == KeySet(labels, Ox)
    && multiset(kept) <= multiset(labels)
    && forall k, m :: 0 <= k < |kept| && 0 <= m < |labels| && labels[m].ox == kept[k].ox
         ==> LessEq(kept[k].db, labels[m].db)
  }

  /** Sorting by `db` and then keeping the first row per `OX` prefers the
      least `db` ("sp" before "tr"), whatever order the sort gives to ties. */
  lemma DedupMinimalDb(labels: seq<Label>, sorted: seq<Label>)
    requires SortedBy(sorted, Db) && multiset(sorted) == multiset(labels)
    ensures IsDedup(labels, KeepFirstBy(sorted, Ox))
  {
    var kept := KeepFirstBy(sorted, Ox);
    KeepFirstKeys(sorted, Ox);
    assert KeySet(sorted, Ox) == KeySet(labels, Ox) by {
      forall x ensures x in sorted <==> x in labels {
        assert x in sorted <==> x in multiset(sorted);
        assert x in labels <==> x in multiset(labels);
      }
    }
    forall k, m | 0 <= k < |kept| && 0 <= m < |labels| && labels[m].ox == kept[k].ox
      ensures LessEq(kept[k].db, labels[m].db)
    {
      var i := KeptIsFirst(sorted, Ox, k);
      assert labels[m] in multiset(sorted);
      var j :| 0 <= j < |sorted| && sorted[j] == labels[m];
      assert Cell(sorted[j], Ox) == Cell(sorted[i], Ox);
      assert i <= j;
      SortedPairs(sorted, Db, i, j);
    }
  }

  /** The rows of a frame that satisfy `keep`, in frame order (a boolean
      mask applied to the frame). */
  function Where(rows: seq<Label>, keep: Label -> bool): (r: seq<Label>)
    ensures forall x :: x in r <==> x in rows && keep(x)
    ensures multiset(r) <= multiset(rows)
  {
    if rows == [] then []
    else
      assert rows == [rows[0]] + rows[1..];
      (if keep(rows[0]) then [rows[0]] else []) + Where(rows[1..], keep)
  }

  lemma {:induction false} WhereDistinct(rows: seq<Label>, keep: Label -> bool, c: Column)
    requires DistinctKeys(rows, c)
    ensures DistinctKeys(Where(rows, keep), c)
    decreases |rows|
  {
    if rows != [] {
      WhereDistinct(rows[1..], keep, c);
      var t := Where(rows[1..], keep);
      forall x | x in t ensures Cell(x, c) != Cell(rows[0], c) {
        var j :| 0 <= j < |rows[1..]| && rows[1..][j] == x;
        assert rows[j + 1] == x;
      }
    }
  }

  /** The rows with a non-empty gene name. */
  function KeepNamed(rows: seq<Label>): (r: seq<Label>)
    ensures DistinctKeys(rows, Ox) ==> DistinctKeys(r, Ox)
  {
    var keep := (l: Label) => l.gn != "";
    if DistinctKeys(rows, Ox) then WhereDistinct(rows, keep, Ox); Where(rows, keep)
    else Where(rows, keep)
  }

  /** The rows whose taxon is one of `taxa`. */
  function KeepTaxa(rows: seq<Label>, taxa: set<string>): (r: seq<Label>)
    ensures DistinctKeys(rows, Ox) ==> DistinctKeys(r, Ox)
  {
    var keep := (l: Label) => l.ox in taxa;
    if DistinctKeys(rows, Ox) then WhereDistinct(rows, keep, Ox); Where(rows, keep)
    else Where(rows, keep)
  }

  /** The taxa present on both sides. */
  function SharedTaxa(named1: seq<Label>, named2: seq<Label>): (taxa: set<string>)
    ensures taxa <= KeySet(named1, Ox) && taxa <= KeySet(named2, Ox)
  {
    KeySet(named1, Ox) * KeySet(named2, Ox)
  }

  /** The rows each side writes, given its deduplicated frame: drop empty
      gene names, keep the shared taxa, sort by taxon. */
  function Sides(kept1: seq<Label>, kept2: seq<Label>): (r: (seq<Label>, seq<Label>))
    ensures multiset(r.0) <= multiset(kept1) && multiset(r.1) <= multiset(kept2)
  {
    var named1 := KeepNamed(kept1);
    var named2 := KeepNamed(kept2);
    var taxa := SharedTaxa(named1, named2);
    (SortBy(KeepTaxa(named1, taxa), Ox), SortBy(KeepTaxa(named2, taxa), Ox))
  }

  lemma KeepTaxaKeys(rows: seq<Label>, taxa: set<string>)
    requires taxa <= KeySet(rows, Ox)
    ensures KeySet(KeepTaxa(rows, taxa), Ox) == taxa
  {
    forall o | o in taxa ensures o in KeySet(KeepTaxa(rows, taxa), Ox) {
      var x :| x in rows && x.ox == o;
      assert x in KeepTaxa(rows, taxa);
    }
  }

  lemma SortKeys(rows: seq<Label>, c: Column)
    ensures KeySet(SortBy(rows, c), c) == KeySet(rows, c)
  {
    var s := SortBy(rows, c);
    forall x ensures x in s <==> x in rows {
      assert x in s <==> x in multiset(s);
      assert x in rows <==> x in multiset(rows);
    }
  }

  /** What one side writes: its rows with a gene name and a shared taxon,
      strictly ascending by taxon, exactly one row for each shared taxon. */
  lemma SideOrdered(kept: seq<Label>, taxa: set<string>)
    requires DistinctKeys(kept, Ox) && taxa <= KeySet(KeepNamed(kept), Ox)
    ensures var s := SortBy(KeepTaxa(KeepNamed(kept), taxa), Ox);
      Ascending(Keys(s, Ox)) && Elems(Keys(s, Ox)) == taxa
  {
    var named := KeepNamed(kept);
    var rows := KeepTaxa(named, taxa);
    SortDistinct(rows, Ox);
    StrictKeysAscending(SortBy(rows, Ox), Ox);
    KeysSet(SortBy(rows, Ox), Ox);
    SortKeys(rows, Ox);
    KeepTaxaKeys(named, taxa);
  }

  /** Both output files list the same taxa in the same strictly ascending
      order: the shared taxa of the two filtered frames. */
  lemma SidesAgree(kept1: seq<Label>, kept2: seq<Label>)
    requires DistinctKeys(kept1, Ox) && DistinctKeys(kept2, Ox)
    ensures var r := Sides(kept1, kept2);
      && Keys(r.0, Ox) == Keys(r.1, Ox)
      && Ascending(Keys(r.0, Ox))
      && Elems(Keys(r.0, Ox)) == SharedTaxa(KeepNamed(kept1), KeepNamed(kept2))
  {
    var taxa := SharedTaxa(KeepNamed(kept1), KeepNamed(kept2));
    SideOrdered(kept1, taxa);
    SideOrdered(kept2, taxa);
    var r := Sides(kept1, kept2);
    AscendingUnique(Keys(r.0, Ox), Keys(r.1, Ox));
  }

  /** A row is written by the first side exactly when it survived dedup, has
      a gene name, and its taxon also survives on the other side. */
  lemma SideMembers(kept1: seq<Label>, kept2: seq<Label>, x: Label)
    ensures x in Sides(kept1, kept2).0
        <==> x in kept1 && x.gn != "" && x.ox in KeySet(KeepNamed(kept2), Ox)
  {
    var named1 := KeepNamed(kept1);
    var taxa := SharedTaxa(named1, KeepNamed(kept2));
    var s := SortBy(KeepTaxa(named1, taxa), Ox);
    assert x in s <==> x in multiset(s);
    assert x in KeepTaxa(named1, taxa) <==> x in multiset(KeepTaxa(named1, taxa));
    if x in named1 {
      assert x.ox in KeySet(named1, Ox);
    }
  }

  /** A taxon whose kept row has an empty gene name is not shared and no
      written row has it, since dedup left no other row for it. */
  lemma EmptyGeneDropsTaxon(kept1: seq<Label>, kept2: seq<Label>, k: nat)
    requires DistinctKeys(kept1, Ox) && k < |kept1| && kept1[k].gn == ""
    ensures kept1[k].ox !in SharedTaxa(KeepNamed(kept1), KeepNamed(kept2))
    ensures forall x :: x in Sides(kept1, kept2).0 ==> x.ox != kept1[k].ox
  {
    forall x | x in kept1 && x.gn != "" ensures x.ox != kept1[k].ox {
      var j :| 0 <= j < |kept1| && kept1[j] == x;
      assert Cell(kept1[j], Ox) != Cell(kept1[k], Ox);
    }
    forall x | x in Sides(kept1, kept2).0 ensures x.ox != kept1[k].ox {
      SideMembers(kept1, kept2, x);
    }
  }

  /** A pandas frame of labels; `sort_values` and `drop_duplicates` with
      `inplace = True` replace its rows. */
  class LabelFrame {
    var rows: seq<Label>

    constructor (labels: seq<Label>)
      ensures rows == labels
    {
      rows := labels;
    }

    /** `sort_values(c, inplace = True)`. The sort is not stable, so only
        the order of the column and the multiset of rows are promised. */
    method SortValues(c: Column)
      modifies this
      ensures SortedBy(rows, c)
      ensures multiset(rows) == multiset(old(rows))
    {
      rows := SortBy(rows, c);
    }

    /** `drop_duplicates(c, inplace = True)`. */
    method DropDuplicates(c: Column)
      modifies this
      ensures rows == KeepFirstBy(old(rows), c)
    {
      var input := rows;
      var kept: seq<Label> := [];
      var seen: set<string> := {};
      var k := 0;
      while k < |input|
        invariant 0 <= k <= |input|
        invariant DedupInv(input, k, kept, seen, c)
      {
        var x := input[k];
        DedupStep(input, k, kept, seen, c);
        if Cell(x, c) !in seen {
          kept := kept + [x];
          seen := seen + {Cell(x, c)};
        }
        k := k + 1;
      }
      assert input[..k] == input;
      rows := kept;
    }
  }
}
