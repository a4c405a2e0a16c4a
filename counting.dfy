/** Counting facts about the row-index array of a sparse matrix in coordinate
    (COO) form: entry p of the matrix lies in row `row[p]`.  The CSR row pointer
    computed from such an array is the counting phase of a counting sort, and
    every property of it reduces to the facts proved here. */
module Counting {

  /** No entry has a negative row index. */
  predicate NonNegative(row: seq<int>) {
    forall p :: 0 <= p < |row| ==> 0 <= row[p]
  }

  /** Every entry lies in one of the rows 0 .. m-1. */
  predicate AllInRows(row: seq<int>, m: int) {
    forall p :: 0 <= p < |row| ==> 0 <= row[p] < m
  }

  /** The entries are listed row by row (row indices ascending). */
  predicate Sorted(row: seq<int>) {
    forall p, q :: 0 <= p <= q < |row| ==> row[p] <= row[q]
  }

  /** Number of entries that lie in row v. */
  function CountOf(row: seq<int>, v: int): (c: nat)
    ensures c <= |row|
  {
    if row == [] then 0
    else CountOf(row[..|row| - 1], v) + (if row[|row| - 1] == v then 1 else 0)
  }

  /** Number of entries that lie in a row strictly below i. */
  function CountBelow(row: seq<int>, i: int): (c: nat)
    ensures c <= |row|
  {
    if row == [] then 0
    else CountBelow(row[..|row| - 1], i) + (if row[|row| - 1] < i then 1 else 0)
  }

  /** The payloads `xs[p]` of the entries of row i, in their original order. */
  function RowEntries<E>(row: seq<int>, xs: seq<E>, i: int): (r: seq<E>)
    requires |row| == |xs|
    ensures |r| == CountOf(row, i)
  {
    if row == [] then []
    else
      var n := |row| - 1;
      RowEntries(row[..n], xs[..n], i) + (if row[n] == i then [xs[n]] else [])
  }

  /** The positions of the entries that lie in a row strictly below i. */
  function EntriesBelow(row: seq<int>, i: int): (r: set<nat>) {
    set p: nat | p < |row| && row[p] < i
  }

  /** CountBelow counts exactly those positions. */
  lemma {:induction false} CountBelowIsSize(row: seq<int>, i: int)
    ensures CountBelow(row, i) == |EntriesBelow(row, i)|
  {
    if row != [] {
      var n := |row| - 1;
      CountBelowIsSize(row[..n], i);
      var before := EntriesBelow(row[..n], i);
      if row[n] < i {
        assert EntriesBelow(row, i) == before + {n};
        assert n !in before;
      } else {
        assert EntriesBelow(row, i) == before;
      }
    } else {
      assert EntriesBelow(row, i) == {};
    }
  }

  /** When every entry lies below row i, all of them are counted. */
  lemma {:induction false} CountBelowAll(row: seq<int>, i: int)
    requires forall p :: 0 <= p < |row| ==> row[p] < i
    ensures CountBelow(row, i) == |row|
  {
    if row != [] {
      CountBelowAll(row[..|row| - 1], i);
    }
  }

  /** Moving the bound from i to i+1 adds exactly the entries of row i. */
  lemma {:induction false} CountBelowStep(row: seq<int>, i: int)
    ensures CountBelow(row, i + 1) == CountBelow(row, i) + CountOf(row, i)
  {
    if row != [] {
      CountBelowStep(row[..|row| - 1], i);
    }
  }

  /** With no negative row index, nothing lies below row 0. */
  lemma {:induction false} CountBelowZero(row: seq<int>)
    requires NonNegative(row)
    ensures CountBelow(row, 0) == 0
  {
    if row != [] {
      CountBelowZero(row[..|row| - 1]);
    }
  }

  /** Raising the bound never lowers the count. */
  lemma {:induction false} CountBelowMonotone(row: seq<int>, i: int, j: int)
    requires i <= j
    ensures CountBelow(row, i) <= CountBelow(row, j)
  {
    if row != [] {
      CountBelowMonotone(row[..|row| - 1], i, j);
    }
  }

  /** A prefix of the entries holds at most as many entries of row v as the whole. */
  lemma {:induction false} CountOfPrefix(row: seq<int>, p: nat, v: int)
    requires p <= |row|
    ensures CountOf(row[..p], v) <= CountOf(row, v)
  {
    if p < |row| {
      var init := row[..|row| - 1];
      assert init[..p] == row[..p];
      CountOfPrefix(init, p, v);
    } else {
      assert row[..p] == row;
    }
  }

  /** When the entries are sorted by row, the first CountBelow(row, i) of them
      are exactly those below row i. */
  lemma {:induction false} SortedSplit(row: seq<int>, i: int)
    requires Sorted(row)
    ensures forall p :: 0 <= p < CountBelow(row, i) ==> row[p] < i
    ensures forall p :: CountBelow(row, i) <= p < |row| ==> i <= row[p]
  {
    if row != [] {
      var n := |row| - 1;
      var init := row[..n];
      SortedSplit(init, i);
    }
  }

  /** When the entries are sorted by row, the entries of row i form the
      contiguous block between CountBelow(row, i) and CountBelow(row, i + 1). */
  lemma {:induction false} SortedRowIsSlice<E>(row: seq<int>, xs: seq<E>, i: int)
    requires |row| == |xs| && Sorted(row)
    ensures CountBelow(row, i) <= CountBelow(row, i + 1)
    ensures RowEntries(row, xs, i) == xs[CountBelow(row, i)..CountBelow(row, i + 1)]
  {
    CountBelowStep(row, i);
    if row != [] {
      var n := |row| - 1;
      SortedPrefix(row, n);
      SortedRowIsSlice(row[..n], xs[..n], i);
      if row[n] == i {
        SortedClosesRow(row, xs, i);
      } else if row[n] < i {
        // every entry lies below row i, so row i is empty
        SortedAllBelow(row, i);
        SortedAllBelow(row, i + 1);
      } else {
        LaterRowKeepsSlice(row, xs, i);
      }
    }
  }

  /** An entry of a later row leaves row i's block where it was. */
  lemma LaterRowKeepsSlice<E>(row: seq<int>, xs: seq<E>, i: int)
    requires |row| == |xs| && row != [] && row[|row| - 1] > i
    requires var n := |row| - 1;
      CountBelow(row[..n], i) <= CountBelow(row[..n], i + 1) &&
      RowEntries(row[..n], xs[..n], i) == xs[..n][CountBelow(row[..n], i)..CountBelow(row[..n], i + 1)]
    ensures CountBelow(row, i) <= CountBelow(row, i + 1)
    ensures RowEntries(row, xs, i) == xs[CountBelow(row, i)..CountBelow(row, i + 1)]
  {
    var n := |row| - 1;
    assert xs[..n][CountBelow(row, i)..CountBelow(row, i + 1)]
        == xs[CountBelow(row, i)..CountBelow(row, i + 1)];
  }

  /** A prefix of a sorted row array is sorted. */
  lemma SortedPrefix(row: seq<int>, n: nat)
    requires Sorted(row) && n <= |row|
    ensures Sorted(row[..n])
  {
  }

  /** When the last of the sorted entries lies below row i, all of them do. */
  lemma SortedAllBelow(row: seq<int>, i: int)
    requires Sorted(row) && row != [] && row[|row| - 1] < i
    ensures CountBelow(row, i) == |row|
  {
    CountBelowAll(row, i);
  }

  /** The inductive step of SortedRowIsSlice when the last entry lies in row i. */
  lemma SortedClosesRow<E>(row: seq<int>, xs: seq<E>, i: int)
    requires |row| == |xs| && Sorted(row) && row != [] && row[|row| - 1] == i
    requires var n := |row| - 1;
      CountBelow(row[..n], i) <= CountBelow(row[..n], i + 1) &&
      RowEntries(row[..n], xs[..n], i) == xs[..n][CountBelow(row[..n], i)..CountBelow(row[..n], i + 1)]
    ensures RowEntries(row, xs, i) == xs[CountBelow(row, i)..|row|]
  {
    var n := |row| - 1;
    var init := row[..n];
    SortedSplit(init, i + 1);
    assert CountBelow(init, i + 1) == n;
    var lo := CountBelow(init, i);
    assert xs[lo..|row|] == xs[..n][lo..n] + [xs[n]];
  }
}
