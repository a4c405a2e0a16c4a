/** The success-or-error outcome of an operation that the source lets raise. */
module Outcomes {
  datatype Result<T, E> = Ok(value: T) | Err(error: E)
}

/** COO row indices to a CSR row-pointer array (get_indptr in
    test_py_spmm.py).  The source allocates a zeroed int32 array of length
    M + 1, counts the entries of each row with bincount (minlength M) and
    writes the running sums of those counts into the array from index 1 on. */
module RowPointers {
  import opened Outcomes
  import opened Counting

  /** Largest value of the int32 array the row pointer is stored in. */
  const Int32Max: int := 0x7fff_ffff

  /** The two ways the numpy calls can raise: bincount refuses a negative
      index, and cumsum refuses an output slice shorter than the counts (which
      happens when some index is M or more). */
  datatype IndptrError = NegativeRowIndex | RowIndexTooLarge

  /** The CSR row pointer of `row` for m rows: entry i is the number of
      entries lying in a row below i. */
  function Indptr(row: seq<int>, m: nat): (r: seq<int>) {
    seq(m + 1, i => CountBelow(row, i))
  }

  /** What get_indptr returns or raises, as a function of its input. */
  function IndptrOutcome(row: seq<int>, m: nat): (r: Result<seq<int>, IndptrError>) {
    if !NonNegative(row) then Err(NegativeRowIndex)
    else if !AllInRows(row, m) then Err(RowIndexTooLarge)
    else Ok(Indptr(row, m))
  }

  /** get_indptr: the counting phase of a counting sort, on arrays. */
  method GetIndptr(row: seq<int>, m: nat) returns (r: Result<seq<int>, IndptrError>)
    requires |row| <= Int32Max
    ensures r == IndptrOutcome(row, m)
    ensures r.Ok? <==> AllInRows(row, m)
  {
    // bincount first scans for the largest index and rejects a negative one
    var hi := -1;
    var p := 0;
    while p < |row|
      invariant 0 <= p <= |row|
      invariant NonNegative(row[..p])
      invariant forall q :: 0 <= q < p ==> row[q] <= hi
      invariant hi == -1 || (0 <= hi && hi in row[..p])
    {
      if row[p] < 0 {
        assert !NonNegative(row);
        return Err(NegativeRowIndex);
      }
      if row[p] > hi {
        hi := row[p];
      }
      p := p + 1;
    }
    assert row[..|row|] == row;

    // bincount(row, minlength=m) has max(m, hi + 1) bins
    var bins := if hi + 1 > m then hi + 1 else m;
    var counts := new int[bins](_ => 0);
    p := 0;
    while p < |row|
      invariant 0 <= p <= |row|
      invariant forall v :: 0 <= v < bins ==> counts[v] == CountOf(row[..p], v)
    {
      assert row[..p + 1][..p] == row[..p];
      counts[row[p]] := counts[row[p]] + 1;
      p := p + 1;
    }
    assert row[..p] == row;

    // cumsum(..., out=indptr[1:]) needs exactly m bins
    if bins != m {
      assert !AllInRows(row, m);
      return Err(RowIndexTooLarge);
    }

    // the zeroed int32 array; cumsum writes indptr[1..], so indptr[0] stays 0
    var indptr := new int[m + 1](_ => 0);
    CountBelowZero(row);
    var i := 0;
    while i < m
      invariant 0 <= i <= m
      invariant forall v :: 0 <= v < m ==> counts[v] == CountOf(row, v)
      invariant forall k :: 0 <= k <= i ==> indptr[k] == CountBelow(row, k)
    {
      CountBelowStep(row, i);
      indptr[i + 1] := indptr[i] + counts[i];
      i := i + 1;
    }
    assert indptr[..] == Indptr(row, m);
    r := Ok(indptr[..]);
  }

  /** The row pointer has one entry per row plus one, and starts at 0. */
  lemma IndptrShape(row: seq<int>, m: nat)
    requires AllInRows(row, m)
    ensures |Indptr(row, m)| == m + 1
    ensures Indptr(row, m)[0] == 0
  {
    CountBelowZero(row);
  }

  /** The row pointer never decreases. */
  lemma IndptrMonotone(row: seq<int>, m: nat, i: nat, j: nat)
    requires i <= j <= m
    ensures Indptr(row, m)[i] <= Indptr(row, m)[j]
  {
    CountBelowMonotone(row, i, j);
  }

  /** Row i's slice [indptr[i], indptr[i+1]) has exactly as many places as row
      i has entries, so a row without entries gets an empty slice. */
  lemma IndptrRowSize(row: seq<int>, m: nat, i: nat)
    requires i < m
    ensures Indptr(row, m)[i + 1] - Indptr(row, m)[i] == CountOf(row, i)
  {
    CountBelowStep(row, i);
  }

  /** When every index lies in [0, m), the last entry is the number of
      entries (nnz), and every entry fits the int32 array. */
  lemma IndptrTotal(row: seq<int>, m: nat)
    requires AllInRows(row, m)
    ensures Indptr(row, m)[m] == |row|
    ensures |row| <= Int32Max ==> forall i :: 0 <= i <= m ==> 0 <= Indptr(row, m)[i] <= Int32Max
  {
    CountBelowAll(row, m);
  }

  /** When the entries are listed row by row, position p lies in row i's slice
      [indptr[i], indptr[i+1]) exactly when entry p belongs to row i: the
      unchanged column and value arrays line up with the row pointer. */
  lemma {:induction false} IndptrSortedSlice(row: seq<int>, m: nat, i: nat, p: nat)
    requires AllInRows(row, m) && Sorted(row)
    requires i < m && p < |row|
    ensures Indptr(row, m)[i] <= p < Indptr(row, m)[i + 1] <==> row[p] == i
  {
    SortedSplit(row, i);
    SortedSplit(row, i + 1);
  }
}
