/** The CSR bookkeeping of mul_coo_coo in test_py_spmm.py: turning each COO
    operand into the three CSR arrays handed to spmm, and turning the
    begin/end row pointers that spmm exports for the product back into the
    three-array CSR form.  The product itself is computed by the sparse BLAS
    library called from spmm.c and is not part of this model. */
module MulCooCoo {
  import opened Outcomes
  import opened Counting
  import opened RowPointers

  /** A sparse matrix in coordinate form: entry p is at (row[p], col[p]) and
      holds data[p].  T stands for the double-precision value type. */
  datatype Coo<T> = Coo(nRows: nat, nCols: nat, row: seq<int>, col: seq<int>, data: seq<T>)
  {
    /** The three entry arrays have one element per stored entry. */
    predicate WellFormed() {
      |row| == |col| == |data|
    }
  }

  /** The three arrays of a CSR matrix: row pointer, column indices, values. */
  datatype Csr<T> = Csr(indptr: seq<int>, indices: seq<int>, data: seq<T>)

  /** The row-pointer invariants of a CSR matrix with m rows: m + 1 offsets
      starting at 0, never decreasing, ending at the number of entries. */
  predicate ValidCsr<T>(c: Csr<T>, m: nat) {
    && |c.indptr| == m + 1
    && c.indptr[0] == 0
    && (forall i, j :: 0 <= i <= j <= m ==> c.indptr[i] <= c.indptr[j])
    && c.indptr[m] == |c.indices| == |c.data|
  }

  /** c is a valid CSR form of a: row i's slice of c holds exactly the column
      indices and values of a's row-i entries, in their COO order. */
  ghost predicate Represents<T>(c: Csr<T>, a: Coo<T>)
    requires a.WellFormed()
  {
    && ValidCsr(c, a.nRows)
    && forall i :: 0 <= i < a.nRows ==> RowMatches(c, a, i)
  }

  /** The slice [lo, hi) of out exists and holds exactly `entries`. */
  ghost predicate SliceHolds<E>(out: seq<E>, lo: int, hi: int, entries: seq<E>) {
    0 <= lo <= hi <= |out| && out[lo..hi] == entries
  }

  /** Row i of c holds the column indices and values of a's row-i entries. */
  ghost predicate RowMatches<T>(c: Csr<T>, a: Coo<T>, i: nat)
    requires a.WellFormed() && ValidCsr(c, a.nRows) && i < a.nRows
  {
    && SliceHolds(c.indices, c.indptr[i], c.indptr[i + 1], RowEntries(a.row, a.col, i))
    && SliceHolds(c.data, c.indptr[i], c.indptr[i + 1], RowEntries(a.row, a.data, i))
  }

  /** The row pointer that get_indptr computes satisfies the CSR row-pointer
      invariants for any arrays of the right length. */
  lemma IndptrIsValid<T>(row: seq<int>, m: nat, indices: seq<int>, data: seq<T>)
    requires AllInRows(row, m) && |indices| == |data| == |row|
    ensures ValidCsr(Csr(Indptr(row, m), indices, data), m)
  {
    IndptrShape(row, m);
    IndptrTotal(row, m);
    forall i, j | 0 <= i <= j <= m
      ensures Indptr(row, m)[i] <= Indptr(row, m)[j]
    {
      IndptrMonotone(row, m, i, j);
    }
  }

  /** Lines 22-24 (and 26-28 for B) as written: the computed row pointer is
      paired with the COO's own column and value arrays, left in COO order. */
  method CsrOperandAsWritten<T>(a: Coo<T>) returns (r: Result<Csr<T>, IndptrError>)
    requires a.WellFormed() && |a.row| <= Int32Max
    ensures r.Ok? <==> AllInRows(a.row, a.nRows)
    ensures r.Err? ==> r.error == (if NonNegative(a.row) then RowIndexTooLarge else NegativeRowIndex)
    ensures r.Ok? ==> r.value == Csr(Indptr(a.row, a.nRows), a.col, a.data)
  {
    var indptr := GetIndptr(a.row, a.nRows);
    if indptr.Err? {
      return Err(indptr.error);
    }
    r := Ok(Csr(indptr.value, a.col, a.data));
  }

  /** For a COO matrix whose entries are listed row by row (as scipy builds
      one from a dense array), the as-written pairing is a valid CSR form. */
  lemma SortedOperandRepresents<T>(a: Coo<T>)
    requires a.WellFormed() && AllInRows(a.row, a.nRows) && Sorted(a.row)
    ensures Represents(Csr(Indptr(a.row, a.nRows), a.col, a.data), a)
  {
    var c := Csr(Indptr(a.row, a.nRows), a.col, a.data);
    IndptrIsValid(a.row, a.nRows, a.col, a.data);
    forall i | 0 <= i < a.nRows
      ensures RowMatches(c, a, i)
    {
      SortedRowIsSlice(a.row, a.col, i);
      SortedRowIsSlice(a.row, a.data, i);
    }
  }

  /** For a COO matrix whose entries are not listed row by row, the as-written
      pairing is not a CSR form of it: with entries (1, 0) and (0, 1) of a 2x2
      matrix, row 0 of the CSR arrays holds column 0, but the matrix's row-0
      entry is in column 1. */
  lemma UnsortedOperandMisplacesEntries()
    ensures var a := Coo(2, 2, [1, 0], [0, 1], [10, 20]);
      && AllInRows(a.row, a.nRows)
      && !Represents(Csr(Indptr(a.row, a.nRows), a.col, a.data), a)
  {
    var a := Coo(2, 2, [1, 0], [0, 1], [10, 20]);
    var c := Csr(Indptr(a.row, a.nRows), a.col, a.data);
    assert c.indptr[0] == 0 && c.indptr[1] == 1 by {
      assert a.row[..1] == [1] && [1][..0] == [];
      assert CountBelow(a.row, 1) == 1;
    }
    assert RowEntries(a.row, a.col, 0) == [1] by {
      assert a.row[..1] == [1] && a.col[..1] == [0] && [1][..0] == [];
    }
    if ValidCsr(c, a.nRows) {
      assert c.indices[0..1] == [0];
      assert !RowMatches(c, a, 0);
    }
  }

  /** Row i's block: the row-i entries among the first p COO entries have
      been copied, in order, into `out` from row i's offset up to `next`,
      the place of row i's next entry. */
  ghost predicate PlacedRow<E>(row: seq<int>, xs: seq<E>, out: seq<E>, next: int, p: nat, i: int)
    requires |row| == |xs| && p <= |row|
  {
    && next == CountBelow(row, i) + CountOf(row[..p], i)
    && next <= |out|
    && out[CountBelow(row, i)..next] == RowEntries(row[..p], xs[..p], i)
  }

  /** The blocks of all m rows are in place for the first p COO entries. */
  ghost predicate Placed<E>(row: seq<int>, xs: seq<E>, out: seq<E>, next: seq<int>, p: nat, m: nat)
    requires |row| == |xs| && p <= |row|
  {
    && |out| == |row| && |next| == m
    && forall i :: 0 <= i < m ==> PlacedRow(row, xs, out, next[i], p, i)
  }

  /** Writing entry p at position d keeps row i's block in place: as its
      new last element when entry p is in row i, untouched otherwise. */
  lemma PlaceStepRow<E>(row: seq<int>, xs: seq<E>, out: seq<E>, next: int, p: nat, i: int, d: int)
    requires |row| == |xs| && p < |row| && 0 <= d < |out|
    requires PlacedRow(row, xs, out, next, p, i)
    requires row[p] == i ==> d == next
    requires row[p] != i ==> d < CountBelow(row, i) || next <= d
    ensures PlacedRow(row, xs, out[d := xs[p]], if row[p] == i then next + 1 else next, p + 1, i)
  {
    assert row[..p + 1][..p] == row[..p] && xs[..p + 1][..p] == xs[..p];
    var lo := CountBelow(row, i);
    if row[p] == i {
      assert out[d := xs[p]][lo..next + 1] == out[lo..next] + [xs[p]];
    } else {
      assert out[d := xs[p]][lo..next] == out[lo..next];
    }
  }

  /** Placing entry p at next[row[p]] extends its row's block and leaves the
      other rows' blocks untouched. */
  lemma PlaceStep<E>(row: seq<int>, xs: seq<E>, out: seq<E>, next: seq<int>, p: nat, m: nat)
    requires |row| == |xs| && p < |row| && AllInRows(row, m)
    requires Placed(row, xs, out, next, p, m)
    ensures 0 <= next[row[p]] < |out|
    ensures Placed(row, xs, out[next[row[p]] := xs[p]], next[row[p] := next[row[p]] + 1], p + 1, m)
  {
    var r := row[p];
    var d := next[r];
    assert PlacedRow(row, xs, out, next[r], p, r);
    // row r's block still has room: it ends before row r + 1's offset
    assert d < CountBelow(row, r + 1) <= |out| by {
      assert row[..p + 1][..p] == row[..p];
      CountOfPrefix(row, p + 1, r);
      CountBelowStep(row, r);
      CountBelowMonotone(row, r + 1, m);
    }
    forall i | 0 <= i < m
      ensures i == r ==> PlacedRow(row, xs, out[d := xs[p]], d + 1, p + 1, i)
      ensures i != r ==> PlacedRow(row, xs, out[d := xs[p]], next[i], p + 1, i)
    {
      assert PlacedRow(row, xs, out, next[i], p, i);
      if i == r {
        PlaceStepRow(row, xs, out, next[i], p, i, d);
      } else {
        PlaceKeepsOtherRow(row, xs, out, next[i], p, i, d);
      }
    }
  }

  /** Entry p, written at its own row's next free place d, lies outside the
      block of every other row i. */
  lemma PlaceKeepsOtherRow<E>(row: seq<int>, xs: seq<E>, out: seq<E>, next: int, p: nat, i: int, d: int)
    requires |row| == |xs| && p < |row| && 0 <= d < |out| && row[p] != i
    requires PlacedRow(row, xs, out, next, p, i)
    requires d == CountBelow(row, row[p]) + CountOf(row[..p], row[p])
    ensures PlacedRow(row, xs, out[d := xs[p]], next, p + 1, i)
  {
    var r := row[p];
    if i < r {
      // row i's block ends at or before row r's offset
      CountOfPrefix(row, p, i);
      CountBelowStep(row, i);
      CountBelowMonotone(row, i + 1, r);
    } else {
      CountBelowMonotone(row, r + 1, i);
      CountBelowStep(row, r);
      CountOfPrefix(row, p + 1, r);
      assert row[..p + 1][..p] == row[..p];
    }
    PlaceStepRow(row, xs, out, next, p, i, d);
  }

  /** Once every COO entry is placed, each row's block ends where the next
      row's begins. */
  lemma PlacedComplete<E>(row: seq<int>, xs: seq<E>, out: seq<E>, next: seq<int>, m: nat)
    requires |row| == |xs| && AllInRows(row, m)
    requires Placed(row, xs, out, next, |row|, m)
    ensures forall i :: 0 <= i < m ==> next[i] == CountBelow(row, i + 1)
  {
    assert row[..|row|] == row;
    forall i | 0 <= i < m
      ensures next[i] == CountBelow(row, i + 1)
    {
      assert PlacedRow(row, xs, out, next[i], |row|, i);
      CountBelowStep(row, i);
    }
  }

  /** `out` holds the entries of row i, in COO order, in row i's slice of the
      row pointer. */
  ghost predicate HoldsRow<E>(row: seq<int>, xs: seq<E>, out: seq<E>, i: int)
    requires |row| == |xs|
  {
    SliceHolds(out, CountBelow(row, i), CountBelow(row, i + 1), RowEntries(row, xs, i))
  }

  /** Every position of the entry arrays lies in the slice of some row. */
  lemma RowOfPosition(row: seq<int>, m: nat, q: nat) returns (i: nat)
    requires AllInRows(row, m) && q < |row|
    ensures i < m && CountBelow(row, i) <= q < CountBelow(row, i + 1)
  {
    assert NonNegative(row);
    CountBelowZero(row);
    CountBelowAll(row, m);
    i := m - 1;
    while q < CountBelow(row, i)
      invariant 0 <= i < m
      invariant q < CountBelow(row, i + 1)
      decreases i
    {
      i := i - 1;
    }
  }

  /** The grouping by row is unique: two arrays that both hold every row's
      entries in that row's slice are equal. */
  lemma GroupedUnique<E>(row: seq<int>, xs: seq<E>, out1: seq<E>, out2: seq<E>, m: nat)
    requires |row| == |xs| == |out1| == |out2| && AllInRows(row, m)
    requires forall i :: 0 <= i < m ==> HoldsRow(row, xs, out1, i) && HoldsRow(row, xs, out2, i)
    ensures out1 == out2
  {
    forall q | 0 <= q < |row|
      ensures out1[q] == out2[q]
    {
      var i := RowOfPosition(row, m, q);
      assert HoldsRow(row, xs, out1, i) && HoldsRow(row, xs, out2, i);
      var lo, hi := CountBelow(row, i), CountBelow(row, i + 1);
      assert out1[q] == out1[lo..hi][q - lo] && out2[q] == out2[lo..hi][q - lo];
    }
  }

  /** The scatter phase of a counting sort, used by the corrected CsrOperand
      (lines 22-24 as written have no such phase): each COO entry's payload is
      moved to the next free place of its row's slice, starting from the
      row-pointer offsets, so the entries end up grouped by row and, within
      a row, in their COO order. */
  method GroupByRow<E>(row: seq<int>, xs: seq<E>, indptr: seq<int>, m: nat) returns (out: seq<E>)
    requires |row| == |xs| && AllInRows(row, m) && indptr == Indptr(row, m)
    ensures |out| == |row|
    ensures forall i :: 0 <= i < m ==> HoldsRow(row, xs, out, i)
    ensures Sorted(row) ==> out == xs
  {
    var next := indptr[..m];
    out := xs;
    CountBelowZero(row);
    assert row[..0] == [] && xs[..0] == [];
    for p := 0 to |row|
      invariant Placed(row, xs, out, next, p, m)
    {
      PlaceStep(row, xs, out, next, p, m);
      var d := next[row[p]];
      out := out[d := xs[p]];
      next := next[row[p] := d + 1];
    }
    PlacedComplete(row, xs, out, next, m);
    assert row[..|row|] == row && xs[..|row|] == xs;
    forall i | 0 <= i < m
      ensures HoldsRow(row, xs, out, i)
    {
      assert PlacedRow(row, xs, out, next[i], |row|, i);
    }
    if Sorted(row) {
      // entries already listed row by row are in place from the start
      forall i | 0 <= i < m
        ensures HoldsRow(row, xs, xs, i)
      {
        SortedRowIsSlice(row, xs, i);
      }
      GroupedUnique(row, xs, out, xs, m);
    }
  }

  /** Lines 22-24 with the entries grouped by row: the column indices and the
      values are moved into row order by the scatter phase, so the result is a
      CSR form of the matrix whatever the order of the COO entries. */
  method CsrOperand<T>(a: Coo<T>) returns (r: Result<Csr<T>, IndptrError>)
    requires a.WellFormed() && |a.row| <= Int32Max
    ensures r.Ok? <==> AllInRows(a.row, a.nRows)
    ensures r.Err? ==> r.error == (if NonNegative(a.row) then RowIndexTooLarge else NegativeRowIndex)
    ensures r.Ok? ==> r.value.indptr == Indptr(a.row, a.nRows) && Represents(r.value, a)
    ensures r.Ok? && Sorted(a.row) ==> r.value == Csr(Indptr(a.row, a.nRows), a.col, a.data)
  {
    var outcome := GetIndptr(a.row, a.nRows);
    if outcome.Err? {
      return Err(outcome.error);
    }
    var indptr := outcome.value;
    var indices := GroupByRow(a.row, a.col, indptr, a.nRows);
    var values := GroupByRow(a.row, a.data, indptr, a.nRows);
    var c := Csr(indptr, indices, values);
    IndptrIsValid(a.row, a.nRows, indices, values);
    forall i | 0 <= i < a.nRows
      ensures RowMatches(c, a, i)
    {
      assert HoldsRow(a.row, a.col, indices, i) && HoldsRow(a.row, a.data, values, i);
    }
    r := Ok(c);
  }

  /** Why mul_coo_coo can reject its operands. */
  datatype SpmmError = DimensionMismatch | BadRowIndex(cause: IndptrError)

  /** Lines 17-28 as written: check that A's column count equals B's row
      count (the assert on line 19), then pair each operand's row pointer
      with its own column and value arrays, left in COO order.  The result
      represents the operands when their entries are listed row by row. */
  method CsrOperandsAsWritten<T>(a: Coo<T>, b: Coo<T>) returns (r: Result<(Csr<T>, Csr<T>), SpmmError>)
    requires a.WellFormed() && b.WellFormed()
    requires |a.row| <= Int32Max && |b.row| <= Int32Max
    ensures r == Err(DimensionMismatch) <==> a.nCols != b.nRows
    ensures r.Ok? <==> a.nCols == b.nRows && AllInRows(a.row, a.nRows) && AllInRows(b.row, b.nRows)
    ensures r.Ok? ==> r.value == (Csr(Indptr(a.row, a.nRows), a.col, a.data), Csr(Indptr(b.row, b.nRows), b.col, b.data))
    ensures r.Ok? && Sorted(a.row) ==> Represents(r.value.0, a)
    ensures r.Ok? && Sorted(b.row) ==> Represents(r.value.1, b)
    ensures a.nCols == b.nRows && !AllInRows(a.row, a.nRows) ==>
      r == Err(BadRowIndex(IndptrOutcome(a.row, a.nRows).error))
    ensures a.nCols == b.nRows && AllInRows(a.row, a.nRows) && !AllInRows(b.row, b.nRows) ==>
      r == Err(BadRowIndex(IndptrOutcome(b.row, b.nRows).error))
  {
    if a.nCols != b.nRows {
      return Err(DimensionMismatch);
    }
    var csrA := CsrOperandAsWritten(a);
    if csrA.Err? {
      return Err(BadRowIndex(csrA.error));
    }
    var csrB := CsrOperandAsWritten(b);
    if csrB.Err? {
      return Err(BadRowIndex(csrB.error));
    }
    if Sorted(a.row) {
      SortedOperandRepresents(a);
    }
    if Sorted(b.row) {
      SortedOperandRepresents(b);
    }
    r := Ok((csrA.value, csrB.value));
  }

  /** Lines 17-28 with the corrected pairing of CsrOperand: the same checks
      and errors as CsrOperandsAsWritten, but each operand's entries are
      grouped by row, so both results represent their operands whatever the
      order of the COO entries.  This is not what lines 22-28 do. */
  method CsrOperands<T>(a: Coo<T>, b: Coo<T>) returns (r: Result<(Csr<T>, Csr<T>), SpmmError>)
    requires a.WellFormed() && b.WellFormed()
    requires |a.row| <= Int32Max && |b.row| <= Int32Max
    ensures r == Err(DimensionMismatch) <==> a.nCols != b.nRows
    ensures r.Ok? <==> a.nCols == b.nRows && AllInRows(a.row, a.nRows) && AllInRows(b.row, b.nRows)
    ensures r.Ok? ==> Represents(r.value.0, a) && Represents(r.value.1, b)
    ensures a.nCols == b.nRows && !AllInRows(a.row, a.nRows) ==>
      r == Err(BadRowIndex(IndptrOutcome(a.row, a.nRows).error))
    ensures a.nCols == b.nRows && AllInRows(a.row, a.nRows) && !AllInRows(b.row, b.nRows) ==>
      r == Err(BadRowIndex(IndptrOutcome(b.row, b.nRows).error))
  {
    if a.nCols != b.nRows {
      return Err(DimensionMismatch);
    }
    var csrA := CsrOperand(a);
    if csrA.Err? {
      return Err(BadRowIndex(csrA.error));
    }
    var csrB := CsrOperand(b);
    if csrB.Err? {
      return Err(BadRowIndex(csrB.error));
    }
    r := Ok((csrA.value, csrB.value));
  }

  /** Lines 58-61 with spmm.c:64: the M begin pointers exported for C, followed
      by nnz, the end pointer of C's last row. */
  function RowPointer(pointerB: seq<int>, pointerE: seq<int>): (r: seq<int>)
    requires |pointerB| == |pointerE| >= 1
    ensures |r| == |pointerB| + 1
    ensures r[..|pointerB|] == pointerB
    ensures r[|pointerB|] == pointerE[|pointerE| - 1]
  {
    pointerB + [pointerE[|pointerE| - 1]]
  }

  /** spmm.c:58-59 hands each operand to the library as begin pointers
      rowIndex[0..M) and end pointers rowIndex[1..M]; that four-array view is
      contiguous, and assembling it back gives the row pointer unchanged. */
  lemma RowPointerRoundTrip(indptr: seq<int>)
    requires |indptr| >= 2
    ensures var m := |indptr| - 1;
      Contiguous(indptr[..m], indptr[1..]) && RowPointer(indptr[..m], indptr[1..]) == indptr
  {
  }

  /** The four-array form exported for C is contiguous: each row ends where
      the next begins. */
  predicate Contiguous(pointerB: seq<int>, pointerE: seq<int>)
    requires |pointerB| == |pointerE|
  {
    forall i :: 0 <= i < |pointerB| - 1 ==> pointerE[i] == pointerB[i + 1]
  }

  /** In a contiguous export, row i's offsets in the assembled row pointer
      are its exported begin and end pointers. */
  lemma RowPointerAt(pointerB: seq<int>, pointerE: seq<int>, i: nat)
    requires |pointerB| == |pointerE| >= 1 && Contiguous(pointerB, pointerE)
    requires i < |pointerB|
    ensures RowPointer(pointerB, pointerE)[i] == pointerB[i]
    ensures RowPointer(pointerB, pointerE)[i + 1] == pointerE[i]
  {
    var r, m := RowPointer(pointerB, pointerE), |pointerB|;
    assert r[i] == r[..m][i];
    if i + 1 < m {
      assert r[i + 1] == r[..m][i + 1];
    }
  }

  /** The three-array row pointer gives every row of C the extent
      [pointerB[i], pointerE[i]) that the export gave it exactly when the
      export is contiguous. */
  lemma RowPointerExtents(pointerB: seq<int>, pointerE: seq<int>)
    requires |pointerB| == |pointerE| >= 1
    ensures (forall i :: 0 <= i < |pointerB| ==>
               RowPointer(pointerB, pointerE)[i] == pointerB[i]
               && RowPointer(pointerB, pointerE)[i + 1] == pointerE[i])
            <==> Contiguous(pointerB, pointerE)
  {
    var r, m := RowPointer(pointerB, pointerE), |pointerB|;
    if Contiguous(pointerB, pointerE) {
      forall i | 0 <= i < m
        ensures r[i] == pointerB[i] && r[i + 1] == pointerE[i]
      {
        RowPointerAt(pointerB, pointerE, i);
      }
    } else {
      var i :| 0 <= i < m - 1 && pointerE[i] != pointerB[i + 1];
      assert r[i + 1] == r[..m][i + 1];
    }
  }

  /** A contiguous export whose rows each begin no later than they end has a
      non-decreasing assembled row pointer. */
  lemma {:induction false} RowPointerMonotone(pointerB: seq<int>, pointerE: seq<int>, i: nat, j: nat)
    requires |pointerB| == |pointerE| >= 1 && Contiguous(pointerB, pointerE)
    requires forall k :: 0 <= k < |pointerB| ==> pointerB[k] <= pointerE[k]
    requires i <= j <= |pointerB|
    ensures RowPointer(pointerB, pointerE)[i] <= RowPointer(pointerB, pointerE)[j]
    decreases j - i
  {
    if i < j {
      RowPointerAt(pointerB, pointerE, i);
      RowPointerMonotone(pointerB, pointerE, i + 1, j);
    }
  }

  /** Lines 43-61: the CSR arrays mul_coo_coo returns for C, reading nnz
      column indices and values from the exported buffers. */
  function Product<T>(pointerB: seq<int>, pointerE: seq<int>, columns: seq<int>, values: seq<T>): (c: Csr<T>)
    requires |pointerB| == |pointerE| >= 1
    requires 0 <= pointerE[|pointerE| - 1] <= |columns| && pointerE[|pointerE| - 1] <= |values|
    ensures |c.indptr| == |pointerB| + 1
    ensures |c.indices| == |c.data| == c.indptr[|pointerB|]
  {
    var nnz := pointerE[|pointerE| - 1];
    Csr(RowPointer(pointerB, pointerE), columns[..nnz], values[..nnz])
  }

  /** Row i of c holds exactly the entries [lo, hi) of the column and value
      buffers. */
  ghost predicate RowIsExportRange<T>(c: Csr<T>, i: nat, columns: seq<int>, values: seq<T>, lo: int, hi: int) {
    && i + 1 < |c.indptr|
    && 0 <= c.indptr[i] <= c.indptr[i + 1] <= |c.indices| && c.indptr[i + 1] <= |c.data|
    && 0 <= lo <= hi <= |columns| && hi <= |values|
    && c.indices[c.indptr[i]..c.indptr[i + 1]] == columns[lo..hi]
    && c.data[c.indptr[i]..c.indptr[i + 1]] == values[lo..hi]
  }

  /** When the exported four-array form is a contiguous CSR (rows start at 0,
      each begin at most its end), the returned arrays are a valid CSR matrix
      of M rows and row i holds the exported entries [pointerB[i], pointerE[i]). */
  lemma ProductIsValid<T>(pointerB: seq<int>, pointerE: seq<int>, columns: seq<int>, values: seq<T>)
    requires |pointerB| == |pointerE| >= 1
    requires 0 <= pointerE[|pointerE| - 1] <= |columns| && pointerE[|pointerE| - 1] <= |values|
    requires pointerB[0] == 0 && Contiguous(pointerB, pointerE)
    requires forall i :: 0 <= i < |pointerB| ==> pointerB[i] <= pointerE[i]
    ensures ValidCsr(Product(pointerB, pointerE, columns, values), |pointerB|)
    ensures forall i :: 0 <= i < |pointerB| ==>
      RowIsExportRange(Product(pointerB, pointerE, columns, values), i, columns, values, pointerB[i], pointerE[i])
  {
    var c, m := Product(pointerB, pointerE, columns, values), |pointerB|;
    forall i, j | 0 <= i <= j <= m
      ensures c.indptr[i] <= c.indptr[j]
    {
      RowPointerMonotone(pointerB, pointerE, i, j);
    }
    forall i | 0 <= i < m
      ensures RowIsExportRange(c, i, columns, values, pointerB[i], pointerE[i])
    {
      ProductRow(pointerB, pointerE, columns, values, i);
    }
  }

  /** One row of ProductIsValid: row i's slice of the nnz-long prefixes is its
      slice of the buffers. */
  lemma ProductRow<T>(pointerB: seq<int>, pointerE: seq<int>, columns: seq<int>, values: seq<T>, i: nat)
    requires |pointerB| == |pointerE| >= 1
    requires 0 <= pointerE[|pointerE| - 1] <= |columns| && pointerE[|pointerE| - 1] <= |values|
    requires pointerB[0] == 0 && Contiguous(pointerB, pointerE)
    requires forall k :: 0 <= k < |pointerB| ==> pointerB[k] <= pointerE[k]
    requires i < |pointerB|
    ensures RowIsExportRange(Product(pointerB, pointerE, columns, values), i, columns, values, pointerB[i], pointerE[i])
  {
    var c, m := Product(pointerB, pointerE, columns, values), |pointerB|;
    var nnz := c.indptr[m];
    assert 0 <= pointerB[i] <= pointerE[i] <= nnz by {
      RowPointerAt(pointerB, pointerE, i);
      RowPointerMonotone(pointerB, pointerE, 0, i);
      RowPointerMonotone(pointerB, pointerE, i + 1, m);
    }
    assert c.indptr[i] == pointerB[i] && c.indptr[i + 1] == pointerE[i] by {
      RowPointerAt(pointerB, pointerE, i);
    }
    PrefixSlice(columns, nnz, pointerB[i], pointerE[i]);
    PrefixSlice(values, nnz, pointerB[i], pointerE[i]);
  }

  /** A slice inside a prefix is the same slice of the whole sequence. */
  lemma PrefixSlice<X>(s: seq<X>, n: int, lo: int, hi: int)
    requires 0 <= lo <= hi <= n <= |s|
    ensures s[..n][lo..hi] == s[lo..hi]
  {
  }
}
