# CSR row-pointer bookkeeping of a sparse matrix product

The repository multiplies two sparse matrices, C = A·B. `test_py_spmm.py` takes
scipy COO matrices, turns each one into the three CSR arrays (row pointer,
column indices, values) and passes them to `spmm` in `spmm.c`. That C function
calls a sparse BLAS library for the product. It then exports C in the
four-array CSR form (one begin pointer and one end pointer per row) and reports
`nnz` as the end pointer of the last row. Python turns that result back into a
three-array CSR matrix.

The repository's own logic is this bookkeeping, and this project models it:

- `counting.dfy`, module `Counting`: the facts about a COO row-index array.
  These are the number of entries of row v (`CountOf`) and the number of
  entries below row i (`CountBelow`). `RowEntries` gives the payloads of row
  i in COO order. For sorted rows, the module proves that row i is a
  contiguous block.
- `get_indptr.dfy`, module `RowPointers`: `get_indptr` as a method on arrays.
  A counting loop plays the part of `bincount(row, minlength=M)`, including
  the error numpy raises for a negative index. A prefix-sum loop writes into a
  zeroed array of length M + 1 from index 1 on, and an extra bin, which exists
  when some index is M or more, makes the shape check fail. The method is
  proved equal to a pure specification: `indptr[i]` is the number of entries
  whose row is below i. Lemmas cover the array's length, the 0 it starts
  with, monotonicity, the size of each row's slice, the total, and the sorted
  case.
- `mul_coo_coo.dfy`, module `MulCooCoo`: the operand preparation of
  `mul_coo_coo` (the dimension assert, and `get_indptr` paired with the column
  and value arrays, as written and, for the finding below, with the entries
  grouped by row) and the assembly of C's row pointer from the exported
  begin pointers and `nnz`. Values are a type parameter `T`, standing for the
  double-precision values.

## Model

| member | source | states |
|---|---|---|
| `Counting.CountBelowIsSize` | test_py_spmm.py:12 | `CountBelow(row, i)` is the size of the set of positions p with `row[p] < i` |
| `Counting.RowEntries` | test_py_spmm.py:22-24 | the payloads of row i's entries number exactly `CountOf(row, i)`, the count bincount gives row i |
| `Counting.CountBelowAll` | test_py_spmm.py:11-12 | once every entry lies below row i, the running sum up to row i counts all of them |
| `Counting.CountBelowStep` | test_py_spmm.py:12 | each prefix-sum step adds exactly the count of one row: `CountBelow(i+1) = CountBelow(i) + CountOf(i)` |
| `Counting.CountBelowZero` | test_py_spmm.py:11-12 | with no negative index, nothing lies below row 0 |
| `Counting.CountBelowMonotone` | test_py_spmm.py:12 | the running sum of non-negative counts never decreases |
| `Counting.SortedSplit` | test_py_spmm.py:12 | for entries sorted by row, the first `CountBelow(i)` entries are exactly those below row i |
| `Counting.SortedRowIsSlice` | test_py_spmm.py:22-24 | for entries sorted by row, row i's payloads are the block `xs[CountBelow(i)..CountBelow(i+1)]` of the unchanged payload array |
| `RowPointers.GetIndptr` | test_py_spmm.py:9-13 | returns the row pointer whose entry i counts the entries below row i. It raises the bincount error for a negative index, and otherwise the shape error exactly when some index is M or more |
| `RowPointers.IndptrShape` | test_py_spmm.py:11-12 | the row pointer has M + 1 entries and starts at 0 |
| `RowPointers.IndptrMonotone` | test_py_spmm.py:12 | the row pointer is non-decreasing |
| `RowPointers.IndptrRowSize` | test_py_spmm.py:12 | `indptr[i+1] - indptr[i]` is the number of entries of row i, so a row with no entries gets an empty slice |
| `RowPointers.IndptrTotal` | test_py_spmm.py:11-12 | when every index lies in [0, M), the last entry is the number of entries (nnz), and every entry fits the int32 array |
| `RowPointers.IndptrSortedSlice` | test_py_spmm.py:12-24 | for a sorted row array, position p lies in `[indptr[i], indptr[i+1])` if and only if `row[p] == i` |
| `MulCooCoo.IndptrIsValid` | test_py_spmm.py:9-13 | the computed row pointer satisfies every CSR row-pointer invariant: M + 1 entries, starting at 0, non-decreasing, ending at the array lengths |
| `MulCooCoo.CsrOperandAsWritten` | test_py_spmm.py:22-28 | the CSR arrays handed to spmm pair the computed row pointer with the COO's own column and value arrays, left in COO order. Errors are those of get_indptr |
| `MulCooCoo.SortedOperandRepresents` | test_py_spmm.py:22-28 | when the COO entries are sorted by row, as scipy builds them from a dense array, those arrays are a CSR form of the matrix |
| `MulCooCoo.UnsortedOperandMisplacesEntries` | test_py_spmm.py:22-28 | with entries not sorted by row, they are not: a 2x2 COO with entries (1,0), (0,1) yields CSR row 0 = column 0 |
| `MulCooCoo.GroupByRow` | test_py_spmm.py:22-24 | correction of these lines, which have no scatter phase: the scatter of a counting sort puts each row's payloads, in COO order, into that row's slice, and leaves already sorted input unchanged |
| `MulCooCoo.GroupedUnique` | test_py_spmm.py:22-24 | two arrays that hold every row's entries in that row's slice are equal, so the CSR form of a COO matrix is unique |
| `MulCooCoo.CsrOperand` | test_py_spmm.py:22-28 | the corrected operand is a CSR form of the matrix whatever the entry order, and equals the as-written arrays when the entries are sorted |
| `MulCooCoo.CsrOperandsAsWritten` | test_py_spmm.py:17-28 | as written: fails with DimensionMismatch exactly when A's column count differs from B's row count, otherwise with A's row-index error, then B's. On success the arrays are each operand's row pointer with its own column and value arrays in COO order, and they represent an operand whose entries are sorted by row |
| `MulCooCoo.CsrOperands` | test_py_spmm.py:17-28 | corrected pairing, not lines 22-28 as written: the same dimension check and errors as `CsrOperandsAsWritten`, and on success both results are CSR forms of their operands whatever the entry order |
| `MulCooCoo.RowPointer` | test_py_spmm.py:58-61 | C's row pointer has M + 1 entries. Its first M are the exported begin pointers unchanged, and its last is nnz, the end pointer of row M-1 (spmm.c:64) |
| `MulCooCoo.RowPointerRoundTrip` | spmm.c:58-59 | the begin/end view `rowIndex[0..M)`, `rowIndex[1..M]` of a row pointer is contiguous and assembles back to the same row pointer |
| `MulCooCoo.RowPointerExtents` | test_py_spmm.py:58-61 | the assembled row pointer gives every row the extent `[begin[i], end[i])` the export gave it, if and only if the export is contiguous |
| `MulCooCoo.Product` | test_py_spmm.py:43-61 | the returned CSR arrays of C have M + 1 row offsets, and nnz column indices and values, where nnz is the last offset |
| `MulCooCoo.ProductIsValid` | test_py_spmm.py:50-61 | for a contiguous export starting at 0, C's arrays are a valid CSR matrix whose row i holds exactly the exported column indices and values `[begin[i], end[i])` |
| `MulCooCoo.ProductRow` | test_py_spmm.py:58-61 | row i of the returned CSR arrays is the exported range `[begin[i], end[i])` of the column and value buffers, although only their first nnz entries are read |

## Left out

- The product itself (spmm.c:58-63). The sparse BLAS library computes it behind foreign calls, so its result arrays are inputs here.
- Printing of A, B and C (spmm.c:29-55, 67-82) is I/O. The B loop's use of M instead of B's row count is part of that printing.
- Library handle creation and destruction (spmm.c:25, 86-89) are external resource management.
- ctypes marshalling, `frombuffer` over foreign memory and the ownership of the exported buffers (test_py_spmm.py:31-56, 62-63) are not modelled. `MulCooCoo.Product` takes the exported buffers as sequences.
- Double-precision arithmetic and the `np.allclose` comparison (test_py_spmm.py:71, 96) are not modelled. Values are an opaque type parameter.
- The `__main__` driver and the scipy constructors (test_py_spmm.py:67-96) are not modelled. `Counting.Sorted` describes what `coo_matrix` built from a dense array produces.
- `RowPointers.GetIndptr` requires at most 2^31 - 1 entries. The row pointer is an int32 array, and the silent wrap-around of larger running sums is not modelled.
- `MulCooCoo.RowPointer` requires M >= 1. For M = 0, spmm.c:64 reads `pointerE_C[-1]`, which is undefined behaviour rather than a result.
- `MulCooCoo.Product` requires nnz to lie within the exported buffers. Reading past them is undefined, so there is nothing to model.
- The `astype(np.int32)` conversion of column indices (test_py_spmm.py:23, 27) is taken to be lossless. Column indices are not range-checked, by the source or by this model.
- Under `python -O` the dimension `assert` on line 19 is skipped. `MulCooCoo.CsrOperandsAsWritten` and `MulCooCoo.CsrOperands` model the default, where it raises.
- A row-wise (Gustavson) multiplication with a per-row accumulator is not modelled. The repository never implements one: the code delegates the product to the library, and this model follows the code.

## Findings

| source | as written | input that shows it | evidently intended | confidence | as-written member | corrected member |
|---|---|---|---|---|---|---|
| test_py_spmm.py:22-28 | the row pointer from `get_indptr` is paired with `A.col` and `A.data` in their COO order | a 2x2 COO with `row = [1, 0]`, `col = [0, 1]`: `indptr = [0, 1, 2]`, so CSR row 0 holds column 0, while the matrix's row-0 entry is in column 1 | group the column indices and values by row, as a COO to CSR conversion does, so that any valid COO operand works. This is already so for the row-sorted COO matrices the driver builds | medium, not executed | `MulCooCoo.CsrOperandAsWritten`, `MulCooCoo.CsrOperandsAsWritten`, `MulCooCoo.UnsortedOperandMisplacesEntries` | `MulCooCoo.CsrOperand`, `MulCooCoo.CsrOperands`, `MulCooCoo.GroupByRow` |
