# matrix-simp in Dafny

A model of the dense, generic, row-major `Matrix<T>` of the Rust crate
matrix-simp (`src/lib.rs`), with proofs about it. A matrix is a record of a
row count `n`, a column count `m` and flat storage `data`. Entry (r, c)
lives at flat index `r * m + c`. Entries are Dafny `real`s standing for the
floating-point element type.

Files and modules:

- `flat_index.dfy` (`FlatIndex`): the arithmetic of row-major indices. The
  index `r * m + c` of a cell lies inside an `n * m` storage, splits back into
  `r` and `c`, and is distinct for distinct cells.
- `sums.dfy` (`Sums`): the left-to-right sum, and `Reduce`, which models
  `reduce(|acc, x| acc + x).unwrap()`.
- `matrix.dfy` (`Matrices`): the `Matrix` datatype with its well-formedness
  (`|data| == n * m`) and entry access. It also holds the inherent methods
  (`new`, `zeros`, `identity`, `get_row`, `get_col`, `transpose`, `exp`,
  `one_over`) and `From`, which models both `From` impls.
- `ops.dfy` (`MatrixOps`): the operator impls: elementwise `+`, scalar `*`
  and `/`, and the matrix product.
- `examples_of_use.dfy` (`MatrixTests`): the crate's unit tests, as lemmas
  on the same inputs. It also holds three lemmas that are not crate tests:
  `RaggedRowsMisalign`, `ConformableShapes` and `ShortRowsTruncate` show, on
  small inputs, what `from` and `*` do with rows of mismatched lengths.

The value-returning code (slices, filter/map pipelines, the fold in `from`)
is modelled as functions. The three loops that write into a matrix are
methods with loop invariants: `identity`, `add` and the matrix product, whose
inner loop is its own method `FillRow`.
Each of these methods is proved equal to a specification function.
`IdentityMatrix`, `Plus` and `Product` are those functions, and lemmas
state their algebraic properties. Every panic of the source becomes a
precondition: `value[0]` on an empty row list, `idx % 0`, slices and
indices out of bounds, and `unwrap` on an empty row.

Behaviour of the crate that the model keeps as written:

- Matrices of zero rows or columns are allowed.
- `get_col` on `m == 0` panics only when the storage is non-empty.
- `+` needs only that the right operand's storage is at least as long as the
  left's. Shapes are not compared.
- `*` of two matrices does not compare shapes either. When the rows of the
  left operand are shorter than the columns of the right, each entry sums
  only the first (row length) terms. The result is
  max(rhs.n, self.n)-by-max(self.m, rhs.m). On the shapes of `Conformable`
  (see "## Left out") it is 0 outside the self.n-by-rhs.m block; on other
  shapes the writes can land on cells outside that block.

## Model

| member | source | states |
|---|---|---|
| `Matrices.New` | src/lib.rs:16-18 | `new(v, n, m)` is a well-formed n-by-m matrix whose every entry is v |
| `Matrices.Zeros` | src/lib.rs:20-22 | `zeros(n, m)` is a well-formed n-by-m matrix whose every entry is 0 |
| `Matrices.NewSum` | src/lib.rs:16-22 | the entries of `new(v, n, m)` sum to n * m * v |
| `Matrices.IdentityMatrix` | src/lib.rs:23-29 | the n-by-n identity: entry (i, j) is 1 if i == j and 0 otherwise |
| `Matrices.DiagonalIndex` | src/lib.rs:25-27 | every write index (n + 1) * i with i < n is the flat index of cell (i, i) and lies inside the n * n storage |
| `Matrices.Identity` | src/lib.rs:23-29 | the loop writing 1 at (n + 1) * idx over zeros gives an n-by-n matrix with 1 exactly on the diagonal, equal to `IdentityMatrix(n)` |
| `Matrices.WriteEntry` | src/lib.rs:26 | storing at the flat index of cell (r0, c0) changes that entry and no other |
| `Matrices.Extensionality` | src/lib.rs:9-13 | two well-formed matrices of one shape with equal entries are equal |
| `Matrices.Flatten` | src/lib.rs:185-189 | the `extend` fold concatenating the rows in order; when there is a row, the storage begins with that first row (the full layout is in `FlattenLength` and `FlattenAt`) |
| `Matrices.FlattenLength` | src/lib.rs:185-189 | rows all of length w concatenate to (number of rows) * w entries |
| `Matrices.FlattenAt` | src/lib.rs:185-189 | when all rows have length w, the concatenation holds rows[i][j] at i * w + j |
| `Matrices.FlattenUniform` | src/lib.rs:182-191 | for any non-empty rows: if all have the first row's length, the rows concatenated form a well-formed matrix of that shape whose entry (i, j) is rows[i][j] |
| `Matrices.From` | src/lib.rs:180-192 | needs a non-empty row list; the shape is (number of rows, length of the first row); when every row has that length, the result is well-formed and entry (i, j) is rows[i][j] |
| `Matrices.GetRow` | src/lib.rs:31-33 | needs (row + 1) * m within the storage; returns m entries, and on a well-formed matrix with row < n the j-th is entry (row, j) |
| `Matrices.ColumnPrefix` | src/lib.rs:36-40 | the `enumerate().filter(idx % m == col)` scan over the first k stored entries; `m > 0 or k == 0` stands for the `idx % 0` panic, which happens as soon as one index is scanned; it keeps at most one entry per scanned index |
| `Matrices.ColumnPrefixEmpty` | src/lib.rs:36-40 | the filter `idx % m == col` keeps nothing when col >= m |
| `Matrices.ColumnPrefixRows` | src/lib.rs:36-40 | after r whole rows the filter has kept exactly one entry per row, data[k * m + col] in row order |
| `Matrices.ColumnPrefixWhole` | src/lib.rs:36-40 | the scan over the whole storage keeps nothing when col >= m, and column col (one entry per row, in row order) on a well-formed matrix with col < m |
| `Matrices.GetCol` | src/lib.rs:35-41 | needs m > 0 or empty storage; empty when col >= m; on a well-formed matrix with col < m it has n entries and the k-th is entry (k, col) |
| `Matrices.Transpose` | src/lib.rs:43-49 | needs m >= 1; has m rows, and on a well-formed matrix it is well-formed, n columns, entry (i, j) equal to the original's entry (j, i) |
| `Matrices.TransposeInvolutive` | src/lib.rs:43-49 | transposing a well-formed matrix with n, m >= 1 twice gives it back |
| `Matrices.MapEntries` | src/lib.rs:53-57 | an elementwise map keeps shape and storage length, applies f to every stored entry, and on a well-formed matrix maps entry (r, c) to f of it |
| `Matrices.Exp` | src/lib.rs:51-59 | `exp()` keeps the shape and replaces every stored entry x by exp(x) |
| `Matrices.OneOver` | src/lib.rs:61-69 | `one_over()` keeps the shape and replaces every stored entry x by the division 1 / x |
| `Matrices.OneOverTwice` | src/lib.rs:61-69 | where division is exact and no entry is 0, `one_over` applied twice gives the matrix back |
| `Matrices.MapTranspose` | src/lib.rs:43-69 | an elementwise map commutes with transpose |
| `Matrices.MapCompose` | src/lib.rs:51-69 | two elementwise maps in a row are the map of their composition |
| `MatrixOps.Plus` | src/lib.rs:101-110 | the sum has the left operand's shape and storage length |
| `MatrixOps.PlusEntry` | src/lib.rs:101-110 | on two well-formed matrices of one shape, entry (r, c) of the sum is the sum of the entries |
| `MatrixOps.PlusCommutative` | src/lib.rs:101-110 | `+` on matrices of one shape is commutative |
| `MatrixOps.PlusZeros` | src/lib.rs:101-110 | adding `zeros(n, m)` to a well-formed n-by-m matrix changes nothing |
| `MatrixOps.PlusTranspose` | src/lib.rs:101-110 | the transpose of a sum is the sum of the transposes |
| `MatrixOps.Add` | src/lib.rs:101-110 | needs rhs's storage at least as long; the in-place loop over a clone of self keeps self's shape, makes stored entry k equal self's k-th plus rhs's k-th, and equals `Plus(self, rhs)` |
| `MatrixOps.ScalarMul` | src/lib.rs:117-125 | `* k` keeps the shape and multiplies every stored entry by k |
| `MatrixOps.ScalarDiv` | src/lib.rs:133-141 | `/ k` keeps the shape and divides every stored entry by k |
| `MatrixOps.ScalarDivIsMulByInverse` | src/lib.rs:117-141 | dividing by k is multiplying by 1 / k |
| `MatrixOps.ScalarDivUndoesMul` | src/lib.rs:117-141 | dividing by k undoes multiplying by k |
| `MatrixOps.ScalarMulDistributes` | src/lib.rs:101-125 | scaling distributes over `+` |
| `MatrixOps.Product` | src/lib.rs:149-173 | on conformable shapes: well-formed, shape max(b.n, a.n)-by-max(a.m, b.m) containing the a.n-by-b.m block; entry (r, c) is the sum over t < a.m of a(r, t) * b(t, c) inside that block, and 0 outside it |
| `MatrixOps.Dot` | src/lib.rs:160-166 | the `enumerate().map(num * col[idx]).reduce(+).unwrap()` pipeline; the precondition that the row is non-empty and no longer than the column stands for the `unwrap` panic on an empty row and the `col[idx]` panic on a shorter column; the result is the sum of the pairwise products over the row's length |
| `MatrixOps.DotRowCol` | src/lib.rs:157-166 | on conformable shapes neither `get_row(r)`, `get_col(c)`, `col[idx]` nor `unwrap` panics, and the reduced products are the sum over t < a.m of a(r, t) * b(t, c) |
| `MatrixOps.ProductEntry` | src/lib.rs:149-173 | inside the a.n-by-b.m block, entry (r, c) of the product is the row-by-column sum |
| `MatrixOps.RowShape` | src/lib.rs:151-169 | on a conformable row with a column to fill, 1 <= a.m <= b.n, the cells lie in the result, and the write stride mat.n acts as the row length mat.m |
| `MatrixOps.FillStep` | src/lib.rs:169 | storing entry (rdx, cdx) of the target at rdx * mat.n + cdx, when that is the cell's row-major index, extends the filled prefix by exactly that cell |
| `MatrixOps.RowDone` | src/lib.rs:156-170 | once columns 0 to b.m - 1 of row rdx are filled, the whole row agrees with the product, whose other entries there are 0 |
| `MatrixOps.AllDone` | src/lib.rs:151-172 | once rows 0 to a.n - 1 are filled, the matrix is the product, whose remaining rows are 0 |
| `MatrixOps.FillRow` | src/lib.rs:156-170 | the inner loop over cdx < rhs.m takes a matrix filled before row rdx to one filled through row rdx |
| `MatrixOps.Mul` | src/lib.rs:149-173 | on conformable shapes, the loop over rows, writing at rdx * mat.n + cdx into zeros of shape max(rhs.n, self.n)-by-max(self.m, rhs.m), yields the entries of `Product` and equals it |
| `MatrixOps.ProductIdentityLeft` | src/lib.rs:149-173 | the identity times a square matrix is that matrix |
| `MatrixOps.ProductIdentityRight` | src/lib.rs:149-173 | a square matrix times the identity is that matrix |
| `MatrixOps.EntryDotSwapped` | src/lib.rs:149-173 | for any matrices holding the entries of a and b with rows and columns swapped, with a.m == b.n, their row-by-column sums in reverse order are those of a and b at the swapped cell |
| `MatrixOps.EntryDotTransposed` | src/lib.rs:149-173 | when a.m == b.n, entry (i, j) of the row-by-column sums of the transposes in reverse order is entry (j, i) of those of a and b |
| `MatrixOps.ProductTranspose` | src/lib.rs:149-173 | when a.m == b.n and the result is square, both products are conformable and the transpose of the product is the product of the transposes in reverse order |
| `Sums.Reduce` | src/lib.rs:165-166 | `reduce(+).unwrap()`; the precondition of a non-empty sequence stands for the `unwrap` panic on an empty sequence; on a non-empty sequence the result is the left-to-right sum |
| `Sums.SumConstant` | src/lib.rs:219-232 | k copies of v sum to k * v |
| `MatrixTests.InitSums` | src/lib.rs:219-232 | the 5-by-4 zeros sum to 0 and `new(1, 5, 4)` to 20 |
| `MatrixTests.FromRows` | src/lib.rs:235-270 | `[[1,2,3],[3,2,1]]` stores `[1,2,3,3,2,1]` as 2-by-3, and `[[1,0],[0,1]]` stores `[1,0,0,1]` as 2-by-2 |
| `MatrixTests.RaggedRowsMisalign` | src/lib.rs:180-192 | `from` does not check row lengths: rows of lengths 2, 1, 3 give a well-formed 3-by-2 matrix whose entry (1, 1) is 4, the first entry of the third row |
| `MatrixTests.AddOfSwaps` | src/lib.rs:273-291 | `[[1,0],[0,1]] + [[0,1],[1,0]]` stores `[1,1,1,1]` |
| `MatrixTests.GetRowOfGrid` | src/lib.rs:294-309 | row 2 of the 4-by-3 test matrix is `[2,9,3]` |
| `MatrixTests.GetColOfGrid` | src/lib.rs:312-327 | column 1 of the 4-by-3 test matrix is `[0,1,9,1]` |
| `MatrixTests.ProductOfTallAndWide` | src/lib.rs:330-351 | `[[1,2],[3,4],[5,6]]` times `[[1,2,3],[4,5,6]]` stores `[9,12,15,19,26,33,29,40,51]` |
| `MatrixTests.TransposeOfTall` | src/lib.rs:354-369 | the transpose of `[[1,2],[3,4],[5,6]]` stores `[1,3,5,2,4,6]` |
| `MatrixTests.ElementwiseOfTall` | src/lib.rs:372-438 | `exp` and `one_over` of `[[1,2],[3,4],[5,6]]` apply the transform to each entry in storage order |
| `MatrixTests.ConformableShapes` | src/lib.rs:151-169 | 1-by-3 times 3-by-2 and 2-by-1 times 2-by-2 are conformable; 2-by-3 times 3-by-4 is not, and its write for (1, 0) lands on cell (0, 3); 3-by-1 times 1-by-1 is not, and its write for (1, 0) is past the storage |
| `MatrixTests.ShortRowsTruncate` | src/lib.rs:157-166 | a 2-by-1 times a 2-by-2 is conformable, 2-by-2, and entry (r, c) is a(r, 0) * b(0, c), so row 1 of b is ignored |
| `MatrixTests.ScalarsOfTall` | src/lib.rs:389-420 | `[[1,2],[3,4],[5,6]]` times 5 and over 5 |

## Left out

- Floating point throughout: entries are exact reals. Rounding, overflow and NaN are not modelled. Sums run left to right in the source's order, but over reals the order makes no difference.
- `Exp`, `OneOver`: the exponential and the division are abstract functions passed in. A division by 0 (infinity for floats) is whatever that function returns.
- `ScalarDiv`: requires a non-zero scalar, because real division by zero is undefined. The source divides floats and yields infinity or NaN.
- `Mul`: requires both operands well-formed and `Conformable`. Shapes outside it are not modelled. `Conformable` is: the loop never runs (self.n == 0 or rhs.m == 0), or 1 <= self.m <= rhs.n and the writes land on their cells, which holds when the result is square or self has one row. Outside it the source panics (an empty row makes `unwrap` fail, a row longer than the column makes `col[idx]` fail), or the writes at `rdx * mat.n + cdx` fall on other cells (2-by-3 times 3-by-4) or run past the storage (3-by-1 times 1-by-1).
- The `From<&[&[T]]>` impl (src/lib.rs:197-209) is the same function as `From<Vec<Vec<T>>>` once rows are sequences, so `From` models both.
- `fmt::Display` and `fmt::Debug` (src/lib.rs:72-95): text rendering only.
- The `num_traits` bounds and the `f32`-to-`T` conversions of `new`, `zeros` and `identity`: the value is taken as a real directly.
- `usize` arithmetic: `n * m`, `row * m` and `(n + 1) * idx` are unbounded naturals, so the overflow panics of debug builds are not modelled.
- Ownership: `transpose` and `exp` take `&mut self` but never change it, and `add` clones. Matrices are values here, so this is not visible.
- target/package/matrix-simp-0.1.0/src/lib.rs is cargo's packaged copy of an earlier version. It has only a subset of the operations of src/lib.rs, and its `Debug` output differs. It is not part of this model.
