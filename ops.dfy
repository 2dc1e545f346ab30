/** The arithmetic operator impls of `src/lib.rs`: elementwise `+`, scalar
    `*` and `/`, and the matrix product. */
module MatrixOps {
  import opened FlatIndex
  import opened Sums
  import opened Matrices

  // ---------------------------------------------------------------- addition

  /** Elementwise sum: left's shape, left's storage length, and entry k of the
      storage is the sum of both k-th stored entries. Entries of right beyond
      the length of left are ignored. */
  function Plus(left: Matrix, right: Matrix): (s: Matrix)
    requires |right.data| >= |left.data|
    ensures s.n == left.n && s.m == left.m && |s.data| == |left.data|
  {
    Matrix(left.n, left.m, seq(|left.data|, k requires 0 <= k < |left.data| => left.data[k] + right.data[k]))
  }

  /** On two well-formed matrices of one shape, `+` adds entry by entry. */
  lemma PlusEntry(a: Matrix, b: Matrix)
    requires a.WellFormed() && b.WellFormed() && a.n == b.n && a.m == b.m
    ensures Plus(a, b).WellFormed()
    ensures forall r, c :: 0 <= r < a.n && 0 <= c < a.m ==>
      Plus(a, b).Entry(r, c) == a.Entry(r, c) + b.Entry(r, c)
  {
  }

  /** `+` is commutative on matrices of one shape. */
  lemma PlusCommutative(a: Matrix, b: Matrix)
    requires a.n == b.n && a.m == b.m && |a.data| == |b.data|
    ensures Plus(a, b) == Plus(b, a)
  {
  }

  /** Adding zeros changes nothing. */
  lemma PlusZeros(a: Matrix)
    requires a.WellFormed()
    ensures Plus(a, Zeros(a.n, a.m)) == a
  {
    var z := Zeros(a.n, a.m);
    PlusEntry(a, z);
    Extensionality(Plus(a, z), a);
  }

  /** Transposing a sum is summing the transposes. */
  lemma PlusTranspose(a: Matrix, b: Matrix)
    requires a.WellFormed() && b.WellFormed() && a.n == b.n && a.m == b.m && a.m >= 1
    ensures Transpose(Plus(a, b)) == Plus(Transpose(a), Transpose(b))
  {
    PlusEntry(a, b);
    PlusEntry(Transpose(a), Transpose(b));
    Extensionality(Transpose(Plus(a, b)), Plus(Transpose(a), Transpose(b)));
  }

  /** `ops::Add`: clone self, then add rhs's k-th stored entry to the k-th
      stored entry for every k; indexing rhs panics when it is shorter. */
  method Add(self: Matrix, rhs: Matrix) returns (mat: Matrix)
    requires |rhs.data| >= |self.data|
    ensures mat.n == self.n && mat.m == self.m && |mat.data| == |self.data|
    ensures forall k :: 0 <= k < |self.data| ==> mat.data[k] == self.data[k] + rhs.data[k]
    ensures mat == Plus(self, rhs)
  {
    mat := self;
    for idx := 0 to |mat.data|
      invariant mat.n == self.n && mat.m == self.m && |mat.data| == |self.data|
      invariant forall k :: 0 <= k < idx ==> mat.data[k] == self.data[k] + rhs.data[k]
      invariant forall k :: idx <= k < |mat.data| ==> mat.data[k] == self.data[k]
    {
      mat := mat.(data := mat.data[idx := mat.data[idx] + rhs.data[idx]]);
    }
  }

  // ---------------------------------------------------------------- scalars

  /** `ops::Mul<T>`: every entry multiplied by k. */
  function ScalarMul(a: Matrix, k: real): (b: Matrix)
    ensures b.n == a.n && b.m == a.m && |b.data| == |a.data|
    ensures forall i :: 0 <= i < |a.data| ==> b.data[i] == a.data[i] * k
  {
    MapEntries(a, x => x * k)
  }

  /** `ops::Div<T>`: every entry divided by k (k must be non-zero in the
      real-number model). */
  function ScalarDiv(a: Matrix, k: real): (b: Matrix)
    requires k != 0.0
    ensures b.n == a.n && b.m == a.m && |b.data| == |a.data|
    ensures forall i :: 0 <= i < |a.data| ==> b.data[i] == a.data[i] / k
  {
    MapEntries(a, x => x / k)
  }

  /** Dividing by k is multiplying by 1 / k. */
  lemma ScalarDivIsMulByInverse(a: Matrix, k: real)
    requires k != 0.0
    ensures ScalarDiv(a, k) == ScalarMul(a, 1.0 / k)
  {
    var x, y := ScalarDiv(a, k), ScalarMul(a, 1.0 / k);
    forall i | 0 <= i < |a.data|
      ensures x.data[i] == y.data[i]
    {
      assert a.data[i] / k == a.data[i] * (1.0 / k);
    }
    assert x.data == y.data;
  }

  /** Dividing by k undoes multiplying by k. */
  lemma ScalarDivUndoesMul(a: Matrix, k: real)
    requires k != 0.0
    ensures ScalarDiv(ScalarMul(a, k), k) == a
  {
    var x := ScalarDiv(ScalarMul(a, k), k);
    forall i | 0 <= i < |a.data|
      ensures x.data[i] == a.data[i]
    {
      assert (a.data[i] * k) / k == a.data[i];
    }
    assert x.data == a.data;
  }

  /** Scaling distributes over `+`. */
  lemma ScalarMulDistributes(a: Matrix, b: Matrix, k: real)
    requires |b.data| >= |a.data|
    ensures ScalarMul(Plus(a, b), k) == Plus(ScalarMul(a, k), ScalarMul(b, k))
  {
    var x, y := ScalarMul(Plus(a, b), k), Plus(ScalarMul(a, k), ScalarMul(b, k));
    forall i | 0 <= i < |a.data|
      ensures x.data[i] == y.data[i]
    {
      assert (a.data[i] + b.data[i]) * k == a.data[i] * k + b.data[i] * k;
    }
    assert x.data == y.data;
  }

  // ---------------------------------------------------------------- product

  function Max(x: nat, y: nat): nat {
    if x >= y then x else y
  }

  /** Entry (r, c) of the product as the loop computes it: the sum over the
      a.m indices t of row r of a of a(r, t) * b(t, c). When b has more rows
      than a has columns, the rows of b past a.m take no part. */
  function EntryDot(a: Matrix, b: Matrix, r: nat, c: nat): real
    requires a.WellFormed() && b.WellFormed() && a.m <= b.n
    requires r < a.n && c < b.m
  {
    Sum(seq(a.m, t requires 0 <= t < a.m => a.Entry(r, t) * b.Entry(t, c)))
  }

  /** The shapes on which the product of `src/lib.rs` neither panics nor
      writes a cell other than the intended one: either the loop body never
      runs (a has no rows or b no columns), or every row of a is non-empty
      (`unwrap` on an empty row panics), no longer than the columns of b
      (`col[idx]` panics otherwise), and the writes at `rdx * mat.n + cdx`
      hit cell (rdx, cdx) of the max(b.n, a.n)-by-max(a.m, b.m) result: the
      result is square, or only row 0 is written. */
  predicate Conformable(a: Matrix, b: Matrix) {
    a.WellFormed() && b.WellFormed() &&
    (a.n == 0 || b.m == 0 || (1 <= a.m <= b.n && (a.n == 1 || Max(b.n, a.n) == Max(a.m, b.m))))
  }

  /** The product as `src/lib.rs` computes it on conformable shapes: of shape
      max(b.n, a.n)-by-max(a.m, b.m), with the row-by-column sums of
      `EntryDot` in the top-left a.n-by-b.m block and 0 everywhere else. */
  function Product(a: Matrix, b: Matrix): (p: Matrix)
    requires Conformable(a, b)
    ensures p.WellFormed() && p.n == Max(b.n, a.n) && p.m == Max(a.m, b.m)
    ensures a.n <= p.n && b.m <= p.m
    ensures forall r, c :: 0 <= r < p.n && 0 <= c < p.m ==>
      p.Entry(r, c) == if r < a.n && c < b.m then EntryDot(a, b, r, c) else 0.0
  {
    var f := (r: nat, c: nat) => if r < a.n && c < b.m then EntryDot(a, b, r, c) else 0.0;
    FromEntriesEntry(Max(b.n, a.n), Max(a.m, b.m), f);
    FromEntries(Max(b.n, a.n), Max(a.m, b.m), f)
  }

  /** Inside the a.n-by-b.m block, entry (r, c) of the product is the
      row-by-column sum. */
  lemma ProductEntry(a: Matrix, b: Matrix, r: nat, c: nat)
    requires Conformable(a, b) && r < a.n && c < b.m
    ensures r < Product(a, b).n && c < Product(a, b).m
    ensures Product(a, b).Entry(r, c) == EntryDot(a, b, r, c)
  {
    var p := Product(a, b);
    assert p.Entry(r, c) == if r < a.n && c < b.m then EntryDot(a, b, r, c) else 0.0;
  }

  /** The dot product computed inside the loop of `ops::Mul<Matrix<T>>`:
      entry idx of the row times entry idx of the column, reduced with `+`.
      Indexing the column panics when it is shorter than the row, and
      `unwrap` panics on an empty row. */
  function Dot(row: seq<real>, col: seq<real>): (r: real)
    requires 1 <= |row| <= |col|
    ensures r == Sum(seq(|row|, idx requires 0 <= idx < |row| => row[idx] * col[idx]))
  {
    Reduce(seq(|row|, idx requires 0 <= idx < |row| => row[idx] * col[idx]))
  }

  /** Row r of a times column c of b, as the loop computes it, is the sum
      over t < a.m of a(r, t) * b(t, c). The rows of a must be non-empty and
      no longer than the columns of b, as on conformable shapes. */
  lemma DotRowCol(a: Matrix, b: Matrix, r: nat, c: nat)
    requires a.WellFormed() && b.WellFormed() && 1 <= a.m <= b.n && r < a.n && c < b.m
    ensures (r + 1) * a.m <= |a.data|
    ensures b.m > 0 && |GetCol(b, c)| == b.n
    ensures 1 <= |GetRow(a, r)| <= |GetCol(b, c)|
    ensures Dot(GetRow(a, r), GetCol(b, c)) == EntryDot(a, b, r, c)
  {
    MulMonotone(r + 1, a.n, a.m);
    var row, col := GetRow(a, r), GetCol(b, c);
    var terms := seq(|row|, idx requires 0 <= idx < |row| => row[idx] * col[idx]);
    var spec := seq(a.m, t requires 0 <= t < a.m => a.Entry(r, t) * b.Entry(t, c));
    forall t | 0 <= t < a.m
      ensures terms[t] == spec[t]
    {
      assert row[t] == a.Entry(r, t);
      assert col[t] == b.Entry(t, c);
    }
    assert terms == spec;
  }

  /** mat agrees with the target p on the cells before (rdx, cdx) in
      row-major order and is 0 on the others. */
  predicate FilledBefore(mat: Matrix, p: Matrix, rdx: nat, cdx: nat)
  {
    mat.WellFormed() && p.WellFormed() && mat.n == p.n && mat.m == p.m &&
    forall r, c :: 0 <= r < mat.n && 0 <= c < mat.m ==>
      mat.Entry(r, c) == if r < rdx || (r == rdx && c < cdx) then p.Entry(r, c) else 0.0
  }

  /** On a conformable row rdx with some column to fill, the rows of a are
      non-empty and no longer than the columns of b, the cells of the block
      lie inside the product, and the stride `mat.n` of the writes is the
      row length `mat.m` as far as row rdx is concerned. */
  lemma RowShape(a: Matrix, b: Matrix, p: Matrix, rdx: nat)
    requires Conformable(a, b) && p == Product(a, b) && rdx < a.n && b.m > 0
    ensures 1 <= a.m <= b.n
    ensures rdx < p.n && b.m <= p.m && rdx * p.n == rdx * p.m
  {
    if a.n == 1 {
      assert rdx == 0;
    } else {
      assert p.n == p.m;
    }
  }

  /** Storing entry (rdx, cdx) of the target p at rdx * mat.n + cdx, where
      that is the row-major index of the cell, extends the filled prefix by
      one cell. */
  lemma FillStep(mat: Matrix, p: Matrix, rdx: nat, cdx: nat, sum: real)
    requires FilledBefore(mat, p, rdx, cdx)
    requires rdx < mat.n && cdx < mat.m && rdx * mat.n == rdx * mat.m
    requires sum == p.Entry(rdx, cdx)
    ensures rdx * mat.n + cdx < |mat.data|
    ensures FilledBefore(mat.(data := mat.data[rdx * mat.n + cdx := sum]), p, rdx, cdx + 1)
  {
    WriteEntry(mat, rdx, cdx, sum);
    var next := mat.(data := mat.data[rdx * mat.n + cdx := sum]);
    forall r, c | 0 <= r < next.n && 0 <= c < next.m
      ensures next.Entry(r, c) == if r < rdx || (r == rdx && c < cdx + 1) then p.Entry(r, c) else 0.0
    {
      assert next.Entry(r, c) == if r == rdx && c == cdx then sum else mat.Entry(r, c);
    }
  }

  /** After the last column of b, the rest of row rdx of the product is 0,
      so the row is complete. */
  lemma RowDone(mat: Matrix, a: Matrix, b: Matrix, p: Matrix, rdx: nat)
    requires Conformable(a, b) && p == Product(a, b)
    requires FilledBefore(mat, p, rdx, b.m)
    ensures FilledBefore(mat, p, rdx + 1, 0)
  {
    forall r, c | 0 <= r < mat.n && 0 <= c < mat.m
      ensures mat.Entry(r, c) == if r < rdx + 1 then p.Entry(r, c) else 0.0
    {
      if r == rdx && c >= b.m {
        assert p.Entry(r, c) == 0.0;
      }
    }
  }

  /** After the last row of a, the rows left are 0 in the product too. */
  lemma AllDone(mat: Matrix, a: Matrix, b: Matrix, p: Matrix)
    requires Conformable(a, b) && p == Product(a, b)
    requires FilledBefore(mat, p, a.n, 0)
    ensures mat == p
  {
    forall r, c | 0 <= r < mat.n && 0 <= c < mat.m
      ensures mat.Entry(r, c) == p.Entry(r, c)
    {
      if r >= a.n {
        assert p.Entry(r, c) == 0.0;
      }
    }
    Extensionality(mat, p);
  }

  /** The inner loop of `ops::Mul<Matrix<T>>` for row rdx: for every cdx
      below rhs.m, store the dot product of row rdx and column cdx at flat
      index rdx * mat.n + cdx. Row rdx of the product is then complete. */
  method FillRow(start: Matrix, self: Matrix, rhs: Matrix, ghost p: Matrix, rdx: nat) returns (mat: Matrix)
    requires Conformable(self, rhs) && p == Product(self, rhs) && rdx < self.n
    requires FilledBefore(start, p, rdx, 0)
    ensures FilledBefore(mat, p, rdx + 1, 0)
  {
    mat := start;
    for cdx := 0 to rhs.m
      invariant FilledBefore(mat, p, rdx, cdx)
    {
      RowShape(self, rhs, p, rdx);
      DotRowCol(self, rhs, rdx, cdx);
      ProductEntry(self, rhs, rdx, cdx);
      var row := GetRow(self, rdx);
      var col := GetCol(rhs, cdx);
      var sum := Dot(row, col);
      FillStep(mat, p, rdx, cdx, sum);
      mat := mat.(data := mat.data[rdx * mat.n + cdx := sum]);
    }
    RowDone(mat, self, rhs, p, rdx);
  }

  /** `ops::Mul<Matrix<T>>`: allocate zeros of shape
      max(rhs.n, self.n)-by-max(self.m, rhs.m), then fill rows 0 to self.n - 1
      with the inner loop. */
  method Mul(self: Matrix, rhs: Matrix) returns (mat: Matrix)
    requires Conformable(self, rhs)
    ensures mat.WellFormed() && mat.n == Max(rhs.n, self.n) && mat.m == Max(self.m, rhs.m)
    ensures forall r, c :: 0 <= r < mat.n && 0 <= c < mat.m ==>
      mat.Entry(r, c) == if r < self.n && c < rhs.m then EntryDot(self, rhs, r, c) else 0.0
    ensures mat == Product(self, rhs)
  {
    ghost var p := Product(self, rhs);
    mat := Zeros(Max(rhs.n, self.n), Max(self.m, rhs.m));
    for rdx := 0 to self.n
      invariant FilledBefore(mat, p, rdx, 0)
    {
      mat := FillRow(mat, self, rhs, p, rdx);
    }
    AllDone(mat, self, rhs, p);
  }

  // ---------------------------------------------------------------- product laws

  /** The identity is a left unit of the product on square matrices. */
  lemma ProductIdentityLeft(a: Matrix)
    requires a.WellFormed() && a.n == a.m && a.n >= 1
    ensures Conformable(IdentityMatrix(a.n), a)
    ensures Product(IdentityMatrix(a.n), a) == a
  {
    var id := IdentityMatrix(a.n);
    var p := Product(id, a);
    forall r, c | 0 <= r < a.n && 0 <= c < a.n
      ensures p.Entry(r, c) == a.Entry(r, c)
    {
      var terms := seq(a.n, t requires 0 <= t < a.n => id.Entry(r, t) * a.Entry(t, c));
      SumSingle(terms, r);
    }
    Extensionality(p, a);
  }

  /** The identity is a right unit of the product on square matrices. */
  lemma ProductIdentityRight(a: Matrix)
    requires a.WellFormed() && a.n == a.m && a.n >= 1
    ensures Conformable(a, IdentityMatrix(a.n))
    ensures Product(a, IdentityMatrix(a.n)) == a
  {
    var id := IdentityMatrix(a.n);
    var p := Product(a, id);
    forall r, c | 0 <= r < a.n && 0 <= c < a.n
      ensures p.Entry(r, c) == a.Entry(r, c)
    {
      var terms := seq(a.n, t requires 0 <= t < a.n => a.Entry(r, t) * id.Entry(t, c));
      SumSingle(terms, c);
    }
    Extensionality(p, a);
  }

  /** t holds the entries of a with rows and columns swapped. */
  predicate SwappedOf(t: Matrix, a: Matrix)
  {
    a.WellFormed() && t.WellFormed() && t.n == a.m && t.m == a.n &&
    forall r, c :: 0 <= r < t.n && 0 <= c < t.m ==> t.Entry(r, c) == a.Entry(c, r)
  }

  /** The row-by-column sums of swapped matrices, taken in the opposite
      order, are those of a and b with the cell swapped too. */
  lemma EntryDotSwapped(a: Matrix, b: Matrix, at: Matrix, bt: Matrix, i: nat, j: nat)
    requires SwappedOf(at, a) && SwappedOf(bt, b) && a.m == b.n
    requires i < b.m && j < a.n
    ensures bt.m <= at.n
    ensures EntryDot(bt, at, i, j) == EntryDot(a, b, j, i)
  {
    var lhs := seq(bt.m, t requires 0 <= t < bt.m => bt.Entry(i, t) * at.Entry(t, j));
    var rhs := seq(a.m, t requires 0 <= t < a.m => a.Entry(j, t) * b.Entry(t, i));
    forall t | 0 <= t < a.m
      ensures lhs[t] == rhs[t]
    {
      assert bt.Entry(i, t) == b.Entry(t, i);
      assert at.Entry(t, j) == a.Entry(j, t);
    }
    assert lhs == rhs;
  }

  /** Entry (i, j) of the product of the transposes, taken in the opposite
      order, is entry (j, i) of the product, when the inner dimensions
      agree. */
  lemma EntryDotTransposed(a: Matrix, b: Matrix, i: nat, j: nat)
    requires a.WellFormed() && b.WellFormed() && a.m == b.n && a.m >= 1 && b.m >= 1
    requires i < b.m && j < a.n
    ensures Transpose(b).m <= Transpose(a).n
    ensures EntryDot(Transpose(b), Transpose(a), i, j) == EntryDot(a, b, j, i)
  {
    EntryDotSwapped(a, b, Transpose(a), Transpose(b), i, j);
  }

  /** The transpose of a product is the product of the transposes in the
      opposite order, when the inner dimensions agree, neither transpose
      panics and the results are square. */
  lemma ProductTranspose(a: Matrix, b: Matrix)
    requires a.WellFormed() && b.WellFormed() && a.m == b.n && a.m >= 1 && b.m >= 1
    requires Max(b.n, a.n) == Max(a.m, b.m)
    ensures Conformable(a, b) && Conformable(Transpose(b), Transpose(a))
    ensures Transpose(Product(a, b)) == Product(Transpose(b), Transpose(a))
  {
    var p := Product(a, b);
    var q := Product(Transpose(b), Transpose(a));
    var pt := Transpose(p);
    forall i, j | 0 <= i < q.n && 0 <= j < q.m
      ensures pt.Entry(i, j) == q.Entry(i, j)
    {
      assert pt.Entry(i, j) == p.Entry(j, i);
      if i < b.m && j < a.n {
        EntryDotTransposed(a, b, i, j);
      }
    }
    Extensionality(pt, q);
  }
}
