/** The dense row-major matrix of `src/lib.rs`: its storage, its constructors,
    the conversions from nested rows, the row and column accessors, transpose
    and the elementwise transforms. Entries are real numbers standing for the
    floating-point element type. */
module Matrices {
  import opened FlatIndex
  import opened Sums

  /** A matrix of n rows and m columns over flat storage `data`; entry (r, c)
      lives at flat index r * m + c. Nothing in the type forces the storage
      length: the conversion from nested rows can produce any length. */
  datatype Matrix = Matrix(n: nat, m: nat, data: seq<real>) {

    /** The storage holds exactly n * m entries. */
    predicate WellFormed() {
      |data| == n * m
    }

    /** Entry (r, c) of a well-formed matrix; the postcondition records that
        its flat index lies inside the storage. */
    function Entry(r: nat, c: nat): real
      requires WellFormed() && r < n && c < m
      ensures r * m + c < |data|
    {
      IndexInBounds(r, c, n, m);
      data[r * m + c]
    }
  }

  /** Two well-formed matrices of one shape with the same entries are equal. */
  lemma Extensionality(a: Matrix, b: Matrix)
    requires a.WellFormed() && b.WellFormed()
    requires a.n == b.n && a.m == b.m
    requires forall r, c :: 0 <= r < a.n && 0 <= c < a.m ==> a.Entry(r, c) == b.Entry(r, c)
    ensures a == b
  {
    forall k | 0 <= k < |a.data|
      ensures a.data[k] == b.data[k]
    {
      IndexDecompose(k, a.n, a.m);
      assert a.Entry(k / a.m, k % a.m) == b.Entry(k / a.m, k % a.m);
    }
  }

  /** The n-by-m matrix whose entry (r, c) is f(r, c). */
  function FromEntries(n: nat, m: nat, f: (nat, nat) -> real): (a: Matrix)
    ensures a.WellFormed() && a.n == n && a.m == m
  {
    if m == 0 then Matrix(n, m, [])
    else Matrix(n, m, seq(n * m, k requires 0 <= k < n * m => f(k / m, k % m)))
  }

  lemma FromEntriesEntry(n: nat, m: nat, f: (nat, nat) -> real)
    ensures forall r, c :: 0 <= r < n && 0 <= c < m ==> FromEntries(n, m, f).Entry(r, c) == f(r, c)
  {
    forall r, c | 0 <= r < n && 0 <= c < m
      ensures FromEntries(n, m, f).Entry(r, c) == f(r, c)
    {
      IndexSplit(r, c, m);
    }
  }

  /** Storing v at the flat index of cell (r0, c0) changes that entry and no other. */
  lemma WriteEntry(a: Matrix, r0: nat, c0: nat, v: real)
    requires a.WellFormed() && r0 < a.n && c0 < a.m
    ensures r0 * a.m + c0 < |a.data|
    ensures a.(data := a.data[r0 * a.m + c0 := v]).WellFormed()
    ensures forall r, c :: 0 <= r < a.n && 0 <= c < a.m ==>
      a.(data := a.data[r0 * a.m + c0 := v]).Entry(r, c) == if r == r0 && c == c0 then v else a.Entry(r, c)
  {
    IndexInBounds(r0, c0, a.n, a.m);
    var b := a.(data := a.data[r0 * a.m + c0 := v]);
    forall r, c | 0 <= r < a.n && 0 <= c < a.m
      ensures b.Entry(r, c) == if r == r0 && c == c0 then v else a.Entry(r, c)
    {
      if r * a.m + c == r0 * a.m + c0 {
        IndexInjective(r, c, r0, c0, a.m);
      }
    }
  }

  // ---------------------------------------------------------------- construction

  /** `new(val, n, m)`: an n-by-m matrix all of whose entries are v. */
  function New(v: real, n: nat, m: nat): (a: Matrix)
    ensures a.WellFormed() && a.n == n && a.m == m
    ensures forall r, c :: 0 <= r < n && 0 <= c < m ==> a.Entry(r, c) == v
  {
    Matrix(n, m, seq(n * m, _ => v))
  }

  /** `zeros(n, m)`: an n-by-m matrix all of whose entries are 0. */
  function Zeros(n: nat, m: nat): (a: Matrix)
    ensures a.WellFormed() && a.n == n && a.m == m
    ensures forall r, c :: 0 <= r < n && 0 <= c < m ==> a.Entry(r, c) == 0.0
  {
    New(0.0, n, m)
  }

  /** Summing all entries of `new(v, n, m)` gives n * m * v. */
  lemma NewSum(v: real, n: nat, m: nat)
    ensures Sum(New(v, n, m).data) == (n * m) as real * v
  {
    SumConstant(n * m, v);
  }

  /** The n-by-n identity: 1 on the main diagonal, 0 elsewhere. */
  function IdentityMatrix(n: nat): (a: Matrix)
    ensures a.WellFormed() && a.n == n && a.m == n
    ensures forall i, j :: 0 <= i < n && 0 <= j < n ==> a.Entry(i, j) == if i == j then 1.0 else 0.0
  {
    var f := (i: nat, j: nat) => if i == j then 1.0 else 0.0;
    FromEntriesEntry(n, n, f);
    FromEntries(n, n, f)
  }

  /** The diagonal cell (i, i) of an n-by-n matrix sits at flat index (n + 1) * i,
      which is inside the storage. */
  lemma DiagonalIndex(n: nat, i: nat)
    requires i < n
    ensures (n + 1) * i == i * n + i
    ensures (n + 1) * i < n * n
  {
    IndexInBounds(i, i, n, n);
  }

  /** `identity(n)`: start from zeros and write 1 at flat index (n + 1) * idx
      for every idx below n. */
  method Identity(n: nat) returns (mat: Matrix)
    ensures mat.WellFormed() && mat.n == n && mat.m == n
    ensures forall i, j :: 0 <= i < n && 0 <= j < n ==> mat.Entry(i, j) == if i == j then 1.0 else 0.0
    ensures mat == IdentityMatrix(n)
  {
    mat := Zeros(n, n);
    for idx := 0 to n
      invariant mat.WellFormed() && mat.n == n && mat.m == n
      invariant forall i, j :: 0 <= i < n && 0 <= j < n ==>
        mat.Entry(i, j) == if i == j && i < idx then 1.0 else 0.0
    {
      DiagonalIndex(n, idx);
      WriteEntry(mat, idx, idx, 1.0);
      ghost var before := mat;
      mat := mat.(data := mat.data[(n + 1) * idx := 1.0]);
      assert mat == before.(data := before.data[idx * before.m + idx := 1.0]);
      assert mat.WellFormed();
      forall i, j | 0 <= i < n && 0 <= j < n
        ensures mat.Entry(i, j) == if i == j && i < idx + 1 then 1.0 else 0.0
      {
        assert mat.Entry(i, j) == if i == idx && j == idx then 1.0 else before.Entry(i, j);
      }
    }
    Extensionality(mat, IdentityMatrix(n));
  }

  // ---------------------------------------------------------------- conversion

  /** The rows concatenated in order, as the fold with `extend` builds them. */
  function Flatten(rows: seq<seq<real>>): (flat: seq<real>)
    ensures |rows| > 0 ==> |rows[0]| <= |flat| && flat[..|rows[0]|] == rows[0]
    decreases |rows|
  {
    if |rows| == 0 then []
    else
      assert |rows| > 1 ==> rows[..|rows| - 1][0] == rows[0];
      Flatten(rows[..|rows| - 1]) + rows[|rows| - 1]
  }

  /** Rows all of length w flatten to |rows| * w entries. */
  lemma {:induction false} FlattenLength(rows: seq<seq<real>>, w: nat)
    requires forall i :: 0 <= i < |rows| ==> |rows[i]| == w
    ensures |Flatten(rows)| == |rows| * w
    decreases |rows|
  {
    if |rows| > 0 {
      var last := |rows| - 1;
      FlattenLength(rows[..last], w);
      assert |rows| * w == last * w + w;
    }
  }

  /** When all rows have length w, rows[i][j] sits at flat index i * w + j. */
  lemma {:induction false} FlattenAt(rows: seq<seq<real>>, w: nat, i: nat, j: nat)
    requires forall i :: 0 <= i < |rows| ==> |rows[i]| == w
    requires i < |rows| && j < w
    ensures i * w + j < |Flatten(rows)| && Flatten(rows)[i * w + j] == rows[i][j]
    decreases |rows|
  {
    var last := |rows| - 1;
    var init := rows[..last];
    FlattenLength(init, w);
    assert Flatten(rows) == Flatten(init) + rows[last];
    if i < last {
      FlattenAt(init, w, i, j);
      assert init[i] == rows[i];
    } else {
      assert i * w + j == |Flatten(init)| + j;
    }
  }

  /** For any rows: if they all have the first row's length w, they flatten
      to a well-formed |rows|-by-w storage holding rows[i][j] as entry (i, j). */
  lemma FlattenUniform(rows: seq<seq<real>>)
    requires |rows| >= 1
    ensures (forall i :: 0 <= i < |rows| ==> |rows[i]| == |rows[0]|) ==>
      Matrix(|rows|, |rows[0]|, Flatten(rows)).WellFormed() &&
      forall i, j :: 0 <= i < |rows| && 0 <= j < |rows[0]| ==>
        Matrix(|rows|, |rows[0]|, Flatten(rows)).Entry(i, j) == rows[i][j]
  {
    var w := |rows[0]|;
    if forall i :: 0 <= i < |rows| ==> |rows[i]| == w {
      var a := Matrix(|rows|, w, Flatten(rows));
      FlattenLength(rows, w);
      forall i, j | 0 <= i < |rows| && 0 <= j < w
        ensures a.Entry(i, j) == rows[i][j]
      {
        FlattenAt(rows, w, i, j);
      }
    }
  }

  /** `From<Vec<Vec<T>>>` and `From<&[&[T]]>`: the row count is the number of
      rows, the column count is the length of the FIRST row (an empty row list
      panics on `value[0]`), and the storage is the rows concatenated. Only when
      every row has that length is the result well-formed with rows[i][j] as
      entry (i, j). */
  function From(rows: seq<seq<real>>): (a: Matrix)
    requires |rows| >= 1
    ensures a.n == |rows| && a.m == |rows[0]|
    ensures (forall i :: 0 <= i < |rows| ==> |rows[i]| == |rows[0]|) ==>
      a.WellFormed() && forall i, j :: 0 <= i < a.n && 0 <= j < a.m ==> a.Entry(i, j) == rows[i][j]
  {
    FlattenUniform(rows);
    Matrix(|rows|, |rows[0]|, Flatten(rows))
  }

  // ---------------------------------------------------------------- accessors

  /** `get_row(row)`: the slice data[row * m .. (row + 1) * m]; the slice
      panics unless its end is within the storage. */
  function GetRow(a: Matrix, row: nat): (s: seq<real>)
    requires (row + 1) * a.m <= |a.data|
    ensures |s| == a.m
    ensures a.WellFormed() && row < a.n ==> forall j :: 0 <= j < a.m ==> s[j] == a.Entry(row, j)
  {
    assert (row + 1) * a.m == row * a.m + a.m;
    a.data[row * a.m..(row + 1) * a.m]
  }

  /** The entries among the first k of `data` whose flat index is col modulo m,
      in index order: the `enumerate().filter(..).map(..)` pipeline of `get_col`. */
  function ColumnPrefix(data: seq<real>, m: nat, col: nat, k: nat): (s: seq<real>)
    requires k <= |data|
    requires m > 0 || k == 0
    ensures |s| <= k
    decreases k
  {
    if k == 0 then []
    else ColumnPrefix(data, m, col, k - 1) + (if (k - 1) % m == col then [data[k - 1]] else [])
  }

  /** No flat index is col modulo m when col >= m. */
  lemma {:induction false} ColumnPrefixEmpty(data: seq<real>, m: nat, col: nat, k: nat)
    requires k <= |data| && m > 0 && col >= m
    ensures ColumnPrefix(data, m, col, k) == []
    decreases k
  {
    if k > 0 {
      ColumnPrefixEmpty(data, m, col, k - 1);
    }
  }

  /** Scanning the first t cells of row r adds the row's entry in column col
      exactly when col < t. */
  lemma {:induction false} ColumnPrefixInRow(data: seq<real>, m: nat, col: nat, r: nat, t: nat)
    requires col < m && t <= m && r * m + t <= |data|
    ensures ColumnPrefix(data, m, col, r * m + t)
      == ColumnPrefix(data, m, col, r * m) + (if col < t then [data[r * m + col]] else [])
    decreases t
  {
    if t > 0 {
      ColumnPrefixInRow(data, m, col, r, t - 1);
      IndexSplit(r, t - 1, m);
    }
  }

  /** After r whole rows the scan has picked exactly one entry per row. */
  lemma {:induction false} ColumnPrefixRows(data: seq<real>, m: nat, col: nat, r: nat)
    requires col < m && r * m <= |data|
    ensures |ColumnPrefix(data, m, col, r * m)| == r
    ensures forall k :: 0 <= k < r ==>
      k * m + col < |data| && ColumnPrefix(data, m, col, r * m)[k] == data[k * m + col]
    decreases r
  {
    if r > 0 {
      assert r * m == (r - 1) * m + m;
      ColumnPrefixRows(data, m, col, r - 1);
      ColumnPrefixInRow(data, m, col, r - 1, m);
    }
  }

  /** `get_col(col)`: every entry whose flat index is col modulo m, in index
      order. `idx % m` panics on m == 0 as soon as there is an element. */
  function GetCol(a: Matrix, col: nat): (s: seq<real>)
    requires a.m > 0 || |a.data| == 0
    ensures col >= a.m ==> s == []
    ensures a.WellFormed() && col < a.m ==>
      |s| == a.n && forall k :: 0 <= k < a.n ==> s[k] == a.Entry(k, col)
  {
    ColumnPrefixWhole(a, col);
    ColumnPrefix(a.data, a.m, col, |a.data|)
  }

  /** The scan over the whole storage keeps nothing for col >= m, and on a
      well-formed matrix with col < m keeps column col, one entry per row. */
  lemma ColumnPrefixWhole(a: Matrix, col: nat)
    requires a.m > 0 || |a.data| == 0
    ensures col >= a.m ==> ColumnPrefix(a.data, a.m, col, |a.data|) == []
    ensures a.WellFormed() && col < a.m ==>
      |ColumnPrefix(a.data, a.m, col, |a.data|)| == a.n &&
      forall k :: 0 <= k < a.n ==> ColumnPrefix(a.data, a.m, col, |a.data|)[k] == a.Entry(k, col)
  {
    if a.m > 0 && col >= a.m {
      ColumnPrefixEmpty(a.data, a.m, col, |a.data|);
    } else if a.WellFormed() && col < a.m {
      ColumnPrefixRows(a.data, a.m, col, a.n);
    }
  }

  // ---------------------------------------------------------------- transpose

  /** `transpose()`: the columns 0 .. m - 1, each taken with `get_col`, become
      the rows of a new matrix built with `From`; m == 0 would hand `From` an
      empty row list. */
  function Transpose(a: Matrix): (t: Matrix)
    requires a.m >= 1
    ensures t.n == a.m
    ensures a.WellFormed() ==> (t.WellFormed() && t.m == a.n &&
      forall i, j :: 0 <= i < a.m && 0 <= j < a.n ==> t.Entry(i, j) == a.Entry(j, i))
  {
    From(seq(a.m, x requires 0 <= x < a.m => GetCol(a, x)))
  }

  /** Transposing twice gives the matrix back. */
  lemma TransposeInvolutive(a: Matrix)
    requires a.WellFormed() && a.n >= 1 && a.m >= 1
    ensures Transpose(Transpose(a)) == a
  {
    var t := Transpose(a);
    Extensionality(Transpose(t), a);
  }

  // ---------------------------------------------------------------- elementwise

  /** The matrix of the same shape whose every stored entry is f of the old one. */
  function MapEntries(a: Matrix, f: real -> real): (b: Matrix)
    ensures b.n == a.n && b.m == a.m && |b.data| == |a.data|
    ensures forall k :: 0 <= k < |a.data| ==> b.data[k] == f(a.data[k])
    ensures a.WellFormed() ==> (b.WellFormed() &&
      forall r, c :: 0 <= r < a.n && 0 <= c < a.m ==> b.Entry(r, c) == f(a.Entry(r, c)))
  {
    Matrix(a.n, a.m, seq(|a.data|, k requires 0 <= k < |a.data| => f(a.data[k])))
  }

  /** `exp()`: e^x taken of every entry; `exp` stands for the floating-point
      exponential. */
  function Exp(a: Matrix, exp: real -> real): (b: Matrix)
    ensures b.n == a.n && b.m == a.m && |b.data| == |a.data|
    ensures forall k :: 0 <= k < |a.data| ==> b.data[k] == exp(a.data[k])
  {
    MapEntries(a, exp)
  }

  /** `one_over()`: `T::one() / x` for every entry; `div` stands for the
      floating-point division (which gives infinity when dividing by 0). */
  function OneOver(a: Matrix, div: (real, real) -> real): (b: Matrix)
    ensures b.n == a.n && b.m == a.m && |b.data| == |a.data|
    ensures forall k :: 0 <= k < |a.data| ==> b.data[k] == div(1.0, a.data[k])
  {
    MapEntries(a, x => div(1.0, x))
  }

  /** Where division is exact and no entry is 0, `one_over` twice gives the
      matrix back. */
  lemma OneOverTwice(a: Matrix, div: (real, real) -> real)
    requires forall x, y :: y != 0.0 ==> div(x, y) == x / y
    requires forall k :: 0 <= k < |a.data| ==> a.data[k] != 0.0
    ensures OneOver(OneOver(a, div), div) == a
  {
    var b := OneOver(OneOver(a, div), div);
    forall k | 0 <= k < |a.data|
      ensures b.data[k] == a.data[k]
    {
      var x := a.data[k];
      assert div(1.0, x) == 1.0 / x;
      assert 1.0 / x != 0.0;
      assert div(1.0, 1.0 / x) == 1.0 / (1.0 / x) == x;
    }
    assert b.data == a.data;
  }

  /** Mapping entries commutes with transposing. */
  lemma MapTranspose(a: Matrix, f: real -> real)
    requires a.WellFormed() && a.m >= 1
    ensures Transpose(MapEntries(a, f)) == MapEntries(Transpose(a), f)
  {
    Extensionality(Transpose(MapEntries(a, f)), MapEntries(Transpose(a), f));
  }

  /** Mapping f and then g is mapping their composition. */
  lemma MapCompose(a: Matrix, f: real -> real, g: real -> real)
    ensures MapEntries(MapEntries(a, f), g) == MapEntries(a, x => g(f(x)))
  {
  }
}
