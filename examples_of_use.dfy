/** The unit tests at the end of `src/lib.rs`, stated as lemmas about the
    model on the same inputs. */
module MatrixTests {
  import opened Sums
  import opened Matrices
  import opened MatrixOps

  /** The 3-by-2 matrix used by the product, transpose and elementwise tests. */
  const Tall: seq<seq<real>> := [[1.0, 2.0], [3.0, 4.0], [5.0, 6.0]]

  /** The 2-by-3 right-hand side of the product test. */
  const Wide: seq<seq<real>> := [[1.0, 2.0, 3.0], [4.0, 5.0, 6.0]]

  /** The 4-by-3 matrix of the row and column accessor tests. */
  const Grid: seq<seq<real>> := [[1.0, 0.0, 0.0], [0.0, 1.0, 3.0], [2.0, 9.0, 3.0], [0.0, 1.0, 3.0]]

  /** A sum of one term. */
  lemma SumOfOne(s: seq<real>)
    requires |s| == 1
    ensures Sum(s) == s[0]
  {
    assert s[..0] == [];
  }

  /** A sum of two terms. */
  lemma SumOfTwo(s: seq<real>)
    requires |s| == 2
    ensures Sum(s) == s[0] + s[1]
  {
    assert s[..1][..0] == [];
    assert Sum(s[..1]) == s[0];
  }

  /** `init_zeroes` and `init_val`: the entries of the 5-by-4 zeros sum to 0,
      those of `new(1, 5, 4)` to 20. */
  lemma InitSums()
    ensures |Zeros(5, 4).data| == 20 && Reduce(Zeros(5, 4).data) == 0.0
    ensures |New(1.0, 5, 4).data| == 20 && Reduce(New(1.0, 5, 4).data) == 20.0
  {
    NewSum(0.0, 5, 4);
    NewSum(1.0, 5, 4);
  }

  /** `test_from_2d_vec` and `test_from_2d_slice`: nested rows flatten in
      order, with the row count and the first row's length as the shape. */
  lemma FromRows()
    ensures From([[1.0, 2.0, 3.0], [3.0, 2.0, 1.0]]) == Matrix(2, 3, [1.0, 2.0, 3.0, 3.0, 2.0, 1.0])
    ensures From([[1.0, 0.0], [0.0, 1.0]]) == Matrix(2, 2, [1.0, 0.0, 0.0, 1.0])
  {
  }

  /** `test_get_row`: row 2 of Grid is [2, 9, 3]. */
  lemma GetRowOfGrid()
    ensures (2 + 1) * From(Grid).m <= |From(Grid).data|
    ensures GetRow(From(Grid), 2) == [2.0, 9.0, 3.0]
  {
  }

  /** `test_get_col`: column 1 of Grid is [0, 1, 9, 1]. */
  lemma GetColOfGrid()
    ensures From(Grid).m > 0
    ensures GetCol(From(Grid), 1) == [0.0, 1.0, 9.0, 1.0]
  {
  }

  /** `test_transpose`: the transpose of Tall stores [1, 3, 5, 2, 4, 6]. */
  lemma TransposeOfTall()
    ensures From(Tall).m >= 1
    ensures Transpose(From(Tall)).data == [1.0, 3.0, 5.0, 2.0, 4.0, 6.0]
  {
    TallStorage();
    TransposeOfStored(From(Tall));
  }

  /** The transpose test on the flat storage of its operand. */
  lemma TransposeOfStored(a: Matrix)
    requires a == Matrix(3, 2, [1.0, 2.0, 3.0, 4.0, 5.0, 6.0])
    ensures Transpose(a).data == [1.0, 3.0, 5.0, 2.0, 4.0, 6.0]
  {
    var t := Transpose(a);
    assert t.Entry(0, 0) == 1.0 && t.Entry(0, 1) == 3.0 && t.Entry(0, 2) == 5.0;
    assert t.Entry(1, 0) == 2.0 && t.Entry(1, 1) == 4.0 && t.Entry(1, 2) == 6.0;
    assert t.data == t.data[..3] + t.data[3..];
  }

  /** The column count is taken from the first row alone: rows of lengths
      2, 1 and 3 give a 3-by-2 matrix whose storage has the right length,
      yet its entry (1, 1) is the first entry of the third row. */
  lemma RaggedRowsMisalign()
    ensures From([[1.0, 2.0], [3.0], [4.0, 5.0, 6.0]]).WellFormed()
    ensures From([[1.0, 2.0], [3.0], [4.0, 5.0, 6.0]]) == Matrix(3, 2, [1.0, 2.0, 3.0, 4.0, 5.0, 6.0])
    ensures From([[1.0, 2.0], [3.0], [4.0, 5.0, 6.0]]).Entry(1, 1) == 4.0
  {
    var rows: seq<seq<real>> := [[1.0, 2.0], [3.0], [4.0, 5.0, 6.0]];
    assert rows[..2][..1][..0] == [];
    assert Flatten(rows[..1]) == [1.0, 2.0];
    assert Flatten(rows[..2]) == [1.0, 2.0, 3.0];
    assert Flatten(rows) == Flatten(rows[..2]) + rows[2];
  }

  /** `test_from_reg_add`: [[1, 0], [0, 1]] + [[0, 1], [1, 0]] stores [1, 1, 1, 1]. */
  lemma AddOfSwaps()
    ensures |From([[0.0, 1.0], [1.0, 0.0]]).data| >= |From([[1.0, 0.0], [0.0, 1.0]]).data|
    ensures Plus(From([[1.0, 0.0], [0.0, 1.0]]), From([[0.0, 1.0], [1.0, 0.0]])).data == [1.0, 1.0, 1.0, 1.0]
  {
    FromRows();
    assert From([[0.0, 1.0], [1.0, 0.0]]) == Matrix(2, 2, [0.0, 1.0, 1.0, 0.0]) by {
      var swap: seq<seq<real>> := [[0.0, 1.0], [1.0, 0.0]];
      assert swap[..1][..0] == [];
    }
    AddOfStored(From([[1.0, 0.0], [0.0, 1.0]]), From([[0.0, 1.0], [1.0, 0.0]]));
  }

  /** The addition test on the flat storage of its operands. */
  lemma AddOfStored(a: Matrix, b: Matrix)
    requires a == Matrix(2, 2, [1.0, 0.0, 0.0, 1.0]) && b == Matrix(2, 2, [0.0, 1.0, 1.0, 0.0])
    ensures Plus(a, b).data == [1.0, 1.0, 1.0, 1.0]
  {
    var p := Plus(a, b);
    assert p.data[0] == 1.0 && p.data[1] == 1.0 && p.data[2] == 1.0 && p.data[3] == 1.0;
  }

  /** A row-by-column sum with two inner terms. */
  lemma TwoTermDot(a: Matrix, b: Matrix, r: nat, c: nat)
    requires a.WellFormed() && b.WellFormed() && a.m == 2 && b.n == 2 && r < a.n && c < b.m
    ensures EntryDot(a, b, r, c) == a.Entry(r, 0) * b.Entry(0, c) + a.Entry(r, 1) * b.Entry(1, c)
  {
    var terms := seq(a.m, t requires 0 <= t < a.m => a.Entry(r, t) * b.Entry(t, c));
    SumOfTwo(terms);
    assert EntryDot(a, b, r, c) == Sum(terms);
  }

  /** An entry of a product with two inner terms. */
  lemma TwoTermEntry(a: Matrix, b: Matrix, r: nat, c: nat)
    requires Conformable(a, b) && a.m == 2 && b.n == 2 && r < a.n && c < b.m
    ensures r < Product(a, b).n && c < Product(a, b).m
    ensures Product(a, b).Entry(r, c) == a.Entry(r, 0) * b.Entry(0, c) + a.Entry(r, 1) * b.Entry(1, c)
  {
    ProductEntry(a, b, r, c);
    TwoTermDot(a, b, r, c);
  }

  /** `test_mult`: Tall times Wide stores [9, 12, 15, 19, 26, 33, 29, 40, 51]. */
  lemma ProductOfTallAndWide()
    ensures Conformable(From(Tall), From(Wide))
    ensures Product(From(Tall), From(Wide)).data == [9.0, 12.0, 15.0, 19.0, 26.0, 33.0, 29.0, 40.0, 51.0]
  {
    var a, b := From(Tall), From(Wide);
    TallStorage();
    assert b == Matrix(2, 3, [1.0, 2.0, 3.0, 4.0, 5.0, 6.0]) by {
      assert Wide[..1][..0] == [];
    }
    ProductOfStored(a, b);
  }

  /** The product test on the flat storage of its operands. */
  lemma ProductOfStored(a: Matrix, b: Matrix)
    requires a == Matrix(3, 2, [1.0, 2.0, 3.0, 4.0, 5.0, 6.0])
    requires b == Matrix(2, 3, [1.0, 2.0, 3.0, 4.0, 5.0, 6.0])
    ensures Conformable(a, b)
    ensures Product(a, b).data == [9.0, 12.0, 15.0, 19.0, 26.0, 33.0, 29.0, 40.0, 51.0]
  {
    var p := Product(a, b);
    ProductRow0OfStored(a, b);
    ProductRow1OfStored(a, b);
    ProductRow2OfStored(a, b);
    assert p.data == p.data[..3] + p.data[3..6] + p.data[6..];
  }

  /** Row 0 of the product test. */
  lemma ProductRow0OfStored(a: Matrix, b: Matrix)
    requires a == Matrix(3, 2, [1.0, 2.0, 3.0, 4.0, 5.0, 6.0])
    requires b == Matrix(2, 3, [1.0, 2.0, 3.0, 4.0, 5.0, 6.0])
    ensures Conformable(a, b) && |Product(a, b).data| == 9
    ensures Product(a, b).data[..3] == [9.0, 12.0, 15.0]
  {
    assert Product(a, b).n == 3 && Product(a, b).m == 3;
    TwoTermEntry(a, b, 0, 0);
    TwoTermEntry(a, b, 0, 1);
    TwoTermEntry(a, b, 0, 2);
    var p := Product(a, b);
    assert p.data[0] == 9.0 && p.data[1] == 12.0 && p.data[2] == 15.0;
  }

  /** Row 1 of the product test. */
  lemma ProductRow1OfStored(a: Matrix, b: Matrix)
    requires a == Matrix(3, 2, [1.0, 2.0, 3.0, 4.0, 5.0, 6.0])
    requires b == Matrix(2, 3, [1.0, 2.0, 3.0, 4.0, 5.0, 6.0])
    ensures Conformable(a, b) && |Product(a, b).data| == 9
    ensures Product(a, b).data[3..6] == [19.0, 26.0, 33.0]
  {
    assert Product(a, b).n == 3 && Product(a, b).m == 3;
    TwoTermEntry(a, b, 1, 0);
    TwoTermEntry(a, b, 1, 1);
    TwoTermEntry(a, b, 1, 2);
    var p := Product(a, b);
    assert p.data[3] == 19.0 && p.data[4] == 26.0 && p.data[5] == 33.0;
  }

  /** Row 2 of the product test. */
  lemma ProductRow2OfStored(a: Matrix, b: Matrix)
    requires a == Matrix(3, 2, [1.0, 2.0, 3.0, 4.0, 5.0, 6.0])
    requires b == Matrix(2, 3, [1.0, 2.0, 3.0, 4.0, 5.0, 6.0])
    ensures Conformable(a, b) && |Product(a, b).data| == 9
    ensures Product(a, b).data[6..] == [29.0, 40.0, 51.0]
  {
    assert Product(a, b).n == 3 && Product(a, b).m == 3;
    TwoTermEntry(a, b, 2, 0);
    TwoTermEntry(a, b, 2, 1);
    TwoTermEntry(a, b, 2, 2);
    var p := Product(a, b);
    assert p.data[6] == 29.0 && p.data[7] == 40.0 && p.data[8] == 51.0;
  }

  /** Which shapes the product handles: 1-by-3 times 3-by-2 (a 3-by-3
      result, only row 0 written) and 2-by-1 times 2-by-2 do. 2-by-3 times
      3-by-4 does not: in the 3-by-4 zeros the loop allocates, the write for
      (1, 0) at `rdx * mat.n + cdx` lands on the flat index of cell (0, 3).
      Nor does 3-by-1 times 1-by-1: in the 3-by-1 zeros, the write for
      (1, 0) is past the end of the storage. */
  lemma ConformableShapes()
    ensures Conformable(Zeros(1, 3), Zeros(3, 2))
    ensures Conformable(Zeros(2, 1), Zeros(2, 2))
    ensures !Conformable(Zeros(2, 3), Zeros(3, 4))
    ensures var mat := Zeros(Max(3, 2), Max(3, 4));
      0 * mat.m + 3 < |mat.data| && 1 * mat.n + 0 == 0 * mat.m + 3
    ensures !Conformable(Zeros(3, 1), Zeros(1, 1))
    ensures var mat := Zeros(Max(1, 3), Max(1, 1));
      1 * mat.n + 0 >= |mat.data|
  {
  }

  /** When the rows of a are shorter than the columns of b, the loop only
      reads the first a.m entries of each column: a 2-by-1 times a 2-by-2
      ignores row 1 of b. */
  lemma ShortRowsTruncate(a: Matrix, b: Matrix, r: nat, c: nat)
    requires a.WellFormed() && b.WellFormed() && a.n == 2 && a.m == 1 && b.n == 2 && b.m == 2
    requires r < 2 && c < 2
    ensures Conformable(a, b)
    ensures Product(a, b).n == 2 && Product(a, b).m == 2
    ensures Product(a, b).Entry(r, c) == a.Entry(r, 0) * b.Entry(0, c)
  {
    assert Max(b.n, a.n) == 2 && Max(a.m, b.m) == 2;
    assert Conformable(a, b);
    ProductEntry(a, b, r, c);
    OneTermDot(a, b, r, c);
  }

  /** A row-by-column sum with a single inner term. */
  lemma OneTermDot(a: Matrix, b: Matrix, r: nat, c: nat)
    requires a.WellFormed() && b.WellFormed() && a.m == 1 && 1 <= b.n && r < a.n && c < b.m
    ensures EntryDot(a, b, r, c) == a.Entry(r, 0) * b.Entry(0, c)
  {
    var terms := seq(a.m, t requires 0 <= t < a.m => a.Entry(r, t) * b.Entry(t, c));
    SumOfOne(terms);
    assert EntryDot(a, b, r, c) == Sum(terms);
  }

  /** `test_mult_scalar` and `test_div_scalar`: Tall times 5 and Tall over 5. */
  lemma ScalarsOfTall()
    ensures ScalarMul(From(Tall), 5.0).data == [5.0, 10.0, 15.0, 20.0, 25.0, 30.0]
    ensures ScalarDiv(From(Tall), 5.0).data == [1.0 / 5.0, 2.0 / 5.0, 3.0 / 5.0, 4.0 / 5.0, 5.0 / 5.0, 6.0 / 5.0]
  {
    TallStorage();
    ScalarsOfStored(From(Tall));
  }

  /** The storage of Tall. */
  lemma TallStorage()
    ensures From(Tall) == Matrix(3, 2, [1.0, 2.0, 3.0, 4.0, 5.0, 6.0])
  {
    assert Tall[..1][..0] == [];
  }

  /** The scalar tests on the flat storage of their operand. */
  lemma ScalarsOfStored(a: Matrix)
    requires a == Matrix(3, 2, [1.0, 2.0, 3.0, 4.0, 5.0, 6.0])
    ensures ScalarMul(a, 5.0).data == [5.0, 10.0, 15.0, 20.0, 25.0, 30.0]
    ensures ScalarDiv(a, 5.0).data == [1.0 / 5.0, 2.0 / 5.0, 3.0 / 5.0, 4.0 / 5.0, 5.0 / 5.0, 6.0 / 5.0]
  {
  }

  /** `test_exp` and `test_one_over`: the transform is applied to every entry
      of Tall in storage order. */
  lemma ElementwiseOfTall(exp: real -> real, div: (real, real) -> real)
    ensures Exp(From(Tall), exp).data == [exp(1.0), exp(2.0), exp(3.0), exp(4.0), exp(5.0), exp(6.0)]
    ensures OneOver(From(Tall), div).data ==
      [div(1.0, 1.0), div(1.0, 2.0), div(1.0, 3.0), div(1.0, 4.0), div(1.0, 5.0), div(1.0, 6.0)]
  {
    TallStorage();
    ElementwiseOfStored(From(Tall), exp, div);
  }

  /** The elementwise tests on the flat storage of their operand. */
  lemma ElementwiseOfStored(a: Matrix, exp: real -> real, div: (real, real) -> real)
    requires a == Matrix(3, 2, [1.0, 2.0, 3.0, 4.0, 5.0, 6.0])
    ensures Exp(a, exp).data == [exp(1.0), exp(2.0), exp(3.0), exp(4.0), exp(5.0), exp(6.0)]
    ensures OneOver(a, div).data ==
      [div(1.0, 1.0), div(1.0, 2.0), div(1.0, 3.0), div(1.0, 4.0), div(1.0, 5.0), div(1.0, 6.0)]
  {
  }
}
