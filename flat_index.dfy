/** Arithmetic of row-major flat indices: element (r, c) of a matrix with
    m columns lives at flat index r * m + c. */
module FlatIndex {

  /** Multiplication by a natural number is monotone. */
  lemma {:induction false} MulMonotone(a: nat, b: nat, m: nat)
    requires a <= b
    ensures a * m <= b * m
  {
    if a < b {
      MulMonotone(a, b - 1, m);
      assert b * m == (b - 1) * m + m;
    }
  }

  /** A flat index of a cell inside an n-by-m grid is below n * m. */
  lemma IndexInBounds(r: nat, c: nat, n: nat, m: nat)
    requires r < n && c < m
    ensures r * m + c < n * m
  {
    MulMonotone(r + 1, n, m);
    assert (r + 1) * m == r * m + m;
  }

  /** The flat index r * m + c splits back into its row r and column c. */
  lemma IndexSplit(r: nat, c: nat, m: nat)
    requires c < m
    ensures (r * m + c) / m == r
    ensures (r * m + c) % m == c
  {
    var x := r * m + c;
    var q, s := x / m, x % m;
    assert x == q * m + s && 0 <= s < m;
    if q > r {
      assert (r + 1) * m == r * m + m;
      MulMonotone(r + 1, q, m);
    } else if q < r {
      assert (q + 1) * m == q * m + m;
      MulMonotone(q + 1, r, m);
    }
  }

  /** Every flat index below n * m is r * m + c for a cell (r, c) of the grid. */
  lemma IndexDecompose(k: nat, n: nat, m: nat)
    requires k < n * m
    ensures m > 0
    ensures k == (k / m) * m + k % m
    ensures k / m < n && k % m < m
  {
    assert m > 0;
    if k / m >= n {
      MulMonotone(n, k / m, m);
    }
  }

  /** Two cells with the same flat index are the same cell. */
  lemma IndexInjective(r: nat, c: nat, r': nat, c': nat, m: nat)
    requires c < m && c' < m
    requires r * m + c == r' * m + c'
    ensures r == r' && c == c'
  {
    IndexSplit(r, c, m);
    IndexSplit(r', c', m);
  }
}
