/** Sums of sequences of entries, as the iterator pipelines compute them. */
module Sums {

  /** Left-to-right sum of s, starting from zero. */
  function Sum(s: seq<real>): real
    decreases |s|
  {
    if |s| == 0 then 0.0 else Sum(s[..|s| - 1]) + s[|s| - 1]
  }

  /** `reduce(|acc, x| acc + x).unwrap()`: the first element is the initial
      accumulator and the rest are added left to right; an empty sequence
      makes `unwrap` panic, hence the precondition. On a non-empty sequence
      this is the ordinary sum. */
  function Reduce(s: seq<real>): (r: real)
    requires |s| >= 1
    ensures r == Sum(s)
    decreases |s|
  {
    if |s| == 1 then
      assert s[..0] == [];
      s[0]
    else
      Reduce(s[..|s| - 1]) + s[|s| - 1]
  }

  /** The sum of k copies of v is k * v. */
  lemma {:induction false} SumConstant(k: nat, v: real)
    ensures Sum(seq(k, _ => v)) == k as real * v
  {
    if k > 0 {
      SumConstant(k - 1, v);
      assert seq(k, _ => v)[..k - 1] == seq(k - 1, _ => v);
    }
  }

  /** A sequence that is zero everywhere except at position r sums to s[r]. */
  lemma {:induction false} SumSingle(s: seq<real>, r: nat)
    requires r < |s|
    requires forall t :: 0 <= t < |s| && t != r ==> s[t] == 0.0
    ensures Sum(s) == s[r]
    decreases |s|
  {
    var init := s[..|s| - 1];
    if r == |s| - 1 {
      SumZero(init);
    } else {
      SumSingle(init, r);
    }
  }

  /** A sequence of zeros sums to zero. */
  lemma {:induction false} SumZero(s: seq<real>)
    requires forall t :: 0 <= t < |s| ==> s[t] == 0.0
    ensures Sum(s) == 0.0
    decreases |s|
  {
    if |s| > 0 {
      SumZero(s[..|s| - 1]);
    }
  }
}
