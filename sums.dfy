/** Finite sums of reals, written left to right. Floating point is treated
    as exact, so the order numpy uses (pairwise in `np.sum`) does not matter. */
module Sums {

  function Sum(s: seq<real>): real
  {
    if |s| == 0 then 0.0 else Sum(s[..|s| - 1]) + s[|s| - 1]
  }

  lemma {:induction false} SumConcat(x: seq<real>, y: seq<real>)
    ensures Sum(x + y) == Sum(x) + Sum(y)
  {
    if |y| == 0 {
      assert x + y == x;
    } else {
      assert (x + y)[..|x + y| - 1] == x + y[..|y| - 1];
      SumConcat(x, y[..|y| - 1]);
    }
  }

  /** A sum of ones counts its terms. */
  lemma {:induction false} SumOfOnes(s: seq<real>)
    requires forall k :: 0 <= k < |s| ==> s[k] == 1.0
    ensures Sum(s) == |s| as real
  {
    if |s| > 0 {
      SumOfOnes(s[..|s| - 1]);
    }
  }

  lemma {:induction false} SumNonNegative(s: seq<real>)
    requires forall k :: 0 <= k < |s| ==> s[k] >= 0.0
    ensures Sum(s) >= 0.0
  {
    if |s| > 0 {
      SumNonNegative(s[..|s| - 1]);
    }
  }

  /** `sum(d[R])`: the entries of `d` picked by the index list `R`, with repeats. */
  function SumAt(d: seq<real>, R: seq<nat>): real
    requires forall k :: 0 <= k < |R| ==> R[k] < |d|
  {
    if |R| == 0 then 0.0 else SumAt(d, R[..|R| - 1]) + d[R[|R| - 1]]
  }

  /** The sum of `d[i]` over the indices `i < p` that occur in `R`. */
  function SumWhere(d: seq<real>, R: seq<nat>, p: nat): real
    requires p <= |d|
  {
    if p == 0 then 0.0
    else SumWhere(d, R, p - 1) + (if p - 1 in R then d[p - 1] else 0.0)
  }

  predicate DuplicateFree(R: seq<nat>)
  {
    forall k, l :: 0 <= k < l < |R| ==> R[k] != R[l]
  }

  lemma {:induction false} SumWhereAppend(d: seq<real>, R: seq<nat>, r: nat, p: nat)
    requires p <= |d| && r !in R
    ensures SumWhere(d, R + [r], p) == SumWhere(d, R, p) + (if r < p then d[r] else 0.0)
  {
    if p > 0 {
      SumWhereAppend(d, R, r, p - 1);
      assert (p - 1 in R + [r]) <==> (p - 1 in R || p - 1 == r);
    }
  }

  lemma {:induction false} SumWhereNone(d: seq<real>, R: seq<nat>, p: nat)
    requires p <= |d| && |R| == 0
    ensures SumWhere(d, R, p) == 0.0
  {
    if p > 0 {
      SumWhereNone(d, R, p - 1);
    }
  }

  /** Summing `d` over an index list without repeats is summing over the set it denotes. */
  lemma {:induction false} SumAtIsSumWhere(d: seq<real>, R: seq<nat>)
    requires DuplicateFree(R)
    requires forall k :: 0 <= k < |R| ==> R[k] < |d|
    ensures SumAt(d, R) == SumWhere(d, R, |d|)
  {
    if |R| > 0 {
      var R', r := R[..|R| - 1], R[|R| - 1];
      assert R == R' + [r];
      assert r !in R' by {
        forall k | 0 <= k < |R'| ensures R'[k] != r { assert R[k] != R[|R| - 1]; }
      }
      assert DuplicateFree(R') by {
        forall k, l | 0 <= k < l < |R'| ensures R'[k] != R'[l] { assert R[k] != R[l]; }
      }
      SumAtIsSumWhere(d, R');
      SumWhereAppend(d, R', r, |d|);
      assert SumAt(d, R) == SumAt(d, R') + d[r];
    } else {
      SumWhereNone(d, R, |d|);
    }
  }

  /** With every index below `p` selected, `SumWhere` is the plain prefix sum. */
  lemma {:induction false} SumWhereAll(d: seq<real>, R: seq<nat>, p: nat)
    requires p <= |d|
    requires forall i :: 0 <= i < p ==> i in R
    ensures SumWhere(d, R, p) == Sum(d[..p])
  {
    if p > 0 {
      SumWhereAll(d, R, p - 1);
      assert d[..p][..p - 1] == d[..p - 1];
    }
  }

  /** The dot product `x . y`, accumulated over the first `p` positions. */
  function DotUpTo(x: seq<real>, y: seq<real>, p: nat): real
    requires p <= |x| && p <= |y|
  {
    if p == 0 then 0.0 else DotUpTo(x, y, p - 1) + x[p - 1] * y[p - 1]
  }

  function Dot(x: seq<real>, y: seq<real>): real
    requires |x| == |y|
  {
    DotUpTo(x, y, |x|)
  }
}
