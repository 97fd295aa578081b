/** What `local_extrema` computes: the vertices whose value is no worse (or,
    when `strict`, strictly better) than that of every stored neighbour other
    than themselves, minima by default and maxima when `reverse`. The scan
    itself is `GraphLocal.LocalExtrema`. */
module Extrema {
  import opened CsrMatrix

  /** The scan's result: `minverts` and `minvals = vals[minverts]`. */
  datatype Scan = Scan(minverts: seq<nat>, minvals: seq<real>)

  function Factor(reverse: bool): real
  {
    if reverse then -1.0 else 1.0
  }

  predicate Beats(x: real, y: real, strict: bool)
  {
    if strict then x < y else x <= y
  }

  predicate IsLocalExtremum(g: Csr, vals: seq<real>, strict: bool, reverse: bool, i: nat)
    requires Valid(g) && |vals| >= g.n && i < g.n
  {
    forall k :: g.ai[i] <= k < g.ai[i + 1] && g.aj[k] != i ==>
      Beats(Factor(reverse) * vals[i], Factor(reverse) * vals[g.aj[k]], strict)
  }

  /** The qualifying vertices below `p`, in increasing order. */
  function ExtremaUpTo(g: Csr, vals: seq<real>, strict: bool, reverse: bool, p: nat): (r: seq<nat>)
    requires Valid(g) && |vals| >= g.n && p <= g.n
    ensures forall k :: 0 <= k < |r| ==> r[k] < p
  {
    if p == 0 then []
    else ExtremaUpTo(g, vals, strict, reverse, p - 1)
         + (if IsLocalExtremum(g, vals, strict, reverse, p - 1) then [p - 1] else [])
  }

  /** `vals[minverts]`. */
  function ValuesAt(vals: seq<real>, verts: seq<nat>): (r: seq<real>)
    requires forall k :: 0 <= k < |verts| ==> verts[k] < |vals|
    ensures |r| == |verts| && forall k :: 0 <= k < |verts| ==> r[k] == vals[verts[k]]
  {
    seq(|verts|, k requires 0 <= k < |verts| => vals[verts[k]])
  }

  function Negated(vals: seq<real>): (r: seq<real>)
    ensures |r| == |vals| && forall k :: 0 <= k < |vals| ==> r[k] == -vals[k]
  {
    seq(|vals|, k requires 0 <= k < |vals| => -vals[k])
  }

  /** The scan lists its vertices in strictly increasing order. */
  lemma {:induction false} ExtremaIncreasing(g: Csr, vals: seq<real>, strict: bool, reverse: bool, p: nat)
    requires Valid(g) && |vals| >= g.n && p <= g.n
    ensures Increasing(ExtremaUpTo(g, vals, strict, reverse, p))
  {
    if p > 0 {
      ExtremaIncreasing(g, vals, strict, reverse, p - 1);
      var pre := ExtremaUpTo(g, vals, strict, reverse, p - 1);
      assert forall k :: 0 <= k < |pre| ==> pre[k] < p - 1;
    }
  }

  /** The scan returns exactly the qualifying vertices below `p`, strictly increasing. */
  lemma {:induction false} ExtremaMembership(g: Csr, vals: seq<real>, strict: bool, reverse: bool, p: nat)
    requires Valid(g) && |vals| >= g.n && p <= g.n
    ensures Increasing(ExtremaUpTo(g, vals, strict, reverse, p))
    ensures forall v: nat :: v in ExtremaUpTo(g, vals, strict, reverse, p) <==>
      v < p && IsLocalExtremum(g, vals, strict, reverse, v)
  {
    ExtremaIncreasing(g, vals, strict, reverse, p);
    if p > 0 {
      ExtremaMembership(g, vals, strict, reverse, p - 1);
      var pre := ExtremaUpTo(g, vals, strict, reverse, p - 1);
      var last := if IsLocalExtremum(g, vals, strict, reverse, p - 1) then [p - 1] else [];
      assert ExtremaUpTo(g, vals, strict, reverse, p) == pre + last;
    }
  }

  /** A vertex with no stored neighbour other than itself always qualifies. */
  lemma IsolatedVertexQualifies(g: Csr, vals: seq<real>, strict: bool, reverse: bool, i: nat)
    requires Valid(g) && |vals| >= g.n && i < g.n
    requires forall k :: g.ai[i] <= k < g.ai[i + 1] ==> g.aj[k] == i
    ensures i in ExtremaUpTo(g, vals, strict, reverse, g.n)
  {
    ExtremaMembership(g, vals, strict, reverse, g.n);
  }

  lemma {:induction false} ReverseIsNegatedVertices(g: Csr, vals: seq<real>, strict: bool, p: nat)
    requires Valid(g) && |vals| >= g.n && p <= g.n
    ensures ExtremaUpTo(g, vals, strict, true, p) == ExtremaUpTo(g, Negated(vals), strict, false, p)
  {
    if p > 0 {
      ReverseIsNegatedVertices(g, vals, strict, p - 1);
      var i, nv := p - 1, Negated(vals);
      forall k | g.ai[i] <= k < g.ai[i + 1] && g.aj[k] != i
        ensures Factor(true) * vals[g.aj[k]] == Factor(false) * nv[g.aj[k]]
      {
      }
      assert IsLocalExtremum(g, vals, strict, true, i) == IsLocalExtremum(g, nv, strict, false, i);
    }
  }

  /** Searching for maxima finds the same vertices as searching for minima of
      the negated values; the reported values are the originals, so they are
      the negation of that scan's values. */
  lemma ReverseIsNegatedScan(g: Csr, vals: seq<real>, strict: bool)
    requires Valid(g) && |vals| >= g.n
    ensures ExtremaUpTo(g, vals, strict, true, g.n) == ExtremaUpTo(g, Negated(vals), strict, false, g.n)
    ensures ValuesAt(vals, ExtremaUpTo(g, vals, strict, true, g.n))
         == Negated(ValuesAt(Negated(vals), ExtremaUpTo(g, Negated(vals), strict, false, g.n)))
  {
    ReverseIsNegatedVertices(g, vals, strict, g.n);
  }

  /** With constant values the non-strict scan returns every vertex. */
  lemma {:induction false} ConstantValuesAllQualify(g: Csr, vals: seq<real>, reverse: bool, p: nat)
    requires Valid(g) && |vals| >= g.n && p <= g.n
    requires forall k, l :: 0 <= k < |vals| && 0 <= l < |vals| ==> vals[k] == vals[l]
    ensures ExtremaUpTo(g, vals, false, reverse, p) == seq(p, i requires 0 <= i < p => i)
  {
    if p > 0 {
      ConstantValuesAllQualify(g, vals, reverse, p - 1);
    }
  }

  /** Every strict local extremum is a non-strict one. */
  lemma StrictWithinNonStrict(g: Csr, vals: seq<real>, reverse: bool, v: nat)
    requires Valid(g) && |vals| >= g.n
    requires v in ExtremaUpTo(g, vals, true, reverse, g.n)
    ensures v in ExtremaUpTo(g, vals, false, reverse, g.n)
  {
    ExtremaMembership(g, vals, true, reverse, g.n);
    ExtremaMembership(g, vals, false, reverse, g.n);
  }
}
