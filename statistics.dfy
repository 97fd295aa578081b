/** The statistics `compute_statistics` derives from the adjacency store:
    weighted degrees, their guarded reciprocals and the graph volume (the
    square-root vectors are not part of this model). */
module Statistics {
  import opened Sums
  import opened CsrMatrix

  /** `d`: the row sums of the stored weights. */
  function Degrees(g: Csr): (d: seq<real>)
    requires Valid(g)
    ensures |d| == g.n
  {
    seq(g.n, i requires 0 <= i < g.n => Sum(RowValues(g, i)))
  }

  /** `dn`: the reciprocal of each degree, and 0 where the degree is 0. */
  function InvDegrees(d: seq<real>): (dn: seq<real>)
    ensures |dn| == |d|
    ensures forall i :: 0 <= i < |d| && d[i] != 0.0 ==> dn[i] * d[i] == 1.0
    ensures forall i :: 0 <= i < |d| && d[i] == 0.0 ==> dn[i] == 0.0
  {
    seq(|d|, i requires 0 <= i < |d| => if d[i] != 0.0 then 1.0 / d[i] else 0.0)
  }

  lemma {:induction false} DegreesPrefix(g: Csr, p: nat)
    requires Valid(g) && p <= g.n
    ensures Sum(Degrees(g)[..p]) == Sum(g.a[..g.ai[p]])
  {
    if p > 0 {
      DegreesPrefix(g, p - 1);
      var lo, hi := g.ai[p - 1], g.ai[p];
      assert Degrees(g)[..p][..p - 1] == Degrees(g)[..p - 1];
      assert g.a[..hi] == g.a[..lo] + g.a[lo..hi];
      SumConcat(g.a[..lo], g.a[lo..hi]);
    }
  }

  /** `vol_G = sum(d)` is the total of all stored weights. */
  lemma VolumeIsTotalWeight(g: Csr)
    requires Valid(g)
    ensures Sum(Degrees(g)) == Sum(g.a)
  {
    DegreesPrefix(g, g.n);
    assert Degrees(g)[..g.n] == Degrees(g);
    assert g.a[..g.ai[g.n]] == g.a;
  }

  /** With every stored weight 1, a degree counts the row's stored entries
      and the volume counts all stored entries. */
  lemma UnitWeightStatistics(g: Csr)
    requires Valid(g)
    requires forall k :: 0 <= k < |g.a| ==> g.a[k] == 1.0
    ensures forall i :: 0 <= i < g.n ==> Degrees(g)[i] == (g.ai[i + 1] - g.ai[i]) as real
    ensures Sum(Degrees(g)) == |g.aj| as real
  {
    forall i | 0 <= i < g.n ensures Degrees(g)[i] == (g.ai[i + 1] - g.ai[i]) as real {
      SumOfOnes(RowValues(g, i));
    }
    VolumeIsTotalWeight(g);
    SumOfOnes(g.a);
  }

  /** With non-negative weights every degree and the volume are non-negative. */
  lemma NonNegativeStatistics(g: Csr)
    requires Valid(g)
    requires forall k :: 0 <= k < |g.a| ==> g.a[k] >= 0.0
    ensures forall i :: 0 <= i < g.n ==> Degrees(g)[i] >= 0.0
    ensures Sum(Degrees(g)) >= 0.0
  {
    forall i | 0 <= i < g.n ensures Degrees(g)[i] >= 0.0 {
      SumNonNegative(RowValues(g, i));
    }
    SumNonNegative(Degrees(g));
  }
}
