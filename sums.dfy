/** Sums and dot products of real vectors, folded from the last element. */
module Sums {

  function Sum(s: seq<real>): real
  {
    if |s| == 0 then 0.0 else Sum(s[..|s| - 1]) + s[|s| - 1]
  }

  function Dot(a: seq<real>, b: seq<real>): real
    requires |a| == |b|
  {
    if |a| == 0 then 0.0 else Dot(a[..|a| - 1], b[..|b| - 1]) + a[|a| - 1] * b[|b| - 1]
  }

  function Ones(n: nat): (s: seq<real>)
    ensures |s| == n
  {
    seq(n, _ => 1.0)
  }

  /** Extending both prefixes by one entry adds the product of the two new entries. */
  lemma DotPrefix(a: seq<real>, b: seq<real>, k: nat)
    requires |a| == |b| && k < |a|
    ensures Dot(a[..k + 1], b[..k + 1]) == Dot(a[..k], b[..k]) + a[k] * b[k]
  {
    assert a[..k + 1][..k] == a[..k];
    assert b[..k + 1][..k] == b[..k];
  }

  /** Changing one entry of s changes its dot product with v by v[p] times the change. */
  lemma {:induction false} DotUpdate(v: seq<real>, s: seq<real>, p: nat, x: real)
    requires |v| == |s| && p < |s|
    ensures Dot(v, s[p := x]) == Dot(v, s) + v[p] * (x - s[p])
    decreases |s|
  {
    var n := |s| - 1;
    var s' := s[p := x];
    assert s'[..n] == if p < n then s[..n][p := x] else s[..n];
    if p < n {
      DotUpdate(v[..n], s[..n], p, x);
    }
  }

  /**
   * Writing the k-th value of up into a zero entry p of s, where v[p] == rf[k - 1], keeps
   * <v, s> equal to the dot product of the first k entries of rf and up.
   */
  lemma ScatterStep(v: seq<real>, s: seq<real>, rf: seq<real>, up: seq<real>, k: nat, p: nat)
    requires |v| == |s| && p < |s| && s[p] == 0.0
    requires |rf| == |up| && 0 < k <= |rf| && rf[k - 1] == v[p]
    requires Dot(v, s) == Dot(rf[..k - 1], up[..k - 1])
    ensures Dot(v, s[p := up[k - 1]]) == Dot(rf[..k], up[..k])
  {
    DotUpdate(v, s, p, up[k - 1]);
    DotPrefix(rf, up, k - 1);
  }

  /** The dot product with the all-ones vector is the sum. */
  lemma {:induction false} DotOnes(s: seq<real>)
    ensures Dot(Ones(|s|), s) == Sum(s)
    decreases |s|
  {
    if |s| > 0 {
      var n := |s| - 1;
      assert Ones(|s|)[..n] == Ones(n);
      DotOnes(s[..n]);
    }
  }

  /** The dot product with the zero vector is 0. */
  lemma {:induction false} DotZeros(v: seq<real>, s: seq<real>)
    requires |v| == |s| && forall i | 0 <= i < |s| :: s[i] == 0.0
    ensures Dot(v, s) == 0.0
    decreases |s|
  {
    if |s| > 0 {
      DotZeros(v[..|v| - 1], s[..|s| - 1]);
    }
  }
}
