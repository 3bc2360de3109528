/** Finite sums over sequences of counts and of probabilities.
    The numpy reductions `np.sum(...)` and `array[j:].sum()` are modelled with these,
    over exact integers and exact reals. */
module Sums {

  /** Sum of a sequence of counts, accumulated from the back. */
  function SumNat(s: seq<nat>): nat
  {
    if s == [] then 0 else SumNat(s[..|s| - 1]) + s[|s| - 1]
  }

  /** Sum of a sequence of reals, accumulated from the back. */
  function SumReal(s: seq<real>): real
  {
    if s == [] then 0.0 else SumReal(s[..|s| - 1]) + s[|s| - 1]
  }

  /** `n` copies of `v`: the zero-filled arrays of `np.zeros` and the empty bins of a
      growing histogram. */
  function Repeated<T>(v: T, n: nat): seq<T>
  {
    seq(n, _ => v)
  }

  lemma {:induction false} SumNatConcat(a: seq<nat>, b: seq<nat>)
    ensures SumNat(a + b) == SumNat(a) + SumNat(b)
    decreases |b|
  {
    if b != [] {
      assert (a + b)[..|a + b| - 1] == a + b[..|b| - 1];
      SumNatConcat(a, b[..|b| - 1]);
    } else {
      assert a + b == a;
    }
  }

  lemma {:induction false} SumRealConcat(a: seq<real>, b: seq<real>)
    ensures SumReal(a + b) == SumReal(a) + SumReal(b)
    decreases |b|
  {
    if b != [] {
      assert (a + b)[..|a + b| - 1] == a + b[..|b| - 1];
      SumRealConcat(a, b[..|b| - 1]);
    } else {
      assert a + b == a;
    }
  }

  /** Splitting a sequence at any point splits its sum. */
  lemma SumRealSplit(s: seq<real>, j: nat)
    requires j <= |s|
    ensures SumReal(s) == SumReal(s[..j]) + SumReal(s[j..])
  {
    assert s == s[..j] + s[j..];
    SumRealConcat(s[..j], s[j..]);
  }

  lemma {:induction false} SumNatZeros(n: nat)
    ensures SumNat(Repeated<nat>(0, n)) == 0
  {
    if n > 0 {
      assert Repeated<nat>(0, n)[..n - 1] == Repeated<nat>(0, n - 1);
      SumNatZeros(n - 1);
    }
  }

  /** Incrementing one entry by one increments the sum by one. */
  lemma {:induction false} SumNatIncrement(s: seq<nat>, v: nat)
    requires v < |s|
    ensures SumNat(s[v := s[v] + 1]) == SumNat(s) + 1
    decreases |s|
  {
    var t := s[v := s[v] + 1];
    var n := |s|;
    if v == n - 1 {
      assert t[..n - 1] == s[..n - 1];
    } else {
      assert t[..n - 1] == s[..n - 1][v := s[v] + 1];
      SumNatIncrement(s[..n - 1], v);
    }
  }

  /** No entry of a count sequence exceeds its sum. */
  lemma {:induction false} SumNatBound(s: seq<nat>, k: nat)
    requires k < |s|
    ensures s[k] <= SumNat(s)
    decreases |s|
  {
    if k < |s| - 1 {
      SumNatBound(s[..|s| - 1], k);
    }
  }

  /** A sum of non-negative reals is non-negative. */
  lemma {:induction false} SumRealNonNegative(s: seq<real>)
    requires forall k :: 0 <= k < |s| ==> s[k] >= 0.0
    ensures SumReal(s) >= 0.0
    decreases |s|
  {
    if s != [] {
      SumRealNonNegative(s[..|s| - 1]);
    }
  }

  /** Quotients by a common non-zero divisor add up as their numerators do. */
  lemma AddQuotients(a: real, b: real, t: real)
    requires t != 0.0
    ensures a / t + b / t == (a + b) / t
  {
  }

  /** Dividing every term by a common non-zero divisor divides the sum by it. */
  lemma {:induction false} SumRealDivided(s: seq<real>, t: real, q: seq<real>)
    requires t != 0.0 && |q| == |s|
    requires forall k :: 0 <= k < |s| ==> q[k] == s[k] / t
    ensures SumReal(q) == SumReal(s) / t
    decreases |s|
  {
    if s != [] {
      var n := |s| - 1;
      SumRealDivided(s[..n], t, q[..n]);
      AddQuotients(SumReal(s[..n]), s[n], t);
    }
  }

  /** Every term multiplied by `c`. */
  function Scaled(c: real, s: seq<real>): seq<real>
  {
    seq(|s|, k requires 0 <= k < |s| => c * s[k])
  }

  /** Multiplying every term by a common factor multiplies the sum by it. */
  lemma {:induction false} SumRealScaled(c: real, s: seq<real>)
    ensures SumReal(Scaled(c, s)) == c * SumReal(s)
    decreases |s|
  {
    if s != [] {
      var n := |s| - 1;
      forall k | 0 <= k < n ensures Scaled(c, s)[..n][k] == Scaled(c, s[..n])[k] {
        assert s[..n][k] == s[k];
      }
      assert Scaled(c, s)[..n] == Scaled(c, s[..n]);
      SumRealScaled(c, s[..n]);
      Distribute(c, SumReal(s[..n]), s[n]);
    }
  }

  lemma Distribute(a: real, b: real, c: real)
    ensures a * (b + c) == a * b + a * c
  {
  }
}
