/** Standard-error helpers (ruspy/estimation/standard_errors.py): the covariance matrix of
    the multinomial proportion estimator, used for the standard errors of the transition
    probabilities, and the two-row decision matrix that `params_hess` hands to the
    structural likelihood. */
module StandardErrors {
  import opened Sums

  /** Entry `[i, j]` of the array before the division by `n`:
      `p[i] (1 - p[i])` on the diagonal, `-p[i] p[j]` off it. */
  function Moment(p: seq<real>, i: nat, j: nat): real
    requires i < |p| && j < |p|
  {
    if i == j then p[i] * (1.0 - p[i]) else -p[i] * p[j]
  }

  /** Covariance of the estimated proportions `i` and `j` from `n` trials. */
  function Covariance(n: real, p: seq<real>, i: nat, j: nat): real
    requires n != 0.0 && i < |p| && j < |p|
  {
    Moment(p, i, j) / n
  }

  /** The whole covariance matrix as rows of reals. */
  function CovarianceMatrix(n: real, p: seq<real>): (c: seq<seq<real>>)
    requires n != 0.0
    ensures |c| == |p| && forall i :: 0 <= i < |p| ==> |c[i]| == |p|
  {
    seq(|p|, i requires 0 <= i < |p| => seq(|p|, j requires 0 <= j < |p| => Covariance(n, p, i, j)))
  }

  /** `cov_multinomial`: fill a zero `dim x dim` array with `p[i] (1 - p[i])` on the
      diagonal and `-p[i] p[j]` elsewhere, then divide every entry by `n`. */
  method CovMultinomial(n: real, p: seq<real>) returns (cov: array2<real>)
    requires n != 0.0
    ensures fresh(cov)
    ensures cov.Length0 == |p| && cov.Length1 == |p|
    ensures forall i, j :: 0 <= i < |p| && 0 <= j < |p| ==> cov[i, j] == Covariance(n, p, i, j)
  {
    var dim := |p|;
    cov := new real[dim, dim]((_, _) => 0.0);
    for i := 0 to dim
      invariant forall r, c :: 0 <= r < i && 0 <= c < dim ==> cov[r, c] == Moment(p, r, c)
    {
      for j := 0 to dim
        invariant forall r, c :: 0 <= r < i && 0 <= c < dim ==> cov[r, c] == Moment(p, r, c)
        invariant forall c :: 0 <= c < j ==> cov[i, c] == Moment(p, i, c)
      {
        if i == j {
          cov[i, i] := p[i] * (1.0 - p[i]);
        } else {
          cov[i, j] := -p[i] * p[j];
        }
      }
    }
    for i := 0 to dim
      invariant forall r, c :: 0 <= r < i && 0 <= c < dim ==> cov[r, c] == Covariance(n, p, r, c)
      invariant forall r, c :: i <= r < dim && 0 <= c < dim ==> cov[r, c] == Moment(p, r, c)
    {
      for j := 0 to dim
        invariant forall r, c :: 0 <= r < i && 0 <= c < dim ==> cov[r, c] == Covariance(n, p, r, c)
        invariant forall r, c :: i < r < dim && 0 <= c < dim ==> cov[r, c] == Moment(p, r, c)
        invariant forall c :: 0 <= c < j ==> cov[i, c] == Covariance(n, p, i, c)
        invariant forall c :: j <= c < dim ==> cov[i, c] == Moment(p, i, c)
      {
        cov[i, j] := cov[i, j] / n;
      }
    }
  }

  /** The covariance matrix is symmetric. */
  lemma CovarianceSymmetric(n: real, p: seq<real>)
    requires n != 0.0
    ensures forall i, j :: 0 <= i < |p| && 0 <= j < |p| ==>
      CovarianceMatrix(n, p)[i][j] == CovarianceMatrix(n, p)[j][i]
  {
  }

  /** Row `i` of the identity matrix less `q`: `1 - q[i]` at position `i` and `-q[j]` at
      every other position `j`. */
  function Deviation(i: nat, q: seq<real>): seq<real>
  {
    seq(|q|, j requires 0 <= j < |q| => (if j == i then 1.0 else 0.0) - q[j])
  }

  /** The deviations add up to 1 (when `i` is a position of `q`) less the sum of `q`. */
  lemma {:induction false} DeviationSum(i: nat, q: seq<real>)
    ensures SumReal(Deviation(i, q)) == (if i < |q| then 1.0 else 0.0) - SumReal(q)
    decreases |q|
  {
    if q != [] {
      var n := |q| - 1;
      assert Deviation(i, q)[..n] == Deviation(i, q[..n]);
      DeviationSum(i, q[..n]);
    }
  }

  /** Each entry before the division by `n` is `p[i]` times the matching deviation. */
  lemma MomentFactor(p: seq<real>, i: nat, j: nat)
    requires i < |p| && j < |p|
    ensures Moment(p, i, j) == p[i] * Deviation(i, p)[j]
  {
  }

  /** Dividing by `n` divides every row sum by `n`, and row `i` before the division is the
      deviation row scaled by `p[i]`. */
  lemma CovarianceRowDivided(n: real, p: seq<real>, i: nat)
    requires n != 0.0 && i < |p|
    ensures SumReal(CovarianceMatrix(n, p)[i]) == SumReal(Scaled(p[i], Deviation(i, p))) / n
    ensures SumReal(CovarianceMatrix(n, p)[i]) == 0.0 <==> SumReal(Scaled(p[i], Deviation(i, p))) == 0.0
  {
    var moments := Scaled(p[i], Deviation(i, p));
    forall k | 0 <= k < |p| ensures CovarianceMatrix(n, p)[i][k] == moments[k] / n {
      MomentFactor(p, i, k);
    }
    SumRealDivided(moments, n, CovarianceMatrix(n, p)[i]);
  }

  /** Row `i` sums to `p[i] (1 - sum p) / n` (`CovarianceRowDivided`, `SumRealScaled` and
      `DeviationSum`): to 0 exactly when `p[i]` is 0 or `p` adds up to 1, which makes the
      covariance matrix of a probability vector singular. */
  lemma CovarianceRowSum(n: real, p: seq<real>, i: nat)
    requires n != 0.0 && i < |p|
    ensures SumReal(CovarianceMatrix(n, p)[i]) == 0.0 <==> p[i] == 0.0 || SumReal(p) == 1.0
  {
    CovarianceRowDivided(n, p, i);
    ScaledSumZero(p[i], Deviation(i, p));
    DeviationSum(i, p);
  }

  lemma ScaledSumZero(x: real, s: seq<real>)
    ensures SumReal(Scaled(x, s)) == 0.0 <==> x == 0.0 || SumReal(s) == 0.0
  {
    SumRealScaled(x, s);
  }

  lemma ProductNonNegative(a: real, b: real)
    requires a >= 0.0 && b >= 0.0
    ensures a * b >= 0.0
  {
  }

  /** The variances are non-negative for probabilities in [0, 1] and a positive `n`. */
  lemma VarianceNonNegative(n: real, p: seq<real>, i: nat)
    requires n > 0.0 && i < |p| && 0.0 <= p[i] <= 1.0
    ensures CovarianceMatrix(n, p)[i][i] >= 0.0
  {
    ProductNonNegative(p[i], 1.0 - p[i]);
    ProductNonNegative(Moment(p, i, i), 1.0 / n);
    assert Moment(p, i, i) / n == Moment(p, i, i) * (1.0 / n);
  }

  /** One hundred trials of a two-outcome variable with probabilities 0.8 and 0.2. */
  lemma TwoOutcomeExample()
    ensures CovarianceMatrix(100.0, [0.8, 0.2]) == [[0.0016, -0.0016], [-0.0016, 0.0016]]
  {
    var c := CovarianceMatrix(100.0, [0.8, 0.2]);
    assert c[0] == [0.0016, -0.0016];
    assert c[1] == [-0.0016, 0.0016];
  }

  /** `np.vstack(((1 - endog), endog))`: the stay row `1 - decision` over the replace
      row `decision`, one column per observation. */
  function DecisionMatrix(decision: seq<int>): (d: seq<seq<int>>)
    ensures |d| == 2 && |d[0]| == |decision| && |d[1]| == |decision|
  {
    [seq(|decision|, t requires 0 <= t < |decision| => 1 - decision[t]), decision]
  }

  /** Every column of the decision matrix sums to 1, and for binary decisions each column
      has exactly one 1: in the replace row when the bus was replaced, in the stay row
      otherwise. */
  lemma DecisionColumns(decision: seq<int>)
    ensures forall t :: 0 <= t < |decision| ==>
      DecisionMatrix(decision)[0][t] + DecisionMatrix(decision)[1][t] == 1
    ensures forall t :: 0 <= t < |decision| && (decision[t] == 0 || decision[t] == 1) ==>
      && DecisionMatrix(decision)[1][t] == decision[t]
      && DecisionMatrix(decision)[0][t] == (if decision[t] == 1 then 0 else 1)
  {
  }
}
