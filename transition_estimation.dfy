/** Maximum-likelihood estimation of the mileage-increment transition probabilities
    (`estimate_transitions` and `loglike` in ruspy/estimation/estimation_transitions.py).

    The usage column of the panel is a sequence of optional integers: `None` stands for
    a missing value (NaN). The natural logarithm is a parameter `log`, so that nothing
    here depends on its values except where a lemma says so. */
module TransitionEstimation {
  import opened Sums

  datatype Option<T> = None | Some(value: T)

  /** The only way the estimation can fail: `np.bincount` refuses negative input. */
  datatype EstimationError = NegativeIncrement

  datatype Result<T> = Ok(value: T) | Err(error: EstimationError)

  /** The result dictionary with its three keys `x`, `fun` and `trans_count`. */
  datatype TransitionEstimate = TransitionEstimate(x: seq<real>, fun: real, transCount: seq<nat>)

  /** The usage values that are present, in their original order (`usage[~np.isnan(usage)]`).
      Every value occurs in the result exactly as often as it occurs present in the input. */
  function PresentUsage(usage: seq<Option<int>>): (r: seq<int>)
    ensures |r| == |usage| - multiset(usage)[None]
    ensures forall v :: multiset(r)[v] == multiset(usage)[Some(v)]
    decreases |usage|
  {
    if usage == [] then []
    else
      var init := usage[..|usage| - 1];
      var last := usage[|usage| - 1];
      assert usage == init + [last];
      match last
      case None => PresentUsage(init)
      case Some(v) => PresentUsage(init) + [v]
  }

  /** Adds one observation of increment `v` to histogram `h`, growing it with empty bins
      when `v` lies beyond its end. */
  function Tally(h: seq<nat>, v: nat): (t: seq<nat>)
    ensures |t| == if v < |h| then |h| else v + 1
    ensures forall k :: 0 <= k < |t| ==> t[k] == (if k < |h| then h[k] else 0) + (if k == v then 1 else 0)
    ensures SumNat(t) == SumNat(h) + 1
  {
    if v < |h| then
      SumNatIncrement(h, v);
      h[v := h[v] + 1]
    else
      var z := Repeated<nat>(0, v - |h|);
      SumNatConcat(h, z);
      SumNatConcat(h + z, [1]);
      SumNatZeros(v - |h|);
      assert SumNat([1]) == 1 by { assert [1][..0] == []; }
      h + z + [1]
  }

  /** `np.bincount`: one bin per increment from 0 up to the largest observed one. */
  function Bincount(xs: seq<nat>): (h: seq<nat>)
    decreases |xs|
  {
    if xs == [] then [] else Tally(Bincount(xs[..|xs| - 1]), xs[|xs| - 1])
  }

  /** Bin `k` holds the number of observations equal to `k`. */
  lemma {:induction false} BincountCounts(xs: seq<nat>)
    ensures forall v :: v in xs ==> v < |Bincount(xs)|
    ensures forall k :: 0 <= k < |Bincount(xs)| ==> Bincount(xs)[k] == multiset(xs)[k]
    decreases |xs|
  {
    if xs != [] {
      var init := xs[..|xs| - 1];
      var v := xs[|xs| - 1];
      assert xs == init + [v];
      BincountCounts(init);
      var hp := Bincount(init);
      var h := Bincount(xs);
      forall u | u in xs ensures u < |h| {
        if u != v {
          assert u in init;
        }
      }
      forall k | 0 <= k < |h| ensures h[k] == multiset(xs)[k] {
        if k >= |hp| {
          assert k !in init;
          assert k !in multiset(init);
        }
      }
    }
  }

  /** The histogram is empty for no observations and otherwise ends at the largest one. */
  lemma {:induction false} BincountLength(xs: seq<nat>)
    ensures xs == [] <==> Bincount(xs) == []
    ensures xs != [] ==> |Bincount(xs)| - 1 in xs
    decreases |xs|
  {
    if xs != [] {
      var init := xs[..|xs| - 1];
      var v := xs[|xs| - 1];
      assert xs == init + [v];
      BincountLength(init);
      var hp := Bincount(init);
      if v < |hp| {
        assert |hp| - 1 in init;
      }
    }
  }

  /** The bins add up to the number of observations. */
  lemma {:induction false} BincountTotal(xs: seq<nat>)
    ensures SumNat(Bincount(xs)) == |xs|
    decreases |xs|
  {
    if xs != [] {
      BincountTotal(xs[..|xs| - 1]);
    }
  }

  /** Counts divided by a common positive total. */
  function DividedBy(counts: seq<nat>, total: real): (x: seq<real>)
    requires total > 0.0
    ensures |x| == |counts|
    decreases |counts|
  {
    if counts == [] then []
    else DividedBy(counts[..|counts| - 1], total) + [counts[|counts| - 1] as real / total]
  }

  /** Dividing every count by the total divides their sum by it. */
  lemma {:induction false} DividedBySum(counts: seq<nat>, total: real)
    requires total > 0.0
    ensures SumReal(DividedBy(counts, total)) == SumNat(counts) as real / total
    decreases |counts|
  {
    if counts != [] {
      var init := counts[..|counts| - 1];
      var c := counts[|counts| - 1] as real;
      var x := DividedBy(counts, total);
      assert x[..|x| - 1] == DividedBy(init, total);
      DividedBySum(init, total);
      AddQuotients(SumNat(init) as real, c, total);
    }
  }

  lemma {:induction false} DividedByAt(counts: seq<nat>, total: real, k: nat)
    requires total > 0.0 && k < |counts|
    ensures DividedBy(counts, total)[k] == counts[k] as real / total
    decreases |counts|
  {
    if k < |counts| - 1 {
      DividedByAt(counts[..|counts| - 1], total, k);
    }
  }

  /** `np.array(transition_count) / np.sum(transition_count)`: the multinomial MLE. */
  function Proportions(counts: seq<nat>): (x: seq<real>)
    requires counts == [] || SumNat(counts) > 0
    ensures |x| == |counts|
  {
    if counts == [] then [] else DividedBy(counts, SumNat(counts) as real)
  }

  /** A count divided by a total it does not exceed is a probability, positive exactly
      when the count is. */
  lemma ShareOfTotal(c: real, t: real)
    requires 0.0 <= c <= t && t > 0.0
    ensures 0.0 <= c / t <= 1.0 && (c / t > 0.0 <==> c > 0.0) && (c == t ==> c / t == 1.0)
  {
  }

  /** Entry `k` of the proportions is bin `k`'s share of the total. */
  lemma ProportionAt(counts: seq<nat>, k: nat)
    requires SumNat(counts) > 0 && k < |counts|
    ensures var x := Proportions(counts)[k];
      x == counts[k] as real / SumNat(counts) as real && 0.0 <= x <= 1.0 && (x > 0.0 <==> counts[k] > 0)
  {
    var total := SumNat(counts);
    var c := counts[k];
    DividedByAt(counts, total as real, k);
    SumNatBound(counts, k);
    ShareOfTotal(c as real, total as real);
  }

  /** The proportions form a probability vector: one entry per bin, each in [0, 1],
      positive exactly where the count is, and adding up to 1 for a non-empty histogram. */
  lemma ProportionsDistribution(counts: seq<nat>)
    requires counts == [] || SumNat(counts) > 0
    ensures |Proportions(counts)| == |counts|
    ensures forall k :: 0 <= k < |counts| ==>
      0.0 <= Proportions(counts)[k] <= 1.0 && (Proportions(counts)[k] > 0.0 <==> counts[k] > 0)
    ensures forall k :: 0 <= k < |counts| ==>
      Proportions(counts)[k] == counts[k] as real / SumNat(counts) as real
    ensures counts != [] ==> SumReal(Proportions(counts)) == 1.0
  {
    if counts != [] {
      var t := SumNat(counts) as real;
      DividedBySum(counts, t);
      ShareOfTotal(t, t);
      forall k | 0 <= k < |counts|
        ensures 0.0 <= Proportions(counts)[k] <= 1.0 && (Proportions(counts)[k] > 0.0 <==> counts[k] > 0)
        ensures Proportions(counts)[k] == counts[k] as real / t
      {
        ProportionAt(counts, k);
      }
    }
  }

  /** `np.sum(np.multiply(transition_count, np.log(trans_probs)))`. */
  function WeightedLogSum(probs: seq<real>, counts: seq<nat>, log: real -> real): real
    requires |probs| == |counts|
    decreases |counts|
  {
    if counts == [] then 0.0
    else
      var n := |counts| - 1;
      WeightedLogSum(probs[..n], counts[..n], log) + counts[n] as real * log(probs[n])
  }

  /** `loglike`: the negative log-likelihood of the counts under the probabilities. */
  function Loglike(probs: seq<real>, counts: seq<nat>, log: real -> real): real
    requires |probs| == |counts|
  {
    -WeightedLogSum(probs, counts, log)
  }

  /** The negative log-likelihood is never negative when the logarithm is non-positive on
      (0, 1] and every observed bin has a probability in (0, 1]; bins without observations
      contribute nothing, whatever their probability. */
  lemma {:induction false} LoglikeNonNegative(probs: seq<real>, counts: seq<nat>, log: real -> real)
    requires |probs| == |counts|
    requires forall y :: 0.0 < y <= 1.0 ==> log(y) <= 0.0
    requires forall k :: 0 <= k < |counts| && counts[k] > 0 ==> 0.0 < probs[k] <= 1.0
    ensures Loglike(probs, counts, log) >= 0.0
    decreases |counts|
  {
    if counts != [] {
      var n := |counts| - 1;
      LoglikeNonNegative(probs[..n], counts[..n], log);
      if counts[n] > 0 {
        assert log(probs[n]) <= 0.0;
        assert counts[n] as real * log(probs[n]) <= 0.0;
      }
    }
  }

  /** The worked two-bin example: ten observations of increment 0 and five of increment 1. */
  lemma LoglikeTwoBins(log: real -> real)
    ensures Loglike([0.8, 0.2], [10, 5], log) == -(10.0 * log(0.8) + 5.0 * log(0.2))
  {
    assert [0.8, 0.2][..1] == [0.8];
    assert [10, 5][..1] == [10];
    assert [0.8][..0] == [];
    var one: seq<nat> := [10];
    assert one[..0] == [];
  }

  /** The increments `np.bincount` receives: the present usage values, with a negative
      one rejected as `np.bincount` rejects it. */
  function Increments(usage: seq<Option<int>>): (r: Result<seq<nat>>)
    ensures r.Err? <==> exists v :: v < 0 && Some(v) in usage
    ensures r.Ok? ==> r.value == PresentUsage(usage)
  {
    var present := PresentUsage(usage);
    if exists i :: 0 <= i < |present| && present[i] < 0 then
      var i :| 0 <= i < |present| && present[i] < 0;
      assert present[i] in multiset(present);
      Err(NegativeIncrement)
    else
      assert forall v :: v < 0 && Some(v) in usage ==> v in multiset(present);
      var xs: seq<nat> := present;
      Ok(xs)
  }

  /** `estimate_transitions`: drop the missing usage values, count each increment, divide
      the counts by their total and score the result with `loglike`. */
  function EstimateTransitions(usage: seq<Option<int>>, log: real -> real): (r: Result<TransitionEstimate>)
    ensures r.Err? <==> exists v :: v < 0 && Some(v) in usage
  {
    match Increments(usage)
    case Err(e) => Err(e)
    case Ok(xs) =>
      var counts := Bincount(xs);
      BincountTotal(xs);
      BincountLength(xs);
      var x := Proportions(counts);
      Ok(TransitionEstimate(x, Loglike(x, counts, log), counts))
  }

  /** A value is among the present usage values exactly when it occurs present in the usage. */
  lemma PresentMember(usage: seq<Option<int>>, v: int)
    ensures v in PresentUsage(usage) <==> Some(v) in usage
  {
  }

  /** The histogram of the valid increments, stated in terms of the usage column. */
  lemma IncrementHistogram(usage: seq<Option<int>>)
    requires forall v :: v < 0 ==> Some(v) !in usage
    ensures Increments(usage).Ok?
    ensures var h := Bincount(Increments(usage).value);
      && (forall k :: 0 <= k < |h| ==> h[k] == multiset(usage)[Some(k)])
      && (forall v :: Some(v) in usage ==> 0 <= v < |h|)
      && (|h| > 0 ==> Some(|h| - 1) in usage)
      && SumNat(h) == |usage| - multiset(usage)[None]
  {
    var xs := Increments(usage).value;
    var h := Bincount(xs);
    BincountCounts(xs);
    BincountLength(xs);
    BincountTotal(xs);
    var counted: multiset<nat> := multiset(xs);
    forall k | 0 <= k < |h| ensures h[k] == multiset(usage)[Some(k)] {
      assert h[k] == counted[k];
    }
    forall v | Some(v) in usage ensures 0 <= v < |h| {
      PresentMember(usage, v);
    }
    if |h| > 0 {
      PresentMember(usage, |h| - 1);
    }
  }

  /** The histogram of the estimate: bin `k` counts the present usage values equal to `k`,
      the histogram reaches exactly the largest of them, and its total is the number of
      present values. */
  lemma EstimateTransitionsCounts(usage: seq<Option<int>>, log: real -> real)
    requires forall v :: v < 0 ==> Some(v) !in usage
    ensures EstimateTransitions(usage, log).Ok?
    ensures var h := EstimateTransitions(usage, log).value.transCount;
      && (forall k :: 0 <= k < |h| ==> h[k] == multiset(usage)[Some(k)])
      && (forall v :: Some(v) in usage ==> 0 <= v < |h|)
      && (|h| > 0 ==> Some(|h| - 1) in usage)
      && SumNat(h) == |usage| - multiset(usage)[None]
  {
    IncrementHistogram(usage);
    assert EstimateTransitions(usage, log).value.transCount == Bincount(Increments(usage).value);
  }

  /** The probabilities of the estimate: `x` has one entry per bin, each the bin's share
      of the total and so in [0, 1]; it is empty exactly when no usage value is present,
      and otherwise adds up to 1; `fun` is the negative log-likelihood of the histogram
      under `x`. */
  lemma EstimateTransitionsProbabilities(usage: seq<Option<int>>, log: real -> real)
    requires forall v :: v < 0 ==> Some(v) !in usage
    ensures EstimateTransitions(usage, log).Ok?
    ensures var e := EstimateTransitions(usage, log).value;
      && |e.x| == |e.transCount|
      && (forall k :: 0 <= k < |e.x| ==>
            e.x[k] == e.transCount[k] as real / SumNat(e.transCount) as real && 0.0 <= e.x[k] <= 1.0)
      && (e.x == [] <==> multiset(usage)[None] == |usage|)
      && (e.x != [] ==> SumReal(e.x) == 1.0)
      && e.fun == Loglike(e.x, e.transCount, log)
  {
    var xs := Increments(usage).value;
    var h := Bincount(xs);
    BincountTotal(xs);
    BincountLength(xs);
    ProportionsDistribution(h);
  }

  /** The estimate's negative log-likelihood is never negative for a logarithm that is
      non-positive on (0, 1]. */
  lemma EstimateFunNonNegative(usage: seq<Option<int>>, log: real -> real)
    requires forall v :: v < 0 ==> Some(v) !in usage
    requires forall y :: 0.0 < y <= 1.0 ==> log(y) <= 0.0
    ensures EstimateTransitions(usage, log).Ok? && EstimateTransitions(usage, log).value.fun >= 0.0
  {
    var xs := Increments(usage).value;
    var h := Bincount(xs);
    BincountTotal(xs);
    BincountLength(xs);
    ProportionsDistribution(h);
    LoglikeNonNegative(Proportions(h), h, log);
  }
}
