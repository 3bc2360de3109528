# ruspy transition estimation and multinomial standard errors, in Dafny

This project models the first stage of ruspy's estimation of Rust's bus engine
replacement model, together with the closed-form standard-error helper that goes with it.

- **Transition estimation** (`estimate_transitions`, `loglike`). The usage column of the
  bus panel records the mileage-state increase of each bus per period, or a missing
  value (NaN). The present increases are tallied into a histogram, as
  `np.bincount` does. The histogram is normalised into maximum-likelihood probabilities,
  and the negative log-likelihood of the histogram under them is evaluated. The result has
  the same three parts as ruspy's result dictionary: `x`, `fun` and `trans_count`.
- **Transition matrix** (`create_transition_matrix`). This builds the `n x n` Markov
  matrix over mileage states. From state `i` the state rises by `j` with probability
  `p[j]`. Every rise that would reach or pass the last state lands on it, so the last
  column absorbs the tail `p[j..]`. The model is a method that fills an `array2` with the
  same nested loops. It is proved equal, cell by cell, to a functional description.
  Lemmas about that description give the band structure and the row sums.
- **Multinomial covariance** (`cov_multinomial`). The method fills an `array2` with
  `p[i](1 - p[i])` and `-p[i]p[j]`, then divides every cell by `n`. Lemmas give symmetry,
  non-negative variances and the row sums.
- **Decision matrix** (standard_errors.py:38-39, inside `params_hess`). This is the two-row stay/replace
  indicator matrix.

Numbers are exact: counts are `nat` and probabilities are `real`. Sums are the recursive
`Sums.SumNat` and `Sums.SumReal`. The natural logarithm is a parameter `log: real -> real`.
Where a property depends on it, the only assumption made is that `log` is non-positive
on (0, 1].

A negative usage value reaches `np.bincount` (estimation_transitions.py:25), which raises
`ValueError` on negative input. `EstimateTransitions` returns `Err(NegativeIncrement)`
exactly when some present usage value is negative.

## Model

| member | source | states |
|---|---|---|
| TransitionEstimation.PresentUsage | ruspy/estimation/estimation_transitions.py:23-24 | dropping the missing values keeps every present value exactly as often as it occurs, and the length is the number of present entries |
| TransitionEstimation.Increments | ruspy/estimation/estimation_transitions.py:23-25 | the usage is rejected exactly when a present value is negative; otherwise the result is the present values in order |
| TransitionEstimation.Tally | ruspy/estimation/estimation_transitions.py:25 | adding one observation `v` grows the histogram to cover `v`, adds 1 to bin `v` only, and adds 1 to the total |
| TransitionEstimation.Bincount | ruspy/estimation/estimation_transitions.py:25 | defines `np.bincount` as a fold of `Tally` over the observations; characterised by `BincountCounts`, `BincountLength` and `BincountTotal` |
| TransitionEstimation.BincountCounts | ruspy/estimation/estimation_transitions.py:25 | every observed value has a bin, and bin `k` holds the number of occurrences of `k` |
| TransitionEstimation.BincountLength | ruspy/estimation/estimation_transitions.py:25 | the histogram is empty exactly for empty input; otherwise its last bin is an observed value, i.e. its length is the maximum plus one |
| TransitionEstimation.BincountTotal | ruspy/estimation/estimation_transitions.py:25 | the histogram's counts add up to the number of observations |
| TransitionEstimation.DividedBy | ruspy/estimation/estimation_transitions.py:26 | defines the element-wise division of the counts by the total; keeps the length; characterised by `DividedByAt` and `DividedBySum` |
| TransitionEstimation.Proportions | ruspy/estimation/estimation_transitions.py:26 | defines `trans_probs`, the counts over their sum (empty for an empty histogram); one entry per bin; characterised by `ProportionAt` and `ProportionsDistribution` |
| TransitionEstimation.DividedBySum | ruspy/estimation/estimation_transitions.py:26 | dividing each count by the total divides their sum by it |
| TransitionEstimation.DividedByAt | ruspy/estimation/estimation_transitions.py:26 | entry `k` of the divided sequence is count `k` over the total |
| TransitionEstimation.ProportionAt | ruspy/estimation/estimation_transitions.py:26 | each probability is its count over the total; it lies in [0, 1] and is positive exactly when the count is |
| TransitionEstimation.ProportionsDistribution | ruspy/estimation/estimation_transitions.py:26 | the probabilities have one entry per bin, each in [0, 1] and equal to its share, and a non-empty histogram's probabilities add up to 1 |
| TransitionEstimation.WeightedLogSum | ruspy/estimation/estimation_transitions.py:45 | defines `np.sum(np.multiply(transition_count, np.log(trans_probs)))` as a sum over the bins; used by `Loglike` |
| TransitionEstimation.Loglike | ruspy/estimation/estimation_transitions.py:34-46 | defines `loglike`, the negated weighted log sum; characterised by `LoglikeNonNegative` and `LoglikeTwoBins` |
| TransitionEstimation.LoglikeNonNegative | ruspy/estimation/estimation_transitions.py:34-46 | `-sum(count * log p)` is never negative when every bin with a positive count has a probability in (0, 1] |
| TransitionEstimation.LoglikeTwoBins | ruspy/estimation/estimation_transitions.py:45-46 | counts 10 and 5 with probabilities 0.8 and 0.2 give `-(10 log 0.8 + 5 log 0.2)` |
| TransitionEstimation.PresentMember | ruspy/estimation/estimation_transitions.py:24 | a value survives the removal of missing entries exactly when it occurs present in the usage column |
| TransitionEstimation.IncrementHistogram | ruspy/estimation/estimation_transitions.py:23-25 | for valid usage, bin `k` of the histogram counts the present values equal to `k`, the histogram reaches exactly the largest of them, and its total is the number of present values |
| TransitionEstimation.EstimateTransitions | ruspy/estimation/estimation_transitions.py:9-31 | the estimation fails exactly when a present usage value is negative |
| TransitionEstimation.EstimateTransitionsCounts | ruspy/estimation/estimation_transitions.py:23-29 | for valid usage, `trans_count[k]` is the number of present usage values equal to `k`; the histogram reaches exactly the largest of them; its total is the number of present values |
| TransitionEstimation.EstimateTransitionsProbabilities | ruspy/estimation/estimation_transitions.py:26-29 | for valid usage, `x` has one entry per bin, each the bin's share of the total and in [0, 1]; `x` is empty exactly when no value is present and otherwise sums to 1; `fun` is the negative log-likelihood of `trans_count` under `x` |
| TransitionEstimation.EstimateFunNonNegative | ruspy/estimation/estimation_transitions.py:27-29 | for valid usage, the reported `fun` is never negative |
| TransitionMatrix.Cell | ruspy/estimation/estimation_transitions.py:66-71 | defines the cell `[i, k]` the loops leave behind: `p[k-i]` in the band left of the last column, the tail sum in the last column, 0 elsewhere; characterised by `MatrixStructure`, `RowLayout` and `RowSum` |
| TransitionMatrix.Matrix | ruspy/estimation/estimation_transitions.py:63 | the matrix has `n` rows of `n` entries |
| TransitionMatrix.CreateTransitionMatrix | ruspy/estimation/estimation_transitions.py:50-72 | the array returned by the nested loops is new, `n x n`, and equal cell by cell to `Matrix(n, p)` |
| TransitionMatrix.MatrixStructure | ruspy/estimation/estimation_transitions.py:63-71 | nothing below the diagonal; `p[j]` at offset `j` left of the last column; zeros right of the band; the last column holds the tail `p[n-1-i..]`, or 0 when the band stops short of it |
| TransitionMatrix.RowLayout | ruspy/estimation/estimation_transitions.py:64-71 | each row is zeros, the part of `p` that fits, zeros, then the absorbed tail |
| TransitionMatrix.RowSum | ruspy/estimation/estimation_transitions.py:64-72 | every row sums to the total of `p`, so no mass is lost or counted twice at the last column |
| TransitionMatrix.RowStochastic | ruspy/estimation/estimation_transitions.py:64-72 | a probability vector `p` gives a matrix whose entries are non-negative and whose rows sum to 1 |
| TransitionMatrix.IdentityWhenNoIncrease | ruspy/estimation/estimation_transitions.py:64-72 | `p = [1]` gives the identity matrix |
| TransitionMatrix.FiveStateExample | ruspy/estimation/estimation_transitions.py:64-71 | five states with `p = [0.5, 0.3, 0.2]`: row 0 is `p` padded with zeros, and row 3 absorbs `0.3 + 0.2` in the last column |
| StandardErrors.Moment | ruspy/estimation/standard_errors.py:20-23 | defines the entry written by the fill loop: `p[i](1-p[i])` on the diagonal, `-p[i]p[j]` off it; characterised by `MomentFactor` |
| StandardErrors.Covariance | ruspy/estimation/standard_errors.py:20-24 | defines the entry of `cov / n`; characterised by `CovMultinomial`, `CovarianceSymmetric`, `VarianceNonNegative` and `CovarianceRowSum` |
| StandardErrors.CovarianceMatrix | ruspy/estimation/standard_errors.py:16-17 | the covariance matrix is `dim x dim` with `dim = len(p)` |
| StandardErrors.CovMultinomial | ruspy/estimation/standard_errors.py:13-24 | the array produced by the fill loops and the division by `n` is new, `dim x dim`, and holds `p[i](1-p[i])/n` on the diagonal and `-p[i]p[j]/n` elsewhere |
| StandardErrors.CovarianceSymmetric | ruspy/estimation/standard_errors.py:18-23 | the covariance matrix is symmetric |
| StandardErrors.MomentFactor | ruspy/estimation/standard_errors.py:20-23 | each unscaled entry of row `i` is `p[i]` times `(1 if j = i else 0) - p[j]` |
| StandardErrors.CovarianceRowDivided | ruspy/estimation/standard_errors.py:24 | the division by `n` divides each row sum by `n`, and a row sums to 0 exactly when its unscaled row does |
| StandardErrors.CovarianceRowSum | ruspy/estimation/standard_errors.py:18-24 | row `i` sums to 0 exactly when `p[i] = 0` or `p` sums to 1, so a probability vector gives zero row sums |
| StandardErrors.VarianceNonNegative | ruspy/estimation/standard_errors.py:20-24 | for `n > 0` and `p[i]` in [0, 1] the variance on the diagonal is non-negative |
| StandardErrors.TwoOutcomeExample | ruspy/estimation/standard_errors.py:13-24 | `n = 100` and `p = [0.8, 0.2]` give `[[0.0016, -0.0016], [-0.0016, 0.0016]]` |
| StandardErrors.DecisionMatrix | ruspy/estimation/standard_errors.py:38-39 | the decision matrix has two rows with one column per observation |
| StandardErrors.DecisionColumns | ruspy/estimation/standard_errors.py:38-39 | every column sums to 1, and for binary decisions the 1 sits in the replace row exactly when the bus was replaced |

## Left out

- Floating point: probabilities, covariances and sums are exact reals. Rounding in `np.sum`, in the division by the total and in `cov / n` is not modelled.
- The logarithm is a parameter, so IEEE `log(0) = -inf` is not modelled.
- Loglike: an empty bin inside the histogram contributes 0 in the model, where numpy computes `0 * log(0) = nan`. For example, usage `0, 0, 2` gives `trans_count = [2, 0, 1]` and `x = [2/3, 0, 1/3]`; the source's `fun` is then NaN, while the model's is the finite `-(2 log(2/3) + log(1/3))`. `EstimateTransitionsProbabilities` and `EstimateFunNonNegative` state facts about this finite value.
- `EstimateTransitions` takes usage as optional integers. The cast `astype(int)` of non-integral floats, which truncates toward zero, is not modelled.
- The pandas column access `df["usage"]` and the result dictionary are replaced by a sequence argument and the `TransitionEstimate` datatype.
- `CovMultinomial` requires `n != 0`. numpy would return infinities or NaN for `n = 0`, and that is not modelled.
- `CovMultinomial` divides its own array in place. `cov / n` in the source allocates a second array; the unscaled one is never visible to a caller.
- `create_transition_matrix` is compiled with `numba.jit`. Compilation has no effect on the result and is not modelled.
- `params_hess` beyond the decision matrix is not part of this model: its calls to `estimate_transitions`, `create_transition_matrix` and `create_state_matrix`, the `1.2 * max(state)` and `repl_4` state-count choice, `create_wrap_func`, and the finite-difference `hessian`. These depend on the structural cost-parameter likelihood and an external differentiation library.
- The structural likelihood (`loglike_opt_rule`, `lin_cost`, `create_state_matrix`) is not part of this model.
