/** The banded Markov transition matrix over the mileage states
    (`create_transition_matrix` in ruspy/estimation/estimation_transitions.py).

    Row `i` is the distribution of the next state from state `i`: the state rises by `j`
    with probability `p[j]`, and every rise that would reach or pass the last state
    `n - 1` lands on it instead. */
module TransitionMatrix {
  import opened Sums

  /** Entry `[i, k]` of the `n x n` matrix built from the increment probabilities `p`:
      `p[k - i]` inside the band left of the last column, the tail `p[n - 1 - i..]` in
      the last column when the band reaches it, 0 everywhere else. */
  function Cell(n: nat, p: seq<real>, i: nat, k: nat): real
    requires i < n && k < n
  {
    if i <= k && k - i < |p| then
      (if k < n - 1 then p[k - i] else SumReal(p[k - i..]))
    else 0.0
  }

  /** The whole matrix as rows of reals. */
  function Matrix(n: nat, p: seq<real>): (m: seq<seq<real>>)
    ensures |m| == n && forall i :: 0 <= i < n ==> |m[i]| == n
  {
    seq(n, i requires 0 <= i < n => seq(n, k requires 0 <= k < n => Cell(n, p, i, k)))
  }

  /** `create_transition_matrix`: start from zeros and, row by row, write `p[j]` at
      offset `j` while it stays left of the last column, write the tail sum `p[j..]` in
      the last column at the offset that reaches it, and skip the larger offsets. */
  method CreateTransitionMatrix(numStates: nat, transProb: seq<real>) returns (transMat: array2<real>)
    ensures fresh(transMat)
    ensures transMat.Length0 == numStates && transMat.Length1 == numStates
    ensures forall i, k :: 0 <= i < numStates && 0 <= k < numStates ==>
      transMat[i, k] == Cell(numStates, transProb, i, k)
  {
    transMat := new real[numStates, numStates]((_, _) => 0.0);
    for i := 0 to numStates
      invariant forall r, k :: 0 <= r < i && 0 <= k < numStates ==>
        transMat[r, k] == Cell(numStates, transProb, r, k)
      invariant forall r, k :: i <= r < numStates && 0 <= k < numStates ==> transMat[r, k] == 0.0
    {
      for j := 0 to |transProb|
        invariant forall r, k :: 0 <= r < i && 0 <= k < numStates ==>
          transMat[r, k] == Cell(numStates, transProb, r, k)
        invariant forall r, k :: i < r < numStates && 0 <= k < numStates ==> transMat[r, k] == 0.0
        invariant forall k :: 0 <= k < numStates ==>
          transMat[i, k] == if i <= k && k - i < j then Cell(numStates, transProb, i, k) else 0.0
      {
        if i + j < numStates - 1 {
          transMat[i, i + j] := transProb[j];
        } else if i + j == numStates - 1 {
          transMat[i, numStates - 1] := SumReal(transProb[j..]);
        }
      }
    }
  }

  /** The matrix is square, nothing lies below the diagonal, the band holds `p` shifted to
      the diagonal, the cells right of the band (except the last column) are 0, and the
      last column holds the tail of `p` from the offset that reaches it, or 0 when the band
      stops short of it. */
  lemma MatrixStructure(n: nat, p: seq<real>)
    ensures |Matrix(n, p)| == n
    ensures forall i, k :: 0 <= k < i < n ==> Matrix(n, p)[i][k] == 0.0
    ensures forall i, j :: 0 <= i < n && 0 <= j < |p| && i + j < n - 1 ==> Matrix(n, p)[i][i + j] == p[j]
    ensures forall i, k :: 0 <= i < n && i + |p| <= k < n - 1 ==> Matrix(n, p)[i][k] == 0.0
    ensures forall i :: 0 <= i < n ==>
      Matrix(n, p)[i][n - 1] == if n - 1 - i < |p| then SumReal(p[n - 1 - i..]) else 0.0
  {
  }

  /** Row `i` laid out as zeros before the diagonal, the part of `p` that fits before the
      last column, zeros, and the last column. */
  lemma RowLayout(n: nat, p: seq<real>, i: nat)
    requires i < n
    ensures var d := n - 1 - i;
      if d < |p| then
        Matrix(n, p)[i] == Repeated(0.0, i) + p[..d] + [SumReal(p[d..])]
      else
        Matrix(n, p)[i] == Repeated(0.0, i) + p + Repeated(0.0, d - |p|) + [0.0]
  {
  }

  lemma {:induction false} SumZeros(n: nat)
    ensures SumReal(Repeated(0.0, n)) == 0.0
  {
    if n > 0 {
      assert Repeated(0.0, n)[..n - 1] == Repeated(0.0, n - 1);
      SumZeros(n - 1);
    }
  }

  lemma SumSingleton(x: real)
    ensures SumReal([x]) == x
  {
    assert [x][..0] == [];
  }

  /** Every row sums to the total of `p`: the mass cut off at the last column is
      absorbed there, nothing is lost and nothing is counted twice. */
  lemma RowSum(n: nat, p: seq<real>, i: nat)
    requires i < n
    ensures SumReal(Matrix(n, p)[i]) == SumReal(p)
  {
    var d := n - 1 - i;
    RowLayout(n, p, i);
    SumZeros(i);
    if d < |p| {
      SumRealConcat(Repeated(0.0, i), p[..d]);
      SumRealConcat(Repeated(0.0, i) + p[..d], [SumReal(p[d..])]);
      SumSingleton(SumReal(p[d..]));
      SumRealSplit(p, d);
    } else {
      SumZeros(d - |p|);
      SumRealConcat(Repeated(0.0, i), p);
      SumRealConcat(Repeated(0.0, i) + p, Repeated(0.0, d - |p|));
      SumRealConcat(Repeated(0.0, i) + p + Repeated(0.0, d - |p|), [0.0]);
      SumSingleton(0.0);
    }
  }

  /** With non-negative probabilities that add up to 1 the matrix is row-stochastic. */
  lemma RowStochastic(n: nat, p: seq<real>)
    requires SumReal(p) == 1.0
    requires forall j :: 0 <= j < |p| ==> p[j] >= 0.0
    ensures forall i, k :: 0 <= i < n && 0 <= k < n ==> Matrix(n, p)[i][k] >= 0.0
    ensures forall i :: 0 <= i < n ==> SumReal(Matrix(n, p)[i]) == 1.0
  {
    forall i, k | 0 <= i < n && 0 <= k < n ensures Matrix(n, p)[i][k] >= 0.0 {
      if i <= k && k - i < |p| && k == n - 1 {
        SumRealNonNegative(p[k - i..]);
      }
    }
    forall i | 0 <= i < n ensures SumReal(Matrix(n, p)[i]) == 1.0 {
      RowSum(n, p, i);
    }
  }

  /** A process that never rises stays where it is: `p = [1]` gives the identity. */
  lemma IdentityWhenNoIncrease(n: nat)
    ensures forall i, k :: 0 <= i < n && 0 <= k < n ==>
      Matrix(n, [1.0])[i][k] == if i == k then 1.0 else 0.0
  {
    SumSingleton(1.0);
  }

  /** Five states with rises of 0, 1 and 2: the first row is `p` followed by zeros, and in
      the fourth row the rise by 1 already reaches the last state, which absorbs 0.3 + 0.2. */
  lemma FiveStateExample()
    ensures Matrix(5, [0.5, 0.3, 0.2])[0] == [0.5, 0.3, 0.2, 0.0, 0.0]
    ensures Matrix(5, [0.5, 0.3, 0.2])[3] == [0.0, 0.0, 0.0, 0.5, 0.5]
  {
    var p := [0.5, 0.3, 0.2];
    assert p[1..] == [0.3, 0.2];
    assert SumReal([0.3, 0.2]) == 0.5 by {
      assert [0.3, 0.2][..1] == [0.3];
      SumSingleton(0.3);
    }
  }
}
