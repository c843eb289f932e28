/**
 * The discrete parts of `QAgent.beta_softmax`: choosing the temperature by
 * mode, the additive invalid-action mask, and the greedy one-hot policy used
 * when the chosen temperature is unset. The temperature softmax itself is a
 * caller-supplied row function.
 */
module Policy {
  import opened Wrappers
  import opened Tensors

  /** The three operating modes of the policy. */
  datatype Mode = Sample | Train | Deploy

  /** The per-mode temperatures; `None` means "act greedily in that mode". */
  datatype Temperatures = Temperatures(train: Option<real>, sample: Option<real>, deploy: Option<real>)

  /** Mode to temperature dispatch. */
  function SelectBeta(t: Temperatures, mode: Mode): (beta: Option<real>)
    ensures mode == Sample ==> beta == t.sample
    ensures mode == Train ==> beta == t.train
    ensures mode == Deploy ==> beta == t.deploy
  {
    match mode
    case Sample => t.sample
    case Train => t.train
    case Deploy => t.deploy
  }

  /** The large negative constant standing in for minus infinity. */
  const InvalidPenalty: real := -1000000000.0

  /** `(~valid).float() * -1e9` for one entry. */
  function Penalty(valid: bool): (r: real)
    ensures valid ==> r == 0.0
    ensures !valid ==> r == InvalidPenalty
  {
    (if valid then 0.0 else 1.0) * InvalidPenalty
  }

  /** Adds the invalid-action mask to one row. */
  function MaskRow(x: Row, valid: seq<bool>): (r: Row)
    requires |valid| == |x|
    ensures |r| == |x|
    ensures forall j :: 0 <= j < |x| ==> r[j] == if valid[j] then x[j] else x[j] + InvalidPenalty
  {
    seq(|x|, j requires 0 <= j < |x| => x[j] + Penalty(valid[j]))
  }

  /** The validity tensor has the same shape as the value tensor. */
  predicate SameShape(m: Matrix, validity: seq<seq<bool>>)
  {
    |validity| == |m| && forall i :: 0 <= i < |m| ==> |validity[i]| == |m[i]|
  }

  /** Adds the invalid-action mask to every row. */
  function Mask(m: Matrix, validity: seq<seq<bool>>): (r: Matrix)
    requires SameShape(m, validity)
    ensures |r| == |m|
    ensures forall i :: 0 <= i < |m| ==> r[i] == MaskRow(m[i], validity[i])
  {
    seq(|m|, i requires 0 <= i < |m| => MaskRow(m[i], validity[i]))
  }

  /** The values the policy ranks: masked when a validity tensor is given. */
  function PolicyInput(m: Matrix, validity: Option<seq<seq<bool>>>): (r: Matrix)
    requires validity.Some? ==> SameShape(m, validity.value)
    ensures |r| == |m| && forall i :: 0 <= i < |m| ==> |r[i]| == |m[i]|
  {
    if validity.Some? then Mask(m, validity.value) else m
  }

  /** `outputs * beta`: every value scaled by the temperature. */
  function Scale(x: Row, beta: real): (r: Row)
    ensures |r| == |x| && forall j :: 0 <= j < |x| ==> r[j] == x[j] * beta
  {
    seq(|x|, j requires 0 <= j < |x| => x[j] * beta)
  }

  /**
   * What a row softmax promises: it keeps the length, its entries are
   * non-negative and a non-empty row sums to one.
   */
  ghost predicate IsRowSoftmax(softmax: Row -> Row)
  {
    forall x: Row {:trigger softmax(x)} ::
      |softmax(x)| == |x| &&
      (|x| > 0 ==> IsDistribution(softmax(x)))
  }

  /**
   * The policy on one (already masked) row: tempered softmax, or greedy
   * without a temperature. Either way it is a distribution over the row.
   */
  function PolicyRow(t: Temperatures, mode: Mode, x: Row, softmax: Row -> Row): (r: Row)
    requires |x| > 0
    ensures IsRowSoftmax(softmax) ==> |r| == |x| && IsDistribution(r)
    ensures SelectBeta(t, mode).Some? ==> r == softmax(Scale(x, SelectBeta(t, mode).value))
  {
    match SelectBeta(t, mode)
    case Some(beta) => softmax(Scale(x, beta))
    case None =>
      OneHotIsDistribution(|x|, ArgMax(x));
      OneHot(|x|, ArgMax(x))
  }

  /** `beta_softmax(outputs, mode, action_validity)`. */
  function BetaSoftmax(t: Temperatures, outputs: Matrix, mode: Mode,
                       validity: Option<seq<seq<bool>>>, softmax: Row -> Row): (r: Matrix)
    requires validity.Some? ==> SameShape(outputs, validity.value)
    requires forall i :: 0 <= i < |outputs| ==> |outputs[i]| > 0
    ensures |r| == |outputs|
  {
    var x := PolicyInput(outputs, validity);
    seq(|x|, i requires 0 <= i < |x| => PolicyRow(t, mode, x[i], softmax))
  }

  /**
   * The greedy branch as the source computes it: a zero tensor into which a 1
   * is written, row by row, at the first arg-max.
   */
  method GreedyProbabilities(outputs: Matrix, actions: nat) returns (p: array2<real>)
    requires actions > 0 && Shaped(outputs, actions)
    ensures fresh(p)
    ensures p.Length0 == |outputs| && p.Length1 == actions
    ensures forall i, j :: 0 <= i < |outputs| && 0 <= j < actions ==>
              p[i, j] == if IsFirstMax(outputs[i], j) then 1.0 else 0.0
  {
    p := new real[|outputs|, actions]((i, j) => 0.0);
    var i := 0;
    while i < |outputs|
      invariant 0 <= i <= |outputs|
      invariant p.Length0 == |outputs| && p.Length1 == actions
      invariant forall r, j :: 0 <= r < i && 0 <= j < actions ==>
                  p[r, j] == if j == ArgMax(outputs[r]) then 1.0 else 0.0
      invariant forall r, j :: i <= r < |outputs| && 0 <= j < actions ==> p[r, j] == 0.0
    {
      p[i, ArgMax(outputs[i])] := 1.0;
      i := i + 1;
    }
    forall i, j | 0 <= i < |outputs| && 0 <= j < actions
      ensures p[i, j] == if IsFirstMax(outputs[i], j) then 1.0 else 0.0
    {
      if IsFirstMax(outputs[i], j) {
        ArgMaxUnique(outputs[i], j);
      }
    }
  }

  /**
   * The greedy branch of the row policy agrees with the method above: it is 1
   * exactly at the first maximum of the row.
   */
  lemma GreedyIsFirstMaxOneHot(t: Temperatures, mode: Mode, x: Row, softmax: Row -> Row, j: nat)
    requires |x| > 0 && j < |x|
    requires SelectBeta(t, mode).None?
    ensures |PolicyRow(t, mode, x, softmax)| == |x|
    ensures PolicyRow(t, mode, x, softmax)[j] == if IsFirstMax(x, j) then 1.0 else 0.0
  {
    if IsFirstMax(x, j) {
      ArgMaxUnique(x, j);
    }
  }

  /**
   * When the temperature of the mode is unset, every output row is one-hot at
   * the first maximum of the (masked) input row.
   */
  lemma GreedyWhenBetaUnset(t: Temperatures, outputs: Matrix, mode: Mode,
                            validity: Option<seq<seq<bool>>>, softmax: Row -> Row)
    requires validity.Some? ==> SameShape(outputs, validity.value)
    requires forall i :: 0 <= i < |outputs| ==> |outputs[i]| > 0
    requires SelectBeta(t, mode).None?
    ensures var p := BetaSoftmax(t, outputs, mode, validity, softmax);
            var x := PolicyInput(outputs, validity);
            |p| == |outputs| &&
            forall i, j :: 0 <= i < |outputs| && 0 <= j < |outputs[i]| ==>
              |p[i]| == |outputs[i]| &&
              p[i][j] == if IsFirstMax(x[i], j) then 1.0 else 0.0
  {
    var x := PolicyInput(outputs, validity);
    var p := BetaSoftmax(t, outputs, mode, validity, softmax);
    forall i, j | 0 <= i < |outputs| && 0 <= j < |outputs[i]|
      ensures |p[i]| == |outputs[i]|
      ensures p[i][j] == if IsFirstMax(x[i], j) then 1.0 else 0.0
    {
      assert p[i] == PolicyRow(t, mode, x[i], softmax);
      GreedyIsFirstMaxOneHot(t, mode, x[i], softmax, j);
    }
  }

  /** Only the temperature of the requested mode influences the result. */
  lemma DispatchUsesOnlySelectedBeta(t1: Temperatures, t2: Temperatures, outputs: Matrix, mode: Mode,
                                     validity: Option<seq<seq<bool>>>, softmax: Row -> Row)
    requires validity.Some? ==> SameShape(outputs, validity.value)
    requires forall i :: 0 <= i < |outputs| ==> |outputs[i]| > 0
    requires SelectBeta(t1, mode) == SelectBeta(t2, mode)
    ensures BetaSoftmax(t1, outputs, mode, validity, softmax) == BetaSoftmax(t2, outputs, mode, validity, softmax)
  {
  }

  /** Every row the policy returns is a probability distribution, in either branch. */
  lemma PolicyRowsAreDistributions(t: Temperatures, outputs: Matrix, mode: Mode,
                                   validity: Option<seq<seq<bool>>>, softmax: Row -> Row)
    requires validity.Some? ==> SameShape(outputs, validity.value)
    requires forall i :: 0 <= i < |outputs| ==> |outputs[i]| > 0
    requires IsRowSoftmax(softmax)
    ensures var p := BetaSoftmax(t, outputs, mode, validity, softmax);
            |p| == |outputs| &&
            forall i :: 0 <= i < |outputs| ==> |p[i]| == |outputs[i]| && IsDistribution(p[i])
  {
    var x := PolicyInput(outputs, validity);
    var p := BetaSoftmax(t, outputs, mode, validity, softmax);
    forall i | 0 <= i < |outputs|
      ensures |p[i]| == |outputs[i]| && IsDistribution(p[i])
    {
      assert p[i] == PolicyRow(t, mode, x[i], softmax);
    }
  }

  /** All entries of a row lie strictly within a window narrower than the penalty. */
  predicate Spread(x: Row)
  {
    forall a, b :: 0 <= a < |x| && 0 <= b < |x| ==> x[a] - x[b] < -InvalidPenalty
  }

  /**
   * The penalty acts as minus infinity for a greedy choice: when some action
   * is valid and the raw values span less than 1e9, the first arg-max of the
   * masked row is a valid action, the first maximum among the valid ones.
   */
  lemma GreedyPicksValidAction(x: Row, valid: seq<bool>, v: nat)
    requires |valid| == |x| && Spread(x)
    requires v < |x| && valid[v]
    ensures valid[ArgMax(MaskRow(x, valid))]
    ensures forall j :: 0 <= j < |x| && valid[j] ==> x[j] <= x[ArgMax(MaskRow(x, valid))]
  {
    var m := MaskRow(x, valid);
    var k := ArgMax(m);
    assert m[v] <= m[k];
  }

  /**
   * Masking twice (as the loss does, once before and once inside the policy)
   * does not change the greedy choice, provided the mask behaves as minus
   * infinity.
   */
  lemma DoubleMaskSameGreedyChoice(x: Row, valid: seq<bool>, v: nat)
    requires |valid| == |x| && Spread(x)
    requires v < |x| && valid[v]
    ensures ArgMax(MaskRow(MaskRow(x, valid), valid)) == ArgMax(MaskRow(x, valid))
  {
    var m1 := MaskRow(x, valid);
    var m2 := MaskRow(m1, valid);
    var k := ArgMax(m1);
    GreedyPicksValidAction(x, valid, v);
    assert IsFirstMax(m2, k) by {
      forall j | 0 <= j < |x| ensures m2[j] <= m1[j] { }
    }
    ArgMaxUnique(m2, k);
  }

  /**
   * Without the spread condition the second mask can change the greedy
   * choice: a raw gap of 2e9 outweighs one penalty but not two.
   */
  lemma DoubleMaskCanChangeGreedyChoice()
    ensures ArgMax(MaskRow([0.0, 2000000000.0], [true, false])) == 1
    ensures ArgMax(MaskRow(MaskRow([0.0, 2000000000.0], [true, false]), [true, false])) == 0
  {
    var m1 := MaskRow([0.0, 2000000000.0], [true, false]);
    var m2 := MaskRow(m1, [true, false]);
    assert m1 == [0.0, 1000000000.0];
    assert m2 == [0.0, 0.0];
    assert IsFirstMax(m1, 1);
    assert IsFirstMax(m2, 0);
    ArgMaxUnique(m1, 1);
    ArgMaxUnique(m2, 0);
  }

  /** With every action valid the mask changes nothing. */
  lemma MaskAllValid(x: Row, valid: seq<bool>)
    requires |valid| == |x|
    requires forall j :: 0 <= j < |valid| ==> valid[j]
    ensures MaskRow(x, valid) == x
  {
  }
}
