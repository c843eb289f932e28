/**
 * The temporal-difference part of `QAgent.get_loss`: masking, value capping,
 * the expected next value under the target policy, the bootstrapped target
 * and the gathered prediction. The Huber loss and the diagnostic divergence
 * are not part of this module.
 */
module Loss {
  import opened Wrappers
  import opened Tensors
  import opened Policy
  import opened Agent

  /** The fields of a batch the loss reads, apart from the two states. */
  datatype LossBatch = LossBatch(
    reward: seq<real>,
    action: seq<nat>,
    validity: seq<seq<bool>>,
    nextValidity: seq<seq<bool>>)

  /**
   * `onlineQ` is the online network's output on the states and `targetQ`
   * the target network's output on the next states, both rows × actions.
   */
  predicate WellFormed(batch: LossBatch, onlineQ: Matrix, targetQ: Matrix)
  {
    |onlineQ| > 0 && |onlineQ[0]| > 0 &&
    Shaped(onlineQ, |onlineQ[0]|) && Shaped(targetQ, |onlineQ[0]|) &&
    |targetQ| == |onlineQ| && |batch.reward| == |onlineQ| && |batch.action| == |onlineQ| &&
    SameShape(onlineQ, batch.validity) && SameShape(onlineQ, batch.nextValidity) &&
    forall b :: 0 <= b < |batch.action| ==> batch.action[b] < |onlineQ[0]|
  }

  /** The quantities `get_loss` computes and hands to its loss and diagnostics. */
  datatype LossTerms = LossTerms(
    outputs: Matrix,
    probabilities: Matrix,
    targets: seq<real>,
    predicted: seq<real>)

  /** `clamp(max=q_cap)` on one row, or the row itself without a cap. */
  function CapRow(x: Row, qCap: Option<real>): (r: Row)
    ensures |r| == |x|
    ensures qCap.None? ==> r == x
    ensures qCap.Some? ==> forall j :: 0 <= j < |x| ==>
              r[j] <= x[j] && r[j] <= qCap.value && (r[j] == x[j] || r[j] == qCap.value)
  {
    match qCap
    case None => x
    case Some(c) => seq(|x|, j requires 0 <= j < |x| => if x[j] > c then c else x[j])
  }

  function Cap(m: Matrix, qCap: Option<real>): (r: Matrix)
    ensures |r| == |m| && forall i :: 0 <= i < |m| ==> r[i] == CapRow(m[i], qCap)
  {
    seq(|m|, i requires 0 <= i < |m| => CapRow(m[i], qCap))
  }

  /** The per-row contraction `einsum("ba,ba->b", p, v)`. */
  function ExpectedValues(p: Matrix, v: Matrix): (r: seq<real>)
    requires |p| == |v| && forall b :: 0 <= b < |p| ==> |p[b]| == |v[b]|
    ensures |r| == |p|
  {
    seq(|p|, b requires 0 <= b < |p| => Dot(p[b], v[b]))
  }

  /**
   * The training-mode policy over the next-state values. As in the source, it
   * masks them a second time, with the validity of the CURRENT state.
   */
  function TargetPolicy(cfg: AgentConfig, next: Row, valid: seq<bool>, softmax: Row -> Row): (p: Row)
    requires |next| > 0 && |valid| == |next|
    requires IsRowSoftmax(softmax)
    ensures |p| == |next| && IsDistribution(p)
  {
    PolicyRow(cfg.temps, Train, MaskRow(next, valid), softmax)
  }

  /**
   * The bootstrapped target of one batch row: the next-state values, masked
   * with the next-state validity, are capped, weighted by the target policy
   * and discounted. With a cap and a non-negative discount the target never
   * exceeds the reward plus the discounted cap, whatever the policy; without
   * a training temperature it bootstraps from the capped value of the greedy
   * action, chosen on the values masked again with the current validity.
   */
  function RowTarget(cfg: AgentConfig, reward: real, targetRow: Row, nextValid: seq<bool>,
                     valid: seq<bool>, softmax: Row -> Row): (t: real)
    requires |targetRow| > 0 && |nextValid| == |targetRow| && |valid| == |targetRow|
    requires IsRowSoftmax(softmax)
    ensures cfg.qCap.Some? && 0.0 <= cfg.gamma ==> t <= Bootstrap(reward, cfg.gamma, cfg.qCap.value)
    ensures SelectBeta(cfg.temps, Train).None? ==>
              var next := MaskRow(targetRow, nextValid);
              t == Bootstrap(reward, cfg.gamma, CapRow(next, cfg.qCap)[ArgMax(MaskRow(next, valid))])
  {
    var next := MaskRow(targetRow, nextValid);
    var p := TargetPolicy(cfg, next, valid, softmax);
    var v := CapRow(next, cfg.qCap);
    TargetBound(cfg, reward, p, v);
    GreedyBootstrap(cfg, next, valid, softmax);
    Bootstrap(reward, cfg.gamma, Dot(p, v))
  }

  /**
   * `reward + gamma * next_value`: without discount, or from a next state
   * worth nothing, the target is the reward alone; an undiscounted target
   * adds the whole next value.
   */
  function Bootstrap(reward: real, gamma: real, nextValue: real): (t: real)
    ensures gamma == 0.0 || nextValue == 0.0 ==> t == reward
    ensures gamma == 1.0 ==> t == reward + nextValue
  {
    reward + gamma * nextValue
  }

  lemma TargetBound(cfg: AgentConfig, reward: real, p: Row, v: Row)
    requires |p| == |v| && IsDistribution(p)
    ensures cfg.qCap.Some? && 0.0 <= cfg.gamma && (forall j :: 0 <= j < |v| ==> v[j] <= cfg.qCap.value) ==>
              Bootstrap(reward, cfg.gamma, Dot(p, v)) <= Bootstrap(reward, cfg.gamma, cfg.qCap.value)
  {
    if cfg.qCap.Some? && 0.0 <= cfg.gamma && (forall j :: 0 <= j < |v| ==> v[j] <= cfg.qCap.value) {
      ExpectationBelow(p, v, cfg.qCap.value);
      BootstrapMonotone(reward, cfg.gamma, Dot(p, v), cfg.qCap.value);
    }
  }

  /** With a non-negative discount a larger next value never lowers the target. */
  lemma BootstrapMonotone(reward: real, gamma: real, v: real, c: real)
    requires 0.0 <= gamma && v <= c
    ensures Bootstrap(reward, gamma, v) <= Bootstrap(reward, gamma, c)
  {
    MulMonotone(gamma, v, c);
  }

  lemma GreedyBootstrap(cfg: AgentConfig, next: Row, valid: seq<bool>, softmax: Row -> Row)
    requires |next| > 0 && |valid| == |next|
    requires IsRowSoftmax(softmax)
    ensures SelectBeta(cfg.temps, Train).None? ==>
              var k := ArgMax(MaskRow(next, valid));
              Dot(TargetPolicy(cfg, next, valid, softmax), CapRow(next, cfg.qCap)) == CapRow(next, cfg.qCap)[k]
  {
    if SelectBeta(cfg.temps, Train).None? {
      var x := MaskRow(next, valid);
      DotOneHot(|x|, ArgMax(x), CapRow(next, cfg.qCap));
    }
  }

  /** `get_loss` up to the Huber loss: outputs, behaviour policy, targets and predictions. */
  function GetLoss(cfg: AgentConfig, batch: LossBatch, onlineQ: Matrix, targetQ: Matrix,
                   softmax: Row -> Row): (r: LossTerms)
    requires WellFormed(batch, onlineQ, targetQ)
    requires IsRowSoftmax(softmax)
    ensures r.outputs == Mask(onlineQ, batch.validity)
    ensures |r.outputs| == |onlineQ| && forall b :: 0 <= b < |onlineQ| ==> |r.outputs[b]| == |onlineQ[0]|
    ensures r.probabilities == BetaSoftmax(cfg.temps, r.outputs, Sample, Some(batch.validity), softmax)
    ensures |r.probabilities| == |onlineQ|
    ensures forall b :: 0 <= b < |onlineQ| ==>
              |r.probabilities[b]| == |onlineQ[0]| && IsDistribution(r.probabilities[b])
    ensures |r.targets| == |onlineQ| && |r.predicted| == |onlineQ|
  {
    var outputs := Mask(onlineQ, batch.validity);
    var probabilities := BetaSoftmax(cfg.temps, outputs, Sample, Some(batch.validity), softmax);
    PolicyRowsAreDistributions(cfg.temps, outputs, Sample, Some(batch.validity), softmax);
    var targets := seq(|onlineQ|, b requires 0 <= b < |onlineQ| =>
      RowTarget(cfg, batch.reward[b], targetQ[b], batch.nextValidity[b], batch.validity[b], softmax));
    var predicted := seq(|onlineQ|, b requires 0 <= b < |onlineQ| => outputs[b][batch.action[b]]);
    LossTerms(outputs, probabilities, targets, predicted)
  }

  /** The targets of `get_loss` are the row targets, and the predictions the gathered outputs. */
  lemma GetLossRows(cfg: AgentConfig, batch: LossBatch, onlineQ: Matrix, targetQ: Matrix,
                    softmax: Row -> Row, b: nat)
    requires WellFormed(batch, onlineQ, targetQ) && IsRowSoftmax(softmax)
    requires b < |onlineQ|
    ensures var r := GetLoss(cfg, batch, onlineQ, targetQ, softmax);
            var a := batch.action[b];
            r.targets[b] == RowTarget(cfg, batch.reward[b], targetQ[b], batch.nextValidity[b], batch.validity[b], softmax) &&
            r.predicted[b] == if batch.validity[b][a] then onlineQ[b][a] else onlineQ[b][a] + InvalidPenalty
  {
  }

  /**
   * Without a sampling temperature the behaviour policy of every row is
   * one-hot at the first maximum of the outputs masked once more with the
   * current validity.
   */
  lemma GreedyBehaviourPolicy(cfg: AgentConfig, batch: LossBatch, onlineQ: Matrix, targetQ: Matrix,
                              softmax: Row -> Row)
    requires WellFormed(batch, onlineQ, targetQ) && IsRowSoftmax(softmax)
    requires SelectBeta(cfg.temps, Sample).None?
    ensures var r := GetLoss(cfg, batch, onlineQ, targetQ, softmax);
            forall b, j :: 0 <= b < |onlineQ| && 0 <= j < |onlineQ[0]| ==>
              r.probabilities[b][j] == if IsFirstMax(MaskRow(r.outputs[b], batch.validity[b]), j) then 1.0 else 0.0
  {
    var outputs := Mask(onlineQ, batch.validity);
    GreedyWhenBetaUnset(cfg.temps, outputs, Sample, Some(batch.validity), softmax);
  }

  /**
   * The row targets are the tensor computation of the source:
   * `reward + gamma * einsum(next_probabilities, next_q_values_capped)`,
   * with the target policy masked by the current validity.
   */
  lemma TargetsMatchTensorForm(cfg: AgentConfig, batch: LossBatch, onlineQ: Matrix, targetQ: Matrix,
                               softmax: Row -> Row, b: nat)
    requires WellFormed(batch, onlineQ, targetQ) && IsRowSoftmax(softmax)
    requires b < |onlineQ|
    ensures var nextQ := Mask(targetQ, batch.nextValidity);
            var nextProbabilities := BetaSoftmax(cfg.temps, nextQ, Train, Some(batch.validity), softmax);
            var capped := Cap(nextQ, cfg.qCap);
            |nextProbabilities| == |capped| &&
            (forall i :: 0 <= i < |capped| ==> |nextProbabilities[i]| == |capped[i]|) &&
            RowTarget(cfg, batch.reward[b], targetQ[b], batch.nextValidity[b], batch.validity[b], softmax) ==
              Bootstrap(batch.reward[b], cfg.gamma, ExpectedValues(nextProbabilities, capped)[b])
  {
    var nextQ := Mask(targetQ, batch.nextValidity);
    var next := MaskRow(targetQ[b], batch.nextValidity[b]);
    var x := MaskRow(next, batch.validity[b]);
    var nextProbabilities := BetaSoftmax(cfg.temps, nextQ, Train, Some(batch.validity), softmax);
    PolicyRowsAreDistributions(cfg.temps, nextQ, Train, Some(batch.validity), softmax);
    assert PolicyInput(nextQ, Some(batch.validity))[b] == x;
    assert nextProbabilities[b] == TargetPolicy(cfg, next, batch.validity[b], softmax);
  }

  lemma BelowFixedPoint(t: real, reward: real, rewardCap: real, gamma: real, q: real)
    requires t <= Bootstrap(reward, gamma, q) && reward <= rewardCap && q == rewardCap + gamma * q
    ensures t <= q
  {
  }

  /**
   * The cap keeps targets bounded: when the reward is at most `reward_cap`
   * and `0 <= gamma < 1`, the target is at most `q_cap`.
   */
  lemma TargetWithinValueCap(gamma: real, temps: Temperatures, rewardCap: real, reward: real,
                             targetRow: Row, nextValid: seq<bool>, valid: seq<bool>, softmax: Row -> Row)
    requires 0.0 <= gamma < 1.0 && reward <= rewardCap
    requires |targetRow| > 0 && |nextValid| == |targetRow| && |valid| == |targetRow|
    requires IsRowSoftmax(softmax)
    ensures NewConfig(gamma, temps, Some(rewardCap)).Success?
    ensures var cfg := NewConfig(gamma, temps, Some(rewardCap)).value;
            RowTarget(cfg, reward, targetRow, nextValid, valid, softmax) <= cfg.qCap.value
  {
    var cfg := NewConfig(gamma, temps, Some(rewardCap)).value;
    QCapIsFixedPoint(gamma, temps, rewardCap);
    BelowFixedPoint(RowTarget(cfg, reward, targetRow, nextValid, valid, softmax), reward,
                    rewardCap, gamma, cfg.qCap.value);
  }

  /**
   * A worked case: `gamma = 0.9` and `reward_cap = 10` give `q_cap = 100`,
   * so a reward of 5 yields a target of at most 95 even when the next state
   * is estimated at 200.
   */
  lemma CapExample(temps: Temperatures, softmax: Row -> Row)
    requires IsRowSoftmax(softmax)
    ensures NewConfig(0.9, temps, Some(10.0)) == Success(AgentConfig(0.9, temps, Some(100.0)))
    ensures RowTarget(AgentConfig(0.9, temps, Some(100.0)), 5.0, [200.0], [true], [true], softmax) <= 95.0
  {
  }

  /**
   * Because the target policy is masked with the current validity, a greedy
   * target can bootstrap from an action that is invalid in the next state:
   * here action 1 is invalid next, yet its penalised value is the one used.
   * The gap of 1000 between the two entries exceeds the float32 spacing (64)
   * near 1e9, so the same choice is made in single precision.
   */
  lemma TargetPolicyUsesCurrentValidity(softmax: Row -> Row)
    requires IsRowSoftmax(softmax)
    ensures var cfg := AgentConfig(0.5, Temperatures(None, None, None), None);
            RowTarget(cfg, 0.0, [0.0, 1000.0], [true, false], [false, true], softmax) ==
              0.5 * (1000.0 + InvalidPenalty)
  {
    var cfg := AgentConfig(0.5, Temperatures(None, None, None), None);
    var next := MaskRow([0.0, 1000.0], [true, false]);
    assert next == [0.0, 1000.0 + InvalidPenalty];
    var x := MaskRow(next, [false, true]);
    assert x == [InvalidPenalty, 1000.0 + InvalidPenalty];
    assert IsFirstMax(x, 1);
    ArgMaxUnique(x, 1);
  }
}
