/**
 * The agent's configuration (`QAgent.__init__`) and its two parameter sets,
 * with the exponential-moving-average update of the target parameters
 * (`QAgent.update_target_network`).
 */
module Agent {
  import opened Wrappers
  import opened Policy
  import Tensors

  /** The fixed configuration of an agent; `qCap` is derived from `reward_cap`. */
  datatype AgentConfig = AgentConfig(gamma: real, temps: Temperatures, qCap: Option<real>)

  /** Python's `ZeroDivisionError` from `1/(1-gamma)` when `gamma == 1`. */
  datatype ConfigError = DivisionByZero

  /**
   * Constructs the configuration: with a reward cap the value cap is
   * `reward_cap / (1 - gamma)`, its only failure is a division by zero.
   */
  function NewConfig(gamma: real, temps: Temperatures, rewardCap: Option<real>): (r: Result<AgentConfig, ConfigError>)
    ensures r.Failure? <==> rewardCap.Some? && gamma == 1.0
    ensures r.Success? ==> r.value.gamma == gamma && r.value.temps == temps
    ensures r.Success? ==> (r.value.qCap.Some? <==> rewardCap.Some?)
    ensures r.Success? && rewardCap.Some? ==> r.value.qCap.value * (1.0 - gamma) == rewardCap.value
  {
    match rewardCap
    case None => Success(AgentConfig(gamma, temps, None))
    case Some(c) =>
      if gamma == 1.0 then Failure(DivisionByZero)
      else Success(AgentConfig(gamma, temps, Some((1.0 / (1.0 - gamma)) * c)))
  }

  /**
   * The value cap is the fixed point of the one-step bound: a step that earns
   * at most `reward_cap` and then continues from a state worth at most the cap
   * is itself worth at most the cap.
   */
  lemma QCapIsFixedPoint(gamma: real, temps: Temperatures, c: real)
    requires gamma != 1.0
    ensures NewConfig(gamma, temps, Some(c)).Success?
    ensures var q := NewConfig(gamma, temps, Some(c)).value.qCap.value;
            q == c + gamma * q
  {
    var q := NewConfig(gamma, temps, Some(c)).value.qCap.value;
    assert q * (1.0 - gamma) == c;
  }

  /** One EMA step of every parameter: `t * (1 - tau) + o * tau`. */
  function Ema(t: seq<real>, o: seq<real>, tau: real): (r: seq<real>)
    requires |t| == |o|
    ensures |r| == |t|
  {
    seq(|t|, i requires 0 <= i < |t| => t[i] * (1.0 - tau) + o[i] * tau)
  }

  /** `tau = 1` copies the online parameters exactly. */
  lemma EmaOneCopies(t: seq<real>, o: seq<real>)
    requires |t| == |o|
    ensures Ema(t, o, 1.0) == o
  {
  }

  /** `tau = 0` leaves the target parameters as they are. */
  lemma EmaZeroFreezes(t: seq<real>, o: seq<real>)
    requires |t| == |o|
    ensures Ema(t, o, 0.0) == t
  {
  }

  /** Once the target equals the online parameters, it stays equal. */
  lemma EmaKeepsSynchronised(o: seq<real>, tau: real)
    ensures Ema(o, o, tau) == o
  {
  }

  /** Each step scales the gap between target and online by `1 - tau`. */
  lemma EmaShrinksGap(t: seq<real>, o: seq<real>, tau: real)
    requires |t| == |o|
    ensures forall i :: 0 <= i < |t| ==> Ema(t, o, tau)[i] - o[i] == (1.0 - tau) * (t[i] - o[i])
  {
  }

  /** For `0 <= tau <= 1` the new value lies between the old target and the online value. */
  lemma EmaBetween(t: seq<real>, o: seq<real>, tau: real)
    requires |t| == |o| && 0.0 <= tau <= 1.0
    ensures forall i :: 0 <= i < |t| ==>
              (t[i] <= o[i] ==> t[i] <= Ema(t, o, tau)[i] <= o[i]) &&
              (o[i] <= t[i] ==> o[i] <= Ema(t, o, tau)[i] <= t[i])
  {
    forall i | 0 <= i < |t|
      ensures t[i] <= o[i] ==> t[i] <= Ema(t, o, tau)[i] <= o[i]
      ensures o[i] <= t[i] ==> o[i] <= Ema(t, o, tau)[i] <= t[i]
    {
      var d := o[i] - t[i];
      assert Ema(t, o, tau)[i] == t[i] + d * tau;
      if 0.0 <= d {
        Tensors.MulMonotone(d, 0.0, tau);
        Tensors.MulMonotone(d, tau, 1.0);
        assert 0.0 <= d * tau <= d;
      } else {
        Tensors.MulMonotone(-d, 0.0, tau);
        Tensors.MulMonotone(-d, tau, 1.0);
        assert d <= d * tau <= 0.0;
      }
    }
  }

  /**
   * The agent's online and target parameter sets, flattened into one array
   * each, in the same order.
   */
  class QAgent {
    const online: array<real>
    const target: array<real>

    ghost predicate Valid()
      reads this
    {
      online != target && online.Length == target.Length
    }

    /** Both parameter sets start from the same values (the target loads the online state). */
    constructor (parameters: seq<real>)
      ensures Valid()
      ensures fresh(online) && fresh(target)
      ensures online[..] == parameters && target[..] == parameters
    {
      online := new real[|parameters|](i requires 0 <= i < |parameters| => parameters[i]);
      target := new real[|parameters|](i requires 0 <= i < |parameters| => parameters[i]);
    }

    /** Moves every target parameter towards its online counterpart, in place. */
    method UpdateTargetNetwork(tau: real)
      requires Valid()
      modifies target
      ensures Valid()
      ensures target[..] == Ema(old(target[..]), old(online[..]), tau)
      ensures online[..] == old(online[..])
    {
      var i := 0;
      while i < target.Length
        invariant 0 <= i <= target.Length
        invariant forall j :: 0 <= j < i ==> target[j] == old(target[j]) * (1.0 - tau) + online[j] * tau
        invariant forall j :: i <= j < target.Length ==> target[j] == old(target[j])
      {
        target[i] := target[i] * (1.0 - tau) + online[i] * tau;
        i := i + 1;
      }
      assert forall j :: 0 <= j < target.Length ==>
        target[..][j] == Ema(old(target[..]), old(online[..]), tau)[j];
    }
  }
}
