/**
 * `QAgent.get_action`: the policy's probabilities, a categorical draw per row
 * with the arg-max fallback when drawing fails, and the shaping of the result
 * into one index or a list of indices.
 */
module Action {
  import opened Wrappers
  import opened Tensors
  import opened Policy

  /** A scalar index for a one-row batch, otherwise one index per row. */
  datatype ActionResult = Single(action: nat) | Many(actions: seq<nat>)

  /** `output.item()` when there is one row, `output.flatten().tolist()` otherwise. */
  function ShapeActions(picks: seq<nat>): (r: ActionResult)
    ensures r.Single? <==> |picks| == 1
    ensures r.Single? ==> r.action == picks[0]
    ensures r.Many? ==> r.actions == picks
  {
    if |picks| == 1 then Single(picks[0]) else Many(picks)
  }

  /** The indices an action result carries, in row order. */
  function Flatten(r: ActionResult): seq<nat>
  {
    match r
    case Single(a) => [a]
    case Many(s) => s
  }

  /** Shaping loses nothing: the per-row indices can be read back. */
  lemma ShapeRoundTrip(picks: seq<nat>)
    ensures Flatten(ShapeActions(picks)) == picks
  {
  }

  /** A categorical draw: one action per row, each of positive probability. */
  predicate IsDraw(picks: seq<nat>, p: Matrix)
  {
    |picks| == |p| &&
    forall i :: 0 <= i < |p| ==> picks[i] < |p[i]| && p[i][picks[i]] > 0.0
  }

  /** The argmax fallback over the probability rows. */
  function ArgMaxRows(p: Matrix): (r: seq<nat>)
    requires forall i :: 0 <= i < |p| ==> |p[i]| > 0
    ensures |r| == |p| && forall i :: 0 <= i < |p| ==> IsFirstMax(p[i], r[i])
  {
    seq(|p|, i requires 0 <= i < |p| => ArgMax(p[i]))
  }

  /**
   * `get_action`. `draw` is the outcome of `torch.multinomial`: `Some` with
   * one sampled index per row, or `None` when sampling raised, in which case
   * the arg-max of each probability row is taken instead.
   */
  function GetAction(t: Temperatures, outputs: Matrix, validity: Option<seq<seq<bool>>>, mode: Mode,
                     softmax: Row -> Row, draw: Option<seq<nat>>): (r: ActionResult)
    requires validity.Some? ==> SameShape(outputs, validity.value)
    requires forall i :: 0 <= i < |outputs| ==> |outputs[i]| > 0
    requires IsRowSoftmax(softmax)
    requires draw.Some? ==> |draw.value| == |outputs|
    ensures |Flatten(r)| == |outputs|
    ensures r.Single? <==> |outputs| == 1
    ensures draw.Some? ==> Flatten(r) == draw.value
  {
    var p := BetaSoftmax(t, outputs, mode, validity, softmax);
    PolicyRowsAreDistributions(t, outputs, mode, validity, softmax);
    var picks := match draw
      case Some(d) => d
      case None => ArgMaxRows(p);
    ShapeActions(picks)
  }

  /** When sampling fails, each row's action is the first most probable one. */
  lemma FallbackPicksMostProbable(t: Temperatures, outputs: Matrix, validity: Option<seq<seq<bool>>>,
                                  mode: Mode, softmax: Row -> Row)
    requires validity.Some? ==> SameShape(outputs, validity.value)
    requires forall i :: 0 <= i < |outputs| ==> |outputs[i]| > 0
    requires IsRowSoftmax(softmax)
    ensures var p := BetaSoftmax(t, outputs, mode, validity, softmax);
            var a := Flatten(GetAction(t, outputs, validity, mode, softmax, None));
            |a| == |p| &&
            forall i :: 0 <= i < |p| ==> |p[i]| == |outputs[i]| && IsFirstMax(p[i], a[i])
  {
    PolicyRowsAreDistributions(t, outputs, mode, validity, softmax);
  }

  /**
   * Without a temperature for the mode, the action of every row is the first
   * arg-max of its (masked) values, whether the draw succeeded or fell back.
   */
  lemma GreedyActionIsArgMax(t: Temperatures, outputs: Matrix, validity: Option<seq<seq<bool>>>,
                             mode: Mode, softmax: Row -> Row, draw: Option<seq<nat>>)
    requires validity.Some? ==> SameShape(outputs, validity.value)
    requires forall i :: 0 <= i < |outputs| ==> |outputs[i]| > 0
    requires IsRowSoftmax(softmax)
    requires SelectBeta(t, mode).None?
    requires draw.Some? ==> IsDraw(draw.value, BetaSoftmax(t, outputs, mode, validity, softmax))
    ensures var x := PolicyInput(outputs, validity);
            var a := Flatten(GetAction(t, outputs, validity, mode, softmax, draw));
            |a| == |outputs| &&
            forall i :: 0 <= i < |outputs| ==> IsFirstMax(x[i], a[i])
  {
    var x := PolicyInput(outputs, validity);
    var p := BetaSoftmax(t, outputs, mode, validity, softmax);
    var a := Flatten(GetAction(t, outputs, validity, mode, softmax, draw));
    forall i | 0 <= i < |outputs|
      ensures IsFirstMax(x[i], a[i])
    {
      var k := ArgMax(x[i]);
      assert p[i] == OneHot(|x[i]|, k);
      match draw
      case Some(d) =>
        assert a[i] == d[i];
        assert p[i][d[i]] > 0.0;
      case None =>
        ArgMaxOneHot(|x[i]|, k);
    }
  }
}
