/**
 * Tensors of the agent, over the reals: a row holds one value per action and a
 * matrix holds one row per batch element (rows × actions).
 */
module Tensors {

  type Row = seq<real>
  type Matrix = seq<Row>

  /** Every row of `m` has exactly `cols` entries (a rectangular tensor). */
  predicate Shaped<T>(m: seq<seq<T>>, cols: nat)
  {
    forall i :: 0 <= i < |m| ==> |m[i]| == cols
  }

  function Sum(s: Row): real
  {
    if s == [] then 0.0 else s[0] + Sum(s[1..])
  }

  /**
   * Per-row dot product, the `"ba,ba->b"` contraction for one batch element.
   * Its properties are the lemmas `DotZeros`, `DotOneHot` and `DotBelow`.
   */
  function Dot(p: Row, v: Row): real
    requires |p| == |v|
  {
    if p == [] then 0.0 else p[0] * v[0] + Dot(p[1..], v[1..])
  }

  /** A row of zeros with a single 1 at position `k`. */
  function OneHot(n: nat, k: nat): (r: Row)
    ensures |r| == n
  {
    seq(n, j => if j == k then 1.0 else 0.0)
  }

  /** A probability distribution over actions. */
  predicate IsDistribution(p: Row)
  {
    (forall j :: 0 <= j < |p| ==> 0.0 <= p[j]) && Sum(p) == 1.0
  }

  /** `x[k]` is a maximum of `x` and every earlier entry is strictly smaller. */
  predicate IsFirstMax(x: Row, k: nat)
  {
    k < |x| &&
    (forall j :: 0 <= j < |x| ==> x[j] <= x[k]) &&
    (forall j :: 0 <= j < k ==> x[j] < x[k])
  }

  /** `torch.argmax` along one row: the first index at which the maximum occurs. */
  function ArgMax(x: Row): (k: nat)
    requires |x| > 0
    ensures IsFirstMax(x, k)
  {
    if |x| == 1 then 0
    else
      var k := ArgMax(x[..|x| - 1]);
      if x[|x| - 1] > x[k] then |x| - 1 else k
  }

  /** The first maximum is unique: any index with that property is the arg-max. */
  lemma ArgMaxUnique(x: Row, k: nat)
    requires IsFirstMax(x, k)
    ensures ArgMax(x) == k
  {
    var a := ArgMax(x);
    assert x[a] <= x[k] && x[k] <= x[a];
  }

  lemma ArgMaxOneHot(n: nat, k: nat)
    requires k < n
    ensures ArgMax(OneHot(n, k)) == k
  {
    ArgMaxUnique(OneHot(n, k), k);
  }

  lemma {:induction false} SumZeros(p: Row)
    requires forall j :: 0 <= j < |p| ==> p[j] == 0.0
    ensures Sum(p) == 0.0
  {
    if p != [] {
      SumZeros(p[1..]);
    }
  }

  /** Actions of zero probability contribute nothing: an all-zero weighting gives zero. */
  lemma {:induction false} DotZeros(p: Row, v: Row)
    requires |p| == |v|
    requires forall j :: 0 <= j < |p| ==> p[j] == 0.0
    ensures Dot(p, v) == 0.0
  {
    if p != [] {
      DotZeros(p[1..], v[1..]);
    }
  }

  /** A one-hot row sums to one and is therefore a distribution. */
  lemma {:induction false} OneHotIsDistribution(n: nat, k: nat)
    requires k < n
    ensures IsDistribution(OneHot(n, k))
  {
    var p := OneHot(n, k);
    if k == 0 {
      SumZeros(p[1..]);
    } else {
      assert p[1..] == OneHot(n - 1, k - 1);
      OneHotIsDistribution(n - 1, k - 1);
    }
  }

  /** The dot product with a one-hot row selects one entry. */
  lemma {:induction false} DotOneHot(n: nat, k: nat, v: Row)
    requires k < n == |v|
    ensures Dot(OneHot(n, k), v) == v[k]
  {
    var p := OneHot(n, k);
    if k == 0 {
      DotZeros(p[1..], v[1..]);
    } else {
      assert p[1..] == OneHot(n - 1, k - 1);
      DotOneHot(n - 1, k - 1, v[1..]);
    }
  }

  lemma MulMonotone(a: real, x: real, c: real)
    requires 0.0 <= a && x <= c
    ensures a * x <= a * c
  {
    assert a * c - a * x == a * (c - x);
  }

  /**
   * A non-negative weighting of values that are all at most `c` is at most
   * `c` times the total weight.
   */
  lemma {:induction false} DotBelow(p: Row, v: Row, c: real)
    requires |p| == |v|
    requires forall j :: 0 <= j < |p| ==> 0.0 <= p[j]
    requires forall j :: 0 <= j < |v| ==> v[j] <= c
    ensures Dot(p, v) <= c * Sum(p)
  {
    if p != [] {
      DotBelow(p[1..], v[1..], c);
      MulMonotone(p[0], v[0], c);
    }
  }

  /** The expectation of values bounded by `c` under a distribution is bounded by `c`. */
  lemma ExpectationBelow(p: Row, v: Row, c: real)
    requires |p| == |v| && IsDistribution(p)
    requires forall j :: 0 <= j < |v| ==> v[j] <= c
    ensures Dot(p, v) <= c
  {
    DotBelow(p, v, c);
  }
}
