/**
 * The arithmetic the core relies on, over exact reals.
 *
 * Floats are modelled as `real`; the transcendental functions (`Math.Tanh`,
 * `Mathf.Exp`) are parameters of the members that use them, so nothing is
 * claimed about them beyond what a caller states. `Mathf.RoundToInt` is
 * round-half-to-even, which is defined here exactly.
 */
module Numerics {

  /** `Mathf.RoundToInt`: the nearest integer, ties going to the even one. */
  function RoundToInt(x: real): (r: int)
    ensures -0.5 <= x - r as real <= 0.5
    ensures (x - r as real == 0.5 || r as real - x == 0.5) ==> r % 2 == 0
  {
    var f := x.Floor;
    var d := x - f as real;
    if d < 0.5 then f
    else if d > 0.5 then f + 1
    else if f % 2 == 0 then f
    else f + 1
  }

  /** The function only takes positive values, as the exponential does. */
  ghost predicate Positive(exp: real -> real) {
    forall x :: exp(x) > 0.0
  }

  /** `NNet.Sigmoid`: the logistic squashing of `s`, built on an exponential `exp`. */
  function Sigmoid(s: real, exp: real -> real): (r: real)
    requires exp(-s) > 0.0
    ensures 0.0 < r < 1.0
  {
    1.0 / (1.0 + exp(-s))
  }

  /** `NNet.activate`: the activation applied to a neuron's weighted input (`Math.Tanh` in the source). */
  function Activate(act: real -> real, value: real): real {
    act(value)
  }

  /** Sum of w[k] * x[k] over k < n, accumulated from k = 0 upwards. */
  function Dot(w: seq<real>, x: seq<real>, n: nat): (r: real)
    requires n <= |w| && n <= |x|
    ensures (forall k :: 0 <= k < n ==> x[k] == 0.0) ==> r == 0.0
    ensures (forall k :: 0 <= k < n ==> w[k] == 0.0) ==> r == 0.0
  {
    if n == 0 then 0.0 else Dot(w, x, n - 1) + w[n - 1] * x[n - 1]
  }

  /**
   * Dimensions of a network's genes: one bias row per layer (including the
   * input layer), and for every transition i -> i + 1 one weight row per
   * neuron of layer i + 1, each as long as layer i.
   */
  ghost predicate Shaped(W: seq<seq<seq<real>>>, B: seq<seq<real>>) {
    |B| >= 1 && |W| == |B| - 1 &&
    (forall i :: 0 <= i < |W| ==> |W[i]| == |B[i + 1]|) &&
    (forall i, j :: 0 <= i < |W| && 0 <= j < |W[i]| ==> |W[i][j]| == |B[i]|)
  }

  /**
   * The activations of layer i after a forward pass whose input layer holds
   * x0: every neuron j of layer i >= 1 is act(weights of j . layer i-1 + bias).
   */
  ghost function Layer(x0: seq<real>, W: seq<seq<seq<real>>>, B: seq<seq<real>>,
                       act: real -> real, i: nat): (r: seq<real>)
    requires Shaped(W, B) && |x0| == |B[0]| && i < |B|
    ensures |r| == |B[i]|
    ensures i == 0 ==> r == x0
    decreases i
  {
    if i == 0 then x0
    else
      var prev := Layer(x0, W, B, act, i - 1);
      seq(|B[i]|, j requires 0 <= j < |B[i]| => Activate(act, Dot(W[i - 1][j], prev, |prev|) + B[i][j]))
  }

  /** The bias row of the input layer never takes part in a forward pass. */
  lemma {:induction false} InputBiasesUnused(x0: seq<real>, W: seq<seq<seq<real>>>, B: seq<seq<real>>,
                                             act: real -> real, i: nat, b0: seq<real>)
    requires Shaped(W, B) && |x0| == |B[0]| && i < |B| && |b0| == |B[0]|
    ensures Shaped(W, B[0 := b0])
    ensures Layer(x0, W, B, act, i) == Layer(x0, W, B[0 := b0], act, i)
    decreases i
  {
    var B' := B[0 := b0];
    assert forall k :: 1 <= k < |B| ==> B'[k] == B[k];
    if i > 0 {
      InputBiasesUnused(x0, W, B, act, i - 1, b0);
    }
  }

  /** Every neuron j of `row` is the activation of W[i - 1][j] . prev + B[i][j]: one step of a forward pass. */
  ghost predicate Follows(row: seq<real>, W: seq<seq<seq<real>>>, B: seq<seq<real>>, act: real -> real,
                          i: nat, prev: seq<real>)
    requires Shaped(W, B) && 1 <= i < |B|
  {
    |row| == |B[i]| && |prev| == |B[i - 1]| &&
    forall j :: 0 <= j < |row| ==> row[j] == Activate(act, Dot(W[i - 1][j], prev, |prev|) + B[i][j])
  }

  /** A row that follows layer i - 1 is layer i. */
  lemma LayerStep(x0: seq<real>, W: seq<seq<seq<real>>>, B: seq<seq<real>>,
                  act: real -> real, i: nat, prev: seq<real>, row: seq<real>)
    requires Shaped(W, B) && |x0| == |B[0]| && 1 <= i < |B|
    requires prev == Layer(x0, W, B, act, i - 1)
    requires Follows(row, W, B, act, i, prev)
    ensures row == Layer(x0, W, B, act, i)
  {
  }
}
