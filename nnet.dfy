/**
 * `NNet`: a feedforward network stored as jagged arrays.
 *
 * `neurons[i]` and `biases[i]` hold one value per neuron of layer i (the
 * input layer included), and `weights[i - 1][j]` holds the weights from
 * layer i - 1 into neuron j of layer i.
 *
 * A "row" is an innermost `array<real>`: a neuron row, a bias row or a
 * weight row. Rows are updated in place and may be shared between nets
 * (crossover hands a parent's rows to its children). The containers that
 * hold the rows are never written in place except by crossover, which
 * replaces whole entries of a child's `biases` and `weights`; they are
 * therefore sequences here, and crossover reassigns them.
 *
 * Every row has a `Slot`, the position it was created for. A net records
 * the slots of the rows it may hold in the ghost map `slot`, and `Valid`
 * demands that each of its rows sits at its own slot. Rows at different
 * positions of one net are therefore different arrays.
 */
module Network {
  import opened Oracle
  import opened Numerics

  datatype Slot = NeuronRow(layer: nat) | BiasRow(layer: nat) | WeightRow(layer: nat, neuron: nat)

  /** The gene moved by at most |val| in either direction, and only if the mutation chance is positive. */
  ghost predicate Nudged(before: real, after: real, chance: real, val: real) {
    after == before || (chance > 0.0 && Between(after - before, -val, val))
  }

  /** Every row `m` places also sits at the same position in `s`. */
  ghost predicate Agrees(m: map<array<real>, Slot>, s: map<array<real>, Slot>) {
    forall a {:trigger a in m} :: a in m ==> a in s && s[a] == m[a]
  }

  /** The contents of a sequence of rows. */
  ghost function Values(rows: seq<array<real>>): (r: seq<seq<real>>)
    reads rows
    ensures |r| == |rows|
    ensures forall i {:trigger r[i]} :: 0 <= i < |rows| ==> r[i] == rows[i][..]
  {
    seq(|rows|, i requires 0 <= i < |rows| reads rows => rows[i][..])
  }

  /** The rows of a sequence of row sequences. */
  ghost function Rows(m: seq<seq<array<real>>>): set<array<real>>
  {
    set i, j | 0 <= i < |m| && 0 <= j < |m[i]| :: m[i][j]
  }

  /** The contents of a sequence of row sequences. */
  ghost function Values3(m: seq<seq<array<real>>>): (r: seq<seq<seq<real>>>)
    reads Rows(m)
    ensures |r| == |m|
    ensures forall i {:trigger r[i]} :: 0 <= i < |m| ==> r[i] == Values(m[i])
  {
    seq(|m|, i requires 0 <= i < |m| reads Rows(m) => Values(m[i]))
  }

  /** Neuron row i, bias row i and weight row j of layer i sit in s at those positions. */
  ghost predicate Placed(neurons: seq<array<real>>, biases: seq<array<real>>, weights: seq<seq<array<real>>>,
                         s: map<array<real>, Slot>)
  {
    (forall i {:trigger neurons[i]} :: 0 <= i < |neurons| ==> neurons[i] in s && s[neurons[i]] == NeuronRow(i)) &&
    (forall i {:trigger biases[i]} :: 0 <= i < |biases| ==> biases[i] in s && s[biases[i]] == BiasRow(i)) &&
    (forall i, j {:trigger weights[i][j]} :: 0 <= i < |weights| && 0 <= j < |weights[i]| ==>
       weights[i][j] in s && s[weights[i][j]] == WeightRow(i, j))
  }

  /**
   * The rows `Initialise` lays out for `layers`: one neuron row and one bias
   * row per layer, and for every layer after the first one weight row per
   * neuron, as long as the layer before; every row placed in `slot`.
   */
  ghost predicate Laid(layers: seq<int>, neurons: seq<array<real>>, biases: seq<array<real>>,
                       weights: seq<seq<array<real>>>, slot: map<array<real>, Slot>)
  {
    |neurons| == |layers| && |biases| == |layers| &&
    |weights| == (if |layers| == 0 then 0 else |layers| - 1) &&
    (forall i {:trigger neurons[i]} {:trigger biases[i]} :: 0 <= i < |layers| ==>
       neurons[i].Length == layers[i] && biases[i].Length == layers[i]) &&
    (forall i {:trigger weights[i]} :: 0 <= i < |weights| ==> |weights[i]| == layers[i + 1]) &&
    (forall i, j {:trigger weights[i][j]} :: 0 <= i < |weights| && 0 <= j < |weights[i]| ==>
       weights[i][j].Length == layers[i]) &&
    Placed(neurons, biases, weights, slot)
  }

  class NNet {
    const layers: seq<int>
    const neurons: seq<array<real>>
    var biases: seq<array<real>>
    var weights: seq<seq<array<real>>>
    var fitness: real
    /** The position of every row this net may hold. */
    ghost const slot: map<array<real>, Slot>

    /** The dimensions `Initialise` lays out, with every row at its own position. */
    ghost predicate Valid()
      reads `biases, `weights
    {
      Laid(layers, neurons, biases, weights, slot)
    }

    /** The values `Initialise` leaves: zero neurons, biases in [-0.5, 0.5], weights in [-1, 1]. */
    ghost predicate Drawn()
      reads `biases, `weights, neurons, biases, WeightRows()
    {
      (forall i, k :: 0 <= i < |neurons| && 0 <= k < neurons[i].Length ==> neurons[i][k] == 0.0) &&
      (forall i, k :: 0 <= i < |biases| && 0 <= k < biases[i].Length ==> -0.5 <= biases[i][k] <= 0.5) &&
      (forall i, j, k :: 0 <= i < |weights| && 0 <= j < |weights[i]| && 0 <= k < weights[i][j].Length ==>
         -1.0 <= weights[i][j][k] <= 1.0)
    }

    ghost function WeightRows(): set<array<real>>
      reads `weights
    {
      Rows(weights)
    }

    /** The rows that hold genes: what mutation may change. */
    ghost function GeneRows(): set<array<real>>
      reads `biases, `weights
    {
      (set i | 0 <= i < |biases| :: biases[i]) + WeightRows()
    }

    ghost function BiasValues(): seq<seq<real>>
      reads `biases, biases
    {
      Values(biases)
    }

    ghost function WeightValues(): seq<seq<seq<real>>>
      reads `weights, WeightRows()
    {
      Values3(weights)
    }

    /** Rows at different positions of a valid net are different arrays. */
    lemma Apart()
      requires Valid()
      ensures forall i, k :: 0 <= i < |neurons| && 0 <= k < |neurons| && i != k ==> neurons[i] != neurons[k]
      ensures forall i, k :: 0 <= i < |biases| && 0 <= k < |biases| && i != k ==> biases[i] != biases[k]
      ensures forall i, j, i', j' ::
                (0 <= i < |weights| && 0 <= j < |weights[i]| && 0 <= i' < |weights| && 0 <= j' < |weights[i']| &&
                 (i != i' || j != j')) ==> weights[i][j] != weights[i'][j']
      ensures forall i, k :: 0 <= i < |neurons| && 0 <= k < |biases| ==> neurons[i] != biases[k]
      ensures forall i :: 0 <= i < |neurons| ==> neurons[i] !in WeightRows()
      ensures forall i :: 0 <= i < |biases| ==> biases[i] !in WeightRows()
    {
    }

    /**
     * `Initialise`: copies the topology, then builds neurons, biases and
     * weights in that order. The positions of the new rows are added to
     * `known`, the positions of rows built before.
     */
    constructor Initialise(topology: seq<int>, rng: Random, ghost known: map<array<real>, Slot>)
      requires forall i :: 0 <= i < |topology| ==> topology[i] >= 0
      modifies rng`drawn
      ensures layers == topology
      ensures Valid()
      ensures Agrees(known, slot)
      ensures forall a :: a in slot && a !in known ==> fresh(a)
      ensures forall a :: a in GeneRows() ==> a !in known && fresh(a)
      ensures forall i :: 0 <= i < |neurons| ==> neurons[i] !in known && fresh(neurons[i])
      ensures fitness == 0.0
      ensures Drawn()
    {
      var n, b, w, labels := Build(topology, rng);
      layers := topology;
      neurons := n;
      biases := b;
      weights := w;
      fitness := 0.0;
      assert forall a :: a in known ==> a !in labels;
      slot := known + labels;
    }

    /** The arrays `Initialise` allocates, in the order it allocates them. */
    static method Build(layers: seq<int>, rng: Random)
      returns (neurons: seq<array<real>>, biases: seq<array<real>>,
               weights: seq<seq<array<real>>>, ghost labels: map<array<real>, Slot>)
      requires forall i :: 0 <= i < |layers| ==> layers[i] >= 0
      modifies rng`drawn
      ensures |neurons| == |layers| && |biases| == |layers|
      ensures |weights| == (if |layers| == 0 then 0 else |layers| - 1)
      ensures forall i :: 0 <= i < |layers| ==> neurons[i].Length == layers[i] && biases[i].Length == layers[i]
      ensures forall i :: 0 <= i < |weights| ==> |weights[i]| == layers[i + 1]
      ensures forall i, j :: 0 <= i < |weights| && 0 <= j < |weights[i]| ==> weights[i][j].Length == layers[i]
      ensures forall i :: 0 <= i < |neurons| ==> neurons[i] in labels && labels[neurons[i]] == NeuronRow(i)
      ensures forall i :: 0 <= i < |biases| ==> biases[i] in labels && labels[biases[i]] == BiasRow(i)
      ensures forall i, j :: 0 <= i < |weights| && 0 <= j < |weights[i]| ==>
                weights[i][j] in labels && labels[weights[i][j]] == WeightRow(i, j)
      ensures forall a :: a in labels ==> fresh(a)
      ensures forall i, k :: 0 <= i < |neurons| && 0 <= k < neurons[i].Length ==> neurons[i][k] == 0.0
      ensures forall i, k :: 0 <= i < |biases| && 0 <= k < biases[i].Length ==> -0.5 <= biases[i][k] <= 0.5
      ensures forall i, j, k :: 0 <= i < |weights| && 0 <= j < |weights[i]| && 0 <= k < weights[i][j].Length ==>
                -1.0 <= weights[i][j][k] <= 1.0
    {
      ghost var ln, lb, lw;
      neurons, ln := InitNeurons(layers);
      biases, lb := InitBiases(layers, rng);
      weights, lw := InitWeights(layers, rng);
      assert forall i :: 0 <= i < |neurons| ==> neurons[i] !in lb && neurons[i] !in lw;
      assert forall i :: 0 <= i < |biases| ==> biases[i] !in lw;
      labels := ln + lb + lw;
    }

    /** The net `InitialiseCopy` builds: the same rows, topology and fitness under a new object. */
    constructor Shallow(original: NNet)
      ensures layers == original.layers && neurons == original.neurons
      ensures biases == original.biases && weights == original.weights
      ensures fitness == original.fitness && slot == original.slot
    {
      layers := original.layers;
      neurons := original.neurons;
      biases := original.biases;
      weights := original.weights;
      fitness := original.fitness;
      slot := original.slot;
    }

    /** A shallow copy: the new net shares every array with this one. */
    method InitialiseCopy() returns (n: NNet)
      ensures fresh(n)
      ensures n.layers == layers && n.neurons == neurons && n.biases == biases && n.weights == weights
      ensures n.fitness == fitness
      ensures n.Valid() == Valid()
    {
      n := new NNet.Shallow(this);
    }

    /** One zeroed neuron row per layer. */
    static method InitNeurons(layers: seq<int>) returns (neurons: seq<array<real>>, ghost labels: map<array<real>, Slot>)
      requires forall i :: 0 <= i < |layers| ==> layers[i] >= 0
      ensures |neurons| == |layers|
      ensures forall i :: 0 <= i < |neurons| ==> fresh(neurons[i]) && neurons[i].Length == layers[i]
      ensures forall i, k :: 0 <= i < |neurons| && 0 <= k < neurons[i].Length ==> neurons[i][k] == 0.0
      ensures forall i :: 0 <= i < |neurons| ==> neurons[i] in labels && labels[neurons[i]] == NeuronRow(i)
      ensures forall a :: a in labels ==> fresh(a)
    {
      neurons := [];
      labels := map[];
      for i := 0 to |layers|
        invariant |neurons| == i
        invariant forall k :: 0 <= k < i ==> fresh(neurons[k]) && neurons[k].Length == layers[k]
        invariant forall k, m :: 0 <= k < i && 0 <= m < neurons[k].Length ==> neurons[k][m] == 0.0
        invariant forall k :: 0 <= k < i ==> neurons[k] in labels && labels[neurons[k]] == NeuronRow(k)
        invariant forall a :: a in labels ==> fresh(a)
      {
        var row := new real[layers[i]](_ => 0.0);
        neurons := neurons + [row];
        labels := labels[row := NeuronRow(i)];
      }
    }

    /** A fresh row of n values, each drawn from the range spanned by lo and hi. */
    static method DrawRow(n: nat, lo: real, hi: real, rng: Random) returns (row: array<real>)
      modifies rng`drawn
      ensures fresh(row) && row.Length == n
      ensures forall k :: 0 <= k < n ==> Between(row[k], lo, hi)
    {
      row := new real[n];
      for k := 0 to n
        invariant forall m :: 0 <= m < k ==> Between(row[m], lo, hi)
      {
        row[k] := rng.Range(lo, hi);
      }
    }

    /** One bias row per layer, every entry drawn from [-0.5, 0.5]. */
    static method InitBiases(layers: seq<int>, rng: Random) returns (biases: seq<array<real>>, ghost labels: map<array<real>, Slot>)
      requires forall i :: 0 <= i < |layers| ==> layers[i] >= 0
      modifies rng`drawn
      ensures |biases| == |layers|
      ensures forall i :: 0 <= i < |biases| ==> fresh(biases[i]) && biases[i].Length == layers[i]
      ensures forall i, k :: 0 <= i < |biases| && 0 <= k < biases[i].Length ==> -0.5 <= biases[i][k] <= 0.5
      ensures forall i :: 0 <= i < |biases| ==> biases[i] in labels && labels[biases[i]] == BiasRow(i)
      ensures forall a :: a in labels ==> fresh(a)
    {
      biases := [];
      labels := map[];
      for i := 0 to |layers|
        invariant |biases| == i
        invariant forall k :: 0 <= k < i ==> fresh(biases[k]) && biases[k].Length == layers[k]
        invariant forall k, m :: 0 <= k < i && 0 <= m < biases[k].Length ==> -0.5 <= biases[k][m] <= 0.5
        invariant forall k :: 0 <= k < i ==> biases[k] in labels && labels[biases[k]] == BiasRow(k)
        invariant forall a :: a in labels ==> fresh(a)
      {
        var bias := DrawRow(layers[i], -0.5, 0.5, rng);
        biases := biases + [bias];
        labels := labels[bias := BiasRow(i)];
      }
    }

    /** The weights into the `count` neurons of layer `layer` + 1: one row of `width` draws from [-1, 1] per neuron. */
    static method InitWeightLayer(layer: nat, count: nat, width: nat, rng: Random)
      returns (rows: seq<array<real>>, ghost labels: map<array<real>, Slot>)
      modifies rng`drawn
      ensures |rows| == count
      ensures forall j :: 0 <= j < count ==> fresh(rows[j]) && rows[j].Length == width
      ensures forall j, k :: 0 <= j < count && 0 <= k < width ==> -1.0 <= rows[j][k] <= 1.0
      ensures forall j :: 0 <= j < count ==> rows[j] in labels && labels[rows[j]] == WeightRow(layer, j)
      ensures forall a :: a in labels ==> fresh(a)
    {
      rows := [];
      labels := map[];
      for j := 0 to count
        invariant |rows| == j
        invariant forall m :: 0 <= m < j ==> fresh(rows[m]) && rows[m].Length == width
        invariant forall m, k :: 0 <= m < j && 0 <= k < width ==> -1.0 <= rows[m][k] <= 1.0
        invariant forall m :: 0 <= m < j ==> rows[m] in labels && labels[rows[m]] == WeightRow(layer, m)
        invariant forall a :: a in labels ==> fresh(a)
      {
        var neuronWeights := DrawRow(width, -1.0, 1.0, rng);
        rows := rows + [neuronWeights];
        labels := labels[neuronWeights := WeightRow(layer, j)];
      }
    }

    /** For each layer i >= 1, one row per neuron of layer i, as long as layer i - 1, drawn from [-1, 1]. */
    static method InitWeights(layers: seq<int>, rng: Random)
      returns (weights: seq<seq<array<real>>>, ghost labels: map<array<real>, Slot>)
      requires forall i :: 0 <= i < |layers| ==> layers[i] >= 0
      modifies rng`drawn
      ensures |weights| == (if |layers| == 0 then 0 else |layers| - 1)
      ensures forall i :: 0 <= i < |weights| ==> |weights[i]| == layers[i + 1]
      ensures forall i, j :: 0 <= i < |weights| && 0 <= j < |weights[i]| ==>
                fresh(weights[i][j]) && weights[i][j].Length == layers[i]
      ensures forall i, j, k :: 0 <= i < |weights| && 0 <= j < |weights[i]| && 0 <= k < weights[i][j].Length ==>
                -1.0 <= weights[i][j][k] <= 1.0
      ensures forall i, j :: 0 <= i < |weights| && 0 <= j < |weights[i]| ==>
                weights[i][j] in labels && labels[weights[i][j]] == WeightRow(i, j)
      ensures forall a :: a in labels ==> fresh(a)
    {
      weights := [];
      labels := map[];
      var i := 1;
      while i < |layers|
        invariant 1 <= i && |weights| == i - 1 && (i <= |layers| || i == 1)
        invariant forall t :: 0 <= t < i - 1 ==> |weights[t]| == layers[t + 1]
        invariant forall t, j :: 0 <= t < i - 1 && 0 <= j < |weights[t]| ==>
                    fresh(weights[t][j]) && weights[t][j].Length == layers[t]
        invariant forall t, j, k :: 0 <= t < i - 1 && 0 <= j < |weights[t]| && 0 <= k < weights[t][j].Length ==>
                    -1.0 <= weights[t][j][k] <= 1.0
        invariant forall t, j :: 0 <= t < i - 1 && 0 <= j < |weights[t]| ==>
                    weights[t][j] in labels && labels[weights[t][j]] == WeightRow(t, j)
        invariant forall a :: a in labels ==> fresh(a)
      {
        var rows, rowLabels := InitWeightLayer(i - 1, layers[i], layers[i - 1], rng);
        labels := labels + rowLabels;
        weights := weights + [rows];
        i := i + 1;
      }
    }
  
    /** The gene values depend on the gene rows alone, so changing only neuron rows keeps them. */
    twostate lemma GenesFrame()
      requires old(Valid()) && unchanged(this)
      requires forall i :: 0 <= i < |biases| ==> unchanged(biases[i])
      requires forall a :: a in WeightRows() ==> unchanged(a)
      ensures BiasValues() == old(BiasValues()) && WeightValues() == old(WeightValues())
    {
      assert |BiasValues()| == |old(BiasValues())|;
      forall i | 0 <= i < |biases|
        ensures BiasValues()[i] == old(BiasValues())[i]
      {
      }
      forall i | 0 <= i < |weights|
        ensures WeightValues()[i] == old(WeightValues())[i]
      {
        assert |Values(weights[i])| == |old(Values(weights[i]))|;
        forall j | 0 <= j < |weights[i]|
          ensures Values(weights[i])[j] == old(Values(weights[i]))[j]
        {
          assert weights[i][j] in WeightRows();
        }
      }
    }

    /** The genes fit the shape that a forward pass expects. */
    lemma ValidShaped()
      requires Valid() && |layers| >= 1
      ensures Shaped(WeightValues(), BiasValues())
      ensures |BiasValues()[0]| == layers[0]
    {
    }

    /**
     * `FeedForward`: copies `inputs` over the first neurons of the input
     * layer (the rest keep their previous values), then computes every later
     * layer from the one before it. Returns the output layer's own array.
     */
    method FeedForward(inputs: array<real>, tanh: real -> real) returns (out: array<real>)
      requires Valid()
      requires |layers| >= 1 && inputs.Length <= layers[0]
      modifies neurons
      ensures unchanged(this)
      ensures out == neurons[|neurons| - 1]
      ensures BiasValues() == old(BiasValues()) && WeightValues() == old(WeightValues())
      ensures Shaped(WeightValues(), BiasValues())
      ensures forall i :: 0 <= i < |neurons| ==>
                neurons[i][..] == Layer(old(inputs[..]) + old(neurons[0][inputs.Length..]),
                                        WeightValues(), BiasValues(), tanh, i)
    {
      ghost var W := WeightValues();
      ghost var B := BiasValues();
      ghost var x0 := inputs[..] + neurons[0][inputs.Length..];
      ValidShaped();
      SetInputs(inputs);
      ComputeLayers(tanh, x0, W, B);
      out := neurons[|neurons| - 1];
    }

    /** The input loop of `FeedForward`. */
    method SetInputs(inputs: array<real>)
      requires Valid()
      requires |layers| >= 1 && inputs.Length <= layers[0]
      modifies neurons[0]
      ensures neurons[0][..] == old(inputs[..]) + old(neurons[0][inputs.Length..])
      ensures BiasValues() == old(BiasValues()) && WeightValues() == old(WeightValues())
    {
      Apart();
      ghost var x0 := inputs[..] + neurons[0][inputs.Length..];
      for i := 0 to inputs.Length
        invariant forall k :: 0 <= k < i ==> neurons[0][k] == x0[k]
        invariant forall k :: i <= k < neurons[0].Length ==> neurons[0][k] == old(neurons[0][k])
        invariant forall k :: i <= k < inputs.Length ==> inputs[k] == old(inputs[k])
      {
        neurons[0][i] := inputs[i];
      }
      assert neurons[0][..] == x0;
    }

    /** The layer loop of `FeedForward`: layers 1, 2, ... in turn, each from the one before. */
    method ComputeLayers(tanh: real -> real, ghost x0: seq<real>, ghost W: seq<seq<seq<real>>>, ghost B: seq<seq<real>>)
      requires Valid()
      requires |layers| >= 1 && |x0| == layers[0]
      requires W == WeightValues() && B == BiasValues() && Shaped(W, B)
      requires neurons[0][..] == x0
      modifies neurons
      ensures forall r :: 0 <= r < |neurons| ==> neurons[r][..] == Layer(x0, W, B, tanh, r)
      ensures BiasValues() == B && WeightValues() == W
    {
      Apart();
      for i := 1 to |layers|
        invariant forall r :: 0 <= r < i ==> neurons[r][..] == Layer(x0, W, B, tanh, r)
        invariant BiasValues() == B && WeightValues() == W
      {
        label before:
        ComputeLayer(i, tanh, x0, W, B);
        forall r | 0 <= r < i
          ensures neurons[r][..] == Layer(x0, W, B, tanh, r)
        {
          assert neurons[r] != neurons[i];
          assert neurons[r][..] == old@before(neurons[r][..]);
        }
      }
    }

    /**
     * One pass of the layer loop of `FeedForward`: recomputes every neuron of
     * layer i from layer i - 1, so that a network whose first i layers hold
     * the pass for `x0` then holds it for layer i as well.
     */
    method ComputeLayer(i: nat, tanh: real -> real, ghost x0: seq<real>, ghost W: seq<seq<seq<real>>>, ghost B: seq<seq<real>>)
      requires Valid()
      requires 1 <= i < |layers| && |x0| == layers[0]
      requires W == WeightValues() && B == BiasValues() && Shaped(W, B)
      requires neurons[i - 1][..] == Layer(x0, W, B, tanh, i - 1)
      modifies neurons[i]
      ensures neurons[i][..] == Layer(x0, W, B, tanh, i)
      ensures BiasValues() == B && WeightValues() == W
    {
      ghost var prev := neurons[i - 1][..];
      ComputeRows(i, tanh, W, B, prev);
      GenesFrame();
      LayerStep(x0, W, B, tanh, i, prev, neurons[i][..]);
    }

    /** The loop over the neurons of layer i, each set from the weighted sum of layer i - 1. */
    method ComputeRows(i: nat, tanh: real -> real, ghost W: seq<seq<seq<real>>>, ghost B: seq<seq<real>>, ghost prev: seq<real>)
      requires Valid()
      requires 1 <= i < |layers|
      requires W == WeightValues() && B == BiasValues() && prev == neurons[i - 1][..]
      requires Shaped(W, B)
      modifies neurons[i]
      ensures Follows(neurons[i][..], W, B, tanh, i, prev)
    {
      Apart();
      for j := 0 to neurons[i].Length
        invariant forall m :: 0 <= m < j ==> neurons[i][m] == Activate(tanh, Dot(W[i - 1][m], prev, |prev|) + B[i][m])
        invariant neurons[i - 1][..] == prev
      {
        var value := WeightedSum(weights[i - 1][j], neurons[i - 1]);
        assert weights[i - 1][j][..] == old(weights[i - 1][j][..]) == W[i - 1][j];
        assert biases[i][j] == old(biases[i][j]) == B[i][j];
        neurons[i][j] := Activate(tanh, value + biases[i][j]);
      }
    }

    /**
     * The innermost loop of `FeedForward`: the weighted sum of the previous
     * layer's values. `Numerics.Dot` is the reference definition of that sum;
     * the loop accumulates it in the same order, term by term.
     */
    static method WeightedSum(w: array<real>, x: array<real>) returns (value: real)
      requires x.Length <= w.Length
      ensures value == Dot(w[..], x[..], x.Length)
    {
      value := 0.0;
      for k := 0 to x.Length
        invariant value == Dot(w[..], x[..], k)
      {
        value := value + w[k] * x[k];
      }
    }
  
    /**
     * `Mutate`: every bias, then every weight, is moved by a draw from
     * [-val, val] when a draw from [0, 1] falls below `chance`.
     */
    method Mutate(chance: real, val: real, rng: Random)
      requires Valid()
      modifies GeneRows(), rng`drawn
      ensures forall i, k :: 0 <= i < |biases| && 0 <= k < biases[i].Length ==>
                Nudged(old(biases[i][k]), biases[i][k], chance, val)
      ensures forall i, j, k :: 0 <= i < |weights| && 0 <= j < |weights[i]| && 0 <= k < weights[i][j].Length ==>
                Nudged(old(weights[i][j][k]), weights[i][j][k], chance, val)
      ensures forall a, k :: a in GeneRows() && 0 <= k < a.Length ==> Nudged(old(a[k]), a[k], chance, val)
    {
      Apart();
      MutateRows(biases, chance, val, rng);
      MutateWeights(chance, val, rng);
      forall a, k | a in GeneRows() && 0 <= k < a.Length ensures Nudged(old(a[k]), a[k], chance, val) {
        if i :| 0 <= i < |biases| && a == biases[i] {
        } else {
          var i, j :| 0 <= i < |weights| && 0 <= j < |weights[i]| && a == weights[i][j];
        }
      }
    }

    /** The weight loop of `Mutate`: the rows into each layer in turn. */
    method MutateWeights(chance: real, val: real, rng: Random)
      requires Valid()
      modifies WeightRows(), rng`drawn
      ensures forall i, j, k :: 0 <= i < |weights| && 0 <= j < |weights[i]| && 0 <= k < weights[i][j].Length ==>
                Nudged(old(weights[i][j][k]), weights[i][j][k], chance, val)
    {
      Apart();
      for i := 0 to |weights|
        invariant forall r, j, k :: 0 <= r < i && 0 <= j < |weights[r]| && 0 <= k < weights[r][j].Length ==>
                    Nudged(old(weights[r][j][k]), weights[r][j][k], chance, val)
        invariant forall r, j, k :: i <= r < |weights| && 0 <= j < |weights[r]| && 0 <= k < weights[r][j].Length ==>
                    weights[r][j][k] == old(weights[r][j][k])
      {
        MutateRows(weights[i], chance, val, rng);
      }
    }

    /** The loop of `Mutate` over a sequence of distinct gene rows. */
    static method MutateRows(rows: seq<array<real>>, chance: real, val: real, rng: Random)
      requires forall j, j' :: 0 <= j < j' < |rows| ==> rows[j] != rows[j']
      modifies rows, rng`drawn
      ensures forall j, k :: 0 <= j < |rows| && 0 <= k < rows[j].Length ==> Nudged(old(rows[j][k]), rows[j][k], chance, val)
    {
      for j := 0 to |rows|
        invariant forall j', k :: 0 <= j' < j && 0 <= k < rows[j'].Length ==> Nudged(old(rows[j'][k]), rows[j'][k], chance, val)
        invariant forall j', k :: j <= j' < |rows| && 0 <= k < rows[j'].Length ==> rows[j'][k] == old(rows[j'][k])
      {
        MutateRow(rows[j], chance, val, rng);
      }
    }

    /** The innermost loop of `Mutate` over one row of genes. */
    static method MutateRow(row: array<real>, chance: real, val: real, rng: Random)
      modifies row, rng`drawn
      ensures forall k :: 0 <= k < row.Length ==> Nudged(old(row[k]), row[k], chance, val)
    {
      for k := 0 to row.Length
        invariant forall m :: 0 <= m < k ==> Nudged(old(row[m]), row[m], chance, val)
        invariant forall m :: k <= m < row.Length ==> row[m] == old(row[m])
      {
        var coin := rng.Range(0.0, 1.0);
        if coin < chance {
          var delta := rng.Range(-val, val);
          row[k] := row[k] + delta;
        }
      }
    }

    /**
     * `RunNetwork`: feeds (a, b, c) forward twice and returns the sigmoid of
     * the first output of the first pass and the second output of the second.
     * Both passes compute the same layers, so the pair comes from one pass.
     */
    method RunNetwork(a: real, b: real, c: real, tanh: real -> real, exp: real -> real) returns (speed: real, turning: real)
      requires Valid()
      requires |layers| >= 1 && layers[0] >= 3 && layers[|layers| - 1] >= 2
      requires Positive(exp)
      modifies neurons
      ensures BiasValues() == old(BiasValues()) && WeightValues() == old(WeightValues())
      ensures Shaped(WeightValues(), BiasValues())
      ensures var out := Layer([a, b, c] + old(neurons[0][3..]), WeightValues(), BiasValues(), tanh, |layers| - 1);
              speed == Sigmoid(out[0], exp) && turning == out[1]
      ensures 0.0 < speed < 1.0
    {
      ghost var W, B := WeightValues(), BiasValues();
      ghost var x0 := [a, b, c] + neurons[0][3..];
      var input := Triple(a, b, c);
      var first := Pass(input, tanh, x0);
      assert WeightValues() == W && BiasValues() == B;
      speed := Sigmoid(first[0], exp);
      var second := Pass(input, tanh, x0);
      assert WeightValues() == W && BiasValues() == B;
      turning := second[1];
    }

    /** The input array `{ a, b, c }` of `RunNetwork`. */
    static method Triple(a: real, b: real, c: real) returns (input: array<real>)
      ensures fresh(input) && input[..] == [a, b, c]
    {
      input := new real[3][a, b, c];
    }

    /** One call of `FeedForward` in `RunNetwork`, whose input layer then holds `x0` again. */
    method Pass(input: array<real>, tanh: real -> real, ghost x0: seq<real>) returns (out: array<real>)
      requires Valid()
      requires |layers| >= 1 && input.Length <= layers[0]
      requires input !in neurons
      requires x0 == input[..] + neurons[0][input.Length..]
      modifies neurons
      ensures unchanged(this, input) && Valid()
      ensures BiasValues() == old(BiasValues()) && WeightValues() == old(WeightValues())
      ensures Shaped(WeightValues(), BiasValues()) && |x0| == |BiasValues()[0]|
      ensures out[..] == Layer(x0, WeightValues(), BiasValues(), tanh, |layers| - 1)
      ensures x0 == input[..] + neurons[0][input.Length..]
    {
      out := FeedForward(input, tanh);
      assert neurons[0][..] == x0;
    }
  }
}
