/**
 * `GeneticManager`: the generational loop that evaluates one network at a
 * time and, once every network of the population has been evaluated,
 * builds the next population by sorting, elitist selection, crossover,
 * mutation and filling up with fresh random networks.
 */
module Genetic {
  import opened Oracle
  import opened Network
  import opened Ranking
  import opened GenePool
  import opened Numerics

  /** Number of passes of the crossover loop `for (i = 0; i < n; i += 2)`. */
  function Crossings(n: int): (r: nat)
    ensures n <= 0 ==> r == 0
    ensures n > 0 ==> 2 * r - 1 <= n <= 2 * r
  {
    if n <= 0 then 0 else (n + 1) / 2
  }

  /**
   * The two raw int draws at positions n + 2t and n + 2t + 1 pick two
   * different entries of the pool.
   */
  ghost predicate PicksTwo(pool: seq<int>, ints: nat -> int, n: nat, t: nat)
    requires |pool| >= 1
  {
    pool[ClampIndex(ints(n + 2 * t), 0, |pool|)] != pool[ClampIndex(ints(n + 2 * t + 1), 0, |pool|)]
  }

  /** Some later pair of draws, counted from position n, picks two different entries. */
  ghost predicate EventuallyPicksTwo(pool: seq<int>, ints: nat -> int, n: nat)
    requires |pool| >= 1
  {
    exists t: nat :: PicksTwo(pool, ints, n, t)
  }

  /** From every position, the retry loop of `CrossOver` ends. */
  ghost predicate Fair(pool: seq<int>, ints: nat -> int)
    requires |pool| >= 1
  {
    forall n: nat :: EventuallyPicksTwo(pool, ints, n)
  }

  /**
   * The retry loop of `CrossOver`: draws two pool entries at a time until
   * they differ. It ends only because the draws are assumed fair.
   */
  method DrawParents(pool: seq<int>, rng: Random) returns (a: int, b: int)
    requires |pool| >= 1 && Fair(pool, rng.ints)
    modifies rng`drawn
    ensures a != b && a in pool && b in pool
    ensures rng.drawn > old(rng.drawn)
  {
    ghost var start := rng.drawn;
    assert EventuallyPicksTwo(pool, rng.ints, start);
    ghost var t: nat :| PicksTwo(pool, rng.ints, start, t);
    var selected := false;
    a, b := 0, 0;
    while !selected
      invariant rng.drawn >= start && (rng.drawn - start) % 2 == 0
      invariant !selected ==> rng.drawn <= start + 2 * t
      invariant selected ==> a != b && a in pool && b in pool && rng.drawn > start
      decreases if selected then 0 else start + 2 * t - rng.drawn + 1
    {
      ghost var at := rng.drawn;
      var i := rng.RangeInt(0, |pool|);
      a := pool[i];
      var j := rng.RangeInt(0, |pool|);
      b := pool[j];
      if a != b {
        selected := true;
      } else {
        assert at != start + 2 * t;
      }
    }
  }

  /** Entry k of c is entry k of a or entry k of b. */
  ghost predicate Picked<T>(c: seq<T>, a: seq<T>, b: seq<T>, k: int) {
    0 <= k < |c| && k < |a| && k < |b| && (c[k] == a[k] || c[k] == b[k])
  }

  /** Every gene container of c is the parent's own, taken from pa or from pb. */
  ghost predicate Bred(c: NNet, pa: NNet, pb: NNet)
    reads c`weights, pa`weights, pb`weights, c`biases, pa`biases, pb`biases
  {
    Crossed(c.weights, pa.weights, pb.weights) && Crossed(c.biases, pa.biases, pb.biases)
  }

  /** Every entry of c is the entry at the same position of a or of b. */
  ghost predicate Crossed<T>(c: seq<T>, a: seq<T>, b: seq<T>) {
    |c| == |a| && forall k :: 0 <= k < |c| ==> Picked(c, a, b, k)
  }

  /** Weight layer k of both children: each from parent A when its draw from [0, 1] is below 0.5. */
  method PickWeights(c1: NNet, c2: NNet, pa: NNet, pb: NNet, k: int, rng: Random)
    requires c1 != c2 && pa !in {c1, c2} && pb !in {c1, c2}
    requires 0 <= k < |c1.weights| && k < |c2.weights| && k < |pa.weights| && k < |pb.weights|
    modifies c1`weights, c2`weights, rng`drawn
    ensures |c1.weights| == old(|c1.weights|) && |c2.weights| == old(|c2.weights|)
    ensures forall j :: 0 <= j < |c1.weights| && j != k ==> c1.weights[j] == old(c1.weights[j])
    ensures forall j :: 0 <= j < |c2.weights| && j != k ==> c2.weights[j] == old(c2.weights[j])
    ensures Picked(c1.weights, pa.weights, pb.weights, k) && Picked(c2.weights, pa.weights, pb.weights, k)
    ensures forall j :: old(Picked(c1.weights, pa.weights, pb.weights, j)) ==> Picked(c1.weights, pa.weights, pb.weights, j)
    ensures forall j :: old(Picked(c2.weights, pa.weights, pb.weights, j)) ==> Picked(c2.weights, pa.weights, pb.weights, j)
  {
    var coin := rng.Range(0.0, 1.0);
    c1.weights := c1.weights[k := if coin < 0.5 then pa.weights[k] else pb.weights[k]];
    coin := rng.Range(0.0, 1.0);
    c2.weights := c2.weights[k := if coin < 0.5 then pa.weights[k] else pb.weights[k]];
  }

  /** Bias row k of both children: each from parent A when its draw from [0, 1] is below 0.5. */
  method PickBiases(c1: NNet, c2: NNet, pa: NNet, pb: NNet, k: int, rng: Random)
    requires c1 != c2 && pa !in {c1, c2} && pb !in {c1, c2}
    requires 0 <= k < |c1.biases| && k < |c2.biases| && k < |pa.biases| && k < |pb.biases|
    modifies c1`biases, c2`biases, rng`drawn
    ensures |c1.biases| == old(|c1.biases|) && |c2.biases| == old(|c2.biases|)
    ensures forall j :: 0 <= j < |c1.biases| && j != k ==> c1.biases[j] == old(c1.biases[j])
    ensures forall j :: 0 <= j < |c2.biases| && j != k ==> c2.biases[j] == old(c2.biases[j])
    ensures Picked(c1.biases, pa.biases, pb.biases, k) && Picked(c2.biases, pa.biases, pb.biases, k)
    ensures forall j :: old(Picked(c1.biases, pa.biases, pb.biases, j)) ==> Picked(c1.biases, pa.biases, pb.biases, j)
    ensures forall j :: old(Picked(c2.biases, pa.biases, pb.biases, j)) ==> Picked(c2.biases, pa.biases, pb.biases, j)
  {
    var coin := rng.Range(0.0, 1.0);
    c1.biases := c1.biases[k := if coin < 0.5 then pa.biases[k] else pb.biases[k]];
    coin := rng.Range(0.0, 1.0);
    c2.biases := c2.biases[k := if coin < 0.5 then pa.biases[k] else pb.biases[k]];
  }

  /**
   * The weight loops of `CrossOver` for one pair of children. The two inner
   * loops index the list of weight layers with bounds taken from layer
   * sizes, exactly as written; the bound on layer sizes keeps those indices
   * in range.
   */
  method CrossWeights(c1: NNet, c2: NNet, pa: NNet, pb: NNet, rng: Random)
    requires c1 != c2 && pa !in {c1, c2} && pb !in {c1, c2}
    requires |c1.weights| == |c2.weights| == |pa.weights| == |pb.weights|
    requires forall k :: 0 <= k < |pa.weights| ==> |pa.weights[k]| == |pb.weights[k]| <= |pa.weights| + 1
    modifies c1`weights, c2`weights, rng`drawn
    ensures |c1.weights| == old(|c1.weights|) && |c2.weights| == old(|c2.weights|)
    ensures forall k :: 0 <= k < |c1.weights| ==> Picked(c1.weights, pa.weights, pb.weights, k) && Picked(c2.weights, pa.weights, pb.weights, k)
  {
    var n := |c1.weights|;
    var w := 0;
    while w < |c1.weights|
      invariant 0 <= w <= n && |c1.weights| == n && |c2.weights| == n
      invariant forall k :: 0 <= k < w ==> Picked(c1.weights, pa.weights, pb.weights, k) && Picked(c2.weights, pa.weights, pb.weights, k)
    {
      PickWeights(c1, c2, pa, pb, w, rng);
      var w2 := 0;
      while w2 < |c1.weights[w]| - 1
        invariant 0 <= w2 && |c1.weights| == n && |c2.weights| == n
        invariant forall k :: 0 <= k <= w ==> Picked(c1.weights, pa.weights, pb.weights, k) && Picked(c2.weights, pa.weights, pb.weights, k)
        invariant Picked(c1.weights, pa.weights, pb.weights, w)
        decreases |pa.weights[w]| - w2
      {
        PickWeights(c1, c2, pa, pb, w2, rng);
        var w3 := 0;
        while w3 < |c1.weights[w2]| - 1
          invariant 0 <= w3 && |c1.weights| == n && |c2.weights| == n
          invariant forall k :: 0 <= k <= w ==> Picked(c1.weights, pa.weights, pb.weights, k) && Picked(c2.weights, pa.weights, pb.weights, k)
          invariant Picked(c1.weights, pa.weights, pb.weights, w2)
          decreases |pa.weights[w2]| - w3
        {
          PickWeights(c1, c2, pa, pb, w3, rng);
          w3 := w3 + 1;
        }
        w2 := w2 + 1;
      }
      w := w + 1;
    }
  }

  /** The bias loops of `CrossOver` for one pair of children, the inner one bounded by a row length. */
  method CrossBiases(c1: NNet, c2: NNet, pa: NNet, pb: NNet, rng: Random)
    requires c1 != c2 && pa !in {c1, c2} && pb !in {c1, c2}
    requires |c1.biases| == |c2.biases| == |pa.biases| == |pb.biases|
    requires forall k :: 0 <= k < |pa.biases| ==> pa.biases[k].Length == pb.biases[k].Length <= |pa.biases| + 1
    modifies c1`biases, c2`biases, rng`drawn
    ensures |c1.biases| == old(|c1.biases|) && |c2.biases| == old(|c2.biases|)
    ensures forall k :: 0 <= k < |c1.biases| ==> Picked(c1.biases, pa.biases, pb.biases, k) && Picked(c2.biases, pa.biases, pb.biases, k)
  {
    var n := |c1.biases|;
    var b := 0;
    while b < |c1.biases|
      invariant 0 <= b <= n && |c1.biases| == n && |c2.biases| == n
      invariant forall k :: 0 <= k < b ==> Picked(c1.biases, pa.biases, pb.biases, k) && Picked(c2.biases, pa.biases, pb.biases, k)
    {
      PickBiases(c1, c2, pa, pb, b, rng);
      var b2 := 0;
      while b2 < c1.biases[b].Length - 1
        invariant 0 <= b2 && |c1.biases| == n && |c2.biases| == n
        invariant forall k :: 0 <= k <= b ==> Picked(c1.biases, pa.biases, pb.biases, k) && Picked(c2.biases, pa.biases, pb.biases, k)
        invariant Picked(c1.biases, pa.biases, pb.biases, b)
        decreases pa.biases[b].Length - b2
      {
        PickBiases(c1, c2, pa, pb, b2, rng);
        b2 := b2 + 1;
      }
      b := b + 1;
    }
  }

  /**
   * A child holds no gene row of its own: every bias row and weight row it
   * has belongs to one of its parents, so mutating the child mutates them.
   */
  lemma ChildRows(c: NNet, pa: NNet, pb: NNet)
    requires Bred(c, pa, pb)
    ensures c.GeneRows() <= pa.GeneRows() + pb.GeneRows()
  {
    forall a | a in c.GeneRows() ensures a in pa.GeneRows() + pb.GeneRows() {
      if i :| 0 <= i < |c.biases| && a == c.biases[i] {
        assert Picked(c.biases, pa.biases, pb.biases, i);
      } else {
        var i, j :| 0 <= i < |c.weights| && 0 <= j < |c.weights[i]| && a == c.weights[i][j];
        assert Picked(c.weights, pa.weights, pb.weights, i);
        if c.weights[i] == pa.weights[i] {
          assert a in pa.WeightRows();
        } else {
          assert a in pb.WeightRows();
        }
      }
    }
  }

  /** The neuron rows of c have the sizes of its layers and sit at their positions in its labels. */
  ghost predicate Neurons(c: NNet)
  {
    |c.neurons| == |c.layers| &&
    forall i :: 0 <= i < |c.neurons| ==>
      c.neurons[i].Length == c.layers[i] && c.neurons[i] in c.slot && c.slot[c.neurons[i]] == NeuronRow(i)
  }

  /**
   * A child built for the parents' topology, whose gene containers are all
   * the parents' own, has the shape `Initialise` lays out, as long as its
   * labels include the parents'.
   */
  lemma BredValid(c: NNet, pa: NNet, pb: NNet)
    requires pa.Valid() && pb.Valid()
    requires pa.layers == c.layers && pb.layers == c.layers
    requires Agrees(pa.slot, c.slot) && Agrees(pb.slot, c.slot)
    requires Neurons(c) && Bred(c, pa, pb)
    ensures c.Valid()
  {
    forall i | 0 <= i < |c.biases|
      ensures c.biases[i].Length == c.layers[i] && c.biases[i] in c.slot && c.slot[c.biases[i]] == BiasRow(i)
    {
      assert Picked(c.biases, pa.biases, pb.biases, i);
      assert pa.layers[i] == c.layers[i] && pb.layers[i] == c.layers[i];
    }
    forall i | 0 <= i < |c.weights|
      ensures |c.weights[i]| == c.layers[i + 1]
      ensures forall j :: 0 <= j < |c.weights[i]| ==>
                c.weights[i][j].Length == c.layers[i] && c.weights[i][j] in c.slot && c.slot[c.weights[i][j]] == WeightRow(i, j)
    {
      assert Picked(c.weights, pa.weights, pb.weights, i);
      assert pa.layers[i] == c.layers[i] && pb.layers[i] == c.layers[i];
      assert pa.layers[i + 1] == c.layers[i + 1] && pb.layers[i + 1] == c.layers[i + 1];
    }
  }

  /** Two valid parents of one topology whose layer sizes keep the crossover indices in range. */
  lemma CrossBounds(pa: NNet, pb: NNet)
    requires pa.Valid() && pb.Valid() && pa.layers == pb.layers
    requires |pa.layers| >= 1 ==> pa.layers[0] <= |pa.layers| + 1
    requires forall i :: 1 <= i < |pa.layers| ==> pa.layers[i] <= |pa.layers|
    ensures |pa.weights| == |pb.weights| && |pa.biases| == |pb.biases|
    ensures forall k :: 0 <= k < |pa.weights| ==> |pa.weights[k]| == |pb.weights[k]| <= |pa.weights| + 1
    ensures forall k :: 0 <= k < |pa.biases| ==> pa.biases[k].Length == pb.biases[k].Length <= |pa.biases| + 1
  {
    forall k | 0 <= k < |pa.biases|
      ensures pa.biases[k].Length == pb.biases[k].Length <= |pa.biases| + 1
    {
      assert pa.layers[k] == pb.layers[k];
    }
    forall k | 0 <= k < |pa.weights|
      ensures |pa.weights[k]| == |pb.weights[k]| <= |pa.weights| + 1
    {
      assert pa.layers[k + 1] == pb.layers[k + 1];
    }
  }

  /**
   * What one crossover pass asks of its two children and two parents: the
   * parents are valid, the children have their neuron rows laid out, all four
   * share one topology and container lengths, the children's labels include
   * the parents', and layer sizes are bounded as the loops' index bounds require.
   */
  ghost predicate Ready(c1: NNet, c2: NNet, pa: NNet, pb: NNet)
    reads c1`weights, c2`weights, c1`biases, c2`biases
    reads pa`weights, pa`biases, pb`weights, pb`biases
  {
    pa.Valid() && pb.Valid() && Neurons(c1) && Neurons(c2) &&
    pa.layers == c1.layers && pb.layers == c1.layers && c2.layers == c1.layers &&
    |c1.weights| == |c2.weights| == |pa.weights| && |c1.biases| == |c2.biases| == |pa.biases| &&
    Agrees(pa.slot, c1.slot) && Agrees(pb.slot, c1.slot) &&
    Agrees(pa.slot, c2.slot) && Agrees(pb.slot, c2.slot) &&
    (|c1.layers| >= 1 ==> c1.layers[0] <= |c1.layers| + 1) &&
    (forall i :: 1 <= i < |c1.layers| ==> c1.layers[i] <= |c1.layers|)
  }

  /**
   * The weight loops and then the bias loops of one crossover pass, for
   * two valid children of the parents' topology whose labels include the
   * parents'. Layer sizes are bounded as the loops' index bounds require.
   */
  method CrossGenes(c1: NNet, c2: NNet, pa: NNet, pb: NNet, rng: Random)
    requires c1 != c2 && pa !in {c1, c2} && pb !in {c1, c2}
    requires Ready(c1, c2, pa, pb)
    modifies c1`weights, c2`weights, c1`biases, c2`biases, rng`drawn
    ensures Bred(c1, pa, pb) && Bred(c2, pa, pb)
    ensures c1.Valid() && c2.Valid()
    ensures c1.fitness == old(c1.fitness) && c2.fitness == old(c2.fitness)
  {
    CrossBounds(pa, pb);
    CrossWeights(c1, c2, pa, pb, rng);
    CrossBiases(c1, c2, pa, pb, rng);
    BredValid(c1, pa, pb);
    BredValid(c2, pa, pb);
  }

  /**
   * Two new networks and two parents, all valid for one topology within the
   * `Settings` bounds, whose labels agree through a common map `s`, meet
   * everything `CrossGenes` asks of them.
   */
  lemma CrossReady(c1: NNet, c2: NNet, pa: NNet, pb: NNet, topology: seq<int>, s: map<array<real>, Slot>)
    requires c1.Valid() && c2.Valid() && pa.Valid() && pb.Valid()
    requires c1.layers == topology && c2.layers == topology && pa.layers == topology && pb.layers == topology
    requires Agrees(pa.slot, s) && Agrees(pb.slot, s) && Agrees(s, c1.slot) && Agrees(s, c2.slot)
    requires |topology| >= 1 ==> topology[0] <= |topology| + 1
    requires forall i :: 1 <= i < |topology| ==> topology[i] <= |topology|
    ensures Ready(c1, c2, pa, pb)
  {
    AgreesTrans(pa.slot, s, c1.slot);
    AgreesTrans(pb.slot, s, c1.slot);
    AgreesTrans(pa.slot, s, c2.slot);
    AgreesTrans(pb.slot, s, c2.slot);
  }

  /** Each individual paired with its fitness, in population order. */
  function Keyed(pop: seq<NNet>): (r: seq<(NNet, real)>)
    reads pop
    ensures |r| == |pop|
    ensures forall k :: 0 <= k < |pop| ==> r[k] == (pop[k], pop[k].fitness)
  {
    seq(|pop|, k requires 0 <= k < |pop| reads pop => (pop[k], pop[k].fitness))
  }

  /** The individuals of a keyed sequence, in order. */
  function Individuals(s: seq<(NNet, real)>): (r: seq<NNet>)
    ensures |r| == |s|
    ensures forall k :: 0 <= k < |s| ==> r[k] == s[k].0
  {
    seq(|s|, k requires 0 <= k < |s| => s[k].0)
  }

  /** The gene rows of the individuals at positions lo .. hi - 1. */
  ghost function Footprint(pop: seq<NNet>, lo: int, hi: int): set<array<real>>
    reads pop`weights, pop`biases
  {
    set k, a | 0 <= k < |pop| && lo <= k < hi && a in pop[k].GeneRows() :: a
  }

  /** No entry occurs twice. */
  ghost predicate Distinct<T>(s: seq<T>) {
    forall j, k :: 0 <= j < k < |s| ==> s[j] != s[k]
  }

  /** Two new entries, different from each other, appended to a sequence without repetitions. */
  lemma DistinctAppend<T>(s: seq<T>, x: T, y: T)
    requires Distinct(s) && x !in s && y !in s && x != y
    ensures Distinct(s + [x, y])
  {
  }

  lemma {:induction false} DistinctCount<T>(s: seq<T>, x: T)
    requires Distinct(s)
    ensures multiset(s)[x] <= 1
  {
    if s != [] {
      var rest := s[1..];
      assert Distinct(rest) by {
        forall j, k | 0 <= j < k < |rest| ensures rest[j] != rest[k] {
          assert rest[j] == s[j + 1] && rest[k] == s[k + 1];
        }
      }
      DistinctCount(rest, x);
      assert s == [s[0]] + rest;
      if x == s[0] {
        assert x !in rest by {
          forall k | 0 <= k < |rest| ensures rest[k] != x {
            assert rest[k] == s[k + 1];
          }
        }
      }
    }
  }

  lemma TwiceCounted<T>(s: seq<T>, j: int, k: int)
    requires 0 <= j < k < |s| && s[j] == s[k]
    ensures multiset(s)[s[j]] >= 2
  {
    assert s == s[..j] + [s[j]] + s[j + 1..k] + [s[k]] + s[k + 1..];
  }

  /** A reordering of a sequence without repetitions has none either. */
  lemma DistinctPermutation<T>(a: seq<T>, b: seq<T>)
    requires multiset(a) == multiset(b) && Distinct(a)
    ensures Distinct(b)
  {
    forall j, k | 0 <= j < k < |b| ensures b[j] != b[k] {
      if b[j] == b[k] {
        TwiceCounted(b, j, k);
        DistinctCount(a, b[j]);
        assert false;
      }
    }
  }

  /**
   * Sorting the keyed population keeps each key equal to its individual's
   * fitness and only reorders individuals, so the keyed form of the sorted
   * individuals is the sorted keyed population, and no individual is repeated.
   */
  lemma SortedKeyed(pop: seq<NNet>)
    ensures |SortDescending(Keyed(pop))| == |pop|
    ensures forall k :: 0 <= k < |pop| ==>
              SortDescending(Keyed(pop))[k].1 == SortDescending(Keyed(pop))[k].0.fitness &&
              SortDescending(Keyed(pop))[k].0 in pop
    ensures Keyed(Individuals(SortDescending(Keyed(pop)))) == SortDescending(Keyed(pop))
    ensures Distinct(pop) ==> Distinct(Individuals(SortDescending(Keyed(pop))))
  {
    var keyed := Keyed(pop);
    var s := SortDescending(keyed);
    SortDescendingFacts(keyed);
    forall k | 0 <= k < |s| ensures s[k].1 == s[k].0.fitness && s[k].0 in pop {
      assert s[k] in multiset(keyed);
      var j :| 0 <= j < |keyed| && keyed[j] == s[k];
    }
    var r := Individuals(s);
    assert Keyed(r) == s;
    if Distinct(pop) {
      assert Distinct(keyed);
      DistinctPermutation(keyed, s);
      forall j, k | 0 <= j < k < |r| ensures r[j] != r[k] {
        assert s[j] != s[k];
      }
    }
  }

  /**
   * A network built since the old state: its gene rows are all new arrays and
   * hold the values `Initialise` draws, so no mutation has touched them.
   */
  twostate predicate FreshlyDrawn(new n: NNet)
    reads n, n.neurons, n.biases, n.WeightRows()
  {
    n.Drawn() && forall a :: a in n.GeneRows() ==> fresh(a)
  }

  /** The positions below n whose individual `Mutate` mutates, in increasing order. */
  function MutatedIndices(best: int, n: int): (r: seq<int>)
    ensures forall j :: 0 <= j < |r| ==> best < r[j] < n
    ensures forall j, k :: 0 <= j < k < |r| ==> r[j] < r[k]
    decreases if n < 0 then 0 else n
  {
    if n <= 0 then [] else MutatedIndices(best, n - 1) + (if n - 1 > best then [n - 1] else [])
  }

  /**
   * The positions `Mutate` records are exactly those after `bestAgentSelection`:
   * the network at `bestAgentSelection` itself is never passed to `NNet.Mutate`.
   */
  lemma {:induction false} MutatedExactly(best: int, n: int, i: int)
    ensures i in MutatedIndices(best, n) <==> 0 <= i < n && best < i
    decreases if n < 0 then 0 else n
  {
    if n > 0 {
      MutatedExactly(best, n - 1, i);
    }
  }

  /**
   * The number of networks at positions lo .. n - 1 that hold row a: how
   * many times the mutation loop nudges that row.
   */
  ghost function Holders(pop: seq<NNet>, a: array<real>, lo: int, n: int): nat
    requires n <= |pop|
    reads pop`weights, pop`biases
    decreases n
  {
    if n <= lo || n <= 0 then 0
    else Holders(pop, a, lo, n - 1) + (if a in pop[n - 1].GeneRows() then 1 else 0)
  }

  /** A gene that each of n nudges may have moved by at most val; with no nudge, unchanged. */
  ghost predicate Drift(before: real, after: real, chance: real, val: real, n: nat) {
    after == before || (chance > 0.0 && n >= 1 && -(n as real) * val <= after - before <= (n as real) * val)
  }

  /** Every gene of `rows` has drifted from its value in `genes` by the nudges of its holders so far. */
  ghost predicate Drifted(rows: set<array<real>>, genes: map<array<real>, seq<real>>, pop: seq<NNet>,
                          lo: int, n: int, chance: real)
    requires n <= |pop|
    reads rows, pop`weights, pop`biases
  {
    forall a, k :: a in rows && a in genes && 0 <= k < a.Length && k < |genes[a]| ==>
      Drift(genes[a][k], a[k], chance, 0.1, Holders(pop, a, lo, n))
  }

  /** One more nudge widens the drift by one step. */
  lemma DriftStep(before: real, mid: real, after: real, chance: real, val: real, n: nat)
    requires val >= 0.0 && Drift(before, mid, chance, val, n) && Nudged(mid, after, chance, val)
    ensures Drift(before, after, chance, val, n + 1)
  {
    assert Min(-val, val) == -val && Max(-val, val) == val;
    assert (n + 1) as real * val == n as real * val + val;
  }

  /**
   * Settings under which no step of the loop indexes out of range: at least
   * one network, enough of them for the elites and for the crossover
   * parents, non-negative layer sizes, and, when `CrossOver` makes at least
   * one pass, layer sizes small enough for the index bounds its loops use.
   */
  ghost predicate Settings(topology: seq<int>, startPopulation: int, bestAgentSelection: int, numberToCrossOver: int)
  {
    startPopulation >= 1 && bestAgentSelection <= startPopulation &&
    2 * Crossings(numberToCrossOver) <= startPopulation &&
    (forall i :: 0 <= i < |topology| ==> topology[i] >= 0) &&
    (numberToCrossOver > 0 ==>
       (|topology| >= 1 ==> topology[0] <= |topology| + 1) &&
       (forall i :: 1 <= i < |topology| ==> topology[i] <= |topology|))
  }

  /** With crossover, any layer after the first wider than the number of layers breaks `Settings`. */
  lemma NarrowLayersNeeded(topology: seq<int>, startPopulation: int, bestAgentSelection: int,
                           numberToCrossOver: int, i: int)
    requires numberToCrossOver > 0 && 1 <= i < |topology| && topology[i] > |topology|
    ensures !Settings(topology, startPopulation, bestAgentSelection, numberToCrossOver)
  {
  }

  /**
   * Why: in a valid net with such a layer i, the `w2` loop of `CrossOver`
   * over weight layer i - 1 reaches an index past the last weight layer.
   */
  lemma WideLayerOutOfRange(n: NNet, i: int)
    requires n.Valid() && 1 <= i < |n.layers| && n.layers[i] > |n.layers|
    ensures |n.weights[i - 1]| - 2 >= |n.weights| >= 0
  {
    assert |n.weights| == |n.layers| - 1;
  }

  /** The inspector defaults (85 networks, 4 kept, 16 crossed) with the car's topology {3, 3, 2} meet `Settings`. */
  lemma DefaultSettings()
    ensures Settings([3, 3, 2], 85, 4, 16)
  {
  }

  /**
   * Without crossover no loop indexes by a layer size, so wide layers are
   * fine; with it, a layer after the first wider than the number of layers
   * is out of range.
   */
  lemma WideLayers()
    ensures Settings([3, 8, 2], 10, 2, 0)
    ensures !Settings([3, 8, 2], 10, 2, 2)
  {
    assert [3, 8, 2][1] > |[3, 8, 2]|;
  }

  /**
   * From position `base` on, r holds two children per recorded pass, each
   * bred from the two individuals of `pop` whose positions that pass records.
   */
  ghost predicate Children(r: seq<NNet>, base: int, parents: seq<(int, int)>, pop: seq<NNet>)
    reads r`weights, r`biases, pop`weights, pop`biases
    decreases |parents|
  {
    0 <= base && |r| == base + 2 * |parents| &&
    (|parents| > 0 ==>
       var t := |parents| - 1;
       0 <= parents[t].0 < |pop| && 0 <= parents[t].1 < |pop| &&
       Bred(r[base + 2 * t], pop[parents[t].0], pop[parents[t].1]) &&
       Bred(r[base + 2 * t + 1], pop[parents[t].0], pop[parents[t].1]) &&
       Children(r[..base + 2 * t], base, parents[..t], pop))
  }

  /** The two children of pass t of `Children`. */
  lemma {:induction false} ChildrenAt(r: seq<NNet>, base: int, parents: seq<(int, int)>, pop: seq<NNet>, t: int)
    requires Children(r, base, parents, pop) && 0 <= t < |parents|
    ensures 0 <= parents[t].0 < |pop| && 0 <= parents[t].1 < |pop|
    ensures Bred(r[base + 2 * t], pop[parents[t].0], pop[parents[t].1])
    ensures Bred(r[base + 2 * t + 1], pop[parents[t].0], pop[parents[t].1])
    decreases |parents|
  {
    var last := |parents| - 1;
    if t < last {
      var r', ps' := r[..base + 2 * last], parents[..last];
      ChildrenAt(r', base, ps', pop, t);
      assert r'[base + 2 * t] == r[base + 2 * t] && r'[base + 2 * t + 1] == r[base + 2 * t + 1];
    }
  }

  /**
   * The children from position `base` on hold no gene row of their own:
   * every row of theirs belongs to one of the individuals they were bred from.
   */
  lemma ChildrenFootprint(r: seq<NNet>, base: int, parents: seq<(int, int)>, pop: seq<NNet>, lo: int)
    requires Children(r, base, parents, pop) && (base <= lo || base == 0)
    ensures Footprint(r, lo, |r|) <= Footprint(pop, 0, |pop|)
  {
    forall a | a in Footprint(r, lo, |r|) ensures a in Footprint(pop, 0, |pop|) {
      var k :| 0 <= k < |r| && lo <= k && a in r[k].GeneRows();
      var t := (k - base) / 2;
      ChildrenAt(r, base, parents, pop, t);
      var pa, pb := pop[parents[t].0], pop[parents[t].1];
      ChildRows(r[k], pa, pb);
      if a in pa.GeneRows() {
        assert a in Footprint(pop, 0, |pop|) by { assert 0 <= parents[t].0 < |pop|; }
      } else {
        assert a in Footprint(pop, 0, |pop|) by { assert 0 <= parents[t].1 < |pop|; }
      }
    }
  }

  /** Individuals all taken from `pop` hold only rows of `pop`. */
  lemma FootprintSubset(sub: seq<NNet>, pop: seq<NNet>)
    requires forall k :: 0 <= k < |sub| ==> sub[k] in pop
    ensures Footprint(sub, 0, |sub|) <= Footprint(pop, 0, |pop|)
  {
    forall a | a in Footprint(sub, 0, |sub|) ensures a in Footprint(pop, 0, |pop|) {
      var k :| 0 <= k < |sub| && a in sub[k].GeneRows();
      var j :| 0 <= j < |pop| && pop[j] == sub[k];
    }
  }

  /** Without a gene pool, pass t crosses the individuals at 2t and 2t + 1. */
  ghost predicate Paired(parents: seq<(int, int)>) {
    forall t :: 0 <= t < |parents| ==> parents[t] == (2 * t, 2 * t + 1)
  }

  /** With a gene pool, every pass crosses two different individuals named in the pool. */
  ghost predicate FromPool(parents: seq<(int, int)>, pool: seq<int>) {
    forall t :: 0 <= t < |parents| ==> parents[t].0 != parents[t].1 && parents[t].0 in pool && parents[t].1 in pool
  }

  /** The next pass of the loop without a gene pool crosses the next two positions. */
  lemma PairedStep(parents: seq<(int, int)>, a: int, b: int)
    requires Paired(parents) && a == 2 * |parents| && b == a + 1
    ensures Paired(parents + [(a, b)])
  {
  }

  /** A pass that draws two different pool entries keeps `FromPool`. */
  lemma FromPoolStep(parents: seq<(int, int)>, pool: seq<int>, a: int, b: int)
    requires FromPool(parents, pool) && a != b && a in pool && b in pool
    ensures FromPool(parents + [(a, b)], pool)
  {
  }

  /** From position `lo` on, r holds new networks with fitness 0, all of them in `born`. */
  ghost predicate Newborn(r: seq<NNet>, lo: int, born: set<NNet>)
    reads r`fitness
  {
    forall k :: 0 <= lo <= k < |r| ==> r[k] in born && r[k].fitness == 0.0
  }

  /** One crossover pass extends `Children` by its two children. */
  lemma ChildrenStep(r: seq<NNet>, base: int, parents: seq<(int, int)>, pop: seq<NNet>,
                     c1: NNet, c2: NNet, a: int, b: int)
    requires Children(r, base, parents, pop)
    requires 0 <= a < |pop| && 0 <= b < |pop| && Bred(c1, pop[a], pop[b]) && Bred(c2, pop[a], pop[b])
    ensures Children(r + [c1, c2], base, parents + [(a, b)], pop)
  {
    assert (r + [c1, c2])[..|r|] == r;
    assert (parents + [(a, b)])[..|parents|] == parents;
  }

  /** One crossover pass extends `Newborn` by its two children. */
  lemma NewbornStep(r: seq<NNet>, lo: int, born: set<NNet>, c1: NNet, c2: NNet)
    requires Newborn(r, lo, born) && 0 <= lo <= |r| && c1.fitness == 0.0 && c2.fitness == 0.0
    ensures Newborn(r + [c1, c2], lo, born + {c1, c2})
  {
  }

  lemma AgreesTrans(m: map<array<real>, Slot>, s: map<array<real>, Slot>, t: map<array<real>, Slot>)
    requires Agrees(m, s) && Agrees(s, t)
    ensures Agrees(m, t)
  {
  }

  class GeneticManager {
    /** The topology every network is built for (`CarController.layers`). */
    const topology: seq<int>
    const startPopulation: int
    const mutationRate: real
    const bestAgentSelection: int
    const numberToCrossOver: int
    /** The source of every `Random.Range` draw. */
    const rng: Random

    var genePool: seq<int>
    var naturallySelected: int
    var population: seq<NNet>
    var currentGeneration: int
    var currentGenome: int
    /** The network last handed to the car by `ResetToCurrentGenome`. */
    ghost var handedOut: NNet?
    /** The position of every row of every network built so far. */
    ghost var slots: map<array<real>, Slot>

    ghost predicate Config()
    {
      Settings(topology, startPopulation, bestAgentSelection, numberToCrossOver)
    }

    /** A valid network for `topology` whose rows sit at their positions in `slots`. */
    ghost predicate Member(n: NNet)
      reads `slots, n`weights, n`biases
    {
      n.Valid() && n.layers == topology && Agrees(n.slot, slots)
    }

    ghost predicate Members(pop: seq<NNet>)
      reads `slots, pop`weights, pop`biases
    {
      forall k {:trigger Member(pop[k])} :: 0 <= k < |pop| ==> Member(pop[k])
    }

    ghost predicate Valid()
      reads this, population
    {
      Config() && startPopulation <= |population| && 0 <= currentGenome < |population| &&
      handedOut == population[currentGenome] &&
      Members(population) && Distinct(population) && genePool == []
    }

    /** `ResetToCurrentGenome`: hands the current network to the car. */
    method ResetToCurrentGenome()
      requires 0 <= currentGenome < |population|
      modifies `handedOut
      ensures handedOut == population[currentGenome]
    {
      handedOut := population[currentGenome];
    }
  
    /** `Start`: the inspector settings and field initialisers, then `CreatePopulation`. */
    constructor Start(topology: seq<int>, startPopulation: int, mutationRate: real,
                      bestAgentSelection: int, numberToCrossOver: int, rng: Random)
      requires Settings(topology, startPopulation, bestAgentSelection, numberToCrossOver)
      modifies rng`drawn
      ensures this.topology == topology && this.startPopulation == startPopulation
      ensures this.mutationRate == mutationRate && this.bestAgentSelection == bestAgentSelection
      ensures this.numberToCrossOver == numberToCrossOver && this.rng == rng
      ensures Valid()
      ensures |population| == startPopulation && currentGenome == 0 && currentGeneration == 0
      ensures naturallySelected == 0
      ensures forall k :: 0 <= k < |population| ==> fresh(population[k]) && population[k].fitness == 0.0
      ensures forall k :: 0 <= k < |population| ==>
                FreshlyDrawn(population[k])
    {
      this.topology := topology;
      this.startPopulation := startPopulation;
      this.mutationRate := mutationRate;
      this.bestAgentSelection := bestAgentSelection;
      this.numberToCrossOver := numberToCrossOver;
      this.rng := rng;
      genePool := [];
      naturallySelected := 0;
      population := [];
      currentGeneration := 0;
      currentGenome := 0;
      handedOut := null;
      slots := map[];
      new;
      CreatePopulation();
    }

    /** `CreatePopulation`: a population of `startPopulation` random networks, the first one handed out. */
    method CreatePopulation()
      requires Config() && currentGenome == 0 && genePool == []
      modifies `population, `slots, `handedOut, rng`drawn
      ensures Valid()
      ensures |population| == startPopulation
      ensures forall k :: 0 <= k < |population| ==> fresh(population[k]) && population[k].fitness == 0.0
      ensures forall k :: 0 <= k < |population| ==>
                FreshlyDrawn(population[k])
    {
      population := [];
      population := FillPopulationRandom(population, 0);
      ResetToCurrentGenome();
    }

    /**
     * `FillPopulationRandom`: appends a freshly initialised random network
     * for each of startingIndex, startingIndex + 1, ..., startPopulation - 1.
     */
    method FillPopulationRandom(newPop: seq<NNet>, startingIndex: int) returns (r: seq<NNet>)
      requires Config() && Members(newPop) && Distinct(newPop)
      modifies `slots, rng`drawn
      ensures |r| == |newPop| + Max0(startPopulation - startingIndex)
      ensures r[..|newPop|] == newPop
      ensures forall k :: |newPop| <= k < |r| ==> fresh(r[k]) && r[k].fitness == 0.0
      ensures forall k :: |newPop| <= k < |r| ==> FreshlyDrawn(r[k])
      ensures Members(r) && Distinct(r)
      ensures Agrees(old(slots), slots)
    {
      r := newPop;
      var i := startingIndex;
      while i < startPopulation
        invariant startingIndex <= i && (i <= startPopulation || i == startingIndex)
        invariant |r| == |newPop| + (i - startingIndex) && r[..|newPop|] == newPop
        invariant forall k :: |newPop| <= k < |r| ==> fresh(r[k]) && r[k].fitness == 0.0
        invariant forall k :: |newPop| <= k < |r| ==> FreshlyDrawn(r[k])
        invariant Members(r) && Distinct(r)
        invariant Agrees(old(slots), slots)
      {
        ghost var before := slots;
        r := AddRandom(r);
        AgreesTrans(old(slots), before, slots);
        i := i + 1;
      }
    }

    /** One pass of the loop of `FillPopulationRandom`: a new random network at the end. */
    method AddRandom(pop: seq<NNet>) returns (r: seq<NNet>)
      requires Config() && Members(pop) && Distinct(pop)
      modifies `slots, rng`drawn
      ensures |r| == |pop| + 1 && r[..|pop|] == pop
      ensures fresh(r[|pop|]) && r[|pop|].fitness == 0.0
      ensures FreshlyDrawn(r[|pop|])
      ensures Members(r) && Distinct(r)
      ensures Agrees(old(slots), slots)
    {
      var n := NewMember();
      MembersKept(pop);
      r := pop + [n];
      assert r[|pop|] == n;
    }

    /**
     * `SortPopulation`: a stable reordering by descending fitness. The
     * source then prints the best fitness, which needs an individual.
     */
    method SortPopulation()
      requires |population| >= 1
      modifies `population
      ensures population == Individuals(SortDescending(old(Keyed(population)))) && |population| == old(|population|)
      ensures Keyed(population) == SortDescending(old(Keyed(population)))
      ensures NonIncreasing(Keyed(population))
      ensures multiset(Keyed(population)) == multiset(old(Keyed(population)))
      ensures forall key :: WithKey(Keyed(population), key) == WithKey(old(Keyed(population)), key)
      ensures forall k :: 0 <= k < |population| ==> population[k] in old(population)
      ensures Distinct(old(population)) ==> Distinct(population)
    {
      SortedKeyed(population);
      SortDescendingFacts(Keyed(population));
      population := Individuals(SortDescending(Keyed(population)));
    }

    /**
     * `Selection`: keeps the first `bestAgentSelection` individuals, in
     * order, zeroing each one's fitness before reading it back to decide
     * how often its index enters the gene pool. `fits` are the values read.
     */
    method Selection() returns (newPopulation: seq<NNet>, ghost fits: seq<real>)
      requires naturallySelected == 0 && bestAgentSelection <= |population|
      modifies `genePool, `naturallySelected, population`fitness
      ensures newPopulation == population[..Max0(bestAgentSelection)]
      ensures naturallySelected == Max0(bestAgentSelection)
      ensures forall k :: 0 <= k < |newPopulation| ==> newPopulation[k].fitness == 0.0
      ensures forall k :: 0 <= k < |population| && population[k] !in newPopulation ==>
                population[k].fitness == old(population[k].fitness)
      ensures |fits| == |newPopulation| && forall k :: 0 <= k < |fits| ==> fits[k] == 0.0
      ensures genePool == old(genePool) + Pool(fits)
      ensures genePool == old(genePool)
    {
      newPopulation := [];
      fits := [];
      var i := 0;
      while i < bestAgentSelection
        invariant 0 <= i <= Max0(bestAgentSelection)
        invariant naturallySelected == i && newPopulation == population[..i]
        invariant |fits| == i && forall k :: 0 <= k < i ==> fits[k] == 0.0
        invariant genePool == old(genePool) + Pool(fits)
        invariant forall k :: 0 <= k < i ==> population[k].fitness == 0.0
        invariant forall k :: 0 <= k < |population| && population[k] !in newPopulation ==>
                    population[k].fitness == old(population[k].fitness)
      {
        newPopulation := newPopulation + [population[i]];
        newPopulation[naturallySelected].fitness := 0.0;
        naturallySelected := naturallySelected + 1;
        var f := Entries(population[i].fitness);
        AddCopies(i, f);
        fits := fits + [population[i].fitness];
        assert fits[..i] == fits[..|fits| - 1];
        assert population[..i + 1] == population[..i] + [population[i]];
        i := i + 1;
      }
      PoolOfZeros(fits);
    }

    /** The inner loop of `Selection`: f copies of index i at the end of the gene pool. */
    method AddCopies(i: int, f: int)
      modifies `genePool
      ensures genePool == old(genePool) + Repeat(i, f)
    {
      var c := 0;
      while c < f
        invariant 0 <= c <= Max0(f)
        invariant genePool == old(genePool) + Repeat(i, c)
      {
        genePool := genePool + [i];
        c := c + 1;
      }
    }

    /** Individuals taken from a population of members are members. */
    lemma MembersSubset(pop: seq<NNet>, sub: seq<NNet>)
      requires Members(pop)
      requires forall k :: 0 <= k < |sub| ==> sub[k] in pop
      ensures Members(sub)
    {
      forall k | 0 <= k < |sub| ensures Member(sub[k]) {
        var j :| 0 <= j < |pop| && pop[j] == sub[k];
      }
    }

    /** Members stay members while their fields are kept and `slots` only grows. */
    twostate lemma MembersKept(pop: seq<NNet>)
      requires old(Members(pop)) && Agrees(old(slots), slots)
      requires forall k :: 0 <= k < |pop| ==>
                 pop[k].biases == old(pop[k].biases) && pop[k].weights == old(pop[k].weights)
      ensures Members(pop)
    {
      forall k | 0 <= k < |pop| ensures Member(pop[k]) {
        assert old(Member(pop[k]));
        AgreesTrans(pop[k].slot, old(slots), slots);
      }
    }

    /**
     * `CrossOver`: for i = 0, 2, 4, ... below `numberToCrossOver`, two
     * children of the individuals at i and i + 1 are appended to `newPop`;
     * when the gene pool is not empty, the parents are instead two different
     * pool entries. `parents` records the two positions of each pass.
     */
    method CrossOver(newPop: seq<NNet>) returns (r: seq<NNet>, ghost parents: seq<(int, int)>)
      requires Config() && Members(population) && Members(newPop) && Distinct(newPop)
      requires genePool == [] ==> 2 * Crossings(numberToCrossOver) <= |population|
      requires forall k :: 0 <= k < |genePool| ==> 0 <= genePool[k] < |population|
      requires |genePool| >= 1 ==> Fair(genePool, rng.ints)
      modifies `naturallySelected, `slots, rng`drawn
      ensures |parents| == Crossings(numberToCrossOver)
      ensures Children(r, |newPop|, parents, population) && r[..|newPop|] == newPop
      ensures naturallySelected == old(naturallySelected) + 2 * |parents|
      ensures genePool == [] ==> Paired(parents)
      ensures genePool != [] ==> FromPool(parents, genePool)
      ensures forall k :: |newPop| <= k < |r| ==> fresh(r[k]) && r[k].fitness == 0.0
      ensures Members(r) && Distinct(r) && Members(population)
      ensures Agrees(old(slots), slots)
    {
      r := newPop;
      parents := [];
      ghost var born: set<NNet> := {};
      var i := 0;
      while i < numberToCrossOver
        invariant i == 2 * |parents| && |parents| <= Crossings(numberToCrossOver)
        invariant Children(r, |newPop|, parents, population) && r[..|newPop|] == newPop
        invariant naturallySelected == old(naturallySelected) + 2 * |parents|
        invariant genePool == [] ==> Paired(parents)
        invariant genePool != [] ==> FromPool(parents, genePool)
        invariant fresh(born) && Newborn(r, |newPop|, born)
        invariant Members(r) && Distinct(r) && Members(population)
        invariant Agrees(old(slots), slots)
        decreases numberToCrossOver - i
      {
        r, parents, born := Pass(i, r, |newPop|, parents, born, old(slots));
        i := i + 2;
      }
    }

    /**
     * The start of crossover pass i: the individuals at i and i + 1, or,
     * when the gene pool is not empty, two different pool entries.
     */
    method ChooseParents(i: int, ghost parents: seq<(int, int)>) returns (a: int, b: int)
      requires i == 2 * |parents|
      requires genePool == [] ==> Paired(parents) && i + 1 < |population|
      requires genePool != [] ==> FromPool(parents, genePool) && Fair(genePool, rng.ints)
      requires forall k :: 0 <= k < |genePool| ==> 0 <= genePool[k] < |population|
      modifies rng`drawn
      ensures 0 <= a < |population| && 0 <= b < |population|
      ensures genePool == [] ==> Paired(parents + [(a, b)])
      ensures genePool != [] ==> FromPool(parents + [(a, b)], genePool)
      ensures genePool == [] ==> a == i && b == i + 1
    {
      a, b := i, i + 1;
      if |genePool| >= 1 {
        a, b := DrawParents(genePool, rng);
        FromPoolStep(parents, genePool, a, b);
      } else {
        PairedStep(parents, a, b);
      }
    }

    /**
     * `Death`: the car's network finished with `fitness`. Before the last
     * network the score is stored and the next network handed out; after
     * the last one the next generation is bred instead, ranked by the
     * scores stored so far, so this last score is never recorded. The
     * network the car passes is not consulted. `sorted` is the ranking.
     */
    method Death(fitness: real, network: NNet) returns (ghost sorted: seq<NNet>)
      requires Valid()
      modifies this, population`fitness, Footprint(population, 0, |population|), rng`drawn
      ensures Valid()
      ensures old(currentGenome) < old(|population|) - 1 ==>
                population == old(population) && currentGenome == old(currentGenome) + 1 &&
                currentGeneration == old(currentGeneration) && population[old(currentGenome)].fitness == fitness &&
                forall k :: 0 <= k < |population| && k != old(currentGenome) ==> population[k].fitness == old(population[k].fitness)
      ensures old(currentGenome) < old(|population|) - 1 ==>
                naturallySelected == old(naturallySelected) && rng.drawn == old(rng.drawn) && slots == old(slots) &&
                forall a :: a in old(Footprint(population, 0, |population|)) ==> a[..] == old(a[..])
      ensures old(currentGenome) >= old(|population|) - 1 ==>
                currentGeneration == old(currentGeneration) + 1 && currentGenome == 0 &&
                sorted == Individuals(SortDescending(old(Keyed(population)))) && |sorted| == old(|population|) &&
                population[..Max0(bestAgentSelection)] == sorted[..Max0(bestAgentSelection)]
      ensures old(currentGenome) >= old(|population|) - 1 ==>
                0 <= naturallySelected <= |population| &&
                forall a, k :: a in old(Footprint(population, 0, |population|)) && 0 <= k < a.Length ==>
                  Drift(old(a[k]), a[k], mutationRate, 0.1,
                        Holders(population[..naturallySelected], a, bestAgentSelection + 1, naturallySelected))
    {
      if currentGenome < |population| - 1 {
        population[currentGenome].fitness := fitness;
        currentGenome := currentGenome + 1;
        ResetToCurrentGenome();
        sorted := population;
      } else {
        ghost var parents;
        sorted, parents := RePopulation();
      }
    }

    /**
     * `RePopulation`: the next generation. The gene pool is cleared, the
     * population sorted by descending fitness, the first
     * `bestAgentSelection` kept (fitness zeroed), two children per
     * crossover pass appended, the networks after position
     * `bestAgentSelection` mutated, and fresh random networks appended up
     * to `startPopulation`; the first network is then handed to the car.
     * `sorted` is the population after sorting; `parents` the positions in
     * it crossed by each pass.
     */
    method RePopulation() returns (ghost sorted: seq<NNet>, ghost parents: seq<(int, int)>)
      requires Valid()
      modifies this, population`fitness, Footprint(population, 0, |population|), rng`drawn
      ensures Valid()
      ensures currentGeneration == old(currentGeneration) + 1 && currentGenome == 0
      ensures sorted == Individuals(SortDescending(old(Keyed(population)))) && |sorted| == old(|population|)
      ensures |parents| == Crossings(numberToCrossOver) && Paired(parents)
      ensures naturallySelected == Max0(bestAgentSelection) + 2 * |parents|
      ensures |population| == naturallySelected + Max0(startPopulation - naturallySelected)
      ensures population[..Max0(bestAgentSelection)] == sorted[..Max0(bestAgentSelection)]
      ensures Children(population[..naturallySelected], Max0(bestAgentSelection), parents, sorted)
      ensures forall k :: 0 <= k < |population| ==> population[k].fitness == 0.0
      ensures forall k :: Max0(bestAgentSelection) <= k < |population| ==> fresh(population[k])
      ensures forall k :: naturallySelected <= k < |population| ==>
                FreshlyDrawn(population[k])
      ensures forall a, k :: a in old(Footprint(population, 0, |population|)) && 0 <= k < a.Length ==>
                Drift(old(a[k]), a[k], mutationRate, 0.1,
                      Holders(population[..naturallySelected], a, bestAgentSelection + 1, naturallySelected))
    {
      ghost var rows := Footprint(population, 0, |population|);
      var r;
      r, sorted, parents := Generate();
      label generated:
      Install(r, Max0(bestAgentSelection), parents, sorted);
      forall a, k | a in rows && 0 <= k < a.Length
        ensures Drift(old(a[k]), a[k], mutationRate, 0.1, Holders(r, a, bestAgentSelection + 1, |r|))
      {
        assert a[k] == old@generated(a[k]);
      }
      forall k | Max0(bestAgentSelection) <= k < |population| ensures fresh(population[k]) {
        if k < |r| {
          assert population[k] == r[k];
        }
      }
    }

    /**
     * The body of `RePopulation` up to `FillPopulationRandom`: the population
     * sorted, the best kept, the children crossed over and mutated.
     */
    method Generate() returns (r: seq<NNet>, ghost sorted: seq<NNet>, ghost parents: seq<(int, int)>)
      requires Valid()
      modifies `population, `genePool, `naturallySelected, `currentGeneration, population`fitness
      modifies `slots, rng`drawn, Footprint(population, 0, |population|)
      ensures currentGeneration == old(currentGeneration) + 1
      ensures sorted == Individuals(SortDescending(old(Keyed(population)))) && |sorted| == old(|population|)
      ensures |parents| == Crossings(numberToCrossOver) && Paired(parents)
      ensures Config() && Members(r) && Distinct(r) && genePool == [] && naturallySelected == |r|
      ensures Children(r, Max0(bestAgentSelection), parents, sorted)
      ensures r[..Max0(bestAgentSelection)] == sorted[..Max0(bestAgentSelection)]
      ensures forall k :: 0 <= k < |r| ==> r[k].fitness == 0.0
      ensures forall k :: Max0(bestAgentSelection) <= k < |r| ==> fresh(r[k])
      ensures forall a, k :: a in old(Footprint(population, 0, |population|)) && 0 <= k < a.Length ==>
                Drift(old(a[k]), a[k], mutationRate, 0.1, Holders(r, a, bestAgentSelection + 1, |r|))
    {
      ghost var rows := Footprint(population, 0, |population|);
      var newPop;
      newPop, sorted := SortAndSelect();
      label sorted:
      r, parents := Offspring(newPop);
      forall a, k | a in rows && 0 <= k < a.Length
        ensures Drift(old(a[k]), a[k], mutationRate, 0.1, Holders(r, a, bestAgentSelection + 1, |r|))
      {
        assert old@sorted(a[k]) == old(a[k]);
      }
    }

    /**
     * The end of `RePopulation`: `FillPopulationRandom` from
     * `naturallySelected` on, the result installed as the population and
     * its first network handed out.
     */
    method Install(r: seq<NNet>, ghost base: int, ghost parents: seq<(int, int)>, ghost sorted: seq<NNet>)
      requires Config() && Members(r) && Distinct(r) && genePool == [] && naturallySelected == |r|
      requires Children(r, base, parents, sorted)
      requires forall k :: 0 <= k < |r| ==> r[k].fitness == 0.0
      modifies `population, `currentGenome, `handedOut, `slots, rng`drawn
      ensures Valid() && currentGenome == 0
      ensures |population| == |r| + Max0(startPopulation - |r|) && population[..naturallySelected] == r
      ensures Children(population[..naturallySelected], base, parents, sorted)
      ensures forall k :: 0 <= k < |population| ==> population[k].fitness == 0.0
      ensures forall k :: |r| <= k < |population| ==> fresh(population[k])
      ensures forall k :: |r| <= k < |population| ==>
                FreshlyDrawn(population[k])
    {
      var next := FillPopulationRandom(r, naturallySelected);
      population := next;
      currentGenome := 0;
      ResetToCurrentGenome();
      forall k | 0 <= k < |r| ensures next[k].fitness == 0.0 {
        assert next[k] == r[k];
      }
    }

    /**
     * The first half of `RePopulation`: the gene pool cleared, the
     * generation counted, `SortPopulation`, then `Selection`, whose gene
     * pool stays empty because it reads back zeroed fitness.
     */
    method SortAndSelect() returns (newPop: seq<NNet>, ghost sorted: seq<NNet>)
      requires Config() && Members(population) && Distinct(population) && startPopulation <= |population|
      modifies `population, `genePool, `naturallySelected, `currentGeneration, population`fitness
      ensures currentGeneration == old(currentGeneration) + 1
      ensures sorted == Individuals(SortDescending(old(Keyed(population)))) && population == sorted
      ensures |population| == old(|population|) && Distinct(population)
      ensures newPop == population[..Max0(bestAgentSelection)] && Distinct(newPop)
      ensures naturallySelected == Max0(bestAgentSelection) && genePool == []
      ensures forall k :: 0 <= k < |newPop| ==> newPop[k].fitness == 0.0
      ensures Members(population) && Members(newPop)
      ensures Footprint(population, 0, |population|) <= old(Footprint(population, 0, |population|))
    {
      sorted := Rank();
      ghost var kept := Footprint(sorted, 0, |sorted|);
      ghost var fits;
      newPop, fits := Selection();
      MembersSubset(sorted, newPop);
      assert Footprint(sorted, 0, |sorted|) == kept;
    }

    /** `NewGeneration`, then `SortPopulation`: the same members, reordered by descending fitness. */
    method Rank() returns (ghost sorted: seq<NNet>)
      requires Config() && Members(population) && Distinct(population) && startPopulation <= |population|
      modifies `population, `genePool, `naturallySelected, `currentGeneration
      ensures genePool == [] && currentGeneration == old(currentGeneration) + 1 && naturallySelected == 0
      ensures sorted == Individuals(SortDescending(old(Keyed(population)))) && population == sorted
      ensures |population| == old(|population|) && Distinct(population) && Members(population)
      ensures forall k :: 0 <= k < |population| ==> population[k] in old(population)
      ensures Footprint(population, 0, |population|) <= old(Footprint(population, 0, |population|))
    {
      ghost var pop0, rows := population, Footprint(population, 0, |population|);
      NewGeneration();
      SortPopulation();
      sorted := population;
      MembersSubset(pop0, sorted);
      FootprintSubset(sorted, pop0);
      assert Footprint(pop0, 0, |pop0|) == rows;
    }

    /** The start of `RePopulation`: an empty gene pool, the next generation, nothing selected yet. */
    method NewGeneration()
      modifies `genePool, `currentGeneration, `naturallySelected
      ensures genePool == [] && currentGeneration == old(currentGeneration) + 1 && naturallySelected == 0
    {
      genePool := [];
      currentGeneration := currentGeneration + 1;
      naturallySelected := 0;
    }

    /**
     * The middle of `RePopulation`: `CrossOver` on an empty gene pool, then
     * `Mutate`, which only touches rows the population already holds.
     */
    method Offspring(newPop: seq<NNet>) returns (r: seq<NNet>, ghost parents: seq<(int, int)>)
      requires Config() && Members(population) && Members(newPop) && Distinct(newPop)
      requires genePool == [] && 2 * Crossings(numberToCrossOver) <= |population|
      requires naturallySelected == |newPop| == Max0(bestAgentSelection)
      requires forall k :: 0 <= k < |newPop| ==> newPop[k].fitness == 0.0
      modifies `naturallySelected, `slots, rng`drawn, Footprint(population, 0, |population|)
      ensures |parents| == Crossings(numberToCrossOver) && Paired(parents)
      ensures Children(r, |newPop|, parents, population) && r[..|newPop|] == newPop
      ensures naturallySelected == |r|
      ensures forall k :: |newPop| <= k < |r| ==> fresh(r[k])
      ensures forall k :: 0 <= k < |r| ==> r[k].fitness == 0.0
      ensures Members(r) && Distinct(r) && Members(population)
      ensures forall a, k :: a in old(Footprint(population, 0, |population|)) && 0 <= k < a.Length ==>
                Drift(old(a[k]), a[k], mutationRate, 0.1, Holders(r, a, bestAgentSelection + 1, |r|))
    {
      ghost var rows := Footprint(population, 0, |population|);
      r, parents := CrossOver(newPop);
      label crossed:
      ghost var mutated := MutateOffspring(r, |newPop|, parents);
      forall a, k | a in rows && 0 <= k < a.Length
        ensures Drift(old(a[k]), a[k], mutationRate, 0.1, Holders(r, a, bestAgentSelection + 1, |r|))
      {
        assert old@crossed(a[k]) == old(a[k]);
      }
      forall k | 0 <= k < |newPop| ensures r[k].fitness == 0.0 {
        assert r[k] == newPop[k];
      }
    }

    /**
     * `Mutate` on crossed-over networks: the rows it touches are the
     * population's, the crossing stays, and every row of the population
     * drifts by the nudges of the networks of r that hold it.
     */
    method MutateOffspring(r: seq<NNet>, ghost base: int, ghost parents: seq<(int, int)>) returns (ghost mutated: seq<int>)
      requires Members(r) && 0 <= naturallySelected <= |r| && Members(population)
      requires Children(r, base, parents, population) && (base <= bestAgentSelection + 1 || base == 0)
      modifies Footprint(population, 0, |population|), rng`drawn
      ensures Children(r, base, parents, population) && Members(r) && Members(population)
      ensures mutated == MutatedIndices(bestAgentSelection, naturallySelected)
      ensures forall a, k :: a in old(Footprint(population, 0, |population|)) && 0 <= k < a.Length ==>
                Drift(old(a[k]), a[k], mutationRate, 0.1, Holders(r, a, bestAgentSelection + 1, naturallySelected))
    {
      ChildrenFootprint(r, base, parents, population, bestAgentSelection + 1);
      ghost var held, touched := Footprint(r, 0, |r|), Footprint(r, bestAgentSelection + 1, naturallySelected);
      mutated := Mutate(r);
      forall a, k | a in old(Footprint(population, 0, |population|)) && 0 <= k < a.Length && a !in held
        ensures a[k] == old(a[k])
      {
        assert a !in touched;
      }
    }

    /**
     * `Mutate`: each of the first `naturallySelected` networks whose position
     * is above `bestAgentSelection` is mutated with `mutationRate` and step
     * 0.1. Children share their rows with their parents and with each other,
     * so a gene moves by at most 0.1 for every mutated network holding its row.
     */
    method Mutate(newPop: seq<NNet>) returns (ghost mutated: seq<int>)
      requires Members(newPop) && 0 <= naturallySelected <= |newPop|
      modifies Footprint(newPop, bestAgentSelection + 1, naturallySelected), rng`drawn
      ensures mutated == MutatedIndices(bestAgentSelection, naturallySelected)
      ensures forall a, k :: a in Footprint(newPop, 0, |newPop|) && 0 <= k < a.Length ==>
                Drift(old(a[k]), a[k], mutationRate, 0.1, Holders(newPop, a, bestAgentSelection + 1, naturallySelected))
    {
      ghost var rows := Footprint(newPop, 0, |newPop|);
      ghost var genes := map a | a in rows :: a[..];
      assert forall a, k :: a in rows && 0 <= k < a.Length ==> a in genes && genes[a][k] == old(a[k]);
      mutated := [];
      for i := 0 to naturallySelected
        invariant mutated == MutatedIndices(bestAgentSelection, i)
        invariant Drifted(rows, genes, newPop, bestAgentSelection + 1, i, mutationRate)
      {
        mutated := MutateAt(newPop, i, rows, genes, mutated);
      }
      forall a, k | a in rows && 0 <= k < a.Length
        ensures Drift(old(a[k]), a[k], mutationRate, 0.1, Holders(newPop, a, bestAgentSelection + 1, naturallySelected))
      {
      }
    }

    /**
     * Pass i of the loop of `Mutate`: only a position above
     * `bestAgentSelection` is mutated, and then recorded in `done`.
     */
    method MutateAt(newPop: seq<NNet>, i: int, ghost rows: set<array<real>>, ghost genes: map<array<real>, seq<real>>,
                    ghost done: seq<int>) returns (ghost done': seq<int>)
      requires Members(newPop) && 0 <= i < naturallySelected <= |newPop|
      requires done == MutatedIndices(bestAgentSelection, i)
      requires Drifted(rows, genes, newPop, bestAgentSelection + 1, i, mutationRate)
      modifies Footprint(newPop, bestAgentSelection + 1, naturallySelected), rng`drawn
      ensures done' == MutatedIndices(bestAgentSelection, i + 1)
      ensures Drifted(rows, genes, newPop, bestAgentSelection + 1, i + 1, mutationRate)
    {
      done' := done;
      if i > bestAgentSelection {
        assert newPop[i].GeneRows() <= Footprint(newPop, bestAgentSelection + 1, naturallySelected);
        MutateNet(newPop, i, rows, genes);
        done' := done + [i];
      } else {
        forall a, k | a in rows && a in genes && 0 <= k < a.Length && k < |genes[a]|
          ensures Drift(genes[a][k], a[k], mutationRate, 0.1, Holders(newPop, a, bestAgentSelection + 1, i + 1))
        {
          assert Holders(newPop, a, bestAgentSelection + 1, i + 1) == Holders(newPop, a, bestAgentSelection + 1, i);
        }
      }
    }

    /** The mutation of network i, accounted to every row it holds. */
    method MutateNet(newPop: seq<NNet>, i: int, ghost rows: set<array<real>>, ghost genes: map<array<real>, seq<real>>)
      requires Members(newPop) && 0 <= i < |newPop| && bestAgentSelection < i
      requires Drifted(rows, genes, newPop, bestAgentSelection + 1, i, mutationRate)
      modifies newPop[i].GeneRows(), rng`drawn
      ensures Drifted(rows, genes, newPop, bestAgentSelection + 1, i + 1, mutationRate)
    {
      var n := newPop[i];
      assert Member(n);
      n.Mutate(mutationRate, 0.1, rng);
      forall a, k | a in rows && a in genes && 0 <= k < a.Length && k < |genes[a]|
        ensures Drift(genes[a][k], a[k], mutationRate, 0.1, Holders(newPop, a, bestAgentSelection + 1, i + 1))
      {
        var h := Holders(newPop, a, bestAgentSelection + 1, i);
        if a in n.GeneRows() {
          assert Holders(newPop, a, bestAgentSelection + 1, i + 1) == h + 1;
          DriftStep(genes[a][k], old(a[k]), a[k], mutationRate, 0.1, h);
        } else {
          assert Holders(newPop, a, bestAgentSelection + 1, i + 1) == h;
          assert a[k] == old(a[k]);
        }
      }
    }

    /** Crossover pass i, as the loop of `CrossOver` sees it. */
    method Pass(i: int, pop: seq<NNet>, base: int, ghost parents: seq<(int, int)>, ghost born: set<NNet>,
                ghost s0: map<array<real>, Slot>)
      returns (r: seq<NNet>, ghost ps: seq<(int, int)>, ghost born': set<NNet>)
      requires i == 2 * |parents| && i < numberToCrossOver
      requires genePool == [] ==> Paired(parents) && i + 1 < |population|
      requires genePool != [] ==> FromPool(parents, genePool) && Fair(genePool, rng.ints)
      requires forall k :: 0 <= k < |genePool| ==> 0 <= genePool[k] < |population|
      requires Config() && Members(population) && Members(pop) && Distinct(pop)
      requires Children(pop, base, parents, population) && Newborn(pop, base, born)
      requires Agrees(s0, slots)
      modifies `naturallySelected, `slots, rng`drawn
      ensures naturallySelected == old(naturallySelected) + 2
      ensures |ps| == |parents| + 1
      ensures genePool == [] ==> Paired(ps)
      ensures genePool != [] ==> FromPool(ps, genePool)
      ensures Children(r, base, ps, population) && r[..base] == pop[..base]
      ensures fresh(born' - born) && Newborn(r, base, born')
      ensures Members(r) && Distinct(r) && Members(population)
      ensures Agrees(s0, slots)
    {
      var a, b := ChooseParents(i, parents);
      r, ps, born' := Extend(pop, base, parents, born, s0, a, b);
    }

    /** The end of one crossover pass: its children appended and accounted for. */
    method Extend(pop: seq<NNet>, base: int, ghost parents: seq<(int, int)>, ghost born: set<NNet>,
                  ghost s0: map<array<real>, Slot>, a: int, b: int)
      returns (r: seq<NNet>, ghost ps: seq<(int, int)>, ghost born': set<NNet>)
      requires Config() && numberToCrossOver > 0 && Members(population) && Members(pop) && Distinct(pop)
      requires Children(pop, base, parents, population) && Newborn(pop, base, born)
      requires Agrees(s0, slots)
      requires 0 <= a < |population| && 0 <= b < |population|
      modifies `naturallySelected, `slots, rng`drawn
      ensures naturallySelected == old(naturallySelected) + 2
      ensures ps == parents + [(a, b)]
      ensures Children(r, base, ps, population) && r[..base] == pop[..base]
      ensures fresh(born' - born) && Newborn(r, base, born')
      ensures Members(r) && Distinct(r) && Members(population)
      ensures Agrees(s0, slots)
    {
      naturallySelected := naturallySelected + 2;
      ghost var mid := slots;
      r, ps := AddChildren(pop, parents, a, b);
      ChildrenStep(pop, base, parents, population, r[|pop|], r[|pop| + 1], a, b);
      NewbornStep(pop, base, born, r[|pop|], r[|pop| + 1]);
      born' := born + {r[|pop|], r[|pop| + 1]};
      AgreesTrans(s0, mid, slots);
      assert r[..base] == pop[..base];
    }

    /** The end of one crossover pass: the two children of a and b appended, `(a, b)` recorded. */
    method AddChildren(pop: seq<NNet>, ghost parents: seq<(int, int)>, a: int, b: int)
      returns (r: seq<NNet>, ghost ps: seq<(int, int)>)
      requires Config() && numberToCrossOver > 0 && Members(population) && Members(pop) && Distinct(pop)
      requires 0 <= a < |population| && 0 <= b < |population|
      modifies `slots, rng`drawn
      ensures |r| == |pop| + 2 && r == pop + [r[|pop|], r[|pop| + 1]] && ps == parents + [(a, b)]
      ensures Bred(r[|pop|], population[a], population[b]) && Bred(r[|pop| + 1], population[a], population[b])
      ensures fresh(r[|pop|]) && fresh(r[|pop| + 1])
      ensures r[|pop|].fitness == 0.0 && r[|pop| + 1].fitness == 0.0
      ensures Members(r) && Distinct(r) && Members(population)
      ensures Agrees(old(slots), slots)
    {
      var c1, c2 := Breed(population[a], population[b]);
      MembersKept(pop);
      MembersKept(population);
      assert c1 !in pop && c2 !in pop;
      r := pop + [c1, c2];
      DistinctAppend(pop, c1, c2);
      MembersAppend(pop, c1, c2);
      ps := parents + [(a, b)];
    }

    /** Two members appended to members. */
    lemma MembersAppend(pop: seq<NNet>, c1: NNet, c2: NNet)
      requires Members(pop) && Member(c1) && Member(c2)
      ensures Members(pop + [c1, c2])
    {
    }

    /**
     * One pass of the crossover loop after the parents are chosen: two new
     * random networks with fitness 0, whose weight layers and bias rows are
     * then taken, container by container, from parent A or parent B.
     */
    method Breed(pa: NNet, pb: NNet) returns (c1: NNet, c2: NNet)
      requires Config() && numberToCrossOver > 0 && Member(pa) && Member(pb)
      modifies `slots, rng`drawn
      ensures fresh(c1) && fresh(c2) && c1 != c2
      ensures c1.fitness == 0.0 && c2.fitness == 0.0
      ensures Bred(c1, pa, pb) && Bred(c2, pa, pb)
      ensures Member(c1) && Member(c2)
      ensures Agrees(old(slots), slots)
    {
      c1, c2 := NewPair();
      CrossReady(c1, c2, pa, pb, topology, old(slots));
      CrossGenes(c1, c2, pa, pb, rng);
    }

    /** The two children of a crossover pass, before crossing: new random networks for `topology`. */
    method NewPair() returns (c1: NNet, c2: NNet)
      requires Config()
      modifies `slots, rng`drawn
      ensures fresh(c1) && fresh(c2) && c1 != c2
      ensures c1.fitness == 0.0 && c2.fitness == 0.0
      ensures Member(c1) && Member(c2)
      ensures Agrees(old(slots), c1.slot) && Agrees(old(slots), c2.slot) && Agrees(old(slots), slots)
    {
      c1 := NewMember();
      ghost var mid := slots;
      c2 := NewMember();
      AgreesTrans(c1.slot, mid, slots);
      AgreesTrans(old(slots), mid, slots);
    }

    /** `new NNet()` followed by `Initialise(CarController.layers)`, its rows recorded in `slots`. */
    method NewMember() returns (n: NNet)
      requires Config()
      modifies `slots, rng`drawn
      ensures fresh(n) && n.fitness == 0.0
      ensures FreshlyDrawn(n)
      ensures Member(n) && n.slot == slots
      ensures Agrees(old(slots), slots)
    {
      n := new NNet.Initialise(topology, rng, slots);
      slots := n.slot;
    }
  }
}
