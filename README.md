# DriveCarCode: the genetic algorithm and its networks

A Dafny model of the learning core of DriveCarCode, a Unity project in which a
car learns to drive. The car is steered by a small feedforward network
(`NNet`). A `GeneticManager` evaluates one network per run, and once every
network of the population has run it breeds the next generation.

Breeding works in these steps:
- sort the population by descending fitness;
- keep the best `bestAgentSelection` networks;
- add two children for each crossover pass;
- mutate the networks after position `bestAgentSelection`;
- fill the population up with fresh random networks.

The model keeps the source's imperative form.

- `NNet` is a class. Its rows of neuron values, biases and weights are
  `array<real>` and are updated in place. The containers that hold those rows
  are sequences, which crossover reassigns entry by entry.
- `GeneticManager` is a class with the same fields as the source. Its methods
  carry the source's loops, with invariants.
- Sorting, the gene pool and the forward pass have pure reference
  definitions: `SortDescending`, `Pool` and `Layer`. The methods are proved
  against them.
- `Random.Range` is an injected oracle, `Oracle.Random`. It replays arbitrary
  raw streams clamped into the requested range, so every in-range sequence of
  draws is covered.

Modules:
- `Oracle`: the random source.
- `Numerics`: rounding, the sigmoid and the forward-pass specification.
- `Ranking`: a stable descending sort, with uniqueness of the stable order.
- `GenePool`: the pool `Selection` builds.
- `Network`: `NNet`.
- `Genetic`: crossover structure, the mutation drift and `GeneticManager`.

## Behaviour as written

The model follows the code. The following consequences are proved and stated
in the contracts.

- **`Death` drops the last score.** It stores `fitness` only when the current
  network is not the last one. For the last network it breeds straight away,
  ranking by the scores stored so far. `Death` never reads its `network`
  argument.
- **The gene pool stays empty.** `Selection` zeroes each kept network's
  fitness before reading it back for `Mathf.RoundToInt(fitness * 10)`, so the
  pool stays empty (`Selection`, `GenePool.PoolOfZeros`).
  - The pool-based parent choice in `CrossOver` is therefore never taken by
    `RePopulation`.
  - `RePopulation` always crosses the networks at positions 2t and 2t + 1
    (`Paired`).
  - `CrossOver` is still modelled and proved for a non-empty pool.
- **Crossover shares rows.** `CrossOver` copies whole layer references
  (`Child.weights[w] = parent.weights[w]`). Its nested loops index the list of
  layers with bounds taken from row lengths (`weights[w2]`, `weights[w3]`,
  `biases[b2]`).
  - A child's gene rows are therefore its parents' own arrays
    (`Genetic.ChildRows`).
  - Mutating a child also mutates its parents, including kept elites, and
    its siblings. `Genetic.GeneticManager.Mutate` states the drift per row:
    at most 0.1 for every mutated network that holds the row.
  - The inner loops stay in range only when layer sizes are bounded. For
    every layer after the first the size must be at most the number of
    layers; the first layer may be one larger. This is part of `Settings`,
    and applies only when `numberToCrossOver` is positive, since otherwise
    the loops never run (`Genetic.WideLayers`).
- **Position `bestAgentSelection` is never passed to `NNet.Mutate`.**
  `Mutate` tests `i > bestAgentSelection`, so the network at that position
  (the first child) is skipped. The positions it
  does mutate are recorded (`Genetic.GeneticManager.Mutate`) and are exactly
  those after `bestAgentSelection` (`Genetic.MutatedExactly`). The skipped
  child's genes can still move, because its rows are shared with its
  parents and with its mutated sibling.
- **`Settings` are the source's own range conditions.** The parameters must
  avoid every out-of-range index: at least one network, and enough networks
  for the elites and the crossover parents. The inspector defaults and the
  car's topology {3, 3, 2} satisfy them (`Genetic.DefaultSettings`).

## Model

| member | source | states |
|---|---|---|
| Oracle.Random.Range | DriveCarCode/NNet.cs:59 | a float draw lies in the closed range between the bounds and consumes one draw |
| Oracle.Random.RangeInt | DriveCarCode/GeneticManager.cs:108-109 | an int draw lies in [lo, hi) with hi exclusive and consumes one draw |
| Oracle.Clamp | DriveCarCode/NNet.cs:59 | the result lies between the bounds, and an in-range raw value is returned unchanged |
| Oracle.ClampIndex | DriveCarCode/GeneticManager.cs:108 | the result lies in [lo, hi), and an in-range raw value is returned unchanged |
| Numerics.RoundToInt | DriveCarCode/GeneticManager.cs:195 | the result is within 0.5 of x, and an exact tie goes to the even integer |
| Numerics.Sigmoid | DriveCarCode/NNet.cs:146-149 | for a positive exponential the result lies strictly between 0 and 1 |
| Numerics.Layer | DriveCarCode/NNet.cs:100-112 | layer i of a forward pass has one value per neuron of layer i; layer 0 is the input |
| Numerics.Dot | DriveCarCode/NNet.cs:106-110 | the weighted sum of the first n inputs; it is 0 when those inputs or those weights are all 0 |
| Numerics.InputBiasesUnused | DriveCarCode/NNet.cs:100-112 | the input layer's bias row does not affect any layer of a forward pass |
| Numerics.LayerStep | DriveCarCode/NNet.cs:103-111 | a row computed neuron by neuron from layer i - 1 is layer i |
| GenePool.Repeat | DriveCarCode/GeneticManager.cs:197-200 | n copies of i, and none when n is not positive |
| GenePool.Entries | DriveCarCode/GeneticManager.cs:195 | the number of pool entries for fitness f is 10 f rounded to the nearest integer |
| GenePool.RepeatCount | DriveCarCode/GeneticManager.cs:197-200 | the copies hold i exactly max(0, n) times and nothing else |
| GenePool.Pool | DriveCarCode/GeneticManager.cs:184-200 | only the selected indices 0 .. |fits| - 1 ever enter the gene pool |
| GenePool.PoolCount | DriveCarCode/GeneticManager.cs:184-200 | index i occurs exactly max(0, RoundToInt(10 * fitness of i)) times in the pool |
| GenePool.PoolOfZeros | DriveCarCode/GeneticManager.cs:187-200 | when every fitness read back is 0 the pool is empty |
| Ranking.Insert | DriveCarCode/GeneticManager.cs:208 | insertion adds exactly one entry |
| Ranking.SortDescending | DriveCarCode/GeneticManager.cs:208 | the sort keeps the number of entries |
| Ranking.InsertHead | DriveCarCode/GeneticManager.cs:208 | after insertion the first entry is the inserted one or the old head |
| Ranking.InsertSorted | DriveCarCode/GeneticManager.cs:208 | inserting into a non-increasing sequence keeps it non-increasing |
| Ranking.InsertMultiset | DriveCarCode/GeneticManager.cs:208 | insertion adds the entry and loses none |
| Ranking.InsertWithKey | DriveCarCode/GeneticManager.cs:208 | insertion keeps the order of entries with equal fitness (stability) |
| Ranking.SortDescendingFacts | DriveCarCode/GeneticManager.cs:208 | the sort is non-increasing, a permutation, and keeps equal keys in order |
| Ranking.WithKeyMembers | DriveCarCode/GeneticManager.cs:208 | the entries with one key come from the sequence and carry that key |
| Ranking.SameKeysSameOrder | DriveCarCode/GeneticManager.cs:208 | two non-increasing sequences that agree on every key's subsequence are equal |
| Ranking.StableOrderUnique | DriveCarCode/GeneticManager.cs:208 | any stable non-increasing reordering is the result of `SortDescending` |
| Network.NNet.Initialise | DriveCarCode/NNet.cs:14-24 | copies the topology and lays out valid rows with fitness 0, zero neurons, biases in [-0.5, 0.5] and weights in [-1, 1]; every neuron, bias and weight row is a new array, none of them already known |
| Network.NNet.Build | DriveCarCode/NNet.cs:21-23 | neuron, bias and weight rows of the topology's sizes, each new and at its own position |
| Network.NNet.InitNeurons | DriveCarCode/NNet.cs:40-48 | one new zeroed row per layer, as long as the layer |
| Network.NNet.DrawRow | DriveCarCode/NNet.cs:56-60 | a new row of n values, each between the two bounds |
| Network.NNet.InitBiases | DriveCarCode/NNet.cs:51-64 | one new bias row per layer, every entry in [-0.5, 0.5] |
| Network.NNet.InitWeightLayer | DriveCarCode/NNet.cs:72-83 | one new row per neuron of the next layer, as long as this layer, entries in [-1, 1] |
| Network.NNet.InitWeights | DriveCarCode/NNet.cs:67-86 | for each layer i >= 1, layer-i-many new rows as long as layer i - 1, entries in [-1, 1] |
| Network.NNet.Shallow | DriveCarCode/NNet.cs:28-35 | a new net with the same topology, rows, containers and fitness |
| Network.NNet.InitialiseCopy | DriveCarCode/NNet.cs:26-37 | a new net sharing every array with this one, valid exactly when this one is |
| Network.NNet.Apart | DriveCarCode/NNet.cs:40-86 | the rows at different positions of a valid net are different arrays |
| Network.NNet.GenesFrame | DriveCarCode/NNet.cs:94-114 | gene values are unchanged when only neuron rows change |
| Network.NNet.ValidShaped | DriveCarCode/NNet.cs:94-114 | a valid net's genes have the shape a forward pass needs |
| Network.NNet.FeedForward | DriveCarCode/NNet.cs:94-114 | every neuron row holds `Layer` of the inputs (padded with the old input row), genes unchanged, and the output layer's own array is returned |
| Network.NNet.SetInputs | DriveCarCode/NNet.cs:96-99 | the input row becomes the inputs followed by its old remaining values |
| Network.NNet.ComputeLayers | DriveCarCode/NNet.cs:100-112 | every layer r holds `Layer(x0, W, B, tanh, r)` |
| Network.NNet.ComputeLayer | DriveCarCode/NNet.cs:102-111 | layer i becomes `Layer` i once layer i - 1 holds `Layer` i - 1 |
| Network.NNet.ComputeRows | DriveCarCode/NNet.cs:103-111 | each neuron of layer i is tanh of its weighted sum of layer i - 1 plus its bias |
| Network.NNet.WeightedSum | DriveCarCode/NNet.cs:105-109 | the sum of w[k] * x[k] over the previous layer |
| Network.NNet.Mutate | DriveCarCode/NNet.cs:117-138 | every gene is unchanged, or, when the chance is positive, moved by at most val |
| Network.NNet.MutateWeights | DriveCarCode/NNet.cs:127-137 | every weight is unchanged or moved by at most val |
| Network.NNet.MutateRows | DriveCarCode/NNet.cs:119-125 | every entry of distinct rows is unchanged or moved by at most val |
| Network.NNet.MutateRow | DriveCarCode/NNet.cs:121-124 | every entry of one row is unchanged or moved by at most val |
| Network.NNet.RunNetwork | DriveCarCode/NNet.cs:140-144 | speed is the sigmoid of output 0 and turning is output 1 of one forward pass of (a, b, c); speed lies in (0, 1); genes unchanged |
| Network.NNet.Triple | DriveCarCode/NNet.cs:142 | a new array holding a, b, c |
| Network.NNet.Pass | DriveCarCode/NNet.cs:143 | a forward pass whose output is the last `Layer` and after which the input row again holds x0 |
| Genetic.Crossings | DriveCarCode/GeneticManager.cs:98 | the number of passes of the step-2 loop: none for n <= 0, otherwise ceil(n / 2) |
| Genetic.DrawParents | DriveCarCode/GeneticManager.cs:103-116 | two different pool entries, from at least one draw |
| Genetic.PickWeights | DriveCarCode/GeneticManager.cs:130-131 | weight layer k of each child is parent A's or parent B's, and no other layer changes |
| Genetic.PickBiases | DriveCarCode/GeneticManager.cs:149-150 | bias row k of each child is parent A's or parent B's, and no other row changes |
| Genetic.CrossWeights | DriveCarCode/GeneticManager.cs:128-144 | every weight layer of both children is the same layer of parent A or B |
| Genetic.CrossBiases | DriveCarCode/GeneticManager.cs:147-157 | every bias row of both children is the same row of parent A or B |
| Genetic.ChildRows | DriveCarCode/GeneticManager.cs:128-157 | every gene row of a child is a gene row of one of its parents |
| Genetic.BredValid | DriveCarCode/GeneticManager.cs:118-157 | a child crossed from valid parents of its topology is valid |
| Genetic.CrossBounds | DriveCarCode/GeneticManager.cs:133-155 | under the layer-size bounds, the inner loops' indices stay in range |
| Genetic.CrossGenes | DriveCarCode/GeneticManager.cs:127-157 | both children are bred from A and B, stay valid, and keep their fitness |
| Genetic.CrossReady | DriveCarCode/GeneticManager.cs:118-122 | two new nets and two members of one topology meet what crossing needs |
| Genetic.SortedKeyed | DriveCarCode/GeneticManager.cs:208 | sorting pairs each individual with its own fitness, only reorders, and keeps individuals distinct |
| Genetic.DistinctPermutation | DriveCarCode/GeneticManager.cs:208 | a reordering of a repetition-free population has no repetitions |
| Genetic.MutatedExactly | DriveCarCode/GeneticManager.cs:170-176 | the positions `Mutate` records as mutated are exactly those i with bestAgentSelection < i < naturallySelected |
| Genetic.MutatedIndices | DriveCarCode/GeneticManager.cs:170-176 | the recorded positions lie strictly between bestAgentSelection and n, in increasing order |
| Genetic.DriftStep | DriveCarCode/GeneticManager.cs:174 | one more nudge widens a gene's drift bound by one step |
| Genetic.DefaultSettings | DriveCarCode/GeneticManager.cs:11-18 | the inspector defaults and the topology {3, 3, 2} meet the range conditions |
| Genetic.WideLayers | DriveCarCode/GeneticManager.cs:133-155 | wide layers are in range without crossover and out of range with it |
| Genetic.NarrowLayersNeeded | DriveCarCode/GeneticManager.cs:133-155 | with crossover, any layer after the first wider than the number of layers violates the range conditions |
| Genetic.WideLayerOutOfRange | DriveCarCode/GeneticManager.cs:133-136 | in a valid net with such a layer, the `w2` loop over the preceding weight layer reaches an index past the last weight layer |
| Genetic.Settings | DriveCarCode/GeneticManager.cs:30-157 | the range conditions: at least one network, enough for the elites and the crossover parents, non-negative layer sizes, and, with crossover, layer sizes within the crossover loops' index bounds |
| Genetic.ChildrenAt | DriveCarCode/GeneticManager.cs:160-164 | the two children of pass t are bred from the two parents recorded for t |
| Genetic.ChildrenFootprint | DriveCarCode/GeneticManager.cs:118-164 | children hold only gene rows of the population they were bred from |
| Genetic.FootprintSubset | DriveCarCode/GeneticManager.cs:208 | individuals taken from a population hold only its gene rows |
| Genetic.PairedStep | DriveCarCode/GeneticManager.cs:100-101 | without a pool, pass t crosses positions 2t and 2t + 1 |
| Genetic.FromPoolStep | DriveCarCode/GeneticManager.cs:103-116 | with a pool, every pass crosses two different pool entries |
| Genetic.ChildrenStep | DriveCarCode/GeneticManager.cs:160-164 | appending a pass's two children extends the crossover record by that pass |
| Genetic.GeneticManager.ResetToCurrentGenome | DriveCarCode/GeneticManager.cs:53-56 | the car receives the current network |
| Genetic.GeneticManager.Start | DriveCarCode/GeneticManager.cs:30-33 | the settings are stored; startPopulation new networks with fitness 0, new rows and freshly drawn genes; generation and genome 0; the first network handed out |
| Genetic.GeneticManager.CreatePopulation | DriveCarCode/GeneticManager.cs:35-40 | a valid population of startPopulation new networks with fitness 0, each with new rows holding freshly drawn genes |
| Genetic.GeneticManager.FillPopulationRandom | DriveCarCode/GeneticManager.cs:42-51 | max(0, startPopulation - startingIndex) new networks with fitness 0 appended, each with new rows holding freshly drawn genes (biases in [-0.5, 0.5], weights in [-1, 1]), the front unchanged |
| Genetic.GeneticManager.AddRandom | DriveCarCode/GeneticManager.cs:46-49 | one new valid network with fitness 0, new rows and freshly drawn genes appended |
| Genetic.GeneticManager.SortPopulation | DriveCarCode/GeneticManager.cs:206-210 | the population becomes the stable descending sort by fitness: non-increasing, a permutation, equal fitness in the old order |
| Genetic.GeneticManager.Selection | DriveCarCode/GeneticManager.cs:179-204 | the first bestAgentSelection individuals are kept in order with fitness 0; others keep theirs; the pool gains `Pool` of the values read, which are all 0, so it is unchanged |
| Genetic.GeneticManager.AddCopies | DriveCarCode/GeneticManager.cs:197-200 | the pool gains max(0, f) copies of i at its end |
| Genetic.GeneticManager.MembersSubset | DriveCarCode/GeneticManager.cs:186 | individuals taken from valid members are valid members |
| Genetic.GeneticManager.CrossOver | DriveCarCode/GeneticManager.cs:96-166 | ceil(numberToCrossOver / 2) passes; each appends two new children with fitness 0 bred from positions 2t, 2t + 1 (or two different pool entries); naturallySelected counts them |
| Genetic.GeneticManager.ChooseParents | DriveCarCode/GeneticManager.cs:100-116 | the parents are i and i + 1 without a pool, two different pool entries with one |
| Genetic.GeneticManager.Pass | DriveCarCode/GeneticManager.cs:98-165 | one loop pass: the parents chosen and two bred children appended |
| Genetic.GeneticManager.Extend | DriveCarCode/GeneticManager.cs:159-164 | the two children appended, naturallySelected raised by 2 |
| Genetic.GeneticManager.AddChildren | DriveCarCode/GeneticManager.cs:118-164 | two new children with fitness 0, bred from the chosen parents, appended |
| Genetic.GeneticManager.Breed | DriveCarCode/GeneticManager.cs:118-157 | two new valid children with fitness 0, each bred from the two parents |
| Genetic.GeneticManager.NewPair | DriveCarCode/GeneticManager.cs:118-125 | two different new random networks with fitness 0 |
| Genetic.GeneticManager.NewMember | DriveCarCode/GeneticManager.cs:47-48 | a new valid network for the car's topology with fitness 0, zero neurons, biases in [-0.5, 0.5], weights in [-1, 1], and only new gene rows |
| Genetic.GeneticManager.Death | DriveCarCode/GeneticManager.cs:58-71 | before the last network: only its fitness is stored and the next one handed out, with every gene, the pool, the draws and naturallySelected unchanged; after the last: the next generation, whose elites are the first of the stable sort by fitness, each old gene drifting by at most 0.1 per mutated holder |
| Genetic.GeneticManager.RePopulation | DriveCarCode/GeneticManager.cs:73-91 | generation + 1, genome 0; elites are the sorted population's first; children of positions (2t, 2t + 1) follow; the population is filled to startPopulation with new networks whose rows are new and genes freshly drawn, so never mutated; all fitness 0; each old gene drifts by at most 0.1 per mutated network holding its row |
| Genetic.GeneticManager.Generate | DriveCarCode/GeneticManager.cs:75-83 | the population sorted, elites kept, children crossed; each old gene drifts by at most 0.1 per mutated network holding its row |
| Genetic.GeneticManager.Install | DriveCarCode/GeneticManager.cs:85-90 | new networks with new rows and freshly drawn genes appended up to startPopulation, the result installed, the first network handed out |
| Genetic.GeneticManager.SortAndSelect | DriveCarCode/GeneticManager.cs:75-81 | generation counted, population sorted, elites kept with fitness 0, pool empty |
| Genetic.GeneticManager.Rank | DriveCarCode/GeneticManager.cs:75-79 | the same networks reordered by the stable descending sort, the pool cleared |
| Genetic.GeneticManager.NewGeneration | DriveCarCode/GeneticManager.cs:75-77 | pool empty, generation + 1, nothing selected yet |
| Genetic.GeneticManager.Offspring | DriveCarCode/GeneticManager.cs:82-83 | children crossed from positions (2t, 2t + 1) and appended, then mutation, which keeps the crossing; each old gene drifts by at most 0.1 per mutated network holding its row |
| Genetic.GeneticManager.MutateOffspring | DriveCarCode/GeneticManager.cs:83 | mutation touches only the population's rows, keeps the crossover record, mutates exactly the positions after bestAgentSelection, and moves each population gene by at most 0.1 per mutated holder |
| Genetic.GeneticManager.Mutate | DriveCarCode/GeneticManager.cs:168-177 | the positions passed to `NNet.Mutate` are `MutatedIndices`; every gene row moves by at most 0.1 per mutated network holding it, and not at all when no mutated network holds it |
| Genetic.GeneticManager.MutateAt | DriveCarCode/GeneticManager.cs:172-175 | pass i records i as mutated exactly when i > bestAgentSelection and extends the drift bound to the first i + 1 networks |
| Genetic.GeneticManager.MutateNet | DriveCarCode/GeneticManager.cs:174 | mutating network i adds one nudge to each row it holds |

## Left out

- `CarController` is not part of this model. That covers sensors, fitness
  measurement and driving. `ResetWithNetwork` is recorded only as the ghost
  field `handedOut`, and `CarController.layers` appears as the `topology`
  setting.
- Unity plumbing is left out: `MonoBehaviour`, the inspector attributes, and
  the `print` in `SortPopulation`. `SortPopulation` still requires at least
  one individual, which that `print` needs.
- Floats are exact reals. Rounding, NaN and infinities are not modelled.
  `Mathf.RoundToInt` is exact half-to-even on reals, and the conversion of
  very large values to a 32-bit int is not modelled.
- `Math.Tanh` and `Mathf.Exp` are function parameters. The only property
  assumed about them is a positive exponential, which `RunNetwork` requires.
- `Numerics.Activate` has no contract of its own. It is the applied
  parameter, and `Layer` and the forward-pass lemmas state what it computes.
- Counters (`currentGeneration`, `currentGenome`, `naturallySelected`) are
  unbounded integers. 32-bit wrap-around is not modelled.
- The statistics of `Random.Range` are not modelled. The retry loop of
  `CrossOver` terminates only if the draws eventually pick two different pool
  entries, and that is a precondition on the oracle (`Fair`).
- Genetic.GeneticManager.Death: its contract about a new generation is
  limited to the counters, the ranking, the kept elites and the mutation
  drift. The crossover record and the filled-up population are stated by
  `RePopulation`.
- Network.NNet.InitialiseCopy: the copy shares every row with the original.
  It does not share the layer containers, which are values here. A later
  in-place write to a container of one net is therefore not seen by the
  other. The core never calls `InitialiseCopy`.
- `layers` is copied into a value sequence by `Initialise` and is never
  changed afterwards, so it is a constant field.
- Each row's position (`Slot`) and the manager's map `slots` are ghost
  bookkeeping, used to prove that the rows of one network are distinct
  arrays. They have no counterpart in the source.
