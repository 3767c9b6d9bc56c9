# Genetic-algorithm engine for the mountain-car controller

The program evolves a fixed-length sequence of actions for the mountain-car
simulator. An individual is a list of `INDIVIDUAL_SIZE` (200) genes, each an
action code 0, 1 or 2. Lower fitness is better. Each generation does the
following:

- it splits off the four fittest individuals as the hall of fame;
- it runs one two-way tournament per remaining individual;
- it pairs the winners and crosses each pair at two cut points, or copies
  them;
- it mutates some offspring gene by gene;
- it appends the hall of fame unchanged and evaluates everyone again.

This project models that engine in Dafny:

- `create_individual` and `create_population`;
- `tournament_selection`, `two_point_crossover`, `mutate` and
  `split_hall_of_fame`;
- the generation loop of `main`.

The model makes every random draw an explicit input:

- the positions `random.sample` picks for a tournament;
- the outcome of each `random.random() < P` test;
- the crossover cut points;
- the replacement genes.

With the draws fixed, every operator is deterministic. The fitness function
`evaluate` is a parameter, a total function from genes to an `int`.

Each module has its own file:

- `outcome.dfy` holds the `Result` type and the three errors the Python
  code can raise.
- `genome.dfy` holds individuals (`array<int>`, since `mutate` changes
  them in place) and population creation.
- `crossover.dfy`, `mutation.dfy`, `selection.dfy` and `hall_of_fame.dfy`
  hold the four operators.
- `generation.dfy` holds one generation described on gene *values*
  (`NextGenomes`), and the properties of a generation.
- `evolution.dfy` holds the imperative generation loop on mutable
  individuals. It proves that the loop computes what `NextGenomes`
  describes, that offspring are fresh lists, and that the hall of fame
  carries over as the very same lists.

## Model

| member | source | states |
|---|---|---|
| Genome.NewIndividual | app.py:107 | a copy (`parent[:]`, a slice) is a fresh list holding exactly the given genes |
| Genome.CreateIndividual | app.py:26-28 | the new individual is a fresh list of the drawn genes: 200 genes, each in {0, 1, 2} |
| Genome.CreatePopulation | app.py:30-32 | `n` individuals, each a fresh list and no two the same list, holding the drawn genes; all well-formed |
| Crossover.TwoPointCrossover | app.py:46-53 | fails exactly when the parents have fewer than 3 genes (the `randint` range is empty); otherwise both children have the parents' length, and `child1[i]` comes from `parent2` inside `[cut1, cut2)` and from `parent1` outside it, with `child2` the mirror image |
| Crossover.CrossoverRoundTrip | app.py:51-52 | crossing the children again at the same cut points gives back the parents |
| Crossover.CrossoverConservesGenes | app.py:51-52 | at every position the two children hold the two parents' genes, possibly swapped |
| Crossover.CrossoverKeepsWellFormed | app.py:48-52 | children of well-formed parents are well-formed, for every pair of cut points `randint` can draw |
| Mutation.Mutate | app.py:55-60 | the in-place loop leaves the individual holding `Mutated` of its old genes; nothing else is modified |
| Mutation.MutatedChangesOnlyDrawnGenes | app.py:57-59 | mutation keeps the length; a position whose draw does not fire keeps its gene, and a position whose draw fires holds the drawn gene |
| Mutation.MutatedWithoutDrawsIsIdentity | app.py:57-60 | when no draw fires the individual comes back unchanged |
| Mutation.MutatedKeepsAlphabet | app.py:57-59 | genes stay in {0, 1, 2}, and a well-formed individual stays well-formed |
| Selection.FirstMinimum | app.py:43 | `min` over the aspirants picks one with the least fitness, and every aspirant sampled before it is strictly worse (ties go to the first sampled) |
| Selection.Winner | app.py:42-43 | the winner is a position of the pool |
| Selection.Tournaments | app.py:38-44 | fails exactly when the pool is non-empty and `k` is outside `1..n`, with the error `random.sample` (`k` outside `0..n`) or `min` (`k = 0`) raises; otherwise one winner per pool entry, entry `i` being the winner of draw `i` |
| Selection.TournamentWinnerBeatsAspirants | app.py:41-43 | each selected individual is a member of the pool, no aspirant of its draw is fitter, and every aspirant sampled before it is strictly less fit |
| Selection.TournamentSelection | app.py:38-44 | the appending loop returns exactly `Tournaments`, including its errors |
| Selection.LoneAspirantCannotCompete | app.py:42 | a pool of one cannot hold a two-way tournament: `random.sample` raises |
| HallOfFame.UnzipZip | app.py:93-94 | reading the individuals and the fitnesses back out of the pairs made by `zip` (app.py:64) gives back the population and the fitnesses |
| HallOfFame.Insert | app.py:65 | inserting a position adds exactly that position to the order |
| HallOfFame.InsertKeepsStablySorted | app.py:65 | insertion keeps the order ascending by fitness, with ties in original order |
| HallOfFame.InsertionOrder | app.py:65 | the insertion order of the first `m` positions is stably sorted by fitness |
| HallOfFame.SortOrder | app.py:65 | the order the sort leaves the entries in has one position per entry |
| HallOfFame.SortOrderIsStablePermutation | app.py:65 | the sort order is a permutation of all positions: distinct, in range and covering every one; it is ascending by fitness, and ties keep their original order |
| HallOfFame.SortByFitness | app.py:64-65 | the sort only rearranges the zipped pairs: it reads them along a permutation of their positions (the stable sort order), every pair appears in the result, and the result is ascending by fitness |
| HallOfFame.SplitHallOfFame | app.py:62-66 | the hall of fame has `min(size, n)` entries and the two halves together have `n`; entry `i` of each half is the pair at its rank in the stable sort order |
| HallOfFame.SplitGathersSortOrder | app.py:64-66 | the hall of fame holds the individuals at the first `min(size, n)` positions of the sort order and the rest holds those at the remaining positions, with their fitnesses: which entries land in which half depends on the fitnesses alone |
| HallOfFame.SplitHallOfFameIsSortedPermutation | app.py:62-66 | the hall of fame followed by the rest is the stably sorted list, and no elite has a higher fitness than any entry of the rest |
| HallOfFame.FirstEliteIsFittest | app.py:62-66 | with a non-empty hall of fame, the first elite is the sort's first entry, and its fitness is the least of the population |
| Generation.MinOf | app.py:75 | the least fitness of a generation is one of its fitnesses, and no fitness is lower |
| Generation.EvaluateOfConcat | app.py:114-117 | evaluating `offspring + elites` gives the offspring's fitnesses followed by the elites': a fitness depends on the individual's genes alone, not on its place in the population |
| Generation.Breed | app.py:104-107 | one pass of the pairing loop gives two well-formed children, crossed or copied |
| Generation.Offspring | app.py:100-108 | after `p` passes the offspring list holds `2p` well-formed children |
| Generation.OffspringPair | app.py:101-108 | entries `2q` and `2q+1` of the offspring are the children of `selected[2q]` and its partner (the next entry, or `selected[0]` for the last entry of an odd list); later passes leave them in place |
| Generation.Gate | app.py:111 | an offspring after the mutation gate is still well-formed |
| Generation.MutateAll | app.py:111 | the mutation comprehension keeps the number of offspring and their well-formedness |
| Generation.SplitKeepsWellFormed | app.py:90-94 | both halves of the split hold well-formed individuals, and the pool is what the hall of fame leaves |
| Generation.Select | app.py:90-97 | selection fails exactly when the pool left by the hall of fame holds one individual; otherwise one well-formed winner per pool entry |
| Generation.NextGenomes | app.py:87-118 | a generation fails exactly when selection does; otherwise the next population is well-formed and has `2 * ceil(pool / 2)` offspring plus `min(hall-of-fame size, n)` elites |
| Generation.FirstEliteHoldsMinimum | app.py:90 | the first entry of the hall of fame carries the least fitness of the population |
| Generation.ElitesSurvive | app.py:114 | the next population ends with the hall-of-fame individuals, unchanged, in the order of the stable sort |
| Generation.BestNeverRegresses | app.py:90-117 | with a deterministic `evaluate` and a non-empty hall of fame, the least fitness of the next generation is no higher than that of the current one |
| Generation.PairsCoverPool | app.py:101 | the pairing loop makes one child per selected individual, plus one when their number is odd |
| Generation.NextPopulationSize | app.py:100-114 | the next population has the old size when the pool is even, and one more when it is odd |
| Generation.ConfiguredPopulationIsStable | app.py:10-14 | with 100 individuals and a hall of fame of 4, every generation succeeds and the population stays at exactly 100 |
| Generation.OddPoolWrapsAround | app.py:103 | on an odd list the last pass starts at the last entry and pairs it with `selected[0]` |
| Evolution.SplitOnGenes | app.py:90-94 | splitting the individuals and then reading their genes gives the split of the genes, with the same fitnesses |
| Evolution.TournamentsOnGenes | app.py:97 | tournaments over individuals, read as genes, are the tournaments over the genes, with the same success or error |
| Evolution.SelectionOnGenes | app.py:90-97 | the selection over individuals, read as genes, is `Select` over the genes |
| Evolution.BreedPair | app.py:102-107 | two distinct fresh children whose genes are `Breed` of the parents |
| Evolution.PairAndCross | app.py:100-108 | the pairing loop gives fresh offspring, no two the same list, whose genes are `Offspring` of the selected |
| Evolution.MutateOffspring | app.py:111 | mutating the offspring in place leaves them holding `MutateAll` of their old genes |
| Evolution.Reproduce | app.py:99-111 | fresh offspring holding the mutated children of the selected |
| Evolution.SelectParents | app.py:90-97 | the hall of fame is the population's own lists, with the genes of the gene-level split, and the selection, read as genes, is `Select` with the same success or error |
| Evolution.NextGeneration | app.py:87-118 | fails exactly when the pool holds one individual (`SampleOutOfRange`). Otherwise the next population's genes are `NextGenomes` of the old genes and its fitnesses are freshly evaluated. Its tail is the hall of fame, the very lists of the old population, and every entry before the tail is a fresh list |
| Evolution.ConfiguredGeneration | app.py:87-118 | with the configured sizes a generation always succeeds and keeps 100 well-formed individuals; `hall_of_fame[0]` is the first elite in the new tail, and its fitness is the least fitness of the population it was split from |
| Evolution.RunEvolution | app.py:79-135 | after generations 2 to 300 the population has 100 well-formed individuals with evaluated fitnesses. The reported best is an individual of the final population whose fitness is `evaluate` of its genes. That fitness is no better than the final population's least and no worse than the initial population's least |

## Left out

- `evaluate` (app.py:34-36) calls the simulator in `mountain_car.py`, which is not part of this model. Here it is a function parameter, and fitnesses are `int` rather than `float`. The properties only use comparisons between fitnesses.
- The `random` module, `RANDOM_SEED` and the probabilities `P_CROSSOVER`, `P_MUTATION` and `indpb` are not modelled. Every draw is an input, so the model covers every outcome the draws can have but not how likely each one is, nor the order in which the program consumes them.
- `print_generation_info`, the console output, `replay_individual` every 50 generations, `car.saveActions` and `car_replay.close()` are not modelled: they report, render or persist and do not affect the population.
- Module-level setup (app.py:21-24) is not modelled. `INDIVIDUAL_SIZE` is the constant 200, the simulator's step budget.
- `zip` truncates lists of unequal length. The model requires equal lengths, which is how the program calls it.
- Mutation.Mutated has no contract of its own. Its properties are the three `Mutated...` lemmas and `Mutation.Mutate`'s postcondition.
- HallOfFame.SortByFitness states the permutation through the positions (a permutation of indices that the sorted list reads along), not as a multiset equality of pairs.
- Evolution.RunEvolution and Evolution.ConfiguredGeneration fix the sizes at their configured values (100, 4, 300 generations). The general sizes are covered by `Generation.NextGenomes`, `Generation.NextPopulationSize` and `Evolution.NextGeneration`.
- Five behaviours of the code that a reader may not expect, and that the model follows:
  - A hall of fame at least as large as the population does not fail: the slices clamp.
  - An odd selection pool gives one more offspring than the pool, because the last entry is paired with `selected[0]`.
  - A pool of exactly one individual makes `random.sample(..., 2)` raise.
  - The reported best solution is `hall_of_fame[0]` of the split made at the start of the last generation. It is an elite of the final population, but it is not re-chosen from the final fitnesses.
  - A tournament tie goes to the aspirant sampled first, because `min` keeps the first minimum.
