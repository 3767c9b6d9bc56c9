/** The generation loop of `main` (app.py:79-135) on mutable individuals:
    offspring are fresh lists, mutation overwrites them in place, and the
    elites are carried over as the very same lists. Each step is proved to
    compute the gene contents `Generation.NextGenomes` describes. */
module Evolution {
  import opened Outcome
  import opened Genome
  import opened Crossover
  import opened Mutation
  import opened Selection
  import opened HallOfFame
  import opened Generation

  /** Reading the genes of a concatenation. */
  lemma {:induction false} GenesOfConcat(a: seq<Individual>, b: seq<Individual>)
    ensures Genes(a + b) == Genes(a) + Genes(b)
  {
    var ab := a + b;
    assert forall i :: 0 <= i < |a| ==> ab[i] == a[i];
    assert forall i :: 0 <= i < |b| ==> ab[|a| + i] == b[i];
  }

  /** The genes of a population are determined by its individuals' contents. */
  lemma GenesFromContents(population: seq<Individual>, genomes: seq<seq<int>>)
    requires |population| == |genomes|
    requires forall k :: 0 <= k < |population| ==> population[k][..] == genomes[k]
    ensures Genes(population) == genomes
  {
  }

  /** Splitting the individuals and then reading the genes gives the split of
      the genes: the sort only looks at the fitnesses. */
  lemma SplitOnGenes(population: seq<Individual>, fitnesses: seq<int>, hallOfFameSize: nat)
    requires |population| == |fitnesses|
    ensures var split := SplitHallOfFame(population, fitnesses, hallOfFameSize);
      var geneSplit := SplitHallOfFame(Genes(population), fitnesses, hallOfFameSize);
      && Genes(Individuals(split.0)) == Individuals(geneSplit.0)
      && Genes(Individuals(split.1)) == Individuals(geneSplit.1)
      && Fitnesses(split.1) == Fitnesses(geneSplit.1)
  {
    ElitesOnGenes(population, fitnesses, hallOfFameSize);
    PoolOnGenes(population, fitnesses, hallOfFameSize);
  }

  /** Gathering individuals and then reading their genes reads the genes
      at the same positions. */
  lemma GenesOfGather(population: seq<Individual>, positions: seq<nat>)
    requires PositionsBelow(positions, |population|)
    ensures Genes(Gather(population, positions)) == Gather(Genes(population), positions)
  {
  }

  lemma ElitesOnGenes(population: seq<Individual>, fitnesses: seq<int>, hallOfFameSize: nat)
    requires |population| == |fitnesses|
    ensures Genes(Individuals(SplitHallOfFame(population, fitnesses, hallOfFameSize).0))
         == Individuals(SplitHallOfFame(Genes(population), fitnesses, hallOfFameSize).0)
  {
    var order := SortOrder(fitnesses);
    var m := Min(hallOfFameSize, |population|);
    SplitGathersSortOrder(population, fitnesses, hallOfFameSize);
    SplitGathersSortOrder(Genes(population), fitnesses, hallOfFameSize);
    GenesOfGather(population, order[..m]);
  }

  lemma PoolOnGenes(population: seq<Individual>, fitnesses: seq<int>, hallOfFameSize: nat)
    requires |population| == |fitnesses|
    ensures var split := SplitHallOfFame(population, fitnesses, hallOfFameSize);
      var geneSplit := SplitHallOfFame(Genes(population), fitnesses, hallOfFameSize);
      && Genes(Individuals(split.1)) == Individuals(geneSplit.1)
      && Fitnesses(split.1) == Fitnesses(geneSplit.1)
  {
    var order := SortOrder(fitnesses);
    var m := Min(hallOfFameSize, |population|);
    SplitGathersSortOrder(population, fitnesses, hallOfFameSize);
    SplitGathersSortOrder(Genes(population), fitnesses, hallOfFameSize);
    GenesOfGather(population, order[m..]);
  }

  /** Running the tournaments on individuals and then reading the genes
      gives the tournaments run on the genes. */
  lemma {:induction false} TournamentsOnGenes(pool: seq<Individual>, genePool: seq<seq<int>>,
                                              fitnesses: seq<int>, samples: seq<seq<int>>)
    requires Genes(pool) == genePool && |fitnesses| == |pool|
    requires SamplesFit(samples, |pool|, TOURNAMENT_SIZE)
    ensures var selection := Tournaments(pool, fitnesses, TOURNAMENT_SIZE, samples);
      var geneSelection := Tournaments(genePool, fitnesses, TOURNAMENT_SIZE, samples);
      && selection.Ok? == geneSelection.Ok?
      && (selection.Err? ==> selection.error == geneSelection.error)
      && (selection.Ok? ==> Genes(selection.value) == geneSelection.value)
  {
    var selection := Tournaments(pool, fitnesses, TOURNAMENT_SIZE, samples);
    var geneSelection := Tournaments(genePool, fitnesses, TOURNAMENT_SIZE, samples);
    if selection.Ok? {
      var selected := Genes(selection.value);
      forall i | 0 <= i < |selected|
        ensures selected[i] == geneSelection.value[i]
      {
        var w := Winner(fitnesses, samples[i]);
        assert selection.value[i] == pool[w];
        assert genePool[w] == pool[w][..];
      }
    }
  }

  /** The selection step on individuals, read as genes, is `Select` on the
      genes. */
  lemma {:induction false} SelectionOnGenes(population: seq<Individual>, fitnesses: seq<int>,
                                            hallOfFameSize: nat, samples: seq<seq<int>>)
    requires |population| == |fitnesses| && AllWellFormed(Genes(population))
    requires SamplesFit(samples, PoolSize(|population|, hallOfFameSize), TOURNAMENT_SIZE)
    ensures var others := SplitHallOfFame(population, fitnesses, hallOfFameSize).1;
      var selection := Tournaments(Individuals(others), Fitnesses(others), TOURNAMENT_SIZE, samples);
      var geneSelection := Select(Genes(population), fitnesses, hallOfFameSize, samples);
      && selection.Ok? == geneSelection.Ok?
      && (selection.Err? ==> selection.error == geneSelection.error)
      && (selection.Ok? ==> Genes(selection.value) == geneSelection.value)
  {
    var others := SplitHallOfFame(population, fitnesses, hallOfFameSize).1;
    var geneOthers := SplitHallOfFame(Genes(population), fitnesses, hallOfFameSize).1;
    SplitOnGenes(population, fitnesses, hallOfFameSize);
    TournamentsOnGenes(Individuals(others), Individuals(geneOthers), Fitnesses(others), samples);
    assert Tournaments(Individuals(geneOthers), Fitnesses(geneOthers), TOURNAMENT_SIZE, samples)
        == Select(Genes(population), fitnesses, hallOfFameSize, samples);
  }

  /** One pass of the pairing loop (app.py:102-108): two fresh children,
      crossed when the draw says so and copied (`parent[:]`) otherwise. Both
      branches only read the parents, so they are passed by contents. */
  method BreedPair(parent1: seq<int>, parent2: seq<int>, draw: PairDraw)
    returns (child1: Individual, child2: Individual)
    requires WellFormed(parent1) && WellFormed(parent2) && PairDrawFits(draw)
    ensures fresh(child1) && fresh(child2) && child1 != child2
    ensures (child1[..], child2[..]) == Breed(parent1, parent2, draw)
  {
    match draw
    case Copy =>
      child1 := NewIndividual(parent1);
      child2 := NewIndividual(parent2);
    case Cross(cut1, cut2) =>
      var children := TwoPointCrossover(parent1, parent2, cut1, cut2).value;
      child1 := NewIndividual(children.0);
      child2 := NewIndividual(children.1);
  }

  /** The pairing loop (app.py:100-108): every offspring is a fresh list, no
      two the same, holding the genes `Offspring` describes. */
  method PairAndCross(parents: seq<seq<int>>, pairs: seq<PairDraw>) returns (offspring: seq<Individual>)
    requires AllWellFormed(parents)
    requires |pairs| == PairCount(|parents|)
    requires forall q :: 0 <= q < |pairs| ==> PairDrawFits(pairs[q])
    ensures |offspring| == 2 * |pairs|
    ensures forall i :: 0 <= i < |offspring| ==> fresh(offspring[i])
    ensures forall i, j :: 0 <= i < j < |offspring| ==> offspring[i] != offspring[j]
    ensures Genes(offspring) == Offspring(parents, pairs, |pairs|)
  {
    ghost var target := Offspring(parents, pairs, |pairs|);
    offspring := [];
    for p := 0 to |pairs|
      invariant |offspring| == 2 * p
      invariant forall i :: 0 <= i < |offspring| ==> fresh(offspring[i])
      invariant forall i, j :: 0 <= i < j < |offspring| ==> offspring[i] != offspring[j]
      invariant forall k :: 0 <= k < |offspring| ==> offspring[k][..] == target[k]
    {
      var i := 2 * p;
      var partner := Partner(|parents|, i);
      var child1, child2 := BreedPair(parents[i], parents[partner], pairs[p]);
      OffspringPair(parents, pairs, |pairs|, p);
      assert forall k :: 0 <= k < |offspring| ==> offspring[k] != child1 && offspring[k] != child2;
      offspring := offspring + [child1, child2];
    }
    GenesFromContents(offspring, target);
  }

  /** The mutation comprehension (app.py:111): each offspring whose draw
      fires is mutated in place; the others are kept as they are. */
  method MutateOffspring(offspring: seq<Individual>, mutations: seq<MutationDraw>)
    requires |mutations| == |offspring| && AllWellFormed(Genes(offspring))
    requires forall j :: 0 <= j < |mutations| ==> MutationDrawFits(mutations[j])
    requires forall i, j :: 0 <= i < j < |offspring| ==> offspring[i] != offspring[j]
    modifies set j | 0 <= j < |offspring| :: offspring[j]
    ensures Genes(offspring) == MutateAll(old(Genes(offspring)), mutations)
  {
    ghost var before := Genes(offspring);
    for j := 0 to |offspring|
      invariant forall k :: 0 <= k < j ==> offspring[k][..] == Gate(before[k], mutations[k])
      invariant forall k :: j <= k < |offspring| ==> offspring[k][..] == before[k]
    {
      if mutations[j].Apply? {
        Mutate(offspring[j], mutations[j].geneDraws);
      }
    }
  }

  /** Crossover and mutation (app.py:99-111): fresh offspring, no two the
      same, holding the mutated children of the selected. */
  method Reproduce(selected: seq<Individual>, pairs: seq<PairDraw>, mutations: seq<MutationDraw>)
    returns (offspring: seq<Individual>)
    requires AllWellFormed(Genes(selected))
    requires |pairs| == PairCount(|selected|)
    requires forall q :: 0 <= q < |pairs| ==> PairDrawFits(pairs[q])
    requires |mutations| == 2 * |pairs|
    requires forall j :: 0 <= j < |mutations| ==> MutationDrawFits(mutations[j])
    ensures |offspring| == 2 * |pairs|
    ensures forall i :: 0 <= i < |offspring| ==> fresh(offspring[i])
    ensures Genes(offspring) == MutateAll(Offspring(old(Genes(selected)), pairs, |pairs|), mutations)
  {
    offspring := PairAndCross(Genes(selected), pairs);
    MutateOffspring(offspring, mutations);
  }

  /** The hall-of-fame split and the selection of one generation
      (app.py:90-97): the elites are the population's own lists, and the
      tournaments, read as genes, are `Select` on the genes. */
  method SelectParents(population: seq<Individual>, fitnesses: seq<int>, hallOfFameSize: nat,
                       samples: seq<seq<int>>)
    returns (hallOfFame: seq<(Individual, int)>, selection: Result<seq<Individual>>)
    requires |population| == |fitnesses| && AllWellFormed(Genes(population))
    requires SamplesFit(samples, PoolSize(|population|, hallOfFameSize), TOURNAMENT_SIZE)
    ensures hallOfFame == SplitHallOfFame(population, fitnesses, hallOfFameSize).0
    ensures Genes(Individuals(hallOfFame))
         == Individuals(SplitHallOfFame(Genes(population), fitnesses, hallOfFameSize).0)
    ensures var geneSelection := Select(Genes(population), fitnesses, hallOfFameSize, samples);
      && selection.Ok? == geneSelection.Ok?
      && (selection.Err? ==> selection.error == geneSelection.error)
      && (selection.Ok? ==> Genes(selection.value) == geneSelection.value)
  {
    var split := SplitHallOfFame(population, fitnesses, hallOfFameSize);
    hallOfFame := split.0;
    var others := split.1;
    SplitOnGenes(population, fitnesses, hallOfFameSize);
    selection := TournamentSelection(Individuals(others), Fitnesses(others), TOURNAMENT_SIZE, samples);
    SelectionOnGenes(population, fitnesses, hallOfFameSize, samples);
  }

  /** One pass of the generation loop (app.py:87-118). The next population
      holds the genes `NextGenomes` describes, with fitnesses freshly
      evaluated; its offspring are new lists and its tail is the hall of
      fame, the very lists of the old population. */
  method NextGeneration(population: seq<Individual>, fitnesses: seq<int>, hallOfFameSize: nat,
                        evaluate: seq<int> -> int, draws: GenerationDraws)
    returns (r: Result<GenerationResult>)
    requires |population| == |fitnesses| && AllWellFormed(Genes(population))
    requires DrawsFit(draws, PoolSize(|population|, hallOfFameSize))
    ensures r.Err? <==> PoolSize(|population|, hallOfFameSize) == 1
    ensures r.Err? ==> r.error == SampleOutOfRange
    ensures r.Ok? ==>
      && Genes(r.value.population) == NextGenomes(old(Genes(population)), fitnesses, hallOfFameSize, draws).value
      && r.value.fitnesses == Evaluate(evaluate, Genes(r.value.population))
      && r.value.hallOfFame == SplitHallOfFame(population, fitnesses, hallOfFameSize).0
    ensures r.Ok? ==>
      var next := r.value.population;
      var m := |r.value.hallOfFame|;
      && m <= |next|
      && next[|next| - m..] == Individuals(r.value.hallOfFame)
      && forall i :: 0 <= i < |next| - m ==> fresh(next[i])
  {
    ghost var genomes := Genes(population);
    var hallOfFame, selection := SelectParents(population, fitnesses, hallOfFameSize, draws.samples);
    if selection.Err? {
      return Err(selection.error);
    }
    var elites := Individuals(hallOfFame);
    ghost var eliteGenes := Genes(elites);
    var offspring := Reproduce(selection.value, draws.pairs, draws.mutations);
    assert Genes(elites) == eliteGenes;
    var nextPopulation := offspring + elites;
    assert nextPopulation[|offspring|..] == elites;
    GenesOfConcat(offspring, elites);
    NextGenomesFromParts(genomes, fitnesses, hallOfFameSize, draws, Genes(offspring), eliteGenes);
    forall i | 0 <= i < |offspring|
      ensures fresh(nextPopulation[i])
    {
      assert nextPopulation[i] == offspring[i];
    }
    var nextFitnesses := Evaluate(evaluate, Genes(nextPopulation));
    r := Ok(GenerationResult(nextPopulation, nextFitnesses, hallOfFame));
  }

  /** One pass of `main`'s loop with the configured sizes, then the read
      of `hall_of_fame[0]` (app.py:87-118, 129). The pass always
      succeeds; the best entry of the hall of fame is the first elite of the
      new population's tail, and its fitness is the least fitness of the
      population it was split from. */
  method ConfiguredGeneration(population: seq<Individual>, fitnesses: seq<int>,
                              evaluate: seq<int> -> int, draws: GenerationDraws)
    returns (next: seq<Individual>, nextFitnesses: seq<int>, best: Individual, bestFitness: int)
    requires |population| == POPULATION_SIZE && AllWellFormed(Genes(population))
    requires fitnesses == Evaluate(evaluate, Genes(population))
    requires DrawsFit(draws, PoolSize(POPULATION_SIZE, HALL_OF_FAME_SIZE))
    ensures |next| == POPULATION_SIZE && AllWellFormed(Genes(next))
    ensures nextFitnesses == Evaluate(evaluate, Genes(next))
    ensures best == next[POPULATION_SIZE - HALL_OF_FAME_SIZE]
    ensures bestFitness == nextFitnesses[POPULATION_SIZE - HALL_OF_FAME_SIZE]
    ensures bestFitness == MinOf(fitnesses)
  {
    ConfiguredPopulationIsStable(Genes(population), fitnesses, draws);
    FirstEliteHoldsMinimum(population, fitnesses, HALL_OF_FAME_SIZE);
    var r := NextGeneration(population, fitnesses, HALL_OF_FAME_SIZE, evaluate, draws);
    assert r.Ok?;
    var hallOfFame := r.value.hallOfFame;
    next, nextFitnesses := r.value.population, r.value.fitnesses;
    best, bestFitness := hallOfFame[0].0, hallOfFame[0].1;
    assert next[POPULATION_SIZE - HALL_OF_FAME_SIZE] == Individuals(hallOfFame)[0];
  }

  /** `main` (app.py:79-135) from the initial population to the best
      solution: `create_population`, the first evaluation, then one pass of
      the generation loop per generation from 2 to MAX_GENERATIONS. The best
      solution is the first entry of the last hall of fame: an individual
      of the final population (the first elite of its tail), whose fitness
      is what `evaluate` gives it, no worse than any individual the run
      started with and no better than the final population's best. */
  method RunEvolution(initialGenomes: seq<seq<int>>, evaluate: seq<int> -> int, draws: seq<GenerationDraws>)
    returns (best: Individual, bestFitness: int, population: seq<Individual>, fitnesses: seq<int>)
    requires |initialGenomes| == POPULATION_SIZE && AllWellFormed(initialGenomes)
    requires |draws| == MAX_GENERATIONS - 1
    requires forall g :: 0 <= g < |draws| ==> DrawsFit(draws[g], PoolSize(POPULATION_SIZE, HALL_OF_FAME_SIZE))
    ensures |population| == POPULATION_SIZE && AllWellFormed(Genes(population))
    ensures fitnesses == Evaluate(evaluate, Genes(population))
    ensures best == population[POPULATION_SIZE - HALL_OF_FAME_SIZE]
    ensures bestFitness == evaluate(best[..])
    ensures MinOf(fitnesses) <= bestFitness <= MinOf(Evaluate(evaluate, initialGenomes))
  {
    population := CreatePopulation(POPULATION_SIZE, initialGenomes);
    fitnesses := Evaluate(evaluate, Genes(population));
    ghost var initialBest := MinOf(fitnesses);
    // `main` starts from an empty hall of fame (app.py:85) and reads its
    // first entry only after the loop; these initial values stand for no
    // source value and are always overwritten, since the loop runs
    // MAX_GENERATIONS - 1 (299) times.
    best, bestFitness := population[0], fitnesses[0];
    for gen := 2 to MAX_GENERATIONS + 1
      invariant |population| == POPULATION_SIZE && AllWellFormed(Genes(population))
      invariant fitnesses == Evaluate(evaluate, Genes(population))
      invariant MinOf(fitnesses) <= initialBest
      invariant 2 < gen ==>
        && best == population[POPULATION_SIZE - HALL_OF_FAME_SIZE]
        && bestFitness == fitnesses[POPULATION_SIZE - HALL_OF_FAME_SIZE]
        && bestFitness <= initialBest
    {
      population, fitnesses, best, bestFitness := ConfiguredGeneration(population, fitnesses, evaluate, draws[gen - 2]);
      assert MinOf(fitnesses) <= fitnesses[POPULATION_SIZE - HALL_OF_FAME_SIZE];
    }
  }
}
