/** The generation step of `main` (app.py:87-118) and the run around it
    (app.py:79-135): split off the hall of fame, select from the rest, pair
    and cross the selected, mutate the offspring, append the elites and
    evaluate everyone again. */
module Generation {
  import opened Outcome
  import opened Genome
  import opened Crossover
  import opened Mutation
  import opened Selection
  import opened HallOfFame

  const POPULATION_SIZE: nat := 100
  const MAX_GENERATIONS: nat := 300
  const HALL_OF_FAME_SIZE: nat := 4
  /** The `k=2` main passes to `tournament_selection`. */
  const TOURNAMENT_SIZE: nat := 2

  /** The draws for one pass of the pairing loop: `Copy` when
      `random.random() >= P_CROSSOVER`, otherwise `Cross` with the two cut
      points `two_point_crossover` draws. */
  datatype PairDraw = Copy | Cross(cut1: int, cut2: int)

  /** The draws for one offspring: `Skip` when `random.random() >= P_MUTATION`,
      otherwise `Apply` with one draw per gene for `mutate`. */
  datatype MutationDraw = Skip | Apply(geneDraws: seq<GeneDraw>)

  /** Every random draw one generation consumes. */
  datatype GenerationDraws = GenerationDraws(
    samples: seq<seq<int>>,
    pairs: seq<PairDraw>,
    mutations: seq<MutationDraw>)

  /** One generation's result: the new population, its fitnesses, and the
      hall of fame split off the previous population. */
  datatype GenerationResult = GenerationResult(
    population: seq<Individual>,
    fitnesses: seq<int>,
    hallOfFame: seq<(Individual, int)>)

  /** The size of the selection pool: what the hall of fame leaves. */
  function PoolSize(n: nat, hallOfFameSize: nat): nat {
    n - Min(hallOfFameSize, n)
  }

  /** The passes of `for i in range(0, n, 2)`. */
  function PairCount(n: nat): nat {
    (n + 1) / 2
  }

  /** The position of the second parent for the pass starting at `i`: the
      next one, or the first one when `i` is the last. */
  function Partner(n: nat, i: nat): nat {
    if i + 1 < n then i + 1 else 0
  }

  predicate PairDrawFits(draw: PairDraw) {
    draw.Cross? ==> CutPointsValid(INDIVIDUAL_SIZE, draw.cut1, draw.cut2)
  }

  predicate MutationDrawFits(draw: MutationDraw) {
    draw.Apply? ==> |draw.geneDraws| == INDIVIDUAL_SIZE && ValidGeneDraws(draw.geneDraws)
  }

  /** The draws a generation with a selection pool of `pool` consumes. */
  predicate DrawsFit(draws: GenerationDraws, pool: nat) {
    && SamplesFit(draws.samples, pool, TOURNAMENT_SIZE)
    && |draws.pairs| == PairCount(pool)
    && (forall p :: 0 <= p < |draws.pairs| ==> PairDrawFits(draws.pairs[p]))
    && |draws.mutations| == 2 * PairCount(pool)
    && (forall j :: 0 <= j < |draws.mutations| ==> MutationDrawFits(draws.mutations[j]))
  }

  predicate AllWellFormed(genomes: seq<seq<int>>) {
    forall i :: 0 <= i < |genomes| ==> WellFormed(genomes[i])
  }

  /** The least fitness of a generation. */
  function MinOf(s: seq<int>): (m: int)
    requires |s| > 0
    ensures m in s
    ensures forall i :: 0 <= i < |s| ==> m <= s[i]
  {
    if |s| == 1 then s[0]
    else
      var rest := MinOf(s[1..]);
      if s[0] <= rest then s[0] else rest
  }

  /** `[evaluate(ind) for ind in population]`. */
  function Evaluate(evaluate: seq<int> -> int, genomes: seq<seq<int>>): (fitnesses: seq<int>)
    ensures |fitnesses| == |genomes|
    ensures forall i :: 0 <= i < |genomes| ==> fitnesses[i] == evaluate(genomes[i])
  {
    seq(|genomes|, i requires 0 <= i < |genomes| => evaluate(genomes[i]))
  }

  /** Evaluating `offspring + elites` (app.py:114-117) evaluates the
      offspring and then the elites: each individual's fitness depends on
      its genes alone, not on its place in the population. */
  lemma EvaluateOfConcat(evaluate: seq<int> -> int, offspring: seq<seq<int>>, elites: seq<seq<int>>)
    ensures Evaluate(evaluate, offspring + elites) == Evaluate(evaluate, offspring) + Evaluate(evaluate, elites)
  {
  }

  /** The children of one pass of the pairing loop: crossed when the
      crossover draw fires, exact copies otherwise. */
  function Breed(parent1: seq<int>, parent2: seq<int>, draw: PairDraw): (children: (seq<int>, seq<int>))
    requires WellFormed(parent1) && WellFormed(parent2) && PairDrawFits(draw)
    ensures WellFormed(children.0) && WellFormed(children.1)
  {
    match draw
    case Copy => (parent1, parent2)
    case Cross(cut1, cut2) =>
      CrossoverKeepsWellFormed(parent1, parent2, cut1, cut2);
      TwoPointCrossover(parent1, parent2, cut1, cut2).value
  }

  /** The offspring list after `p` passes of the pairing loop: pass `q`
      breeds `selected[2q]` with its partner and appends both children. */
  function Offspring(selected: seq<seq<int>>, pairs: seq<PairDraw>, p: nat): (offspring: seq<seq<int>>)
    requires AllWellFormed(selected)
    requires |pairs| == PairCount(|selected|) && p <= |pairs|
    requires forall q :: 0 <= q < |pairs| ==> PairDrawFits(pairs[q])
    ensures |offspring| == 2 * p
    ensures AllWellFormed(offspring)
  {
    if p == 0 then []
    else
      var i := 2 * (p - 1);
      var children := Breed(selected[i], selected[Partner(|selected|, i)], pairs[p - 1]);
      Offspring(selected, pairs, p - 1) + [children.0, children.1]
  }

  /** Entries `2q` and `2q + 1` of the offspring are the children of pass
      `q`, and later passes leave them in place. */
  lemma {:induction false} OffspringPair(selected: seq<seq<int>>, pairs: seq<PairDraw>, p: nat, q: nat)
    requires AllWellFormed(selected)
    requires |pairs| == PairCount(|selected|) && p <= |pairs|
    requires forall r :: 0 <= r < |pairs| ==> PairDrawFits(pairs[r])
    requires q < p
    ensures var offspring := Offspring(selected, pairs, p);
      (offspring[2 * q], offspring[2 * q + 1])
      == Breed(selected[2 * q], selected[Partner(|selected|, 2 * q)], pairs[q])
  {
    if q < p - 1 {
      OffspringPair(selected, pairs, p - 1, q);
      var before := Offspring(selected, pairs, p - 1);
      assert Offspring(selected, pairs, p)[..2 * (p - 1)] == before;
    }
  }

  /** One offspring after the mutation gate. */
  function Gate(genes: seq<int>, draw: MutationDraw): (mutant: seq<int>)
    requires WellFormed(genes) && MutationDrawFits(draw)
    ensures WellFormed(mutant)
  {
    match draw
    case Skip => genes
    case Apply(geneDraws) =>
      MutatedKeepsAlphabet(genes, geneDraws);
      Mutated(genes, geneDraws)
  }

  /** The offspring list after the mutation comprehension. */
  function MutateAll(offspring: seq<seq<int>>, mutations: seq<MutationDraw>): (mutants: seq<seq<int>>)
    requires AllWellFormed(offspring) && |mutations| == |offspring|
    requires forall j :: 0 <= j < |mutations| ==> MutationDrawFits(mutations[j])
    ensures |mutants| == |offspring| && AllWellFormed(mutants)
  {
    seq(|offspring|, j requires 0 <= j < |offspring| => Gate(offspring[j], mutations[j]))
  }

  /** Both halves of the split hold individuals of the population, and the
      pool is what the hall of fame leaves. */
  lemma SplitKeepsWellFormed(genomes: seq<seq<int>>, fitnesses: seq<int>, hallOfFameSize: nat)
    requires |genomes| == |fitnesses| && AllWellFormed(genomes)
    ensures var split := SplitHallOfFame(genomes, fitnesses, hallOfFameSize);
      && AllWellFormed(Individuals(split.0)) && AllWellFormed(Individuals(split.1))
      && |split.1| == PoolSize(|genomes|, hallOfFameSize)
  {
    ElitesKeepWellFormed(genomes, fitnesses, hallOfFameSize);
    PoolKeepsWellFormed(genomes, fitnesses, hallOfFameSize);
  }

  lemma ElitesKeepWellFormed(genomes: seq<seq<int>>, fitnesses: seq<int>, hallOfFameSize: nat)
    requires |genomes| == |fitnesses| && AllWellFormed(genomes)
    ensures AllWellFormed(Individuals(SplitHallOfFame(genomes, fitnesses, hallOfFameSize).0))
  {
    var elites := SplitHallOfFame(genomes, fitnesses, hallOfFameSize).0;
    var order := SortOrder(fitnesses);
    forall i | 0 <= i < |elites|
      ensures WellFormed(Individuals(elites)[i])
    {
      assert elites[i].0 == genomes[order[i]];
    }
  }

  lemma PoolKeepsWellFormed(genomes: seq<seq<int>>, fitnesses: seq<int>, hallOfFameSize: nat)
    requires |genomes| == |fitnesses| && AllWellFormed(genomes)
    ensures AllWellFormed(Individuals(SplitHallOfFame(genomes, fitnesses, hallOfFameSize).1))
  {
    var split := SplitHallOfFame(genomes, fitnesses, hallOfFameSize);
    var order := SortOrder(fitnesses);
    var m := |split.0|;
    forall i | 0 <= i < |split.1|
      ensures WellFormed(Individuals(split.1)[i])
    {
      assert split.1[i].0 == genomes[order[m + i]];
    }
  }

  /** The selection step on values: split off the hall of fame and run one
      two-way tournament per entry of the rest. It fails only when the rest
      holds a single individual, too few to sample two aspirants from. */
  function Select(genomes: seq<seq<int>>, fitnesses: seq<int>, hallOfFameSize: nat,
                  samples: seq<seq<int>>): (r: Result<seq<seq<int>>>)
    requires |genomes| == |fitnesses| && AllWellFormed(genomes)
    requires SamplesFit(samples, PoolSize(|genomes|, hallOfFameSize), TOURNAMENT_SIZE)
    ensures r.Err? <==> PoolSize(|genomes|, hallOfFameSize) == 1
    ensures r.Err? ==> r.error == SampleOutOfRange
    ensures r.Ok? ==> |r.value| == PoolSize(|genomes|, hallOfFameSize) && AllWellFormed(r.value)
  {
    var others := SplitHallOfFame(genomes, fitnesses, hallOfFameSize).1;
    SplitKeepsWellFormed(genomes, fitnesses, hallOfFameSize);
    var pool := Individuals(others);
    var selection := Tournaments(pool, Fitnesses(others), TOURNAMENT_SIZE, samples);
    if selection.Ok? then
      assert AllWellFormed(selection.value) by {
        assert forall i :: 0 <= i < |selection.value| ==>
          selection.value[i] == pool[Winner(Fitnesses(others), samples[i])];
      }
      selection
    else selection
  }

  /** The gene contents of the next population, computed on values: the
      selected are paired and crossed, the offspring mutated, and the elites
      appended. A generation fails exactly when selection does; otherwise
      the next population has one offspring per pool slot (one more when the
      pool is odd) and then the elites. */
  function NextGenomes(genomes: seq<seq<int>>, fitnesses: seq<int>, hallOfFameSize: nat,
                       draws: GenerationDraws): (r: Result<seq<seq<int>>>)
    requires |genomes| == |fitnesses| && AllWellFormed(genomes)
    requires DrawsFit(draws, PoolSize(|genomes|, hallOfFameSize))
    ensures r.Err? <==> PoolSize(|genomes|, hallOfFameSize) == 1
    ensures r.Ok? ==> AllWellFormed(r.value)
    ensures r.Ok? ==>
      |r.value| == 2 * PairCount(PoolSize(|genomes|, hallOfFameSize)) + Min(hallOfFameSize, |genomes|)
  {
    var selection := Select(genomes, fitnesses, hallOfFameSize, draws.samples);
    if selection.Err? then Err(selection.error)
    else
      var elites := SplitHallOfFame(genomes, fitnesses, hallOfFameSize).0;
      SplitKeepsWellFormed(genomes, fitnesses, hallOfFameSize);
      var offspring := Offspring(selection.value, draws.pairs, |draws.pairs|);
      Ok(MutateAll(offspring, draws.mutations) + Individuals(elites))
  }

  /** `NextGenomes` assembled from its parts: the mutated offspring of the
      selection, then the elites. */
  lemma NextGenomesFromParts(genomes: seq<seq<int>>, fitnesses: seq<int>, hallOfFameSize: nat,
                             draws: GenerationDraws, mutants: seq<seq<int>>, elites: seq<seq<int>>)
    requires |genomes| == |fitnesses| && AllWellFormed(genomes)
    requires DrawsFit(draws, PoolSize(|genomes|, hallOfFameSize))
    requires Select(genomes, fitnesses, hallOfFameSize, draws.samples).Ok?
    requires mutants == MutateAll(Offspring(Select(genomes, fitnesses, hallOfFameSize, draws.samples).value,
                                            draws.pairs, |draws.pairs|), draws.mutations)
    requires elites == Individuals(SplitHallOfFame(genomes, fitnesses, hallOfFameSize).0)
    ensures NextGenomes(genomes, fitnesses, hallOfFameSize, draws) == Ok(mutants + elites)
  {
  }

  /** The first elite carries the least fitness of the population. */
  lemma FirstEliteHoldsMinimum<T>(population: seq<T>, fitnesses: seq<int>, hallOfFameSize: nat)
    requires |population| == |fitnesses| && 0 < hallOfFameSize && 0 < |population|
    ensures var elites := SplitHallOfFame(population, fitnesses, hallOfFameSize).0;
      0 < |elites| && elites[0].1 == MinOf(fitnesses)
  {
    FirstEliteIsFittest(population, fitnesses, hallOfFameSize);
  }

  /** The next population ends with the elites, unchanged: entry `i` of the
      tail is the individual a stable sort by fitness puts at rank `i`. */
  lemma ElitesSurvive(genomes: seq<seq<int>>, fitnesses: seq<int>, hallOfFameSize: nat,
                      draws: GenerationDraws)
    requires |genomes| == |fitnesses| && AllWellFormed(genomes)
    requires DrawsFit(draws, PoolSize(|genomes|, hallOfFameSize))
    requires NextGenomes(genomes, fitnesses, hallOfFameSize, draws).Ok?
    ensures var next := NextGenomes(genomes, fitnesses, hallOfFameSize, draws).value;
      var m := Min(hallOfFameSize, |genomes|);
      && m <= |next|
      && next[|next| - m..] == Individuals(SplitHallOfFame(genomes, fitnesses, hallOfFameSize).0)
      && forall i :: 0 <= i < m ==> next[|next| - m + i] == genomes[SortOrder(fitnesses)[i]]
  {
    var elites := SplitHallOfFame(genomes, fitnesses, hallOfFameSize).0;
    var next := NextGenomes(genomes, fitnesses, hallOfFameSize, draws).value;
    var m := Min(hallOfFameSize, |genomes|);
    assert next[|next| - m..] == Individuals(elites);
    forall i | 0 <= i < m
      ensures next[|next| - m + i] == genomes[SortOrder(fitnesses)[i]]
    {
      assert next[|next| - m + i] == next[|next| - m..][i];
    }
  }

  /** With a deterministic `evaluate` and a non-empty hall of fame, the
      fittest individual of a generation is carried into the next one, so
      the least fitness never goes up. */
  lemma BestNeverRegresses(evaluate: seq<int> -> int, genomes: seq<seq<int>>, hallOfFameSize: nat,
                           draws: GenerationDraws)
    requires 0 < |genomes| && 0 < hallOfFameSize && AllWellFormed(genomes)
    requires DrawsFit(draws, PoolSize(|genomes|, hallOfFameSize))
    requires NextGenomes(genomes, Evaluate(evaluate, genomes), hallOfFameSize, draws).Ok?
    ensures var next := NextGenomes(genomes, Evaluate(evaluate, genomes), hallOfFameSize, draws).value;
      0 < |next| && MinOf(Evaluate(evaluate, next)) <= MinOf(Evaluate(evaluate, genomes))
  {
    var fitnesses := Evaluate(evaluate, genomes);
    var next := NextGenomes(genomes, fitnesses, hallOfFameSize, draws).value;
    var m := Min(hallOfFameSize, |genomes|);
    var champion := SortOrder(fitnesses)[0];
    assert m <= |next| && next[|next| - m] == genomes[champion] by {
      ElitesSurvive(genomes, fitnesses, hallOfFameSize, draws);
    }
    assert fitnesses[champion] <= MinOf(fitnesses) by {
      FirstEliteIsFittest(genomes, fitnesses, hallOfFameSize);
    }
    var nextFitnesses := Evaluate(evaluate, next);
    assert nextFitnesses[|next| - m] == fitnesses[champion];
    assert MinOf(nextFitnesses) <= nextFitnesses[|next| - m];
  }

  /** The pairing loop makes one child per entry, and one more when the
      entries are odd. */
  lemma PairsCoverPool(n: nat)
    ensures 2 * PairCount(n) == n + n % 2
  {
  }

  /** The size of the next population: the old size when the pool is even,
      one more when it is odd (the wrap-around pass adds a child). */
  lemma NextPopulationSize(genomes: seq<seq<int>>, fitnesses: seq<int>, hallOfFameSize: nat,
                           draws: GenerationDraws)
    requires |genomes| == |fitnesses| && AllWellFormed(genomes)
    requires DrawsFit(draws, PoolSize(|genomes|, hallOfFameSize))
    requires NextGenomes(genomes, fitnesses, hallOfFameSize, draws).Ok?
    ensures |NextGenomes(genomes, fitnesses, hallOfFameSize, draws).value|
            == |genomes| + PoolSize(|genomes|, hallOfFameSize) % 2
  {
    PairsCoverPool(PoolSize(|genomes|, hallOfFameSize));
  }

  /** With the configured sizes (a pool of 96) every generation succeeds and
      the population stays at exactly POPULATION_SIZE. */
  lemma ConfiguredPopulationIsStable(genomes: seq<seq<int>>, fitnesses: seq<int>, draws: GenerationDraws)
    requires |genomes| == POPULATION_SIZE && |fitnesses| == POPULATION_SIZE && AllWellFormed(genomes)
    requires DrawsFit(draws, PoolSize(POPULATION_SIZE, HALL_OF_FAME_SIZE))
    ensures var r := NextGenomes(genomes, fitnesses, HALL_OF_FAME_SIZE, draws);
      r.Ok? && |r.value| == POPULATION_SIZE
  {
    var pool := PoolSize(POPULATION_SIZE, HALL_OF_FAME_SIZE);
    assert pool == 96 && 2 * PairCount(pool) == 96;
  }

  /** The last pass of the pairing loop on an odd list pairs its last entry
      with the first one. */
  lemma OddPoolWrapsAround(n: nat)
    requires n % 2 == 1
    ensures 2 * (PairCount(n) - 1) == n - 1 && Partner(n, n - 1) == 0
  {
  }
}
