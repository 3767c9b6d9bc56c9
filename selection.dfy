/** Tournament selection (app.py:38-44). The positions `random.sample` draws
    for each tournament are inputs. */
module Selection {
  import opened Outcome

  /** Every sampled position points into a pool of `n`. */
  predicate InRange(sample: seq<int>, n: int) {
    forall i :: 0 <= i < |sample| ==> 0 <= sample[i] < n
  }

  /** What `random.sample` returns for `k` aspirants out of a pool of `n`:
      `k` distinct positions of the pool. */
  predicate ValidSample(sample: seq<int>, n: int, k: int) {
    && |sample| == k
    && InRange(sample, n)
    && forall i, j :: 0 <= i < j < |sample| ==> sample[i] != sample[j]
  }

  /** One sample per output slot; each is a valid draw whenever a draw of
      `k` out of `n` exists at all. */
  predicate SamplesFit(samples: seq<seq<int>>, n: nat, k: int) {
    && |samples| == n
    && (0 < k <= n ==> forall i :: 0 <= i < n ==> ValidSample(samples[i], n, k))
  }

  /** The position, within the draw, of the aspirant `min(..., key=fitness)`
      keeps: scanning in sampling order, a later aspirant replaces the best so
      far only when its fitness is strictly lower. */
  function FirstMinimum(fitnesses: seq<int>, aspirants: seq<int>): (p: nat)
    requires |aspirants| > 0 && InRange(aspirants, |fitnesses|)
    ensures p < |aspirants|
    ensures forall j :: 0 <= j < |aspirants| ==> fitnesses[aspirants[p]] <= fitnesses[aspirants[j]]
    ensures forall j :: 0 <= j < p ==> fitnesses[aspirants[p]] < fitnesses[aspirants[j]]
  {
    if |aspirants| == 1 then 0
    else
      var last := |aspirants| - 1;
      var p := FirstMinimum(fitnesses, aspirants[..last]);
      if fitnesses[aspirants[last]] < fitnesses[aspirants[p]] then last else p
  }

  /** The pool position that wins the tournament drawn as `aspirants`. */
  function Winner(fitnesses: seq<int>, aspirants: seq<int>): (w: nat)
    requires |aspirants| > 0 && InRange(aspirants, |fitnesses|)
    ensures w < |fitnesses|
  {
    aspirants[FirstMinimum(fitnesses, aspirants)]
  }

  /** The selection `tournament_selection` makes: one tournament winner per
      slot. Nothing is drawn for an empty pool; otherwise `random.sample`
      rejects `k` outside `[0, n]` and `min` rejects an empty draw. */
  function Tournaments<T>(population: seq<T>, fitnesses: seq<int>, k: int, samples: seq<seq<int>>)
    : (r: Result<seq<T>>)
    requires |fitnesses| == |population|
    requires SamplesFit(samples, |population|, k)
    ensures r.Err? <==> |population| > 0 && (k <= 0 || k > |population|)
    ensures r.Err? ==> r.error == (if k == 0 then MinOfEmpty else SampleOutOfRange)
    ensures r.Ok? ==> |r.value| == |population|
    ensures r.Ok? ==> forall i :: 0 <= i < |r.value| ==>
      r.value[i] == population[Winner(fitnesses, samples[i])]
  {
    var n := |population|;
    if n == 0 then Ok([])
    else if k < 0 || k > n then Err(SampleOutOfRange)
    else if k == 0 then Err(MinOfEmpty)
    else Ok(seq(n, i requires 0 <= i < n => population[Winner(fitnesses, samples[i])]))
  }

  /** Each selected individual is an aspirant of its own tournament, no
      aspirant of that tournament has a lower fitness, and every aspirant
      sampled before it has a strictly higher one (ties go to the first
      sampled). */
  lemma TournamentWinnerBeatsAspirants<T>(population: seq<T>, fitnesses: seq<int>, k: int,
                                          samples: seq<seq<int>>, i: int)
    requires |fitnesses| == |population|
    requires SamplesFit(samples, |population|, k)
    requires Tournaments(population, fitnesses, k, samples).Ok?
    requires 0 <= i < |population|
    ensures var p := FirstMinimum(fitnesses, samples[i]);
      && Tournaments(population, fitnesses, k, samples).value[i] == population[samples[i][p]]
      && Tournaments(population, fitnesses, k, samples).value[i] in population
      && (forall j :: 0 <= j < k ==> fitnesses[samples[i][p]] <= fitnesses[samples[i][j]])
      && (forall j :: 0 <= j < p ==> fitnesses[samples[i][p]] < fitnesses[samples[i][j]])
  {
  }

  /** `tournament_selection`: the loop that appends one winner per slot. */
  method TournamentSelection<T>(population: seq<T>, fitnesses: seq<int>, k: int, samples: seq<seq<int>>)
    returns (r: Result<seq<T>>)
    requires |fitnesses| == |population|
    requires SamplesFit(samples, |population|, k)
    ensures r == Tournaments(population, fitnesses, k, samples)
  {
    var selected: seq<T> := [];
    for i := 0 to |population|
      invariant |selected| == i
      invariant i > 0 ==> 0 < k <= |population|
      invariant forall j :: 0 <= j < i ==> selected[j] == population[Winner(fitnesses, samples[j])]
    {
      if k < 0 || k > |population| {
        return Err(SampleOutOfRange);
      }
      if k == 0 {
        return Err(MinOfEmpty);
      }
      var aspirants := samples[i];
      var best := FirstMinimum(fitnesses, aspirants);
      selected := selected + [population[aspirants[best]]];
    }
    if |population| > 0 {
      assert selected == Tournaments(population, fitnesses, k, samples).value;
    }
    return Ok(selected);
  }

  /** A pool of one cannot hold a two-way tournament: the boundary case of
      a hall of fame one smaller than the population is an error. */
  lemma LoneAspirantCannotCompete<T>(individual: T, fitness: int, samples: seq<seq<int>>)
    requires SamplesFit(samples, 1, 2)
    ensures Tournaments([individual], [fitness], 2, samples) == Err(SampleOutOfRange)
  {
  }
}
