/** The hall-of-fame split (app.py:62-66): pair every individual with its
    fitness, sort the pairs by fitness with Python's stable sort, and cut the
    sorted list after `size` entries. */
module HallOfFame {

  /** `list(zip(population, fitnesses))` for lists of equal length. */
  function Zip<T>(population: seq<T>, fitnesses: seq<int>): (combined: seq<(T, int)>)
    requires |population| == |fitnesses|
    ensures |combined| == |population|
    ensures forall i :: 0 <= i < |combined| ==> combined[i] == (population[i], fitnesses[i])
  {
    seq(|population|, i requires 0 <= i < |population| => (population[i], fitnesses[i]))
  }

  /** `[ind for ind, _ in pairs]`. */
  function Individuals<T>(pairs: seq<(T, int)>): (individuals: seq<T>)
    ensures |individuals| == |pairs|
    ensures forall i :: 0 <= i < |pairs| ==> individuals[i] == pairs[i].0
  {
    seq(|pairs|, i requires 0 <= i < |pairs| => pairs[i].0)
  }

  /** `[fit for _, fit in pairs]`. */
  function Fitnesses<T>(pairs: seq<(T, int)>): (fitnesses: seq<int>)
    ensures |fitnesses| == |pairs|
    ensures forall i :: 0 <= i < |pairs| ==> fitnesses[i] == pairs[i].1
  {
    seq(|pairs|, i requires 0 <= i < |pairs| => pairs[i].1)
  }

  /** Reading the individuals and the fitnesses back out of the zipped
      list (app.py:93-94) undoes the pairing (app.py:64). */
  lemma UnzipZip<T>(population: seq<T>, fitnesses: seq<int>)
    requires |population| == |fitnesses|
    ensures Individuals(Zip(population, fitnesses)) == population
    ensures Fitnesses(Zip(population, fitnesses)) == fitnesses
  {
  }

  /** Every entry of `order` is a position below `n`. */
  predicate PositionsBelow(order: seq<nat>, n: nat) {
    forall a :: 0 <= a < |order| ==> order[a] < n
  }

  /** Where a stable sort by fitness puts entry `i` relative to entry `j`:
      first by fitness, and among equal fitnesses by original position. */
  predicate Precedes(fitnesses: seq<int>, i: nat, j: nat)
    requires i < |fitnesses| && j < |fitnesses|
  {
    fitnesses[i] < fitnesses[j] || (fitnesses[i] == fitnesses[j] && i < j)
  }

  /** `order` lists original positions in the order a stable sort by fitness
      produces: ascending fitness, ties kept in their original order. */
  predicate StablySorted(fitnesses: seq<int>, order: seq<nat>)
    requires PositionsBelow(order, |fitnesses|)
  {
    forall a, b :: 0 <= a < b < |order| ==> Precedes(fitnesses, order[a], order[b])
  }

  /** `order` is a rearrangement of the positions `0 .. n-1`: `n` distinct
      positions below `n` (an injective map of `0 .. n-1` into itself, hence
      onto). */
  predicate IsPermutation(order: seq<nat>, n: nat) {
    && |order| == n
    && PositionsBelow(order, n)
    && (forall a, b :: 0 <= a < b < |order| ==> order[a] != order[b])
  }

  /** Inserts position `x` in front of the first entry it precedes. */
  function Insert(fitnesses: seq<int>, order: seq<nat>, x: nat): (r: seq<nat>)
    requires x < |fitnesses| && PositionsBelow(order, |fitnesses|)
    ensures |r| == |order| + 1 && PositionsBelow(r, |fitnesses|)
    ensures multiset(r) == multiset(order) + multiset{x}
    decreases |order|
  {
    if order == [] then [x]
    else if Precedes(fitnesses, x, order[0]) then [x] + order
    else
      assert order == [order[0]] + order[1..];
      [order[0]] + Insert(fitnesses, order[1..], x)
  }

  /** Inserting a new position into a stably sorted order keeps it stably
      sorted. */
  lemma {:induction false} InsertKeepsStablySorted(fitnesses: seq<int>, order: seq<nat>, x: nat)
    requires x < |fitnesses| && PositionsBelow(order, |fitnesses|)
    requires StablySorted(fitnesses, order) && x !in order
    ensures StablySorted(fitnesses, Insert(fitnesses, order, x))
    decreases |order|
  {
    if order != [] && !Precedes(fitnesses, x, order[0]) {
      var tail := order[1..];
      var rest := Insert(fitnesses, tail, x);
      assert order == [order[0]] + tail;
      InsertKeepsStablySorted(fitnesses, tail, x);
      HeadPrecedesInsertion(fitnesses, order, x, rest);
      assert Insert(fitnesses, order, x) == [order[0]] + rest;
    }
  }

  /** When `x` goes after the head of a stably sorted order, the head still
      precedes every entry of the tail with `x` inserted. */
  lemma HeadPrecedesInsertion(fitnesses: seq<int>, order: seq<nat>, x: nat, rest: seq<nat>)
    requires x < |fitnesses| && PositionsBelow(order, |fitnesses|) && PositionsBelow(rest, |fitnesses|)
    requires 0 < |order| && StablySorted(fitnesses, order) && x !in order
    requires !Precedes(fitnesses, x, order[0])
    requires multiset(rest) == multiset(order[1..]) + multiset{x}
    ensures forall b :: 0 <= b < |rest| ==> Precedes(fitnesses, order[0], rest[b])
  {
    forall b | 0 <= b < |rest|
      ensures Precedes(fitnesses, order[0], rest[b])
    {
      assert rest[b] in multiset(rest);
      if rest[b] != x {
        assert rest[b] in order[1..];
      }
    }
  }

  /** The stable order of the first `m` positions, built by insertion. */
  function InsertionOrder(fitnesses: seq<int>, m: nat): (order: seq<nat>)
    requires m <= |fitnesses|
    ensures |order| == m && PositionsBelow(order, m)
    ensures PositionsBelow(order, |fitnesses|) && StablySorted(fitnesses, order)
  {
    if m == 0 then []
    else
      var x: nat := m - 1;
      var before := InsertionOrder(fitnesses, x);
      var order := Insert(fitnesses, before, x);
      InsertKeepsStablySorted(fitnesses, before, x);
      assert forall a :: 0 <= a < |order| ==> order[a] in multiset(before) + multiset{x} by {
        forall a | 0 <= a < |order| ensures order[a] in multiset(before) + multiset{x} {
          assert order[a] in multiset(order);
        }
      }
      order
  }

  /** The order in which `combined.sort(key=fitness)` leaves the entries,
      one position per entry (see `SortOrderIsStablePermutation`). */
  function SortOrder(fitnesses: seq<int>): (order: seq<nat>)
    ensures |order| == |fitnesses| && PositionsBelow(order, |fitnesses|)
  {
    InsertionOrder(fitnesses, |fitnesses|)
  }

  /** The positions `0 .. m-1`, in order. */
  function Positions(m: nat): (positions: seq<nat>)
    ensures |positions| == m && forall i :: 0 <= i < m ==> positions[i] == i
  {
    seq(m, i requires 0 <= i < m => i)
  }

  lemma PositionsGrow(m: nat)
    ensures Positions(m + 1) == Positions(m) + [m]
  {
  }

  lemma MultisetGrows(grown: seq<nat>, order: seq<nat>, positions: seq<nat>, x: nat)
    requires multiset(grown) == multiset(order) + multiset{x}
    requires multiset(order) == multiset(positions)
    ensures multiset(grown) == multiset(positions + [x])
  {
  }

  /** Insertion only rearranges positions: the order of the first `m`
      positions holds each of them exactly once. */
  lemma {:induction false} InsertionOrderRearrangesPositions(fitnesses: seq<int>, m: nat)
    requires m <= |fitnesses|
    ensures multiset(InsertionOrder(fitnesses, m)) == multiset(Positions(m))
  {
    if m > 0 {
      var x: nat := m - 1;
      var before := InsertionOrder(fitnesses, x);
      InsertionOrderRearrangesPositions(fitnesses, x);
      PositionsGrow(x);
      MultisetGrows(InsertionOrder(fitnesses, m), before, Positions(x), x);
    }
  }

  /** The sort order is a permutation of all positions (distinct, in range
      and covering every position), stably sorted by fitness. */
  lemma SortOrderIsStablePermutation(fitnesses: seq<int>)
    ensures IsPermutation(SortOrder(fitnesses), |fitnesses|)
    ensures forall j :: 0 <= j < |fitnesses| ==> j in SortOrder(fitnesses)
    ensures StablySorted(fitnesses, SortOrder(fitnesses))
  {
    var order := SortOrder(fitnesses);
    assert StablySorted(fitnesses, order);
    forall a, b | 0 <= a < b < |order|
      ensures order[a] != order[b]
    {
      assert Precedes(fitnesses, order[a], order[b]);
    }
    InsertionOrderRearrangesPositions(fitnesses, |fitnesses|);
    forall j | 0 <= j < |fitnesses|
      ensures j in order
    {
      assert Positions(|fitnesses|)[j] == j;
      assert j in multiset(order);
    }
  }

  function Min(a: nat, b: nat): nat {
    if a <= b then a else b
  }

  /** `combined.sort(key=lambda x: x[1])` on `zip(population, fitnesses)`.
      The sort only rearranges the pairs: the sorted list reads `combined`
      along a permutation of its positions (the stable order `SortOrder`),
      so every pair appears in it, and it leaves them ascending by fitness. */
  function SortByFitness<T>(population: seq<T>, fitnesses: seq<int>): (sorted: seq<(T, int)>)
    requires |population| == |fitnesses|
    ensures |sorted| == |population| && IsPermutation(SortOrder(fitnesses), |fitnesses|)
    ensures forall i :: 0 <= i < |sorted| ==>
      sorted[i] == (population[SortOrder(fitnesses)[i]], fitnesses[SortOrder(fitnesses)[i]])
    ensures forall j :: 0 <= j < |population| ==> Zip(population, fitnesses)[j] in sorted
    ensures forall a, b :: 0 <= a < b < |sorted| ==> sorted[a].1 <= sorted[b].1
  {
    var combined := Zip(population, fitnesses);
    var order := SortOrder(fitnesses);
    var sorted := seq(|order|, i requires 0 <= i < |order| => combined[order[i]]);
    SortOrderIsStablePermutation(fitnesses);
    ReadingAlongPermutationKeepsEveryPair(combined, order, sorted);
    ReadingAlongStableOrderAscends(fitnesses, order, sorted);
    sorted
  }

  /** Reading a list along an order that covers every position meets every
      entry of the list. */
  lemma ReadingAlongPermutationKeepsEveryPair<T>(combined: seq<(T, int)>, order: seq<nat>, sorted: seq<(T, int)>)
    requires PositionsBelow(order, |combined|) && |sorted| == |order|
    requires forall j :: 0 <= j < |combined| ==> j in order
    requires forall i :: 0 <= i < |sorted| ==> sorted[i] == combined[order[i]]
    ensures forall j :: 0 <= j < |combined| ==> combined[j] in sorted
  {
    forall j | 0 <= j < |combined|
      ensures combined[j] in sorted
    {
      assert j in order;
      var i :| 0 <= i < |order| && order[i] == j;
      assert sorted[i] == combined[j];
    }
  }

  /** Reading the fitnesses along a stable order gives them ascending. */
  lemma ReadingAlongStableOrderAscends<T>(fitnesses: seq<int>, order: seq<nat>, sorted: seq<(T, int)>)
    requires PositionsBelow(order, |fitnesses|) && StablySorted(fitnesses, order) && |sorted| == |order|
    requires forall i :: 0 <= i < |sorted| ==> sorted[i].1 == fitnesses[order[i]]
    ensures forall a, b :: 0 <= a < b < |sorted| ==> sorted[a].1 <= sorted[b].1
  {
    forall a, b | 0 <= a < b < |sorted|
      ensures sorted[a].1 <= sorted[b].1
    {
      assert Precedes(fitnesses, order[a], order[b]);
    }
  }

  /** `split_hall_of_fame`: the first `size` entries of the sorted list and
      the rest; slicing clamps `size` to the population. Entry `i` of the
      sorted list is the entry at position `SortOrder(fitnesses)[i]`. */
  function SplitHallOfFame<T>(population: seq<T>, fitnesses: seq<int>, size: nat)
    : (r: (seq<(T, int)>, seq<(T, int)>))
    requires |population| == |fitnesses|
    ensures |r.0| == Min(size, |population|)
    ensures |r.0| + |r.1| == |population|
    ensures var order := SortOrder(fitnesses);
      && (forall i :: 0 <= i < |r.0| ==> r.0[i] == (population[order[i]], fitnesses[order[i]]))
      && (forall i :: 0 <= i < |r.1| ==>
            r.1[i] == (population[order[|r.0| + i]], fitnesses[order[|r.0| + i]]))
  {
    var order := SortOrder(fitnesses);
    var sorted := seq(|order|, i requires 0 <= i < |order| => (population[order[i]], fitnesses[order[i]]));
    var m := Min(size, |sorted|);
    (sorted[..m], sorted[m..])
  }

  /** The entries of `population` at the given positions, in order. */
  function Gather<T>(population: seq<T>, positions: seq<nat>): (gathered: seq<T>)
    requires PositionsBelow(positions, |population|)
    ensures |gathered| == |positions|
    ensures forall i :: 0 <= i < |positions| ==> gathered[i] == population[positions[i]]
  {
    seq(|positions|, i requires 0 <= i < |positions| => population[positions[i]])
  }

  /** The hall of fame gathers the first `min(size, n)` positions of the
      sort order, and the pool gathers the rest, individuals and fitnesses
      alike: which entries land in which half depends on the fitnesses
      alone. */
  lemma SplitGathersSortOrder<T>(population: seq<T>, fitnesses: seq<int>, size: nat)
    requires |population| == |fitnesses|
    ensures var order := SortOrder(fitnesses);
      var m := Min(size, |population|);
      var (elites, rest) := SplitHallOfFame(population, fitnesses, size);
      && PositionsBelow(order[..m], |population|) && PositionsBelow(order[m..], |population|)
      && Individuals(elites) == Gather(population, order[..m])
      && Individuals(rest) == Gather(population, order[m..])
      && Fitnesses(rest) == Gather(fitnesses, order[m..])
  {
    ElitesGatherSortOrder(population, fitnesses, size);
    PoolGathersSortOrder(population, fitnesses, size);
  }

  lemma ElitesGatherSortOrder<T>(population: seq<T>, fitnesses: seq<int>, size: nat)
    requires |population| == |fitnesses|
    ensures var order := SortOrder(fitnesses);
      var m := Min(size, |population|);
      && PositionsBelow(order[..m], |population|)
      && Individuals(SplitHallOfFame(population, fitnesses, size).0) == Gather(population, order[..m])
  {
    var order := SortOrder(fitnesses);
    var m := Min(size, |population|);
    assert PositionsBelow(order[..m], |population|);
  }

  lemma PoolGathersSortOrder<T>(population: seq<T>, fitnesses: seq<int>, size: nat)
    requires |population| == |fitnesses|
    ensures var order := SortOrder(fitnesses);
      var m := Min(size, |population|);
      var rest := SplitHallOfFame(population, fitnesses, size).1;
      && PositionsBelow(order[m..], |population|)
      && Individuals(rest) == Gather(population, order[m..])
      && Fitnesses(rest) == Gather(fitnesses, order[m..])
  {
    var order := SortOrder(fitnesses);
    var m := Min(size, |population|);
    var rest := SplitHallOfFame(population, fitnesses, size).1;
    var positions := order[m..];
    assert PositionsBelow(positions, |population|);
    forall i | 0 <= i < |rest|
      ensures rest[i] == (population[positions[i]], fitnesses[positions[i]])
    {
      assert positions[i] == order[m + i];
    }
  }

  /** The two halves together are the sorted list (a stably sorted
      rearrangement of `zip(population, fitnesses)`, see
      `SortByFitness`), and no elite is less fit (higher)
      than any entry left in the pool. */
  lemma SplitHallOfFameIsSortedPermutation<T>(population: seq<T>, fitnesses: seq<int>, size: nat)
    requires |population| == |fitnesses|
    ensures var (elites, rest) := SplitHallOfFame(population, fitnesses, size);
      && elites + rest == SortByFitness(population, fitnesses)
      && (forall a, b :: 0 <= a < |elites| && 0 <= b < |rest| ==> elites[a].1 <= rest[b].1)
  {
    var (elites, rest) := SplitHallOfFame(population, fitnesses, size);
    var sorted := SortByFitness(population, fitnesses);
    var m := |elites|;
    assert elites + rest == sorted;
    forall a, b | 0 <= a < m && 0 <= b < |rest|
      ensures elites[a].1 <= rest[b].1
    {
      assert sorted[a] == elites[a] && sorted[m + b] == rest[b];
    }
  }

  /** The first elite is the fittest entry of the whole population. */
  lemma FirstEliteIsFittest<T>(population: seq<T>, fitnesses: seq<int>, size: nat)
    requires |population| == |fitnesses| && 0 < size && 0 < |population|
    ensures var elites := SplitHallOfFame(population, fitnesses, size).0;
      && |elites| > 0
      && elites[0] == (population[SortOrder(fitnesses)[0]], fitnesses[SortOrder(fitnesses)[0]])
      && forall i :: 0 <= i < |fitnesses| ==> elites[0].1 <= fitnesses[i]
  {
    var sorted := SortByFitness(population, fitnesses);
    var combined := Zip(population, fitnesses);
    SplitHallOfFameIsSortedPermutation(population, fitnesses, size);
    forall i | 0 <= i < |fitnesses|
      ensures sorted[0].1 <= fitnesses[i]
    {
      assert combined[i] in sorted;
    }
  }
}
