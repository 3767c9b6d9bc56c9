/** Two-point crossover (app.py:46-53). The two `random.randint` cut points
    are inputs. */
module Crossover {
  import opened Outcome
  import opened Genome

  /** The cut points `random.randint` can return for an individual of `size`
      genes: `1 <= cut1 <= size - 2` and `cut1 + 1 <= cut2 <= size - 1`. */
  predicate CutPointsValid(size: int, cut1: int, cut2: int) {
    1 <= cut1 <= size - 2 && cut1 + 1 <= cut2 <= size - 1
  }

  /** Swaps the segment `[cut1, cut2)` between the two parents. With fewer
      than three genes the first `randint` has an empty range and fails. */
  function TwoPointCrossover(parent1: seq<int>, parent2: seq<int>, cut1: int, cut2: int)
    : (r: Result<(seq<int>, seq<int>)>)
    requires |parent1| == |parent2|
    requires |parent1| >= 3 ==> CutPointsValid(|parent1|, cut1, cut2)
    ensures r.Err? <==> |parent1| < 3
    ensures r.Err? ==> r.error == EmptyCutRange
    ensures r.Ok? ==> |r.value.0| == |parent1| && |r.value.1| == |parent1|
    ensures r.Ok? ==> forall i :: 0 <= i < |parent1| ==>
      && r.value.0[i] == (if cut1 <= i < cut2 then parent2[i] else parent1[i])
      && r.value.1[i] == (if cut1 <= i < cut2 then parent1[i] else parent2[i])
  {
    if |parent1| < 3 then Err(EmptyCutRange)
    else
      Ok((parent1[..cut1] + parent2[cut1..cut2] + parent1[cut2..],
          parent2[..cut1] + parent1[cut1..cut2] + parent2[cut2..]))
  }

  /** Crossing the two children again at the same cut points gives back the
      parents. */
  lemma CrossoverRoundTrip(parent1: seq<int>, parent2: seq<int>, cut1: int, cut2: int)
    requires |parent1| == |parent2| >= 3
    requires CutPointsValid(|parent1|, cut1, cut2)
    ensures TwoPointCrossover(parent1, parent2, cut1, cut2).Ok?
    ensures var children := TwoPointCrossover(parent1, parent2, cut1, cut2).value;
            TwoPointCrossover(children.0, children.1, cut1, cut2) == Ok((parent1, parent2))
  {
    var children := TwoPointCrossover(parent1, parent2, cut1, cut2).value;
    var again := TwoPointCrossover(children.0, children.1, cut1, cut2).value;
    assert again.0 == parent1;
    assert again.1 == parent2;
  }

  /** At every position the two children hold the two parents' genes,
      possibly swapped: crossover neither creates nor loses a gene. */
  lemma CrossoverConservesGenes(parent1: seq<int>, parent2: seq<int>, cut1: int, cut2: int, i: int)
    requires |parent1| == |parent2| >= 3
    requires CutPointsValid(|parent1|, cut1, cut2)
    requires 0 <= i < |parent1|
    ensures var children := TwoPointCrossover(parent1, parent2, cut1, cut2).value;
            multiset{children.0[i], children.1[i]} == multiset{parent1[i], parent2[i]}
  {
  }

  /** Children of well-formed parents are well-formed. */
  lemma CrossoverKeepsWellFormed(parent1: seq<int>, parent2: seq<int>, cut1: int, cut2: int)
    requires WellFormed(parent1) && WellFormed(parent2)
    requires CutPointsValid(|parent1|, cut1, cut2)
    ensures var r := TwoPointCrossover(parent1, parent2, cut1, cut2);
            r.Ok? && WellFormed(r.value.0) && WellFormed(r.value.1)
  {
  }
}
