/** Per-gene mutation (app.py:55-60). Each position draws `random.random()`;
    when it falls below `indpb` the gene is replaced by `random.randint(0, 2)`. */
module Mutation {
  import opened Genome

  /** The draws for one position: `Keep` when `random.random() >= indpb`,
      `Resample(g)` when it fires and `randint` returned `g`. */
  datatype GeneDraw = Keep | Resample(gene: int)

  /** Every resampled value is one `randint(0, 2)` can return. */
  predicate ValidGeneDraws(draws: seq<GeneDraw>) {
    forall i :: 0 <= i < |draws| && draws[i].Resample? ==> IsGene(draws[i].gene)
  }

  /** The genes `mutate` leaves behind. */
  function Mutated(genes: seq<int>, draws: seq<GeneDraw>): seq<int>
    requires |draws| == |genes|
  {
    seq(|genes|, i requires 0 <= i < |genes| =>
      match draws[i]
      case Keep => genes[i]
      case Resample(g) => g)
  }

  /** `mutate`: overwrites, in place, each gene whose draw fires. */
  method Mutate(individual: Individual, draws: seq<GeneDraw>)
    requires |draws| == individual.Length
    modifies individual
    ensures individual[..] == Mutated(old(individual[..]), draws)
  {
    for i := 0 to individual.Length
      invariant forall j :: 0 <= j < i ==> individual[j] == Mutated(old(individual[..]), draws)[j]
      invariant forall j :: i <= j < individual.Length ==> individual[j] == old(individual[j])
    {
      if draws[i].Resample? {
        individual[i] := draws[i].gene;
      }
    }
  }

  /** Mutation keeps the length, leaves every position whose draw does not
      fire unchanged, and installs the drawn gene where it does. */
  lemma MutatedChangesOnlyDrawnGenes(genes: seq<int>, draws: seq<GeneDraw>)
    requires |draws| == |genes|
    ensures |Mutated(genes, draws)| == |genes|
    ensures forall i :: 0 <= i < |genes| && draws[i].Keep? ==> Mutated(genes, draws)[i] == genes[i]
    ensures forall i :: 0 <= i < |genes| && draws[i].Resample? ==> Mutated(genes, draws)[i] == draws[i].gene
  {
  }

  /** When no draw fires the individual comes back unchanged. */
  lemma MutatedWithoutDrawsIsIdentity(genes: seq<int>, draws: seq<GeneDraw>)
    requires |draws| == |genes|
    requires forall i :: 0 <= i < |draws| ==> draws[i].Keep?
    ensures Mutated(genes, draws) == genes
  {
  }

  /** Genes stay in {0, 1, 2}. */
  lemma MutatedKeepsAlphabet(genes: seq<int>, draws: seq<GeneDraw>)
    requires |draws| == |genes|
    requires AllGenes(genes) && ValidGeneDraws(draws)
    ensures AllGenes(Mutated(genes, draws))
    ensures WellFormed(genes) ==> WellFormed(Mutated(genes, draws))
  {
  }
}
