/** Individuals and populations (app.py:24-32). */
module Genome {

  /** `INDIVIDUAL_SIZE = len(car)`, the simulator's step budget MAX_STEPS. */
  const INDIVIDUAL_SIZE: nat := 200

  /** A gene is an action code, one of the values of `random.randint(0, 2)`. */
  predicate IsGene(g: int) {
    0 <= g <= 2
  }

  predicate AllGenes(genes: seq<int>) {
    forall i :: 0 <= i < |genes| ==> IsGene(genes[i])
  }

  /** The shape every individual of the engine has: INDIVIDUAL_SIZE genes. */
  predicate WellFormed(genes: seq<int>) {
    |genes| == INDIVIDUAL_SIZE && AllGenes(genes)
  }

  /** An individual is a mutable list of genes, changed in place by mutation. */
  type Individual = array<int>

  /** The gene contents of every individual of a population, in order. */
  function Genes(population: seq<Individual>): (genomes: seq<seq<int>>)
    reads population
    ensures |genomes| == |population|
    ensures forall i :: 0 <= i < |population| ==> genomes[i] == population[i][..]
  {
    if population == [] then [] else [population[0][..]] + Genes(population[1..])
  }

  /** A fresh list holding the given genes: what slicing, `[:]` and a list
      comprehension each allocate. */
  method NewIndividual(genes: seq<int>) returns (individual: Individual)
    ensures fresh(individual)
    ensures individual[..] == genes
  {
    individual := new int[|genes|](i requires 0 <= i < |genes| => genes[i]);
  }

  /** `create_individual`: one `random.randint(0, 2)` per position; the draws
      are the genes. */
  method CreateIndividual(draws: seq<int>) returns (individual: Individual)
    requires |draws| == INDIVIDUAL_SIZE && AllGenes(draws)
    ensures fresh(individual)
    ensures individual[..] == draws && WellFormed(individual[..])
  {
    individual := NewIndividual(draws);
  }

  /** `create_population(n)`: n freshly created individuals, no two of them
      the same list. */
  method CreatePopulation(n: nat, draws: seq<seq<int>>) returns (population: seq<Individual>)
    requires |draws| == n
    requires forall i :: 0 <= i < n ==> |draws[i]| == INDIVIDUAL_SIZE && AllGenes(draws[i])
    ensures |population| == n
    ensures forall i :: 0 <= i < n ==> fresh(population[i])
    ensures forall i, j :: 0 <= i < j < n ==> population[i] != population[j]
    ensures Genes(population) == draws
    ensures forall i :: 0 <= i < n ==> WellFormed(population[i][..])
  {
    population := [];
    for k := 0 to n
      invariant |population| == k
      invariant forall i :: 0 <= i < k ==> fresh(population[i])
      invariant forall i, j :: 0 <= i < j < k ==> population[i] != population[j]
      invariant forall i :: 0 <= i < k ==> population[i][..] == draws[i]
    {
      var individual := CreateIndividual(draws[k]);
      population := population + [individual];
    }
  }
}
