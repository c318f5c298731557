/** Specie of src/Neat.Core/Species/Specie.cs: a group of genomes whose
    fitness blends its best member ("rock star") with the group mean. */
module Species {
  import opened Wrappers
  import opened Genomes

  datatype Specie = Specie(genomes: seq<Genotype>)

  /** The weight of the best member in the blend. */
  const RockStarEffect: real := 0.2

  /** The members' historical fitness, summed. */
  function TotalFitness(genomes: seq<Genotype>): real
  {
    if |genomes| == 0 then 0.0 else genomes[0].historicalFitness + TotalFitness(genomes[1..])
  }

  /** The members' mean historical fitness (Average). */
  function MeanFitness(genomes: seq<Genotype>): real
    requires |genomes| > 0
  {
    TotalFitness(genomes) / (|genomes| as real)
  }

  /** The best historical fitness among the members (Max). */
  function MaxFitness(genomes: seq<Genotype>): (r: real)
    requires |genomes| > 0
    ensures forall g :: g in genomes ==> g.historicalFitness <= r
    ensures exists g :: g in genomes && g.historicalFitness == r
  {
    if |genomes| == 1 then genomes[0].historicalFitness
    else
      var rest := MaxFitness(genomes[1..]);
      assert forall g :: g in genomes ==> g == genomes[0] || g in genomes[1..];
      if genomes[0].historicalFitness >= rest then genomes[0].historicalFitness else rest
  }

  /** AverageFitness: 0.2 of the best plus 0.8 of the mean; Max and
      Average throw on an empty group. */
  function AverageFitness(specie: Specie): (r: Result<real>)
    ensures r.Success? <==> |specie.genomes| > 0
  {
    if |specie.genomes| == 0 then Failure(InvalidOperation("Sequence contains no elements"))
    else Success(RockStarEffect * MaxFitness(specie.genomes) + (1.0 - RockStarEffect) * MeanFitness(specie.genomes))
  }

  /** No member is above the best, so the total is at most count times it. */
  lemma {:induction false} TotalAtMost(genomes: seq<Genotype>, bound: real)
    requires forall g :: g in genomes ==> g.historicalFitness <= bound
    ensures TotalFitness(genomes) <= (|genomes| as real) * bound
  {
    if |genomes| > 0 {
      var rest := genomes[1..];
      assert genomes[0].historicalFitness <= bound by {
        assert genomes[0] in genomes;
      }
      assert forall g :: g in rest ==> g.historicalFitness <= bound by {
        assert forall g :: g in rest ==> g in genomes;
      }
      TotalAtMost(rest, bound);
      var m := |rest| as real;
      assert (|genomes| as real) * bound == m * bound + bound by {
        assert |genomes| as real == m + 1.0;
      }
    }
  }

  /** The blend lies between the mean and the best member. */
  lemma AverageFitnessBounds(specie: Specie)
    requires |specie.genomes| > 0
    ensures MeanFitness(specie.genomes) <= AverageFitness(specie).value <= MaxFitness(specie.genomes)
  {
    var gs := specie.genomes;
    TotalAtMost(gs, MaxFitness(gs));
    QuotientAtMost(TotalFitness(gs), |gs| as real, MaxFitness(gs));
  }

  lemma QuotientAtMost(total: real, n: real, bound: real)
    requires n > 0.0 && total <= n * bound
    ensures total / n <= bound
  {
    var q := total / n;
    assert q * n == total;
    assert (bound - q) * n >= 0.0;
  }

  /** A one-genome specie has that genome's fitness. */
  lemma AverageFitnessSingle(g: Genotype)
    ensures AverageFitness(Specie([g])) == Success(g.historicalFitness)
  {
    assert TotalFitness([g]) == g.historicalFitness + TotalFitness([]);
  }
}
