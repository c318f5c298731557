/** IncubatorService of src/Neat.Core/Evolution/IncubatorService.cs, the
    population manager. It culls every species down to its fittest
    members, shares the next generation's size out among the species in
    proportion to their AverageFitness, and then trims or grows each
    species to its share, breeding the missing members with MakeChildren.
    The random tie-breaks, shuffles and parent picks are draws the caller
    passes in; fitness is a real, so float rounding is not modelled. */
module Incubators {
  import opened Wrappers
  import opened Genomes
  import opened Species
  import opened GenomesContexts
  import opened Settings
  import Shuffles
  import Crossovers
  import Evolution

  // ---------------------------------------------------------------------
  // Rounding and Take

  /** Math.Round: the nearest integer, and the even one of two at a tie. */
  function RoundHalfEven(x: real): (r: int)
    ensures (r as real) - 0.5 <= x <= (r as real) + 0.5
    ensures x == (r as real) - 0.5 || x == (r as real) + 0.5 ==> r % 2 == 0
  {
    var f := x.Floor;
    var frac := x - f as real;
    if frac < 0.5 then f
    else if frac > 0.5 then f + 1
    else if f % 2 == 0 then f
    else f + 1
  }

  /** No integer is nearer to x than the rounded one. */
  lemma RoundIsNearest(x: real, k: int)
    ensures Abs(x - RoundHalfEven(x) as real) <= Abs(x - k as real)
  {
    var r := RoundHalfEven(x);
    if k < r {
      assert k as real <= r as real - 1.0;
    } else if k > r {
      assert k as real >= r as real + 1.0;
    }
  }

  /** Midpoints go to the even neighbour, in both directions. */
  lemma RoundHalfEvenExamples()
    ensures RoundHalfEven(0.5) == 0 && RoundHalfEven(1.5) == 2 && RoundHalfEven(2.5) == 2
    ensures RoundHalfEven(-0.5) == 0 && RoundHalfEven(2.4) == 2 && RoundHalfEven(2.6) == 3
  {
    assert (0.5).Floor == 0;
    assert (1.5).Floor == 1;
    assert (2.5).Floor == 2;
    assert (-0.5).Floor == -1;
    assert (2.4).Floor == 2;
    assert (2.6).Floor == 2;
  }

  function Abs(x: real): real
  {
    if x < 0.0 then -x else x
  }

  /** Take(n): the first n items, none for n <= 0, all when n is too big. */
  function Take<T>(s: seq<T>, n: int): (r: seq<T>)
    ensures |r| == (if n <= 0 then 0 else if n >= |s| then |s| else n)
    ensures r == s[..|r|]
  {
    if n <= 0 then [] else if n >= |s| then s else s[..n]
  }

  // ---------------------------------------------------------------------
  // Fittest first

  predicate FittestFirst(gs: seq<Genotype>)
  {
    forall i, j :: 0 <= i < j < |gs| ==> gs[i].historicalFitness >= gs[j].historicalFitness
  }

  /** Places g ahead of the first genome that is no fitter than it. */
  function Insert(g: Genotype, sorted: seq<Genotype>): (r: seq<Genotype>)
    ensures multiset(r) == multiset(sorted) + multiset{g}
    ensures |r| == |sorted| + 1
  {
    if |sorted| == 0 || sorted[0].historicalFitness <= g.historicalFitness then [g] + sorted
    else
      assert sorted == [sorted[0]] + sorted[1..];
      [sorted[0]] + Insert(g, sorted[1..])
  }

  lemma {:induction false} InsertOrders(g: Genotype, sorted: seq<Genotype>)
    requires FittestFirst(sorted)
    ensures FittestFirst(Insert(g, sorted))
  {
    if |sorted| == 0 || sorted[0].historicalFitness <= g.historicalFitness {
      ConsOrdered(g, sorted);
    } else {
      var rest := Insert(g, sorted[1..]);
      InsertOrders(g, sorted[1..]);
      InsertBounded(g, sorted[1..], sorted[0].historicalFitness);
      ConsOrdered(sorted[0], rest);
    }
  }

  /** Every genome of Insert(g, sorted) is a member of sorted or g itself,
      so a bound on their fitness bounds the result's. */
  lemma InsertBounded(g: Genotype, sorted: seq<Genotype>, bound: real)
    requires g.historicalFitness <= bound
    requires forall k :: 0 <= k < |sorted| ==> sorted[k].historicalFitness <= bound
    ensures forall k :: 0 <= k < |Insert(g, sorted)| ==> Insert(g, sorted)[k].historicalFitness <= bound
  {
    var r := Insert(g, sorted);
    forall k | 0 <= k < |r|
      ensures r[k].historicalFitness <= bound
    {
      assert r[k] in multiset(r);
      assert r[k] == g || r[k] in multiset(sorted);
      if r[k] != g {
        var j :| 0 <= j < |sorted| && sorted[j] == r[k];
      }
    }
  }

  /** A genome at least as fit as every genome of a fittest-first list
      can go in front of it. */
  lemma ConsOrdered(x: Genotype, rest: seq<Genotype>)
    requires FittestFirst(rest)
    requires forall k :: 0 <= k < |rest| ==> rest[k].historicalFitness <= x.historicalFitness
    ensures FittestFirst([x] + rest)
  {
    var all := [x] + rest;
    forall i, j | 0 <= i < j < |all|
      ensures all[i].historicalFitness >= all[j].historicalFitness
    {
      assert all[j] == rest[j - 1];
      if i > 0 {
        assert all[i] == rest[i - 1];
      }
    }
  }

  /** OrderByDescending on fitness: a stable insertion sort, so genomes of
      equal fitness keep their order. */
  function SortByFitness(gs: seq<Genotype>): (r: seq<Genotype>)
    ensures multiset(r) == multiset(gs)
    ensures |r| == |gs|
  {
    if |gs| == 0 then []
    else
      assert gs == [gs[0]] + gs[1..];
      Insert(gs[0], SortByFitness(gs[1..]))
  }

  lemma {:induction false} SortOrders(gs: seq<Genotype>)
    ensures FittestFirst(SortByFitness(gs))
  {
    if |gs| > 0 {
      SortOrders(gs[1..]);
      InsertOrders(gs[0], SortByFitness(gs[1..]));
    }
  }

  /** An ordered list comes out of the sort unchanged. */
  lemma {:induction false} SortKeepsOrdered(gs: seq<Genotype>)
    requires FittestFirst(gs)
    ensures SortByFitness(gs) == gs
  {
    if |gs| > 0 {
      SortKeepsOrdered(gs[1..]);
      assert gs == [gs[0]] + gs[1..];
    }
  }

  /** OrderByDescending(fitness).ThenBy(random): the draws shuffle the
      genomes, and the stable sort then leaves equal ones in shuffled order. */
  function BestFirst(gs: seq<Genotype>, picks: seq<nat>): (r: seq<Genotype>)
    ensures |r| == |gs|
  {
    SortByFitness(Shuffles.Shuffled(gs, picks))
  }

  /** The order is by descending fitness and loses nothing. */
  lemma BestFirstOrders(gs: seq<Genotype>, picks: seq<nat>)
    ensures FittestFirst(BestFirst(gs, picks))
    ensures multiset(BestFirst(gs, picks)) == multiset(gs)
  {
    SortOrders(Shuffles.Shuffled(gs, picks));
  }

  /** Every order by descending fitness, whatever it does with ties, is drawn
      by some draws. */
  lemma EveryBestFirst(gs: seq<Genotype>, order: seq<Genotype>) returns (picks: seq<nat>)
    requires multiset(order) == multiset(gs) && FittestFirst(order)
    ensures BestFirst(gs, picks) == order
  {
    picks := Shuffles.EveryOrder(gs, order);
    SortKeepsOrdered(order);
  }

  /** The first n of BestFirst are members, and none is less fit than a
      member left behind. */
  lemma FittestKept(gs: seq<Genotype>, picks: seq<nat>, n: int)
    ensures multiset(Take(BestFirst(gs, picks), n)) <= multiset(gs)
    ensures forall i, j :: 0 <= i < |Take(BestFirst(gs, picks), n)| <= j < |gs| ==>
              BestFirst(gs, picks)[i].historicalFitness >= BestFirst(gs, picks)[j].historicalFitness
  {
    var order := BestFirst(gs, picks);
    BestFirstOrders(gs, picks);
    var t := Take(order, n);
    assert order == t + order[|t|..];
  }

  /** The head of BestFirst has the group's best fitness. */
  lemma HeadIsBest(gs: seq<Genotype>, picks: seq<nat>)
    requires |gs| > 0
    ensures BestFirst(gs, picks)[0].historicalFitness == MaxFitness(gs)
  {
    BestFirstOrders(gs, picks);
    HeadIsMax(BestFirst(gs, picks), gs);
  }

  lemma HeadIsMax(order: seq<Genotype>, gs: seq<Genotype>)
    requires |gs| > 0 && FittestFirst(order) && multiset(order) == multiset(gs)
    ensures |order| > 0 && order[0].historicalFitness == MaxFitness(gs)
  {
    assert |order| == |multiset(order)| == |gs|;
    assert order[0] in multiset(gs);
    assert order[0].historicalFitness <= MaxFitness(gs);
    var g :| g in gs && g.historicalFitness == MaxFitness(gs);
    assert g in multiset(order);
    var j :| 0 <= j < |order| && order[j] == g;
    assert j == 0 || order[0].historicalFitness >= order[j].historicalFitness;
  }

  // ---------------------------------------------------------------------
  // CullSpecies

  predicate NoneEmpty(species: seq<Specie>)
  {
    forall i :: 0 <= i < |species| ==> |species[i].genomes| > 0
  }

  /** The lowest historical fitness among the members (Min). */
  function MinFitness(genomes: seq<Genotype>): (r: real)
    requires |genomes| > 0
    ensures forall g :: g in genomes ==> r <= g.historicalFitness
    ensures exists g :: g in genomes && g.historicalFitness == r
  {
    if |genomes| == 1 then genomes[0].historicalFitness
    else
      var rest := MinFitness(genomes[1..]);
      assert forall g :: g in genomes ==> g == genomes[0] || g in genomes[1..];
      if genomes[0].historicalFitness <= rest then genomes[0].historicalFitness else rest
  }

  /** The best fitness over every species: the best of the species
      BestIndex picks. */
  function BestOf(species: seq<Specie>): (r: real)
    requires |species| > 0 && NoneEmpty(species)
    ensures forall i :: 0 <= i < |species| ==> MaxFitness(species[i].genomes) <= r
    ensures exists i :: 0 <= i < |species| && MaxFitness(species[i].genomes) == r
  {
    MaxFitness(species[BestIndex(species)].genomes)
  }

  /** A species whose best fitness no other species exceeds. */
  function BestIndex(species: seq<Specie>): (k: nat)
    requires |species| > 0 && NoneEmpty(species)
    ensures k < |species|
    ensures forall i :: 0 <= i < |species| ==> MaxFitness(species[i].genomes) <= MaxFitness(species[k].genomes)
  {
    var n := |species| - 1;
    if n == 0 then 0
    else
      var k := BestIndex(species[..n]);
      var r := if MaxFitness(species[k].genomes) >= MaxFitness(species[n].genomes) then k else n;
      BestIndexStep(species, species[..n], k, r);
      r
  }

  /** Comparing the prefix's pick with the last species picks for all. */
  lemma BestIndexStep(species: seq<Specie>, prefix: seq<Specie>, k: nat, r: nat)
    requires |species| > 1 && NoneEmpty(species) && prefix == species[..|species| - 1] && k < |prefix|
    requires forall i :: 0 <= i < |prefix| ==> MaxFitness(prefix[i].genomes) <= MaxFitness(prefix[k].genomes)
    requires r == if MaxFitness(species[k].genomes) >= MaxFitness(species[|species| - 1].genomes) then k else |species| - 1
    ensures forall i :: 0 <= i < |species| ==> MaxFitness(species[i].genomes) <= MaxFitness(species[r].genomes)
  {
    var n := |species| - 1;
    var best := MaxFitness(species[r].genomes);
    var mk, mn := MaxFitness(species[k].genomes), MaxFitness(species[n].genomes);
    assert best >= mk && best >= mn by {
      if mk >= mn {
        assert r == k;
      } else {
        assert r == n;
      }
    }
    forall i | 0 <= i < |species|
      ensures MaxFitness(species[i].genomes) <= best
    {
      if i < n {
        assert species[i] == prefix[i] && species[k] == prefix[k];
        assert MaxFitness(prefix[i].genomes) <= MaxFitness(prefix[k].genomes);
      }
    }
  }

  /** The worst fitness over every species. */
  function WorstOf(species: seq<Specie>): (r: real)
    requires |species| > 0 && NoneEmpty(species)
    ensures forall i :: 0 <= i < |species| ==> r <= MinFitness(species[i].genomes)
  {
    var n := |species| - 1;
    var last := MinFitness(species[n].genomes);
    if n == 0 then last
    else
      var rest := WorstOf(species[..n]);
      var r := if rest <= last then rest else last;
      WorstOfStep(species, species[..n], rest, r);
      r
  }

  /** The smaller of the prefix's worst and the last species' worst bounds
      every species. */
  lemma WorstOfStep(species: seq<Specie>, prefix: seq<Specie>, rest: real, r: real)
    requires |species| > 1 && NoneEmpty(species) && prefix == species[..|species| - 1]
    requires forall i :: 0 <= i < |prefix| ==> rest <= MinFitness(prefix[i].genomes)
    requires r == if rest <= MinFitness(species[|species| - 1].genomes) then rest else MinFitness(species[|species| - 1].genomes)
    ensures forall i :: 0 <= i < |species| ==> r <= MinFitness(species[i].genomes)
  {
    forall i | 0 <= i < |species|
      ensures r <= MinFitness(species[i].genomes)
    {
      if i < |prefix| {
        assert species[i] == prefix[i];
        assert rest <= MinFitness(prefix[i].genomes);
      }
    }
  }

  /** How many members culling keeps: max(1, round(n * (1 - killRate))). */
  function KeepCount(n: nat, killRate: real): nat
  {
    var rounded := RoundHalfEven(n as real * (1.0 - killRate));
    if rounded > 1 then rounded else 1
  }

  /** With a kill rate in [0, 1] a non-empty species keeps between one
      member and all of them, and all of them when nothing is killed. */
  lemma KeepCountBounds(n: nat, killRate: real)
    requires n >= 1 && 0.0 <= killRate <= 1.0
    ensures 1 <= KeepCount(n, killRate) <= n
    ensures killRate == 0.0 ==> KeepCount(n, killRate) == n
  {
    var nr := n as real;
    var x := nr * (1.0 - killRate);
    assert x == nr - nr * killRate;
    assert nr * killRate >= 0.0;
    var r := RoundHalfEven(x);
    assert (r as real) <= n as real + 0.5;
    if killRate == 0.0 {
      assert x == n as real;
      assert r == n;
    }
  }

  /** Half of five is two and a half, which rounds to two; half of three
      rounds up to two. */
  lemma KeepCountExamples()
    ensures KeepCount(5, 0.5) == 2 && KeepCount(3, 0.5) == 2 && KeepCount(1, 0.5) == 1
  {
    assert (2.5).Floor == 2;
    assert (1.5).Floor == 1;
    assert (0.5).Floor == 0;
  }

  /** A species after culling: its KeepCount fittest members, fittest first. */
  function Culled(s: Specie, killRate: real, picks: seq<nat>): Specie
  {
    Specie(Take(BestFirst(s.genomes, picks), KeepCount(|s.genomes|, killRate)))
  }

  /** The second Where: more than one member left, or the one left is
      fitter than halfway between the worst and the best of the input. */
  predicate Survives(s: Specie, best: real, worst: real)
  {
    |s.genomes| > 0 && (|s.genomes| > 1 || s.genomes[0].historicalFitness > worst + (best - worst) * 0.5)
  }

  lemma SurvivorsHaveMembers(kept: seq<Specie>, best: real, worst: real)
    requires forall k :: 0 <= k < |kept| ==> Survives(kept[k], best, worst)
    ensures NoneEmpty(kept)
  {
    forall k | 0 <= k < |kept|
      ensures |kept[k].genomes| > 0
    {
      assert Survives(kept[k], best, worst);
    }
  }

  /** Every species, culled; `draws(i)` orders the ties of species i. */
  function CulledAll(species: seq<Specie>, killRate: real, draws: nat -> seq<nat>): (r: seq<Specie>)
    ensures |r| == |species|
  {
    if |species| == 0 then []
    else CulledAll(species[..|species| - 1], killRate, draws) + [Culled(species[|species| - 1], killRate, draws(|species| - 1))]
  }

  lemma {:induction false} CulledAt(species: seq<Specie>, killRate: real, draws: nat -> seq<nat>, i: nat)
    requires i < |species|
    ensures CulledAll(species, killRate, draws)[i] == Culled(species[i], killRate, draws(i))
  {
    if i < |species| - 1 {
      CulledAt(species[..|species| - 1], killRate, draws, i);
    }
  }

  /** The culled species among the first n that survive, in input order. */
  function Surviving(culled: seq<Specie>, best: real, worst: real, n: nat): (r: seq<Specie>)
    requires n <= |culled|
    ensures forall k :: 0 <= k < |r| ==> Survives(r[k], best, worst)
  {
    if n == 0 then []
    else
      var rest := Surviving(culled, best, worst, n - 1);
      if Survives(culled[n - 1], best, worst) then rest + [culled[n - 1]] else rest
  }

  /** SelectMany over the species' genomes. */
  function AllGenomes(species: seq<Specie>): seq<Genotype>
  {
    if |species| == 0 then [] else AllGenomes(species[..|species| - 1]) + species[|species| - 1].genomes
  }

  /** (int)Math.Max(1, total * killRate): truncation of a value at least 1. */
  function FallbackCount(total: nat, killRate: real): nat
  {
    var x := total as real * killRate;
    if x > 1.0 then x.Floor else 1
  }

  /** CullSpecies. Max and Min throw on an empty input or an empty species;
      when no species survives, the first FallbackCount genomes of the
      input, in input order, form the one species left. `draws(i)` orders
      the ties of species i. */
  function CullSpecies(species: seq<Specie>, killRate: real, draws: nat -> seq<nat>): (r: Result<seq<Specie>>)
    ensures r.Success? <==> |species| > 0 && NoneEmpty(species)
    ensures r.Success? ==> |r.value| > 0 && NoneEmpty(r.value)
  {
    if |species| == 0 || !NoneEmpty(species) then Failure(InvalidOperation("Sequence contains no elements"))
    else
      var kept := Surviving(CulledAll(species, killRate, draws), BestOf(species), WorstOf(species), |species|);
      if |kept| > 0 then
        SurvivorsHaveMembers(kept, BestOf(species), WorstOf(species));
        Success(kept)
      else
        var fallback := Fallback(species, killRate);
        assert [fallback][0] == fallback;
        Success([fallback])
  }

  /** The species CullSpecies falls back on: the first FallbackCount genomes
      of the input, in input order. */
  function Fallback(species: seq<Specie>, killRate: real): (r: Specie)
    requires |species| > 0 && NoneEmpty(species)
    ensures |r.genomes| > 0
  {
    var all := AllGenomes(species);
    AllGenomesNonEmpty(species);
    Specie(Take(all, FallbackCount(|all|, killRate)))
  }

  lemma {:induction false} AllGenomesNonEmpty(species: seq<Specie>)
    requires |species| > 0 && NoneEmpty(species)
    ensures |AllGenomes(species)| > 0
  {
  }

  /** Every culled species that passes the second Where is kept. */
  lemma {:induction false} SurvivorKept(culled: seq<Specie>, best: real, worst: real, n: nat, i: nat)
    requires i < n <= |culled| && Survives(culled[i], best, worst)
    ensures culled[i] in Surviving(culled, best, worst, n)
  {
    if i < n - 1 {
      SurvivorKept(culled, best, worst, n - 1, i);
    }
  }

  /** Every survivor is one of the culled species. */
  lemma {:induction false} SurvivorFrom(culled: seq<Specie>, best: real, worst: real, n: nat, c: Specie) returns (i: nat)
    requires n <= |culled| && c in Surviving(culled, best, worst, n)
    ensures i < n && c == culled[i]
  {
    var rest := Surviving(culled, best, worst, n - 1);
    if c in rest {
      i := SurvivorFrom(culled, best, worst, n - 1, c);
    } else {
      i := n - 1;
    }
  }

  /** A culled species is the KeepCount fittest members of its source. */
  lemma CulledIsFittest(s: Specie, killRate: real, picks: seq<nat>)
    ensures |Culled(s, killRate, picks).genomes| == (if KeepCount(|s.genomes|, killRate) <= |s.genomes| then KeepCount(|s.genomes|, killRate) else |s.genomes|)
    ensures multiset(Culled(s, killRate, picks).genomes) <= multiset(s.genomes)
    ensures forall i, j :: 0 <= i < |Culled(s, killRate, picks).genomes| <= j < |s.genomes| ==>
              Culled(s, killRate, picks).genomes[i].historicalFitness >= BestFirst(s.genomes, picks)[j].historicalFitness
  {
    BestFirstOrders(s.genomes, picks);
    FittestKept(s.genomes, picks, KeepCount(|s.genomes|, killRate));
  }

  /** Culling never drops a species' best member. */
  lemma CulledHead(s: Specie, killRate: real, picks: seq<nat>)
    requires |s.genomes| > 0
    ensures |Culled(s, killRate, picks).genomes| > 0
    ensures Culled(s, killRate, picks).genomes[0].historicalFitness == MaxFitness(s.genomes)
  {
    HeadIsBest(s.genomes, picks);
  }

  /** The fallback species only forms when every genome of the input has
      the same fitness: the species holding the best genome keeps it
      first, and it passes the second Where unless best == worst. */
  lemma FallbackOnlyWhenUniform(species: seq<Specie>, killRate: real, draws: nat -> seq<nat>)
    requires |species| > 0 && NoneEmpty(species)
    requires Surviving(CulledAll(species, killRate, draws), BestOf(species), WorstOf(species), |species|) == []
    ensures BestOf(species) == WorstOf(species)
  {
    var i :| 0 <= i < |species| && MaxFitness(species[i].genomes) == BestOf(species);
    MinAtMostMax(species[i].genomes);
    if BestOf(species) > WorstOf(species) {
      BestSurvives(species, killRate, draws, i);
    }
  }

  lemma BestSurvives(species: seq<Specie>, killRate: real, draws: nat -> seq<nat>, i: nat)
    requires |species| > 0 && NoneEmpty(species) && BestOf(species) > WorstOf(species)
    requires i < |species| && MaxFitness(species[i].genomes) == BestOf(species)
    ensures Surviving(CulledAll(species, killRate, draws), BestOf(species), WorstOf(species), |species|) != []
  {
    var best, worst := BestOf(species), WorstOf(species);
    var culled := CulledAll(species, killRate, draws);
    CulledAt(species, killRate, draws, i);
    CulledHead(species[i], killRate, draws(i));
    assert Survives(culled[i], best, worst);
    SurvivorKept(culled, best, worst, |species|, i);
  }

  lemma MinAtMostMax(genomes: seq<Genotype>)
    requires |genomes| > 0
    ensures MinFitness(genomes) <= MaxFitness(genomes)
  {
    assert genomes[0] in genomes;
  }


  // ---------------------------------------------------------------------
  // CountSpeciesOffspring

  /** A species with the number of members it should end with; the
      drift correction updates the count in place. */
  datatype SpecieWithOffspring = SpecieWithOffspring(specie: Specie, offspringCount: int)

  /** Below this summed fitness every genome goes into one species. */
  const FitnessFloor: real := 0.0001

  /** The species' AverageFitness, summed. */
  function FitnessSum(species: seq<Specie>): real
    requires NoneEmpty(species)
  {
    if |species| == 0 then 0.0
    else FitnessSum(species[..|species| - 1]) + AverageFitness(species[|species| - 1]).value
  }

  /** A species' share of the target: round(AverageFitness / total * target). */
  function Share(s: Specie, total: real, target: int): int
    requires |s.genomes| > 0 && total != 0.0
  {
    RoundHalfEven(AverageFitness(s).value / total * target as real)
  }

  /** The Select and the first Where: each species with its share, those
      whose share is not positive dropped. */
  function Shares(species: seq<Specie>, total: real, target: int): (r: seq<SpecieWithOffspring>)
    requires NoneEmpty(species) && total != 0.0
    ensures forall k :: 0 <= k < |r| ==> r[k].offspringCount > 0
  {
    if |species| == 0 then []
    else
      var rest := Shares(species[..|species| - 1], total, target);
      var last := species[|species| - 1];
      var count := Share(last, total, target);
      if count > 0 then rest + [SpecieWithOffspring(last, count)] else rest
  }

  /** The offspring counts, summed. */
  function Counted(entries: seq<SpecieWithOffspring>): int
  {
    if |entries| == 0 then 0 else Counted(entries[..|entries| - 1]) + entries[|entries| - 1].offspringCount
  }

  /** The entries after the foreach: those whose index is chosen moved by delta. */
  function Shifted(entries: seq<SpecieWithOffspring>, chosen: seq<nat>, delta: int): (r: seq<SpecieWithOffspring>)
    ensures |r| == |entries|
  {
    seq(|entries|, i requires 0 <= i < |entries| =>
      entries[i].(offspringCount := entries[i].offspringCount + (if i in chosen then delta else 0)))
  }

  /** The last Where: the entries whose count is positive. */
  function Positive(entries: seq<SpecieWithOffspring>): (r: seq<SpecieWithOffspring>)
    ensures forall k :: 0 <= k < |r| ==> r[k].offspringCount > 0
  {
    if |entries| == 0 then []
    else
      var rest := Positive(entries[..|entries| - 1]);
      var last := entries[|entries| - 1];
      if last.offspringCount > 0 then rest + [last] else rest
  }

  function Sign(x: int): int
  {
    if x > 0 then 1 else if x < 0 then -1 else 0
  }

  function AbsInt(x: int): nat
  {
    if x < 0 then -x else x
  }

  function Indices(n: nat): (r: seq<nat>)
    ensures |r| == n && forall i :: 0 <= i < n ==> r[i] == i
  {
    seq(n, i requires 0 <= i < n => i)
  }

  /** The entries the foreach visits: Shuffle().Take(|diff|) of the list. */
  function Chosen(n: nat, diff: int, picks: seq<nat>): seq<nat>
  {
    Take(Shuffles.Shuffled(Indices(n), picks), AbsInt(diff))
  }

  /** CountSpeciesOffspring, as a value. AverageFitness throws on an empty
      species; below FitnessFloor all genomes form one species with the
      whole target; otherwise the shares are rounded, |diff| shuffled
      entries move one step towards the target and the entries left at
      zero are dropped. */
  function Allotment(species: seq<Specie>, target: int, picks: seq<nat>): (r: Result<seq<SpecieWithOffspring>>)
    ensures r.Success? <==> NoneEmpty(species)
  {
    if !NoneEmpty(species) then Failure(InvalidOperation("Sequence contains no elements"))
    else
      var total := FitnessSum(species);
      if total < FitnessFloor then Success([SpecieWithOffspring(Specie(AllGenomes(species)), target)])
      else
        var shares := Shares(species, total, target);
        var diff := target - Counted(shares);
        Success(Positive(Shifted(shares, Chosen(|shares|, diff, picks), Sign(diff))))
  }

  predicate Unique(s: seq<nat>)
  {
    forall i, j :: 0 <= i < j < |s| ==> s[i] != s[j]
  }

  /** A shuffle of 0..n-1 lists every index once. */
  lemma ChosenIndices(n: nat, diff: int, picks: seq<nat>)
    ensures Unique(Chosen(n, diff, picks))
    ensures forall i :: 0 <= i < |Chosen(n, diff, picks)| ==> Chosen(n, diff, picks)[i] < n
    ensures |Chosen(n, diff, picks)| == if AbsInt(diff) <= n then AbsInt(diff) else n
  {
    var order := Shuffles.Shuffled(Indices(n), picks);
    ShuffledUnique(Indices(n), picks);
    forall i | 0 <= i < |order| ensures order[i] < n {
      assert order[i] in multiset(Indices(n));
    }
  }

  lemma {:induction false} ShuffledUnique(items: seq<nat>, picks: seq<nat>)
    requires Unique(items)
    ensures Unique(Shuffles.Shuffled(items, picks))
    decreases |items|
  {
    if |items| > 0 {
      var k := (if |picks| > 0 then picks[0] else 0) % |items|;
      var rest := items[..k] + items[k + 1..];
      var tail := if |picks| > 0 then picks[1..] else [];
      assert Unique(rest) by {
        forall i, j | 0 <= i < j < |rest| ensures rest[i] != rest[j] {
          var i' := if i < k then i else i + 1;
          var j' := if j < k then j else j + 1;
          assert rest[i] == items[i'] && rest[j] == items[j'];
        }
      }
      assert items[k] !in rest;
      ShuffledUnique(rest, tail);
      var shuffled := Shuffles.Shuffled(rest, tail);
      assert Shuffles.Shuffled(items, picks) == [items[k]] + shuffled;
      forall j | 0 <= j < |shuffled| ensures shuffled[j] != items[k] {
        assert shuffled[j] in multiset(rest);
      }
    }
  }

  /** One more chosen index moves one more entry. */
  lemma ShiftedStep(entries: seq<SpecieWithOffspring>, chosen: seq<nat>, k: nat, delta: int)
    requires k < |chosen| && Unique(chosen) && chosen[k] < |entries|
    ensures Shifted(entries, chosen[..k + 1], delta)
         == Shifted(entries, chosen[..k], delta)[chosen[k] := Shifted(entries, chosen[..k], delta)[chosen[k]].(offspringCount := Shifted(entries, chosen[..k], delta)[chosen[k]].offspringCount + delta)]
  {
    assert chosen[k] !in chosen[..k];
    assert forall i :: i in chosen[..k + 1] <==> i in chosen[..k] || i == chosen[k];
  }

  /** CountSpeciesOffspring: the drift correction updates the entries of a
      list in place, one shuffled entry at a time. */
  method CountSpeciesOffspring(species: seq<Specie>, target: int, picks: seq<nat>) returns (r: Result<seq<SpecieWithOffspring>>)
    ensures r == Allotment(species, target, picks)
  {
    if !NoneEmpty(species) {
      return Failure(InvalidOperation("Sequence contains no elements"));
    }
    var total := FitnessSum(species);
    if total < FitnessFloor {
      return Success([SpecieWithOffspring(Specie(AllGenomes(species)), target)]);
    }
    var shares := Shares(species, total, target);
    var result := new SpecieWithOffspring[|shares|](i requires 0 <= i < |shares| => shares[i]);
    var diff := target - Counted(shares);
    var chosen := Chosen(|shares|, diff, picks);
    ChosenIndices(|shares|, diff, picks);
    assert result[..] == Shifted(shares, chosen[..0], Sign(diff));
    for k := 0 to |chosen|
      invariant result[..] == Shifted(shares, chosen[..k], Sign(diff))
    {
      var entry := chosen[k];
      ShiftedStep(shares, chosen, k, Sign(diff));
      result[entry] := result[entry].(offspringCount := result[entry].offspringCount + Sign(diff));
    }
    assert chosen[..|chosen|] == chosen;
    r := Success(Positive(result[..]));
  }

  // ---------------------------------------------------------------------
  // What the allotment adds up to

  lemma {:induction false} CountedUpdate(entries: seq<SpecieWithOffspring>, e: nat, delta: int)
    requires e < |entries|
    ensures Counted(entries[e := entries[e].(offspringCount := entries[e].offspringCount + delta)]) == Counted(entries) + delta
  {
    var n := |entries|;
    var updated := entries[e := entries[e].(offspringCount := entries[e].offspringCount + delta)];
    if e < n - 1 {
      assert updated[..n - 1] == entries[..n - 1][e := entries[e].(offspringCount := entries[e].offspringCount + delta)];
      CountedUpdate(entries[..n - 1], e, delta);
    } else {
      assert updated[..n - 1] == entries[..n - 1];
    }
  }

  /** Each chosen entry moves by delta, so the sum moves by delta per entry. */
  lemma {:induction false} CountedShifted(entries: seq<SpecieWithOffspring>, chosen: seq<nat>, delta: int)
    requires Unique(chosen) && forall i :: 0 <= i < |chosen| ==> chosen[i] < |entries|
    ensures Counted(Shifted(entries, chosen, delta)) == Counted(entries) + delta * |chosen|
    decreases |chosen|
  {
    if |chosen| == 0 {
      ShiftedNone(entries, chosen, delta);
    } else {
      var k := |chosen| - 1;
      assert Unique(chosen[..k]) && forall i :: 0 <= i < k ==> chosen[..k][i] < |entries|;
      CountedShifted(entries, chosen[..k], delta);
      CountedShiftedStep(entries, chosen, delta);
      assert delta * |chosen| == delta * k + delta;
    }
  }

  lemma ShiftedNone(entries: seq<SpecieWithOffspring>, chosen: seq<nat>, delta: int)
    requires |chosen| == 0
    ensures Shifted(entries, chosen, delta) == entries
  {
    var r := Shifted(entries, chosen, delta);
    forall i | 0 <= i < |entries|
      ensures r[i] == entries[i]
    {
      assert i !in chosen;
    }
  }

  /** The last chosen entry moves the sum by delta. */
  lemma CountedShiftedStep(entries: seq<SpecieWithOffspring>, chosen: seq<nat>, delta: int)
    requires |chosen| > 0 && Unique(chosen) && chosen[|chosen| - 1] < |entries|
    ensures Counted(Shifted(entries, chosen, delta)) == Counted(Shifted(entries, chosen[..|chosen| - 1], delta)) + delta
  {
    var k := |chosen| - 1;
    ShiftedStep(entries, chosen, k, delta);
    assert chosen[..k + 1] == chosen;
    CountedUpdate(Shifted(entries, chosen[..k], delta), chosen[k], delta);
  }

  /** Dropping entries at zero keeps the sum. */
  lemma {:induction false} CountedPositive(entries: seq<SpecieWithOffspring>)
    requires forall k :: 0 <= k < |entries| ==> entries[k].offspringCount >= 0
    ensures Counted(Positive(entries)) == Counted(entries)
  {
    if |entries| > 0 {
      CountedPositive(entries[..|entries| - 1]);
    }
  }

  /** When the rounding drift is no larger than the number of entries, the
      counts add up to the target, as the source's Debug.Assert expects, and
      every species keeps a positive count. */
  lemma AllotmentReachesTarget(species: seq<Specie>, target: int, picks: seq<nat>)
    requires NoneEmpty(species) && FitnessSum(species) >= FitnessFloor
    requires AbsInt(target - Counted(Shares(species, FitnessSum(species), target))) <= |Shares(species, FitnessSum(species), target)|
    ensures Counted(Allotment(species, target, picks).value) == target
    ensures forall k :: 0 <= k < |Allotment(species, target, picks).value| ==> Allotment(species, target, picks).value[k].offspringCount > 0
  {
    var shares := Shares(species, FitnessSum(species), target);
    var diff := target - Counted(shares);
    var chosen := Chosen(|shares|, diff, picks);
    ChosenIndices(|shares|, diff, picks);
    var shifted := Shifted(shares, chosen, Sign(diff));
    assert Allotment(species, target, picks).value == Positive(shifted);
    CountedShifted(shares, chosen, Sign(diff));
    assert |chosen| == AbsInt(diff);
    if diff > 0 {
      assert Sign(diff) * |chosen| == diff;
    } else if diff < 0 {
      assert Sign(diff) * |chosen| == diff;
    }
    forall k | 0 <= k < |shifted| ensures shifted[k].offspringCount >= 0 {
      assert shares[k].offspringCount > 0;
    }
    CountedPositive(shifted);
  }

  /** The drift can exceed the entries: two species of equal fitness and a
      target of one each round their half share to zero, both are dropped,
      and the allotment is empty, one short of the target. */
  lemma DriftBeyondEntries(g: Genotype)
    requires g.historicalFitness == 1.0
    ensures Allotment([Specie([g]), Specie([g])], 1, []) == Success([])
  {
    var species := [Specie([g]), Specie([g])];
    AverageFitnessSingle(g);
    assert FitnessSum(species[..1]) == 1.0;
    assert FitnessSum(species) == 2.0;
    assert (0.5).Floor == 0;
    assert Share(Specie([g]), 2.0, 1) == 0;
    assert Shares(species[..1], 2.0, 1) == [];
    assert Shares(species, 2.0, 1) == [];
  }

  // ---------------------------------------------------------------------
  // BuildNewPopulation

  /** Except([parent]): the members other than parent, each once, in
      first-occurrence order. Genomes are compared by value here, where
      .NET's record equality compares their neuron and synapse arrays by
      reference; the two agree because every genome carries a fresh id. */
  function Except(genomes: seq<Genotype>, parent: Genotype): (r: seq<Genotype>)
    ensures forall g :: g in r <==> g in genomes && g != parent
    ensures forall i, j :: 0 <= i < j < |r| ==> r[i] != r[j]
    ensures |r| == 0 <==> forall g :: g in genomes ==> g == parent
  {
    if |genomes| == 0 then []
    else
      var rest := Except(genomes[..|genomes| - 1], parent);
      var last := genomes[|genomes| - 1];
      assert forall g :: g in genomes <==> g in genomes[..|genomes| - 1] || g == last;
      if last == parent || last in rest then rest
      else
        assert last in genomes;
        rest + [last]
  }

  /** The draws one child takes: Random for each parent, then the
      crossover's choices, the child's Guid and Mutate's rolls. */
  datatype Breeding = Breeding(first: seq<nat>, second: seq<nat>, pick: seq<Crossovers.Gene> -> nat, id: nat,
                               mutation: Evolution.Draws)

  /** Two parents can be drawn: the one member breeds with itself, or
      there are two members that differ. */
  predicate CanPair(genomes: seq<Genotype>)
  {
    |genomes| == 1 || exists i :: 0 <= i < |genomes| && genomes[i] != genomes[0]
  }

  lemma ExceptNonEmpty(genomes: seq<Genotype>, parent: Genotype)
    requires |genomes| > 1 && parent in genomes
    ensures |Except(genomes, parent)| > 0 <==> CanPair(genomes)
  {
    if CanPair(genomes) {
      var i :| 0 <= i < |genomes| && genomes[i] != genomes[0];
      if parent == genomes[0] {
        assert genomes[i] in Except(genomes, parent);
      } else {
        assert genomes[0] in Except(genomes, parent);
      }
    } else {
      forall g | g in genomes ensures g == parent {
        var j :| 0 <= j < |genomes| && genomes[j] == parent;
        var k :| 0 <= k < |genomes| && genomes[k] == g;
      }
    }
  }

  /** The parents of one child: parent1 by Random, parent2 by Random over
      the others (or over all when there is one member); Random throws on
      an empty list. PreferParent1 when parent1 is strictly fitter. */
  function Parents(genomes: seq<Genotype>, b: Breeding): (r: Result<Crossovers.EvolutionArgs>)
    ensures r.Success? <==> CanPair(genomes)
    ensures r.Success? ==> r.value.parent1 in genomes && r.value.parent2 in genomes
    ensures r.Success? && |genomes| > 1 ==> r.value.parent1 != r.value.parent2
    ensures r.Success? ==> (r.value.preferParent1 <==> r.value.parent1.historicalFitness > r.value.parent2.historicalFitness)
  {
    var first := Shuffles.RandomItem(genomes, b.first);
    if first.Failure? then Failure(first.error)
    else
      var others := if |genomes| == 1 then genomes else Except(genomes, first.value);
      var second := Shuffles.RandomItem(others, b.second);
      if |genomes| > 1 then
        ExceptNonEmpty(genomes, first.value);
        Paired(first.value, second)
      else Paired(first.value, second)
  }

  function Paired(parent1: Genotype, second: Result<Genotype>): Result<Crossovers.EvolutionArgs>
  {
    if second.Failure? then Failure(second.error)
    else Success(Crossovers.EvolutionArgs(parent1, second.value, parent1.historicalFitness > second.value.historicalFitness))
  }

  /** Any two different members can be drawn as the parents, in either role. */
  lemma ParentsReach(genomes: seq<Genotype>, i: nat, j: nat, b: Breeding) returns (b': Breeding)
    requires i < |genomes| && j < |genomes| && genomes[i] != genomes[j]
    ensures Parents(genomes, b').Success?
    ensures Parents(genomes, b').value.parent1 == genomes[i] && Parents(genomes, b').value.parent2 == genomes[j]
  {
    var first := Shuffles.RandomReaches(genomes, i);
    var others := Except(genomes, genomes[i]);
    assert genomes[j] in others;
    var k :| 0 <= k < |others| && others[k] == genomes[j];
    var second := Shuffles.RandomReaches(others, k);
    b' := b.(first := first, second := second);
  }

  /** `child` is what MakeChildren yields from parents drawn by `b`. */
  ghost predicate Bred(genomes: seq<Genotype>, s: EvolutionSettings, b: Breeding, child: Genotype, m: map<nat, Innovation>)
    requires Evolution.WellDrawn(b.mutation)
  {
    var parents := Parents(genomes, b);
    parents.Success? && Evolution.Outcome(Crossovers.Crossover(parents.value, b.pick, b.id), s, b.mutation, child, m)
  }

  lemma BredFrom(genomes: seq<Genotype>, s: EvolutionSettings, b: Breeding, parents: Crossovers.EvolutionArgs,
                 child: Genotype, m: map<nat, Innovation>)
    requires Evolution.WellDrawn(b.mutation) && Parents(genomes, b) == Success(parents)
    requires Evolution.Outcome(Crossovers.Crossover(parents, b.pick, b.id), s, b.mutation, child, m)
    ensures Bred(genomes, s, b, child, m)
  {
  }

  lemma BredExtends(genomes: seq<Genotype>, s: EvolutionSettings, b: Breeding, child: Genotype,
                    m: map<nat, Innovation>, m': map<nat, Innovation>)
    requires Evolution.WellDrawn(b.mutation) && Bred(genomes, s, b, child, m) && Extends(m, m')
    ensures Bred(genomes, s, b, child, m')
  {
    var parent := Crossovers.Crossover(Parents(genomes, b).value, b.pick, b.id);
    var d := b.mutation;
    match Evolution.LastFired(parent, s, d, 11)
    case None =>
    case Some(op) =>
      Evolution.ProducedExtends(parent, s, d, op, Evolution.InPlace(parent, s, d, op), child, m, m');
  }

  /** The draws of one BuildNewPopulation call. */
  datatype PopulationDraws = PopulationDraws(
    cull: nat -> seq<nat>,          // the tie order within source species i
    offspring: seq<nat>,            // the drift-correction shuffle
    keep: nat -> seq<nat>,          // the tie order within entry i when it is trimmed
    breed: (nat, nat) -> Breeding)  // child c of entry i

  ghost predicate WellDrawn(d: PopulationDraws)
  {
    forall i, c :: Evolution.WellDrawn(d.breed(i, c).mutation)
  }

  /** An entry with no more than its count of members keeps its count of
      fittest ones. */
  function Trimmed(entry: SpecieWithOffspring, picks: seq<nat>): Specie
  {
    Specie(Take(BestFirst(entry.specie.genomes, picks), entry.offspringCount))
  }

  /** What the Select makes of entry i: the trimmed species, or the species
      with its missing members bred and placed ahead of the old ones. */
  ghost predicate ResizedTo(entry: SpecieWithOffspring, i: nat, s: EvolutionSettings, d: PopulationDraws,
                            out: Specie, m: map<nat, Innovation>)
    requires WellDrawn(d)
  {
    if entry.offspringCount <= |entry.specie.genomes| then out == Trimmed(entry, d.keep(i))
    else GrownTo(entry, i, s, d, out, m)
  }

  /** The grown species: the missing members bred and placed ahead of the
      old ones. */
  ghost predicate GrownTo(entry: SpecieWithOffspring, i: nat, s: EvolutionSettings, d: PopulationDraws,
                          out: Specie, m: map<nat, Innovation>)
    requires WellDrawn(d)
  {
    var genomes := entry.specie.genomes;
    var extra := entry.offspringCount - |genomes|;
    0 < extra && |out.genomes| == entry.offspringCount && out.genomes == out.genomes[..extra] + genomes
    && AllBred(genomes, s, d, i, out.genomes[..extra], m)
  }

  lemma ResizedExtends(entry: SpecieWithOffspring, i: nat, s: EvolutionSettings, d: PopulationDraws,
                       out: Specie, m: map<nat, Innovation>, m': map<nat, Innovation>)
    requires WellDrawn(d) && ResizedTo(entry, i, s, d, out, m) && Extends(m, m')
    ensures ResizedTo(entry, i, s, d, out, m')
  {
    if entry.offspringCount > |entry.specie.genomes| {
      GrownExtends(entry, i, s, d, out, m, m');
    }
  }

  lemma GrownExtends(entry: SpecieWithOffspring, i: nat, s: EvolutionSettings, d: PopulationDraws,
                     out: Specie, m: map<nat, Innovation>, m': map<nat, Innovation>)
    requires WellDrawn(d) && GrownTo(entry, i, s, d, out, m) && Extends(m, m')
    ensures GrownTo(entry, i, s, d, out, m')
  {
    var genomes := entry.specie.genomes;
    var bred := out.genomes[..entry.offspringCount - |genomes|];
    AllBredExtends(genomes, s, d, i, bred, m, m');
  }

  /** Every species ends with its count of members (none for a count
      below zero), and a trimmed one keeps its fittest. */
  lemma ResizedSize(entry: SpecieWithOffspring, i: nat, s: EvolutionSettings, d: PopulationDraws,
                    out: Specie, m: map<nat, Innovation>)
    requires WellDrawn(d) && ResizedTo(entry, i, s, d, out, m)
    ensures |out.genomes| == if entry.offspringCount < 0 then 0 else entry.offspringCount
    ensures entry.offspringCount <= |entry.specie.genomes| ==>
              multiset(out.genomes) <= multiset(entry.specie.genomes)
              && forall x, y :: 0 <= x < |out.genomes| <= y < |entry.specie.genomes| ==>
                   out.genomes[x].historicalFitness >= BestFirst(entry.specie.genomes, d.keep(i))[y].historicalFitness
  {
    if entry.offspringCount <= |entry.specie.genomes| {
      FittestKept(entry.specie.genomes, d.keep(i), entry.offspringCount);
    }
  }

  /** One entry of the Select. */
  method Resize(entry: SpecieWithOffspring, i: nat, s: EvolutionSettings, context: GenomesContext, d: PopulationDraws)
    returns (r: Result<Specie>)
    requires WellDrawn(d)
    modifies context
    ensures context.isInitialized == old(context.isInitialized)
    ensures Extends(old(context.innovations), context.innovations)
    ensures r.Success? ==> ResizedTo(entry, i, s, d, r.value, context.innovations)
    ensures r.Failure? ==> entry.offspringCount > |entry.specie.genomes|
                           && (!CanPair(entry.specie.genomes) || !context.isInitialized)
    ensures entry.offspringCount > |entry.specie.genomes| && !CanPair(entry.specie.genomes) ==> r.Failure?
  {
    var genomes := entry.specie.genomes;
    if entry.offspringCount <= |genomes| {
      return Success(Trimmed(entry, d.keep(i)));
    }
    var extra := entry.offspringCount - |genomes|;
    var children := BreedChildren(genomes, extra, i, s, context, d);
    if children.Failure? {
      return Failure(children.error);
    }
    GrownFrom(entry, i, s, d, children.value, context.innovations);
    r := Success(Specie(children.value + genomes));
  }

  /** The `extra` children of one species, child c bred from two of its
      members with the draws of child c. */
  method BreedChildren(genomes: seq<Genotype>, extra: nat, i: nat, s: EvolutionSettings, context: GenomesContext,
                       d: PopulationDraws) returns (r: Result<seq<Genotype>>)
    requires WellDrawn(d)
    modifies context
    ensures context.isInitialized == old(context.isInitialized)
    ensures Extends(old(context.innovations), context.innovations)
    ensures r.Success? ==> |r.value| == extra && AllBred(genomes, s, d, i, r.value, context.innovations)
    ensures r.Failure? ==> extra > 0 && (!CanPair(genomes) || !context.isInitialized)
    ensures extra > 0 && !CanPair(genomes) ==> r.Failure?
  {
    var children: seq<Genotype> := [];
    for c := 0 to extra
      invariant |children| == c
      invariant context.isInitialized == old(context.isInitialized)
      invariant Extends(old(context.innovations), context.innovations)
      invariant AllBred(genomes, s, d, i, children, context.innovations)
      invariant c > 0 ==> CanPair(genomes)
    {
      ghost var before := context.innovations;
      var child := BreedOne(genomes, s, context, d.breed(i, c));
      if child.Failure? {
        return Failure(child.error);
      }
      AllBredExtends(genomes, s, d, i, children, before, context.innovations);
      AllBredAppend(genomes, s, d, i, children, child.value, context.innovations);
      children := children + [child.value];
    }
    return Success(children);
  }

  /** One child: two parents drawn from the members, their crossover, then
      Mutate on it. */
  method BreedOne(genomes: seq<Genotype>, s: EvolutionSettings, context: GenomesContext, b: Breeding)
    returns (r: Result<Genotype>)
    requires Evolution.WellDrawn(b.mutation)
    modifies context
    ensures context.isInitialized == old(context.isInitialized)
    ensures Extends(old(context.innovations), context.innovations)
    ensures r.Success? ==> Bred(genomes, s, b, r.value, context.innovations)
    ensures r.Failure? ==> !CanPair(genomes) || !context.isInitialized
    ensures !CanPair(genomes) ==> r.Failure?
  {
    var parents := Parents(genomes, b);
    if parents.Failure? {
      return Failure(parents.error);
    }
    r := Evolution.MakeChildren(parents.value, s, context, b.pick, b.id, b.mutation);
    if r.Success? {
      BredFrom(genomes, s, b, parents.value, r.value, context.innovations);
    }
  }

  /** The bred children put before the members make a grown species. */
  lemma GrownFrom(entry: SpecieWithOffspring, i: nat, s: EvolutionSettings, d: PopulationDraws,
                  children: seq<Genotype>, m: map<nat, Innovation>)
    requires WellDrawn(d) && entry.offspringCount > |entry.specie.genomes|
    requires |children| == entry.offspringCount - |entry.specie.genomes|
    requires AllBred(entry.specie.genomes, s, d, i, children, m)
    ensures ResizedTo(entry, i, s, d, Specie(children + entry.specie.genomes), m)
  {
    var grown := children + entry.specie.genomes;
    assert grown[..|children|] == children;
    assert GrownTo(entry, i, s, d, Specie(grown), m);
  }

  /** Child k of `children` is what the breeding draws of child k yield. */
  ghost predicate AllBred(genomes: seq<Genotype>, s: EvolutionSettings, d: PopulationDraws, i: nat,
                          children: seq<Genotype>, m: map<nat, Innovation>)
    requires WellDrawn(d)
  {
    forall k {:trigger Bred(genomes, s, d.breed(i, k), children[k], m)} ::
      0 <= k < |children| ==> Bred(genomes, s, d.breed(i, k), children[k], m)
  }

  lemma AllBredAppend(genomes: seq<Genotype>, s: EvolutionSettings, d: PopulationDraws, i: nat,
                      children: seq<Genotype>, child: Genotype, m: map<nat, Innovation>)
    requires WellDrawn(d) && AllBred(genomes, s, d, i, children, m)
    requires Bred(genomes, s, d.breed(i, |children|), child, m)
    ensures AllBred(genomes, s, d, i, children + [child], m)
  {
    var all := children + [child];
    forall k | 0 <= k < |all|
      ensures Bred(genomes, s, d.breed(i, k), all[k], m)
    {
      if k < |children| {
        assert all[k] == children[k];
        assert Bred(genomes, s, d.breed(i, k), children[k], m);
      } else {
        assert k == |children| && all[k] == child;
      }
    }
  }

  lemma AllBredExtends(genomes: seq<Genotype>, s: EvolutionSettings, d: PopulationDraws, i: nat,
                       children: seq<Genotype>, m: map<nat, Innovation>, m': map<nat, Innovation>)
    requires WellDrawn(d) && AllBred(genomes, s, d, i, children, m) && Extends(m, m')
    ensures AllBred(genomes, s, d, i, children, m')
  {
    forall k | 0 <= k < |children|
      ensures Bred(genomes, s, d.breed(i, k), children[k], m')
    {
      assert Bred(genomes, s, d.breed(i, k), children[k], m);
      BredExtends(genomes, s, d.breed(i, k), children[k], m, m');
    }
  }

  /** The number of genomes over all species. */
  function Population(species: seq<Specie>): nat
  {
    |AllGenomes(species)|
  }

  /** Each Select step leaves the species with its count, so the population
      is the sum of the counts. */
  lemma {:induction false} PopulationIsCounted(entries: seq<SpecieWithOffspring>, outs: seq<Specie>)
    requires |outs| == |entries|
    requires forall i :: 0 <= i < |entries| ==> entries[i].offspringCount >= 0 && |outs[i].genomes| == entries[i].offspringCount
    ensures Population(outs) == Counted(entries)
  {
    if |entries| > 0 {
      PopulationIsCounted(entries[..|entries| - 1], outs[..|outs| - 1]);
    }
  }

  /** The allotment counts are never negative unless the target is. */
  lemma AllotmentNonNegative(species: seq<Specie>, target: int, picks: seq<nat>)
    requires NoneEmpty(species) && target >= 0
    ensures forall k :: 0 <= k < |Allotment(species, target, picks).value| ==> Allotment(species, target, picks).value[k].offspringCount >= 0
  {
  }

  /** The counts the allotment reaches: the target itself when everything
      falls back to one species or when the drift fits the entries. */
  predicate ReachesTarget(species: seq<Specie>, target: int)
    requires NoneEmpty(species)
  {
    var total := FitnessSum(species);
    if total < FitnessFloor then target >= 0
    else AbsInt(target - Counted(Shares(species, total, target))) <= |Shares(species, total, target)|
  }

  /** BuildNewPopulation: cull, return the culled species when they already
      hold the target, else allot the target and resize every species. */
  method BuildNewPopulation(species: seq<Specie>, killRate: real, target: int, s: EvolutionSettings,
                            context: GenomesContext, d: PopulationDraws) returns (r: Result<seq<Specie>>)
    requires WellDrawn(d)
    modifies context
    ensures context.isInitialized == old(context.isInitialized)
    ensures Extends(old(context.innovations), context.innovations)
    ensures CullSpecies(species, killRate, d.cull).Failure? ==> r.Failure?
    ensures (CullSpecies(species, killRate, d.cull).Success? && Population(CullSpecies(species, killRate, d.cull).value) == target)
              ==> r == CullSpecies(species, killRate, d.cull)
    ensures r.Success? && Population(CullSpecies(species, killRate, d.cull).value) != target ==>
              AllResized(Allotment(CullSpecies(species, killRate, d.cull).value, target, d.offspring).value, s, d, r.value, context.innovations)
    ensures r.Success? && ReachesTarget(CullSpecies(species, killRate, d.cull).value, target) ==> Population(r.value) == target
  {
    var culled := CullSpecies(species, killRate, d.cull);
    if culled.Failure? {
      return Failure(culled.error);
    }
    if Population(culled.value) == target {
      return culled;
    }
    var allotted := CountSpeciesOffspring(culled.value, target, d.offspring);
    var entries := allotted.value;
    var out: seq<Specie> := [];
    for i := 0 to |entries|
      invariant context.isInitialized == old(context.isInitialized)
      invariant Extends(old(context.innovations), context.innovations)
      invariant AllResized(entries[..i], s, d, out, context.innovations)
    {
      ghost var before := context.innovations;
      var next := Resize(entries[i], i, s, context, d);
      if next.Failure? {
        return Failure(next.error);
      }
      AllResizedStep(entries, i, s, d, out, next.value, before, context.innovations);
      out := out + [next.value];
    }
    assert entries[..|entries|] == entries;
    r := Success(out);
    if ReachesTarget(culled.value, target) {
      PopulationReached(culled.value, target, d, entries, out, s, context.innovations);
    }
  }

  /** Entry k of the Select became species k of `outs`. */
  ghost predicate AllResized(entries: seq<SpecieWithOffspring>, s: EvolutionSettings, d: PopulationDraws,
                             outs: seq<Specie>, m: map<nat, Innovation>)
    requires WellDrawn(d)
  {
    |outs| == |entries| && forall k :: 0 <= k < |outs| ==> ResizedTo(entries[k], k, s, d, outs[k], m)
  }

  lemma AllResizedStep(entries: seq<SpecieWithOffspring>, i: nat, s: EvolutionSettings, d: PopulationDraws,
                       outs: seq<Specie>, out: Specie, m: map<nat, Innovation>, m': map<nat, Innovation>)
    requires WellDrawn(d) && i < |entries| && AllResized(entries[..i], s, d, outs, m) && Extends(m, m')
    requires ResizedTo(entries[i], i, s, d, out, m')
    ensures AllResized(entries[..i + 1], s, d, outs + [out], m')
  {
    forall k | 0 <= k < i + 1
      ensures ResizedTo(entries[k], k, s, d, (outs + [out])[k], m')
    {
      if k < i {
        assert entries[..i][k] == entries[k];
        ResizedExtends(entries[k], k, s, d, outs[k], m, m');
        assert (outs + [out])[k] == outs[k];
      }
    }
  }

  lemma PopulationReached(species: seq<Specie>, target: int, d: PopulationDraws, entries: seq<SpecieWithOffspring>,
                          outs: seq<Specie>, s: EvolutionSettings, m: map<nat, Innovation>)
    requires WellDrawn(d) && NoneEmpty(species) && ReachesTarget(species, target)
    requires entries == Allotment(species, target, d.offspring).value && AllResized(entries, s, d, outs, m)
    ensures Population(outs) == target
  {
    CountsReached(species, target, d.offspring);
    AllSized(entries, s, d, outs, m);
    PopulationIsCounted(entries, outs);
  }

  /** When the target is reached, the allotment's counts add up to it and
      none is negative. */
  lemma CountsReached(species: seq<Specie>, target: int, picks: seq<nat>)
    requires NoneEmpty(species) && ReachesTarget(species, target)
    ensures Counted(Allotment(species, target, picks).value) == target
    ensures forall k :: 0 <= k < |Allotment(species, target, picks).value| ==> Allotment(species, target, picks).value[k].offspringCount >= 0
  {
    if FitnessSum(species) >= FitnessFloor {
      AllotmentReachesTarget(species, target, picks);
    } else {
      assert Counted(Allotment(species, target, picks).value) == target;
    }
  }

  /** Every resized species has its entry's count of members. */
  lemma AllSized(entries: seq<SpecieWithOffspring>, s: EvolutionSettings, d: PopulationDraws,
                 outs: seq<Specie>, m: map<nat, Innovation>)
    requires WellDrawn(d) && AllResized(entries, s, d, outs, m)
    ensures |outs| == |entries|
    ensures forall k :: 0 <= k < |entries| ==> |outs[k].genomes| == if entries[k].offspringCount < 0 then 0 else entries[k].offspringCount
  {
    forall k | 0 <= k < |entries|
      ensures |outs[k].genomes| == if entries[k].offspringCount < 0 then 0 else entries[k].offspringCount
    {
      ResizedSize(entries[k], k, s, d, outs[k], m);
    }
  }
}
