/** SpeciesBuilder of src/Neat.Core/Species/SpeciesBuilder.cs: genomes join,
    one by one, the nearest existing group whose distance lies strictly
    below the threshold, or start a new group; afterwards the threshold in
    the settings is nudged towards the target species count. The random
    member draws of the distance policies are parameters. */
module SpeciesBuilders {
  import opened Wrappers
  import opened Genomes
  import opened Settings
  import opened GenomeDistances
  import Species
  import Shuffles

  const InitialThreshold: real := 3.0
  const MinThreshold: real := 0.5
  const MaxThreshold: real := 4.0

  // ---------------------------------------------------------------------
  // Distance to a group

  /** Min over the members' distances; Min throws on no members. */
  function MinDistance(genome: Genotype, members: seq<Genotype>, settings: SpeciesSettings): (r: Result<real>)
    requires settings.normalizationFactor != 0.0
    ensures r.Success? <==> |members| > 0
  {
    if |members| == 0 then Failure(InvalidOperation("Sequence contains no elements"))
    else
      var d := GenomesDistance(genome, members[0], settings);
      var rest := MinDistance(genome, members[1..], settings);
      if rest.Failure? || d <= rest.value then Success(d) else rest
  }

  /** Min is the distance to one member and to no member is it larger. */
  lemma {:induction false} MinDistanceIsMin(genome: Genotype, members: seq<Genotype>, settings: SpeciesSettings)
    requires settings.normalizationFactor != 0.0
    requires |members| > 0
    ensures var d := MinDistance(genome, members, settings).value;
      && (exists x :: x in members && d == GenomesDistance(genome, x, settings))
      && (forall x :: x in members ==> d <= GenomesDistance(genome, x, settings))
  {
    assert members[0] in members;
    assert forall x :: x in members <==> x == members[0] || x in members[1..];
    if |members| > 1 {
      MinDistanceIsMin(genome, members[1..], settings);
    }
  }

  /** CalcSpecieDistance under the configured policy: the minimum over all
      members, the distance to one random member, or the minimum over the
      first half (rounded down) of a shuffle of the members. */
  function SpecieDistance(genome: Genotype, group: seq<Genotype>, settings: SpeciesSettings, picks: seq<nat>): (r: Result<real>)
    requires settings.normalizationFactor != 0.0
    ensures r.Success? <==> |group| > 0 && (settings.distanceFunction.DistanceToHalfRandomGenomes? ==> |group| >= 2)
  {
    match settings.distanceFunction
    case MinDistanceToAllGenomes => MinDistance(genome, group, settings)
    case DistanceToRandomGenome =>
      (match Shuffles.RandomItem(group, picks)
       case Failure(e) => Failure(e)
       case Success(x) => Success(GenomesDistance(genome, x, settings)))
    case DistanceToHalfRandomGenomes =>
      var order := Shuffles.Shuffled(group, picks);
      MinDistance(genome, order[..|group| / 2], settings)
  }

  /** The distance to a group is the distance to one of its members, and
      under the min policy to the nearest member. */
  lemma SpecieDistanceIsMemberDistance(genome: Genotype, group: seq<Genotype>, settings: SpeciesSettings, picks: seq<nat>)
    requires settings.normalizationFactor != 0.0
    requires SpecieDistance(genome, group, settings, picks).Success?
    ensures var d := SpecieDistance(genome, group, settings, picks).value;
      && (exists x :: x in group && d == GenomesDistance(genome, x, settings))
      && (settings.distanceFunction.MinDistanceToAllGenomes? ==>
            forall x :: x in group ==> d <= GenomesDistance(genome, x, settings))
  {
    if settings.distanceFunction.DistanceToHalfRandomGenomes? {
      var order := Shuffles.Shuffled(group, picks);
      var half := order[..|group| / 2];
      assert forall x :: x in half ==> x in multiset(group);
      MinDistanceIsMin(genome, half, settings);
    } else if settings.distanceFunction.MinDistanceToAllGenomes? {
      MinDistanceIsMin(genome, group, settings);
    }
  }

  /** A one-member group has no first half, so the half policy throws. */
  lemma HalfOfSingletonFails(genome: Genotype, member: Genotype, settings: SpeciesSettings, picks: seq<nat>)
    requires settings.normalizationFactor != 0.0
    requires settings.distanceFunction == DistanceToHalfRandomGenomes
    ensures SpecieDistance(genome, [member], settings, picks).Failure?
  {
  }

  /** The distances of a genome to every group in order. Any distance that
      throws makes the whole lookup throw; every failure of a distance is
      the same empty-sequence error. */
  function Distances(genome: Genotype, i: nat, groups: seq<seq<Genotype>>, settings: SpeciesSettings, draws: (nat, nat) -> seq<nat>): (r: Result<seq<real>>)
    requires settings.normalizationFactor != 0.0
  {
    if forall j :: 0 <= j < |groups| ==> SpecieDistance(genome, groups[j], settings, draws(i, j)).Success? then
      Success(seq(|groups|, j requires 0 <= j < |groups| => SpecieDistance(genome, groups[j], settings, draws(i, j)).value))
    else
      Failure(InvalidOperation("Sequence contains no elements"))
  }

  /** Where(distance < threshold).OrderBy(distance).FirstOrDefault(): the
      smallest distance below the threshold; OrderBy is stable, so among
      equal distances the earliest group wins. */
  function Nearest(ds: seq<real>, threshold: real): (r: Option<nat>)
    ensures r.None? <==> forall i :: 0 <= i < |ds| ==> ds[i] >= threshold
    ensures r.Some? ==> r.value < |ds| && ds[r.value] < threshold
    ensures r.Some? ==> forall i :: 0 <= i < |ds| && ds[i] < threshold ==> ds[r.value] <= ds[i]
    ensures r.Some? ==> forall i :: 0 <= i < r.value ==> ds[r.value] < ds[i]
  {
    if |ds| == 0 then None
    else
      var n := |ds| - 1;
      var rest := Nearest(ds[..n], threshold);
      if ds[n] < threshold && (rest.None? || ds[n] < ds[rest.value]) then Some(n) else rest
  }

  /** Genome number i joins its nearest group, or a new group appended
      last. */
  function Place(groups: seq<seq<Genotype>>, genome: Genotype, i: nat, settings: SpeciesSettings, threshold: real, draws: (nat, nat) -> seq<nat>): (r: Result<seq<seq<Genotype>>>)
    requires settings.normalizationFactor != 0.0
  {
    var ds := Distances(genome, i, groups, settings, draws);
    if ds.Failure? then Failure(ds.error)
    else
      var target := Nearest(ds.value, threshold);
      Success(if target.None? then groups + [[genome]] else groups[target.value := groups[target.value] + [genome]])
  }

  /** The groups after the first genomes of the list have been placed;
      `draws(i, j)` chooses the random members when genome i is measured
      against group j. */
  function Grouped(genomes: seq<Genotype>, settings: SpeciesSettings, threshold: real, draws: (nat, nat) -> seq<nat>): Result<seq<seq<Genotype>>>
    requires settings.normalizationFactor != 0.0
    decreases |genomes|
  {
    if |genomes| == 0 then Success([])
    else
      var n := |genomes| - 1;
      var prior := Grouped(genomes[..n], settings, threshold, draws);
      if prior.Failure? then prior else Place(prior.value, genomes[n], n, settings, threshold, draws)
  }

  lemma GroupedStep(genomes: seq<Genotype>, i: nat, settings: SpeciesSettings, threshold: real, draws: (nat, nat) -> seq<nat>)
    requires settings.normalizationFactor != 0.0
    requires i < |genomes|
    ensures var prior := Grouped(genomes[..i], settings, threshold, draws);
      Grouped(genomes[..i + 1], settings, threshold, draws) ==
        if prior.Failure? then prior else Place(prior.value, genomes[i], i, settings, threshold, draws)
  {
    assert genomes[..i + 1][..i] == genomes[..i];
  }

  /** Once a genome's distance throws, the whole grouping throws. */
  lemma {:induction false} GroupedFailureSticks(genomes: seq<Genotype>, i: nat, settings: SpeciesSettings, threshold: real, draws: (nat, nat) -> seq<nat>)
    requires settings.normalizationFactor != 0.0
    requires i <= |genomes|
    requires Grouped(genomes[..i], settings, threshold, draws).Failure?
    ensures Grouped(genomes, settings, threshold, draws).Failure?
    decreases |genomes| - i
  {
    if i == |genomes| {
      assert genomes[..i] == genomes;
    } else {
      GroupedStep(genomes, i, settings, threshold, draws);
      GroupedFailureSticks(genomes, i + 1, settings, threshold, draws);
    }
  }

  /** The first genome always starts the first group. */
  lemma GroupedOne(g: Genotype, settings: SpeciesSettings, threshold: real, draws: (nat, nat) -> seq<nat>)
    requires settings.normalizationFactor != 0.0
    ensures Grouped([g], settings, threshold, draws) == Success([[g]])
  {
    assert [g][..0] == [];
    var d := Distances(g, 0, [], settings, draws);
    assert d.Success? && |d.value| == 0;
    assert d.value == [];
    assert Nearest([], threshold) == None;
    assert [] + [[g]] == [[g]];
    assert Place([], g, 0, settings, threshold, draws) == Success([[g]]);
  }

  function Flatten(groups: seq<seq<Genotype>>): seq<Genotype>
  {
    if |groups| == 0 then [] else Flatten(groups[..|groups| - 1]) + groups[|groups| - 1]
  }

  // ---------------------------------------------------------------------
  // The threshold

  /** The stored threshold, or 3 when it is unset or not positive. */
  function WorkingThreshold(stored: Option<real>): (r: real)
    ensures r > 0.0
    ensures stored.Some? && stored.value > 0.0 ==> r == stored.value
    ensures stored.None? || stored.value <= 0.0 ==> r == InitialThreshold
  {
    if stored.None? || stored.value <= 0.0 then InitialThreshold else stored.value
  }

  function Clamp(x: real, lo: real, hi: real): real
    requires lo <= hi
  {
    if x < lo then lo else if x > hi then hi else x
  }

  /** The threshold after a grouping into `count` species: one step up when
      there are too many, one down when too few, one more up when there are
      more than twice the target, and only then left unclamped. */
  function AdjustedThreshold(threshold: real, count: nat, target: int, rate: real): (r: real)
    ensures count > 2 * target ==> r == threshold + 2.0 * rate
    ensures count <= 2 * target ==> MinThreshold <= r <= MaxThreshold
    ensures target < count <= 2 * target ==> r == Clamp(threshold + rate, MinThreshold, MaxThreshold)
    ensures count == target ==> r == Clamp(threshold, MinThreshold, MaxThreshold)
    ensures count < target ==> r == Clamp(threshold - rate, MinThreshold, MaxThreshold)
  {
    var stepped :=
      if count > target then threshold + rate
      else if count < target then threshold - rate
      else threshold;
    if count > 2 * target then stepped + rate
    else Clamp(stepped, MinThreshold, MaxThreshold)
  }

  /** Within the band and on target, the threshold does not move. */
  lemma OnTargetKeepsThreshold(threshold: real, target: int, rate: real)
    requires target >= 0 && MinThreshold <= threshold <= MaxThreshold
    ensures AdjustedThreshold(threshold, target, target, rate) == threshold
  {
  }

  // ---------------------------------------------------------------------
  // The builder

  /** The builder owns the settings record whose threshold it rewrites. */
  class SpeciesBuilder {
    var settings: SpeciesSettings

    constructor(settings: SpeciesSettings)
      ensures this.settings == settings
    {
      this.settings := settings;
    }

    /** Build: the grouping of the genomes as species, with the threshold
        written back; a distance that throws leaves the settings as they
        were. */
    method Build(genomes: seq<Genotype>, draws: (nat, nat) -> seq<nat>) returns (r: Result<seq<Species.Specie>>)
      requires settings.normalizationFactor != 0.0
      modifies this
      ensures var threshold := WorkingThreshold(old(settings).speciesThreshold);
        var grouped := Grouped(genomes, old(settings), threshold, draws);
        && r.Success? == grouped.Success?
        && (r.Success? ==>
              && |r.value| == |grouped.value|
              && (forall j :: 0 <= j < |r.value| ==> r.value[j] == Species.Specie(grouped.value[j]))
              && settings == old(settings).(speciesThreshold := Some(AdjustedThreshold(
                   threshold, |grouped.value|, old(settings).speciesTargetCount, old(settings).distanceThresholdAdjustmentRate))))
      ensures r.Failure? ==> settings == old(settings)
    {
      var groups: seq<seq<Genotype>> := [];
      var current := settings;
      var threshold := WorkingThreshold(current.speciesThreshold);
      for i := 0 to |genomes|
        invariant current == settings == old(settings)
        invariant Grouped(genomes[..i], current, threshold, draws) == Success(groups)
      {
        GroupedStep(genomes, i, current, threshold, draws);
        var placed := Place(groups, genomes[i], i, current, threshold, draws);
        if placed.Failure? {
          GroupedFailureSticks(genomes, i + 1, current, threshold, draws);
          return Failure(placed.error);
        }
        groups := placed.value;
      }
      assert genomes[..|genomes|] == genomes;
      var species := seq(|groups|, j requires 0 <= j < |groups| => Species.Specie(groups[j]));
      var adjusted := AdjustedThreshold(threshold, |species|, current.speciesTargetCount, current.distanceThresholdAdjustmentRate);
      settings := current.(speciesThreshold := Some(adjusted));
      return Success(species);
    }
  }

  // ---------------------------------------------------------------------
  // What the grouping guarantees

  lemma FlattenAppend(groups: seq<seq<Genotype>>, group: seq<Genotype>)
    ensures Flatten(groups + [group]) == Flatten(groups) + group
  {
    assert (groups + [group])[..|groups|] == groups;
  }

  lemma {:induction false} FlattenUpdate(groups: seq<seq<Genotype>>, j: nat, g: Genotype)
    requires j < |groups|
    ensures multiset(Flatten(groups[j := groups[j] + [g]])) == multiset(Flatten(groups)) + multiset{g}
  {
    var n := |groups| - 1;
    var updated := groups[j := groups[j] + [g]];
    assert updated[..n] == if j == n then groups[..n] else groups[..n][j := groups[j] + [g]];
    if j < n {
      FlattenUpdate(groups[..n], j, g);
    }
  }

  /** Placing a genome keeps every group non-empty, adds the genome to the
      groups' contents and adds at most one group. */
  lemma PlaceAdds(groups: seq<seq<Genotype>>, genome: Genotype, i: nat, settings: SpeciesSettings, threshold: real, draws: (nat, nat) -> seq<nat>)
    requires settings.normalizationFactor != 0.0
    requires Place(groups, genome, i, settings, threshold, draws).Success?
    ensures var placed := Place(groups, genome, i, settings, threshold, draws).value;
      && ((forall j :: 0 <= j < |groups| ==> |groups[j]| > 0) ==> forall j :: 0 <= j < |placed| ==> |placed[j]| > 0)
      && multiset(Flatten(placed)) == multiset(Flatten(groups)) + multiset{genome}
      && |placed| <= |groups| + 1
  {
    var target := Nearest(Distances(genome, i, groups, settings, draws).value, threshold);
    if target.None? {
      FlattenAppend(groups, [genome]);
    } else {
      FlattenUpdate(groups, target.value, genome);
    }
  }

  /** The groups are non-empty, hold exactly the genomes between them, and
      are no more than the genomes. */
  ghost predicate PartitionOf(groups: seq<seq<Genotype>>, genomes: seq<Genotype>)
  {
    && (forall j :: 0 <= j < |groups| ==> |groups[j]| > 0)
    && multiset(Flatten(groups)) == multiset(genomes)
    && |groups| <= |genomes|
  }

  lemma PartitionExtends(groups: seq<seq<Genotype>>, placed: seq<seq<Genotype>>, prefix: seq<Genotype>, genome: Genotype)
    requires PartitionOf(groups, prefix)
    requires (forall j :: 0 <= j < |groups| ==> |groups[j]| > 0) ==> forall j :: 0 <= j < |placed| ==> |placed[j]| > 0
    requires multiset(Flatten(placed)) == multiset(Flatten(groups)) + multiset{genome}
    requires |placed| <= |groups| + 1
    ensures PartitionOf(placed, prefix + [genome])
  {
  }

  lemma PrefixAndLast(genomes: seq<Genotype>)
    requires |genomes| > 0
    ensures genomes[..|genomes| - 1] + [genomes[|genomes| - 1]] == genomes
  {
  }

  /** Every genome joins exactly one group, no group is empty, and the
      genomes all end up somewhere: the groups together hold the input. */
  lemma {:induction false} GroupedPartitions(genomes: seq<Genotype>, settings: SpeciesSettings, threshold: real, draws: (nat, nat) -> seq<nat>)
    requires settings.normalizationFactor != 0.0
    requires Grouped(genomes, settings, threshold, draws).Success?
    ensures var groups := Grouped(genomes, settings, threshold, draws).value;
      && (forall j :: 0 <= j < |groups| ==> |groups[j]| > 0)
      && multiset(Flatten(groups)) == multiset(genomes)
      && |groups| <= |genomes|
  {
    if |genomes| > 0 {
      var n := |genomes| - 1;
      var prefix := genomes[..n];
      var prior := Grouped(prefix, settings, threshold, draws);
      assert prior.Success? && Grouped(genomes, settings, threshold, draws) == Place(prior.value, genomes[n], n, settings, threshold, draws);
      GroupedPartitions(prefix, settings, threshold, draws);
      PlaceAdds(prior.value, genomes[n], n, settings, threshold, draws);
      PartitionExtends(prior.value, Place(prior.value, genomes[n], n, settings, threshold, draws).value, prefix, genomes[n]);
      PrefixAndLast(genomes);
    } else {
      assert Flatten([]) == [];
    }
  }

  /** Groups only ever grow, so under the min and random policies no
      distance throws and the grouping always succeeds. */
  lemma {:induction false} GroupedSucceeds(genomes: seq<Genotype>, settings: SpeciesSettings, threshold: real, draws: (nat, nat) -> seq<nat>)
    requires settings.normalizationFactor != 0.0
    requires !settings.distanceFunction.DistanceToHalfRandomGenomes?
    ensures Grouped(genomes, settings, threshold, draws).Success?
  {
    if |genomes| > 0 {
      var n := |genomes| - 1;
      GroupedSucceeds(genomes[..n], settings, threshold, draws);
      GroupedPartitions(genomes[..n], settings, threshold, draws);
      var prior := Grouped(genomes[..n], settings, threshold, draws).value;
      DistancesSucceed(genomes[n], n, prior, settings, draws);
      assert Place(prior, genomes[n], n, settings, threshold, draws).Success?;
    }
  }

  /** Under the min and random policies every non-empty group has a
      distance, so the lookup succeeds. */
  lemma DistancesSucceed(genome: Genotype, i: nat, groups: seq<seq<Genotype>>, settings: SpeciesSettings, draws: (nat, nat) -> seq<nat>)
    requires settings.normalizationFactor != 0.0
    requires !settings.distanceFunction.DistanceToHalfRandomGenomes?
    requires forall j :: 0 <= j < |groups| ==> |groups[j]| > 0
    ensures Distances(genome, i, groups, settings, draws).Success?
  {
    assert forall j :: 0 <= j < |groups| ==> SpecieDistance(genome, groups[j], settings, draws(i, j)).Success?;
  }

  /** Under the half policy the first genome forms a group of one, and the
      second genome's distance to it throws: any two genomes fail. */
  lemma {:induction false} HalfPolicyFails(genomes: seq<Genotype>, settings: SpeciesSettings, threshold: real, draws: (nat, nat) -> seq<nat>)
    requires settings.normalizationFactor != 0.0
    requires settings.distanceFunction == DistanceToHalfRandomGenomes
    requires |genomes| >= 2
    ensures Grouped(genomes, settings, threshold, draws).Failure?
  {
    var n := |genomes| - 1;
    if n >= 2 {
      HalfPolicyFails(genomes[..n], settings, threshold, draws);
    } else {
      assert genomes[..1] == [genomes[0]];
      GroupedOne(genomes[0], settings, threshold, draws);
      GroupedStep(genomes, 1, settings, threshold, draws);
      assert genomes[..2] == genomes;
      HalfOfSingletonFails(genomes[1], genomes[0], settings, draws(1, 0));
      assert Distances(genomes[1], 1, [[genomes[0]]], settings, draws).Failure?;
    }
  }
}
