/** ToggleSynapse, DisableSynapse and EnableSynapse of
    src/Neat.Core/Evolution/EvolutionService.cs: each rewrites the enabled
    flag of one slot of the child's synapse array in place. */
module SynapseSwitches {
  import opened Genomes
  import opened EnumerableExtensions
  import Mutations
  import PhenotypeBuilder
  import LoopChecks

  /** The disabled synapses, in order (the Where(x => !x.IsEnabled)). */
  function Disabled(synapses: seq<Synapse>): (r: seq<Synapse>)
    ensures |r| <= |synapses|
    ensures forall s :: s in r <==> s in synapses && !s.isEnabled
  {
    if |synapses| == 0 then []
    else (if !synapses[0].isEnabled then [synapses[0]] else []) + Disabled(synapses[1..])
  }

  /** The synapses whose flag is `flag`: the candidates of the operator that
      writes `!flag`. */
  function Candidates(synapses: seq<Synapse>, flag: bool): (r: seq<Synapse>)
    ensures forall s :: s in r <==> s in synapses && s.isEnabled == flag
  {
    if flag then Enabled(synapses) else Disabled(synapses)
  }

  /** Count(x => x.IsEnabled == flag). */
  function Count(synapses: seq<Synapse>, flag: bool): nat
  {
    if |synapses| == 0 then 0
    else (if synapses[0].isEnabled == flag then 1 else 0) + Count(synapses[1..], flag)
  }

  /** Writing one slot moves the count by that slot's old and new flags. */
  lemma {:induction false} CountUpdate(synapses: seq<Synapse>, k: nat, x: Synapse, flag: bool)
    requires k < |synapses|
    ensures Count(synapses[k := x], flag) + (if synapses[k].isEnabled == flag then 1 else 0)
      == Count(synapses, flag) + (if x.isEnabled == flag then 1 else 0)
  {
    if k > 0 {
      assert synapses[k := x][1..] == synapses[1..][k - 1 := x];
      CountUpdate(synapses[1..], k - 1, x, flag);
    } else {
      assert synapses[k := x][1..] == synapses[1..];
    }
  }

  /** The lookup predicate of TryFindIndex(x => x.Innovation == innovation). */
  function HasInnovation(innovation: nat): Synapse -> bool
  {
    (x: Synapse) => x.innovation == innovation
  }

  /** Only enabled flags change, slot by slot. */
  predicate FlagsOnly(before: seq<Synapse>, after: seq<Synapse>)
  {
    |after| == |before| && forall i :: 0 <= i < |before| ==> after[i] == before[i].(isEnabled := after[i].isEnabled)
  }

  // ---------------------------------------------------------------------
  // ToggleSynapse

  /** ToggleSynapse: no change on an empty array; otherwise exactly one slot,
      the picked one, has its flag flipped. */
  function Toggled(synapses: seq<Synapse>, pick: nat): (r: seq<Synapse>)
    ensures FlagsOnly(synapses, r)
    ensures |synapses| == 0 ==> r == synapses
    ensures |synapses| > 0 ==>
      exists k :: 0 <= k < |synapses| && r[k].isEnabled == !synapses[k].isEnabled
        && forall i :: 0 <= i < |synapses| && i != k ==> r[i] == synapses[i]
  {
    if |synapses| == 0 then synapses
    else
      var k := pick % |synapses|;
      synapses[k := synapses[k].(isEnabled := !synapses[k].isEnabled)]
  }

  /** Toggling the same slot twice gives the array back. */
  lemma ToggleTwice(synapses: seq<Synapse>, pick: nat)
    ensures Toggled(Toggled(synapses, pick), pick) == synapses
  {
    if |synapses| > 0 {
      var k := pick % |synapses|;
      assert Toggled(Toggled(synapses, pick), pick)[k] == synapses[k];
    }
  }

  /** A toggle moves the enabled count by exactly one. */
  lemma ToggleCount(synapses: seq<Synapse>, pick: nat)
    requires |synapses| > 0
    ensures var k := pick % |synapses|;
      Count(Toggled(synapses, pick), true) == if synapses[k].isEnabled then Count(synapses, true) - 1 else Count(synapses, true) + 1
  {
    var k := pick % |synapses|;
    CountUpdate(synapses, k, synapses[k].(isEnabled := !synapses[k].isEnabled), true);
  }

  /** ToggleSynapse on the child's array. */
  method ToggleSynapse(synapses: array<Synapse>, pick: nat)
    modifies synapses
    ensures synapses[..] == Toggled(old(synapses[..]), pick)
  {
    if synapses.Length == 0 {
      return;
    }
    var index := pick % synapses.Length;
    synapses[index] := synapses[index].(isEnabled := !synapses[index].isEnabled);
  }

  // ---------------------------------------------------------------------
  // DisableSynapse (flag false), EnableSynapse (flag true)

  /** DisableSynapse (flag false) and EnableSynapse (flag true): a synapse
      whose flag is `!flag` is picked, and the FIRST slot carrying its
      innovation gets `flag`; nothing changes without a candidate. */
  function Switched(synapses: seq<Synapse>, pick: nat, flag: bool): (r: seq<Synapse>)
    ensures FlagsOnly(synapses, r)
    ensures |Candidates(synapses, !flag)| == 0 ==> r == synapses
    ensures |Candidates(synapses, !flag)| > 0 ==>
      exists k :: 0 <= k < |synapses| && r == synapses[k := synapses[k].(isEnabled := flag)]
        && (exists c :: c in synapses && c.isEnabled == !flag && c.innovation == synapses[k].innovation)
        && forall j :: 0 <= j < k ==> synapses[j].innovation != synapses[k].innovation
  {
    var candidates := Candidates(synapses, !flag);
    if |candidates| == 0 then synapses
    else
      var candidate := candidates[pick % |candidates|];
      assert candidate in synapses;
      var k := FirstMatch(synapses, HasInnovation(candidate.innovation)).value;
      synapses[k := synapses[k].(isEnabled := flag)]
  }

  /** With unique innovations the slot found is the candidate itself, so the
      count of slots carrying `flag` grows by exactly one and innovations stay
      unique. */
  lemma SwitchCount(synapses: seq<Synapse>, pick: nat, flag: bool)
    requires UniqueInnovations(synapses)
    requires |Candidates(synapses, !flag)| > 0
    ensures Count(Switched(synapses, pick, flag), flag) == Count(synapses, flag) + 1
    ensures UniqueInnovations(Switched(synapses, pick, flag))
  {
    var r := Switched(synapses, pick, flag);
    var k :| 0 <= k < |synapses| && r == synapses[k := synapses[k].(isEnabled := flag)]
      && (exists c :: c in synapses && c.isEnabled == !flag && c.innovation == synapses[k].innovation);
    var c :| c in synapses && c.isEnabled == !flag && c.innovation == synapses[k].innovation;
    var m :| 0 <= m < |synapses| && synapses[m] == c;
    assert m == k;
    CountUpdate(synapses, k, synapses[k].(isEnabled := flag), flag);
  }

  /** Flipping flags keeps a genome's validity, closure and chains: both
      checks look at every synapse, enabled or not. */
  lemma FlagsKeepStructure(child: Genotype, synapses: seq<Synapse>)
    requires FlagsOnly(child.synapses, synapses)
    ensures var r := child.(synapses := synapses);
      && (PhenotypeBuilder.IsValidGenome(r) <==> PhenotypeBuilder.IsValidGenome(child))
      && (Closed(r.neurons, r.synapses) <==> Closed(child.neurons, child.synapses))
      && forall p :: LoopChecks.Path(r.synapses, p) <==> LoopChecks.Path(child.synapses, p)
  {
    var r := child.(synapses := synapses);
    forall i | 0 <= i < |child.synapses|
      ensures child.synapses[i].inputNeuronId == r.synapses[i].inputNeuronId
        && child.synapses[i].outputNeuronId == r.synapses[i].outputNeuronId
    {
    }
    Mutations.SameEnds(child, r);
  }

  /** DisableSynapse (flag false) or EnableSynapse (flag true) on the child's
      array; the "Synapse not found" exception cannot be raised, since the
      candidate is itself one of the slots. */
  method SwitchSynapse(synapses: array<Synapse>, pick: nat, flag: bool)
    modifies synapses
    ensures synapses[..] == Switched(old(synapses[..]), pick, flag)
  {
    if synapses.Length == 0 {
      return;
    }
    var candidates := Candidates(synapses[..], !flag);
    if |candidates| == 0 {
      return;
    }
    var candidate := candidates[pick % |candidates|];
    assert candidate in synapses[..];
    var found, index := TryFindIndex(synapses[..], HasInnovation(candidate.innovation));
    assert found;
    var k := index.value;
    synapses[k] := synapses[k].(isEnabled := flag);
  }

  /** Flag-only changes compose. */
  lemma FlagsOnlyCompose(a: seq<Synapse>, b: seq<Synapse>, c: seq<Synapse>)
    requires FlagsOnly(a, b) && FlagsOnly(b, c)
    ensures FlagsOnly(a, c)
  {
    forall i | 0 <= i < |a|
      ensures c[i] == a[i].(isEnabled := c[i].isEnabled)
    {
      assert b[i] == a[i].(isEnabled := b[i].isEnabled);
    }
  }
}
