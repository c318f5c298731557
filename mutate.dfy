/** Mutate and MakeChildren of src/Neat.Core/Evolution/EvolutionService.cs.
    Mutate lists eleven operators, each with a probability fixed up front
    from the crossover child, and rolls once per operator in list order.
    Every operator that fires is applied to that same child, and the result
    is the output of the last one that fired: the operators do not chain.
    The exception is the child's synapse array: the disable, enable and
    toggle operators write into it in place, so the operators after them
    see the change. The model keeps that array as an `array` and passes
    every later operator the child with the array's current contents. */
module Evolution {
  import opened Wrappers
  import opened Genomes
  import opened GenomesContexts
  import opened Settings
  import Mutations
  import SynapseSwitches
  import StructuralMutations
  import Crossovers
  import PhenotypeBuilder
  import LoopChecks
  import Shuffles

  /** The draws of one Mutate call: one roll per operator, in list order,
      and the choices each operator makes when it runs. */
  datatype Draws = Draws(
    rolls: seq<real>,
    weightPick: nat, weightStep: real -> real,                                       // 0 ModifySynapseWeight
    replacePick: nat, replaceWeight: real,                                           // 1 ReplaceSynapseWeight
    activationPick: nat, activationFunction: string,                                 // 2 ReplaceNeuronActivationFunction
    biasPick: nat, biasDelta: real,                                                  // 3 ModifyNeuronBias
    synapseOrder: seq<nat>, synapseTargetPick: nat -> nat, synapseWeight: real, // 4 AddSynapse
    directOrder: seq<nat>, directTargetPick: nat -> nat, directWeight: real,    // 5 AddDirectSynapse
    disablePick: nat,                                                                // 6 DisableSynapse
    enablePick: nat,                                                                 // 7 EnableSynapse
    togglePick: nat,                                                                 // 8 ToggleSynapse
    hiddenId: nat, hiddenFunction: string, hiddenTake: nat, hiddenPick: nat,         // 9 AddHiddenNeuron
    removePick: nat)                                                                 // 10 RemoveHiddenNeuron

  /** Eleven rolls from [0, 1), as NextDouble draws them. */
  predicate WellDrawn(d: Draws)
  {
    |d.rolls| == 11 && forall i :: 0 <= i < 11 ==> 0.0 <= d.rolls[i] < 1.0
  }

  /** The neurons AddSynapse tries as sources: the non-Output ones, in the
      drawn order. */
  function SynapseSources(child: Genotype, d: Draws): (r: seq<Neuron>)
    ensures multiset(r) == multiset(StructuralMutations.OfKinds(child.neurons, StructuralMutations.NotOutput))
  {
    Shuffles.Shuffled(StructuralMutations.OfKinds(child.neurons, StructuralMutations.NotOutput), d.synapseOrder)
  }

  /** The neurons AddDirectSynapse tries as sources: the Input and Bias
      ones, in the drawn order. */
  function DirectSources(child: Genotype, d: Draws): (r: seq<Neuron>)
    ensures multiset(r) == multiset(StructuralMutations.OfKinds(child.neurons, StructuralMutations.InputOrBias))
  {
    Shuffles.Shuffled(StructuralMutations.OfKinds(child.neurons, StructuralMutations.InputOrBias), d.directOrder)
  }

  /** ReplaceSynapseWeight's weight does not depend on the old one. */
  function Constant(w: real): real -> real
  {
    _ => w
  }

  /** The probabilities, fixed from the crossover child before any operator
      runs; an operator that cannot apply gets 0. */
  function Probabilities(child: Genotype, s: EvolutionSettings): (r: seq<real>)
    ensures |r| == 11
  {
    var enabled := |Enabled(child.synapses)| > 0;
    var disabled := |SynapseSwitches.Disabled(child.synapses)| > 0;
    var hidden := |Mutations.HiddenNeurons(child.neurons)|;
    [ if enabled then s.nonStructSynapseModifyProbability else 0.0,
      if enabled then s.nonStructSynapseReplaceProbability else 0.0,
      if hidden > 0 then s.nonStructNeuronActivationReplaceProbability else 0.0,
      if hidden > 0 then s.nonStructNeuronBiasProbability else 0.0,
      s.structAddSynapsesProbability,
      s.structAddDirectSynapsesProbability,
      if enabled then s.structDisableSynapsesProbability else 0.0,
      if disabled then s.structEnableSynapsesProbability else 0.0,
      if |child.synapses| > 0 then s.structToggleSynapsesProbability else 0.0,
      if s.maximumHiddenNeurons.Some? && hidden >= s.maximumHiddenNeurons.value then 0.0
      else if enabled then s.structNeuronAddProbability else 0.0,
      if hidden > 0 then s.structNeuronRemoveProbability else 0.0 ]
  }

  predicate Fires(child: Genotype, s: EvolutionSettings, d: Draws, op: nat)
    requires |d.rolls| == 11 && op < 11
  {
    d.rolls[op] < Probabilities(child, s)[op]
  }

  /** The contents of the child's synapse array once the operators before
      `upTo` have run: only a fired disable (6), enable (7) or toggle (8)
      changes it. */
  function InPlace(child: Genotype, s: EvolutionSettings, d: Draws, upTo: nat): (r: seq<Synapse>)
    requires |d.rolls| == 11 && upTo <= 11
  {
    if upTo == 0 then child.synapses
    else
      var before := InPlace(child, s, d, upTo - 1);
      var op := upTo - 1;
      if !Fires(child, s, d, op) then before
      else if op == 6 then SynapseSwitches.Switched(before, d.disablePick, false)
      else if op == 7 then SynapseSwitches.Switched(before, d.enablePick, true)
      else if op == 8 then SynapseSwitches.Toggled(before, d.togglePick)
      else before
  }

  /** The last operator before `upTo` that fires. */
  function LastFired(child: Genotype, s: EvolutionSettings, d: Draws, upTo: nat): (r: Option<nat>)
    requires |d.rolls| == 11 && upTo <= 11
    ensures r.None? ==> forall j :: 0 <= j < upTo ==> !Fires(child, s, d, j)
    ensures r.Some? ==> r.value < upTo && Fires(child, s, d, r.value)
    ensures r.Some? ==> forall j :: r.value < j < upTo ==> !Fires(child, s, d, j)
  {
    if upTo == 0 then None
    else if Fires(child, s, d, upTo - 1) then Some(upTo - 1)
    else LastFired(child, s, d, upTo - 1)
  }

  /** `g` is `c` with a synapse for `pair` appended, and the registry maps
      the appended synapse's innovation number to `pair`. */
  ghost predicate ConnectedAs(c: Genotype, pair: (nat, nat), weight: real, g: Genotype, m: map<nat, Innovation>)
  {
    |g.synapses| > 0
    && var n := g.synapses[|g.synapses| - 1].innovation;
    n in m && m[n] == pair && g == StructuralMutations.Connect(c, n, pair, weight)
  }

  /** `g` is `c` with synapse `v` split through a new neuron `id`, and the
      registry maps the two appended synapses' innovation numbers to their
      pairs. */
  ghost predicate SplitAs(c: Genotype, v: Synapse, id: nat, f: string, g: Genotype, m: map<nat, Innovation>)
  {
    |g.synapses| >= 2
    && var first := g.synapses[|g.synapses| - 2].innovation;
    var second := g.synapses[|g.synapses| - 1].innovation;
    first in m && m[first] == (v.inputNeuronId, id)
    && second in m && m[second] == (id, v.outputNeuronId)
    && g == StructuralMutations.Split(c, v, id, f, first, second)
  }

  /** Appending a synapse whose innovation number is registered for its
      pair is a ConnectedAs step. */
  lemma ConnectedAsIntro(c: Genotype, pair: (nat, nat), weight: real, n: nat, m: map<nat, Innovation>)
    requires n in m && m[n] == pair
    ensures ConnectedAs(c, pair, weight, StructuralMutations.Connect(c, n, pair, weight), m)
  {
    var g := StructuralMutations.Connect(c, n, pair, weight);
    assert g.synapses[|g.synapses| - 1].innovation == n;
  }

  /** Splitting with two registered innovation numbers is a SplitAs step. */
  lemma SplitAsIntro(c: Genotype, v: Synapse, id: nat, f: string, first: nat, second: nat, m: map<nat, Innovation>)
    requires first in m && m[first] == (v.inputNeuronId, id)
    requires second in m && m[second] == (id, v.outputNeuronId)
    ensures SplitAs(c, v, id, f, StructuralMutations.Split(c, v, id, f, first, second), m)
  {
    var g := StructuralMutations.Split(c, v, id, f, first, second);
    assert g.synapses[|g.synapses| - 2].innovation == first;
    assert g.synapses[|g.synapses| - 1].innovation == second;
  }

  /** What operator `op` yields, run on the child whose synapse array holds
      `current`; the innovation numbers it drew are registered in `m`. */
  ghost predicate Produced(child: Genotype, s: EvolutionSettings, d: Draws, op: nat, current: seq<Synapse>,
                           g: Genotype, m: map<nat, Innovation>)
  {
    var c := child.(synapses := current);
    if op == 0 then g == Mutations.Reweight(c, d.weightPick, d.weightStep)
    else if op == 1 then g == Mutations.Reweight(c, d.replacePick, Constant(d.replaceWeight))
    else if op == 2 then g == Mutations.ReplaceActivation(c, d.activationPick, d.activationFunction)
    else if op == 3 then g == Mutations.ModifyBias(c, d.biasPick, d.biasDelta)
    else if op == 4 then
      match StructuralMutations.FirstConnection(current, SynapseSources(child, d),
              StructuralMutations.OfKinds(child.neurons, StructuralMutations.NotInputOrBias), !s.allowRecurrent, d.synapseTargetPick, 0)
      case None => g == c
      case Some(pair) => ConnectedAs(c, pair, d.synapseWeight, g, m)
    else if op == 5 then
      match StructuralMutations.FirstConnection(current, DirectSources(child, d),
              StructuralMutations.OfKinds(child.neurons, StructuralMutations.OutputOnly), false, d.directTargetPick, 0)
      case None => g == c
      case Some(pair) => ConnectedAs(c, pair, d.directWeight, g, m)
    else if op == 6 then g == child.(synapses := SynapseSwitches.Switched(current, d.disablePick, false))
    else if op == 7 then g == child.(synapses := SynapseSwitches.Switched(current, d.enablePick, true))
    else if op == 8 then g == child.(synapses := SynapseSwitches.Toggled(current, d.togglePick))
    else if op == 9 then
      match StructuralMutations.Victim(c, d.hiddenTake, d.hiddenPick)
      case None => g == c
      case Some(v) => SplitAs(c, v, d.hiddenId, d.hiddenFunction, g, m)
    else if op == 10 then g == Mutations.RemoveHidden(c, d.removePick)
    else false
  }

  /** The genome Mutate returns: the child when nothing fires, otherwise
      the output of the last operator that fired, run on the child with the
      array as the earlier in-place operators left it. */
  ghost predicate Outcome(child: Genotype, s: EvolutionSettings, d: Draws, g: Genotype, m: map<nat, Innovation>)
    requires |d.rolls| == 11
  {
    match LastFired(child, s, d, 11)
    case None => g == child
    case Some(op) => Produced(child, s, d, op, InPlace(child, s, d, op), g, m)
  }

  /** Registering more pairs keeps what an operator produced. */
  lemma ProducedExtends(child: Genotype, s: EvolutionSettings, d: Draws, op: nat, current: seq<Synapse>,
                        g: Genotype, m: map<nat, Innovation>, m': map<nat, Innovation>)
    requires Produced(child, s, d, op, current, g, m) && Extends(m, m')
    ensures Produced(child, s, d, op, current, g, m')
  {
    var c := child.(synapses := current);
    if op == 4 {
      match StructuralMutations.FirstConnection(current, SynapseSources(child, d),
              StructuralMutations.OfKinds(child.neurons, StructuralMutations.NotInputOrBias), !s.allowRecurrent, d.synapseTargetPick, 0)
      case None =>
      case Some(pair) =>
        var n := g.synapses[|g.synapses| - 1].innovation;
        assert n in m' && m'[n] == pair;
    } else if op == 5 {
      match StructuralMutations.FirstConnection(current, DirectSources(child, d),
              StructuralMutations.OfKinds(child.neurons, StructuralMutations.OutputOnly), false, d.directTargetPick, 0)
      case None =>
      case Some(pair) =>
        var n := g.synapses[|g.synapses| - 1].innovation;
        assert n in m' && m'[n] == pair;
    } else if op == 9 {
      match StructuralMutations.Victim(c, d.hiddenTake, d.hiddenPick)
      case None =>
      case Some(v) =>
        var first, second := g.synapses[|g.synapses| - 2].innovation, g.synapses[|g.synapses| - 1].innovation;
        assert first in m' && second in m';
    }
  }

  /** Runs operator `op` on the child whose synapse array is `synapses`. */
  method ApplyOperator(op: nat, child: Genotype, s: EvolutionSettings, context: GenomesContext,
                       synapses: array<Synapse>, d: Draws) returns (r: Result<Genotype>)
    requires op < 11 && WellDrawn(d)
    modifies context, synapses
    ensures context.isInitialized == old(context.isInitialized)
    ensures Extends(old(context.innovations), context.innovations)
    ensures r.Failure? ==> !context.isInitialized
    ensures context.isInitialized ==> r.Success?
    ensures synapses[..] == (if op == 6 then SynapseSwitches.Switched(old(synapses[..]), d.disablePick, false)
                             else if op == 7 then SynapseSwitches.Switched(old(synapses[..]), d.enablePick, true)
                             else if op == 8 then SynapseSwitches.Toggled(old(synapses[..]), d.togglePick)
                             else old(synapses[..]))
    ensures r.Success? ==> Produced(child, s, d, op, old(synapses[..]), r.value, context.innovations)
  {
    var current := child.(synapses := synapses[..]);
    if op == 0 {
      r := Success(Mutations.Reweight(current, d.weightPick, d.weightStep));
    } else if op == 1 {
      r := Success(Mutations.Reweight(current, d.replacePick, Constant(d.replaceWeight)));
    } else if op == 2 {
      r := Success(Mutations.ReplaceActivation(current, d.activationPick, d.activationFunction));
    } else if op == 3 {
      r := Success(Mutations.ModifyBias(current, d.biasPick, d.biasDelta));
    } else if op == 4 {
      r := StructuralMutations.AddSynapse(current, s.allowRecurrent, context, SynapseSources(child, d), d.synapseTargetPick, d.synapseWeight);
      var pair := StructuralMutations.FirstConnection(current.synapses, SynapseSources(child, d),
        StructuralMutations.OfKinds(child.neurons, StructuralMutations.NotInputOrBias), !s.allowRecurrent, d.synapseTargetPick, 0);
      if pair.Some? && r.Success? {
        var n :| r == Success(StructuralMutations.Connect(current, n, pair.value, d.synapseWeight))
          && n in context.innovations && context.innovations[n] == pair.value;
        ConnectedAsIntro(current, pair.value, d.synapseWeight, n, context.innovations);
      }
    } else if op == 5 {
      r := StructuralMutations.AddDirectSynapse(current, context, DirectSources(child, d), d.directTargetPick, d.directWeight);
      var pair := StructuralMutations.FirstConnection(current.synapses, DirectSources(child, d),
        StructuralMutations.OfKinds(child.neurons, StructuralMutations.OutputOnly), false, d.directTargetPick, 0);
      if pair.Some? && r.Success? {
        var n :| r == Success(StructuralMutations.Connect(current, n, pair.value, d.directWeight))
          && n in context.innovations && context.innovations[n] == pair.value;
        ConnectedAsIntro(current, pair.value, d.directWeight, n, context.innovations);
      }
    } else if op == 6 {
      SynapseSwitches.SwitchSynapse(synapses, d.disablePick, false);
      r := Success(child.(synapses := synapses[..]));
    } else if op == 7 {
      SynapseSwitches.SwitchSynapse(synapses, d.enablePick, true);
      r := Success(child.(synapses := synapses[..]));
    } else if op == 8 {
      SynapseSwitches.ToggleSynapse(synapses, d.togglePick);
      r := Success(child.(synapses := synapses[..]));
    } else if op == 9 {
      r := StructuralMutations.AddHiddenNeuron(current, context, d.hiddenId, d.hiddenFunction, d.hiddenTake, d.hiddenPick);
      var victim := StructuralMutations.Victim(current, d.hiddenTake, d.hiddenPick);
      if victim.Some? && r.Success? {
        var v := victim.value;
        var first, second :| r == Success(StructuralMutations.Split(current, v, d.hiddenId, d.hiddenFunction, first, second))
          && first in context.innovations && context.innovations[first] == (v.inputNeuronId, d.hiddenId)
          && second in context.innovations && context.innovations[second] == (d.hiddenId, v.outputNeuronId);
        SplitAsIntro(current, v, d.hiddenId, d.hiddenFunction, first, second, context.innovations);
      }
    } else {
      r := Success(Mutations.RemoveHidden(current, d.removePick));
    }
  }

  /** Mutate. The child's synapse array is the one the disable, enable and
      toggle operators write into; the registry fails (and Mutate with it)
      when an operator that fires needs a number before the first Rebuild. */
  method Mutate(child: Genotype, s: EvolutionSettings, context: GenomesContext, d: Draws) returns (r: Result<Genotype>)
    requires WellDrawn(d)
    modifies context
    ensures context.isInitialized == old(context.isInitialized)
    ensures Extends(old(context.innovations), context.innovations)
    ensures r.Failure? ==> !context.isInitialized
    ensures context.isInitialized ==> r.Success?
    ensures r.Success? ==> Outcome(child, s, d, r.value, context.innovations)
  {
    var probabilities := Probabilities(child, s);
    var synapses := new Synapse[|child.synapses|](i requires 0 <= i < |child.synapses| => child.synapses[i]);
    assert synapses[..] == child.synapses;
    var result := child;
    for op := 0 to 11
      invariant synapses[..] == InPlace(child, s, d, op)
      invariant context.isInitialized == old(context.isInitialized)
      invariant Extends(old(context.innovations), context.innovations)
      invariant match LastFired(child, s, d, op)
        case None => result == child
        case Some(last) => Produced(child, s, d, last, InPlace(child, s, d, last), result, context.innovations)
    {
      assert (d.rolls[op] < probabilities[op]) == Fires(child, s, d, op);
      if d.rolls[op] < probabilities[op] {
        var next := ApplyOperator(op, child, s, context, synapses, d);
        if next.Failure? {
          return next;
        }
        result := next.value;
        assert LastFired(child, s, d, op + 1) == Some(op);
      } else {
        assert LastFired(child, s, d, op + 1) == LastFired(child, s, d, op);
      }
    }
    return Success(result);
  }

  /** MakeChildren: crossover of the two parents, then Mutate on the
      child. `pick` and `id` are the crossover's draws and the child's
      Guid, `d` Mutate's draws. */
  method MakeChildren(args: Crossovers.EvolutionArgs, s: EvolutionSettings, context: GenomesContext,
                      pick: seq<Crossovers.Gene> -> nat, id: nat, d: Draws) returns (r: Result<Genotype>)
    requires WellDrawn(d)
    modifies context
    ensures context.isInitialized == old(context.isInitialized)
    ensures Extends(old(context.innovations), context.innovations)
    ensures r.Failure? ==> !context.isInitialized
    ensures context.isInitialized ==> r.Success?
    ensures r.Success? ==> Outcome(Crossovers.Crossover(args, pick, id), s, d, r.value, context.innovations)
  {
    var child := Crossovers.Crossover(args, pick, id);
    r := Mutate(child, s, context, d);
  }

  // ---------------------------------------------------------------------
  // What Mutate guarantees

  /** When operator `op` can apply to the child at all. */
  predicate Applicable(child: Genotype, s: EvolutionSettings, op: nat)
  {
    var hidden := |Mutations.HiddenNeurons(child.neurons)|;
    if op in {0, 1, 6} then |Enabled(child.synapses)| > 0
    else if op in {2, 3, 10} then hidden > 0
    else if op == 7 then |SynapseSwitches.Disabled(child.synapses)| > 0
    else if op == 8 then |child.synapses| > 0
    else if op == 9 then |Enabled(child.synapses)| > 0 && (s.maximumHiddenNeurons.None? || hidden < s.maximumHiddenNeurons.value)
    else op < 11
  }

  /** An operator that cannot apply never fires: its probability was set
      to 0 and every roll is at least 0. */
  lemma Eligibility(child: Genotype, s: EvolutionSettings, d: Draws, op: nat)
    requires |d.rolls| == 11 && op < 11 && 0.0 <= d.rolls[op]
    ensures Fires(child, s, d, op) ==> Applicable(child, s, op)
  {
    var p := Probabilities(child, s);
    if op == 9 {
      assert s.maximumHiddenNeurons.Some? && |Mutations.HiddenNeurons(child.neurons)| >= s.maximumHiddenNeurons.value ==> p[9] == 0.0;
    }
  }

  /** The array only ever has flags flipped, and nothing before the disable
      operator writes into it. */
  lemma {:induction false} InPlaceFlags(child: Genotype, s: EvolutionSettings, d: Draws, upTo: nat)
    requires |d.rolls| == 11 && upTo <= 11
    ensures SynapseSwitches.FlagsOnly(child.synapses, InPlace(child, s, d, upTo))
    ensures upTo <= 6 ==> InPlace(child, s, d, upTo) == child.synapses
  {
    if upTo > 0 {
      InPlaceFlags(child, s, d, upTo - 1);
      SynapseSwitches.FlagsOnlyCompose(child.synapses, InPlace(child, s, d, upTo - 1), InPlace(child, s, d, upTo));
    }
  }

  /** The operators do not chain: only the last one that fires shapes the
      result. When it is one of the neuron operators (activation, bias)
      the child's synapses come back untouched, so a weight change drawn
      before is lost; when it is a weight, synapse or flag operator the
      child's neurons come back untouched, so an activation or bias change
      drawn before is lost. */
  lemma LastWins(child: Genotype, s: EvolutionSettings, d: Draws, g: Genotype, m: map<nat, Innovation>)
    requires WellDrawn(d) && Outcome(child, s, d, g, m)
    ensures LastFired(child, s, d, 11) == Some(2) || LastFired(child, s, d, 11) == Some(3) ==> g.synapses == child.synapses
    ensures (exists op :: op in {0, 1, 4, 5, 6, 7, 8} && LastFired(child, s, d, 11) == Some(op)) ==> g.neurons == child.neurons
  {
    match LastFired(child, s, d, 11)
    case None =>
    case Some(op) =>
      InPlaceFlags(child, s, d, op);
  }

  /** Each operator keeps a valid genome valid and a closed one closed, for
      a child with unique neuron ids, a fresh id for the new hidden neuron
      and any flag-only change of its synapse array. */
  lemma ProducedKeeps(child: Genotype, s: EvolutionSettings, d: Draws, op: nat, current: seq<Synapse>,
                      g: Genotype, m: map<nat, Innovation>)
    requires WellDrawn(d) && UniqueIds(child.neurons) && d.hiddenId !in Ids(child.neurons)
    requires SynapseSwitches.FlagsOnly(child.synapses, current)
    requires Produced(child, s, d, op, current, g, m)
    ensures PhenotypeBuilder.IsValidGenome(child) ==> PhenotypeBuilder.IsValidGenome(g)
    ensures Closed(child.neurons, child.synapses) ==> Closed(g.neurons, g.synapses)
  {
    var c := child.(synapses := current);
    SynapseSwitches.FlagsKeepStructure(child, current);
    if op == 0 {
      Mutations.NonStructuralKeepsStructure(c, d.weightPick, d.weightStep, d.biasDelta, d.activationFunction);
    } else if op == 1 {
      Mutations.NonStructuralKeepsStructure(c, d.replacePick, Constant(d.replaceWeight), d.biasDelta, d.activationFunction);
    } else if op == 2 {
      Mutations.NonStructuralKeepsStructure(c, d.activationPick, d.weightStep, d.biasDelta, d.activationFunction);
    } else if op == 3 {
      Mutations.NonStructuralKeepsStructure(c, d.biasPick, d.weightStep, d.biasDelta, d.activationFunction);
    } else if op == 4 {
      var pair := StructuralMutations.FirstConnection(current, SynapseSources(child, d),
        StructuralMutations.OfKinds(child.neurons, StructuralMutations.NotInputOrBias), !s.allowRecurrent, d.synapseTargetPick, 0);
      StructuralMutations.AddSynapseAdmissible(c, s.allowRecurrent, SynapseSources(child, d), d.synapseTargetPick);
      if pair.Some? {
        var n := g.synapses[|g.synapses| - 1].innovation;
        StructuralMutations.ConnectKeeps(c, n, pair.value, d.synapseWeight);
      }
    } else if op == 5 {
      var pair := StructuralMutations.FirstConnection(current, DirectSources(child, d),
        StructuralMutations.OfKinds(child.neurons, StructuralMutations.OutputOnly), false, d.directTargetPick, 0);
      StructuralMutations.AddDirectAdmissible(c, DirectSources(child, d), d.directTargetPick);
      if pair.Some? {
        var n := g.synapses[|g.synapses| - 1].innovation;
        StructuralMutations.ConnectKeeps(c, n, pair.value, d.directWeight);
      }
    } else if 6 <= op <= 8 {
      SynapseSwitches.FlagsOnlyCompose(child.synapses, current, g.synapses);
      SynapseSwitches.FlagsKeepStructure(child, g.synapses);
    } else if op == 9 {
      match StructuralMutations.Victim(c, d.hiddenTake, d.hiddenPick)
      case None =>
      case Some(v) =>
        var first, second := g.synapses[|g.synapses| - 2].innovation, g.synapses[|g.synapses| - 1].innovation;
        if PhenotypeBuilder.IsValidGenome(child) {
          StructuralMutations.SplitValid(c, v, d.hiddenId, d.hiddenFunction, first, second);
        }
        StructuralMutations.SplitKeeps(c, v, d.hiddenId, d.hiddenFunction, first, second);
    } else if op == 10 && |Mutations.HiddenNeurons(child.neurons)| > 0 {
      var _ := Mutations.RemoveHiddenKeeps(c, d.removePick);
    }
  }

  /** Mutate keeps a valid genome valid and a closed one closed. */
  lemma OutcomeKeeps(child: Genotype, s: EvolutionSettings, d: Draws, g: Genotype, m: map<nat, Innovation>)
    requires WellDrawn(d) && UniqueIds(child.neurons) && d.hiddenId !in Ids(child.neurons)
    requires Outcome(child, s, d, g, m)
    ensures PhenotypeBuilder.IsValidGenome(child) ==> PhenotypeBuilder.IsValidGenome(g)
    ensures Closed(child.neurons, child.synapses) ==> Closed(g.neurons, g.synapses)
  {
    match LastFired(child, s, d, 11)
    case None =>
    case Some(op) =>
      InPlaceFlags(child, s, d, op);
      ProducedKeeps(child, s, d, op, InPlace(child, s, d, op), g, m);
  }

  /** Without recurrent synapses allowed, each operator keeps a valid,
      closed, acyclic genome acyclic. */
  lemma ProducedAcyclic(child: Genotype, s: EvolutionSettings, d: Draws, op: nat, current: seq<Synapse>,
                        g: Genotype, m: map<nat, Innovation>)
    requires WellDrawn(d) && UniqueIds(child.neurons) && d.hiddenId !in Ids(child.neurons)
    requires SynapseSwitches.FlagsOnly(child.synapses, current)
    requires Produced(child, s, d, op, current, g, m)
    requires !s.allowRecurrent && PhenotypeBuilder.IsValidGenome(child) && Closed(child.neurons, child.synapses)
    requires LoopChecks.Acyclic(child.synapses)
    ensures LoopChecks.Acyclic(g.synapses)
  {
    var c := child.(synapses := current);
    SynapseSwitches.FlagsKeepStructure(child, current);
    assert LoopChecks.Acyclic(current) by {
      forall p ensures !LoopChecks.Cycle(current, p) {
        assert !LoopChecks.Cycle(child.synapses, p);
      }
    }
    if op == 0 || op == 1 {
      var step := if op == 0 then d.weightStep else Constant(d.replaceWeight);
      var pick := if op == 0 then d.weightPick else d.replacePick;
      Mutations.NonStructuralKeepsStructure(c, pick, step, d.biasDelta, d.activationFunction);
      forall p ensures !LoopChecks.Cycle(g.synapses, p) {
        assert !LoopChecks.Cycle(current, p);
      }
    } else if op == 4 {
      var pair := StructuralMutations.FirstConnection(current, SynapseSources(child, d),
        StructuralMutations.OfKinds(child.neurons, StructuralMutations.NotInputOrBias), true, d.synapseTargetPick, 0);
      if pair.Some? {
        var n := g.synapses[|g.synapses| - 1].innovation;
        StructuralMutations.AddSynapseAcyclic(c, SynapseSources(child, d), d.synapseTargetPick, n, d.synapseWeight);
      }
    } else if op == 5 {
      var pair := StructuralMutations.FirstConnection(current, DirectSources(child, d),
        StructuralMutations.OfKinds(child.neurons, StructuralMutations.OutputOnly), false, d.directTargetPick, 0);
      StructuralMutations.AddDirectAdmissible(c, DirectSources(child, d), d.directTargetPick);
      if pair.Some? {
        var n := g.synapses[|g.synapses| - 1].innovation;
        var source :| source in c.neurons && source.id == pair.value.0 && IsInputOrBias(source.kind);
        var target :| target in c.neurons && target.id == pair.value.1 && target.kind == Output;
        StructuralMutations.DirectAcyclic(c, source, target, Synapse(n, pair.value.0, pair.value.1, d.directWeight, true));
      }
    } else if 6 <= op <= 8 {
      SynapseSwitches.FlagsOnlyCompose(child.synapses, current, g.synapses);
      SynapseSwitches.FlagsKeepStructure(child, g.synapses);
      forall p ensures !LoopChecks.Cycle(g.synapses, p) {
        assert !LoopChecks.Cycle(child.synapses, p);
      }
    } else if op == 9 {
      match StructuralMutations.Victim(c, d.hiddenTake, d.hiddenPick)
      case None =>
      case Some(v) =>
        var first, second := g.synapses[|g.synapses| - 2].innovation, g.synapses[|g.synapses| - 1].innovation;
        StructuralMutations.SplitAcyclic(c, v, d.hiddenId, d.hiddenFunction, first, second);
    } else if op == 10 && |Mutations.HiddenNeurons(child.neurons)| > 0 {
      var _ := Mutations.RemoveHiddenKeeps(c, d.removePick);
      LoopChecks.SubsetAcyclic(current, g.synapses);
    }
  }

  /** With recurrent synapses disallowed, Mutate turns a valid, closed,
      acyclic genome into an acyclic one. */
  lemma OutcomeAcyclic(child: Genotype, s: EvolutionSettings, d: Draws, g: Genotype, m: map<nat, Innovation>)
    requires WellDrawn(d) && UniqueIds(child.neurons) && d.hiddenId !in Ids(child.neurons)
    requires Outcome(child, s, d, g, m)
    requires !s.allowRecurrent && PhenotypeBuilder.IsValidGenome(child) && Closed(child.neurons, child.synapses)
    requires LoopChecks.Acyclic(child.synapses)
    ensures LoopChecks.Acyclic(g.synapses)
  {
    match LastFired(child, s, d, 11)
    case None =>
    case Some(op) =>
      InPlaceFlags(child, s, d, op);
      ProducedAcyclic(child, s, d, op, InPlace(child, s, d, op), g, m);
  }
}
