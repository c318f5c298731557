/** The mutations of src/Neat.Core/Evolution/EvolutionService.cs that draw
    innovation numbers from the registry: AddSynapse, AddDirectSynapse and
    AddHiddenNeuron. Shuffles are explicit orders (a `sources` list that is
    a permutation of the candidates) or picks reduced modulo the number of
    candidates; the drawn weight, the fresh neuron id and the drawn
    activation function name are arguments. */
module StructuralMutations {
  import opened Wrappers
  import opened Genomes
  import opened EnumerableExtensions
  import opened LoopChecks
  import opened GenomesContexts
  import PhenotypeBuilder
  import Mutations
  import SynapseSwitches

  /** The neurons of the given kinds, in order. */
  function OfKinds(neurons: seq<Neuron>, kinds: set<NeuronType>): (r: seq<Neuron>)
    ensures forall n :: n in r <==> n in neurons && n.kind in kinds
  {
    if |neurons| == 0 then []
    else (if neurons[0].kind in kinds then [neurons[0]] else []) + OfKinds(neurons[1..], kinds)
  }

  /** AddSynapse's sources (`Type is not Output`) and targets (`Type is not
      Input and not Bias`); AddDirectSynapse's sources (Input or Bias) and
      targets (Output). */
  const NotOutput: set<NeuronType> := {Input, Hidden, Bias}
  const NotInputOrBias: set<NeuronType> := {Output, Hidden}
  const InputOrBias: set<NeuronType> := {Input, Bias}
  const OutputOnly: set<NeuronType> := {Output}

  lemma KindSets(kind: NeuronType)
    ensures kind in NotOutput <==> kind != Output
    ensures kind in NotInputOrBias <==> !IsInputOrBias(kind)
    ensures kind in InputOrBias <==> IsInputOrBias(kind)
    ensures kind in OutputOnly <==> kind == Output
  {
  }

  /** The targets that no synapse, enabled or not, joins `source` to yet. */
  function Unconnected(synapses: seq<Synapse>, source: nat, targets: seq<Neuron>): (r: seq<Neuron>)
    ensures forall n :: n in r <==> n in targets && !Edge(synapses, source, n.id)
  {
    if |targets| == 0 then []
    else (if !Edge(synapses, source, targets[0].id) then [targets[0]] else []) + Unconnected(synapses, source, targets[1..])
  }

  /** The candidate target drawn for the i-th source (the first unconnected
      neuron of a fresh shuffle of the targets), if there is one. */
  function DrawTarget(synapses: seq<Synapse>, source: nat, targets: seq<Neuron>, pick: nat): (r: Option<Neuron>)
    ensures r.None? <==> forall n :: n in targets ==> Edge(synapses, source, n.id)
    ensures r.Some? ==> r.value in targets && !Edge(synapses, source, r.value.id)
  {
    var candidates := Unconnected(synapses, source, targets);
    if |candidates| == 0 then None
    else
      assert candidates[pick % |candidates|] in candidates;
      Some(candidates[pick % |candidates|])
  }

  /** The (source, target) pair the search of AddSynapse / AddDirectSynapse
      settles on, looking at the sources from the i-th on: the first source
      whose drawn target exists and, when loops are checked, is not upstream
      of it. */
  function FirstConnection(synapses: seq<Synapse>, sources: seq<Neuron>, targets: seq<Neuron>, checkLoops: bool,
                           targetPick: nat -> nat, i: nat): (r: Option<(nat, nat)>)
    requires i <= |sources|
    ensures r.Some? ==>
      (exists k :: i <= k < |sources| && sources[k].id == r.value.0)
      && (exists t :: t in targets && t.id == r.value.1)
      && !Edge(synapses, r.value.0, r.value.1)
      && (checkLoops ==> !IsInLoop(synapses, r.value.0, {r.value.1}))
    ensures !checkLoops ==>
      (r.None? <==> forall k, t :: i <= k < |sources| && t in targets ==> Edge(synapses, sources[k].id, t.id))
    decreases |sources| - i
  {
    if i == |sources| then None
    else
      var source := sources[i].id;
      match DrawTarget(synapses, source, targets, targetPick(i))
      case Some(t) =>
        if !checkLoops || !IsInLoop(synapses, source, {t.id}) then Some((source, t.id))
        else FirstConnection(synapses, sources, targets, checkLoops, targetPick, i + 1)
      case None => FirstConnection(synapses, sources, targets, checkLoops, targetPick, i + 1)
  }

  /** The new enabled synapse both operators append. */
  function Connect(child: Genotype, innovation: nat, pair: (nat, nat), weight: real): Genotype
  {
    child.(synapses := child.synapses + [Synapse(innovation, pair.0, pair.1, weight, true)])
  }

  /** AddSynapse. `sources` is the shuffled list of non-Output neurons,
      `targetPick(i)` the draw for the i-th of them, `weight` the drawn
      weight. The registry fails when it has not been rebuilt yet. */
  method AddSynapse(child: Genotype, allowRecurrent: bool, context: GenomesContext, sources: seq<Neuron>,
                    targetPick: nat -> nat, weight: real) returns (r: Result<Genotype>)
    requires multiset(sources) == multiset(OfKinds(child.neurons, NotOutput))
    modifies context
    ensures context.isInitialized == old(context.isInitialized)
    ensures Extends(old(context.innovations), context.innovations)
    ensures r.Failure? ==> !context.isInitialized
    ensures var pair := FirstConnection(child.synapses, sources, OfKinds(child.neurons, NotInputOrBias), !allowRecurrent, targetPick, 0);
      && (pair.None? ==> r == Success(child) && unchanged(context))
      && (pair.Some? && !old(context.isInitialized) ==> r.Failure?)
      && (pair.Some? && old(context.isInitialized) ==>
            exists n :: r == Success(Connect(child, n, pair.value, weight))
              && n in context.innovations && context.innovations[n] == pair.value)
  {
    var targets := OfKinds(child.neurons, NotInputOrBias);
    var i := 0;
    while i < |sources|
      invariant i <= |sources|
      invariant FirstConnection(child.synapses, sources, targets, !allowRecurrent, targetPick, 0)
        == FirstConnection(child.synapses, sources, targets, !allowRecurrent, targetPick, i)
    {
      var source := sources[i];
      var target := DrawTarget(child.synapses, source.id, targets, targetPick(i));
      if target.Some? && (allowRecurrent || !IsInLoop(child.synapses, source.id, {target.value.id})) {
        assert FirstConnection(child.synapses, sources, targets, !allowRecurrent, targetPick, i) == Some((source.id, target.value.id));
        var innovation := context.GetInnovation(source.id, target.value.id);
        if innovation.Failure? {
          return Failure(innovation.error);
        }
        return Success(Connect(child, innovation.value, (source.id, target.value.id), weight));
      }
      i := i + 1;
    }
    return Success(child);
  }

  /** The lookup of the existing synapse in AddDirectSynapse. */
  function Joins(source: nat, target: nat): Synapse -> bool
  {
    (x: Synapse) => x.inputNeuronId == source && x.outputNeuronId == target
  }

  /** The re-enable branch of AddDirectSynapse is dead: the drawn target is
      unconnected, so the lookup of an existing synapse finds none. */
  lemma NoExistingSynapse(synapses: seq<Synapse>, source: nat, target: nat)
    requires !Edge(synapses, source, target)
    ensures FirstMatch(synapses, Joins(source, target)) == None
  {
    forall i | 0 <= i < |synapses|
      ensures !Joins(source, target)(synapses[i])
    {
      if Joins(source, target)(synapses[i]) {
        assert Edge(synapses, source, target);
      }
    }
  }

  /** AddDirectSynapse: Input/Bias sources, Output targets, no loop check.
      The re-enable branch for an existing synapse is unreachable. */
  method AddDirectSynapse(child: Genotype, context: GenomesContext, sources: seq<Neuron>,
                          targetPick: nat -> nat, weight: real) returns (r: Result<Genotype>)
    requires multiset(sources) == multiset(OfKinds(child.neurons, InputOrBias))
    modifies context
    ensures context.isInitialized == old(context.isInitialized)
    ensures Extends(old(context.innovations), context.innovations)
    ensures r.Failure? ==> !context.isInitialized
    ensures var pair := FirstConnection(child.synapses, sources, OfKinds(child.neurons, OutputOnly), false, targetPick, 0);
      && (pair.None? ==> r == Success(child) && unchanged(context))
      && (pair.Some? && !old(context.isInitialized) ==> r.Failure?)
      && (pair.Some? && old(context.isInitialized) ==>
            exists n :: r == Success(Connect(child, n, pair.value, weight))
              && n in context.innovations && context.innovations[n] == pair.value)
  {
    var targets := OfKinds(child.neurons, OutputOnly);
    var i := 0;
    while i < |sources|
      invariant i <= |sources|
      invariant FirstConnection(child.synapses, sources, targets, false, targetPick, 0)
        == FirstConnection(child.synapses, sources, targets, false, targetPick, i)
    {
      var source := sources[i];
      var target := DrawTarget(child.synapses, source.id, targets, targetPick(i));
      if target.Some? {
        var existing := FirstMatch(child.synapses, Joins(source.id, target.value.id));
        NoExistingSynapse(child.synapses, source.id, target.value.id);
        assert existing.None?;
        assert FirstConnection(child.synapses, sources, targets, false, targetPick, i) == Some((source.id, target.value.id));
        var innovation := context.GetInnovation(source.id, target.value.id);
        if innovation.Failure? {
          return Failure(innovation.error);
        }
        return Success(Connect(child, innovation.value, (source.id, target.value.id), weight));
      }
      i := i + 1;
    }
    return Success(child);
  }

  // ---------------------------------------------------------------------
  // What the appended synapse keeps

  /** With unique ids, a neuron is determined by its id. */
  lemma SameIdSameNeuron(neurons: seq<Neuron>, x: Neuron, y: Neuron)
    requires UniqueIds(neurons) && x in neurons && y in neurons && x.id == y.id
    ensures x == y
  {
    var i :| 0 <= i < |neurons| && neurons[i] == x;
    var j :| 0 <= j < |neurons| && neurons[j] == y;
    assert !(i < j) && !(j < i);
  }

  /** A neuron is misplaced among the extended synapses exactly when it was
      already, or the new synapse enters an Input/Bias neuron or leaves an
      Output neuron. */
  lemma MisplacedAppended(x: Neuron, synapses: seq<Synapse>, s: Synapse)
    ensures PhenotypeBuilder.Misplaced(x, synapses + [s]) <==>
      PhenotypeBuilder.Misplaced(x, synapses)
      || (IsInputOrBias(x.kind) && s.outputNeuronId == x.id)
      || (x.kind == Output && s.inputNeuronId == x.id)
  {
    var all := synapses + [s];
    assert all[|synapses|] == s;
    assert forall k :: 0 <= k < |synapses| ==> all[k] == synapses[k];
    if PhenotypeBuilder.Misplaced(x, all) && !PhenotypeBuilder.Misplaced(x, synapses) {
      if IsInputOrBias(x.kind) && exists k :: 0 <= k < |all| && all[k].outputNeuronId == x.id {
        var k :| 0 <= k < |all| && all[k].outputNeuronId == x.id;
        assert k == |synapses|;
      }
      if x.kind == Output && exists k :: 0 <= k < |all| && all[k].inputNeuronId == x.id {
        var k :| 0 <= k < |all| && all[k].inputNeuronId == x.id;
        assert k == |synapses|;
      }
    }
  }

  /** The synapse's ends are neurons of the genome: the source is not an
      Output neuron and the target neither an Input nor a Bias neuron. */
  predicate Admissible(neurons: seq<Neuron>, pair: (nat, nat))
  {
    (exists n :: n in neurons && n.id == pair.0 && n.kind != Output)
    && (exists t :: t in neurons && t.id == pair.1 && !IsInputOrBias(t.kind))
  }

  /** Appending an admissible synapse keeps a genome with unique neuron ids
      valid and closed. */
  lemma ConnectKeeps(child: Genotype, innovation: nat, pair: (nat, nat), weight: real)
    requires UniqueIds(child.neurons) && Admissible(child.neurons, pair)
    ensures var r := Connect(child, innovation, pair, weight);
      && r.neurons == child.neurons
      && (PhenotypeBuilder.IsValidGenome(child) ==> PhenotypeBuilder.IsValidGenome(r))
      && (Closed(child.neurons, child.synapses) ==> Closed(r.neurons, r.synapses))
  {
    var r := Connect(child, innovation, pair, weight);
    var s := Synapse(innovation, pair.0, pair.1, weight, true);
    var n :| n in child.neurons && n.id == pair.0 && n.kind != Output;
    var t :| t in child.neurons && t.id == pair.1 && !IsInputOrBias(t.kind);
    if PhenotypeBuilder.IsValidGenome(child) {
      forall i | 0 <= i < |r.neurons|
        ensures !PhenotypeBuilder.Misplaced(r.neurons[i], r.synapses)
      {
        var x := r.neurons[i];
        MisplacedAppended(x, child.synapses, s);
        if x.id == pair.0 {
          SameIdSameNeuron(child.neurons, x, n);
        }
        if x.id == pair.1 {
          SameIdSameNeuron(child.neurons, x, t);
        }
      }
    }
    if Closed(child.neurons, child.synapses) {
      assert r.synapses[|child.synapses|] == s;
      assert forall k :: 0 <= k < |child.synapses| ==> r.synapses[k] == child.synapses[k];
    }
  }

  /** Every synapse carries the number the registry gives its pair. */
  ghost predicate Consistent(innovations: map<nat, Innovation>, synapses: seq<Synapse>)
  {
    forall k :: 0 <= k < |synapses| ==>
      synapses[k].innovation in innovations && innovations[synapses[k].innovation] == (synapses[k].inputNeuronId, synapses[k].outputNeuronId)
  }

  /** When the genome agrees with the registry, the number drawn for a pair
      that has no synapse yet is new to the genome: innovations stay unique
      and the genome stays in agreement with the registry. */
  lemma ConnectFresh(child: Genotype, innovations: map<nat, Innovation>, innovation: nat, pair: (nat, nat), weight: real)
    requires Consistent(innovations, child.synapses) && UniqueInnovations(child.synapses)
    requires innovation in innovations && innovations[innovation] == pair
    requires !Edge(child.synapses, pair.0, pair.1)
    ensures var r := Connect(child, innovation, pair, weight);
      UniqueInnovations(r.synapses) && Consistent(innovations, r.synapses)
  {
    var r := Connect(child, innovation, pair, weight);
    forall k | 0 <= k < |child.synapses|
      ensures child.synapses[k].innovation != innovation
    {
      if child.synapses[k].innovation == innovation {
        assert Edge(child.synapses, pair.0, pair.1);
      }
    }
    assert r.synapses[|child.synapses|].innovation == innovation;
    assert forall k :: 0 <= k < |child.synapses| ==> r.synapses[k] == child.synapses[k];
  }

  // ---------------------------------------------------------------------
  // AddSynapse

  /** Every neuron of the listed kinds is among the shuffled sources. */
  lemma SourcesCover(neurons: seq<Neuron>, kinds: set<NeuronType>, sources: seq<Neuron>)
    requires multiset(sources) == multiset(OfKinds(neurons, kinds))
    ensures forall n :: n in sources <==> n in neurons && n.kind in kinds
  {
    forall n
      ensures n in sources <==> n in neurons && n.kind in kinds
    {
      assert n in sources <==> n in multiset(sources);
      assert n in OfKinds(neurons, kinds) <==> n in multiset(OfKinds(neurons, kinds));
    }
  }

  /** The pair either operator settles on joins a source-kind neuron to a
      target-kind neuron with no synapse between them yet. */
  lemma ChoiceAdmissible(child: Genotype, sourceKinds: set<NeuronType>, targetKinds: set<NeuronType>, checkLoops: bool,
                         sources: seq<Neuron>, targetPick: nat -> nat)
    requires multiset(sources) == multiset(OfKinds(child.neurons, sourceKinds))
    ensures var pair := FirstConnection(child.synapses, sources, OfKinds(child.neurons, targetKinds), checkLoops, targetPick, 0);
      pair.Some? ==>
        (exists n :: n in child.neurons && n.id == pair.value.0 && n.kind in sourceKinds)
        && (exists t :: t in child.neurons && t.id == pair.value.1 && t.kind in targetKinds)
        && !Edge(child.synapses, pair.value.0, pair.value.1)
  {
    var pair := FirstConnection(child.synapses, sources, OfKinds(child.neurons, targetKinds), checkLoops, targetPick, 0);
    SourcesCover(child.neurons, sourceKinds, sources);
    if pair.Some? {
      var k :| 0 <= k < |sources| && sources[k].id == pair.value.0;
      assert sources[k] in sources;
    }
  }

  /** With all pairs allowed, no pair is found exactly when every source-kind
      neuron is already joined to every target-kind neuron. */
  lemma ChoiceComplete(child: Genotype, sourceKinds: set<NeuronType>, targetKinds: set<NeuronType>,
                       sources: seq<Neuron>, targetPick: nat -> nat)
    requires multiset(sources) == multiset(OfKinds(child.neurons, sourceKinds))
    ensures FirstConnection(child.synapses, sources, OfKinds(child.neurons, targetKinds), false, targetPick, 0).None? <==>
      forall n, t :: n in child.neurons && n.kind in sourceKinds && t in child.neurons && t.kind in targetKinds
        ==> Edge(child.synapses, n.id, t.id)
  {
    SourcesCover(child.neurons, sourceKinds, sources);
    var targets := OfKinds(child.neurons, targetKinds);
    if FirstConnection(child.synapses, sources, targets, false, targetPick, 0).None? {
      forall n, t | n in child.neurons && n.kind in sourceKinds && t in child.neurons && t.kind in targetKinds
        ensures Edge(child.synapses, n.id, t.id)
      {
        var k :| 0 <= k < |sources| && sources[k] == n;
        assert t in targets;
      }
    } else {
      var pair := FirstConnection(child.synapses, sources, targets, false, targetPick, 0).value;
      var k :| 0 <= k < |sources| && sources[k].id == pair.0;
      var t :| t in targets && t.id == pair.1;
      assert sources[k] in sources;
    }
  }

  /** The pair AddSynapse settles on joins a non-Output neuron to a
      non-Input/Bias neuron with no synapse between them yet. */
  lemma AddSynapseAdmissible(child: Genotype, allowRecurrent: bool, sources: seq<Neuron>, targetPick: nat -> nat)
    requires multiset(sources) == multiset(OfKinds(child.neurons, NotOutput))
    ensures var pair := FirstConnection(child.synapses, sources, OfKinds(child.neurons, NotInputOrBias), !allowRecurrent, targetPick, 0);
      pair.Some? ==> Admissible(child.neurons, pair.value) && !Edge(child.synapses, pair.value.0, pair.value.1)
  {
    var pair := FirstConnection(child.synapses, sources, OfKinds(child.neurons, NotInputOrBias), !allowRecurrent, targetPick, 0);
    ChoiceAdmissible(child, NotOutput, NotInputOrBias, !allowRecurrent, sources, targetPick);
    if pair.Some? {
      var n :| n in child.neurons && n.id == pair.value.0 && n.kind in NotOutput;
      var t :| t in child.neurons && t.id == pair.value.1 && t.kind in NotInputOrBias;
      KindSets(n.kind);
      KindSets(t.kind);
    }
  }

  /** Unless recurrence is allowed, no chain leads back from the target of
      the pair AddSynapse settles on to its source, so it is no self-loop. */
  lemma AddSynapseNoBackPath(child: Genotype, sources: seq<Neuron>, targetPick: nat -> nat)
    ensures var pair := FirstConnection(child.synapses, sources, OfKinds(child.neurons, NotInputOrBias), true, targetPick, 0);
      pair.Some? ==>
        pair.value.0 != pair.value.1
        && forall p :: !(Path(child.synapses, p) && p[0] == pair.value.1 && p[|p| - 1] == pair.value.0)
  {
    var pair := FirstConnection(child.synapses, sources, OfKinds(child.neurons, NotInputOrBias), true, targetPick, 0);
    if pair.Some? {
      NoLoopNoPath(child.synapses, pair.value.0, pair.value.1, [pair.value.1]);
      forall p
        ensures !(Path(child.synapses, p) && p[0] == pair.value.1 && p[|p| - 1] == pair.value.0)
      {
        NoLoopNoPath(child.synapses, pair.value.0, pair.value.1, p);
      }
    }
  }

  /** Unless recurrence is allowed, AddSynapse keeps an acyclic genome
      acyclic. */
  lemma AddSynapseAcyclic(child: Genotype, sources: seq<Neuron>, targetPick: nat -> nat, innovation: nat, weight: real)
    requires FirstConnection(child.synapses, sources, OfKinds(child.neurons, NotInputOrBias), true, targetPick, 0).Some?
    requires Acyclic(child.synapses)
    ensures var pair := FirstConnection(child.synapses, sources, OfKinds(child.neurons, NotInputOrBias), true, targetPick, 0);
      Acyclic(Connect(child, innovation, pair.value, weight).synapses)
  {
    var pair := FirstConnection(child.synapses, sources, OfKinds(child.neurons, NotInputOrBias), true, targetPick, 0);
    AddSynapseNoBackPath(child, sources, targetPick);
    AddEdgeAcyclic(child.synapses, Synapse(innovation, pair.value.0, pair.value.1, weight, true));
  }

  // ---------------------------------------------------------------------
  // AddDirectSynapse

  /** The pair AddDirectSynapse settles on joins an Input/Bias neuron to an
      Output neuron with no synapse between them yet. */
  lemma AddDirectAdmissible(child: Genotype, sources: seq<Neuron>, targetPick: nat -> nat)
    requires multiset(sources) == multiset(OfKinds(child.neurons, InputOrBias))
    ensures var pair := FirstConnection(child.synapses, sources, OfKinds(child.neurons, OutputOnly), false, targetPick, 0);
      pair.Some? ==>
        (exists n :: n in child.neurons && n.id == pair.value.0 && IsInputOrBias(n.kind))
        && (exists t :: t in child.neurons && t.id == pair.value.1 && t.kind == Output)
        && Admissible(child.neurons, pair.value)
        && !Edge(child.synapses, pair.value.0, pair.value.1)
  {
    var pair := FirstConnection(child.synapses, sources, OfKinds(child.neurons, OutputOnly), false, targetPick, 0);
    ChoiceAdmissible(child, InputOrBias, OutputOnly, false, sources, targetPick);
    if pair.Some? {
      var n :| n in child.neurons && n.id == pair.value.0 && n.kind in InputOrBias;
      var t :| t in child.neurons && t.id == pair.value.1 && t.kind in OutputOnly;
      KindSets(n.kind);
      KindSets(t.kind);
    }
  }

  /** In a valid genome with unique ids, nothing leads into an Input or Bias
      neuron, so a synapse from one into an Output neuron closes no cycle. */
  lemma DirectAcyclic(child: Genotype, n: Neuron, t: Neuron, s: Synapse)
    requires UniqueIds(child.neurons) && PhenotypeBuilder.IsValidGenome(child) && Acyclic(child.synapses)
    requires n in child.neurons && IsInputOrBias(n.kind) && t in child.neurons && t.kind == Output
    requires s.inputNeuronId == n.id && s.outputNeuronId == t.id
    ensures Acyclic(child.synapses + [s])
  {
    NoEdgeInto(child, n);
    if t.id == n.id {
      SameIdSameNeuron(child.neurons, n, t);
    }
    forall p | Path(child.synapses, p) && p[0] == t.id
      ensures p[|p| - 1] != n.id
    {
      if |p| > 1 {
        assert Edge(child.synapses, p[|p| - 2], p[|p| - 1]);
      }
    }
    AddEdgeAcyclic(child.synapses, s);
  }

  /** In a valid genome no synapse enters an Input or Bias neuron. */
  lemma NoEdgeInto(child: Genotype, n: Neuron)
    requires PhenotypeBuilder.IsValidGenome(child) && n in child.neurons && IsInputOrBias(n.kind)
    ensures forall x :: !Edge(child.synapses, x, n.id)
  {
    var i :| 0 <= i < |child.neurons| && child.neurons[i] == n;
    assert !PhenotypeBuilder.Misplaced(child.neurons[i], child.synapses);
  }

  // ---------------------------------------------------------------------
  // AddHiddenNeuron

  /** A synapse touching a Hidden or Bias neuron: split last. */
  predicate LowPriority(neurons: seq<Neuron>, s: Synapse)
  {
    exists n :: n in neurons && (n.id == s.inputNeuronId || n.id == s.outputNeuronId) && (n.kind == Hidden || n.kind == Bias)
  }

  function WithPriority(neurons: seq<Neuron>, synapses: seq<Synapse>, low: bool): (r: seq<Synapse>)
    ensures |r| <= |synapses|
    ensures forall s :: s in r <==> s in synapses && LowPriority(neurons, s) == low
  {
    if |synapses| == 0 then []
    else (if LowPriority(neurons, synapses[0]) == low then [synapses[0]] else []) + WithPriority(neurons, synapses[1..], low)
  }

  lemma {:induction false} PrioritySplit(neurons: seq<Neuron>, synapses: seq<Synapse>)
    ensures |WithPriority(neurons, synapses, false)| + |WithPriority(neurons, synapses, true)| == |synapses|
  {
    if |synapses| > 0 {
      PrioritySplit(neurons, synapses[1..]);
    }
  }

  /** The enabled synapses ordered by priority (a stable OrderBy): first
      those touching no Hidden or Bias neuron, then the rest. */
  function ByPriority(neurons: seq<Neuron>, enabled: seq<Synapse>): (r: seq<Synapse>)
    ensures |r| == |enabled|
    ensures forall s :: s in r <==> s in enabled
  {
    PrioritySplit(neurons, enabled);
    WithPriority(neurons, enabled, false) + WithPriority(neurons, enabled, true)
  }

  /** The synapse AddHiddenNeuron splits: among the first `take % count + 1`
      synapses of the priority order (Take(Next(count) + 1)), the one
      `pick` lands on after the shuffle; none when there is no enabled
      synapse. */
  function Victim(child: Genotype, take: nat, pick: nat): (r: Option<Synapse>)
    ensures r.None? <==> |Enabled(child.synapses)| == 0
    ensures r.Some? ==> r.value in child.synapses && r.value.isEnabled
  {
    var enabled := Enabled(child.synapses);
    if |child.synapses| == 0 || |enabled| == 0 then None
    else
      var ordered := ByPriority(child.neurons, enabled);
      var window := take % |enabled| + 1;
      assert ordered[pick % window] in enabled;
      Some(ordered[pick % window])
  }

  /** The preference: when the window is no wider than the number of
      synapses touching no Hidden or Bias neuron, the victim is one of them. */
  lemma VictimPreferred(child: Genotype, take: nat, pick: nat)
    requires |Enabled(child.synapses)| > 0
    requires take % |Enabled(child.synapses)| < |WithPriority(child.neurons, Enabled(child.synapses), false)|
    ensures !LowPriority(child.neurons, Victim(child, take, pick).value)
  {
    var enabled := Enabled(child.synapses);
    var high := WithPriority(child.neurons, enabled, false);
    var window := take % |enabled| + 1;
    var ordered := ByPriority(child.neurons, enabled);
    assert ordered[pick % window] == high[pick % window];
    assert high[pick % window] in high;
  }

  /** Every slot carrying the innovation is switched off. */
  function DisableInnovation(synapses: seq<Synapse>, innovation: nat): (r: seq<Synapse>)
    ensures SynapseSwitches.FlagsOnly(synapses, r)
    ensures forall i :: 0 <= i < |r| ==> r[i].isEnabled == (synapses[i].isEnabled && synapses[i].innovation != innovation)
  {
    seq(|synapses|, i requires 0 <= i < |synapses| =>
      if synapses[i].innovation == innovation then synapses[i].(isEnabled := false) else synapses[i])
  }

  /** The new Hidden neuron: bias 0, no data, no label, the drawn function. */
  function HiddenNeuron(id: nat, activationFunction: string): Neuron
  {
    Neuron(id, Hidden, 0.0, None, None, activationFunction)
  }

  /** The split: the victim's innovation is disabled, and source -> new
      (weight 1) and new -> target (the victim's weight) are appended along
      with the new neuron. */
  function Split(child: Genotype, victim: Synapse, id: nat, activationFunction: string, first: nat, second: nat): Genotype
  {
    child.(
      neurons := child.neurons + [HiddenNeuron(id, activationFunction)],
      synapses := DisableInnovation(child.synapses, victim.innovation)
        + [Synapse(first, victim.inputNeuronId, id, 1.0, true), Synapse(second, id, victim.outputNeuronId, victim.weight, true)])
  }

  /** AddHiddenNeuron. `id` is the new neuron's Guid, `activationFunction`
      the drawn function name, `take` and `pick` the draws that choose the
      victim. */
  method AddHiddenNeuron(child: Genotype, context: GenomesContext, id: nat, activationFunction: string,
                         take: nat, pick: nat) returns (r: Result<Genotype>)
    modifies context
    ensures context.isInitialized == old(context.isInitialized)
    ensures Extends(old(context.innovations), context.innovations)
    ensures r.Failure? ==> !context.isInitialized
    ensures Victim(child, take, pick).None? ==> r == Success(child) && unchanged(context)
    ensures Victim(child, take, pick).Some? && !old(context.isInitialized) ==> r.Failure?
    ensures Victim(child, take, pick).Some? && old(context.isInitialized) ==>
      var victim := Victim(child, take, pick).value;
      exists first, second :: r == Success(Split(child, victim, id, activationFunction, first, second))
        && first in context.innovations && context.innovations[first] == (victim.inputNeuronId, id)
        && second in context.innovations && context.innovations[second] == (id, victim.outputNeuronId)
  {
    if |child.synapses| == 0 {
      return Success(child);
    }
    var candidate := Victim(child, take, pick);
    if candidate.None? {
      return Success(child);
    }
    var victim := candidate.value;
    var first := context.GetInnovation(victim.inputNeuronId, id);
    if first.Failure? {
      return Failure(first.error);
    }
    var second := context.GetInnovation(id, victim.outputNeuronId);
    // the first lookup succeeded, so the registry is initialised
    assert second.Success?;
    return Success(Split(child, victim, id, activationFunction, first.value, second.value));
  }

  /** Flipping flags changes no neuron's placement. */
  lemma MisplacedFlags(x: Neuron, a: seq<Synapse>, b: seq<Synapse>)
    requires SynapseSwitches.FlagsOnly(a, b)
    ensures PhenotypeBuilder.Misplaced(x, a) == PhenotypeBuilder.Misplaced(x, b)
  {
    assert forall k :: 0 <= k < |a| ==> a[k].inputNeuronId == b[k].inputNeuronId && a[k].outputNeuronId == b[k].outputNeuronId;
  }

  /** The split keeps a valid genome valid when the new id is fresh. */
  lemma SplitValid(child: Genotype, victim: Synapse, id: nat, activationFunction: string, first: nat, second: nat)
    requires victim in child.synapses && id !in Ids(child.neurons)
    requires PhenotypeBuilder.IsValidGenome(child)
    ensures PhenotypeBuilder.IsValidGenome(Split(child, victim, id, activationFunction, first, second))
  {
    var r := Split(child, victim, id, activationFunction, first, second);
    var disabled := DisableInnovation(child.synapses, victim.innovation);
    var s1 := Synapse(first, victim.inputNeuronId, id, 1.0, true);
    var s2 := Synapse(second, id, victim.outputNeuronId, victim.weight, true);
    assert r.synapses == (disabled + [s1]) + [s2];
    var v :| 0 <= v < |child.synapses| && child.synapses[v] == victim;
    forall i | 0 <= i < |r.neurons|
      ensures !PhenotypeBuilder.Misplaced(r.neurons[i], r.synapses)
    {
      if i < |child.neurons| {
        var x := child.neurons[i];
        assert r.neurons[i] == x;
        assert !PhenotypeBuilder.Misplaced(x, child.synapses);
        assert x.id != id;
        MisplacedFlags(x, child.synapses, disabled);
        MisplacedAppended(x, disabled, s1);
        MisplacedAppended(x, disabled + [s1], s2);
      }
    }
    Mutations.BiasCountAppend(child.neurons, [HiddenNeuron(id, activationFunction)]);
  }

  /** The split keeps a closed genome closed and unique ids unique (for a
      fresh id), adds exactly one Hidden neuron, disables exactly the slots
      carrying the victim's innovation, and routes the victim's source
      through the new neuron to its target. */
  lemma SplitKeeps(child: Genotype, victim: Synapse, id: nat, activationFunction: string, first: nat, second: nat)
    requires victim in child.synapses && id !in Ids(child.neurons)
    ensures var r := Split(child, victim, id, activationFunction, first, second);
      && |r.neurons| == |child.neurons| + 1
      && r.neurons[..|child.neurons|] == child.neurons
      && r.neurons[|child.neurons|].kind == Hidden && r.neurons[|child.neurons|].id == id
      && (Closed(child.neurons, child.synapses) ==> Closed(r.neurons, r.synapses))
      && (UniqueIds(child.neurons) ==> UniqueIds(r.neurons))
      && |r.synapses| == |child.synapses| + 2
      && (forall k :: 0 <= k < |child.synapses| ==>
            r.synapses[k] == child.synapses[k].(isEnabled := child.synapses[k].isEnabled && child.synapses[k].innovation != victim.innovation))
      && Path(r.synapses, [victim.inputNeuronId, id, victim.outputNeuronId])
  {
    var r := Split(child, victim, id, activationFunction, first, second);
    var n := |child.synapses|;
    var kept := DisableInnovation(child.synapses, victim.innovation);
    var into := Synapse(first, victim.inputNeuronId, id, 1.0, true);
    var out := Synapse(second, id, victim.outputNeuronId, victim.weight, true);
    assert r.synapses == kept + [into, out];
    NeuronAppended(child.neurons, HiddenNeuron(id, activationFunction));
    assert Path(r.synapses, [victim.inputNeuronId, id, victim.outputNeuronId]) by {
      assert r.synapses[n] == into && r.synapses[n + 1] == out;
      assert Edge(r.synapses, victim.inputNeuronId, id);
      assert Edge(r.synapses, id, victim.outputNeuronId);
    }
    assert forall k :: 0 <= k < n ==> r.synapses[k] == kept[k];
    if Closed(child.neurons, child.synapses) {
      SplitClosed(child.neurons, child.synapses, kept, HiddenNeuron(id, activationFunction), victim, into, out);
    }
  }

  /** Appending a neuron with a fresh id keeps the old ones in front, adds
      exactly its id, and keeps the ids unique. */
  lemma NeuronAppended(neurons: seq<Neuron>, extra: Neuron)
    requires extra.id !in Ids(neurons)
    ensures (neurons + [extra])[..|neurons|] == neurons
    ensures Ids(neurons + [extra]) == Ids(neurons) + {extra.id}
    ensures UniqueIds(neurons) ==> UniqueIds(neurons + [extra])
  {
    var all := neurons + [extra];
    assert forall i :: 0 <= i < |neurons| ==> all[i] == neurons[i];
  }

  /** The flags-only copy of a closed genome's synapses plus two synapses
      between the victim's ends and the new neuron stays closed. */
  lemma SplitClosed(neurons: seq<Neuron>, synapses: seq<Synapse>, kept: seq<Synapse>, extra: Neuron, victim: Synapse,
                    into: Synapse, out: Synapse)
    requires Closed(neurons, synapses) && victim in synapses
    requires SynapseSwitches.FlagsOnly(synapses, kept)
    requires Ids(neurons + [extra]) == Ids(neurons) + {extra.id}
    requires into.inputNeuronId == victim.inputNeuronId && into.outputNeuronId == extra.id
    requires out.inputNeuronId == extra.id && out.outputNeuronId == victim.outputNeuronId
    ensures Closed(neurons + [extra], kept + [into, out])
  {
    var all := kept + [into, out];
    var v :| 0 <= v < |synapses| && synapses[v] == victim;
    forall k | 0 <= k < |all|
      ensures all[k].inputNeuronId in Ids(neurons + [extra]) && all[k].outputNeuronId in Ids(neurons + [extra])
    {
      if k < |kept| {
        assert all[k] == kept[k];
        assert kept[k].inputNeuronId == synapses[k].inputNeuronId;
      }
    }
  }

  /** In a closed genome with a fresh id, the split's synapses join the old
      pairs and, through the new neuron, only the victim's source to it and
      it to the victim's target. */
  lemma SplitEdge(child: Genotype, victim: Synapse, id: nat, activationFunction: string, first: nat, second: nat, a: nat, b: nat)
    requires victim in child.synapses && id !in Ids(child.neurons) && Closed(child.neurons, child.synapses)
    requires Edge(Split(child, victim, id, activationFunction, first, second).synapses, a, b)
    ensures victim.inputNeuronId != id && victim.outputNeuronId != id
    ensures a != id && b != id ==> Edge(child.synapses, a, b)
    ensures a == id ==> b == victim.outputNeuronId
    ensures b == id ==> a == victim.inputNeuronId
  {
    var r := Split(child, victim, id, activationFunction, first, second).synapses;
    var n := |child.synapses|;
    var v :| 0 <= v < n && child.synapses[v] == victim;
    assert victim.inputNeuronId in Ids(child.neurons) && victim.outputNeuronId in Ids(child.neurons);
    var k :| 0 <= k < |r| && r[k].inputNeuronId == a && r[k].outputNeuronId == b;
    if k < n {
      assert r[k].inputNeuronId == child.synapses[k].inputNeuronId && r[k].outputNeuronId == child.synapses[k].outputNeuronId;
      assert a in Ids(child.neurons) && b in Ids(child.neurons);
    }
  }

  /** Where a chain of the split's synapses ends: the neuron itself, or the
      victim's source for the new neuron. */
  function Projected(victim: Synapse, id: nat, x: nat): nat
  {
    if x == id then victim.inputNeuronId else x
  }

  /** A chain of the split's synapses that does not start at the new neuron
      shortens to a chain of the old synapses: a detour through the new
      neuron becomes the victim itself, and a final step into it is
      dropped. */
  lemma {:induction false} SplitReach(child: Genotype, victim: Synapse, id: nat, activationFunction: string,
                                      first: nat, second: nat, p: seq<nat>) returns (q: seq<nat>)
    requires victim in child.synapses && id !in Ids(child.neurons) && Closed(child.neurons, child.synapses)
    requires Path(Split(child, victim, id, activationFunction, first, second).synapses, p) && p[0] != id
    ensures Path(child.synapses, q) && q[0] == p[0] && q[|q| - 1] == Projected(victim, id, p[|p| - 1])
    ensures |p| > 1 && p[|p| - 1] != id ==> |q| > 1
    decreases |p|
  {
    var r := Split(child, victim, id, activationFunction, first, second).synapses;
    var v :| 0 <= v < |child.synapses| && child.synapses[v] == victim;
    if |p| == 1 {
      q := p;
    } else {
      assert Edge(r, p[0], p[1]);
      SplitEdge(child, victim, id, activationFunction, first, second, p[0], p[1]);
      if p[1] == id && |p| == 2 {
        q := [p[0]];
      } else {
        var tail := if p[1] == id then p[2..] else p[1..];
        if p[1] == id {
          assert Edge(r, p[1], p[2]);
          SplitEdge(child, victim, id, activationFunction, first, second, p[1], p[2]);
        }
        assert forall i :: 0 <= i < |tail| - 1 ==> Edge(r, tail[i], tail[i + 1]) by {
          forall i | 0 <= i < |tail| - 1
            ensures Edge(r, tail[i], tail[i + 1])
          {
            var j := if p[1] == id then i + 2 else i + 1;
            assert tail[i] == p[j] && tail[i + 1] == p[j + 1];
          }
        }
        var rest := SplitReach(child, victim, id, activationFunction, first, second, tail);
        assert Edge(child.synapses, p[0], rest[0]);
        q := [p[0]] + rest;
        forall i | 0 <= i < |q| - 1
          ensures Edge(child.synapses, q[i], q[i + 1])
        {
          if i > 0 {
            assert q[i] == rest[i - 1] && q[i + 1] == rest[i];
          }
        }
      }
    }
  }

  /** Splitting a synapse of a closed genome around a fresh id closes no
      cycle: a cycle through the new neuron would be one through the victim
      before. */
  lemma SplitAcyclic(child: Genotype, victim: Synapse, id: nat, activationFunction: string, first: nat, second: nat)
    requires victim in child.synapses && id !in Ids(child.neurons) && Closed(child.neurons, child.synapses)
    requires Acyclic(child.synapses)
    ensures Acyclic(Split(child, victim, id, activationFunction, first, second).synapses)
  {
    var r := Split(child, victim, id, activationFunction, first, second).synapses;
    var v :| 0 <= v < |child.synapses| && child.synapses[v] == victim;
    assert Edge(child.synapses, victim.inputNeuronId, victim.outputNeuronId);
    forall p | Path(r, p) && |p| > 1
      ensures p[0] != p[|p| - 1]
    {
      if p[0] != id {
        var q := SplitReach(child, victim, id, activationFunction, first, second, p);
        assert !Cycle(child.synapses, q);
      } else {
        assert Edge(r, p[0], p[1]);
        SplitEdge(child, victim, id, activationFunction, first, second, p[0], p[1]);
        var tail := p[1..];
        assert forall i :: 0 <= i < |tail| ==> tail[i] == p[i + 1];
        var q := SplitReach(child, victim, id, activationFunction, first, second, tail);
        PathExtended(child.synapses, q, victim.outputNeuronId);
        assert !Cycle(child.synapses, q + [victim.outputNeuronId]);
      }
    }
  }
}
