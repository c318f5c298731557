/** The phenotype compiler of src/Neat.Core/Phenotypes/PhenotypeBuilder.cs:
    genome validation, the initial buffers, dead-neuron removal, and the
    execution plan built by walking backward from every output neuron. */
module PhenotypeBuilder {
  import opened Wrappers
  import opened Genomes

  // ---------------------------------------------------------------------
  // Validation and the initial buffers

  /** A neuron IsValidateGenome rejects: a Bias or Input neuron that is the
      target of a synapse, or an Output neuron that is the source of one
      (enabled or not). */
  predicate Misplaced(n: Neuron, synapses: seq<Synapse>)
  {
    (IsInputOrBias(n.kind) && exists k :: 0 <= k < |synapses| && synapses[k].outputNeuronId == n.id)
    || (n.kind == Output && exists k :: 0 <= k < |synapses| && synapses[k].inputNeuronId == n.id)
  }

  /** The foreach of IsValidateGenome: neuron after neuron, stop at the first
      misplaced one. */
  function NoneMisplaced(neurons: seq<Neuron>, synapses: seq<Synapse>): (r: bool)
    ensures r <==> forall i :: 0 <= i < |neurons| ==> !Misplaced(neurons[i], synapses)
  {
    if |neurons| == 0 then true
    else if Misplaced(neurons[0], synapses) then false
    else
      assert forall i :: 1 <= i < |neurons| ==> neurons[i] == neurons[1..][i - 1];
      NoneMisplaced(neurons[1..], synapses)
  }

  function BiasCount(neurons: seq<Neuron>): nat
  {
    if |neurons| == 0 then 0
    else (if neurons[0].kind == Bias then 1 else 0) + BiasCount(neurons[1..])
  }

  /** At most one Bias neuron, as a count and as uniqueness of its position. */
  lemma {:induction false} BiasCountAtMostOne(neurons: seq<Neuron>)
    ensures BiasCount(neurons) <= 1 <==>
      forall i, j :: 0 <= i < |neurons| && 0 <= j < |neurons| && neurons[i].kind == Bias && neurons[j].kind == Bias ==> i == j
    ensures BiasCount(neurons) == 0 <==> forall i :: 0 <= i < |neurons| ==> neurons[i].kind != Bias
  {
    if |neurons| > 0 {
      var tail := neurons[1..];
      BiasCountAtMostOne(tail);
      assert forall i :: 1 <= i < |neurons| ==> neurons[i] == tail[i - 1];
      if neurons[0].kind == Bias && BiasCount(tail) > 0 {
        var j :| 0 <= j < |tail| && tail[j].kind == Bias;
        assert neurons[j + 1].kind == Bias;
      }
      if BiasCount(tail) > 1 {
        var i, j :| 0 <= i < |tail| && 0 <= j < |tail| && tail[i].kind == Bias && tail[j].kind == Bias && i != j;
        assert neurons[i + 1].kind == Bias && neurons[j + 1].kind == Bias;
      }
    }
  }

  /** IsValidateGenome: no synapse into a Bias or Input neuron, none out of an
      Output neuron, and at most one Bias neuron. */
  function IsValidGenome(g: Genotype): (r: bool)
    ensures r <==>
      (forall i, k :: 0 <= i < |g.neurons| && 0 <= k < |g.synapses| && IsInputOrBias(g.neurons[i].kind) ==>
         g.synapses[k].outputNeuronId != g.neurons[i].id)
      && (forall i, k :: 0 <= i < |g.neurons| && 0 <= k < |g.synapses| && g.neurons[i].kind == Output ==>
            g.synapses[k].inputNeuronId != g.neurons[i].id)
      && (forall i, j :: 0 <= i < |g.neurons| && 0 <= j < |g.neurons| && g.neurons[i].kind == Bias && g.neurons[j].kind == Bias ==> i == j)
  {
    BiasCountAtMostOne(g.neurons);
    NoneMisplaced(g.neurons, g.synapses) && BiasCount(g.neurons) <= 1
  }

  /** BuildActivationValues: one slot per neuron, 1 for the Bias neuron and 0
      for every other. */
  function ActivationValues(neurons: seq<Neuron>): (r: seq<real>)
    ensures |r| == |neurons|
    ensures forall i :: 0 <= i < |r| ==> r[i] == (if neurons[i].kind == Bias then 1.0 else 0.0)
  {
    seq(|neurons|, i requires 0 <= i < |neurons| => if neurons[i].kind == Bias then 1.0 else 0.0)
  }

  // ---------------------------------------------------------------------
  // Dead-neuron removal

  predicate HasInput(synapses: seq<Synapse>, id: nat)
  {
    exists k :: 0 <= k < |synapses| && synapses[k].isEnabled && synapses[k].outputNeuronId == id
  }

  predicate HasOutput(synapses: seq<Synapse>, id: nat)
  {
    exists k :: 0 <= k < |synapses| && synapses[k].isEnabled && synapses[k].inputNeuronId == id
  }

  /** A neuron is alive when it has the connections its kind needs: an
      outgoing one for Bias and Input, an incoming one for Output, both for
      Hidden. */
  predicate Alive(n: Neuron, synapses: seq<Synapse>)
  {
    match n.kind
    case Bias => HasOutput(synapses, n.id)
    case Input => HasOutput(synapses, n.id)
    case Hidden => HasInput(synapses, n.id) && HasOutput(synapses, n.id)
    case Output => HasInput(synapses, n.id)
  }

  /** The neuron filter of one pass. */
  function AliveNeurons(neurons: seq<Neuron>, synapses: seq<Synapse>): (r: seq<Neuron>)
    ensures |r| <= |neurons|
    ensures forall n :: n in r <==> n in neurons && Alive(n, synapses)
    ensures forall i :: 0 <= i < |r| ==> r[i] in neurons && Alive(r[i], synapses)
    ensures |r| == |neurons| <==> forall i :: 0 <= i < |neurons| ==> Alive(neurons[i], synapses)
    ensures |r| == |neurons| ==> r == neurons
  {
    if |neurons| == 0 then []
    else (if Alive(neurons[0], synapses) then [neurons[0]] else []) + AliveNeurons(neurons[1..], synapses)
  }

  /** Both ends of the synapse are among the neurons. */
  predicate Joins(s: Synapse, neurons: seq<Neuron>)
  {
    s.inputNeuronId in Ids(neurons) && s.outputNeuronId in Ids(neurons)
  }

  /** The synapse filter of one pass. */
  function JoiningSynapses(synapses: seq<Synapse>, neurons: seq<Neuron>): (r: seq<Synapse>)
    ensures |r| <= |synapses|
    ensures forall s :: s in r <==> s in synapses && Joins(s, neurons)
    ensures forall k :: 0 <= k < |r| ==> r[k] in synapses && Joins(r[k], neurons)
    ensures (forall k :: 0 <= k < |synapses| ==> Joins(synapses[k], neurons)) ==> r == synapses
  {
    if |synapses| == 0 then []
    else (if Joins(synapses[0], neurons) then [synapses[0]] else []) + JoiningSynapses(synapses[1..], neurons)
  }

  /** Passes from the given lists until a pass removes no neuron. */
  function CleanFrom(neurons: seq<Neuron>, synapses: seq<Synapse>): (seq<Neuron>, seq<Synapse>)
    decreases |neurons|
  {
    var ns := AliveNeurons(neurons, synapses);
    var ss := JoiningSynapses(synapses, ns);
    if |ns| == |neurons| then (ns, ss) else CleanFrom(ns, ss)
  }

  /** What CleanDeadNeurons returns: the passes start from the enabled synapses. */
  function Cleaned(neurons: seq<Neuron>, synapses: seq<Synapse>): (seq<Neuron>, seq<Synapse>)
  {
    CleanFrom(neurons, Enabled(synapses))
  }

  /** CleanDeadNeurons: repeats a pass (drop neurons that are not alive, then
      synapses that lost an end) until the neuron count stops changing. */
  method CleanDeadNeurons(neurons: seq<Neuron>, synapses: seq<Synapse>)
    returns (neuronsList: seq<Neuron>, synapsesList: seq<Synapse>)
    ensures (neuronsList, synapsesList) == Cleaned(neurons, synapses)
  {
    neuronsList := neurons;
    synapsesList := Enabled(synapses);
    var lastNeuronsCount := -1;
    while lastNeuronsCount != |neuronsList|
      invariant lastNeuronsCount == -1 ==> neuronsList == neurons && synapsesList == Enabled(synapses)
      invariant lastNeuronsCount != -1 ==> |neuronsList| <= lastNeuronsCount
      invariant lastNeuronsCount != -1 && lastNeuronsCount == |neuronsList| ==>
        (neuronsList, synapsesList) == Cleaned(neurons, synapses)
      invariant lastNeuronsCount != -1 && lastNeuronsCount != |neuronsList| ==>
        CleanFrom(neuronsList, synapsesList) == Cleaned(neurons, synapses)
      decreases if lastNeuronsCount == -1 then |neuronsList| + 1 else lastNeuronsCount
    {
      lastNeuronsCount := |neuronsList|;
      neuronsList := AliveNeurons(neuronsList, synapsesList);
      synapsesList := JoiningSynapses(synapsesList, neuronsList);
    }
  }

  /** Every synapse joins two of the neurons and is enabled. */
  predicate Wired(neurons: seq<Neuron>, synapses: seq<Synapse>)
  {
    forall k :: 0 <= k < |synapses| ==> synapses[k].isEnabled && Joins(synapses[k], neurons)
  }

  /** The passes only ever remove: the result's neurons and synapses come from
      the input, and every kept synapse is enabled and joins two kept neurons. */
  lemma {:induction false} CleanFromShrinks(neurons: seq<Neuron>, synapses: seq<Synapse>)
    requires forall k :: 0 <= k < |synapses| ==> synapses[k].isEnabled
    ensures var (ns, ss) := CleanFrom(neurons, synapses);
      (forall n :: n in ns ==> n in neurons) && (forall s :: s in ss ==> s in synapses) && Wired(ns, ss)
    decreases |neurons|
  {
    var ns := AliveNeurons(neurons, synapses);
    var ss := JoiningSynapses(synapses, ns);
    assert forall k :: 0 <= k < |ss| ==> ss[k].isEnabled by {
      forall k | 0 <= k < |ss|
        ensures ss[k].isEnabled
      {
        var i :| 0 <= i < |synapses| && synapses[i] == ss[k];
      }
    }
    if |ns| != |neurons| {
      CleanFromShrinks(ns, ss);
    }
  }

  /** Started from synapses that only join listed neurons, the passes end
      with every kept neuron alive in the kept synapses. */
  /** Every kept neuron is alive in the kept synapses. */
  predicate AllAlive(cleaned: (seq<Neuron>, seq<Synapse>))
  {
    forall n :: n in cleaned.0 ==> Alive(n, cleaned.1)
  }

  lemma {:induction false} CleanFromAlive(neurons: seq<Neuron>, synapses: seq<Synapse>)
    requires Wired(neurons, synapses)
    ensures AllAlive(CleanFrom(neurons, synapses))
    decreases |neurons|
  {
    var ns := AliveNeurons(neurons, synapses);
    var ss := JoiningSynapses(synapses, ns);
    if |ns| == |neurons| {
      assert ns == neurons;
      assert forall k :: 0 <= k < |synapses| ==> Joins(synapses[k], ns);
      assert ss == synapses;
      assert CleanFrom(neurons, synapses) == (ns, ss);
      assert AllAlive((ns, ss));
    } else {
      assert Wired(ns, ss) by {
        forall k | 0 <= k < |ss|
          ensures ss[k].isEnabled && Joins(ss[k], ns)
        {
          var i :| 0 <= i < |synapses| && synapses[i] == ss[k];
        }
      }
      assert CleanFrom(neurons, synapses) == CleanFrom(ns, ss);
      CleanFromAlive(ns, ss);
    }
  }

  lemma EnabledWired(neurons: seq<Neuron>, synapses: seq<Synapse>)
    requires Closed(neurons, synapses)
    ensures Wired(neurons, Enabled(synapses))
  {
    var e := Enabled(synapses);
    forall k | 0 <= k < |e|
      ensures e[k].isEnabled && Joins(e[k], neurons)
    {
      var i :| 0 <= i < |synapses| && synapses[i] == e[k];
    }
  }

  lemma {:induction false} EnabledOfEnabled(synapses: seq<Synapse>)
    requires forall k :: 0 <= k < |synapses| ==> synapses[k].isEnabled
    ensures Enabled(synapses) == synapses
  {
    if |synapses| > 0 {
      EnabledOfEnabled(synapses[1..]);
    }
  }

  /** CleanDeadNeurons keeps a subset: its neurons are input neurons, its
      synapses are enabled input synapses, and every kept synapse has both
      ends kept. */
  lemma CleanedSubset(neurons: seq<Neuron>, synapses: seq<Synapse>)
    ensures var (ns, ss) := Cleaned(neurons, synapses);
      (forall n :: n in ns ==> n in neurons)
      && (forall s :: s in ss ==> s in synapses && s.isEnabled)
      && (forall k :: 0 <= k < |ss| ==> Joins(ss[k], ns))
  {
    CleanFromShrinks(neurons, Enabled(synapses));
  }

  /** On a genome whose synapses all join listed neurons, every kept Bias or
      Input neuron has a kept outgoing synapse, every kept Output neuron a
      kept incoming one, every kept Hidden neuron both. */
  lemma CleanedAlive(neurons: seq<Neuron>, synapses: seq<Synapse>)
    requires Closed(neurons, synapses)
    ensures AllAlive(Cleaned(neurons, synapses))
  {
    EnabledWired(neurons, synapses);
    CleanFromAlive(neurons, Enabled(synapses));
  }

  /** On such a genome, cleaning the result again changes nothing. */
  lemma CleanedIdempotent(neurons: seq<Neuron>, synapses: seq<Synapse>)
    requires Closed(neurons, synapses)
    ensures var (ns, ss) := Cleaned(neurons, synapses);
      Cleaned(ns, ss) == (ns, ss)
  {
    var (ns, ss) := Cleaned(neurons, synapses);
    CleanedSubset(neurons, synapses);
    CleanedAlive(neurons, synapses);
    EnabledOfEnabled(ss);
    assert forall i :: 0 <= i < |ns| ==> Alive(ns[i], ss);
    assert AliveNeurons(ns, ss) == ns;
    assert JoiningSynapses(ss, ns) == ss;
  }

  /** Without that closure the loop can stop after its first pass with a
      neuron kept only by a synapse to a neuron that is not listed: the
      synapse is dropped, the Bias neuron stays, and a second run drops it. */
  lemma CleanedNeedsClosure(bias: Neuron, dangling: Synapse)
    requires bias == Neuron(0, Bias, 0.0, None, None, "Identity")
    requires dangling == Synapse(0, 0, 99, 1.0, true)
    ensures Cleaned([bias], [dangling]) == ([bias], [])
    ensures !Alive(bias, [])
    ensures Cleaned([bias], []) == ([], [])
  {
    assert Enabled([dangling]) == [dangling];
    assert HasOutput([dangling], 0);
    assert AliveNeurons([bias], [dangling]) == [bias];
    assert !Joins(dangling, [bias]) by {
      assert Ids([bias]) == {0};
    }
    assert JoiningSynapses([dangling], [bias]) == [];
    assert !HasOutput([], 0);
    assert AliveNeurons([bias], []) == [];
    assert Enabled([]) == [];
    assert CleanFrom([], []) == ([], []);
  }

  // ---------------------------------------------------------------------
  // The backward walk of GetInputExecutions

  /** The enabled synapses into a neuron, in genome order. */
  function IncomingEnabled(synapses: seq<Synapse>, id: nat): (r: seq<Synapse>)
    ensures forall k :: 0 <= k < |r| ==> r[k] in synapses && r[k].isEnabled && r[k].outputNeuronId == id
    ensures forall s :: s in synapses && s.isEnabled && s.outputNeuronId == id ==> s in r
  {
    if |synapses| == 0 then []
    else
      var s := synapses[0];
      (if s.isEnabled && s.outputNeuronId == id then [s] else []) + IncomingEnabled(synapses[1..], id)
  }

  /** The dependencies of a plan item: for each incoming synapse, the slot of
      the first neuron carrying its source id and its weight; a source that
      is not listed fails. */
  function Dependencies(neurons: seq<Neuron>, incoming: seq<Synapse>): (r: Result<seq<ExecutionDependency>>)
    ensures r.Failure? <==> exists k :: 0 <= k < |incoming| && incoming[k].inputNeuronId !in Ids(neurons)
    ensures r.Success? ==> |r.value| == |incoming| && forall k :: 0 <= k < |incoming| ==>
      IndexOfId(neurons, incoming[k].inputNeuronId) == Some(r.value[k].activationIndex)
      && r.value[k].weight == incoming[k].weight
  {
    if |incoming| == 0 then Success([])
    else match IndexOfId(neurons, incoming[0].inputNeuronId)
      case None => Failure(InvalidOperation("Cannot find input neuron"))
      case Some(index) =>
        match Dependencies(neurons, incoming[1..])
        case Failure(e) => Failure(e)
        case Success(rest) => Success([ExecutionDependency(index, incoming[0].weight)] + rest)
  }

  /** What a plan item for neuron `id` computes: it is on the first neuron
      with that id, and it depends on exactly the enabled synapses into it. */
  predicate ItemOf(g: Genotype, item: ExecutionItem)
  {
    item.targetNeuronIndex < |g.neurons|
    && IndexOfId(g.neurons, g.neurons[item.targetNeuronIndex].id) == Some(item.targetNeuronIndex)
    && |IncomingEnabled(g.synapses, g.neurons[item.targetNeuronIndex].id)| > 0
    && Dependencies(g.neurons, IncomingEnabled(g.synapses, g.neurons[item.targetNeuronIndex].id))
       == Success(item.dependencies)
  }

  predicate ItemsOf(g: Genotype, items: seq<ExecutionItem>)
  {
    forall k :: 0 <= k < |items| ==> ItemOf(g, items[k])
  }

  /** The items a walk produced and the ids it has visited. */
  datatype Walk = Walk(items: seq<ExecutionItem>, visited: set<nat>)

  lemma SubsetCardinality(a: set<nat>, b: set<nat>)
    requires a <= b
    ensures |a| <= |b|
  {
    assert b == a + (b - a);
  }

  lemma MarkingShrinks(ids: set<nat>, visited: set<nat>, id: nat)
    requires id in ids && id !in visited
    ensures |ids - (visited + {id})| < |ids - visited|
  {
    var a, b := ids - (visited + {id}), ids - visited;
    assert b == a + {id};
  }

  /** GetInputExecutions from one neuron: nothing for a visited neuron; else
      the neuron is marked, and when it has enabled incoming synapses its item
      comes first, followed by the walks from its sources in synapse order,
      all sharing one visited set. */
  function WalkNeuron(g: Genotype, neuron: Neuron, visited: set<nat>): (r: Result<Walk>)
    requires neuron.id in Ids(g.neurons)
    ensures r.Success? ==> visited <= r.value.visited <= visited + Ids(g.neurons)
    ensures r.Success? ==> ItemsOf(g, r.value.items)
    decreases |Ids(g.neurons) - visited|, 0
  {
    if neuron.id in visited then Success(Walk([], visited))
    else
      var marked := visited + {neuron.id};
      var target := IndexOfId(g.neurons, neuron.id).value;
      var incoming := IncomingEnabled(g.synapses, neuron.id);
      if |incoming| == 0 then Success(Walk([], marked))
      else match Dependencies(g.neurons, incoming)
        case Failure(e) => Failure(e)
        case Success(deps) =>
          var item := ExecutionItem(target, deps, neuron.activationFunction, false);
          assert ItemOf(g, item);
          MarkingShrinks(Ids(g.neurons), visited, neuron.id);
          match WalkSources(g, incoming, marked)
          case Failure(e) => Failure(e)
          case Success(w) =>
            ItemsAppend(g, [item], w.items);
            Success(Walk([item] + w.items, w.visited))
  }

  lemma ItemsAppend(g: Genotype, a: seq<ExecutionItem>, b: seq<ExecutionItem>)
    requires ItemsOf(g, a) && ItemsOf(g, b)
    ensures ItemsOf(g, a + b)
  {
    forall k | 0 <= k < |a + b|
      ensures ItemOf(g, (a + b)[k])
    {
      if k < |a| {
        assert (a + b)[k] == a[k];
      } else {
        assert (a + b)[k] == b[k - |a|];
      }
    }
  }

  /** The sub-walks from the sources of `incoming`, in order. */
  function WalkSources(g: Genotype, incoming: seq<Synapse>, visited: set<nat>): (r: Result<Walk>)
    ensures r.Success? ==> visited <= r.value.visited <= visited + Ids(g.neurons)
    ensures r.Success? ==> ItemsOf(g, r.value.items)
    decreases |Ids(g.neurons) - visited|, |incoming| + 1
  {
    if |incoming| == 0 then Success(Walk([], visited))
    else match IndexOfId(g.neurons, incoming[0].inputNeuronId)
      case None => Failure(InvalidOperation("Cannot find input neuron"))
      case Some(index) =>
        match WalkNeuron(g, g.neurons[index], visited)
        case Failure(e) => Failure(e)
        case Success(first) =>
          SubsetCardinality(Ids(g.neurons) - first.visited, Ids(g.neurons) - visited);
          match WalkSources(g, incoming[1..], first.visited)
          case Failure(e) => Failure(e)
          case Success(rest) =>
            ItemsAppend(g, first.items, rest.items);
            Success(Walk(first.items + rest.items, rest.visited))
  }

  // ---------------------------------------------------------------------
  // The recurrence test of HasConnectionToInputNeurons

  /** Every synapse into a neuron, enabled or not, in genome order. */
  function IncomingAll(synapses: seq<Synapse>, id: nat): (r: seq<Synapse>)
    ensures forall k :: 0 <= k < |r| ==> r[k] in synapses && r[k].outputNeuronId == id
    ensures forall k :: 0 <= k < |synapses| && synapses[k].outputNeuronId == id ==> synapses[k] in r
  {
    if |synapses| == 0 then []
    else (if synapses[0].outputNeuronId == id then [synapses[0]] else []) + IncomingAll(synapses[1..], id)
  }

  /** The first neuron carrying the id is a Bias or Input neuron. */
  predicate InputTyped(neurons: seq<Neuron>, id: nat)
  {
    var index := IndexOfId(neurons, id);
    index.Some? && IsInputOrBias(neurons[index.value].kind)
  }

  /** The Any over the sources of `incoming`: true at the first Bias or Input
      source; a source that is not listed before that fails. */
  function AnyInputSource(neurons: seq<Neuron>, incoming: seq<Synapse>): (r: Result<bool>)
    ensures r == Success(false) ==> forall k :: 0 <= k < |incoming| ==>
      incoming[k].inputNeuronId in Ids(neurons) && !InputTyped(neurons, incoming[k].inputNeuronId)
    ensures r == Success(true) ==> exists k :: 0 <= k < |incoming| && InputTyped(neurons, incoming[k].inputNeuronId)
    ensures r.Failure? ==> exists k :: 0 <= k < |incoming| && incoming[k].inputNeuronId !in Ids(neurons)
  {
    if |incoming| == 0 then Success(false)
    else match IndexOfId(neurons, incoming[0].inputNeuronId)
      case None => Failure(InvalidOperation("Cannot find input neuron"))
      case Some(index) =>
        if IsInputOrBias(neurons[index].kind) then Success(true)
        else
          var rest := AnyInputSource(neurons, incoming[1..]);
          assert rest == Success(true) ==> exists k :: 1 <= k < |incoming| && InputTyped(neurons, incoming[k].inputNeuronId) by {
            if rest == Success(true) {
              var k :| 0 <= k < |incoming[1..]| && InputTyped(neurons, incoming[1..][k].inputNeuronId);
              assert incoming[1..][k] == incoming[k + 1];
            }
          }
          rest
  }

  /** The answer of a search and the ids it has visited. */
  datatype Search = Search(found: bool, visited: set<nat>)

  /** HasConnectionToInputNeurons: false for a visited neuron; else the neuron
      is marked, and the answer is true when some synapse into it comes from a
      Bias or Input neuron, or else when a search from one of its sources, in
      order and sharing the visited set, answers true. */
  function HasConnection(g: Genotype, id: nat, visited: set<nat>): (r: Result<Search>)
    requires id in Ids(g.neurons)
    ensures r.Success? ==> visited <= r.value.visited <= visited + Ids(g.neurons)
    decreases |Ids(g.neurons) - visited|, 0
  {
    if id in visited then Success(Search(false, visited))
    else
      var marked := visited + {id};
      var incoming := IncomingAll(g.synapses, id);
      match AnyInputSource(g.neurons, incoming)
      case Failure(e) => Failure(e)
      case Success(connected) =>
        if connected then Success(Search(true, marked))
        else
          MarkingShrinks(Ids(g.neurons), visited, id);
          SearchSources(g, incoming, marked)
  }

  function SearchSources(g: Genotype, incoming: seq<Synapse>, visited: set<nat>): (r: Result<Search>)
    requires forall k :: 0 <= k < |incoming| ==> incoming[k].inputNeuronId in Ids(g.neurons)
    ensures r.Success? ==> visited <= r.value.visited <= visited + Ids(g.neurons)
    decreases |Ids(g.neurons) - visited|, |incoming| + 1
  {
    if |incoming| == 0 then Success(Search(false, visited))
    else match HasConnection(g, incoming[0].inputNeuronId, visited)
      case Failure(e) => Failure(e)
      case Success(first) =>
        if first.found then Success(first)
        else
          SubsetCardinality(Ids(g.neurons) - first.visited, Ids(g.neurons) - visited);
          SearchSources(g, incoming[1..], first.visited)
  }

  /** Some synapse, enabled or not, runs from `source` to `target`. */
  ghost predicate Feeds(g: Genotype, source: nat, target: nat)
  {
    exists k :: 0 <= k < |g.synapses| && g.synapses[k].inputNeuronId == source && g.synapses[k].outputNeuronId == target
  }

  /** `path` runs backward from `path[0]`: each next id feeds the previous
      one, and the last is a Bias or Input neuron. */
  ghost predicate FedBy(g: Genotype, path: seq<nat>)
  {
    |path| >= 2
    && (forall i :: 0 <= i < |path| - 1 ==> Feeds(g, path[i + 1], path[i]))
    && InputTyped(g.neurons, path[|path| - 1])
  }

  /** Every synapse into a neuron of `done` comes from a neuron of `within`
      that is not a Bias or Input neuron. */
  ghost predicate Sealed(g: Genotype, done: set<nat>, within: set<nat>)
  {
    forall x, k :: x in done && 0 <= k < |g.synapses| && g.synapses[k].outputNeuronId == x ==>
      g.synapses[k].inputNeuronId in within && !InputTyped(g.neurons, g.synapses[k].inputNeuronId)
  }

  /** A true answer comes with a backward path to a Bias or Input neuron. */
  lemma {:induction false} ConnectedHasPath(g: Genotype, id: nat, visited: set<nat>) returns (path: seq<nat>)
    requires id in Ids(g.neurons)
    requires HasConnection(g, id, visited).Success? && HasConnection(g, id, visited).value.found
    ensures |path| > 0 && path[0] == id && FedBy(g, path)
    decreases |Ids(g.neurons) - visited|, 0
  {
    assert id !in visited;
    var marked := visited + {id};
    var incoming := IncomingAll(g.synapses, id);
    var connected := AnyInputSource(g.neurons, incoming);
    assert connected.Success?;
    if connected.value {
      var k :| 0 <= k < |incoming| && InputTyped(g.neurons, incoming[k].inputNeuronId);
      IncomingFeeds(g, id, k);
      path := [id, incoming[k].inputNeuronId];
      assert Feeds(g, path[1], path[0]);
    } else {
      MarkingShrinks(Ids(g.neurons), visited, id);
      assert HasConnection(g, id, visited) == SearchSources(g, incoming, marked);
      var k, tail := SourcesHavePath(g, incoming, marked);
      IncomingFeeds(g, id, k);
      FedByPrepend(g, id, tail);
      path := [id] + tail;
    }
  }

  /** The k-th synapse into `id` feeds it from its source. */
  lemma IncomingFeeds(g: Genotype, id: nat, k: nat)
    requires k < |IncomingAll(g.synapses, id)|
    ensures Feeds(g, IncomingAll(g.synapses, id)[k].inputNeuronId, id)
  {
    var s := IncomingAll(g.synapses, id)[k];
    var j :| 0 <= j < |g.synapses| && g.synapses[j] == s;
  }

  /** A neuron fed by the head of a path extends it. */
  lemma FedByPrepend(g: Genotype, id: nat, tail: seq<nat>)
    requires |tail| > 0 && FedBy(g, tail) && Feeds(g, tail[0], id)
    ensures FedBy(g, [id] + tail)
  {
    var path := [id] + tail;
    forall i | 0 <= i < |path| - 1
      ensures Feeds(g, path[i + 1], path[i])
    {
      if i > 0 {
        assert path[i + 1] == tail[i] && path[i] == tail[i - 1];
      }
    }
    assert path[|path| - 1] == tail[|tail| - 1];
  }

  lemma {:induction false} SourcesHavePath(g: Genotype, incoming: seq<Synapse>, visited: set<nat>)
    returns (k: nat, path: seq<nat>)
    requires forall k :: 0 <= k < |incoming| ==> incoming[k].inputNeuronId in Ids(g.neurons)
    requires SearchSources(g, incoming, visited).Success? && SearchSources(g, incoming, visited).value.found
    ensures k < |incoming| && |path| > 0 && path[0] == incoming[k].inputNeuronId && FedBy(g, path)
    decreases |Ids(g.neurons) - visited|, |incoming| + 1
  {
    var first := HasConnection(g, incoming[0].inputNeuronId, visited).value;
    if first.found {
      k := 0;
      path := ConnectedHasPath(g, incoming[0].inputNeuronId, visited);
    } else {
      SubsetCardinality(Ids(g.neurons) - first.visited, Ids(g.neurons) - visited);
      var j;
      j, path := SourcesHavePath(g, incoming[1..], first.visited);
      assert incoming[1..][j] == incoming[j + 1];
      k := j + 1;
    }
  }

  /** A false answer leaves every newly visited neuron sealed: its sources
      were all visited and none is a Bias or Input neuron. */
  lemma {:induction false} NotConnectedSealed(g: Genotype, id: nat, visited: set<nat>)
    requires id in Ids(g.neurons)
    requires HasConnection(g, id, visited).Success? && !HasConnection(g, id, visited).value.found
    ensures var s := HasConnection(g, id, visited).value;
      id in s.visited && Sealed(g, s.visited - visited, s.visited)
    decreases |Ids(g.neurons) - visited|, 0
  {
    if id !in visited {
      var marked := visited + {id};
      var incoming := IncomingAll(g.synapses, id);
      MarkingShrinks(Ids(g.neurons), visited, id);
      SourcesSealed(g, incoming, marked);
      var s := SearchSources(g, incoming, marked).value;
      assert s == HasConnection(g, id, visited).value;
      forall x, k | x in s.visited - visited && 0 <= k < |g.synapses| && g.synapses[k].outputNeuronId == x
        ensures g.synapses[k].inputNeuronId in s.visited && !InputTyped(g.neurons, g.synapses[k].inputNeuronId)
      {
        if x == id {
          assert g.synapses[k] in incoming;
          var j :| 0 <= j < |incoming| && incoming[j] == g.synapses[k];
        } else {
          assert x in s.visited - marked;
        }
      }
    }
  }

  lemma {:induction false} SourcesSealed(g: Genotype, incoming: seq<Synapse>, visited: set<nat>)
    requires forall k :: 0 <= k < |incoming| ==> incoming[k].inputNeuronId in Ids(g.neurons)
    requires SearchSources(g, incoming, visited).Success? && !SearchSources(g, incoming, visited).value.found
    ensures var s := SearchSources(g, incoming, visited).value;
      (forall k :: 0 <= k < |incoming| ==> incoming[k].inputNeuronId in s.visited)
      && Sealed(g, s.visited - visited, s.visited)
    decreases |Ids(g.neurons) - visited|, |incoming| + 1
  {
    if |incoming| > 0 {
      var first := HasConnection(g, incoming[0].inputNeuronId, visited).value;
      NotConnectedSealed(g, incoming[0].inputNeuronId, visited);
      SubsetCardinality(Ids(g.neurons) - first.visited, Ids(g.neurons) - visited);
      SourcesSealed(g, incoming[1..], first.visited);
      var s := SearchSources(g, incoming, visited).value;
      assert s == SearchSources(g, incoming[1..], first.visited).value;
      forall k | 0 <= k < |incoming|
        ensures incoming[k].inputNeuronId in s.visited
      {
        if k > 0 {
          assert incoming[1..][k - 1] == incoming[k];
        }
      }
      forall x, k | x in s.visited - visited && 0 <= k < |g.synapses| && g.synapses[k].outputNeuronId == x
        ensures g.synapses[k].inputNeuronId in s.visited && !InputTyped(g.neurons, g.synapses[k].inputNeuronId)
      {
        if x in first.visited - visited {
        } else {
          assert x in s.visited - first.visited;
        }
      }
    }
  }

  /** No backward path leaves a set sealed within itself. */
  lemma {:induction false} SealedHasNoPath(g: Genotype, region: set<nat>, path: seq<nat>)
    requires Sealed(g, region, region)
    requires |path| >= 1 && path[0] in region
    requires forall i :: 0 <= i < |path| - 1 ==> Feeds(g, path[i + 1], path[i])
    ensures forall i :: 0 <= i < |path| ==> path[i] in region
    ensures |path| >= 2 ==> !InputTyped(g.neurons, path[|path| - 1])
  {
    if |path| >= 2 {
      var init := path[..|path| - 1];
      SealedHasNoPath(g, region, init);
      assert path[|path| - 2] == init[|init| - 1];
      var k :| 0 <= k < |g.synapses| && g.synapses[k].inputNeuronId == path[|path| - 1]
        && g.synapses[k].outputNeuronId == path[|path| - 2];
    }
  }

  /** The recurrence test started afresh answers true exactly when some
      backward path over all synapses reaches a Bias or Input neuron. */
  lemma HasConnectionIffPath(g: Genotype, id: nat)
    requires id in Ids(g.neurons)
    requires HasConnection(g, id, {}).Success?
    ensures HasConnection(g, id, {}).value.found <==> exists path :: |path| > 0 && path[0] == id && FedBy(g, path)
  {
    var s := HasConnection(g, id, {}).value;
    if s.found {
      var path := ConnectedHasPath(g, id, {});
    } else {
      NotConnectedSealed(g, id, {});
      assert s.visited - {} == s.visited;
      forall path | |path| > 0 && path[0] == id && FedBy(g, path)
        ensures false
      {
        SealedHasNoPath(g, s.visited, path);
      }
    }
  }

  // ---------------------------------------------------------------------
  // The execution plan

  /** The Output neurons, in genome order. */
  function OutputNeurons(neurons: seq<Neuron>): (r: seq<Neuron>)
    ensures forall k :: 0 <= k < |r| ==> r[k] in neurons && r[k].kind == Output
    ensures forall n :: n in neurons && n.kind == Output ==> n in r
  {
    if |neurons| == 0 then []
    else (if neurons[0].kind == Output then [neurons[0]] else []) + OutputNeurons(neurons[1..])
  }

  function Reverse<T>(s: seq<T>): (r: seq<T>)
    ensures |r| == |s| && forall i :: 0 <= i < |s| ==> r[i] == s[|s| - 1 - i]
  {
    if |s| == 0 then [] else Reverse(s[1..]) + [s[0]]
  }

  /** The walk of each output neuron, each from a fresh visited set and
      reversed, one after the other. */
  function WalkOutputs(g: Genotype, outputs: seq<Neuron>): (r: Result<seq<ExecutionItem>>)
    requires forall k :: 0 <= k < |outputs| ==> outputs[k].id in Ids(g.neurons)
    ensures r.Success? ==> ItemsOf(g, r.value)
  {
    if |outputs| == 0 then Success([])
    else match WalkNeuron(g, outputs[0], {})
      case Failure(e) => Failure(e)
      case Success(w) =>
        match WalkOutputs(g, outputs[1..])
        case Failure(e) => Failure(e)
        case Success(rest) =>
          var items := Reverse(w.items) + rest;
          assert forall k :: 0 <= k < |items| ==> items[k] in w.items || items[k] in rest;
          Success(items)
  }

  /** The first item with the given target, if any. */
  function FirstWith(items: seq<ExecutionItem>, target: nat): Option<ExecutionItem>
  {
    if |items| == 0 then None
    else if items[0].targetNeuronIndex == target then Some(items[0])
    else FirstWith(items[1..], target)
  }

  function Targets(items: seq<ExecutionItem>): set<nat>
  {
    set k | 0 <= k < |items| :: items[k].targetNeuronIndex
  }

  lemma TargetsCons(x: ExecutionItem, s: seq<ExecutionItem>)
    ensures Targets([x] + s) == {x.targetNeuronIndex} + Targets(s)
  {
    var t := [x] + s;
    assert forall k :: 1 <= k < |t| ==> t[k] == s[k - 1];
    assert t[0] == x;
    forall y | y in Targets(s)
      ensures y in Targets(t)
    {
      var k :| 0 <= k < |s| && s[k].targetNeuronIndex == y;
      assert t[k + 1] == s[k];
    }
  }

  predicate DistinctTargets(items: seq<ExecutionItem>)
  {
    forall k, l :: 0 <= k < l < |items| ==> items[k].targetNeuronIndex != items[l].targetNeuronIndex
  }

  /** GroupBy on the target index followed by First: one item per target not
      yet seen, the first one with that target, in the order the targets
      first appear. */
  function FirstPerTarget(items: seq<ExecutionItem>, seen: set<nat>): (r: seq<ExecutionItem>)
    ensures forall k :: 0 <= k < |r| ==> r[k] in items && r[k].targetNeuronIndex !in seen
    ensures forall k :: 0 <= k < |r| ==> FirstWith(items, r[k].targetNeuronIndex) == Some(r[k])
    ensures DistinctTargets(r)
    ensures Targets(r) == Targets(items) - seen
  {
    if |items| == 0 then []
    else
      var head := items[0];
      if head.targetNeuronIndex in seen then
        var r := FirstPerTarget(items[1..], seen);
        TargetsCons(head, items[1..]);
        assert [head] + items[1..] == items;
        r
      else
        var rest := FirstPerTarget(items[1..], seen + {head.targetNeuronIndex});
        var r := [head] + rest;
        assert forall k :: 1 <= k < |r| ==> r[k] == rest[k - 1];
        TargetsCons(head, items[1..]);
        assert [head] + items[1..] == items;
        TargetsCons(head, rest);
        r
  }

  /** IsRecurrent of one item: false for a Bias or Input target, otherwise
      true when the target has no connection to a Bias or Input neuron. */
  function Recurrence(g: Genotype, item: ExecutionItem): Result<bool>
    requires item.targetNeuronIndex < |g.neurons|
  {
    var n := g.neurons[item.targetNeuronIndex];
    if IsInputOrBias(n.kind) then Success(false)
    else match HasConnection(g, n.id, {})
      case Failure(e) => Failure(e)
      case Success(s) => Success(!s.found)
  }

  /** Every item with its recurrence flag set. */
  function MarkRecurrent(g: Genotype, items: seq<ExecutionItem>): (r: Result<seq<ExecutionItem>>)
    requires forall k :: 0 <= k < |items| ==> items[k].targetNeuronIndex < |g.neurons|
    ensures r.Success? ==> |r.value| == |items| && forall k :: 0 <= k < |items| ==>
      Recurrence(g, items[k]).Success? && r.value[k] == items[k].(isRecurrent := Recurrence(g, items[k]).value)
  {
    if |items| == 0 then Success([])
    else match Recurrence(g, items[0])
      case Failure(e) => Failure(e)
      case Success(recurrent) =>
        match MarkRecurrent(g, items[1..])
        case Failure(e) => Failure(e)
        case Success(rest) =>
          var r := [items[0].(isRecurrent := recurrent)] + rest;
          assert forall k :: 1 <= k < |items| ==> items[k] == items[1..][k - 1] && r[k] == rest[k - 1];
          Success(r)
  }

  /** The ids of the neurons CleanDeadNeurons keeps. */
  function ActiveIds(g: Genotype): set<nat>
  {
    Ids(Cleaned(g.neurons, g.synapses).0)
  }

  predicate ReadsWithin(g: Genotype, deps: seq<ExecutionDependency>)
  {
    forall k :: 0 <= k < |deps| ==> deps[k].activationIndex < |g.neurons|
  }

  /** The dependencies whose source neuron is active. */
  function LiveDependencies(g: Genotype, deps: seq<ExecutionDependency>, active: set<nat>): (r: seq<ExecutionDependency>)
    requires ReadsWithin(g, deps)
    ensures ReadsWithin(g, r)
  {
    if |deps| == 0 then []
    else
      (if g.neurons[deps[0].activationIndex].id in active then [deps[0]] else [])
      + LiveDependencies(g, deps[1..], active)
  }

  predicate PlanWithin(g: Genotype, items: seq<ExecutionItem>)
  {
    forall k :: 0 <= k < |items| ==>
      items[k].targetNeuronIndex < |g.neurons| && ReadsWithin(g, items[k].dependencies)
  }

  predicate IsActive(g: Genotype, item: ExecutionItem, active: set<nat>)
    requires item.targetNeuronIndex < |g.neurons|
  {
    g.neurons[item.targetNeuronIndex].id in active
  }

  /** The Where of Cleanup: the items whose target neuron is active. */
  function ActiveItems(g: Genotype, items: seq<ExecutionItem>, active: set<nat>): (r: seq<ExecutionItem>)
    requires PlanWithin(g, items)
    ensures PlanWithin(g, r)
    ensures forall x :: x in r <==> x in items && IsActive(g, x, active)
    ensures DistinctTargets(items) ==> DistinctTargets(r)
  {
    if |items| == 0 then []
    else
      var rest := ActiveItems(g, items[1..], active);
      if IsActive(g, items[0], active) then
        var r := [items[0]] + rest;
        assert forall k :: 1 <= k < |r| ==> r[k] == rest[k - 1];
        assert DistinctTargets(items) ==> forall x :: x in items[1..] ==> x.targetNeuronIndex != items[0].targetNeuronIndex;
        r
      else rest
  }

  /** Cleanup: drops the items whose target is not active and, in the others,
      the dependencies on neurons that are not active. */
  function Cleanup(g: Genotype, items: seq<ExecutionItem>, active: set<nat>): (r: seq<ExecutionItem>)
    requires PlanWithin(g, items)
    ensures PlanWithin(g, r)
  {
    var kept := ActiveItems(g, items, active);
    seq(|kept|, k requires 0 <= k < |kept| =>
      kept[k].(dependencies := LiveDependencies(g, kept[k].dependencies, active)))
  }

  lemma ItemsOfWithin(g: Genotype, items: seq<ExecutionItem>)
    requires ItemsOf(g, items)
    ensures PlanWithin(g, items)
  {
    forall k, d | 0 <= k < |items| && 0 <= d < |items[k].dependencies|
      ensures items[k].dependencies[d].activationIndex < |g.neurons|
    {
      var id := g.neurons[items[k].targetNeuronIndex].id;
      var incoming := IncomingEnabled(g.synapses, id);
      assert IndexOfId(g.neurons, incoming[d].inputNeuronId) == Some(items[k].dependencies[d].activationIndex);
    }
  }

  /** BuildExecutionPlan: walk from every output, keep the first item per
      target, mark recurrent items, then clean the plan of dead neurons. */
  function BuildExecutionPlan(g: Genotype): Result<seq<ExecutionItem>>
  {
    match WalkOutputs(g, OutputNeurons(g.neurons))
    case Failure(e) => Failure(e)
    case Success(walked) =>
      var distinct := FirstPerTarget(walked, {});
      assert ItemsOf(g, distinct);
      match MarkRecurrent(g, distinct)
      case Failure(e) => Failure(e)
      case Success(marked) =>
        ItemsOfWithin(g, distinct);
        Success(Cleanup(g, marked, ActiveIds(g)))
  }

  // ---------------------------------------------------------------------
  // What a built plan holds

  /** The enabled synapses into neuron `id` whose source is active. */
  function LiveIncoming(synapses: seq<Synapse>, id: nat, active: set<nat>): seq<Synapse>
  {
    if |synapses| == 0 then []
    else
      var s := synapses[0];
      (if s.isEnabled && s.outputNeuronId == id && s.inputNeuronId in active then [s] else [])
      + LiveIncoming(synapses[1..], id, active)
  }

  function FromActive(incoming: seq<Synapse>, active: set<nat>): seq<Synapse>
  {
    if |incoming| == 0 then []
    else (if incoming[0].inputNeuronId in active then [incoming[0]] else []) + FromActive(incoming[1..], active)
  }

  lemma {:induction false} FromActiveIncoming(synapses: seq<Synapse>, id: nat, active: set<nat>)
    ensures FromActive(IncomingEnabled(synapses, id), active) == LiveIncoming(synapses, id, active)
  {
    if |synapses| > 0 {
      FromActiveIncoming(synapses[1..], id, active);
      var s := synapses[0];
      var tail := IncomingEnabled(synapses[1..], id);
      if s.isEnabled && s.outputNeuronId == id {
        assert IncomingEnabled(synapses, id) == [s] + tail;
        assert ([s] + tail)[1..] == tail;
      } else {
        assert IncomingEnabled(synapses, id) == tail;
      }
    }
  }

  lemma {:induction false} LiveIncomingMembers(synapses: seq<Synapse>, id: nat, active: set<nat>)
    ensures forall k :: 0 <= k < |LiveIncoming(synapses, id, active)| ==>
      var s := LiveIncoming(synapses, id, active)[k];
      s in synapses && s.isEnabled && s.outputNeuronId == id && s.inputNeuronId in active
    ensures forall s :: s in synapses && s.isEnabled && s.outputNeuronId == id && s.inputNeuronId in active ==>
      s in LiveIncoming(synapses, id, active)
  {
    if |synapses| > 0 {
      LiveIncomingMembers(synapses[1..], id, active);
      assert forall s :: s in synapses ==> s == synapses[0] || s in synapses[1..];
    }
  }

  /** Dropping the dependencies on inactive neurons is resolving the
      synapses from active sources only. */
  lemma {:induction false} LiveDependenciesResolve(g: Genotype, incoming: seq<Synapse>, deps: seq<ExecutionDependency>, active: set<nat>)
    requires Dependencies(g.neurons, incoming) == Success(deps)
    requires ReadsWithin(g, deps)
    ensures Dependencies(g.neurons, FromActive(incoming, active)) == Success(LiveDependencies(g, deps, active))
  {
    if |incoming| > 0 {
      var index := IndexOfId(g.neurons, incoming[0].inputNeuronId).value;
      assert deps[0].activationIndex == index;
      var rest := Dependencies(g.neurons, incoming[1..]).value;
      assert deps == [ExecutionDependency(index, incoming[0].weight)] + rest;
      assert deps[1..] == rest;
      LiveDependenciesResolve(g, incoming[1..], rest, active);
      assert g.neurons[index].id == incoming[0].inputNeuronId;
      var tail := FromActive(incoming[1..], active);
      if incoming[0].inputNeuronId in active {
        assert FromActive(incoming, active) == [incoming[0]] + tail;
        assert ([incoming[0]] + tail)[1..] == tail;
        assert LiveDependencies(g, deps, active) == [deps[0]] + LiveDependencies(g, rest, active);
        assert Dependencies(g.neurons, [incoming[0]] + tail)
          == Success([ExecutionDependency(index, incoming[0].weight)] + LiveDependencies(g, rest, active));
      } else {
        assert FromActive(incoming, active) == tail;
        assert LiveDependencies(g, deps, active) == LiveDependencies(g, rest, active);
      }
    }
  }

  /** The recurrence flag of an item is set exactly when its target is
      neither Bias nor Input and no backward path reaches such a neuron. */
  lemma RecurrenceIffNoPath(g: Genotype, item: ExecutionItem)
    requires item.targetNeuronIndex < |g.neurons|
    requires Recurrence(g, item).Success?
    ensures Recurrence(g, item).value <==>
      !IsInputOrBias(g.neurons[item.targetNeuronIndex].kind)
      && !exists path :: |path| > 0 && path[0] == g.neurons[item.targetNeuronIndex].id && FedBy(g, path)
  {
    var n := g.neurons[item.targetNeuronIndex];
    if !IsInputOrBias(n.kind) {
      assert n.id in Ids(g.neurons);
      HasConnectionIffPath(g, n.id);
    }
  }

  /** The facts a plan item keeps about its target neuron: it is the first
      neuron with its id, it is active and has an enabled incoming synapse,
      its dependencies resolve exactly the enabled synapses into it from
      active sources, and it is recurrent exactly when it is neither Bias nor
      Input and no backward path over all synapses reaches a Bias or Input
      neuron. */
  ghost predicate PlanItem(g: Genotype, item: ExecutionItem)
  {
    var t := item.targetNeuronIndex;
    t < |g.neurons|
    && var id := g.neurons[t].id;
    IndexOfId(g.neurons, id) == Some(t)
    && id in ActiveIds(g)
    && |IncomingEnabled(g.synapses, id)| > 0
    && Dependencies(g.neurons, LiveIncoming(g.synapses, id, ActiveIds(g))) == Success(item.dependencies)
    && (item.isRecurrent <==>
          !IsInputOrBias(g.neurons[t].kind) && !exists path :: |path| > 0 && path[0] == id && FedBy(g, path))
  }

  lemma MarkedItem(g: Genotype, item: ExecutionItem, marked: ExecutionItem)
    requires ItemOf(g, item)
    requires Recurrence(g, item).Success? && marked == item.(isRecurrent := Recurrence(g, item).value)
    requires g.neurons[item.targetNeuronIndex].id in ActiveIds(g)
    ensures PlanWithin(g, [marked])
    ensures PlanItem(g, marked.(dependencies := LiveDependencies(g, marked.dependencies, ActiveIds(g))))
  {
    ItemReadsWithin(g, item);
    assert PlanWithin(g, [marked]) by {
      assert [marked][0].dependencies == item.dependencies;
    }
    MarkedPlanItem(g, item, marked);
  }

  lemma ItemReadsWithin(g: Genotype, item: ExecutionItem)
    requires ItemOf(g, item)
    ensures ReadsWithin(g, item.dependencies)
  {
    ItemsOfWithin(g, [item]);
    assert [item][0] == item;
  }

  lemma MarkedPlanItem(g: Genotype, item: ExecutionItem, marked: ExecutionItem)
    requires ItemOf(g, item) && ReadsWithin(g, item.dependencies)
    requires Recurrence(g, item).Success? && marked == item.(isRecurrent := Recurrence(g, item).value)
    requires g.neurons[item.targetNeuronIndex].id in ActiveIds(g)
    ensures PlanItem(g, marked.(dependencies := LiveDependencies(g, marked.dependencies, ActiveIds(g))))
  {
    var t := item.targetNeuronIndex;
    var id := g.neurons[t].id;
    var active := ActiveIds(g);
    var live := marked.(dependencies := LiveDependencies(g, marked.dependencies, active));
    assert Dependencies(g.neurons, LiveIncoming(g.synapses, id, active)) == Success(live.dependencies) by {
      LiveDependenciesResolve(g, IncomingEnabled(g.synapses, id), item.dependencies, active);
      FromActiveIncoming(g.synapses, id, active);
    }
    RecurrenceIffNoPath(g, item);
  }

  lemma CleanupDistinct(g: Genotype, distinct: seq<ExecutionItem>, marked: seq<ExecutionItem>)
    requires PlanWithin(g, distinct) && DistinctTargets(distinct)
    requires MarkRecurrent(g, distinct) == Success(marked)
    requires PlanWithin(g, marked)
    ensures DistinctTargets(Cleanup(g, marked, ActiveIds(g)))
  {
    var active := ActiveIds(g);
    var kept := ActiveItems(g, marked, active);
    var plan := Cleanup(g, marked, active);
    assert DistinctTargets(marked) by {
      assert forall k :: 0 <= k < |marked| ==> marked[k].targetNeuronIndex == distinct[k].targetNeuronIndex;
    }
    assert forall k :: 0 <= k < |plan| ==> plan[k].targetNeuronIndex == kept[k].targetNeuronIndex;
  }

  lemma CleanupItemAt(g: Genotype, distinct: seq<ExecutionItem>, marked: seq<ExecutionItem>, k: nat)
    requires ItemsOf(g, distinct)
    requires MarkRecurrent(g, distinct) == Success(marked)
    requires PlanWithin(g, marked)
    requires k < |Cleanup(g, marked, ActiveIds(g))|
    ensures PlanItem(g, Cleanup(g, marked, ActiveIds(g))[k])
  {
    var active := ActiveIds(g);
    var kept := ActiveItems(g, marked, active);
    assert kept[k] in marked;
    var i :| 0 <= i < |marked| && marked[i] == kept[k];
    MarkedItem(g, distinct[i], marked[i]);
  }

  /** A built plan has one item per target, and every item holds PlanItem. */
  lemma PlanItems(g: Genotype)
    requires BuildExecutionPlan(g).Success?
    ensures DistinctTargets(BuildExecutionPlan(g).value)
    ensures forall k :: 0 <= k < |BuildExecutionPlan(g).value| ==> PlanItem(g, BuildExecutionPlan(g).value[k])
  {
    var walked := WalkOutputs(g, OutputNeurons(g.neurons)).value;
    var distinct := FirstPerTarget(walked, {});
    assert ItemsOf(g, distinct);
    var marked := MarkRecurrent(g, distinct).value;
    ItemsOfWithin(g, distinct);
    var plan := Cleanup(g, marked, ActiveIds(g));
    assert BuildExecutionPlan(g).value == plan;
    CleanupDistinct(g, distinct, marked);
    forall k | 0 <= k < |plan|
      ensures PlanItem(g, plan[k])
    {
      CleanupItemAt(g, distinct, marked, k);
    }
  }

  // ---------------------------------------------------------------------
  // On a genome whose synapses join listed neurons, the plan is built

  lemma SourcesListed(g: Genotype, incoming: seq<Synapse>)
    requires Closed(g.neurons, g.synapses)
    requires forall k :: 0 <= k < |incoming| ==> incoming[k] in g.synapses
    ensures forall k :: 0 <= k < |incoming| ==> incoming[k].inputNeuronId in Ids(g.neurons)
  {
    forall k | 0 <= k < |incoming|
      ensures incoming[k].inputNeuronId in Ids(g.neurons)
    {
      var i :| 0 <= i < |g.synapses| && g.synapses[i] == incoming[k];
    }
  }

  lemma {:induction false} WalkNeuronClosed(g: Genotype, neuron: Neuron, visited: set<nat>)
    requires Closed(g.neurons, g.synapses) && neuron.id in Ids(g.neurons)
    ensures WalkNeuron(g, neuron, visited).Success?
    decreases |Ids(g.neurons) - visited|, 0
  {
    if neuron.id !in visited {
      var marked := visited + {neuron.id};
      var incoming := IncomingEnabled(g.synapses, neuron.id);
      if |incoming| > 0 {
        SourcesListed(g, incoming);
        MarkingShrinks(Ids(g.neurons), visited, neuron.id);
        WalkSourcesClosed(g, incoming, marked);
      }
    }
  }

  lemma {:induction false} WalkSourcesClosed(g: Genotype, incoming: seq<Synapse>, visited: set<nat>)
    requires Closed(g.neurons, g.synapses)
    requires forall k :: 0 <= k < |incoming| ==> incoming[k] in g.synapses
    ensures WalkSources(g, incoming, visited).Success?
    decreases |Ids(g.neurons) - visited|, |incoming| + 1
  {
    if |incoming| > 0 {
      SourcesListed(g, incoming);
      var index := IndexOfId(g.neurons, incoming[0].inputNeuronId).value;
      WalkNeuronClosed(g, g.neurons[index], visited);
      var first := WalkNeuron(g, g.neurons[index], visited).value;
      SubsetCardinality(Ids(g.neurons) - first.visited, Ids(g.neurons) - visited);
      WalkSourcesClosed(g, incoming[1..], first.visited);
    }
  }

  lemma {:induction false} HasConnectionClosed(g: Genotype, id: nat, visited: set<nat>)
    requires Closed(g.neurons, g.synapses) && id in Ids(g.neurons)
    ensures HasConnection(g, id, visited).Success?
    decreases |Ids(g.neurons) - visited|, 0
  {
    if id !in visited {
      var marked := visited + {id};
      var incoming := IncomingAll(g.synapses, id);
      SourcesListed(g, incoming);
      if !AnyInputSource(g.neurons, incoming).value {
        MarkingShrinks(Ids(g.neurons), visited, id);
        SearchSourcesClosed(g, incoming, marked);
      }
    }
  }

  lemma {:induction false} SearchSourcesClosed(g: Genotype, incoming: seq<Synapse>, visited: set<nat>)
    requires Closed(g.neurons, g.synapses)
    requires forall k :: 0 <= k < |incoming| ==> incoming[k].inputNeuronId in Ids(g.neurons)
    ensures SearchSources(g, incoming, visited).Success?
    decreases |Ids(g.neurons) - visited|, |incoming| + 1
  {
    if |incoming| > 0 {
      HasConnectionClosed(g, incoming[0].inputNeuronId, visited);
      var first := HasConnection(g, incoming[0].inputNeuronId, visited).value;
      if !first.found {
        SubsetCardinality(Ids(g.neurons) - first.visited, Ids(g.neurons) - visited);
        SearchSourcesClosed(g, incoming[1..], first.visited);
      }
    }
  }

  lemma {:induction false} WalkOutputsClosed(g: Genotype, outputs: seq<Neuron>)
    requires Closed(g.neurons, g.synapses)
    requires forall k :: 0 <= k < |outputs| ==> outputs[k].id in Ids(g.neurons)
    ensures WalkOutputs(g, outputs).Success?
  {
    if |outputs| > 0 {
      WalkNeuronClosed(g, outputs[0], {});
      WalkOutputsClosed(g, outputs[1..]);
    }
  }

  lemma {:induction false} MarkRecurrentClosed(g: Genotype, items: seq<ExecutionItem>)
    requires Closed(g.neurons, g.synapses)
    requires forall k :: 0 <= k < |items| ==> items[k].targetNeuronIndex < |g.neurons|
    ensures MarkRecurrent(g, items).Success?
  {
    if |items| > 0 {
      HasConnectionClosed(g, g.neurons[items[0].targetNeuronIndex].id, {});
      MarkRecurrentClosed(g, items[1..]);
    }
  }

  /** The plan fails only on a synapse whose source neuron is not listed:
      when every synapse joins listed neurons, it is always built. */
  lemma PlanBuildsWhenClosed(g: Genotype)
    requires Closed(g.neurons, g.synapses)
    ensures BuildExecutionPlan(g).Success?
  {
    var outputs := OutputNeurons(g.neurons);
    WalkOutputsClosed(g, outputs);
    var walked := WalkOutputs(g, outputs).value;
    var distinct := FirstPerTarget(walked, {});
    assert ItemsOf(g, distinct);
    MarkRecurrentClosed(g, distinct);
  }

  // ---------------------------------------------------------------------
  // TryBuild and Build

  lemma ValidTarget(g: Genotype, item: ExecutionItem)
    requires IsValidGenome(g) && PlanItem(g, item)
    ensures !IsInputOrBias(g.neurons[item.targetNeuronIndex].kind)
  {
    var incoming := IncomingEnabled(g.synapses, g.neurons[item.targetNeuronIndex].id);
    var i :| 0 <= i < |g.synapses| && g.synapses[i] == incoming[0];
  }

  lemma ValidSource(g: Genotype, item: ExecutionItem, d: nat)
    requires IsValidGenome(g) && PlanItem(g, item) && d < |item.dependencies|
    ensures item.dependencies[d].activationIndex < |g.neurons|
    ensures g.neurons[item.dependencies[d].activationIndex].kind != Output
  {
    var i, j := ItemSource(g, item, d);
    NoOutputSource(g, i, j);
  }

  /** Dependency d of a plan item reads the source of one of the genome's
      synapses. */
  lemma ItemSource(g: Genotype, item: ExecutionItem, d: nat) returns (i: nat, j: nat)
    requires PlanItem(g, item) && d < |item.dependencies|
    ensures i < |g.synapses| && j == item.dependencies[d].activationIndex && j < |g.neurons|
    ensures g.synapses[i].inputNeuronId == g.neurons[j].id
  {
    var id := g.neurons[item.targetNeuronIndex].id;
    var live := LiveIncoming(g.synapses, id, ActiveIds(g));
    j := item.dependencies[d].activationIndex;
    assert d < |live| && IndexOfId(g.neurons, live[d].inputNeuronId) == Some(j) by {
      assert Dependencies(g.neurons, live) == Success(item.dependencies);
    }
    assert live[d] in g.synapses by {
      LiveIncomingMembers(g.synapses, id, ActiveIds(g));
    }
    i :| 0 <= i < |g.synapses| && g.synapses[i] == live[d];
  }

  lemma NoOutputSource(g: Genotype, i: nat, j: nat)
    requires IsValidGenome(g) && i < |g.synapses| && j < |g.neurons|
    requires g.synapses[i].inputNeuronId == g.neurons[j].id
    ensures g.neurons[j].kind != Output
  {
  }

  /** On a genome IsValidateGenome accepts, every plan item computes a
      Hidden or Output neuron and reads no Output neuron. */
  lemma ValidPlanShape(g: Genotype)
    requires IsValidGenome(g) && BuildExecutionPlan(g).Success?
    ensures forall k :: 0 <= k < |BuildExecutionPlan(g).value| ==>
      var item := BuildExecutionPlan(g).value[k];
      item.targetNeuronIndex < |g.neurons| && !IsInputOrBias(g.neurons[item.targetNeuronIndex].kind)
    ensures forall k, d :: 0 <= k < |BuildExecutionPlan(g).value| && 0 <= d < |BuildExecutionPlan(g).value[k].dependencies| ==>
      var index := BuildExecutionPlan(g).value[k].dependencies[d].activationIndex;
      index < |g.neurons| && g.neurons[index].kind != Output
  {
    var plan := BuildExecutionPlan(g).value;
    PlanItems(g);
    forall k | 0 <= k < |plan|
      ensures plan[k].targetNeuronIndex < |g.neurons| && !IsInputOrBias(g.neurons[plan[k].targetNeuronIndex].kind)
    {
      ValidTarget(g, plan[k]);
    }
    forall k, d | 0 <= k < |plan| && 0 <= d < |plan[k].dependencies|
      ensures plan[k].dependencies[d].activationIndex < |g.neurons|
      ensures g.neurons[plan[k].dependencies[d].activationIndex].kind != Output
    {
      ValidSource(g, plan[k], d);
    }
  }

  /** TryBuild: nothing on a genome IsValidateGenome rejects; otherwise a
      fresh phenotype holding the genome, its plan, the initial activations
      and an empty memory slot per neuron. A failure of the plan is the
      exception TryBuild lets through. */
  method TryBuild(genome: Genotype) returns (r: Result<Option<Phenotype>>)
    ensures !IsValidGenome(genome) ==> r == Success(None)
    ensures IsValidGenome(genome) && BuildExecutionPlan(genome).Failure? ==>
      r == Failure(BuildExecutionPlan(genome).error)
    ensures IsValidGenome(genome) && BuildExecutionPlan(genome).Success? ==>
      r.Success? && r.value.Some? && fresh(r.value.value) && Built(r.value.value, genome)
      && fresh(r.value.value.activations) && fresh(r.value.value.memory)
  {
    if !IsValidGenome(genome) {
      return Success(None);
    }
    var activations := ActivationValues(genome.neurons);
    match BuildExecutionPlan(genome)
    case Failure(e) =>
      return Failure(e);
    case Success(plan) =>
      var phenotype := new Phenotype(genome, plan, activations, |genome.neurons|);
      return Success(Some(phenotype));
  }

  /** What a freshly built phenotype holds. */
  ghost predicate Built(p: Phenotype, genome: Genotype)
    reads p, p.activations, p.memory
  {
    BuildExecutionPlan(genome).Success?
    && p.genome == genome
    && p.executionPlan == BuildExecutionPlan(genome).value
    && p.activations[..] == ActivationValues(genome.neurons)
    && p.memory.Length == |genome.neurons|
    && p.activations != p.memory as object
    && forall i :: 0 <= i < p.memory.Length ==> p.memory[i] == None
  }

  /** Build: TryBuild, with "Failed to build phenotype" on a rejected genome. */
  method Build(genome: Genotype) returns (r: Result<Phenotype>)
    ensures !IsValidGenome(genome) ==> r == Failure(InvalidOperation("Failed to build phenotype"))
    ensures IsValidGenome(genome) && BuildExecutionPlan(genome).Failure? ==>
      r == Failure(BuildExecutionPlan(genome).error)
    ensures IsValidGenome(genome) && BuildExecutionPlan(genome).Success? ==>
      r.Success? && fresh(r.value) && Built(r.value, genome)
      && fresh(r.value.activations) && fresh(r.value.memory)
  {
    var attempt := TryBuild(genome);
    match attempt
    case Failure(e) =>
      return Failure(e);
    case Success(None) =>
      return Failure(InvalidOperation("Failed to build phenotype"));
    case Success(Some(phenotype)) =>
      return Success(phenotype);
  }

  /** Every index a built plan writes or reads is a slot of the genome. */
  lemma BuiltPlanWithin(g: Genotype)
    requires BuildExecutionPlan(g).Success?
    ensures PlanWithin(g, BuildExecutionPlan(g).value)
  {
    var walked := WalkOutputs(g, OutputNeurons(g.neurons)).value;
    var distinct := FirstPerTarget(walked, {});
    assert ItemsOf(g, distinct);
    ItemsOfWithin(g, distinct);
  }
}
