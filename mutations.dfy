/** The mutation operators of src/Neat.Core/Evolution/EvolutionService.cs
    that need no innovation numbers: the weight, activation and bias
    operators (at the level of which slots change) and RemoveHiddenNeuron.
    Every random choice is a `pick` argument, reduced modulo the number of
    candidates; every drawn weight, bias step or function name is an
    argument too. */
module Mutations {
  import opened Wrappers
  import opened Genomes
  import opened EnumerableExtensions
  import opened LoopChecks
  import PhenotypeBuilder

  // ---------------------------------------------------------------------
  // Wiring: what the non-structural operators never touch

  /** A synapse without its weight. */
  datatype Wire = Wire(innovation: nat, inputNeuronId: nat, outputNeuronId: nat, isEnabled: bool)

  function Wiring(synapses: seq<Synapse>): (r: seq<Wire>)
    ensures |r| == |synapses|
    ensures forall i :: 0 <= i < |r| ==>
      r[i] == Wire(synapses[i].innovation, synapses[i].inputNeuronId, synapses[i].outputNeuronId, synapses[i].isEnabled)
  {
    seq(|synapses|, i requires 0 <= i < |synapses| =>
      Wire(synapses[i].innovation, synapses[i].inputNeuronId, synapses[i].outputNeuronId, synapses[i].isEnabled))
  }

  /** A neuron without its bias and activation function. */
  function Roles(neurons: seq<Neuron>): (r: seq<(nat, NeuronType)>)
    ensures |r| == |neurons|
    ensures forall i :: 0 <= i < |r| ==> r[i] == (neurons[i].id, neurons[i].kind)
  {
    seq(|neurons|, i requires 0 <= i < |neurons| => (neurons[i].id, neurons[i].kind))
  }

  lemma SameWiringPointwise(g: Genotype, h: Genotype)
    requires Wiring(g.synapses) == Wiring(h.synapses) && Roles(g.neurons) == Roles(h.neurons)
    ensures |g.synapses| == |h.synapses| && |g.neurons| == |h.neurons|
    ensures forall i :: 0 <= i < |g.synapses| ==>
      g.synapses[i].inputNeuronId == h.synapses[i].inputNeuronId && g.synapses[i].outputNeuronId == h.synapses[i].outputNeuronId
    ensures forall i :: 0 <= i < |g.neurons| ==> g.neurons[i].id == h.neurons[i].id && g.neurons[i].kind == h.neurons[i].kind
  {
    forall i | 0 <= i < |g.synapses|
      ensures g.synapses[i].inputNeuronId == h.synapses[i].inputNeuronId && g.synapses[i].outputNeuronId == h.synapses[i].outputNeuronId
    {
      assert Wiring(g.synapses)[i] == Wiring(h.synapses)[i];
    }
    forall i | 0 <= i < |g.neurons|
      ensures g.neurons[i].id == h.neurons[i].id && g.neurons[i].kind == h.neurons[i].kind
    {
      assert Roles(g.neurons)[i] == Roles(h.neurons)[i];
    }
  }

  /** Two genomes with the same wiring and roles agree on validity, on
      closure and on every chain of synapses. */
  lemma SameWiring(g: Genotype, h: Genotype)
    requires Wiring(g.synapses) == Wiring(h.synapses) && Roles(g.neurons) == Roles(h.neurons)
    ensures PhenotypeBuilder.IsValidGenome(g) == PhenotypeBuilder.IsValidGenome(h)
    ensures Closed(g.neurons, g.synapses) == Closed(h.neurons, h.synapses)
    ensures forall p :: Path(g.synapses, p) <==> Path(h.synapses, p)
  {
    SameWiringPointwise(g, h);
    SameEnds(g, h);
  }

  /** Validity, closure and chains depend only on the neurons' ids and
      kinds and on the synapses' ends, slot by slot. */
  lemma SameEnds(g: Genotype, h: Genotype)
    requires |g.synapses| == |h.synapses| && |g.neurons| == |h.neurons|
    requires forall i :: 0 <= i < |g.synapses| ==>
      g.synapses[i].inputNeuronId == h.synapses[i].inputNeuronId && g.synapses[i].outputNeuronId == h.synapses[i].outputNeuronId
    requires forall i :: 0 <= i < |g.neurons| ==> g.neurons[i].id == h.neurons[i].id && g.neurons[i].kind == h.neurons[i].kind
    ensures PhenotypeBuilder.IsValidGenome(g) == PhenotypeBuilder.IsValidGenome(h)
    ensures Closed(g.neurons, g.synapses) == Closed(h.neurons, h.synapses)
    ensures forall p :: Path(g.synapses, p) <==> Path(h.synapses, p)
  {
    SameValid(g, h);
    SameClosed(g, h);
    SameEdges(g, h);
  }

  lemma SameValid(g: Genotype, h: Genotype)
    requires |g.synapses| == |h.synapses| && |g.neurons| == |h.neurons|
    requires forall i :: 0 <= i < |g.synapses| ==>
      g.synapses[i].inputNeuronId == h.synapses[i].inputNeuronId && g.synapses[i].outputNeuronId == h.synapses[i].outputNeuronId
    requires forall i :: 0 <= i < |g.neurons| ==> g.neurons[i].id == h.neurons[i].id && g.neurons[i].kind == h.neurons[i].kind
    ensures PhenotypeBuilder.IsValidGenome(g) == PhenotypeBuilder.IsValidGenome(h)
  {
    SameBiasCount(g.neurons, h.neurons);
    forall i | 0 <= i < |g.neurons|
      ensures PhenotypeBuilder.Misplaced(g.neurons[i], g.synapses) == PhenotypeBuilder.Misplaced(h.neurons[i], h.synapses)
    {
    }
  }

  lemma {:induction false} SameBiasCount(a: seq<Neuron>, b: seq<Neuron>)
    requires |a| == |b| && forall i :: 0 <= i < |a| ==> a[i].kind == b[i].kind
    ensures PhenotypeBuilder.BiasCount(a) == PhenotypeBuilder.BiasCount(b)
  {
    if |a| > 0 {
      SameBiasCount(a[1..], b[1..]);
    }
  }

  lemma SameClosed(g: Genotype, h: Genotype)
    requires |g.synapses| == |h.synapses| && |g.neurons| == |h.neurons|
    requires forall i :: 0 <= i < |g.synapses| ==>
      g.synapses[i].inputNeuronId == h.synapses[i].inputNeuronId && g.synapses[i].outputNeuronId == h.synapses[i].outputNeuronId
    requires forall i :: 0 <= i < |g.neurons| ==> g.neurons[i].id == h.neurons[i].id
    ensures Closed(g.neurons, g.synapses) == Closed(h.neurons, h.synapses)
  {
    assert Ids(g.neurons) == Ids(h.neurons) by {
      forall id | id in Ids(g.neurons)
        ensures id in Ids(h.neurons)
      {
        var i :| 0 <= i < |g.neurons| && g.neurons[i].id == id;
      }
      forall id | id in Ids(h.neurons)
        ensures id in Ids(g.neurons)
      {
        var i :| 0 <= i < |h.neurons| && h.neurons[i].id == id;
      }
    }
  }

  lemma SameEdges(g: Genotype, h: Genotype)
    requires |g.synapses| == |h.synapses|
    requires forall i :: 0 <= i < |g.synapses| ==>
      g.synapses[i].inputNeuronId == h.synapses[i].inputNeuronId && g.synapses[i].outputNeuronId == h.synapses[i].outputNeuronId
    ensures forall p :: Path(g.synapses, p) <==> Path(h.synapses, p)
  {
    assert forall a, b :: Edge(g.synapses, a, b) <==> Edge(h.synapses, a, b);
  }

  // ---------------------------------------------------------------------
  // ModifySynapseWeight, ReplaceSynapseWeight

  /** ModifySynapseWeight and ReplaceSynapseWeight, at slot level: no change
      without an enabled synapse; otherwise some enabled synapse is picked
      and every slot carrying its innovation takes the weight `newWeight`
      gives for the picked synapse's weight (the caller's draw: a clamped
      step for ModifySynapseWeight, a constant for ReplaceSynapseWeight);
      every other slot and all wiring stay as they were. */
  function Reweight(child: Genotype, pick: nat, newWeight: real -> real): (r: Genotype)
    ensures r == child.(synapses := r.synapses)
    ensures Wiring(r.synapses) == Wiring(child.synapses)
    ensures |Enabled(child.synapses)| == 0 ==> r == child
    ensures |Enabled(child.synapses)| > 0 ==>
      exists e :: e in child.synapses && e.isEnabled &&
        forall i :: 0 <= i < |r.synapses| ==>
          r.synapses[i].weight == (if child.synapses[i].innovation == e.innovation then newWeight(e.weight) else child.synapses[i].weight)
  {
    if |child.synapses| == 0 then child
    else
      var enabled := Enabled(child.synapses);
      if |enabled| == 0 then child
      else
        var chosen := enabled[pick % |enabled|];
        var s := child.synapses;
        var synapses := seq(|s|, i requires 0 <= i < |s| =>
          if s[i].innovation == chosen.innovation then s[i].(weight := newWeight(chosen.weight)) else s[i]);
        assert Wiring(synapses) == Wiring(s);
        child.(synapses := synapses)
  }

  // ---------------------------------------------------------------------
  // ReplaceNeuronActivationFunction, ModifyNeuronBias

  /** The hidden neurons, in order. */
  function HiddenNeurons(neurons: seq<Neuron>): (r: seq<Neuron>)
    ensures forall n :: n in r <==> n in neurons && n.kind == Hidden
    ensures |r| <= |neurons|
  {
    if |neurons| == 0 then []
    else (if neurons[0].kind == Hidden then [neurons[0]] else []) + HiddenNeurons(neurons[1..])
  }

  /** ReplaceNeuronActivationFunction: a hidden neuron is picked and every
      neuron carrying its id takes the new function (drawn by the caller);
      nothing else changes, and without a hidden neuron nothing at all. */
  function ReplaceActivation(child: Genotype, pick: nat, name: string): (r: Genotype)
    ensures r == child.(neurons := r.neurons)
    ensures Roles(r.neurons) == Roles(child.neurons)
    ensures |HiddenNeurons(child.neurons)| == 0 ==> r == child
    ensures |HiddenNeurons(child.neurons)| > 0 ==>
      exists h :: h in child.neurons && h.kind == Hidden &&
        forall i :: 0 <= i < |r.neurons| ==>
          r.neurons[i] == (if child.neurons[i].id == h.id then child.neurons[i].(activationFunction := name) else child.neurons[i])
  {
    var hidden := HiddenNeurons(child.neurons);
    if |hidden| == 0 then child
    else
      var chosen := hidden[pick % |hidden|];
      var n := child.neurons;
      var neurons := seq(|n|, i requires 0 <= i < |n| =>
        if n[i].id == chosen.id then n[i].(activationFunction := name) else n[i]);
      assert Roles(neurons) == Roles(n);
      child.(neurons := neurons)
  }

  /** ModifyNeuronBias: a hidden neuron is picked and every neuron carrying
      its id takes that neuron's bias plus `delta` (drawn by the caller). */
  function ModifyBias(child: Genotype, pick: nat, delta: real): (r: Genotype)
    ensures r == child.(neurons := r.neurons)
    ensures Roles(r.neurons) == Roles(child.neurons)
    ensures |HiddenNeurons(child.neurons)| == 0 ==> r == child
    ensures |HiddenNeurons(child.neurons)| > 0 ==>
      exists h :: h in child.neurons && h.kind == Hidden &&
        forall i :: 0 <= i < |r.neurons| ==>
          r.neurons[i] == (if child.neurons[i].id == h.id then child.neurons[i].(bias := h.bias + delta) else child.neurons[i])
  {
    var hidden := HiddenNeurons(child.neurons);
    if |hidden| == 0 then child
    else
      var chosen := hidden[pick % |hidden|];
      var n := child.neurons;
      var neurons := seq(|n|, i requires 0 <= i < |n| =>
        if n[i].id == chosen.id then n[i].(bias := chosen.bias + delta) else n[i]);
      assert Roles(neurons) == Roles(n);
      child.(neurons := neurons)
  }

  /** The weight, activation and bias operators keep the genome's validity,
      closure and chains of synapses. */
  lemma NonStructuralKeepsStructure(child: Genotype, pick: nat, newWeight: real -> real, delta: real, name: string)
    ensures var r := Reweight(child, pick, newWeight);
      PhenotypeBuilder.IsValidGenome(r) == PhenotypeBuilder.IsValidGenome(child)
      && Closed(r.neurons, r.synapses) == Closed(child.neurons, child.synapses)
      && forall p :: Path(r.synapses, p) <==> Path(child.synapses, p)
    ensures var r := ReplaceActivation(child, pick, name);
      PhenotypeBuilder.IsValidGenome(r) == PhenotypeBuilder.IsValidGenome(child)
      && Closed(r.neurons, r.synapses) == Closed(child.neurons, child.synapses)
    ensures var r := ModifyBias(child, pick, delta);
      PhenotypeBuilder.IsValidGenome(r) == PhenotypeBuilder.IsValidGenome(child)
      && Closed(r.neurons, r.synapses) == Closed(child.neurons, child.synapses)
  {
    SameWiring(Reweight(child, pick, newWeight), child);
    SameWiring(ReplaceActivation(child, pick, name), child);
    SameWiring(ModifyBias(child, pick, delta), child);
  }

  // ---------------------------------------------------------------------
  // RemoveHiddenNeuron

  function WithoutId(neurons: seq<Neuron>, id: nat): (r: seq<Neuron>)
    ensures forall n :: n in r <==> n in neurons && n.id != id
  {
    if |neurons| == 0 then []
    else (if neurons[0].id != id then [neurons[0]] else []) + WithoutId(neurons[1..], id)
  }

  predicate Touches(s: Synapse, id: nat)
  {
    s.inputNeuronId == id || s.outputNeuronId == id
  }

  function NotTouching(synapses: seq<Synapse>, id: nat): (r: seq<Synapse>)
    ensures forall s :: s in r <==> s in synapses && !Touches(s, id)
  {
    if |synapses| == 0 then []
    else (if !Touches(synapses[0], id) then [synapses[0]] else []) + NotTouching(synapses[1..], id)
  }

  /** RemoveHiddenNeuron: a hidden neuron is picked; the neurons carrying its
      id and exactly the synapses touching it go, everything else stays. */
  function RemoveHidden(child: Genotype, pick: nat): (r: Genotype)
    ensures |HiddenNeurons(child.neurons)| == 0 ==> r == child
    ensures |HiddenNeurons(child.neurons)| > 0 ==>
      exists h :: h in child.neurons && h.kind == Hidden
        && r == child.(neurons := WithoutId(child.neurons, h.id), synapses := NotTouching(child.synapses, h.id))
  {
    var hidden := HiddenNeurons(child.neurons);
    if |hidden| == 0 then child
    else
      var victim := hidden[pick % |hidden|];
      child.(neurons := WithoutId(child.neurons, victim.id), synapses := NotTouching(child.synapses, victim.id))
  }

  /** The removed id is gone, every other neuron and every synapse not
      touching it is kept, and a valid or closed genome stays so. */
  lemma RemoveHiddenKeeps(child: Genotype, pick: nat) returns (id: nat)
    requires |HiddenNeurons(child.neurons)| > 0
    ensures exists h :: h in child.neurons && h.kind == Hidden && h.id == id
    ensures var r := RemoveHidden(child, pick);
      && id !in Ids(r.neurons)
      && (forall n :: n in r.neurons <==> n in child.neurons && n.id != id)
      && (forall s :: s in r.synapses <==> s in child.synapses && !Touches(s, id))
    ensures var r := RemoveHidden(child, pick);
      (PhenotypeBuilder.IsValidGenome(child) ==> PhenotypeBuilder.IsValidGenome(r))
      && (Closed(child.neurons, child.synapses) ==> Closed(r.neurons, r.synapses))
  {
    var r := RemoveHidden(child, pick);
    var hidden := HiddenNeurons(child.neurons);
    var victim := hidden[pick % |hidden|];
    assert victim in hidden;
    id := victim.id;
    WithoutIdGone(child.neurons, victim.id);
    if PhenotypeBuilder.IsValidGenome(child) {
      WithoutIdBiasCount(child.neurons, victim.id);
      SubgenomeValid(child, r);
    }
    if Closed(child.neurons, child.synapses) {
      NotTouchingClosed(child.neurons, child.synapses, victim.id);
    }
  }

  lemma WithoutIdGone(neurons: seq<Neuron>, id: nat)
    ensures id !in Ids(WithoutId(neurons, id))
  {
  }

  /** Dropping a neuron together with every synapse touching it keeps the
      synapses' ends among the neurons. */
  lemma NotTouchingClosed(neurons: seq<Neuron>, synapses: seq<Synapse>, id: nat)
    requires Closed(neurons, synapses)
    ensures Closed(WithoutId(neurons, id), NotTouching(synapses, id))
  {
    var ns := WithoutId(neurons, id);
    var ss := NotTouching(synapses, id);
    forall k | 0 <= k < |ss|
      ensures ss[k].inputNeuronId in Ids(ns) && ss[k].outputNeuronId in Ids(ns)
    {
      var s := ss[k];
      assert s in ss;
      var j :| 0 <= j < |synapses| && synapses[j] == s;
      var a :| 0 <= a < |neurons| && neurons[a].id == s.inputNeuronId;
      var b :| 0 <= b < |neurons| && neurons[b].id == s.outputNeuronId;
      assert neurons[a] in ns && neurons[b] in ns;
    }
  }

  lemma {:induction false} WithoutIdBiasCount(neurons: seq<Neuron>, id: nat)
    ensures PhenotypeBuilder.BiasCount(WithoutId(neurons, id)) <= PhenotypeBuilder.BiasCount(neurons)
  {
    if |neurons| > 0 {
      WithoutIdBiasCount(neurons[1..], id);
      var head := if neurons[0].id != id then [neurons[0]] else [];
      BiasCountAppend(head, WithoutId(neurons[1..], id));
    }
  }

  lemma {:induction false} BiasCountAppend(a: seq<Neuron>, b: seq<Neuron>)
    ensures PhenotypeBuilder.BiasCount(a + b) == PhenotypeBuilder.BiasCount(a) + PhenotypeBuilder.BiasCount(b)
  {
    if |a| > 0 {
      assert (a + b)[0] == a[0];
      assert (a + b)[1..] == a[1..] + b;
      BiasCountAppend(a[1..], b);
      assert PhenotypeBuilder.BiasCount(a + b) == (if a[0].kind == Bias then 1 else 0) + PhenotypeBuilder.BiasCount(a[1..] + b);
    } else {
      assert a + b == b;
    }
  }

  /** Dropping neurons and synapses, with no more Bias neurons than before,
      keeps a genome valid. */
  lemma SubgenomeValid(g: Genotype, h: Genotype)
    requires PhenotypeBuilder.IsValidGenome(g)
    requires forall n :: n in h.neurons ==> n in g.neurons
    requires forall s :: s in h.synapses ==> s in g.synapses
    requires PhenotypeBuilder.BiasCount(h.neurons) <= PhenotypeBuilder.BiasCount(g.neurons)
    ensures PhenotypeBuilder.IsValidGenome(h)
  {
    forall i | 0 <= i < |h.neurons|
      ensures !PhenotypeBuilder.Misplaced(h.neurons[i], h.synapses)
    {
      var n := h.neurons[i];
      assert n in h.neurons;
      var j :| 0 <= j < |g.neurons| && g.neurons[j] == n;
      assert !PhenotypeBuilder.Misplaced(g.neurons[j], g.synapses);
      forall k | 0 <= k < |h.synapses|
        ensures !(IsInputOrBias(n.kind) && h.synapses[k].outputNeuronId == n.id)
        ensures !(n.kind == Output && h.synapses[k].inputNeuronId == n.id)
      {
        assert h.synapses[k] in h.synapses;
        var m :| 0 <= m < |g.synapses| && g.synapses[m] == h.synapses[k];
      }
    }
  }
}
