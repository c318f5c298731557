/** Crossover of src/Neat.Core/Evolution/EvolutionService.cs: genes of two
    parents are aligned by innovation number; a shared innovation gives one of
    its copies, a one-parent innovation inside the shared range is always
    copied, and one beyond it only from the preferred parent. */
module Crossovers {
  import opened Wrappers
  import opened Genomes

  /** The two parents and which of them is preferred. */
  datatype EvolutionArgs = EvolutionArgs(parent1: Genotype, parent2: Genotype, preferParent1: bool)

  /** One entry of a parent's gene set: the synapse, its innovation and
      whether its parent is the preferred one. */
  datatype Gene = Gene(innovation: nat, synapse: Synapse, preferred: bool)

  /** The elements of a list in first-occurrence order, each once (the
      order a HashSet built by ToHashSet enumerates in). */
  function Distinct<T(==,!new)>(s: seq<T>): (r: seq<T>)
    ensures forall x :: x in r <==> x in s
    ensures forall i, j :: 0 <= i < j < |r| ==> r[i] != r[j]
  {
    if |s| == 0 then []
    else
      var d := Distinct(s[..|s| - 1]);
      assert forall x :: x in s <==> x in s[..|s| - 1] || x == s[|s| - 1];
      if s[|s| - 1] in d then d else d + [s[|s| - 1]]
  }

  /** A parent's synapses as genes, de-duplicated as the HashSet does. */
  function Genes(synapses: seq<Synapse>, preferred: bool): (r: seq<Gene>)
    ensures forall x :: x in r <==> x.synapse in synapses && x.preferred == preferred && x.innovation == x.synapse.innovation
    ensures forall i, j :: 0 <= i < j < |r| ==> r[i] != r[j]
  {
    var tagged := seq(|synapses|, i requires 0 <= i < |synapses| => Gene(synapses[i].innovation, synapses[i], preferred));
    assert forall x :: x in tagged <==> x.synapse in synapses && x.preferred == preferred && x.innovation == x.synapse.innovation by {
      forall x: Gene | x.synapse in synapses && x.preferred == preferred && x.innovation == x.synapse.innovation
        ensures x in tagged
      {
        var i :| 0 <= i < |synapses| && synapses[i] == x.synapse;
        assert tagged[i] == x;
      }
    }
    Distinct(tagged)
  }

  /** DefaultIfEmpty().Max(Innovation): the largest innovation, 0 for none. */
  function MaxInnovation(genes: seq<Gene>): (r: nat)
    ensures forall x :: x in genes ==> x.innovation <= r
    ensures |genes| > 0 ==> exists x :: x in genes && x.innovation == r
  {
    if |genes| == 0 then 0
    else
      var rest := MaxInnovation(genes[1..]);
      assert forall x :: x in genes ==> x == genes[0] || x in genes[1..];
      if genes[0].innovation >= rest then genes[0].innovation else rest
  }

  /** The innovation numbers of a gene list, in first-occurrence order. */
  function Keys(genes: seq<Gene>): (r: seq<nat>)
    ensures forall i :: i in r <==> exists x :: x in genes && x.innovation == i
    ensures forall k, l :: 0 <= k < l < |r| ==> r[k] != r[l]
  {
    var innovations: seq<nat> := seq(|genes|, i requires 0 <= i < |genes| => genes[i].innovation);
    assert forall i :: i in innovations <==> exists x :: x in genes && x.innovation == i by {
      forall i | exists x :: x in genes && x.innovation == i
        ensures i in innovations
      {
        var x :| x in genes && x.innovation == i;
        var k :| 0 <= k < |genes| && genes[k] == x;
        assert innovations[k] == i;
      }
    }
    Distinct(innovations)
  }

  /** One group of the GroupBy: the genes carrying one innovation. */
  function Group(genes: seq<Gene>, innovation: nat): (r: seq<Gene>)
    ensures forall x :: x in r <==> x in genes && x.innovation == innovation
    ensures (forall i, j :: 0 <= i < j < |genes| ==> genes[i] != genes[j]) ==> forall i, j :: 0 <= i < j < |r| ==> r[i] != r[j]
  {
    if |genes| == 0 then []
    else
      var rest := Group(genes[1..], innovation);
      assert (forall i, j :: 0 <= i < j < |genes| ==> genes[i] != genes[j]) ==> genes[0] !in genes[1..];
      (if genes[0].innovation == innovation then [genes[0]] else []) + rest
  }

  /** The Select on one group: a random member of a group of several (the
      `pick` argument stands for Shuffle().First()); a lone gene when its
      innovation is within the shared range or its parent is preferred;
      nothing otherwise. */
  function Choose(group: seq<Gene>, bound: nat, pick: seq<Gene> -> nat): (r: Option<Synapse>)
    ensures r.Some? ==> exists x :: x in group && x.synapse == r.value
    ensures r.None? <==> |group| == 0 || (|group| == 1 && group[0].innovation > bound && !group[0].preferred)
  {
    if |group| == 0 then None
    else if |group| > 1 then Some(group[pick(group) % |group|].synapse)
    else if group[0].innovation <= bound then Some(group[0].synapse)
    else if group[0].preferred then Some(group[0].synapse)
    else None
  }

  /** Every gene's innovation is its synapse's. */
  predicate Tagged(genes: seq<Gene>)
  {
    forall x :: x in genes ==> x.innovation == x.synapse.innovation
  }

  /** The chosen synapses of the groups listed in `keys`, in that order:
      exactly the choices that are made, one per innovation. */
  function Collect(genes: seq<Gene>, keys: seq<nat>, bound: nat, pick: seq<Gene> -> nat): (r: seq<Synapse>)
    requires Tagged(genes)
    ensures forall s :: s in r ==> s.innovation in keys && Choose(Group(genes, s.innovation), bound, pick) == Some(s)
    ensures forall i :: i in keys && Choose(Group(genes, i), bound, pick).Some? ==> Choose(Group(genes, i), bound, pick).value in r
  {
    if |keys| == 0 then []
    else
      var rest := Collect(genes, keys[1..], bound, pick);
      assert forall i :: i in keys ==> i == keys[0] || i in keys[1..];
      var chosen := Choose(Group(genes, keys[0]), bound, pick);
      if chosen.Some? then
        assert chosen.value.innovation == keys[0] by {
          var y :| y in Group(genes, keys[0]) && y.synapse == chosen.value;
        }
        var r := [chosen.value] + rest;
        r
      else rest
  }

  /** A neuron Crossover keeps: Bias, Input and Output always, any other
      when a child synapse touches it. */
  predicate Required(n: Neuron, synapses: seq<Synapse>)
  {
    n.kind == Bias || n.kind == Input || n.kind == Output
    || exists k :: 0 <= k < |synapses| && (synapses[k].inputNeuronId == n.id || synapses[k].outputNeuronId == n.id)
  }

  function KeepRequired(neurons: seq<Neuron>, synapses: seq<Synapse>): (r: seq<Neuron>)
    ensures forall n :: n in r <==> n in neurons && Required(n, synapses)
    ensures |r| <= |neurons|
  {
    if |neurons| == 0 then []
    else (if Required(neurons[0], synapses) then [neurons[0]] else []) + KeepRequired(neurons[1..], synapses)
  }

  /** DistinctBy(Id): the first neuron of each id. */
  function DistinctById(neurons: seq<Neuron>): (r: seq<Neuron>)
    ensures forall n :: n in r ==> n in neurons
    ensures Ids(r) == Ids(neurons)
    ensures forall i, j :: 0 <= i < j < |r| ==> r[i].id != r[j].id
  {
    if |neurons| == 0 then []
    else
      var init := neurons[..|neurons| - 1];
      var last := neurons[|neurons| - 1];
      var d := DistinctById(init);
      assert forall n :: n in neurons <==> n in init || n == last;
      assert Ids(neurons) == Ids(init) + {last.id};
      if last.id in Ids(d) then d
      else
        var r := d + [last];
        assert Ids(r) == Ids(d) + {last.id};
        r
  }

  /** Distinct keys give distinct innovations. */
  lemma {:induction false} CollectUnique(genes: seq<Gene>, keys: seq<nat>, bound: nat, pick: seq<Gene> -> nat)
    requires Tagged(genes)
    requires forall k, l :: 0 <= k < l < |keys| ==> keys[k] != keys[l]
    ensures UniqueInnovations(Collect(genes, keys, bound, pick))
  {
    if |keys| > 0 {
      var rest := Collect(genes, keys[1..], bound, pick);
      CollectUnique(genes, keys[1..], bound, pick);
      var r := Collect(genes, keys, bound, pick);
      assert keys[0] !in keys[1..];
      if r != rest {
        assert r[0].innovation == keys[0] && r[1..] == rest;
        forall k, l | 0 <= k < l < |r|
          ensures r[k].innovation != r[l].innovation
        {
          assert r[l] == rest[l - 1] && rest[l - 1] in rest;
          if k > 0 {
            assert r[k] == rest[k - 1];
          }
        }
      }
    }
  }

  /** Parent 1 (first) or parent 2. */
  function Parent(args: EvolutionArgs, first: bool): Genotype
  {
    if first then args.parent1 else args.parent2
  }

  /** A parent's genes, flagged with whether that parent is preferred. */
  function ParentGenes(args: EvolutionArgs, first: bool): (r: seq<Gene>)
    ensures forall x :: x in r <==> x.synapse in Parent(args, first).synapses && x.preferred == (first == args.preferParent1)
                                    && x.innovation == x.synapse.innovation
  {
    Genes(Parent(args, first).synapses, first == args.preferParent1)
  }

  /** The gene sets of both parents, concatenated as the source does. */
  function AllGenes(args: EvolutionArgs): (r: seq<Gene>)
    ensures Tagged(r)
    ensures forall x :: x in r <==> x in ParentGenes(args, true) || x in ParentGenes(args, false)
    ensures forall i, j :: 0 <= i < j < |r| ==> r[i] != r[j]
  {
    var g1 := ParentGenes(args, true);
    var g2 := ParentGenes(args, false);
    assert forall x :: x in g1 ==> x !in g2;
    g1 + g2
  }

  /** min(max innovation of each parent), an empty parent counting 0: every
      innovation of one of the parents is at most this bound. */
  function SharedBound(args: EvolutionArgs): (r: nat)
    ensures (forall x :: x in ParentGenes(args, true) ==> x.innovation <= r)
            || (forall x :: x in ParentGenes(args, false) ==> x.innovation <= r)
  {
    var max1 := MaxInnovation(ParentGenes(args, true));
    var max2 := MaxInnovation(ParentGenes(args, false));
    if max1 <= max2 then max1 else max2
  }

  /** The synapses Crossover gives the child: synapses of the parents, with
      no innovation twice. */
  function ChildSynapses(args: EvolutionArgs, pick: seq<Gene> -> nat): (r: seq<Synapse>)
    ensures UniqueInnovations(r)
    ensures forall s :: s in r ==> s in args.parent1.synapses || s in args.parent2.synapses
  {
    var genes := AllGenes(args);
    var r := Collect(genes, Keys(genes), SharedBound(args), pick);
    CollectUnique(genes, Keys(genes), SharedBound(args), pick);
    assert forall s :: s in r ==> s in args.parent1.synapses || s in args.parent2.synapses by {
      forall s | s in r
        ensures s in args.parent1.synapses || s in args.parent2.synapses
      {
        var y :| y in Group(genes, s.innovation) && y.synapse == s;
      }
    }
    r
  }

  /** Crossover. `pick` stands for the shuffle of a shared group, `id` for
      the Guid the new genome draws. */
  function Crossover(args: EvolutionArgs, pick: seq<Gene> -> nat, id: nat): (r: Genotype)
    ensures r.synapses == ChildSynapses(args, pick)
    ensures r.generation == Parent(args, args.preferParent1).generation + 1
    ensures r.historicalFitness == (args.parent1.historicalFitness + args.parent2.historicalFitness) / 2.0
    ensures r.age == 0 && r.id == id
  {
    var synapses := ChildSynapses(args, pick);
    Genotype(ChildNeurons(args, synapses), synapses, (args.parent1.historicalFitness + args.parent2.historicalFitness) / 2.0,
             (if args.preferParent1 then args.parent1.generation else args.parent2.generation) + 1, 0, id)
  }

  // ---------------------------------------------------------------------
  // Gene rules

  predicate Carries(synapses: seq<Synapse>, innovation: nat)
  {
    exists k :: 0 <= k < |synapses| && synapses[k].innovation == innovation
  }

  /** A parent synapse's gene sits in its innovation's group. */
  lemma InGroup(args: EvolutionArgs, first: bool, innovation: nat) returns (x: Gene)
    requires Carries(Parent(args, first).synapses, innovation)
    ensures x in Group(AllGenes(args), innovation) && x.preferred == (first == args.preferParent1)
  {
    var k :| 0 <= k < |Parent(args, first).synapses| && Parent(args, first).synapses[k].innovation == innovation;
    x := Gene(innovation, Parent(args, first).synapses[k], first == args.preferParent1);
    assert x in ParentGenes(args, first);
  }

  /** A choice the group of `innovation` makes ends up in the child. */
  lemma ChosenIsCarried(args: EvolutionArgs, pick: seq<Gene> -> nat, innovation: nat)
    requires Choose(Group(AllGenes(args), innovation), SharedBound(args), pick).Some?
    ensures Carries(ChildSynapses(args, pick), innovation)
  {
    var genes := AllGenes(args);
    var chosen := Choose(Group(genes, innovation), SharedBound(args), pick);
    var y :| y in Group(genes, innovation) && y.synapse == chosen.value;
    assert innovation in Keys(genes);
    var r := ChildSynapses(args, pick);
    assert chosen.value in r;
    var k :| 0 <= k < |r| && r[k] == chosen.value;
  }

  /** Two different members make a group of several. */
  lemma TwoMembers(group: seq<Gene>, x: Gene, y: Gene)
    requires x in group && y in group && x != y
    ensures |group| > 1
  {
  }

  /** An innovation both parents carry gives one of the copies. */
  lemma SharedCopied(args: EvolutionArgs, pick: seq<Gene> -> nat, innovation: nat)
    requires Carries(args.parent1.synapses, innovation) && Carries(args.parent2.synapses, innovation)
    ensures Carries(ChildSynapses(args, pick), innovation)
  {
    var x1 := InGroup(args, true, innovation);
    var x2 := InGroup(args, false, innovation);
    TwoMembers(Group(AllGenes(args), innovation), x1, x2);
    ChosenIsCarried(args, pick, innovation);
  }

  /** An innovation at most the shared bound is copied whichever parent has it. */
  lemma WithinBoundCopied(args: EvolutionArgs, pick: seq<Gene> -> nat, innovation: nat, first: bool)
    requires Carries(Parent(args, first).synapses, innovation) && innovation <= SharedBound(args)
    ensures Carries(ChildSynapses(args, pick), innovation)
  {
    var group := Group(AllGenes(args), innovation);
    var x := InGroup(args, first, innovation);
    assert group[0] in group;
    ChosenIsCarried(args, pick, innovation);
  }

  /** An innovation of the preferred parent is always copied. */
  lemma PreferredCopied(args: EvolutionArgs, pick: seq<Gene> -> nat, innovation: nat)
    requires Carries(Parent(args, args.preferParent1).synapses, innovation)
    ensures Carries(ChildSynapses(args, pick), innovation)
  {
    var group := Group(AllGenes(args), innovation);
    var x := InGroup(args, args.preferParent1, innovation);
    if |group| == 1 {
      assert group[0] == x;
    }
    ChosenIsCarried(args, pick, innovation);
  }

  /** A group whose genes all come from one list of synapses with unique
      innovations, and which has no gene twice, has at most one gene. */
  lemma SingleGene(group: seq<Gene>, synapses: seq<Synapse>, preferred: bool)
    requires UniqueInnovations(synapses)
    requires forall x :: x in group ==> x.synapse in synapses && x.preferred == preferred && x.innovation == x.synapse.innovation
    requires forall x :: x in group ==> x.innovation == group[0].innovation
    requires forall i, j :: 0 <= i < j < |group| ==> group[i] != group[j]
    ensures |group| <= 1
  {
    if |group| > 1 {
      assert group[0] in group && group[1] in group;
      var k0 :| 0 <= k0 < |synapses| && synapses[k0] == group[0].synapse;
      assert false;
    }
  }

  /** When the preferred parent lacks an innovation, its group holds only
      the other parent's genes. */
  lemma OtherOnly(args: EvolutionArgs, innovation: nat)
    requires !Carries(Parent(args, args.preferParent1).synapses, innovation)
    ensures forall x :: x in Group(AllGenes(args), innovation) ==>
      x.synapse in Parent(args, !args.preferParent1).synapses && !x.preferred && x.innovation == x.synapse.innovation
  {
    forall x | x in Group(AllGenes(args), innovation)
      ensures x.synapse in Parent(args, !args.preferParent1).synapses && !x.preferred
    {
      if x in ParentGenes(args, args.preferParent1) {
        assert false;
      }
    }
  }

  /** An innovation beyond the shared bound that only the other parent
      carries, once, is dropped. */
  lemma OtherDropped(args: EvolutionArgs, pick: seq<Gene> -> nat, innovation: nat)
    requires UniqueInnovations(Parent(args, !args.preferParent1).synapses)
    requires !Carries(Parent(args, args.preferParent1).synapses, innovation)
    requires innovation > SharedBound(args)
    ensures !Carries(ChildSynapses(args, pick), innovation)
  {
    var genes := AllGenes(args);
    var group := Group(genes, innovation);
    OtherOnly(args, innovation);
    if |group| > 0 {
      SingleGene(group, Parent(args, !args.preferParent1).synapses, false);
      assert group[0] in group;
    }
    assert Choose(group, SharedBound(args), pick).None?;
  }

  /** The gene rules of Crossover, together: the child's synapses come from
      the parents with no innovation twice; an innovation both parents carry
      is copied once, one parent's innovation within the shared range is
      copied, one beyond it is copied from the preferred parent and, when
      the other parent lists it once, dropped from the other. */
  lemma CrossoverGenes(args: EvolutionArgs, pick: seq<Gene> -> nat, id: nat, innovation: nat)
    ensures var child := Crossover(args, pick, id).synapses;
      && (Carries(args.parent1.synapses, innovation) && Carries(args.parent2.synapses, innovation) ==> Carries(child, innovation))
      && ((Carries(args.parent1.synapses, innovation) || Carries(args.parent2.synapses, innovation)) && innovation <= SharedBound(args) ==>
            Carries(child, innovation))
      && (Carries(Parent(args, args.preferParent1).synapses, innovation) ==> Carries(child, innovation))
      && ((UniqueInnovations(Parent(args, !args.preferParent1).synapses) && !Carries(Parent(args, args.preferParent1).synapses, innovation)
           && innovation > SharedBound(args)) ==> !Carries(child, innovation))
  {
    if Carries(args.parent1.synapses, innovation) && Carries(args.parent2.synapses, innovation) {
      SharedCopied(args, pick, innovation);
    }
    if Carries(args.parent1.synapses, innovation) && innovation <= SharedBound(args) {
      WithinBoundCopied(args, pick, innovation, true);
    }
    if Carries(args.parent2.synapses, innovation) && innovation <= SharedBound(args) {
      WithinBoundCopied(args, pick, innovation, false);
    }
    if Carries(Parent(args, args.preferParent1).synapses, innovation) {
      PreferredCopied(args, pick, innovation);
    }
    if UniqueInnovations(Parent(args, !args.preferParent1).synapses) && !Carries(Parent(args, args.preferParent1).synapses, innovation)
       && innovation > SharedBound(args) {
      OtherDropped(args, pick, innovation);
    }
  }

  // ---------------------------------------------------------------------
  // Neurons

  /** KeepRequired applied a second time keeps everything: the second filter
      of Crossover changes nothing. */
  lemma KeepRequiredIdempotent(neurons: seq<Neuron>, synapses: seq<Synapse>)
    ensures KeepRequired(KeepRequired(neurons, synapses), synapses) == KeepRequired(neurons, synapses)
  {
    var once := KeepRequired(neurons, synapses);
    KeepAll(once, synapses);
  }

  lemma {:induction false} KeepAll(neurons: seq<Neuron>, synapses: seq<Synapse>)
    requires forall n :: n in neurons ==> Required(n, synapses)
    ensures KeepRequired(neurons, synapses) == neurons
  {
    if |neurons| > 0 {
      assert forall n :: n in neurons[1..] ==> n in neurons;
      KeepAll(neurons[1..], synapses);
      assert [neurons[0]] + neurons[1..] == neurons;
    }
  }

  /** The neurons Crossover keeps for the child's synapses: the first
      neuron of each id, filtered twice by Required. */
  function ChildNeurons(args: EvolutionArgs, synapses: seq<Synapse>): seq<Neuron>
  {
    KeepRequired(KeepRequired(DistinctById(args.parent1.neurons + args.parent2.neurons), synapses), synapses)
  }

  /** The child keeps at most one neuron per id, each a neuron of a parent,
      and keeps every Bias, Input and Output neuron of the first-per-id list. */
  lemma ChildNeuronsDistinct(args: EvolutionArgs, synapses: seq<Synapse>)
    ensures var neurons := ChildNeurons(args, synapses);
      && (forall i, j :: 0 <= i < j < |neurons| ==> neurons[i].id != neurons[j].id)
      && (forall n :: n in neurons ==> n in args.parent1.neurons + args.parent2.neurons)
      && forall n :: n in DistinctById(args.parent1.neurons + args.parent2.neurons) && n.kind != Hidden ==> n in neurons
  {
    var distinct := DistinctById(args.parent1.neurons + args.parent2.neurons);
    var kept := KeepRequired(distinct, synapses);
    KeepRequiredIdempotent(distinct, synapses);
    forall i, j | 0 <= i < j < |kept|
      ensures kept[i].id != kept[j].id
    {
      KeepRequiredOrder(distinct, synapses, i, j);
    }
  }

  /** Synapses drawn from closed parents join neurons the child keeps. */
  lemma ChildNeuronsClosed(args: EvolutionArgs, synapses: seq<Synapse>)
    requires Closed(args.parent1.neurons, args.parent1.synapses)
    requires Closed(args.parent2.neurons, args.parent2.synapses)
    requires forall s :: s in synapses ==> s in args.parent1.synapses || s in args.parent2.synapses
    ensures Closed(ChildNeurons(args, synapses), synapses)
  {
    var distinct := DistinctById(args.parent1.neurons + args.parent2.neurons);
    var kept := KeepRequired(distinct, synapses);
    KeepRequiredIdempotent(distinct, synapses);
    forall k | 0 <= k < |synapses|
      ensures synapses[k].inputNeuronId in Ids(kept) && synapses[k].outputNeuronId in Ids(kept)
    {
      var s := synapses[k];
      ClosedEnds(args, s);
      var a :| a in distinct && a.id == s.inputNeuronId;
      var b :| b in distinct && b.id == s.outputNeuronId;
      assert Required(a, synapses) && Required(b, synapses);
    }
  }

  /** The neuron rules of Crossover: one neuron per id, all from the parents,
      Bias, Input and Output kept, and closed parents give a closed child. */
  lemma CrossoverNeurons(args: EvolutionArgs, pick: seq<Gene> -> nat, id: nat)
    ensures var child := Crossover(args, pick, id);
      && (forall i, j :: 0 <= i < j < |child.neurons| ==> child.neurons[i].id != child.neurons[j].id)
      && (forall n :: n in child.neurons ==> n in args.parent1.neurons + args.parent2.neurons)
      && (forall n :: n in DistinctById(args.parent1.neurons + args.parent2.neurons) && n.kind != Hidden ==> n in child.neurons)
      && (Closed(args.parent1.neurons, args.parent1.synapses) && Closed(args.parent2.neurons, args.parent2.synapses) ==>
            Closed(child.neurons, child.synapses))
  {
    var synapses := ChildSynapses(args, pick);
    assert Crossover(args, pick, id).neurons == ChildNeurons(args, synapses);
    ChildNeuronsDistinct(args, synapses);
    if Closed(args.parent1.neurons, args.parent1.synapses) && Closed(args.parent2.neurons, args.parent2.synapses) {
      ChildNeuronsClosed(args, synapses);
    }
  }

  lemma ClosedEnds(args: EvolutionArgs, s: Synapse)
    requires Closed(args.parent1.neurons, args.parent1.synapses)
    requires Closed(args.parent2.neurons, args.parent2.synapses)
    requires s in args.parent1.synapses || s in args.parent2.synapses
    ensures s.inputNeuronId in Ids(args.parent1.neurons + args.parent2.neurons)
    ensures s.outputNeuronId in Ids(args.parent1.neurons + args.parent2.neurons)
  {
    if s in args.parent1.synapses {
      var k :| 0 <= k < |args.parent1.synapses| && args.parent1.synapses[k] == s;
    } else {
      var k :| 0 <= k < |args.parent2.synapses| && args.parent2.synapses[k] == s;
    }
  }

  /** Filtering keeps order: two kept neurons come from two positions. */
  lemma {:induction false} KeepRequiredOrder(neurons: seq<Neuron>, synapses: seq<Synapse>, i: nat, j: nat)
    requires forall a, b :: 0 <= a < b < |neurons| ==> neurons[a].id != neurons[b].id
    requires i < j < |KeepRequired(neurons, synapses)|
    ensures KeepRequired(neurons, synapses)[i].id != KeepRequired(neurons, synapses)[j].id
  {
    var rest := KeepRequired(neurons[1..], synapses);
    if Required(neurons[0], synapses) {
      if i == 0 {
        assert KeepRequired(neurons, synapses)[j] == rest[j - 1];
        assert rest[j - 1] in neurons[1..];
      } else {
        KeepRequiredOrder(neurons[1..], synapses, i - 1, j - 1);
      }
    } else {
      KeepRequiredOrder(neurons[1..], synapses, i, j);
    }
  }
}
