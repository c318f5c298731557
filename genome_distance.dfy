/** The compatibility distance of src/Neat.Core/Species/SpeciesBuilder.cs
    (CalcGenomesDistance, CalcSpecieDistance). The enabled synapses of both
    genomes are grouped by innovation number; a group of two is a matched
    gene and adds its weight gap, a group of one is disjoint (inside the
    shared innovation range) or excess (beyond it). Neurons of the same id
    in both genomes, touched by an active synapse, add their activation
    mismatch and bias gap. */
module GenomeDistances {
  import opened Wrappers
  import opened Genomes
  import opened Settings
  import Crossovers
  import Shuffles

  function Abs(x: real): real
  {
    if x < 0.0 then -x else x
  }

  // ---------------------------------------------------------------------
  // Sums over the keys of a grouping

  /** The sum of `f` over a list of keys. */
  function SumOf(keys: seq<nat>, f: nat -> real): real
  {
    if |keys| == 0 then 0.0 else f(keys[0]) + SumOf(keys[1..], f)
  }

  predicate NoRepeats(keys: seq<nat>)
  {
    forall i, j :: 0 <= i < j < |keys| ==> keys[i] != keys[j]
  }

  lemma {:induction false} SumOfAppend(a: seq<nat>, b: seq<nat>, f: nat -> real)
    ensures SumOf(a + b, f) == SumOf(a, f) + SumOf(b, f)
  {
    if |a| == 0 {
      assert a + b == b;
    } else {
      assert (a + b)[1..] == a[1..] + b;
      SumOfAppend(a[1..], b, f);
    }
  }

  /** A sum does not depend on the order of the keys. */
  lemma {:induction false} SumOfPermutation(a: seq<nat>, b: seq<nat>, f: nat -> real)
    requires multiset(a) == multiset(b)
    ensures SumOf(a, f) == SumOf(b, f)
    decreases |a|
  {
    if |a| == 0 {
      assert |b| == |multiset(b)| == 0;
    } else {
      assert a[0] in multiset(b);
      var j :| 0 <= j < |b| && b[j] == a[0];
      Shuffles.SameRest(b, a, j);
      SumOfPermutation(a[1..], b[..j] + b[j + 1..], f);
      assert b == b[..j] + ([b[j]] + b[j + 1..]);
      SumOfAppend(b[..j], [b[j]] + b[j + 1..], f);
      SumOfAppend(b[..j], b[j + 1..], f);
      assert ([b[j]] + b[j + 1..])[1..] == b[j + 1..];
    }
  }

  lemma {:induction false} SumOfPointwise(keys: seq<nat>, f: nat -> real, g: nat -> real)
    requires forall k :: k in keys ==> f(k) == g(k)
    ensures SumOf(keys, f) == SumOf(keys, g)
  {
    if |keys| > 0 {
      assert keys[0] in keys;
      assert forall k :: k in keys[1..] ==> k in keys;
      SumOfPointwise(keys[1..], f, g);
    }
  }

  lemma {:induction false} SumOfZero(keys: seq<nat>, f: nat -> real)
    requires forall k :: k in keys ==> f(k) == 0.0
    ensures SumOf(keys, f) == 0.0
  {
    if |keys| > 0 {
      assert keys[0] in keys;
      assert forall k :: k in keys[1..] ==> k in keys;
      SumOfZero(keys[1..], f);
    }
  }

  lemma {:induction false} Occurrences(a: seq<nat>, x: nat)
    requires NoRepeats(a)
    ensures multiset(a)[x] == if x in a then 1 else 0
  {
    if |a| > 0 {
      assert a == [a[0]] + a[1..];
      assert forall i :: 0 <= i < |a| - 1 ==> a[1..][i] == a[i + 1];
      Occurrences(a[1..], x);
    }
  }

  /** Two lists of distinct keys with the same elements are permutations
      of each other. */
  lemma SameKeys(a: seq<nat>, b: seq<nat>)
    requires NoRepeats(a) && NoRepeats(b)
    requires forall x :: x in a <==> x in b
    ensures multiset(a) == multiset(b)
  {
    forall x
      ensures multiset(a)[x] == multiset(b)[x]
    {
      Occurrences(a, x);
      Occurrences(b, x);
    }
  }

  // ---------------------------------------------------------------------
  // Synapse groups

  /** One group of GroupBy over the enabled synapses: those carrying the
      innovation number, in list order. */
  function Members(synapses: seq<Synapse>, innovation: nat): seq<Synapse>
  {
    if |synapses| == 0 then []
    else
      (if synapses[0].isEnabled && synapses[0].innovation == innovation then [synapses[0]] else [])
        + Members(synapses[1..], innovation)
  }

  /** A group holds exactly the enabled synapses carrying its number. */
  lemma {:induction false} MembersAre(synapses: seq<Synapse>, innovation: nat)
    ensures forall s :: s in Members(synapses, innovation) <==>
      s in synapses && s.isEnabled && s.innovation == innovation
  {
    if |synapses| > 0 {
      assert forall s :: s in synapses <==> s == synapses[0] || s in synapses[1..];
      MembersAre(synapses[1..], innovation);
    }
  }

  lemma {:induction false} MembersAppend(a: seq<Synapse>, b: seq<Synapse>, innovation: nat)
    ensures Members(a + b, innovation) == Members(a, innovation) + Members(b, innovation)
  {
    if |a| == 0 {
      assert a + b == b;
    } else {
      assert (a + b)[0] == a[0] && (a + b)[1..] == a[1..] + b;
      MembersAppend(a[1..], b, innovation);
    }
  }

  /** The enabled synapses' innovation numbers, in list order. */
  function EnabledInnovations(synapses: seq<Synapse>): (r: seq<nat>)
    ensures forall k :: k in r <==> exists s :: s in synapses && s.isEnabled && s.innovation == k
  {
    if |synapses| == 0 then []
    else
      assert forall s :: s in synapses <==> s == synapses[0] || s in synapses[1..];
      (if synapses[0].isEnabled then [synapses[0].innovation] else []) + EnabledInnovations(synapses[1..])
  }

  /** GroupBy's keys: each enabled innovation number once, in order of
      first appearance. */
  function Keys(synapses: seq<Synapse>): (r: seq<nat>)
    ensures forall k :: k in r <==> |Members(synapses, k)| > 0
    ensures NoRepeats(r)
  {
    var r := Crossovers.Distinct(EnabledInnovations(synapses));
    assert forall k :: k in r <==> |Members(synapses, k)| > 0 by {
      forall k ensures k in r <==> |Members(synapses, k)| > 0 {
        MembersAre(synapses, k);
        if |Members(synapses, k)| > 0 {
          assert Members(synapses, k)[0] in Members(synapses, k);
        }
      }
    }
    r
  }

  /** 1 for a group of two, a matched gene. */
  function PairAt(synapses: seq<Synapse>, k: nat): real
  {
    if |Members(synapses, k)| == 2 then 1.0 else 0.0
  }

  /** A matched gene's weight gap. */
  function WeightGapAt(synapses: seq<Synapse>, k: nat): real
  {
    var m := Members(synapses, k);
    if |m| == 2 then Abs(m[0].weight - m[1].weight) else 0.0
  }

  /** 1 for a group of one inside the shared range, a disjoint gene. */
  function DisjointAt(synapses: seq<Synapse>, last: nat, k: nat): real
  {
    if |Members(synapses, k)| == 1 && k <= last then 1.0 else 0.0
  }

  /** 1 for a group of one beyond the shared range, an excess gene. */
  function ExcessAt(synapses: seq<Synapse>, last: nat, k: nat): real
  {
    if |Members(synapses, k)| == 1 && k > last then 1.0 else 0.0
  }

  function Pairs(synapses: seq<Synapse>): nat -> real
  {
    (k: nat) => PairAt(synapses, k)
  }

  function WeightGaps(synapses: seq<Synapse>): nat -> real
  {
    (k: nat) => WeightGapAt(synapses, k)
  }

  function Disjoint(synapses: seq<Synapse>, last: nat): nat -> real
  {
    (k: nat) => DisjointAt(synapses, last, k)
  }

  function Excess(synapses: seq<Synapse>, last: nat): nat -> real
  {
    (k: nat) => ExcessAt(synapses, last, k)
  }

  /** The largest innovation number among the synapses, enabled or not,
      and 0 for none (DefaultIfEmpty then Max). */
  function LastInnovation(synapses: seq<Synapse>): (r: nat)
    ensures forall s :: s in synapses ==> s.innovation <= r
    ensures |synapses| > 0 ==> exists s :: s in synapses && s.innovation == r
  {
    if |synapses| == 0 then 0
    else
      var rest := LastInnovation(synapses[1..]);
      assert forall s :: s in synapses <==> s == synapses[0] || s in synapses[1..];
      if |synapses| == 1 || synapses[0].innovation >= rest then synapses[0].innovation else rest
  }

  /** Where the shared innovation range ends: the smaller of the two
      genomes' last innovation numbers. */
  function SharedRange(g1: Genotype, g2: Genotype): nat
  {
    var a := LastInnovation(g1.synapses);
    var b := LastInnovation(g2.synapses);
    if a <= b then a else b
  }

  // ---------------------------------------------------------------------
  // Neuron groups

  /** One group of GroupBy over the neurons by id, in list order. */
  function Carriers(neurons: seq<Neuron>, id: nat): seq<Neuron>
  {
    if |neurons| == 0 then []
    else (if neurons[0].id == id then [neurons[0]] else []) + Carriers(neurons[1..], id)
  }

  /** A group holds exactly the neurons carrying its id. */
  lemma {:induction false} CarriersAre(neurons: seq<Neuron>, id: nat)
    ensures forall n :: n in Carriers(neurons, id) <==> n in neurons && n.id == id
  {
    if |neurons| > 0 {
      assert forall n :: n in neurons <==> n == neurons[0] || n in neurons[1..];
      CarriersAre(neurons[1..], id);
    }
  }

  lemma {:induction false} CarriersAppend(a: seq<Neuron>, b: seq<Neuron>, id: nat)
    ensures Carriers(a + b, id) == Carriers(a, id) + Carriers(b, id)
  {
    if |a| == 0 {
      assert a + b == b;
    } else {
      var head := if a[0].id == id then [a[0]] else [];
      assert Carriers(a + b, id) == head + Carriers(a[1..] + b, id) by {
        assert (a + b)[0] == a[0] && (a + b)[1..] == a[1..] + b;
      }
      CarriersAppend(a[1..], b, id);
      assert head + (Carriers(a[1..], id) + Carriers(b, id)) == (head + Carriers(a[1..], id)) + Carriers(b, id);
    }
  }

  lemma {:induction false} CarriersNone(neurons: seq<Neuron>, id: nat)
    requires forall n :: n in neurons ==> n.id != id
    ensures Carriers(neurons, id) == []
  {
    if |neurons| > 0 {
      assert neurons[0] in neurons;
      assert forall n :: n in neurons[1..] ==> n in neurons;
      CarriersNone(neurons[1..], id);
    }
  }

  lemma {:induction false} CarriersUnique(neurons: seq<Neuron>, id: nat)
    requires UniqueIds(neurons)
    ensures |Carriers(neurons, id)| <= 1
  {
    if |neurons| > 0 {
      var rest := neurons[1..];
      assert UniqueIds(rest) by {
        forall i, j | 0 <= i < j < |rest|
          ensures rest[i].id != rest[j].id
        {
          assert rest[i] == neurons[i + 1] && rest[j] == neurons[j + 1];
        }
      }
      CarriersUnique(rest, id);
      if neurons[0].id == id {
        forall n | n in rest
          ensures n.id != id
        {
          var i :| 0 <= i < |rest| && rest[i] == n;
          assert n == neurons[i + 1];
        }
        CarriersNone(rest, id);
      }
    }
  }

  function NeuronIds(neurons: seq<Neuron>): (r: seq<nat>)
    ensures forall id :: id in r <==> exists n :: n in neurons && n.id == id
  {
    if |neurons| == 0 then []
    else
      assert forall n :: n in neurons <==> n == neurons[0] || n in neurons[1..];
      [neurons[0].id] + NeuronIds(neurons[1..])
  }

  /** Each neuron id once, in order of first appearance. */
  function NeuronKeys(neurons: seq<Neuron>): (r: seq<nat>)
    ensures forall id :: id in r <==> |Carriers(neurons, id)| > 0
    ensures NoRepeats(r)
  {
    var r := Crossovers.Distinct(NeuronIds(neurons));
    assert forall id :: id in r <==> |Carriers(neurons, id)| > 0 by {
      forall id ensures id in r <==> |Carriers(neurons, id)| > 0 {
        CarriersAre(neurons, id);
        if |Carriers(neurons, id)| > 0 {
          assert Carriers(neurons, id)[0] in Carriers(neurons, id);
        }
      }
    }
    r
  }

  /** The first synapse of each group (activeSynapses). */
  function ActiveSynapses(synapses: seq<Synapse>): (r: seq<Synapse>)
    ensures forall s :: s in r ==> s in synapses && s.isEnabled
  {
    var keys := Keys(synapses);
    var r := seq(|keys|, i requires 0 <= i < |keys| => Members(synapses, keys[i])[0]);
    assert forall s :: s in r ==> s in synapses && s.isEnabled by {
      forall i | 0 <= i < |keys| ensures r[i] in synapses && r[i].isEnabled {
        MembersAre(synapses, keys[i]);
        assert r[i] in Members(synapses, keys[i]);
      }
    }
    r
  }

  /** Some active synapse starts or ends at the neuron. */
  predicate Touched(synapses: seq<Synapse>, id: nat)
  {
    exists s :: s in ActiveSynapses(synapses) && (s.outputNeuronId == id || s.inputNeuronId == id)
  }

  /** A neuron id carried more than once and touched by an active synapse. */
  predicate Matched(neurons: seq<Neuron>, synapses: seq<Synapse>, id: nat)
  {
    |Carriers(neurons, id)| > 1 && Touched(synapses, id)
  }

  function MatchedAt(neurons: seq<Neuron>, synapses: seq<Synapse>, id: nat): real
  {
    if Matched(neurons, synapses, id) then 1.0 else 0.0
  }

  /** 1 for a matched id whose first two carriers differ in activation
      function. */
  function MismatchAt(neurons: seq<Neuron>, synapses: seq<Synapse>, id: nat): real
  {
    var c := Carriers(neurons, id);
    if Matched(neurons, synapses, id) && c[0].activationFunction != c[1].activationFunction then 1.0 else 0.0
  }

  /** A matched id's bias gap between its first two carriers. */
  function BiasGapAt(neurons: seq<Neuron>, synapses: seq<Synapse>, id: nat): real
  {
    var c := Carriers(neurons, id);
    if Matched(neurons, synapses, id) then Abs(c[0].bias - c[1].bias) else 0.0
  }

  function MatchedIds(neurons: seq<Neuron>, synapses: seq<Synapse>): nat -> real
  {
    (id: nat) => MatchedAt(neurons, synapses, id)
  }

  function Mismatches(neurons: seq<Neuron>, synapses: seq<Synapse>): nat -> real
  {
    (id: nat) => MismatchAt(neurons, synapses, id)
  }

  function BiasGaps(neurons: seq<Neuron>, synapses: seq<Synapse>): nat -> real
  {
    (id: nat) => BiasGapAt(neurons, synapses, id)
  }

  // ---------------------------------------------------------------------
  // The distance

  /** A mean that is 0 for no items (DefaultIfEmpty(0).Average, and the
      explicit zero-count checks). */
  function Average(sum: real, count: real): real
  {
    if count == 0.0 then 0.0 else sum / count
  }

  /** The parts of the distance, before the coefficients. */
  datatype Parts = Parts(excess: real, disjoint: real, activationDiff: real, biasDiff: real, weightDiff: real)

  function DistanceParts(g1: Genotype, g2: Genotype): Parts
  {
    var all := g1.synapses + g2.synapses;
    var keys := Keys(all);
    var last := SharedRange(g1, g2);
    var neurons := g1.neurons + g2.neurons;
    var ids := NeuronKeys(neurons);
    var matched := SumOf(ids, MatchedIds(neurons, all));
    Parts(
      SumOf(keys, Excess(all, last)),
      SumOf(keys, Disjoint(all, last)),
      Average(SumOf(ids, Mismatches(neurons, all)), matched),
      Average(SumOf(ids, BiasGaps(neurons, all)), matched),
      Average(SumOf(keys, WeightGaps(all)), SumOf(keys, Pairs(all))))
  }

  /** The parts weighted by their coefficients, all but the weight gap
      divided by the normalization factor. */
  function Weighted(p: Parts, settings: SpeciesSettings): real
    requires settings.normalizationFactor != 0.0
  {
    var n := settings.normalizationFactor;
    settings.excessCoefficient * p.excess / n
      + settings.disjointCoefficient * p.disjoint / n
      + settings.activationDiffCoefficient * p.activationDiff / n
      + settings.biasDiffCoefficient * p.biasDiff / n
      + settings.weightCoefficient * p.weightDiff
  }

  /** CalcGenomesDistance. */
  function GenomesDistance(g1: Genotype, g2: Genotype, settings: SpeciesSettings): real
    requires settings.normalizationFactor != 0.0
  {
    Weighted(DistanceParts(g1, g2), settings)
  }

  // ---------------------------------------------------------------------
  // What each gene term counts

  /** The genome has an enabled synapse with this innovation number. */
  predicate EnabledIn(synapses: seq<Synapse>, k: nat)
  {
    exists s :: s in synapses && s.isEnabled && s.innovation == k
  }

  lemma {:induction false} MembersOfUnique(synapses: seq<Synapse>, k: nat)
    requires UniqueInnovations(synapses)
    ensures |Members(synapses, k)| == if EnabledIn(synapses, k) then 1 else 0
  {
    if |synapses| > 0 {
      var rest := synapses[1..];
      assert UniqueInnovations(rest) by {
        forall i, j | 0 <= i < j < |rest|
          ensures rest[i].innovation != rest[j].innovation
        {
          assert rest[i] == synapses[i + 1] && rest[j] == synapses[j + 1];
        }
      }
      MembersOfUnique(rest, k);
      assert forall s :: s in synapses <==> s == synapses[0] || s in rest;
      if synapses[0].innovation == k {
        forall s | s in rest
          ensures s.innovation != k
        {
          var i :| 0 <= i < |rest| && rest[i] == s;
          assert s == synapses[i + 1];
        }
      }
    }
  }

  /** With each innovation at most once per genome, an innovation is a
      matched gene exactly when it is enabled in both genomes, disjoint
      exactly when it is enabled in one and within the shared range, and
      excess exactly when it is enabled in one and beyond it; a matched
      gene's gap is that of its two copies' weights. */
  lemma GeneKinds(g1: Genotype, g2: Genotype, k: nat)
    requires UniqueInnovations(g1.synapses) && UniqueInnovations(g2.synapses)
    ensures var all, last := g1.synapses + g2.synapses, SharedRange(g1, g2);
      && (PairAt(all, k) == 1.0 <==> EnabledIn(g1.synapses, k) && EnabledIn(g2.synapses, k))
      && (DisjointAt(all, last, k) == 1.0 <==> EnabledIn(g1.synapses, k) != EnabledIn(g2.synapses, k) && k <= last)
      && (ExcessAt(all, last, k) == 1.0 <==> EnabledIn(g1.synapses, k) != EnabledIn(g2.synapses, k) && k > last)
      && (forall s, t ::
            (s in g1.synapses && t in g2.synapses && s.isEnabled && t.isEnabled && s.innovation == k && t.innovation == k)
            ==> WeightGapAt(all, k) == Abs(s.weight - t.weight))
  {
    var a, b := g1.synapses, g2.synapses;
    MembersAppend(a, b, k);
    MembersOfUnique(a, k);
    MembersOfUnique(b, k);
    MembersAre(a, k);
    MembersAre(b, k);
    forall s, t | s in a && t in b && s.isEnabled && t.isEnabled && s.innovation == k && t.innovation == k
      ensures WeightGapAt(a + b, k) == Abs(s.weight - t.weight)
    {
      var ma, mb := Members(a, k), Members(b, k);
      assert ma[0] in ma && mb[0] in mb;
      assert ma == [s] && mb == [t];
      assert Members(a + b, k) == [s, t];
    }
  }

  lemma CarriedOnce(neurons: seq<Neuron>, id: nat)
    requires UniqueIds(neurons)
    ensures |Carriers(neurons, id)| == if id in Ids(neurons) then 1 else 0
  {
    CarriersUnique(neurons, id);
    CarriersAre(neurons, id);
    if id in Ids(neurons) {
      var i :| 0 <= i < |neurons| && neurons[i].id == id;
      assert neurons[i] in Carriers(neurons, id);
    } else {
      CarriersNone(neurons, id);
    }
  }

  /** With unique ids per genome and coherent innovation numbers, a neuron
      id enters the activation and bias terms exactly when both genomes
      have it and an enabled synapse of either starts or ends at it. */
  lemma NeuronKinds(g1: Genotype, g2: Genotype, id: nat)
    requires UniqueIds(g1.neurons) && UniqueIds(g2.neurons)
    requires Coherent(g1.synapses + g2.synapses)
    ensures MatchedAt(g1.neurons + g2.neurons, g1.synapses + g2.synapses, id) == 1.0 <==>
      && id in Ids(g1.neurons) && id in Ids(g2.neurons)
      && exists s :: s in g1.synapses + g2.synapses && s.isEnabled && (s.outputNeuronId == id || s.inputNeuronId == id)
  {
    CarriersAppend(g1.neurons, g2.neurons, id);
    CarriedOnce(g1.neurons, id);
    CarriedOnce(g2.neurons, id);
    TouchedIff(g1.synapses + g2.synapses, id);
  }

  // ---------------------------------------------------------------------
  // Distance to itself

  /** Paired with itself, every enabled synapse forms a matched gene with
      no weight gap, so no gene is disjoint or excess. */
  lemma SelfGroups(synapses: seq<Synapse>, last: nat, k: nat)
    ensures WeightGapAt(synapses + synapses, k) == 0.0
    ensures DisjointAt(synapses + synapses, last, k) == 0.0
    ensures ExcessAt(synapses + synapses, last, k) == 0.0
  {
    MembersAppend(synapses, synapses, k);
    var m := Members(synapses, k);
    if |m| == 1 {
      assert (m + m)[0] == (m + m)[1];
    }
  }

  /** With unique ids, each id is carried twice by the same neuron. */
  lemma SelfNeurons(neurons: seq<Neuron>, synapses: seq<Synapse>, id: nat)
    requires UniqueIds(neurons)
    ensures MismatchAt(neurons + neurons, synapses, id) == 0.0
    ensures BiasGapAt(neurons + neurons, synapses, id) == 0.0
  {
    CarriersAppend(neurons, neurons, id);
    CarriersUnique(neurons, id);
    var c := Carriers(neurons, id);
    if |c| == 1 {
      assert (c + c)[0] == (c + c)[1];
    }
  }

  /** A genome with unique neuron ids is at distance 0 from itself. */
  lemma DistanceToSelf(g: Genotype, settings: SpeciesSettings)
    requires settings.normalizationFactor != 0.0
    requires UniqueIds(g.neurons)
    ensures GenomesDistance(g, g, settings) == 0.0
  {
    var all := g.synapses + g.synapses;
    var keys := Keys(all);
    var last := SharedRange(g, g);
    forall k | k in keys
      ensures WeightGaps(all)(k) == 0.0 && Disjoint(all, last)(k) == 0.0 && Excess(all, last)(k) == 0.0
    {
      SelfGroups(g.synapses, last, k);
    }
    SumOfZero(keys, WeightGaps(all));
    SumOfZero(keys, Disjoint(all, last));
    SumOfZero(keys, Excess(all, last));
    var neurons := g.neurons + g.neurons;
    var ids := NeuronKeys(neurons);
    forall id | id in ids
      ensures Mismatches(neurons, all)(id) == 0.0 && BiasGaps(neurons, all)(id) == 0.0
    {
      SelfNeurons(g.neurons, all, id);
    }
    SumOfZero(ids, Mismatches(neurons, all));
    SumOfZero(ids, BiasGaps(neurons, all));
  }

  // ---------------------------------------------------------------------
  // Symmetry

  /** Every synapse carrying an innovation number joins the same two
      neurons, as when both genomes draw their numbers from one registry. */
  predicate Coherent(synapses: seq<Synapse>)
  {
    forall s, t :: s in synapses && t in synapses && s.innovation == t.innovation ==>
      s.inputNeuronId == t.inputNeuronId && s.outputNeuronId == t.outputNeuronId
  }

  /** Under coherence, a neuron is touched exactly when some enabled
      synapse starts or ends at it. */
  lemma TouchedIff(synapses: seq<Synapse>, id: nat)
    requires Coherent(synapses)
    ensures Touched(synapses, id) <==>
      exists s :: s in synapses && s.isEnabled && (s.outputNeuronId == id || s.inputNeuronId == id)
  {
    var keys := Keys(synapses);
    var active := ActiveSynapses(synapses);
    if s :| s in synapses && s.isEnabled && (s.outputNeuronId == id || s.inputNeuronId == id) {
      MembersAre(synapses, s.innovation);
      assert s in Members(synapses, s.innovation);
      var i :| 0 <= i < |keys| && keys[i] == s.innovation;
      var t := active[i];
      assert t == Members(synapses, s.innovation)[0];
      assert t in Members(synapses, s.innovation);
      assert t.outputNeuronId == id || t.inputNeuronId == id;
    }
  }

  /** Swapping the genomes swaps the two halves of each group. */
  lemma SwappedGroups(a: seq<Synapse>, b: seq<Synapse>, last: nat, k: nat)
    ensures PairAt(a + b, k) == PairAt(b + a, k)
    ensures WeightGapAt(a + b, k) == WeightGapAt(b + a, k)
    ensures DisjointAt(a + b, last, k) == DisjointAt(b + a, last, k)
    ensures ExcessAt(a + b, last, k) == ExcessAt(b + a, last, k)
  {
    MembersAppend(a, b, k);
    MembersAppend(b, a, k);
    var ma, mb := Members(a, k), Members(b, k);
    if |ma| + |mb| == 2 {
      if |ma| == 0 {
        assert ma + mb == mb + ma;
      } else if |mb| == 0 {
        assert ma + mb == mb + ma;
      } else {
        assert (ma + mb)[0] == (mb + ma)[1] && (ma + mb)[1] == (mb + ma)[0];
      }
    }
  }

  /** Swapping the genomes swaps the carriers of an id; with unique ids per
      genome a matched id has one carrier in each. */
  lemma SwappedCarriers(n1: seq<Neuron>, n2: seq<Neuron>, id: nat)
    requires UniqueIds(n1) && UniqueIds(n2)
    ensures |Carriers(n1 + n2, id)| == |Carriers(n2 + n1, id)| <= 2
    ensures |Carriers(n1 + n2, id)| == 2 ==>
      Carriers(n1 + n2, id)[0] == Carriers(n2 + n1, id)[1] && Carriers(n1 + n2, id)[1] == Carriers(n2 + n1, id)[0]
  {
    CarriersAppend(n1, n2, id);
    CarriersAppend(n2, n1, id);
    CarriersUnique(n1, id);
    CarriersUnique(n2, id);
  }

  lemma SwappedNeurons(n1: seq<Neuron>, n2: seq<Neuron>, a: seq<Synapse>, b: seq<Synapse>, id: nat)
    requires UniqueIds(n1) && UniqueIds(n2) && Coherent(a + b)
    ensures MatchedAt(n1 + n2, a + b, id) == MatchedAt(n2 + n1, b + a, id)
    ensures MismatchAt(n1 + n2, a + b, id) == MismatchAt(n2 + n1, b + a, id)
    ensures BiasGapAt(n1 + n2, a + b, id) == BiasGapAt(n2 + n1, b + a, id)
  {
    SwappedCarriers(n1, n2, id);
    assert forall s :: s in a + b <==> s in b + a;
    assert Coherent(b + a);
    TouchedIff(a + b, id);
    TouchedIff(b + a, id);
    assert Touched(a + b, id) == Touched(b + a, id);
    var c, d := Carriers(n1 + n2, id), Carriers(n2 + n1, id);
    if |c| == 2 {
      assert c[0].activationFunction != c[1].activationFunction <==> d[0].activationFunction != d[1].activationFunction;
      assert Abs(c[0].bias - c[1].bias) == Abs(d[0].bias - d[1].bias);
    }
  }

  /** Sums over two orderings of the same keys agree when the summands
      agree on every key. */
  lemma SumOfRelabel(a: seq<nat>, b: seq<nat>, f: nat -> real, g: nat -> real)
    requires multiset(a) == multiset(b)
    requires forall k :: k in b ==> f(k) == g(k)
    ensures SumOf(a, f) == SumOf(b, g)
  {
    SumOfPermutation(a, b, f);
    SumOfPointwise(b, f, g);
  }

  lemma SwappedKeys(a: seq<Synapse>, b: seq<Synapse>)
    ensures multiset(Keys(a + b)) == multiset(Keys(b + a))
  {
    forall k
      ensures |Members(a + b, k)| == |Members(b + a, k)|
    {
      MembersAppend(a, b, k);
      MembersAppend(b, a, k);
    }
    SameKeys(Keys(a + b), Keys(b + a));
  }

  lemma SwappedNeuronKeys(n1: seq<Neuron>, n2: seq<Neuron>)
    ensures multiset(NeuronKeys(n1 + n2)) == multiset(NeuronKeys(n2 + n1))
  {
    forall id
      ensures |Carriers(n1 + n2, id)| == |Carriers(n2 + n1, id)|
    {
      CarriersAppend(n1, n2, id);
      CarriersAppend(n2, n1, id);
    }
    SameKeys(NeuronKeys(n1 + n2), NeuronKeys(n2 + n1));
  }

  /** The gene counts and the weight gaps do not depend on which genome
      comes first. */
  lemma SwappedGeneSums(a: seq<Synapse>, b: seq<Synapse>, last: nat)
    ensures SumOf(Keys(a + b), Pairs(a + b)) == SumOf(Keys(b + a), Pairs(b + a))
    ensures SumOf(Keys(a + b), WeightGaps(a + b)) == SumOf(Keys(b + a), WeightGaps(b + a))
    ensures SumOf(Keys(a + b), Disjoint(a + b, last)) == SumOf(Keys(b + a), Disjoint(b + a, last))
    ensures SumOf(Keys(a + b), Excess(a + b, last)) == SumOf(Keys(b + a), Excess(b + a, last))
  {
    var keys12, keys21 := Keys(a + b), Keys(b + a);
    SwappedKeys(a, b);
    forall k | k in keys21
      ensures Pairs(a + b)(k) == Pairs(b + a)(k)
      ensures WeightGaps(a + b)(k) == WeightGaps(b + a)(k)
      ensures Disjoint(a + b, last)(k) == Disjoint(b + a, last)(k)
      ensures Excess(a + b, last)(k) == Excess(b + a, last)(k)
    {
      SwappedGroups(a, b, last, k);
    }
    SumOfRelabel(keys12, keys21, Pairs(a + b), Pairs(b + a));
    SumOfRelabel(keys12, keys21, WeightGaps(a + b), WeightGaps(b + a));
    SumOfRelabel(keys12, keys21, Disjoint(a + b, last), Disjoint(b + a, last));
    SumOfRelabel(keys12, keys21, Excess(a + b, last), Excess(b + a, last));
  }

  /** The matched-neuron count, mismatches and bias gaps do not depend on
      which genome comes first. */
  lemma SwappedNeuronSums(n1: seq<Neuron>, n2: seq<Neuron>, a: seq<Synapse>, b: seq<Synapse>)
    requires UniqueIds(n1) && UniqueIds(n2) && Coherent(a + b)
    ensures SumOf(NeuronKeys(n1 + n2), MatchedIds(n1 + n2, a + b)) == SumOf(NeuronKeys(n2 + n1), MatchedIds(n2 + n1, b + a))
    ensures SumOf(NeuronKeys(n1 + n2), Mismatches(n1 + n2, a + b)) == SumOf(NeuronKeys(n2 + n1), Mismatches(n2 + n1, b + a))
    ensures SumOf(NeuronKeys(n1 + n2), BiasGaps(n1 + n2, a + b)) == SumOf(NeuronKeys(n2 + n1), BiasGaps(n2 + n1, b + a))
  {
    var ids12, ids21 := NeuronKeys(n1 + n2), NeuronKeys(n2 + n1);
    SwappedNeuronKeys(n1, n2);
    forall id | id in ids21
      ensures MatchedIds(n1 + n2, a + b)(id) == MatchedIds(n2 + n1, b + a)(id)
      ensures Mismatches(n1 + n2, a + b)(id) == Mismatches(n2 + n1, b + a)(id)
      ensures BiasGaps(n1 + n2, a + b)(id) == BiasGaps(n2 + n1, b + a)(id)
    {
      SwappedNeurons(n1, n2, a, b, id);
    }
    SumOfRelabel(ids12, ids21, MatchedIds(n1 + n2, a + b), MatchedIds(n2 + n1, b + a));
    SumOfRelabel(ids12, ids21, Mismatches(n1 + n2, a + b), Mismatches(n2 + n1, b + a));
    SumOfRelabel(ids12, ids21, BiasGaps(n1 + n2, a + b), BiasGaps(n2 + n1, b + a));
  }

  /** The distance is symmetric for genomes with unique neuron ids whose
      synapses agree on what each innovation number joins. */
  lemma DistanceSymmetric(g1: Genotype, g2: Genotype, settings: SpeciesSettings)
    requires settings.normalizationFactor != 0.0
    requires UniqueIds(g1.neurons) && UniqueIds(g2.neurons)
    requires Coherent(g1.synapses + g2.synapses)
    ensures GenomesDistance(g1, g2, settings) == GenomesDistance(g2, g1, settings)
  {
    assert SharedRange(g1, g2) == SharedRange(g2, g1);
    SwappedGeneSums(g1.synapses, g2.synapses, SharedRange(g1, g2));
    SwappedNeuronSums(g1.neurons, g2.neurons, g1.synapses, g2.synapses);
    assert DistanceParts(g1, g2) == DistanceParts(g2, g1);
  }
}
