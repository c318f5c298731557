/** The innovation registry of src/Neat.Core/Genomes/GenomesContext.cs: a
    dictionary from innovation number to the (input, output) neuron pair it
    was first given to, filled by Rebuild and extended by GetInnovation. */
module GenomesContexts {
  import opened Wrappers
  import opened Genomes

  /** The (input neuron, output neuron) pair an innovation stands for. */
  type Innovation = (nat, nat)

  /** No pair is registered under two numbers. */
  ghost predicate Injective(m: map<nat, Innovation>)
  {
    forall k1, k2 :: k1 in m && k2 in m && m[k1] == m[k2] ==> k1 == k2
  }

  /** `after` keeps every entry of `before`. */
  ghost predicate Extends(before: map<nat, Innovation>, after: map<nat, Innovation>)
  {
    forall k :: k in before ==> k in after && after[k] == before[k]
  }

  ghost predicate Registered(m: map<nat, Innovation>, pair: Innovation)
  {
    exists k :: k in m && m[k] == pair
  }

  /** The number a new pair receives: 0 on an empty map, otherwise one more
      than the largest key. */
  ghost function NextInnovation(m: map<nat, Innovation>): (r: nat)
    ensures forall k :: k in m ==> k < r
    ensures r == 0 <==> m == map[]
    ensures r > 0 ==> r - 1 in m
  {
    if m == map[] then 0 else MaxOf(m.Keys) + 1
  }

  ghost function MaxOf(s: set<nat>): (r: nat)
    requires s != {}
    ensures r in s && forall k :: k in s ==> k <= r
  {
    var x :| x in s;
    if s == {x} then x
    else
      var rest := MaxOf(s - {x});
      assert forall k :: k in s ==> k == x || k in s - {x};
      if x < rest then rest else x
  }

  /** Every synapse of every genome, genome after genome. */
  function AllSynapses(genomes: seq<Genotype>): seq<Synapse>
  {
    if |genomes| == 0 then []
    else AllSynapses(genomes[..|genomes| - 1]) + genomes[|genomes| - 1].synapses
  }

  /** The dictionary Rebuild fills from a list of synapses: each synapse
      whose number is not yet a key adds its pair. */
  function Registry(synapses: seq<Synapse>): map<nat, Innovation>
  {
    if |synapses| == 0 then map[]
    else
      var m := Registry(synapses[..|synapses| - 1]);
      var s := synapses[|synapses| - 1];
      if s.innovation in m then m else m[s.innovation := (s.inputNeuronId, s.outputNeuronId)]
  }

  /** A number is a key of the registry exactly when some synapse carries it,
      and its pair is the one of the first synapse that carries it. */
  lemma {:induction false} RegistryFirstOccurrence(synapses: seq<Synapse>, k: nat)
    ensures k in Registry(synapses) <==> exists i :: 0 <= i < |synapses| && synapses[i].innovation == k
    ensures k in Registry(synapses) ==>
      exists i :: 0 <= i < |synapses| && synapses[i].innovation == k
        && (forall j :: 0 <= j < i ==> synapses[j].innovation != k)
        && Registry(synapses)[k] == (synapses[i].inputNeuronId, synapses[i].outputNeuronId)
  {
    if |synapses| > 0 {
      var init := synapses[..|synapses| - 1];
      RegistryFirstOccurrence(init, k);
      if k in Registry(init) {
        var i :| 0 <= i < |init| && init[i].innovation == k
          && (forall j :: 0 <= j < i ==> init[j].innovation != k)
          && Registry(init)[k] == (init[i].inputNeuronId, init[i].outputNeuronId);
        assert synapses[i] == init[i];
      } else if synapses[|synapses| - 1].innovation == k {
        assert forall j :: 0 <= j < |synapses| - 1 ==> synapses[j] == init[j];
      } else {
        assert forall j :: 0 <= j < |synapses| - 1 ==> synapses[j] == init[j];
      }
    }
  }

  lemma RegistryStep(synapses: seq<Synapse>, s: Synapse)
    ensures Registry(synapses + [s]) == (if s.innovation in Registry(synapses) then Registry(synapses)
      else Registry(synapses)[s.innovation := (s.inputNeuronId, s.outputNeuronId)])
  {
    assert (synapses + [s])[..|synapses|] == synapses;
  }

  class GenomesContext {
    var innovations: map<nat, Innovation>
    var isInitialized: bool

    constructor()
      ensures innovations == map[] && !isInitialized
    {
      innovations := map[];
      isInitialized := false;
    }

    /** GetInnovation: fails before the first Rebuild; returns a number the
        pair is registered under, allocating the next number for a new pair. */
    method GetInnovation(inputNeuronId: nat, outputNeuronId: nat) returns (r: Result<nat>)
      modifies this
      ensures isInitialized == old(isInitialized)
      ensures !isInitialized ==>
        (r == Failure(InvalidOperation("Neat context is not initialized")) && innovations == old(innovations))
      ensures isInitialized ==>
        (r.Success? && r.value in innovations && innovations[r.value] == (inputNeuronId, outputNeuronId))
      ensures isInitialized && Registered(old(innovations), (inputNeuronId, outputNeuronId)) ==>
        innovations == old(innovations)
      ensures isInitialized && !Registered(old(innovations), (inputNeuronId, outputNeuronId)) ==>
        (r.value == NextInnovation(old(innovations))
         && innovations == old(innovations)[r.value := (inputNeuronId, outputNeuronId)])
      ensures Extends(old(innovations), innovations)
      ensures Injective(old(innovations)) ==> Injective(innovations)
      ensures isInitialized && Injective(old(innovations)) ==>
        forall k :: k in old(innovations) && old(innovations)[k] == (inputNeuronId, outputNeuronId) ==> r.value == k
    {
      if !isInitialized {
        return Failure(InvalidOperation("Neat context is not initialized"));
      }
      var pair := (inputNeuronId, outputNeuronId);
      if k :| k in innovations && innovations[k] == pair {
        return Success(k);
      }
      var next := 0;
      var keys := innovations.Keys;
      var remaining := keys;
      ghost var done: set<nat> := {};
      while remaining != {}
        invariant done + remaining == keys
        invariant forall k :: k in done ==> k < next
        invariant next == 0 || next - 1 in done
      {
        var k :| k in remaining;
        if next <= k {
          next := k + 1;
        }
        remaining := remaining - {k};
        done := done + {k};
      }
      assert next == NextInnovation(innovations) by {
        if innovations != map[] {
          assert next > 0 by {
            var k :| k in innovations;
            assert k < next;
          }
          var top := MaxOf(innovations.Keys);
          assert next - 1 <= top && top < next;
        }
      }
      innovations := innovations[next := pair];
      r := Success(next);
    }

    /** Rebuild: clears the dictionary, records every synapse whose number is
        not yet a key, genome after genome, and marks the context initialized. */
    method Rebuild(genomes: seq<Genotype>)
      modifies this
      ensures isInitialized
      ensures innovations == Registry(AllSynapses(genomes))
    {
      innovations := map[];
      for i := 0 to |genomes|
        invariant innovations == Registry(AllSynapses(genomes[..i]))
      {
        var synapses := genomes[i].synapses;
        ghost var before := AllSynapses(genomes[..i]);
        assert before + synapses[..0] == before;
        for j := 0 to |synapses|
          invariant innovations == Registry(before + synapses[..j])
        {
          var synapse := synapses[j];
          assert before + synapses[..j + 1] == (before + synapses[..j]) + [synapse];
          RegistryStep(before + synapses[..j], synapse);
          if synapse.innovation !in innovations {
            innovations := innovations[synapse.innovation := (synapse.inputNeuronId, synapse.outputNeuronId)];
          }
        }
        assert genomes[..i + 1][..i] == genomes[..i];
        assert synapses[..|synapses|] == synapses;
        assert AllSynapses(genomes[..i + 1]) == before + synapses;
      }
      assert genomes[..|genomes|] == genomes;
      isInitialized := true;
    }
  }
}
