/** The executor of src/Neat.Core/Phenotypes/PhenotypeRunner.cs: it finds
    the Bias, Input and Output slots of a phenotype once, and each Run seeds
    a fresh activation buffer, recalls the remembered recurrent values, runs
    the plan in order and reads the Output slots back. */
module PhenotypeRunners {
  import opened Wrappers
  import opened Genomes
  import opened PhenotypeBuilder

  // ---------------------------------------------------------------------
  // FindIndexes

  /** The positions, from `start` on, of the neurons of one type, in order. */
  function IndexesFrom(neurons: seq<Neuron>, kind: NeuronType, start: nat): (r: seq<nat>)
    requires start <= |neurons|
    ensures forall k :: 0 <= k < |r| ==> start <= r[k] < |neurons| && neurons[r[k]].kind == kind
    ensures forall k, l :: 0 <= k < l < |r| ==> r[k] < r[l]
    ensures forall i :: start <= i < |neurons| && neurons[i].kind == kind ==> i in r
    decreases |neurons| - start
  {
    if start == |neurons| then []
    else
      var rest := IndexesFrom(neurons, kind, start + 1);
      if neurons[start].kind == kind then
        var r := [start] + rest;
        assert forall k :: 1 <= k < |r| ==> r[k] == rest[k - 1];
        r
      else rest
  }

  /** FindIndexes: the positions of the neurons of one type, ascending. */
  function IndexesOf(neurons: seq<Neuron>, kind: NeuronType): (r: seq<nat>)
    ensures forall k :: 0 <= k < |r| ==> r[k] < |neurons| && neurons[r[k]].kind == kind
    ensures forall k, l :: 0 <= k < l < |r| ==> r[k] < r[l]
    ensures forall i :: 0 <= i < |neurons| && neurons[i].kind == kind ==> i in r
  {
    IndexesFrom(neurons, kind, 0)
  }

  /** A phenotype whose plan and memory fit its neuron list. */
  predicate Wellformed(p: Phenotype)
  {
    p.memory.Length == |p.genome.neurons| && PlanWithin(p.genome, p.executionPlan)
  }

  /** What Build produces is well formed. */
  lemma BuiltWellformed(p: Phenotype, genome: Genotype)
    requires Built(p, genome)
    ensures Wellformed(p)
  {
    BuiltPlanWithin(genome);
  }

  // ---------------------------------------------------------------------
  // What one Run computes

  /** Activation and memory buffers. */
  datatype State = State(activations: seq<real>, memory: seq<Option<real>>)

  /** The input writes of Run, applied in order. */
  function WriteInputs(base: seq<real>, slots: seq<nat>, values: seq<real>): (r: seq<real>)
    requires |slots| == |values|
    requires forall k :: 0 <= k < |slots| ==> slots[k] < |base|
    ensures |r| == |base|
  {
    if |slots| == 0 then base
    else
      var n := |slots| - 1;
      WriteInputs(base, slots[..n], values[..n])[slots[n] := values[n]]
  }

  /** The buffer Run starts the plan from, before memory is recalled: zero,
      one at the Bias slot, the inputs at the Input slots. */
  function Seeded(size: nat, bias: Option<nat>, slots: seq<nat>, inputs: seq<real>): (r: seq<real>)
    requires |slots| == |inputs|
    requires forall k :: 0 <= k < |slots| ==> slots[k] < size
    requires bias.Some? ==> bias.value < size
    ensures |r| == size
  {
    var zeros := seq(size, _ => 0.0);
    WriteInputs(if bias.Some? then zeros[bias.value := 1.0] else zeros, slots, inputs)
  }

  /** Every remembered value replaces its activation. */
  function Recalled(activations: seq<real>, memory: seq<Option<real>>): (r: seq<real>)
    requires |memory| == |activations|
    ensures |r| == |activations|
    ensures forall i :: 0 <= i < |r| ==> r[i] == (if memory[i].Some? then memory[i].value else activations[i])
  {
    seq(|activations|, i requires 0 <= i < |activations| =>
      if memory[i].Some? then memory[i].value else activations[i])
  }

  function Nones(size: nat): (r: seq<Option<real>>)
    ensures |r| == size && forall i :: 0 <= i < size ==> r[i] == None
  {
    seq(size, _ => None)
  }

  predicate Reads(activations: seq<real>, deps: seq<ExecutionDependency>)
  {
    forall k :: 0 <= k < |deps| ==> deps[k].activationIndex < |activations|
  }

  /** The Select/Sum of Run: the weighted sum of the activations read. */
  function WeightedSum(activations: seq<real>, deps: seq<ExecutionDependency>): real
    requires Reads(activations, deps)
  {
    if |deps| == 0 then 0.0
    else activations[deps[0].activationIndex] * deps[0].weight + WeightedSum(activations, deps[1..])
  }

  /** One plan item: the activation function applied to the weighted sum and
      the target's bias, written to memory for a recurrent item and to the
      activations otherwise. */
  function Step(g: Genotype, s: State, item: ExecutionItem, apply: (string, real, real) -> real): (r: State)
    requires |s.activations| == |g.neurons| == |s.memory|
    requires item.targetNeuronIndex < |g.neurons| && Reads(s.activations, item.dependencies)
    ensures |r.activations| == |g.neurons| == |r.memory|
  {
    var t := item.targetNeuronIndex;
    var value := apply(item.activationFunction, WeightedSum(s.activations, item.dependencies), g.neurons[t].bias);
    if item.isRecurrent then State(s.activations, s.memory[t := Some(value)])
    else State(s.activations[t := value], s.memory)
  }

  /** The plan items, run in order. */
  function Execute(g: Genotype, plan: seq<ExecutionItem>, s: State, apply: (string, real, real) -> real): (r: State)
    requires |s.activations| == |g.neurons| == |s.memory|
    requires PlanWithin(g, plan)
    ensures |r.activations| == |g.neurons| == |r.memory|
  {
    if |plan| == 0 then s
    else Execute(g, plan[1..], Step(g, s, plan[0], apply), apply)
  }

  /** The slots the recurrent items write to memory. */
  function RecurrentTargets(plan: seq<ExecutionItem>): set<nat>
  {
    set k | 0 <= k < |plan| && plan[k].isRecurrent :: plan[k].targetNeuronIndex
  }

  /** The slots the other items write to the activations. */
  function ComputedTargets(plan: seq<ExecutionItem>): set<nat>
  {
    set k | 0 <= k < |plan| && !plan[k].isRecurrent :: plan[k].targetNeuronIndex
  }

  /** Running the plan fills memory exactly at the recurrent targets (and
      wherever it was already filled), and leaves every activation that no
      non-recurrent item computes as it was. */
  lemma {:induction false} ExecuteWrites(g: Genotype, plan: seq<ExecutionItem>, s: State, apply: (string, real, real) -> real)
    requires |s.activations| == |g.neurons| == |s.memory|
    requires PlanWithin(g, plan)
    ensures forall i :: 0 <= i < |g.neurons| ==>
      (Execute(g, plan, s, apply).memory[i].Some? <==> s.memory[i].Some? || i in RecurrentTargets(plan))
    ensures forall i :: 0 <= i < |g.neurons| && i !in ComputedTargets(plan) ==>
      Execute(g, plan, s, apply).activations[i] == s.activations[i]
  {
    if |plan| > 0 {
      var next := Step(g, s, plan[0], apply);
      ExecuteWrites(g, plan[1..], next, apply);
      assert forall k :: 1 <= k < |plan| ==> plan[k] == plan[1..][k - 1];
      assert RecurrentTargets(plan) == RecurrentTargets(plan[1..])
        + (if plan[0].isRecurrent then {plan[0].targetNeuronIndex} else {}) by {
        forall i | i in RecurrentTargets(plan)
          ensures i in RecurrentTargets(plan[1..]) || (plan[0].isRecurrent && i == plan[0].targetNeuronIndex)
        {
          var k :| 0 <= k < |plan| && plan[k].isRecurrent && plan[k].targetNeuronIndex == i;
          if k > 0 {
            assert plan[1..][k - 1] == plan[k];
          }
        }
      }
      assert ComputedTargets(plan[1..]) <= ComputedTargets(plan) by {
        forall i | i in ComputedTargets(plan[1..])
          ensures i in ComputedTargets(plan)
        {
          var k :| 0 <= k < |plan[1..]| && !plan[1..][k].isRecurrent && plan[1..][k].targetNeuronIndex == i;
          assert plan[k + 1] == plan[1..][k];
        }
      }
      assert !plan[0].isRecurrent ==> plan[0].targetNeuronIndex in ComputedTargets(plan);
    }
  }

  /** The buffers after one Run of `plan` from remembered values `memory`. */
  function RunState(g: Genotype, plan: seq<ExecutionItem>, bias: Option<nat>, slots: seq<nat>,
                    inputs: seq<real>, memory: seq<Option<real>>, apply: (string, real, real) -> real): (r: State)
    requires |slots| == |inputs| && |memory| == |g.neurons|
    requires forall k :: 0 <= k < |slots| ==> slots[k] < |g.neurons|
    requires bias.Some? ==> bias.value < |g.neurons|
    requires PlanWithin(g, plan)
    ensures |r.activations| == |g.neurons| == |r.memory|
  {
    var seeded := Seeded(|g.neurons|, bias, slots, inputs);
    Execute(g, plan, State(Recalled(seeded, memory), Nones(|g.neurons|)), apply)
  }

  /** After a Run, memory holds a value exactly at the targets of the
      recurrent items. */
  lemma RunMemory(g: Genotype, plan: seq<ExecutionItem>, bias: Option<nat>, slots: seq<nat>,
                  inputs: seq<real>, memory: seq<Option<real>>, apply: (string, real, real) -> real)
    requires |slots| == |inputs| && |memory| == |g.neurons|
    requires forall k :: 0 <= k < |slots| ==> slots[k] < |g.neurons|
    requires bias.Some? ==> bias.value < |g.neurons|
    requires PlanWithin(g, plan)
    ensures forall i :: 0 <= i < |g.neurons| ==>
      (RunState(g, plan, bias, slots, inputs, memory, apply).memory[i].Some? <==> i in RecurrentTargets(plan))
  {
    var seeded := Seeded(|g.neurons|, bias, slots, inputs);
    ExecuteWrites(g, plan, State(Recalled(seeded, memory), Nones(|g.neurons|)), apply);
  }

  /** Written in distinct slots, each input lands in its own slot and every
      other slot keeps the base value. */
  lemma {:induction false} WriteInputsSlots(base: seq<real>, slots: seq<nat>, values: seq<real>)
    requires |slots| == |values|
    requires forall k :: 0 <= k < |slots| ==> slots[k] < |base|
    requires forall k, l :: 0 <= k < l < |slots| ==> slots[k] != slots[l]
    ensures forall k :: 0 <= k < |slots| ==> WriteInputs(base, slots, values)[slots[k]] == values[k]
    ensures forall i :: 0 <= i < |base| && i !in slots ==> WriteInputs(base, slots, values)[i] == base[i]
  {
    if |slots| > 0 {
      var n := |slots| - 1;
      WriteInputsSlots(base, slots[..n], values[..n]);
      forall k | 0 <= k < n
        ensures WriteInputs(base, slots, values)[slots[k]] == values[k]
      {
        assert slots[..n][k] == slots[k];
      }
      forall i | 0 <= i < |base| && i !in slots
        ensures WriteInputs(base, slots, values)[i] == base[i]
      {
        assert i !in slots[..n];
      }
    }
  }

  /** When no plan item computes them and memory holds nothing for them, the
      Input slots end a Run holding the inputs and the Bias slot holding 1. */
  lemma RunSeesInputs(g: Genotype, plan: seq<ExecutionItem>, bias: Option<nat>, slots: seq<nat>,
                      inputs: seq<real>, memory: seq<Option<real>>, apply: (string, real, real) -> real)
    requires |slots| == |inputs| && |memory| == |g.neurons|
    requires forall k :: 0 <= k < |slots| ==> slots[k] < |g.neurons|
    requires forall k, l :: 0 <= k < l < |slots| ==> slots[k] != slots[l]
    requires bias.Some? ==> bias.value < |g.neurons| && bias.value !in slots
    requires PlanWithin(g, plan)
    requires forall k :: 0 <= k < |slots| ==> slots[k] !in ComputedTargets(plan) && memory[slots[k]] == None
    requires bias.Some? ==> bias.value !in ComputedTargets(plan) && memory[bias.value] == None
    ensures forall k :: 0 <= k < |slots| ==>
      RunState(g, plan, bias, slots, inputs, memory, apply).activations[slots[k]] == inputs[k]
    ensures bias.Some? ==> RunState(g, plan, bias, slots, inputs, memory, apply).activations[bias.value] == 1.0
  {
    var zeros := seq(|g.neurons|, _ => 0.0);
    var base := if bias.Some? then zeros[bias.value := 1.0] else zeros;
    WriteInputsSlots(base, slots, inputs);
    var seeded := Seeded(|g.neurons|, bias, slots, inputs);
    ExecuteWrites(g, plan, State(Recalled(seeded, memory), Nones(|g.neurons|)), apply);
  }

  /** ToDictionary: pairs keys with values; a repeated key throws. */
  function ToDictionary<K(==), V>(keys: seq<K>, values: seq<V>): (r: Result<map<K, V>>)
    requires |keys| == |values|
    ensures r.Failure? <==> exists k, l :: 0 <= k < l < |keys| && keys[k] == keys[l]
    ensures r.Success? ==> r.value.Keys == set k | 0 <= k < |keys| :: keys[k]
    ensures r.Success? ==> forall k :: 0 <= k < |keys| ==> r.value[keys[k]] == values[k]
  {
    if |keys| == 0 then Success(map[])
    else
      var n := |keys| - 1;
      match ToDictionary(keys[..n], values[..n])
      case Failure(e) =>
        assert exists k, l :: 0 <= k < l < |keys| && keys[k] == keys[l] by {
          var k, l :| 0 <= k < l < n && keys[..n][k] == keys[..n][l];
          assert keys[k] == keys[l];
        }
        Failure(e)
      case Success(m) =>
        if keys[n] in m then
          assert exists k, l :: 0 <= k < l < |keys| && keys[k] == keys[l] by {
            var k :| 0 <= k < n && keys[..n][k] == keys[n];
          }
          Failure(Argument("An item with the same key has already been added"))
        else
          var r := m[keys[n] := values[n]];
          assert forall k, l :: 0 <= k < l < |keys| ==> keys[k] != keys[l] by {
            forall k, l | 0 <= k < l < |keys|
              ensures keys[k] != keys[l]
            {
              if l == n {
                assert keys[..n][k] in m;
              } else {
                assert keys[..n][k] == keys[k] && keys[..n][l] == keys[l];
              }
            }
          }
          assert r.Keys == set k | 0 <= k < |keys| :: keys[k] by {
            forall x | x in r.Keys
              ensures exists k :: 0 <= k < |keys| && keys[k] == x
            {
              if x != keys[n] {
                var k :| 0 <= k < n && keys[..n][k] == x;
              }
            }
            forall k | 0 <= k < |keys|
              ensures keys[k] in r.Keys
            {
              if k < n {
                assert keys[..n][k] in m;
              }
            }
          }
          assert forall k :: 0 <= k < |keys| ==> r[keys[k]] == values[k] by {
            forall k | 0 <= k < |keys|
              ensures r[keys[k]] == values[k]
            {
              if k < n {
                assert keys[..n][k] == keys[k] && values[..n][k] == values[k];
              }
            }
          }
          Success(r)
  }

  /** The result of Run: each Output neuron to its activation. */
  function OutputMap(neurons: seq<Neuron>, activations: seq<real>, slots: seq<nat>): (r: Result<map<Neuron, real>>)
    requires |activations| == |neurons|
    requires forall k :: 0 <= k < |slots| ==> slots[k] < |neurons|
  {
    ToDictionary(seq(|slots|, k requires 0 <= k < |slots| => neurons[slots[k]]),
                 seq(|slots|, k requires 0 <= k < |slots| => activations[slots[k]]))
  }

  function OutputKeys(g: Genotype): (r: seq<Neuron>)
  {
    var slots := IndexesOf(g.neurons, Output);
    seq(|slots|, k requires 0 <= k < |slots| => g.neurons[slots[k]])
  }

  lemma OutputMapFailureHasDuplicate(g: Genotype, activations: seq<real>)
    requires |activations| == |g.neurons|
    requires OutputMap(g.neurons, activations, IndexesOf(g.neurons, Output)).Failure?
    ensures exists i, j :: 0 <= i < j < |g.neurons| && g.neurons[i].kind == Output && g.neurons[i] == g.neurons[j]
  {
    var slots := IndexesOf(g.neurons, Output);
    var keys := OutputKeys(g);
    var k, l :| 0 <= k < l < |keys| && keys[k] == keys[l];
    assert g.neurons[slots[k]] == g.neurons[slots[l]] && slots[k] < slots[l];
  }

  lemma OutputMapSuccessDistinct(g: Genotype, activations: seq<real>, i: nat, j: nat)
    requires |activations| == |g.neurons|
    requires OutputMap(g.neurons, activations, IndexesOf(g.neurons, Output)).Success?
    requires i < j < |g.neurons| && g.neurons[i].kind == Output
    ensures g.neurons[i] != g.neurons[j]
  {
    var slots := IndexesOf(g.neurons, Output);
    var keys := OutputKeys(g);
    var k :| 0 <= k < |slots| && slots[k] == i;
    if g.neurons[j].kind == Output {
      var l :| 0 <= l < |slots| && slots[l] == j;
      assert k < l;
      assert keys[k] != keys[l];
    }
  }

  /** Run fails on its answer exactly when two Output neurons are the same
      record. */
  lemma OutputMapFails(g: Genotype, activations: seq<real>)
    requires |activations| == |g.neurons|
    ensures OutputMap(g.neurons, activations, IndexesOf(g.neurons, Output)).Failure? <==>
      exists i, j :: 0 <= i < j < |g.neurons| && g.neurons[i].kind == Output && g.neurons[i] == g.neurons[j]
  {
    if OutputMap(g.neurons, activations, IndexesOf(g.neurons, Output)).Failure? {
      OutputMapFailureHasDuplicate(g, activations);
    } else {
      forall i, j | 0 <= i < j < |g.neurons| && g.neurons[i].kind == Output
        ensures g.neurons[i] != g.neurons[j]
      {
        OutputMapSuccessDistinct(g, activations, i, j);
      }
    }
  }

  /** Run answers with exactly the Output neurons, each mapped to its final
      activation. */
  lemma OutputMapContents(g: Genotype, activations: seq<real>)
    requires |activations| == |g.neurons|
    requires OutputMap(g.neurons, activations, IndexesOf(g.neurons, Output)).Success?
    ensures var m := OutputMap(g.neurons, activations, IndexesOf(g.neurons, Output)).value;
      (forall n :: n in m <==> n in g.neurons && n.kind == Output)
      && forall i :: 0 <= i < |g.neurons| && g.neurons[i].kind == Output ==> m[g.neurons[i]] == activations[i]
  {
    var slots := IndexesOf(g.neurons, Output);
    var keys := OutputKeys(g);
    var m := OutputMap(g.neurons, activations, slots).value;
    forall n
      ensures n in m <==> n in g.neurons && n.kind == Output
    {
      if n in g.neurons && n.kind == Output {
        var i :| 0 <= i < |g.neurons| && g.neurons[i] == n;
        var k :| 0 <= k < |slots| && slots[k] == i;
        assert keys[k] == n;
      }
    }
    forall i | 0 <= i < |g.neurons| && g.neurons[i].kind == Output
      ensures m[g.neurons[i]] == activations[i]
    {
      var k :| 0 <= k < |slots| && slots[k] == i;
      assert keys[k] == g.neurons[i];
    }
  }

  // ---------------------------------------------------------------------
  // The runner

  class PhenotypeRunner {
    const phenotype: Phenotype
    const biasIndex: Option<nat>
    const inputsMap: seq<nat>
    const outputsMap: seq<nat>

    /** The slot maps are those of the phenotype's neurons. */
    predicate Valid()
    {
      Wellformed(phenotype)
      && inputsMap == IndexesOf(phenotype.genome.neurons, Input)
      && outputsMap == IndexesOf(phenotype.genome.neurons, Output)
      && |IndexesOf(phenotype.genome.neurons, Bias)| <= 1
      && biasIndex == (if |IndexesOf(phenotype.genome.neurons, Bias)| == 1
                       then Some(IndexesOf(phenotype.genome.neurons, Bias)[0]) else None)
    }

    /** The constructor on a phenotype with at most one Bias neuron. */
    constructor(phenotype: Phenotype)
      requires Wellformed(phenotype)
      requires |IndexesOf(phenotype.genome.neurons, Bias)| <= 1
      ensures this.phenotype == phenotype && Valid()
    {
      this.phenotype := phenotype;
      var biases := IndexesOf(phenotype.genome.neurons, Bias);
      biasIndex := if |biases| == 1 then Some(biases[0]) else None;
      inputsMap := IndexesOf(phenotype.genome.neurons, Input);
      outputsMap := IndexesOf(phenotype.genome.neurons, Output);
    }

    /** Construction: SingleOrDefault throws on a second Bias neuron. */
    static method Create(phenotype: Phenotype) returns (r: Result<PhenotypeRunner>)
      requires Wellformed(phenotype)
      ensures |IndexesOf(phenotype.genome.neurons, Bias)| > 1 <==> r.Failure?
      ensures r.Failure? ==> r.error == InvalidOperation("Sequence contains more than one matching element")
      ensures r.Success? ==> fresh(r.value) && r.value.phenotype == phenotype && r.value.Valid()
    {
      if |IndexesOf(phenotype.genome.neurons, Bias)| > 1 {
        return Failure(InvalidOperation("Sequence contains more than one matching element"));
      }
      var runner := new PhenotypeRunner(phenotype);
      return Success(runner);
    }

    /** Run: rejects an input list of the wrong length; otherwise replaces the
        activations with a fresh buffer, seeds it, recalls and clears memory,
        runs the plan and returns the Output activations. */
    method Run(inputs: seq<real>, apply: (string, real, real) -> real) returns (r: Result<map<Neuron, real>>)
      requires Valid()
      modifies phenotype, phenotype.memory
      ensures |inputs| != |inputsMap| ==>
        r == Failure(Argument("Input length does not match the number of input neurons"))
        && unchanged(phenotype) && unchanged(phenotype.memory)
      ensures |inputs| == |inputsMap| ==>
        var s := RunState(phenotype.genome, phenotype.executionPlan, biasIndex, inputsMap, inputs,
                          old(phenotype.memory[..]), apply);
        fresh(phenotype.activations)
        && phenotype.activations[..] == s.activations
        && phenotype.memory[..] == s.memory
        && r == OutputMap(phenotype.genome.neurons, s.activations, outputsMap)
    {
      if |inputs| != |inputsMap| {
        return Failure(Argument("Input length does not match the number of input neurons"));
      }
      var g := phenotype.genome;
      var memory := phenotype.memory;
      var activations := new real[|g.neurons|](_ => 0.0);
      phenotype.activations := activations;
      ghost var zeros := seq(|g.neurons|, _ => 0.0);
      assert activations[..] == zeros;
      if biasIndex.Some? {
        activations[biasIndex.value] := 1.0;
      }
      assert activations[..] == if biasIndex.Some? then zeros[biasIndex.value := 1.0] else zeros;
      WriteSlots(activations, inputsMap, inputs);
      assert activations[..] == Seeded(|g.neurons|, biasIndex, inputsMap, inputs);
      Recall(activations, memory);
      RunPlan(g, phenotype.executionPlan, activations, memory, apply);
      r := OutputMap(g.neurons, activations[..], outputsMap);
    }
  }

  /** The input loop of Run. */
  method WriteSlots(activations: array<real>, slots: seq<nat>, inputs: seq<real>)
    requires |slots| == |inputs|
    requires forall k :: 0 <= k < |slots| ==> slots[k] < activations.Length
    modifies activations
    ensures activations[..] == WriteInputs(old(activations[..]), slots, inputs)
  {
    ghost var base := activations[..];
    for i := 0 to |inputs|
      invariant activations[..] == WriteInputs(base, slots[..i], inputs[..i])
    {
      assert slots[..i + 1][..i] == slots[..i] && inputs[..i + 1][..i] == inputs[..i];
      activations[slots[i]] := inputs[i];
    }
    assert slots[..|inputs|] == slots && inputs[..|inputs|] == inputs;
  }

  /** The memory loop of Run: each remembered value moves into its
      activation slot and the memory slot is cleared. */
  method Recall(activations: array<real>, memory: array<Option<real>>)
    requires memory.Length == activations.Length
    modifies activations, memory
    ensures activations[..] == Recalled(old(activations[..]), old(memory[..]))
    ensures memory[..] == Nones(memory.Length)
  {
    ghost var before := activations[..];
    ghost var remembered := memory[..];
    for i := 0 to memory.Length
      invariant forall j :: 0 <= j < i ==> activations[j] == Recalled(before, remembered)[j] && memory[j] == None
      invariant forall j :: i <= j < memory.Length ==> activations[j] == before[j] && memory[j] == remembered[j]
    {
      var value := memory[i];
      if value.Some? {
        activations[i] := value.value;
        memory[i] := None;
      }
    }
  }

  /** The plan loop of Run. */
  method RunPlan(g: Genotype, plan: seq<ExecutionItem>, activations: array<real>, memory: array<Option<real>>,
                 apply: (string, real, real) -> real)
    requires activations.Length == |g.neurons| == memory.Length
    requires PlanWithin(g, plan)
    modifies activations, memory
    ensures State(activations[..], memory[..]) == Execute(g, plan, State(old(activations[..]), old(memory[..])), apply)
  {
    ghost var final := Execute(g, plan, State(activations[..], memory[..]), apply);
    for k := 0 to |plan|
      invariant Execute(g, plan[k..], State(activations[..], memory[..]), apply) == final
    {
      var item := plan[k];
      assert plan[k..][0] == item && plan[k..][1..] == plan[k + 1..];
      var inputSum := WeightedSum(activations[..], item.dependencies);
      var activation := apply(item.activationFunction, inputSum, g.neurons[item.targetNeuronIndex].bias);
      if item.isRecurrent {
        memory[item.targetNeuronIndex] := Some(activation);
      } else {
        activations[item.targetNeuronIndex] := activation;
      }
    }
  }

  /** No item of the plan writes a Bias or Input slot. */
  predicate SparesSeeds(g: Genotype, plan: seq<ExecutionItem>)
  {
    forall k :: 0 <= k < |plan| ==>
      plan[k].targetNeuronIndex < |g.neurons| && !IsInputOrBias(g.neurons[plan[k].targetNeuronIndex].kind)
  }

  /** A plan that spares the Bias and Input slots, run from a memory that
      only holds recurrent targets, sees its inputs and the bias, and leaves
      memory holding only recurrent targets again. */
  lemma RunKeepsSeeds(g: Genotype, plan: seq<ExecutionItem>, bias: Option<nat>, inputs: seq<real>,
                      memory: seq<Option<real>>, apply: (string, real, real) -> real)
    requires PlanWithin(g, plan) && SparesSeeds(g, plan)
    requires bias.Some? ==> bias.value < |g.neurons| && g.neurons[bias.value].kind == Bias
    requires |inputs| == |IndexesOf(g.neurons, Input)| && |memory| == |g.neurons|
    requires forall i :: 0 <= i < |memory| && memory[i].Some? ==> i in RecurrentTargets(plan)
    ensures var s := RunState(g, plan, bias, IndexesOf(g.neurons, Input), inputs, memory, apply);
      (forall k :: 0 <= k < |inputs| ==> s.activations[IndexesOf(g.neurons, Input)[k]] == inputs[k])
      && (bias.Some? ==> s.activations[bias.value] == 1.0)
      && (forall i :: 0 <= i < |g.neurons| && s.memory[i].Some? ==> i in RecurrentTargets(plan))
  {
    var slots := IndexesOf(g.neurons, Input);
    assert forall i :: i in RecurrentTargets(plan) ==> i < |g.neurons| && !IsInputOrBias(g.neurons[i].kind);
    assert forall i :: i in ComputedTargets(plan) ==> i < |g.neurons| && !IsInputOrBias(g.neurons[i].kind);
    assert forall k :: 0 <= k < |slots| ==> slots[k] !in ComputedTargets(plan) && memory[slots[k]] == None;
    RunSeesInputs(g, plan, bias, slots, inputs, memory, apply);
    RunMemory(g, plan, bias, slots, inputs, memory, apply);
  }

  /** On a genome IsValidateGenome accepts, the built plan spares the Bias
      and Input slots, so RunKeepsSeeds applies to every Run of it. */
  lemma ValidPlanSparesSeeds(g: Genotype)
    requires IsValidGenome(g) && BuildExecutionPlan(g).Success?
    ensures PlanWithin(g, BuildExecutionPlan(g).value) && SparesSeeds(g, BuildExecutionPlan(g).value)
  {
    BuiltPlanWithin(g);
    ValidPlanShape(g);
  }

  lemma TwoSlots(neurons: seq<Neuron>, kind: NeuronType)
    requires |IndexesOf(neurons, kind)| > 1
    ensures exists i, j :: 0 <= i < j < |neurons| && neurons[i].kind == kind && neurons[j].kind == kind
  {
    var r := IndexesOf(neurons, kind);
    assert r[0] < r[1] && neurons[r[0]].kind == kind && neurons[r[1]].kind == kind;
  }

  /** A genome IsValidateGenome accepts never makes the runner's
      SingleOrDefault throw. */
  lemma ValidHasOneBiasSlot(g: Genotype)
    requires IsValidGenome(g)
    ensures |IndexesOf(g.neurons, Bias)| <= 1
  {
    var biases := IndexesOf(g.neurons, Bias);
    if |biases| > 1 {
      TwoSlots(g.neurons, Bias);
      assert false;
    }
  }
}
