/** The genome records of src/Neat.Core/Genomes (Genotype, Neuron, Synapse)
    and the compiled plan of src/Neat.Core/Phenotypes/Phenotype.cs, with the
    lookups by neuron id that the compiler and the mutations share. */
module Genomes {
  import opened Wrappers

  datatype NeuronType = Input | Output | Hidden | Bias

  /** A neuron; the activation function is kept by name (`label` is a
      keyword, hence `labelText`). */
  datatype Neuron = Neuron(
    id: nat,
    kind: NeuronType,
    bias: real,
    data: Option<string>,
    labelText: Option<string>,
    activationFunction: string)

  datatype Synapse = Synapse(
    innovation: nat,
    inputNeuronId: nat,
    outputNeuronId: nat,
    weight: real,
    isEnabled: bool)

  /** A genome. `id` stands for the Guid drawn when the record is created;
      a `with` copy keeps it. */
  datatype Genotype = Genotype(
    neurons: seq<Neuron>,
    synapses: seq<Synapse>,
    historicalFitness: real,
    generation: nat,
    age: nat,
    id: nat)

  /** One input of a plan item: the activation slot it reads and its weight. */
  datatype ExecutionDependency = ExecutionDependency(activationIndex: nat, weight: real)

  /** One step of a plan: the neuron slot it computes, what it reads, the
      activation function by name, and whether it writes to memory. */
  datatype ExecutionItem = ExecutionItem(
    targetNeuronIndex: nat,
    dependencies: seq<ExecutionDependency>,
    activationFunction: string,
    isRecurrent: bool)

  predicate IsInputOrBias(kind: NeuronType) { kind == Input || kind == Bias }

  /** The ids of a list of neurons. */
  function Ids(neurons: seq<Neuron>): (r: set<nat>)
    ensures forall i :: 0 <= i < |neurons| ==> neurons[i].id in r
    ensures forall id :: id in r ==> exists i :: 0 <= i < |neurons| && neurons[i].id == id
  {
    set n | n in neurons :: n.id
  }

  /** The position of the first neuron carrying `id`, as FirstOrDefault and
      FindIndex look it up. */
  function IndexOfId(neurons: seq<Neuron>, id: nat): (r: Option<nat>)
    ensures r.None? <==> id !in Ids(neurons)
    ensures r.Some? ==> r.value < |neurons| && neurons[r.value].id == id
    ensures r.Some? ==> forall j :: 0 <= j < r.value ==> neurons[j].id != id
  {
    if |neurons| == 0 then None
    else if neurons[0].id == id then Some(0)
    else match IndexOfId(neurons[1..], id)
      case None => None
      case Some(k) => Some(k + 1)
  }

  /** Every synapse joins two neurons of the list. */
  predicate Closed(neurons: seq<Neuron>, synapses: seq<Synapse>)
  {
    forall k :: 0 <= k < |synapses| ==>
      synapses[k].inputNeuronId in Ids(neurons) && synapses[k].outputNeuronId in Ids(neurons)
  }

  /** Each innovation appears at most once in a list of synapses. */
  predicate UniqueInnovations(synapses: seq<Synapse>)
  {
    forall k, l :: 0 <= k < l < |synapses| ==> synapses[k].innovation != synapses[l].innovation
  }

  /** No two neurons share an id. */
  predicate UniqueIds(neurons: seq<Neuron>)
  {
    forall i, j :: 0 <= i < j < |neurons| ==> neurons[i].id != neurons[j].id
  }

  /** The enabled synapses of a list, in order. */
  function Enabled(synapses: seq<Synapse>): (r: seq<Synapse>)
    ensures |r| <= |synapses|
    ensures forall k :: 0 <= k < |r| ==> r[k].isEnabled && r[k] in synapses
    ensures forall s :: s in synapses && s.isEnabled ==> s in r
  {
    if |synapses| == 0 then []
    else (if synapses[0].isEnabled then [synapses[0]] else []) + Enabled(synapses[1..])
  }

  /** A compiled network: the genome, its plan, one activation slot per
      neuron and one memory slot per neuron for recurrent results. */
  class Phenotype {
    const genome: Genotype
    const executionPlan: seq<ExecutionItem>
    var activations: array<real>
    const memory: array<Option<real>>

    constructor(genome: Genotype, executionPlan: seq<ExecutionItem>, activations: seq<real>, slots: nat)
      ensures this.genome == genome && this.executionPlan == executionPlan
      ensures fresh(this.activations) && this.activations[..] == activations
      ensures fresh(memory) && memory.Length == slots && forall i :: 0 <= i < slots ==> memory[i] == None
    {
      this.genome := genome;
      this.executionPlan := executionPlan;
      this.activations := new real[|activations|](i requires 0 <= i < |activations| => activations[i]);
      memory := new Option<real>[slots](_ => None);
    }
  }
}
