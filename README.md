# NEAT engine core, modelled in Dafny

This project models the core of a NEAT (NeuroEvolution of Augmenting
Topologies) engine written in C#, together with the grid world of its
FieldRunner fitness task, and proves properties of the model.

- **Genomes and the innovation registry** (`genomes.dfy`,
  `genomes_context.dfy`): neurons, synapses, genotypes and phenotypes as
  datatypes; `GenomesContext` as a class whose map from innovation number
  to (source, target) pair is rebuilt from a population and extended by
  `GetInnovation`.
- **Phenotype compiler** (`phenotype_builder.dfy`): genome validation,
  activation seeding, dead-neuron removal by fixed-point iteration, the
  backward walks from each output with a visited set, the first-per-target
  plan and its recurrence marks.
- **Phenotype executor** (`phenotype_runner.dfy`): `PhenotypeRunner`
  as a class over the phenotype's activation and memory arrays, run in
  place item by item.
- **Evolution operators** (`crossover.dfy`, `mutate.dfy`,
  `structural.dfy`, `switches.dfy`, `mutations.dfy`, `loop_check.dfy`):
  crossover by innovation alignment, `Mutate` with its non-chaining
  operators and in-place flag switches, adding and splitting synapses,
  removing hidden neurons, and the loop check.
- **Speciation** (`genome_distance.dfy`, `species_builder.dfy`,
  `specie.dfy`): the compatibility distance, grouping by nearest group
  under the threshold, the three group-distance policies and the adaptive
  threshold.
- **Population manager** (`incubator.dfy`): culling, offspring allotment
  with rounding-drift correction, and trimming or breeding each species.
- **Utilities** (`enumerable_extensions.dfy`, `concurrent_loop.dfy`,
  `string_extensions.dfy`, `shuffle.dfy`): `FindIndex`, `TryFindIndex`,
  `TrimToEnd`, `IfEmpty`, `SumOrDefault`, `Times`, `AddRange`,
  `EnqueueRange`, the round-robin cursor, `GetAbbreviation`, and the
  explicit random draws that stand for `Random`, `Shuffle` and
  `OrderBy(random)`.
- **FieldRunner** (`position_tool.dfy`, `field_models.dfy`,
  `world_builder.dfy`, `the_world.dfy`): index and position arithmetic,
  turning and rays, world construction on a field array, and the daily
  energy, eat, move and die rules with the days-survived fitness.

Conventions: Guid ids are `nat` handles; weights, biases and fitness are
`real`; activation functions are an uninterpreted
`(string, real, real) -> real`; every random choice is a parameter (an
index, a sequence of picks decoded into a permutation, or a function of
the call number); .NET's `Math.Round` is round-half-to-even; a .NET
exception is a `Failure` of the `Result` datatype in `wrappers.dfy`,
named after the exception type.

## Model

| member | source | states |
|---|---|---|
| ConcurrentLoops.ConcurrentLoop.constructor | src/Neat.Core/Common/ConcurrentLoop.cs:9-17 | the loop starts over the given values with the cursor at 0 and its invariant (cursor within 0..count, or 0..1 when empty) established |
| ConcurrentLoops.ConcurrentLoop.GetNext | src/Neat.Core/Common/ConcurrentLoop.cs:19-26 | after wrapping a cursor past the end back to 0, returns the value at the cursor and advances it by one; on an empty collection the lookup fails (ElementAt(0) out of range) |
| ConcurrentLoops.ConcurrentLoop.GetNextMany | src/Neat.Core/Common/ConcurrentLoop.cs:28-38 | `count` calls yield exactly `count` values that continue the cycle from the shared cursor (value k is `values[(cursor + k) % n]`), repeating with period n, and leave the cursor where the single calls would |
| ConcurrentLoops.WrapStep | src/Neat.Core/Common/ConcurrentLoop.cs:21-24 | resetting then incrementing the cursor is advancing by one modulo the count, which is why consecutive calls walk the values in order |
| EnumerableExtensions.FindIndex | src/Neat.Core/Common/EnumerableExtensions.cs:7-17 | the counter loop returns the first index whose element satisfies the predicate, and -1 exactly when none does |
| EnumerableExtensions.TryFindIndex | src/Neat.Core/Common/EnumerableExtensions.cs:19-35 | true with that same first matching index, or false with null, and true exactly when some element matches |
| EnumerableExtensions.FirstMatch | src/Neat.Core/Common/EnumerableExtensions.cs:7-35 | the reference meaning of both searches: no result iff no element matches, otherwise a matching index with no match before it |
| EnumerableExtensions.TrimToEnd | src/Neat.Core/Common/EnumerableExtensions.cs:68-70 | keeps the last `maxLength` elements of a longer list and the whole list otherwise; a negative length makes List.GetRange throw |
| EnumerableExtensions.IfEmpty | src/Neat.Core/Common/EnumerableExtensions.cs:53-57 | the source when it has elements, the default otherwise; empty only when both are |
| EnumerableExtensions.SumOrDefault | src/Neat.Core/Common/EnumerableExtensions.cs:59-63 | null exactly when no value is present, otherwise the sum of the present values |
| EnumerableExtensions.Present | src/Neat.Core/Common/EnumerableExtensions.cs:61 | the non-null values in order; empty iff every entry is null |
| EnumerableExtensions.SumOrDefaultAppend | src/Neat.Core/Common/EnumerableExtensions.cs:59-63 | summing a concatenation adds the two sums, and an all-null part contributes nothing |
| EnumerableExtensions.TimesIndexed | src/Neat.Core/Common/EnumerableExtensions.cs:84-86 | the indexed overload fails for a negative count (Enumerable.Range) and otherwise yields `count` items, item i built from index i |
| EnumerableExtensions.Times | src/Neat.Core/Common/EnumerableExtensions.cs:88-94 | yields exactly max(count, 0) items, item i being the i-th invocation |
| EnumerableExtensions.Bag.AddRange | src/Neat.Core/Common/EnumerableExtensions.cs:72-76 | every item is added to the bag, nothing else changes, and the same bag is returned |
| EnumerableExtensions.Queue.EnqueueRange | src/Neat.Core/Common/EnumerableExtensions.cs:78-82 | every item is appended in order behind the old contents and the same queue is returned |
| Shuffles.Shuffled | src/Neat.Core/Common/RandomExtensions.cs:10-11 | the order chosen by a list of draws is a permutation of the items |
| Shuffles.EveryOrder | src/Neat.Core/Common/RandomExtensions.cs:10-11 | every permutation of the items is the shuffle of some draws, so the draws leave no order out |
| Shuffles.RandomItem | src/Neat.Core/Common/EnumerableExtensions.cs:65 | Random (first of a shuffle) fails on an empty list and otherwise returns a member |
| Shuffles.RandomReaches | src/Neat.Core/Common/EnumerableExtensions.cs:65 | every member of a non-empty list can be the random pick |
| StringExtensions.GetAbbreviation | src/Neat.Core/Common/StringExtensions.cs:6-20 | GetAbbreviation itself; no contract of its own, its properties are AbbreviationIsFirstAndCapitals and AbbreviationLength |
| StringExtensions.AbbreviationIsFirstAndCapitals | src/Neat.Core/Common/StringExtensions.cs:10-18 | for non-empty input the abbreviation is the upper-cased first character followed by every later A-Z letter, i.e. the first letters of the pieces cut before each capital |
| StringExtensions.SplitLetters | src/Neat.Core/Common/StringExtensions.cs:10-13 | cutting before every A-Z letter leaves a non-empty last piece, and the first letters of the non-empty pieces are the first character plus the later capitals |
| StringExtensions.AbbreviationLength | src/Neat.Core/Common/StringExtensions.cs:7-18 | empty input gives ""; otherwise the length is the number of A-Z letters, plus one when the first character is not one, so non-empty input never gives "" |
| StringExtensions.ToUpper | src/Neat.Core/Common/StringExtensions.cs:18 | upper-casing keeps the length and maps each character |
| StringExtensions.AbbreviationOfInput | src/Experiments/StringExperiments.cs:5 | "Input" gives "I" |
| StringExtensions.AbbreviationOfMultipleWords | src/Experiments/StringExperiments.cs:6 | "MultipleWords" gives "MW" |
| StringExtensions.AbbreviationOfFirstSmall | src/Experiments/StringExperiments.cs:7 | "firstSmall" gives "FS" |
| StringExtensions.AbbreviationOfAllSmall | src/Experiments/StringExperiments.cs:8 | "allsmall" gives "A" |
| StringExtensions.AbbreviationOfOneCapital | src/Neat.Core/Common/StringExtensions.cs:10-18 | a string with exactly one capital after its first character abbreviates to two letters |
| StringExtensions.AbbreviationOfNoCapital | src/Neat.Core/Common/StringExtensions.cs:10-18 | a string with no capital after its first character abbreviates to that character alone, upper-cased |
| Genomes.Phenotype.constructor | src/Neat.Core/Phenotypes/Phenotype.cs:6-12 | a compiled network holds its genome and plan, a fresh activation buffer with the given seeds and a fresh memory buffer of null slots |
| GenomesContexts.GenomesContext.constructor | src/Neat.Core/Genomes/GenomesContext.cs:6-7 | a new context has an empty dictionary and is not initialized |
| GenomesContexts.GenomesContext.GetInnovation | src/Neat.Core/Genomes/GenomesContext.cs:9-25 | fails with "Neat context is not initialized" and changes nothing before the first Rebuild; a registered pair returns a number it is registered under and leaves the map unchanged (the only such number when no pair is registered twice); a new pair receives 0 on an empty map, otherwise the largest key + 1, and is recorded under it; the map only ever grows and stays injective |
| GenomesContexts.NextInnovation | src/Neat.Core/Genomes/GenomesContext.cs:20 | the number allocated to a new pair is above every key, 0 exactly on an empty map, and otherwise one more than an existing key (the maximum), so successive new pairs get strictly increasing numbers |
| GenomesContexts.GenomesContext.Rebuild | src/Neat.Core/Genomes/GenomesContext.cs:27-41 | the nested loops leave the context initialized with exactly the registry of all synapses of all genomes, genome after genome |
| GenomesContexts.RegistryFirstOccurrence | src/Neat.Core/Genomes/GenomesContext.cs:29-38 | after Rebuild a number is a key exactly when some synapse carries it, and it maps to the endpoints of the first synapse carrying it (the first occurrence wins) |
| GenomesContexts.RegistryStep | src/Neat.Core/Genomes/GenomesContext.cs:35-36 | one more synapse adds its pair only when its number is not yet a key |
| Species.AverageFitness | src/Neat.Core/Species/Specie.cs:9-10 | 0.2 of the best plus 0.8 of the mean historical fitness; fails (Max/Average of an empty sequence) exactly when the specie has no genomes |
| Species.MaxFitness | src/Neat.Core/Species/Specie.cs:10 | the Max is an upper bound of the members' fitness and is reached by a member |
| Species.AverageFitnessBounds | src/Neat.Core/Species/Specie.cs:9-10 | mean <= AverageFitness <= max for every non-empty specie |
| Species.TotalAtMost | src/Neat.Core/Species/Specie.cs:10 | the summed fitness is at most count times the best, so the mean never exceeds the best |
| Species.AverageFitnessSingle | src/Neat.Core/Species/Specie.cs:9-10 | a one-genome specie has that genome's fitness |
| PhenotypeBuilder.IsValidGenome | src/Neat.Core/Phenotypes/PhenotypeBuilder.cs:69-95 | a genome is accepted exactly when no synapse (enabled or not) targets a Bias or Input neuron, no synapse leaves an Output neuron, and at most one neuron is a Bias neuron |
| PhenotypeBuilder.NoneMisplaced | src/Neat.Core/Phenotypes/PhenotypeBuilder.cs:71-86 | the foreach that stops at the first misplaced neuron answers true exactly when no neuron is misplaced |
| PhenotypeBuilder.BiasCountAtMostOne | src/Neat.Core/Phenotypes/PhenotypeBuilder.cs:88 | a Bias count of at most one means no two positions hold a Bias neuron |
| PhenotypeBuilder.ActivationValues | src/Neat.Core/Phenotypes/PhenotypeBuilder.cs:97-110 | one slot per neuron: 1.0 for a Bias neuron and 0 for every other |
| PhenotypeBuilder.TryBuild | src/Neat.Core/Phenotypes/PhenotypeBuilder.cs:7-26 | a rejected genome gives false with no phenotype; an accepted one a fresh phenotype holding the genome, its execution plan, the seeded activations and one null memory slot per neuron; an exception of the plan builder propagates |
| PhenotypeBuilder.Build | src/Neat.Core/Phenotypes/PhenotypeBuilder.cs:28 | as TryBuild, with "Failed to build phenotype" (InvalidOperationException) on a rejected genome |
| PhenotypeBuilder.Cleaned | src/Neat.Core/Phenotypes/PhenotypeBuilder.cs:30-66 | what CleanDeadNeurons returns, the passes starting from the enabled synapses; a definition, its properties are CleanDeadNeurons and CleanedSubset |
| PhenotypeBuilder.CleanFrom | src/Neat.Core/Phenotypes/PhenotypeBuilder.cs:36-64 | the passes of the while loop until one removes no neuron; a definition without a contract |
| PhenotypeBuilder.CleanDeadNeurons | src/Neat.Core/Phenotypes/PhenotypeBuilder.cs:30-67 | the while loop, starting from the enabled synapses and repeating neuron filter then synapse filter until a pass removes no neuron, returns exactly the fixed point `Cleaned` (termination: the neuron count drops on every repeated pass) |
| PhenotypeBuilder.AliveNeurons | src/Neat.Core/Phenotypes/PhenotypeBuilder.cs:41-56 | the neuron filter keeps exactly the neurons that are alive for their kind (Bias/Input need an outgoing, Output an incoming, Hidden both), and keeps the list unchanged exactly when all are alive |
| PhenotypeBuilder.JoiningSynapses | src/Neat.Core/Phenotypes/PhenotypeBuilder.cs:59-63 | the synapse filter keeps exactly the synapses whose two ends are listed neurons |
| PhenotypeBuilder.CleanedSubset | src/Neat.Core/Phenotypes/PhenotypeBuilder.cs:30-66 | the result is a subset: its neurons come from the input, its synapses are enabled input synapses, and every kept synapse has both ends kept |
| PhenotypeBuilder.CleanedAlive | src/Neat.Core/Phenotypes/PhenotypeBuilder.cs:41-56 | when every synapse endpoint is a listed neuron, every kept Bias/Input neuron has a kept outgoing synapse, every kept Output neuron a kept incoming one and every kept Hidden neuron both |
| PhenotypeBuilder.CleanedIdempotent | src/Neat.Core/Phenotypes/PhenotypeBuilder.cs:35-64 | under that closure, running it again on its own output changes nothing |
| PhenotypeBuilder.CleanedNeedsClosure | src/Neat.Core/Phenotypes/PhenotypeBuilder.cs:35-64 | without the closure the loop stops after one pass keeping a Bias neuron whose only synapse was dropped, so a second run changes the result |
| PhenotypeBuilder.CleanFromShrinks | src/Neat.Core/Phenotypes/PhenotypeBuilder.cs:36-64 | the passes only remove: kept neurons and synapses come from their inputs and every kept synapse joins kept neurons |
| PhenotypeBuilder.CleanFromAlive | src/Neat.Core/Phenotypes/PhenotypeBuilder.cs:36-64 | from synapses that join listed neurons, the fixed point leaves every kept neuron alive |
| PhenotypeBuilder.IncomingEnabled | src/Neat.Core/Phenotypes/PhenotypeBuilder.cs:187-190 | exactly the enabled synapses into the neuron, in genome order |
| PhenotypeBuilder.Dependencies | src/Neat.Core/Phenotypes/PhenotypeBuilder.cs:195-203 | one dependency per incoming synapse, reading the slot of the first neuron with the synapse's source id with the synapse's weight; fails exactly when some source is not a listed neuron |
| PhenotypeBuilder.WalkNeuron | src/Neat.Core/Phenotypes/PhenotypeBuilder.cs:178-222 | the backward walk from a neuron only adds to the shared visited set, never beyond the genome's ids, and every item it yields is on the first neuron with its id and depends on exactly that neuron's enabled incoming synapses |
| PhenotypeBuilder.WalkSources | src/Neat.Core/Phenotypes/PhenotypeBuilder.cs:214-221 | the sub-walks over the sources of the incoming synapses keep the same visited-set and item facts |
| PhenotypeBuilder.SearchSources | src/Neat.Core/Phenotypes/PhenotypeBuilder.cs:241-243 | the search over the sources of the incoming synapses only adds genome ids to the visited set |
| PhenotypeBuilder.HasConnection | src/Neat.Core/Phenotypes/PhenotypeBuilder.cs:224-244 | the recurrence search never re-expands a visited neuron and only adds genome ids to the visited set |
| PhenotypeBuilder.AnyInputSource | src/Neat.Core/Phenotypes/PhenotypeBuilder.cs:234-237 | true exactly at a Bias or Input source, false only when no source is one, and a failure names a source that is not listed |
| PhenotypeBuilder.ConnectedHasPath | src/Neat.Core/Phenotypes/PhenotypeBuilder.cs:224-244 | a true answer comes with a backward path over all synapses, disabled ones included, to a Bias or Input neuron |
| PhenotypeBuilder.NotConnectedSealed | src/Neat.Core/Phenotypes/PhenotypeBuilder.cs:224-244 | a false answer leaves every newly visited neuron sealed: all its sources were visited and none is a Bias or Input neuron |
| PhenotypeBuilder.SealedHasNoPath | src/Neat.Core/Phenotypes/PhenotypeBuilder.cs:227 | no backward path can leave a region sealed within itself |
| PhenotypeBuilder.HasConnectionIffPath | src/Neat.Core/Phenotypes/PhenotypeBuilder.cs:224-244 | started from an empty visited set, the search answers true exactly when some backward path reaches a Bias or Input neuron |
| PhenotypeBuilder.RecurrenceIffNoPath | src/Neat.Core/Phenotypes/PhenotypeBuilder.cs:130-134 | an item is marked recurrent exactly when its target is neither Bias nor Input and no backward path over all synapses reaches such a neuron |
| PhenotypeBuilder.OutputNeurons | src/Neat.Core/Phenotypes/PhenotypeBuilder.cs:115-117 | exactly the Output neurons, in genome order |
| PhenotypeBuilder.WalkOutputs | src/Neat.Core/Phenotypes/PhenotypeBuilder.cs:120-122 | the reversed walks of every output, each from a fresh visited set, concatenated; every item is on its target's first neuron with that neuron's enabled incoming synapses |
| PhenotypeBuilder.FirstPerTarget | src/Neat.Core/Phenotypes/PhenotypeBuilder.cs:125-127 | GroupBy then First keeps one item per target, the first occurrence, and covers every target of the input |
| PhenotypeBuilder.MarkRecurrent | src/Neat.Core/Phenotypes/PhenotypeBuilder.cs:130-134 | every item keeps its target and dependencies and gets the recurrence flag of its target |
| PhenotypeBuilder.ActiveItems | src/Neat.Core/Phenotypes/PhenotypeBuilder.cs:158-163 | exactly the items whose target neuron survives dead-neuron removal, keeping targets distinct |
| PhenotypeBuilder.LiveDependencies | src/Neat.Core/Phenotypes/PhenotypeBuilder.cs:166-172 | the dependencies whose source neuron survives, still reading genome slots |
| PhenotypeBuilder.Cleanup | src/Neat.Core/Phenotypes/PhenotypeBuilder.cs:149-176 | the cleaned plan only writes and reads slots of the genome |
| PhenotypeBuilder.LiveDependenciesResolve | src/Neat.Core/Phenotypes/PhenotypeBuilder.cs:166-172 | dropping the dependencies on dead neurons is resolving only the synapses from live sources |
| PhenotypeBuilder.BuildExecutionPlan | src/Neat.Core/Phenotypes/PhenotypeBuilder.cs:112-140 | BuildExecutionPlan itself: the walk from every output, the first item per target, the recurrence marks and the cleanup; no contract of its own, its properties are PlanItems |
| PhenotypeBuilder.PlanItems | src/Neat.Core/Phenotypes/PhenotypeBuilder.cs:112-140 | a built plan has at most one item per target; each item's target is its id's first neuron, live and with an enabled incoming synapse, its dependencies are exactly the enabled incoming synapses from live sources, and it is recurrent exactly when no backward path reaches a Bias or Input neuron |
| PhenotypeBuilder.CleanupDistinct | src/Neat.Core/Phenotypes/PhenotypeBuilder.cs:149-176 | cleaning a plan with distinct targets keeps them distinct |
| PhenotypeBuilder.CleanupItemAt | src/Neat.Core/Phenotypes/PhenotypeBuilder.cs:149-176 | every item that survives cleanup holds the plan-item facts |
| PhenotypeBuilder.MarkedItem | src/Neat.Core/Phenotypes/PhenotypeBuilder.cs:130-173 | a walked item on a live target, once marked and cleaned, holds the plan-item facts |
| PhenotypeBuilder.PlanBuildsWhenClosed | src/Neat.Core/Phenotypes/PhenotypeBuilder.cs:183-201 | in this model, where every activation name is in the function table, the plan fails only on a synapse naming a missing neuron: when every synapse joins listed neurons it is always built |
| PhenotypeBuilder.WalkNeuronClosed | src/Neat.Core/Phenotypes/PhenotypeBuilder.cs:183-218 | under that closure, and with every activation name in the table, a walk never throws |
| PhenotypeBuilder.HasConnectionClosed | src/Neat.Core/Phenotypes/PhenotypeBuilder.cs:234-236 | under that closure the recurrence search never throws |
| PhenotypeBuilder.ValidPlanShape | src/Neat.Core/Phenotypes/PhenotypeBuilder.cs:9-16 | on an accepted genome every plan item computes a Hidden or Output neuron and reads no Output neuron |
| PhenotypeBuilder.BuiltPlanWithin | src/Neat.Core/Phenotypes/PhenotypeBuilder.cs:137-139 | every index a built plan writes or reads is a slot of the genome |
| PhenotypeRunners.IndexesOf | src/Neat.Core/Phenotypes/PhenotypeRunner.cs:72-77 | FindIndexes: exactly the positions of the neurons of the type, ascending |
| PhenotypeRunners.PhenotypeRunner.constructor | src/Neat.Core/Phenotypes/PhenotypeRunner.cs:12-20 | the runner records the Bias position (none without a Bias neuron) and the Input and Output positions in neuron order |
| PhenotypeRunners.PhenotypeRunner.Create | src/Neat.Core/Phenotypes/PhenotypeRunner.cs:15 | construction fails (SingleOrDefault) exactly when the phenotype has more than one Bias neuron, and otherwise yields a runner with those slot maps |
| PhenotypeRunners.PhenotypeRunner.Run | src/Neat.Core/Phenotypes/PhenotypeRunner.cs:24-70 | an input list of the wrong length is an ArgumentException and changes nothing; otherwise the activations are replaced by a fresh buffer and activations, memory and answer are exactly those of RunState (seed, recall, execute) and the Output map |
| PhenotypeRunners.Seeded | src/Neat.Core/Phenotypes/PhenotypeRunner.cs:29-35 | the buffer the plan starts from has one slot per neuron: zero, one at the Bias slot, the inputs at the Input slots |
| PhenotypeRunners.WriteSlots | src/Neat.Core/Phenotypes/PhenotypeRunner.cs:34-35 | the input loop writes `inputs[i]` into the i-th Input slot, in order |
| PhenotypeRunners.WriteInputsSlots | src/Neat.Core/Phenotypes/PhenotypeRunner.cs:34-35 | written into distinct slots, every input lands in its own slot and every other slot keeps its value |
| PhenotypeRunners.Recalled | src/Neat.Core/Phenotypes/PhenotypeRunner.cs:38-45 | every remembered value replaces its activation and the rest keep theirs |
| PhenotypeRunners.Recall | src/Neat.Core/Phenotypes/PhenotypeRunner.cs:38-45 | the memory loop copies each non-null slot into the activations and leaves every memory slot null |
| PhenotypeRunners.WeightedSum | src/Neat.Core/Phenotypes/PhenotypeRunner.cs:50-53 | the sum over the dependencies of the activation read times its weight; a definition, Step states its use |
| PhenotypeRunners.Step | src/Neat.Core/Phenotypes/PhenotypeRunner.cs:50-63 | one plan item computes the function of the weighted sum and its target's bias and writes it to memory when recurrent, to the activations otherwise, keeping both buffer sizes |
| PhenotypeRunners.Execute | src/Neat.Core/Phenotypes/PhenotypeRunner.cs:48-64 | the plan items run in order over buffers that keep their sizes |
| PhenotypeRunners.RunPlan | src/Neat.Core/Phenotypes/PhenotypeRunner.cs:48-64 | the foreach over the plan leaves both arrays exactly as Execute says |
| PhenotypeRunners.ExecuteWrites | src/Neat.Core/Phenotypes/PhenotypeRunner.cs:56-63 | after the plan, memory holds a value at a slot exactly when a recurrent item targets it or it held one before, and slots no non-recurrent item targets keep their activation |
| PhenotypeRunners.RunState | src/Neat.Core/Phenotypes/PhenotypeRunner.cs:29-64 | a whole run keeps one activation and one memory slot per neuron |
| PhenotypeRunners.RunMemory | src/Neat.Core/Phenotypes/PhenotypeRunner.cs:38-45 | after a run memory is non-null exactly at the targets of recurrent items |
| PhenotypeRunners.RunSeesInputs | src/Neat.Core/Phenotypes/PhenotypeRunner.cs:30-35 | slots no item computes and memory leaves alone still hold the inputs and the bias value 1 when the plan runs |
| PhenotypeRunners.RunKeepsSeeds | src/Neat.Core/Phenotypes/PhenotypeRunner.cs:30-59 | a plan that never writes Bias or Input slots sees every input in its slot and 1 at the Bias slot, and leaves memory only at recurrent targets |
| PhenotypeRunners.ValidPlanSparesSeeds | src/Neat.Core/Phenotypes/PhenotypeRunner.cs:48-64 | the plan built for an accepted genome never writes a Bias or Input slot |
| PhenotypeRunners.ValidHasOneBiasSlot | src/Neat.Core/Phenotypes/PhenotypeRunner.cs:15 | an accepted genome never makes the runner's SingleOrDefault throw |
| PhenotypeRunners.BuiltWellformed | src/Neat.Core/Phenotypes/PhenotypeRunner.cs:30-62 | a built phenotype's plan and memory fit its neuron list, so every slot Run touches exists |
| PhenotypeRunners.ToDictionary | src/Neat.Core/Phenotypes/PhenotypeRunner.cs:69 | ToDictionary fails exactly on a repeated key; otherwise its keys are the given keys, each mapped to its value |
| PhenotypeRunners.OutputMap | src/Neat.Core/Phenotypes/PhenotypeRunner.cs:67-69 | the ToDictionary of the Output neurons to their activations; a definition, OutputMapContents states its contents |
| PhenotypeRunners.OutputMapContents | src/Neat.Core/Phenotypes/PhenotypeRunner.cs:67-69 | the answer maps exactly the Output neurons, each to its final activation |
| PhenotypeRunners.OutputMapFails | src/Neat.Core/Phenotypes/PhenotypeRunner.cs:67-69 | building the answer fails exactly when two Output neurons are the same record |
| PhenotypeRunners.OutputMapFailureHasDuplicate | src/Neat.Core/Phenotypes/PhenotypeRunner.cs:67-69 | when ToDictionary throws, two slots hold the same Output neuron record |
| PhenotypeRunners.OutputMapSuccessDistinct | src/Neat.Core/Phenotypes/PhenotypeRunner.cs:67-69 | when the answer is built, no Output neuron record occurs twice |
| Crossovers.Crossover | src/Neat.Core/Evolution/EvolutionService.cs:36-112 | the child has the chosen synapses, the preferred parent's Generation + 1, the mean of the parents' HistoricalFitness, age 0 and a fresh id |
| Crossovers.CrossoverGenes | src/Neat.Core/Evolution/EvolutionService.cs:59-82 | an innovation both parents carry is copied once; a one-parent innovation at or below the shared bound is always copied; one carried by the preferred parent is always copied; one above the bound that only the other parent carries (once) is dropped |
| Crossovers.ChildNeurons | src/Neat.Core/Evolution/EvolutionService.cs:84-103 | the first neuron per id over both parents, filtered twice by being required or wired; a definition, ChildNeuronsDistinct and CrossoverNeurons state its properties |
| Crossovers.CrossoverNeurons | src/Neat.Core/Evolution/EvolutionService.cs:84-103 | the child keeps one neuron per id, all from the parents, every Bias/Input/Output neuron of the first-per-id list, and closed parents give a closed child |
| Crossovers.ChildSynapses | src/Neat.Core/Evolution/EvolutionService.cs:64-82 | the child's synapses are parent synapses with no innovation twice |
| Crossovers.SharedBound | src/Neat.Core/Evolution/EvolutionService.cs:60-62 | min over the parents of the largest innovation, an empty parent counting 0; every innovation of the parent with the smaller maximum is within it |
| Crossovers.MaxInnovation | src/Neat.Core/Evolution/EvolutionService.cs:61-62 | DefaultIfEmpty().Max: an upper bound of the innovations, reached by one when there are any |
| Crossovers.Genes | src/Neat.Core/Evolution/EvolutionService.cs:39-57 | a parent's synapses tagged with their innovation and preference, each once (ToHashSet) |
| Crossovers.AllGenes | src/Neat.Core/Evolution/EvolutionService.cs:64-65 | the concatenation holds exactly both parents' genes, each once |
| Crossovers.Group | src/Neat.Core/Evolution/EvolutionService.cs:66 | one GroupBy group: exactly the genes of one innovation |
| Crossovers.Choose | src/Neat.Core/Evolution/EvolutionService.cs:67-80 | a group gives one of its own synapses, and nothing exactly when it is a single non-preferred gene above the shared bound |
| Crossovers.Collect | src/Neat.Core/Evolution/EvolutionService.cs:67-82 | the kept synapses are exactly the choices made, one per innovation in key order |
| Crossovers.CollectUnique | src/Neat.Core/Evolution/EvolutionService.cs:66-82 | distinct group keys give distinct innovations in the child |
| Crossovers.SharedCopied | src/Neat.Core/Evolution/EvolutionService.cs:70 | an innovation in both parents forms a group of several, so one copy is taken |
| Crossovers.WithinBoundCopied | src/Neat.Core/Evolution/EvolutionService.cs:74 | a one-parent innovation within the shared range is copied |
| Crossovers.PreferredCopied | src/Neat.Core/Evolution/EvolutionService.cs:77 | an innovation of the preferred parent is always copied |
| Crossovers.OtherDropped | src/Neat.Core/Evolution/EvolutionService.cs:79 | an excess innovation only the other parent carries, once, is dropped |
| Crossovers.DistinctById | src/Neat.Core/Evolution/EvolutionService.cs:85-90 | DistinctBy(Id) keeps the first neuron of every id and no id twice |
| Crossovers.KeepRequired | src/Neat.Core/Evolution/EvolutionService.cs:92-96 | keeps exactly the Bias, Input and Output neurons and those a child synapse touches |
| Crossovers.KeepRequiredIdempotent | src/Neat.Core/Evolution/EvolutionService.cs:98-103 | the second neuron filter changes nothing |
| Crossovers.ChildNeuronsClosed | src/Neat.Core/Evolution/EvolutionService.cs:84-103 | synapses drawn from closed parents join neurons the child keeps |
| Crossovers.Distinct | src/Neat.Core/Evolution/EvolutionService.cs:47 | the elements in first-occurrence order, each once, and nothing else |
| Evolution.Mutate | src/Neat.Core/Evolution/EvolutionService.cs:114-146 | Mutate returns the crossover child when no operator fires and otherwise the output of the last operator that fired, applied to the original child whose synapse array holds the flag changes of earlier in-place operators; operators only register new innovation pairs; a structural operator that needs a number fails only before the first Rebuild |
| Evolution.MakeChildren | src/Neat.Core/Evolution/EvolutionService.cs:19-34 | the result is Mutate's outcome on the crossover of the two parents, with the same failure and registry guarantees |
| Evolution.ApplyOperator | src/Neat.Core/Evolution/EvolutionService.cs:139-143 | one operator yields what its definition produces from the child and the current array, writes the array only for the disable, enable and toggle operators, and extends the registry |
| Evolution.Probabilities | src/Neat.Core/Evolution/EvolutionService.cs:117-137 | eleven probabilities, fixed from the crossover child before any operator runs, 0 for an operator that cannot apply |
| Evolution.LastFired | src/Neat.Core/Evolution/EvolutionService.cs:139-143 | the last operator whose roll is below its probability, or none when no operator fires |
| Evolution.Eligibility | src/Neat.Core/Evolution/EvolutionService.cs:120-136 | an operator that cannot apply (no enabled synapse, no Hidden neuron, hidden limit reached, ...) never fires |
| Evolution.InPlaceFlags | src/Neat.Core/Evolution/EvolutionService.cs:128-130 | the shared array only ever has enabled flags changed, and no operator before the disable operator writes into it |
| Evolution.LastWins | src/Neat.Core/Evolution/EvolutionService.cs:139-145 | mutations do not chain: when a neuron operator fires last the child's synapses come back untouched, and when a weight, synapse or flag operator fires last the child's neurons come back untouched |
| Evolution.OutcomeKeeps | src/Neat.Core/Evolution/EvolutionService.cs:114-146 | Mutate keeps a genome IsValidateGenome accepts accepted and keeps a closed genome closed |
| Evolution.ProducedKeeps | src/Neat.Core/Evolution/EvolutionService.cs:148-425 | every operator, on any flag-only change of the child's array, keeps validity and closure |
| Evolution.OutcomeAcyclic | src/Neat.Core/Evolution/EvolutionService.cs:114-146 | with recurrent synapses disallowed, Mutate turns a valid, closed, acyclic genome into an acyclic one |
| Evolution.ProducedAcyclic | src/Neat.Core/Evolution/EvolutionService.cs:148-425 | each operator keeps such a genome acyclic |
| Evolution.ProducedExtends | src/Neat.Core/Evolution/EvolutionService.cs:148-398 | registering more pairs later keeps what an operator produced |
| Evolution.ConnectedAsIntro | src/Neat.Core/Evolution/EvolutionService.cs:148-398 | appending a synapse whose innovation number is registered for its pair is a connection step |
| Evolution.SplitAsIntro | src/Neat.Core/Evolution/EvolutionService.cs:148-398 | splitting a synapse with two registered innovation numbers is a split step |
| Evolution.SynapseSources | src/Neat.Core/Evolution/EvolutionService.cs:152-155 | AddSynapse tries the non-Output neurons, each once, in the drawn order |
| Evolution.DirectSources | src/Neat.Core/Evolution/EvolutionService.cs:217-220 | AddDirectSynapse tries the Input and Bias neurons, each once, in the drawn order |
| StructuralMutations.AddSynapse | src/Neat.Core/Evolution/EvolutionService.cs:148-211 | the loop over shuffled non-Output sources settles on exactly the first pair FirstConnection describes; with no pair the genome comes back unchanged, otherwise the genome plus one new enabled synapse for that pair under a number the registry holds for it; fails only before the first Rebuild |
| StructuralMutations.FirstConnection | src/Neat.Core/Evolution/EvolutionService.cs:157-167 | the pair found joins a source to an unconnected target, skipping, when loops are checked, every candidate whose target is upstream of its source |
| StructuralMutations.DrawTarget | src/Neat.Core/Evolution/EvolutionService.cs:160-164 | the drawn target is a target kind neuron no synapse (enabled or not) joins the source to, and there is none exactly when all are joined |
| StructuralMutations.Unconnected | src/Neat.Core/Evolution/EvolutionService.cs:164 | exactly the targets no synapse joins the source to |
| StructuralMutations.OfKinds | src/Neat.Core/Evolution/EvolutionService.cs:151-155 | exactly the neurons of the listed kinds |
| StructuralMutations.ChoiceAdmissible | src/Neat.Core/Evolution/EvolutionService.cs:157-170 | the pair either operator settles on joins a source-kind neuron to a target-kind neuron with no synapse between them yet |
| StructuralMutations.ChoiceComplete | src/Neat.Core/Evolution/EvolutionService.cs:222-232 | without the loop check no pair is found exactly when every source-kind neuron is already joined to every target-kind neuron |
| StructuralMutations.AddSynapseAdmissible | src/Neat.Core/Evolution/EvolutionService.cs:151-164 | AddSynapse's new synapse runs from a non-Output neuron to a non-Input, non-Bias neuron and has no predecessor between them |
| StructuralMutations.AddSynapseNoBackPath | src/Neat.Core/Evolution/EvolutionService.cs:167 | unless recurrence is allowed, no chain leads back from the chosen target to the source, so no self-loop is added either |
| StructuralMutations.AddSynapseAcyclic | src/Neat.Core/Evolution/EvolutionService.cs:167-206 | unless recurrence is allowed, the new synapse keeps an acyclic genome acyclic |
| StructuralMutations.AddDirectSynapse | src/Neat.Core/Evolution/EvolutionService.cs:213-273 | the same search over Input/Bias sources and Output targets without the loop check; it only ever appends one new enabled synapse or returns the genome unchanged |
| StructuralMutations.NoExistingSynapse | src/Neat.Core/Evolution/EvolutionService.cs:229-253 | the re-enable branch is dead code: the chosen target is unconnected, so the lookup of an existing synapse finds none |
| StructuralMutations.AddDirectAdmissible | src/Neat.Core/Evolution/EvolutionService.cs:216-229 | AddDirectSynapse's new synapse joins an Input/Bias neuron to an Output neuron with no synapse between them yet |
| StructuralMutations.DirectAcyclic | src/Neat.Core/Evolution/EvolutionService.cs:255-268 | in a valid genome nothing enters an Input or Bias neuron, so a direct synapse closes no cycle |
| StructuralMutations.Connect | src/Neat.Core/Evolution/EvolutionService.cs:193-206 | the child with one new enabled synapse appended; a definition, ConnectKeeps states what it keeps |
| StructuralMutations.ConnectKeeps | src/Neat.Core/Evolution/EvolutionService.cs:193-206 | appending an admissible synapse keeps the neurons, a valid genome valid and a closed genome closed |
| StructuralMutations.ConnectFresh | src/Neat.Core/Evolution/EvolutionService.cs:199 | when the genome agrees with the registry, the number drawn for an unconnected pair is new to the genome, so innovations stay unique and consistent |
| StructuralMutations.Victim | src/Neat.Core/Evolution/EvolutionService.cs:348-363 | the split synapse is an enabled synapse of the genome, and there is none exactly when no synapse is enabled |
| StructuralMutations.ByPriority | src/Neat.Core/Evolution/EvolutionService.cs:349-357 | the stable OrderBy puts the synapses touching no Hidden or Bias neuron first and keeps every enabled synapse |
| StructuralMutations.VictimPreferred | src/Neat.Core/Evolution/EvolutionService.cs:357-359 | when the drawn window is no wider than the preferred synapses, the victim touches no Hidden or Bias neuron |
| StructuralMutations.AddHiddenNeuron | src/Neat.Core/Evolution/EvolutionService.cs:336-398 | with no enabled synapse the genome comes back unchanged; otherwise the split of the victim with numbers the registry holds for (source, new) and (new, target); fails only before the first Rebuild |
| StructuralMutations.Split | src/Neat.Core/Evolution/EvolutionService.cs:366-397 | the child with the split synapse disabled and the new neuron and two synapses appended; a definition, SplitKeeps states what it changes |
| StructuralMutations.SplitKeeps | src/Neat.Core/Evolution/EvolutionService.cs:366-397 | the split adds exactly one Hidden neuron with the new id at the end and two synapses, disables every synapse carrying the victim's innovation and changes nothing else, keeping closure and unique ids |
| StructuralMutations.DisableInnovation | src/Neat.Core/Evolution/EvolutionService.cs:385-387 | only enabled flags change, and a slot ends enabled exactly when it was and does not carry the innovation |
| StructuralMutations.SplitValid | src/Neat.Core/Evolution/EvolutionService.cs:366-397 | with a fresh id the split keeps a valid genome valid |
| StructuralMutations.SplitEdge | src/Neat.Core/Evolution/EvolutionService.cs:366-389 | the split's synapses join old neurons as before, or run from the victim's source into the new neuron and from it to the victim's target |
| StructuralMutations.SplitAcyclic | src/Neat.Core/Evolution/EvolutionService.cs:366-389 | splitting a synapse of a closed acyclic genome around a fresh id closes no cycle |
| SynapseSwitches.ToggleSynapse | src/Neat.Core/Evolution/EvolutionService.cs:287-298 | the child's array afterwards is exactly Toggled of its old contents: written in place, one slot at most |
| SynapseSwitches.Candidates | src/Neat.Core/Evolution/EvolutionService.cs:304 | exactly the synapses whose flag is the given one |
| SynapseSwitches.Count | src/Neat.Core/Evolution/EvolutionService.cs:128-129 | the number of synapses whose flag is the given one; a definition, CountUpdate and ToggleCount state how writes move it |
| SynapseSwitches.Toggled | src/Neat.Core/Evolution/EvolutionService.cs:289-295 | no change on an empty array; otherwise exactly the picked slot has its flag flipped and every other slot is unchanged |
| SynapseSwitches.ToggleTwice | src/Neat.Core/Evolution/EvolutionService.cs:291-295 | toggling the same slot twice gives the array back |
| SynapseSwitches.ToggleCount | src/Neat.Core/Evolution/EvolutionService.cs:291-295 | a toggle moves the enabled count by exactly one |
| SynapseSwitches.SwitchSynapse | src/Neat.Core/Evolution/EvolutionService.cs:300-334 | DisableSynapse and EnableSynapse leave the child's array exactly as Switched says, written in place |
| SynapseSwitches.Switched | src/Neat.Core/Evolution/EvolutionService.cs:302-313 | nothing changes without a candidate; otherwise one slot, the first carrying the picked candidate's innovation, gets the new flag and nothing else changes (the "Synapse not found" throw cannot happen) |
| SynapseSwitches.SwitchCount | src/Neat.Core/Evolution/EvolutionService.cs:304-313 | with unique innovations the switched slot is the candidate itself, so the count of the new flag grows by exactly one |
| SynapseSwitches.FlagsKeepStructure | src/Neat.Core/Evolution/EvolutionService.cs:287-334 | flag changes keep a genome's validity, closure and chains, since both checks look at every synapse, enabled or not |
| SynapseSwitches.FlagsOnlyCompose | src/Neat.Core/Evolution/EvolutionService.cs:128-130 | flag-only changes compose, so the three in-place operators together only change flags |
| SynapseSwitches.CountUpdate | src/Neat.Core/Evolution/EvolutionService.cs:292-295 | writing one slot moves the count of a flag by that slot's old and new flag |
| Mutations.Reweight | src/Neat.Core/Evolution/EvolutionService.cs:427-467 | ModifySynapseWeight and ReplaceSynapseWeight at slot level: no change without an enabled synapse; otherwise every slot carrying the picked enabled synapse's innovation takes the new weight and all other weights and all wiring stay |
| Mutations.ReplaceActivation | src/Neat.Core/Evolution/EvolutionService.cs:469-481 | no change without a Hidden neuron; otherwise every neuron carrying the picked Hidden neuron's id takes the new function and nothing else changes |
| Mutations.ModifyBias | src/Neat.Core/Evolution/EvolutionService.cs:483-495 | no change without a Hidden neuron; otherwise every neuron carrying the picked Hidden neuron's id takes that neuron's bias plus the drawn delta and nothing else changes |
| Mutations.NonStructuralKeepsStructure | src/Neat.Core/Evolution/EvolutionService.cs:427-495 | the weight, activation and bias operators keep validity, closure and every chain of synapses |
| Mutations.SameWiring | src/Neat.Core/Evolution/EvolutionService.cs:427-495 | genomes with the same wiring and roles agree on validity, closure and chains |
| Mutations.WithoutId | src/Neat.Core/Evolution/EvolutionService.cs:410-413 | the neurons left are exactly those of the input with another id |
| Mutations.NotTouching | src/Neat.Core/Evolution/EvolutionService.cs:415-418 | the synapses left are exactly those of the input touching the id at neither end |
| Mutations.RemoveHidden | src/Neat.Core/Evolution/EvolutionService.cs:400-425 | no change without a Hidden neuron; otherwise a Hidden neuron is picked and the neurons with its id and exactly the synapses touching it go, the rest staying in order |
| Mutations.RemoveHiddenKeeps | src/Neat.Core/Evolution/EvolutionService.cs:410-418 | the removed id is gone, every other neuron and every synapse not touching it is kept, and a valid or closed genome stays so |
| Mutations.NotTouchingClosed | src/Neat.Core/Evolution/EvolutionService.cs:410-418 | dropping a neuron together with every synapse touching it keeps every synapse end among the neurons |
| Mutations.SubgenomeValid | src/Neat.Core/Evolution/EvolutionService.cs:410-418 | dropping neurons and synapses without adding a Bias neuron keeps a genome valid |
| Mutations.HiddenNeurons | src/Neat.Core/Evolution/EvolutionService.cs:471 | exactly the Hidden neurons |
| LoopChecks.IsInLoop | src/Neat.Core/Evolution/EvolutionService.cs:275-285 | IsInLoop itself: true on a visited neuron, false without feeders, else the walk from its feeders; its meaning is PathIsLoop and LoopIsPath |
| LoopChecks.AnyInLoop | src/Neat.Core/Evolution/EvolutionService.cs:284 | the Any over the feeders; a definition without a contract |
| LoopChecks.Feeders | src/Neat.Core/Evolution/EvolutionService.cs:281 | exactly the sources of synapses into the neuron |
| LoopChecks.PathIsLoop | src/Neat.Core/Evolution/EvolutionService.cs:275-285 | a backward chain into the source that starts at a visited neuron or at a neuron met again further along it makes IsInLoop answer true; with LoopIsPath this is an if-and-only-if |
| LoopChecks.LoopIsPath | src/Neat.Core/Evolution/EvolutionService.cs:275-285 | a true answer comes with a chain into the source starting at a visited neuron or on a cycle, so any cycle upstream of the source also counts |
| LoopChecks.NoLoopNoPath | src/Neat.Core/Evolution/EvolutionService.cs:167 | when the check lets a pair through, no chain leads from the target back to the source |
| LoopChecks.MeasureDrops | src/Neat.Core/Evolution/EvolutionService.cs:277-278 | each step visits one more neuron, so the walk terminates |
| LoopChecks.AddEdgeAcyclic | src/Neat.Core/Evolution/EvolutionService.cs:167-206 | a synapse whose target has no chain back to its source keeps an acyclic genome acyclic |
| LoopChecks.SubsetAcyclic | src/Neat.Core/Evolution/EvolutionService.cs:415-418 | dropping synapses never closes a cycle |
| LoopChecks.ShortestBack | src/Neat.Core/Evolution/EvolutionService.cs:193-206 | a chain over the extended synapses back to the new synapse's source contains one over the old synapses |
| GenomeDistances.GenomesDistance | src/Neat.Core/Species/SpeciesBuilder.cs:74-135 | CalcGenomesDistance: the weighted parts of the pair; no contract of its own, its properties are DistanceToSelf and DistanceSymmetric |
| GenomeDistances.DistanceParts | src/Neat.Core/Species/SpeciesBuilder.cs:76-125 | the excess and disjoint counts over the enabled innovations, the mean activation mismatch and bias gap of the matched neurons and the mean weight gap of the matched synapses; what each term counts is GeneKinds and NeuronKinds |
| GenomeDistances.Weighted | src/Neat.Core/Species/SpeciesBuilder.cs:127-132 | each part times its coefficient, all but the weight gap divided by the normalization factor; a definition without a contract |
| GenomeDistances.GeneKinds | src/Neat.Core/Species/SpeciesBuilder.cs:81-109 | for genomes with unique innovation numbers, an innovation counts as matched exactly when both genomes have it enabled (its weight term being the two weights' absolute gap), as disjoint exactly when one has it and it lies within the shared range, and as excess exactly when one has it and it lies beyond |
| GenomeDistances.NeuronKinds | src/Neat.Core/Species/SpeciesBuilder.cs:111-118 | with unique ids and coherent wiring, a neuron id counts as matched exactly when both genomes carry it and some enabled synapse of either starts or ends at it |
| GenomeDistances.TouchedIff | src/Neat.Core/Species/SpeciesBuilder.cs:111-117 | under coherent wiring, checking only the first synapse of each innovation group finds a neuron exactly when some enabled synapse touches it |
| GenomeDistances.DistanceToSelf | src/Neat.Core/Species/SpeciesBuilder.cs:74-135 | a genome with unique neuron ids is at distance 0 from itself |
| GenomeDistances.DistanceSymmetric | src/Neat.Core/Species/SpeciesBuilder.cs:74-135 | under unique ids and coherent wiring the distance does not depend on the order of the two genomes |
| GenomeDistances.SelfGroups | src/Neat.Core/Species/SpeciesBuilder.cs:94-109 | a genome paired with itself has no weight gap, no disjoint and no excess innovation |
| GenomeDistances.SelfNeurons | src/Neat.Core/Species/SpeciesBuilder.cs:120-125 | a genome paired with itself has no activation mismatch and no bias gap |
| GenomeDistances.SwappedGroups | src/Neat.Core/Species/SpeciesBuilder.cs:86-109 | swapping the genomes leaves every innovation's matched, weight-gap, disjoint and excess term unchanged |
| GenomeDistances.SwappedCarriers | src/Neat.Core/Species/SpeciesBuilder.cs:112-118 | swapping the genomes keeps the size of every id group, at most two, and reverses a group of two |
| GenomeDistances.SwappedNeurons | src/Neat.Core/Species/SpeciesBuilder.cs:117-125 | swapping the genomes leaves every id's matched, mismatch and bias-gap term unchanged |
| GenomeDistances.SwappedKeys | src/Neat.Core/Species/SpeciesBuilder.cs:88 | swapping the genomes permutes the innovation groups |
| GenomeDistances.SwappedNeuronKeys | src/Neat.Core/Species/SpeciesBuilder.cs:116 | swapping the genomes permutes the neuron id groups |
| GenomeDistances.SwappedGeneSums | src/Neat.Core/Species/SpeciesBuilder.cs:94-109 | the matched count, weight-gap sum, disjoint count and excess count are the same either way round |
| GenomeDistances.SwappedNeuronSums | src/Neat.Core/Species/SpeciesBuilder.cs:120-125 | the matched-neuron count, mismatch sum and bias-gap sum are the same either way round |
| GenomeDistances.MembersAre | src/Neat.Core/Species/SpeciesBuilder.cs:86-88 | an innovation group holds exactly the enabled synapses carrying its number |
| GenomeDistances.MembersOfUnique | src/Neat.Core/Species/SpeciesBuilder.cs:86-92 | within one genome with unique innovations a group has one synapse when that innovation is enabled, else none |
| GenomeDistances.MembersAppend | src/Neat.Core/Species/SpeciesBuilder.cs:76-79 | a group over two concatenated lists is the first list's group followed by the second's |
| GenomeDistances.EnabledInnovations | src/Neat.Core/Species/SpeciesBuilder.cs:87 | exactly the innovation numbers of enabled synapses |
| GenomeDistances.Keys | src/Neat.Core/Species/SpeciesBuilder.cs:88 | each innovation number with a non-empty group, once |
| GenomeDistances.LastInnovation | src/Neat.Core/Species/SpeciesBuilder.cs:83-84 | an upper bound of every innovation number in the list, reached by one of them when the list is non-empty |
| GenomeDistances.CarriersAre | src/Neat.Core/Species/SpeciesBuilder.cs:116 | an id group holds exactly the neurons carrying that id |
| GenomeDistances.CarriersAppend | src/Neat.Core/Species/SpeciesBuilder.cs:112-116 | an id group over two concatenated lists is the first's group followed by the second's |
| GenomeDistances.CarriersUnique | src/Neat.Core/Species/SpeciesBuilder.cs:116 | within one genome with unique ids a group has at most one neuron |
| GenomeDistances.CarriedOnce | src/Neat.Core/Species/SpeciesBuilder.cs:116 | within one genome with unique ids a group has one neuron exactly when the id is present |
| GenomeDistances.NeuronIds | src/Neat.Core/Species/SpeciesBuilder.cs:116 | exactly the ids of the neurons |
| GenomeDistances.NeuronKeys | src/Neat.Core/Species/SpeciesBuilder.cs:116 | each id with a non-empty group, once |
| GenomeDistances.ActiveSynapses | src/Neat.Core/Species/SpeciesBuilder.cs:111 | only enabled synapses of the list |
| GenomeDistances.SumOfPermutation | src/Neat.Core/Species/SpeciesBuilder.cs:95-125 | the sums over groups do not depend on the order of the groups |
| GenomeDistances.SumOfAppend | src/Neat.Core/Species/SpeciesBuilder.cs:95-125 | a sum over two key lists is the sum of the two sums |
| GenomeDistances.SumOfPointwise | src/Neat.Core/Species/SpeciesBuilder.cs:95-125 | sums agree when the summands agree on every key |
| GenomeDistances.SumOfZero | src/Neat.Core/Species/SpeciesBuilder.cs:95-125 | a sum of zero terms is zero |
| GenomeDistances.SumOfRelabel | src/Neat.Core/Species/SpeciesBuilder.cs:95-125 | permuted keys with agreeing summands give the same sum |
| GenomeDistances.SameKeys | src/Neat.Core/Species/SpeciesBuilder.cs:88 | two repetition-free lists with the same elements are permutations of each other |
| GenomeDistances.Occurrences | src/Neat.Core/Species/SpeciesBuilder.cs:88 | a repetition-free list holds each element once |
| SpeciesBuilders.MinDistance | src/Neat.Core/Species/SpeciesBuilder.cs:141-144 | succeeds exactly when the group has members (Min throws otherwise) |
| SpeciesBuilders.MinDistanceIsMin | src/Neat.Core/Species/SpeciesBuilder.cs:143 | the result is the distance to some member and no member is nearer |
| SpeciesBuilders.SpecieDistance | src/Neat.Core/Species/SpeciesBuilder.cs:137-165 | succeeds exactly when the group is non-empty and, under the half policy, has at least two members |
| SpeciesBuilders.SpecieDistanceIsMemberDistance | src/Neat.Core/Species/SpeciesBuilder.cs:137-165 | every policy's distance is the distance to some member, and under the min policy to the nearest member |
| SpeciesBuilders.HalfOfSingletonFails | src/Neat.Core/Species/SpeciesBuilder.cs:152-159 | the half policy throws on a one-member group, since Take(1 / 2) is empty |
| SpeciesBuilders.Distances | src/Neat.Core/Species/SpeciesBuilder.cs:30-35 | the distance of a genome to each group in order, failing when any of them throws; a definition, DistancesSucceed says when it succeeds |
| SpeciesBuilders.Nearest | src/Neat.Core/Species/SpeciesBuilder.cs:30-38 | none exactly when no distance is below the threshold; otherwise a group below the threshold, no group below it is nearer, and every earlier group is strictly farther |
| SpeciesBuilders.Place | src/Neat.Core/Species/SpeciesBuilder.cs:30-51 | one pass of the foreach: the genome joins its nearest group below the threshold or a new last group; a definition, PlaceAdds states what it adds |
| SpeciesBuilders.Grouped | src/Neat.Core/Species/SpeciesBuilder.cs:28-52 | the groups after the foreach over the first genomes; a definition, GroupedPartitions states that it partitions the input |
| SpeciesBuilders.GroupedStep | src/Neat.Core/Species/SpeciesBuilder.cs:28-52 | the grouping after genome i + 1 places genome i into the grouping of the genomes before it |
| SpeciesBuilders.GroupedFailureSticks | src/Neat.Core/Species/SpeciesBuilder.cs:28-52 | once a genome's distance throws, the whole Build throws |
| SpeciesBuilders.GroupedOne | src/Neat.Core/Species/SpeciesBuilder.cs:44-51 | the first genome always starts the first group |
| SpeciesBuilders.PlaceAdds | src/Neat.Core/Species/SpeciesBuilder.cs:44-51 | placing a genome keeps groups non-empty, adds exactly that genome to their contents and adds at most one group |
| SpeciesBuilders.GroupedPartitions | src/Neat.Core/Species/SpeciesBuilder.cs:28-60 | every genome lands in exactly one group: no group is empty, the groups together are a permutation of the input, and there are at most as many groups as genomes |
| SpeciesBuilders.DistancesSucceed | src/Neat.Core/Species/SpeciesBuilder.cs:139-150 | under the min and random policies a genome has a distance to every non-empty group, so the lookup does not throw |
| SpeciesBuilders.GroupedSucceeds | src/Neat.Core/Species/SpeciesBuilder.cs:139-150 | under the min and random policies the grouping never throws |
| SpeciesBuilders.HalfPolicyFails | src/Neat.Core/Species/SpeciesBuilder.cs:152-159 | under the half policy any two or more genomes make Build throw: the second genome meets a group of one |
| SpeciesBuilders.FlattenAppend | src/Neat.Core/Species/SpeciesBuilder.cs:47-48 | appending a new group appends its genomes to the contents |
| SpeciesBuilders.FlattenUpdate | src/Neat.Core/Species/SpeciesBuilder.cs:51 | adding a genome to an existing group adds exactly it to the contents |
| SpeciesBuilders.WorkingThreshold | src/Neat.Core/Species/SpeciesBuilder.cs:24-26 | positive; the stored threshold when it is set and positive, else 3 |
| SpeciesBuilders.AdjustedThreshold | src/Neat.Core/Species/SpeciesBuilder.cs:62-68 | more than twice the target species raises the threshold by two steps unclamped; otherwise one step up, none or one down by the count, clamped to [0.5, 4] |
| SpeciesBuilders.OnTargetKeepsThreshold | src/Neat.Core/Species/SpeciesBuilder.cs:62-68 | on target and within the band the threshold does not move |
| SpeciesBuilders.SpeciesBuilder.constructor | src/Neat.Core/Species/SpeciesBuilder.cs:15-18 | the builder holds the given settings |
| SpeciesBuilders.SpeciesBuilder.Build | src/Neat.Core/Species/SpeciesBuilder.cs:20-72 | succeeds exactly when the grouping does; then one species per group in order and the settings' threshold replaced by the adjusted one; a throw leaves the settings unchanged |
| Incubators.RoundHalfEven | src/Neat.Core/Evolution/IncubatorService.cs:125 | Math.Round: within one half of x, and the even neighbour at a tie |
| Incubators.RoundIsNearest | src/Neat.Core/Evolution/IncubatorService.cs:125 | no integer is nearer to x than the rounded value |
| Incubators.RoundHalfEvenExamples | src/Neat.Core/Evolution/IncubatorService.cs:125 | 0.5 and 2.5 round down and 1.5 up to the even neighbour, -0.5 to 0 |
| Incubators.Take | src/Neat.Core/Evolution/IncubatorService.cs:153 | a prefix of the list of length n, clipped to [0, length] |
| Incubators.Insert | src/Neat.Core/Evolution/IncubatorService.cs:150 | adds exactly the genome to the list's contents |
| Incubators.InsertOrders | src/Neat.Core/Evolution/IncubatorService.cs:150 | inserting into a fittest-first list keeps it fittest first |
| Incubators.InsertBounded | src/Neat.Core/Evolution/IncubatorService.cs:150 | every genome of the insertion is a member or the inserted genome, so a fitness bound on those bounds the result |
| Incubators.ConsOrdered | src/Neat.Core/Evolution/IncubatorService.cs:150 | a genome at least as fit as every genome of a fittest-first list can go in front of it |
| Incubators.SortByFitness | src/Neat.Core/Evolution/IncubatorService.cs:150 | a permutation of the input |
| Incubators.SortOrders | src/Neat.Core/Evolution/IncubatorService.cs:150 | the result is in descending fitness |
| Incubators.SortKeepsOrdered | src/Neat.Core/Evolution/IncubatorService.cs:150 | a stable sort: an ordered list comes out unchanged |
| Incubators.BestFirst | src/Neat.Core/Evolution/IncubatorService.cs:150-151 | as many genomes as the input |
| Incubators.BestFirstOrders | src/Neat.Core/Evolution/IncubatorService.cs:150-151 | OrderByDescending.ThenBy(random) is a permutation of the input in descending fitness |
| Incubators.EveryBestFirst | src/Neat.Core/Evolution/IncubatorService.cs:150-151 | every descending order of the input, however it breaks ties, is produced by some random draws |
| Incubators.FittestKept | src/Neat.Core/Evolution/IncubatorService.cs:67-69 | taking the first n keeps members only, none less fit than any member left behind |
| Incubators.HeadIsBest | src/Neat.Core/Evolution/IncubatorService.cs:150-151 | the first genome has the group's best fitness |
| Incubators.HeadIsMax | src/Neat.Core/Evolution/IncubatorService.cs:150-151 | any fittest-first permutation starts with a genome of maximal fitness |
| Incubators.MinFitness | src/Neat.Core/Evolution/IncubatorService.cs:144 | a lower bound of the members' fitness reached by one of them |
| Incubators.BestOf | src/Neat.Core/Evolution/IncubatorService.cs:143 | an upper bound of every species' best fitness reached by one species |
| Incubators.BestIndex | src/Neat.Core/Evolution/IncubatorService.cs:143 | picks a species whose best fitness no species exceeds |
| Incubators.BestIndexStep | src/Neat.Core/Evolution/IncubatorService.cs:143 | the prefix's pick or the last species, whichever is fitter, is not exceeded by any species |
| Incubators.WorstOf | src/Neat.Core/Evolution/IncubatorService.cs:144 | a lower bound of every species' worst fitness |
| Incubators.WorstOfStep | src/Neat.Core/Evolution/IncubatorService.cs:144 | the lower of the prefix's worst and the last species' worst bounds every species from below |
| Incubators.KeepCount | src/Neat.Core/Evolution/IncubatorService.cs:153 | max(1 and the half-even rounding of the count times one less the kill rate); its bounds are KeepCountBounds |
| Incubators.Culled | src/Neat.Core/Evolution/IncubatorService.cs:147-155 | the KeepCount fittest members of a species, fittest first with ties in drawn order; a definition, CulledAt places it in the Select |
| Incubators.KeepCountBounds | src/Neat.Core/Evolution/IncubatorService.cs:153 | with a kill rate in [0, 1] a species keeps between one member and all of them, and all of them at rate 0 |
| Incubators.KeepCountExamples | src/Neat.Core/Evolution/IncubatorService.cs:153 | at rate 0.5, five members keep two (2.5 rounds to even), three keep two and one keeps one |
| Incubators.CulledAll | src/Neat.Core/Evolution/IncubatorService.cs:146-155 | one culled species per input species |
| Incubators.CulledAt | src/Neat.Core/Evolution/IncubatorService.cs:146-155 | species i of the Select is species i of the input, culled with its own tie draws |
| Incubators.Surviving | src/Neat.Core/Evolution/IncubatorService.cs:156-162 | every species kept passes both Where filters |
| Incubators.CullSpecies | src/Neat.Core/Evolution/IncubatorService.cs:141-181 | succeeds exactly when there is a species and none is empty (Max and Min throw otherwise), and then returns at least one species, every one of them with members (as the AverageFitness of the next step needs) |
| Incubators.Fallback | src/Neat.Core/Evolution/IncubatorService.cs:165-178 | the fallback species is never empty |
| Incubators.AllGenomesNonEmpty | src/Neat.Core/Evolution/IncubatorService.cs:167-169 | non-empty species give a non-empty SelectMany |
| Incubators.SurvivorKept | src/Neat.Core/Evolution/IncubatorService.cs:161 | every culled species passing the filter is kept |
| Incubators.SurvivorFrom | src/Neat.Core/Evolution/IncubatorService.cs:161 | every kept species is one of the culled species |
| Incubators.CulledIsFittest | src/Neat.Core/Evolution/IncubatorService.cs:147-155 | a culled species has KeepCount members (at most all), drawn from its source, none less fit than a member dropped |
| Incubators.CulledHead | src/Neat.Core/Evolution/IncubatorService.cs:147-155 | culling keeps a species' best member first |
| Incubators.FallbackOnlyWhenUniform | src/Neat.Core/Evolution/IncubatorService.cs:161-165 | the fallback species forms only when the best and worst fitness of the input are equal |
| Incubators.BestSurvives | src/Neat.Core/Evolution/IncubatorService.cs:161 | when fitness varies, the species holding the best genome survives the filter |
| Incubators.MinAtMostMax | src/Neat.Core/Evolution/IncubatorService.cs:143-144 | a species' worst fitness is at most its best |
| Incubators.Shares | src/Neat.Core/Evolution/IncubatorService.cs:121-128 | every entry left after the first Where has a positive count |
| Incubators.Shifted | src/Neat.Core/Evolution/IncubatorService.cs:132-133 | the drift correction keeps the number of entries |
| Incubators.Positive | src/Neat.Core/Evolution/IncubatorService.cs:136-138 | every entry returned has a positive count |
| Incubators.Indices | src/Neat.Core/Evolution/IncubatorService.cs:132 | the indices 0 to n - 1 in order |
| Incubators.Allotment | src/Neat.Core/Evolution/IncubatorService.cs:100-139 | succeeds exactly when no species is empty (AverageFitness throws otherwise) |
| Incubators.CountSpeciesOffspring | src/Neat.Core/Evolution/IncubatorService.cs:100-139 | the method that updates the entries in place one shuffled entry at a time returns exactly Allotment |
| Incubators.ChosenIndices | src/Neat.Core/Evolution/IncubatorService.cs:132 | the entries the foreach visits are distinct valid indices, as many as the drift or all of them |
| Incubators.ShuffledUnique | src/Neat.Core/Evolution/IncubatorService.cs:132 | a shuffle keeps a list repetition-free |
| Incubators.ShiftedStep | src/Neat.Core/Evolution/IncubatorService.cs:132-133 | one more visited entry moves exactly that entry by the sign of the drift |
| Incubators.CountedUpdate | src/Neat.Core/Evolution/IncubatorService.cs:133 | moving one entry's count moves the total by the same amount |
| Incubators.CountedShifted | src/Neat.Core/Evolution/IncubatorService.cs:131-133 | the correction moves the total by the sign of the drift once per visited entry |
| Incubators.CountedPositive | src/Neat.Core/Evolution/IncubatorService.cs:136-138 | dropping zero counts keeps the total |
| Incubators.AllotmentReachesTarget | src/Neat.Core/Evolution/IncubatorService.cs:130-138 | when the drift is no larger than the number of entries, the counts add up to the target, as the Debug.Assert expects, and all are positive |
| Incubators.DriftBeyondEntries | src/Neat.Core/Evolution/IncubatorService.cs:121-138 | two equally fit species and a target of one both round to zero, so the allotment is empty and misses the target |
| Incubators.AllotmentNonNegative | src/Neat.Core/Evolution/IncubatorService.cs:100-139 | with a non-negative target no count is negative |
| Incubators.Except | src/Neat.Core/Evolution/IncubatorService.cs:80 | the members other than the parent, each once, empty exactly when every member is the parent |
| Incubators.ExceptNonEmpty | src/Neat.Core/Evolution/IncubatorService.cs:78-80 | with two or more members, a second parent exists exactly when the members are not all the same genome |
| Incubators.Paired | src/Neat.Core/Evolution/IncubatorService.cs:82-87 | the crossover arguments of two drawn parents, preferring the first when it is strictly fitter; a definition, Parents states the pair |
| Incubators.Parents | src/Neat.Core/Evolution/IncubatorService.cs:77-87 | succeeds exactly when a pair can be drawn; both parents are members, different when there are two or more members, and parent 1 is preferred exactly when strictly fitter |
| Incubators.ParentsReach | src/Neat.Core/Evolution/IncubatorService.cs:77-80 | any two different members can be drawn as parent 1 and parent 2 |
| Incubators.BredFrom | src/Neat.Core/Evolution/IncubatorService.cs:77-89 | a child made by MakeChildren from the drawn parents is a bred child |
| Incubators.BredExtends | src/Neat.Core/Evolution/IncubatorService.cs:74-90 | a bred child stays one when later children add innovations to the registry |
| Incubators.ResizedExtends | src/Neat.Core/Evolution/IncubatorService.cs:58-96 | a resized species stays valid when later species add innovations to the registry |
| Incubators.Trimmed | src/Neat.Core/Evolution/IncubatorService.cs:61-72 | a species with no fewer members than its count keeps that many of its fittest; a definition, ResizedSize states its size and contents |
| Incubators.ResizedSize | src/Neat.Core/Evolution/IncubatorService.cs:58-96 | every species ends with its count of members (none below zero), and a trimmed one keeps members only, none less fit than one dropped |
| Incubators.Resize | src/Neat.Core/Evolution/IncubatorService.cs:58-96 | one entry of the Select: the trimmed species or the children bred ahead of the old members, only adding to the registry; it fails only when children are needed and no pair can be drawn or the registry is uninitialised |
| Incubators.BreedChildren | src/Neat.Core/Evolution/IncubatorService.cs:74-90 | the Times loop: exactly the missing number of children, child c bred with the draws of child c, the registry only growing; it fails only when a child is needed and no pair can be drawn or the registry is uninitialised |
| Incubators.BreedOne | src/Neat.Core/Evolution/IncubatorService.cs:76-89 | one child: two drawn parents, crossover and Mutate, the registry only growing; it fails always when no pair can be drawn and otherwise only when the registry is uninitialised |
| Incubators.GrownFrom | src/Neat.Core/Evolution/IncubatorService.cs:91-94 | the bred children placed ahead of the old members make a grown species |
| Incubators.AllBredAppend | src/Neat.Core/Evolution/IncubatorService.cs:74-90 | one more bred child extends the bred children |
| Incubators.AllBredExtends | src/Neat.Core/Evolution/IncubatorService.cs:74-90 | bred children stay bred when the registry grows |
| Incubators.Population | src/Neat.Core/Evolution/IncubatorService.cs:17 | the number of genomes over all species; a definition, PopulationIsCounted relates it to the counts |
| Incubators.PopulationIsCounted | src/Neat.Core/Evolution/IncubatorService.cs:57-97 | when every species has its count, the population is the sum of the counts |
| Incubators.AllResizedStep | src/Neat.Core/Evolution/IncubatorService.cs:57-97 | the Select's results grow one resized species at a time |
| Incubators.PopulationReached | src/Neat.Core/Evolution/IncubatorService.cs:54-97 | when the allotment reaches its target, the new population has exactly the target size |
| Incubators.CountsReached | src/Neat.Core/Evolution/IncubatorService.cs:54 | when the target is reachable, the allotted counts add up to it and none is negative |
| Incubators.AllSized | src/Neat.Core/Evolution/IncubatorService.cs:57-97 | every resized species has its entry's count of members, none for a negative count |
| Incubators.BuildNewPopulation | src/Neat.Core/Evolution/IncubatorService.cs:13-98 | fails when culling throws; returns the culled species when they hold the target; otherwise every allotted species resized, the registry only growing, and exactly the target population whenever the allotment reaches it |
| PositionTool.CDivNonNegative | src/Neat.Trainer/Simulations/FieldRunner/Services/PositionTool.cs:11-12 | on non-negative operands C#'s truncating / and % agree with Euclidean division |
| PositionTool.IndexToPosition | src/Neat.Trainer/Simulations/FieldRunner/Services/PositionTool.cs:9-14 | throws exactly on a zero width; otherwise y * width + x gives the index back |
| PositionTool.PositionToIndex | src/Neat.Trainer/Simulations/FieldRunner/Services/PositionTool.cs:16-22 | throws exactly for a position outside the world; otherwise an index of a cell of the world |
| PositionTool.RowMajorBound | src/Neat.Trainer/Simulations/FieldRunner/Services/PositionTool.cs:21 | a position inside the world has its row-major index inside the cells |
| PositionTool.IndexRoundTrip | src/Neat.Trainer/Simulations/FieldRunner/Services/PositionTool.cs:9-22 | every cell index maps to a position inside the world that maps back to the index |
| PositionTool.PositionRoundTrip | src/Neat.Trainer/Simulations/FieldRunner/Services/PositionTool.cs:9-22 | every position inside the world maps to an index that maps back to the position |
| PositionTool.QuotientBelow | src/Neat.Trainer/Simulations/FieldRunner/Services/PositionTool.cs:12 | the row of a cell index is below the height |
| PositionTool.MulAtLeastMono | src/Neat.Trainer/Simulations/FieldRunner/Services/PositionTool.cs:12 | multiplying by a positive width keeps order |
| PositionTool.TurnLeft | src/Neat.Trainer/Simulations/FieldRunner/Services/PositionTool.cs:32-38 | a quarter turn anticlockwise; a definition, TurnsCancel states its properties |
| PositionTool.TurnRight | src/Neat.Trainer/Simulations/FieldRunner/Services/PositionTool.cs:40-46 | a quarter turn clockwise; a definition, TurnsCancel states its properties |
| PositionTool.Ray | src/Neat.Trainer/Simulations/FieldRunner/Services/PositionTool.cs:54-57 | the positions from the neighbour in the heading to the world edge; a definition, RayInBoundsIffFirst and RayStepsAway state its properties |
| PositionTool.NewDirection | src/Neat.Trainer/Simulations/FieldRunner/Services/PositionTool.cs:28-49 | no move or Forward keeps the heading; Left and Right turn it a quarter one way or the other |
| PositionTool.TurnsCancel | src/Neat.Trainer/Simulations/FieldRunner/Services/PositionTool.cs:32-47 | a left and a right turn cancel, four left turns come back, and every turn changes the heading |
| PositionTool.Range | src/Neat.Trainer/Simulations/FieldRunner/Services/PositionTool.cs:64-76 | from start to stop one step at a time, counting up only when start < stop |
| PositionTool.GetRange | src/Neat.Trainer/Simulations/FieldRunner/Services/PositionTool.cs:64-76 | the two counting loops yield exactly Range, starting at start and ending at stop |
| PositionTool.CalculateMove | src/Neat.Trainer/Simulations/FieldRunner/Services/PositionTool.cs:26-62 | the new heading is NewDirection; without a move the only position is the current one, with one the positions start at the neighbour in the new heading |
| PositionTool.RayInBoundsIffFirst | src/Neat.Trainer/Simulations/FieldRunner/Services/PositionTool.cs:51-59 | from inside the world a ray is wholly inside it exactly when its first position is |
| PositionTool.RayStepsAway | src/Neat.Trainer/Simulations/FieldRunner/Services/PositionTool.cs:54-57 | position i of a ray is i + 1 steps ahead of the current one |
| PositionTool.MoveExamples | src/Experiments/FieldRunner/PositionToolTests.cs:8-22 | the turns and first positions expected for a pika at (5, 5) of a 10 by 10 world facing up or down |
| FieldModels.EmptyIndexes | src/Neat.Trainer/Simulations/FieldRunner/Services/WorldBuilder.cs:18-28 | exactly the indexes of the empty cells, in ascending order |
| WorldBuilder.EmptyField | src/Neat.Trainer/Simulations/FieldRunner/Services/WorldBuilder.cs:55-77 | one cell per position of the world |
| WorldBuilder.CreateEmptyField | src/Neat.Trainer/Simulations/FieldRunner/Services/WorldBuilder.cs:55-77 | the loop over a fresh array leaves exactly EmptyField |
| WorldBuilder.EmptyFieldWalls | src/Neat.Trainer/Simulations/FieldRunner/Services/WorldBuilder.cs:63-74 | a position holds a wall exactly when it is on the outer ring, and is empty otherwise |
| WorldBuilder.PopItems | src/Neat.Trainer/Simulations/FieldRunner/Services/WorldBuilder.cs:86-93 | keeps the field's size and pops exactly `count` cells off the stack |
| WorldBuilder.PopItemsCells | src/Neat.Trainer/Simulations/FieldRunner/Services/WorldBuilder.cs:86-93 | exactly the popped cells receive the item, all others stay |
| WorldBuilder.AddItemsSpec | src/Neat.Trainer/Simulations/FieldRunner/Services/WorldBuilder.cs:79-94 | throws exactly when the stack holds no more cells than requested, else pops as PopItems |
| WorldBuilder.AddItems | src/Neat.Trainer/Simulations/FieldRunner/Services/WorldBuilder.cs:79-94 | on the array: throws "Not enough empty cells" leaving the cells as they were, or writes exactly what PopItems says and returns the rest of the stack |
| WorldBuilder.PlacePikas | src/Neat.Trainer/Simulations/FieldRunner/Services/WorldBuilder.cs:36-48 | throws "Not enough space for pikas" exactly when there are fewer cells than pikas |
| WorldBuilder.PlacePikasKeeps | src/Neat.Trainer/Simulations/FieldRunner/Services/WorldBuilder.cs:36-48 | cells not popped for a pika stay as they were |
| WorldBuilder.PlacePikasPlaces | src/Neat.Trainer/Simulations/FieldRunner/Services/WorldBuilder.cs:36-48 | the k-th pika lands on the k-th cell popped with the start energy and its heading |
| WorldBuilder.NewWorld | src/Neat.Trainer/Simulations/FieldRunner/Services/WorldBuilder.cs:8-53 | a built world has one cell per position |
| WorldBuilder.CreateNewWorld | src/Neat.Trainer/Simulations/FieldRunner/Services/WorldBuilder.cs:8-53 | the method on the array produces exactly NewWorld, the random order being any permutation of the empty cells |
| WorldBuilder.NewWorldFailures | src/Neat.Trainer/Simulations/FieldRunner/Services/WorldBuilder.cs:30-38 | building throws exactly when walls, then food, need more cells than remain (each step leaving one spare), no cell is left, or too few are left for the pikas |
| WorldBuilder.NoEmptyCellsNeedsNegativeCounts | src/Neat.Trainer/Simulations/FieldRunner/Services/WorldBuilder.cs:31-35 | with a non-negative food count "No empty cells" is never the error |
| WorldBuilder.NewWorldBorder | src/Neat.Trainer/Simulations/FieldRunner/Services/WorldBuilder.cs:8-53 | a built world keeps its ring of walls |
| WorldBuilder.NewWorldPikas | src/Neat.Trainer/Simulations/FieldRunner/Services/WorldBuilder.cs:8-53 | each pika sits in its own cell, popped after the walls and food, with the start energy and its heading |
| WorldBuilder.NewWorldItems | src/Neat.Trainer/Simulations/FieldRunner/Services/WorldBuilder.cs:30-48 | in a built world the cells popped for walls hold walls and those popped next for food hold food: the pikas placed afterwards overwrite neither |
| WorldBuilder.PoppedItems | src/Neat.Trainer/Simulations/FieldRunner/Services/WorldBuilder.cs:30-31 | after popping walls then food, the top cells of the stack hold walls and the next ones food |
| WorldBuilder.PlacedAbove | src/Neat.Trainer/Simulations/FieldRunner/Services/WorldBuilder.cs:36-48 | placing pikas on cells from the remaining stack leaves every cell already popped as it was |
| WorldBuilder.PermutationIndexes | src/Neat.Trainer/Simulations/FieldRunner/Services/WorldBuilder.cs:18-28 | any order of the empty cells is a list of distinct cell indexes |
| WorldBuilder.PermutationEmpty | src/Neat.Trainer/Simulations/FieldRunner/Services/WorldBuilder.cs:18-28 | every entry of that order names an empty cell |
| WorldBuilder.TwiceInMultiset | src/Neat.Trainer/Simulations/FieldRunner/Services/WorldBuilder.cs:18-28 | a value at two positions occurs at least twice |
| WorldBuilder.AtMostOnce | src/Neat.Trainer/Simulations/FieldRunner/Services/WorldBuilder.cs:18-28 | an ascending list holds each value at most once |
| WorldBuilder.DistinctPrefix | src/Neat.Trainer/Simulations/FieldRunner/Services/WorldBuilder.cs:36-48 | a prefix of a repetition-free list is repetition-free |
| TheWorld.TargetIndex | src/Neat.Trainer/Simulations/FieldRunner/Services/TheWorld.cs:70-75 | the target is a cell of the world, and the pika's own cell when it makes no move |
| TheWorld.NewPika | src/Neat.Trainer/Simulations/FieldRunner/Services/TheWorld.cs:78-102 | the same pika with the new heading and its energy less the move cost, plus food energy, less the poison or wall penalty at the target |
| TheWorld.EvaluatePikaSpec | src/Neat.Trainer/Simulations/FieldRunner/Services/TheWorld.cs:68-129 | throws exactly when the target is off the world; otherwise a field of the same size |
| TheWorld.EvaluatePikaEffect | src/Neat.Trainer/Simulations/FieldRunner/Services/TheWorld.cs:84-128 | only the pika's cell and its target change; it lives exactly when its new energy is positive, then standing on one of them; a dead pika leaves its cell empty; walls stay and no food or poison appears |
| TheWorld.EvaluatePikaPikas | src/Neat.Trainer/Simulations/FieldRunner/Services/TheWorld.cs:104-128 | a surviving pika is on the field; a dead one puts no pika on a field that had none |
| TheWorld.PikaIndexes | src/Neat.Trainer/Simulations/FieldRunner/Services/TheWorld.cs:50-56 | exactly the indexes of the cells holding a pika, in ascending order |
| TheWorld.CopyStatic | src/Neat.Trainer/Simulations/FieldRunner/Services/TheWorld.cs:37-47 | the new field keeps walls, food and poison of the day before and nothing else |
| TheWorld.EvaluatePikas | src/Neat.Trainer/Simulations/FieldRunner/Services/TheWorld.cs:60-62 | the turns keep the field's size |
| TheWorld.IterationSpec | src/Neat.Trainer/Simulations/FieldRunner/Services/TheWorld.cs:32-66 | a day yields a field of the same size |
| TheWorld.EvaluatePikasAlive | src/Neat.Trainer/Simulations/FieldRunner/Services/TheWorld.cs:60-62 | the turns report a living pika exactly when the field holds one, the short-circuit "or" skipping turns after the first survivor |
| TheWorld.EvaluatePikasStatic | src/Neat.Trainer/Simulations/FieldRunner/Services/TheWorld.cs:60-62 | the turns keep every wall and never create food or poison |
| TheWorld.IterationProperties | src/Neat.Trainer/Simulations/FieldRunner/Services/TheWorld.cs:32-66 | a day keeps every wall, creates no food or poison, and reports a living pika exactly when the new field holds one |
| TheWorld.DaysSurvived | src/Neat.Trainer/Simulations/FieldRunner/Services/TheWorld.cs:167-176 | the length of the run of days from the first that hold a pika: all days before it hold one and the day after it does not |
| TheWorld.World.constructor | src/Neat.Trainer/Simulations/FieldRunner/Services/TheWorld.cs:13-18 | a timeline of the one built world, which holds the pika |
| TheWorld.World.EvaluatePika | src/Neat.Trainer/Simulations/FieldRunner/Services/TheWorld.cs:68-129 | the method on the field's array fails or writes exactly as EvaluatePikaSpec says |
| TheWorld.World.EvaluateIteration | src/Neat.Trainer/Simulations/FieldRunner/Services/TheWorld.cs:32-66 | pushes exactly the day IterationSpec builds and answers its alive flag; a throw pushes nothing |
| TheWorld.World.Simulate | src/Neat.Trainer/Simulations/FieldRunner/Services/TheWorld.cs:22-30 | the timeline becomes the one SimulateSpec builds from the old timeline with one Day per loop pass, and the call fails exactly when SimulateSpec does, with its error; the run ends when the cancellation count is used up or a day holds no pika; the fitness is DaysSurvived of that timeline |
| TheWorld.Day | src/Neat.Trainer/Simulations/FieldRunner/Services/TheWorld.cs:32-66 | one loop pass on a field: the pika cells in the shuffled order, turned as IterationSpec; it keeps the size and its alive flag is true exactly when the new field holds a pika |
| TheWorld.Days | src/Neat.Trainer/Simulations/FieldRunner/Services/TheWorld.cs:32-66 | the day function handed to SimulateSpec is defined on every field of the world's size, keeps that size, reports a pika exactly when the field holds one, and is Day |
| TheWorld.SimulateSpec | src/Neat.Trainer/Simulations/FieldRunner/Services/TheWorld.cs:22-30 | the while loop as a function: the result starts with the given timeline and adds at most one day per step left before cancellation |
| TheWorld.SimulateSpecStep | src/Neat.Trainer/Simulations/FieldRunner/Services/TheWorld.cs:24 | one step before cancellation: a throwing day throws, a day without a living pika ends the run after it is pushed, any other day is pushed and the loop goes on |
| TheWorld.SimulateStops | src/Neat.Trainer/Simulations/FieldRunner/Services/TheWorld.cs:24 | every added day except the last holds a pika, and a run that stops before cancellation ends with a day that holds none |
| TheWorld.NewWorldHasPika | src/Neat.Trainer/Simulations/FieldRunner/Services/TheWorld.cs:13-18 | a world built for one pika holds it |
| TheWorld.OrderedPikas | src/Neat.Trainer/Simulations/FieldRunner/Services/TheWorld.cs:50-58 | a shuffle of the pika cells names cells holding a pika |
| TheWorld.DaysAllWithPika | src/Neat.Trainer/Simulations/FieldRunner/Services/TheWorld.cs:167-176 | when every day holds a pika, all days count |
| TheWorld.DaysWithPikaBeforeLast | src/Neat.Trainer/Simulations/FieldRunner/Services/TheWorld.cs:167-176 | when only the last day lacks a pika, all days but it count |

## Left out

- Activation functions (`src/Neat.Core/Genomes/ActivationFunctions.cs`): their float math, tables, `SoftMax` and the weighted random choice are not modelled; a function is its name, applied through an uninterpreted parameter, and a chosen name is a parameter.
- `PhenotypeBuilder.BuildExecutionPlan`, `PhenotypeBuilder.TryBuild`, `PhenotypeBuilder.Build`, `PhenotypeBuilder.PlanBuildsWhenClosed`, `PhenotypeBuilder.WalkNeuronClosed`: the `ArgumentException` ("Unknown activation function") that `ActivationFunctions.GetFunction` throws for a name missing from its table (PhenotypeBuilder.cs line 210, ActivationFunctions.cs lines 15-21) is not modelled, so these members do not promise that a neuron with an unknown activation name makes the plan fail; every name the program itself gives a neuron comes from the table (the `nameof` defaults in Neuron.cs and `GetRandomFunction` in EvolutionService.cs lines 344 and 477), so only a genome built or loaded elsewhere could reach that throw.
- Float precision: weights, biases, fitness and distances are exact reals, so float rounding, infinities and NaN are not modelled; `GetRandomWeight`, the `float.Epsilon` retry and clamping of `ModifySynapseWeight` are folded into the drawn new weight; so is the `ArgumentException` that `Math.Clamp` throws there when `SynapseWeightRange.Min` exceeds `SynapseWeightRange.Max` (EvolutionService.cs lines 435 and 437), which the model does not raise.
- Randomness: `Random.Shared`, `Shuffle`, `Random`, `RandomOrDefault`, `GetRandomDirection` and `Guid.NewGuid` are explicit draws; their distributions are not modelled.
- `ConcurrentLoops.ConcurrentLoop`: the lock is left out and the cursor is modelled sequentially.
- `ConcurrentLoops.ConcurrentLoop.GetNextMany`: the `yield` iterator of `GetNext(int)` moves the cursor lazily, one value per element taken and again on every new enumeration; the model takes all `count` values at once, as a caller that enumerates the result exactly once sees.
- `StringExtensions`: `ToUpper` maps only the ASCII letters and `IsWhiteSpace` covers only the Latin-1 white-space characters, while .NET's `ToUpper` and `string.IsNullOrWhiteSpace` follow full Unicode; the capital-letter split itself is ASCII in .NET too.
- I/O, persistence, configuration, dependency injection, the UI, `TrainerService` with its parallel loops, the trainer program and the fitness tasks other than FieldRunner's world rules are not part of this model.
- `TheWorld.MakeMoveDecision` and `LookAtDirection` (float scoring of the network's outputs and sensor distances) are not modelled: the move is a parameter of each turn.
- The cancellation token of `Simulate` is a number of days after which it is cancelled.
- `TheWorld.World.Simulate`: on a throw the contract gives the error but does not state the timeline; the body keeps the days pushed before the throw and pushes none on the throwing day (`EvaluateIteration` ensures that), but stating that as well does not fit the proof's resource bound.
- `TheWorld.World.constructor`: takes the one pika directly, so the throw of `Single` on a list of more or fewer than one phenotype is not modelled; it also requires non-negative obstacle and food counts and a world that builds, so the "Not enough empty cells", "No empty cells" and "Not enough space for pikas" throws of world building, and the negative counts that place nothing, are modelled in `WorldBuilder.NewWorld` and `WorldBuilder.NewWorldFailures` and not by the constructor.
- `WorldBuilder.CreateNewWorld`, `WorldBuilder.NewWorld` and the other world-building members: require a width and a height above zero; a degenerate size (an empty field, where `AddItems` throws "Not enough empty cells" for any non-negative count) is not modelled.
- 32-bit wrap-around of innovation numbers and generations (`uint`, `int`) is not modelled: they are unbounded naturals.
- `Debug.Assert` is not enforced: the model continues where the assertion would fail, as a release build does.
- `GenomeDistances.GenomesDistance`, `SpeciesBuilders.SpecieDistance`, `SpeciesBuilders.SpeciesBuilder.Build`: require a non-zero normalization factor, since division by a float zero (infinity or NaN) is not modelled.
- `PhenotypeRunners.PhenotypeRunner.Run`: requires a phenotype whose plan and memory fit its neuron list, which every phenotype `Build` produces (`BuiltWellformed`); the index-out-of-range throw of a foreign plan is not modelled.
- `PhenotypeRunners.PhenotypeRunner.constructor`: requires the same well-formed phenotype (`Wellformed`), which every `Build` output meets, and at most one Bias neuron, the throw on a second one being modelled by `Create`; a runner over a foreign phenotype, and the throws it would meet, are not modelled.
- `PhenotypeRunners.PhenotypeRunner.Create`: requires `Wellformed` for the same reason; only its error on a phenotype with more than one Bias neuron is modelled.
- `PhenotypeBuilder.CleanDeadNeurons`: the guarantees about what is kept are proved for genomes whose synapse ends are all among the neurons; `CleanedNeedsClosure` shows a genome with a dangling synapse where they fail, which is the code as written.
- `Incubators.AllotmentReachesTarget`: the counts add up to the target only when the rounding drift is no larger than the number of entries; `DriftBeyondEntries` shows an input where the drift is larger and the target is missed, as the code is written.
- `SpeciesBuilders.HalfPolicyFails`: under `DistanceToHalfRandomGenomes` the grouping throws as soon as a second genome meets a one-member group; the model keeps this behaviour of the code as written.
- The worked example of the commented-out `src/Experiments/PhenotypeExperiments.cs` (the dependencies of H5, H6, Out8 and Out10) is not stated as a lemma; the properties of plans are proved for every genome instead.
- Data-only records (settings, `EvolutionArgs`, `SimulationResult`) carry no behaviour; they are datatypes only.
