/** The settings records of src/Neat.Core/Evolution/EvolutionSettings.cs and
    src/Neat.Core/Species/SpeciesSettings.cs, with their defaults. */
module Settings {
  import opened Wrappers

  datatype WeightRange = WeightRange(min: real, max: real)

  datatype EvolutionSettings = EvolutionSettings(
    allowRecurrent: bool,
    synapseWeightRange: WeightRange,
    maximumHiddenNeurons: Option<int>,
    // structural mutations
    structAddSynapsesProbability: real,
    structAddDirectSynapsesProbability: real,
    structEnableSynapsesProbability: real,
    structDisableSynapsesProbability: real,
    structToggleSynapsesProbability: real,
    structNeuronAddProbability: real,
    structNeuronRemoveProbability: real,
    // non-structural mutations
    nonStructSynapseModifyProbability: real,
    nonStructSynapseReplaceProbability: real,
    nonStructNeuronActivationReplaceProbability: real,
    nonStructNeuronBiasProbability: real,
    overrideActivationProbabilities: map<string, real>)

  const DefaultEvolutionSettings := EvolutionSettings(
    false, WeightRange(-4.0, 4.0), None,
    0.2, 0.0, 0.3, 0.3, 0.0, 0.1, 0.1,
    0.5, 0.1, 0.1, 0.3,
    map[])

  datatype SpecieDistanceFunction = MinDistanceToAllGenomes | DistanceToRandomGenome | DistanceToHalfRandomGenomes

  datatype SpeciesSettings = SpeciesSettings(
    speciesTargetCount: int,
    distanceFunction: SpecieDistanceFunction,
    distanceThresholdAdjustmentRate: real,
    excessCoefficient: real,
    disjointCoefficient: real,
    weightCoefficient: real,
    activationDiffCoefficient: real,
    biasDiffCoefficient: real,
    normalizationFactor: real,
    speciesThreshold: Option<real>)

  const DefaultSpeciesSettings := SpeciesSettings(
    8, MinDistanceToAllGenomes, 0.05,
    1.0, 1.0, 0.4, 1.0, 0.4, 1.0,
    None)
}
