/** The species catalogue: the trait table and the fixed classifications update and replicate use. */
module Species {
  import opened Lattice

  datatype Traits = Traits(layer: string, symbol: string, color: string, prefZ: int)

  /** The trait table, keyed by species name. */
  const SpeciesTraits: map<string, Traits> := map[
    "Eucalyptus" := Traits("Canopy", "E", "#00FFFF", 8),
    "PigeonPea" := Traits("Herbaceous", "P", "#FF00FF", 5),
    "Comfrey" := Traits("Groundcover", "C", "#00FF00", 4),
    "Mango" := Traits("Sub-Canopy", "M", "#FFFF00", 7),
    "Banana" := Traits("Herbaceous", "B", "#32CD32", 5),
    "SweetPotato" := Traits("Underground", "S", "#FF4500", 3),
    "PassionFruit" := Traits("Vertical", "V", "#0000FF", 2),
    "WaterLily" := Traits("Aquatic", "W", "#00CED1", 1),
    "Mushroom" := Traits("Mycelial", "F", "#FFFFFF", 0),
    "Papaya" := Traits("Canopy", "Y", "#FFD700", 8),
    "Coffee" := Traits("Shrub", "K", "#DC143C", 6),
    "Blueberry" := Traits("Shrub", "L", "#4169E1", 6),
    "Strawberry" := Traits("Groundcover", "T", "#FF6347", 4)
  ]

  /** What an unknown species name falls back to. */
  const DefaultTraits: Traits := Traits("Groundcover", "C", "#00FF00", 4)

  /** The species drawn from when seeding the grid, in the order SyntroSim's engine lists them. */
  const SpeciesList: seq<string> := [
    "Eucalyptus", "PigeonPea", "Comfrey", "Mango", "Banana", "SweetPotato",
    "PassionFruit", "WaterLily", "Mushroom", "Papaya", "Coffee", "Blueberry", "Strawberry"
  ]

  const HighCost: seq<string> := ["Eucalyptus", "Mango", "Papaya"]
  const MediumCost: seq<string> := ["PigeonPea", "Banana", "Coffee"]
  const CoopBoosters: seq<string> := ["PigeonPea", "Comfrey", "Eucalyptus"]
  /** The climax species a pioneer's child may turn into. */
  const Succession: seq<string> := ["Mango", "Banana", "Papaya"]
  /** The species that are seeded as pioneers. */
  const PioneerSeeds: seq<string> := ["Eucalyptus", "PigeonPea"]

  /** Trait lookup: the table entry, or the default record for a name the table lacks. */
  function AssignTraits(species: string): (t: Traits)
    ensures species in SpeciesTraits ==> t == SpeciesTraits[species]
    ensures species !in SpeciesTraits ==> t == DefaultTraits
    ensures 0 <= t.prefZ < Z_SIZE
  {
    if species in SpeciesTraits then SpeciesTraits[species] else DefaultTraits
  }

  /** Metabolic cost per tick. */
  function Cost(species: string): (c: int)
    ensures 1 <= c <= 3
    ensures c == 3 <==> species in HighCost
    ensures c == 2 <==> species !in HighCost && species in MediumCost
  {
    if species in HighCost then 3 else if species in MediumCost then 2 else 1
  }

  /** Multiplier of a cell's gift to each neighbour. */
  function Boost(species: string): (b: int)
    ensures b == 2 <==> species in CoopBoosters
    ensures b == 1 <==> species !in CoopBoosters
  {
    if species in CoopBoosters then 2 else 1
  }

  /** The table's keys are exactly the seeding list, and the list names each species once. */
  lemma TableCoversSpeciesList()
    ensures forall s :: s in SpeciesTraits <==> s in SpeciesList
    ensures forall i, j :: 0 <= i < j < |SpeciesList| ==> SpeciesList[i] != SpeciesList[j]
  {
  }

  /** Every succession species (and every pioneer seed) is a known species. */
  lemma ClassificationsKnown()
    ensures forall s :: s in Succession ==> s in SpeciesList
    ensures forall s :: s in PioneerSeeds ==> s in SpeciesList
  {
  }
}
