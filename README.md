# SyntroSim simulation engine, modelled in Dafny

SyntroSim is a 3-D cellular simulation of a syntropic agroforestry plot. A 12 × 12 × 9 lattice
(`grid[z][x][y]`) holds protocells: agents of one of thirteen plant or fungus species. Each
species has a canopy layer, a preferred depth and a colour. Each coordinate has a static ambient
energy drawn once at start-up. It is a random integer below 6 on the bottom and top layers and
below 4 elsewhere, and zero at least half of the time. Fifteen random seeds fill the initial grid. Two seeds
can hit the same slot; the later one then replaces the earlier. Every generation:

- takes a snapshot of the occupied slots in z-x-y order;
- updates each snapshot cell once: it takes its ambient energy, ages, gives every occupied axis
  neighbour `coopFactor × boost`, pays its species' metabolic cost, and leaves the grid when its
  energy is not positive or when it is a pioneer older than 10;
- lets each survivor replicate: with more than 20 energy it tries the six directions in a shuffled
  order and places one child in the first empty in-bounds neighbour whose 50 % gate opens and that
  lies within one layer of its preferred depth. The child has energy 10, age 0 and a jittered,
  clamped cooperation factor. A pioneer's child becomes Mango, Banana or Papaya on a 20 % draw.
  The parent pays 10;
- tallies population, mean cooperation and per-species counts. The loop stops when the population
  is zero.

The model has six modules:

- `Lattice`: coordinates, the direction table, adjacency, the z-x-y order.
- `Species`: the trait table and the cost, boost, succession and pioneer lists.
- `Randomness`: every `Math.random()` call as an explicit, arbitrary draw in [0, 1); every random
  sort as an arbitrary permutation.
- `Cells`: the `Protocell` class with `Update` and `Replicate` over a mutable `array3` grid, and
  the grid invariants.
- `Census`: the z-x-y occupant list and the statistics over it.
- `Simulation`: the world, which holds the ambient field, the seeding, the tick scheduler, the
  statistics pass and one generation.

Energy and cooperation are `real`. Because every draw is arbitrary, each property holds for every
outcome of the random number generator.

## Model

| member | source | states |
|---|---|---|
| Lattice.DirIndex | simulation.js:61 | the position of a vector in the direction table; below 6 exactly for the six axis vectors, and the table holds the vector at that position |
| Lattice.DirectionsDistinct | simulation.js:61 | the six direction vectors are pairwise distinct, so each has exactly one position in the table |
| Lattice.AdjacentIsUnitDistance | simulation.js:61-63 | the neighbours visited by the gift and replication loops are exactly the coordinates at Manhattan distance 1 |
| Lattice.ShuffleMembers | simulation.js:81-82 | a shuffled direction list holds a vector if and only if the original table does |
| Species.AssignTraits | simulation.js:39-56 | a listed species gets its own table entry; any other name gets the Groundcover/C/#00FF00/depth-4 default; the preferred depth always lies inside the lattice |
| Species.Cost | simulation.js:69-70 | cost 3 exactly for Eucalyptus, Mango and Papaya; cost 2 exactly for PigeonPea, Banana and Coffee; 1 otherwise |
| Species.Boost | simulation.js:65 | boost 2 exactly for PigeonPea, Comfrey and Eucalyptus; 1 otherwise |
| Species.TableCoversSpeciesList | simulation.js:40-54 | the trait table's keys are exactly the seeding list, and the list names each species once |
| Species.ClassificationsKnown | simulation.js:91-114 | the succession species (line 91) and the pioneer seeds (line 114) are all listed species |
| Randomness.RandomSource.Random | simulation.js:16 | a call to Math.random yields the next draw, a value in [0, 1) |
| Randomness.RandomSource.ShuffledDirections | simulation.js:82 | sorting with a random comparator yields some permutation of the direction table |
| Randomness.ScaledFloor | simulation.js:108 | Math.floor(u × n) of a draw u is an index in [0, n) |
| Cells.Clamp01 | simulation.js:87 | clamping a value into [0, 1] gives a value in [0, 1]; it is the identity on [0, 1], 0 below and 1 above |
| Cells.Clamp01NonExpansive | simulation.js:87 | clamping keeps the order of two values and never moves them further apart, so the clamped child factor stays within the jitter of a parent factor in [0, 1] |
| Cells.LivingIsInGrid | simulation.js:94 | under the grid invariant, the grid holds a cell if and only if the cell sits in the slot named by its own coordinates |
| Cells.GiftsAccumulate | simulation.js:61-67 | after n passes of the gift loop a neighbour has received the gift if and only if its direction is among the first n |
| Cells.Protocell.constructor | simulation.js:23-37 | stores the arguments, copies layer, symbol, colour and preferred depth from the trait lookup, and starts at age 0 |
| Cells.Protocell.GiftToward | simulation.js:62-66 | one pass of the gift loop: only the occupied in-bounds neighbour in that direction gains coopFactor × boost |
| Cells.Protocell.ShareWithNeighbours | simulation.js:61-67 | every occupied axis neighbour gains exactly coopFactor × boost; every other cell's energy and the giver's own are unchanged |
| Cells.Protocell.Update | simulation.js:58-77 | age + 1; energy + ambient − cost; neighbours gain the gift; the result is false and the cell's own slot is cleared if and only if the death test holds; every other slot is unchanged; the grid invariant is kept |
| Cells.Protocell.Replicate | simulation.js:79-101 | false whenever energy ≤ 20; false leaves the grid and the parent's energy unchanged; true places one fresh child in a slot that was empty, in bounds, axis-adjacent and within one layer of the preferred depth, changes no other slot, and debits the parent 10 |
| Cells.Protocell.Child | simulation.js:87-94 | the child sits at the chosen slot with energy 10, age 0 and cooperation in [0, 1], within 0.1 of the parent's; it keeps the parent's species and pioneer flag, or, only for a pioneer parent, becomes a non-pioneer succession species |
| Census.OccupantsAreInGrid | simulation.js:139-146 | a cell is in the snapshot list if and only if it sits in its own slot of the grid |
| Census.OccupantsOrdered | simulation.js:139-146 | the snapshot list is strictly increasing in z-x-y order, hence without repetition |
| Census.OccupantsCount | simulation.js:139-146 | the snapshot list is as long as the set of living cells |
| Census.TalliesSnoc | simulation.js:160-163 | counting one more cell adds its cooperation to the total and one to its own species' count |
| Census.SumCoopBounds | simulation.js:162 | the total cooperation of cells with factors in [0, 1] lies between 0 and their number |
| Census.MeanCoopBounds | simulation.js:168 | the mean cooperation is 0 for an empty population and lies in [0, 1] otherwise |
| Census.SpeciesCountsCover | simulation.js:155-164 | when every cell's species is among distinct names, the per-name counts add up to the number of cells |
| Census.CountOfDistinct | simulation.js:163 | over a list without repetition, a species' count is the number of distinct cells of that species |
| Census.SpeciesCountIsCensus | simulation.js:155-164 | the count for a species over the snapshot list is the number of living cells of that species |
| Simulation.EnergyField | simulation.js:13-19 | every ambient value is a non-negative integer below 6 on layers 0 and 8 and below 4 elsewhere |
| Simulation.Sprout | simulation.js:108-114 | a seeded cell is fresh and in bounds, with energy 10, age 0, a listed species, cooperation in [0, 1], depth within one layer of its preferred depth, and pioneer exactly when Eucalyptus or PigeonPea |
| Simulation.ZeroCounts | simulation.js:156 | a zero count for exactly the listed species |
| Simulation.World.constructor | simulation.js:6-19 | an empty grid and a fresh ambient field, then seeding; the world invariant holds and every occupant is a fresh seeded cell |
| Simulation.World.Seed | simulation.js:104-115 | from an empty grid, fifteen seeding draws leave only fresh seeded cells, each in its own slot, and keep the world invariant |
| Simulation.World.Snapshot | simulation.js:139-146 | the snapshot is exactly the list of occupants in z-x-y order |
| Simulation.World.Tick | simulation.js:139-150 | every snapshot cell is updated exactly once (its age rises by one) and remains in the grid if and only if it passed its death test; every other occupant afterwards is a fresh child of age 0 whose recorded parent is a snapshot cell that is still in the grid, is axis-adjacent to it, has its preferred depth within one layer of the child's layer, and passed on its cooperation (within 0.1) and its species or a succession species; no snapshot cell is the recorded parent of two children (OneChildEach); the world invariant is kept |
| Simulation.World.TurnAll | simulation.js:147-150 | the loop over the snapshot: every snapshot cell has had its turn once (aged once, present exactly when it survived), and every occupant that is not a snapshot cell is a fresh child with a recorded parent, and each snapshot cell is the parent of at most one child |
| Simulation.World.Iteration | simulation.js:147-150 | one pass of the loop keeps its invariant: the later snapshot cells are still in the grid and not yet aged, the cells up to this one have aged once and are present exactly when they survived, every newborn has a recorded parent that has had its turn, is in the grid and passed on its traits, and no two children share a parent |
| Simulation.RecordChild | simulation.js:147-150 | recording the child of snapshot[n] keeps the parent record one-to-one with all parents among the cells that have had their turn, because the snapshot holds each cell once and a turn places at most one child |
| Simulation.World.Turn | simulation.js:147-150 | one loop step: the cell ages by one and stays if and only if it survives; it replicates only if it survived; its energy becomes old + ambient − cost, less 10 when it replicated; every other living cell stays and gains exactly the gift when it is an axis neighbour; dead cells are untouched; the only new occupant is the child, fresh at the chosen slot that was empty, with energy 10, age 0 and inherited traits |
| Simulation.World.Live | simulation.js:148 | the update half of a step, lifted to the world: the cell ages by one, its energy becomes old + ambient − cost, it survives if and only if it fails the death test and then stays in the grid; every other living cell stays and gains exactly the gift when it is an axis neighbour; dead cells and their energy are untouched; no cell appears |
| Simulation.World.Breed | simulation.js:149 | the replicate half of a step for a survivor: it stays alive; it fails whenever its energy is at most 20; its energy drops by exactly 10 on success and is unchanged on failure; no cell changes presence; on success the only new occupant is a fresh child at a slot that could host it, with energy 10, age 0 and inherited traits |
| Simulation.World.Statistics | simulation.js:152-168 | the population is the number of living cells; total and mean cooperation are those of the occupants, and the mean is 0 for an empty grid and lies in [0, 1] otherwise; each listed species' count is its number of living cells; the counts add up to the population; collapsed holds exactly when the grid is empty |
| Simulation.World.Tally | simulation.js:153-167 | the traversal counts every occupant once, sums their cooperation, and counts each species |
| Simulation.World.TallyLayer | simulation.js:158-166 | the middle loop tallies exactly the occupants of one layer, row after row |
| Simulation.World.TallyRow | simulation.js:159-165 | the innermost loop tallies exactly the occupants of one row, in y order |
| Simulation.World.RunSimulation | simulation.js:135-168 | one generation: the counter rises by one, the tick's guarantees hold (each snapshot cell aged once and present exactly when it survived; every other occupant a fresh child of a surviving snapshot cell, and no snapshot cell the parent of two children), and the statistics describe the grid the tick left behind |

## Left out

- Rendering (simulation.js:117-131 and 170-207): canvases, layer captions, drawing of cells and energy shades, and the HTML stats panel. This includes the throwaway Protocells built there only to read a colour and a symbol.
- The timer loop (simulation.js:209-213): `setTimeout(runSimulation, 500)` while the population is positive. The model's `Stats.collapsed` stands for the stop condition; repeated scheduling is not modelled.
- Probability distributions: each draw is arbitrary in [0, 1), so no statement is made about how likely a branch is.
- Floating-point rounding: energies and cooperation factors are exact reals.
- JavaScript property lookup: `speciesTraits[name]` also finds inherited keys such as `constructor`. The model's lookup knows only the thirteen species, and seeding and succession only ever use those.
- The random-comparator sort consumes an unspecified number of Math.random draws. The model takes its outcome from a separate stream of permutations, so the draw indices after a sort differ from the engine's.
- Fields that the engine never reassigns after construction (position, species, cooperation, pioneer flag, traits) are `const`. The constructor's default arguments are not modelled, because every call inside the engine passes them or only reads traits.
- The snapshot stores each cell, not the `[x, y, z, cell]` tuple. The engine never reads the tuple's coordinates.
- Simulation.EnergyField: states the bound of each ambient value, not which draw produced it.
- Simulation.World.Seed: states what every seeded cell satisfies, not which slots and species the draws select, nor how many seeds survive overwriting.
- Cells.Protocell.Replicate: does not state that the chosen slot is the first qualifying one in the shuffled order, nor the gate draws that decided it.
- Cells.Protocell.Child: states the ±0.1 jitter bound for the cooperation factor only when the parent's factor lies in [0, 1], which the grid invariant guarantees; the succession pick is stated as membership in the succession list.
- Simulation.World.Tick: states each cell's exact energy change for one step (Turn), but not the accumulated energy after a whole tick, which depends on the order in which neighbours gave and died; nor does it state that the turns follow the snapshot's order.
- Simulation.World.TurnAll: for the same reason states no energies after the loop and does not fix the order of the turns; only the loop body takes them in snapshot order.
- Simulation.World.RunSimulation: lifts Tick's clauses, so it too leaves open the energies a generation produces (for example the per-generation energy change of an isolated cell) and the order of turns they depend on.
