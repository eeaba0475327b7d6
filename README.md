# Game of Life, three engines

The repository holds three implementations of Conway's Game of Life (rule
B3/S23 on a bounded, non-toroidal grid):

- **the dense engine** (`game_of_life/no_ecs`). A `Universe` holds a row-major
  `Vec<Cell>`. `run_iteration` clones it and writes every cell's next state
  into the clone, then swaps the clone in.
- **the hecs engine** (`game_of_life/game_of_life_hecs`). Each cell is an
  entity with `Position`, `State` and a `Neighbors(u8)` cache. One round runs
  three passes: a neighbour pass, a cell pass, then a neighbour pass. Every
  pass first collects its results from the unchanged world and only then
  writes them. The neighbour pass finds a live neighbour by a linear search
  for an alive entity at the probed position.
- **the Bevy engine** (`src/game_of_life`). Cell entities are backed by a
  `CellPositions` map from position to state and a `CellsChanged` dirty flag.
  Each tick chains five systems: rebuild the map, count neighbours from the
  map, apply the rule, rebuild, count again. The map is rebuilt only while
  the flag is raised.

All three probe the eight neighbours with the same nested loops (outer dx,
inner dy, centre skipped). That loop, the neighbour count and the rule live
once in `LifeRule`.

Each engine is modelled in its own form:

- `DenseGrid.Universe` is a class over an `array<Cell>`.
- `HecsWorld.World` and `BevySystems.Simulation` are classes whose fields the
  systems reassign.
- The counting loops are methods proved against specification functions.
- The passes are functions on sequences of entities. Lemmas relate those
  functions to the rule.

`EnginesAgree` proves that the three engines compute the same generation:

- It lays a dense grid out as entities, entity `i` at `(i % width, i / width)`,
  which is the layout `batch_spawn_cells` and `spawn_cells` use.
- It shows that one hecs round and one Bevy tick give every entity the state
  the dense step gives its cell.
- It shows that `n` hecs rounds track `n` dense generations.

The repository's tests are modelled as lemmas on their concrete worlds:

- dense: block, beehive, blinker, toad;
- hecs: block, blinker, toad.

The model follows the code's own bounds and failure behaviour:

- `initialize_cells` accepts any size, including 0.
- `get_cell_by_position` and `set_cell_by_position` index `y * width + x`
  without checking `x` or `y`. The index is a `u32` expression: a debug build
  panics when it overflows, and a release build wraps it. Either build
  panics when the index is past the end of the vector.
- The model therefore asks for `y * width + x < |cells|`, computed without
  wrap-around. The grid bound is checked only by the neighbour loops, as the
  code does.

## Model

| member | source | states |
|---|---|---|
| LifeRule.Offset | game_of_life/no_ecs/src/main.rs:61-65 | the k-th probe offset is within -1..1 on both axes, is the centre exactly for k = 4, and determines k (dx outer, dy inner) |
| LifeRule.ProbeStep | game_of_life/no_ecs/src/main.rs:61-74 | one iteration of the neighbour loops at offset (dx, dy) adds one to the counter exactly when the offset is not the centre and the probed position is live |
| LifeRule.ProbeInjective | game_of_life/no_ecs/src/main.rs:61-62 | two different probes look at two different positions, so no neighbour is counted twice |
| LifeRule.ProbedLiveStep | game_of_life/no_ecs/src/main.rs:61-74 | each probe finds a position not seen before and adds it to the set found live when it is live |
| LifeRule.CountProbesIsProbedLive | game_of_life/no_ecs/src/main.rs:60-75 | the loop counter after n probes is the number of distinct live positions probed so far |
| LifeRule.ProbedLiveIsLiveNeighbours | game_of_life/no_ecs/src/main.rs:61-75 | the nine probes, centre skipped, find exactly the live members of the Moore neighbourhood |
| LifeRule.NeighbourCountIsLiveNeighbours | game_of_life/no_ecs/src/main.rs:52-84 | the value the neighbour loops return is the number of live positions among the eight Moore neighbours, so at most 8 |
| LifeRule.CountProbesBound | game_of_life/no_ecs/src/main.rs:60-75 | each probe adds at most one and the skipped centre adds nothing |
| LifeRule.CountProbesCongruent | game_of_life/no_ecs/src/main.rs:61-75 | the counter after n probes depends only on the liveness of the positions probed |
| LifeRule.NeighbourCountCongruent | game_of_life/no_ecs/src/main.rs:52-84 | two liveness tests that agree on the eight neighbours give the same count |
| LifeRule.NeighbourCountUnrolled | game_of_life/no_ecs/src/main.rs:61-75 | the count is the sum of eight 0/1 terms, one per neighbour, in loop order |
| LifeRule.NeighbourCountOfMembers | game_of_life/no_ecs/src/main.rs:61-75 | when liveness is membership of a set, the count is the number of set members around the cell |
| DenseGrid.IndexInGrid | game_of_life/no_ecs/src/main.rs:44-46 | for x < width and y < height the row-major index y * width + x lies inside a width * height grid |
| DenseGrid.RowStart | game_of_life/no_ecs/src/main.rs:88-89 | row y + 1 starts width cells after row y and no later than the end of the grid |
| DenseGrid.IndexCoordinates | game_of_life/no_ecs/src/main.rs:44-46 | for x < width the index y * width + x gives back x as remainder and y as quotient |
| DenseGrid.DivBound | game_of_life/no_ecs/src/main.rs:86-105 | an index inside a width * height grid has a row below height, and width is positive |
| DenseGrid.IndexOfCoordinates | game_of_life/no_ecs/src/main.rs:44-46 | the coordinates (k % width, k / width) of an index map back to that index |
| DenseGrid.GetCellByPosition | game_of_life/no_ecs/src/main.rs:44-46 | the cell at y * width + x, which is a cell of the vector and, for x < width, the x-th cell of row y; requires that index to be inside the vector, where the code would panic |
| DenseGrid.SetCellByPosition | game_of_life/no_ecs/src/main.rs:48-50 | afterwards the vector equals the old one with only the cell at y * width + x replaced |
| DenseGrid.GetAfterSet | game_of_life/no_ecs/src/main.rs:44-50 | a get after a set at the same (x, y) returns the cell written, and a get at any other in-row position is unchanged |
| DenseGrid.InitializeCells | game_of_life/no_ecs/src/main.rs:20-32 | returns width * height cells, all Dead |
| DenseGrid.Randomized | game_of_life/no_ecs/src/main.rs:34-42 | one cell per random draw, Dead exactly when the draw is 0 |
| DenseGrid.Randomize | game_of_life/no_ecs/src/main.rs:34-42 | every cell of the vector is overwritten by the cell of its draw |
| DenseGrid.LiveAt | game_of_life/no_ecs/src/main.rs:66-73 | a probed position counts exactly when it is inside the grid and the cell stored for it is Alive |
| DenseGrid.GetAliveNeighboursCount | game_of_life/no_ecs/src/main.rs:52-84 | for sizes up to i32::MAX, returns the number of Alive in-grid Moore neighbours of (x, y), which is at most 8 |
| DenseGrid.Transition | game_of_life/no_ecs/src/main.rs:98-102 | the new cell is Alive exactly when B3/S23 holds for the old cell and its count |
| DenseGrid.Step | game_of_life/no_ecs/src/main.rs:86-107 | a generation keeps the number of cells |
| DenseGrid.NextCellAt | game_of_life/no_ecs/src/main.rs:88-104 | the cell written at (x, y) is the transition of the old cell there and its count in the old grid |
| DenseGrid.StepFromCells | game_of_life/no_ecs/src/main.rs:86-107 | a vector holding every cell's next state, each computed from the old grid, is the next generation |
| DenseGrid.StepIsB3S23 | game_of_life/no_ecs/src/main.rs:86-107 | in the next generation the cell at (x, y) is Alive exactly when B3/S23 holds for its old state and its number of live Moore neighbours in the old grid |
| DenseGrid.Generations | game_of_life/no_ecs/src/main.rs:159-170 | any number of generations keeps the number of cells |
| DenseGrid.AllDeadStaysDead | game_of_life/no_ecs/src/main.rs:98-102 | an all-Dead grid stays all Dead for one generation (no birth without three live neighbours) |
| DenseGrid.AllDeadStaysDeadForever | game_of_life/no_ecs/src/main.rs:159-170 | an all-Dead grid stays all Dead for any number of generations |
| DenseGrid.StillLifeForever | game_of_life/no_ecs/src/main.rs:159-170 | a grid that one generation leaves unchanged is unchanged by any number of them |
| DenseGrid.Period2Forever | game_of_life/no_ecs/src/main.rs:159-170 | a grid of period 2 returns after every even number of generations and is its successor after every odd number |
| DenseGrid.Universe.constructor | game_of_life/no_ecs/src/main.rs:152-157 | the universe holds the given size and cells in a fresh vector |
| DenseGrid.Universe.RunIteration | game_of_life/no_ecs/src/main.rs:86-107 | the universe's cells become the next generation of the old cells, in a fresh vector, with the size unchanged |
| DenseGrid.RunSimulation | game_of_life/no_ecs/src/main.rs:151-173 | the final cells are the given number of generations of the randomized initial grid |
| DensePatterns.FromLive | game_of_life/no_ecs/src/main.rs:187-201 | a grid described by its set of live positions has width * height cells |
| DensePatterns.FromLiveAt | game_of_life/no_ecs/src/main.rs:187-201 | the cell at (x, y) of such a grid is Alive exactly when (x, y) is in the set |
| DensePatterns.FromLiveAliveAt | game_of_life/no_ecs/src/main.rs:66-73 | a probed position of such a grid is alive exactly when it is in the grid and in the set |
| DensePatterns.InitialIsFromNoLive | game_of_life/no_ecs/src/main.rs:177-185 | a freshly initialized grid is the grid with no live position |
| DensePatterns.Place | game_of_life/no_ecs/src/main.rs:198-201 | setting a list of in-grid positions Alive keeps the number of cells |
| DensePatterns.SetAliveFromLive | game_of_life/no_ecs/src/main.rs:48-50 | setting (x, y) Alive adds (x, y) to the live set |
| DensePatterns.PlaceIsFromLive | game_of_life/no_ecs/src/main.rs:198-201 | setting a list of positions Alive adds exactly those positions to the live set |
| DensePatterns.RowStepsToAt | game_of_life/no_ecs/src/main.rs:88-104 | a row checked cell by cell gives, at each of its cells, B3/S23 of the old state and count |
| DensePatterns.AliveNeighboursFromLive | game_of_life/no_ecs/src/main.rs:52-84 | for a grid given by an in-grid live set, the neighbour count is the number of set members around the cell |
| DensePatterns.StepsToCell | game_of_life/no_ecs/src/main.rs:86-107 | when every cell's rule outcome matches a target set, each cell of the next generation matches the target grid |
| DensePatterns.StepsToSound | game_of_life/no_ecs/src/main.rs:86-107 | when every cell's rule outcome matches a target set, the next generation is the target grid |
| DensePatterns.BlockScenario | game_of_life/no_ecs/src/main.rs:188-231 | the block placed on an empty 4 x 4 grid is unchanged by one generation |
| DensePatterns.BlockStaysForever | game_of_life/no_ecs/src/main.rs:188-231 | the block is unchanged by any number of generations |
| DensePatterns.BeehiveScenario | game_of_life/no_ecs/src/main.rs:234-294 | the beehive placed on an empty 6 x 5 grid is unchanged by one generation |
| DensePatterns.BlinkerScenario | game_of_life/no_ecs/src/main.rs:297-387 | the vertical blinker on an empty 5 x 5 grid turns horizontal after one generation and vertical after another |
| DensePatterns.BlinkerHasPeriod2 | game_of_life/no_ecs/src/main.rs:297-387 | the blinker is vertical after every even and horizontal after every odd number of generations |
| DensePatterns.ToadScenario | game_of_life/no_ecs/src/main.rs:390-466 | the toad placed on an empty 4 x 4 grid moves to its second phase after one generation |
| HecsWorld.FindAliveFrom | game_of_life/game_of_life_hecs/src/plugin/mod.rs:65-68 | returns the first entity from `from` on that is alive at the position, or none when no later entity is |
| HecsWorld.LiveIffSomeAliveEntity | game_of_life/game_of_life_hecs/src/plugin/mod.rs:65-69 | a probed position counts exactly when some entity there is alive |
| HecsWorld.LivePositionsBelowMembers | game_of_life/game_of_life_hecs/src/plugin/mod.rs:65-68 | the positions of alive entities among the first n are exactly those some such entity occupies |
| HecsWorld.LiveIsLivePositions | game_of_life/game_of_life_hecs/src/plugin/mod.rs:65-68 | a probed position counts exactly when it is among the positions of alive entities |
| HecsWorld.AliveNeighboursFromPositions | game_of_life/game_of_life_hecs/src/plugin/mod.rs:50-80 | an entity's count is the number of live positions around it |
| HecsWorld.NeighboursUpdatedFromPositions | game_of_life/game_of_life_hecs/src/plugin/mod.rs:46-88 | when the given counts are the numbers of live positions around each entity, the neighbour pass writes exactly those counts |
| HecsWorld.CountAliveNeighbours | game_of_life/game_of_life_hecs/src/plugin/mod.rs:50-80 | returns the number of live positions among the eight around the entity, at most 8, with no grid bound |
| HecsWorld.CollectNeighbourCounts | game_of_life/game_of_life_hecs/src/plugin/mod.rs:47-81 | one (entity, count) pair per entity, in query order, every count taken from the unchanged world |
| HecsWorld.NeighboursUpdated | game_of_life/game_of_life_hecs/src/plugin/mod.rs:46-88 | the neighbour pass keeps the number of entities |
| HecsWorld.NextAlive | game_of_life/game_of_life_hecs/src/plugin/mod.rs:98-101 | the match arms (true, 2) or (_, 3) give alive exactly when B3/S23 holds |
| HecsWorld.CollectNewStates | game_of_life/game_of_life_hecs/src/plugin/mod.rs:91-105 | one (entity, state) pair per entity, the state being B3/S23 of its state and cached count |
| HecsWorld.CellsUpdated | game_of_life/game_of_life_hecs/src/plugin/mod.rs:90-112 | the cell pass keeps the number of entities |
| HecsWorld.Round | game_of_life/game_of_life_hecs/src/plugin/mod.rs:135-137 | a round keeps the number of entities |
| HecsWorld.Rounds | game_of_life/game_of_life_hecs/src/plugin/mod.rs:133-141 | any number of rounds keeps the number of entities |
| HecsWorld.World.constructor | game_of_life/game_of_life_hecs/src/plugin/mod.rs:27-44 | the world holds the spawned entities in spawn order |
| HecsWorld.World.UpdateNeighborsSystem | game_of_life/game_of_life_hecs/src/plugin/mod.rs:46-88 | the world becomes the neighbour pass of the old world, counts written as u8 |
| HecsWorld.World.UpdateCellsSystem | game_of_life/game_of_life_hecs/src/plugin/mod.rs:90-112 | the world becomes the cell pass of the old world |
| HecsWorld.World.RunSimulationNTimes | game_of_life/game_of_life_hecs/src/plugin/mod.rs:129-141 | the world becomes n rounds of the old world |
| HecsWorld.NeighboursUpdatedCounts | game_of_life/game_of_life_hecs/src/plugin/mod.rs:83-87 | the neighbour pass keeps every position and state and writes the number of live Moore neighbours, at most 8, so the u8 cast is exact |
| HecsWorld.FindAliveIgnoresNeighbours | game_of_life/game_of_life_hecs/src/plugin/mod.rs:65-68 | the search for an alive entity does not depend on the cached counts |
| HecsWorld.CountsIgnoreNeighbours | game_of_life/game_of_life_hecs/src/plugin/mod.rs:50-80 | the count of an entity does not depend on the cached counts |
| HecsWorld.NeighboursUpdatedIgnoresCounts | game_of_life/game_of_life_hecs/src/plugin/mod.rs:46-88 | the neighbour pass gives the same world whatever the counts cached before it |
| HecsWorld.RoundIgnoresCounts | game_of_life/game_of_life_hecs/src/plugin/mod.rs:135-137 | a round gives the same world whatever the counts cached before it |
| HecsWorld.NeighboursUpdatedIdempotent | game_of_life/game_of_life_hecs/src/plugin/mod.rs:46-88 | running the neighbour pass twice is the same as running it once |
| HecsWorld.CellsUpdatedFollowsRule | game_of_life/game_of_life_hecs/src/plugin/mod.rs:90-112 | the cell pass keeps every position and count and makes each state B3/S23 of its old state and cached count |
| HecsWorld.CountsCurrentIsFixpoint | game_of_life/game_of_life_hecs/src/plugin/mod.rs:46-88 | on a world whose cached counts are current the neighbour pass changes nothing |
| HecsWorld.RoundIsGeneration | game_of_life/game_of_life_hecs/src/plugin/mod.rs:135-137 | a round keeps every position, makes each state B3/S23 of its old state and its number of live neighbours, and leaves the counts current |
| HecsWorld.NoLiveStaysNoLive | game_of_life/game_of_life_hecs/src/plugin/mod.rs:133-141 | a world with no alive entity has none after any number of rounds |
| HecsWorld.RoundFixpointForever | game_of_life/game_of_life_hecs/src/plugin/mod.rs:133-141 | a world that one round leaves unchanged is unchanged by any number of rounds |
| HecsPatterns.BlockPositions | game_of_life/game_of_life_hecs/src/plugin/mod.rs:154-163 | the live positions of the spawned and of the expected block are its four positions |
| HecsPatterns.BlockNeighbourCounts | game_of_life/game_of_life_hecs/src/plugin/mod.rs:202-207 | every block entity has three live positions around it |
| HecsPatterns.BlockNeighbours | game_of_life/game_of_life_hecs/src/plugin/mod.rs:199 | the neighbour pass writes 3 into every block entity |
| HecsPatterns.BlockScenario | game_of_life/game_of_life_hecs/src/plugin/mod.rs:195-227 | a neighbour pass and a cell pass turn the spawned block into the expected world, and do so again from it |
| HecsPatterns.BlockStaysForever | game_of_life/game_of_life_hecs/src/plugin/mod.rs:195-227 | the expected block is unchanged by any number of rounds |
| HecsPatterns.VerticalNeighbourCounts | game_of_life/game_of_life_hecs/src/plugin/mod.rs:314 | the counts of the 3 x 3 square around a vertical line are 2,1,2,3,2,3,2,1,2 |
| HecsPatterns.HorizontalNeighbourCounts | game_of_life/game_of_life_hecs/src/plugin/mod.rs:316-328 | the counts of the 3 x 3 square around a horizontal line are 2,3,2,1,2,1,2,3,2 |
| HecsPatterns.VerticalPositions | game_of_life/game_of_life_hecs/src/plugin/mod.rs:165-179 | the live positions of the spawned blinker are its middle column |
| HecsPatterns.VerticalWithCounts | game_of_life/game_of_life_hecs/src/plugin/mod.rs:314 | writing the vertical counts into the spawned blinker gives the vertical phase with current counts |
| HecsPatterns.HorizontalPositions | game_of_life/game_of_life_hecs/src/plugin/mod.rs:315 | after the cell pass the live positions are the middle row |
| HecsPatterns.HorizontalWithCounts | game_of_life/game_of_life_hecs/src/plugin/mod.rs:316-328 | writing the horizontal counts after the cell pass gives the world the test expects |
| HecsPatterns.VerticalNeighbours | game_of_life/game_of_life_hecs/src/plugin/mod.rs:314 | the first neighbour pass on the spawned blinker gives the vertical phase with current counts |
| HecsPatterns.HorizontalNeighbours | game_of_life/game_of_life_hecs/src/plugin/mod.rs:316-328 | the second neighbour pass gives the world the test expects |
| HecsPatterns.BlinkerCells | game_of_life/game_of_life_hecs/src/plugin/mod.rs:315 | the cell pass turns the vertical line horizontal, and the horizontal line vertical |
| HecsPatterns.BlinkerScenario | game_of_life/game_of_life_hecs/src/plugin/mod.rs:290-337 | one round turns the spawned blinker into the expected world, and a second round turns it back into the vertical phase |
| HecsPatterns.VerticalRound | game_of_life/game_of_life_hecs/src/plugin/mod.rs:314-316 | a round from the vertical phase with current counts gives the expected horizontal world |
| HecsPatterns.BlinkerHasPeriod2 | game_of_life/game_of_life_hecs/src/plugin/mod.rs:290-337 | the expected world comes back after every even number of rounds, and every odd number gives the vertical phase |
| HecsPatterns.ToadNeighbourCounts | game_of_life/game_of_life_hecs/src/plugin/mod.rs:181-192 | the six toad entities have 2, 4, 4, 4, 4, 2 live positions around them |
| HecsPatterns.ToadScenario | game_of_life/game_of_life_hecs/src/plugin/mod.rs:264-276 | one neighbour pass writes the counts 2, 4, 4, 4, 4, 2 into the toad entities and keeps positions and states |
| HecsPatterns.ToadTestExpectationFails | game_of_life/game_of_life_hecs/src/plugin/mod.rs:269-284 | the world after one neighbour pass is not the one the test expects, with counts 1, 3, 2, 2, 3, 1 |
| HecsPatterns.ToadCells | game_of_life/game_of_life_hecs/src/plugin/mod.rs:286 | the cell pass written at the end of the test, which the failing check at :284 keeps from running, would leave only the two end entities alive on the correct counts: the four inner ones have 4 neighbours, and no birth happens where no entity sits |
| BevySystems.PositionIndexBelowAt | src/game_of_life/systems.rs:26-29 | after inserting the first n entities, the map's keys are exactly their positions, and each key holds the state of the last entity inserted there |
| BevySystems.PositionIndexOfDistinct | src/game_of_life/systems.rs:26-29 | when positions are distinct, the rebuilt map holds each entity's state at its position |
| BevySystems.PositionIndexBelowCongruent | src/game_of_life/systems.rs:26-29 | the partly filled map depends only on the entities' positions and states |
| BevySystems.PositionIndexCongruent | src/game_of_life/systems.rs:26-29 | the rebuilt map depends only on positions and states, not on the cached counts |
| BevySystems.CountNeighbours | src/game_of_life/systems.rs:84-104 | for sizes up to i32::MAX, the count written is the number of in-bounds Moore neighbours the map says are alive, at most 8 |
| BevySystems.NeighboursFromIndex | src/game_of_life/systems.rs:78-106 | the counting system keeps every position and state |
| BevySystems.NextAlive | src/game_of_life/systems.rs:114-124 | the match arms (true, 2), (true, 3) and (false, 3) give alive exactly when B3/S23 holds |
| BevySystems.CellsStepped | src/game_of_life/systems.rs:108-125 | the cell system keeps every position |
| BevySystems.CellsSteppedFollowsRule | src/game_of_life/systems.rs:112-124 | the cell system keeps every position and cached count and makes each state B3/S23 of its old state and count |
| BevySystems.FlipsIffStatesChange | src/game_of_life/systems.rs:126-128 | some entity flips exactly when the cell system changes the states |
| BevySystems.Tick | src/game_of_life/mod.rs:33-44 | a tick keeps the number of entities and their positions |
| BevySystems.Simulation.constructor | src/game_of_life/mod.rs:21-24 | the app starts with an empty map, the flag raised, and the map coherent |
| BevySystems.Simulation.RebuildCellPositions | src/game_of_life/systems.rs:17-32 | with the flag raised the map is refilled from the entities; with it lowered the map is kept; either way the flag ends lowered and a coherent map ends equal to the rebuilt one |
| BevySystems.Simulation.UpdateNeighborsBruteForceSystem | src/game_of_life/systems.rs:78-106 | every entity's count is taken from the map, and the map, flag and coherence are kept |
| BevySystems.Simulation.UpdateCellsSystem | src/game_of_life/systems.rs:108-130 | every state follows the rule; the flag is raised exactly when it was raised or some state flips; coherence is kept |
| BevySystems.Simulation.RunTick | src/game_of_life/mod.rs:33-44 | from a coherent state the chain of five systems gives the tick of the old entities and leaves the map rebuilt and the flag lowered |
| BevySystems.IndexLiveIsGridLive | src/game_of_life/systems.rs:94-99 | with distinct positions, a position counts from the rebuilt map exactly when it is in bounds and an alive entity sits there |
| BevySystems.CoherentCounts | src/game_of_life/systems.rs:84-104 | with distinct positions, the count from the rebuilt map is the number of live in-bounds Moore neighbours |
| BevySystems.GridLiveCongruent | src/game_of_life/systems.rs:94-99 | liveness of a position depends only on positions and states |
| BevySystems.TickIsGeneration | src/game_of_life/mod.rs:35-41 | with distinct positions, a tick keeps each position, makes each state B3/S23 of its old state and its number of live neighbours, and leaves every count current |
| EnginesAgree.HecsEntities | game_of_life/game_of_life_hecs/src/plugin/mod.rs:29-41 | a grid laid out as hecs entities has one entity per cell |
| EnginesAgree.BevyEntities | src/game_of_life/systems.rs:38-64 | a grid laid out as Bevy entities has one entity per cell |
| EnginesAgree.EntityPosition | src/game_of_life/systems.rs:40-46 | entity i sits at (i % width, i / width), inside the grid, and that position has row-major index i |
| EnginesAgree.HecsLiveIsDenseLive | game_of_life/game_of_life_hecs/src/plugin/mod.rs:65-68 | a position counts in the hecs world exactly when it counts in the dense grid |
| EnginesAgree.BevyLiveIsDenseLive | src/game_of_life/systems.rs:94-99 | a position counts for the Bevy entities exactly when it counts in the dense grid |
| EnginesAgree.BevyDistinct | src/game_of_life/systems.rs:40-46 | the spawned Bevy entities sit at distinct positions |
| EnginesAgree.LiveNeighboursAgree | game_of_life/no_ecs/src/main.rs:52-84 | two liveness tests that agree around a cell give the same number of live neighbours |
| EnginesAgree.DenseNext | game_of_life/no_ecs/src/main.rs:86-107 | the dense step at index i is B3/S23 of the cell and its count at (i % width, i / width) |
| EnginesAgree.HecsRoundIsDenseStep | game_of_life/game_of_life_hecs/src/plugin/mod.rs:135-137 | one hecs round gives every entity the state the dense step gives its cell |
| EnginesAgree.BevyTickIsDenseStep | src/game_of_life/mod.rs:35-41 | one Bevy tick gives every entity the state the dense step gives its cell |
| EnginesAgree.HecsRoundKeepsLayout | game_of_life/game_of_life_hecs/src/plugin/mod.rs:135-137 | a hecs round on a laid-out grid is, up to cached counts, the layout of the next dense generation |
| EnginesAgree.HecsRoundsAreGenerations | game_of_life/game_of_life_hecs/src/plugin/mod.rs:129-141 | n hecs rounds are, up to cached counts, the layout of n dense generations |

## Left out

- Randomness. `rand::thread_rng` is not modelled. `randomize` takes its draws as a parameter. The random states of `batch_spawn_cells` and `spawn_cells` are the input grid of `EnginesAgree`.
- Output and timing. This covers `print_cells`, `save_cells_to_file`, `save_durations_to_file`, the `durations` vector, `Instant` timings and every `println!`. None of it affects the cells.
- The command-line entry points and the enzyme–substrate and gas simulations are not part of this model.
- Rendering and input in the Bevy app are not part of this model. This covers sprites and colours, the camera, placement modes, cell clicks, the run/step toggles and the `SimulationState` guard.
- Clicks that toggle cells are not modelled. A system that changes cells outside the tick must raise `CellsChanged`; `Simulation.Coherent` is the invariant it would have to keep.
- `par_iter_mut` in the Bevy counting system runs sequentially in the model. Each entity's count reads only the map, so order does not matter.
- hecs `World` internals are abstracted. Entities are indices in spawn order, and queries iterate them in that order. A failed `world.get` is the index guard in `World.UpdateNeighborsSystem`.
- The hecs `entities_checked` vector is new on every probe, so it never skips anything. The model's per-probe `entitiesChecked` is always empty for the same reason.
- `run_simulation` in the hecs engine is commented out and not modelled.
- `batch_spawn_cells` lays out an n x n square. `EnginesAgree.HecsEntities` lays out any width x height with the same formula, which includes the square.
- Fixed-width integers. `u32` overflow of `width * height` is a precondition (`U32_LIMIT`) of `InitializeCells`, the `Universe` constructor and `RunSimulation`.
- DenseGrid.GetAliveNeighboursCount: width and height are `LifeRule.Extent`, at most `i32::MAX`, as are the sizes of `DenseGrid.Universe` and `DenseGrid.RunSimulation`. For a larger `u32` size, `width as i32` or `height as i32` (main.rs:68) is negative. The bound check then skips every probe and the code returns 0. The model does not capture that case. The coordinates x and y are unbounded too. The code computes `x as i32 + i` and `y as i32 + j` (main.rs:66-67), which wrap for x or y of 2^31 or more and overflow at `i32::MAX`. Such coordinates can probe the wrong column or row. `run_iteration` only passes x < width and y < height, where neither happens. The model does not capture coordinates past `i32::MAX`.
- BevySystems.CountNeighbours: width and height are `LifeRule.Extent`, as are the sizes of `BevySystems.Simulation`. The same negative cast (systems.rs:94) would make the code count 0 for larger sizes. The model does not capture that case.
- The hecs and Bevy positions are `i32`. `pos.x + dx` would overflow at `i32::MAX`, and the model's coordinates are unbounded, so that overflow is not modelled.
- The `u8` neighbour cache is written as `count % 256` in the hecs model. The Bevy model keeps the count as a natural number. Both counts are proved to be at most 8, so nothing wraps.
- DenseGrid.GetCellByPosition: the model requires the unwrapped index `y * width + x` to be inside the vector. It makes the panic past the end a precondition rather than a failure result, because the code has no error path. When `y * width + x` passes `u32::MAX`, the code panics in a debug build and wraps to a smaller index in a release build. The model excludes those inputs.
- DenseGrid.SetCellByPosition: the same `u32` index, with the same precondition and the same inputs left out.
- A coordinate x at or past `width` aliases a cell of another row. This is allowed by the code and the model, and no caller does it.
- The Bevy grid size comes from the `Grid` resource (600 x 400). The model takes it as a parameter.

## Findings

| source | as written | input that shows it | evidently intended | confidence | as-written member | corrected member |
|---|---|---|---|---|---|---|
| game_of_life/game_of_life_hecs/src/plugin/mod.rs:269-276 | after one neighbour pass `test_toad_pattern` expects the counts 1, 3, 2, 2, 3, 1 | the toad of `spawn_toad_pattern` (:181-192) after the pass at :264; entity (0,0) has the live neighbours (0,1) and (1,1), so its count is 2, not 1 | the counts 2, 4, 4, 4, 4, 2, the live-neighbour numbers of the six entities | high, by proof; not executed | HecsPatterns.ToadTestExpectationFails | HecsPatterns.ToadScenario |
