# Ant colony pairing of cars with chargers

This project models the solver core of `ants.py`. The program places cars and
chargers on a plane with the mouse. A population of ants then searches for
short tours that pair every car with a charger. Each charger has two slots per
ant.

The modelled behaviour:

- Every tick, each ant that is not done moves once: from a car to a charger
  that still has a free slot, or from a charger to a car it has not visited.
- When every ant is done, the generation ends. The pheromone matrix
  evaporates, and every ant lays `intensity / distanceTraveled` on each
  car–charger cell of its path. The shortest path seen so far is updated.
  A new generation is spawned.
- Placing a point resets everything: the best path is forgotten, the
  distances are recomputed, the pheromones are reset to ones, and new ants
  are spawned.

The module-level globals of the program become the fields of one class,
`Colony.Simulation`. The distance table is a `seq<seq<int>>`, since it is only
ever replaced. The pheromone matrix is an `array2<real>` that is updated in
place. Ants are values (`Ants.Ant`) kept in a `seq` field, which the tick
rewrites ant by ant.

The random draws are parameters:

- `picks[k]` is the index the weighted draw returned for ant `k`.
- `spawns[k]` is the car the `k`-th new ant starts on.

Every contract holds for every draw. So the properties below hold whatever
the random generator does.

Modules:

- `Graph` (graph.dfy): points, nodes, and the distance table as the program
  computes it with array broadcasting.
- `Ants` (ants.dfy): the ant record, candidate moves, a single move, the ant
  invariant, and termination of a generation.
- `Trails` (trails.dfy): what a generation's end does to the pheromone
  matrix, as a pure specification.
- `Tracker` (tracker.dfy): the best-path fold.
- `Colony` (colony.dfy): the simulation state and its operations.

## Model

| member | source | states |
|---|---|---|
| Colony.Simulation.constructor | ants.py:16-22 | The simulation starts with no cars, no chargers, no ants and no best path; the best distance starts infinite. The state invariant `Valid` holds from the start. |
| Graph.DistanceTable | ants.py:65 | The table the broadcast expression computes: coordinate differences, their absolute values, summed over the two coordinates. It has one row per car and one column per charger. |
| Graph.DistanceTableIsManhattan | ants.py:62-65 | The broadcast expression `abs(np.expand_dims(cars, axis=1) - chargers).sum(axis=2)` builds a table with one row per car and one column per charger. Each entry is the Manhattan distance between that car and that charger. |
| Graph.ManhattanZeroIff | ants.py:65 | A distance is zero exactly when the car and the charger stand on the same point. |
| Graph.SeparatedDistancesPositive | ants.py:65 | If no car shares a point with a charger, every table entry is positive. |
| Colony.Simulation.CalculateDistances | ants.py:62-65 | If both lists are non-empty, the table becomes the broadcast table of the current points. Otherwise the old table is kept. |
| Colony.Simulation.InitializePheromones | ants.py:68-70 | The pheromone matrix is replaced by a fresh cars-by-chargers matrix in which every cell is 1. |
| Colony.Simulation.ResetShortestPath | ants.py:48-51 | The best path is cleared and the best distance becomes infinite. |
| Colony.Simulation.SaveShortestPath | ants.py:54-59 | The loop leaves the record equal to the fold `Tracked` over the ants, in order. |
| Tracker.Tracked | ants.py:56-59 | The best-path record after the ants are considered in order, each replacing the record when it is strictly shorter. |
| Tracker.TrackedKeepsPairing | ants.py:56-59 | If the record starts with its path absent exactly when its distance is infinite, it ends that way too. |
| Tracker.TrackedIsMinimum | ants.py:54-59 | After the fold, the best distance has not grown, and it is at most every ant's distance. |
| Tracker.TrackedUnchangedIff | ants.py:54-59 | The record is left untouched if and only if no ant is strictly shorter than the starting best. The comparison is strict. |
| Tracker.TrackedHoldsFirstShortest | ants.py:54-59 | If the record changed, it holds the path and distance of some ant `k`. Every ant before `k` is strictly longer, so on a tie the first ant wins. |
| Ants.NewAnt | ants.py:35-44 | A fresh ant: distance 0, no car visited, two slots at every charger in its own copy of the slot table, standing on its spawn car, which is also the only node of its path. |
| Colony.Simulation.SpawnAnts | ants.py:31-45 | If both lists are non-empty, there are `numAnts` fresh ants. Ant `k` stands on car `spawns[k]`, has an empty visited set, two slots at every charger, distance 0, and a one-node path. Otherwise there are no ants. |
| Ants.NewAntProperties | ants.py:35-44 | A fresh ant satisfies the ant invariant. Its rank is `2·|cars|`. It can move if and only if there is at least one charger. |
| Colony.FreshAntsValid | ants.py:31-45 | A freshly spawned population satisfies the population invariant. |
| Ants.FreeChargers | ants.py:112 | The result is exactly the chargers whose slot count is positive, in ascending order. |
| Ants.UnvisitedCars | ants.py:126 | The result is exactly the cars not yet visited, in ascending order. |
| Ants.Candidates | ants.py:112-126 | The candidates of an ant: on a car, the free chargers (`FreeChargers`); on a charger, the unvisited cars (`UnvisitedCars`). |
| Ants.CandidatesExactly | ants.py:112-126 | On a car, a charger is a candidate if and only if it has a free slot. On a charger, a car is a candidate if and only if the ant has not visited it. |
| Ants.Active | ants.py:110 | The condition under which an ant still moves, the same in the move loop and in the generation check (ants.py:140): not every car has been visited, and some slot is still free. |
| Ants.CandidatesNonEmpty | ants.py:110-127 | An ant that is not done always has at least one candidate, so the weighted draw never sees an empty list. |
| Ants.Move | ants.py:112-136 | One move, as the program makes it. From a car: the picked free charger loses a slot, the car joins the visited set, and the car–charger distance is added. From a charger: the picked unvisited car becomes the location and that distance is added. The new location is appended to the path. |
| Ants.MoveKeepsPath | ants.py:112-136 | After a move, the path still alternates car, charger, car, … over valid indices, and the location is its last node. The visited set is exactly the cars the ant has left, and no car occurs twice on the path. |
| Ants.MoveKeepsSlots | ants.py:120 | After a move, every slot count still equals 2 minus the visits to that charger, and no count is negative. |
| Ants.MoveKeepsLength | ants.py:123-136 | After a move, the distance travelled still equals the sum of the distances of the path's edges. |
| Ants.MovePreservesInvariant | ants.py:110-136 | A move keeps the whole ant invariant. |
| Ants.Advance | ants.py:110-136 | An active ant moves and its path grows by exactly its new location. A finished ant is left unchanged. |
| Ants.AdvancePreservesInvariant | ants.py:110-136 | One tick of one ant keeps the ant invariant. |
| Ants.TickAll | ants.py:109-136 | One tick of the population has one result per ant, and ant `k` is advanced by its own draw `picks[k]`. |
| Ants.TickAllPreservesPopulation | ants.py:109-136 | A tick of the population keeps every ant's invariant. |
| Ants.MoveLowersRank | ants.py:110-136 | An active ant has rank at least 2, and every move lowers its rank by exactly one. The rank is twice the cars still to leave, plus one while standing on a charger. |
| Ants.GenerationOver | ants.py:144 | A generation is over when it has at least one ant and no ant can move. |
| Ants.Spawned | ants.py:33-45 | The generation a list of spawn cars starts: ant `k` is the fresh ant on car `spawns[k]`. |
| Ants.SpawnedValid | ants.py:33-45 | When every spawn car exists, every ant of the spawned generation satisfies the ant invariant and has rank `2·|cars|`. |
| Ants.ValidRounds | ants.py:112-130 | A sequence of draw vectors is valid for a population when, at every tick, each active ant's draw indexes its candidates of that moment. |
| Ants.RunAll | ants.py:107-136 | The population after one whole-population tick (`TickAll`) per round of draws. |
| Ants.PopulationFinishesWithin | ants.py:107-142 | If every active ant's rank is at most the number of rounds plus one, no ant can move after the rounds. |
| Ants.GenerationEnds | ants.py:107-144 | A generation spawned on cars is over after at most `2·|cars| − 1` ticks, whatever the draws. So every generation ends. |
| Colony.Simulation.MoveAnts | ants.py:109-136 | The loop leaves the population equal to `TickAll` of the old population. |
| Colony.Simulation.Tick | ants.py:109-136 | Like `MoveAnts`, and the state invariant `Valid` is kept. |
| Colony.Simulation.GenerationDone | ants.py:138-142 | The flag is true if and only if no ant can move. It is also true when there are no ants. |
| Colony.Simulation.Step | ants.py:107-147 | If the ticked population is not finished, the ants are the ticked population, and the best path and the pheromones are unchanged. If it is finished, three things happen: the pheromones become `Reinforced` of the old matrix by the ticked population, the record becomes the fold `Tracked` over it, and a fresh generation is spawned from `spawns`. In both cases the best distance never grows, and `Valid` is kept. |
| Colony.Simulation.CheckGeneration | ants.py:138-147 | A generation that is over (it has ants and none can move) is reinforced, folded into the record and replaced. Otherwise nothing changes. |
| Colony.Simulation.EndGeneration | ants.py:144-147 | Pheromone update, then best-path update, then respawn, in the program's order. `Valid` is kept. |
| Colony.Simulation.Reinforce | ants.py:144-146 | The pheromones become `Reinforced` of the old matrix, and the record becomes `Tracked` over the finished ants. The best distance does not grow, and every cell stays positive. |
| Colony.Simulation.Respawn | ants.py:147 | The finished generation is replaced by `numAnts` fresh ants, and `Valid` is kept. |
| Colony.Simulation.Evaporate | ants.py:95 | Every cell becomes its old value times (1 − rate), and nothing else changes. |
| Graph.Cell | ants.py:100-103 | The matrix cell an edge uses: its row is the car end of the edge and its column the charger end, whichever direction the edge runs. |
| Colony.Simulation.LayTrail | ants.py:97-104 | Each cell gains `amount` once for every edge of the path whose car–charger cell it is. |
| Colony.Simulation.LayTrails | ants.py:96-104 | Each cell gains the sum, over the ants in order, of `intensity / distanceTraveled` for each of that ant's edges through the cell. |
| Colony.Simulation.UpdatePheromones | ants.py:93-104 | The matrix becomes `Reinforced` of its old contents: evaporated, then reinforced by every ant's trail. |
| Trails.Evaporated | ants.py:95 | A cell's level after evaporation: the old level times (1 − rate). A positive level stays positive and does not grow. |
| Trails.PathDeposit | ants.py:97-104 | What one path lays on a cell: `amount` once for each edge whose car–charger cell it is. |
| Trails.AntDeposit | ants.py:96-104 | What one ant lays on a cell: its path's deposit with `amount = intensity / distanceTraveled`, and nothing when it has no edge. |
| Trails.Deposit | ants.py:96-104 | What the whole population lays on a cell: the sum of the ants' deposits, in order. |
| Trails.Reinforced | ants.py:93-104 | The matrix after a generation's update: each cell evaporated, then increased by the population's deposit on it. It keeps the matrix's shape. |
| Trails.PathDepositSign | ants.py:97-104 | One path's deposit on a cell is never negative, and it is positive exactly when one of the path's edges uses the cell. |
| Trails.DepositSign | ants.py:96-104 | The whole population's deposit on a cell is never negative, and it is positive exactly when some ant's path uses the cell. |
| Trails.ReinforcedPositive | ants.py:93-104 | Evaporation at a rate below 1, followed by the deposits, keeps every cell positive. A cell ends above its evaporated level exactly when some ant's path uses it. |
| Ants.PathLengthPositive | ants.py:104 | Over positive distances, a path with at least one edge has a positive length. |
| Colony.AntsReinforceable | ants.py:104 | When no car stands on a charger, every ant that has moved has a positive distance, so `intensity / distanceTraveled` is defined. |
| Colony.Simulation.ClearState | ants.py:80-82 | The best path is cleared, the distances are recomputed when both lists are non-empty, and the pheromones are reset to a fresh matrix of ones. |
| Colony.Simulation.Reset | ants.py:80-83 | The reset cascade leaves no best path, the broadcast distance table when both lists are non-empty, and a fresh matrix of ones. It spawns a new generation when both lists are non-empty and leaves no ants otherwise. `Valid` holds afterwards. |
| Colony.Simulation.PlacePoint | ants.py:73-83 | A left click appends the point to the cars, a right click to the chargers, and any other button to neither. The reset cascade then runs. |

The state invariant `Colony.Simulation.Valid` has these parts:

- The evaporation rate is in [0, 1), and the intensity is positive.
- The pheromone matrix is cars-by-chargers, and every cell is positive.
- While both lists are non-empty, the distance table holds the Manhattan
  distances and there are `numAnts` ants. Otherwise there are no ants.
- Every ant satisfies `Ants.AntInvariant`.
- The best path is absent exactly when the best distance is infinite.

Three facts about the code that the model keeps:

- Charger slots are per ant. Each ant gets its own copy of the slot table
  (`charger_slots.copy()`, ants.py:41), so one ant's moves never use up
  another ant's slots.
- A generation can need `2·|cars| − 1` ticks. With two cars and one
  charger, an ant moves car, charger, car, charger: three moves. That is
  also the bound proved for every generation (`Ants.GenerationEnds`).
- A tick with no ants does nothing. The check `if ants and generation_done`
  (ants.py:144) does not end a generation that has no ants.

## Left out

- The weighted random choice is left out: `calculate_probabilites`
  (ants.py:86-90), `np.random.choice` and `np.random.randint`. The model
  takes the drawn index as a parameter and admits every valid index. The
  weighting itself is not modelled: the powers `dst_power` and
  `pheromone_power`, and the `1e-10` floor.
- Drawing, image loading, window setup and frame scheduling are left out
  (`load_image_rgb`, the rest of `setup`, `draw`). They are I/O.
- Floating point is not modelled. The program stacks the mouse coordinates
  into a float array (ants.py:18, 76-78). The model chooses integer
  coordinates, so distances are exact integers. Pheromone levels are exact reals, with no
  rounding. `float('inf')` is the `Infinity` case of `Tracker.Extended`.
- Colony.Simulation.Step: requires that no car stands on a charger. In such a
  topology a candidate can be at distance zero. Then `1 / neighbor_distances`
  is infinite (ants.py:88), the normalisation gives NaN (ants.py:90), and
  `np.random.choice` raises on those probabilities (ants.py:116, 130), so the
  tick aborts. The model leaves out these topologies whole, including their
  ticks that do not raise. Because no ant ever crosses a zero-length edge,
  the division at ants.py:104 never sees zero. `CheckGeneration`,
  `EndGeneration` and `Reinforce` carry the same requirement for the same
  reason.
- Colony.Simulation.constructor: the tunable constants are parameters,
  restricted to `0 ≤ rate < 1` and `intensity > 0`. The program's defaults
  (1000 ants, 0.2, 2.0) satisfy this. Other values are not modelled.
- The program stores the best path by reference to the ant's list, and each
  ant's `location` dictionary is the same object as its `spawn_location`.
  The model uses values throughout. That dictionary is mutated in place on
  every move (ants.py:121-122, 132-133), but `spawn_location` is never read
  again, and the path stores copies of the location (ants.py:43, 136). A
  finished ant's list is not changed after the record takes it, since the
  next generation consists of new ants. So no observable behaviour is lost.
- The empty pheromone array that `setup` creates has shape (0, 0, 1). The
  model uses a 0-by-0 matrix. It is replaced by a 2-dimensional one at the
  first reset.
- While one of the lists is empty, the program keeps the old distance table.
  So does the model: `CalculateDistances`, `ClearState`, `Reset` and
  `PlacePoint` all promise the old table in that case. `Valid` says nothing about that table then, since no
  ant reads it.
