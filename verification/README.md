# HotSpotsPolicing core in Dafny

This project models the agent-based street-robbery simulation *HotSpotsPolicing*, which is built on Mesa. It covers:

- the street patches that make up the city grid, and their road/building classification;
- the civilians, who cycle between home and their activity nodes (moving, arrived, waiting) and may pick a victim in their cell;
- the cops, who patrol from one randomly drawn road patch to the next;
- the model helpers that build the grid, draw building cells for civilians and count civilians by ethnicity.

Every random draw of the simulation is an explicit parameter. `randint(a, b)` becomes an integer that the caller supplies. `random.choice(xs)` becomes an index `k` that picks `xs[k % |xs|]` (`Draws.Choice`). A choice over an empty list, which raises `IndexError` in Python, becomes `None`. An operation that can raise returns an `Option`. For each one, a lemma states exactly when it raises.

## Modules

- `Draws`: `Option` and the index-driven `Choice`.
- `Geometry`: cells, Manhattan distance, Python's `list(range(...))`, and the von Neumann neighbourhood at radius 1 on a bounded grid.
- `StreetPatches`: `StreetPatch`, and the grid of patches the model builds (`Grid`, `Built`).
- `Agents`: `assign_ethnic`, and the `typ` each agent exposes.
- `Movement`: the steering code that `Civilian.move` and `Cop.move` share. The road neighbours are split into cells in a good direction and cells in a bad direction. A good direction is picked at random, or the last one favoured by the `best_position` loop. Failing that, the first bad direction is taken, or the agent stands still.
  - Each loop of the source is a method proved equal to a specification function: `ScanNeighbours`, `SplitRoads` and `FindBest`.
  - `TakeStep` composes them.
- `Civilians`: `class Civilian`, whose `Move`, `Offend` and `Step` change the object's fields. They are proved against the state machine `CivMove` and the run `RunMoves`.
- `Cops`: `class Cop`, with `RandomPatrolNode`, `Move` and `Step`. They are proved against `CopMove` and `RunPatrol`.
- `City`: the nested loops that place one `StreetPatch` per cell, `random_activity_generator`, the loop that draws four activity nodes, and `count_ethnic_citizens`.

## Behaviour modelled where the code and its comments differ

The model follows the code in each of these cases:

- **Re-choosing an activity node.** The comprehension `[a_node for a_node in self.activity_nodes if a_node not in self.pos]` tests whether a pair is an element of the position tuple. That never holds, so nothing is removed, and the civilian may "choose" the cell it already stands on. In that case it arrives on the same call. `Civilians.NotInPosFilter` proves the filter is the identity.
- **Dwell time away from home.** The comment says `15 + U(0, 480)`, but the code draws `15 + int(uniform(0, 4))`. The model uses 15 to 18 ticks.
- **Choosing a direction.** The code takes a uniformly random good direction, unless a second draw above 80 selects the *last* favoured entry of the `best_position` loop. A bad direction is always the *first* one (`wrong_dir[0]`).
- **`best_position`.** It is read only when there are at least two good directions. `Movement.CrowdedTowardHasFavourite` proves it is then always bound, so on a real neighbourhood the `UnboundLocalError` cannot happen.
- **Patrol destinations.** The cop's patrol node is any road patch found among the *scheduled* agents. It is not drawn from a zone. The patch loop in `Map.__init__` does not add patches to the schedule (the call is commented out). With the schedule the constructor builds, the list of roads is therefore empty and the patrol draw raises. The model takes the scheduled agents as a parameter, and `Cops.CopMoveDefined` states exactly when the draw raises.
- **Ethnicity.** `assign_ethnic` compares an integer in `[0, 101]` with real thresholds. `Agents.AssignEthnicBands` proves the resulting bands:
  - 0–44 is white;
  - 45–68 is other;
  - 69–86 is asian;
  - 87–101 is black.

  `black_pop` is never compared against.

## Model

| member | source | states |
|---|---|---|
| Draws.Choice | agent.py:78 | `random.choice` with an index draw: defined exactly when the list is non-empty, always returns an element of it, and can return any element |
| Geometry.RangeListMembership | agent.py:15-16 | membership in `list(range(start, stop, step))` is `start <= v < stop` and `(v - start) % step == 0`, in both directions |
| Geometry.VonNeumannExact | agent.py:168-175 | the neighbourhood lists each in-bounds cell at Manhattan distance 1 exactly once, and nothing else |
| StreetPatches.RoadLattice | agent.py:15-22 | a patch is a road exactly when `0 <= x < 400` with `x % 3 == 0`, or `0 <= y < 400` with `y % 6 == 0`; every other patch is a building |
| StreetPatches.NewStreetPatch | agent.py:10-22 | the constructed patch keeps its id and position, and its `typ` is road exactly on that lattice |
| StreetPatches.PatchAt | agent.py:87-91 | a built cell lists exactly one patch, which stands on that cell and carries the classification of that cell |
| Agents.AssignEthnicBands | agent.py:196-211 | the thresholds 44.9, 68.2 and 86.7 split the draws 0..101 into white 0–44, other 45–68, asian 69–86 and black 87–101, each an if-and-only-if |
| Agents.CivilianIds | agent.py:154-159 | the civilians kept from a cell list: no more entries than the list, every civilian's id is present, and every id comes from a civilian |
| Movement.RoadNeighbours | agent.py:86-92 | a cell is a candidate exactly when it is a neighbour, is not the destination and is a road; distinct neighbours give distinct candidates |
| Movement.Partition | agent.py:103-110 | a candidate other than `prev_pos` lands in the good list exactly when it shrinks the x or the y offset to the destination, and in the bad list otherwise; `prev_pos` is in neither; distinctness is kept |
| Movement.BestPosition | agent.py:114-118 | `best_position` is set exactly when some good direction is favoured, and it is then the *last* favoured entry of the list: favoured, and no later entry is |
| Movement.Steer | agent.py:111-130 | the choice raises only for two or more good directions, a tie draw above 80 and no favoured entry; with go ≤ 98 and two or more good directions, a tie draw above 80 takes the last favoured entry; with go ≤ 98 and one good direction, or a tie draw of at most 80, the result is a random good direction; otherwise it is the first bad direction or the current cell |
| Movement.CloserNeighbourShortens | agent.py:103-108 | stepping in a good direction cuts the Manhattan distance to the destination by exactly one |
| Movement.OneGoodStepPerAxis | agent.py:103-108 | two different good directions are one horizontal and one vertical step |
| Movement.CrowdedTowardHasFavourite | agent.py:113-121 | with two or more good directions the `best_position` loop always assigns a value |
| Movement.StepDefined | agent.py:84-133 | on a real neighbourhood the movement part of `move` never raises |
| Movement.StepArrives | agent.py:87-96 | the agent arrives exactly when the destination is a neighbour or its own cell; it then stands on the destination and `prev_pos` is unchanged |
| Movement.StepNeverBacktracks | agent.py:104-133 | a step that does not arrive sets `prev_pos` to the old cell, and either stands still or enters an adjacent road cell other than the old `prev_pos` |
| Movement.StepChoices | agent.py:111-130 | with go ≤ 98 and a good direction the agent enters that direction and gets one cell closer; otherwise it takes the first bad direction, or stands still only when there is none |
| Movement.ScanNeighbours | agent.py:86-92 | the neighbour loop jumps to the destination exactly when it is a neighbour and collects exactly the road candidates |
| Movement.SplitRoads | agent.py:100-110 | the direction loop produces exactly the good and bad lists |
| Movement.FindBest | agent.py:114-118 | the `best_position` loop yields exactly the specified favoured entry |
| Movement.TakeStep | agent.py:84-133 | the whole movement part of `move` yields exactly the specified step: new cell, new `prev_pos` and whether it arrived |
| Civilians.NotInPosFilter | agent.py:83 | the `a_node not in self.pos` filter keeps every activity node |
| Civilians.Others | agent.py:163 | the victims considered are exactly the cell's civilians other than the offender |
| Civilians.OffendChoice | agent.py:152-166 | a victim is chosen exactly when the propensity is positive and the cell holds more than one civilian; the victim is a civilian of the cell other than the offender |
| Civilians.CivMoveRaises | agent.py:76-83 | `move` raises exactly when the civilian is moving, has no activity nodes, and must draw one: at home, or at its destination with a draw above 79 |
| Civilians.CivMoveDefined | agent.py:76-133 | a civilian with at least one activity node never raises in `move` |
| Civilians.CivPhaseCycle | agent.py:94-146 | moving never jumps to waiting and arrives only on the destination; arrived always becomes waiting in place; waiting counts down and leaves exactly when the timer reads 0 |
| Civilians.CivDwellBounds | agent.py:135-141 | on arrival the timer is set to 1–600 ticks at home and 15–18 ticks elsewhere |
| Civilians.CivTimerNonNegative | agent.py:142-146 | a non-negative timer stays non-negative across `move` |
| Civilians.RunKeepsTimer | agent.py:182-186 | a non-negative timer stays non-negative across all the moves of a step |
| Civilians.CivDestinationChoice | agent.py:76-83 | from home the destination becomes an activity node; at the destination it becomes home when the draw is ≤ 79 and an activity node otherwise; elsewhere it is kept |
| Civilians.CivArrivesWhenAdjacent | agent.py:87-96 | a destination one cell away, road or building, is reached in the same call, with `prev_pos` unchanged |
| Civilians.CivStepNeverBacktracks | agent.py:98-133 | a moving call that does not arrive records the old cell and either stands still or enters an adjacent road other than the previous cell |
| Civilians.Civilian.constructor | agent.py:33-70 | the new civilian's home is its starting cell; every movement field is the argument given; the ethnicity is the band of the draw |
| Civilians.Civilian.Move | agent.py:72-146 | `move` raises exactly when the specification does; otherwise it leaves the civilian in the state `CivMove` specifies |
| Civilians.Civilian.Offend | agent.py:148-166 | `offend` picks exactly the victim `OffendChoice` specifies |
| Civilians.Civilian.Step | agent.py:177-188 | `step` performs `max(travel_speed, 0)` moves, stops at the first that raises, and then picks the victim `offend` would |
| Cops.RoadPositions | agent.py:331-336 | `list_of_roads` holds exactly the positions of the scheduled road patches |
| Cops.PatrolNodeIsRoad | agent.py:320-340 | the patrol draw succeeds exactly when a road patch is scheduled, and returns the position of one |
| Cops.CopMoveDefined | agent.py:252-304 | `Cop.move` raises exactly when it must draw a new destination and no road patch is scheduled |
| Cops.CopPhaseCycle | agent.py:265-308 | a cop arrives only on its destination; the next call resets `prev_pos` and moves on; a cop never waits |
| Cops.CopDestinationIsRoad | agent.py:252-254 | a destination drawn on reaching the old one is a road cell |
| Cops.Cop.constructor | agent.py:225-246 | the new cop's home is its starting cell, and every movement field is the argument given |
| Cops.Cop.RandomPatrolNode | agent.py:320-340 | the road-collecting loop and the draw yield exactly the specified patrol node |
| Cops.Cop.Move | agent.py:248-308 | `move` raises exactly when the specification does; otherwise it leaves the cop in the state `CopMove` specifies |
| Cops.Cop.Step | agent.py:342-351 | `step` performs `max(travel_speed, 0)` moves and stops at the first that raises |
| City.PatchIdsDistinct | model.py:33 | the id formula `10000000 + x * height + y` gives different cells different ids |
| City.PlaceColumn | model.py:31-39 | the inner loop fills column `x_k` with one patch per cell, each carrying its formula id, and touches nothing else |
| City.BuildPatches | model.py:29-39 | after the nested loops, every in-bounds cell holds exactly the one patch built for it, nothing lies outside, and the result is a built grid |
| City.Candidates | model.py:79-80 | a value is a candidate exactly when it lies in `[0, n)` and is not excluded |
| City.NoColumnWhenNarrow | model.py:76-79 | no column qualifies exactly when the grid is at most one cell wide |
| City.NoRowWhenFlat | model.py:77-80 | no row qualifies exactly when the grid is at most one cell high |
| City.RandomActivityInBounds | model.py:74-81 | a drawn cell lies on the grid, outside the columns of `range(0, 100, 3)` and outside the rows of `range(0, 120, 6)` |
| City.RandomActivityFails | model.py:79-80 | the draw raises exactly when the grid is at most one cell wide or high |
| City.RandomActivityCovers | model.py:79-81 | every in-bounds cell outside the excluded columns and rows can be drawn |
| City.RandomActivityIsBuilding | model.py:74-81 | on a grid at most 100 wide and 120 high, every drawn cell is a building patch |
| City.GenerateActivityNodes | model.py:49-54 | the loop draws four activity nodes, each the cell of the draw of the same rank, and raises exactly on a degenerate grid |
| City.CountEthnicCitizens | model.py:91-101 | the loop counts exactly the civilians of the given ethnicity |
| City.CountEthnicBounded | model.py:91-101 | no ethnicity counts more agents than there are civilians |
| City.CountEthnicPartition | model.py:91-101 | the four ethnicity counts add up to the number of civilians |

## Left out

- The browser front end (`server.py`), Mesa's scheduler and its random activation order, the `DataCollector`, and `Map.step`. These are framework code and not part of this model. The agents are handed to the operations as sequences instead.
- Building civilians inside `Map.__init__`. The code there passes eight arguments to a sixteen-parameter constructor, so it cannot run as written. The model keeps `random_activity_generator` and the activity-node loop (`City.GenerateActivityNodes`), and `Civilians.Civilian.constructor` takes the fields `move` and `offend` use.
- Constructor parameters that nothing reads: `chronic_offender`, `time_to_offending`, `victimisation`, `attractiveness`, and the perceived guardianship and capability. They are not stored.
- `time_to_offending_again`. It is declared without `self` and returns a floating-point draw that nothing uses.
- The two draws `random_patrol_node_generator` makes from the columns of `range(0, 400, 3)` and the rows of `range(0, 400, 6)`. Their results are never used. They cannot raise on a grid that holds the cop, because 0 is always a candidate.
- `random.uniform`. It becomes the integer draws `homeDwell` and `awayDwell`, which stand for what `int(...)` keeps of it. Floating-point arithmetic is not modelled.
- `travel_speed` is an integer. A fractional speed would give the loop one more run, which is not modelled.
- Mesa's `get_neighborhood` order. The neighbours are listed in one fixed order (below, left, right, above). The step lemmas are proved for any list of distinct adjacent in-bounds cells.
- The contents of neighbour cells other than their street patch. Civilians and cops standing in a cell are not part of `Grid`. Moving onto a cell's agent list is represented by the agent's new position, so `move_agent`'s update of the grid is not modelled.
- Hot spots, stop and search, crime reports and any police response: none of these appear in the code. The `Cop` docstring at agent.py:223 only announces a reaction to crime.
- Civilians.Civilian.Step: also returns the victim that `offend` picks. The source discards it.
- Civilians.OffendChoice: requires the civilians of the cell to have distinct ids, as Python object identity guarantees. Civilians.Civilian.Offend has the same requirement.
- Cops.CopDestinationIsRoad: assumes every scheduled patch was built by the patch constructor, as the grid construction does. It says nothing about patches built any other way.
