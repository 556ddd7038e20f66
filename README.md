# Car dodging game: the game-state engine

This project models the simulation engine of a lane-based obstacle-dodging
arcade game (`car.py`). The player's car moves inside a road split into
lanes. Obstacles of three kinds (car, bike, truck) spawn above the screen and
scroll down at a speed that grows every frame. An obstacle that overlaps the
player costs a life and is removed. The game stops when no lives are left.
An obstacle that scrolls past the bottom edge is removed and scores a point.

The model has four modules:

- `Geometry` (`geometry.dfy`) holds the pure arithmetic:
  - the `max`/`min` clamp of a player move;
  - the lane layout, where the lane width is `width // 4` and the lane count is `width // laneWidth`;
  - the spawn column `(lane + 1) * (width // 4) + kindWidth // 2`;
  - the strict bounding-box overlap test.
- `Entities` (`entities.dfy`) holds the colours, the kind table, and the classes `Player` and `Obstacle`. Their `Move` methods update fields in place. It also holds `ObstacleState`, a value snapshot of an obstacle, and `View`, which maps a list of obstacles to their snapshots.
- `Sweep` (`sweep.dfy`) describes what a Python `for` loop over a list does when its body removes the current element. The list iterator's index still advances after a removal, so the element that slides into the freed slot is not visited in that pass. `Fates(hit)` gives every element one of three fates: visited and kept, visited and removed, or skipped. `Survivors` is the list the pass leaves behind. `Walking` is the loop state of a `while i < |list|` walk that advances `i` after every visit. Both removal loops (car.py:107-115 and car.py:118-122) run this walk; the `Sweep` rows below cite the collision loop, and each applies equally to the update loop.
- `Game` (`game.dfy`) holds the `GameManager` class:
  - fields `running`, `score`, `speed` and the obstacle list (a `seq<Obstacle>` that the methods reassign);
  - `SpawnObstacle`, `HandleCollisions` and `UpdateObstacles`, where each pass is a `while` loop with the iterator's skip behaviour;
  - `Tick`, the body of one frame of the main loop;
  - `Run`, the main loop.

  Every pass method is proved against a specification function on snapshots: `AfterUpdate`, `AfterCollisions` or `SpawnState`. Lemmas then state what those functions promise.

The invariant `GameManager.Valid` holds throughout. It says:

- no obstacle is listed twice;
- the score is never negative;
- the game runs only while the player has lives.

The source removes an obstacle with `list.remove(obstacle)`, which deletes the first element equal to it. `Obstacle` has no equality of its own, so elements are compared by identity. The model performs exactly this removal (`RemoveFirst`, at the position `IndexOf` finds). Because no obstacle is listed twice (`WalkDistinct` keeps this through a pass), the first equal element is the one at the visited index, so the removal deletes that index (`RemoveFirstAt`).

## Model

| member | source | states |
|---|---|---|
| Geometry.Clamp | car.py:32-33 | the clamped value is at least `lo`; it is at most `hi` whenever `lo <= hi`; a value already in range is unchanged; a value below `lo`, or any value when `hi < lo`, becomes `lo`; a value above `hi >= lo` becomes `hi` |
| Geometry.ClampIdempotent | car.py:32-33 | clamping an already clamped value changes nothing |
| Geometry.LaneLayout | car.py:81-82 | a field at least 4 px wide has lane width at least 1 and at least 4 lanes; the lanes fit in the field with less than one lane width to spare |
| Geometry.SpawnXBounds | car.py:98-99 | every lane in `[1, num_road - 1]` spawns at or right of two lane widths; the rightmost lane spawns at or past the road's right edge `num_road * road_width` |
| Geometry.OverlapsIffSharedPoint | car.py:108-111 | for rectangles of positive size, the four strict comparisons hold exactly when the two rectangles share an interior point (so the test is symmetric) |
| Geometry.TouchingDoNotOverlap | car.py:108-109 | rectangles that only touch along a vertical edge (`player.x + player.width == obstacle.x`) do not overlap, in either order |
| Entities.KindTable | car.py:87-91 | every kind has positive size, a positive speed multiplier and the shared 7-colour palette `LIST_COLOR`; the sizes and multipliers themselves (car 60x120 at 1, bike 40x100 at 1.5, truck 100x150 at 0.75) are the function's table |
| Entities.MoveResult | car.py:31-33 | after a move, x >= b0 and y >= 0; x <= b1 - width whenever b0 <= b1 - width; y <= b2 - height whenever height <= b2; on each axis a target in range is taken exactly, a target below the range (or any target when the range is empty) becomes the lower bound, and a target above a non-empty range becomes the upper bound |
| Entities.ZeroMoveIdempotent | car.py:32-33 | moving by (0, 0) after any move leaves the position where the move put it |
| Entities.Player.constructor | car.py:23-29 | position, size and colour are the arguments; lives start at 3 |
| Entities.Player.Move | car.py:31-33 | the new position is the clamped move of the old one; only x and y may change (so width, height, colour and lives do not) |
| Entities.Advanced | car.py:49-50 | one obstacle move grows y by exactly the speed and changes nothing else |
| Entities.Obstacle.constructor | car.py:40-47 | the new obstacle has the given kind, position, size and speed, and the palette colour at the chosen index |
| Entities.Obstacle.Move | car.py:49-50 | y grows by exactly the obstacle's speed; only y may change |
| Entities.View | car.py:80 | the snapshot list has one entry per obstacle, each the state of the obstacle at that position |
| Entities.ViewSnoc | car.py:104 | appending an obstacle appends its snapshot |
| Sweep.Fates | car.py:107 | the walk decides one fate per element |
| Sweep.FatesPass | car.py:107-113 | the walk removes only hit elements, keeps no hit element it visits, always visits the first element, and skips an element exactly when the one before it was removed |
| Sweep.FatesUnique | car.py:107-113 | those conditions determine the fates completely, so they are an independent description of the walk |
| Sweep.RemovedCountAppend | car.py:112 | removals of two consecutive stretches of a pass add up |
| Sweep.RemovedCountZero | car.py:112 | a pass removes nothing exactly when no fate is a removal |
| Sweep.NothingRemovedIffNoHit | car.py:107-113 | a pass removes nothing exactly when no element is hit (the first hit element is always visited) |
| Sweep.SurvivorsLength | car.py:113 | the list shrinks by exactly the number of removals |
| Sweep.SurvivorsSnoc | car.py:113 | one more element in the list adds it to the survivors unless it is removed |
| Sweep.SurvivorsSubsequence | car.py:113 | the survivors are an order-preserving subsequence of the list and contain nothing new |
| Sweep.SurvivorsDistinct | car.py:113 | a list without repeats keeps none after a pass |
| Sweep.SurvivorsAll | car.py:113 | a pass that removes nothing leaves the list as it was |
| Sweep.DistinctIndices | car.py:113 | the recursive no-repeats predicate holds exactly when no two positions hold the same element |
| Sweep.DistinctAt | car.py:113 | in a list without repeats, no other position holds the visited element |
| Sweep.IndexOf | car.py:113 | the position found holds the element, and no earlier position does |
| Sweep.RemoveFirst | car.py:113 | `list.remove(x)`: the result is the list with the position `IndexOf` finds cut out |
| Sweep.RemoveFirstAt | car.py:113 | in a list without repeats, the first occurrence of the element at `j` is `j`, so `list.remove` of it deletes exactly index `j` |
| Sweep.WalkDistinct | car.py:113 | during a pass over a list without repeats, the current list has no repeats either |
| Sweep.WalkStart | car.py:107 | the loop state holds before the first visit |
| Sweep.WalkVisit | car.py:107 | the index being visited holds the next undecided original element |
| Sweep.WalkKeep | car.py:107 | a visit that does not hit keeps the element and moves on |
| Sweep.WalkCut | car.py:113 | deleting the visited index leaves the survivors so far followed by the untouched rest |
| Sweep.WalkRemove | car.py:113 | a hit with a successor removes the element, counts one removal, and skips the successor |
| Sweep.SurvivorsRemoveSkip | car.py:113 | removing one element and skipping the next adds only the next one to the survivors |
| Sweep.WalkRemoveLast | car.py:113 | a hit on the last element removes it and ends the walk |
| Sweep.WalkStep | car.py:107-115 | one visit keeps the loop state, removes the element exactly when it is hit and counts the removal |
| Sweep.WalkDone | car.py:107 | when the index runs off the end, every element has its fate and the list is the survivors of the whole pass |
| Sweep.FatesStepKept | car.py:107 | a miss at index j keeps element j and continues from j + 1 |
| Sweep.FatesStepRemoved | car.py:113 | a hit at index j with a successor removes j, skips j + 1 and continues from j + 2 |
| Sweep.FatesStepLast | car.py:113 | a hit at the last index removes it and ends the fates |
| Sweep.SurvivorsPrefix | car.py:113 | deciding one more element of the list extends the survivors by it unless it is removed |
| Game.MovedStep | car.py:118-119 | moving the visited obstacle keeps the record of which obstacles the update pass has moved |
| Game.MovedDone | car.py:118-119 | at the end of the update pass, exactly the visited obstacles have moved |
| Game.UpdateStep | car.py:118-122 | one visit of the update pass moves the obstacle, removes it and scores a point exactly when it ends below the bottom edge, and skips its successor then |
| Game.UpdatePassRemovesPassed | car.py:117-122 | every removed obstacle is below the bottom edge after its move; every visited obstacle that is kept is not; the list shrinks by the number of removals, which is the score gain |
| Game.UpdatePassNothingRemoved | car.py:117-122 | the update pass removes nothing exactly when no obstacle ends below the bottom edge after its move |
| Game.UpdatePassAllAdvance | car.py:117-122 | when nothing is removed, every obstacle stays in place in the list and its y grows by exactly its speed |
| Game.UpdateSkipsFollower | car.py:118-122 | two consecutive obstacles that both leave the screen: the first is removed and scores, the second is neither moved nor removed |
| Game.CollisionPassRemovesOverlapping | car.py:106-115 | every removed obstacle overlapped the player; every visited obstacle that is kept did not; the survivors are an order-preserving subsequence; the list shrinks by the number of removals, which is the number of lives lost |
| Game.CollisionPassNothingRemoved | car.py:106-115 | the collision pass removes nothing exactly when no obstacle overlaps the player, and then the list is unchanged |
| Game.CollisionSkipsFollower | car.py:107-113 | two consecutive overlapping obstacles cost only one life: the second is skipped |
| Game.CollisionCostsTwo | car.py:107-115 | two overlapping obstacles with a clear one between them cost two lives in one pass, so the lives are not clamped and can end below zero |
| Game.CollideStep | car.py:107-115 | one visit of the collision pass removes the obstacle and costs a life exactly when it is hit, and stops the game once the lives are at or below zero |
| Game.SpawnState | car.py:93-104 | the spawned obstacle has the chosen kind and a colour from the palette |
| Game.SpawnStateFacts | car.py:93-104 | a spawned obstacle starts with y = -height, entirely above the screen, with its kind's size and speed `global speed * multiplier`, at least two lane widths from the left edge; from the rightmost lane it starts at or past the road's right edge |
| Game.RightmostLaneNeverHits | car.py:98-99 | an obstacle from the rightmost lane never overlaps a player who stays inside the drive bounds, wherever it has scrolled to |
| Game.Steer | car.py:146-154 | with no key held the position is unchanged; otherwise it lies inside the drive bounds |
| Game.ViewSurvivors | car.py:113 | the snapshots of the survivors are the survivors of the snapshots |
| Game.GameManager.constructor | car.py:71-91 | 800x600 field, lane width 200, 4 lanes; running, score 0, speed 2, no obstacles; a 60x100 red player at (2 * road_width, height - 100) with 3 lives, inside the clamp range |
| Game.GameManager.NewObstacle | car.py:95-102 | the obstacle built from the random choices is fresh and its state is `SpawnState` of those choices and the current speed |
| Game.GameManager.SpawnObstacle | car.py:93-104 | exactly one fresh obstacle is appended, and it is the `SpawnState` of the random choices; the earlier entries are unchanged |
| Game.GameManager.RemoveObstacle | car.py:113 | `list.remove(o)` on the obstacle list, with `o` at index `i` and no obstacle listed twice, deletes exactly index `i` |
| Game.GameManager.CollideAt | car.py:108-115 | an overlap costs a life, removes the obstacle with `list.remove` (`RemoveObstacle`), which deletes the visited index, and stops the game once the lives are at or below zero; anything else changes nothing |
| Game.GameManager.CollideVisit | car.py:107-115 | one iteration of the collision loop keeps the state of the pass and never lengthens the list |
| Game.GameManager.CollisionPass | car.py:107-115 | the list becomes the survivors of the walk's fates; lives drop by the number removed; `running` becomes false exactly when it was false or a removal left lives at or below zero |
| Game.GameManager.HandleCollisions | car.py:106-115 | the new snapshots are `AfterCollisions` of the player box and the old ones; lives drop by the number removed; `running` as above; the player's position and the score do not change; `Valid` is kept |
| Game.GameManager.AdvanceAt | car.py:119-122 | the visited obstacle moves by its speed and no other obstacle changes; it is removed with `list.remove` (`RemoveObstacle`), deleting the visited index, and scores a point exactly when it ends below the bottom edge |
| Game.GameManager.UpdateVisit | car.py:118-122 | one iteration of the update loop keeps the state of the pass and never lengthens the list |
| Game.GameManager.UpdatePass | car.py:118-122 | the list becomes the survivors of the walk's fates; the score grows by the number removed; exactly the visited obstacles have moved |
| Game.GameManager.UpdateObstacles | car.py:117-122 | the new snapshots are `AfterUpdate` of the old ones; the score grows by the number removed; lives and `running` do not change; `Valid` is kept |
| Game.GameManager.ReadControls | car.py:142-154 | a quit event clears `running`; the player ends at `Steer` of the held keys, clamped to `(road_width, road_width * num_road - 1, height)` |
| Game.GameManager.StepObstacles | car.py:156-157 | the update pass and then the collision pass against the player's box; the score and lives follow the two removal counts; every obstacle left was there before |
| Game.GameManager.MaybeSpawn | car.py:159-160 | a roll below 0.02 appends the spawned obstacle; any other roll changes nothing |
| Game.GameManager.AdvanceWorld | car.py:156-160 | the obstacle list is the collision pass of the update pass of the old list, then the spawn if the roll is below 0.02 |
| Game.GameManager.FinishFrame | car.py:156-164 | as `AdvanceWorld`, with the spawn using the speed before the increment; then the speed grows by exactly 0.001 |
| Game.GameManager.Tick | car.py:141-164 | one frame in source order: quit, steer, update, collide, spawn, speed + 0.001; states each field's new value; `running` only ever goes from true to false; `Valid` is kept |
| Game.GameManager.Run | car.py:140-164 | frames run while `running`, one per supplied input; it stops early only when `running` went false; the speed grows by 0.001 per frame; the score never drops and the lives never rise |

## Left out

- Drawing and display are not modelled: `Player.draw` and `Obstacle.draw` (car.py:35-36, 52-53), `UIManager` (car.py:56-67), `render` (car.py:124-138), and `pygame.init` and the window (car.py:72-73). They are pygame calls with no state of their own.
- The frame clock `clock.tick(60)` (car.py:76, 165) is left out. It only paces frames.
- Event polling and the keyboard are inputs. Each frame receives a `TickInput` holding the quit flag and the four direction flags. The model does not look at events other than quit, or at which of the two keys for a direction was pressed.
- Randomness is an input. `TickInput` holds the spawn roll, the kind, the lane and the palette index that `random.random`, `random.choice` and `random.randint` returned (car.py:47, 95, 98, 159). No generator is modelled.
- Floating point is modelled as exact `real`. This covers `speed`, obstacle `y` and the multipliers. Rounding of IEEE doubles is not modelled.
- `paint.py` is not part of this model. It is an unrelated drawing tool.
- Game.GameManager.Tick: requires the lane to lie in `[1, num_road - 1]`. This is the range that `random.randint(1, num_road - 1)` guarantees; in the source the lane is drawn, not passed in.
- Game.GameManager.Run: runs at most one frame per supplied input. The source loops without bound while `running` holds.
- Game.GameManager.Run: states only the running flag, the speed and the direction of score and lives across frames. The per-frame contents come from `Tick`.
- Game.Steer: states only bounds and the no-key case. The exact position is `MoveResult` applied once per held key.
