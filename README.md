# Verified models of the COSC343 teaching exercises

This project models the deterministic core of a set of small AI teaching exercises in Dafny and
proves properties of the models:

- **Snakes** (`snakes/snakes.py`). Snakes of two players move on a toroidal grid. The grid is a
  map of signed integers: the sign tells the side, and the magnitude is the remaining age of a
  body segment. The model covers:
  - the percept rotation and the action→shift table;
  - per-game avatar reset, size statistics and action validation;
  - spawning at region centres and the initial food;
  - the percept window and the percept-memory shift;
  - the move / tail-age / eat step;
  - collision resolution, writing the new heads, food replenishment and the hit→dead clean-up;
  - `place_food`;
  - the end-of-game score;
  - the load-time validation of an agent module's attributes;
  - `evaluate_fitness`'s reordering;
  - the generation accounting of `train` and `play`.

  The turn engine is a class `SnakeEngine.SnakePlay` with the map as an `array<int>` and the
  avatars and food as fields. Each of its methods is proved to produce the state that a pure
  rule in `SnakeRules` computes. The properties of those rules are proved in `SnakeLaws`.
- **Wordle referee** (`wordle/wordle.py`, `WordleGame.play`). It validates each guess, colours
  it (greens first, then yellows consumed from the letters left in the target), enforces hard
  mode and keeps the score. The agent is a finite list of replies, one per call.
- **Alphabet conversions** (`wordle/helper.py`): word ↔ letter indices.
- **Human keyboard state** (`wordle/human_agent.py`, lines 73-96): the in-place update of the
  per-letter states, and the solved test.
- **Candidate filter** (`wordle/my_agent.py`): `initCheatCodes`, `iterMethod` and `repeating`.
  Each regular expression becomes a predicate.
- **Eight puzzle** (`A_Star/eightpuzzle.py`): `goal`, `reset`, `isgoal`, `actions` and `step`.
- **A\* driver** (`A_Star/ex1.py`):
  - `sameRow` with Python's actual parse of `&` and chained comparisons;
  - `sameCol`, `heuristic` and the `node` record;
  - the fringe loop, bounded by fuel;
  - the reconstruction of the action sequence.
- **N-queens fitness** (`genetic/chess_board.py`): `nonattacking_pairs`.

Randomness enters as parameters:
- `SnakeRules.Draws` carries the region permutation, the spawn rotations, the initial-food
  picks and the food permutations of one game.
- A snake agent is a function from (avatar index, turn, percept frames) to its reply.

The files, one module each: `wrappers.dfy`, `snakes_geometry.dfy`, `snakes_player.dfy`,
`snakes_rules.dfy`, `snakes_laws.dfy`, `snakes_engine.dfy`, `snakes_training.dfy`,
`wordle_helper.dfy`, `wordle_referee.dfy`, `wordle_human.dfy`, `wordle_agent.dfy`,
`eight_puzzle.dfy`, `astar.dfy`, `chess_board.dfy`.

Modelling conventions:
- The snake map is flat and row-major: cell (y, x) sits at index `y * gridSize + x`.
- An avatar's `owner` is its player's index. Player 0's cells are positive and player 1's
  negative.
- Python's `int(a / b)` is `TruncDiv`, `%` is `PyMod`, and negative list indexing is `PyIndex`.

Quirks of the source are modelled as written and stated as lemmas:
- Training-epoch cap.
  - The sum of scheduled generations is never checked at load time: `OverlongScheduleLoads`,
    `ScheduleTotalIgnored`.
  - A zero-generation entry ends training without ever evaluating fitness: `ZeroEntryStops`.
- The memory-shift table differs from the move vector for action 0 at rotations 0 and 180
  (`MemoryShiftVersusMove`).
- In `sameRow`, `&` binds tighter than the comparisons.
  - Its third clause can never hold: `SameRowThirdClauseDead`.
  - It reports cells 0 and 5 as being on the same row, but not cell 0 with itself:
    `SameRowMisreports`.
- Two schedule entries whose total reaches the 500 cap clamp the last entry
  (`TrainPlaysCap`).

## Model

| member | source | states |
|---|---|---|
| Wrappers.IndexOf | wordle/wordle.py:116 | `list.index`: the first position holding x, None exactly when x is absent |
| Wrappers.RemoveFirst | wordle/wordle.py:233-237 | `try: remove except: pass`: one element fewer when present, unchanged otherwise |
| Wrappers.RemoveFirstCount | wordle/wordle.py:233-237 | the removal takes exactly one occurrence of the element out of the multiset |
| Wrappers.PyIndex | wordle/helper.py:36 | Python indexing: a negative index counts from the end |
| Wrappers.SumIsLengthIffAllOnes | wordle/wordle.py:153 | `sum(states) == len(states)` over {-1,0,1} holds exactly when every state is 1 |
| SnakeGeometry.ToAgentFrame | snakes/snakes.py:25-34 | rotation 90 and 270 rotate counter-clockwise and clockwise, 180 twice; a square frame stays square |
| SnakeGeometry.AgentFrameAtZero | snakes/snakes.py:25-34 | rotation 0 leaves a frame unchanged |
| SnakeGeometry.QuarterTurnsUndo | snakes/snakes.py:25-34 | rotating by 90 then 270, or by 270 then 90, restores the frame |
| SnakeGeometry.HalfTurnCells | snakes/snakes.py:31-32 | rotation 180 maps cell (i, j) to (n-1-i, n-1-j) |
| SnakeGeometry.HalfTurnTwice | snakes/snakes.py:31-32 | applying 180 twice restores the frame |
| SnakeGeometry.MemoryShift | snakes/snakes.py:36-80 | the literal shift table; defined exactly for actions -1, 0, 1 |
| SnakeGeometry.MemoryShiftIsUnit | snakes/snakes.py:36-80 | for every valid action and rotation the shift has one nonzero coordinate of magnitude 1, and actions -1 and 1 give opposite shifts |
| SnakeGeometry.MemoryShiftUndefined | snakes/snakes.py:36-80 | an action outside {-1,0,1} has no shift |
| SnakeGeometry.MoveStep | snakes/snakes.py:870-893 | the head's movement vector, each coordinate in [-1, 1] |
| SnakeGeometry.MoveStepIsUnit | snakes/snakes.py:870-893 | every move is a unit step, and turning left and right move oppositely |
| SnakeGeometry.MemoryShiftVersusMove | snakes/snakes.py:72-80 | the shift table equals the move vector except for action 0 at rotations 0 and 180, where it is negated |
| SnakeGeometry.NextRotation | snakes/snakes.py:895-898 | the new rotation is (old + 90·action) mod 360 and stays in {0,90,180,270} |
| SnakeGeometry.StraightIsAwayFromTail | snakes/snakes.py:668-679 | going straight moves opposite to the direction the spawned tail extends |
| SnakeGeometry.MoveFollowsNewHeading | snakes/snakes.py:870-898 | a turning move equals the straight move in the new heading |
| SnakeGeometry.StepCoord | snakes/snakes.py:900-911 | a wrapped head coordinate stays in [0, gridSize) |
| SnakeGeometry.StepCoordWraps | snakes/snakes.py:900-911 | the wrapped coordinate is (v + d) mod gridSize |
| SnakeGeometry.WrapIsModulus | snakes/snakes.py:771-781 | one wrap of a percept coordinate within a grid's width is the modulus and lands on the grid |
| SnakePlayer.ResetForNewGame | snakes/snakes.py:94-100 | size back to the starting length, sizes all 0 for nTurns, not hit, not dead, empty body, zeroed percept frames; owner, head and rotation kept |
| SnakePlayer.UpdateSizeStats | snakes/snakes.py:102-104 | an unhit avatar records its size at the turn; a hit one is unchanged |
| SnakePlayer.ValidateAction | snakes/snakes.py:107-143 | the reply is accepted exactly when it is an integer in {-1,0,1}; agent failures, non-integers and out-of-range integers give their errors |
| SnakePlayer.CheckSessionsSpec | snakes/snakes.py:255-280 | the schedule is accepted exactly when every entry is a (str, int, ...) tuple with a non-negative count, and then keeps each entry's session in order; otherwise the error of the first bad entry is reported |
| SnakePlayer.ValidateSchedule | snakes/snakes.py:255-290 | the loop with early return yields the same result as the entry-by-entry check over the whole schedule |
| SnakePlayer.ErrorSticks | snakes/snakes.py:259-278 | once an entry fails, every longer prefix fails with that same error |
| SnakePlayer.LoadSettings | snakes/snakes.py:201-295 | accepted exactly when the field of vision is in {3,5,7,9}, the frame count in {1..4} and the schedule is None or a valid list; otherwise the source's error, in its order |
| SnakePlayer.OverlongScheduleLoads | snakes/snakes.py:270-290 | a schedule of 501 generations loads: the 500 cap never fires because the total is only summed after the exit |
| SnakePlayer.ScheduleTotalIgnored | snakes/snakes.py:270-290 | whether a schedule loads depends only on its entries, never on the sum of generations |
| SnakePlayer.Argsort | snakes/snakes.py:493 | `argsort` over the first n fitness values: n indices, ascending in fitness |
| SnakePlayer.InsertIndexCount | snakes/snakes.py:493 | inserting an index into an ascending order adds exactly that index |
| SnakePlayer.ArgsortCount | snakes/snakes.py:493 | the argsort lists each of 0..n-1 exactly once |
| SnakePlayer.EvaluateFitness | snakes/snakes.py:453-494 | a raised evaluation, a reply that is not a list and a list of the wrong length are the three errors; the result is Ok exactly for a list of the right length, and then has as many avatars as before |
| SnakePlayer.OrderIsPermutation | snakes/snakes.py:493 | the fitness order names each avatar index exactly once and never increases in fitness |
| SnakePlayer.FitnessReorders | snakes/snakes.py:493-494 | after a valid reply, avatar i is the old avatar at the i-th index of an order that names every index once, most fit first |
| SnakeRules.Toward0Keeps | snakes/snakes.py:921-925 | ageing keeps the sign until 0 and lowers the magnitude by one |
| SnakeRules.Idx | snakes/snakes.py:759-1026 | a grid cell's position in the row-major map lies in the map |
| SnakeRules.IdxInjective | snakes/snakes.py:759-1026 | distinct cells occupy distinct map positions |
| SnakeRules.Window | snakes/snakes.py:759-803 | the percept window is fov × fov |
| SnakeRules.WindowEntry | snakes/snakes.py:759-803 | entry (i, j) shows 2 for food (overriding the map), +1 for own side, -1 for the other side and 0 for empty, at offset (i - fov/2, j - fov/2) from the head, wrapped |
| SnakeRules.WindowCentre | snakes/snakes.py:759-781 | the window's centre is the head's own cell |
| SnakeRules.Rotated | snakes/snakes.py:805-808 | every frame turned into the avatar's frame of reference, frame count and shape kept |
| SnakeRules.Shifted | snakes/snakes.py:827-847 | a shifted frame keeps its shape |
| SnakeRules.Memory | snakes/snakes.py:825-847 | the memory keeps its frame count and shapes |
| SnakeRules.MemoryFrame | snakes/snakes.py:827-847 | each retained frame is the next frame shifted by one row or column with zero fill |
| SnakeRules.AgeBody | snakes/snakes.py:919-928 | ageing the first k body cells keeps the map's size and keeps at most k cells, all on the grid |
| SnakeRules.StepHead | snakes/snakes.py:900-913 | the new head is on the grid |
| SnakeRules.Perceive | snakes/snakes.py:759-808 | one new frame per stored frame, each a fov-square |
| SnakeRules.Advance | snakes/snakes.py:825-928 | after the action the world stays well formed, with the same avatar count and the same food |
| SnakeRules.Act | snakes/snakes.py:753-928 | when the agent answers validly, the world stays well formed, with the same avatar count and the same food |
| SnakeRules.ActAll | snakes/snakes.py:749-928 | the avatar loop from avatar k on, with the food eaten so far: when it succeeds the world stays well formed, with the same avatar count and the same food |
| SnakeRules.Collide | snakes/snakes.py:933-970 | collisions keep the world well formed, the avatar count, the map and the food |
| SnakeRules.WriteHeads | snakes/snakes.py:979-995 | writing the heads of the first k avatars keeps the map's size, the avatar count and the food, and leaves the later avatars alone |
| SnakeRules.WriteHeadsOk | snakes/snakes.py:979-995 | writing the heads keeps the world well formed |
| SnakeRules.RemoveEatenInGrid | snakes/snakes.py:997-1001 | removing eaten cells keeps every remaining food cell on the grid |
| SnakeRules.FreeInRow | snakes/snakes.py:564-568 | every candidate lies in row y, left of column x, and is free: empty on the map and not food |
| SnakeRules.FreeCells | snakes/snakes.py:564-568 | the candidates of `place_food` are free cells on the grid |
| SnakeRules.Replenish | snakes/snakes.py:997-1004 | replenishing keeps the world well formed, and the map and avatars as they were |
| SnakeRules.ClearCells | snakes/snakes.py:1021-1022 | clearing keeps the map's size |
| SnakeRules.Cleanup | snakes/snakes.py:1017-1026 | the clean-up of the first k avatars keeps the map's size, the avatar count and the food, and leaves the later avatars alone |
| SnakeRules.CleanupOk | snakes/snakes.py:1017-1026 | the clean-up keeps the world well formed |
| SnakeRules.Turn | snakes/snakes.py:722-1026 | a turn yields a well-formed world or an abort |
| SnakeRules.MaxOf | snakes/snakes.py:1058 | `np.max`: an entry of the list, no smaller than any entry |
| SnakeRules.RegionsUpTo | snakes/snakes.py:616-624 | y·nR regions `[x, y]`, each coordinate in range |
| SnakeRules.SpawnRegion | snakes/snakes.py:632-646 | the region popped for an avatar lies on the region grid |
| SnakeRules.SpawnHead | snakes/snakes.py:650-660 | a spawned head lies on the grid |
| SnakeRules.SpawnCell | snakes/snakes.py:668-690 | a spawned segment is on the grid |
| SnakeRules.LayBody | snakes/snakes.py:686-690 | laying k segments keeps the map's size and gives k cells on the grid, segment z at the spawn cell z steps behind the head |
| SnakeRules.SpawnAll | snakes/snakes.py:639-697 | spawning the first t avatars keeps the map's size and the avatar count, and leaves the later avatars alone |
| SnakeRules.SpawnAllOk | snakes/snakes.py:639-697 | every spawned avatar is well formed |
| SnakeRules.BlockFree | snakes/snakes.py:701-705 | the empty cells of a region's 5 × 5 block, each empty and inside the block |
| SnakeRules.FoodInRow | snakes/snakes.py:700-708 | one food cell per region of a row, each an empty cell of its block; None where a block has none |
| SnakeRules.InitialFood | snakes/snakes.py:699-708 | one food cell per region, or None |
| SnakeLaws.Survivors | snakes/snakes.py:919-928 | every cell that survives ageing is one of the first k body cells |
| SnakeLaws.SurvivorsMembers | snakes/snakes.py:919-928 | a cell of a repeat-free body survives exactly when its aged value is nonzero |
| SnakeLaws.AgeBodyEffect | snakes/snakes.py:919-928 | ageing moves every body cell's value one step toward 0 keeping its sign, leaves every other cell, and keeps exactly the still-nonzero cells in order |
| SnakeLaws.AgeBodyBoard | snakes/snakes.py:919-928 | for a repeat-free body, ageing moves each of the first k body cells one step toward 0 and leaves every other cell |
| SnakeLaws.AgeBodyUntouched | snakes/snakes.py:919-928 | a cell outside the aged prefix keeps its value |
| SnakeLaws.AgeBodyKept | snakes/snakes.py:919-928 | for a repeat-free body, ageing keeps exactly the surviving cells, in order |
| SnakeLaws.AdvanceFacts | snakes/snakes.py:870-928 | the new rotation is (old + 90·action) mod 360; the head moves by one wrapped unit step; eating adds exactly 1 to size and leaves body and map; otherwise the body ages |
| SnakeLaws.AdvanceTurns | snakes/snakes.py:895-898 | the new rotation is (old + 90·action) mod 360; owner, flags and size record stay |
| SnakeLaws.AdvanceHead | snakes/snakes.py:870-913 | the head moves by the unit step of the action and rotation, modulo the grid size |
| SnakeLaws.AdvanceOthers | snakes/snakes.py:825-928 | every other avatar is left as it was |
| SnakeLaws.AdvanceEats | snakes/snakes.py:915-918 | on a food cell the size grows by exactly 1, body and map stay, and the cell joins the eaten list |
| SnakeLaws.AdvanceAges | snakes/snakes.py:919-928 | off the food the size and the eaten list stay, and a repeat-free body keeps exactly its survivors |
| SnakeLaws.CollisionRules | snakes/snakes.py:933-970 | hits are never cleared; two contenders with equal new heads are both hit; a contender whose new head is on a nonzero cell is hit; nothing else is hit |
| SnakeLaws.CollideSeparatesHeads | snakes/snakes.py:933-970 | after collisions the unhit live avatars have distinct heads on empty cells |
| SnakeLaws.WriteHeadsAvatars | snakes/snakes.py:979-995 | each unhit avatar appends its head to its body and records its size for the turn; hit avatars are unchanged |
| SnakeLaws.WriteHeadsBoard | snakes/snakes.py:979-995 | each unhit avatar's head cell holds size·side; every other cell is unchanged |
| SnakeLaws.FreeInRowExactly | snakes/snakes.py:564-568 | a row's candidates are exactly its free cells left of x, without repeats |
| SnakeLaws.FreeInRowHas | snakes/snakes.py:564-568 | a cell is a candidate of row y left of column x exactly when it lies there and is free |
| SnakeLaws.FreeCellsExactly | snakes/snakes.py:564-568 | the candidates are exactly the free cells of the grid, each once |
| SnakeLaws.FreeCellsHas | snakes/snakes.py:564-568 | a grid cell is a candidate of the rows above y exactly when it lies there and is free |
| SnakeLaws.FreeCellsMembers | snakes/snakes.py:564-568 | the candidates of the rows above y are exactly the free cells there |
| SnakeLaws.FreeCellsDistinct | snakes/snakes.py:564-568 | the candidates have no repeats |
| SnakeLaws.PlacementsFacts | snakes/snakes.py:569-611 | the placements are candidates, repeat-free when the candidates are, and there are min(n, candidates) of them |
| SnakeLaws.PlaceFoodFacts | snakes/snakes.py:563-611 | `place_food` returns at most N distinct cells, each empty and not food; fewer only when free cells run out |
| SnakeLaws.ReplenishFacts | snakes/snakes.py:997-1004 | eaten food is removed; when fewer than nFoods remain, new distinct free cells top it up to nFoods unless the free cells run out |
| SnakeLaws.ClearCellsEffect | snakes/snakes.py:1021-1022 | clearing sets exactly the listed cells to 0 |
| SnakeLaws.CleanupFacts | snakes/snakes.py:1017-1026 | every hit, not-yet-dead avatar has its cells set to 0, its body emptied and dead set; other avatars and cells are unchanged |
| SnakeLaws.CleanupAvatars | snakes/snakes.py:1017-1026 | every hit, not-yet-dead avatar among the first k has its body emptied and is marked dead; every other avatar is unchanged |
| SnakeLaws.CleanupBoard | snakes/snakes.py:1021-1022 | the body cells of those avatars become 0, every other cell is unchanged |
| SnakeLaws.ActStatus | snakes/snakes.py:753-754 | one avatar's step keeps every hit/dead flag and does not change a dead avatar |
| SnakeLaws.ActAllStatus | snakes/snakes.py:749-928 | the avatar loop keeps every hit/dead flag and does not touch dead avatars |
| SnakeLaws.ActAllWhenAllDead | snakes/snakes.py:749-754 | when all avatars are dead the loop consults no agent and changes nothing |
| SnakeLaws.LoopStatus | snakes/snakes.py:749-928 | the avatar loop keeps "dead implies hit" and leaves dead avatars unchanged |
| SnakeLaws.CollideStatus | snakes/snakes.py:933-970 | collisions keep "dead implies hit", every dead flag, and leave dead avatars unchanged |
| SnakeLaws.WriteHeadsStatus | snakes/snakes.py:979-995 | writing the heads keeps "dead implies hit" and leaves dead avatars unchanged |
| SnakeLaws.CleanupStatus | snakes/snakes.py:1017-1026 | after the clean-up an avatar is dead exactly when it is hit, and earlier dead avatars are unchanged |
| SnakeLaws.TurnWhenAllDead | snakes/snakes.py:722-1026 | when every avatar is already dead the turn finishes with the world unchanged |
| SnakeLaws.TurnContinuesStatus | snakes/snakes.py:722-1026 | a turn that continues ends with "dead iff hit" and leaves dead avatars unchanged |
| SnakeLaws.TurnInvariant | snakes/snakes.py:722-1026 | a turn keeps "dead iff hit" and never changes a dead avatar, so dead avatars are skipped in all later turns |
| SnakeLaws.ResetStartsInvariant | snakes/snakes.py:94-100 | freshly reset avatars satisfy "dead iff hit" |
| SnakeLaws.RegionsDistinct | snakes/snakes.py:616-624 | the region list has no repeats |
| SnakeLaws.SpawnRegionsApart | snakes/snakes.py:632-646 | different avatars get different regions |
| SnakeLaws.SpawnHeadsAtCentres | snakes/snakes.py:650-660 | each head is at `(yr*5+2, xr*5+2)` of its region, and different avatars get different heads |
| SnakeLaws.SpawnedCellInBlock | snakes/snakes.py:668-690 | segment 0 is the head; segment 1 is the next cell in the tail direction, inside the same block |
| SnakeLaws.SpawnedCellsApart | snakes/snakes.py:650-697 | all spawned segments of all avatars are pairwise different cells |
| SnakeLaws.LayBodyEffect | snakes/snakes.py:686-690 | a two-cell body writes size·side at the head and (size-1)·side behind it, nothing else |
| SnakeLaws.SpawnedAvatars | snakes/snakes.py:639-697 | spawned avatars are reset to the starting length, alive and unhit, headed by the drawn rotation, with a two-cell body starting at the region centre |
| SnakeLaws.SpawnBoard | snakes/snakes.py:686-690 | spawning writes (size - z)·side at segment z of every avatar, and leaves every other cell |
| SnakeLaws.SpawnBoardWrites | snakes/snakes.py:686-690 | segment z of each of the first t avatars holds (size - z)·side |
| SnakeLaws.SpawnBoardKeeps | snakes/snakes.py:686-690 | every cell outside the segments of the first t avatars keeps its value |
| SnakeLaws.ShiftIsTranslation | snakes/snakes.py:827-847 | for a unit shift, a shifted frame reads the cell one step away, or 0 past the edge |
| SnakeLaws.MemoryFrames | snakes/snakes.py:827-847 | frame f becomes the shifted copy of frame f+1 and the last its own shifted copy; a single frame is kept |
| SnakeLaws.PlayerScoreSwap | snakes/snakes.py:1054-1066 | exchanging the players exchanges their totals |
| SnakeLaws.PlayerScoreNonnegative | snakes/snakes.py:1054-1066 | a player's total is non-negative when all recorded sizes are |
| SnakeLaws.ScoreSwap | snakes/snakes.py:1054-1066 | in a two-player game, exchanging the players negates the score |
| SnakeEngine.ShiftInPlace | snakes/snakes.py:827-847 | one memory frame shifted in place equals the Shifted of its old contents |
| SnakeEngine.ShiftRowsUp | snakes/snakes.py:827-847 | shifting the rows up by one in place leaves every cell equal to the ShiftedCell of the old frame |
| SnakeEngine.ShiftRowsDown | snakes/snakes.py:827-847 | shifting the rows down by one in place leaves every cell equal to the ShiftedCell of the old frame |
| SnakeEngine.ShiftColumnsLeft | snakes/snakes.py:827-847 | shifting the columns left by one in place leaves every cell equal to the ShiftedCell of the old frame |
| SnakeEngine.ShiftColumnsRight | snakes/snakes.py:827-847 | shifting the columns right by one in place leaves every cell equal to the ShiftedCell of the old frame |
| SnakeEngine.ShiftMemory | snakes/snakes.py:825-847 | the memory loop over the frames computes Memory |
| SnakeEngine.RotateFrames | snakes/snakes.py:805-808 | the frames handed to the agent are Rotated |
| SnakeEngine.MaxSize | snakes/snakes.py:1058 | `np.max(sizes)` computed by a loop equals MaxOf |
| SnakeEngine.TakeFromEnd | snakes/snakes.py:569-605 | the permuted candidates popped from the end, up to n of them, are Placements |
| SnakeEngine.InitialFailSticks | snakes/snakes.py:699-708 | once a region row has no food choice, the initial food stays None for every later row |
| SnakeEngine.SnakePlay.constructor | snakes/snakes.py:518-528 | an all-zero gridSize² map, no avatars, no food |
| SnakeEngine.SnakePlay.PerceptWindow | snakes/snakes.py:759-797 | the window read from the map with one wrap per coordinate equals Window |
| SnakeEngine.SnakePlay.AgeBodyOnMap | snakes/snakes.py:919-928 | ageing the map in place and collecting the nonzero cells equals AgeBody |
| SnakeEngine.SnakePlay.MoveAvatar | snakes/snakes.py:753-928 | one avatar's percept, action, memory shift, move and eat/age step, in place, equals Act; an invalid answer reports failure |
| SnakeEngine.SnakePlay.MoveHead | snakes/snakes.py:825-928 | the memory shift, turn, wrapped step and eat-or-age step of a live avatar with a valid action, in place, equal Advance |
| SnakeEngine.SnakePlay.MoveAll | snakes/snakes.py:749-928 | the avatar loop succeeds exactly when ActAll does and then leaves its state; on success gameDone holds exactly when all avatars were dead |
| SnakeEngine.SnakePlay.MoveNext | snakes/snakes.py:749-928 | one iteration of the avatar loop: on success the loop invariant holds at the next avatar (the rest of ActAll is unchanged, flags are kept and gameDone tracks the dead prefix); on failure ActAll fails |
| SnakeEngine.SnakePlay.DetectCollisions | snakes/snakes.py:933-970 | the pairwise test over the avatars not hit before it yields Collide, with the map unchanged |
| SnakeEngine.CollisionFlags | snakes/snakes.py:933-967 | the two collision loops over a state yield the avatars of Collide |
| SnakeEngine.SnakePlay.PlaceHeads | snakes/snakes.py:979-995 | writing the new heads in place yields WriteHeads |
| SnakeEngine.FreeList | snakes/snakes.py:564-568 | the scan collects FreeCells of the map and the given food |
| SnakeEngine.PlaceFood | snakes/snakes.py:563-611 | `place_food` returns the Placements of the free cells under the drawn permutation |
| SnakeEngine.RemoveEatenFood | snakes/snakes.py:997-1001 | the food list after the removals is RemoveEaten |
| SnakeEngine.ReplenishedFood | snakes/snakes.py:997-1004 | removing the eaten food and topping up with `place_food` yields the food of Replenish |
| SnakeEngine.SnakePlay.ReplenishFood | snakes/snakes.py:997-1004 | the state after removal and top-up is Replenish |
| SnakeEngine.SnakePlay.ClearBody | snakes/snakes.py:1021-1022 | the map after zeroing a body is ClearCells |
| SnakeEngine.SnakePlay.RemoveHit | snakes/snakes.py:1017-1026 | the clean-up loop yields Cleanup |
| SnakeEngine.SnakePlay.ScoreGame | snakes/snakes.py:1054-1066 | the score loop equals Score |
| SnakeEngine.SnakePlay.ListRegions | snakes/snakes.py:616-624 | the region list is RegionsUpTo |
| SnakeEngine.SnakePlay.PermutedRegions | snakes/snakes.py:616-635 | the region list in the drawn order: entry k is region regionOrder[k] |
| SnakeEngine.SpawnStageNext | snakes/snakes.py:639-646 | the region at the end of the list is avatar t's, and popping it gives the list for avatar t+1 |
| SnakeEngine.SnakePlay.LayOut | snakes/snakes.py:668-690 | laying a spawned body in place equals LayBody |
| SnakeEngine.SnakePlay.Spawn | snakes/snakes.py:627-697 | spawning every avatar in place equals SpawnAll, with no food yet |
| SnakeEngine.SnakePlay.SpawnNext | snakes/snakes.py:639-697 | one spawn iteration: map and avatars become SpawnAll for one more player, and one region is popped |
| SnakeEngine.SnakePlay.PlaceInitialFood | snakes/snakes.py:699-708 | succeeds exactly when InitialFood does, appending its cells to the food |
| SnakeEngine.SnakePlay.InitialCells | snakes/snakes.py:699-708 | the loop over region rows succeeds exactly when InitialFood does and then returns its cells |
| SnakeEngine.SnakePlay.FoodRow | snakes/snakes.py:700-708 | one row of regions gets FoodInRow |
| SnakeEngine.SnakePlay.BlockChoices | snakes/snakes.py:701-705 | the empty cells of one 5 × 5 block are BlockFree |
| SnakeEngine.SnakePlay.PlayTurn | snakes/snakes.py:722-1026 | one turn in place: aborts exactly when Turn does, otherwise reaches Turn's world and reports whether the game ended |
| SnakeEngine.SnakePlay.RunTurns | snakes/snakes.py:722-1066 | the turn loop and the score equal GameFrom |
| SnakeEngine.SnakePlay.Play | snakes/snakes.py:614-1066 | a whole game on a fresh map returns GameOutcome |
| SnakeTraining.Cap | snakes/snakes.py:1179-1185 | the total of scheduled generations when it is at most 500, and 500 otherwise |
| SnakeTraining.TotalGames | snakes/snakes.py:1179-1185 | the summing loop and the cap compute Cap |
| SnakeTraining.SessionSteps | snakes/snakes.py:1290-1355 | one entry plays max(gens, 0) games |
| SnakeTraining.PlaySession | snakes/snakes.py:1294-1355 | the game loop of `play` produces SessionSteps |
| SnakeTraining.PlayEntry | snakes/snakes.py:1187-1249 | one schedule entry played: the run so far followed by the rest of training is unchanged, or training stops here |
| SnakeTraining.Train | snakes/snakes.py:1173-1254 | summing, capping, clamping, the zero-entry break and the count-reaches-total break produce TrainSteps |
| SnakeTraining.Ideal | snakes/snakes.py:1351-1355 | the ideal run from game count to tot has tot - count games |
| SnakeTraining.SessionThenIdeal | snakes/snakes.py:1187-1254 | an entry's games followed by a prefix of the ideal run after them form a prefix of the ideal run |
| SnakeTraining.TrainFromPrefix | snakes/snakes.py:1187-1254 | with no negative entry, the rest of training is a prefix of the ideal run |
| SnakeTraining.TrainFromExact | snakes/snakes.py:1187-1254 | with every entry positive and enough generations, the rest of training is exactly the ideal run |
| SnakeTraining.TrainFromIsIdeal | snakes/snakes.py:1187-1254 | from any point with non-negative entries, the rest of training is a prefix of the ideal run |
| SnakeTraining.TrainIsCappedRun | snakes/snakes.py:1179-1254 | with non-negative entries, training is a prefix of the ideal run of Cap games, at most 500 |
| SnakeTraining.LoadedScheduleTrains | snakes/snakes.py:255-295 | a schedule that passed loading trains as a prefix of the ideal run, at most 500 games |
| SnakeTraining.TrainPlaysCap | snakes/snakes.py:1179-1195 | with all entries positive, exactly min(sum, 500) games in schedule order, all evolving but the last, which evaluates |
| SnakeTraining.NonnegativeGens | snakes/snakes.py:1179-1182 | non-negative entries give a non-negative total |
| SnakeTraining.ZeroEntryStops | snakes/snakes.py:1194-1195 | a zero entry before the cap stops training after the earlier games, all evolving, and fitness is never evaluated |
| WordleHelper.KnownChars | wordle/helper.py:7-23 | no longer than the word, every character in the alphabet |
| WordleHelper.WordToLetterIndices | wordle/helper.py:7-23 | each index is in range and is the first occurrence of its letter |
| WordleHelper.IndicesSpellKnownChars | wordle/helper.py:7-23 | the indices spell, letter by letter, the known characters of the word; unknown ones are skipped |
| WordleHelper.LetterIndicesToWord | wordle/helper.py:26-38 | one character per index, character k being `letters[indices[k]]` |
| WordleHelper.LengthKeptIffAllKnown | wordle/helper.py:16-21 | the result is as long as the word exactly when every character is in the alphabet |
| WordleHelper.WordRoundTrip | wordle/helper.py:7-38 | word → indices → word gives the word with its unknown characters dropped |
| WordleHelper.WordRoundTripOfKnownWord | wordle/helper.py:7-38 | word → indices → word is the identity for a word of alphabet letters |
| WordleHelper.IndicesRoundTrip | wordle/helper.py:7-38 | indices → word → indices is the identity for in-range indices over a repeat-free alphabet |
| WordleReferee.CheckItems | wordle/wordle.py:208-219 | the items pass exactly when each is an int in [0, len(letters)); the first offender is reported |
| WordleReferee.ReadGuess | wordle/wordle.py:177-219 | a string or list of the word's length whose letters or items are legal gives the indices; every other reply ends the game: the matching `sys.exit`, except a string with an illegal character, whose error message names the unbound `c` and so dies with a NameError before its exit |
| WordleReferee.GreenStates | wordle/wordle.py:228-239 | a position is 1 exactly when the guessed index equals the target's there, 0 otherwise |
| WordleReferee.GreenLettersFromTarget | wordle/wordle.py:232-237 | the letters taken by greens form a sub-multiset of the target |
| WordleReferee.Yellows | wordle/wordle.py:241-252 | one state per remaining position, 1 exactly where the first pass found a green, every state in {-1, 0, 1} |
| WordleReferee.MarkGreens | wordle/wordle.py:228-239 | the first pass yields GreenStates and `letters_left` equal to the target minus the green letters |
| WordleReferee.MarkYellows | wordle/wordle.py:241-252 | the second pass yields Yellows over the letters left |
| WordleReferee.ComputeFeedback | wordle/wordle.py:228-252 | the two passes compute Feedback |
| WordleReferee.YellowsAt | wordle/wordle.py:241-252 | a non-green position turns yellow exactly when fewer earlier non-green positions of its letter took yellow than are left in the target |
| WordleReferee.YellowsBound | wordle/wordle.py:241-252 | no letter is marked yellow more often than it is left after the greens |
| WordleReferee.FeedbackGreens | wordle/wordle.py:228-252 | every state is -1, 0 or 1, one per position, and 1 exactly at the matching positions |
| WordleReferee.FeedbackYellows | wordle/wordle.py:241-252 | yellows go left to right while occurrences remain |
| WordleReferee.FeedbackCountBound | wordle/wordle.py:205-252 | for every letter, the positions marked 1 or -1 never exceed its count in the target |
| WordleReferee.Flags | wordle/wordle.py:255-256 | `np.array(states) == v`, one flag per state |
| WordleReferee.MatchYellow | wordle/wordle.py:293-302 | a found match means x occurs in the guess from j on; no match leaves both flag lists unchanged; the flag lists keep their length |
| WordleReferee.AvailableGreens | wordle/wordle.py:281-284 | `new_greens`: one flag per position |
| WordleReferee.FindYellowMatch | wordle/wordle.py:290-304 | the search loop finds MatchYellow and consumes that flag |
| WordleReferee.HardModeCheck | wordle/wordle.py:254-320 | the flag-array check reports exactly HardModeViolation |
| WordleReferee.LostGreenViolates | wordle/wordle.py:255-279 | losing a previously green position is a violation |
| WordleReferee.OmittedYellowViolates | wordle/wordle.py:286-317 | omitting a previously yellow letter entirely is a violation |
| WordleReferee.FirstGuessNoViolation | wordle/wordle.py:254-320 | with no previous colours, hard mode refuses nothing |
| WordleReferee.Turn | wordle/wordle.py:145-325 | an accepted guess advances guess and score by exactly one |
| WordleReferee.Judge | wordle/wordle.py:221-325 | a well-formed guess is rejected or accepted; acceptance advances the round by one |
| WordleReferee.FirstRound | wordle/wordle.py:123-127 | a well-formed first round: one index and one state per target letter |
| WordleReferee.TargetIndexes | wordle/wordle.py:113-121 | Ok exactly when every target letter is in the alphabet, and then one index per letter |
| WordleReferee.TakeTurn | wordle/wordle.py:145-325 | one pass of the loop body computes Turn, in the referee's order of checks |
| WordleReferee.JudgeGuess | wordle/wordle.py:221-325 | the dictionary lookup, colouring and hard-mode test compute Judge |
| WordleReferee.Play | wordle/wordle.py:111-330 | the referee's loop returns GameOutcome |
| WordleReferee.NotInDictionaryRejected | wordle/wordle.py:221-226 | a guess outside the dictionary is rejected without changing guess, score, indexes or states |
| WordleReferee.HardViolationRejected | wordle/wordle.py:254-320 | in hard mode a violating guess is rejected without consuming a guess |
| WordleReferee.MalformedGuessAborts | wordle/wordle.py:181-219 | a reply of the wrong length, or with an index outside the alphabet, ends the game with an exit |
| WordleReferee.TurnScore | wordle/wordle.py:153-175 | a solved game returns the accepted guesses, at most num_guesses; otherwise a finished game returns 2·num_guesses |
| WordleReferee.GameScore | wordle/wordle.py:126-330 | any returned score lies in [0, num_guesses] or is 2·num_guesses (from a round past the last guess: twice its score) |
| HumanKeyboard.Observe | wordle/human_agent.py:81-91 | applying the feedback entries in order keeps one state per letter |
| HumanKeyboard.HumanAgent.constructor | wordle/human_agent.py:41-55 | every letter starts in state 2 |
| HumanKeyboard.HumanAgent.AgentFunction | wordle/human_agent.py:73-96 | guess 0 resets every state to 2; later guesses update the states in place as Observe; solved exactly when the feedback sums to its length |
| HumanKeyboard.AbsorbRules | wordle/human_agent.py:84-91 | 1 places a letter; a placed letter stays; -1 marks an unplaced letter present; other feedback changes only a state-2 letter, to 0 |
| HumanKeyboard.PlacedLetterKept | wordle/human_agent.py:84-88 | a letter in state 1 is never changed by later feedback |
| HumanKeyboard.UnlistedLetterKept | wordle/human_agent.py:81-91 | letters not named by the feedback keep their state |
| HumanKeyboard.KnowledgeMonotone | wordle/human_agent.py:81-91 | states stay valid and every letter's knowledge is kept or raised |
| HumanKeyboard.SolvedIffAllPlaced | wordle/human_agent.py:95-96 | the agent returns None exactly when every feedback state is 1 |
| CandidateFilter.CountCharTwoIff | wordle/my_agent.py:168-169 | a letter occurs at least twice exactly when two positions hold it |
| CandidateFilter.KeptIsSelection | wordle/my_agent.py:104-158 | the result is an order-preserving selection of the passing words, the heuristic entries aligned with them |
| CandidateFilter.KeptWordsPass | wordle/my_agent.py:116-125 | every kept word fits the pattern, has no grey letter and no letter ruled out at its position |
| CandidateFilter.NoYellowsKeepsPassing | wordle/my_agent.py:129-130 | with no yellows, every word that passes the pattern, grey and position checks is kept |
| CandidateFilter.KeptHasYellows | wordle/my_agent.py:133-144 | a word kept against yellows contains every yellow letter |
| CandidateFilter.PositionCheck | wordle/my_agent.py:120-125 | the per-position loop reports 1 exactly when some position holds a letter ruled out there |
| CandidateFilter.CountYellowHits | wordle/my_agent.py:133-141 | the yellow loop counts the yellow checks the word passes |
| CandidateFilter.WordleAgent.constructor | wordle/my_agent.py:36-63 | the parameters stored, the class-level defaults empty |
| CandidateFilter.WordleAgent.InitCheatCodes | wordle/my_agent.py:73-81 | yellows "", greys ".", pattern ".....", five empty indi, empty possibilities and heuristic, the frequency table |
| CandidateFilter.WordleAgent.Repeating | wordle/my_agent.py:165-172 | 1 exactly when some letter occurs twice, else 0 |
| CandidateFilter.WordleAgent.IterMethod | wordle/my_agent.py:104-158 | appends exactly the passing words, in order; on a list other than the dictionary, the heuristic becomes the kept words' entries; nothing else changes |
| EightPuzzle.NewPuzzle | A_Star/eightpuzzle.py:16-28 | 'hard', 'medium' and 'easy' give their start states, each a permutation of 0..8; any other mode is refused |
| EightPuzzle.IsGoal | A_Star/eightpuzzle.py:51-56 | true exactly when the first nine cells are the goal |
| EightPuzzle.Blank | A_Star/eightpuzzle.py:60 | the first 0 of the state |
| EightPuzzle.ActionsAllowed | A_Star/eightpuzzle.py:58-74 | the actions are strictly ascending and exactly the directions the blank can slide in |
| EightPuzzle.ActionCount | A_Star/eightpuzzle.py:58-74 | 2 actions at a corner, 3 on an edge, 4 at the centre |
| EightPuzzle.NeighbourInBoard | A_Star/eightpuzzle.py:81-88 | an allowed move's neighbour is another cell of the board |
| EightPuzzle.Moved | A_Star/eightpuzzle.py:76-94 | a valid action swaps the blank with its neighbour; an invalid one leaves the state; tiles are kept as a multiset |
| EightPuzzle.Step | A_Star/eightpuzzle.py:76-94 | the copy-and-swap computes Moved without touching its input |
| EightPuzzle.MovedIsPuzzleState | A_Star/eightpuzzle.py:76-94 | a step keeps the state a permutation of 0..8 |
| EightPuzzle.BlankUnique | A_Star/eightpuzzle.py:60 | in a puzzle state the blank is the only 0 |
| EightPuzzle.InverseAllowed | A_Star/eightpuzzle.py:62-88 | from the blank's new cell the inverse direction is allowed and leads back |
| EightPuzzle.MoveThenInverse | A_Star/eightpuzzle.py:81-92 | a valid move followed by its inverse restores the state |
| AStar.BitAndBounded | A_Star/ex1.py:15-19 | masking with a non-negative a gives a value in [0, a] |
| AStar.BitAndThree | A_Star/ex1.py:15 | `3 & i` is i mod 4 |
| AStar.SameRow | A_Star/ex1.py:14-21 | 1 exactly when one of the three clauses holds as Python parses them, else 0 |
| AStar.SameRowThirdClauseDead | A_Star/ex1.py:19 | the third clause never holds |
| AStar.SameRowFirstClause | A_Star/ex1.py:15 | the first clause is `j < i % 4 < 3` |
| AStar.SameRowMisreports | A_Star/ex1.py:14-21 | cells 0 and 5 are reported on the same row, cell 0 not on its own |
| AStar.SameCol | A_Star/ex1.py:23-27 | 1 exactly when j and i agree mod 3, else 0 |
| AStar.Heuristic | A_Star/ex1.py:31-48 | the loop's sum over misplaced tiles equals HeuristicValue |
| AStar.HeuristicZeroIff | A_Star/ex1.py:31-48 | the heuristic is 0 exactly when the state agrees with the goal everywhere |
| AStar.HeuristicAtLeastMisplaced | A_Star/ex1.py:36-47 | the heuristic is at least the number of misplaced tiles |
| AStar.NewNode | A_Star/ex1.py:7-12 | the node stores its fields, with f - g equal to h |
| AStar.InsertByF | A_Star/ex1.py:95 | inserting into a list sorted by f keeps it sorted and adds exactly the node |
| AStar.SortByF | A_Star/ex1.py:95 | the fringe sorted by ascending f, a permutation of it |
| AStar.ChildOk | A_Star/ex1.py:85-88 | a child of an arena node under a valid action has g = parent.g + 1 and f = g + h |
| AStar.Expand | A_Star/ex1.py:84-93 | one child per valid action, each linked to the node expanded, added to the fringe's multiset |
| AStar.Search | A_Star/ex1.py:63-95 | the arena stays valid (f = g + h for every node, g = parent.g + 1 for every child) and the fringe sorted by f; a solution holds the goal state, lies in the arena and has the least f of the fringe; no solution means an empty fringe |
| AStar.Replay | A_Star/ex1.py:104-114 | replaying actions with the environment's step keeps a puzzle state |
| AStar.ParentLink | A_Star/ex1.py:87-88 | a non-root node is one step from its parent by its action |
| AStar.ActionSequence | A_Star/ex1.py:104-113 | the reconstructed sequence has solution.g actions, and replaying it from the initial state reaches the solution state |
| ChessBoard.TruncDiv | genetic/chess_board.py:55 | `int(a / b)`: the quotient truncated toward zero |
| ChessBoard.PyMod | genetic/chess_board.py:56 | Python's `%`: the remainder takes the divisor's sign |
| ChessBoard.AttackersFrom | genetic/chess_board.py:59-80 | at most the number of later queens examined |
| ChessBoard.NonattackingPairs | genetic/chess_board.py:45-82 | size·(size-1)/2 minus the number of pairs i < j sharing a row, a column or a diagonal; for size 0 the ZeroDivisionError raised at the first queen's row, and 0 for an empty chromosome |
| ChessBoard.AttackingPairsBound | genetic/chess_board.py:59-80 | each pair is counted at most once: at most k(k-1)/2 attacking pairs |
| ChessBoard.FitnessBounds | genetic/chess_board.py:48-60 | the result lies between size(size-1)/2 - len(c)(len(c)-1)/2 and size(size-1)/2 |
| ChessBoard.NoAttackersIff | genetic/chess_board.py:59-80 | no queen is subtracted for c[i] exactly when none of the later queens attacks it |
| ChessBoard.NoAttackingPairsIff | genetic/chess_board.py:51-80 | nothing is subtracted exactly when no two queens attack |
| ChessBoard.EightQueensOptimum | genetic/chess_board.py:45-82 | for size 8 the result is 28 exactly when no pair attacks |
| ChessBoard.SameSquareAttacks | genetic/chess_board.py:63-68 | two queens on one square attack (same row) |
| ChessBoard.RepeatedSquareAttacks | genetic/chess_board.py:63-68 | a chromosome that repeats a square has an attacking pair |

## Left out

- Random number generation (`rnd_fixed_seed.permutation` / `choice`, `np.random`): the draws
  are parameters (`SnakeRules.Draws`); the first-guess randomness of the Wordle agents is not
  part of this model.
- Timeouts (`signal.alarm`) and every I/O path: the agent module import, pickling, saving and
  replaying games, visualisation, printing and progress output, tournament error routing.
  The model keeps only the exits these paths lead to, as error results.
- Foreign code: an agent's `AgentFunction` and `evalFitness` are parameters or given replies.
  An exception from them is the `Raised` or `AgentFailed` reply.
- Floating point: Wordle heuristic values and snake fitness are `real`, carried as opaque values.
- `SnakePlayer.Argsort`: ties keep index order (a stable sort). numpy's default sort does not
  promise an order among equal fitness values.
- Integer widths: the snake map is an `int8` array (`snakes/snakes.py:520`), the size records
  are `uint32` (`snakes/snakes.py:96`) and the Wordle letter states are `int8`. All of them are
  unbounded integers here; wrap-around is not modelled. A head writes size·side into the map,
  so a size above 127 would wrap. That does not happen with the default settings: a snake
  starts at length 2 and eats at most one food a turn, so over 100 turns its size stays at
  most 102.
- `SnakeEngine.SnakePlay.Spawn`: requires enough regions for every avatar (`SpawnDrawsOk`).
  When regions run out, the source (snakes.py:647-648) resets the avatar being placed and
  leaves only the current player's avatar loop; the remaining avatars keep no head, or a stale
  one, and in the first game an AttributeError follows. That case is not modelled. The setup
  check (snakes.py:1467) only refuses fewer regions than `nSnakes`, so with two players any
  region count from `nSnakes` up to `2·nSnakes - 1` reaches it.
- `SnakeEngine.SnakePlay.Play`: requires at least one turn and valid draws. A failed agent makes
  the whole game None, and the model does not keep the partial state the source leaves behind.
  In the source, a failed action leaves only the current player's avatar loop (snakes.py:825);
  each later player's first live avatar still has its newest percept frame overwritten
  (snakes.py:803) and its agent called (snakes.py:812) before its loop leaves too. No avatar
  moves on that turn, and play returns None (snakes.py:930).
- `SnakeEngine.SnakePlay.MoveAll`: states gameDone only for a successful loop.
- `SnakeLaws.AgeBodyEffect`: stated for bodies without repeated cells, which is what spawning
  and head-writing produce.
- Percept frames are values (`seq<seq<int>>`). A memory frame is shifted in place on an
  `array2` (`ShiftInPlace`), but numpy's aliasing between the stored percepts and the frames
  handed to the agent is modelled only by its effect.
- Training (`SnakeTraining.Train`): the opponent loading and its failures are not modelled, and
  neither is a game that fails or returns no result. Every game of a session is taken to succeed.
- `new_generation_agents` and `evaluate_fitness` are only named by the training steps
  (`Evolve(n)` / `Evaluate`). `evaluate_fitness`'s reordering is modelled on its own, in
  `SnakePlayer.EvaluateFitness`.
- Wordle: the agent is a finite list of replies. `RepliesExhausted` stands for a game that is
  still running when the list ends. Guesses that are rejected do not consume a guess, so the
  source's loop need not end.
- `CandidateFilter.WordleAgent.IterMethod`: returns the extended list instead of appending to
  the caller's list in place. `AgentFunction` and `setUpHeuristic` of this agent use float
  tables, argmin and random first guesses, and are not modelled.
- The keyboard input and terminal drawing of the human agent (`wordle/human_agent.py` after
  line 96) are not modelled.
- `eightpuzzle.show` / `walk` and the chess board's plotting are not modelled (display and
  randomness).
- `AStar.Search`: the fringe loop is bounded by a fuel count of expansions, because without a
  closed set it need not end. Python's stable `sort` is modelled as a stable insertion sort.
  The number of moves and the elapsed time are printed only, and are not modelled.
- `ChessBoard.NonattackingPairs`: the source's `/` is true division. `size*(size-1)/2` is always
  a whole number, so the model uses integer division and its `Ok` value is an `int` instead of a float.
