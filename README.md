# The Way — a verified model of the maze-chase game core

This project models the simulation core of "The Way", a grid-based arcade game.

- **The maze** is a matrix of marks. A robot moves through it under keyboard control.
- **Coins** must be collected before the hidden exit door appears.
- **Monsters** wander the corridors using a memory of dead ends and visited cells.
- **Rams** are a limited supply the robot uses to break inner walls.
- **Levels** form a fixed table that the game steps through.

The model covers four source files. It keeps each file's own form:

| Module (file) | Source | What it holds |
|---|---|---|
| `Grid` (`grid.dfy`) | `maze.py` | The mark vocabulary. The cell type. The pure facts about a mark matrix: writing one cell, the set of cells holding a mark, row-major order, and the connectivity of the room lattice. |
| `MazeGrid` (`maze.dfy`) | `maze.py` | `class Maze`, which holds the matrix as a `seq<seq<Mark>>` field that the methods reassign. |
| `MovingObjects` (`moving_objects.dfy`) | `moving_objects.py` | `class Robot` and `class Monster`. Each class has a pure specification function for what its methods do to the object and to the shared grid. |
| `LevelSequence` (`levels.dfy`) | `levels.py` | The level formula and the `Levels` cursor. |
| `TheWay` (`the_way.dfy`) | `the_way.py` | `class Game`: placing the pieces, hiding and unhiding doors, global status, the per-frame order and the level advance. |
| `Wrappers` (`wrappers.dfy`) | — | `Option`, `Result` and Python's `list.remove`. |

**Maze class.** Its main parts:

- **Construction** (`Maze.constructor`, `Maze.Create`):
  1. Normalise the size to odd numbers.
  2. Reject a walls factor outside [0, 1].
  3. Build the blueprint.
  4. Add random extra walls.
  5. Pick a start room and carve a depth-first maze from it.
- **The carve** (`Maze.TrackMaze`) is proved to terminate: each call turns one more Unvisited room into Path. It writes only a room it enters or the seam between two rooms. Its finish cell is the last room it entered. With no extra walls, no Unvisited cell is left.
- **Queries**: `get_nearest`, `is_outer_wall`, `is_dead_end`, `find_cells_by_mark`, `dead_ends`, `mark_cell`/`get_mark`/`check_mark`, and the row-major iterator.

**Rooms sit at odd coordinates.** The blueprint row `[wall] + [unvisited, wall] * (width // 2)` (`maze.py:120`) puts rooms at odd x and odd y.

**Robot.** Its coordinates are floats that move in steps of 0.5. The model holds them as integer half-units (`hx`, `hy`). A position maps to its cell by truncation toward zero, as Python's `int()` does (`maze.py:236`). So from a whole-number position, one half-step left already lands in the next cell, while going right takes two half-steps (`HalfSteps`). A half-step is one `move_robot` call, which runs once per event.

**Monster.** Its memo sets are `set<Cell>` fields and its overlapped coins and doors are a `map<Cell, Mark>` field.

**Randomness.** Every `random.choice` is a nondeterministic choice (`:|`). The contracts hold for every possible choice.

## Model

| member | source | states |
|---|---|---|
| Wrappers.RemoveFirst | mooc-programming-2025-final-project/src/maze.py:140 | `list.remove(x)`: the result has one copy of `x` fewer and is one shorter when `x` is present; it is the same list otherwise |
| Wrappers.RemoveFirstDistinct | mooc-programming-2025-final-project/src/the_way.py:192 | removing from a list without repeats keeps it without repeats; the result holds exactly the other elements |
| Grid.Code | mooc-programming-2025-final-project/src/maze.py:101-106 | every mark's number is in 0..6 |
| Grid.FromCode | mooc-programming-2025-final-project/src/maze.py:101-106 | a number names a mark iff it is in 0..6, and that mark has that number |
| Grid.CodeRoundTrip | mooc-programming-2025-final-project/src/maze.py:101-106 | the numbering of the marks is a bijection: decoding a mark's number gives the mark back |
| Grid.Put | mooc-programming-2025-final-project/src/maze.py:283-286 | writing one cell keeps the shape, sets that cell and changes no other cell |
| Grid.Marked | mooc-programming-2025-final-project/src/maze.py:266-274 | the set of cells of the matrix holding a mark, exactly |
| Grid.MarkedAfterPut | mooc-programming-2025-final-project/src/maze.py:283-286 | writing `m` into cell `c` adds `c` to the cells marked `m` and removes it from the cells of every other mark; no other cell moves between sets |
| Grid.AllRoomsReached | mooc-programming-2025-final-project/src/maze.py:203-228 | once the carve is closed (no entered room has an Unvisited room two cells away) and one room is entered, every room is entered |
| Grid.SortedPairwise | mooc-programming-2025-final-project/src/maze.py:266-274 | in a row-major sorted list every earlier cell comes before every later cell |
| Grid.IndexOrder | mooc-programming-2025-final-project/src/maze.py:92-97 | inside one row width, the iterator's position order is row-major order, in both directions |
| Grid.CellAtIndex | mooc-programming-2025-final-project/src/maze.py:92-97 | positions 0 .. width*height-1 map through `(n % width, n // width)` to cells of the matrix, each of which has that position |
| Grid.IndexCellAt | mooc-programming-2025-final-project/src/maze.py:92-97 | every cell of the matrix is reached by exactly its own position, so the iterator visits every cell |
| MazeGrid.OddSize | mooc-programming-2025-final-project/src/maze.py:35-40 | the normalised size is odd, not above the requested size, and at most one less |
| MazeGrid.RoundHalfEven | mooc-programming-2025-final-project/src/maze.py:132 | Python's `round`: within one half of the argument, and even on a tie |
| MazeGrid.Pairs | mooc-programming-2025-final-project/src/maze.py:120 | `[unvisited, wall] * k` has length 2k, with Unvisited at even positions and Wall at odd positions |
| MazeGrid.StripedBlueprint | mooc-programming-2025-final-project/src/maze.py:114-126 | alternating rows of all walls and of wall-then-pairs form the blueprint: a cell is Unvisited iff both its coordinates are odd, otherwise Wall |
| MazeGrid.CountFour | mooc-programming-2025-final-project/src/maze.py:263-264 | `list.count` over the four nearest marks is the sum over the four cells |
| MazeGrid.SortedDistinct | mooc-programming-2025-final-project/src/maze.py:266-274 | a row-major sorted list has no repeats |
| MazeGrid.CarveStart | mooc-programming-2025-final-project/src/maze.py:210-213 | after the current room is marked Path and its Unvisited neighbours are listed, the loop invariant of the carve holds |
| MazeGrid.CarveDescend | mooc-programming-2025-final-project/src/maze.py:219-227 | a pick that was Unvisited, once its seam is carved and the recursion has returned, keeps the loop invariant, with the entered rooms extended and the pick dropped from the list |
| MazeGrid.CarveSkip | mooc-programming-2025-final-project/src/maze.py:219-227 | a pick that is already visited is only dropped from the list, and the invariant holds |
| MazeGrid.CarveDone | mooc-programming-2025-final-project/src/maze.py:215-228 | when the neighbour list is empty, the call has carved what `Carved` says: the Path it wrote, the rooms it entered and closed, and the finish cell |
| MazeGrid.RoomSteps | mooc-programming-2025-final-project/src/maze.py:165-173 | the four bound checks of `__get_unvisited_neighbours` pick out exactly the rooms two cells away |
| MazeGrid.EndsDone | mooc-programming-2025-final-project/src/maze.py:276-281 | the scan over the Path cells keeps exactly the Path cells that are dead ends, in row-major order |
| MazeGrid.WallsCount | mooc-programming-2025-final-project/src/maze.py:135-141 | after `i` extra walls, exactly `i` fewer cells are Unvisited, and only Unvisited cells became Wall |
| MazeGrid.NoExtraWalls | mooc-programming-2025-final-project/src/maze.py:132-134 | a walls factor of 0 asks for no extra walls |
| MazeGrid.CarvedRing | mooc-programming-2025-final-project/src/maze.py:176-201 | the carve leaves the outer ring all Wall: it writes only rooms and seams |
| MazeGrid.FullCarve | mooc-programming-2025-final-project/src/maze.py:203-228 | a carve of the bare blueprint leaves no Unvisited cell, and every cell is Wall or Path |
| MazeGrid.Built | mooc-programming-2025-final-project/src/maze.py:46-51 | what the construction leaves: the ring is Wall, the start is a Path room, the finish is the last room entered (None when only the start was entered), and with factor 0 there is no Unvisited cell |
| MazeGrid.ListsMarked | mooc-programming-2025-final-project/src/maze.py:266-274 | a list of the cells holding `m` that misses none has exactly the marked cells as its elements |
| MazeGrid.Maze.constructor | mooc-programming-2025-final-project/src/maze.py:33-51 | the size is normalised to odd; the ring is Wall; the start room is Path; the entered rooms are Path rooms starting from the start; the finish is the last entered room; with factor 0 every cell is Wall or Path; the iterator's cursor is left at `width * height`, as the scans of `pick_random_cell` leave it |
| MazeGrid.Maze.LayOut | mooc-programming-2025-final-project/src/maze.py:46-49 | the blueprint, then extra walls on Unvisited cells only, then an Unvisited start room |
| MazeGrid.Maze.Carve | mooc-programming-2025-final-project/src/maze.py:50-51 | carving from the start room: `finish_cell` starts None and ends as the last room entered; the ring stays Wall; with factor 0 no Unvisited cell remains |
| MazeGrid.Maze.Create | mooc-programming-2025-final-project/src/maze.py:33-51 | fails iff the walls factor is outside [0, 1] (InvalidWallsFactor, checked first) or the normalised size has no room (NoStartCell); otherwise gives a maze with the constructor's guarantees: the ring is Wall, the entered rooms are Path rooms starting from the Path start room, the finish is the last entered room (None when only the start was entered), the iterator is exhausted, and with factor 0 every cell is Wall or Path |
| MazeGrid.Maze.GenerateMazeBlueprint | mooc-programming-2025-final-project/src/maze.py:108-126 | the grid becomes height rows of width marks: Unvisited at odd/odd cells, Wall everywhere else |
| MazeGrid.Maze.AddMoreWalls | mooc-programming-2025-final-project/src/maze.py:128-141 | only Unvisited cells become Wall; the Unvisited count falls by the rounded amount but never below one; with an amount of 0 or less the grid and the cursor are unchanged, otherwise the scan leaves the cursor at `width * height` |
| MazeGrid.Maze.PickRandomCell | mooc-programming-2025-final-project/src/maze.py:143-152 | None iff no cell holds the mark; otherwise a cell that holds it; the scan leaves the cursor at `width * height` |
| MazeGrid.Maze.UnvisitedNeighbours | mooc-programming-2025-final-project/src/maze.py:154-174 | exactly the Unvisited rooms two cells away, with no repeats |
| MazeGrid.Maze.SeamBetween | mooc-programming-2025-final-project/src/maze.py:176-200 | the cell midway between two rooms two cells apart, which is a seam |
| MazeGrid.Maze.RemoveWall | mooc-programming-2025-final-project/src/maze.py:176-201 | puts the mark on that midway cell and on nothing else |
| MazeGrid.Maze.TrackMaze | mooc-programming-2025-final-project/src/maze.py:203-228 | terminates, because the Unvisited count falls with each call; the cell becomes Path; every write is Path on an entered room or a seam; it returns exactly the rooms entered, each closed; the finish is the last of them |
| MazeGrid.Maze.Descend | mooc-programming-2025-final-project/src/maze.py:219-225 | a still-Unvisited pick becomes the finish, its seam is carved, the recursion runs, and the carve invariant is kept |
| MazeGrid.Maze.MarkCell | mooc-programming-2025-final-project/src/maze.py:283-296 | afterwards `get_mark(c)` is `m` and `check_mark(c, m)` holds; no other cell changes |
| MazeGrid.Maze.OuterWallFacts | mooc-programming-2025-final-project/src/maze.py:250-257 | `is_outer_wall(c)` holds iff `c` or one of its four neighbours is outside the maze |
| MazeGrid.Maze.GetNearest | mooc-programming-2025-final-project/src/maze.py:241-248 | raises the outer-wall error iff `is_outer_wall(c)`; otherwise four cells, exactly the orthogonal neighbours, all inside the maze |
| MazeGrid.Maze.NearestDistinct | mooc-programming-2025-final-project/src/maze.py:248 | the four nearest cells are four different cells |
| MazeGrid.Maze.IsDeadEnd | mooc-programming-2025-final-project/src/maze.py:259-264 | raises iff the cell is on the outer wall; otherwise true iff exactly three of the four nearest cells are Wall |
| MazeGrid.Maze.DeadEndAnswer | mooc-programming-2025-final-project/src/maze.py:259-264 | a cell that `is_dead_end` answers for is an inner cell, and the answer is the dead-end predicate |
| MazeGrid.Maze.FindCellsByMark | mooc-programming-2025-final-project/src/maze.py:266-274 | every cell holding the mark, each once, in row-major order, and no other cell; the `for … in self` scan leaves the iterator's cursor at `width * height` |
| MazeGrid.Maze.DeadEnds | mooc-programming-2025-final-project/src/maze.py:276-281 | raises iff some Path cell lies on the outer wall; otherwise exactly the Path dead ends, in row-major order; the cursor is left at `width * height` |
| MazeGrid.Maze.ScanEnds | mooc-programming-2025-final-project/src/maze.py:280-281 | the comprehension stops with the error at a Path cell on the outer wall; otherwise it keeps the dead ends in list order |
| MazeGrid.Maze.NoOuterWallPath | mooc-programming-2025-final-project/src/maze.py:276-281 | when every Path cell is inner, `dead_ends` cannot raise |
| MazeGrid.Maze.Iter | mooc-programming-2025-final-project/src/maze.py:88-90 | resets the cursor to 0 |
| MazeGrid.Maze.Next | mooc-programming-2025-final-project/src/maze.py:92-99 | below width*height: returns the mark and the cell `(n % width, n // width)` and advances by one; afterwards: StopIteration and the cursor stays put |
| MovingObjects.Trunc | mooc-programming-2025-final-project/src/maze.py:236 | `int()` of a half-unit coordinate truncates toward zero, for both signs |
| MovingObjects.HalfSteps | mooc-programming-2025-final-project/src/moving_objects.py:116-131 | from a whole position, half a step left is in the cell to the left, half a step right still in the same cell, a whole step right in the next one |
| MovingObjects.Flag | mooc-programming-2025-final-project/src/moving_objects.py:82-102 | setting one direction flag leaves the other flags and every other field as they were |
| MovingObjects.RamsAfterUse | mooc-programming-2025-final-project/src/moving_objects.py:39-42 | `decrease_rams` takes one ram off when there is one and never goes below zero; a non-positive count stays as it is |
| MovingObjects.BreakDir | mooc-programming-2025-final-project/src/moving_objects.py:59-72 | the first pressed direction in the order left, right, up, down whose neighbour is not outer wall; None iff no pressed direction qualifies |
| MovingObjects.Broken | mooc-programming-2025-final-project/src/moving_objects.py:51-78 | no ram or no qualifying direction: nothing changes; otherwise exactly that neighbour becomes Path, its flag is cleared and one ram is used; the position and the status never change |
| MovingObjects.BrokenRing | mooc-programming-2025-final-project/src/moving_objects.py:61-75 | breaking never touches the outer ring |
| MovingObjects.AimWithin | mooc-programming-2025-final-project/src/moving_objects.py:119-137 | the target cell of a robot on an inner cell lies inside the maze, so `get_mark` of it cannot fail |
| MovingObjects.Moved | mooc-programming-2025-final-project/src/moving_objects.py:105-162 | nothing changes when the status is not Playing, the flags cancel out, or the target is Wall or Monster (the status stays too); otherwise the robot does move: the position becomes the target, coins rise by one iff the target held Coin, the status becomes Passed iff it held Door, the old cell turns Path and the target Robot, and nothing else changes |
| MovingObjects.MovedRing | mooc-programming-2025-final-project/src/moving_objects.py:137-157 | a move keeps the outer ring Wall and the robot on an inner cell |
| MovingObjects.HandledRing | mooc-programming-2025-final-project/src/moving_objects.py:80-103 | any event keeps the outer ring Wall and the robot on an inner cell |
| MovingObjects.Robot.constructor | mooc-programming-2025-final-project/src/moving_objects.py:22-33 | the robot stands on the given cell with the given rams and coins, no flag set, playing |
| MovingObjects.Robot.DecreaseRams | mooc-programming-2025-final-project/src/moving_objects.py:39-42 | the rams become `RamsAfterUse` of the old count |
| MovingObjects.Robot.BreakWall | mooc-programming-2025-final-project/src/moving_objects.py:51-78 | the robot and the grid become what `Broken` describes |
| MovingObjects.Robot.PickWall | mooc-programming-2025-final-project/src/moving_objects.py:59-72 | the wall cell is the neighbour in `BreakDir` with that flag cleared, or None with nothing changed |
| MovingObjects.Robot.MoveRobot | mooc-programming-2025-final-project/src/moving_objects.py:105-162 | the robot and the grid become what `Moved` describes |
| MovingObjects.Robot.Enter | mooc-programming-2025-final-project/src/moving_objects.py:145-161 | the coin, door and position updates, and the two grid writes (old cell Path, new cell Robot) |
| MovingObjects.Robot.Target | mooc-programming-2025-final-project/src/moving_objects.py:116-131 | one half-unit per pressed direction, opposite directions cancelling |
| MovingObjects.Robot.ProcessEvent | mooc-programming-2025-final-project/src/moving_objects.py:80-103 | the robot and the grid become what `Handled` describes: the flag update or the break, then the move |
| MovingObjects.Robot.SetFlag | mooc-programming-2025-final-project/src/moving_objects.py:83-102 | one flag set to the given value, nothing else changed |
| MovingObjects.DeadEndOpenings | mooc-programming-2025-final-project/src/moving_objects.py:207-217 | a cell walled on three sides has at most one neighbour that is not Wall |
| MovingObjects.Throttle | mooc-programming-2025-final-project/src/moving_objects.py:297-302 | the counter stays in 0..30 and steps as `(c + 1) % 31` |
| MovingObjects.TicksMod | mooc-programming-2025-final-project/src/moving_objects.py:297-302 | after n calls from a fresh monster the counter is n mod 31 |
| MovingObjects.MovesOn | mooc-programming-2025-final-project/src/moving_objects.py:297-302 | the counter is 30 exactly on the calls one short of a multiple of 31, so a fresh monster moves on its 30th, 61st, 92nd, … call |
| MovingObjects.Kept | mooc-programming-2025-final-project/src/moving_objects.py:271-281 | after processing, `overlapped` holds at most the monster's own cell, with its old mark |
| MovingObjects.Restored | mooc-programming-2025-final-project/src/moving_objects.py:271-281 | every overlapped cell except the monster's gets its remembered mark back; every other cell is unchanged |
| MovingObjects.RestoreDone | mooc-programming-2025-final-project/src/moving_objects.py:276-280 | when the key loop runs out, the map and the grid are `Kept` and `Restored` |
| MovingObjects.Monster.constructor | mooc-programming-2025-final-project/src/moving_objects.py:180-189 | on the given cell; counter 0; both memo sets empty; nothing overlapped; playing |
| MovingObjects.Monster.AvailablePaths | mooc-programming-2025-final-project/src/moving_objects.py:191-205 | exactly the orthogonal neighbours holding neither Wall nor Monster, minus the closed cells |
| MovingObjects.Monster.IsClosedEnd | mooc-programming-2025-final-project/src/moving_objects.py:207-217 | true iff the cell is a dead end or has at most one available path, and equally iff it has at most one available path |
| MovingObjects.Monster.DeadEndPaths | mooc-programming-2025-final-project/src/moving_objects.py:211-212 | a dead end has at most one available path |
| MovingObjects.Monster.Track | mooc-programming-2025-final-project/src/moving_objects.py:219-269 | returns the cell itself iff no path is available, and then both memos are empty; otherwise an available neighbour, one not visited whenever such exists; the closed and visited sets grow or reset as the two branches say |
| MovingObjects.Monster.LeaveClosedEnd | mooc-programming-2025-final-project/src/moving_objects.py:226-241 | at a closed end: stays and forgets everything when no path is left, otherwise records the cell as closed and takes the remaining path |
| MovingObjects.Monster.PassThrough | mooc-programming-2025-final-project/src/moving_objects.py:243-269 | elsewhere: records the cell as visited and takes an available path; the refill at line 253 cannot run, since at least two paths exist |
| MovingObjects.Monster.PickPath | mooc-programming-2025-final-project/src/moving_objects.py:257-269 | a path not visited yet when there is one, otherwise any path with the visits forgotten |
| MovingObjects.Monster.ProcessOverlapped | mooc-programming-2025-final-project/src/moving_objects.py:271-281 | `overlapped` becomes `Kept` and the grid `Restored`, for the monster's cell |
| MovingObjects.Monster.RememberOverlapped | mooc-programming-2025-final-project/src/moving_objects.py:283-285 | the map gains the entry cell → mark |
| MovingObjects.Monster.Round | mooc-programming-2025-final-project/src/moving_objects.py:307-308 | one `__track` and `get_mark`: the monster's own cell or a neighbour that is neither Wall nor Monster, with its mark; the memos grow by at most the monster's cell |
| MovingObjects.Monster.Seek | mooc-programming-2025-final-project/src/moving_objects.py:304-327 | a found target holds Robot, Monster, Coin, Door or Path and is the monster's cell or a neighbour; one round suffices when the monster's own cell is neither Wall nor Unvisited and no neighbour is Unvisited |
| MovingObjects.Monster.MoveMonster | mooc-programming-2025-final-project/src/moving_objects.py:287-341 | not playing: nothing changes. Otherwise the counter is throttled and the monster searches only when it hits 30; on any other tick the position, the map, the grid and both memo sets stay as they were. A Robot target sets GameOver with no grid change. A Monster target changes nothing. A Coin, Door or Path target: the old cell becomes Path, the target becomes Monster, a coin or door is remembered, and the other overlapped cells are restored |
| MovingObjects.Monster.Advance | mooc-programming-2025-final-project/src/moving_objects.py:317-339 | the step onto a Coin, Door or Path target and the restoring of the cells it left |
| LevelSequence.LevelTable | mooc-programming-2025-final-project/src/levels.py:21-22 | `amount` levels (none below 1), level k at position k−1 with k monsters, k+1 rams and 10k coins |
| LevelSequence.LevelsGrow | mooc-programming-2025-final-project/src/levels.py:22 | later levels place more monsters and coins and give more rams; each level gives one ram more than it has monsters |
| LevelSequence.ThreeLevels | mooc-programming-2025-final-project/src/levels.py:22 | three levels are (1,1,2,10), (2,2,3,20) and (3,3,4,30) |
| LevelSequence.Normalised | mooc-programming-2025-final-project/src/levels.py:14-18 | an amount below 1 becomes 1, others are kept |
| LevelSequence.Levels.constructor | mooc-programming-2025-final-project/src/levels.py:14-19 | the normalised amount and its table, whose first entry is level 1 |
| LevelSequence.Levels.GenerateLevels | mooc-programming-2025-final-project/src/levels.py:21-22 | the table becomes `LevelTable(amount)` |
| LevelSequence.Levels.Iter | mooc-programming-2025-final-project/src/levels.py:24-26 | the cursor goes back to 0 and the object itself is returned, so iteration restarts from level 1 |
| LevelSequence.Levels.Next | mooc-programming-2025-final-project/src/levels.py:28-34 | the level under the cursor, which moves on; StopIteration once all `amount` levels were handed out; the k-th level handed out is level k |
| TheWay.RobotAction | mooc-programming-2025-final-project/src/moving_objects.py:82-102 | a direction key-down presses, a key-up releases, the break key-down breaks, anything else is idle |
| TheWay.Count | mooc-programming-2025-final-project/src/the_way.py:95 | `range(n)` runs n times, or none for negative n |
| TheWay.PathFree | mooc-programming-2025-final-project/src/the_way.py:93-110 | a cell still Path after placement was Path before and nothing was placed on it |
| TheWay.CoverStep | mooc-programming-2025-final-project/src/the_way.py:106-110 | placing on a Path cell extends the covered list and takes exactly one Path cell away |
| TheWay.LaidOutMarks | mooc-programming-2025-final-project/src/the_way.py:93-110 | on a carved maze, the Door cells are the finish plus the extra doors, the Monster and Coin cells are the placed ones, the Robot cells are the start and the extra robots (unless the finish covers them), and nothing else changed |
| TheWay.PlaceRandomly | mooc-programming-2025-final-project/src/the_way.py:106-110 | `count` distinct Path cells get the mark; fails (the source passes None to `mark_cell`) iff fewer Path cells exist |
| TheWay.PlaceRobots | mooc-programming-2025-final-project/src/the_way.py:93-96 | the start gets a robot, then `robots − 1` Path cells do |
| TheWay.PlaceDoors | mooc-programming-2025-final-project/src/the_way.py:100-103 | the finish gets a door, then `doors − 1` Path cells do |
| TheWay.PlaceMonstersAndCoins | mooc-programming-2025-final-project/src/the_way.py:105-110 | `monsters` Path cells get a monster, then `coins` get a coin |
| TheWay.Populate | mooc-programming-2025-final-project/src/the_way.py:93-110 | all placements in source order; failure means no finish cell or too few Path cells |
| TheWay.NewMaze | mooc-programming-2025-final-project/src/the_way.py:85-110 | fails in the maze constructor iff the size has no room, or later with NoCell; otherwise a carved maze of Wall and Path with all the placements |
| TheWay.UnhideSplits | mooc-programming-2025-final-project/src/the_way.py:187-192 | the doors shown and the doors kept hidden together make up the hidden list |
| TheWay.UnhideEveryOther | mooc-programming-2025-final-project/src/the_way.py:187-192 | the doors shown are the 1st, 3rd, 5th … hidden door, because removing while iterating skips the next one; none of them is under a monster |
| TheWay.UnhideStops | mooc-programming-2025-final-project/src/the_way.py:187-190 | the loop ends early only at a door under a monster |
| TheWay.UnhideKept | mooc-programming-2025-final-project/src/the_way.py:187-192 | with distinct doors, the doors kept hidden are exactly the listed doors not shown |
| TheWay.HideDoors | mooc-programming-2025-final-project/src/the_way.py:175-181 | the hidden doors are exactly the former Door cells, in row-major order; each is now Path; no Door mark remains; nothing else in the grid changes; the scan leaves the cursor at `width * height` |
| TheWay.ShowDoors | mooc-programming-2025-final-project/src/the_way.py:187-192 | the list and the grid become what `Unhide` describes: shown cells turn Door, the list keeps the rest |
| TheWay.SpawnMonsters | mooc-programming-2025-final-project/src/the_way.py:130 | one fresh monster per cell, in the order of the cells |
| TheWay.MonstersOf | mooc-programming-2025-final-project/src/the_way.py:129-130 | one fresh monster on every Monster cell and on no other cell, in row-major order; the scan leaves the cursor at `width * height` |
| TheWay.HiddenFinish | mooc-programming-2025-final-project/src/the_way.py:123-126 | with one door requested, the hidden doors are just the finish cell |
| TheWay.MarksKept | mooc-programming-2025-final-project/src/the_way.py:123-126 | hiding the doors leaves as many Coin and Monster cells as were placed |
| TheWay.LayMaze | mooc-programming-2025-final-project/src/the_way.py:123-126 | the level's maze: the finish is the one hidden door, now Path; no Door remains; there are as many coins and monster cells as the level asks for |
| TheWay.LayLevel | mooc-programming-2025-final-project/src/the_way.py:118-130 | fresh maze, robot and monsters; the robot is on the start cell with the level's rams; one monster per Monster cell; the maze fails iff the size has no room |
| TheWay.Game.constructor | mooc-programming-2025-final-project/src/the_way.py:231-235 | `Levels(levels_amount)`, its iterator, and the first level (1,1,2,10) handed out |
| TheWay.Game.Start | mooc-programming-2025-final-project/src/the_way.py:231-236 | a game on level 1, everyone playing, with the one monster the level places |
| TheWay.Game.NewGame | mooc-programming-2025-final-project/src/the_way.py:118-130 | success gives fresh objects laid out as `LayLevel` states, all playing; the maze fails iff the size has no room |
| TheWay.Game.UpdateObjectsGameStatus | mooc-programming-2025-final-project/src/the_way.py:132-137 | every monster and the robot end with the given status |
| TheWay.Game.GameIsOver | mooc-programming-2025-final-project/src/the_way.py:139-153 | true iff some monster or the robot had GameOver; then all have it; otherwise no status changes |
| TheWay.Game.LevelIsPassed | mooc-programming-2025-final-project/src/the_way.py:155-165 | true iff the robot had Passed; then all have it; otherwise no status changes |
| TheWay.Game.GameIsPassed | mooc-programming-2025-final-project/src/the_way.py:167-173 | true iff the robot had Passed and the level number equals `levels_amount`, with the side effect of `level_passed` |
| TheWay.Game.ShowStatus | mooc-programming-2025-final-project/src/the_way.py:289-302 | the screen `draw_window` picks, checked in order (game over, game passed, level passed), with the statuses those queries set |
| TheWay.Game.UnhideDoors | mooc-programming-2025-final-project/src/the_way.py:183-192 | the hidden list and the grid become what `Unhide` describes |
| TheWay.Game.ProcessDoors | mooc-programming-2025-final-project/src/the_way.py:194-209 | nothing changes while a Coin cell remains or a monster overlaps a coin; otherwise `unhide_doors`; the coin scan always runs and leaves the cursor at `width * height` |
| TheWay.Game.MoveMonsters | mooc-programming-2025-final-project/src/the_way.py:241-242 | every monster moves in list order; a monster's status changes only from Playing to GameOver |
| TheWay.Game.AdvanceLevel | mooc-programming-2025-final-project/src/the_way.py:266-268 | StopIteration iff all levels were handed out; otherwise the cursor moves one on, the level becomes the next number, and fresh objects are laid out for that level (`NewLevel`), all playing |
| TheWay.Game.LevelChoice | mooc-programming-2025-final-project/src/the_way.py:263 | true iff the level is passed, it is not the last one, and the key is F3; the statuses are set as `level_passed` sets them |
| TheWay.Game.NextLevel | mooc-programming-2025-final-project/src/the_way.py:263-268 | statuses reset, then the next level; on success the fresh objects are laid out for it (`NewLevel`) |
| TheWay.Game.PassLevel | mooc-programming-2025-final-project/src/the_way.py:262-268 | without the F3 condition nothing but the statuses changes; with it, everyone is playing the next level, laid out for it (`NewLevel`); with `levels_amount` below 1 that is StopIteration |
| TheWay.Game.RobotEvent | mooc-programming-2025-final-project/src/the_way.py:254 | the robot handles the event as `Handled` describes |
| TheWay.Game.KeyPressed | mooc-programming-2025-final-project/src/the_way.py:256-268 | Escape ends the game iff pressed; F2 restarts the same level with fresh objects laid out for it (`NewLevel`); the level moves on only on F3, and by one; an accepted F3 makes everyone playing and moves to the next level laid out for it (StopIteration when `levels_amount` is below 1); every key but F2, Escape included, that does not advance keeps the maze, robot, monsters, hidden doors and level, and answers false unless it is Escape; the statuses change only when the robot had Passed, and then every entity is Passed |
| TheWay.Game.RestartLevel | mooc-programming-2025-final-project/src/the_way.py:260-263 | `new_game(self.level)` on the same level: on success fresh objects laid out for it (`NewLevel`), all playing, answer false; on failure the old objects and a maze error |
| TheWay.Game.PassFresh | mooc-programming-2025-final-project/src/the_way.py:263 | right after a restart the F3 test finds the new robot playing: answer false, the objects, statuses, layout and level all stay |
| TheWay.Game.CheckEvent | mooc-programming-2025-final-project/src/the_way.py:253-268 | the robot handles the event, then key-down goes to `KeyPressed`; other events change only the robot and the grid, as `Handled` says, and keep the hidden doors and the monsters' statuses; F2 lays out the same level afresh (`NewLevel`); an accepted F3, judged on the robot's status after it handled the event, moves to the next level laid out for it; a key-down other than F2 that does not advance the level (judged on the robot's status after it handled the event) keeps the maze, robot, monsters, hidden doors and level, leaves the grid and the robot as `Handled` leaves them, with the robot's status as `LevelChoice` sets it |
| TheWay.Game.CheckEvents | mooc-programming-2025-final-project/src/the_way.py:247-268 | the events in order, up to Escape; the level never goes back and moves on by at most one per event |
| TheWay.Game.Frame | mooc-programming-2025-final-project/src/the_way.py:239-244 | one tick: doors, then every monster, then the status queries, then the events |

## Left out

- **Rendering and setup.** All pygame rendering, fonts, images and window setup are not modelled, and neither is the size and margin computation from the screen (`the_way.py:21-83, 112-116, 270-428`). The maze size is a parameter of the game.
- **Input and exit.** The instructions loop (`the_way.py:211-222`) and `clock.tick` are not modelled. `exit()` on Escape is the answer `Ok(true)`.
- **Randomness.** `random.choice` is a nondeterministic choice. Nothing is claimed about probabilities.
- **Walls factor arithmetic.** The amount `round(width * height * walls_factor)` is taken on exact reals with round-half-even. Floating-point error is not modelled.
- **Key codes.** Raw key codes, `set_keys` and `pygame.event` values are abstracted to the `Event` and `Key` types. `Robot.process_event` is modelled on the actions they map to.
- **Exceptions.** Python exceptions become `Result` errors:
  - a `ValueError` from the walls factor becomes `InvalidWallsFactor`;
  - a size without a room becomes `NoStartCell`. When both normalised sizes are negative, `width * height` is positive, and the first scan of the iterator raises an `IndexError` on the row `[]` (`maze.py:94`). Otherwise the scan finds no room, `pick_random_cell` gives None, and the carve raises a `ValueError` unpacking it (`maze.py:232-237`);
  - a `mark_cell(None, …)` in `new_maze` becomes `NoCell`;
  - a `StopIteration` from the level iterator becomes `NoMoreLevels`.

  Malformed cell arguments (`__parse_cell`) cannot occur, because cells are typed pairs of integers.
- **Failed new game.** When `new_game` fails, the model leaves the game as it was. The source dies with its exception part-way through.
- **`Maze.__str__`** (`maze.py:81-86`) is display only.
- **Monster speed.** The unused `speed` argument of `Monster` is not modelled.
- **Level object.** Python creates the `Levels` cursor in `__iter__`. The model creates it in the constructor as well.
- **Dict and set order.** The order of `dict` and `set` iteration is not modelled. `__process_overlapped` picks its keys in any order and `__get_available_paths` returns a set.
- **Recursion depth.** `__track_maze` calls itself once for each room it enters (`maze.py:225`), so a maze with more rooms than Python's recursion limit (1000 by default) raises `RecursionError`. `TrackMaze` has no such limit. This is intended: the game's mazes are screen-sized and stay well below the limit.
- **Spanning tree.** The model proves that every room is entered and that every write is a room or the seam between two rooms. It does not prove that the Path cells form a tree, or that the start and finish differ.
- **`levels_amount` below 1.** `Levels` then holds one level, but `game_passed` compares against the raw value, so passing level 1 and pressing F3 runs out of levels. The model states this as `NoMoreLevels` (`PassLevel`).
- MovingObjects.Monster.MoveMonster: the `while True` search of `move_monster` is bounded by `fuel` rounds; with no target after `fuel` rounds the monster stays put. One round is proved to suffice when no Unvisited cell is near the monster and its own cell is neither Wall nor Unvisited, In the source's game that always holds: the carve leaves no Unvisited cell (`FullCarve`) and nothing later writes Unvisited or Wall. This is not proved at the game level: the game's invariant does not carry it, so `MoveMonsters` does not get the one-round guarantee.
- MovingObjects.Monster.Seek: nothing is proved about targets beyond `fuel` rounds (see `MoveMonster`).
- TheWay.Game.MoveMonsters: states the status rule and that the game stays well formed; it does not restate each monster's own move, which `MoveMonster` states.
- TheWay.Game.CheckEvents: states the Escape answer, the level bound and the well-formedness; it does not restate the per-event effects, which `CheckEvent` states for every event.
- TheWay.Game.Frame: states what `CheckEvents` states for the frame's events; the door, monster and status steps are described by their own members.
- TheWay.Game.ShowStatus: models only the status queries of `draw_window`; drawing is left out.
