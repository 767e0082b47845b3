/** The two kinds of moving object of moving_objects.py: the Robot the
    player steers and the Monster that tracks the maze on its own. Both
    hold the maze they live in and write their moves into its grid. */
module MovingObjects {
  import opened Wrappers
  import opened Grid
  import opened MazeGrid

  /** `game_status`: None while playing, then "passed" or "gameover". */
  datatype Status = Playing | Passed | GameOver

  datatype Dir = Left | Right | Up | Down

  /** The player's input once key codes are mapped: a direction key
      pressed or released, the break key pressed, or any other event. */
  datatype Action = Press(d: Dir) | Release(d: Dir) | PressBreak | Idle

  /** The maze an object lives in: well formed, with the outer ring all Wall. */
  ghost predicate Sound(m: Maze)
    reads m
  {
    m.Valid() && RingIsWall(m.grid, m.width, m.height)
  }

  // ----- Robot -----

  /** `int()` of a coordinate held in half-units: truncation toward zero. */
  function Trunc(h: int): (n: int)
    ensures h >= 0 ==> 0 <= 2 * n <= h < 2 * n + 2
    ensures h < 0 ==> 2 * n - 2 < h <= 2 * n <= 0
  {
    if h >= 0 then h / 2 else -((-h) / 2)
  }

  /** Truncation makes half steps lopsided: from a whole position a half
      step left is already in the next cell, a half step right is not. */
  lemma HalfSteps(x: int)
    requires x >= 1
    ensures Trunc(2 * x - 1) == x - 1
    ensures Trunc(2 * x + 1) == x && Trunc(2 * x + 2) == x + 1
  {
  }

  /** A robot's fields: position in half-units, the four direction flags,
      the rams left, the coins collected and the status. */
  datatype RobotState = RobotState(hx: int, hy: int, left: bool, right: bool, up: bool, down: bool,
                                   rams: int, coins: int, status: Status)

  /** The cell the robot's position lies in. */
  function Here(r: RobotState): Cell {
    Cell(Trunc(r.hx), Trunc(r.hy))
  }

  function Pressed(r: RobotState, d: Dir): bool {
    match d
    case Left => r.left
    case Right => r.right
    case Up => r.up
    case Down => r.down
  }

  /** The robot with one direction flag set to `b`. */
  function Flag(r: RobotState, d: Dir, b: bool): (r': RobotState)
    ensures Pressed(r', d) == b && forall e :: e != d ==> Pressed(r', e) == Pressed(r, e)
    ensures r'.(left := r.left, right := r.right, up := r.up, down := r.down) == r
  {
    match d
    case Left => r.(left := b)
    case Right => r.(right := b)
    case Up => r.(up := b)
    case Down => r.(down := b)
  }

  /** `decrease_rams`: one ram used, never going below zero (a negative
      count, never decremented, lets every break through). */
  function RamsAfterUse(rams: int): (r: int)
    ensures rams >= 0 ==> r >= 0
    ensures rams > 0 ==> r == rams - 1
    ensures rams <= 0 ==> r == rams
  {
    if rams - 1 >= 0 then rams - 1 else rams
  }

  /** The cell one whole unit from the robot's position in direction `d`. */
  function Beside(r: RobotState, d: Dir): Cell {
    match d
    case Left => Cell(Trunc(r.hx - 2), Trunc(r.hy))
    case Right => Cell(Trunc(r.hx + 2), Trunc(r.hy))
    case Up => Cell(Trunc(r.hx), Trunc(r.hy - 2))
    case Down => Cell(Trunc(r.hx), Trunc(r.hy + 2))
  }

  /** The order in which `__break_wall` tries the directions. */
  function Rank(d: Dir): nat {
    match d
    case Left => 0
    case Right => 1
    case Up => 2
    case Down => 3
  }

  /** The direction `__break_wall` breaks towards: the first pressed one,
      in the order left, right, up, down, whose cell is not on the outer wall. */
  function BreakDir(r: RobotState, w: int, h: int): (d: Option<Dir>)
    ensures d.Some? ==> Pressed(r, d.value) && Interior(Beside(r, d.value), w, h)
    ensures d.Some? ==> forall e :: Rank(e) < Rank(d.value) && Pressed(r, e) ==> !Interior(Beside(r, e), w, h)
    ensures d.None? ==> forall e :: Pressed(r, e) ==> !Interior(Beside(r, e), w, h)
  {
    if r.left && Interior(Beside(r, Left), w, h) then Some(Left)
    else if r.right && Interior(Beside(r, Right), w, h) then Some(Right)
    else if r.up && Interior(Beside(r, Up), w, h) then Some(Up)
    else if r.down && Interior(Beside(r, Down), w, h) then Some(Down)
    else None
  }

  /** `__break_wall` at the robot's own position: with a ram and a
      qualifying direction, exactly that neighbouring cell becomes Path,
      its flag is cleared and one ram is used; otherwise nothing changes. */
  function Broken(r: RobotState, g: Matrix, w: int, h: int): (res: (RobotState, Matrix))
    requires Shaped(g, w, h)
    ensures Shaped(res.1, w, h) && Here(res.0) == Here(r) && res.0.status == r.status
    ensures r.rams == 0 || BreakDir(r, w, h).None? ==> res == (r, g)
    ensures r.rams != 0 && BreakDir(r, w, h).Some? ==>
      var d := BreakDir(r, w, h).value;
      res.1 == Put(g, Beside(r, d), Path) && res.0 == Flag(r, d, false).(rams := RamsAfterUse(r.rams))
  {
    if r.rams == 0 then (r, g)
    else match BreakDir(r, w, h)
      case None => (r, g)
      case Some(d) => (Flag(r, d, false).(rams := RamsAfterUse(r.rams)), Put(g, Beside(r, d), Path))
  }

  /** Breaking never touches the outer ring. */
  lemma BrokenRing(r: RobotState, g: Matrix, w: int, h: int)
    requires Shaped(g, w, h) && RingIsWall(g, w, h)
    ensures RingIsWall(Broken(r, g, w, h).1, w, h)
  {
    if r.rams != 0 && BreakDir(r, w, h).Some? {
      RingAfterPut(g, w, h, Beside(r, BreakDir(r, w, h).value), Path);
    }
  }

  /** The half-unit position the pressed directions aim at. */
  function Aim(r: RobotState): (int, int) {
    (r.hx - (if r.left then 1 else 0) + (if r.right then 1 else 0),
     r.hy - (if r.up then 1 else 0) + (if r.down then 1 else 0))
  }

  /** The cell the pressed directions aim at. */
  function AimCell(r: RobotState): Cell {
    Cell(Trunc(Aim(r).0), Trunc(Aim(r).1))
  }

  /** The aimed cell is at most one step from an inner cell, so in the maze. */
  lemma AimWithin(r: RobotState, w: int, h: int)
    requires Interior(Here(r), w, h)
    ensures Within(AimCell(r), w, h)
  {
  }

  /** `move_robot`: a robot that is playing and aims somewhere moves
      there unless the cell holds Wall or Monster (bumping into a monster
      leaves the status alone, as the comparison at line 143 does); it
      collects a Coin and passes the level on a Door. */
  function Moved(r: RobotState, g: Matrix, w: int, h: int): (res: (RobotState, Matrix))
    requires Shaped(g, w, h) && Interior(Here(r), w, h)
    ensures Shaped(res.1, w, h)
    ensures r.status != Playing || Aim(r) == (r.hx, r.hy) ==> res == (r, g)
    ensures Within(AimCell(r), w, h)
    ensures At(g, AimCell(r)) == Wall || At(g, AimCell(r)) == Monster ==> res == (r, g)
    ensures r.status == Playing && Aim(r) != (r.hx, r.hy) && At(g, AimCell(r)) != Wall && At(g, AimCell(r)) != Monster ==>
      (res.0.hx, res.0.hy) == Aim(r) && Here(res.0) == AimCell(r)
    ensures res.0 != r ==>
      && r.status == Playing && (res.0.hx, res.0.hy) == Aim(r) != (r.hx, r.hy)
      && res.0.(hx := r.hx, hy := r.hy, coins := r.coins, status := r.status) == r
      && (res.0.coins == r.coins + 1 <==> At(g, AimCell(r)) == Coin)
      && (res.0.coins == r.coins || res.0.coins == r.coins + 1)
      && (res.0.status == Passed <==> At(g, AimCell(r)) == Door)
      && (res.0.status == Playing || res.0.status == Passed)
      && res.1 == Put(Put(g, Here(r), Path), AimCell(r), Robot)
    ensures res.0 == r ==> res.1 == g
  {
    AimWithin(r, w, h);
    var t := AimCell(r);
    if r.status != Playing || Aim(r) == (r.hx, r.hy) then (r, g)
    else if At(g, t) == Wall || At(g, t) == Monster then (r, g)
    else
      var r' := r.(hx := Aim(r).0, hy := Aim(r).1,
                   coins := if At(g, t) == Coin then r.coins + 1 else r.coins,
                   status := if At(g, t) == Door then Passed else r.status);
      assert Here(r') == t;
      (r', Put(Put(g, Here(r), Path), t, Robot))
  }

  /** A move keeps the outer ring all Wall and the robot on an inner cell:
      the cell it enters is not a Wall, so not on the ring. */
  lemma MovedRing(r: RobotState, g: Matrix, w: int, h: int)
    requires Shaped(g, w, h) && RingIsWall(g, w, h) && Interior(Here(r), w, h)
    ensures RingIsWall(Moved(r, g, w, h).1, w, h) && Interior(Here(Moved(r, g, w, h).0), w, h)
  {
    var res := Moved(r, g, w, h);
    if res.0 != r {
      var t := AimCell(r);
      var g1 := Put(g, Here(r), Path);
      RingAfterPut(g, w, h, Here(r), Path);
      assert At(g1, t) != Wall by { if t != Here(r) { assert At(g1, t) == At(g, t); } }
      RingAfterPut(g1, w, h, t, Robot);
    }
  }

  /** `process_event` on one action, followed by `move_robot`. */
  function Handled(r: RobotState, g: Matrix, w: int, h: int, a: Action): (res: (RobotState, Matrix))
    requires Shaped(g, w, h) && Interior(Here(r), w, h)
    ensures Shaped(res.1, w, h)
  {
    match a
    case Press(d) => Moved(Flag(r, d, true), g, w, h)
    case Release(d) => Moved(Flag(r, d, false), g, w, h)
    case PressBreak =>
      var b := Broken(r, g, w, h);
      Moved(b.0, b.1, w, h)
    case Idle => Moved(r, g, w, h)
  }

  /** An action keeps the outer ring all Wall and the robot on an inner cell. */
  lemma HandledRing(r: RobotState, g: Matrix, w: int, h: int, a: Action)
    requires Shaped(g, w, h) && RingIsWall(g, w, h) && Interior(Here(r), w, h)
    ensures RingIsWall(Handled(r, g, w, h, a).1, w, h) && Interior(Here(Handled(r, g, w, h, a).0), w, h)
  {
    match a
    case Press(d) => MovedRing(Flag(r, d, true), g, w, h);
    case Release(d) => MovedRing(Flag(r, d, false), g, w, h);
    case PressBreak =>
      BrokenRing(r, g, w, h);
      var b := Broken(r, g, w, h);
      MovedRing(b.0, b.1, w, h);
    case Idle => MovedRing(r, g, w, h);
  }

  class Robot {
    const maze: Maze
    var hx: int
    var hy: int
    var left: bool
    var right: bool
    var up: bool
    var down: bool
    var rams: int
    var coins: int
    var status: Status

    function State(): RobotState
      reads this
    {
      RobotState(hx, hy, left, right, up, down, rams, coins, status)
    }

    /** The robot stands on an inner cell of a sound maze. */
    ghost predicate Valid()
      reads this, maze
    {
      Sound(maze) && Interior(Here(State()), maze.width, maze.height)
    }

    /** `Robot(maze, cell, rams, coins)`: no direction pressed, playing. */
    constructor (maze: Maze, cell: Cell, rams: int, coins: int)
      requires Sound(maze) && Interior(cell, maze.width, maze.height)
      ensures this.maze == maze && Valid()
      ensures State() == RobotState(2 * cell.x, 2 * cell.y, false, false, false, false, rams, coins, Playing)
    {
      this.maze := maze;
      hx, hy := 2 * cell.x, 2 * cell.y;
      left, right, up, down := false, false, false, false;
      this.rams := rams;
      this.coins := coins;
      status := Playing;
    }

    method DecreaseRams()
      modifies this`rams
      ensures rams == RamsAfterUse(old(rams))
    {
      if rams - 1 >= 0 {
        rams := rams - 1;
      }
    }

    /** `__break_wall` at the robot's position. */
    method BreakWall()
      requires Valid()
      modifies this, maze`grid
      ensures Valid()
      ensures State() == Broken(old(State()), old(maze.grid), maze.width, maze.height).0
      ensures maze.grid == Broken(old(State()), old(maze.grid), maze.width, maze.height).1
    {
      ghost var r0, g0 := State(), maze.grid;
      BrokenRing(r0, g0, maze.width, maze.height);
      if rams != 0 {
        var wallCell := PickWall();
        if wallCell.Some? {
          maze.MarkCell(wallCell.value, Path);
          DecreaseRams();
        }
      }
      assert (State(), maze.grid) == Broken(r0, g0, maze.width, maze.height);
    }

    /** The if-chain of `__break_wall`: the cell beside the robot in the
        first pressed direction that is not on the outer wall, with that
        direction's flag cleared. */
    method PickWall() returns (wallCell: Option<Cell>)
      modifies this`left, this`right, this`up, this`down
      ensures BreakDir(old(State()), maze.width, maze.height).None? ==> wallCell.None? && State() == old(State())
      ensures BreakDir(old(State()), maze.width, maze.height).Some? ==>
        var d := BreakDir(old(State()), maze.width, maze.height).value;
        wallCell == Some(Beside(old(State()), d)) && State() == Flag(old(State()), d, false)
    {
      var r := State();
      wallCell := None;
      if left && !maze.IsOuterWall(Beside(r, Left)) {
        wallCell := Some(Beside(r, Left));
        SetFlag(Left, false);
      } else if right && !maze.IsOuterWall(Beside(r, Right)) {
        wallCell := Some(Beside(r, Right));
        SetFlag(Right, false);
      } else if up && !maze.IsOuterWall(Beside(r, Up)) {
        wallCell := Some(Beside(r, Up));
        SetFlag(Up, false);
      } else if down && !maze.IsOuterWall(Beside(r, Down)) {
        wallCell := Some(Beside(r, Down));
        SetFlag(Down, false);
      }
    }

    /** `move_robot`. */
    method MoveRobot()
      requires Valid()
      modifies this, maze`grid
      ensures Valid()
      ensures State() == Moved(old(State()), old(maze.grid), maze.width, maze.height).0
      ensures maze.grid == Moved(old(State()), old(maze.grid), maze.width, maze.height).1
    {
      ghost var r0, g0 := State(), maze.grid;
      MovedRing(r0, g0, maze.width, maze.height);
      if status == Playing {
        var targetX, targetY := Target();
        if (hx, hy) != (targetX, targetY) {
          var target := Cell(Trunc(targetX), Trunc(targetY));
          AimWithin(r0, maze.width, maze.height);
          var mark := maze.GetMark(target);
          if mark != Wall && mark != Monster {
            Enter(targetX, targetY, mark);
          }
        }
      }
    }

    /** The end of `move_robot`: the robot steps onto the target cell,
        taking a coin or passing the level through a door, and the cell it
        left becomes Path. */
    method Enter(targetX: int, targetY: int, mark: Mark)
      requires Sound(maze) && Interior(Here(State()), maze.width, maze.height)
      requires Within(Cell(Trunc(targetX), Trunc(targetY)), maze.width, maze.height)
      requires mark == At(maze.grid, Cell(Trunc(targetX), Trunc(targetY)))
      modifies this`hx, this`hy, this`coins, this`status, maze`grid
      ensures State() == old(State()).(hx := targetX, hy := targetY,
                                       coins := if mark == Coin then old(coins) + 1 else old(coins),
                                       status := if mark == Door then Passed else old(status))
      ensures maze.grid == Put(Put(old(maze.grid), Here(old(State())), Path), Cell(Trunc(targetX), Trunc(targetY)), Robot)
    {
      if mark == Coin {
        coins := coins + 1;
      }
      if mark == Door {
        status := Passed;
      }
      var here := Cell(Trunc(hx), Trunc(hy));
      maze.MarkCell(here, Path);
      maze.MarkCell(Cell(Trunc(targetX), Trunc(targetY)), Robot);
      hx, hy := targetX, targetY;
    }

    /** The half-unit position the pressed directions aim at, one half
        unit per pressed direction. */
    method Target() returns (targetX: int, targetY: int)
      ensures (targetX, targetY) == Aim(State())
    {
      targetX, targetY := hx, hy;
      if left { targetX := targetX - 1; }
      if right { targetX := targetX + 1; }
      if up { targetY := targetY - 1; }
      if down { targetY := targetY + 1; }
    }

    /** `process_event`: a direction key sets or clears its flag, the
        break key breaks a wall; every event then moves the robot. */
    method ProcessEvent(a: Action)
      requires Valid()
      modifies this, maze`grid
      ensures Valid()
      ensures State() == Handled(old(State()), old(maze.grid), maze.width, maze.height, a).0
      ensures maze.grid == Handled(old(State()), old(maze.grid), maze.width, maze.height, a).1
    {
      match a {
        case Press(d) => SetFlag(d, true);
        case Release(d) => SetFlag(d, false);
        case PressBreak => BreakWall();
        case Idle =>
      }
      MoveRobot();
    }

    /** The flag of direction `d` of `process_event` set to `b`. */
    method SetFlag(d: Dir, b: bool)
      modifies this`left, this`right, this`up, this`down
      ensures State() == Flag(old(State()), d, b)
    {
      match d {
        case Left => left := b;
        case Right => right := b;
        case Up => up := b;
        case Down => down := b;
      }
    }
  }

  // ----- Monster -----

  /** Of the neighbours of a cell walled on three sides, at most one is
      not a Wall. */
  lemma DeadEndOpenings(g: Matrix, w: int, h: int, c: Cell, a: set<Cell>)
    requires Shaped(g, w, h) && DeadEnd(g, w, h, c)
    requires forall n :: n in a ==> Adjacent(c, n) && Within(n, w, h) && At(g, n) != Wall
    ensures |a| <= 1
  {
    var e, west, s, n := Cell(c.x + 1, c.y), Cell(c.x - 1, c.y), Cell(c.x, c.y + 1), Cell(c.x, c.y - 1);
    var open := if At(g, e) != Wall then e else if At(g, west) != Wall then west else if At(g, s) != Wall then s else n;
    forall q | q in a ensures q == open {
      assert q == e || q == west || q == s || q == n;
    }
    if open in a {
      assert a == {open};
    } else {
      assert a == {};
    }
  }


  /** The throttle of `move_monster`: the counter goes up by one and
      wraps from 31 to 0. */
  function Throttle(c: int): (c': int)
    ensures 0 <= c <= 30 ==> 0 <= c' <= 30 && c' == (c + 1) % 31
  {
    if c + 1 > 30 then 0 else c + 1
  }

  /** The counter after `n` calls while playing, from a fresh monster. */
  function Ticks(n: nat): int {
    if n == 0 then 0 else Throttle(Ticks(n - 1))
  }

  /** The counter after `n` calls is `n` modulo 31. */
  lemma {:induction false} TicksMod(n: nat)
    ensures Ticks(n) == n % 31
  {
    if n > 0 {
      TicksMod(n - 1);
    }
  }

  /** A fresh monster moves on calls 30, 61, 92, ...: the counter hits 30
      exactly on the calls one short of a multiple of 31. */
  lemma MovesOn(n: nat)
    ensures Ticks(n) == 30 <==> n % 31 == 30
  {
    TicksMod(n);
  }

  /** `overlapped` after `__process_overlapped`: only the entry of the
      cell the monster stands on, if there is one, is kept. */
  function Kept(ov: map<Cell, Mark>, keep: Cell): (r: map<Cell, Mark>)
    ensures forall c :: c in r <==> c in ov && c == keep
    ensures forall c :: c in r ==> r[c] == ov[c]
  {
    if keep in ov then map[keep := ov[keep]] else map[]
  }

  /** The grid after `__process_overlapped`: every overlapped cell other
      than `keep` has its remembered mark back, nothing else changes. */
  function Restored(g: Matrix, w: int, h: int, ov: map<Cell, Mark>, keep: Cell): (g': Matrix)
    requires Shaped(g, w, h)
    ensures Shaped(g', w, h)
    ensures forall c :: Within(c, w, h) ==> At(g', c) == if c in ov && c != keep then ov[c] else At(g, c)
  {
    seq(h, y requires 0 <= y < h =>
      seq(|g[y]|, x requires 0 <= x < |g[y]| =>
        if Cell(x, y) in ov && Cell(x, y) != keep then ov[Cell(x, y)] else g[y][x]))
  }

  /** Loop invariant of `__process_overlapped`: the cells already handled
      (those of `ov0` no longer in `keys`, except `keep`) have their marks
      back and are forgotten; every other cell is as in `g0`. */
  ghost predicate Restoring(g0: Matrix, g: Matrix, w: int, h: int, ov0: map<Cell, Mark>,
                            ov: map<Cell, Mark>, keys: set<Cell>, keep: Cell)
  {
    && Shaped(g0, w, h) && Shaped(g, w, h) && keys <= ov0.Keys
    && (forall c :: c in ov <==> c in ov0 && (c in keys || c == keep))
    && (forall c :: c in ov ==> ov[c] == ov0[c])
    && (forall c :: Within(c, w, h) ==> At(g, c) == if c in ov0 && c != keep && c !in keys then ov0[c] else At(g0, c))
  }

  lemma RestoreStart(g0: Matrix, w: int, h: int, ov0: map<Cell, Mark>, keep: Cell)
    requires Shaped(g0, w, h)
    ensures Restoring(g0, g0, w, h, ov0, ov0, ov0.Keys, keep)
  {
  }

  lemma RestoreStep(g0: Matrix, g: Matrix, w: int, h: int, ov0: map<Cell, Mark>,
                    ov: map<Cell, Mark>, keys: set<Cell>, keep: Cell, cell: Cell)
    requires Restoring(g0, g, w, h, ov0, ov, keys, keep) && cell in keys && cell != keep
    requires Within(cell, w, h)
    ensures cell in ov && Has(g, cell)
    ensures Restoring(g0, Put(g, cell, ov[cell]), w, h, ov0, ov - {cell}, keys - {cell}, keep)
  {
    var g' := Put(g, cell, ov[cell]);
    forall c | Within(c, w, h)
      ensures At(g', c) == if c in ov0 && c != keep && c !in keys - {cell} then ov0[c] else At(g0, c)
    {
      if c != cell {
        assert Has(g, c);
      }
    }
  }

  lemma RestoreDone(g0: Matrix, g: Matrix, w: int, h: int, ov0: map<Cell, Mark>, ov: map<Cell, Mark>, keep: Cell)
    requires Restoring(g0, g, w, h, ov0, ov, {}, keep)
    ensures ov == Kept(ov0, keep) && g == Restored(g0, w, h, ov0, keep)
  {
    SameMatrix(g, Restored(g0, w, h, ov0, keep), w, h);
  }

  /** Every cell of `s` is an inner cell. */
  predicate Inner(s: set<Cell>, w: int, h: int) {
    forall c :: c in s ==> Interior(c, w, h)
  }

  class Monster {
    const maze: Maze
    var x: int
    var y: int
    var cycles: int
    /** Cells found to be closed ends. */
    var closed: set<Cell>
    /** Cells passed through that were not closed ends. */
    var visited: set<Cell>
    var status: Status
    /** Coins and doors the monster stands on or stood on, by cell. */
    var overlapped: map<Cell, Mark>

    /** The monster and every cell it remembers are inner cells of a sound
        maze, and the throttle counter is in 0..30. */
    ghost predicate Valid()
      reads this, maze
    {
      Sound(maze) && Memo()
    }

    /** The fields of the monster itself agree with the maze's size. */
    ghost predicate Memo()
      reads this
    {
      && Interior(Cell(x, y), maze.width, maze.height) && 0 <= cycles <= 30
      && Inner(overlapped.Keys, maze.width, maze.height)
      && Inner(closed, maze.width, maze.height) && Inner(visited, maze.width, maze.height)
    }

    /** `Monster(maze, cell)`: nothing remembered, playing. */
    constructor (maze: Maze, cell: Cell)
      requires Sound(maze) && Interior(cell, maze.width, maze.height)
      ensures this.maze == maze && Valid()
      ensures Cell(x, y) == cell && cycles == 0 && closed == {} && visited == {}
      ensures status == Playing && overlapped == map[]
    {
      this.maze := maze;
      x, y := cell.x, cell.y;
      cycles := 0;
      closed, visited := {}, {};
      status := Playing;
      overlapped := map[];
    }

    /** `__get_available_paths`: the neighbours of `c` that hold neither
        Wall nor Monster and are not known closed ends. */
    function AvailablePaths(c: Cell): (r: set<Cell>)
      reads this`closed, maze
      requires maze.Valid() && Interior(c, maze.width, maze.height)
      ensures forall n :: n in r <==>
        Adjacent(c, n) && At(maze.grid, n) != Wall && At(maze.grid, n) != Monster && n !in closed
    {
      var nearest := maze.GetNearest(c).value;
      (set n | n in nearest && maze.GetMark(n) != Wall && maze.GetMark(n) != Monster) - closed
    }

    /** `__is_closed_end`: a dead end or at most one available path. A
        dead end has at most one path anyway, so the first test adds nothing. */
    function IsClosedEnd(c: Cell): (r: bool)
      reads this`closed, maze
      requires maze.Valid() && Interior(c, maze.width, maze.height)
      ensures r <==> DeadEnd(maze.grid, maze.width, maze.height, c) || |AvailablePaths(c)| <= 1
      ensures r <==> |AvailablePaths(c)| <= 1
    {
      if maze.IsDeadEnd(c).value then
        DeadEndPaths(c);
        true
      else |AvailablePaths(c)| <= 1
    }

    /** A cell walled on three sides has at most one available path. */
    lemma DeadEndPaths(c: Cell)
      requires maze.Valid() && Interior(c, maze.width, maze.height)
      requires DeadEnd(maze.grid, maze.width, maze.height, c)
      ensures |AvailablePaths(c)| <= 1
    {
      DeadEndOpenings(maze.grid, maze.width, maze.height, c, AvailablePaths(c));
    }

    /** `__track`: at a closed end the monster remembers it and takes the
        path left, if any, or forgets everything and stays; elsewhere it
        remembers the cell as visited and takes an available path, one it
        has not visited when there is one, else forgetting the visits. */
    method Track(c: Cell) returns (next: Cell)
      requires maze.Valid() && Memo() && Interior(c, maze.width, maze.height)
      modifies this`closed, this`visited
      ensures Memo()
      ensures next == c <==> old(AvailablePaths(c)) == {}
      ensures next != c ==> next in old(AvailablePaths(c))
      ensures old(IsClosedEnd(c)) ==>
        if old(AvailablePaths(c)) == {} then closed == {} && visited == {}
        else closed == old(closed) + {c} && visited == old(visited)
      ensures !old(IsClosedEnd(c)) ==> closed == old(closed)
      ensures !old(IsClosedEnd(c)) && old(AvailablePaths(c)) - old(visited) != {} ==>
        next !in old(visited) && visited == old(visited) + {c}
      ensures !old(IsClosedEnd(c)) && old(AvailablePaths(c)) - old(visited) == {} ==> visited == {}
    {
      if IsClosedEnd(c) {
        next := LeaveClosedEnd(c);
      } else {
        next := PassThrough(c);
      }
    }

    /** The closed-end branch of `__track`. */
    method LeaveClosedEnd(c: Cell) returns (next: Cell)
      requires maze.Valid() && Memo() && Interior(c, maze.width, maze.height) && IsClosedEnd(c)
      modifies this`closed, this`visited
      ensures Memo()
      ensures next == c <==> old(AvailablePaths(c)) == {}
      ensures next != c ==> next in old(AvailablePaths(c))
      ensures old(AvailablePaths(c)) == {} ==> closed == {} && visited == {}
      ensures old(AvailablePaths(c)) != {} ==> closed == old(closed) + {c} && visited == old(visited)
    {
      ghost var a := AvailablePaths(c);
      closed := closed + {c};
      assert Memo();
      var availablePaths := AvailablePaths(c);
      assert availablePaths == a;
      if availablePaths == {} {
        closed, visited := {}, {};
        next := c;
      } else {
        next :| next in availablePaths;
      }
    }

    /** The other branch of `__track`. */
    method PassThrough(c: Cell) returns (next: Cell)
      requires maze.Valid() && Memo() && Interior(c, maze.width, maze.height) && !IsClosedEnd(c)
      modifies this`visited
      ensures Memo()
      ensures next != c && next in old(AvailablePaths(c))
      ensures old(AvailablePaths(c)) - old(visited) != {} ==> next !in old(visited) && visited == old(visited) + {c}
      ensures old(AvailablePaths(c)) - old(visited) == {} ==> visited == {}
    {
      ghost var a := AvailablePaths(c);
      visited := visited + {c};
      assert Memo();
      var paths := AvailablePaths(c);
      assert paths == a && c !in paths;
      // Not a closed end, so two paths at least: the refill of line 253 never runs.
      assert |paths| >= 2;
      next := PickPath(paths);
    }

    /** The end of `__track`: a path not visited yet if there is one, else
        any path, forgetting the visits. */
    method PickPath(paths: set<Cell>) returns (next: Cell)
      requires Memo() && paths != {}
      modifies this`visited
      ensures Memo() && next in paths
      ensures paths - old(visited) != {} ==> next !in old(visited) && visited == old(visited)
      ensures paths - old(visited) == {} ==> visited == {}
    {
      var unvisited := paths - visited;
      if unvisited != {} {
        next :| next in unvisited;
      } else {
        visited := {};
        next :| next in paths;
      }
    }

    /** `__process_overlapped`: every remembered cell other than the
        monster's own gets its mark back and is forgotten. */
    method ProcessOverlapped()
      requires Valid()
      modifies this`overlapped, maze`grid
      ensures Valid()
      ensures overlapped == Kept(old(overlapped), Cell(x, y))
      ensures maze.grid == Restored(old(maze.grid), maze.width, maze.height, old(overlapped), Cell(x, y))
    {
      ghost var g0, ov0 := maze.grid, overlapped;
      var keys := overlapped.Keys;
      RestoreStart(g0, maze.width, maze.height, ov0, Cell(x, y));
      while keys != {}
        invariant Valid()
        invariant Restoring(g0, maze.grid, maze.width, maze.height, ov0, overlapped, keys, Cell(x, y))
        decreases keys
      {
        var cell :| cell in keys;
        if cell != Cell(x, y) {
          RestoreStep(g0, maze.grid, maze.width, maze.height, ov0, overlapped, keys, Cell(x, y), cell);
          RingAfterPut(maze.grid, maze.width, maze.height, cell, overlapped[cell]);
          maze.MarkCell(cell, overlapped[cell]);
          overlapped := overlapped - {cell};
        }
        keys := keys - {cell};
      }
      RestoreDone(g0, maze.grid, maze.width, maze.height, ov0, overlapped, Cell(x, y));
    }

    /** `__remember_overlapped`. */
    method RememberOverlapped(mark: Mark, cell: Cell)
      requires Valid() && Interior(cell, maze.width, maze.height)
      modifies this`overlapped
      ensures Memo() && overlapped == old(overlapped)[cell := mark]
    {
      overlapped := overlapped[cell := mark];
    }

    /** Where one round of tracking is bound to end the search: the
        monster's cell and its neighbours hold neither Wall nor Unvisited
        (its own cell) and no Unvisited (the neighbours). */
    ghost predicate Settled()
      reads this, maze
      requires maze.Valid() && Memo()
    {
      && At(maze.grid, Cell(x, y)) != Wall && At(maze.grid, Cell(x, y)) != Unvisited
      && forall n :: Adjacent(Cell(x, y), n) ==> At(maze.grid, n) != Unvisited
    }

    /** One round of the `while True` of `move_monster`: `__track` from
        the monster's cell, then the mark of the cell it picked. */
    method Round() returns (target: Cell, mark: Mark)
      requires maze.Valid() && Memo()
      modifies this`closed, this`visited
      ensures Memo()
      ensures Within(target, maze.width, maze.height) && mark == At(maze.grid, target)
      ensures target == Cell(x, y) || (Adjacent(Cell(x, y), target) && mark != Wall && mark != Monster)
      ensures closed <= old(closed) + {Cell(x, y)} && visited <= old(visited) + {Cell(x, y)}
    {
      target := Track(Cell(x, y));
      mark := maze.GetMark(target);
    }

    /** The `while True` of `move_monster`: track again until the target
        holds Robot, Monster, Coin, Door or Path, for at most `fuel` rounds. */
    method Seek(fuel: nat) returns (found: bool, target: Cell, mark: Mark)
      requires maze.Valid() && Memo()
      modifies this`closed, this`visited
      ensures Memo()
      ensures found ==> Within(target, maze.width, maze.height) && mark == At(maze.grid, target)
      ensures found ==> target == Cell(x, y) || Adjacent(Cell(x, y), target)
      ensures found ==> mark == Robot || mark == Monster || mark == Coin || mark == Door || mark == Path
      ensures found && target != Cell(x, y) ==> mark != Monster
      ensures closed <= old(closed) + {Cell(x, y)} && visited <= old(visited) + {Cell(x, y)}
      ensures fuel >= 1 && Settled() ==> found
    {
      found, target, mark := false, Cell(x, y), Wall;
      var rounds := 0;
      while !found && rounds < fuel
        invariant maze.Valid() && Memo() && 0 <= rounds <= fuel
        invariant found ==> Within(target, maze.width, maze.height) && mark == At(maze.grid, target)
        invariant found ==> target == Cell(x, y) || Adjacent(Cell(x, y), target)
        invariant found ==> mark == Robot || mark == Monster || mark == Coin || mark == Door || mark == Path
        invariant found && target != Cell(x, y) ==> mark != Monster
        invariant closed <= old(closed) + {Cell(x, y)} && visited <= old(visited) + {Cell(x, y)}
        invariant rounds >= 1 && Settled() ==> found
        decreases fuel - rounds
      {
        target, mark := Round();
        if mark == Robot || mark == Monster || mark == Coin || mark == Door || mark == Path {
          found := true;
        }
        rounds := rounds + 1;
      }
    }

    /** `move_monster`, with the search loop bounded by `fuel` rounds;
        `outcome` is the target the search settled on and its mark. */
    method MoveMonster(fuel: nat) returns (ghost outcome: Option<(Cell, Mark)>)
      requires Valid()
      modifies this, maze`grid
      ensures Valid()
      ensures old(status) != Playing ==> unchanged(this) && maze.grid == old(maze.grid) && outcome.None?
      ensures old(status) == Playing ==> cycles == Throttle(old(cycles))
      ensures outcome.Some? ==> old(status) == Playing && cycles == 30
      ensures outcome.None? ==>
        Cell(x, y) == old(Cell(x, y)) && status == old(status) && overlapped == old(overlapped) && maze.grid == old(maze.grid)
      ensures outcome.Some? ==>
        var (t, m) := outcome.value;
        && Within(t, maze.width, maze.height) && m == At(old(maze.grid), t) && (t == old(Cell(x, y)) || Adjacent(old(Cell(x, y)), t))
        && (m == Robot || m == Monster || m == Coin || m == Door || m == Path)
      ensures outcome.Some? && (outcome.value.1 == Robot || outcome.value.1 == Monster) ==>
        && status == (if outcome.value.1 == Robot then GameOver else old(status))
        && Cell(x, y) == old(Cell(x, y)) && overlapped == old(overlapped) && maze.grid == old(maze.grid)
      ensures outcome.Some? && outcome.value.1 != Robot && outcome.value.1 != Monster ==>
        var (t, m) := outcome.value;
        var ov := if m == Path then old(overlapped) else old(overlapped)[t := m];
        && Within(t, maze.width, maze.height) && Cell(x, y) == t && status == old(status) && overlapped == Kept(ov, t)
        && maze.grid == Restored(Put(Put(old(maze.grid), old(Cell(x, y)), Path), t, Monster), maze.width, maze.height, ov, t)
      ensures closed <= old(closed) + {old(Cell(x, y))} && visited <= old(visited) + {old(Cell(x, y))}
      ensures old(status) == Playing && cycles != 30 ==> closed == old(closed) && visited == old(visited)
      ensures old(status) == Playing && cycles == 30 && fuel >= 1 && old(Settled()) ==> outcome.Some?
    {
      if status == GameOver || status == Passed {
        return None;
      }
      cycles := cycles + 1;
      if cycles > 30 {
        cycles := 0;
      }
      if cycles < 30 {
        return None;
      }
      var found, target, mark := Seek(fuel);
      if !found {
        return None;
      }
      outcome := Some((target, mark));
      if mark == Robot {
        status := GameOver;
        return;
      }
      if mark == Monster {
        return;
      }
      Advance(target, mark);
    }

    /** The end of `move_monster`: a coin or door under the target is
        remembered, the monster leaves a Path behind and stands on the
        target, and the overlapped cells it has left are restored. */
    method Advance(target: Cell, mark: Mark)
      requires Valid() && (target == Cell(x, y) || Adjacent(Cell(x, y), target))
      requires mark == At(maze.grid, target) && (mark == Coin || mark == Door || mark == Path)
      modifies this`overlapped, this`x, this`y, maze`grid
      ensures Valid()
      ensures Within(target, maze.width, maze.height) && Cell(x, y) == target
      ensures
        var ov := if mark == Path then old(overlapped) else old(overlapped)[target := mark];
        && overlapped == Kept(ov, target)
        && maze.grid == Restored(Put(Put(old(maze.grid), old(Cell(x, y)), Path), target, Monster), maze.width, maze.height, ov, target)
    {
      assert Interior(target, maze.width, maze.height);
      if mark == Coin || mark == Door {
        RememberOverlapped(mark, target);
      }
      RingAfterPut(maze.grid, maze.width, maze.height, Cell(x, y), Path);
      maze.MarkCell(Cell(x, y), Path);
      RingAfterPut(maze.grid, maze.width, maze.height, target, Monster);
      maze.MarkCell(target, Monster);
      x, y := target.x, target.y;
      ProcessOverlapped();
    }
  }
}
