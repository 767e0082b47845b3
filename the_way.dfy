/** The game itself (the_way.py): what it places in a new maze, the hidden
    exit doors, the shared game status of the robot and the monsters, and
    the order of one frame of the main loop. */
module TheWay {
  import opened Wrappers
  import opened Grid
  import opened MazeGrid
  import opened MovingObjects
  import opened LevelSequence

  /** Why a new game cannot be laid out: the maze constructor refused the
      size, or a mark was to be placed on a cell that does not exist (the
      ValueError `mark_cell(None, ...)` raises), or the level iterator
      was exhausted (StopIteration). */
  datatype GameError = MazeFailed(cause: MazeError) | NoCell | NoMoreLevels

  /** The keys the game tells apart. */
  datatype Key = MoveKey(d: Dir) | BreakKey | RestartKey | NextKey | EscapeKey | OtherKey

  /** A pygame event, as far as the game looks at it. */
  datatype Event = KeyDown(key: Key) | KeyUp(key: Key) | OtherEvent

  /** What `Robot.process_event` makes of an event: the direction keys set
      and clear their flag, the break key breaks a wall on key-down. */
  function RobotAction(e: Event): (a: Action)
    ensures a.Press? <==> e.KeyDown? && e.key.MoveKey?
    ensures a.Release? <==> e.KeyUp? && e.key.MoveKey?
    ensures a.PressBreak? <==> e == KeyDown(BreakKey)
    ensures (a.Press? || a.Release?) ==> a.d == e.key.d
  {
    match e
    case KeyDown(MoveKey(d)) => Press(d)
    case KeyDown(BreakKey) => PressBreak
    case KeyUp(MoveKey(d)) => Release(d)
    case _ => Idle
  }

  // ----- new_maze -----

  /** How many times `for _ in range(n)` runs. */
  function Count(n: int): (k: nat)
    ensures n >= 0 ==> k == n
    ensures n < 0 ==> k == 0
  {
    if n >= 0 then n else 0
  }

  /** The cells `new_maze` takes: the start and finish cells and every extra
      robot, door, monster and coin. */
  function Needed(robots: int, doors: int, monsters: int, coins: int): nat {
    2 + Count(robots - 1) + Count(doors - 1) + Count(monsters) + Count(coins)
  }

  /** The extra cells `new_maze` marked at random, kind by kind. */
  datatype Placement = Placement(robots: seq<Cell>, doors: seq<Cell>, monsters: seq<Cell>, coins: seq<Cell>)

  /** The mark a cell ends with once the start, the finish and the extra
      cells of `p` are placed on `g0` in the order of `new_maze`: a later
      placement covers an earlier one, and a cell nothing was placed on
      keeps its mark. */
  function LaidMark(g0: Matrix, start: Cell, finish: Option<Cell>, p: Placement, c: Cell): Mark
    requires Has(g0, c)
  {
    if c in p.coins then Coin
    else if c in p.monsters then Monster
    else if c in p.doors || finish == Some(c) then Door
    else if c in p.robots || c == start then Robot
    else At(g0, c)
  }

  /** `cells` lie on the grid, none twice, and each held Path in `g0`. */
  ghost predicate FreshPaths(g0: Matrix, w: int, h: int, cells: seq<Cell>)
    requires Shaped(g0, w, h)
  {
    Distinct(cells) && forall c :: c in cells ==> Within(c, w, h) && At(g0, c) == Path
  }

  /** `g` is `g0` with the placements so far, every extra cell was a Path
      cell of `g0`, and no extra cell is one an earlier placement took. */
  ghost predicate LaidOut(g0: Matrix, g: Matrix, w: int, h: int, start: Cell, finish: Option<Cell>, p: Placement)
    requires Shaped(g0, w, h) && Shaped(g, w, h)
  {
    && Within(start, w, h) && (finish.Some? ==> Within(finish.value, w, h))
    && (forall c :: Within(c, w, h) ==> At(g, c) == LaidMark(g0, start, finish, p, c))
    && FreshPaths(g0, w, h, p.robots) && FreshPaths(g0, w, h, p.doors)
    && FreshPaths(g0, w, h, p.monsters) && FreshPaths(g0, w, h, p.coins)
    && (forall c :: c in p.robots ==> c != start)
    && (forall c :: c in p.doors ==> c != start && finish != Some(c) && c !in p.robots)
    && (forall c :: c in p.monsters ==> c != start && finish != Some(c) && c !in p.robots && c !in p.doors)
    && (forall c :: c in p.coins ==> c != start && finish != Some(c) && c !in p.robots && c !in p.doors && c !in p.monsters)
  }

  /** `g` is `g0` with mark `m` on `cells`, each of them a Path cell of
      `g0` taken once: what a run of random placements leaves. */
  ghost predicate Covered(g0: Matrix, g: Matrix, w: int, h: int, cells: seq<Cell>, m: Mark)
    requires Shaped(g0, w, h) && Shaped(g, w, h)
  {
    FreshPaths(g0, w, h, cells) && forall c :: Within(c, w, h) ==> At(g, c) == if c in cells then m else At(g0, c)
  }

  /** A cell that still holds Path was taken by no placement and held Path
      from the start. */
  lemma PathFree(g0: Matrix, g: Matrix, w: int, h: int, start: Cell, finish: Option<Cell>, p: Placement, c: Cell)
    requires Shaped(g0, w, h) && Shaped(g, w, h) && LaidOut(g0, g, w, h, start, finish, p)
    requires Within(c, w, h) && At(g, c) == Path
    ensures c !in p.robots && c !in p.doors && c !in p.monsters && c !in p.coins
    ensures c != start && finish != Some(c) && At(g0, c) == Path
  {
    assert At(g, c) == LaidMark(g0, start, finish, p, c);
  }

  /** A mark on an inner cell of a grid whose ring is Wall: an inner cell is
      one that does not hold Wall. */
  lemma OffRing(g: Matrix, w: int, h: int, c: Cell)
    requires Shaped(g, w, h) && RingIsWall(g, w, h) && Within(c, w, h) && At(g, c) != Wall
    ensures Interior(c, w, h)
  {
  }

  /** The start gets the first robot. */
  lemma LayStart(g0: Matrix, w: int, h: int, start: Cell)
    requires Shaped(g0, w, h) && Within(start, w, h)
    ensures Shaped(Put(g0, start, Robot), w, h)
    ensures LaidOut(g0, Put(g0, start, Robot), w, h, start, None, Placement([], [], [], []))
  {
    PutShape(g0, start, Robot, w, h);
  }

  lemma LayRobots(g0: Matrix, g: Matrix, g': Matrix, w: int, h: int, start: Cell, cells: seq<Cell>)
    requires Shaped(g0, w, h) && Shaped(g, w, h) && Shaped(g', w, h)
    requires LaidOut(g0, g, w, h, start, None, Placement([], [], [], [])) && Covered(g, g', w, h, cells, Robot)
    ensures LaidOut(g0, g', w, h, start, None, Placement(cells, [], [], []))
  {
    forall c | c in cells ensures c != start && At(g0, c) == Path {
      PathFree(g0, g, w, h, start, None, Placement([], [], [], []), c);
    }
  }

  /** The finish gets the first door, over whatever was placed there. */
  lemma LayFinish(g0: Matrix, g: Matrix, w: int, h: int, start: Cell, finish: Cell, rs: seq<Cell>)
    requires Shaped(g0, w, h) && Shaped(g, w, h) && Within(finish, w, h)
    requires LaidOut(g0, g, w, h, start, None, Placement(rs, [], [], []))
    ensures Shaped(Put(g, finish, Door), w, h)
    ensures LaidOut(g0, Put(g, finish, Door), w, h, start, Some(finish), Placement(rs, [], [], []))
  {
    PutShape(g, finish, Door, w, h);
  }

  lemma LayDoors(g0: Matrix, g: Matrix, g': Matrix, w: int, h: int, start: Cell, finish: Cell, rs: seq<Cell>,
                 cells: seq<Cell>)
    requires Shaped(g0, w, h) && Shaped(g, w, h) && Shaped(g', w, h)
    requires LaidOut(g0, g, w, h, start, Some(finish), Placement(rs, [], [], [])) && Covered(g, g', w, h, cells, Door)
    ensures LaidOut(g0, g', w, h, start, Some(finish), Placement(rs, cells, [], []))
  {
    forall c | c in cells ensures c != start && c != finish && c !in rs && At(g0, c) == Path {
      PathFree(g0, g, w, h, start, Some(finish), Placement(rs, [], [], []), c);
    }
  }

  lemma LayMonsters(g0: Matrix, g: Matrix, g': Matrix, w: int, h: int, start: Cell, finish: Cell, rs: seq<Cell>,
                    ds: seq<Cell>, cells: seq<Cell>)
    requires Shaped(g0, w, h) && Shaped(g, w, h) && Shaped(g', w, h)
    requires LaidOut(g0, g, w, h, start, Some(finish), Placement(rs, ds, [], [])) && Covered(g, g', w, h, cells, Monster)
    ensures LaidOut(g0, g', w, h, start, Some(finish), Placement(rs, ds, cells, []))
  {
    forall c | c in cells ensures c != start && c != finish && c !in rs && c !in ds && At(g0, c) == Path {
      PathFree(g0, g, w, h, start, Some(finish), Placement(rs, ds, [], []), c);
    }
  }

  lemma LayCoins(g0: Matrix, g: Matrix, g': Matrix, w: int, h: int, start: Cell, finish: Cell, rs: seq<Cell>,
                 ds: seq<Cell>, ms: seq<Cell>, cells: seq<Cell>)
    requires Shaped(g0, w, h) && Shaped(g, w, h) && Shaped(g', w, h)
    requires LaidOut(g0, g, w, h, start, Some(finish), Placement(rs, ds, ms, [])) && Covered(g, g', w, h, cells, Coin)
    ensures LaidOut(g0, g', w, h, start, Some(finish), Placement(rs, ds, ms, cells))
  {
    forall c | c in cells ensures c != start && c != finish && c !in rs && c !in ds && c !in ms && At(g0, c) == Path {
      PathFree(g0, g, w, h, start, Some(finish), Placement(rs, ds, ms, []), c);
    }
  }

  /** What a finished layout holds, mark by mark, on a carved maze of Wall
      and Path: the finish and the extra doors are the Door cells, the
      extra monsters the Monster cells, the extra coins the Coin cells, and
      the start holds Robot unless the finish lies on it. */
  lemma LaidOutMarks(g0: Matrix, g: Matrix, w: int, h: int, start: Cell, finish: Cell, p: Placement)
    requires Shaped(g0, w, h) && Shaped(g, w, h) && LaidOut(g0, g, w, h, start, Some(finish), p)
    requires forall c :: Within(c, w, h) ==> At(g0, c) == Wall || At(g0, c) == Path
    ensures At(g, finish) == Door && (start != finish ==> At(g, start) == Robot)
    ensures forall c :: Within(c, w, h) ==> (At(g, c) == Door <==> c == finish || c in p.doors)
    ensures forall c :: Within(c, w, h) ==> (At(g, c) == Monster <==> c in p.monsters)
    ensures forall c :: Within(c, w, h) ==> (At(g, c) == Coin <==> c in p.coins)
    ensures forall c :: Within(c, w, h) ==> (At(g, c) == Robot <==> (c == start || c in p.robots) && c != finish)
    ensures forall c :: Within(c, w, h) && At(g, c) != At(g0, c) ==>
      c == start || c == finish || c in p.robots || c in p.doors || c in p.monsters || c in p.coins
  {
    forall c | Within(c, w, h) ensures At(g, c) == LaidMark(g0, start, Some(finish), p, c) { }
  }

  /** One more random placement keeps the covered relation. */
  lemma CoverStep(g0: Matrix, g: Matrix, w: int, h: int, cells: seq<Cell>, m: Mark, c: Cell)
    requires Shaped(g0, w, h) && Shaped(g, w, h) && Covered(g0, g, w, h, cells, m) && m != Path
    requires Within(c, w, h) && At(g, c) == Path
    ensures Shaped(Put(g, c, m), w, h) && Covered(g0, Put(g, c, m), w, h, cells + [c], m)
    ensures |Marked(Put(g, c, m), Path)| == |Marked(g, Path)| - 1
  {
    PutShape(g, c, m, w, h);
    assert c !in cells;
    MarkedAfterPut(g, c, m, Path);
    MinusOneCard(Marked(g, Path), c);
  }

  /** Overwriting one cell with a mark other than Path takes at most one
      Path cell away. */
  lemma PathsAfterPut(g: Matrix, c: Cell, m: Mark)
    requires Has(g, c) && m != Path
    ensures |Marked(Put(g, c, m), Path)| >= |Marked(g, Path)| - 1
    ensures At(g, c) == Path ==> |Marked(Put(g, c, m), Path)| == |Marked(g, Path)| - 1
  {
    MarkedAfterPut(g, c, m, Path);
    MinusOneCard(Marked(g, Path), c);
  }

  /** `for _ in range(count): maze.mark_cell(maze.pick_random_cell(path), m)`:
      `count` random Path cells get mark `m`. It fails, where the source
      passes None to `mark_cell`, exactly when the maze has fewer Path cells
      than that. */
  method PlaceRandomly(maze: Maze, m: Mark, count: int) returns (ok: bool, ghost cells: seq<Cell>)
    requires Sound(maze) && m != Path && m != Wall
    modifies maze`grid, maze`cursor
    ensures Sound(maze)
    ensures Covered(old(maze.grid), maze.grid, maze.width, maze.height, cells, m)
    ensures ok <==> Count(count) <= |Marked(old(maze.grid), Path)|
    ensures ok ==> |cells| == Count(count)
    ensures ok ==> |Marked(maze.grid, Path)| == |Marked(old(maze.grid), Path)| - Count(count)
  {
    ghost var g0 := maze.grid;
    cells := [];
    var i := 0;
    while i < count
      invariant Sound(maze) && Shaped(maze.grid, maze.width, maze.height)
      invariant 0 <= i <= Count(count) && |cells| == i
      invariant Covered(g0, maze.grid, maze.width, maze.height, cells, m)
      invariant |Marked(maze.grid, Path)| + i == |Marked(g0, Path)|
    {
      var c := maze.PickRandomCell(Path);
      if c.None? {
        return false, cells;
      }
      var cell := c.value;
      OffRing(maze.grid, maze.width, maze.height, cell);
      CoverStep(g0, maze.grid, maze.width, maze.height, cells, m, cell);
      RingAfterPut(maze.grid, maze.width, maze.height, cell, m);
      maze.MarkCell(cell, m);
      cells := cells + [cell];
      i := i + 1;
    }
    return true, cells;
  }

  /** Marks the start cell, the extra robots, the finish cell, the extra
      doors, the monsters and the coins in this order. It fails when the
      maze has no finish cell or runs out of Path cells. */
  method Populate(maze: Maze, robots: int, doors: int, monsters: int, coins: int) returns (ok: bool, ghost p: Placement)
    requires Sound(maze) && maze.startCell.Some? && IsRoom(maze.startCell.value, maze.width, maze.height)
    requires At(maze.grid, maze.startCell.value) == Path
    requires maze.finishCell.Some? ==> IsRoom(maze.finishCell.value, maze.width, maze.height)
    modifies maze`grid, maze`cursor
    ensures Sound(maze)
    ensures ok ==> maze.finishCell.Some?
    ensures ok ==> LaidOut(old(maze.grid), maze.grid, maze.width, maze.height, maze.startCell.value, maze.finishCell, p)
    ensures ok ==> |p.robots| == Count(robots - 1) && |p.doors| == Count(doors - 1)
    ensures ok ==> |p.monsters| == Count(monsters) && |p.coins| == Count(coins)
    ensures !ok ==> maze.finishCell.None? || |Marked(old(maze.grid), Path)| < Needed(robots, doors, monsters, coins)
  {
    ghost var g0 := maze.grid;
    ghost var rs, ds, ms, cs: seq<Cell>;
    p := Placement([], [], [], []);
    ok, rs := PlaceRobots(maze, robots);
    if !ok {
      return;
    }
    if maze.finishCell.None? {
      return false, p;
    }
    ok, ds := PlaceDoors(maze, doors, g0, rs);
    if !ok {
      return;
    }
    ok, ms, cs := PlaceMonstersAndCoins(maze, monsters, coins, g0, rs, ds);
    p := Placement(rs, ds, ms, cs);
  }

  /** The start cell gets a robot, then `robots - 1` random Path cells do. */
  method PlaceRobots(maze: Maze, robots: int) returns (ok: bool, ghost rs: seq<Cell>)
    requires Sound(maze) && maze.startCell.Some? && IsRoom(maze.startCell.value, maze.width, maze.height)
    requires At(maze.grid, maze.startCell.value) == Path
    modifies maze`grid, maze`cursor
    ensures Sound(maze)
    ensures ok ==> LaidOut(old(maze.grid), maze.grid, maze.width, maze.height, maze.startCell.value, None, Placement(rs, [], [], []))
    ensures ok ==> |rs| == Count(robots - 1)
    ensures ok ==> |Marked(maze.grid, Path)| == |Marked(old(maze.grid), Path)| - 1 - Count(robots - 1)
    ensures !ok ==> |Marked(old(maze.grid), Path)| < 1 + Count(robots - 1)
  {
    ghost var g0 := maze.grid;
    ghost var w, h := maze.width, maze.height;
    var start := maze.startCell.value;
    LayStart(g0, w, h, start);
    PathsAfterPut(g0, start, Robot);
    RingAfterPut(g0, w, h, start, Robot);
    maze.MarkCell(start, Robot);
    ghost var g := maze.grid;
    ok, rs := PlaceRandomly(maze, Robot, robots - 1);
    if ok {
      LayRobots(g0, g, maze.grid, w, h, start, rs);
    }
  }

  /** The finish cell gets a door, then `doors - 1` random Path cells do. */
  method PlaceDoors(maze: Maze, doors: int, ghost g0: Matrix, ghost rs: seq<Cell>) returns (ok: bool, ghost ds: seq<Cell>)
    requires Sound(maze) && maze.startCell.Some? && maze.finishCell.Some?
    requires IsRoom(maze.finishCell.value, maze.width, maze.height) && Shaped(g0, maze.width, maze.height)
    requires LaidOut(g0, maze.grid, maze.width, maze.height, maze.startCell.value, None, Placement(rs, [], [], []))
    modifies maze`grid, maze`cursor
    ensures Sound(maze)
    ensures ok ==> LaidOut(g0, maze.grid, maze.width, maze.height, maze.startCell.value, maze.finishCell, Placement(rs, ds, [], []))
    ensures ok ==> |ds| == Count(doors - 1)
    ensures ok ==> |Marked(maze.grid, Path)| >= |Marked(old(maze.grid), Path)| - 1 - Count(doors - 1)
    ensures !ok ==> |Marked(old(maze.grid), Path)| < 1 + Count(doors - 1)
  {
    ghost var w, h := maze.width, maze.height;
    var start, finish := maze.startCell.value, maze.finishCell.value;
    ghost var g := maze.grid;
    LayFinish(g0, g, w, h, start, finish, rs);
    PathsAfterPut(g, finish, Door);
    RingAfterPut(g, w, h, finish, Door);
    maze.MarkCell(finish, Door);
    g := maze.grid;
    ok, ds := PlaceRandomly(maze, Door, doors - 1);
    if ok {
      LayDoors(g0, g, maze.grid, w, h, start, finish, rs, ds);
    }
  }

  /** `monsters` random Path cells get a monster, then `coins` get a coin. */
  method PlaceMonstersAndCoins(maze: Maze, monsters: int, coins: int, ghost g0: Matrix, ghost rs: seq<Cell>, ghost ds: seq<Cell>)
    returns (ok: bool, ghost ms: seq<Cell>, ghost cs: seq<Cell>)
    requires Sound(maze) && maze.startCell.Some? && maze.finishCell.Some? && Shaped(g0, maze.width, maze.height)
    requires LaidOut(g0, maze.grid, maze.width, maze.height, maze.startCell.value, maze.finishCell, Placement(rs, ds, [], []))
    modifies maze`grid, maze`cursor
    ensures Sound(maze)
    ensures ok ==> LaidOut(g0, maze.grid, maze.width, maze.height, maze.startCell.value, maze.finishCell, Placement(rs, ds, ms, cs))
    ensures ok ==> |ms| == Count(monsters) && |cs| == Count(coins)
    ensures !ok ==> |Marked(old(maze.grid), Path)| < Count(monsters) + Count(coins)
  {
    ghost var w, h := maze.width, maze.height;
    var start, finish := maze.startCell.value, maze.finishCell.value;
    cs := [];
    ghost var g := maze.grid;
    ok, ms := PlaceRandomly(maze, Monster, monsters);
    if !ok {
      return;
    }
    LayMonsters(g0, g, maze.grid, w, h, start, finish, rs, ds, ms);
    g := maze.grid;
    ok, cs := PlaceRandomly(maze, Coin, coins);
    if ok {
      LayCoins(g0, g, maze.grid, w, h, start, finish, rs, ds, ms, cs);
    }
  }

  /** `new_maze`: a new maze of `columns` by `rows` cells with no extra
      walls, then the placements of `Populate`. `g0` is the grid as carved
      and `finish` its finish cell. */
  method NewMaze(columns: int, rows: int, robots: int, doors: int, monsters: int, coins: int)
    returns (r: Result<Maze, GameError>, ghost g0: Matrix, ghost finish: Option<Cell>, ghost p: Placement)
    ensures r.Err? && r.error.MazeFailed? <==> OddSize(columns) < 3 || OddSize(rows) < 3
    ensures r.Err? && r.error.MazeFailed? ==> r.error.cause == NoStartCell
    ensures r.Err? ==> r.error.MazeFailed? || r.error == NoCell
    ensures r.Ok? ==> fresh(r.value) && Sound(r.value) && r.value.width == OddSize(columns) && r.value.height == OddSize(rows)
    ensures r.Ok? ==> var m := r.value;
      && m.startCell.Some? && m.finishCell == finish && finish.Some? && Shaped(g0, m.width, m.height)
      && IsRoom(m.startCell.value, m.width, m.height) && IsRoom(finish.value, m.width, m.height)
      && (forall c :: Within(c, m.width, m.height) ==> At(g0, c) == Wall || At(g0, c) == Path)
      && LaidOut(g0, m.grid, m.width, m.height, m.startCell.value, finish, p)
    ensures r.Ok? ==> |p.robots| == Count(robots - 1) && |p.doors| == Count(doors - 1)
    ensures r.Ok? ==> |p.monsters| == Count(monsters) && |p.coins| == Count(coins)
    ensures r == Err(NoCell) ==> finish.None? || |Marked(g0, Path)| < Needed(robots, doors, monsters, coins)
  {
    var created := Maze.Create(columns, rows, 0.0);
    if created.Err? {
      return Err(MazeFailed(created.error)), [], None, Placement([], [], [], []);
    }
    var maze := created.value;
    g0, finish := maze.grid, maze.finishCell;
    var ok: bool;
    ok, p := Populate(maze, robots, doors, monsters, coins);
    if !ok {
      return Err(NoCell), g0, finish, p;
    }
    r := Ok(maze);
  }

  // ----- unhide_doors -----

  /** Every cell of `l` lies on the grid. */
  predicate AllWithin(l: seq<Cell>, w: int, h: int) {
    forall i :: 0 <= i < |l| ==> Within(l[i], w, h)
  }

  /** What `unhide_doors` does to the hidden doors `l` on the grid `g`:
      the pair of the doors still hidden and those shown. It shows a door
      and removes it from the list, which makes the loop skip the next one,
      and it stops at the first door it reaches under a monster. */
  function Unhide(l: seq<Cell>, g: Matrix, w: int, h: int): (r: (seq<Cell>, seq<Cell>))
    requires Shaped(g, w, h) && AllWithin(l, w, h)
    decreases |l|
  {
    if |l| == 0 then ([], [])
    else if At(g, l[0]) == Monster then (l, [])
    else if |l| == 1 then ([], [l[0]])
    else
      var rest := Unhide(l[2..], g, w, h);
      ([l[1]] + rest.0, [l[0]] + rest.1)
  }

  /** Shown and kept together are the hidden list. */
  lemma {:induction false} UnhideSplits(l: seq<Cell>, g: Matrix, w: int, h: int)
    requires Shaped(g, w, h) && AllWithin(l, w, h)
    ensures var r := Unhide(l, g, w, h); multiset(r.0) + multiset(r.1) == multiset(l)
    decreases |l|
  {
    if |l| >= 2 && At(g, l[0]) != Monster {
      UnhideSplits(l[2..], g, w, h);
      SplitStep(l, g, w, h);
    } else {
      SplitBase(l, g, w, h);
    }
  }

  /** `UnhideSplits` where `Unhide` does not call itself. */
  lemma SplitBase(l: seq<Cell>, g: Matrix, w: int, h: int)
    requires Shaped(g, w, h) && AllWithin(l, w, h)
    requires |l| < 2 || At(g, l[0]) == Monster
    ensures var r := Unhide(l, g, w, h); multiset(r.0) + multiset(r.1) == multiset(l)
  {
    if |l| == 0 || At(g, l[0]) == Monster {
      assert multiset(Unhide(l, g, w, h).1) == multiset{};
    } else {
      assert l == [l[0]];
    }
  }

  /** The step of `UnhideSplits`: one element more on either side. */
  lemma SplitStep(l: seq<Cell>, g: Matrix, w: int, h: int)
    requires Shaped(g, w, h) && AllWithin(l, w, h)
    requires |l| >= 2 && At(g, l[0]) != Monster
    requires var r := Unhide(l[2..], g, w, h); multiset(r.0) + multiset(r.1) == multiset(l[2..])
    ensures var r := Unhide(l, g, w, h); multiset(r.0) + multiset(r.1) == multiset(l)
  {
    var r := Unhide(l[2..], g, w, h);
    assert Unhide(l, g, w, h) == ([l[1]] + r.0, [l[0]] + r.1);
    assert l == [l[0]] + [l[1]] + l[2..];
  }

  /** The doors shown are every other hidden door from the first on, and
      none of them is under a monster. */
  lemma {:induction false} UnhideEveryOther(l: seq<Cell>, g: Matrix, w: int, h: int)
    requires Shaped(g, w, h) && AllWithin(l, w, h)
    ensures var shown := Unhide(l, g, w, h).1;
      forall j :: 0 <= j < |shown| ==> 2 * j < |l| && shown[j] == l[2 * j] && At(g, shown[j]) != Monster
    decreases |l|
  {
    if |l| >= 2 && At(g, l[0]) != Monster {
      var t := l[2..];
      UnhideEveryOther(t, g, w, h);
      var shown := Unhide(t, g, w, h).1;
      assert Unhide(l, g, w, h).1 == [l[0]] + shown;
      forall j | 0 <= j < |shown| + 1
        ensures 2 * j < |l| && ([l[0]] + shown)[j] == l[2 * j] && At(g, l[2 * j]) != Monster
      {
        if j > 0 {
          assert ([l[0]] + shown)[j] == shown[j - 1] == t[2 * (j - 1)];
        }
      }
    }
  }

  /** The loop stops early only at a door under a monster. */
  lemma {:induction false} UnhideStops(l: seq<Cell>, g: Matrix, w: int, h: int)
    requires Shaped(g, w, h) && AllWithin(l, w, h)
    ensures var n := |Unhide(l, g, w, h).1|;
      2 * n < |l| ==> At(g, l[2 * n]) == Monster
    decreases |l|
  {
    if |l| >= 2 && At(g, l[0]) != Monster {
      var t := l[2..];
      UnhideStops(t, g, w, h);
      var n := |Unhide(t, g, w, h).1|;
      if 2 * n < |t| {
        assert t[2 * n] == l[2 * (n + 1)];
      }
    }
  }

  /** With no door listed twice, the doors kept hidden are exactly the
      listed doors that were not shown. */
  lemma UnhideKept(l: seq<Cell>, g: Matrix, w: int, h: int)
    requires Shaped(g, w, h) && AllWithin(l, w, h)
    requires Distinct(l)
    ensures var (kept, shown) := Unhide(l, g, w, h);
      forall c :: c in kept <==> c in l && c !in shown
  {
    UnhideSplits(l, g, w, h);
    var (kept, shown) := Unhide(l, g, w, h);
    forall c ensures c in kept <==> c in l && c !in shown {
      assert c in kept <==> c in multiset(kept);
      assert c in shown <==> c in multiset(shown);
      assert c in l <==> c in multiset(l);
      assert multiset(l)[c] <= 1 by { DistinctCount(l, c); }
    }
  }

  /** Removing the first element of `b` from `a + b` when `a` does not
      hold it. */
  lemma {:induction false} RemoveAfter(a: seq<Cell>, b: seq<Cell>)
    requires |b| > 0 && b[0] !in a
    ensures RemoveFirst(a + b, b[0]) == a + b[1..]
  {
    if |a| > 0 {
      assert (a + b)[1..] == a[1..] + b;
      RemoveAfter(a[1..], b);
      assert a == [a[0]] + a[1..];
    } else {
      assert a + b == b;
    }
  }

  /** The two pieces the hidden list advances to after showing `rest[0]`. */
  function SkippedAfter(skipped: seq<Cell>, rest: seq<Cell>): seq<Cell>
    requires rest != []
  {
    if |rest| == 1 then skipped else skipped + [rest[1]]
  }

  function RestAfter(rest: seq<Cell>): seq<Cell>
    requires rest != []
  {
    if |rest| == 1 then [] else rest[2..]
  }

  /** Loop invariant of `unhide_doors` over the hidden list `l` and the grid
      `g0` it started from: `shown` were shown, `skipped` were passed over,
      `rest` is still to come, and the list is `skipped + rest`. */
  ghost predicate Unhiding(l: seq<Cell>, g0: Matrix, g: Matrix, w: int, h: int,
                           cur: seq<Cell>, skipped: seq<Cell>, shown: seq<Cell>, rest: seq<Cell>)
  {
    && Shaped(g0, w, h) && Shaped(g, w, h) && AllWithin(l, w, h) && AllWithin(rest, w, h)
    && cur == skipped + rest
    && (rest != [] ==> |skipped| == |shown|)
    && Distinct(rest) && (forall c :: c in rest ==> c in l && c !in shown && c !in skipped)
    && Unhide(l, g0, w, h) == (skipped + Unhide(rest, g0, w, h).0, shown + Unhide(rest, g0, w, h).1)
    && (forall c :: Within(c, w, h) ==> At(g, c) == if c in shown then Door else At(g0, c))
  }

  lemma UnhideBegin(l: seq<Cell>, g0: Matrix, w: int, h: int)
    requires Shaped(g0, w, h) && AllWithin(l, w, h) && Distinct(l)
    ensures Unhiding(l, g0, g0, w, h, l, [], [], l)
  {
    assert [] + l == l;
    var u := Unhide(l, g0, w, h);
    assert [] + u.0 == u.0 && [] + u.1 == u.1;
  }

  /** The list after showing the first door of `rest`. */
  lemma ListAdvance(cur: seq<Cell>, skipped: seq<Cell>, rest: seq<Cell>)
    requires cur == skipped + rest && rest != [] && rest[0] !in skipped
    ensures RemoveFirst(cur, rest[0]) == SkippedAfter(skipped, rest) + RestAfter(rest)
  {
    RemoveAfter(skipped, rest);
    TailSplit(skipped, rest);
  }

  /** The list without `rest[0]`, cut after the door the loop skips. */
  lemma TailSplit(skipped: seq<Cell>, rest: seq<Cell>)
    requires rest != []
    ensures skipped + rest[1..] == SkippedAfter(skipped, rest) + RestAfter(rest)
  {
    if |rest| > 1 {
      assert rest[1..] == [rest[1]] + rest[2..];
    }
  }

  /** The result decomposes the same way after showing `rest[0]`. */
  lemma ResultAdvance(l: seq<Cell>, g0: Matrix, w: int, h: int, skipped: seq<Cell>, shown: seq<Cell>, rest: seq<Cell>)
    requires Shaped(g0, w, h) && AllWithin(l, w, h) && AllWithin(rest, w, h)
    requires rest != [] && At(g0, rest[0]) != Monster
    requires Unhide(l, g0, w, h) == (skipped + Unhide(rest, g0, w, h).0, shown + Unhide(rest, g0, w, h).1)
    ensures var rest' := RestAfter(rest);
      Unhide(l, g0, w, h) == (SkippedAfter(skipped, rest) + Unhide(rest', g0, w, h).0, (shown + [rest[0]]) + Unhide(rest', g0, w, h).1)
  {
    var rest' := RestAfter(rest);
    var u := Unhide(rest, g0, w, h);
    var v := Unhide(rest', g0, w, h);
    if |rest| == 1 {
      assert u == ([], [rest[0]]);
      assert skipped + u.0 == SkippedAfter(skipped, rest) + v.0;
    } else {
      assert u == ([rest[1]] + v.0, [rest[0]] + v.1);
      assert skipped + u.0 == SkippedAfter(skipped, rest) + v.0;
    }
    assert shown + u.1 == (shown + [rest[0]]) + v.1;
  }

  /** The grid after showing `c` still differs from `g0` exactly on the
      shown doors. */
  lemma GridAdvance(g0: Matrix, g: Matrix, w: int, h: int, shown: seq<Cell>, c: Cell)
    requires Shaped(g0, w, h) && Shaped(g, w, h) && Within(c, w, h)
    requires forall q :: Within(q, w, h) ==> At(g, q) == if q in shown then Door else At(g0, q)
    ensures Shaped(Put(g, c, Door), w, h)
    ensures forall q :: Within(q, w, h) ==> At(Put(g, c, Door), q) == if q in shown + [c] then Door else At(g0, q)
  {
    PutShape(g, c, Door, w, h);
  }

  /** One door shown: the list loses it, the next door is skipped. */
  lemma UnhideAdvance(l: seq<Cell>, g0: Matrix, g: Matrix, w: int, h: int,
                      cur: seq<Cell>, skipped: seq<Cell>, shown: seq<Cell>, rest: seq<Cell>)
    requires Unhiding(l, g0, g, w, h, cur, skipped, shown, rest)
    requires rest != [] && At(g, rest[0]) != Monster
    ensures |shown| < |cur| && cur[|shown|] == rest[0] && Within(rest[0], w, h)
    ensures Unhiding(l, g0, Put(g, rest[0], Door), w, h, RemoveFirst(cur, rest[0]),
                     SkippedAfter(skipped, rest), shown + [rest[0]], RestAfter(rest))
  {
    var c := rest[0];
    assert c in rest;
    assert |skipped| == |shown| && cur == skipped + rest;
    assert (skipped + rest)[|skipped|] == c;
    ListAdvance(cur, skipped, rest);
    ResultAdvance(l, g0, w, h, skipped, shown, rest);
    GridAdvance(g0, g, w, h, shown, c);
    MembersAdvance(l, skipped, shown, rest);
    RestWithin(rest, w, h);
  }

  /** The doors still to come after showing `rest[0]` lie on the grid. */
  lemma RestWithin(rest: seq<Cell>, w: int, h: int)
    requires rest != [] && AllWithin(rest, w, h)
    ensures AllWithin(RestAfter(rest), w, h)
    ensures RestAfter(rest) != [] ==> |rest| > 2
  {
    if |rest| > 1 {
      forall i | 0 <= i < |rest| - 2 ensures Within(rest[2..][i], w, h) {
        assert rest[2..][i] == rest[i + 2];
      }
    }
  }

  /** The doors still to come after showing `rest[0]` are distinct, listed,
      and neither shown nor skipped. */
  lemma MembersAdvance(l: seq<Cell>, skipped: seq<Cell>, shown: seq<Cell>, rest: seq<Cell>)
    requires rest != [] && Distinct(rest)
    requires forall c :: c in rest ==> c in l && c !in shown && c !in skipped
    ensures var rest' := RestAfter(rest);
      Distinct(rest') && forall c :: c in rest' ==>
        c in l && c !in shown + [rest[0]] && c !in SkippedAfter(skipped, rest)
  {
    var rest' := RestAfter(rest);
    forall q | q in rest' ensures q in rest && q != rest[0] && (|rest| > 1 ==> q != rest[1]) {
      assert q == rest[2 + IndexIn(rest[2..], q)];
    }
  }

  /** A position of `q` in `s`. */
  function IndexIn(s: seq<Cell>, q: Cell): (i: int)
    requires q in s
    ensures 0 <= i < |s| && s[i] == q
  {
    if s[0] == q then 0 else 1 + IndexIn(s[1..], q)
  }

  /** A door under a monster ends the loop with the list as it stands. */
  lemma UnhideHalt(l: seq<Cell>, g0: Matrix, g: Matrix, w: int, h: int,
                   cur: seq<Cell>, skipped: seq<Cell>, shown: seq<Cell>, rest: seq<Cell>)
    requires Unhiding(l, g0, g, w, h, cur, skipped, shown, rest)
    requires rest != [] && At(g, rest[0]) == Monster
    ensures |shown| < |cur| && cur[|shown|] == rest[0]
    ensures Unhide(l, g0, w, h) == (cur, shown)
  {
    assert rest[0] in rest;
    assert cur[|shown|] == rest[0];
    assert shown + [] == shown;
  }

  /** The loop ran off the end of the list. */
  lemma UnhideEnd(l: seq<Cell>, g0: Matrix, g: Matrix, w: int, h: int,
                  cur: seq<Cell>, skipped: seq<Cell>, shown: seq<Cell>, rest: seq<Cell>)
    requires Unhiding(l, g0, g, w, h, cur, skipped, shown, rest)
    requires |shown| >= |cur|
    ensures Unhide(l, g0, w, h) == (cur, shown)
  {
    assert rest == [];
    assert skipped + [] == skipped && shown + [] == shown;
  }

  // ----- The game -----

  /** What `draw_window` puts on the screen, decided by its status queries. */
  datatype Screen = GameOverScreen | GamePassedScreen | LevelPassedScreen | MazeScreen

  /** An inner cell of a grid `w` cells wide and `h` high, for every cell of `l`. */
  predicate AllInner(l: seq<Cell>, w: int, h: int) {
    forall i :: 0 <= i < |l| ==> Interior(l[i], w, h)
  }

  /** Removing a cell keeps the rest of the list inner. */
  lemma InnerAfterRemove(l: seq<Cell>, x: Cell, w: int, h: int)
    requires AllInner(l, w, h)
    ensures AllInner(RemoveFirst(l, x), w, h)
  {
    var r := RemoveFirst(l, x);
    forall i | 0 <= i < |r| ensures Interior(r[i], w, h) {
      assert r[i] in multiset(r);
      var j := IndexIn(l, r[i]);
    }
  }

  /** `hide_doors` on `maze`: its Door cells, in row-major order, become
      the hidden doors and are marked Path. */
  method HideDoors(maze: Maze) returns (doors: seq<Cell>)
    requires Sound(maze)
    modifies maze`grid, maze`cursor
    ensures Sound(maze) && maze.cursor == maze.width * maze.height
    ensures RowMajorSorted(doors) && Distinct(doors) && AllInner(doors, maze.width, maze.height)
    ensures forall c :: c in doors <==> Within(c, maze.width, maze.height) && At(old(maze.grid), c) == Door
    ensures forall c :: Within(c, maze.width, maze.height) ==>
      At(maze.grid, c) == if At(old(maze.grid), c) == Door then Path else At(old(maze.grid), c)
    ensures Marked(maze.grid, Door) == {}
  {
    ghost var g0 := maze.grid;
    ghost var w, h := maze.width, maze.height;
    doors := maze.FindCellsByMark(Door);
    SortedDistinct(doors);
    forall i | 0 <= i < |doors| ensures Interior(doors[i], w, h) {
      OffRing(g0, w, h, doors[i]);
    }
    for i := 0 to |doors|
      invariant Sound(maze) && maze.cursor == w * h
      invariant forall c :: Within(c, w, h) ==> At(maze.grid, c) == if c in doors[..i] then Path else At(g0, c)
    {
      var cell := doors[i];
      RingAfterPut(maze.grid, w, h, cell, Path);
      maze.MarkCell(cell, Path);
      assert doors[..i + 1] == doors[..i] + [cell];
    }
    assert doors[..|doors|] == doors;
  }

  /** The loop of `unhide_doors` on the list `doors`: walking the list, a
      door under a monster stops it, any other is marked Door and dropped
      from the list, and the loop steps over the next one. */
  method ShowDoors(maze: Maze, doors: seq<Cell>) returns (kept: seq<Cell>)
    requires Sound(maze) && Distinct(doors) && AllInner(doors, maze.width, maze.height)
    modifies maze`grid
    ensures Sound(maze) && Distinct(kept) && AllInner(kept, maze.width, maze.height)
    ensures var (k, shown) := Unhide(doors, old(maze.grid), maze.width, maze.height);
      && kept == k
      && forall c :: Within(c, maze.width, maze.height) ==>
           At(maze.grid, c) == if c in shown then Door else At(old(maze.grid), c)
  {
    ghost var w, h := maze.width, maze.height;
    ghost var g0 := maze.grid;
    ghost var skipped, shown, rest := [], [], doors;
    UnhideBegin(doors, g0, w, h);
    kept := doors;
    var i := 0;
    while i < |kept|
      invariant Sound(maze) && Shaped(maze.grid, w, h)
      invariant Unhiding(doors, g0, maze.grid, w, h, kept, skipped, shown, rest) && i == |shown| && |skipped| <= |shown|
      invariant Distinct(kept) && AllInner(kept, w, h)
      decreases |kept| - i
    {
      var cell := kept[i];
      if maze.CheckMark(cell, Monster) {
        UnhideHalt(doors, g0, maze.grid, w, h, kept, skipped, shown, rest);
        return;
      }
      UnhideAdvance(doors, g0, maze.grid, w, h, kept, skipped, shown, rest);
      RingAfterPut(maze.grid, w, h, cell, Door);
      maze.MarkCell(cell, Door);
      RemoveFirstDistinct(kept, cell);
      InnerAfterRemove(kept, cell, w, h);
      kept := RemoveFirst(kept, cell);
      skipped, shown, rest := SkippedAfter(skipped, rest), shown + [cell], RestAfter(rest);
      i := i + 1;
    }
    UnhideEnd(doors, g0, maze.grid, w, h, kept, skipped, shown, rest);
  }

  /** `new_game`'s monsters: one fresh monster per cell, in the order of the cells. */
  method SpawnMonsters(maze: Maze, cells: seq<Cell>) returns (ms: seq<Monster>)
    requires Sound(maze) && forall i :: 0 <= i < |cells| ==> Interior(cells[i], maze.width, maze.height)
    ensures |ms| == |cells|
    ensures forall i :: 0 <= i < |ms| ==>
      && fresh(ms[i]) && ms[i].maze == maze && ms[i].Memo() && Cell(ms[i].x, ms[i].y) == cells[i]
      && ms[i].status == Playing && ms[i].overlapped == map[] && ms[i].cycles == 0
  {
    ms := [];
    for i := 0 to |cells|
      invariant |ms| == i
      invariant forall j :: 0 <= j < i ==>
        && fresh(ms[j]) && ms[j].maze == maze && ms[j].Memo() && Cell(ms[j].x, ms[j].y) == cells[j]
        && ms[j].status == Playing && ms[j].overlapped == map[] && ms[j].cycles == 0
    {
      var m := new Monster(maze, cells[i]);
      ms := ms + [m];
    }
  }

  /** `new_game`'s monsters: a fresh monster on every Monster cell of the
      maze, in the row-major order `find_cells_by_mark` lists them. */
  method MonstersOf(maze: Maze) returns (ms: seq<Monster>)
    requires Sound(maze)
    modifies maze`cursor
    ensures Sound(maze) && maze.cursor == maze.width * maze.height
    ensures |ms| == |Marked(maze.grid, Monster)|
    ensures forall i :: 0 <= i < |ms| ==>
      && fresh(ms[i]) && ms[i].maze == maze && ms[i].Memo()
      && ms[i].status == Playing && ms[i].overlapped == map[] && ms[i].cycles == 0
      && Within(Cell(ms[i].x, ms[i].y), maze.width, maze.height) && At(maze.grid, Cell(ms[i].x, ms[i].y)) == Monster
    ensures forall i, j :: 0 <= i < j < |ms| ==> RowMajorBefore(Cell(ms[i].x, ms[i].y), Cell(ms[j].x, ms[j].y))
    ensures forall c :: Within(c, maze.width, maze.height) && At(maze.grid, c) == Monster ==>
      exists i :: 0 <= i < |ms| && Cell(ms[i].x, ms[i].y) == c
  {
    var cells := maze.FindCellsByMark(Monster);
    forall i | 0 <= i < |cells| ensures Interior(cells[i], maze.width, maze.height) {
      OffRing(maze.grid, maze.width, maze.height, cells[i]);
    }
    SortedDistinct(cells);
    FoundAll(maze.grid, maze.width, maze.height, Monster, cells);
    ms := SpawnMonsters(maze, cells);
    forall i, j | 0 <= i < j < |ms| ensures RowMajorBefore(Cell(ms[i].x, ms[i].y), Cell(ms[j].x, ms[j].y)) {
      SortedPairwise(cells, i, j);
    }
    forall c | Within(c, maze.width, maze.height) && At(maze.grid, c) == Monster
      ensures exists i :: 0 <= i < |ms| && Cell(ms[i].x, ms[i].y) == c
    {
      var i := IndexIn(cells, c);
      assert Cell(ms[i].x, ms[i].y) == c;
    }
  }

  /** A distinct list whose only member is `x` is `[x]`. */
  lemma SingleList(l: seq<Cell>, x: Cell)
    requires Distinct(l) && forall c :: c in l <==> c == x
    ensures l == [x]
  {
    assert (set c | c in l) == {x};
    DistinctCard(l);
  }

  /** The doors `new_game` hides: with no extra door, just the finish. */
  lemma HiddenFinish(laid: Matrix, w: int, h: int, finish: Cell, doors: seq<Cell>, hidden: seq<Cell>)
    requires Shaped(laid, w, h) && Within(finish, w, h) && doors == []
    requires forall c :: Within(c, w, h) ==> (At(laid, c) == Door <==> c == finish || c in doors)
    requires Distinct(hidden) && forall c :: c in hidden <==> Within(c, w, h) && At(laid, c) == Door
    ensures hidden == [finish]
  {
    SingleList(hidden, finish);
  }

  /** Hiding the doors leaves the Coin and Monster cells where they were
      laid: one per cell of the distinct list `cells`. */
  lemma MarksKept(laid: Matrix, g: Matrix, w: int, h: int, m: Mark, cells: seq<Cell>)
    requires Shaped(laid, w, h) && Shaped(g, w, h) && m != Door && m != Path
    requires Distinct(cells) && forall c :: c in cells ==> Within(c, w, h)
    requires forall c :: Within(c, w, h) ==> (At(laid, c) == m <==> c in cells)
    requires forall c :: Within(c, w, h) ==> At(g, c) == if At(laid, c) == Door then Path else At(laid, c)
    ensures |Marked(g, m)| == |cells|
  {
    assert Marked(g, m) == set c | c in cells;
    DistinctCard(cells);
  }

  /** A distinct list of all the cells marked `m` has one entry per such cell. */
  lemma FoundAll(g: Matrix, w: int, h: int, m: Mark, cells: seq<Cell>)
    requires Shaped(g, w, h) && Distinct(cells)
    requires forall i :: 0 <= i < |cells| ==> Within(cells[i], w, h) && At(g, cells[i]) == m
    requires forall c :: Within(c, w, h) && At(g, c) == m ==> c in cells
    ensures |cells| == |Marked(g, m)|
  {
    assert (set c | c in cells) == Marked(g, m) by {
      forall c | c in cells ensures c in Marked(g, m) {
        var i := IndexIn(cells, c);
      }
    }
    DistinctCard(cells);
  }

  /** The maze half of `new_game(level)`: `new_maze` with one robot, one
      door and the level's monsters and coins, then `hide_doors`. The door
      is the finish, and it is hidden. */
  method LayMaze(columns: int, rows: int, lv: Level) returns (r: Result<Maze, GameError>, doors: seq<Cell>)
    ensures r.Err? ==> r.error != NoMoreLevels
    ensures r.Err? && r.error.MazeFailed? <==> OddSize(columns) < 3 || OddSize(rows) < 3
    ensures r.Ok? ==> var m := r.value;
      && fresh(m) && Sound(m) && m.width == OddSize(columns) && m.height == OddSize(rows)
      && m.startCell.Some? && IsRoom(m.startCell.value, m.width, m.height)
      && m.finishCell.Some? && IsRoom(m.finishCell.value, m.width, m.height)
      && doors == [m.finishCell.value] && At(m.grid, m.finishCell.value) == Path && Marked(m.grid, Door) == {}
      && |Marked(m.grid, Coin)| == Count(lv.coins) && |Marked(m.grid, Monster)| == Count(lv.monsters)
  {
    var made, g0, finish, p := NewMaze(columns, rows, 1, 1, lv.monsters, lv.coins);
    if made.Err? {
      return made, [];
    }
    var m := made.value;
    LaidOutMarks(g0, m.grid, m.width, m.height, m.startCell.value, finish.value, p);
    ghost var laid := m.grid;
    doors := HideDoors(m);
    HiddenFinish(laid, m.width, m.height, finish.value, p.doors, doors);
    MarksKept(laid, m.grid, m.width, m.height, Coin, p.coins);
    MarksKept(laid, m.grid, m.width, m.height, Monster, p.monsters);
    return Ok(m), doors;
  }

  /** What `new_game(level)` builds: the maze, the robot on its start
      cell, the monsters and the hidden doors. */
  datatype Laid = Laid(maze: Maze, robot: Robot, monsters: seq<Monster>, doors: seq<Cell>)

  /** The objects of a game fit together: the robot and every monster
      live in the sound maze, and the hidden doors are distinct inner cells. */
  ghost predicate Fits(m: Maze, rb: Robot, ms: seq<Monster>, doors: seq<Cell>)
    reads m, rb, ms
  {
    && Sound(m)
    && rb.maze == m && Interior(Here(rb.State()), m.width, m.height)
    && (forall i :: 0 <= i < |ms| ==> ms[i].maze == m && ms[i].Memo())
    && Distinct(doors) && AllInner(doors, m.width, m.height)
  }

  /** The maze `new_game(lv)` lays out on a grid of `columns` by `rows`:
      the normalised size, the finish as the one hidden door, no Door left
      on the grid, and the level's number of coins. */
  ghost predicate LevelMaze(m: Maze, doors: seq<Cell>, columns: int, rows: int, lv: Level)
    reads m
  {
    && Sound(m) && m.width == OddSize(columns) && m.height == OddSize(rows)
    && m.startCell.Some? && IsRoom(m.startCell.value, m.width, m.height)
    && m.finishCell.Some? && IsRoom(m.finishCell.value, m.width, m.height)
    && doors == [m.finishCell.value] && At(m.grid, m.finishCell.value) == Path
    && (forall c :: Within(c, m.width, m.height) ==> At(m.grid, c) != Door)
    && |Marked(m.grid, Coin)| == Count(lv.coins)
  }

  /** The robot and the monsters `new_game(lv)` puts in the maze `m`: the
      robot on the start cell with the level's rams, no coins and no key
      held; one monster, just created, on each Monster cell, in row-major
      order, as many as the level asks for. */
  ghost predicate LevelPieces(m: Maze, rb: Robot, ms: seq<Monster>, lv: Level)
    reads m, rb, ms
    requires Sound(m) && m.startCell.Some?
  {
    && var s := m.startCell.value;
    && rb.State() == RobotState(2 * s.x, 2 * s.y, false, false, false, false, lv.rams, 0, Playing)
    && |ms| == Count(lv.monsters)
    && (forall i :: 0 <= i < |ms| ==>
         && ms[i].status == Playing && ms[i].overlapped == map[] && ms[i].cycles == 0
         && Within(Cell(ms[i].x, ms[i].y), m.width, m.height)
         && At(m.grid, Cell(ms[i].x, ms[i].y)) == Monster)
    && (forall i, j :: 0 <= i < j < |ms| ==> RowMajorBefore(Cell(ms[i].x, ms[i].y), Cell(ms[j].x, ms[j].y)))
    && (forall c :: Within(c, m.width, m.height) && At(m.grid, c) == Monster ==>
         exists i :: 0 <= i < |ms| && Cell(ms[i].x, ms[i].y) == c)
  }

  /** All of what `new_game(lv)` lays out. */
  ghost predicate NewLevel(d: Laid, columns: int, rows: int, lv: Level)
    reads d.maze, d.robot, d.monsters
  {
    LevelMaze(d.maze, d.doors, columns, rows, lv) && LevelPieces(d.maze, d.robot, d.monsters, lv)
  }

  /** The objects of `new_game(level)`, built before the game takes them:
      the maze with the finish hidden, a robot on the start cell and
      `MonstersOf` the maze, all new. */
  method LayLevel(columns: int, rows: int, lv: Level) returns (r: Result<Laid, GameError>)
    ensures r.Err? ==> r.error != NoMoreLevels
    ensures r.Err? && r.error.MazeFailed? <==> OddSize(columns) < 3 || OddSize(rows) < 3
    ensures r.Ok? ==> var d := r.value;
      && fresh(d.maze) && fresh(d.robot) && (forall i :: 0 <= i < |d.monsters| ==> fresh(d.monsters[i]))
      && Fits(d.maze, d.robot, d.monsters, d.doors) && NewLevel(d, columns, rows, lv)
  {
    var made, doors := LayMaze(columns, rows, lv);
    if made.Err? {
      return Err(made.error);
    }
    var m := made.value;
    var rb := new Robot(m, m.startCell.value, lv.rams, 0);
    var ms := MonstersOf(m);
    return Ok(Laid(m, rb, ms, doors));
  }

  /** The game: the maze of the current level, the robot, the monsters,
      the doors hidden until the coins are collected, the current level and
      the level iterator. The maze and the robot exist once the first game
      has been laid out. */
  class Game {
    const levelsAmount: int
    const columns: int
    const rows: int
    var maze: Maze?
    var robot: Robot?
    var monsters: seq<Monster>
    var hiddenDoors: seq<Cell>
    var level: Level
    const iterLevels: Levels

    /** The iterator runs over the levels `Levels(levelsAmount)` holds and
        the level is the one it handed out last. */
    ghost predicate Ready()
      reads this, iterLevels
    {
      && iterLevels.Valid() && iterLevels.amount == Normalised(levelsAmount)
      && 1 <= iterLevels.n && level == LevelNo(iterLevels.n)
    }

    /** A game in progress: a level handed out and its objects fitting together. */
    ghost predicate Valid()
      reads this, maze, robot, monsters, iterLevels
    {
      Ready() && maze != null && robot != null && Fits(maze, robot, monsters, hiddenDoors)
    }

    /** Every entity of the game has status `s`. */
    ghost predicate AllAre(s: Status)
      reads this, robot, monsters
    {
      robot != null && robot.status == s && forall i :: 0 <= i < |monsters| ==> monsters[i].status == s
    }

    /** Some monster or the robot has status GameOver. */
    ghost predicate SomeOver()
      reads this, robot, monsters
    {
      (robot != null && robot.status == GameOver) || exists i :: 0 <= i < |monsters| && monsters[i].status == GameOver
    }

    /** Lines 231-235 of `main_loop`: the levels, their iterator and the
        first level. */
    constructor (levelsAmount: int, columns: int, rows: int)
      ensures this.levelsAmount == levelsAmount && this.columns == columns && this.rows == rows
      ensures maze == null && robot == null && monsters == [] && hiddenDoors == []
      ensures Ready() && fresh(iterLevels) && iterLevels.amount == Normalised(levelsAmount)
      ensures iterLevels.n == 1 && level == Level(1, 1, 2, 10)
    {
      this.levelsAmount := levelsAmount;
      this.columns := columns;
      this.rows := rows;
      maze, robot := null, null;
      monsters, hiddenDoors := [], [];
      var levels := new Levels(levelsAmount);
      var it := levels.Iter();
      var first := it.Next();
      iterLevels := it;
      level := first.value;
    }

    /** `main_loop` up to its loop: the constructor, then `new_game` on the
        first level. */
    static method Start(levelsAmount: int, columns: int, rows: int) returns (r: Result<Game, GameError>)
      ensures r.Ok? ==> fresh(r.value) && r.value.Valid() && r.value.level == Level(1, 1, 2, 10)
      ensures r.Ok? ==> r.value.AllAre(Playing) && |r.value.monsters| == 1
      ensures r.Err? ==> r.error != NoMoreLevels
    {
      var game := new Game(levelsAmount, columns, rows);
      var made := game.NewGame(game.level);
      if made.Err? {
        return Err(made.error);
      }
      return Ok(game);
    }
    /** `new_game(level)`: a new maze with one robot, one door and the
        level's monsters and coins, the doors hidden, a robot on the start
        cell with the level's rams, and a monster on every Monster cell in
        row-major order. */
    method NewGame(lv: Level) returns (r: Result<(), GameError>)
      requires Ready()
      modifies this`maze, this`robot, this`monsters, this`hiddenDoors
      ensures Ready()
      ensures r.Err? ==> maze == old(maze) && robot == old(robot) && monsters == old(monsters) && hiddenDoors == old(hiddenDoors)
      ensures r.Err? ==> r.error != NoMoreLevels
      ensures r.Err? && r.error.MazeFailed? <==> OddSize(columns) < 3 || OddSize(rows) < 3
      ensures r.Ok? ==> Valid() && fresh(maze) && fresh(robot) && forall i :: 0 <= i < |monsters| ==> fresh(monsters[i])
      ensures r.Ok? ==> NewLevel(Laid(maze, robot, monsters, hiddenDoors), columns, rows, lv)
      ensures r.Ok? ==> AllAre(Playing)
    {
      var laid := LayLevel(columns, rows, lv);
      if laid.Err? {
        r := Err(laid.error);
      } else {
        Take(laid.value, lv);
        assert Laid(maze, robot, monsters, hiddenDoors) == laid.value;
        r := Ok(());
      }
    }

    /** The assignments that end `new_game`: the game takes the new objects. */
    method Take(d: Laid, lv: Level)
      requires Ready() && Fits(d.maze, d.robot, d.monsters, d.doors) && NewLevel(d, columns, rows, lv)
      modifies this`maze, this`robot, this`monsters, this`hiddenDoors
      ensures Valid() && maze == d.maze && robot == d.robot && monsters == d.monsters && hiddenDoors == d.doors
    {
      maze, robot, monsters, hiddenDoors := d.maze, d.robot, d.monsters, d.doors;
    }

    /** `update_objects_game_status(s)`: every monster and the robot get `s`. */
    method UpdateObjectsGameStatus(s: Status)
      requires Valid()
      modifies robot`status, monsters`status
      ensures Valid() && AllAre(s)
    {
      for i := 0 to |monsters|
        invariant forall j :: 0 <= j < i ==> monsters[j].status == s
      {
        monsters[i].status := s;
      }
      robot.status := s;
    }

    /** `game_over`: when some monster or the robot has GameOver, all of
        them get it and the answer is true; otherwise nothing changes. */
    method GameIsOver() returns (over: bool)
      requires Valid()
      modifies robot`status, monsters`status
      ensures Valid()
      ensures over <==> old(SomeOver())
      ensures over ==> AllAre(GameOver)
      ensures !over ==> robot.status == old(robot.status)
      ensures !over ==> forall i :: 0 <= i < |monsters| ==> monsters[i].status == old(monsters[i].status)
    {
      for i := 0 to |monsters|
        invariant forall j :: 0 <= j < i ==> monsters[j].status != GameOver
      {
        if monsters[i].status == GameOver {
          UpdateObjectsGameStatus(GameOver);
          return true;
        }
      }
      if robot.status == GameOver {
        UpdateObjectsGameStatus(GameOver);
        return true;
      }
      return false;
    }

    /** `level_passed`: when the robot has Passed, all entities get it and
        the answer is true; otherwise nothing changes. */
    method LevelIsPassed() returns (passed: bool)
      requires Valid()
      modifies robot`status, monsters`status
      ensures Valid()
      ensures passed <==> old(robot.status) == Passed
      ensures passed ==> AllAre(Passed)
      ensures !passed ==> robot.status == old(robot.status)
      ensures !passed ==> forall i :: 0 <= i < |monsters| ==> monsters[i].status == old(monsters[i].status)
    {
      if robot.status == Passed {
        UpdateObjectsGameStatus(Passed);
        return true;
      }
      return false;
    }

    /** `game_passed`: the level is passed (with the side effect of
        `level_passed`) and it is level number `levelsAmount`. */
    method GameIsPassed() returns (done: bool)
      requires Valid()
      modifies robot`status, monsters`status
      ensures Valid()
      ensures done <==> old(robot.status) == Passed && level.level == levelsAmount
      ensures old(robot.status) == Passed ==> AllAre(Passed)
      ensures old(robot.status) != Passed ==> robot.status == old(robot.status)
      ensures old(robot.status) != Passed ==> forall i :: 0 <= i < |monsters| ==> monsters[i].status == old(monsters[i].status)
    {
      var passed := LevelIsPassed();
      done := passed && level.level == levelsAmount;
    }

    /** The status queries `draw_window` makes before it draws: game over
        first, then game passed, then level passed. */
    method ShowStatus() returns (screen: Screen)
      requires Valid()
      modifies robot`status, monsters`status
      ensures Valid()
      ensures screen == GameOverScreen <==> old(SomeOver())
      ensures screen == GamePassedScreen <==> !old(SomeOver()) && old(robot.status) == Passed && level.level == levelsAmount
      ensures screen == LevelPassedScreen <==> !old(SomeOver()) && old(robot.status) == Passed && level.level != levelsAmount
      ensures screen == GameOverScreen ==> AllAre(GameOver)
      ensures screen == GamePassedScreen || screen == LevelPassedScreen ==> AllAre(Passed)
      ensures screen == MazeScreen ==> robot.status == old(robot.status)
      ensures screen == MazeScreen ==> forall i :: 0 <= i < |monsters| ==> monsters[i].status == old(monsters[i].status)
    {
      var over := GameIsOver();
      if over {
        return GameOverScreen;
      }
      var done := GameIsPassed();
      if done {
        return GamePassedScreen;
      }
      var passed := LevelIsPassed();
      if passed {
        return LevelPassedScreen;
      }
      return MazeScreen;
    }

    /** `unhide_doors`: shows the hidden doors as `Unhide` describes, on the
        list and in the grid. */
    method UnhideDoors()
      requires Valid()
      modifies this`hiddenDoors, maze`grid
      ensures Valid()
      ensures var (kept, shown) := Unhide(old(hiddenDoors), old(maze.grid), maze.width, maze.height);
        && hiddenDoors == kept
        && forall c :: Within(c, maze.width, maze.height) ==>
             At(maze.grid, c) == if c in shown then Door else At(old(maze.grid), c)
    {
      hiddenDoors := ShowDoors(maze, hiddenDoors);
    }

    /** Coins remain to be collected: one lies in the maze or under a monster. */
    ghost predicate CoinsLeft()
      reads this, maze, monsters
    {
      maze != null &&
      (Marked(maze.grid, Coin) != {} || exists i :: 0 <= i < |monsters| && Coin in monsters[i].overlapped.Values)
    }

    /** `process_doors`: nothing happens while coins remain; once all are
        collected, `unhide_doors`. */
    method ProcessDoors()
      requires Valid()
      modifies this`hiddenDoors, maze`grid, maze`cursor
      ensures Valid() && maze.cursor == maze.width * maze.height
      ensures old(CoinsLeft()) ==> hiddenDoors == old(hiddenDoors) && maze.grid == old(maze.grid)
      ensures !old(CoinsLeft()) ==> var (kept, shown) := Unhide(old(hiddenDoors), old(maze.grid), maze.width, maze.height);
        && hiddenDoors == kept
        && forall c :: Within(c, maze.width, maze.height) ==>
             At(maze.grid, c) == if c in shown then Door else At(old(maze.grid), c)
    {
      var coins := maze.FindCellsByMark(Coin);
      if |coins| > 0 {
        assert coins[0] in Marked(maze.grid, Coin);
        return;
      }
      assert forall c :: c in Marked(maze.grid, Coin) ==> c in coins;
      assert Marked(maze.grid, Coin) == {};
      for i := 0 to |monsters|
        invariant forall j :: 0 <= j < i ==> Coin !in monsters[j].overlapped.Values
      {
        if Coin in monsters[i].overlapped.Values {
          return;
        }
      }
      UnhideDoors();
    }

    /** The `for monster in self.monsters: monster.move_monster()` of
        `main_loop`, each search bounded by `fuel` rounds. A monster's
        status changes only from Playing to GameOver. */
    method MoveMonsters(fuel: nat)
      requires Valid()
      modifies maze`grid, monsters
      ensures Valid()
      ensures forall i :: 0 <= i < |monsters| ==>
        monsters[i].status == old(monsters[i].status) || (old(monsters[i].status) == Playing && monsters[i].status == GameOver)
    {
      for i := 0 to |monsters|
        invariant Valid()
        invariant forall j :: 0 <= j < |monsters| ==>
          monsters[j].status == old(monsters[j].status) || (old(monsters[j].status) == Playing && monsters[j].status == GameOver)
      {
        ghost var outcome := monsters[i].MoveMonster(fuel);
      }
    }

    /** The F3 branch of `check_events` after the statuses are reset: the
        next level is taken from the iterator (StopIteration once it is
        spent) and a new game is laid out for it. */
    method AdvanceLevel() returns (r: Result<bool, GameError>)
      requires Valid()
      modifies this, iterLevels`n
      ensures Valid() && r != Ok(true)
      ensures r == Err(NoMoreLevels) <==> old(iterLevels.n) >= iterLevels.amount
      ensures old(iterLevels.n) < iterLevels.amount ==>
        iterLevels.n == old(iterLevels.n) + 1 && level == LevelNo(old(level).level + 1)
      ensures old(iterLevels.n) >= iterLevels.amount ==>
        r == Err(NoMoreLevels) && level == old(level) && iterLevels.n == old(iterLevels.n)
      ensures r.Err? ==> maze == old(maze) && robot == old(robot) && monsters == old(monsters)
      ensures r.Ok? ==> fresh(maze) && fresh(robot) && (forall i :: 0 <= i < |monsters| ==> fresh(monsters[i])) && AllAre(Playing)
      ensures r.Ok? ==> NewLevel(Laid(maze, robot, monsters, hiddenDoors), columns, rows, level)
    {
      var next := iterLevels.Next();
      if next.None? {
        r := Err(NoMoreLevels);
      } else {
        level := next.value;
        var made := NewGame(level);
        r := if made.Err? then Err(made.error) else Ok(false);
      }
    }

    /** The same objects as in the state before, or all of them new. */
    twostate predicate SameOrFresh()
      reads this
    {
      || (maze == old(maze) && robot == old(robot) && monsters == old(monsters))
      || (fresh(maze) && fresh(robot) && forall i :: 0 <= i < |monsters| ==> fresh(monsters[i]))
    }

    /** The condition of the F3 branch of `check_events`: the level is
        passed, it is not the last one and the key is F3. */
    ghost predicate Advances(key: Key)
      reads this, robot
    {
      robot != null && robot.status == Passed && level.level != levelsAmount && key == NextKey
    }

    /** `self.level_passed() and not self.game_passed() and event.key ==
        pygame.K_F3`, evaluated left to right with the side effects of
        `level_passed`. */
    method LevelChoice(key: Key) returns (advance: bool)
      requires Valid()
      modifies robot`status, monsters`status
      ensures Valid()
      ensures advance <==> old(Advances(key))
      ensures old(robot.status) == Passed ==> AllAre(Passed)
      ensures old(robot.status) != Passed ==> robot.status == old(robot.status)
      ensures old(robot.status) != Passed ==> forall i :: 0 <= i < |monsters| ==> monsters[i].status == old(monsters[i].status)
    {
      var passed := LevelIsPassed();
      if !passed {
        return false;
      }
      var done := GameIsPassed();
      return !done && key == NextKey;
    }

    /** The F3 branch of `check_events`: the statuses are reset, then
        `AdvanceLevel`. */
    method NextLevel() returns (r: Result<bool, GameError>)
      requires Valid()
      modifies this, robot`status, monsters`status, iterLevels`n
      ensures Valid() && r != Ok(true) && SameOrFresh() && AllAre(Playing)
      ensures r == Err(NoMoreLevels) <==> old(iterLevels.n) >= iterLevels.amount
      ensures old(iterLevels.n) < iterLevels.amount ==>
        iterLevels.n == old(iterLevels.n) + 1 && level == LevelNo(old(level).level + 1)
      ensures old(iterLevels.n) >= iterLevels.amount ==> level == old(level) && iterLevels.n == old(iterLevels.n)
      ensures r.Ok? ==> fresh(maze) && fresh(robot) && NewLevel(Laid(maze, robot, monsters, hiddenDoors), columns, rows, level)
    {
      UpdateObjectsGameStatus(Playing);
      r := AdvanceLevel();
    }

    /** The end of `check_events` for a key-down event: `LevelChoice`,
        then `NextLevel` when it says so. */
    method PassLevel(key: Key) returns (r: Result<bool, GameError>)
      requires Valid()
      modifies this, robot`status, monsters`status, iterLevels`n
      ensures Valid() && r != Ok(true) && SameOrFresh()
      ensures !old(Advances(key)) ==>
        && r == Ok(false) && level == old(level) && iterLevels.n == old(iterLevels.n)
        && maze == old(maze) && robot == old(robot) && monsters == old(monsters) && hiddenDoors == old(hiddenDoors)
      ensures !old(Advances(key)) && old(robot.status) == Passed ==> AllAre(Passed)
      ensures old(robot.status) != Passed ==> robot.status == old(robot.status)
      ensures old(robot.status) != Passed ==> forall i :: 0 <= i < |monsters| ==> monsters[i].status == old(monsters[i].status)
      ensures old(Advances(key)) ==> AllAre(Playing)
      ensures old(Advances(key)) && levelsAmount >= 1 ==>
        r != Err(NoMoreLevels) && iterLevels.n == old(iterLevels.n) + 1 && level == LevelNo(old(level).level + 1)
      ensures old(Advances(key)) && levelsAmount < 1 ==> r == Err(NoMoreLevels) && level == old(level)
      ensures old(Advances(key)) && r.Ok? ==> fresh(maze) && fresh(robot) && NewLevel(Laid(maze, robot, monsters, hiddenDoors), columns, rows, level)
    {
      var advance := LevelChoice(key);
      if advance {
        assert levelsAmount >= 1 <==> iterLevels.n < iterLevels.amount;
        r := NextLevel();
      } else {
        r := Ok(false);
      }
    }

    /** `self.robot.process_event(event)`. */
    method RobotEvent(e: Event)
      requires Valid()
      modifies robot, maze`grid
      ensures Valid()
      ensures robot.State() == Handled(old(robot.State()), old(maze.grid), maze.width, maze.height, RobotAction(e)).0
      ensures maze.grid == Handled(old(robot.State()), old(maze.grid), maze.width, maze.height, RobotAction(e)).1
    {
      robot.ProcessEvent(RobotAction(e));
    }

    /** The key-down part of `check_events`: Escape ends the game (the
        `exit()` of the source, here the answer true), F2 restarts the
        level, and `PassLevel` follows. */
    method KeyPressed(key: Key) returns (r: Result<bool, GameError>)
      requires Valid()
      modifies this, robot`status, monsters`status, iterLevels`n
      ensures Valid() && SameOrFresh()
      ensures r == Ok(true) <==> key == EscapeKey
      ensures key == EscapeKey ==> maze == old(maze) && robot == old(robot) && monsters == old(monsters) && level == old(level)
      ensures levelsAmount >= 1 ==> r != Err(NoMoreLevels)
      ensures key == RestartKey && r.Ok? ==> level == old(level) && fresh(maze) && fresh(robot) && AllAre(Playing)
      ensures iterLevels.n == old(iterLevels.n) || (iterLevels.n == old(iterLevels.n) + 1 && key == NextKey)
      ensures key != RestartKey && !old(Advances(key)) ==>
        && r == Ok(key == EscapeKey) && level == old(level) && iterLevels.n == old(iterLevels.n)
        && maze == old(maze) && robot == old(robot) && monsters == old(monsters) && hiddenDoors == old(hiddenDoors)
      ensures key != RestartKey && (old(robot.status) != Passed || key == EscapeKey) ==>
        && robot.status == old(robot.status)
        && forall i :: 0 <= i < |monsters| ==> monsters[i].status == old(monsters[i].status)
      ensures key != RestartKey && key != EscapeKey && !old(Advances(key)) && old(robot.status) == Passed ==> AllAre(Passed)
      ensures key == RestartKey && r.Ok? ==> NewLevel(Laid(maze, robot, monsters, hiddenDoors), columns, rows, level)
      ensures key != RestartKey && old(Advances(key)) ==>
        && AllAre(Playing)
        && (levelsAmount >= 1 ==>
              r != Err(NoMoreLevels) && iterLevels.n == old(iterLevels.n) + 1 && level == LevelNo(old(level).level + 1))
        && (levelsAmount < 1 ==> r == Err(NoMoreLevels) && level == old(level))
        && (r.Ok? ==> fresh(maze) && fresh(robot) && NewLevel(Laid(maze, robot, monsters, hiddenDoors), columns, rows, level))
    {
      if key == EscapeKey {
        return Ok(true);
      }
      if key == RestartKey {
        r := RestartLevel();
      } else {
        r := PassLevel(key);
      }
    }

    /** The F2 branch of `check_events`: `new_game` on the same level, after
        which the F3 test of `PassLevel` finds the new robot playing. */
    method RestartLevel() returns (r: Result<bool, GameError>)
      requires Valid()
      modifies this, robot`status, monsters`status, iterLevels`n
      ensures Valid() && SameOrFresh() && r != Ok(true)
      ensures level == old(level) && iterLevels.n == old(iterLevels.n)
      ensures r.Err? ==> r.error != NoMoreLevels && maze == old(maze) && robot == old(robot) && monsters == old(monsters)
      ensures r.Ok? ==> r == Ok(false) && fresh(maze) && fresh(robot) && AllAre(Playing)
      ensures r.Ok? ==> NewLevel(Laid(maze, robot, monsters, hiddenDoors), columns, rows, level)
    {
      var made := NewGame(level);
      if made.Err? {
        return Err(made.error);
      }
      r := PassFresh();
    }

    /** The F3 test right after a restart: the new robot is playing, so
        `PassLevel` answers false and the new game stays as laid out. */
    method PassFresh() returns (r: Result<bool, GameError>)
      requires Valid() && AllAre(Playing) && NewLevel(Laid(maze, robot, monsters, hiddenDoors), columns, rows, level)
      modifies this, robot`status, monsters`status, iterLevels`n
      ensures Valid() && r == Ok(false) && AllAre(Playing) && NewLevel(Laid(maze, robot, monsters, hiddenDoors), columns, rows, level)
      ensures level == old(level) && iterLevels.n == old(iterLevels.n)
      ensures maze == old(maze) && robot == old(robot) && monsters == old(monsters) && hiddenDoors == old(hiddenDoors)
    {
      r := PassLevel(RestartKey);
      assert unchanged(robot) && unchanged(monsters);
    }

    /** One event of `check_events`: the robot handles it first, then a
        key-down goes to `KeyPressed`. */
    method CheckEvent(e: Event) returns (r: Result<bool, GameError>)
      requires Valid()
      modifies this, maze`grid, robot, monsters`status, iterLevels`n
      ensures Valid() && SameOrFresh()
      ensures r == Ok(true) <==> e == KeyDown(EscapeKey)
      ensures levelsAmount >= 1 ==> r != Err(NoMoreLevels)
      ensures !e.KeyDown? ==>
        && r == Ok(false) && level == old(level) && maze == old(maze) && robot == old(robot) && monsters == old(monsters)
        && robot.State() == Handled(old(robot.State()), old(maze.grid), maze.width, maze.height, RobotAction(e)).0
        && maze.grid == Handled(old(robot.State()), old(maze.grid), maze.width, maze.height, RobotAction(e)).1
        && hiddenDoors == old(hiddenDoors)
        && forall i :: 0 <= i < |monsters| ==> monsters[i].status == old(monsters[i].status)
      ensures e == KeyDown(RestartKey) && r.Ok? ==> level == old(level) && fresh(maze) && fresh(robot) && AllAre(Playing)
      ensures e == KeyDown(RestartKey) && r.Ok? ==> NewLevel(Laid(maze, robot, monsters, hiddenDoors), columns, rows, level)
      ensures e.KeyDown? && e.key != RestartKey ==>
        var h := Handled(old(robot.State()), old(maze.grid), old(maze.width), old(maze.height), RobotAction(e));
        h.0.status == Passed && old(level).level != levelsAmount && e.key == NextKey ==>
          && AllAre(Playing)
          && (levelsAmount >= 1 ==>
                r != Err(NoMoreLevels) && iterLevels.n == old(iterLevels.n) + 1 && level == LevelNo(old(level).level + 1))
          && (levelsAmount < 1 ==> r == Err(NoMoreLevels) && level == old(level))
          && (r.Ok? ==> fresh(maze) && fresh(robot) && NewLevel(Laid(maze, robot, monsters, hiddenDoors), columns, rows, level))
      ensures iterLevels.n == old(iterLevels.n) || (iterLevels.n == old(iterLevels.n) + 1 && e == KeyDown(NextKey))
      ensures e.KeyDown? && e.key != RestartKey ==>
        var h := Handled(old(robot.State()), old(maze.grid), old(maze.width), old(maze.height), RobotAction(e));
        !(h.0.status == Passed && old(level).level != levelsAmount && e.key == NextKey) ==>
          && r == Ok(e.key == EscapeKey) && level == old(level) && iterLevels.n == old(iterLevels.n)
          && maze == old(maze) && robot == old(robot) && monsters == old(monsters) && hiddenDoors == old(hiddenDoors)
          && maze.grid == h.1 && robot.State() == h.0.(status := robot.status)
          && (h.0.status != Passed || e.key == EscapeKey ==>
                && robot.status == h.0.status
                && forall i :: 0 <= i < |monsters| ==> monsters[i].status == old(monsters[i].status))
          && (h.0.status == Passed && e.key != EscapeKey ==> AllAre(Passed))
    {
      RobotEvent(e);
      if !e.KeyDown? {
        return Ok(false);
      }
      r := KeyPressed(e.key);
    }

    /** `check_events`: the events of one frame in order, up to the first
        Escape (true) or the first error. The level never goes back and
        moves on by at most one per event. */
    method CheckEvents(events: seq<Event>) returns (r: Result<bool, GameError>)
      requires Valid()
      modifies this, maze`grid, robot, monsters`status, iterLevels`n
      ensures Valid()
      ensures r == Ok(true) ==> KeyDown(EscapeKey) in events
      ensures r == Ok(false) ==> KeyDown(EscapeKey) !in events
      ensures levelsAmount >= 1 ==> r != Err(NoMoreLevels)
      ensures old(iterLevels.n) <= iterLevels.n <= old(iterLevels.n) + |events|
    {
      for i := 0 to |events|
        invariant Valid()
        invariant forall j :: 0 <= j < i ==> events[j] != KeyDown(EscapeKey)
        invariant old(iterLevels.n) <= iterLevels.n <= old(iterLevels.n) + i
        invariant maze == old(maze) || fresh(maze)
        invariant robot == old(robot) || fresh(robot)
        invariant forall j :: 0 <= j < |monsters| ==> monsters[j] in old(monsters) || fresh(monsters[j])
      {
        r := CheckEvent(events[i]);
        if r != Ok(false) {
          return;
        }
      }
      return Ok(false);
    }

    /** One pass of the `while True` loop of `main_loop`: the doors, every
        monster's move, the status queries of `draw_window` and then the
        frame's events. Drawing and `clock.tick` are not modelled. */
    method Frame(events: seq<Event>, fuel: nat) returns (r: Result<bool, GameError>, screen: Screen)
      requires Valid()
      modifies this, maze`grid, maze`cursor, robot, monsters, iterLevels`n
      ensures Valid()
      ensures r == Ok(true) ==> KeyDown(EscapeKey) in events
      ensures r == Ok(false) ==> KeyDown(EscapeKey) !in events
      ensures levelsAmount >= 1 ==> r != Err(NoMoreLevels)
      ensures old(iterLevels.n) <= iterLevels.n <= old(iterLevels.n) + |events|
    {
      ProcessDoors();
      MoveMonsters(fuel);
      screen := ShowStatus();
      r := CheckEvents(events);
    }
  }
}
