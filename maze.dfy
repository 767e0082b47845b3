/** The maze of maze.py: a `height`-by-`width` mark matrix that every
    entity of the game reads and writes, its random depth-first carve,
    and the query and mutation primitives. */
module MazeGrid {
  import opened Wrappers
  import opened Grid

  /** The ValueErrors the maze raises. */
  datatype MazeError =
    | InvalidWallsFactor  // walls_factor outside [0, 1]
    | NoStartCell         // no Unvisited room to start the carve from
    | OuterWallCell       // a neighbour query on the outer ring

  /** The size the maze takes for a requested size: the largest odd number
      not above it (an even size loses one). */
  function OddSize(n: int): (r: int)
    ensures r % 2 == 1 && r <= n && n - r <= 1
  {
    if n % 2 == 0 then n - 1 else n
  }

  /** Python's `round` on a number: the nearest integer, ties to the even one. */
  function RoundHalfEven(r: real): (k: int)
    ensures k as real - 0.5 <= r <= k as real + 0.5
    ensures (r == k as real - 0.5 || r == k as real + 0.5) ==> k % 2 == 0
  {
    var f := r.Floor;
    var d := r - f as real;
    if d < 0.5 then f
    else if d > 0.5 then f + 1
    else if f % 2 == 0 then f
    else f + 1
  }

  /** The row of the blueprint below the first: `[unvisited, wall]` repeated. */
  function Pairs(k: nat): (r: seq<Mark>)
    ensures |r| == 2 * k
    ensures forall i :: 0 <= i < |r| ==> r[i] == if i % 2 == 0 then Unvisited else Wall
  {
    if k == 0 then [] else [Unvisited, Wall] + Pairs(k - 1)
  }

  /** Rows alternate: even rows are `a`, odd rows are `b`. */
  ghost predicate Striped(g: Matrix, a: seq<Mark>, b: seq<Mark>) {
    forall y :: 0 <= y < |g| ==> g[y] == if y % 2 == 0 then a else b
  }

  /** Appending `b` then `a` to an odd number of striped rows keeps them striped. */
  lemma StripedAppend(g: Matrix, a: seq<Mark>, b: seq<Mark>)
    requires |g| % 2 == 1 && Striped(g, a, b)
    ensures Striped(g + [b] + [a], a, b)
  {
    var g' := g + [b] + [a];
    forall y | 0 <= y < |g'| ensures g'[y] == if y % 2 == 0 then a else b {
      if y < |g| {
        assert g'[y] == g[y];
      }
    }
  }

  /** Striped rows of full wall and of wall-then-pairs form the blueprint. */
  lemma StripedBlueprint(g: Matrix, w: int, h: int, a: seq<Mark>, b: seq<Mark>)
    requires w >= 1 && w % 2 == 1 && |g| == h && Striped(g, a, b)
    requires a == seq(w, _ => Wall) && b == [Wall] + Pairs(w / 2)
    ensures Shaped(g, w, h) && IsBlueprint(g, w, h)
  {
    forall c | Within(c, w, h)
      ensures At(g, c) == if c.x % 2 == 1 && c.y % 2 == 1 then Unvisited else Wall
    {
      if c.y % 2 == 0 {
        assert g[c.y] == a;
      } else {
        assert g[c.y] == b;
        RoomRowAt(w, b, c.x);
      }
    }
  }

  /** The mark at column `x` of a row of rooms. */
  lemma RoomRowAt(w: int, b: seq<Mark>, x: int)
    requires w % 2 == 1 && 0 <= x < w && b == [Wall] + Pairs(w / 2)
    ensures b[x] == if x % 2 == 1 then Unvisited else Wall
  {
    if x > 0 {
      assert b[x] == Pairs(w / 2)[x - 1];
    }
  }

  /** How many of the listed cells hold `m` (Python's `list.count`). */
  function CountMarks(g: Matrix, cells: seq<Cell>, m: Mark): nat
    requires forall c :: c in cells ==> Has(g, c)
  {
    if |cells| == 0 then 0
    else (if At(g, cells[0]) == m then 1 else 0) + CountMarks(g, cells[1..], m)
  }

  function Hit(g: Matrix, c: Cell, m: Mark): nat
    requires Has(g, c)
  {
    if At(g, c) == m then 1 else 0
  }

  /** Counting over a four-cell list adds up the four cells. */
  lemma CountFour(g: Matrix, a: Cell, b: Cell, c: Cell, d: Cell, m: Mark)
    requires Has(g, a) && Has(g, b) && Has(g, c) && Has(g, d)
    ensures CountMarks(g, [a, b, c, d], m) == Hit(g, a, m) + Hit(g, b, m) + Hit(g, c, m) + Hit(g, d, m)
  {
    assert [a, b, c, d][1..] == [b, c, d];
    assert [b, c, d][1..] == [c, d];
    assert [c, d][1..] == [d];
    assert [d][1..] == [];
    assert CountMarks(g, [d], m) == Hit(g, d, m);
    assert CountMarks(g, [c, d], m) == Hit(g, c, m) + Hit(g, d, m);
    assert CountMarks(g, [b, c, d], m) == Hit(g, b, m) + Hit(g, c, m) + Hit(g, d, m);
  }

  // ----- The carve and its loop invariant -----

  /** What one `TrackMaze(cell)` call leaves behind, measured from the
      matrix `g0` it started on and the finish cell `f0` it was called with:
      `cell` is Path, the carve wrote only legal cells, `e` (starting with
      `cell`) lists exactly the rooms it entered, the finish cell is the last
      of them (or unchanged when only `cell` was entered), every room entered
      is closed, and the Unvisited count has fallen. */
  ghost predicate Carved(g0: Matrix, g: Matrix, w: int, h: int, cell: Cell, e: seq<Cell>,
                         f0: Option<Cell>, f: Option<Cell>)
    requires Shaped(g0, w, h) && Shaped(g, w, h)
  {
    && IsRoom(cell, w, h) && At(g, cell) == Path
    && CarvedFrom(g0, g, w, h)
    && |e| >= 1 && e[0] == cell
    && EnteredExactly(g0, g, w, h, e)
    && f == (if |e| == 1 then f0 else Some(e[|e| - 1]))
    && ClosedSince(g0, g, w, h)
    && |Marked(g, Unvisited)| < |Marked(g0, Unvisited)|
  }

  /** The state of one `TrackMaze(cell)` call between picks: as `Carved`,
      except that only the rooms entered below this call are closed yet, and
      `ns` holds the not-yet-tried steps from `cell`, every other step being
      no longer Unvisited. */
  ghost predicate Carving(g0: Matrix, g: Matrix, w: int, h: int, cell: Cell, e: seq<Cell>, ns: seq<Cell>,
                          f0: Option<Cell>, f: Option<Cell>)
    requires Shaped(g0, w, h) && Shaped(g, w, h)
  {
    && IsRoom(cell, w, h) && At(g, cell) == Path
    && CarvedFrom(g0, g, w, h)
    && |e| >= 1 && e[0] == cell
    && EnteredExactly(g0, g, w, h, e)
    && f == (if |e| == 1 then f0 else Some(e[|e| - 1]))
    && (forall a, b ::
          IsRoom(a, w, h) && IsRoom(b, w, h) && RoomStep(a, b) && a != cell &&
          At(g0, a) == Unvisited && At(g, a) != Unvisited
          ==> At(g, b) != Unvisited)
    && |Marked(g, Unvisited)| < |Marked(g0, Unvisited)|
    && Distinct(ns)
    && (forall n :: n in ns ==> IsRoom(n, w, h) && RoomStep(cell, n))
    && (forall n :: IsRoom(n, w, h) && RoomStep(cell, n) && n !in ns ==> At(g, n) != Unvisited)
  }

  /** Removing one cell from a set does not make it larger. */
  lemma MinusOneCard(s: set<Cell>, x: Cell)
    ensures |s - {x}| <= |s|
    ensures x in s ==> |s - {x}| == |s| - 1
  {
    if x in s {
      assert s == (s - {x}) + {x};
    } else {
      assert s - {x} == s;
    }
  }

  /** Marking `cell` and listing its Unvisited steps starts the loop. */
  lemma CarveStart(g0: Matrix, g: Matrix, w: int, h: int, cell: Cell, ns: seq<Cell>, f0: Option<Cell>)
    requires Shaped(g0, w, h) && IsRoom(cell, w, h) && At(g0, cell) == Unvisited
    requires g == Put(g0, cell, Path)
    requires Distinct(ns)
    requires forall n :: n in ns <==> IsRoom(n, w, h) && RoomStep(cell, n) && At(g, n) == Unvisited
    ensures Shaped(g, w, h) && Carving(g0, g, w, h, cell, [cell], ns, f0, f0)
  {
    MarkedAfterPut(g0, cell, Path, Unvisited);
    MinusOneCard(Marked(g0, Unvisited), cell);
  }

  /** Every pick from the list is a room one step from `cell`. */
  lemma CarvePick(g0: Matrix, g1: Matrix, w: int, h: int, cell: Cell, e: seq<Cell>, ns: seq<Cell>,
                  f0: Option<Cell>, f1: Option<Cell>, chosen: Cell)
    requires Shaped(g0, w, h) && Shaped(g1, w, h) && Carving(g0, g1, w, h, cell, e, ns, f0, f1)
    requires chosen in ns
    ensures IsRoom(cell, w, h) && IsRoom(chosen, w, h) && RoomStep(cell, chosen)
  {
  }

  /** Carving the seam towards an Unvisited pick leaves the pick Unvisited
      and does not raise the Unvisited count, so the recursive call makes
      progress. */
  lemma CarveSeam(g1: Matrix, w: int, h: int, chosen: Cell, s: Cell)
    requires Shaped(g1, w, h) && IsRoom(chosen, w, h) && At(g1, chosen) == Unvisited && IsSeam(s, w, h)
    ensures Within(s, w, h) && Shaped(Put(g1, s, Path), w, h)
    ensures At(Put(g1, s, Path), chosen) == Unvisited
    ensures |Marked(Put(g1, s, Path), Unvisited)| <= |Marked(g1, Unvisited)|
  {
    MarkedAfterPut(g1, s, Path, Unvisited);
    MinusOneCard(Marked(g1, Unvisited), s);
  }

  /** Carving the seam leaves the Unvisited count below where the call started. */
  lemma CarveSeamCount(g0: Matrix, g1: Matrix, w: int, h: int, cell: Cell, e: seq<Cell>, ns: seq<Cell>,
                       f0: Option<Cell>, f1: Option<Cell>, s: Cell)
    requires Shaped(g0, w, h) && Shaped(g1, w, h) && Carving(g0, g1, w, h, cell, e, ns, f0, f1) && Has(g1, s)
    ensures |Marked(Put(g1, s, Path), Unvisited)| < |Marked(g0, Unvisited)|
  {
    MarkedAfterPut(g1, s, Path, Unvisited);
    MinusOneCard(Marked(g1, Unvisited), s);
  }

  /** The seam write and the recursive call compose with the writes so far
      into one legal carve whose entered list is the two lists joined. */
  lemma DescendWrites(g0: Matrix, g1: Matrix, g3: Matrix, w: int, h: int, e: seq<Cell>, sub: seq<Cell>, s: Cell)
    requires Shaped(g0, w, h) && Shaped(g1, w, h) && Shaped(g3, w, h)
    requires CarvedFrom(g0, g1, w, h) && EnteredExactly(g0, g1, w, h, e) && IsSeam(s, w, h)
    requires Shaped(Put(g1, s, Path), w, h)
    requires CarvedFrom(Put(g1, s, Path), g3, w, h) && EnteredExactly(Put(g1, s, Path), g3, w, h, sub)
    ensures CarvedFrom(g0, g3, w, h) && CarvedFrom(g1, g3, w, h)
    ensures EnteredExactly(g0, g3, w, h, e + sub)
  {
    var g2 := Put(g1, s, Path);
    assert CarvedFrom(g1, g2, w, h);
    CarvedTrans(g0, g1, g2, w, h);
    assert EnteredExactly(g1, g2, w, h, []);
    EnteredTrans(g0, g1, g2, w, h, e, []);
    assert e + [] == e;
    CarvedTrans(g0, g2, g3, w, h);
    CarvedTrans(g1, g2, g3, w, h);
    EnteredTrans(g0, g2, g3, w, h, e, sub);
  }

  /** Rooms closed before the seam write stay closed, and the rooms the
      recursive call entered are closed by it. */
  lemma DescendClosed(g0: Matrix, g1: Matrix, g3: Matrix, w: int, h: int, cell: Cell, s: Cell)
    requires Shaped(g0, w, h) && Shaped(g1, w, h) && Shaped(g3, w, h)
    requires forall a, b ::
          IsRoom(a, w, h) && IsRoom(b, w, h) && RoomStep(a, b) && a != cell &&
          At(g0, a) == Unvisited && At(g1, a) != Unvisited
          ==> At(g1, b) != Unvisited
    requires IsSeam(s, w, h) && Shaped(Put(g1, s, Path), w, h)
    requires CarvedFrom(Put(g1, s, Path), g3, w, h) && ClosedSince(Put(g1, s, Path), g3, w, h)
    ensures forall a, b ::
          IsRoom(a, w, h) && IsRoom(b, w, h) && RoomStep(a, b) && a != cell &&
          At(g0, a) == Unvisited && At(g3, a) != Unvisited
          ==> At(g3, b) != Unvisited
  {
    var g2 := Put(g1, s, Path);
    CarvedMonotone(g2, g3, w, h);
    forall a, b | IsRoom(a, w, h) && IsRoom(b, w, h) && RoomStep(a, b) && a != cell &&
                  At(g0, a) == Unvisited && At(g3, a) != Unvisited
      ensures At(g3, b) != Unvisited
    {
      if At(g2, a) != Unvisited {
        assert At(g1, a) != Unvisited;
        assert At(g1, b) != Unvisited && At(g2, b) == At(g1, b);
      }
    }
  }

  /** After the seam towards an Unvisited pick is carved and the recursive
      call into the pick returns, the loop's invariant holds again without
      the pick, with the rooms of the call appended. */
  lemma CarveDescend(g0: Matrix, g1: Matrix, g2: Matrix, g3: Matrix, w: int, h: int, cell: Cell,
                     e: seq<Cell>, sub: seq<Cell>, ns: seq<Cell>, chosen: Cell, s: Cell,
                     f0: Option<Cell>, f1: Option<Cell>, f3: Option<Cell>)
    requires Shaped(g0, w, h) && Shaped(g1, w, h) && Shaped(g2, w, h) && Shaped(g3, w, h)
    requires Carving(g0, g1, w, h, cell, e, ns, f0, f1) && chosen in ns && At(g1, chosen) == Unvisited
    requires IsSeam(s, w, h) && g2 == Put(g1, s, Path)
    requires Carved(g2, g3, w, h, chosen, sub, Some(chosen), f3)
    ensures Carving(g0, g3, w, h, cell, e + sub, RemoveFirst(ns, chosen), f0, f3)
  {
    CarveSeamCount(g0, g1, w, h, cell, e, ns, f0, f1, s);
    DescendWrites(g0, g1, g3, w, h, e, sub, s);
    DescendClosed(g0, g1, g3, w, h, cell, s);
    StepsLeft(g1, g3, w, h, cell, ns, chosen);
    LastOfAppend(e, sub);
  }

  /** The steps from `cell` still to try once `chosen` is taken out. */
  lemma StepsLeft(g1: Matrix, g3: Matrix, w: int, h: int, cell: Cell, ns: seq<Cell>, chosen: Cell)
    requires Shaped(g1, w, h) && Shaped(g3, w, h) && CarvedFrom(g1, g3, w, h)
    requires Distinct(ns) && (forall n :: n in ns ==> IsRoom(n, w, h) && RoomStep(cell, n))
    requires forall n :: IsRoom(n, w, h) && RoomStep(cell, n) && n !in ns ==> At(g1, n) != Unvisited
    requires IsRoom(chosen, w, h) && At(g3, chosen) != Unvisited
    ensures var rest := RemoveFirst(ns, chosen);
      && Distinct(rest) && (forall n :: n in rest ==> IsRoom(n, w, h) && RoomStep(cell, n))
      && (forall n :: IsRoom(n, w, h) && RoomStep(cell, n) && n !in rest ==> At(g3, n) != Unvisited)
  {
    CarvedMonotone(g1, g3, w, h);
    RemoveFirstDistinct(ns, chosen);
  }

  /** A pick that is no longer Unvisited just leaves the list. */
  lemma CarveSkip(g0: Matrix, g: Matrix, w: int, h: int, cell: Cell, e: seq<Cell>, ns: seq<Cell>, chosen: Cell,
                  f0: Option<Cell>, f: Option<Cell>)
    requires Shaped(g0, w, h) && Shaped(g, w, h) && Carving(g0, g, w, h, cell, e, ns, f0, f)
    requires chosen in ns && At(g, chosen) != Unvisited
    ensures Carving(g0, g, w, h, cell, e, RemoveFirst(ns, chosen), f0, f)
  {
    RemoveFirstDistinct(ns, chosen);
  }

  /** With the list empty, every room this call entered is closed. */
  lemma CarveDone(g0: Matrix, g: Matrix, w: int, h: int, cell: Cell, e: seq<Cell>, f0: Option<Cell>, f: Option<Cell>)
    requires Shaped(g0, w, h) && Shaped(g, w, h) && Carving(g0, g, w, h, cell, e, [], f0, f)
    ensures Carved(g0, g, w, h, cell, e, f0, f)
  {
  }

  /** A list in strict row-major order has no repetitions. */
  lemma SortedDistinct(s: seq<Cell>)
    requires RowMajorSorted(s)
    ensures Distinct(s)
  {
    forall i, j | 0 <= i < j < |s| ensures s[i] != s[j] {
      SortedPairwise(s, i, j);
    }
  }

  // ----- Dead ends -----

  /** How many of the four orthogonal neighbours of an inner cell are walls. */
  function WallsAround(g: Matrix, w: int, h: int, c: Cell): (k: nat)
    requires Shaped(g, w, h) && Interior(c, w, h)
    ensures k <= 4
  {
    (if At(g, Cell(c.x + 1, c.y)) == Wall then 1 else 0) +
    (if At(g, Cell(c.x - 1, c.y)) == Wall then 1 else 0) +
    (if At(g, Cell(c.x, c.y + 1)) == Wall then 1 else 0) +
    (if At(g, Cell(c.x, c.y - 1)) == Wall then 1 else 0)
  }

  /** An inner cell with walls on exactly three sides. */
  predicate DeadEnd(g: Matrix, w: int, h: int, c: Cell)
    requires Shaped(g, w, h)
  {
    Interior(c, w, h) && WallsAround(g, w, h, c) == 3
  }

  /** The scan of `dead_ends` after `i` of the Path cells: all of them were
      inner cells, `ends` holds the dead ends among them, in order, and
      the next Path cell comes after the last one found. */
  ghost predicate EndsScan(g: Matrix, w: int, h: int, paths: seq<Cell>, i: int, ends: seq<Cell>)
    requires Shaped(g, w, h)
  {
    && 0 <= i <= |paths|
    && (forall k :: 0 <= k < |paths| ==> Within(paths[k], w, h) && At(g, paths[k]) == Path)
    && RowMajorSorted(paths)
    && (forall k :: 0 <= k < i ==> Interior(paths[k], w, h))
    && (forall c :: c in ends ==> Within(c, w, h) && At(g, c) == Path && DeadEnd(g, w, h, c))
    && (forall k :: 0 <= k < i && DeadEnd(g, w, h, paths[k]) ==> paths[k] in ends)
    && RowMajorSorted(ends)
    && (|ends| > 0 && i < |paths| ==> RowMajorBefore(ends[|ends| - 1], paths[i]))
  }

  /** The scan starts with the row-major list of every Path cell. */
  lemma EndsStart(g: Matrix, w: int, h: int, paths: seq<Cell>)
    requires Shaped(g, w, h)
    requires forall i :: 0 <= i < |paths| ==> Within(paths[i], w, h) && At(g, paths[i]) == Path
    requires RowMajorSorted(paths)
    ensures EndsScan(g, w, h, paths, 0, [])
  {
  }

  /** One more inner Path cell scanned: it joins `ends` exactly when it is a dead end. */
  lemma EndsStep(g: Matrix, w: int, h: int, paths: seq<Cell>, i: int, ends: seq<Cell>, ends': seq<Cell>)
    requires Shaped(g, w, h) && EndsScan(g, w, h, paths, i, ends)
    requires i < |paths| && Interior(paths[i], w, h)
    requires ends' == if DeadEnd(g, w, h, paths[i]) then ends + [paths[i]] else ends
    ensures EndsScan(g, w, h, paths, i + 1, ends')
  {
    if DeadEnd(g, w, h, paths[i]) {
      EndsAdd(g, w, h, paths, i, ends);
    } else {
      EndsKeep(g, w, h, paths, i, ends);
    }
  }

  lemma EndsAdd(g: Matrix, w: int, h: int, paths: seq<Cell>, i: int, ends: seq<Cell>)
    requires Shaped(g, w, h) && EndsScan(g, w, h, paths, i, ends)
    requires i < |paths| && Interior(paths[i], w, h) && DeadEnd(g, w, h, paths[i])
    ensures EndsScan(g, w, h, paths, i + 1, ends + [paths[i]])
  {
    var ends' := ends + [paths[i]];
    SortedSnoc(ends, paths[i]);
    assert forall c :: c in ends' <==> c in ends || c == paths[i];
    if i + 1 < |paths| {
      assert OrderedAt(paths, i + 1);
      assert ends'[|ends'| - 1] == paths[i];
    }
  }

  lemma EndsKeep(g: Matrix, w: int, h: int, paths: seq<Cell>, i: int, ends: seq<Cell>)
    requires Shaped(g, w, h) && EndsScan(g, w, h, paths, i, ends)
    requires i < |paths| && Interior(paths[i], w, h) && !DeadEnd(g, w, h, paths[i])
    ensures EndsScan(g, w, h, paths, i + 1, ends)
  {
    if i + 1 < |paths| {
      assert OrderedAt(paths, i + 1);
    }
  }

  /** Appending a cell that comes after the last one keeps a list sorted. */
  lemma SortedSnoc(s: seq<Cell>, c: Cell)
    requires RowMajorSorted(s) && (|s| > 0 ==> RowMajorBefore(s[|s| - 1], c))
    ensures RowMajorSorted(s + [c])
  {
    var s' := s + [c];
    forall k | 0 < k < |s'| ensures OrderedAt(s', k) {
      if k < |s| {
        assert OrderedAt(s, k);
      }
    }
  }

  /** The finished scan: no Path cell is on the outer wall, and `ends` holds
      exactly the dead ends among them. */
  lemma EndsDone(g: Matrix, w: int, h: int, paths: seq<Cell>, ends: seq<Cell>)
    requires Shaped(g, w, h) && EndsScan(g, w, h, paths, |paths|, ends)
    requires forall c :: Within(c, w, h) && At(g, c) == Path ==> c in paths
    ensures forall c :: Within(c, w, h) && At(g, c) == Path ==> Interior(c, w, h)
    ensures forall c :: c in ends <==> Within(c, w, h) && At(g, c) == Path && DeadEnd(g, w, h, c)
    ensures RowMajorSorted(ends)
  {
  }

  // ----- Extra walls -----

  /** The loop of `add_more_walls` after `i` cells were walled: `cells`
      lists, once each, the cells still Unvisited, and the only changes
      are Unvisited cells turned into walls. */
  ghost predicate WallsLoop(g0: Matrix, g: Matrix, w: int, h: int, cells: seq<Cell>, before: int, i: int)
    requires Shaped(g0, w, h) && Shaped(g, w, h)
  {
    && Distinct(cells) && (set c | c in cells) == Marked(g, Unvisited)
    && |cells| == before - i
    && WallsAdded(g0, g, w, h)
  }

  /** The list of every Unvisited cell starts the loop. */
  lemma WallsStart(g: Matrix, w: int, h: int, cells: seq<Cell>)
    requires Shaped(g, w, h)
    requires forall i :: 0 <= i < |cells| ==> Within(cells[i], w, h) && At(g, cells[i]) == Unvisited
    requires RowMajorSorted(cells)
    requires forall c :: Within(c, w, h) && At(g, c) == Unvisited ==> c in cells
    ensures WallsLoop(g, g, w, h, cells, |Marked(g, Unvisited)|, 0)
  {
    SortedDistinct(cells);
    ListsMarked(g, w, h, cells, Unvisited);
    DistinctCard(cells);
  }

  /** Walling one listed cell and dropping it from the list keeps the loop's facts. */
  lemma WallsStep(g0: Matrix, g: Matrix, w: int, h: int, cells: seq<Cell>, before: int, i: int, cell: Cell)
    requires Shaped(g0, w, h) && Shaped(g, w, h) && WallsLoop(g0, g, w, h, cells, before, i)
    requires cell in cells
    ensures Within(cell, w, h) && At(g, cell) == Unvisited
    ensures WallsLoop(g0, Put(g, cell, Wall), w, h, RemoveFirst(cells, cell), before, i + 1)
  {
    assert cell in Marked(g, Unvisited);
    RemoveFirstDistinct(cells, cell);
    MarkedAfterPut(g, cell, Wall, Unvisited);
  }

  /** At the end of the loop the list is as long as the set of Unvisited cells. */
  lemma WallsCount(g0: Matrix, g: Matrix, w: int, h: int, cells: seq<Cell>, before: int, i: int)
    requires Shaped(g0, w, h) && Shaped(g, w, h) && WallsLoop(g0, g, w, h, cells, before, i)
    ensures |Marked(g, Unvisited)| == before - i && WallsAdded(g0, g, w, h)
  {
    DistinctCard(cells);
  }

  /** What a finished carve says about the rooms it entered and the finish. */
  lemma CarvedEntries(g0: Matrix, g: Matrix, w: int, h: int, cell: Cell, e: seq<Cell>, f0: Option<Cell>, f: Option<Cell>)
    requires Shaped(g0, w, h) && Shaped(g, w, h) && Carved(g0, g, w, h, cell, e, f0, f)
    ensures IsRoom(cell, w, h) && At(g, cell) == Path
    ensures |e| >= 1 && e[0] == cell
    ensures forall i :: 0 <= i < |e| ==> IsRoom(e[i], w, h) && At(g, e[i]) == Path
    ensures f == if |e| == 1 then f0 else Some(e[|e| - 1])
  {
  }

  /** A product with a zero walls factor rounds to no extra walls. */
  lemma NoExtraWalls(n: int)
    ensures RoundHalfEven(n as real * 0.0) == 0
  {
    assert n as real * 0.0 == 0.0;
  }

  // ----- Building the maze -----

  /** `g1` differs from `g0` only where an Unvisited cell became a Wall. */
  ghost predicate WallsAdded(g0: Matrix, g1: Matrix, w: int, h: int)
    requires Shaped(g0, w, h) && Shaped(g1, w, h)
  {
    forall c :: Within(c, w, h) ==> At(g1, c) == At(g0, c) || (At(g0, c) == Unvisited && At(g1, c) == Wall)
  }

  /** A blueprint of a maze at least 3 by 3 has an Unvisited room. */
  lemma BlueprintRoom(g: Matrix, w: int, h: int)
    requires w >= 3 && h >= 3 && Shaped(g, w, h) && IsBlueprint(g, w, h)
    ensures Cell(1, 1) in Marked(g, Unvisited)
  {
    assert At(g, Cell(1, 1)) == Unvisited;
  }

  /** After the extra walls, a cell still Unvisited is a room. */
  lemma WalledRoom(bp: Matrix, walled: Matrix, w: int, h: int, c: Cell)
    requires w % 2 == 1 && h % 2 == 1 && Shaped(bp, w, h) && Shaped(walled, w, h)
    requires IsBlueprint(bp, w, h) && WallsAdded(bp, walled, w, h)
    requires Has(walled, c) && At(walled, c) == Unvisited
    ensures IsRoom(c, w, h)
  {
    assert At(bp, c) == Unvisited;
  }

  /** The extra walls and the carve leave the outer ring all Wall. */
  lemma CarvedRing(bp: Matrix, walled: Matrix, g: Matrix, w: int, h: int)
    requires w % 2 == 1 && h % 2 == 1 && Shaped(bp, w, h) && Shaped(walled, w, h) && Shaped(g, w, h)
    requires IsBlueprint(bp, w, h) && WallsAdded(bp, walled, w, h) && CarvedFrom(walled, g, w, h)
    ensures RingIsWall(g, w, h)
  {
    forall c | Within(c, w, h) && !Interior(c, w, h) ensures At(g, c) == Wall {
      assert At(bp, c) == Wall;
    }
  }

  /** Without extra walls the carve reaches every room: no cell is left
      Unvisited and every cell is a Wall or a Path. */
  lemma FullCarve(bp: Matrix, g: Matrix, w: int, h: int, s: Cell)
    requires w % 2 == 1 && h % 2 == 1 && Shaped(bp, w, h) && Shaped(g, w, h) && IsBlueprint(bp, w, h)
    requires CarvedFrom(bp, g, w, h) && ClosedSince(bp, g, w, h)
    requires IsRoom(s, w, h) && At(g, s) == Path
    ensures NoUnvisited(g)
    ensures forall c :: Within(c, w, h) ==> At(g, c) == Wall || At(g, c) == Path
  {
    assert ClosedCarve(g, w, h) by {
      forall a, b | IsRoom(a, w, h) && IsRoom(b, w, h) && RoomStep(a, b) && At(g, a) != Unvisited
        ensures At(g, b) != Unvisited
      {
        assert At(bp, a) == Unvisited;
      }
    }
    AllRoomsReached(g, w, h, s);
    forall c | Within(c, w, h) ensures At(g, c) == Wall || At(g, c) == Path {
      if IsRoom(c, w, h) {
        assert At(bp, c) == Unvisited;
      } else {
        assert At(bp, c) == Wall;
      }
    }
  }

  /** What the construction steps together establish: the blueprint, the
      extra walls (none for a zero factor) and the carve from `s`. */
  lemma Built(bp: Matrix, walled: Matrix, g: Matrix, w: int, h: int, factor: real,
              s: Cell, e: seq<Cell>, f: Option<Cell>)
    requires w % 2 == 1 && h % 2 == 1 && Shaped(bp, w, h) && Shaped(walled, w, h) && Shaped(g, w, h)
    requires IsBlueprint(bp, w, h) && WallsAdded(bp, walled, w, h)
    requires factor == 0.0 ==> walled == bp
    requires Carved(walled, g, w, h, s, e, None, f)
    ensures RingIsWall(g, w, h)
    ensures IsRoom(s, w, h) && At(g, s) == Path
    ensures |e| >= 1 && e[0] == s
    ensures forall i :: 0 <= i < |e| ==> IsRoom(e[i], w, h) && At(g, e[i]) == Path
    ensures f == if |e| == 1 then None else Some(e[|e| - 1])
    ensures factor == 0.0 ==> NoUnvisited(g)
    ensures factor == 0.0 ==> forall c :: Within(c, w, h) ==> At(g, c) == Wall || At(g, c) == Path
  {
    CarvedEntries(walled, g, w, h, s, e, None, f);
    CarvedRing(bp, walled, g, w, h);
    if factor == 0.0 {
      FullCarve(bp, g, w, h, s);
    }
  }

  /** The rooms two cells away from a room are the four cells two steps
      left, right, up and down that are not on or past the outer ring. */
  lemma RoomSteps(c: Cell, w: int, h: int)
    requires IsRoom(c, w, h)
    ensures forall n :: IsRoom(n, w, h) && RoomStep(c, n) <==>
      (n == Cell(c.x - 2, c.y) && c.x - 2 > 0) || (n == Cell(c.x + 2, c.y) && c.x + 2 < w - 1) ||
      (n == Cell(c.x, c.y - 2) && c.y - 2 > 0) || (n == Cell(c.x, c.y + 2) && c.y + 2 < h - 1)
  {
    assert (c.x - 2) % 2 == 1 && (c.x + 2) % 2 == 1;
    assert (c.y - 2) % 2 == 1 && (c.y + 2) % 2 == 1;
  }

  /** A list of exactly the cells holding `m` has them as its elements. */
  lemma ListsMarked(g: Matrix, w: int, h: int, found: seq<Cell>, m: Mark)
    requires Shaped(g, w, h)
    requires forall i :: 0 <= i < |found| ==> Within(found[i], w, h) && At(g, found[i]) == m
    requires forall c :: Within(c, w, h) && At(g, c) == m ==> c in found
    ensures (set c | c in found) == Marked(g, m)
  {
  }

  class Maze {
    const width: int
    const height: int
    const wallsFactor: real
    var grid: Matrix
    var startCell: Option<Cell>
    var finishCell: Option<Cell>
    /** The position of the row-major iterator (`__n`). */
    var cursor: int
    /** The rooms the carve entered, in the order it entered them. */
    ghost var entered: seq<Cell>

    ghost predicate Valid()
      reads this
    {
      width >= 1 && height >= 1 && Shaped(grid, width, height) && 0 <= cursor
    }

    /** The maze has the cell (an out-of-range index is an IndexError). */
    predicate InMaze(c: Cell) {
      Within(c, width, height)
    }

    /** Builds the maze: normalises the size, builds the blueprint, adds the
        extra walls, picks the start room and carves from it. The caller
        (`Create`) has checked `wallsFactor` and that a room exists. */
    constructor (w: int, h: int, wallsFactor: real)
      requires 0.0 <= wallsFactor <= 1.0
      requires OddSize(w) >= 3 && OddSize(h) >= 3
      ensures Valid()
      ensures width == OddSize(w) && height == OddSize(h) && this.wallsFactor == wallsFactor
      ensures RingIsWall(grid, width, height)
      ensures startCell.Some? && IsRoom(startCell.value, width, height) && At(grid, startCell.value) == Path
      ensures |entered| >= 1 && entered[0] == startCell.value
      ensures forall i :: 0 <= i < |entered| ==> IsRoom(entered[i], width, height) && At(grid, entered[i]) == Path
      ensures finishCell == if |entered| == 1 then None else Some(entered[|entered| - 1])
      ensures wallsFactor == 0.0 ==> NoUnvisited(grid)
      ensures wallsFactor == 0.0 ==> forall c :: InMaze(c) ==> At(grid, c) == Wall || At(grid, c) == Path
      ensures cursor == width * height
    {
      width := OddSize(w);
      height := OddSize(h);
      this.wallsFactor := wallsFactor;
      grid := [];
      cursor := 0;
      startCell := None;
      finishCell := None;
      entered := [];
      new;
      var start, blueprint := LayOut();
      startCell := Some(start);
      Carve(start, blueprint);
    }

    /** The second half of the construction: the carve from the start room
        and what it leaves behind. */
    method Carve(start: Cell, ghost blueprint: Matrix)
      requires Valid() && width % 2 == 1 && height % 2 == 1
      requires Shaped(blueprint, width, height) && IsBlueprint(blueprint, width, height)
      requires WallsAdded(blueprint, grid, width, height)
      requires wallsFactor == 0.0 ==> grid == blueprint
      requires IsRoom(start, width, height) && At(grid, start) == Unvisited
      requires finishCell == None
      modifies this`grid, this`finishCell, this`entered
      ensures Valid()
      ensures RingIsWall(grid, width, height)
      ensures IsRoom(start, width, height) && At(grid, start) == Path
      ensures |entered| >= 1 && entered[0] == start
      ensures forall i :: 0 <= i < |entered| ==> IsRoom(entered[i], width, height) && At(grid, entered[i]) == Path
      ensures finishCell == if |entered| == 1 then None else Some(entered[|entered| - 1])
      ensures wallsFactor == 0.0 ==> NoUnvisited(grid)
      ensures wallsFactor == 0.0 ==> forall c :: InMaze(c) ==> At(grid, c) == Wall || At(grid, c) == Path
    {
      ghost var walled := grid;
      entered := TrackMaze(start);
      Built(blueprint, walled, grid, width, height, wallsFactor, start, entered, finishCell);
    }

    /** The first half of the construction: the blueprint, the extra walls
        and the random Unvisited start room (`blueprint` is the grid before
        the extra walls). */
    method LayOut() returns (start: Cell, ghost blueprint: Matrix)
      requires cursor >= 0 && width >= 3 && height >= 3 && width % 2 == 1 && height % 2 == 1
      modifies this`grid, this`cursor
      ensures Valid() && cursor == width * height
      ensures Shaped(blueprint, width, height) && IsBlueprint(blueprint, width, height)
      ensures WallsAdded(blueprint, grid, width, height)
      ensures wallsFactor == 0.0 ==> grid == blueprint
      ensures IsRoom(start, width, height) && At(grid, start) == Unvisited
    {
      GenerateMazeBlueprint();
      blueprint := grid;
      BlueprintRoom(grid, width, height);
      AddMoreWalls();
      if wallsFactor == 0.0 {
        NoExtraWalls(width * height);
      }
      var cell := PickRandomCell(Unvisited);
      WalledRoom(blueprint, grid, width, height, cell.value);
      start := cell.value;
    }

    /** `Maze(width, height, walls_factor)`: the ValueError for a walls
        factor outside [0, 1] is raised after the size is normalised and
        before anything else. A maze without a room fails: when both sizes
        are negative the first scan indexes the empty row `[]`, otherwise
        the carve is asked to start from the missing start cell. */
    static method Create(w: int, h: int, wallsFactor: real) returns (r: Result<Maze, MazeError>)
      ensures r.Err? <==> wallsFactor < 0.0 || wallsFactor > 1.0 || OddSize(w) < 3 || OddSize(h) < 3
      ensures r.Err? ==> r.error == if wallsFactor < 0.0 || wallsFactor > 1.0 then InvalidWallsFactor else NoStartCell
      ensures r.Ok? ==> fresh(r.value) && r.value.Valid() && r.value.width == OddSize(w) && r.value.height == OddSize(h)
      ensures r.Ok? ==> r.value.wallsFactor == wallsFactor && RingIsWall(r.value.grid, r.value.width, r.value.height)
      ensures r.Ok? ==> r.value.startCell.Some? && IsRoom(r.value.startCell.value, r.value.width, r.value.height)
      ensures r.Ok? ==> At(r.value.grid, r.value.startCell.value) == Path
      ensures r.Ok? && wallsFactor == 0.0 ==> NoUnvisited(r.value.grid)
      ensures r.Ok? && wallsFactor == 0.0 ==>
        forall c :: r.value.InMaze(c) ==> At(r.value.grid, c) == Wall || At(r.value.grid, c) == Path
      ensures r.Ok? ==> r.value.cursor == r.value.width * r.value.height
      ensures r.Ok? ==> |r.value.entered| >= 1 && r.value.entered[0] == r.value.startCell.value
      ensures r.Ok? ==> forall i :: 0 <= i < |r.value.entered| ==>
        IsRoom(r.value.entered[i], r.value.width, r.value.height) && At(r.value.grid, r.value.entered[i]) == Path
      ensures r.Ok? ==>
        r.value.finishCell == if |r.value.entered| == 1 then None else Some(r.value.entered[|r.value.entered| - 1])
      ensures r.Ok? ==> r.value.finishCell.Some? ==> IsRoom(r.value.finishCell.value, r.value.width, r.value.height)
      ensures r.Ok? ==> r.value.finishCell.Some? ==> At(r.value.grid, r.value.finishCell.value) == Path
    {
      if wallsFactor < 0.0 || wallsFactor > 1.0 {
        return Err(InvalidWallsFactor);
      }
      if OddSize(w) < 3 || OddSize(h) < 3 {
        return Err(NoStartCell);
      }
      var m := new Maze(w, h, wallsFactor);
      if m.finishCell.Some? {
        assert m.finishCell.value == m.entered[|m.entered| - 1];
      }
      r := Ok(m);
    }

    /** The blueprint: a row of walls, then `height / 2` times a row of
        alternating Unvisited rooms and walls followed by a row of walls. */
    method GenerateMazeBlueprint()
      requires width >= 1 && height >= 1 && width % 2 == 1 && height % 2 == 1
      modifies this`grid
      ensures Shaped(grid, width, height) && IsBlueprint(grid, width, height)
    {
      var horizontalWall := seq(width, _ => Wall);
      var row := [Wall] + Pairs(width / 2);
      grid := [horizontalWall];
      for i := 0 to height / 2
        invariant |grid| == 2 * i + 1 && Striped(grid, horizontalWall, row)
      {
        StripedAppend(grid, horizontalWall, row);
        grid := grid + [row];
        grid := grid + [horizontalWall];
      }
      StripedBlueprint(grid, width, height, horizontalWall, row);
    }

    /** Turns randomly chosen Unvisited cells into walls, as many as
        `round(width * height * walls_factor)`, but always leaves one. */
    method AddMoreWalls()
      requires Valid()
      modifies this`grid, this`cursor
      ensures Valid()
      ensures cursor == if RoundHalfEven((width * height) as real * wallsFactor) <= 0 then old(cursor) else width * height
      ensures WallsAdded(old(grid), grid, width, height)
      ensures var before := |Marked(old(grid), Unvisited)|;
        var amount := RoundHalfEven((width * height) as real * wallsFactor);
        |Marked(grid, Unvisited)| == if amount <= 0 || before <= 1 then before else Max(before - amount, 1)
      ensures RoundHalfEven((width * height) as real * wallsFactor) <= 0 ==> grid == old(grid)
    {
      var amount := RoundHalfEven((width * height) as real * wallsFactor);
      if amount <= 0 {
        return;
      }
      ghost var g0 := grid;
      var cells := FindCellsByMark(Unvisited);
      ghost var before := |Marked(g0, Unvisited)|;
      WallsStart(grid, width, height, cells);
      var i := 0;
      while i < amount
        invariant 0 <= i <= amount && Valid() && cursor == width * height
        invariant WallsLoop(g0, grid, width, height, cells, before, i)
        invariant i > 0 ==> |cells| >= 1
      {
        if |cells| <= 1 {
          break;
        }
        assert cells[0] in cells;
        var cell :| cell in cells;
        WallsStep(g0, grid, width, height, cells, before, i, cell);
        cells := RemoveFirst(cells, cell);
        MarkCell(cell, Wall);
        i := i + 1;
      }
      WallsCount(g0, grid, width, height, cells, before, i);
    }

    /** A randomly chosen cell holding `m`, or None when no cell holds it. */
    method PickRandomCell(m: Mark) returns (cell: Option<Cell>)
      requires Valid()
      modifies this`cursor
      ensures Valid() && cursor == width * height
      ensures cell.None? <==> Marked(grid, m) == {}
      ensures cell.Some? ==> cell.value in Marked(grid, m)
    {
      var cells := FindCellsByMark(m);
      ListsMarked(grid, width, height, cells, m);
      if |cells| > 0 {
        var i :| 0 <= i < |cells|;
        cell := Some(cells[i]);
      } else {
        cell := None;
      }
    }

    /** The rooms two cells left, right, above and below `cell` that are
        still Unvisited and not on or past the outer ring, in that order. */
    function UnvisitedNeighbours(cell: Cell): (ns: seq<Cell>)
      reads this
      requires Valid() && IsRoom(cell, width, height)
      ensures Distinct(ns)
      ensures forall n :: n in ns <==> IsRoom(n, width, height) && RoomStep(cell, n) && At(grid, n) == Unvisited
    {
      RoomSteps(cell, width, height);
      var x, y := cell.x, cell.y;
      var left := if x - 2 > 0 && grid[y][x - 2] == Unvisited then [Cell(x - 2, y)] else [];
      var right := if x + 2 < |grid[0]| - 1 && grid[y][x + 2] == Unvisited then [Cell(x + 2, y)] else [];
      var up := if y - 2 > 0 && grid[y - 2][x] == Unvisited then [Cell(x, y - 2)] else [];
      var down := if y + 2 < |grid| - 1 && grid[y + 2][x] == Unvisited then [Cell(x, y + 2)] else [];
      left + right + up + down
    }

    /** The wall cell between two cells of one row or one column. */
    function SeamBetween(c1: Cell, c2: Cell): (s: Cell)
      requires c1.x == c2.x || c1.y == c2.y
      ensures RoomStep(c1, c2) ==> 2 * s.x == c1.x + c2.x && 2 * s.y == c1.y + c2.y
      ensures IsRoom(c1, width, height) && IsRoom(c2, width, height) && RoomStep(c1, c2) ==>
        IsSeam(s, width, height)
    {
      if c1.y == c2.y then Cell(if c1.x > c2.x then c1.x - 1 else c1.x + 1, c1.y)
      else Cell(c1.x, if c1.y > c2.y then c1.y - 1 else c1.y + 1)
    }

    /** Puts `m` on the cell between `c1` and `c2`. */
    method RemoveWall(c1: Cell, c2: Cell, m: Mark)
      requires Valid() && (c1.x == c2.x || c1.y == c2.y) && InMaze(SeamBetween(c1, c2))
      modifies this`grid
      ensures Valid() && grid == Put(old(grid), SeamBetween(c1, c2), m)
    {
      MarkCell(SeamBetween(c1, c2), m);
    }

    /** The recursive backtracker: marks `cell` Path, then keeps picking a
        random room from its list of Unvisited rooms two cells away; a pick
        that is still Unvisited becomes the finish cell, the seam between is
        carved and the carve recurses into it; every pick leaves the list.
        Every call enters one more room, so the Unvisited count falls; `e`
        lists the rooms the call entered, in order. */
    method TrackMaze(cell: Cell) returns (ghost e: seq<Cell>)
      requires Valid() && IsRoom(cell, width, height) && At(grid, cell) == Unvisited
      modifies this`grid, this`finishCell
      decreases |Marked(grid, Unvisited)|, 1
      ensures Valid()
      ensures Carved(old(grid), grid, width, height, cell, e, old(finishCell), finishCell)
    {
      ghost var g0, f0 := grid, finishCell;
      MarkCell(cell, Path);
      e := [cell];
      var neighbours := UnvisitedNeighbours(cell);
      CarveStart(g0, grid, width, height, cell, neighbours, f0);
      while |neighbours| > 0
        invariant Valid()
        invariant Carving(g0, grid, width, height, cell, e, neighbours, f0, finishCell)
        decreases |neighbours|
      {
        assert neighbours[0] in neighbours;
        var chosen :| chosen in neighbours;
        if CheckMark(chosen, Unvisited) {
          ghost var sub := Descend(cell, chosen, g0, f0, e, neighbours);
          e := e + sub;
        } else {
          CarveSkip(g0, grid, width, height, cell, e, neighbours, chosen, f0, finishCell);
        }
        neighbours := RemoveFirst(neighbours, chosen);
      }
      CarveDone(g0, grid, width, height, cell, e, f0, finishCell);
    }

    /** One pick of `TrackMaze(cell)` that is still Unvisited: it becomes the
        finish cell, the seam towards it is carved and the carve recurses
        into it; `sub` lists the rooms the recursive call entered. */
    method Descend(cell: Cell, chosen: Cell, ghost g0: Matrix, ghost f0: Option<Cell>,
                   ghost e: seq<Cell>, ghost ns: seq<Cell>) returns (ghost sub: seq<Cell>)
      requires Valid() && Shaped(g0, width, height)
      requires Carving(g0, grid, width, height, cell, e, ns, f0, finishCell)
      requires chosen in ns && At(grid, chosen) == Unvisited
      modifies this`grid, this`finishCell
      decreases |Marked(grid, Unvisited)|, 2
      ensures Valid()
      ensures Carving(g0, grid, width, height, cell, e + sub, RemoveFirst(ns, chosen), f0, finishCell)
    {
      ghost var g1, f1 := grid, finishCell;
      finishCell := Some(chosen);
      CarvePick(g0, grid, width, height, cell, e, ns, f0, f1, chosen);
      ghost var s := SeamBetween(cell, chosen);
      CarveSeam(g1, width, height, chosen, s);
      RemoveWall(cell, chosen, Path);
      ghost var g2 := grid;
      sub := TrackMaze(chosen);
      CarveDescend(g0, g1, g2, grid, width, height, cell, e, sub, ns, chosen, s, f0, f1, finishCell);
    }

    /** The cell holds `m`. */
    predicate CheckMark(c: Cell, m: Mark)
      reads this
      requires Valid() && InMaze(c)
    {
      At(grid, c) == m
    }

    /** The mark on the cell. */
    function GetMark(c: Cell): Mark
      reads this
      requires Valid() && InMaze(c)
    {
      At(grid, c)
    }

    /** Places `m` on the cell; nothing else changes. */
    method MarkCell(c: Cell, m: Mark)
      requires Valid() && InMaze(c)
      modifies this`grid
      ensures Valid() && grid == Put(old(grid), c, m)
      ensures GetMark(c) == m && CheckMark(c, m)
      ensures forall q :: InMaze(q) && q != c ==> GetMark(q) == old(GetMark(q))
    {
      grid := Put(grid, c, m);
    }

    /** `is_outer_wall`: the cell is on the outer ring or outside the maze,
        that is, it or one of its neighbours lies outside. */
    function IsOuterWall(c: Cell): bool {
      c.x <= 0 || c.x >= width - 1 || c.y <= 0 || c.y >= height - 1
    }

    /** A cell is on the outer wall exactly when it, or one of its four
        neighbours, lies outside the maze. */
    lemma OuterWallFacts(c: Cell)
      ensures IsOuterWall(c) <==> !(InMaze(c) && forall n :: Adjacent(c, n) ==> InMaze(n))
    {
      if c.x <= 0 { assert Adjacent(c, Cell(c.x - 1, c.y)); }
      if c.x >= width - 1 { assert Adjacent(c, Cell(c.x + 1, c.y)); }
      if c.y <= 0 { assert Adjacent(c, Cell(c.x, c.y - 1)); }
      if c.y >= height - 1 { assert Adjacent(c, Cell(c.x, c.y + 1)); }
    }

    /** The four orthogonal neighbours (right, left, below, above) of a cell
        that is not on the outer wall; the ValueError for one that is. */
    function GetNearest(c: Cell): (r: Result<seq<Cell>, MazeError>)
      ensures r.Err? <==> IsOuterWall(c)
      ensures r.Err? ==> r.error == OuterWallCell
      ensures r.Ok? ==> |r.value| == 4
      ensures r.Ok? ==> forall n :: n in r.value <==> Adjacent(c, n)
      ensures r.Ok? ==> forall n :: n in r.value ==> InMaze(n)
    {
      if c.x <= 0 || c.x >= width - 1 || c.y <= 0 || c.y >= height - 1 then Err(OuterWallCell)
      else Ok([Cell(c.x + 1, c.y), Cell(c.x - 1, c.y), Cell(c.x, c.y + 1), Cell(c.x, c.y - 1)])
    }

    /** The four nearest cells are four different cells. */
    lemma NearestDistinct(c: Cell)
      ensures GetNearest(c).Ok? ==> Distinct(GetNearest(c).value)
    {
    }

    /** `is_dead_end`: exactly three of the four nearest cells are walls;
        the outer wall is refused like in `get_nearest`. */
    function IsDeadEnd(c: Cell): (r: Result<bool, MazeError>)
      reads this
      requires Valid()
      ensures r.Err? <==> IsOuterWall(c)
      ensures r.Err? ==> r.error == OuterWallCell
      ensures r.Ok? ==> (r.value <==> WallsAround(grid, width, height, c) == 3)
    {
      match GetNearest(c)
      case Err(e) => Err(e)
      case Ok(nearest) =>
        CountFour(grid, nearest[0], nearest[1], nearest[2], nearest[3], Wall);
        assert nearest == [nearest[0], nearest[1], nearest[2], nearest[3]];
        Ok(CountMarks(grid, nearest, Wall) == 3)
    }

    /** `find_cells_by_mark`: a full row-major scan with the maze's own
        iterator, which it leaves exhausted; every cell holding `m`, once
        each, in row-major order. */
    method FindCellsByMark(m: Mark) returns (found: seq<Cell>)
      requires Valid()
      modifies this`cursor
      ensures Valid() && cursor == width * height
      ensures forall i :: 0 <= i < |found| ==> InMaze(found[i]) && At(grid, found[i]) == m
      ensures RowMajorSorted(found)
      ensures forall c :: InMaze(c) && At(grid, c) == m ==> c in found
    {
      found := [];
      cursor := 0;
      while cursor < width * height
        invariant 0 <= cursor <= width * height
        invariant forall i :: 0 <= i < |found| ==>
          InMaze(found[i]) && At(grid, found[i]) == m && Index(found[i], width) < cursor
        invariant forall i, j :: 0 <= i < j < |found| ==> Index(found[i], width) < Index(found[j], width)
        invariant forall k :: 0 <= k < cursor ==> InMaze(CellAt(k, width))
        invariant forall k :: 0 <= k < cursor && At(grid, CellAt(k, width)) == m ==> CellAt(k, width) in found
      {
        CellAtIndex(cursor, width, height);
        var c := CellAt(cursor, width);
        if At(grid, c) == m {
          found := found + [c];
        }
        cursor := cursor + 1;
      }
      forall c | InMaze(c) && At(grid, c) == m ensures c in found {
        IndexCellAt(c, width, height);
      }
      forall i | 0 < i < |found| ensures OrderedAt(found, i) {
        IndexOrder(found[i - 1], found[i], width);
      }
    }

    /** `dead_ends`: the Path cells that are dead ends, in row-major order;
        a Path cell on the outer wall makes it raise. */
    method DeadEnds() returns (r: Result<seq<Cell>, MazeError>)
      requires Valid()
      modifies this`cursor
      ensures Valid() && cursor == width * height
      ensures r.Err? <==> exists c :: InMaze(c) && At(grid, c) == Path && IsOuterWall(c)
      ensures r.Err? ==> r.error == OuterWallCell
      ensures r.Ok? ==> forall c :: c in r.value <==> InMaze(c) && At(grid, c) == Path && DeadEnd(grid, width, height, c)
      ensures r.Ok? ==> RowMajorSorted(r.value)
    {
      var paths := FindCellsByMark(Path);
      r := ScanEnds(paths);
      if r.Ok? {
        EndsDone(grid, width, height, paths, r.value);
        NoOuterWallPath();
      }
    }

    /** The loop of `dead_ends` over the row-major list of Path cells: it
        stops at the first one on the outer wall, and otherwise keeps the
        dead ends in their order. */
    method ScanEnds(paths: seq<Cell>) returns (r: Result<seq<Cell>, MazeError>)
      requires Valid()
      requires forall k :: 0 <= k < |paths| ==> Within(paths[k], width, height) && At(grid, paths[k]) == Path
      requires RowMajorSorted(paths)
      ensures r.Err? ==> exists c :: c in paths && IsOuterWall(c)
      ensures r.Err? ==> r.error == OuterWallCell
      ensures r.Ok? ==> EndsScan(grid, width, height, paths, |paths|, r.value)
    {
      EndsStart(grid, width, height, paths);
      var ends: seq<Cell> := [];
      var i := 0;
      while i < |paths|
        invariant EndsScan(grid, width, height, paths, i, ends)
      {
        var c := paths[i];
        var d := IsDeadEnd(c);
        if d.Err? {
          return Err(d.error);
        }
        DeadEndAnswer(c, d);
        ghost var before := ends;
        if d.value {
          ends := ends + [c];
        }
        EndsStep(grid, width, height, paths, i, before, ends);
        i := i + 1;
      }
      return Ok(ends);
    }

    /** A cell `is_dead_end` answers for is an inner cell, and the answer
        is whether it is a dead end. */
    lemma DeadEndAnswer(c: Cell, d: Result<bool, MazeError>)
      requires Valid() && d == IsDeadEnd(c) && d.Ok?
      ensures Interior(c, width, height)
      ensures d.value <==> DeadEnd(grid, width, height, c)
    {
    }

    /** When every Path cell is an inner cell, no Path cell is on the outer wall. */
    lemma NoOuterWallPath()
      requires Valid()
      requires forall c :: Within(c, width, height) && At(grid, c) == Path ==> Interior(c, width, height)
      ensures !exists c :: InMaze(c) && At(grid, c) == Path && IsOuterWall(c)
    {
    }

    /** `__iter__`: restarts the row-major scan. */
    method Iter()
      requires Valid()
      modifies this`cursor
      ensures Valid() && cursor == 0
    {
      cursor := 0;
    }

    /** `__next__`: the mark and the cell at the cursor, which moves on;
        None (StopIteration) once all `width * height` cells are done. */
    method Next() returns (r: Option<(Mark, Cell)>)
      requires Valid()
      modifies this`cursor
      ensures Valid()
      ensures old(cursor) < width * height ==>
        cursor == old(cursor) + 1 && InMaze(CellAt(old(cursor), width)) &&
        r == Some((At(grid, CellAt(old(cursor), width)), CellAt(old(cursor), width)))
      ensures old(cursor) >= width * height ==> cursor == old(cursor) && r.None?
    {
      if cursor < width * height {
        CellAtIndex(cursor, width, height);
        var c := CellAt(cursor, width);
        var mark := grid[c.y][c.x];
        cursor := cursor + 1;
        r := Some((mark, c));
      } else {
        r := None;
      }
    }
  }

  function Max(a: int, b: int): int {
    if a >= b then a else b
  }
}
