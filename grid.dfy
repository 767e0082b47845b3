/** The mark vocabulary, cell coordinates and the pure facts about a
    mark matrix that the maze class and the entities build on
    (maze.py). A matrix is a list of rows; `At(g, c)` is `g[c.y][c.x]`. */
module Grid {
  import opened Wrappers

  /** What a cell holds; exactly one mark per cell. */
  datatype Mark = Unvisited | Wall | Path | Coin | Door | Monster | Robot

  /** The numbering the source gives the marks, in declaration order. */
  function Code(m: Mark): (k: nat)
    ensures k <= 6
  {
    match m
    case Unvisited => 0
    case Wall => 1
    case Path => 2
    case Coin => 3
    case Door => 4
    case Monster => 5
    case Robot => 6
  }

  /** The mark with a given number, if there is one. */
  function FromCode(k: int): (r: Option<Mark>)
    ensures r.Some? <==> 0 <= k <= 6
    ensures r.Some? ==> Code(r.value) == k
  {
    if k == 0 then Some(Unvisited)
    else if k == 1 then Some(Wall)
    else if k == 2 then Some(Path)
    else if k == 3 then Some(Coin)
    else if k == 4 then Some(Door)
    else if k == 5 then Some(Monster)
    else if k == 6 then Some(Robot)
    else None
  }

  /** The numbering is a bijection between the marks and 0..6. */
  lemma CodeRoundTrip(m: Mark)
    ensures FromCode(Code(m)) == Some(m)
  {
  }

  /** A cell of the matrix: column `x`, row `y`. */
  datatype Cell = Cell(x: int, y: int)

  type Matrix = seq<seq<Mark>>

  /** `g` has `h` rows of `w` marks each. */
  predicate Shaped(g: Matrix, w: int, h: int) {
    |g| == h && forall y :: 0 <= y < |g| ==> |g[y]| == w
  }

  predicate Has(g: Matrix, c: Cell) {
    0 <= c.y < |g| && 0 <= c.x < |g[c.y]|
  }

  function At(g: Matrix, c: Cell): Mark
    requires Has(g, c)
  {
    g[c.y][c.x]
  }

  /** The matrix with cell `c` overwritten by `m`. */
  function Put(g: Matrix, c: Cell, m: Mark): (g': Matrix)
    requires Has(g, c)
    ensures |g'| == |g| && forall y :: 0 <= y < |g| ==> |g'[y]| == |g[y]|
    ensures Has(g', c) && At(g', c) == m
    ensures forall q :: Has(g, q) && q != c ==> Has(g', q) && At(g', q) == At(g, q)
  {
    g[c.y := g[c.y][c.x := m]]
  }

  /** Overwriting a cell keeps the matrix's shape. */
  lemma PutShape(g: Matrix, c: Cell, m: Mark, w: int, h: int)
    requires Shaped(g, w, h) && Has(g, c)
    ensures Shaped(Put(g, c, m), w, h)
  {
  }

  /** Overwriting an inner cell keeps the outer ring all Wall. */
  lemma RingAfterPut(g: Matrix, w: int, h: int, c: Cell, m: Mark)
    requires Shaped(g, w, h) && RingIsWall(g, w, h) && Interior(c, w, h)
    ensures Shaped(Put(g, c, m), w, h) && RingIsWall(Put(g, c, m), w, h)
  {
    var g' := Put(g, c, m);
    forall q | Within(q, w, h) && !Interior(q, w, h) ensures At(g', q) == Wall {
      assert q != c && Has(g, q);
    }
  }

  /** Two matrices of one shape that agree on every cell are equal. */
  lemma SameMatrix(g1: Matrix, g2: Matrix, w: int, h: int)
    requires Shaped(g1, w, h) && Shaped(g2, w, h)
    requires forall c :: Within(c, w, h) ==> At(g1, c) == At(g2, c)
    ensures g1 == g2
  {
    forall y | 0 <= y < h ensures g1[y] == g2[y] {
      forall x | 0 <= x < w ensures g1[y][x] == g2[y][x] {
        assert At(g1, Cell(x, y)) == At(g2, Cell(x, y));
      }
    }
  }

  /** Orthogonal neighbours: one step in exactly one coordinate. */
  predicate Adjacent(a: Cell, b: Cell) {
    (a.y == b.y && (b.x == a.x + 1 || b.x == a.x - 1)) ||
    (a.x == b.x && (b.y == a.y + 1 || b.y == a.y - 1))
  }

  /** Not on the outer ring and not outside it. */
  predicate Interior(c: Cell, w: int, h: int) {
    0 < c.x < w - 1 && 0 < c.y < h - 1
  }

  predicate Within(c: Cell, w: int, h: int) {
    0 <= c.x < w && 0 <= c.y < h
  }

  /** A room cell: odd column and odd row, strictly inside the ring. */
  predicate IsRoom(c: Cell, w: int, h: int) {
    c.x % 2 == 1 && c.y % 2 == 1 && Interior(c, w, h)
  }

  /** A seam cell: inside the ring with exactly one even coordinate, so it
      lies midway between two rooms in a row or a column. */
  predicate IsSeam(c: Cell, w: int, h: int) {
    Interior(c, w, h) && (c.x % 2 == 0) != (c.y % 2 == 0)
  }

  /** Rooms two cells apart in a row or a column, the seam between them. */
  predicate RoomStep(a: Cell, b: Cell) {
    (a.y == b.y && (b.x == a.x + 2 || b.x == a.x - 2)) ||
    (a.x == b.x && (b.y == a.y + 2 || b.y == a.y - 2))
  }

  /** The cells of `g` that hold `m`. */
  function Marked(g: Matrix, m: Mark): (s: set<Cell>)
    ensures forall c :: c in s <==> Has(g, c) && At(g, c) == m
  {
    var s := set y, x | 0 <= y < |g| && 0 <= x < |g[y]| && g[y][x] == m :: Cell(x, y);
    assert forall c :: Has(g, c) && At(g, c) == m ==> c in s by {
      forall c | Has(g, c) && At(g, c) == m ensures c in s {
        assert c == Cell(c.x, c.y);
      }
    }
    s
  }

  /** Overwriting one cell moves it between the marked sets and leaves every
      other cell where it was. */
  lemma MarkedAfterPut(g: Matrix, c: Cell, m: Mark, k: Mark)
    requires Has(g, c)
    ensures Marked(Put(g, c, m), k) == if m == k then Marked(g, k) + {c} else Marked(g, k) - {c}
  {
    var g' := Put(g, c, m);
    forall q ensures q in Marked(g', k) <==> q in (if m == k then Marked(g, k) + {c} else Marked(g, k) - {c}) {
      if Has(g, q) && q != c {
        assert At(g', q) == At(g, q);
      }
    }
  }

  /** Every cell of the outer ring holds Wall. */
  ghost predicate RingIsWall(g: Matrix, w: int, h: int)
    requires Shaped(g, w, h)
  {
    forall c :: Within(c, w, h) && !Interior(c, w, h) ==> At(g, c) == Wall
  }

  /** No cell holds Unvisited. */
  ghost predicate NoUnvisited(g: Matrix) {
    forall c :: Has(g, c) ==> At(g, c) != Unvisited
  }

  /** `g1` has no Wall cell that was not a Wall in `g0`. */
  ghost predicate NoNewWalls(g0: Matrix, g1: Matrix)
    requires |g0| == |g1| && forall y :: 0 <= y < |g0| ==> |g0[y]| == |g1[y]|
  {
    forall c :: Has(g1, c) && At(g1, c) == Wall ==> At(g0, c) == Wall
  }

  /** The blueprint before carving: rooms Unvisited, everything else Wall. */
  ghost predicate IsBlueprint(g: Matrix, w: int, h: int)
    requires Shaped(g, w, h)
  {
    forall c :: Within(c, w, h) ==>
      At(g, c) == if c.x % 2 == 1 && c.y % 2 == 1 then Unvisited else Wall
  }

  /** Every room that is no longer Unvisited has no Unvisited room two cells
      away: what a finished depth-first carve leaves behind. */
  ghost predicate ClosedCarve(g: Matrix, w: int, h: int)
    requires Shaped(g, w, h)
  {
    forall a, b :: IsRoom(a, w, h) && IsRoom(b, w, h) && RoomStep(a, b) && At(g, a) != Unvisited ==>
      At(g, b) != Unvisited
  }

  /** Moving along a row from a reached room reaches every room of that row. */
  lemma {:induction false} WalkRow(g: Matrix, w: int, h: int, a: Cell, tx: int)
    requires Shaped(g, w, h) && ClosedCarve(g, w, h)
    requires IsRoom(a, w, h) && IsRoom(Cell(tx, a.y), w, h) && At(g, a) != Unvisited
    ensures At(g, Cell(tx, a.y)) != Unvisited
    decreases if tx > a.x then tx - a.x else a.x - tx
  {
    if tx > a.x {
      var b := Cell(a.x + 2, a.y);
      assert IsRoom(b, w, h) && RoomStep(a, b);
      WalkRow(g, w, h, b, tx);
    } else if tx < a.x {
      var b := Cell(a.x - 2, a.y);
      assert IsRoom(b, w, h) && RoomStep(a, b);
      WalkRow(g, w, h, b, tx);
    }
  }

  /** Moving along a column from a reached room reaches every room of it. */
  lemma {:induction false} WalkColumn(g: Matrix, w: int, h: int, a: Cell, ty: int)
    requires Shaped(g, w, h) && ClosedCarve(g, w, h)
    requires IsRoom(a, w, h) && IsRoom(Cell(a.x, ty), w, h) && At(g, a) != Unvisited
    ensures At(g, Cell(a.x, ty)) != Unvisited
    decreases if ty > a.y then ty - a.y else a.y - ty
  {
    if ty > a.y {
      var b := Cell(a.x, a.y + 2);
      assert IsRoom(b, w, h) && RoomStep(a, b);
      WalkColumn(g, w, h, b, ty);
    } else if ty < a.y {
      var b := Cell(a.x, a.y - 2);
      assert IsRoom(b, w, h) && RoomStep(a, b);
      WalkColumn(g, w, h, b, ty);
    }
  }

  /** The room grid is connected: once one room is reached and the carve is
      closed, every room is reached. */
  lemma AllRoomsReached(g: Matrix, w: int, h: int, s: Cell)
    requires Shaped(g, w, h) && ClosedCarve(g, w, h)
    requires IsRoom(s, w, h) && At(g, s) != Unvisited
    ensures forall r :: IsRoom(r, w, h) ==> At(g, r) != Unvisited
  {
    forall r | IsRoom(r, w, h) ensures At(g, r) != Unvisited {
      WalkRow(g, w, h, s, r.x);
      WalkColumn(g, w, h, Cell(r.x, s.y), r.y);
    }
  }

  /** Row-major position of a cell in a matrix `w` cells wide. */
  function Index(c: Cell, w: int): int {
    c.y * w + c.x
  }

  /** `a` comes before `b` in a row-major scan. */
  predicate RowMajorBefore(a: Cell, b: Cell) {
    a.y < b.y || (a.y == b.y && a.x < b.x)
  }

  /** Each cell of `s` comes after the one before it in a row-major scan. */
  predicate RowMajorSorted(s: seq<Cell>) {
    forall i :: 0 < i < |s| ==> OrderedAt(s, i)
  }

  /** The cell at position `i` comes after the one before it. */
  predicate OrderedAt(s: seq<Cell>, i: int)
    requires 0 < i < |s|
  {
    RowMajorBefore(s[i - 1], s[i])
  }

  /** In a row-major sorted list every earlier cell comes before every later one. */
  lemma {:induction false} SortedPairwise(s: seq<Cell>, i: int, j: int)
    requires RowMajorSorted(s) && 0 <= i < j < |s|
    ensures RowMajorBefore(s[i], s[j])
    decreases j - i
  {
    assert OrderedAt(s, j);
    if i < j - 1 {
      SortedPairwise(s, i, j - 1);
    }
  }

  /** Within a row width, position order is row-major order. */
  lemma IndexOrder(a: Cell, b: Cell, w: int)
    requires 0 <= a.x < w && 0 <= b.x < w
    ensures Index(a, w) < Index(b, w) <==> RowMajorBefore(a, b)
  {
    if a.y < b.y {
      assert a.y * w + w <= b.y * w by { MulMono(a.y + 1, b.y, w); }
    } else if a.y > b.y {
      assert b.y * w + w <= a.y * w by { MulMono(b.y + 1, a.y, w); }
    }
  }

  /** The cell at row-major position `n`: column `n % w`, row `n / w`. */
  function CellAt(n: int, w: int): Cell
    requires w > 0
  {
    Cell(n % w, n / w)
  }

  /** Positions 0 .. w*h-1 name cells of the matrix, each by its own index. */
  lemma CellAtIndex(n: int, w: int, h: int)
    requires w > 0 && 0 <= n < w * h
    ensures Within(CellAt(n, w), w, h) && Index(CellAt(n, w), w) == n
  {
    var q, r := n / w, n % w;
    assert n == q * w + r;
    if q >= h {
      assert q * w >= h * w by { MulMono(h, q, w); }
      assert false;
    }
  }

  /** Every cell of the matrix has a position below w*h that names it. */
  lemma IndexCellAt(c: Cell, w: int, h: int)
    requires w > 0 && Within(c, w, h)
    ensures 0 <= Index(c, w) < w * h && CellAt(Index(c, w), w) == c
  {
    var n := Index(c, w);
    assert 0 <= c.y * w by { MulMono(0, c.y, w); }
    assert c.y * w <= (h - 1) * w by { MulMono(c.y, h - 1, w); }
    assert n < w * h;
    var q, r := n / w, n % w;
    assert n == q * w + r;
    assert (q - c.y) * w == c.x - r;
    MulSign(q - c.y, w);
  }

  /** A non-zero multiple of `w` is at least `w` away from zero. */
  lemma MulSign(a: int, w: int)
    requires w > 0
    ensures a >= 1 ==> a * w >= w
    ensures a <= -1 ==> a * w <= -w
  {
    if a >= 1 {
      MulMono(1, a, w);
    } else if a <= -1 {
      MulMono(a, -1, w);
    }
  }

  lemma MulMono(a: int, b: int, w: int)
    requires a <= b && w >= 0
    ensures a * w <= b * w
  {
  }

  // ----- Facts about a depth-first carve in progress -----

  /** Every cell that differs between `g0` and `g1` became Path, and it is
      either a room that was Unvisited or a seam: the only writes a carve
      makes. In particular the outer ring is left as it was. */
  ghost predicate CarvedFrom(g0: Matrix, g1: Matrix, w: int, h: int)
    requires Shaped(g0, w, h) && Shaped(g1, w, h)
  {
    forall c :: Within(c, w, h) && At(g1, c) != At(g0, c) ==>
      At(g1, c) == Path && ((IsRoom(c, w, h) && At(g0, c) == Unvisited) || IsSeam(c, w, h))
  }

  /** `e` lists rooms that were Unvisited in `g0` and are Path in `g1`, and
      it lists every room that stopped being Unvisited. */
  ghost predicate EnteredExactly(g0: Matrix, g1: Matrix, w: int, h: int, e: seq<Cell>)
    requires Shaped(g0, w, h) && Shaped(g1, w, h)
  {
    && (forall i :: 0 <= i < |e| ==>
          IsRoom(e[i], w, h) && At(g0, e[i]) == Unvisited && At(g1, e[i]) == Path)
    && (forall c {:trigger c in e} :: IsRoom(c, w, h) && At(g0, c) == Unvisited && At(g1, c) != Unvisited ==> c in e)
  }

  /** Every room entered between `g0` and `g1` has no Unvisited room two cells
      away in `g1`. */
  ghost predicate ClosedSince(g0: Matrix, g1: Matrix, w: int, h: int)
    requires Shaped(g0, w, h) && Shaped(g1, w, h)
  {
    forall a, b ::
      IsRoom(a, w, h) && IsRoom(b, w, h) && RoomStep(a, b) &&
      At(g0, a) == Unvisited && At(g1, a) != Unvisited
      ==> At(g1, b) != Unvisited
  }

  /** Carving never brings an Unvisited mark back. */
  lemma CarvedMonotone(g0: Matrix, g1: Matrix, w: int, h: int)
    requires Shaped(g0, w, h) && Shaped(g1, w, h) && CarvedFrom(g0, g1, w, h)
    ensures forall c :: Within(c, w, h) && At(g0, c) != Unvisited ==> At(g1, c) != Unvisited
  {
  }

  /** Two carve stretches in a row are one carve stretch. */
  lemma CarvedTrans(g0: Matrix, g1: Matrix, g2: Matrix, w: int, h: int)
    requires Shaped(g0, w, h) && Shaped(g1, w, h) && Shaped(g2, w, h)
    requires CarvedFrom(g0, g1, w, h) && CarvedFrom(g1, g2, w, h)
    ensures CarvedFrom(g0, g2, w, h)
  {
  }

  /** The entered lists of two carve stretches in a row add up. */
  lemma EnteredTrans(g0: Matrix, g1: Matrix, g2: Matrix, w: int, h: int, e1: seq<Cell>, e2: seq<Cell>)
    requires Shaped(g0, w, h) && Shaped(g1, w, h) && Shaped(g2, w, h)
    requires CarvedFrom(g0, g1, w, h) && CarvedFrom(g1, g2, w, h)
    requires EnteredExactly(g0, g1, w, h, e1) && EnteredExactly(g1, g2, w, h, e2)
    ensures EnteredExactly(g0, g2, w, h, e1 + e2)
  {
    CarvedMonotone(g0, g1, w, h);
    forall i | 0 <= i < |e1 + e2|
      ensures IsRoom((e1 + e2)[i], w, h) && At(g0, (e1 + e2)[i]) == Unvisited && At(g2, (e1 + e2)[i]) == Path
    {
      if i >= |e1| {
        assert (e1 + e2)[i] == e2[i - |e1|];
      }
    }
  }

  /** Closure survives two carve stretches in a row. */
  lemma ClosedTrans(g0: Matrix, g1: Matrix, g2: Matrix, w: int, h: int)
    requires Shaped(g0, w, h) && Shaped(g1, w, h) && Shaped(g2, w, h)
    requires CarvedFrom(g0, g1, w, h) && CarvedFrom(g1, g2, w, h)
    requires ClosedSince(g0, g1, w, h) && ClosedSince(g1, g2, w, h)
    ensures ClosedSince(g0, g2, w, h)
  {
    CarvedMonotone(g1, g2, w, h);
    CarvedMonotone(g0, g1, w, h);
  }
}
