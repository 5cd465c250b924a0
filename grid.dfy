/** The grid model of maze.py: the five entry states, positions, the grid's
    dimensions with the entrance and exit derived from them, the initial
    frame, neighbour lookup, the scans over real cells and wall removal. */
module Grid {

  /** What one grid entry holds. The source encodes these as the small
      integers CELL = 0, WALL = 1, VISITED = -1, PASSED = 2 and WRONG = -2
      and compares them with `is`, which on those integers is value
      equality. */
  datatype State = Cell | Wall | Visited | Passed | Wrong

  /** A grid position: row `i`, column `j`. */
  datatype Pos = Pos(i: int, j: int)

  datatype Option<T> = None | Some(value: T)

  /** The grid's dimensions. The source fixes them at HEIGHT = 121 and
      WIDTH = 251; here they are parameters. */
  datatype Dims = Dims(height: nat, width: nat) {

    /** Both odd and at least 3, so that the real cells sit on odd rows and
        columns inside a wall border. */
    predicate Valid() {
      height >= 3 && width >= 3 && height % 2 == 1 && width % 2 == 1
    }

    /** ENTER, the first real cell. */
    function Enter(): Pos { Pos(1, 1) }

    /** EXIT, the last real cell. */
    function Exit(): Pos { Pos(height - 2, width - 2) }
  }

  /** The dimensions the source is configured with. */
  const Configured: Dims := Dims(121, 251)

  /** ENTER and EXIT are real cells of any valid grid, and they coincide
      only on the smallest one, 3 by 3. */
  lemma EnterExitReal(c: Dims)
    requires c.Valid()
    ensures IsReal(c, c.Enter().i, c.Enter().j) && IsReal(c, c.Exit().i, c.Exit().j)
    ensures c.Enter() == c.Exit() <==> c.height == 3 && c.width == 3
  {
  }

  lemma ConfiguredIsValid()
    ensures Configured.Valid()
    ensures Configured.Exit() == Pos(119, 249)
  {
  }

  /** A grid whose shape matches the dimensions. */
  predicate Fits(c: Dims, g: array2<State>) {
    g.Length0 == c.height && g.Length1 == c.width
  }

  /** A value copy of a grid's contents, row by row. The methods below work
      on arrays in place, as the source does on its list of lists; their
      specifications compare copies taken before and after. */
  type Board = seq<seq<State>>

  /** The contents of `g` as a board. */
  ghost function Snap(g: array2<State>): (b: Board)
    reads g
    ensures |b| == g.Length0
    ensures forall i :: 0 <= i < |b| ==> |b[i]| == g.Length1
    ensures forall i, j :: 0 <= i < g.Length0 && 0 <= j < g.Length1 ==> b[i][j] == g[i, j]
  {
    seq(g.Length0, i requires 0 <= i < g.Length0 reads g =>
      seq(g.Length1, j requires 0 <= j < g.Length1 reads g => g[i, j]))
  }

  /** `b` with the entry at `p` replaced by `v`. */
  function Write(b: Board, p: Pos, v: State): (r: Board)
    requires 0 <= p.i < |b| && 0 <= p.j < |b[p.i]|
    ensures |r| == |b| && forall i :: 0 <= i < |b| ==> |r[i]| == |b[i]|
    ensures forall i, j :: 0 <= i < |b| && 0 <= j < |b[i]| ==> r[i][j] == if Pos(i, j) == p then v else b[i][j]
  {
    b[p.i := b[p.i][p.j := v]]
  }

  /** The assignment `maze[x][y] = v`: the one entry at `p` becomes `v`. */
  method Put(g: array2<State>, p: Pos, v: State)
    requires 0 <= p.i < g.Length0 && 0 <= p.j < g.Length1
    modifies g
    ensures Snap(g) == Write(old(Snap(g)), p, v)
  {
    ghost var b0 := Snap(g);
    g[p.i, p.j] := v;
    assert forall i, j :: 0 <= i < g.Length0 && 0 <= j < g.Length1 ==> Snap(g)[i][j] == Write(b0, p, v)[i][j];
    assert forall i :: 0 <= i < g.Length0 ==> Snap(g)[i] == Write(b0, p, v)[i];
  }

  /** A board whose shape matches the dimensions. */
  ghost predicate Shaped(c: Dims, b: Board) {
    |b| == c.height && forall i :: 0 <= i < |b| ==> |b[i]| == c.width
  }

  predicate InBounds(c: Dims, i: int, j: int) {
    0 <= i < c.height && 0 <= j < c.width
  }

  /** Strictly inside the border: the guard of get_neighbours. */
  predicate Inside(c: Dims, p: Pos) {
    0 < p.i < c.height - 1 && 0 < p.j < c.width - 1
  }

  /** A real cell: odd row and odd column, strictly inside the border. */
  predicate IsReal(c: Dims, i: int, j: int) {
    0 < i < c.height - 1 && 0 < j < c.width - 1 && i % 2 == 1 && j % 2 == 1
  }

  predicate OnBorder(c: Dims, i: int, j: int) {
    InBounds(c, i, j) && (i == 0 || i == c.height - 1 || j == 0 || j == c.width - 1)
  }

  /** A wall slot between two real cells that lie next to each other on one
      axis. */
  predicate IsSlot(c: Dims, i: int, j: int) {
    || (i % 2 == 1 && j % 2 == 0 && 0 < i < c.height - 1 && 1 < j < c.width - 2)
    || (i % 2 == 0 && j % 2 == 1 && 1 < i < c.height - 2 && 0 < j < c.width - 1)
  }

  /** get_frame: a fresh grid in which exactly the real cells are CELL and
      every other entry, the border included, is WALL. */
  method GetFrame(c: Dims) returns (g: array2<State>)
    ensures fresh(g) && Fits(c, g)
    ensures forall i, j :: InBounds(c, i, j) ==> (g[i, j] == Cell <==> IsReal(c, i, j))
    ensures forall i, j :: InBounds(c, i, j) ==> g[i, j] == Cell || g[i, j] == Wall
    ensures forall i, j :: OnBorder(c, i, j) ==> g[i, j] == Wall
  {
    g := new State[c.height, c.width]((i, j) =>
      if i % 2 == 1 && j % 2 == 1 && 1 < i + 1 < c.height && 1 < j + 1 < c.width then Cell else Wall);
  }

  /** The four moves of the source, in its order. Note that the source's
      "up" adds to the row and its "down" subtracts from it. */
  datatype Direction = Left | Up | Right | Down

  const Moves: seq<Direction> := [Left, Up, Right, Down]

  /** The position `d` steps from `p` in direction `m`: it lies on the
      same row or the same column, `d` steps away. */
  function Step(m: Direction, p: Pos, d: int): (r: Pos)
    ensures r.i == p.i || r.j == p.j
    ensures Abs(r.i - p.i) + Abs(r.j - p.j) == Abs(d)
  {
    match m
    case Left => Pos(p.i, p.j - d)
    case Up => Pos(p.i + d, p.j)
    case Right => Pos(p.i, p.j + d)
    case Down => Pos(p.i - d, p.j)
  }

  /** The results of the four moves from `p`, in move order; for a
      non-zero distance they are four different positions. */
  function Candidates(p: Pos, d: int): (r: seq<Pos>)
    ensures |r| == |Moves| && forall k :: 0 <= k < |Moves| ==> r[k] == Step(Moves[k], p, d)
    ensures d != 0 ==> forall k, l :: 0 <= k < l < |r| ==> r[k] != r[l]
  {
    [Step(Left, p, d), Step(Up, p, d), Step(Right, p, d), Step(Down, p, d)]
  }

  /** The direction in which a candidate lies. */
  lemma DirectionOf(p: Pos, d: int, q: Pos) returns (m: Direction)
    requires q in Candidates(p, d)
    ensures m in Moves && q == Step(m, p, d)
  {
    if q == Step(Left, p, d) { m := Left; }
    else if q == Step(Up, p, d) { m := Up; }
    else if q == Step(Right, p, d) { m := Right; }
    else { m := Down; }
  }

  /** A position get_neighbours keeps: inside the border and CELL. */
  predicate Open(c: Dims, g: array2<State>, q: Pos)
    requires Fits(c, g)
    reads g
  {
    Inside(c, q) && g[q.i, q.j] == Cell
  }

  /** `a` is `b` with some elements left out, the rest in their order. */
  predicate IsSubsequence(a: seq<Pos>, b: seq<Pos>)
    decreases |b|
  {
    || a == []
    || (b != [] && ((a[0] == b[0] && IsSubsequence(a[1..], b[1..])) || IsSubsequence(a, b[1..])))
  }

  /** The loop of get_neighbours over a list of candidate positions. */
  function OpenAmong(c: Dims, g: array2<State>, qs: seq<Pos>): (r: seq<Pos>)
    requires Fits(c, g)
    reads g
    ensures |r| <= |qs|
    ensures forall q :: q in r <==> q in qs && Open(c, g, q)
    ensures IsSubsequence(r, qs)
  {
    if qs == [] then []
    else
      var rest := OpenAmong(c, g, qs[1..]);
      if Open(c, g, qs[0]) then
        assert ([qs[0]] + rest)[1..] == rest;
        [qs[0]] + rest
      else
        rest
  }

  /** get_neighbours(x, y, maze, distance): the move results from `p` that
      are inside the border and CELL, in move order. */
  function Neighbours(c: Dims, g: array2<State>, p: Pos, d: int): (r: seq<Pos>)
    requires Fits(c, g)
    reads g
    ensures |r| <= |Moves|
    ensures IsSubsequence(r, Candidates(p, d))
    ensures forall q :: q in r ==> Open(c, g, q) && q in Candidates(p, d)
    ensures forall m :: m in Moves ==> (Step(m, p, d) in r <==> Open(c, g, Step(m, p, d)))
  {
    OpenAmong(c, g, Candidates(p, d))
  }

  /** Row `i` of the scan `for j in range(j0, w, 2)`. */
  function RowScan(i: int, j0: int, w: int): (r: seq<Pos>)
    decreases w - j0
    ensures forall p :: p in r <==> p.i == i && j0 <= p.j < w && (p.j - j0) % 2 == 0
  {
    if j0 >= w then [] else [Pos(i, j0)] + RowScan(i, j0 + 2, w)
  }

  /** The scan `for i in range(i0, h, 2) for j in range(1, w, 2)`. */
  function Scan(i0: int, h: int, w: int): (r: seq<Pos>)
    decreases h - i0
    ensures forall p :: p in r <==> i0 <= p.i < h && (p.i - i0) % 2 == 0 && 1 <= p.j < w && p.j % 2 == 1
  {
    if i0 >= h then [] else RowScan(i0, 1, w) + Scan(i0 + 2, h, w)
  }

  /** The positions both scans of the source visit: exactly the real cells. */
  function RealCells(c: Dims): (r: seq<Pos>)
    requires c.Valid()
    ensures forall p :: p in r <==> IsReal(c, p.i, p.j)
  {
    Scan(1, c.height, c.width)
  }

  /** The comprehension of get_unvisited over a list of positions. */
  function CellsAmong(c: Dims, g: array2<State>, ps: seq<Pos>): (r: seq<Pos>)
    requires Fits(c, g)
    requires forall p :: p in ps ==> 0 <= p.i < c.height && 0 <= p.j < c.width
    reads g
    ensures forall q :: q in r <==> q in ps && g[q.i, q.j] == Cell
  {
    if ps == [] then []
    else
      assert ps[0] in ps;
      (if g[ps[0].i, ps[0].j] == Cell then [ps[0]] else []) + CellsAmong(c, g, ps[1..])
  }

  /** get_unvisited: the real cells that hold CELL. */
  function Unvisited(c: Dims, g: array2<State>): (r: seq<Pos>)
    requires c.Valid() && Fits(c, g)
    reads g
    ensures forall q :: q in r <==> IsReal(c, q.i, q.j) && g[q.i, q.j] == Cell
  {
    CellsAmong(c, g, RealCells(c))
  }

  /** The `any` of unvisited_exist over a list of positions. */
  function AnyNotVisited(c: Dims, g: array2<State>, ps: seq<Pos>): (r: bool)
    requires Fits(c, g)
    requires forall p :: p in ps ==> 0 <= p.i < c.height && 0 <= p.j < c.width
    reads g
    ensures r <==> exists q :: q in ps && g[q.i, q.j] != Visited
  {
    if ps == [] then false
    else
      assert forall q :: q in ps ==> InBounds(c, q.i, q.j); g[ps[0].i, ps[0].j] != Visited || AnyNotVisited(c, g, ps[1..])
  }

  /** unvisited_exist: some real cell does not hold VISITED. */
  function UnvisitedExist(c: Dims, g: array2<State>): (r: bool)
    requires c.Valid() && Fits(c, g)
    reads g
    ensures r <==> exists i, j :: IsReal(c, i, j) && g[i, j] != Visited
  {
    var b := AnyNotVisited(c, g, RealCells(c));
    assert b ==> exists i, j :: IsReal(c, i, j) && g[i, j] != Visited by {
      if b {
        var q :| q in RealCells(c) && g[q.i, q.j] != Visited;
        assert IsReal(c, q.i, q.j) && g[q.i, q.j] != Visited;
      }
    }
    assert (exists i, j :: IsReal(c, i, j) && g[i, j] != Visited) ==> b by {
      if exists i, j :: IsReal(c, i, j) && g[i, j] != Visited {
        var i, j :| IsReal(c, i, j) && g[i, j] != Visited;
        assert Pos(i, j) in RealCells(c);
      }
    }
    b
  }

  function Abs(x: int): nat {
    if x < 0 then -x else x
  }

  function Max(a: int, b: int): int {
    if a < b then b else a
  }

  /** One coordinate of remove_wall's step, `diff // max(1, abs(diff))`: the
      sign of `diff`. The divisor is positive, and for a positive divisor
      Python's floor division and Dafny's `/` agree. */
  function Offset(diff: int): (r: int)
    ensures r == (if diff > 0 then 1 else if diff < 0 then -1 else 0)
  {
    if diff < 0 then
      assert Abs(diff) * -1 == diff;
      diff / Max(1, Abs(diff))
    else
      diff / Max(1, Abs(diff))
  }

  /** The entry remove_wall writes: one step from `p` toward `q` on each
      axis. */
  function WallSlot(p: Pos, q: Pos): (r: Pos)
    ensures Abs(r.i - p.i) <= 1 && Abs(r.j - p.j) <= 1
    ensures r == p <==> p == q
    ensures Abs(r.i - p.i) + Abs(r.j - p.j) + Abs(q.i - r.i) + Abs(q.j - r.j) == Abs(q.i - p.i) + Abs(q.j - p.j)
  {
    Pos(p.i + Offset(q.i - p.i), p.j + Offset(q.j - p.j))
  }

  /** For two positions 2 apart on one axis, that entry is their midpoint. */
  lemma SlotIsMidpoint(p: Pos, q: Pos)
    requires (p.i == q.i && Abs(p.j - q.j) == 2) || (p.j == q.j && Abs(p.i - q.i) == 2)
    ensures WallSlot(p, q) == Pos((p.i + q.i) / 2, (p.j + q.j) / 2)
  {
  }

  /** remove_wall(x1, y1, x2, y2, maze, filler): writes `filler` at one step
      from (x1, y1) toward (x2, y2) and changes no other entry. */
  method RemoveWall(x1: int, y1: int, x2: int, y2: int, maze: array2<State>, filler: State)
    requires 0 <= WallSlot(Pos(x1, y1), Pos(x2, y2)).i < maze.Length0
    requires 0 <= WallSlot(Pos(x1, y1), Pos(x2, y2)).j < maze.Length1
    modifies maze
    ensures maze[WallSlot(Pos(x1, y1), Pos(x2, y2)).i, WallSlot(Pos(x1, y1), Pos(x2, y2)).j] == filler
    ensures forall i, j :: 0 <= i < maze.Length0 && 0 <= j < maze.Length1 && Pos(i, j) != WallSlot(Pos(x1, y1), Pos(x2, y2)) ==>
              maze[i, j] == old(maze[i, j])
    ensures Snap(maze) == Write(old(Snap(maze)), WallSlot(Pos(x1, y1), Pos(x2, y2)), filler)
  {
    var addX := Offset(x2 - x1);
    var addY := Offset(y2 - y1);
    Put(maze, Pos(x1 + addX, y1 + addY), filler);
  }
}
