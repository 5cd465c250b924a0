/** DFS_create: randomised depth-first carving of a maze out of the frame.
    The source's `random.choice` is an injected stream of draws: the k-th
    call picks element `rng(k) % |s|` of its list `s`. */
module Generator {
  import opened Grid

  /** Real cells holding `v`. */
  ghost function RealWith(c: Dims, b: Board, v: State): set<Pos>
    requires Shaped(c, b)
  {
    set i, j | 0 <= i < c.height && 0 <= j < c.width && IsReal(c, i, j) && b[i][j] == v :: Pos(i, j)
  }

  /** Entries other than real cells holding `v`. */
  ghost function SlotsWith(c: Dims, b: Board, v: State): set<Pos>
    requires Shaped(c, b)
  {
    set i, j | 0 <= i < c.height && 0 <= j < c.width && !IsReal(c, i, j) && b[i][j] == v :: Pos(i, j)
  }

  /** All real cells. */
  ghost function RealSet(c: Dims): set<Pos> {
    set i, j | 0 <= i < c.height && 0 <= j < c.width && IsReal(c, i, j) :: Pos(i, j)
  }

  /** The four slots around real cell (i, j) are WALL. */
  ghost predicate WalledIn(c: Dims, b: Board, i: int, j: int)
    requires Shaped(c, b) && IsReal(c, i, j)
  {
    b[i][j - 1] == Wall && b[i + 1][j] == Wall && b[i][j + 1] == Wall && b[i - 1][j] == Wall
  }

  /** What holds of the grid throughout DFS_create: a real cell is CELL or
      VISITED, and a CELL one is walled in on all four sides; any other
      entry is WALL, or VISITED as a carved slot between two real cells.
      (The triggers keep the neighbour terms of WalledIn from instantiating
      the quantifiers over and over.) */
  ghost predicate Carving(c: Dims, b: Board)
    requires Shaped(c, b)
  {
    && (forall i, j {:trigger IsReal(c, i, j)} :: IsReal(c, i, j) ==> b[i][j] == Cell || b[i][j] == Visited)
    && (forall i, j {:trigger IsReal(c, i, j)} :: IsReal(c, i, j) && b[i][j] == Cell ==> WalledIn(c, b, i, j))
    && (forall i, j ::
          (0 <= i < c.height && 0 <= j < c.width &&
           !(0 < i < c.height - 1 && 0 < j < c.width - 1 && i % 2 == 1 && j % 2 == 1)) ==>
          b[i][j] == Wall || (b[i][j] == Visited && IsSlot(c, i, j)))
  }

  /** Under the invariant, unvisited_exist finds a real cell exactly when
      get_unvisited is non-empty, so the `choice` of the reseed branch is
      never applied to an empty list. */
  lemma UnvisitedAgree(c: Dims, g: array2<State>)
    requires c.Valid() && Fits(c, g) && Carving(c, Snap(g))
    ensures UnvisitedExist(c, g) <==> |Unvisited(c, g)| > 0
  {
    if UnvisitedExist(c, g) {
      var i, j :| IsReal(c, i, j) && g[i, j] != Visited;
      assert Snap(g)[i][j] == g[i, j];
      assert Pos(i, j) in Unvisited(c, g);
    }
    if |Unvisited(c, g)| > 0 {
      var q := Unvisited(c, g)[0];
      assert q in Unvisited(c, g);
      assert IsReal(c, q.i, q.j) && g[q.i, q.j] != Visited;
    }
  }

  /** Before a carving step from the VISITED real cell `cur` to the CELL
      neighbour two steps away in direction `m`: that neighbour is a real
      cell, and the entry remove_wall writes is the slot one step away in
      direction `m`, which is still WALL. */
  lemma CarveStep(c: Dims, b: Board, cur: Pos, m: Direction)
    requires c.Valid() && Shaped(c, b) && Carving(c, b)
    requires IsReal(c, cur.i, cur.j)
    requires Inside(c, Step(m, cur, 2)) && b[Step(m, cur, 2).i][Step(m, cur, 2).j] == Cell
    ensures IsReal(c, Step(m, cur, 2).i, Step(m, cur, 2).j)
    ensures WallSlot(cur, Step(m, cur, 2)) == Step(m, cur, 1)
    ensures InBounds(c, Step(m, cur, 1).i, Step(m, cur, 1).j)
    ensures b[Step(m, cur, 1).i][Step(m, cur, 1).j] == Wall
    ensures IsSlot(c, Step(m, cur, 1).i, Step(m, cur, 1).j)
  {
    var next := Step(m, cur, 2);
    assert IsReal(c, next.i, next.j);
    SlotIsMidpoint(cur, next);
    assert WalledIn(c, b, next.i, next.j);
  }

  /** The frame condition of a carving step: `b1` is `b0` with the real
      cell `next`, two steps from the VISITED real cell `cur` in direction
      `m`, and the slot `mid` between them set to VISITED, where `next` was
      CELL and `mid` was WALL. */
  ghost predicate Carved(c: Dims, b0: Board, b1: Board, cur: Pos, m: Direction, next: Pos, mid: Pos)
    requires Shaped(c, b0) && Shaped(c, b1)
  {
    && IsReal(c, cur.i, cur.j) && IsReal(c, next.i, next.j)
    && b0[cur.i][cur.j] == Visited && b0[next.i][next.j] == Cell
    && next == Step(m, cur, 2) && mid == Step(m, cur, 1)
    && IsSlot(c, mid.i, mid.j) && b0[mid.i][mid.j] == Wall
    && b1 == Write(Write(b0, mid, Visited), next, Visited)
  }

  /** A carving step keeps the invariant. */
  lemma CarveKeeps(c: Dims, b0: Board, b1: Board, cur: Pos, m: Direction, next: Pos, mid: Pos)
    requires c.Valid() && Shaped(c, b0) && Shaped(c, b1) && Carving(c, b0)
    requires Carved(c, b0, b1, cur, m, next, mid)
    ensures Carving(c, b1)
  {
    forall i, j | IsReal(c, i, j)
      ensures b1[i][j] == Cell || b1[i][j] == Visited
    {
      assert b0[i][j] == Cell || b0[i][j] == Visited;
    }
    forall i, j | IsReal(c, i, j) && b1[i][j] == Cell
      ensures WalledIn(c, b1, i, j)
    {
      assert Pos(i, j) != next && b0[i][j] == Cell;
      assert WalledIn(c, b0, i, j);
      assert Pos(i, j - 1) != mid && Pos(i + 1, j) != mid && Pos(i, j + 1) != mid && Pos(i - 1, j) != mid;
    }
    forall i, j | 0 <= i < c.height && 0 <= j < c.width && !IsReal(c, i, j)
      ensures b1[i][j] == Wall || (b1[i][j] == Visited && IsSlot(c, i, j))
    {
      if Pos(i, j) != mid {
        assert Pos(i, j) != next;
      }
    }
  }

  /** Writing `v` at `p` adds `p` to the real cells holding `v` and takes
      it from those holding anything else, when `p` is a real cell; the
      real cells are untouched otherwise. */
  lemma RealWithWrite(c: Dims, b: Board, p: Pos, v: State, x: State)
    requires Shaped(c, b) && InBounds(c, p.i, p.j)
    ensures Shaped(c, Write(b, p, v))
    ensures RealWith(c, Write(b, p, v), x) ==
              if !IsReal(c, p.i, p.j) then RealWith(c, b, x)
              else if v == x then RealWith(c, b, x) + {p}
              else RealWith(c, b, x) - {p}
  {
  }

  /** The same for the entries other than real cells. */
  lemma SlotsWithWrite(c: Dims, b: Board, p: Pos, v: State, x: State)
    requires Shaped(c, b) && InBounds(c, p.i, p.j)
    ensures Shaped(c, Write(b, p, v))
    ensures SlotsWith(c, Write(b, p, v), x) ==
              if IsReal(c, p.i, p.j) then SlotsWith(c, b, x)
              else if v == x then SlotsWith(c, b, x) + {p}
              else SlotsWith(c, b, x) - {p}
  {
  }

  /** Opening the WALL slot `p` adds it to the VISITED slots and leaves
      the real cells as they are. */
  lemma OpenSlotCounts(c: Dims, b: Board, p: Pos)
    requires Shaped(c, b) && InBounds(c, p.i, p.j) && !IsReal(c, p.i, p.j) && b[p.i][p.j] == Wall
    ensures Shaped(c, Write(b, p, Visited))
    ensures |SlotsWith(c, Write(b, p, Visited), Visited)| == |SlotsWith(c, b, Visited)| + 1
    ensures RealWith(c, Write(b, p, Visited), Visited) == RealWith(c, b, Visited)
    ensures RealWith(c, Write(b, p, Visited), Cell) == RealWith(c, b, Cell)
  {
    RealWithWrite(c, b, p, Visited, Visited);
    RealWithWrite(c, b, p, Visited, Cell);
    SlotsWithWrite(c, b, p, Visited, Visited);
    assert p !in SlotsWith(c, b, Visited);
  }

  /** Marking the CELL real cell `p` VISITED moves it from the CELL real
      cells to the VISITED ones and leaves the slots as they are. */
  lemma VisitCellCounts(c: Dims, b: Board, p: Pos)
    requires Shaped(c, b) && IsReal(c, p.i, p.j) && b[p.i][p.j] == Cell
    ensures Shaped(c, Write(b, p, Visited))
    ensures SlotsWith(c, Write(b, p, Visited), Visited) == SlotsWith(c, b, Visited)
    ensures |RealWith(c, Write(b, p, Visited), Visited)| == |RealWith(c, b, Visited)| + 1
    ensures |RealWith(c, Write(b, p, Visited), Cell)| + 1 == |RealWith(c, b, Cell)|
  {
    RealWithWrite(c, b, p, Visited, Visited);
    RealWithWrite(c, b, p, Visited, Cell);
    SlotsWithWrite(c, b, p, Visited, Visited);
    assert p !in RealWith(c, b, Visited);
    assert p in RealWith(c, b, Cell);
  }

  /** A carving step adds one element to each of the VISITED real cells
      and the VISITED slots, and takes `next` from the CELL real cells. */
  lemma CarveCounts(c: Dims, b0: Board, b1: Board, cur: Pos, m: Direction, next: Pos, mid: Pos)
    requires c.Valid() && Shaped(c, b0) && Shaped(c, b1)
    requires Carved(c, b0, b1, cur, m, next, mid)
    ensures |SlotsWith(c, b1, Visited)| == |SlotsWith(c, b0, Visited)| + 1
    ensures |RealWith(c, b1, Visited)| == |RealWith(c, b0, Visited)| + 1
    ensures |RealWith(c, b1, Cell)| + 1 == |RealWith(c, b0, Cell)|
  {
    OpenSlotCounts(c, b0, mid);
    var bm := Write(b0, mid, Visited);
    assert bm[next.i][next.j] == Cell;
    VisitCellCounts(c, bm, next);
  }

  /** A reseed, in which the CELL real cell `p` becomes VISITED, keeps the
      invariant, leaves the VISITED slots as they are, adds `p` to the
      VISITED real cells and takes it from the CELL real cells. */
  lemma ReseedEffect(c: Dims, b0: Board, b1: Board, p: Pos)
    requires c.Valid() && Shaped(c, b0) && Shaped(c, b1) && Carving(c, b0)
    requires IsReal(c, p.i, p.j) && b0[p.i][p.j] == Cell
    requires b1 == Write(b0, p, Visited)
    ensures Carving(c, b1)
    ensures |SlotsWith(c, b1, Visited)| == |SlotsWith(c, b0, Visited)|
    ensures |RealWith(c, b1, Visited)| == |RealWith(c, b0, Visited)| + 1
    ensures |RealWith(c, b1, Cell)| + 1 == |RealWith(c, b0, Cell)|
  {
    forall i, j | IsReal(c, i, j)
      ensures b1[i][j] == Cell || b1[i][j] == Visited
    {
      assert b0[i][j] == Cell || b0[i][j] == Visited;
    }
    forall i, j | IsReal(c, i, j) && b1[i][j] == Cell
      ensures WalledIn(c, b1, i, j)
    {
      assert Pos(i, j) != p && b0[i][j] == Cell;
      assert WalledIn(c, b0, i, j);
      assert Pos(i, j - 1) != p && Pos(i + 1, j) != p && Pos(i, j + 1) != p && Pos(i - 1, j) != p;
    }
    forall i, j | 0 <= i < c.height && 0 <= j < c.width && !IsReal(c, i, j)
      ensures b1[i][j] == Wall || (b1[i][j] == Visited && IsSlot(c, i, j))
    {
      assert Pos(i, j) != p;
    }
    VisitCellCounts(c, b0, p);
  }

  /** The frame with ENTER marked VISITED, where DFS_create starts, meets
      the invariant; ENTER is its one VISITED entry. */
  lemma StartEffect(c: Dims, b: Board)
    requires c.Valid() && Shaped(c, b)
    requires forall i, j :: 0 <= i < c.height && 0 <= j < c.width ==>
               b[i][j] == if Pos(i, j) == c.Enter() then Visited else if IsReal(c, i, j) then Cell else Wall
    ensures Carving(c, b)
    ensures SlotsWith(c, b, Visited) == {}
    ensures RealWith(c, b, Visited) == {c.Enter()}
  {
    forall i, j | IsReal(c, i, j) && b[i][j] == Cell
      ensures WalledIn(c, b, i, j)
    {
      assert !IsReal(c, i, j - 1) && !IsReal(c, i + 1, j) && !IsReal(c, i, j + 1) && !IsReal(c, i - 1, j);
    }
  }

  /** One carving step of DFS_create: remove_wall opens the slot between
      the VISITED real cell `cur` and its CELL neighbour `next` two steps
      away, and `next` becomes VISITED. Exactly those two entries change;
      the invariant is kept, each of the VISITED real cells and the VISITED
      slots grows by one, and the CELL real cells lose `next`. */
  method Carve(c: Dims, g: array2<State>, cur: Pos, next: Pos)
    requires c.Valid() && Fits(c, g) && Carving(c, Snap(g))
    requires At(c, Snap(g), cur)
    requires next in Neighbours(c, g, cur, 2)
    modifies g
    ensures IsReal(c, next.i, next.j) && IsSlot(c, WallSlot(cur, next).i, WallSlot(cur, next).j)
    ensures Snap(g) == Write(Write(old(Snap(g)), WallSlot(cur, next), Visited), next, Visited)
    ensures old(g[next.i, next.j]) == Cell && old(g[WallSlot(cur, next).i, WallSlot(cur, next).j]) == Wall
    ensures Carving(c, Snap(g))
    ensures |SlotsWith(c, Snap(g), Visited)| == |old(SlotsWith(c, Snap(g), Visited))| + 1
    ensures |RealWith(c, Snap(g), Visited)| == |old(RealWith(c, Snap(g), Visited))| + 1
    ensures |RealWith(c, Snap(g), Cell)| + 1 == old(|RealWith(c, Snap(g), Cell)|)
  {
    ghost var b0 := Snap(g);
    assert IsReal(c, cur.i, cur.j) && b0[cur.i][cur.j] == Visited;
    var m := DirectionOf(cur, 2, next);
    var mid := Step(m, cur, 1);
    CarveStep(c, b0, cur, m);
    RemoveWall(cur.i, cur.j, next.i, next.j, g, Visited);
    Put(g, next, Visited);
    assert Carved(c, b0, Snap(g), cur, m, next, mid);
    CarveKeeps(c, b0, Snap(g), cur, m, next, mid);
    CarveCounts(c, b0, Snap(g), cur, m, next, mid);
  }

  /** The reseed branch of DFS_create: once the walk has no CELL
      neighbour and the stack is empty while some real cell is not yet
      VISITED, `choice` picks the real cell at `draw` modulo the length of
      get_unvisited and marks it VISITED. Only that entry changes; the
      invariant is kept, the VISITED slots stay as they are, and the real
      cell moves from CELL to VISITED. */
  method Reseed(c: Dims, g: array2<State>, draw: nat) returns (p: Pos)
    requires c.Valid() && Fits(c, g) && Carving(c, Snap(g)) && UnvisitedExist(c, g)
    modifies g
    ensures IsReal(c, p.i, p.j) && old(g[p.i, p.j]) == Cell && p == old(Unvisited(c, g))[draw % |old(Unvisited(c, g))|]
    ensures Snap(g) == Write(old(Snap(g)), p, Visited)
    ensures Carving(c, Snap(g))
    ensures |SlotsWith(c, Snap(g), Visited)| == |old(SlotsWith(c, Snap(g), Visited))|
    ensures |RealWith(c, Snap(g), Visited)| == |old(RealWith(c, Snap(g), Visited))| + 1
    ensures |RealWith(c, Snap(g), Cell)| + 1 == old(|RealWith(c, Snap(g), Cell)|)
  {
    UnvisitedAgree(c, g);
    var us := Unvisited(c, g);
    p := us[draw % |us|];
    assert p in us;
    ghost var b0 := Snap(g);
    Put(g, p, Visited);
    ReseedEffect(c, b0, Snap(g), p);
  }

  /** The start of DFS_create: the frame of get_frame with ENTER marked
      VISITED. It meets the invariant, and ENTER is its one VISITED entry. */
  method Begin(c: Dims) returns (g: array2<State>)
    requires c.Valid()
    ensures fresh(g) && Fits(c, g)
    ensures forall i, j :: 0 <= i < c.height && 0 <= j < c.width ==>
              g[i, j] == if Pos(i, j) == c.Enter() then Visited else if IsReal(c, i, j) then Cell else Wall
    ensures Carving(c, Snap(g))
    ensures SlotsWith(c, Snap(g), Visited) == {}
    ensures RealWith(c, Snap(g), Visited) == {c.Enter()}
  {
    g := GetFrame(c);
    Put(g, c.Enter(), Visited);
    forall i, j | 0 <= i < c.height && 0 <= j < c.width
      ensures Snap(g)[i][j] == if Pos(i, j) == c.Enter() then Visited else if IsReal(c, i, j) then Cell else Wall
    {
    }
    StartEffect(c, Snap(g));
  }

  /** Once every real cell is VISITED, the rendered grid has every real
      cell CELL and the border WALL, every other CELL is a carved slot, and
      the CELL slots are exactly the VISITED slots of the carving. */
  lemma FinishEffect(c: Dims, b: Board, m: Board)
    requires c.Valid() && Shaped(c, b) && Shaped(c, m) && Carving(c, b)
    requires forall i, j {:trigger IsReal(c, i, j)} :: IsReal(c, i, j) ==> b[i][j] == Visited
    requires forall i, j :: 0 <= i < c.height && 0 <= j < c.width ==>
               m[i][j] == if b[i][j] == Visited then Cell else Wall
    ensures forall i, j :: 0 <= i < c.height && 0 <= j < c.width ==> m[i][j] == Cell || m[i][j] == Wall
    ensures forall i, j :: IsReal(c, i, j) ==> m[i][j] == Cell
    ensures forall i, j :: OnBorder(c, i, j) ==> m[i][j] == Wall
    ensures forall i, j :: 0 <= i < c.height && 0 <= j < c.width && !IsReal(c, i, j) && m[i][j] == Cell ==> IsSlot(c, i, j)
    ensures SlotsWith(c, m, Cell) == SlotsWith(c, b, Visited)
    ensures RealWith(c, b, Visited) == RealSet(c)
  {
  }

  /** The return statement of DFS_create: once every real cell of the
      carving is VISITED, a fresh grid holding CELL where `g` holds VISITED
      and WALL everywhere else. So every real cell is CELL, the border is
      WALL, every other CELL is a carved slot, and the CELL slots are
      exactly the VISITED slots of the carving. */
  method Render(c: Dims, g: array2<State>) returns (maze: array2<State>)
    requires c.Valid() && Fits(c, g) && Carving(c, Snap(g))
    requires forall i, j {:trigger IsReal(c, i, j)} :: IsReal(c, i, j) ==> g[i, j] == Visited
    ensures fresh(maze) && Fits(c, maze)
    ensures forall i, j :: 0 <= i < c.height && 0 <= j < c.width ==>
              maze[i, j] == if g[i, j] == Visited then Cell else Wall
    ensures forall i, j :: InBounds(c, i, j) ==> maze[i, j] == Cell || maze[i, j] == Wall
    ensures forall i, j :: IsReal(c, i, j) ==> maze[i, j] == Cell
    ensures forall i, j :: OnBorder(c, i, j) ==> maze[i, j] == Wall
    ensures forall i, j :: InBounds(c, i, j) && !IsReal(c, i, j) && maze[i, j] == Cell ==> IsSlot(c, i, j)
    ensures SlotsWith(c, Snap(maze), Cell) == SlotsWith(c, Snap(g), Visited)
    ensures RealWith(c, Snap(g), Visited) == RealSet(c)
  {
    maze := new State[c.height, c.width]((i, j) reads g requires 0 <= i < g.Length0 && 0 <= j < g.Length1 =>
      if g[i, j] == Visited then Cell else Wall);
    FinishEffect(c, Snap(g), Snap(maze));
  }

  /** A real cell holding VISITED. */
  ghost predicate At(c: Dims, b: Board, p: Pos)
    requires Shaped(c, b)
  {
    IsReal(c, p.i, p.j) && b[p.i][p.j] == Visited
  }

  /** The loop invariant of DFS_create on a copy `b` of the grid: the
      grid invariant holds; the current position (x, y) and every stacked
      position are VISITED real cells; each carving step has opened one
      slot for one real cell and each reseed a real cell alone, so the
      VISITED slots number one less than the VISITED real cells, less the
      reseeds; and `todo` counts the real cells still CELL. */
  ghost predicate Walk(c: Dims, b: Board, x: int, y: int, stack: seq<Pos>, reseeds: nat, todo: nat)
  {
    && c.Valid() && Shaped(c, b) && Carving(c, b)
    && At(c, b, Pos(x, y))
    && (forall k :: 0 <= k < |stack| ==> At(c, b, stack[k]))
    && |SlotsWith(c, b, Visited)| + reseeds + 1 == |RealWith(c, b, Visited)|
    && todo == |RealWith(c, b, Cell)|
  }

  /** The invariant holds where the loop starts. */
  lemma WalkStart(c: Dims, b: Board)
    requires c.Valid() && Shaped(c, b) && Carving(c, b)
    requires SlotsWith(c, b, Visited) == {} && RealWith(c, b, Visited) == {c.Enter()}
    ensures Walk(c, b, 1, 1, [], 0, |RealWith(c, b, Cell)|)
  {
    assert c.Enter() in RealWith(c, b, Visited);
  }

  /** A carving step from (x, y) to `next` pushes (x, y) and moves to
      `next`, which costs one CELL real cell. */
  lemma WalkCarve(c: Dims, b0: Board, b1: Board, cur: Pos, next: Pos, stack: seq<Pos>, reseeds: nat, todo: nat)
    requires Walk(c, b0, cur.i, cur.j, stack, reseeds, todo)
    requires Shaped(c, b1) && Carving(c, b1) && IsReal(c, next.i, next.j)
    requires IsSlot(c, WallSlot(cur, next).i, WallSlot(cur, next).j)
    requires b1 == Write(Write(b0, WallSlot(cur, next), Visited), next, Visited)
    requires |SlotsWith(c, b1, Visited)| == |SlotsWith(c, b0, Visited)| + 1
    requires |RealWith(c, b1, Visited)| == |RealWith(c, b0, Visited)| + 1
    requires |RealWith(c, b1, Cell)| + 1 == |RealWith(c, b0, Cell)|
    ensures todo >= 1
    ensures Walk(c, b1, next.i, next.j, stack + [cur], reseeds, todo - 1)
  {
    var s := stack + [cur];
    forall k | 0 <= k < |s|
      ensures At(c, b1, s[k])
    {
      assert At(c, b0, s[k]);
    }
  }

  /** Popping the stack moves back to its top. */
  lemma WalkPop(c: Dims, b: Board, x: int, y: int, stack: seq<Pos>, reseeds: nat, todo: nat)
    requires Walk(c, b, x, y, stack, reseeds, todo) && |stack| > 0
    ensures Walk(c, b, stack[|stack| - 1].i, stack[|stack| - 1].j, stack[..|stack| - 1], reseeds, todo)
  {
    assert At(c, b, stack[|stack| - 1]);
  }

  /** A reseed at `p` moves there with the stack empty, which costs one
      CELL real cell and counts one reseed. */
  lemma WalkReseed(c: Dims, b0: Board, b1: Board, x: int, y: int, p: Pos, reseeds: nat, todo: nat)
    requires Walk(c, b0, x, y, [], reseeds, todo)
    requires Shaped(c, b1) && Carving(c, b1) && IsReal(c, p.i, p.j)
    requires b1 == Write(b0, p, Visited)
    requires |SlotsWith(c, b1, Visited)| == |SlotsWith(c, b0, Visited)|
    requires |RealWith(c, b1, Visited)| == |RealWith(c, b0, Visited)| + 1
    requires |RealWith(c, b1, Cell)| + 1 == |RealWith(c, b0, Cell)|
    ensures todo >= 1
    ensures Walk(c, b1, p.i, p.j, [], reseeds + 1, todo - 1)
  {
  }

  /** When unvisited_exist is false every real cell is VISITED. */
  lemma WalkDone(c: Dims, g: array2<State>, x: int, y: int, stack: seq<Pos>, reseeds: nat, todo: nat)
    requires Fits(c, g) && Walk(c, Snap(g), x, y, stack, reseeds, todo) && !UnvisitedExist(c, g)
    ensures forall i, j {:trigger IsReal(c, i, j)} :: IsReal(c, i, j) ==> g[i, j] == Visited
  {
  }

  /** DFS_create: the returned grid is fresh and holds only CELL and WALL;
      every real cell is CELL, the border is WALL, and every other CELL is
      a slot between two real cells. Each carving step opens one slot and
      one real cell, and each reseed opens one real cell alone, so the
      number of opened slots is one less than the number of real cells,
      less the number of reseeds. */
  method Create(c: Dims, rng: nat -> nat) returns (maze: array2<State>, ghost reseeds: nat)
    requires c.Valid()
    ensures fresh(maze) && Fits(c, maze)
    ensures forall i, j :: InBounds(c, i, j) ==> maze[i, j] == Cell || maze[i, j] == Wall
    ensures forall i, j :: IsReal(c, i, j) ==> maze[i, j] == Cell
    ensures forall i, j :: OnBorder(c, i, j) ==> maze[i, j] == Wall
    ensures forall i, j :: InBounds(c, i, j) && !IsReal(c, i, j) && maze[i, j] == Cell ==> IsSlot(c, i, j)
    ensures |SlotsWith(c, Snap(maze), Cell)| + reseeds + 1 == |RealSet(c)|
  {
    var g := Begin(c);
    var x, y := 1, 1;
    var stack: seq<Pos> := [];
    var draws: nat := 0;
    reseeds := 0;
    ghost var todo: nat := |RealWith(c, Snap(g), Cell)|;
    WalkStart(c, Snap(g));
    while UnvisitedExist(c, g)
      invariant Fits(c, g) && Walk(c, Snap(g), x, y, stack, reseeds, todo)
      decreases todo, |stack|
    {
      var ns := Neighbours(c, g, Pos(x, y), 2);
      if |ns| > 0 && Pos(x, y) != c.Exit() {
        var next := ns[rng(draws) % |ns|];
        draws := draws + 1;
        assert next in ns;
        ghost var b0 := Snap(g);
        Carve(c, g, Pos(x, y), next);
        WalkCarve(c, b0, Snap(g), Pos(x, y), next, stack, reseeds, todo);
        stack := stack + [Pos(x, y)];
        x, y := next.i, next.j;
        todo := todo - 1;
      } else if |stack| > 0 {
        WalkPop(c, Snap(g), x, y, stack, reseeds, todo);
        x, y := stack[|stack| - 1].i, stack[|stack| - 1].j;
        stack := stack[..|stack| - 1];
      } else {
        ghost var b0 := Snap(g);
        var p := Reseed(c, g, rng(draws));
        WalkReseed(c, b0, Snap(g), x, y, p, reseeds, todo);
        draws := draws + 1;
        x, y := p.i, p.j;
        reseeds := reseeds + 1;
        todo := todo - 1;
      }
    }
    WalkDone(c, g, x, y, stack, reseeds, todo);
    maze := Render(c, g);
  }
}
