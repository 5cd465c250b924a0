/** The state of DFS_solve's search and what it implies: the changes the
    solver makes, its route, the positions it has stepped on, and the
    walks through the maze these rule out. Each loop step of DFS_solve is
    one lemma here. */
module SearchState {
  import opened Grid

  /** An entry the solver has marked. */
  predicate Marked(s: State) {
    s == Passed || s == Wrong
  }

  /** A walk through the maze `b0`: it starts at ENTER, and each further
      position is one move away from the one before, inside the border and
      CELL. */
  ghost predicate IsWalk(c: Dims, b0: Board, w: seq<Pos>)
    requires Shaped(c, b0)
  {
    && |w| > 0 && w[0] == c.Enter()
    && forall k :: 0 < k < |w| ==> Move(c, b0, w[k - 1], w[k])
  }

  /** One move of a walk, from `p` to the CELL `q` inside the border. */
  ghost predicate Move(c: Dims, b0: Board, p: Pos, q: Pos)
    requires Shaped(c, b0)
  {
    q in Candidates(p, 1) && Inside(c, q) && b0[q.i][q.j] == Cell
  }

  /** The only changes from the input `b0` to `b`: ENTER is marked, and
      otherwise an entry is as it was or a CELL that has been marked. In
      particular no WALL other than ENTER ever changes. */
  ghost predicate Evolved(c: Dims, b0: Board, b: Board)
    requires Shaped(c, b0) && Shaped(c, b)
  {
    forall i, j :: 0 <= i < c.height && 0 <= j < c.width ==>
      if Pos(i, j) == c.Enter() then Marked(b[i][j])
      else b[i][j] == b0[i][j] || (b0[i][j] == Cell && Marked(b[i][j]))
  }

  /** A position the solver has stepped on: ENTER or a CELL of the input,
      marked now. */
  ghost predicate Settled(c: Dims, b0: Board, b: Board, p: Pos)
    requires Shaped(c, b0) && Shaped(c, b)
  {
    InBounds(c, p.i, p.j) && (p == c.Enter() || b0[p.i][p.j] == Cell) && Marked(b[p.i][p.j])
  }

  /** No move from `p` leads to a CELL inside the border: get_neighbours
      with distance 1 is empty. */
  ghost predicate Stuck(c: Dims, b: Board, p: Pos)
    requires Shaped(c, b)
  {
    forall q :: q in Candidates(p, 1) && Inside(c, q) ==> b[q.i][q.j] != Cell
  }

  /** Every position the solver has stepped on is stuck. */
  ghost predicate Closed(c: Dims, b0: Board, b: Board)
    requires Shaped(c, b0) && Shaped(c, b)
  {
    forall i, j :: Settled(c, b0, b, Pos(i, j)) ==> Stuck(c, b, Pos(i, j))
  }

  /** The entries holding CELL. */
  ghost function CellsIn(c: Dims, b: Board): set<Pos>
    requires Shaped(c, b)
  {
    set i, j | 0 <= i < c.height && 0 <= j < c.width && b[i][j] == Cell :: Pos(i, j)
  }

  /** The route of the search: a walk through the input whose positions
      are distinct and PASSED now. */
  ghost predicate Route(c: Dims, b0: Board, b: Board, path: seq<Pos>)
    requires Shaped(c, b0) && Shaped(c, b)
  {
    && IsWalk(c, b0, path)
    && (forall k :: 0 <= k < |path| ==> InBounds(c, path[k].i, path[k].j) && b[path[k].i][path[k].j] == Passed)
    && (forall k, l :: 0 <= k < l < |path| ==> path[k] != path[l])
  }

  /** Every PASSED position the solver has stepped on lies on `route`. */
  ghost predicate OnRoute(c: Dims, b0: Board, b: Board, route: seq<Pos>)
    requires Shaped(c, b0) && Shaped(c, b)
  {
    forall i, j :: Settled(c, b0, b, Pos(i, j)) && b[i][j] == Passed ==> Pos(i, j) in route
  }

  /** Every WRONG position the solver has stepped on is stuck. */
  ghost predicate DeadEnds(c: Dims, b0: Board, b: Board)
    requires Shaped(c, b0) && Shaped(c, b)
  {
    forall i, j :: Settled(c, b0, b, Pos(i, j)) && b[i][j] == Wrong ==> Stuck(c, b, Pos(i, j))
  }

  /** EXIT has been stepped on only if the search stands on it. */
  ghost predicate ExitLast(c: Dims, b0: Board, b: Board, route: seq<Pos>)
    requires Shaped(c, b0) && Shaped(c, b)
  {
    |route| > 0 && (Settled(c, b0, b, c.Exit()) ==> route[|route| - 1] == c.Exit())
  }

  /** The loop invariant of DFS_solve on a copy `b` of the grid, `b0`
      being the input and `route` the stack followed by the current
      position: the changes so far are those Evolved allows; `route` is a
      route of the search; every PASSED position the solver stepped on lies
      on it and every WRONG one is stuck; EXIT has been stepped on only if
      it is the current position; and `todo` counts the CELL entries. */
  ghost predicate Search(c: Dims, b0: Board, b: Board, route: seq<Pos>, todo: nat)
  {
    && c.Valid() && Shaped(c, b0) && Shaped(c, b)
    && Evolved(c, b0, b)
    && Route(c, b0, b, route)
    && OnRoute(c, b0, b, route)
    && DeadEnds(c, b0, b)
    && ExitLast(c, b0, b, route)
    && todo == |CellsIn(c, b)|
  }

  /** Writing `v` at `p` keeps the shape. */
  lemma WriteShaped(c: Dims, b: Board, p: Pos, v: State)
    requires Shaped(c, b) && InBounds(c, p.i, p.j)
    ensures Shaped(c, Write(b, p, v))
  {
  }

  /** The search starts with ENTER marked PASSED. */
  lemma SearchStart(c: Dims, b0: Board, b: Board)
    requires c.Valid() && Shaped(c, b0) && Shaped(c, b)
    requires b == Write(b0, c.Enter(), Passed)
    ensures Search(c, b0, b, [c.Enter()], |CellsIn(c, b)|)
  {
    forall i, j | Settled(c, b0, b, Pos(i, j)) && b[i][j] == Passed
      ensures Pos(i, j) in [c.Enter()]
    {
    }
  }

  /** Marking the CELL `next` PASSED is a change Evolved allows, and
      `next` was a CELL of the input other than ENTER. */
  lemma AdvanceEvolved(c: Dims, b0: Board, b: Board, next: Pos)
    requires Shaped(c, b0) && Shaped(c, b) && Evolved(c, b0, b)
    requires InBounds(c, next.i, next.j) && b[next.i][next.j] == Cell
    ensures Shaped(c, Write(b, next, Passed))
    ensures next != c.Enter() && b0[next.i][next.j] == Cell
    ensures Evolved(c, b0, Write(b, next, Passed))
  {
    WriteShaped(c, b, next, Passed);
  }

  /** A move to the CELL `next` extends the route. */
  lemma AdvanceRoute(c: Dims, b0: Board, b: Board, route: seq<Pos>, next: Pos)
    requires Shaped(c, b0) && Shaped(c, b) && Route(c, b0, b, route)
    requires Move(c, b0, route[|route| - 1], next) && b[next.i][next.j] == Cell
    ensures Shaped(c, Write(b, next, Passed))
    ensures Route(c, b0, Write(b, next, Passed), route + [next])
  {
    WriteShaped(c, b, next, Passed);
    var b1 := Write(b, next, Passed);
    var route1 := route + [next];
    assert forall k :: 0 <= k < |route| ==> route[k] != next;
    forall k | 0 < k < |route1|
      ensures Move(c, b0, route1[k - 1], route1[k])
    {
      if k < |route1| - 1 {
        assert route1[k - 1] == route[k - 1] && route1[k] == route[k];
      }
    }
    forall k | 0 <= k < |route1|
      ensures InBounds(c, route1[k].i, route1[k].j) && b1[route1[k].i][route1[k].j] == Passed
    {
      if k < |route| {
        assert route1[k] == route[k];
      }
    }
    forall k, l | 0 <= k < l < |route1|
      ensures route1[k] != route1[l]
    {
      if l < |route| {
        assert route1[k] == route[k] && route1[l] == route[l];
      } else {
        assert route1[k] == route[k];
      }
    }
  }

  /** After the move the PASSED positions stepped on are those before and
      `next`, and the WRONG ones are as before and still stuck, as CELL
      entries only disappear. */
  lemma AdvanceMarks(c: Dims, b0: Board, b: Board, route: seq<Pos>, next: Pos)
    requires Shaped(c, b0) && Shaped(c, b) && OnRoute(c, b0, b, route) && DeadEnds(c, b0, b)
    requires InBounds(c, next.i, next.j) && b[next.i][next.j] == Cell
    ensures Shaped(c, Write(b, next, Passed))
    ensures OnRoute(c, b0, Write(b, next, Passed), route + [next])
    ensures DeadEnds(c, b0, Write(b, next, Passed))
  {
    WriteShaped(c, b, next, Passed);
    var b1 := Write(b, next, Passed);
    forall i, j | Settled(c, b0, b1, Pos(i, j)) && b1[i][j] == Wrong
      ensures Stuck(c, b1, Pos(i, j))
    {
      assert Settled(c, b0, b, Pos(i, j)) && b[i][j] == Wrong;
      assert Stuck(c, b, Pos(i, j));
    }
    forall i, j | Settled(c, b0, b1, Pos(i, j)) && b1[i][j] == Passed
      ensures Pos(i, j) in route + [next]
    {
      if Pos(i, j) != next {
        assert Settled(c, b0, b, Pos(i, j)) && b[i][j] == Passed;
      }
    }
  }

  /** The move uses up the CELL `next`. */
  lemma CellsAdvance(c: Dims, b: Board, next: Pos)
    requires Shaped(c, b) && InBounds(c, next.i, next.j) && b[next.i][next.j] == Cell
    ensures Shaped(c, Write(b, next, Passed))
    ensures |CellsIn(c, Write(b, next, Passed))| + 1 == |CellsIn(c, b)|
  {
    WriteShaped(c, b, next, Passed);
    assert CellsIn(c, Write(b, next, Passed)) == CellsIn(c, b) - {next};
    assert next in CellsIn(c, b);
  }

  /** The step forward: push the current position and move to its CELL
      neighbour `next`, which becomes PASSED. */
  lemma SearchAdvance(c: Dims, b0: Board, g: array2<State>, stack: seq<Pos>, cur: Pos, todo: nat, next: Pos)
    requires Fits(c, g) && Search(c, b0, Snap(g), stack + [cur], todo) && cur != c.Exit()
    requires next in Neighbours(c, g, cur, 1)
    ensures InBounds(c, next.i, next.j) && Shaped(c, Write(Snap(g), next, Passed))
    ensures todo >= 1
    ensures Search(c, b0, Write(Snap(g), next, Passed), (stack + [cur]) + [Pos(next.i, next.j)], todo - 1)
  {
    var b := Snap(g);
    assert next in Candidates(cur, 1) && Inside(c, next) && b[next.i][next.j] == Cell;
    var route := stack + [cur];
    assert route[|route| - 1] == cur;
    AdvanceEvolved(c, b0, b, next);
    AdvanceRoute(c, b0, b, route, next);
    AdvanceMarks(c, b0, b, route, next);
    CellsAdvance(c, b, next);
  }

  /** Re-marking the current position WRONG is a change Evolved allows. */
  lemma RetreatEvolved(c: Dims, b0: Board, b: Board, cur: Pos)
    requires Shaped(c, b0) && Shaped(c, b) && Evolved(c, b0, b)
    requires InBounds(c, cur.i, cur.j) && b[cur.i][cur.j] == Passed
    requires cur == c.Enter() || b0[cur.i][cur.j] == Cell
    ensures Shaped(c, Write(b, cur, Wrong))
    ensures Evolved(c, b0, Write(b, cur, Wrong))
  {
    WriteShaped(c, b, cur, Wrong);
  }

  /** Dropping the last position of a route gives a route once that
      position is WRONG. */
  lemma RetreatRoute(c: Dims, b0: Board, b: Board, route: seq<Pos>)
    requires Shaped(c, b0) && Shaped(c, b) && Route(c, b0, b, route) && |route| > 1
    ensures Shaped(c, Write(b, route[|route| - 1], Wrong))
    ensures Route(c, b0, Write(b, route[|route| - 1], Wrong), route[..|route| - 1])
  {
    var cur := route[|route| - 1];
    WriteShaped(c, b, cur, Wrong);
    var b1 := Write(b, cur, Wrong);
    var route1 := route[..|route| - 1];
    forall k | 0 < k < |route1|
      ensures Move(c, b0, route1[k - 1], route1[k])
    {
      assert route1[k - 1] == route[k - 1] && route1[k] == route[k];
    }
    forall k | 0 <= k < |route1|
      ensures InBounds(c, route1[k].i, route1[k].j) && b1[route1[k].i][route1[k].j] == Passed
    {
      assert route1[k] == route[k] && route[k] != route[|route| - 1];
    }
    forall k, l | 0 <= k < l < |route1|
      ensures route1[k] != route1[l]
    {
      assert route1[k] == route[k] && route1[l] == route[l];
    }
  }

  /** After the step back the PASSED positions stepped on all lie on the
      shortened route, and the new WRONG one is stuck. */
  lemma RetreatMarks(c: Dims, b0: Board, b: Board, route: seq<Pos>)
    requires Shaped(c, b0) && Shaped(c, b) && Route(c, b0, b, route) && |route| > 1
    requires OnRoute(c, b0, b, route) && DeadEnds(c, b0, b)
    requires Stuck(c, b, route[|route| - 1])
    ensures Shaped(c, Write(b, route[|route| - 1], Wrong))
    ensures OnRoute(c, b0, Write(b, route[|route| - 1], Wrong), route[..|route| - 1])
    ensures DeadEnds(c, b0, Write(b, route[|route| - 1], Wrong))
  {
    var cur := route[|route| - 1];
    WriteShaped(c, b, cur, Wrong);
    var b1 := Write(b, cur, Wrong);
    assert b[cur.i][cur.j] == Passed;
    forall i, j | Settled(c, b0, b1, Pos(i, j)) && b1[i][j] == Wrong
      ensures Stuck(c, b1, Pos(i, j))
    {
      if Pos(i, j) != cur {
        assert Settled(c, b0, b, Pos(i, j)) && b[i][j] == Wrong;
        assert Stuck(c, b, Pos(i, j));
      }
    }
    forall i, j | Settled(c, b0, b1, Pos(i, j)) && b1[i][j] == Passed
      ensures Pos(i, j) in route[..|route| - 1]
    {
      assert Settled(c, b0, b, Pos(i, j)) && b[i][j] == Passed;
      var k :| 0 <= k < |route| && route[k] == Pos(i, j);
      assert k < |route| - 1 && route[..|route| - 1][k] == Pos(i, j);
    }
  }

  /** The step back marks no new CELL. */
  lemma CellsRetreat(c: Dims, b: Board, cur: Pos)
    requires Shaped(c, b) && InBounds(c, cur.i, cur.j) && b[cur.i][cur.j] == Passed
    ensures Shaped(c, Write(b, cur, Wrong))
    ensures CellsIn(c, Write(b, cur, Wrong)) == CellsIn(c, b)
  {
    WriteShaped(c, b, cur, Wrong);
  }

  /** The step back from a stuck position: it becomes WRONG and the search
      returns to the top of the stack. */
  lemma SearchRetreat(c: Dims, b0: Board, b: Board, stack: seq<Pos>, cur: Pos, todo: nat)
    requires Search(c, b0, b, stack + [cur], todo) && cur != c.Exit() && |stack| > 0
    requires Stuck(c, b, cur)
    ensures InBounds(c, cur.i, cur.j) && Shaped(c, Write(b, cur, Wrong))
    ensures Search(c, b0, Write(b, cur, Wrong),
              stack[..|stack| - 1] + [Pos(stack[|stack| - 1].i, stack[|stack| - 1].j)], todo)
  {
    var route := stack + [cur];
    assert route[|route| - 1] == cur && route[..|route| - 1] == stack;
    assert stack[..|stack| - 1] + [Pos(stack[|stack| - 1].i, stack[|stack| - 1].j)] == stack;
    assert InBounds(c, cur.i, cur.j) && b[cur.i][cur.j] == Passed;
    assert Move(c, b0, route[|route| - 2], cur);
    RetreatEvolved(c, b0, b, cur);
    RetreatRoute(c, b0, b, route);
    RetreatMarks(c, b0, b, route);
    CellsRetreat(c, b, cur);
    var b1 := Write(b, cur, Wrong);
    assert !Settled(c, b0, b, c.Exit());
    assert !Settled(c, b0, b1, c.Exit());
  }

  /** When the stack is empty and the current position is stuck, that
      position is ENTER, every position stepped on is stuck and EXIT has
      not been stepped on. */
  lemma SearchFails(c: Dims, b0: Board, b: Board, cur: Pos, todo: nat)
    requires Search(c, b0, b, [cur], todo) && cur != c.Exit()
    requires Stuck(c, b, cur)
    ensures cur == c.Enter()
    ensures Closed(c, b0, b)
    ensures !Settled(c, b0, b, c.Exit())
  {
    forall i, j | Settled(c, b0, b, Pos(i, j))
      ensures Stuck(c, b, Pos(i, j))
    {
      if b[i][j] == Passed {
        assert Pos(i, j) in [cur];
      }
    }
  }

  /** A walk without its last position is a walk. */
  lemma WalkPrefix(c: Dims, b0: Board, w: seq<Pos>)
    requires Shaped(c, b0) && IsWalk(c, b0, w) && |w| > 1
    ensures IsWalk(c, b0, w[..|w| - 1])
  {
    var u := w[..|w| - 1];
    forall k | 0 < k < |u|
      ensures Move(c, b0, u[k - 1], u[k])
    {
      assert u[k - 1] == w[k - 1] && u[k] == w[k];
    }
  }

  /** Once every position stepped on is stuck, a move from one of them
      leads to another: the CELL of the input it leads to is no longer
      CELL, so it has been marked. */
  lemma SettledMove(c: Dims, b0: Board, b: Board, p: Pos, q: Pos)
    requires Shaped(c, b0) && Shaped(c, b)
    requires Evolved(c, b0, b) && Closed(c, b0, b)
    requires Settled(c, b0, b, p) && Move(c, b0, p, q)
    ensures Settled(c, b0, b, q)
  {
    assert Stuck(c, b, Pos(p.i, p.j));
  }

  /** Every walk through the input ends on a position the solver has
      stepped on, once all of those are stuck. */
  lemma {:induction false} WalkStaysSettled(c: Dims, b0: Board, b: Board, w: seq<Pos>)
    requires c.Valid() && Shaped(c, b0) && Shaped(c, b)
    requires Evolved(c, b0, b) && Closed(c, b0, b)
    requires IsWalk(c, b0, w)
    ensures Settled(c, b0, b, w[|w| - 1])
    decreases |w|
  {
    if |w| == 1 {
      assert Marked(b[1][1]);
    } else {
      WalkPrefix(c, b0, w);
      WalkStaysSettled(c, b0, b, w[..|w| - 1]);
      SettledMove(c, b0, b, w[|w| - 2], w[|w| - 1]);
    }
  }

  /** So when the solver gives up, no walk through the input leads from
      ENTER to EXIT. */
  lemma NoWayOut(c: Dims, b0: Board, b: Board)
    requires c.Valid() && Shaped(c, b0) && Shaped(c, b)
    requires Evolved(c, b0, b) && Closed(c, b0, b) && !Settled(c, b0, b, c.Exit())
    ensures forall w :: IsWalk(c, b0, w) ==> w[|w| - 1] != c.Exit()
  {
    forall w | IsWalk(c, b0, w)
      ensures w[|w| - 1] != c.Exit()
    {
      WalkStaysSettled(c, b0, b, w);
    }
  }

  /** An empty get_neighbours with distance 1 means the position is
      stuck. */
  lemma StuckOf(c: Dims, g: array2<State>, p: Pos)
    requires Fits(c, g) && Neighbours(c, g, p, 1) == []
    ensures Shaped(c, Snap(g)) && Stuck(c, Snap(g), p)
  {
    forall q | q in Candidates(p, 1) && Inside(c, q)
      ensures Snap(g)[q.i][q.j] != Cell
    {
      var m := DirectionOf(p, 1, q);
      assert Step(m, p, 1) !in Neighbours(c, g, p, 1);
    }
  }
}
