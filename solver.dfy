/** DFS_solve: a depth-first search from ENTER toward EXIT over the CELL
    entries of a maze, one step at a time, always to the neighbour nearest
    EXIT. Entries it steps on become PASSED; a dead end it backs out of
    becomes WRONG. */
module Solver {
  import opened Grid
  import opened Heuristic
  import opened SearchState

  /** One step forward: to the neighbour nearest EXIT, which becomes PASSED. */
  method Forward(c: Dims, maze: array2<State>, ghost b0: Board, ghost stack: seq<Pos>, cur: Pos, ghost todo: nat, ns: seq<Pos>)
    returns (next: Pos)
    requires Fits(c, maze) && Search(c, b0, Snap(maze), stack + [cur], todo) && cur != c.Exit()
    requires ns == Neighbours(c, maze, cur, 1) && |ns| > 0
    modifies maze
    ensures Fits(c, maze) && todo >= 1 && next in old(Neighbours(c, maze, cur, 1))
    ensures next == old(BestTurn(c, Neighbours(c, maze, cur, 1))).value
    ensures Snap(maze) == Write(old(Snap(maze)), next, Passed)
    ensures Search(c, b0, Snap(maze), (stack + [cur]) + [Pos(next.i, next.j)], todo - 1)
  {
    next := BestTurn(c, ns).value;
    SearchAdvance(c, b0, maze, stack, cur, todo, next);
    Put(maze, next, Passed);
  }

  /** One step back from a dead end, which becomes WRONG. */
  method Back(c: Dims, maze: array2<State>, ghost b0: Board, ghost stack: seq<Pos>, cur: Pos, ghost todo: nat, ns: seq<Pos>)
    requires Fits(c, maze) && Search(c, b0, Snap(maze), stack + [cur], todo) && cur != c.Exit()
    requires ns == Neighbours(c, maze, cur, 1) && ns == [] && |stack| > 0
    modifies maze
    ensures Fits(c, maze) && 0 <= cur.i < maze.Length0 && 0 <= cur.j < maze.Length1
    ensures Snap(maze) == Write(old(Snap(maze)), cur, Wrong)
    ensures Search(c, b0, Snap(maze), stack[..|stack| - 1] + [Pos(stack[|stack| - 1].i, stack[|stack| - 1].j)], todo)
  {
    StuckOf(c, maze, cur);
    SearchRetreat(c, b0, Snap(maze), stack, cur, todo);
    Put(maze, cur, Wrong);
  }

  /** DFS_solve(maze). It changes the maze in place, as Evolved allows, so
      no WALL other than ENTER changes. When it returns the maze, `path` is
      a walk through the input from ENTER to EXIT over distinct positions,
      all PASSED. When it returns None, the search is back at ENTER with an
      empty stack and no CELL neighbour, and no walk through the input
      leads from ENTER to EXIT. */
  method Solve(c: Dims, maze: array2<State>) returns (r: Option<array2<State>>, ghost path: seq<Pos>)
    requires c.Valid() && Fits(c, maze)
    modifies maze
    ensures Shaped(c, old(Snap(maze))) && Shaped(c, Snap(maze))
    ensures Evolved(c, old(Snap(maze)), Snap(maze))
    ensures r.Some? ==> Route(c, old(Snap(maze)), Snap(maze), path)
    ensures r.Some? ==> OnRoute(c, old(Snap(maze)), Snap(maze), path) && DeadEnds(c, old(Snap(maze)), Snap(maze))
    ensures r.Some? ==> r.value == maze && path[|path| - 1] == c.Exit() && maze[c.Exit().i, c.Exit().j] == Passed
    ensures r.None? ==> path == [c.Enter()] && Neighbours(c, maze, c.Enter(), 1) == []
    ensures r.None? ==> forall w :: IsWalk(c, old(Snap(maze)), w) ==> w[|w| - 1] != c.Exit()
  {
    ghost var b0 := Snap(maze);
    var x, y := 1, 1;
    Put(maze, c.Enter(), Passed);
    var stack: seq<Pos> := [];
    ghost var todo: nat := |CellsIn(c, Snap(maze))|;
    SearchStart(c, b0, Snap(maze));
    assert [] + [Pos(x, y)] == [c.Enter()];
    while Pos(x, y) != c.Exit()
      invariant Fits(c, maze) && Search(c, b0, Snap(maze), stack + [Pos(x, y)], todo)
      decreases todo, |stack|
    {
      var ns := Neighbours(c, maze, Pos(x, y), 1);
      if |ns| > 0 {
        var next := Forward(c, maze, b0, stack, Pos(x, y), todo, ns);
        stack := stack + [Pos(x, y)];
        x, y := next.i, next.j;
        todo := todo - 1;
      } else if |stack| > 0 {
        Back(c, maze, b0, stack, Pos(x, y), todo, ns);
        x, y := stack[|stack| - 1].i, stack[|stack| - 1].j;
        stack := stack[..|stack| - 1];
      } else {
        StuckOf(c, maze, Pos(x, y));
        assert stack + [Pos(x, y)] == [Pos(x, y)];
        SearchFails(c, b0, Snap(maze), Pos(x, y), todo);
        NoWayOut(c, b0, Snap(maze));
        return None, [Pos(x, y)];
      }
    }
    return Some(maze), stack + [Pos(x, y)];
  }
}
