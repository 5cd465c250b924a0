/** The solver's greedy heuristic: the Manhattan distance to EXIT and the
    choice of the neighbour closest to it. */
module Heuristic {
  import opened Grid

  /** manhattan_distance: the number of axis steps from `p` to EXIT. It is
      zero exactly at EXIT. */
  function Manhattan(c: Dims, p: Pos): (r: nat)
    ensures r == 0 <==> p == c.Exit()
  {
    Abs(c.Exit().i - p.i) + Abs(c.Exit().j - p.j)
  }

  /** The index of the last element of least distance in a non-empty
      list. */
  function LastBest(c: Dims, ns: seq<Pos>): (k: nat)
    requires ns != []
    decreases |ns|
    ensures k < |ns|
    ensures forall l :: 0 <= l < |ns| ==> Manhattan(c, ns[k]) <= Manhattan(c, ns[l])
    ensures forall l :: k < l < |ns| ==> Manhattan(c, ns[k]) < Manhattan(c, ns[l])
  {
    if |ns| == 1 then 0
    else
      var k := LastBest(c, ns[..|ns| - 1]);
      if Manhattan(c, ns[|ns| - 1]) <= Manhattan(c, ns[k]) then |ns| - 1 else k
  }

  /** best_turn: the source sorts the list by distance, largest first, and
      pops the last element. The sort is stable also when reversed, so that
      element is a position of least distance, and of those the one that
      comes last in the list. Popping from an empty list is an error, here
      None. */
  function BestTurn(c: Dims, ns: seq<Pos>): (r: Option<Pos>)
    ensures r.None? <==> ns == []
    ensures r.Some? ==> r.value in ns
    ensures r.Some? ==> forall q :: q in ns ==> Manhattan(c, r.value) <= Manhattan(c, q)
    ensures r.Some? ==> exists k :: 0 <= k < |ns| && ns[k] == r.value &&
                          forall l :: k < l < |ns| ==> Manhattan(c, r.value) < Manhattan(c, ns[l])
  {
    if ns == [] then None else Some(ns[LastBest(c, ns)])
  }
}
