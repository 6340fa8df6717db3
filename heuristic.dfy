/** The A* heuristic of the program: the target's current entry minus the vertex's. */
module Heuristic {

  /** AStarHeuristic(target, d)(v). Added to d[v], it gives the target's entry for every vertex,
      so the A* priority d[v] + h(v) does not depend on v. */
  function AStarHeuristic(d: seq<int>, target: nat, v: nat): (h: int)
    requires target < |d| && v < |d|
    ensures v == target ==> h == 0
    ensures h > 0 <==> d[v] < d[target]
    ensures d[v] + h == d[target]
  {
    d[target] - d[v]
  }
}
