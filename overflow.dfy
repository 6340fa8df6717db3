/** The relaxation step as the C++ int arithmetic evaluates it: `distances[u] + weight` is a
    32-bit signed sum, with no test that distances[u] still holds the INT_MAX sentinel. */
module Overflow {
  import opened Graphs
  import opened Distances
  import opened Relaxation

  /** numeric_limits<int>::min() */
  const INT_MIN: int := -0x8000_0000

  /** Two's-complement wrap-around of an int sum to 32 bits (the behaviour of the usual
      targets for the signed overflow the language leaves undefined). */
  function Wrap32(x: int): (r: int)
    ensures INT_MIN <= r <= INF
    ensures (x - r) % 0x1_0000_0000 == 0
    ensures INT_MIN <= x <= INF ==> r == x
  {
    (x - INT_MIN) % 0x1_0000_0000 + INT_MIN
  }

  /** The loop body as written: d[v] := d[u] + w when the wrapped sum is below d[v]. */
  function RelaxEdgeAsWritten(d: seq<int>, e: Edge): (r: seq<int>)
    requires e.from < |d| && e.to < |d|
    ensures |r| == |d|
    ensures forall x :: 0 <= x < |d| && x != e.to ==> r[x] == d[x]
    ensures r[e.to] <= d[e.to]
    ensures r[e.to] != d[e.to] ==> r[e.to] == Wrap32(d[e.from] + e.weight)
    // away from the sentinel and from overflow it is the guarded step
    ensures d[e.from] != INF && INT_MIN <= d[e.from] + e.weight <= INF ==> r == RelaxEdge(d, e)
  {
    var s := Wrap32(d[e.from] + e.weight);
    if s < d[e.to] then d[e.to := s] else d
  }

  /** Two vertices, source 0, one edge 1 -> 0 of weight 1: when vertex 1 is popped with the
      sentinel still in place, INT_MAX + 1 wraps to INT_MIN and the source's entry drops to it.
      No walk from a finite starting entry produces that value, the report claims a path of
      weight INT_MIN to vertex 0, and the guarded step leaves the table alone. */
  lemma SentinelWrapCounterexample()
    ensures RelaxEdgeAsWritten([0, INF], Edge(1, 0, 1)) == [INT_MIN, INF]
    ensures ReportFor(RelaxEdgeAsWritten([0, INF], Edge(1, 0, 1)), 0) == Path(INT_MIN)
    ensures !DerivedFrom([Edge(1, 0, 1)], [0, INF], 0, INT_MIN)
    ensures RelaxEdge([0, INF], Edge(1, 0, 1)) == [0, INF]
  {
    var edges, init := [Edge(1, 0, 1)], [0, INF];
    assert Wrap32(INF + 1) == INT_MIN;
    assert RelaxEdgeAsWritten(init, Edge(1, 0, 1)) == init[0 := INT_MIN];
    assert [0, INF][0 := INT_MIN] == [INT_MIN, INF];
    forall x: nat, p | x < |init| && init[x] != INF && IsWalk(edges, x, 0, p)
      ensures INT_MIN != init[x] + Weight(p)
    {
      WalkWeightNonNegative(edges, x, 0, p);
    }
  }
}
