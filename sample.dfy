/** The five-vertex graph `main` builds, and what `astar` leaves for target 4 from source 0. */
module SampleGraph {
  import opened Graphs
  import opened Distances
  import opened Optimality
  import opened DecreaseKeyQueue
  import opened AStarSolver

  /** Edges (0,1) (0,2) (1,3) (2,3) (3,4) with weights 2, 1, 3, 1, 2. */
  function Sample(): (g: Graph)
    ensures g.n == 5 && ValidGraph(g) && NonNegative(g.edges)
  {
    Graph(5, [Edge(0, 1, 2), Edge(0, 2, 1), Edge(1, 3, 3), Edge(2, 3, 1), Edge(3, 4, 2)])
  }

  /** The shortest distances from vertex 0: [0, 2, 1, 2, 4]. */
  function SampleShortestTable(): (d: seq<int>)
    ensures |d| == 5 && Closed(Sample().edges, d)
    ensures forall v :: 0 <= v < 5 ==> d[v] <= INF
  {
    [0, 2, 1, 2, 4]
  }

  /** The shortest walk from 0 to 4 weighs 4 (0 -> 2 -> 3 -> 4). */
  lemma SampleShortest()
    ensures IsShortest(Sample().edges, 0, 4, 4)
  {
    var edges := Sample().edges;
    var d := SampleShortestTable();
    assert IsWalk(edges, 0, 0, []);
    ExtendWalk(edges, 0, [], edges[1]);
    ExtendWalk(edges, 0, [edges[1]], edges[3]);
    ExtendWalk(edges, 0, [edges[1], edges[3]], edges[4]);
    assert [] + [edges[1]] == [edges[1]] && [edges[1]] + [edges[3]] == [edges[1], edges[3]];
    assert [edges[1], edges[3]] + [edges[4]] == [edges[1], edges[3], edges[4]];
    assert IsWalk(edges, 0, 4, [edges[1], edges[3], edges[4]]) && Weight([edges[1], edges[3], edges[4]]) == 4;
    assert EdgesWithin(|d|, edges) && NonNegative(edges) && Closed(edges, d);
    assert d[0] <= 0 && d[4] == 4 && forall x :: 0 <= x < |d| ==> d[x] <= INF;
    forall q | IsWalk(edges, 0, 4, q)
      ensures 4 <= Weight(q)
    {
      ClosedLowerBound(edges, d, 0, 4, q);
    }
  }

  /** A fresh sentinel table, least-distance pops: the report for target 4 is a path of the
      shortest weight 4. */
  method SampleFromSentinel() returns (r: Report)
    ensures r == Path(4) && IsShortest(Sample().edges, 0, 4, r.distance)
  {
    var g := Sample();
    var distances := new int[5](_ => INF);
    assert distances[..] == InitialTable(5);
    ghost var order := AStar(g, 0, 4, distances, LeastDistance);
    SampleShortest();
    ReportMeansWalk(g.edges, 0, distances[..], 4);
    r := ReportFor(distances[..], 4);
    assert distances[4] == 4;
  }

  /** The flow of `main`: the table already holds the shortest distances when `astar` runs
      (left there by the Dijkstra and Bellman-Ford runs over the same table). Whatever the pop
      order, `astar` changes nothing and the report for target 4 is a path of weight 4. */
  method SampleAfterShortest(policy: PopPolicy) returns (r: Report)
    ensures r == Path(4)
  {
    var g := Sample();
    var distances := new int[5](v => if v == 0 then 0 else if v == 1 then 2 else if v == 2 then 1 else if v == 3 then 2 else 4);
    ghost var start := distances[..];
    assert start == SampleShortestTable();
    assert start[0 := 0] == start;
    ghost var order := AStar(g, 0, 4, distances, policy);
    ClosedStartIsFixed(g.edges, start, distances[..]);
    r := ReportFor(distances[..], 4);
  }
}
