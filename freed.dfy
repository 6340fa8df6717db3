/** `pq.increase` on a vertex that has already been popped. `pq.pop()` frees the heap node of
    the popped vertex, so a later `pq.increase(handles[v], …)` for it is undefined; this
    happens whenever relaxation lowers the entry of a vertex that has been popped. */
module FreedHandles {
  import opened Graphs
  import opened Distances
  import opened Relaxation

  /** Three vertices, source 0, edges 0 -> 1 (weight 5), 0 -> 2 (1), 2 -> 1 (1), popped in the
      order 0, 1, 2. `AnyOrder` allows this order; the code's comparator, an empty
      `std::function`, defines none, and a comparator not ordering by distance may give it.
      Popping 0 sets the table to [0, 5, 1]; popping 1 changes nothing; popping 2 lowers
      vertex 1, already popped, from 5 to 2, so the loop then calls `pq.increase` on the
      freed handle of vertex 1. */
  lemma PoppedVertexLoweredCounterexample()
    ensures var edges := [Edge(0, 1, 5), Edge(0, 2, 1), Edge(2, 1, 1)];
            var d1 := RelaxEdges(InitialTable(3)[0 := 0], OutEdges(edges, 0));
            var d2 := RelaxEdges(d1, OutEdges(edges, 1));
            d1 == [0, 5, 1] && d2 == d1 && RelaxEdges(d2, OutEdges(edges, 2)) == [0, 2, 1]
  {
    var edges := [Edge(0, 1, 5), Edge(0, 2, 1), Edge(2, 1, 1)];
    var d0 := InitialTable(3)[0 := 0];
    assert d0 == [0, INF, INF];
    assert OutEdges(edges, 0) == [Edge(0, 1, 5), Edge(0, 2, 1)];
    assert OutEdges(edges, 1) == [];
    assert OutEdges(edges, 2) == [Edge(2, 1, 1)];
    assert [Edge(0, 1, 5), Edge(0, 2, 1)][..1] == [Edge(0, 1, 5)];
    assert RelaxEdges(d0, [Edge(0, 1, 5)]) == [0, 5, INF];
  }
}
