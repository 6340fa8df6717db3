/** Weighted directed graphs over the dense vertex range 0 .. n-1, and walks in them. */
module Graphs {

  /** A directed edge from `from` to `to` carrying an integer weight. */
  datatype Edge = Edge(from: nat, to: nat, weight: int)

  /** A graph: its vertex count and its edges in insertion order. */
  datatype Graph = Graph(n: nat, edges: seq<Edge>)

  /** The vertex range 0 .. n-1. */
  function Vertices(n: nat): (r: set<nat>)
    ensures forall v: nat :: v in r <==> v < n
    ensures |r| == n
  {
    if n == 0 then {} else Vertices(n - 1) + {n - 1}
  }

  predicate EdgesWithin(n: nat, edges: seq<Edge>) {
    forall e :: e in edges ==> e.from < n && e.to < n
  }

  /** Every edge references a vertex of the graph. */
  predicate ValidGraph(g: Graph) {
    EdgesWithin(g.n, g.edges)
  }

  predicate NonNegative(edges: seq<Edge>) {
    forall e :: e in edges ==> e.weight >= 0
  }

  /** Some edge ends at v. */
  predicate IsHead(edges: seq<Edge>, v: nat) {
    exists e :: e in edges && e.to == v
  }

  /** The edges leaving u, in insertion order (out_edges(u, g)). */
  function OutEdges(edges: seq<Edge>, u: nat): (r: seq<Edge>)
    ensures forall e :: e in r <==> e in edges && e.from == u
    ensures |r| <= |edges|
  {
    if edges == [] then []
    else (if edges[0].from == u then [edges[0]] else []) + OutEdges(edges[1..], u)
  }

  /** The out-edges keep the insertion order of the edge list, repeated parallel edges
      included: adding one edge at the end adds it at the end of its tail's list. */
  lemma {:induction false} OutEdgesAppend(edges: seq<Edge>, e: Edge, u: nat)
    ensures OutEdges(edges + [e], u) == OutEdges(edges, u) + (if e.from == u then [e] else [])
    decreases |edges|
  {
    var last := if e.from == u then [e] else [];
    if edges == [] {
      assert [] + [e] == [e] && [e][1..] == [];
      assert OutEdges([e], u) == last + OutEdges([], u);
    } else {
      var head := if edges[0].from == u then [edges[0]] else [];
      var rest := edges[1..];
      assert (edges + [e])[0] == edges[0] && (edges + [e])[1..] == rest + [e];
      OutEdgesAppend(rest, e, u);
      var tail := OutEdges(rest, u);
      EdgeListsAssociate(head, tail, last);
      calc {
        OutEdges(edges + [e], u);
        head + OutEdges(rest + [e], u);
        head + (tail + last);
        (head + tail) + last;
        OutEdges(edges, u) + last;
      }
    }
  }

  /** Concatenation of edge lists associates. */
  lemma EdgeListsAssociate(a: seq<Edge>, b: seq<Edge>, c: seq<Edge>)
    ensures a + (b + c) == (a + b) + c
  {
  }

  /** Total weight of a sequence of edges. */
  function Weight(p: seq<Edge>): int {
    if p == [] then 0 else Weight(p[..|p| - 1]) + p[|p| - 1].weight
  }

  /** p is a walk along edges of the graph from s to v (the empty walk stays at s). */
  predicate IsWalk(edges: seq<Edge>, s: nat, v: nat, p: seq<Edge>)
    decreases |p|
  {
    if p == [] then v == s
    else p[|p| - 1] in edges && p[|p| - 1].to == v && IsWalk(edges, s, p[|p| - 1].from, p[..|p| - 1])
  }

  /** c is the weight of some walk from s to v. */
  ghost predicate HasWalk(edges: seq<Edge>, s: nat, v: nat, c: int) {
    exists p :: IsWalk(edges, s, v, p) && Weight(p) == c
  }

  /** c is the least weight of all walks from s to v. */
  ghost predicate IsShortest(edges: seq<Edge>, s: nat, v: nat, c: int) {
    HasWalk(edges, s, v, c) && forall p :: IsWalk(edges, s, v, p) ==> c <= Weight(p)
  }

  /** Appending an edge leaving the end of a walk gives a walk one edge longer. */
  lemma ExtendWalk(edges: seq<Edge>, s: nat, p: seq<Edge>, e: Edge)
    requires IsWalk(edges, s, e.from, p) && e in edges
    ensures IsWalk(edges, s, e.to, p + [e]) && Weight(p + [e]) == Weight(p) + e.weight
  {
    assert (p + [e])[..|p|] == p;
  }

  /** Every walk over non-negative edges stays inside the graph and weighs at least zero. */
  lemma {:induction false} WalkWeightNonNegative(edges: seq<Edge>, s: nat, v: nat, p: seq<Edge>)
    requires NonNegative(edges) && IsWalk(edges, s, v, p)
    ensures Weight(p) >= 0
    decreases |p|
  {
    if p != [] {
      WalkWeightNonNegative(edges, s, p[|p| - 1].from, p[..|p| - 1]);
    }
  }
}
