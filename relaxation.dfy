/** Edge relaxation as the specification of the loop body of `astar`, and its properties. */
module Relaxation {
  import opened Graphs
  import opened Distances

  /** Relax one edge u -> v of weight w: lower d[v] to d[u] + w when that is smaller.
      A sentinel entry d[u] is never extended (the source would overflow there). */
  function RelaxEdge(d: seq<int>, e: Edge): (r: seq<int>)
    requires e.from < |d| && e.to < |d|
    ensures |r| == |d|
    ensures forall x :: 0 <= x < |d| && x != e.to ==> r[x] == d[x]
    ensures r[e.to] <= d[e.to]
    ensures r[e.to] != d[e.to] ==> d[e.from] != INF && r[e.to] == d[e.from] + e.weight
    ensures d[e.from] != INF ==> r[e.to] <= d[e.from] + e.weight
  {
    if d[e.from] != INF && d[e.from] + e.weight < d[e.to] then d[e.to := d[e.from] + e.weight] else d
  }

  /** Relax the edges of es one after the other, in order; each step reads the current table. */
  function RelaxEdges(d: seq<int>, es: seq<Edge>): (r: seq<int>)
    requires EdgesWithin(|d|, es)
    ensures |r| == |d|
    decreases |es|
  {
    if es == [] then d
    else
      var m := RelaxEdges(d, es[..|es| - 1]);
      RelaxEdge(m, es[|es| - 1])
  }

  /** The main loop as a whole: for each vertex of `order` in turn, relax its out-edges. */
  function RelaxInOrder(edges: seq<Edge>, d: seq<int>, order: seq<nat>): (r: seq<int>)
    requires EdgesWithin(|d|, edges)
    ensures |r| == |d|
    decreases |order|
  {
    if order == [] then d
    else
      var m := RelaxInOrder(edges, d, order[..|order| - 1]);
      RelaxEdges(m, OutEdges(edges, order[|order| - 1]))
  }

  /** Popping one vertex more extends the relaxation of the pops so far by its out-edges. */
  lemma RelaxInOrderStep(edges: seq<Edge>, d: seq<int>, order: seq<nat>, u: nat)
    requires EdgesWithin(|d|, edges)
    ensures EdgesWithin(|RelaxInOrder(edges, d, order)|, OutEdges(edges, u))
    ensures RelaxInOrder(edges, d, order + [u]) == RelaxEdges(RelaxInOrder(edges, d, order), OutEdges(edges, u))
  {
    assert (order + [u])[..|order|] == order;
  }

  /** Relaxing one edge more extends the relaxation of a prefix. */
  lemma RelaxEdgesPrefix(d: seq<int>, es: seq<Edge>, i: nat)
    requires EdgesWithin(|d|, es) && i < |es|
    ensures EdgesWithin(|d|, es[..i]) && EdgesWithin(|d|, es[..i + 1])
    ensures RelaxEdges(d, es[..i + 1]) == RelaxEdge(RelaxEdges(d, es[..i]), es[i])
  {
    assert es[..i + 1][..i] == es[..i];
    assert forall e :: e in es[..i + 1] ==> e in es;
  }

  /** No entry ever increases. */
  lemma {:induction false} RelaxEdgesDecrease(d: seq<int>, es: seq<Edge>)
    requires EdgesWithin(|d|, es)
    ensures forall x :: 0 <= x < |d| ==> RelaxEdges(d, es)[x] <= d[x]
    decreases |es|
  {
    if es != [] {
      RelaxEdgesDecrease(d, es[..|es| - 1]);
    }
  }

  /** Only heads of the relaxed edges change. */
  lemma {:induction false} RelaxEdgesFrame(d: seq<int>, es: seq<Edge>)
    requires EdgesWithin(|d|, es)
    ensures forall x :: 0 <= x < |d| && !IsHead(es, x) ==> RelaxEdges(d, es)[x] == d[x]
    decreases |es|
  {
    if es != [] {
      var es' := es[..|es| - 1];
      RelaxEdgesFrame(d, es');
      forall x | 0 <= x < |d| && !IsHead(es, x)
        ensures RelaxEdges(d, es)[x] == d[x]
      {
        assert es[|es| - 1] in es;
        assert forall e :: e in es' ==> e in es;
      }
    }
  }

  /** c is obtained from a non-sentinel entry init[x] of the starting table by following a walk
      from x to v: the only way an entry of the table can come about. */
  ghost predicate DerivedFrom(edges: seq<Edge>, init: seq<int>, v: nat, c: int) {
    exists x: nat, p :: x < |init| && init[x] != INF && IsWalk(edges, x, v, p) && c == init[x] + Weight(p)
  }

  ghost predicate TableDerivedFrom(edges: seq<Edge>, init: seq<int>, d: seq<int>) {
    forall v :: 0 <= v < |d| && d[v] != INF ==> DerivedFrom(edges, init, v, d[v])
  }

  /** Every table entry is its own starting value followed by the empty walk. */
  lemma StartDerived(edges: seq<Edge>, init: seq<int>)
    ensures TableDerivedFrom(edges, init, init)
  {
    forall v | 0 <= v < |init| && init[v] != INF
      ensures DerivedFrom(edges, init, v, init[v])
    {
      assert IsWalk(edges, v, v, []);
    }
  }

  /** Every value written by relaxation is d[u] + w for a graph edge (u -> v, w), so the table
      stays derived from the starting table. */
  lemma {:induction false} RelaxEdgesSound(edges: seq<Edge>, init: seq<int>, d: seq<int>, es: seq<Edge>)
    requires EdgesWithin(|d|, es) && forall e :: e in es ==> e in edges
    requires TableDerivedFrom(edges, init, d)
    ensures TableDerivedFrom(edges, init, RelaxEdges(d, es))
    decreases |es|
  {
    if es != [] {
      var es', e := es[..|es| - 1], es[|es| - 1];
      assert e in es;
      RelaxEdgesSound(edges, init, d, es');
      var m := RelaxEdges(d, es');
      var r := RelaxEdge(m, e);
      if r[e.to] != m[e.to] {
        var x: nat, p :| x < |init| && init[x] != INF && IsWalk(edges, x, e.from, p) && m[e.from] == init[x] + Weight(p);
        ExtendWalk(edges, x, p, e);
        assert DerivedFrom(edges, init, e.to, r[e.to]);
      }
    }
  }

  /** Right after the out-edges of u are relaxed, every one of them satisfies d[v] <= d[u] + w,
      and d[u] itself is unchanged, provided no self-loop at u is negative. */
  lemma {:induction false} RelaxEdgesBound(d: seq<int>, es: seq<Edge>, u: nat)
    requires u < |d| && EdgesWithin(|d|, es)
    requires forall e :: e in es ==> e.from == u && (e.to == u ==> e.weight >= 0)
    ensures RelaxEdges(d, es)[u] == d[u]
    ensures forall e :: e in es && RelaxEdges(d, es)[u] != INF ==>
              RelaxEdges(d, es)[e.to] <= RelaxEdges(d, es)[u] + e.weight
    decreases |es|
  {
    if es != [] {
      var es', e := es[..|es| - 1], es[|es| - 1];
      assert e in es;
      RelaxEdgesBound(d, es', u);
      var m := RelaxEdges(d, es');
      var r := RelaxEdge(m, e);
      assert r[u] == m[u];
      forall f | f in es && r[u] != INF
        ensures r[f.to] <= r[u] + f.weight
      {
        if f != e {
          assert f in es';
        }
      }
    }
  }

  /** With non-negative out-edges of u, relaxing them can only lower an entry to a value
      no smaller than d[u]. */
  lemma {:induction false} RelaxFromMinimal(d: seq<int>, es: seq<Edge>, u: nat)
    requires u < |d| && EdgesWithin(|d|, es)
    requires forall e :: e in es ==> e.from == u && e.weight >= 0
    ensures forall y :: 0 <= y < |d| ==> RelaxEdges(d, es)[y] == d[y] || d[u] <= RelaxEdges(d, es)[y]
    decreases |es|
  {
    if es != [] {
      var es', e := es[..|es| - 1], es[|es| - 1];
      assert e in es;
      RelaxFromMinimal(d, es', u);
      RelaxEdgesBound(d, es', u);
    }
  }
}
