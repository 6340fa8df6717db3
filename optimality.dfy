/** Why popping by least current distance makes the relaxation loop compute shortest walks
    over non-negative weights (the label-setting argument). */
module Optimality {
  import opened Graphs
  import opened Distances
  import opened Relaxation

  /** Every edge leaving a finished vertex is relaxed. */
  ghost predicate Settled(edges: seq<Edge>, d: seq<int>, done: set<nat>) {
    forall e :: e in edges && e.from in done && e.from < |d| && e.to < |d| && d[e.from] != INF ==>
      d[e.to] <= d[e.from] + e.weight
  }

  /** No finished vertex has a larger entry than a vertex still queued. */
  ghost predicate Ordered(d: seq<int>, done: set<nat>, live: set<nat>) {
    forall x, y :: x in done && y in live && x < |d| && y < |d| ==> d[x] <= d[y]
  }

  /** Every edge of the graph is relaxed. */
  ghost predicate Closed(edges: seq<Edge>, d: seq<int>) {
    forall e :: e in edges && e.from < |d| && e.to < |d| && d[e.from] != INF ==>
      d[e.to] <= d[e.from] + e.weight
  }

  /** The table holds, for every vertex, the least walk weight from s when one below the
      sentinel exists, and the sentinel otherwise. */
  ghost predicate SolvesShortest(edges: seq<Edge>, s: nat, d: seq<int>) {
    forall v :: 0 <= v < |d| ==>
      d[v] <= INF &&
      (d[v] != INF ==> IsShortest(edges, s, v, d[v])) &&
      (d[v] == INF ==> forall p :: IsWalk(edges, s, v, p) ==> INF <= Weight(p))
  }

  /** Popping a queued vertex u of least entry and relaxing its out-edges keeps the
      finished vertices settled and ordered below the queued ones. */
  lemma DijkstraStep(edges: seq<Edge>, d: seq<int>, u: nat, done: set<nat>, live: set<nat>)
    requires EdgesWithin(|d|, edges) && NonNegative(edges)
    requires u < |d| && u in live
    requires Settled(edges, d, done) && Ordered(d, done, live)
    requires forall y :: y in live && y < |d| ==> d[u] <= d[y]
    ensures EdgesWithin(|d|, OutEdges(edges, u))
    ensures Settled(edges, RelaxEdges(d, OutEdges(edges, u)), done + {u})
    ensures Ordered(RelaxEdges(d, OutEdges(edges, u)), done + {u}, live - {u})
  {
    var es := OutEdges(edges, u);
    var r := RelaxEdges(d, es);
    RelaxFromMinimal(d, es, u);
    RelaxEdgesDecrease(d, es);
    RelaxEdgesBound(d, es, u);
    forall x | x in done && x < |d|
      ensures r[x] == d[x]
    {
      assert d[x] <= d[u];
    }
    forall e | e in edges && e.from in done + {u} && e.from < |d| && e.to < |d| && r[e.from] != INF
      ensures r[e.to] <= r[e.from] + e.weight
    {
      if e.from == u {
        assert e in es;
      } else {
        assert r[e.from] == d[e.from];
      }
    }
    forall x, y | x in done + {u} && y in live - {u} && x < |d| && y < |d|
      ensures r[x] <= r[y]
    {
      assert r[x] == d[x];
    }
  }

  /** In a closed table whose source entry is at most 0 and whose entries are at most the
      sentinel, no walk over non-negative edges from the source weighs less than its end's entry. */
  lemma {:induction false} ClosedLowerBound(edges: seq<Edge>, d: seq<int>, s: nat, v: nat, p: seq<Edge>)
    requires EdgesWithin(|d|, edges) && NonNegative(edges) && Closed(edges, d)
    requires s < |d| && d[s] <= 0 && forall x :: 0 <= x < |d| ==> d[x] <= INF
    requires v < |d| && IsWalk(edges, s, v, p)
    ensures d[v] <= Weight(p)
    decreases |p|
  {
    if p != [] {
      var e, q := p[|p| - 1], p[..|p| - 1];
      ClosedLowerBound(edges, d, s, e.from, q);
      WalkWeightNonNegative(edges, s, e.from, q);
    }
  }

  /** With a sentinel starting table (source entry 0), a derived entry is the weight of a walk
      from the source. */
  lemma FromSentinel(edges: seq<Edge>, init: seq<int>, s: nat, d: seq<int>)
    requires s < |init| && init[s] == 0 && StartsAtSentinel(init, s)
    requires TableDerivedFrom(edges, init, d)
    ensures forall v :: 0 <= v < |d| && d[v] != INF ==> HasWalk(edges, s, v, d[v])
  {
    forall v | 0 <= v < |d| && d[v] != INF
      ensures HasWalk(edges, s, v, d[v])
    {
      var x: nat, p :| x < |init| && init[x] != INF && IsWalk(edges, x, v, p) && d[v] == init[x] + Weight(p);
      assert x == s;
    }
  }

  /** A closed table derived from a sentinel start over non-negative weights solves the
      single-source shortest-walk problem. */
  lemma ClosedSolves(edges: seq<Edge>, init: seq<int>, s: nat, d: seq<int>)
    requires EdgesWithin(|d|, edges) && NonNegative(edges) && Closed(edges, d)
    requires |init| == |d| && s < |d| && init[s] == 0 && StartsAtSentinel(init, s)
    requires forall x :: 0 <= x < |d| ==> d[x] <= init[x]
    requires TableDerivedFrom(edges, init, d)
    ensures SolvesShortest(edges, s, d)
  {
    FromSentinel(edges, init, s, d);
    forall v, p | 0 <= v < |d| && IsWalk(edges, s, v, p)
      ensures d[v] <= Weight(p)
    {
      ClosedLowerBound(edges, d, s, v, p);
    }
  }

  /** On a solved table, the target is reported reachable exactly when some walk from the
      source to it weighs less than the sentinel, and then the reported distance is the shortest. */
  lemma ReportMeansWalk(edges: seq<Edge>, s: nat, d: seq<int>, t: nat)
    requires t < |d| && SolvesShortest(edges, s, d)
    ensures ReportFor(d, t).Path? <==> exists p :: IsWalk(edges, s, t, p) && Weight(p) < INF
    ensures ReportFor(d, t).Path? ==> IsShortest(edges, s, t, ReportFor(d, t).distance)
  {
    assert d[t] <= INF;
    if d[t] != INF {
      assert IsShortest(edges, s, t, d[t]);
      var p :| IsWalk(edges, s, t, p) && Weight(p) == d[t];
      assert IsWalk(edges, s, t, p) && Weight(p) < INF;
      assert exists p :: IsWalk(edges, s, t, p) && Weight(p) < INF;
      assert ReportFor(d, t).Path?;
    } else {
      assert ReportFor(d, t) == NoPathFound;
      assert !exists p :: IsWalk(edges, s, t, p) && Weight(p) < INF;
    }
  }

  /** What every iteration of the loop keeps of the table, whatever the pop order: no entry
      is above its starting value, vertices no edge reaches keep it, and every entry is derived
      from the starting table along a walk. */
  ghost predicate TableInvariant(edges: seq<Edge>, init: seq<int>, d: seq<int>) {
    |d| == |init| &&
    (forall v :: 0 <= v < |d| ==> d[v] <= init[v]) &&
    (forall v :: 0 <= v < |d| && !IsHead(edges, v) ==> d[v] == init[v]) &&
    TableDerivedFrom(edges, init, d)
  }

  /** Relaxing the non-negative out-edges of a queued vertex u whose entry is at least every
      finished vertex's lowers neither u nor a finished vertex: every lowered vertex is still
      queued. */
  lemma LoweredStillQueued(edges: seq<Edge>, d: seq<int>, u: nat, done: set<nat>, live: set<nat>)
    requires EdgesWithin(|d|, edges) && NonNegative(edges)
    requires u < |d| && u in live && Ordered(d, done, live)
    requires forall y: nat :: y < |d| ==> y in done || y in live
    ensures EdgesWithin(|d|, OutEdges(edges, u))
    ensures forall y :: 0 <= y < |d| && RelaxEdges(d, OutEdges(edges, u))[y] != d[y] ==> y in live - {u} && y !in done
  {
    var es := OutEdges(edges, u);
    RelaxFromMinimal(d, es, u);
    RelaxEdgesDecrease(d, es);
    RelaxEdgesBound(d, es, u);
  }

  /** One iteration of the loop (pop u, relax its out-edges) keeps the table invariant and,
      when u has least entry among the queued vertices and weights are non-negative, the
      label-setting invariants. */
  lemma TableStep(edges: seq<Edge>, init: seq<int>, d: seq<int>, u: nat, done: set<nat>, live: set<nat>, labelSetting: bool)
    requires EdgesWithin(|d|, edges) && u < |d| && u in live
    requires TableInvariant(edges, init, d)
    requires labelSetting ==> NonNegative(edges) && Settled(edges, d, done) && Ordered(d, done, live) &&
                              forall y :: y in live && y < |d| ==> d[u] <= d[y]
    ensures EdgesWithin(|d|, OutEdges(edges, u))
    ensures TableInvariant(edges, init, RelaxEdges(d, OutEdges(edges, u)))
    ensures labelSetting ==> Settled(edges, RelaxEdges(d, OutEdges(edges, u)), done + {u}) &&
                             Ordered(RelaxEdges(d, OutEdges(edges, u)), done + {u}, live - {u})
  {
    var outs := OutEdges(edges, u);
    RelaxEdgesDecrease(d, outs);
    RelaxEdgesFrame(d, outs);
    assert forall v :: 0 <= v < |d| && !IsHead(edges, v) ==> !IsHead(outs, v);
    RelaxEdgesSound(edges, init, d, outs);
    if labelSetting {
      DijkstraStep(edges, d, u, done, live);
    }
  }

  /** What the finished loop yields: over a sentinel start, entries are walk weights from the
      source; if in addition every edge ends relaxed over non-negative weights, the table
      solves the shortest-walk problem. */
  lemma Conclusions(edges: seq<Edge>, d0: seq<int>, source: nat, d: seq<int>, labelSetting: bool)
    requires EdgesWithin(|d|, edges) && source < |d0|
    requires TableInvariant(edges, d0[source := 0], d)
    requires labelSetting ==> NonNegative(edges) && Closed(edges, d)
    ensures StartsAtSentinel(d0, source) ==>
              forall v :: 0 <= v < |d| && d[v] != INF ==> HasWalk(edges, source, v, d[v])
    ensures labelSetting && StartsAtSentinel(d0, source) ==> SolvesShortest(edges, source, d)
  {
    var init := d0[source := 0];
    if StartsAtSentinel(d0, source) {
      assert StartsAtSentinel(init, source);
      FromSentinel(edges, init, source, d);
      if labelSetting {
        ClosedSolves(edges, init, source, d);
      }
    }
  }

  /** Along a walk over non-negative edges, a closed table grows by at most the walk's weight. */
  lemma {:induction false} ClosedAlongWalk(edges: seq<Edge>, d: seq<int>, x: nat, v: nat, p: seq<Edge>)
    requires EdgesWithin(|d|, edges) && NonNegative(edges) && Closed(edges, d)
    requires forall y :: 0 <= y < |d| ==> d[y] <= INF
    requires x < |d| && d[x] != INF && v < |d| && IsWalk(edges, x, v, p)
    ensures d[v] <= d[x] + Weight(p)
    decreases |p|
  {
    if p != [] {
      var e, q := p[|p| - 1], p[..|p| - 1];
      ClosedAlongWalk(edges, d, x, e.from, q);
    }
  }

  /** Starting from a closed table (one that already holds shortest distances, as the
      table handed to `astar` after the other two algorithms does), the loop changes nothing,
      whatever the pop order. */
  lemma ClosedStartIsFixed(edges: seq<Edge>, init: seq<int>, d: seq<int>)
    requires EdgesWithin(|init|, edges) && NonNegative(edges) && Closed(edges, init)
    requires forall y :: 0 <= y < |init| ==> init[y] <= INF
    requires TableInvariant(edges, init, d)
    ensures d == init
  {
    forall v | 0 <= v < |d|
      ensures d[v] == init[v]
    {
      if d[v] != INF {
        var x: nat, p :| x < |init| && init[x] != INF && IsWalk(edges, x, v, p) && d[v] == init[x] + Weight(p);
        ClosedAlongWalk(edges, init, x, v, p);
      }
    }
  }
}
