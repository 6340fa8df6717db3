/** The A* relaxation loop `astar`: a decrease-key queue holding every vertex once, popped
    until empty, each pop relaxing the out-edges of the popped vertex in place. */
module AStarSolver {
  import opened Graphs
  import opened Distances
  import opened Heuristic
  import opened Relaxation
  import opened Optimality
  import opened DecreaseKeyQueue

  /** The first loop of `astar`: every vertex gets exactly one queue entry and one handle. */
  method PushAllVertices(n: nat) returns (q: VertexQueue, handles: array<nat>)
    ensures fresh(q) && fresh(handles) && q.Valid()
    ensures handles.Length == n && |q.vertexOf| == n && q.live == Vertices(n)
    ensures forall v :: 0 <= v < n ==> handles[v] == v && q.vertexOf[v] == v && q.key[v] == v
  {
    q := new VertexQueue();
    handles := new nat[n];
    for v := 0 to n
      invariant q.Valid() && |q.vertexOf| == v && q.live == Vertices(v)
      invariant forall x :: 0 <= x < v ==> q.vertexOf[x] == x && q.key[x] == x
      invariant forall x :: 0 <= x < v ==> handles[x] == q.vertexOf[x]
    {
      var h := q.Push(v);
      assert Vertices(v + 1) == Vertices(v) + {v};
      handles[v] := h;
    }
  }

  /** No vertex occurs twice. */
  predicate Distinct(order: seq<nat>) {
    forall i, j :: 0 <= i < j < |order| ==> order[i] != order[j]
  }

  /** The popped vertices, in pop order, are exactly those whose entries have left the queue. */
  ghost predicate PopRecord(order: seq<nat>, done: set<nat>, live: set<nat>, n: nat) {
    (forall h :: h in live ==> h < n) &&
    (forall v: nat :: v in done <==> v < n && v !in live) &&
    (forall x :: x in order <==> x in done) &&
    |order| == |done| && Distinct(order)
  }

  /** Popping a live entry extends the record by one vertex. */
  lemma PopRecordStep(order: seq<nat>, done: set<nat>, live: set<nat>, n: nat, u: nat)
    requires PopRecord(order, done, live, n) && u in live
    ensures PopRecord(order + [u], done + {u}, live - {u}, n)
  {
    assert u !in done;
  }

  /** Once the queue is empty, every vertex has been popped exactly once. */
  lemma PopRecordDone(order: seq<nat>, done: set<nat>, n: nat)
    requires PopRecord(order, done, {}, n)
    ensures done == Vertices(n) && |order| == n && (forall v :: 0 <= v < n ==> v in order) && Distinct(order)
  {
    assert done == Vertices(n);
  }

  /** Entry v of the queue is vertex v's. No distance is above its starting value; an entry
      whose distance is unchanged keeps its key;
      an entry whose distance was lowered holds the heuristic value computed at its last
      lowering, which lies between the target's current and starting entries once the vertex's
      distance is added back. */
  ghost predicate KeysFollow(key: seq<int>, k0: seq<int>, d: seq<int>, d0: seq<int>, target: nat) {
    forall v :: 0 <= v < |d| && v < |d0| && v < |key| && v < |k0| && target < |d| && target < |d0| ==>
      d[v] <= d0[v] &&
      (d[v] == d0[v] ==> key[v] == k0[v]) &&
      (d[v] != d0[v] ==> d[target] <= key[v] + d[v] <= d0[target])
  }

  /** Relaxing one more edge, with the key update of the inner loop, keeps the keys following
      the table. */
  lemma KeysFollowStep(key: seq<int>, key': seq<int>, k0: seq<int>, d: seq<int>, d': seq<int>,
                       d0: seq<int>, target: nat, e: Edge)
    requires |d| == |d0| == |key| == |k0| == |key'| && target < |d| && e.from < |d| && e.to < |d|
    requires KeysFollow(key, k0, d, d0, target)
    requires d' == RelaxEdge(d, e)
    requires d'[e.to] == d[e.to] ==> key' == key
    requires d'[e.to] != d[e.to] ==> key' == key[e.to := d'[target] - d'[e.to]]
    ensures KeysFollow(key', k0, d', d0, target)
  {
  }

  /** The keys after relaxing es one after the other with the key update of the inner loop:
      each time an edge lowers the entry of its head v, v's key becomes the heuristic value of
      v over the table as it then stands. */
  function RelaxKeys(d: seq<int>, key: seq<int>, es: seq<Edge>, target: nat): (r: seq<int>)
    requires EdgesWithin(|d|, es) && |key| == |d| && target < |d|
    ensures |r| == |key|
    decreases |es|
  {
    if es == [] then key
    else
      var m, k := RelaxEdges(d, es[..|es| - 1]), RelaxKeys(d, key, es[..|es| - 1], target);
      var e := es[|es| - 1];
      var m' := RelaxEdge(m, e);
      if m'[e.to] != m[e.to] then k[e.to := AStarHeuristic(m', target, e.to)] else k
  }

  /** Relaxing one edge more extends the keys of a prefix by that edge's key update. */
  lemma RelaxKeysPrefix(d: seq<int>, key: seq<int>, es: seq<Edge>, i: nat, target: nat)
    requires EdgesWithin(|d|, es) && |key| == |d| && target < |d| && i < |es|
    ensures EdgesWithin(|d|, es[..i]) && EdgesWithin(|d|, es[..i + 1])
    ensures var m := RelaxEdges(d, es[..i]);
            var m' := RelaxEdge(m, es[i]);
            var k := RelaxKeys(d, key, es[..i], target);
            RelaxKeys(d, key, es[..i + 1], target)
              == if m'[es[i].to] != m[es[i].to] then k[es[i].to := AStarHeuristic(m', target, es[i].to)] else k
  {
    RelaxEdgesPrefix(d, es, i);
    assert es[..i + 1][..i] == es[..i];
  }

  /** The keys the inner loop writes follow the table it leaves. */
  lemma {:induction false} RelaxKeysFollow(d: seq<int>, key: seq<int>, es: seq<Edge>, target: nat)
    requires EdgesWithin(|d|, es) && |key| == |d| && target < |d|
    ensures KeysFollow(RelaxKeys(d, key, es, target), key, RelaxEdges(d, es), d, target)
    decreases |es|
  {
    if es != [] {
      var es0, e := es[..|es| - 1], es[|es| - 1];
      RelaxKeysFollow(d, key, es0, target);
      KeysFollowStep(RelaxKeys(d, key, es0, target), RelaxKeys(d, key, es, target), key,
                     RelaxEdges(d, es0), RelaxEdges(d, es), d, target, e);
    }
  }

  /** The target's own key is its heuristic value 0 once its entry has been lowered. */
  lemma {:induction false} RelaxKeysTarget(d: seq<int>, key: seq<int>, es: seq<Edge>, target: nat)
    requires EdgesWithin(|d|, es) && |key| == |d| && target < |d|
    ensures RelaxEdges(d, es)[target] != d[target] ==> RelaxKeys(d, key, es, target)[target] == 0
    ensures RelaxEdges(d, es)[target] == d[target] ==> RelaxKeys(d, key, es, target)[target] == key[target]
    decreases |es|
  {
    if es != [] {
      var es0 := es[..|es| - 1];
      RelaxKeysTarget(d, key, es0, target);
      RelaxEdgesDecrease(d, es0);
      RelaxEdgesDecrease(d, es);
    }
  }

  /** One iteration of the inner loop, on the i-th out-edge e = (u -> v, w): when
      d[u] + w < d[v], lower d[v] to d[u] + w and give v's entry the heuristic value of v as its
      key. The table then is the relaxation of the first i + 1 out-edges, and the keys still
      follow it. */
  method RelaxOneEdge(g: Graph, outs: seq<Edge>, i: nat, target: nat, distances: array<int>, q: VertexQueue,
                      handles: array<nat>, ghost d0: seq<int>, ghost k0: seq<int>)
    requires distances.Length == g.n == |d0| == |k0| && handles.Length == g.n && target < g.n
    requires i < |outs| && EdgesWithin(|d0|, outs)
    requires q.Valid() && |q.key| == g.n
    requires forall v :: 0 <= v < g.n ==> handles[v] == v
    requires EdgesWithin(|d0|, outs[..i]) && distances[..] == RelaxEdges(d0, outs[..i])
    requires q.key == RelaxKeys(d0, k0, outs[..i], target)
    modifies distances, q
    ensures EdgesWithin(|d0|, outs[..i + 1]) && distances[..] == RelaxEdges(d0, outs[..i + 1])
    ensures q.key == RelaxKeys(d0, k0, outs[..i + 1], target)
    ensures distances[outs[i].to] != old(distances[outs[i].to]) ==>
              q.key == old(q.key)[outs[i].to := AStarHeuristic(distances[..], target, outs[i].to)]
    ensures distances[outs[i].to] == old(distances[outs[i].to]) ==> q.key == old(q.key)
    ensures q.Valid() && q.live == old(q.live) && q.vertexOf == old(q.vertexOf) && |q.key| == g.n
  {
    RelaxEdgesPrefix(d0, outs, i);
    RelaxKeysPrefix(d0, k0, outs, i, target);
    var e := outs[i];
    var u, v, weight := e.from, e.to, e.weight;
    if distances[u] != INF && distances[u] + weight < distances[v] {
      distances[v] := distances[u] + weight;
      q.Increase(handles[v], AStarHeuristic(distances[..], target, v));
    }
  }

  /** The inner loop of `astar`: relax the out-edges of u in insertion order, giving each
      lowered vertex the heuristic value as its new key. */
  method RelaxOutEdges(g: Graph, u: nat, target: nat, distances: array<int>, q: VertexQueue, handles: array<nat>)
    requires ValidGraph(g) && u < g.n && target < g.n
    requires distances.Length == g.n && handles.Length == g.n
    requires q.Valid() && |q.key| == g.n
    requires forall v :: 0 <= v < g.n ==> handles[v] == v
    modifies distances, q
    ensures EdgesWithin(|old(distances[..])|, OutEdges(g.edges, u))
    ensures distances[..] == RelaxEdges(old(distances[..]), OutEdges(g.edges, u))
    ensures q.Valid() && q.live == old(q.live) && q.vertexOf == old(q.vertexOf) && |q.key| == g.n
    ensures q.key == RelaxKeys(old(distances[..]), old(q.key), OutEdges(g.edges, u), target)
    ensures KeysFollow(q.key, old(q.key), distances[..], old(distances[..]), target)
  {
    var outs := OutEdges(g.edges, u);
    ghost var d0 := distances[..];
    ghost var k0 := q.key;
    assert EdgesWithin(|d0|, outs);
    assert outs[..0] == [];
    for i := 0 to |outs|
      invariant distances.Length == g.n
      invariant EdgesWithin(|d0|, outs[..i]) && distances[..] == RelaxEdges(d0, outs[..i])
      invariant q.Valid() && q.live == old(q.live) && q.vertexOf == old(q.vertexOf) && |q.key| == g.n
      invariant q.key == RelaxKeys(d0, k0, outs[..i], target)
    {
      RelaxOneEdge(g, outs, i, target, distances, q, handles, d0, k0);
    }
    assert outs[..|outs|] == outs;
    RelaxKeysFollow(d0, k0, outs, target);
  }

  /** One iteration of the main loop: pop one live vertex u (by the policy) and relax its
      out-edges. Exactly u leaves the queue and is appended to the pop record; the table becomes
      the relaxation of u's out-edges and keeps the table invariant. Under the label-setting
      order the finished vertices stay settled and ordered below the queued ones, and every
      vertex whose entry is lowered (whose key `pq.increase` rewrites) is still queued. */
  method PopAndRelax(g: Graph, target: nat, distances: array<int>, q: VertexQueue, handles: array<nat>,
                     policy: PopPolicy, ghost init: seq<int>, ghost order: seq<nat>, ghost done: set<nat>)
    returns (u: nat, ghost order': seq<nat>, ghost done': set<nat>)
    requires ValidGraph(g) && target < g.n && distances.Length == g.n && handles.Length == g.n
    requires q.Valid() && |q.vertexOf| == g.n && |q.key| == g.n && q.live != {}
    requires forall v :: 0 <= v < g.n ==> handles[v] == v && q.vertexOf[v] == v
    requires PopRecord(order, done, q.live, g.n)
    requires TableInvariant(g.edges, init, distances[..])
    requires policy == LeastDistance && NonNegative(g.edges) ==>
               Settled(g.edges, distances[..], done) && Ordered(distances[..], done, q.live)
    modifies distances, q
    ensures q.Valid() && q.vertexOf == old(q.vertexOf) && |q.key| == g.n
    ensures u in old(q.live) && q.live == old(q.live) - {u}
    ensures order' == order + [u] && done' == done + {u}
    ensures EdgesWithin(|old(distances[..])|, OutEdges(g.edges, u))
    ensures distances[..] == RelaxEdges(old(distances[..]), OutEdges(g.edges, u))
    ensures q.key == RelaxKeys(old(distances[..]), old(q.key), OutEdges(g.edges, u), target)
    ensures PopRecord(order', done', q.live, g.n)
    ensures TableInvariant(g.edges, init, distances[..])
    ensures policy == LeastDistance && NonNegative(g.edges) ==>
              Settled(g.edges, distances[..], done') && Ordered(distances[..], done', q.live)
    ensures policy == LeastDistance && NonNegative(g.edges) ==>
              forall y :: 0 <= y < g.n && distances[..][y] != old(distances[..])[y] ==> y in q.live
  {
    ghost var h: nat;
    ghost var live := q.live;
    u, h := q.PopTop(policy, distances);
    ghost var before := distances[..];
    RelaxOutEdges(g, u, target, distances, q, handles);
    TableStep(g.edges, init, before, u, done, live, policy == LeastDistance && NonNegative(g.edges));
    if policy == LeastDistance && NonNegative(g.edges) {
      LoweredStillQueued(g.edges, before, u, done, live);
    }
    assert live - {u} == q.live;
    PopRecordStep(order, done, live, g.n, u);
    order', done' := order + [u], done + {u};
  }

  /** The main loop of `astar`: pop until the queue is empty, relaxing the out-edges of each
      popped vertex. Every vertex is popped exactly once; the table invariant holds throughout,
      and under the label-setting order every edge ends relaxed. */
  method PopUntilEmpty(g: Graph, target: nat, distances: array<int>, q: VertexQueue, handles: array<nat>,
                       policy: PopPolicy, ghost init: seq<int>)
    returns (ghost order: seq<nat>)
    requires ValidGraph(g) && target < g.n && distances.Length == g.n && handles.Length == g.n
    requires q.Valid() && |q.vertexOf| == g.n && |q.key| == g.n && q.live == Vertices(g.n)
    requires forall v :: 0 <= v < g.n ==> handles[v] == v && q.vertexOf[v] == v
    requires TableInvariant(g.edges, init, distances[..])
    modifies distances, q
    ensures |order| == g.n && (forall v :: 0 <= v < g.n ==> v in order) && Distinct(order)
    ensures distances[..] == RelaxInOrder(g.edges, old(distances[..]), order)
    ensures q.live == {} && TableInvariant(g.edges, init, distances[..])
    ensures policy == LeastDistance && NonNegative(g.edges) ==> Closed(g.edges, distances[..])
  {
    ghost var done: set<nat> := {};
    ghost var labelSetting := policy == LeastDistance && NonNegative(g.edges);
    ghost var ids := q.vertexOf;
    ghost var d0 := distances[..];
    order := [];
    while !q.Empty()
      invariant q.Valid() && q.vertexOf == ids && |q.key| == g.n
      invariant distances[..] == RelaxInOrder(g.edges, d0, order)
      invariant forall v :: 0 <= v < g.n ==> q.vertexOf[v] == v
      invariant PopRecord(order, done, q.live, g.n)
      invariant TableInvariant(g.edges, init, distances[..])
      invariant labelSetting ==> Settled(g.edges, distances[..], done) && Ordered(distances[..], done, q.live)
      decreases |q.live|
    {
      var u;
      ghost var prev := order;
      u, order, done := PopAndRelax(g, target, distances, q, handles, policy, init, order, done);
      RelaxInOrderStep(g.edges, d0, prev, u);
    }
    PopRecordDone(order, done, g.n);
  }

  /** The set-up before the loop: every vertex is pushed, d[source] is reset to 0 and the
      source's key is set to its heuristic value. */
  method StartSearch(n: nat, source: nat, target: nat, distances: array<int>)
    returns (q: VertexQueue, handles: array<nat>)
    requires source < n && target < n && distances.Length == n
    modifies distances
    ensures fresh(q) && fresh(handles)
    ensures distances[..] == old(distances[..])[source := 0]
    ensures q.Valid() && |q.vertexOf| == n && |q.key| == n && q.live == Vertices(n)
    ensures handles.Length == n && forall v :: 0 <= v < n ==> handles[v] == v && q.vertexOf[v] == v
    ensures q.key[source] == AStarHeuristic(distances[..], target, source)
    ensures forall v :: 0 <= v < n && v != source ==> q.key[v] == v
  {
    q, handles := PushAllVertices(n);
    distances[source] := 0;
    q.Increase(handles[source], AStarHeuristic(distances[..], target, source));
  }

  /** astar(g, source, target, distances). The table is the caller's: only d[source] is
      reset, to 0, before the loop. The loop pops every vertex exactly once. For any pop order,
      entries never increase, vertices no edge reaches keep their starting entry, and every
      entry is derived from the starting table along a walk. Over a sentinel table, entries are
      walk weights from the source; popping by least distance over non-negative weights, they
      are the shortest. */
  method AStar(g: Graph, source: nat, target: nat, distances: array<int>, policy: PopPolicy)
    returns (ghost order: seq<nat>)
    requires ValidGraph(g) && source < g.n && target < g.n && distances.Length == g.n
    modifies distances
    ensures |order| == g.n && (forall v :: 0 <= v < g.n ==> v in order) && Distinct(order)
    ensures TableInvariant(g.edges, old(distances[..])[source := 0], distances[..])
    ensures distances[..] == RelaxInOrder(g.edges, old(distances[..])[source := 0], order)
    ensures StartsAtSentinel(old(distances[..]), source) ==>
              forall v :: 0 <= v < |distances[..]| && distances[..][v] != INF ==>
                HasWalk(g.edges, source, v, distances[..][v])
    ensures policy == LeastDistance && NonNegative(g.edges) && StartsAtSentinel(old(distances[..]), source) ==>
              SolvesShortest(g.edges, source, distances[..])
  {
    var q, handles := StartSearch(g.n, source, target, distances);
    ghost var init := distances[..];
    StartDerived(g.edges, init);
    order := PopUntilEmpty(g, target, distances, q, handles, policy, init);
    Conclusions(g.edges, old(distances[..]), source, distances[..], policy == LeastDistance && NonNegative(g.edges));
  }
}
