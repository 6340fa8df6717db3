/** The decrease-key heap of `astar`, kept abstract: the set of live entries (by handle),
    the vertex held by each entry and each entry's key. */
module DecreaseKeyQueue {

  /** Which live entry a pop returns. The program's heap compares with an empty
      `std::function`, which throws when called, so the code defines no order; a policy stands
      for a comparator it does not define. `AnyOrder` leaves the choice open, `LeastDistance`
      pops a vertex of least current distance (the A* order with a zero heuristic). */
  datatype PopPolicy = AnyOrder | LeastDistance

  class VertexQueue {
    /** Handles of the entries not yet popped. */
    var live: set<nat>
    /** vertexOf[h] is the vertex held by the entry with handle h. */
    var vertexOf: seq<nat>
    /** key[h] is the key last given to the entry with handle h. */
    var key: seq<int>

    ghost predicate Valid()
      reads this
    {
      |vertexOf| == |key| && forall h :: h in live ==> h < |vertexOf|
    }

    constructor ()
      ensures Valid() && live == {} && vertexOf == [] && key == []
    {
      live, vertexOf, key := {}, [], [];
    }

    /** pq.empty() */
    function Empty(): (b: bool)
      reads this
      ensures b <==> live == {}
    {
      live == {}
    }

    /** pq.push(v): a new live entry holding v, keyed by the pushed value v itself;
        its handle is returned. */
    method Push(v: nat) returns (h: nat)
      requires Valid()
      modifies this
      ensures Valid()
      ensures h == |old(vertexOf)| && h !in old(live)
      ensures vertexOf == old(vertexOf) + [v] && key == old(key) + [v] && live == old(live) + {h}
    {
      h := |vertexOf|;
      vertexOf, key := vertexOf + [v], key + [v];
      live := live + {h};
    }

    /** pq.increase(h, k): the key of the entry with handle h becomes k; nothing else changes. */
    method Increase(h: nat, k: int)
      requires Valid() && h < |key|
      modifies this
      ensures Valid() && key == old(key)[h := k]
      ensures vertexOf == old(vertexOf) && live == old(live)
    {
      key := key[h := k];
    }

    /** pq.top() followed by pq.pop(): removes one live entry, chosen by the policy, and
        returns the vertex it holds. */
    method PopTop(policy: PopPolicy, dist: array<int>) returns (v: nat, ghost h: nat)
      requires Valid() && live != {}
      requires forall g :: g in live ==> vertexOf[g] < dist.Length
      modifies this
      ensures Valid() && h in old(live) && h < |vertexOf| && v == vertexOf[h]
      ensures live == old(live) - {h} && vertexOf == old(vertexOf) && key == old(key)
      ensures policy == LeastDistance ==> forall g :: g in old(live) ==> dist[v] <= dist[vertexOf[g]]
    {
      var top: nat;
      if policy == LeastDistance {
        LeastExists(live, vertexOf, dist[..]);
        top :| top in live && forall g :: g in live ==> dist[vertexOf[top]] <= dist[vertexOf[g]];
      } else {
        top :| top in live;
      }
      v, h := vertexOf[top], top;
      live := live - {top};
    }
  }

  /** A non-empty set of live handles has one whose vertex has least distance. */
  lemma {:induction false} LeastExists(live: set<nat>, vertexOf: seq<nat>, dist: seq<int>)
    requires live != {}
    requires forall h :: h in live ==> h < |vertexOf| && vertexOf[h] < |dist|
    ensures exists h :: h in live && forall g :: g in live ==> dist[vertexOf[h]] <= dist[vertexOf[g]]
    decreases live
  {
    var x :| x in live;
    if live != {x} {
      LeastExists(live - {x}, vertexOf, dist);
      var m :| m in live - {x} && forall g :: g in live - {x} ==> dist[vertexOf[m]] <= dist[vertexOf[g]];
      if dist[vertexOf[x]] < dist[vertexOf[m]] {
        assert forall g :: g in live ==> dist[vertexOf[x]] <= dist[vertexOf[g]];
      } else {
        assert forall g :: g in live ==> dist[vertexOf[m]] <= dist[vertexOf[g]];
      }
    } else {
      assert forall g :: g in live ==> dist[vertexOf[x]] <= dist[vertexOf[g]];
    }
  }
}
