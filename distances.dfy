/** The distance table: the INT_MAX sentinel it starts with and the reachability report read from it. */
module Distances {

  /** numeric_limits<int>::max(), the "no path known" sentinel of a 32-bit int table. */
  const INF: int := 0x7fff_ffff

  /** A table of n entries all holding the sentinel (the table `main` builds). */
  function InitialTable(n: nat): (d: seq<int>)
    ensures |d| == n
    ensures forall v :: 0 <= v < n ==> d[v] == INF
    ensures forall s :: StartsAtSentinel(d, s)
  {
    seq(n, _ => INF)
  }

  /** Every entry except the one of the source holds the sentinel. */
  predicate StartsAtSentinel(d: seq<int>, source: nat) {
    forall v :: 0 <= v < |d| && v != source ==> d[v] == INF
  }

  /** What `main` prints for a target vertex. */
  datatype Report = Path(distance: int) | NoPathFound

  /** The target is reported reachable exactly when its entry differs from the sentinel. */
  function ReportFor(d: seq<int>, target: nat): (r: Report)
    requires target < |d|
    ensures r == NoPathFound <==> d[target] == INF
    ensures r.Path? ==> r.distance == d[target] && r.distance != INF
  {
    if d[target] != INF then Path(d[target]) else NoPathFound
  }
}
