/**
 * The adjacency-list graph shared by the loaders and the search, and the
 * reference notions of path and reachability that the search is proved against.
 */
module Graphs {

  /** Node i's neighbours are adjacency[i]; node ids are positions in the list. */
  type Graph = seq<seq<nat>>

  /** Every neighbour id names a node of the graph. */
  ghost predicate ValidGraph(g: Graph) {
    forall u, k :: 0 <= u < |g| && 0 <= k < |g[u]| ==> g[u][k] < |g|
  }

  /** A non-empty sequence of nodes in which each node is a neighbour of the one before. */
  ghost predicate IsPath(g: Graph, p: seq<nat>) {
    && |p| > 0
    && (forall i :: 0 <= i < |p| ==> p[i] < |g|)
    && (forall i :: 0 <= i < |p| - 1 ==> p[i + 1] in g[p[i]])
  }

  ghost predicate PathFromTo(g: Graph, p: seq<nat>, s: nat, t: nat) {
    IsPath(g, p) && p[0] == s && p[|p| - 1] == t
  }

  ghost predicate Reachable(g: Graph, s: nat, t: nat) {
    exists p :: PathFromTo(g, p, s, t)
  }

  /** p connects s to t and no path from s to t has fewer nodes. */
  ghost predicate ShortestPath(g: Graph, p: seq<nat>, s: nat, t: nat) {
    PathFromTo(g, p, s, t) && forall q :: PathFromTo(g, q, s, t) ==> |p| <= |q|
  }
}
