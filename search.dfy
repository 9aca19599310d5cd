/**
 * Breadth-first search with parent entries over an adjacency list
 * (BFS in finder.cpp).
 *
 * The search keeps a visited flag and a parent entry per node and a FIFO
 * frontier held in a sequence; a ghost level per node records the BFS
 * layer in which the node was discovered. The invariants below say that the
 * parent entries form a tree rooted at the start node whose depth is the
 * level, that the frontier is ordered by level and spans at most two
 * layers, and that every node that has left the frontier has had all its
 * neighbours discovered. From these, the level of a discovered node is the
 * length of a shortest path to it.
 */
module Search {
  import opened Graphs

  /** The parent entry of a node that has none (UINT32_MAX in the source). */
  const NoParent: int := -1

  /** v's parent is a visited node that has v as a neighbour, one level closer to the root. */
  ghost predicate ParentLink(g: Graph, vis: seq<bool>, par: seq<int>, d: seq<nat>, v: nat)
    requires |vis| == |g| && |par| == |g| && |d| == |g| && v < |g|
  {
    0 <= par[v] < |g| && vis[par[v]] && v in g[par[v]] && d[v] == d[par[v]] + 1
  }

  /** The search tree: the root s is at level 0 without a parent, every other visited node has a parent link, and unvisited nodes have no parent. */
  ghost predicate Tree(g: Graph, s: nat, vis: seq<bool>, par: seq<int>, d: seq<nat>) {
    && |vis| == |g| && |par| == |g| && |d| == |g| && s < |g|
    && vis[s] && par[s] == NoParent && d[s] == 0
    && (forall v :: 0 <= v < |g| && !vis[v] ==> par[v] == NoParent)
    && (forall v :: 0 <= v < |g| && vis[v] && v != s ==> ParentLink(g, vis, par, d, v))
  }

  /** The nodes not yet visited; its size bounds the work left to the search. */
  ghost function Unvisited(vis: seq<bool>): set<nat> {
    set v | 0 <= v < |vis| && !vis[v]
  }

  lemma UnvisitedShrinks(vis: seq<bool>, v: nat)
    requires v < |vis| && !vis[v]
    ensures |Unvisited(vis[v := true])| == |Unvisited(vis)| - 1
  {
    assert Unvisited(vis[v := true]) == Unvisited(vis) - {v};
  }

  /** Following the parent entry of a visited node: the root has none, any other node has a link. */
  lemma ParentStep(g: Graph, s: nat, vis: seq<bool>, par: seq<int>, d: seq<nat>, v: nat)
    requires Tree(g, s, vis, par, d) && v < |g| && vis[v]
    ensures v == s ==> par[v] == NoParent
    ensures v != s ==> ParentLink(g, vis, par, d, v)
  {
  }

  /** The frontier holds visited nodes in non-decreasing level order, and no visited node is more than one level past its head. */
  ghost predicate Frontier(g: Graph, vis: seq<bool>, d: seq<nat>, q: seq<nat>)
    requires |vis| == |g| && |d| == |g|
  {
    && (forall i :: 0 <= i < |q| ==> q[i] < |g| && vis[q[i]])
    && (forall i, j :: 0 <= i <= j < |q| ==> d[q[i]] <= d[q[j]])
    && (q != [] ==> forall v :: 0 <= v < |g| && vis[v] ==> d[v] <= d[q[0]] + 1)
  }

  /** Every neighbour of u is visited and at most one level past u. */
  ghost predicate Expanded(g: Graph, vis: seq<bool>, d: seq<nat>, u: nat)
    requires |vis| == |g| && |d| == |g| && u < |g|
  {
    forall k :: 0 <= k < |g[u]| ==> g[u][k] < |g| && vis[g[u][k]] && d[g[u][k]] <= d[u] + 1
  }

  /** Every visited node that is no longer in the frontier has been expanded. */
  ghost predicate Closed(g: Graph, vis: seq<bool>, d: seq<nat>, q: seq<nat>)
    requires |vis| == |g| && |d| == |g|
  {
    forall u :: 0 <= u < |g| && vis[u] && u !in q ==> Expanded(g, vis, d, u)
  }

  ghost predicate SearchInv(g: Graph, s: nat, vis: seq<bool>, par: seq<int>, d: seq<nat>, q: seq<nat>) {
    Tree(g, s, vis, par, d) && Frontier(g, vis, d, q) && Closed(g, vis, d, q)
  }

  /**
   * The state while the neighbours g[c][..j] of the dequeued node c (at level
   * lvl) have been looked at: the tree is intact, the frontier is ordered and
   * lies within levels lvl and lvl + 1, no visited node is beyond lvl + 1,
   * nodes outside the frontier other than c are expanded, and the neighbours
   * looked at so far are visited.
   */
  ghost predicate Expanding(g: Graph, s: nat, vis: seq<bool>, par: seq<int>, d: seq<nat>, q: seq<nat>, c: nat, lvl: nat, j: nat) {
    && Tree(g, s, vis, par, d)
    && c < |g| && j <= |g[c]| && vis[c] && d[c] == lvl
    && (forall i :: 0 <= i < |q| ==> q[i] < |g| && vis[q[i]] && lvl <= d[q[i]] <= lvl + 1)
    && (forall i, k :: 0 <= i <= k < |q| ==> d[q[i]] <= d[q[k]])
    && (forall v :: 0 <= v < |g| && vis[v] ==> d[v] <= lvl + 1)
    && (forall u :: 0 <= u < |g| && vis[u] && u !in q && u != c ==> Expanded(g, vis, d, u))
    && (forall k :: 0 <= k < j ==> g[c][k] < |g| && vis[g[c][k]] && d[g[c][k]] <= lvl + 1)
  }

  lemma StartExpanding(g: Graph, s: nat, vis: seq<bool>, par: seq<int>, d: seq<nat>, q: seq<nat>, c: nat)
    requires SearchInv(g, s, vis, par, d, q) && q != [] && q[0] == c
    ensures Expanding(g, s, vis, par, d, q[1..], c, d[c], 0)
  {
    forall u | 0 <= u < |g| && vis[u] && u !in q[1..] && u != c ensures Expanded(g, vis, d, u) {
      assert u !in q;
    }
  }

  /** Discovering the unvisited neighbour g[c][j]: mark it, give it parent c and level lvl + 1, enqueue it. */
  lemma DiscoverStep(g: Graph, s: nat, vis: seq<bool>, par: seq<int>, d: seq<nat>, q: seq<nat>, c: nat, lvl: nat, j: nat)
    requires ValidGraph(g)
    requires Expanding(g, s, vis, par, d, q, c, lvl, j) && j < |g[c]| && !vis[g[c][j]]
    ensures var nb := g[c][j];
      Expanding(g, s, vis[nb := true], par[nb := c], d[nb := lvl + 1], q + [nb], c, lvl, j + 1)
  {
    var nb := g[c][j];
    var vis', par', d', q' := vis[nb := true], par[nb := c], d[nb := lvl + 1], q + [nb];
    forall v | 0 <= v < |g| && vis'[v] && v != s ensures ParentLink(g, vis', par', d', v) {
      if v != nb {
        assert ParentLink(g, vis, par, d, v);
        assert par[v] != nb;
      }
    }
    forall u | 0 <= u < |g| && vis'[u] && u !in q' && u != c ensures Expanded(g, vis', d', u) {
      assert u != nb && u !in q;
      assert Expanded(g, vis, d, u);
      forall k | 0 <= k < |g[u]| ensures g[u][k] != nb {
      }
    }
  }

  lemma SkipStep(g: Graph, s: nat, vis: seq<bool>, par: seq<int>, d: seq<nat>, q: seq<nat>, c: nat, lvl: nat, j: nat)
    requires ValidGraph(g)
    requires Expanding(g, s, vis, par, d, q, c, lvl, j) && j < |g[c]| && vis[g[c][j]]
    ensures Expanding(g, s, vis, par, d, q, c, lvl, j + 1)
  {
  }

  lemma FinishExpanding(g: Graph, s: nat, vis: seq<bool>, par: seq<int>, d: seq<nat>, q: seq<nat>, c: nat, lvl: nat)
    requires c < |g| && Expanding(g, s, vis, par, d, q, c, lvl, |g[c]|)
    ensures SearchInv(g, s, vis, par, d, q)
  {
    assert Expanded(g, vis, d, c);
  }

  /**
   * Walking along a path from the root, either every node up to position k
   * is visited at a level no greater than its position, or the walk meets
   * the frontier at some position i <= k, at a node whose level is at most i.
   */
  lemma {:induction false} FrontierCrossing(g: Graph, s: nat, vis: seq<bool>, par: seq<int>, d: seq<nat>, q: seq<nat>, p: seq<nat>, k: nat)
    returns (i: int)
    requires SearchInv(g, s, vis, par, d, q)
    requires IsPath(g, p) && p[0] == s && k < |p|
    ensures -1 <= i <= k
    ensures i == -1 ==> vis[p[k]] && d[p[k]] <= k
    ensures i >= 0 ==> p[i] in q && d[p[i]] <= i
  {
    if k == 0 {
      i := -1;
    } else {
      i := FrontierCrossing(g, s, vis, par, d, q, p, k - 1);
      if i == -1 {
        if p[k - 1] in q {
          i := k - 1;
        } else {
          assert Expanded(g, vis, d, p[k - 1]);
          var m :| 0 <= m < |g[p[k - 1]]| && g[p[k - 1]][m] == p[k];
        }
      }
    }
  }

  /** The level of a visited node is less than the number of nodes of any path from the root to it. */
  lemma LevelIsMinimal(g: Graph, s: nat, vis: seq<bool>, par: seq<int>, d: seq<nat>, q: seq<nat>, p: seq<nat>, w: nat)
    requires SearchInv(g, s, vis, par, d, q)
    requires PathFromTo(g, p, s, w) && vis[w]
    ensures d[w] < |p|
  {
    var i := FrontierCrossing(g, s, vis, par, d, q, p, |p| - 1);
    if 0 <= i < |p| - 1 {
      var j :| 0 <= j < |q| && q[j] == p[i];
      assert d[q[0]] <= d[q[j]];
    }
  }

  /** Once the frontier is empty, every node reachable from the root is visited. */
  lemma ExhaustedCoversReachable(g: Graph, s: nat, vis: seq<bool>, par: seq<int>, d: seq<nat>, p: seq<nat>, w: nat)
    requires SearchInv(g, s, vis, par, d, [])
    requires PathFromTo(g, p, s, w)
    ensures vis[w]
  {
    var i := FrontierCrossing(g, s, vis, par, d, [], p, |p| - 1);
  }

  /** Every path from the root to a visited node w has more than d[w] nodes. */
  lemma MinimalLevel(g: Graph, s: nat, vis: seq<bool>, par: seq<int>, d: seq<nat>, q: seq<nat>, w: nat)
    requires SearchInv(g, s, vis, par, d, q) && w < |g| && vis[w]
    ensures forall p :: PathFromTo(g, p, s, w) ==> d[w] < |p|
  {
    forall p | PathFromTo(g, p, s, w) ensures d[w] < |p| {
      LevelIsMinimal(g, s, vis, par, d, q, p, w);
    }
  }

  /** With the frontier empty, w is visited at its shortest distance or is unreachable. */
  lemma ExhaustedSearch(g: Graph, s: nat, vis: seq<bool>, par: seq<int>, d: seq<nat>, w: nat)
    requires SearchInv(g, s, vis, par, d, []) && w < |g|
    ensures vis[w] ==> forall p :: PathFromTo(g, p, s, w) ==> d[w] < |p|
    ensures !vis[w] ==> !Reachable(g, s, w)
  {
    if vis[w] {
      MinimalLevel(g, s, vis, par, d, [], w);
    } else {
      forall p | PathFromTo(g, p, s, w) ensures false {
        ExhaustedCoversReachable(g, s, vis, par, d, p, w);
      }
    }
  }

  function Reverse(s: seq<nat>): (r: seq<nat>)
    ensures |r| == |s|
    ensures forall i :: 0 <= i < |s| ==> r[i] == s[|s| - 1 - i]
  {
    if s == [] then [] else Reverse(s[1..]) + [s[0]]
  }

  /** Each node of the walk is a node of g and a neighbour of the node after it. */
  ghost predicate BackWalk(g: Graph, walk: seq<nat>) {
    && (forall i :: 0 <= i < |walk| ==> walk[i] < |g|)
    && (forall i :: 0 <= i < |walk| - 1 ==> walk[i] in g[walk[i + 1]])
  }

  lemma BackWalkExtend(g: Graph, walk: seq<nat>, x: nat)
    requires BackWalk(g, walk) && x < |g|
    requires walk != [] ==> walk[|walk| - 1] in g[x]
    ensures BackWalk(g, walk + [x])
  {
    var w := walk + [x];
    forall i | 0 <= i < |w| - 1 ensures w[i] in g[w[i + 1]] {
      if i < |walk| - 1 {
        assert w[i] == walk[i] && w[i + 1] == walk[i + 1];
      }
    }
  }

  /** A walk from t back to s along reversed edges, once reversed, is a path from s to t. */
  lemma ReversedWalkIsPath(g: Graph, walk: seq<nat>, s: nat, t: nat)
    requires |walk| > 0 && walk[0] == t && walk[|walk| - 1] == s
    requires BackWalk(g, walk)
    ensures PathFromTo(g, Reverse(walk), s, t)
  {
    var p := Reverse(walk);
    forall i | 0 <= i < |p| - 1 ensures p[i + 1] in g[p[i]] {
      assert p[i] == walk[|walk| - 1 - i] && p[i + 1] == walk[|walk| - 2 - i];
    }
  }

  /**
   * The search loop of BFS: from a fresh visited/parent state, dequeue nodes
   * in FIFO order until the frontier is empty or end is dequeued, discovering
   * the unvisited neighbours of each dequeued node. The ghost result gives each
   * visited node its level.
   */
  method Explore(start: nat, end: nat, adjacencyList: Graph, visited: array<bool>, parent: array<int>)
    returns (ghost level: seq<nat>)
    requires ValidGraph(adjacencyList)
    requires start < |adjacencyList| && end < |adjacencyList|
    requires visited.Length == |adjacencyList| && parent.Length == |adjacencyList|
    requires forall v :: 0 <= v < visited.Length ==> !visited[v] && parent[v] == NoParent
    modifies visited, parent
    ensures Tree(adjacencyList, start, visited[..], parent[..], level)
    ensures visited[end] ==> forall p :: PathFromTo(adjacencyList, p, start, end) ==> level[end] < |p|
    ensures !visited[end] ==> !Reachable(adjacencyList, start, end)
  {
    var n := |adjacencyList|;
    var queue: seq<nat> := [];
    level := seq(n, _ => 0);
    ghost var found := false;

    visited[start] := true;
    queue := queue + [start];

    while queue != []
      invariant SearchInv(adjacencyList, start, visited[..], parent[..], level, queue)
      invariant !found
      decreases |Unvisited(visited[..])| + |queue|
    {
      var current := queue[0];
      ghost var before := queue;
      queue := queue[1..];

      if current == end {
        MinimalLevel(adjacencyList, start, visited[..], parent[..], level, before, end);
        found := true;
        break;
      }

      ghost var lvl := level[current];
      ghost var total := |Unvisited(visited[..])| + |queue|;
      StartExpanding(adjacencyList, start, visited[..], parent[..], level, before, current);
      for j := 0 to |adjacencyList[current]|
        invariant |Unvisited(visited[..])| + |queue| == total
        invariant Expanding(adjacencyList, start, visited[..], parent[..], level, queue, current, lvl, j)
      {
        var neighbor := adjacencyList[current][j];
        if !visited[neighbor] {
          ghost var vis, par := visited[..], parent[..];
          visited[neighbor] := true;
          parent[neighbor] := current;
          assert visited[..] == vis[neighbor := true];
          assert parent[..] == par[neighbor := current];
          DiscoverStep(adjacencyList, start, vis, par, level, queue, current, lvl, j);
          UnvisitedShrinks(vis, neighbor);
          level := level[neighbor := lvl + 1];
          queue := queue + [neighbor];
        } else {
          SkipStep(adjacencyList, start, visited[..], parent[..], level, queue, current, lvl, j);
        }
      }
      FinishExpanding(adjacencyList, start, visited[..], parent[..], level, queue, current, lvl);
    }

    if !found {
      ExhaustedSearch(adjacencyList, start, visited[..], parent[..], level, end);
    }
  }

  /**
   * BFS(start, end, adjacencyList). As in the source, the result is empty
   * when start == end, because the start node never receives a parent.
   */
  method Bfs(start: nat, end: nat, adjacencyList: Graph) returns (path: seq<nat>)
    requires ValidGraph(adjacencyList)
    requires start < |adjacencyList| && end < |adjacencyList|
    ensures path != [] <==> start != end && Reachable(adjacencyList, start, end)
    ensures path != [] ==> ShortestPath(adjacencyList, path, start, end)
  {
    var n := |adjacencyList|;
    var visited := new bool[n](_ => false);
    var parent := new int[n](_ => NoParent);
    ghost var level := Explore(start, end, adjacencyList, visited, parent);

    if parent[end] == NoParent {
      return [];
    }

    // Follow the parent entries from end back to start, then reverse.
    var walk: seq<nat> := [];
    var at: int := end;
    ghost var vis, par := visited[..], parent[..];
    while at != NoParent
      invariant visited[..] == vis && parent[..] == par
      invariant at == NoParent || (0 <= at < n && visited[at])
      invariant walk == [] ==> at == end
      invariant walk != [] ==> walk[0] == end
      invariant at != NoParent ==> |walk| + level[at] == level[end]
      invariant at == NoParent ==> |walk| == level[end] + 1 && walk[|walk| - 1] == start
      invariant BackWalk(adjacencyList, walk)
      invariant walk != [] && at != NoParent ==> walk[|walk| - 1] in adjacencyList[at]
      decreases if at == NoParent then 0 else level[at] + 1
    {
      ParentStep(adjacencyList, start, vis, par, level, at);
      BackWalkExtend(adjacencyList, walk, at);
      walk := walk + [at];
      at := parent[at];
    }
    path := Reverse(walk);
    ReversedWalkIsPath(adjacencyList, walk, start, end);
    assert |path| == level[end] + 1;
  }
}
