/** Directed graphs given as adjacency lists, and what it means for one node
    to reach another: paths, reachability and shortest-path distance.
    These are the notions the breadth-first searches of module Solution are
    specified against. */
module Graph {

  /** graph[i] lists the neighbours of node i, in stored order. */
  type AdjacencyList = seq<seq<int>>

  /** A graph the searches accept: at least one node, and every neighbour
      index of every adjacency list names a node. */
  ghost predicate ValidGraph(g: AdjacencyList) {
    |g| > 0 &&
    forall u, k :: 0 <= u < |g| && 0 <= k < |g[u]| ==> 0 <= g[u][k] < |g|
  }

  /** p is a walk along directed edges: each node after the first is listed
      among the neighbours of the one before it. */
  ghost predicate IsPath(g: AdjacencyList, p: seq<int>) {
    |p| > 0 &&
    (forall i :: 0 <= i < |p| ==> 0 <= p[i] < |g|) &&
    (forall i :: 0 <= i < |p| - 1 ==> p[i + 1] in g[p[i]])
  }

  ghost predicate PathFromTo(g: AdjacencyList, p: seq<int>, s: int, t: int) {
    IsPath(g, p) && p[0] == s && p[|p| - 1] == t
  }

  /** A directed path leads from s to t (the one-node path makes every node
      reach itself). */
  ghost predicate Reachable(g: AdjacencyList, s: int, t: int) {
    exists p :: PathFromTo(g, p, s, t)
  }

  /** d is the number of edges of a shortest path from s to t: some path has
      d edges and none has fewer. */
  ghost predicate IsDistance(g: AdjacencyList, s: int, t: int, d: nat) {
    (exists p :: PathFromTo(g, p, s, t) && |p| == d + 1) &&
    (forall p :: PathFromTo(g, p, s, t) ==> d + 1 <= |p|)
  }

  /** The nodes reachable from s. */
  ghost function ReachableFrom(g: AdjacencyList, s: int): set<int> {
    set v | 0 <= v < |g| && Reachable(g, s, v)
  }

  /** The shortest-path distance from s to a node t that s reaches. */
  ghost function Dist(g: AdjacencyList, s: int, t: int): (d: nat)
    requires Reachable(g, s, t)
    ensures IsDistance(g, s, t, d)
  {
    var p :| PathFromTo(g, p, s, t);
    ShortestPathExists(g, s, t, p);
    var d :| IsDistance(g, s, t, d);
    d
  }

  /** Every path leads to a shortest one. */
  lemma {:induction false} ShortestPathExists(g: AdjacencyList, s: int, t: int, p: seq<int>)
    requires PathFromTo(g, p, s, t)
    ensures exists d :: IsDistance(g, s, t, d)
    decreases |p|
  {
    if forall p' :: PathFromTo(g, p', s, t) ==> |p| <= |p'| {
      assert IsDistance(g, s, t, |p| - 1);
    } else {
      var p' :| PathFromTo(g, p', s, t) && |p'| < |p|;
      ShortestPathExists(g, s, t, p');
    }
  }

  /** The distance, when there is one, is unique. */
  lemma DistanceUnique(g: AdjacencyList, s: int, t: int, d1: nat, d2: nat)
    requires IsDistance(g, s, t, d1) && IsDistance(g, s, t, d2)
    ensures d1 == d2
  {
    var p1 :| PathFromTo(g, p1, s, t) && |p1| == d1 + 1;
    var p2 :| PathFromTo(g, p2, s, t) && |p2| == d2 + 1;
  }

  /** Every node reaches itself, at distance 0, whether or not it has edges. */
  lemma ReachesItself(g: AdjacencyList, x: int)
    requires 0 <= x < |g|
    ensures Reachable(g, x, x) && IsDistance(g, x, x, 0) && Dist(g, x, x) == 0
  {
    assert PathFromTo(g, [x], x, x);
    DistanceUnique(g, x, x, 0, Dist(g, x, x));
  }

  /** A path to u followed by an edge u -> v is a path to v. */
  lemma PathExtend(g: AdjacencyList, p: seq<int>, s: int, u: int, v: int)
    requires PathFromTo(g, p, s, u) && v in g[u] && 0 <= v < |g|
    ensures PathFromTo(g, p + [v], s, v)
  {
  }

  /** A path of two or more nodes is a shorter path followed by one edge. */
  lemma PathSplitLast(g: AdjacencyList, p: seq<int>, s: int, t: int)
    requires PathFromTo(g, p, s, t) && |p| >= 2
    ensures PathFromTo(g, p[..|p| - 1], s, p[|p| - 2]) && t in g[p[|p| - 2]]
  {
  }
}
