/** The state every breadth-first search of module Solution keeps, and one lemma
    per step of the search showing that the step keeps it.

    A search is described by the sequence W of the nodes discovered so far,
    in discovery order, and by an index head: W[..head] are the nodes already
    taken off the queue (expanded), and W[head..] is the queue itself.  Each
    discovered node v carries level[v], which the invariant ties to its exact
    shortest-path distance from the start node. */
module BfsInvariant {
  import opened Graph

  ghost predicate NoDup(s: seq<int>) {
    forall i, j :: 0 <= i < j < |s| ==> s[i] != s[j]
  }

  ghost predicate InRange(s: seq<int>, n: int) {
    forall i :: 0 <= i < |s| ==> 0 <= s[i] < n
  }

  /** level records the exact distance of W[i] from s. */
  ghost predicate AtDistance(g: AdjacencyList, s: int, W: seq<int>, level: map<int, nat>, i: int) {
    0 <= i < |W| && W[i] in level && IsDistance(g, s, W[i], level[W[i]])
  }

  /** W starts at s, lists distinct nodes, and gives them in non-decreasing
      order of their distance from s, which level records exactly. */
  ghost predicate Discovered(g: AdjacencyList, s: int, W: seq<int>, level: map<int, nat>) {
    ValidGraph(g) && 0 <= s < |g| &&
    |W| > 0 && W[0] == s && NoDup(W) && InRange(W, |g|) &&
    (forall v :: v in level <==> v in W) &&
    (forall i :: 0 <= i < |W| ==> AtDistance(g, s, W, level, i)) &&
    (forall i, j :: 0 <= i < j < |W| ==> level[W[i]] <= level[W[j]])
  }

  /** Every neighbour of each of the first upto nodes of W is discovered. */
  ghost predicate Expanded(g: AdjacencyList, W: seq<int>, upto: int) {
    InRange(W, |g|) && 0 <= upto <= |W| &&
    forall i, k :: 0 <= i < upto && 0 <= k < |g[W[i]]| ==> g[W[i]][k] in W
  }

  /** Every node at most d edges away from s is discovered. */
  ghost predicate Covers(g: AdjacencyList, s: int, W: seq<int>, d: int) {
    forall p :: IsPath(g, p) && p[0] == s && |p| <= d + 1 ==> p[|p| - 1] in W
  }

  /** The state between two iterations of the outer loop: every dequeued node
      is fully expanded, and the queue spans at most two adjacent levels. */
  ghost predicate Steady(g: AdjacencyList, s: int, W: seq<int>, head: int, level: map<int, nat>) {
    Discovered(g, s, W, level) && Expanded(g, W, head) &&
    (head < |W| ==> forall i :: head <= i < |W| ==> level[W[i]] <= level[W[head]] + 1)
  }

  /** The state inside the inner loop, while W[head - 1] is being expanded
      and its first k neighbours have been looked at. */
  ghost predicate Expanding(g: AdjacencyList, s: int, W: seq<int>, head: int, level: map<int, nat>, k: int) {
    Discovered(g, s, W, level) && 1 <= head <= |W| && Expanded(g, W, head - 1) &&
    0 <= k <= |g[W[head - 1]]| &&
    (forall v :: v in g[W[head - 1]][..k] ==> v in W) &&
    (forall i :: head <= i < |W| ==> level[W[i]] <= level[W[head - 1]] + 1) &&
    Covers(g, s, W, level[W[head - 1]])
  }

  /** The search starts with the start node alone, at level 0. */
  lemma SteadyInit(g: AdjacencyList, s: int)
    requires ValidGraph(g) && 0 <= s < |g|
    ensures Steady(g, s, [s], 0, map[s := 0])
  {
    ReachesItself(g, s);
  }

  /** Every node that is no more edges away from s than the head of the
      queue is already discovered. */
  lemma {:induction false} CoversPath(g: AdjacencyList, s: int, W: seq<int>, head: int, level: map<int, nat>, p: seq<int>)
    requires Steady(g, s, W, head, level) && head < |W|
    requires IsPath(g, p) && p[0] == s && |p| <= level[W[head]] + 1
    ensures p[|p| - 1] in W
    decreases |p|
  {
    if |p| > 1 {
      var t := p[|p| - 1];
      var p' := p[..|p| - 1];
      PathSplitLast(g, p, s, t);
      CoversPath(g, s, W, head, level, p');
      var y := p'[|p'| - 1];
      var iy :| 0 <= iy < |W| && W[iy] == y;
      assert AtDistance(g, s, W, level, iy);
      assert level[y] + 1 <= |p'|;
      assert iy < head;
      var k :| 0 <= k < |g[y]| && g[y][k] == t;
      assert g[W[iy]][k] in W;
    }
  }

  lemma CoveredToHead(g: AdjacencyList, s: int, W: seq<int>, head: int, level: map<int, nat>)
    requires Steady(g, s, W, head, level) && head < |W|
    ensures Covers(g, s, W, level[W[head]])
  {
    forall p | IsPath(g, p) && p[0] == s && |p| <= level[W[head]] + 1
      ensures p[|p| - 1] in W
    {
      CoversPath(g, s, W, head, level, p);
    }
  }

  /** Dequeueing the head node starts its expansion. */
  lemma Pop(g: AdjacencyList, s: int, W: seq<int>, head: int, level: map<int, nat>, head': int)
    requires Steady(g, s, W, head, level) && head < |W| && head' == head + 1
    ensures Expanding(g, s, W, head', level, 0)
  {
    CoveredToHead(g, s, W, head, level);
  }

  /** A neighbour of the node being expanded that is not yet discovered lies
      exactly one level further from s. */
  lemma NewNeighbour(g: AdjacencyList, s: int, W: seq<int>, head: int, level: map<int, nat>, k: int)
    requires Expanding(g, s, W, head, level, k) && k < |g[W[head - 1]]|
    requires g[W[head - 1]][k] !in W
    ensures IsDistance(g, s, g[W[head - 1]][k], level[W[head - 1]] + 1)
  {
    var u := W[head - 1];
    var v := g[u][k];
    var d := level[u];
    assert AtDistance(g, s, W, level, head - 1);
    var pu :| PathFromTo(g, pu, s, u) && |pu| == d + 1;
    PathExtend(g, pu, s, u, v);
    assert forall p :: PathFromTo(g, p, s, v) ==> d + 2 <= |p|;
  }

  /** Discovering a new neighbour v of u = W[head - 1]: W' is W with v
      appended, at the level after u's. */
  lemma Discover(g: AdjacencyList, s: int, W: seq<int>, head: int, level: map<int, nat>, k: int, u: int, v: int)
    returns (W': seq<int>, level': map<int, nat>)
    requires Expanding(g, s, W, head, level, k) && u == W[head - 1] && k < |g[u]|
    requires v == g[u][k] && v !in W
    ensures W' == W + [v] && level' == level[v := level[u] + 1]
    ensures Expanding(g, s, W', head, level', k + 1)
  {
    W', level' := W + [v], level[v := level[u] + 1];
    var d := level[u];
    NewNeighbour(g, s, W, head, level, k);
    forall i | 0 <= i < |W|
      ensures level[W[i]] <= d + 1
    {
      if i < head - 1 {
        assert level[W[i]] <= level[W[head - 1]];
      }
    }
    DiscoveredAppend(g, s, W, level, v, d + 1);
    GrowKeepsExpanded(g, s, W, head, level, d, v);
    ExpandingAppend(g, s, W, head, level, k, u, v, d);
  }

  /** Puts together the pieces of Expanding for W with v appended. */
  lemma ExpandingAppend(g: AdjacencyList, s: int, W: seq<int>, head: int, level: map<int, nat>, k: int,
                        u: int, v: int, d: nat)
    requires 1 <= head <= |W| && u == W[head - 1] && u != v
    requires 0 <= u < |g| && 0 <= k < |g[u]| && v == g[u][k]
    requires u in level && d == level[u]
    requires forall x :: x in g[u][..k] ==> x in W
    requires forall i :: head <= i < |W| ==> W[i] in level && level[W[i]] <= d + 1
    requires Discovered(g, s, W + [v], level[v := d + 1])
    requires Expanded(g, W + [v], head - 1) && Covers(g, s, W + [v], d)
    ensures Expanding(g, s, W + [v], head, level[v := d + 1], k + 1)
  {
    assert g[u][..k + 1] == g[u][..k] + [v];
  }

  /** What Expanded, the inspected neighbours and Covers say of W stays true
      of W with one more node appended. */
  lemma GrowKeepsExpanded(g: AdjacencyList, s: int, W: seq<int>, head: int, level: map<int, nat>, d: int, v: int)
    requires 1 <= head <= |W| && Expanded(g, W, head - 1) && 0 <= v < |g|
    requires Covers(g, s, W, d)
    ensures Expanded(g, W + [v], head - 1) && Covers(g, s, W + [v], d)
  {
    var W' := W + [v];
    assert forall i :: 0 <= i < |W| ==> W'[i] == W[i];
  }

  /** Appending an undiscovered node at a level no smaller than any other
      keeps W a discovery sequence. */
  lemma DiscoveredAppend(g: AdjacencyList, s: int, W: seq<int>, level: map<int, nat>, v: int, dv: nat)
    requires Discovered(g, s, W, level)
    requires 0 <= v < |g| && v !in W && IsDistance(g, s, v, dv)
    requires forall i :: 0 <= i < |W| ==> level[W[i]] <= dv
    ensures Discovered(g, s, W + [v], level[v := dv])
  {
    var W' := W + [v];
    var level' := level[v := dv];
    assert forall i :: 0 <= i < |W| ==> W'[i] == W[i] && level'[W'[i]] == level[W[i]];
    forall i | 0 <= i < |W'|
      ensures AtDistance(g, s, W', level', i)
    {
      if i < |W| {
        assert AtDistance(g, s, W, level, i);
      }
    }
  }

  /** Looking at a neighbour that is already discovered changes nothing. */
  lemma Skip(g: AdjacencyList, s: int, W: seq<int>, head: int, level: map<int, nat>, k: int)
    requires Expanding(g, s, W, head, level, k) && k < |g[W[head - 1]]|
    requires g[W[head - 1]][k] in W
    ensures Expanding(g, s, W, head, level, k + 1)
  {
  }

  /** Once all its neighbours are looked at, the node is fully expanded. */
  lemma Finish(g: AdjacencyList, s: int, W: seq<int>, head: int, level: map<int, nat>, k: int)
    requires Expanding(g, s, W, head, level, k) && k == |g[W[head - 1]]|
    ensures Steady(g, s, W, head, level)
  {
    if head < |W| {
      assert level[W[head - 1]] <= level[W[head]];
    }
  }

  /** Once every discovered node is expanded, the discovered nodes are closed
      under edges, so every path from s stays among them. */
  lemma {:induction false} ClosedPath(g: AdjacencyList, s: int, W: seq<int>, level: map<int, nat>, p: seq<int>)
    requires Steady(g, s, W, |W|, level)
    requires IsPath(g, p) && p[0] == s
    ensures p[|p| - 1] in W
    decreases |p|
  {
    if |p| > 1 {
      var t := p[|p| - 1];
      var p' := p[..|p| - 1];
      PathSplitLast(g, p, s, t);
      ClosedPath(g, s, W, level, p');
      var y := p'[|p'| - 1];
      var iy :| 0 <= iy < |W| && W[iy] == y;
      var k :| 0 <= k < |g[y]| && g[y][k] == t;
      assert g[W[iy]][k] in W;
    }
  }

  /** r lists nodes reachable from s, in non-decreasing order of their
      shortest-path distance from s. */
  ghost predicate LevelOrdered(g: AdjacencyList, s: int, r: seq<int>) {
    (forall i :: 0 <= i < |r| ==> Reachable(g, s, r[i])) &&
    (forall i, j :: 0 <= i < j < |r| ==> Dist(g, s, r[i]) <= Dist(g, s, r[j]))
  }

  /** When the queue is empty, W holds exactly the nodes reachable from s,
      each once, in non-decreasing order of distance, and level records
      those distances. */
  lemma Complete(g: AdjacencyList, s: int, W: seq<int>, level: map<int, nat>)
    requires Steady(g, s, W, |W|, level)
    ensures forall v :: v in W <==> Reachable(g, s, v)
    ensures forall i :: 0 <= i < |W| ==> Reachable(g, s, W[i]) && level[W[i]] == Dist(g, s, W[i])
    ensures LevelOrdered(g, s, W)
    ensures |W| == |ReachableFrom(g, s)| <= |g|
  {
    forall v | Reachable(g, s, v)
      ensures v in W
    {
      var p :| PathFromTo(g, p, s, v);
      ClosedPath(g, s, W, level, p);
    }
    forall i | 0 <= i < |W|
      ensures Reachable(g, s, W[i]) && level[W[i]] == Dist(g, s, W[i])
    {
      assert AtDistance(g, s, W, level, i);
      DistanceUnique(g, s, W[i], level[W[i]], Dist(g, s, W[i]));
    }
    assert ReachableFrom(g, s) == set x | x in W;
    DistinctCard(W);
    DistinctBound(W, |g|);
  }

  /** A sequence of distinct nodes of an n-node graph has at most n entries
      (a BFS discovers each node at most once). */
  lemma {:induction false} DistinctBound(W: seq<int>, n: nat)
    requires NoDup(W) && InRange(W, n)
    ensures |W| <= n
    decreases n
  {
    if |W| > 0 {
      assert 0 <= W[0] < n;
      if m :| 0 <= m < |W| && W[m] == n - 1 {
        var rest := W[..m] + W[m + 1..];
        assert forall i :: 0 <= i < |rest| ==> rest[i] == if i < m then W[i] else W[i + 1];
        DistinctBound(rest, n - 1);
      } else {
        DistinctBound(W, n - 1);
      }
    }
  }

  /** The distinct entries of a sequence without repetitions are as many as
      its length. */
  lemma {:induction false} DistinctCard(W: seq<int>)
    requires NoDup(W)
    ensures |set x | x in W| == |W|
  {
    if |W| > 0 {
      DistinctCard(W[1..]);
      assert (set x | x in W) == {W[0]} + (set x | x in W[1..]);
    }
  }
}
