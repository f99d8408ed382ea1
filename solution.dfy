/** The graph operations of class Solution in Graph/bfs.cpp.  The class has
    no fields, so its member functions become methods of this module.  Every
    operation is total: invalid input is answered with a sentinel (an empty
    traversal, false, or -1), never with an error. */
module Solution {
  import opened Graph
  import opened BfsInvariant

  /** The graph is non-empty and every neighbour index of every list lies in
      [0, n).  The scan stops at the first bad index. */
  method ValidateGraphInput(g: AdjacencyList) returns (valid: bool)
    ensures valid == ValidGraph(g)
  {
    if |g| == 0 {
      return false;
    }
    var n := |g|;
    var i := 0;
    while i < n
      invariant 0 <= i <= n
      invariant forall u, k :: 0 <= u < i && 0 <= k < |g[u]| ==> 0 <= g[u][k] < n
    {
      var k := 0;
      while k < |g[i]|
        invariant 0 <= k <= |g[i]|
        invariant forall j :: 0 <= j < k ==> 0 <= g[i][j] < n
      {
        var neighbor := g[i][k];
        if neighbor < 0 || neighbor >= n {
          return false;
        }
        k := k + 1;
      }
      i := i + 1;
    }
    return true;
  }

  /** The number of nodes in a traversal result. */
  function GetVisitedCount(result: seq<int>): (count: int)
    ensures count == |result|
  {
    |result|
  }

  /** visited[v] holds exactly for the discovered nodes v. */
  ghost predicate Marks(visited: seq<bool>, W: seq<int>, n: int) {
    |visited| == n && forall v :: 0 <= v < n ==> visited[v] == (v in W)
  }

  /** Marking a node and appending it to W keeps the marks exact. */
  lemma MarkNew(visited: seq<bool>, W: seq<int>, n: int, v: int)
    requires Marks(visited, W, n) && 0 <= v < n
    ensures Marks(visited[v := true], W + [v], n)
  {
  }

  /** Breadth-first traversal from start: the nodes in the order they are
      taken off the queue, which is the order they were discovered. */
  method Bfs(start: int, g: AdjacencyList) returns (visitedNodes: seq<int>)
    ensures !(ValidGraph(g) && 0 <= start < |g|) ==> visitedNodes == []
    ensures ValidGraph(g) && 0 <= start < |g| ==>
      |visitedNodes| > 0 && visitedNodes[0] == start &&
      NoDup(visitedNodes) && InRange(visitedNodes, |g|) && |visitedNodes| <= |g|
    ensures ValidGraph(g) && 0 <= start < |g| ==>
      (forall v :: v in visitedNodes <==> Reachable(g, start, v)) &&
      GetVisitedCount(visitedNodes) == |ReachableFrom(g, start)|
    ensures ValidGraph(g) && 0 <= start < |g| ==> LevelOrdered(g, start, visitedNodes)
  {
    visitedNodes := [];
    var valid := ValidateGraphInput(g);
    if !valid {
      return;
    }
    var n := |g|;
    if start < 0 || start >= n {
      return;
    }
    var visited := seq(n, _ => false);
    var q := [start];
    visited := visited[start := true];
    ghost var W := [start];
    ghost var level := map[start := 0];
    SteadyInit(g, start);
    while q != []
      invariant Steady(g, start, W, |visitedNodes|, level)
      invariant visitedNodes + q == W && Marks(visited, W, n) && |W| <= n
      decreases n - |W|, |q|
    {
      var current := q[0];
      assert (visitedNodes + [current]) + q[1..] == W;
      ghost var h := |visitedNodes|;
      q := q[1..];
      visitedNodes := visitedNodes + [current];
      Pop(g, start, W, h, level, |visitedNodes|);
      q, visited, W, level := BfsExpand(g, start, current, visitedNodes, q, visited, W, level);
    }
    assert visitedNodes == W;
    Complete(g, start, W, level);
  }

  /** q' is q with nodes from nbrs appended: a neighbour loop only ever
      adds neighbours of the node it expands to the back of the queue. */
  ghost predicate Grows(q: seq<int>, q': seq<int>, nbrs: seq<int>) {
    |q| <= |q'| && q'[..|q|] == q && forall i :: |q| <= i < |q'| ==> q'[i] in nbrs
  }

  lemma GrowsStep(q: seq<int>, q': seq<int>, q'': seq<int>, nbrs: seq<int>, v: int)
    requires Grows(q, q', nbrs) && v in nbrs && (q'' == q' || q'' == q' + [v])
    ensures Grows(q, q'', nbrs)
  {
    if q'' == q' + [v] {
      assert q''[..|q|] == q'[..|q|];
    }
  }

  /** The same for the depth-carrying queue, every new entry at depth d. */
  ghost predicate GrowsAt(q: seq<(int, int)>, q': seq<(int, int)>, nbrs: seq<int>, d: int) {
    |q| <= |q'| && q'[..|q|] == q && forall i :: |q| <= i < |q'| ==> q'[i].0 in nbrs && q'[i].1 == d
  }

  lemma GrowsAtStep(q: seq<(int, int)>, q': seq<(int, int)>, q'': seq<(int, int)>, nbrs: seq<int>, d: int, v: int)
    requires GrowsAt(q, q', nbrs, d) && v in nbrs && (q'' == q' || q'' == q' + [(v, d)])
    ensures GrowsAt(q, q'', nbrs, d)
  {
    if q'' == q' + [(v, d)] {
      assert q''[..|q|] == q'[..|q|];
    }
  }

  /** The neighbour loop of Bfs for current, the node just taken off the
      queue: its neighbours are looked at once each, in list order. */
  method BfsExpand(g: AdjacencyList, start: int, current: int, done: seq<int>, q: seq<int>,
                   visited: seq<bool>, ghost W: seq<int>, ghost level: map<int, nat>)
    returns (q': seq<int>, visited': seq<bool>, ghost W': seq<int>, ghost level': map<int, nat>)
    requires Expanding(g, start, W, |done|, level, 0) && current == W[|done| - 1]
    requires done + q == W && Marks(visited, W, |g|) && |W| <= |g|
    ensures Steady(g, start, W', |done|, level')
    ensures done + q' == W' && Marks(visited', W', |g|) && |W| <= |W'| <= |g|
    ensures Grows(q, q', g[current])
  {
    q', visited', W', level' := q, visited, W, level;
    var k := 0;
    while k < |g[current]|
      invariant Expanding(g, start, W', |done|, level', k) && current == W'[|done| - 1]
      invariant done + q' == W' && Marks(visited', W', |g|) && |W| <= |W'| <= |g|
      invariant Grows(q, q', g[current])
    {
      ghost var q0 := q';
      q', visited', W', level' := BfsVisit(g, start, current, k, done, q', visited', W', level');
      GrowsStep(q, q0, q', g[current], g[current][k]);
      k := k + 1;
    }
    Finish(g, start, W', |done|, level', k);
  }

  /** One pass of the neighbour loop of Bfs: the k-th neighbour of current,
      the node taken off the queue last, is marked and queued when it is a
      node index that was not visited yet. */
  method BfsVisit(g: AdjacencyList, start: int, current: int, k: int, done: seq<int>, q: seq<int>,
                  visited: seq<bool>, ghost W: seq<int>, ghost level: map<int, nat>)
    returns (q': seq<int>, visited': seq<bool>, ghost W': seq<int>, ghost level': map<int, nat>)
    requires Expanding(g, start, W, |done|, level, k) && current == W[|done| - 1] && k < |g[current]|
    requires done + q == W && Marks(visited, W, |g|) && |W| <= |g|
    ensures Expanding(g, start, W', |done|, level', k + 1) && current == W'[|done| - 1]
    ensures done + q' == W' && Marks(visited', W', |g|) && |W| <= |W'| <= |g|
    ensures W' == if g[current][k] in W then W else W + [g[current][k]]
    ensures 0 <= g[current][k] < |visited|
    ensures (q', visited') == if visited[g[current][k]] then (q, visited) else (q + [g[current][k]], visited[g[current][k] := true])
  {
    var n := |g|;
    var neighbor := g[current][k];
    if neighbor >= 0 && neighbor < n && !visited[neighbor] {
      visited' := visited[neighbor := true];
      assert done + (q + [neighbor]) == W + [neighbor];
      MarkNew(visited, W, |g|, neighbor);
      W', level' := Discover(g, start, W, |done|, level, k, current, neighbor);
      q' := q + [neighbor];
      DistinctBound(W', n);
    } else {
      Skip(g, start, W, |done|, level, k);
      q', visited', W', level' := q, visited, W, level;
    }
  }

  /** Whether a directed path leads from start to target.  The search stops
      as soon as target shows up as a neighbour. */
  method IsNodeReachable(start: int, target: int, g: AdjacencyList) returns (reachable: bool)
    ensures reachable == (ValidGraph(g) && 0 <= start < |g| && 0 <= target < |g| &&
                          Reachable(g, start, target))
  {
    var valid := ValidateGraphInput(g);
    if !valid {
      return false;
    }
    var n := |g|;
    if start < 0 || start >= n || target < 0 || target >= n {
      return false;
    }
    if start == target {
      ReachesItself(g, start);
      return true;
    }
    var visited := seq(n, _ => false);
    var q := [start];
    visited := visited[start := true];
    ghost var W := [start];
    ghost var level := map[start := 0];
    ghost var done: seq<int> := [];
    SteadyInit(g, start);
    while q != []
      invariant Steady(g, start, W, |done|, level)
      invariant done + q == W && target !in W
      invariant Marks(visited, W, n) && |W| <= n
      decreases n - |W|, |q|
    {
      var current := q[0];
      assert (done + [current]) + q[1..] == W;
      q := q[1..];
      ghost var h := |done|;
      done := done + [current];
      Pop(g, start, W, h, level, |done|);
      var found;
      found, q, visited, W, level := ReachExpand(g, start, target, current, done, q, visited, W, level);
      if found {
        return true;
      }
    }
    assert done == W;
    Complete(g, start, W, level);
    return false;
  }

  /** The neighbour loop of IsNodeReachable for current, the node just
      taken off the queue: found when target is one of its neighbours. */
  method ReachExpand(g: AdjacencyList, start: int, target: int, current: int, ghost done: seq<int>, q: seq<int>,
                     visited: seq<bool>, ghost W: seq<int>, ghost level: map<int, nat>)
    returns (found: bool, q': seq<int>, visited': seq<bool>, ghost W': seq<int>, ghost level': map<int, nat>)
    requires Expanding(g, start, W, |done|, level, 0) && current == W[|done| - 1]
    requires done + q == W && target !in W && Marks(visited, W, |g|) && |W| <= |g|
    ensures found ==> Reachable(g, start, target)
    ensures !found ==> Steady(g, start, W', |done|, level') && target !in W'
    ensures done + q' == W' && Marks(visited', W', |g|) && |W| <= |W'| <= |g|
    ensures Grows(q, q', g[current])
  {
    q', visited', W', level' := q, visited, W, level;
    var k := 0;
    while k < |g[current]|
      invariant Expanding(g, start, W', |done|, level', k) && current == W'[|done| - 1]
      invariant done + q' == W' && target !in W' && Marks(visited', W', |g|) && |W| <= |W'| <= |g|
      invariant Grows(q, q', g[current])
    {
      var neighbor := g[current][k];
      if neighbor == target {
        NewNeighbour(g, start, W', |done|, level', k);
        assert IsDistance(g, start, target, level'[current] + 1);
        return true, q', visited', W', level';
      }
      ghost var q0 := q';
      q', visited', W', level' := ReachVisit(g, start, current, k, done, q', visited', W', level');
      GrowsStep(q, q0, q', g[current], g[current][k]);
      k := k + 1;
    }
    Finish(g, start, W', |done|, level', k);
    found := false;
  }

  /** One pass of the neighbour loop of IsNodeReachable, once the k-th
      neighbour of current is known not to be the target: it is marked and
      queued when it was not visited yet. */
  method ReachVisit(g: AdjacencyList, start: int, current: int, k: int, ghost done: seq<int>, q: seq<int>,
                    visited: seq<bool>, ghost W: seq<int>, ghost level: map<int, nat>)
    returns (q': seq<int>, visited': seq<bool>, ghost W': seq<int>, ghost level': map<int, nat>)
    requires Expanding(g, start, W, |done|, level, k) && current == W[|done| - 1] && k < |g[current]|
    requires done + q == W && Marks(visited, W, |g|) && |W| <= |g|
    ensures Expanding(g, start, W', |done|, level', k + 1) && current == W'[|done| - 1]
    ensures done + q' == W' && Marks(visited', W', |g|) && |W| <= |W'| <= |g|
    ensures W' == if g[current][k] in W then W else W + [g[current][k]]
    ensures 0 <= g[current][k] < |visited|
    ensures (q', visited') == if visited[g[current][k]] then (q, visited) else (q + [g[current][k]], visited[g[current][k] := true])
  {
    var neighbor := g[current][k];
    if !visited[neighbor] {
      visited' := visited[neighbor := true];
      MarkNew(visited, W, |g|, neighbor);
      assert done + (q + [neighbor]) == W + [neighbor];
      W', level' := Discover(g, start, W, |done|, level, k, current, neighbor);
      q' := q + [neighbor];
      DistinctBound(W', |g|);
    } else {
      Skip(g, start, W, |done|, level, k);
      q', visited', W', level' := q, visited, W, level;
    }
  }

  /** The number of edges of a shortest directed path from start to target,
      or -1.  Each queue entry carries the depth at which it was found; the
      search stops as soon as target shows up as a neighbour. */
  method GetShortestPathLength(start: int, target: int, g: AdjacencyList) returns (length: int)
    ensures length == if ValidGraph(g) && 0 <= start < |g| && 0 <= target < |g| &&
                         Reachable(g, start, target)
                      then Dist(g, start, target) else -1
  {
    var valid := ValidateGraphInput(g);
    if !valid {
      return -1;
    }
    var n := |g|;
    if start < 0 || start >= n || target < 0 || target >= n {
      return -1;
    }
    if start == target {
      ReachesItself(g, start);
      return 0;
    }
    var visited := seq(n, _ => false);
    var q := [(start, 0)];
    visited := visited[start := true];
    ghost var W := [start];
    ghost var level := map[start := 0];
    ghost var head := 0;
    SteadyInit(g, start);
    while q != []
      invariant Steady(g, start, W, head, level)
      invariant Queued(q, W, head, level) && target !in W
      invariant Marks(visited, W, n) && |W| <= n
      decreases n - |W|, |q|
    {
      var (current, dist) := q[0];
      Dequeue(q, W, head, level);
      q := q[1..];
      Pop(g, start, W, head, level, head + 1);
      head := head + 1;
      var found;
      found, q, visited, W, level := DepthExpand(g, start, target, current, dist, head, q, visited, W, level);
      if found {
        DistanceUnique(g, start, target, dist + 1, Dist(g, start, target));
        return dist + 1;
      }
    }
    Complete(g, start, W, level);
    return -1;
  }

  /** The neighbour loop of GetShortestPathLength for current, the node
      just taken off the queue at depth dist: found when target is one of
      its neighbours, which puts target at depth dist + 1. */
  method DepthExpand(g: AdjacencyList, start: int, target: int, current: int, dist: int, ghost head: int,
                     q: seq<(int, int)>, visited: seq<bool>, ghost W: seq<int>, ghost level: map<int, nat>)
    returns (found: bool, q': seq<(int, int)>, visited': seq<bool>, ghost W': seq<int>, ghost level': map<int, nat>)
    requires Expanding(g, start, W, head, level, 0) && current == W[head - 1] && dist == level[current]
    requires Queued(q, W, head, level) && target !in W && Marks(visited, W, |g|) && |W| <= |g|
    ensures found ==> IsDistance(g, start, target, dist + 1)
    ensures !found ==> Steady(g, start, W', head, level') && target !in W'
    ensures Queued(q', W', head, level') && Marks(visited', W', |g|) && |W| <= |W'| <= |g|
    ensures GrowsAt(q, q', g[current], dist + 1)
  {
    q', visited', W', level' := q, visited, W, level;
    var k := 0;
    while k < |g[current]|
      invariant Expanding(g, start, W', head, level', k) && current == W'[head - 1] && dist == level'[current]
      invariant GrowsAt(q, q', g[current], dist + 1)
      invariant Queued(q', W', head, level') && target !in W' && Marks(visited', W', |g|) && |W| <= |W'| <= |g|
    {
      var neighbor := g[current][k];
      if neighbor == target {
        NewNeighbour(g, start, W', head, level', k);
        return true, q', visited', W', level';
      }
      ghost var q0 := q';
      q', visited', W', level' := DepthVisit(g, start, current, dist, k, head, q', visited', W', level');
      GrowsAtStep(q, q0, q', g[current], dist + 1, g[current][k]);
      k := k + 1;
    }
    Finish(g, start, W', head, level', k);
    found := false;
  }

  /** On every input, getShortestPathLength finds a length exactly when
      isNodeReachable answers true. */
  method PathLengthAgreesWithReachability(start: int, target: int, g: AdjacencyList)
    returns (length: int, reachable: bool)
    ensures (length >= 0) == reachable
  {
    length := GetShortestPathLength(start, target, g);
    reachable := IsNodeReachable(start, target, g);
  }

  /** The depth-carrying queue of GetShortestPathLength holds the nodes
      W[head..] together with their levels. */
  ghost predicate Queued(q: seq<(int, int)>, W: seq<int>, head: int, level: map<int, nat>) {
    0 <= head <= |W| && |q| == |W| - head &&
    forall i :: 0 <= i < |q| ==> q[i].0 == W[head + i] && W[head + i] in level && q[i].1 == level[W[head + i]]
  }

  /** Taking the front entry off the queue: it is the node W[head] with its
      level, and the rest of the queue is W[head + 1..]. */
  lemma Dequeue(q: seq<(int, int)>, W: seq<int>, head: int, level: map<int, nat>)
    requires Queued(q, W, head, level) && |q| > 0
    ensures q[0].0 == W[head] && q[0].1 == level[W[head]]
    ensures Queued(q[1..], W, head + 1, level)
  {
    assert forall i :: 0 <= i < |q| - 1 ==> q[1..][i] == q[i + 1];
  }

  /** One pass of the neighbour loop of GetShortestPathLength, once the k-th
      neighbour of current is known not to be the target: it is marked and
      queued with depth dist + 1 when it was not visited yet. */
  method DepthVisit(g: AdjacencyList, start: int, current: int, dist: int, k: int, ghost head: int,
                    q: seq<(int, int)>, visited: seq<bool>, ghost W: seq<int>, ghost level: map<int, nat>)
    returns (q': seq<(int, int)>, visited': seq<bool>, ghost W': seq<int>, ghost level': map<int, nat>)
    requires Expanding(g, start, W, head, level, k) && current == W[head - 1] && k < |g[current]|
    requires dist == level[current]
    requires Queued(q, W, head, level) && Marks(visited, W, |g|) && |W| <= |g|
    ensures Expanding(g, start, W', head, level', k + 1) && current == W'[head - 1] && dist == level'[current]
    ensures Queued(q', W', head, level') && Marks(visited', W', |g|) && |W| <= |W'| <= |g|
    ensures W' == if g[current][k] in W then W else W + [g[current][k]]
    ensures 0 <= g[current][k] < |visited|
    ensures (q', visited') == if visited[g[current][k]] then (q, visited) else (q + [(g[current][k], dist + 1)], visited[g[current][k] := true])
  {
    var neighbor := g[current][k];
    if !visited[neighbor] {
      visited' := visited[neighbor := true];
      MarkNew(visited, W, |g|, neighbor);
      W', level' := Discover(g, start, W, head, level, k, current, neighbor);
      q' := q + [(neighbor, dist + 1)];
      DistinctBound(W', |g|);
    } else {
      Skip(g, start, W, head, level, k);
      q', visited', W', level' := q, visited, W, level;
    }
  }
}
