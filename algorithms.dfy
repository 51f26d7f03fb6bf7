/**
  The read-only statistics over an adjacency list: breadth-first shortest
  path, the most connected nodes, the degree summary, bidirectional pairs
  and the total number of edges.
 */
module Algorithms {
  import opened Graph
  import opened Sequences

  // ---------------------------------------------------------------------------
  // Shortest path by breadth-first search
  // ---------------------------------------------------------------------------

  /** `adj_list.keys().max().unwrap()`: the largest key of a non-empty map. */
  method MaxKey(adj: AdjacencyList) returns (m: Node)
    requires adj != map[]
    ensures m in adj
    ensures forall k :: k in adj ==> k <= m
  {
    var rest := adj.Keys;
    m :| m in rest;
    rest := rest - {m};
    while rest != {}
      invariant rest <= adj.Keys && m in adj
      invariant forall k :: k in adj && k !in rest ==> k <= m
      decreases rest
    {
      var k :| k in rest;
      if m < k {
        m := k;
      }
      rest := rest - {k};
    }
  }

  /** The ids below `n`. */
  ghost function Below(n: nat): (ids: set<Node>)
    ensures forall x :: x in ids <==> 0 <= x < n
  {
    if n == 0 then {} else Below(n - 1) + {n - 1}
  }

  /**
    The queue holds distinct discovered nodes in non-decreasing level order,
    all at `level` or one above.
   */
  ghost predicate QueueOrdered(queue: seq<Node>, dist: map<Node, nat>, level: nat)
  {
    && (forall i :: 0 <= i < |queue| ==> queue[i] in dist)
    && (forall i, j :: 0 <= i < j < |queue| ==> queue[i] != queue[j])
    && (forall i, j :: 0 <= i <= j < |queue| && queue[j] in dist ==> queue[i] in dist && dist[queue[i]] <= dist[queue[j]])
    && (forall i :: 0 <= i < |queue| && queue[i] in dist ==> level <= dist[queue[i]] <= level + 1)
  }

  /** Every out-edge of a finished node leads to a discovered node at most one level further. */
  ghost predicate Relaxed(adj: AdjacencyList, dist: map<Node, nat>, done: set<Node>)
  {
    forall u, w :: u in done && u in adj && w in adj[u] ==> u in dist && w in dist && dist[w] <= dist[u] + 1
  }

  /**
    The predecessor table: every discovered node other than `start` records
    the node it was discovered from, one level closer to `start`; `start`
    records none.
   */
  ghost predicate PrevChain(adj: AdjacencyList, prev: seq<Option<Node>>, start: Node, dist: map<Node, nat>)
  {
    && (start < |prev| ==> prev[start].None?)
    && (forall v :: v in dist && v != start ==> v < |prev|)
    && forall v {:trigger prev[v]} :: v in dist && v != start ==>
         && prev[v].Some?
         && prev[v].value in dist
         && prev[v].value in adj
         && v in adj[prev[v].value]
         && dist[prev[v].value] + 1 == dist[v]
  }

  /**
    The heart of the minimality argument. If every node discovered below
    `level` is finished and every finished node is relaxed, then any walk of
    at most `level` edges from `start` ends at a discovered node, and its
    level is at most the walk's length.
   */
  lemma {:induction false} WalkEndsDiscovered(adj: AdjacencyList, start: Node, dist: map<Node, nat>,
                                              done: set<Node>, level: nat, p: seq<Node>, e: Node)
    requires start in dist && dist[start] == 0
    requires forall y :: y in dist && dist[y] < level ==> y in done
    requires Relaxed(adj, dist, done)
    requires IsPath(adj, p, start, e) && |p| - 1 <= level
    ensures e in dist && dist[e] <= |p| - 1
    decreases |p|
  {
    if |p| > 1 {
      var init := p[..|p| - 1];
      var y := p[|p| - 2];
      assert IsPath(adj, init, start, y);
      WalkEndsDiscovered(adj, start, dist, done, level, init, y);
      assert y in done;
    }
  }

  /**
    Follows the predecessor table from `end` back to `start`, then reverses.
   */
  method ReconstructPath(adj: AdjacencyList, prev: array<Option<Node>>, start: Node, end: Node,
                         ghost dist: map<Node, nat>) returns (path: seq<Node>)
    requires start in dist && dist[start] == 0
    requires end in dist && end < prev.Length
    requires forall k :: k in adj ==> k < prev.Length
    requires PrevChain(adj, prev[..], start, dist)
    ensures IsPath(adj, path, start, end)
    ensures |path| == dist[end] + 1
  {
    path := [];
    var current := Some(end);
    while current.Some?
      invariant current.Some? ==> current.value in dist && current.value < prev.Length
      invariant current.Some? ==> |path| + dist[current.value] == dist[end]
      invariant current.None? ==> |path| == dist[end] + 1 && path[|path| - 1] == start
      invariant path == [] ==> current == Some(end)
      invariant path != [] ==> path[0] == end
      invariant path != [] && current.Some? ==> current.value in adj && path[|path| - 1] in adj[current.value]
      invariant forall i :: 1 <= i < |path| ==> path[i] in adj && path[i - 1] in adj[path[i]]
      decreases if current.Some? then dist[current.value] + 1 else 0
    {
      var node := current.value;
      path := path + [node];
      current := prev[node];
    }
    var walked := path;
    path := Reverse(path);
    forall i | 0 <= i < |path| - 1
      ensures path[i] in adj && path[i + 1] in adj[path[i]]
    {
      var j := |walked| - 1 - i;
      assert path[i] == walked[j] && path[i + 1] == walked[j - 1];
    }
  }

  /**
    What holds of the search between two steps. `current` is the node whose
    neighbours are being scanned ({} between two nodes): every discovered node
    is finished, queued or current.
   */
  ghost predicate Frontier(adj: AdjacencyList, start: Node, visited: set<Node>, queue: seq<Node>,
                           dist: map<Node, nat>, done: set<Node>, level: nat, current: set<Node>)
  {
    && visited == dist.Keys
    && start in visited && dist[start] == 0
    && QueueOrdered(queue, dist, level)
    && (forall v :: v in done ==> v in visited && v !in queue && dist[v] <= level)
    && (forall v :: v in current ==> v in visited && v !in done && v !in queue && dist[v] == level)
    && (forall v :: v in visited ==> v in done || v in queue || v in current)
    && Relaxed(adj, dist, done)
  }

  /** Without its head, the queue is ordered relative to the head's level. */
  lemma QueueOrderedTail(queue: seq<Node>, dist: map<Node, nat>, level: nat)
    requires QueueOrdered(queue, dist, level) && queue != []
    ensures queue[0] in dist && level <= dist[queue[0]]
    ensures QueueOrdered(queue[1..], dist, dist[queue[0]])
  {
  }

  /** Taking the head of the queue makes it the current node, at the level of the head. */
  lemma TakeHead(adj: AdjacencyList, start: Node, visited: set<Node>, queue: seq<Node>,
                 dist: map<Node, nat>, done: set<Node>, level: nat)
    requires Frontier(adj, start, visited, queue, dist, done, level, {})
    requires queue != []
    ensures queue[0] in dist
    ensures Frontier(adj, start, visited, queue[1..], dist, done, dist[queue[0]], {queue[0]})
  {
    var node := queue[0];
    QueueOrderedTail(queue, dist, level);
    forall v | v in visited
      ensures v in done || v in queue[1..] || v == node
    {
      if v in queue && v != node {
        var i :| 0 <= i < |queue| && queue[i] == v;
        assert queue[1..][i - 1] == v;
      }
    }
    forall v | v in queue[1..]
      ensures v != node
    {
      var i :| 0 <= i < |queue[1..]| && queue[1..][i] == v;
      assert queue[i + 1] == v;
    }
  }

  /** Once all its neighbours are discovered, the current node is finished. */
  lemma FinishCurrent(adj: AdjacencyList, start: Node, visited: set<Node>, queue: seq<Node>,
                      dist: map<Node, nat>, done: set<Node>, level: nat, node: Node)
    requires Frontier(adj, start, visited, queue, dist, done, level, {node})
    requires node in adj ==> forall w :: w in adj[node] ==> w in dist && dist[w] <= level + 1
    ensures Frontier(adj, start, visited, queue, dist, done + {node}, level, {})
  {
  }

  /** Every discovered node is at most one level beyond the current one. */
  lemma DiscoveredNearby(adj: AdjacencyList, start: Node, visited: set<Node>, queue: seq<Node>,
                         dist: map<Node, nat>, done: set<Node>, level: nat, node: Node, v: Node)
    requires Frontier(adj, start, visited, queue, dist, done, level, {node})
    requires v in visited
    ensures dist[v] <= level + 1
  {
    if v in queue {
      var i :| 0 <= i < |queue| && queue[i] == v;
    }
  }

  /**
    A node not yet discovered while the nodes of `level` are being scanned
    is at least `level + 1` edges away from `start`.
   */
  lemma UndiscoveredIsFar(adj: AdjacencyList, start: Node, e: Node, dist: map<Node, nat>,
                          done: set<Node>, level: nat)
    requires start in dist && dist[start] == 0 && e !in dist
    requires forall y :: y in dist && dist[y] < level ==> y in done
    requires Relaxed(adj, dist, done)
    ensures forall p :: IsPath(adj, p, start, e) ==> level + 2 <= |p|
  {
    forall p | IsPath(adj, p, start, e)
      ensures level + 2 <= |p|
    {
      if |p| - 1 <= level {
        WalkEndsDiscovered(adj, start, dist, done, level, p, e);
      }
    }
  }

  /** Marks `neighbor` visited, records `node` as its predecessor and queues it. */
  method Discover(adj: AdjacencyList, prev: array<Option<Node>>, start: Node, node: Node, neighbor: Node,
                  visited: set<Node>, queue: seq<Node>, ghost dist: map<Node, nat>, ghost done: set<Node>,
                  ghost level: nat)
    returns (visited': set<Node>, queue': seq<Node>, ghost dist': map<Node, nat>)
    requires Frontier(adj, start, visited, queue, dist, done, level, {node})
    requires PrevChain(adj, prev[..], start, dist)
    requires node in adj && neighbor in adj[node] && neighbor !in visited && neighbor < prev.Length
    modifies prev
    ensures visited' == visited + {neighbor} && queue' == queue + [neighbor]
    ensures dist' == dist[neighbor := level + 1]
    ensures prev[..] == old(prev[..])[neighbor := Some(node)]
    ensures Frontier(adj, start, visited', queue', dist', done, level, {node})
    ensures PrevChain(adj, prev[..], start, dist')
  {
    visited' := visited + {neighbor};
    prev[neighbor] := Some(node);
    queue' := queue + [neighbor];
    dist' := dist[neighbor := level + 1];
    assert prev[..] == old(prev[..])[neighbor := Some(node)];
    RecordPredecessor(adj, old(prev[..]), start, dist, node, neighbor, level);
    DiscoverKeepsFrontier(adj, start, visited, queue, dist, done, level, node, neighbor);
  }

  /** Recording `node` as the predecessor of a newly discovered neighbour extends the chain. */
  lemma RecordPredecessor(adj: AdjacencyList, prev: seq<Option<Node>>, start: Node, dist: map<Node, nat>,
                          node: Node, neighbor: Node, level: nat)
    requires PrevChain(adj, prev, start, dist) && start in dist
    requires node in dist && dist[node] == level && node in adj && neighbor in adj[node]
    requires neighbor !in dist && neighbor < |prev|
    ensures PrevChain(adj, prev[neighbor := Some(node)], start, dist[neighbor := level + 1])
  {
  }

  /** Queueing a newly discovered neighbour one level above the current node keeps the frontier. */
  lemma DiscoverKeepsFrontier(adj: AdjacencyList, start: Node, visited: set<Node>, queue: seq<Node>,
                              dist: map<Node, nat>, done: set<Node>, level: nat, node: Node, neighbor: Node)
    requires Frontier(adj, start, visited, queue, dist, done, level, {node})
    requires neighbor !in visited
    ensures Frontier(adj, start, visited + {neighbor}, queue + [neighbor], dist[neighbor := level + 1], done, level, {node})
  {
  }

  /**
    The scan of the current node's neighbours: each one not yet visited is
    discovered, and the search ends as soon as `end` is discovered, with the
    path through the predecessor table.
   */
  method ScanNeighbours(adj: AdjacencyList, prev: array<Option<Node>>, start: Node, end: Node, node: Node,
                        visited: set<Node>, queue: seq<Node>, ghost dist: map<Node, nat>, ghost done: set<Node>,
                        ghost level: nat)
    returns (visited': set<Node>, queue': seq<Node>, ghost dist': map<Node, nat>, found: Option<seq<Node>>)
    requires Frontier(adj, start, visited, queue, dist, done, level, {node})
    requires PrevChain(adj, prev[..], start, dist)
    requires forall k, n :: k in adj && n in adj[k] ==> n < prev.Length
    requires forall k :: k in adj ==> k < prev.Length
    requires end in visited ==> end == start
    requires node in adj
    modifies prev
    ensures found.Some? ==> start != end && IsPath(adj, found.value, start, end)
    ensures found.Some? ==> forall p :: IsPath(adj, p, start, end) ==> |found.value| <= |p|
    ensures found.None? ==> Frontier(adj, start, visited', queue', dist', done, level, {node})
    ensures found.None? ==> PrevChain(adj, prev[..], start, dist')
    ensures found.None? ==> end in visited' ==> end == start
    ensures found.None? ==> visited' <= visited + Below(prev.Length)
    ensures found.None? ==> forall w :: w in adj[node] ==> w in dist' && dist'[w] <= level + 1
    ensures found.None? ==> ScanEffect(node, adj[node], visited, queue, old(prev[..]), visited', queue', prev[..])
  {
    visited', queue', dist' := visited, queue, dist;
    found := None;
    var neighbors := adj[node];
    for i := 0 to |neighbors|
      invariant Frontier(adj, start, visited', queue', dist', done, level, {node})
      invariant PrevChain(adj, prev[..], start, dist')
      invariant end in visited' ==> end == start
      invariant visited' <= visited + Below(prev.Length)
      invariant forall w :: w in neighbors[..i] ==> w in dist' && dist'[w] <= level + 1
      invariant ScanEffect(node, neighbors[..i], visited, queue, old(prev[..]), visited', queue', prev[..])
    {
      var neighbor := neighbors[i];
      PrefixExtend(neighbors, i);
      if neighbor in visited' {
        DiscoveredNearby(adj, start, visited', queue', dist', done, level, node, neighbor);
        ScanSeen(node, neighbors[..i], neighbor, visited, queue, old(prev[..]), visited', queue', prev[..]);
      } else {
        ghost var distBefore := dist';
        assert neighbor in adj[node] && neighbor < prev.Length;
        ScanDiscover(node, neighbors[..i], neighbor, visited, queue, old(prev[..]), visited', queue', prev[..]);
        visited', queue', dist' := Discover(adj, prev, start, node, neighbor, visited', queue', dist', done, level);
        if neighbor == end {
          var path := ReconstructPath(adj, prev, start, end, dist');
          UndiscoveredIsFar(adj, start, end, distBefore, done, level);
          found := Some(path);
          return;
        }
      }
    }
    assert neighbors[..|neighbors|] == neighbors;
  }

  /**
    What scanning the neighbours `seen` of `node` has done so far: every one
    of them is visited, exactly the newly visited ones have `node` as their
    predecessor and were appended to the queue, in some order, and nothing
    else changed.
   */
  ghost predicate ScanEffect(node: Node, seen: seq<Node>, visited: set<Node>, queue: seq<Node>, before: seq<Option<Node>>,
                             visited': set<Node>, queue': seq<Node>, after: seq<Option<Node>>)
  {
    && visited' == visited + (set w | w in seen)
    && |after| == |before|
    && (forall v :: 0 <= v < |after| ==> after[v] == if v in visited' - visited then Some(node) else before[v])
    && |queue| <= |queue'| && queue'[..|queue|] == queue
    && (forall w :: w in queue'[|queue|..] <==> w in visited' - visited)
  }

  /** A neighbour already visited changes nothing. */
  lemma ScanSeen(node: Node, seen: seq<Node>, neighbor: Node, visited: set<Node>, queue: seq<Node>,
                 before: seq<Option<Node>>, visited': set<Node>, queue': seq<Node>, after: seq<Option<Node>>)
    requires ScanEffect(node, seen, visited, queue, before, visited', queue', after)
    requires neighbor in visited'
    ensures ScanEffect(node, seen + [neighbor], visited, queue, before, visited', queue', after)
  {
    assert (set w | w in seen + [neighbor]) == (set w | w in seen) + {neighbor};
  }

  /** A neighbour not yet visited is marked, gets `node` as predecessor and is queued. */
  lemma ScanDiscover(node: Node, seen: seq<Node>, neighbor: Node, visited: set<Node>, queue: seq<Node>,
                     before: seq<Option<Node>>, visited': set<Node>, queue': seq<Node>, after: seq<Option<Node>>)
    requires ScanEffect(node, seen, visited, queue, before, visited', queue', after)
    requires neighbor !in visited' && neighbor < |after|
    ensures ScanEffect(node, seen + [neighbor], visited, queue, before,
                       visited' + {neighbor}, queue' + [neighbor], after[neighbor := Some(node)])
  {
    assert (set w | w in seen + [neighbor]) == (set w | w in seen) + {neighbor};
    assert (queue' + [neighbor])[..|queue|] == queue'[..|queue|];
    assert (queue' + [neighbor])[|queue|..] == queue'[|queue|..] + [neighbor];
  }

  /** Finishing one more node of `universe` leaves fewer unfinished. */
  lemma FinishingShrinks(universe: set<Node>, done: set<Node>, node: Node)
    requires node in universe && node !in done
    ensures |universe - (done + {node})| < |universe - done|
  {
    assert universe - (done + {node}) == (universe - done) - {node};
  }

  /** Under a bound on the keys, the neighbours obey it too. */
  lemma NeighboursAtMost(adj: AdjacencyList, m: Node)
    requires NeighboursWithinKeys(adj)
    requires forall k :: k in adj ==> k <= m
    ensures forall k, n :: k in adj && n in adj[k] ==> n <= m
  {
    forall k, n | k in adj && n in adj[k]
      ensures n <= m
    {
      var j :| j in adj && n <= j;
    }
  }

  /**
    Breadth-first search from `start`. `start` is marked visited before the
    loop and a node is only returned when it is newly discovered as a
    neighbour, so `start == end` gives no path. The predecessor table is
    sized by the largest key: the map must not be empty and no neighbour may
    exceed the largest key.
   */
  method ShortestPathBfs(adj: AdjacencyList, start: Node, end: Node) returns (r: Option<seq<Node>>)
    requires adj != map[]
    requires NeighboursWithinKeys(adj)
    ensures r.Some? ==> IsPath(adj, r.value, start, end)
    ensures r.Some? ==> forall p :: IsPath(adj, p, start, end) ==> |r.value| <= |p|
    ensures r.None? <==> start == end || !Reachable(adj, start, end)
  {
    var maxKey := MaxKey(adj);
    var prev := new Option<Node>[maxKey + 1](_ => None);
    NeighboursAtMost(adj, maxKey);
    var visited: set<Node> := {start};
    var queue: seq<Node> := [start];
    ghost var dist: map<Node, nat> := map[start := 0];
    ghost var done: set<Node> := {};
    ghost var level: nat := 0;
    // every node the search can finish is below this bound or is `start`
    ghost var universe := Below(prev.Length) + {start};

    while queue != []
      invariant Frontier(adj, start, visited, queue, dist, done, level, {})
      invariant PrevChain(adj, prev[..], start, dist)
      invariant end in visited ==> end == start
      invariant visited <= universe
      decreases |universe - done|
    {
      TakeHead(adj, start, visited, queue, dist, done, level);
      var node := queue[0];
      queue := queue[1..];
      level := dist[node];
      if node in adj {
        var found;
        visited, queue, dist, found := ScanNeighbours(adj, prev, start, end, node, visited, queue, dist, done, level);
        if found.Some? {
          assert Reachable(adj, start, end) by {
            assert IsPath(adj, found.value, start, end);
          }
          return found;
        }
      }
      FinishCurrent(adj, start, visited, queue, dist, done, level, node);
      FinishingShrinks(universe, done, node);
      done := done + {node};
    }
    r := None;
    forall p | IsPath(adj, p, start, end)
      ensures start == end
    {
      WalkEndsDiscovered(adj, start, dist, done, |p| - 1, p, end);
    }
  }

  // ---------------------------------------------------------------------------
  // Total number of connections
  // ---------------------------------------------------------------------------

  /**
    The sum of the lengths of all neighbour sequences, that is, the number of
    directed edges, parallel edges counted once each.
   */
  ghost function CountTotalConnections(adj: AdjacencyList): (total: nat)
    ensures forall k :: k in adj ==> |adj[k]| <= total
    ensures total == 0 <==> forall k :: k in adj ==> adj[k] == []
  {
    SumLengths(adj, adj.Keys)
  }

  // ---------------------------------------------------------------------------
  // Most connected nodes
  // ---------------------------------------------------------------------------

  /** The sort key of `sort_by(|a, b| b.1.cmp(&a.1))`: larger degrees first. */
  function DescendingDegree(p: (Node, nat)): int
  {
    -(p.1 as int)
  }

  /**
    The (node, out-degree) pairs in map order, sorted by descending degree;
    the first `numNodes` (or all) are kept and their ids sorted ascending.
    Which of several nodes of equal degree survive the cut depends on the map
    order, so the contract only says that no dropped node has a larger degree
    than a kept one.
   */
  method FindNodesWithMostNeighbors(adj: AdjacencyList, numNodes: nat) returns (r: seq<Node>)
    ensures |r| == if numNodes < |adj.Keys| then numNodes else |adj.Keys|
    ensures forall i, j :: 0 <= i < j < |r| ==> r[i] < r[j]
    ensures forall x :: x in r ==> x in adj
    ensures forall x, y :: x in r && y in adj && y !in r ==> |adj[y]| <= |adj[x]|
  {
    var degrees := NeighbourCounts(adj);
    if numNodes == 0 || degrees == [] {
      return [];
    }
    var byDegree := SortBy(degrees, DescendingDegree);
    ByDegreeFacts(adj, degrees, byDegree);
    var count := if numNodes < |byDegree| then numNodes else |byDegree|;
    var top: seq<Node> := seq(count, i requires 0 <= i < count => byDegree[i].0);
    r := Sort(top);
    TopSelection(adj, byDegree, count, top, r);
  }

  /** The (node, out-degree) pairs of the map, one per node, in map order. */
  method NeighbourCounts(adj: AdjacencyList) returns (degrees: seq<(Node, nat)>)
    ensures |degrees| == |adj.Keys|
    ensures forall p :: p in degrees ==> p.0 in adj && p.1 == |adj[p.0]|
    ensures forall k :: k in adj ==> (k, |adj[k]|) in degrees
    ensures Distinct(degrees)
  {
    degrees := [];
    var rest := adj.Keys;
    while rest != {}
      invariant rest <= adj.Keys
      invariant |degrees| + |rest| == |adj.Keys|
      invariant forall p :: p in degrees ==> p.0 in adj && p.0 !in rest && p.1 == |adj[p.0]|
      invariant forall k :: k in adj && k !in rest ==> (k, |adj[k]|) in degrees
      invariant Distinct(degrees)
      decreases rest
    {
      var node :| node in rest;
      degrees := degrees + [(node, |adj[node]|)];
      rest := rest - {node};
    }
  }

  /** After the sort by degree, each node still occurs exactly once, with its own degree. */
  lemma ByDegreeFacts(adj: AdjacencyList, degrees: seq<(Node, nat)>, byDegree: seq<(Node, nat)>)
    requires |degrees| == |adj.Keys|
    requires forall p :: p in degrees ==> p.0 in adj && p.1 == |adj[p.0]|
    requires forall k :: k in adj ==> (k, |adj[k]|) in degrees
    requires Distinct(degrees)
    requires multiset(byDegree) == multiset(degrees)
    ensures |byDegree| == |adj.Keys|
    ensures forall i :: 0 <= i < |byDegree| ==> byDegree[i].0 in adj && byDegree[i].1 == |adj[byDegree[i].0]|
    ensures forall k :: k in adj ==> (k, |adj[k]|) in byDegree
    ensures forall i, j :: 0 <= i < j < |byDegree| ==> byDegree[i].0 != byDegree[j].0
  {
    assert |byDegree| == |multiset(byDegree)| == |degrees|;
    forall i | 0 <= i < |byDegree|
      ensures byDegree[i] in degrees
    {
      assert byDegree[i] in multiset(byDegree);
    }
    forall k | k in adj
      ensures (k, |adj[k]|) in byDegree
    {
      assert (k, |adj[k]|) in multiset(degrees);
    }
    DistinctPermutation(degrees, byDegree);
  }

  /**
    Keeping the first `count` nodes of the descending order and sorting
    their ids gives distinct ascending ids, and no dropped node has a larger
    degree than a kept one.
   */
  lemma TopSelection(adj: AdjacencyList, byDegree: seq<(Node, nat)>, count: nat, top: seq<Node>, r: seq<Node>)
    requires forall i :: 0 <= i < |byDegree| ==> byDegree[i].0 in adj && byDegree[i].1 == |adj[byDegree[i].0]|
    requires forall k :: k in adj ==> (k, |adj[k]|) in byDegree
    requires forall i, j :: 0 <= i < j < |byDegree| ==> byDegree[i].0 != byDegree[j].0
    requires SortedBy(byDegree, DescendingDegree)
    requires count <= |byDegree| && |top| == count
    requires forall i :: 0 <= i < count ==> top[i] == byDegree[i].0
    requires multiset(r) == multiset(top) && Ascending(r)
    ensures |r| == count
    ensures forall i, j :: 0 <= i < j < |r| ==> r[i] < r[j]
    ensures forall x :: x in r ==> x in adj
    ensures forall x, y :: x in r && y in adj && y !in r ==> |adj[y]| <= |adj[x]|
  {
    assert |r| == |multiset(r)| == |multiset(top)| == count;
    DistinctPermutation(top, r);
    forall x | x in r
      ensures exists i :: 0 <= i < count && byDegree[i].0 == x
    {
      assert x in multiset(top);
      var i :| 0 <= i < count && top[i] == x;
    }
    forall x, y | x in r && y in adj && y !in r
      ensures |adj[y]| <= |adj[x]|
    {
      var i :| 0 <= i < count && byDegree[i].0 == x;
      var j :| 0 <= j < |byDegree| && byDegree[j] == (y, |adj[y]|);
      assert y !in multiset(top);
      assert forall k :: 0 <= k < count ==> top[k] != y;
    }
  }

  // ---------------------------------------------------------------------------
  // Degree summary
  // ---------------------------------------------------------------------------

  /** The nodes of `keys` whose out-degree is `d`. */
  ghost function NodesOfDegree(adj: AdjacencyList, keys: set<Node>, d: nat): set<Node>
    requires keys <= adj.Keys
  {
    set k | k in keys && |adj[k]| == d
  }

  /** Adding one more node adds one to the count of its own degree and leaves the others alone. */
  lemma NodesOfDegreeAdd(adj: AdjacencyList, done: set<Node>, node: Node)
    requires done <= adj.Keys && node in adj && node !in done
    ensures forall d ::
      |NodesOfDegree(adj, done + {node}, d)| == |NodesOfDegree(adj, done, d)| + (if |adj[node]| == d then 1 else 0)
  {
    forall d
      ensures |NodesOfDegree(adj, done + {node}, d)| ==
        |NodesOfDegree(adj, done, d)| + (if |adj[node]| == d then 1 else 0)
    {
      if |adj[node]| == d {
        assert NodesOfDegree(adj, done + {node}, d) == NodesOfDegree(adj, done, d) + {node};
      } else {
        assert NodesOfDegree(adj, done + {node}, d) == NodesOfDegree(adj, done, d);
      }
    }
  }

  /**
    `adj_list.values().map(len).collect()` in map order, and the sum of that
    vector: one entry per node, each degree as often as there are nodes of
    that degree.
   */
  method CollectDegrees(adj: AdjacencyList) returns (degrees: seq<nat>)
    ensures |degrees| == |adj.Keys|
    ensures forall d :: multiset(degrees)[d] == |NodesOfDegree(adj, adj.Keys, d)|
    ensures Sum(degrees) == CountTotalConnections(adj)
  {
    degrees := [];
    var rest := adj.Keys;
    while rest != {}
      invariant rest <= adj.Keys
      invariant |degrees| + |rest| == |adj.Keys|
      invariant forall d :: multiset(degrees)[d] == |NodesOfDegree(adj, adj.Keys - rest, d)|
      invariant Sum(degrees) + SumLengths(adj, rest) == SumLengths(adj, adj.Keys)
      decreases rest
    {
      var node :| node in rest;
      CountStep(adj, rest, degrees, node);
      SumStep(adj, rest, degrees, node);
      degrees := degrees + [|adj[node]|];
      rest := rest - {node};
    }
    assert adj.Keys - rest == adj.Keys;
  }

  lemma CountStep(adj: AdjacencyList, rest: set<Node>, degrees: seq<nat>, node: Node)
    requires rest <= adj.Keys && node in rest
    requires forall d :: multiset(degrees)[d] == |NodesOfDegree(adj, adj.Keys - rest, d)|
    ensures forall d :: multiset(degrees + [|adj[node]|])[d] == |NodesOfDegree(adj, adj.Keys - (rest - {node}), d)|
  {
    NodesOfDegreeAdd(adj, adj.Keys - rest, node);
    assert adj.Keys - (rest - {node}) == (adj.Keys - rest) + {node};
  }

  lemma SumStep(adj: AdjacencyList, rest: set<Node>, degrees: seq<nat>, node: Node)
    requires rest <= adj.Keys && node in rest
    requires Sum(degrees) + SumLengths(adj, rest) == SumLengths(adj, adj.Keys)
    ensures Sum(degrees + [|adj[node]|]) + SumLengths(adj, rest - {node}) == SumLengths(adj, adj.Keys)
  {
    SumLengthsRemove(adj, rest, node);
    SumAppend(degrees, |adj[node]|);
  }

  /** The occurrence-count map the mode is read from: `*map.entry(d).or_insert(0) += 1` per element. */
  method CountOccurrences(s: seq<nat>) returns (counts: map<nat, nat>)
    ensures forall d :: d in counts <==> d in s
    ensures forall d :: d in counts ==> counts[d] == multiset(s)[d]
  {
    counts := map[];
    for i := 0 to |s|
      invariant forall d :: d in counts <==> d in s[..i]
      invariant forall d :: d in counts ==> counts[d] == multiset(s[..i])[d]
    {
      PrefixExtend(s, i);
      var seen := if s[i] in counts then counts[s[i]] else 0;
      counts := counts[s[i] := seen + 1];
    }
    assert s[..|s|] == s;
  }

  /**
    `max_by_key` over the count map in map order: a key whose count no other
    count exceeds (the last such in iteration order), or none for an empty map.
   */
  method MaxByCount(counts: map<nat, nat>) returns (best: Option<nat>)
    ensures best.None? <==> counts == map[]
    ensures best.Some? ==> best.value in counts && forall d :: d in counts ==> counts[d] <= counts[best.value]
  {
    best := None;
    var rest := counts.Keys;
    while rest != {}
      invariant rest <= counts.Keys
      invariant best.None? ==> rest == counts.Keys
      invariant best.Some? ==> best.value in counts
      invariant best.Some? ==> forall d :: d in counts && d !in rest ==> counts[d] <= counts[best.value]
      decreases rest
    {
      var d :| d in rest;
      if best.None? || counts[best.value] <= counts[d] {
        best := Some(d);
      }
      rest := rest - {d};
    }
    if best.None? {
      assert counts.Keys == {};
    }
  }

  /**
    The integer content of `nodes_info`: the mean is `total / count`, the
    median is `medianLow` (odd count) or the average of `medianLow` and
    `medianHigh` (even count), read from the ascending degree sequence.
   */
  datatype DegreeSummary = DegreeSummary(total: nat, count: nat, sorted: seq<nat>,
                                         medianLow: nat, medianHigh: nat, mode: nat, max: nat, min: nat)

  /**
    The degree summary. An empty map gives all zeros. Otherwise `sorted`
    holds each out-degree as many times as there are nodes of that degree,
    `max` and `min` are degrees of some nodes and bound every degree, and
    `mode` is a degree no other degree is shared by more nodes than.
   */
  method NodesInfo(adj: AdjacencyList) returns (s: DegreeSummary)
    ensures adj == map[] ==> s == DegreeSummary(0, 0, [], 0, 0, 0, 0, 0)
    ensures adj != map[] ==> s.count == |adj.Keys| == |s.sorted| && s.total == CountTotalConnections(adj)
    ensures adj != map[] ==> Ascending(s.sorted)
    ensures adj != map[] ==> forall d :: multiset(s.sorted)[d] == |NodesOfDegree(adj, adj.Keys, d)|
    ensures adj != map[] ==> s.medianLow == s.sorted[LowerMiddle(s.count)] && s.medianHigh == s.sorted[UpperMiddle(s.count)]
    ensures adj != map[] ==> NodesOfDegree(adj, adj.Keys, s.max) != {} && forall k :: k in adj ==> |adj[k]| <= s.max
    ensures adj != map[] ==> NodesOfDegree(adj, adj.Keys, s.min) != {} && forall k :: k in adj ==> s.min <= |adj[k]|
    ensures adj != map[] ==>
      && NodesOfDegree(adj, adj.Keys, s.mode) != {}
      && forall d :: |NodesOfDegree(adj, adj.Keys, d)| <= |NodesOfDegree(adj, adj.Keys, s.mode)|
  {
    var degrees := CollectDegrees(adj);
    if degrees == [] {
      assert adj == map[] by {
        assert adj.Keys == {};
      }
      return DegreeSummary(0, 0, [], 0, 0, 0, 0, 0);
    }
    s := SummarizeDegrees(degrees);
    DegreesOfNodes(adj, degrees);
  }

  /** Every node's out-degree is among the collected degrees, and every collected degree is some node's. */
  lemma DegreesOfNodes(adj: AdjacencyList, degrees: seq<nat>)
    requires forall d :: multiset(degrees)[d] == |NodesOfDegree(adj, adj.Keys, d)|
    ensures forall k :: k in adj ==> |adj[k]| in degrees
    ensures forall d :: d in degrees ==> NodesOfDegree(adj, adj.Keys, d) != {}
  {
    forall k | k in adj
      ensures |adj[k]| in degrees
    {
      assert k in NodesOfDegree(adj, adj.Keys, |adj[k]|);
      assert |adj[k]| in multiset(degrees);
    }
    forall d | d in degrees
      ensures NodesOfDegree(adj, adj.Keys, d) != {}
    {
      assert d in multiset(degrees);
    }
  }

  /**
    The non-empty case of the summary, over the degree vector: its sum and
    length, the ascending order the median is read from, the most frequent
    value, the largest and the smallest.
   */
  method SummarizeDegrees(degrees: seq<nat>) returns (s: DegreeSummary)
    requires degrees != []
    ensures s.count == |degrees| == |s.sorted| && s.total == Sum(degrees)
    ensures Ascending(s.sorted) && multiset(s.sorted) == multiset(degrees)
    ensures s.medianLow == s.sorted[LowerMiddle(s.count)] && s.medianHigh == s.sorted[UpperMiddle(s.count)]
    ensures s.max in degrees && forall d :: d in degrees ==> d <= s.max
    ensures s.min in degrees && forall d :: d in degrees ==> s.min <= d
    ensures s.mode in degrees && forall d :: multiset(degrees)[d] <= multiset(degrees)[s.mode]
  {
    var total := Sum(degrees);
    var sorted := Sort(degrees);
    assert |sorted| == |multiset(sorted)| == |degrees|;
    var low, high := MiddleValues(sorted);
    var counts := CountOccurrences(sorted);
    var best := MaxByCount(counts);
    var mode := if best.Some? then best.value else 0;
    var max := Maximum(sorted);
    var min := Minimum(sorted);
    s := DegreeSummary(total, |sorted|, sorted, low, high, mode, max, min);
    ModeIsMostFrequent(sorted, counts, best);
    forall d | d in degrees
      ensures d in sorted
    {
      assert d in multiset(sorted);
    }
    assert max in multiset(degrees) && min in multiset(degrees) && mode in multiset(degrees);
  }

  /** The position of the lower median among `n` ascending values: `n / 2 - 1` when `n` is even, `n / 2` when odd. */
  function LowerMiddle(n: nat): (i: nat)
    requires n > 0
    ensures i < n && i + UpperMiddle(n) == n - 1
  {
    (n - 1) / 2
  }

  /** The position of the upper median: `n / 2` in both cases. */
  function UpperMiddle(n: nat): (i: nat)
    requires n > 0
    ensures i < n && i - 1 <= (n - 1) / 2 <= i
  {
    n / 2
  }

  /**
    The value or values the median is taken from: the two middle elements
    of an even-length sequence, the middle one twice for an odd length.
   */
  method MiddleValues(sorted: seq<nat>) returns (low: nat, high: nat)
    requires sorted != []
    ensures low == sorted[LowerMiddle(|sorted|)] && high == sorted[UpperMiddle(|sorted|)]
    ensures |sorted| % 2 == 1 ==> low == high
  {
    var mid := |sorted| / 2;
    if |sorted| % 2 == 0 {
      low, high := sorted[mid - 1], sorted[mid];
    } else {
      low, high := sorted[mid], sorted[mid];
    }
  }

  /** The key `max_by_key` picks from the count map is a most frequent value of `s`. */
  lemma ModeIsMostFrequent(s: seq<nat>, counts: map<nat, nat>, best: Option<nat>)
    requires s != []
    requires forall d :: d in counts <==> d in s
    requires forall d :: d in counts ==> counts[d] == multiset(s)[d]
    requires best.None? <==> counts == map[]
    requires best.Some? ==> best.value in counts && forall d :: d in counts ==> counts[d] <= counts[best.value]
    ensures best.Some? && best.value in s
    ensures forall d :: multiset(s)[d] <= multiset(s)[best.value]
  {
    assert s[0] in counts;
    forall d
      ensures multiset(s)[d] <= multiset(s)[best.value]
    {
      if d in s {
        assert d in counts;
      }
    }
  }

  // ---------------------------------------------------------------------------
  // Bidirectional pairs
  // ---------------------------------------------------------------------------

  /** How often `b` occurs among the neighbours `ns` of `a`, counted only when a < b and `a` is a neighbour of `b`. */
  ghost function PairCount(adj: AdjacencyList, a: Node, ns: seq<Node>, b: Node): nat
  {
    if a < b && b in adj && a in adj[b] then multiset(ns)[b] else 0
  }

  /**
    How many times the pair (a, b) is reported: once per occurrence of `b`
    among the neighbours of `a`, when a < b and `a` is a neighbour of `b`.
   */
  ghost function PairMultiplicity(adj: AdjacencyList, a: Node, b: Node): nat
  {
    if a in adj then PairCount(adj, a, adj[a], b) else 0
  }

  /**
    Every key in map order; for each, the pairs its neighbours give.
   */
  method FindUndirectedEdges(adj: AdjacencyList) returns (pairs: seq<(Node, Node)>)
    ensures forall p :: p in pairs ==> p.0 < p.1 && p.0 in adj && p.1 in adj && p.1 in adj[p.0] && p.0 in adj[p.1]
    ensures forall a, b :: multiset(pairs)[(a, b)] == PairMultiplicity(adj, a, b)
    ensures forall a, b :: a < b && a in adj && b in adj && b in adj[a] && a in adj[b] ==> (a, b) in pairs
    ensures |pairs| <= CountTotalConnections(adj)
  {
    pairs := [];
    var rest := adj.Keys;
    while rest != {}
      invariant rest <= adj.Keys
      invariant forall p :: p in pairs ==> p.0 < p.1 && p.0 in adj && p.1 in adj && p.1 in adj[p.0] && p.0 in adj[p.1]
      invariant forall a, b :: multiset(pairs)[(a, b)] == if a in rest then 0 else PairMultiplicity(adj, a, b)
      invariant |pairs| <= SumLengths(adj, adj.Keys - rest)
      decreases rest
    {
      var road :| road in rest;
      pairs := PairsFrom(adj, road, pairs);
      SumLengthsRemove(adj, adj.Keys - (rest - {road}), road);
      assert adj.Keys - (rest - {road}) - {road} == adj.Keys - rest;
      rest := rest - {road};
    }
    assert adj.Keys - {} == adj.Keys;
    forall a, b | a < b && a in adj && b in adj && b in adj[a] && a in adj[b]
      ensures (a, b) in pairs
    {
      PairMultiplicityPositive(adj, a, b);
      assert (a, b) in multiset(pairs);
    }
  }

  /**
    The inner loop: each neighbour `connected` of `road`, in order, is
    pushed as (road, connected) when road < connected and road is among the
    neighbours of connected.
   */
  method PairsFrom(adj: AdjacencyList, road: Node, pairs: seq<(Node, Node)>) returns (pairs': seq<(Node, Node)>)
    requires road in adj
    requires forall p :: p in pairs ==> p.0 < p.1 && p.0 in adj && p.1 in adj && p.1 in adj[p.0] && p.0 in adj[p.1]
    ensures forall p :: p in pairs' ==> p.0 < p.1 && p.0 in adj && p.1 in adj && p.1 in adj[p.0] && p.0 in adj[p.1]
    ensures forall a, b :: multiset(pairs')[(a, b)] ==
                           multiset(pairs)[(a, b)] + (if a == road then PairMultiplicity(adj, road, b) else 0)
    ensures |pairs'| <= |pairs| + |adj[road]|
  {
    pairs' := pairs;
    var connections := adj[road];
    forall b: Node
      ensures PairCount(adj, road, connections[..0], b) == 0
    {
      assert connections[..0] == [];
    }
    for i := 0 to |connections|
      invariant forall p :: p in pairs' ==> p.0 < p.1 && p.0 in adj && p.1 in adj && p.1 in adj[p.0] && p.0 in adj[p.1]
      invariant forall a, b :: multiset(pairs')[(a, b)] ==
                               multiset(pairs)[(a, b)] + (if a == road then PairCount(adj, road, connections[..i], b) else 0)
      invariant |pairs'| <= |pairs| + i
    {
      var connected := connections[i];
      PrefixExtend(connections, i);
      if road < connected {
        if connected in adj {
          if road in adj[connected] {
            pairs' := pairs' + [(road, connected)];
          }
        }
      }
    }
    assert connections[..|connections|] == connections;
  }

  /** A pair is reported exactly when both directed edges are present and the first id is smaller. */
  lemma PairMultiplicityPositive(adj: AdjacencyList, a: Node, b: Node)
    ensures PairMultiplicity(adj, a, b) > 0 <==>
      a < b && a in adj && b in adj && b in adj[a] && a in adj[b]
  {
  }
}
