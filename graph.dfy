/**
  The vocabulary shared by the graph builder and the statistics: node ids,
  the adjacency list, paths along its edges, and the sum of out-degrees.
 */
module Graph {

  datatype Option<T> = None | Some(value: T)

  /** A node id (a `usize` in the program; unbounded here). */
  type Node = nat

  /**
    Each node maps to its out-neighbours, in the order the edges were read,
    parallel edges kept as repeated entries.
   */
  type AdjacencyList = map<Node, seq<Node>>

  /** `p` walks from `s` to `e` along edges of `adj` (zero or more edges). */
  predicate IsPath(adj: AdjacencyList, p: seq<Node>, s: Node, e: Node)
  {
    && |p| >= 1
    && p[0] == s
    && p[|p| - 1] == e
    && forall i :: 0 <= i < |p| - 1 ==> p[i] in adj && p[i + 1] in adj[p[i]]
  }

  ghost predicate Reachable(adj: AdjacencyList, s: Node, e: Node)
  {
    exists p :: IsPath(adj, p, s, e)
  }

  /** Every neighbour is itself a key. */
  predicate Closed(adj: AdjacencyList)
  {
    forall k, n :: k in adj && n in adj[k] ==> n in adj
  }

  /** Every neighbour id is at most some key, that is, at most the largest key. */
  ghost predicate NeighboursWithinKeys(adj: AdjacencyList)
  {
    forall k, n :: k in adj && n in adj[k] ==> exists j :: j in adj && n <= j
  }

  lemma ClosedNeighboursWithinKeys(adj: AdjacencyList)
    requires Closed(adj)
    ensures NeighboursWithinKeys(adj)
  {
    forall k, n | k in adj && n in adj[k]
      ensures exists j :: j in adj && n <= j
    {
      assert n in adj && n <= n;
    }
  }

  ghost function PickKey(keys: set<Node>): (k: Node)
    requires keys != {}
    ensures k in keys
  {
    var k :| k in keys; k
  }

  /** The sum of the out-degrees of the nodes in `keys`. */
  ghost function SumLengths(adj: AdjacencyList, keys: set<Node>): (total: nat)
    requires keys <= adj.Keys
    ensures forall k :: k in keys ==> |adj[k]| <= total
    ensures total == 0 <==> forall k :: k in keys ==> adj[k] == []
    decreases keys
  {
    if keys == {} then 0
    else
      var k := PickKey(keys);
      |adj[k]| + SumLengths(adj, keys - {k})
  }

  /** The sum does not depend on the order in which the keys are taken. */
  lemma {:induction false} SumLengthsRemove(adj: AdjacencyList, keys: set<Node>, x: Node)
    requires keys <= adj.Keys && x in keys
    ensures SumLengths(adj, keys) == |adj[x]| + SumLengths(adj, keys - {x})
    decreases keys
  {
    var k := PickKey(keys);
    if k != x {
      SumLengthsRemove(adj, keys - {k}, x);
      SumLengthsRemove(adj, keys - {x}, k);
      assert keys - {k} - {x} == keys - {x} - {k};
    }
  }

  /** Two adjacency lists whose out-degrees agree on `keys` have the same sum over `keys`. */
  lemma {:induction false} SumLengthsAgree(adj: AdjacencyList, adj': AdjacencyList, keys: set<Node>)
    requires keys <= adj.Keys && keys <= adj'.Keys
    requires forall k :: k in keys ==> |adj[k]| == |adj'[k]|
    ensures SumLengths(adj, keys) == SumLengths(adj', keys)
    decreases keys
  {
    if keys != {} {
      SumLengthsAgree(adj, adj', keys - {PickKey(keys)});
    }
  }
}
