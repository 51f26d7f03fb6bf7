/**
  The graph builder: the set of node ids mentioned by an edge list, and the
  adjacency list built from the edge list over a given node set.
 */
module AdjacencyListConvert {
  import opened Graph

  /** One directed edge of the road network, as read from the input. */
  datatype RoadRecord = RoadRecord(source: Node, target: Node)

  ghost predicate Mentions(records: seq<RoadRecord>, n: Node)
  {
    exists i :: 0 <= i < |records| && (records[i].source == n || records[i].target == n)
  }

  /**
    The fold over the records that inserts both endpoints of each one into
    an accumulator set: exactly the ids some record mentions.
   */
  function CollectUniqueNodes(records: seq<RoadRecord>): (nodes: set<Node>)
    ensures forall n :: n in nodes <==> Mentions(records, n)
  {
    if records == [] then {}
    else
      var last := records[|records| - 1];
      MentionsExtend(records);
      CollectUniqueNodes(records[..|records| - 1]) + {last.source, last.target}
  }

  lemma MentionsExtend(records: seq<RoadRecord>)
    requires records != []
    ensures forall n :: Mentions(records, n) <==>
      Mentions(records[..|records| - 1], n) || n == records[|records| - 1].source || n == records[|records| - 1].target
  {
    var init := records[..|records| - 1];
    forall n
      ensures Mentions(records, n) <==>
        Mentions(init, n) || n == records[|records| - 1].source || n == records[|records| - 1].target
    {
      if Mentions(init, n) {
        var i :| 0 <= i < |init| && (init[i].source == n || init[i].target == n);
        assert records[i] == init[i];
      }
      if Mentions(records, n) {
        var i :| 0 <= i < |records| && (records[i].source == n || records[i].target == n);
        if i < |init| {
          assert records[i] == init[i];
        }
      }
    }
  }

  /** Both endpoints of every record are collected. */
  lemma CollectedEndpoints(records: seq<RoadRecord>)
    ensures forall i :: 0 <= i < |records| ==>
      records[i].source in CollectUniqueNodes(records) && records[i].target in CollectUniqueNodes(records)
  {
    forall i | 0 <= i < |records|
      ensures records[i].source in CollectUniqueNodes(records) && records[i].target in CollectUniqueNodes(records)
    {
      assert Mentions(records, records[i].source) && Mentions(records, records[i].target);
    }
  }

  /** The targets of the records whose source is `n`, in input order, duplicates kept. */
  function TargetsFrom(records: seq<RoadRecord>, n: Node): seq<Node>
  {
    if records == [] then []
    else
      var last := records[|records| - 1];
      TargetsFrom(records[..|records| - 1], n) + (if last.source == n then [last.target] else [])
  }

  /** The adjacency list the builder is meant to produce: one entry per node of `nodes`. */
  function AdjacencyOf(records: seq<RoadRecord>, nodes: set<Node>): AdjacencyList
  {
    map n | n in nodes :: TargetsFrom(records, n)
  }

  /**
    First loop: an empty neighbour sequence for every node, taken from the
    set in an arbitrary order. Second loop: append each record's target to
    its source's sequence, in input order (the lookup of the source must
    succeed, hence the precondition).
   */
  method CreateAdjacencyList(records: seq<RoadRecord>, nodes: set<Node>) returns (adj: AdjacencyList)
    requires forall i :: 0 <= i < |records| ==> records[i].source in nodes
    ensures adj == AdjacencyOf(records, nodes)
  {
    adj := map[];
    var rest := nodes;
    while rest != {}
      invariant rest <= nodes
      invariant adj.Keys == nodes - rest
      invariant forall n :: n in adj ==> adj[n] == []
      decreases rest
    {
      var node :| node in rest;
      adj := adj[node := []];
      rest := rest - {node};
    }
    for i := 0 to |records|
      invariant adj.Keys == nodes
      invariant forall n :: n in nodes ==> adj[n] == TargetsFrom(records[..i], n)
    {
      var record := records[i];
      assert records[..i + 1][..i] == records[..i];
      adj := adj[record.source := adj[record.source] + [record.target]];
    }
    assert records[..|records|] == records;
  }

  /** Concatenating edge lists concatenates each node's targets: order and duplicates are kept. */
  lemma {:induction false} TargetsFromConcat(a: seq<RoadRecord>, b: seq<RoadRecord>, n: Node)
    ensures TargetsFrom(a + b, n) == TargetsFrom(a, n) + TargetsFrom(b, n)
    decreases |b|
  {
    if b == [] {
      assert a + b == a;
    } else {
      var init := b[..|b| - 1];
      assert (a + b)[..|a + b| - 1] == a + init;
      TargetsFromConcat(a, init, n);
    }
  }

  /** `t` is a neighbour of `n` exactly when some record goes from `n` to `t`. */
  lemma {:induction false} TargetsFromMembers(records: seq<RoadRecord>, n: Node, t: Node)
    ensures t in TargetsFrom(records, n) <==> exists i :: 0 <= i < |records| && records[i] == RoadRecord(n, t)
    decreases |records|
  {
    if records != [] {
      var init := records[..|records| - 1];
      TargetsFromMembers(init, n, t);
      if t in TargetsFrom(init, n) {
        var i :| 0 <= i < |init| && init[i] == RoadRecord(n, t);
        assert records[i] == RoadRecord(n, t);
      }
      if exists i :: 0 <= i < |records| && records[i] == RoadRecord(n, t) {
        var i :| 0 <= i < |records| && records[i] == RoadRecord(n, t);
        if i < |init| {
          assert init[i] == RoadRecord(n, t);
        }
      }
    }
  }

  /** A node that is the source of no record has no neighbours. */
  lemma {:induction false} NoOutgoingNoNeighbours(records: seq<RoadRecord>, n: Node)
    requires forall i :: 0 <= i < |records| ==> records[i].source != n
    ensures TargetsFrom(records, n) == []
    decreases |records|
  {
    if records != [] {
      NoOutgoingNoNeighbours(records[..|records| - 1], n);
    }
  }

  /**
    With the node set the records themselves mention, the builder's
    precondition holds and every neighbour is a key.
   */
  lemma BuiltGraphClosed(records: seq<RoadRecord>)
    ensures forall i :: 0 <= i < |records| ==> records[i].source in CollectUniqueNodes(records)
    ensures Closed(AdjacencyOf(records, CollectUniqueNodes(records)))
    ensures records != [] ==> AdjacencyOf(records, CollectUniqueNodes(records)) != map[]
  {
    var nodes := CollectUniqueNodes(records);
    var adj := AdjacencyOf(records, nodes);
    CollectedEndpoints(records);
    forall k, t | k in adj && t in adj[k]
      ensures t in adj
    {
      TargetsFromMembers(records, k, t);
      var i :| 0 <= i < |records| && records[i] == RoadRecord(k, t);
      assert records[i].target == t;
    }
    if records != [] {
      assert records[0].source in adj;
    }
  }

  /** Each record contributes exactly one neighbour entry: the out-degrees sum to the record count. */
  lemma {:induction false} BuiltGraphEdgeCount(records: seq<RoadRecord>, nodes: set<Node>)
    requires forall i :: 0 <= i < |records| ==> records[i].source in nodes
    ensures SumLengths(AdjacencyOf(records, nodes), nodes) == |records|
    decreases |records|
  {
    var adj := AdjacencyOf(records, nodes);
    if records == [] {
      assert forall n :: n in nodes ==> adj[n] == [];
    } else {
      var init := records[..|records| - 1];
      var last := records[|records| - 1];
      var before := AdjacencyOf(init, nodes);
      BuiltGraphEdgeCount(init, nodes);
      SumLengthsRemove(before, nodes, last.source);
      SumLengthsRemove(adj, nodes, last.source);
      SumLengthsAgree(before, adj, nodes - {last.source});
    }
  }
}
