/**
  The four-node graph the program's own tests use, and what each algorithm
  returns on it: 1 -> 2, 3; 2 -> 3; 3 -> 1, 4; 4 has no neighbours.
 */
module Scenarios {
  import opened Graph
  import opened Sequences
  import opened AdjacencyListConvert
  import opened Algorithms

  function TestGraph(): AdjacencyList
  {
    map[1 := [2, 3], 2 := [3], 3 := [1, 4], 4 := []]
  }

  /** The edge list whose builder output is the test graph. */
  function TestRecords(): seq<RoadRecord>
  {
    [RoadRecord(1, 2), RoadRecord(1, 3), RoadRecord(2, 3), RoadRecord(3, 1), RoadRecord(3, 4)]
  }

  /** Building the test edge list over the ids it mentions gives the test graph. */
  lemma BuildTestGraph()
    ensures CollectUniqueNodes(TestRecords()) == {1, 2, 3, 4}
    ensures AdjacencyOf(TestRecords(), CollectUniqueNodes(TestRecords())) == TestGraph()
  {
    var records := TestRecords();
    var nodes := CollectUniqueNodes(records);
    forall n
      ensures n in nodes <==> n in {1, 2, 3, 4}
    {
      if Mentions(records, n) {
        var i :| 0 <= i < |records| && (records[i].source == n || records[i].target == n);
      }
      if n in {1, 2, 3, 4} {
        assert records[0].source == 1 && records[0].target == 2 && records[1].target == 3 && records[4].target == 4;
      }
    }
    forall n | n in nodes
      ensures TargetsFrom(records, n) == TestGraph()[n]
    {
      TestTargets(n);
    }
  }

  /** Each node's targets in the test edge list, unfolded one record at a time. */
  lemma TestTargets(n: Node)
    ensures TargetsFrom(TestRecords(), n) ==
      if n == 1 then [2, 3] else if n == 2 then [3] else if n == 3 then [1, 4] else []
  {
    var r5 := TestRecords();
    var r4 := [RoadRecord(1, 2), RoadRecord(1, 3), RoadRecord(2, 3), RoadRecord(3, 1)];
    var r3 := [RoadRecord(1, 2), RoadRecord(1, 3), RoadRecord(2, 3)];
    var r2 := [RoadRecord(1, 2), RoadRecord(1, 3)];
    var r1 := [RoadRecord(1, 2)];
    assert r5[..4] == r4 && r4[..3] == r3 && r3[..2] == r2 && r2[..1] == r1 && r1[..0] == [];
    assert TargetsFrom(r1, n) == if n == 1 then [2] else [];
    assert TargetsFrom(r2, n) == if n == 1 then [2, 3] else [];
    assert TargetsFrom(r3, n) == if n == 1 then [2, 3] else if n == 2 then [3] else [];
    assert TargetsFrom(r4, n) == if n == 1 then [2, 3] else if n == 2 then [3] else if n == 3 then [1] else [];
  }

  /** The shortest walk from 1 to 4 is 1, 3, 4. */
  method ShortestPathScenario() returns (path: Option<seq<Node>>)
    ensures path == Some([1, 3, 4])
  {
    var g := TestGraph();
    ClosedNeighboursWithinKeys(g);
    assert IsPath(g, [1, 3, 4], 1, 4);
    path := ShortestPathBfs(g, 1, 4);
    var p := path.value;
    assert 2 <= |p| <= 3;
    assert p[1] in g[1];
    assert |p| == 3;
    assert p[2] == 4 && p[2] in g[p[1]];
    assert p[1] == 3;
    assert p == [1, 3, 4];
  }

  /** The two nodes with most neighbours are 1 and 3 (two each), in ascending order. */
  method MostNeighboursScenario() returns (top: seq<Node>)
    ensures top == [1, 3]
  {
    var g := TestGraph();
    top := FindNodesWithMostNeighbors(g, 2);
    assert g.Keys == {1, 2, 3, 4};
    assert |top| == 2 && top[0] < top[1] && top[0] in g && top[1] in g;
    var d0, d1 := |g[top[0]]|, |g[top[1]]|;
    assert 1 in top || (d0 >= 2 && d1 >= 2);
    assert 3 in top || (d0 >= 2 && d1 >= 2);
  }

  /** The out-degrees of the test graph sum to 5, one per record of the test edge list. */
  lemma TestGraphConnections()
    ensures CountTotalConnections(TestGraph()) == 5
  {
    var records := TestRecords();
    var nodes := CollectUniqueNodes(records);
    BuildTestGraph();
    CollectedEndpoints(records);
    BuiltGraphEdgeCount(records, nodes);
    assert SumLengths(AdjacencyOf(records, nodes), nodes) == 5;
    assert AdjacencyOf(records, nodes) == TestGraph() && TestGraph().Keys == nodes;
  }

  /**
    Degrees 0, 1, 2, 2: total 5 over 4 nodes (mean 1.25), middle values 1
    and 2 (median 1.5), mode 2, maximum 2, minimum 0.
   */
  method NodesInfoScenario() returns (s: DegreeSummary)
    ensures s.total == 5 && s.count == 4
    ensures s.sorted == [0, 1, 2, 2]
    ensures s.medianLow == 1 && s.medianHigh == 2
    ensures s.mode == 2 && s.max == 2 && s.min == 0
  {
    var g := TestGraph();
    TestGraphConnections();
    s := NodesInfo(g);
    TestGraphSorted(s.sorted);
    TestGraphMode(s.mode);
  }

  /** The ascending sequence holding each degree once per node of that degree is 0, 1, 2, 2. */
  lemma TestGraphSorted(sorted: seq<nat>)
    requires Ascending(sorted)
    requires forall d :: multiset(sorted)[d] == |NodesOfDegree(TestGraph(), TestGraph().Keys, d)|
    ensures sorted == [0, 1, 2, 2]
  {
    TestGraphDegrees();
    assert multiset(sorted) == multiset([0, 1, 2, 2]) by {
      forall d
        ensures multiset(sorted)[d] == multiset([0, 1, 2, 2])[d]
      {
        assert multiset(sorted)[d] == |NodesOfDegree(TestGraph(), TestGraph().Keys, d)|;
      }
    }
    SortedUnique(sorted, [0, 1, 2, 2]);
  }

  /** Degree 2 is the only one shared by two nodes. */
  lemma TestGraphMode(mode: nat)
    requires forall d :: |NodesOfDegree(TestGraph(), TestGraph().Keys, d)| <= |NodesOfDegree(TestGraph(), TestGraph().Keys, mode)|
    ensures mode == 2
  {
    TestGraphDegrees();
    assert |NodesOfDegree(TestGraph(), TestGraph().Keys, 2)| == 2;
  }

  /** Which nodes of the test graph have which out-degree. */
  lemma TestGraphDegrees()
    ensures NodesOfDegree(TestGraph(), TestGraph().Keys, 0) == {4}
    ensures NodesOfDegree(TestGraph(), TestGraph().Keys, 1) == {2}
    ensures NodesOfDegree(TestGraph(), TestGraph().Keys, 2) == {1, 3}
    ensures forall d :: d > 2 ==> NodesOfDegree(TestGraph(), TestGraph().Keys, d) == {}
  {
    var g := TestGraph();
    assert g.Keys == {1, 2, 3, 4};
    assert |g[1]| == 2 && |g[2]| == 1 && |g[3]| == 2 && |g[4]| == 0;
  }

  /**
    The only pair with edges both ways is (1, 3): one pair against five
    connections, the 40% the program reports.
   */
  method UndirectedEdgesScenario() returns (pairs: seq<(Node, Node)>)
    ensures pairs == [(1, 3)]
    ensures 2 * |pairs| * 10 == 4 * CountTotalConnections(TestGraph())
  {
    var g := TestGraph();
    TestGraphConnections();
    pairs := FindUndirectedEdges(g);
    assert multiset(pairs) == multiset{(1, 3)} by {
      forall p: (Node, Node)
        ensures multiset(pairs)[p] == multiset{(1, 3)}[p]
      {
        TestGraphPairs(p.0, p.1);
        assert multiset(pairs)[(p.0, p.1)] == PairMultiplicity(g, p.0, p.1);
      }
    }
    assert |pairs| == 1 by {
      assert |multiset(pairs)| == 1;
    }
    assert pairs[0] in multiset(pairs);
  }

  /** The pair multiplicities of the test graph: one for (1, 3), none otherwise. */
  lemma TestGraphPairs(a: Node, b: Node)
    ensures PairMultiplicity(TestGraph(), a, b) == if (a, b) == (1, 3) then 1 else 0
  {
    var g := TestGraph();
    if a < b && b in g && a in g[b] {
      assert g.Keys == {1, 2, 3, 4};
      assert a == 1 && b == 3;
      assert multiset(g[1])[3] == 1;
    }
  }
}
