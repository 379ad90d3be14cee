/** Worked examples of the pipeline on small graphs. */
module Scenarios {
  import opened Wrappers
  import opened Sequences
  import opened Graphs
  import opened Combinatorics
  import opened CommonNeighbors
  import opened Candidates
  import opened Ranking

  function FourNodes(): seq<Node> {
    [0, 1, 2, 3]
  }

  lemma RowsOfFour()
    ensures Row(0, 4) == [(0, 1), (0, 2), (0, 3)]
    ensures Row(1, 4) == [(1, 2), (1, 3)]
    ensures Row(2, 4) == [(2, 3)]
  {
  }

  lemma LastPairsOfFour()
    ensures IndexPairsFrom(2, 4) == [(2, 3)]
  {
    RowsOfFour();
    assert IndexPairsFrom(3, 4) == [];
  }

  lemma LaterPairsOfFour()
    ensures IndexPairsFrom(1, 4) == [(1, 2), (1, 3), (2, 3)]
  {
    RowsOfFour();
    LastPairsOfFour();
  }

  lemma PositionPairsOfFour()
    ensures IndexPairs(4) == [(0, 1), (0, 2), (0, 3), (1, 2), (1, 3), (2, 3)]
  {
    RowsOfFour();
    LaterPairsOfFour();
  }

  /** The 2-combinations of four nodes named by their positions. */
  lemma FourCombinations()
    ensures Combinations(FourNodes()) == [(0, 1), (0, 2), (0, 3), (1, 2), (1, 3), (2, 3)]
  {
    PositionPairsOfFour();
  }

  /** The edge list of the triangle 0-1-2 with the pendant edge 2-3. */
  predicate IsTriangleList(edges: seq<Pair>) {
    |edges| == 4 && edges[0] == (0, 1) && edges[1] == (1, 2) && edges[2] == (0, 2) && edges[3] == (2, 3)
  }

  /** The triangle's edges, each in the direction it is listed. */
  function TriangleListed(): set<Pair> {
    {(0, 1), (1, 2), (0, 2), (2, 3)}
  }

  /** The graph `from_edgelist` builds from the triangle list. */
  ghost predicate IsTriangleGraph(g: Graph) {
    && Valid(g)
    && g.nodes == FourNodes()
    && forall u: Node, v: Node :: HasEdge(g, u, v) <==> (u, v) in TriangleListed() || (v, u) in TriangleListed()
  }

  /** The endpoints of the triangle list, in reading order. */
  lemma TriangleEndpoints(edges: seq<Pair>)
    requires IsTriangleList(edges)
    ensures Endpoints(edges) == [0, 1, 1, 2, 0, 2, 2, 3]
  {
    assert edges[..3][..2][..1][..0] == [];
    assert edges[..3][..2][..1] == edges[..1];
    assert edges[..3][..2] == edges[..2];
    assert Endpoints(edges[..1]) == [0, 1];
    assert Endpoints(edges[..2]) == [0, 1, 1, 2];
    assert Endpoints(edges[..3]) == [0, 1, 1, 2, 0, 2];
  }

  /** In the triangle list's endpoints, a smaller node is first read earlier. */
  lemma TriangleFirstReads(ep: seq<Node>)
    requires ep == [0, 1, 1, 2, 0, 2, 2, 3]
    ensures forall x :: x in ep <==> x in {0, 1, 2, 3}
    ensures forall x, y :: x in ep && y in ep && IndexOf(ep, x) < IndexOf(ep, y) ==> x < y
  {
    assert ep[0] == 0 && ep[1] == 1 && ep[3] == 2 && ep[7] == 3;
    assert IndexOf(ep, 0) == 0;
    assert IndexOf(ep, 1) == 1;
    var k2 := IndexOf(ep, 2);
    assert k2 <= 3 && ep[0] != 2 && ep[1] != 2 && ep[2] != 2;
    assert k2 == 3;
    var k3 := IndexOf(ep, 3);
    assert k3 <= 7 && forall j :: 0 <= j < 7 ==> ep[j] != 3;
    assert k3 == 7;
  }

  /** Four distinct nodes below 4 in increasing order are 0, 1, 2, 3. */
  lemma IncreasingFour(s: seq<Node>)
    requires |s| == 4
    requires forall x :: x in s ==> x < 4
    requires forall a, b :: 0 <= a < b < |s| ==> s[a] < s[b]
    ensures s == FourNodes()
  {
    assert s[0] < s[1] < s[2] < s[3];
    assert s[3] in s;
  }

  /** The only duplicate-free node order of the triangle list's endpoints
      that follows their first reads. */
  lemma TriangleOrder(n: seq<Node>, ep: seq<Node>)
    requires ep == [0, 1, 1, 2, 0, 2, 2, 3]
    requires Distinct(n) && FirstSeenOrder(n, ep)
    ensures n == FourNodes()
  {
    TriangleFirstReads(ep);
    assert Elements(n) == {0, 1, 2, 3};
    DistinctCardinality(n);
    forall a, b | 0 <= a < b < |n| ensures n[a] < n[b] {
      assert n[a] in ep && n[b] in ep;
    }
    IncreasingFour(n);
  }

  /** The nodes are 0, 1, 2, 3, in the order they are first read. */
  lemma TriangleNodes(edges: seq<Pair>)
    requires IsTriangleList(edges)
    ensures FromEdgeList(edges).nodes == FourNodes()
  {
    TriangleEndpoints(edges);
    FromEdgeListNodes(edges);
    TriangleOrder(FromEdgeList(edges).nodes, Endpoints(edges));
  }

  /** The listed pairs, in the directions they are listed. */
  lemma TriangleListElements(edges: seq<Pair>)
    requires IsTriangleList(edges)
    ensures forall p :: p in edges <==> p in TriangleListed()
  {
    assert edges == [(0, 1), (1, 2), (0, 2), (2, 3)];
  }

  /** `to_networkx` on the triangle list. */
  lemma TriangleGraph(edges: seq<Pair>)
    requires IsTriangleList(edges)
    ensures IsTriangleGraph(FromEdgeList(edges))
  {
    TriangleNodes(edges);
    FromEdgeListEdges(edges);
    TriangleListElements(edges);
  }

  /** Filtering the six pairs of four nodes against the triangle's edges. */
  lemma TriangleNonEdges(g: Graph, cs: seq<Pair>)
    requires cs == [(0, 1), (0, 2), (0, 3), (1, 2), (1, 3), (2, 3)]
    requires HasEdge(g, 0, 1) && HasEdge(g, 0, 2) && HasEdge(g, 1, 2) && HasEdge(g, 2, 3)
    requires !HasEdge(g, 0, 3) && !HasEdge(g, 1, 3)
    ensures NonEdges(g, cs) == [(0, 3), (1, 3)]
  {
    assert NonEdges(g, cs[5..]) == [];
    assert NonEdges(g, cs[4..]) == [(1, 3)];
    assert NonEdges(g, cs[3..]) == [(1, 3)];
    assert NonEdges(g, cs[2..]) == [(0, 3), (1, 3)];
    assert NonEdges(g, cs[1..]) == [(0, 3), (1, 3)];
  }

  /** Of the six pairs of the four nodes, only (0, 3) and (1, 3) are not edges. */
  lemma TriangleCandidates(g: Graph)
    requires IsTriangleGraph(g)
    ensures CandidatePairs(g) == [(0, 3), (1, 3)]
  {
    FourCombinations();
    assert HasEdge(g, 0, 1) && HasEdge(g, 0, 2) && HasEdge(g, 1, 2) && HasEdge(g, 2, 3);
    assert !HasEdge(g, 0, 3) && !HasEdge(g, 1, 3);
    TriangleNonEdges(g, Combinations(g.nodes));
  }

  /** Both candidates have the single common neighbour 2. */
  lemma TriangleCommon(g: Graph)
    requires IsTriangleGraph(g)
    ensures |Common(g, 0, 3)| == 1 && |Common(g, 1, 3)| == 1
  {
    assert Common(g, 0, 3) == {2} by {
      assert HasEdge(g, 0, 2) && HasEdge(g, 3, 2);
    }
    assert Common(g, 1, 3) == {2} by {
      assert HasEdge(g, 1, 2) && HasEdge(g, 3, 2);
    }
  }

  /** With two candidates, the predictions are the two candidates with their counts. */
  lemma TwoPredictions(g: Graph, c0: Pair, c1: Pair)
    requires Valid(g) && CandidatePairs(g) == [c0, c1]
    ensures ScoreCandidates(g).value ==
      [Prediction(c0.0, c0.1, |Common(g, c0.0, c0.1)|), Prediction(c1.0, c1.1, |Common(g, c1.0, c1.1)|)]
  {
    var r := ScoreCandidates(g).value;
    assert |r| == 2;
    assert r[0] == Prediction(c0.0, c0.1, |Common(g, c0.0, c0.1)|);
    assert r[1] == Prediction(c1.0, c1.1, |Common(g, c1.0, c1.1)|);
  }

  /** With three candidates, the predictions are the three candidates with their counts. */
  lemma ThreePredictions(g: Graph, c0: Pair, c1: Pair, c2: Pair)
    requires Valid(g) && CandidatePairs(g) == [c0, c1, c2]
    ensures var r := ScoreCandidates(g).value;
      && |r| == 3
      && r[0] == Prediction(c0.0, c0.1, |Common(g, c0.0, c0.1)|)
      && r[1] == Prediction(c1.0, c1.1, |Common(g, c1.0, c1.1)|)
      && r[2] == Prediction(c2.0, c2.1, |Common(g, c2.0, c2.1)|)
  {
  }

  lemma TriangleScores(g: Graph)
    requires IsTriangleGraph(g)
    ensures ScoreCandidates(g).value == [Prediction(0, 3, 1), Prediction(1, 3, 1)]
  {
    TriangleCandidates(g);
    TriangleCommon(g);
    TwoPredictions(g, (0, 3), (1, 3));
  }

  /** Two predictions tied at score 1 are already sorted, and the first one is the top one. */
  lemma TiedPairTopOne(preds: seq<Prediction>)
    requires preds == [Prediction(0, 3, 1), Prediction(1, 3, 1)]
    ensures SortedDesc(preds) && SameTies(preds, preds)
    ensures TopK(preds, 1) == [Prediction(0, 3, 1)]
  {
  }

  /** Both candidates score 1, and with `top_k = 1` the ranking keeps the first
      of the two, (0, 3, 1). */
  lemma TriangleTopOne(edges: seq<Pair>)
    requires IsTriangleList(edges)
    ensures Rank(edges, 1) == Success([Prediction(0, 3, 1)])
  {
    var g := FromEdgeList(edges);
    TriangleGraph(edges);
    TriangleScores(g);
    var preds := ScoreCandidates(g).value;
    TiedPairTopOne(preds);
    RankIsTopOfStableSort(edges, 1, preds);
  }

  /** No edges, no nodes, no candidates: the ranking is empty. */
  lemma EmptyEdgeList(topK: int)
    ensures CandidatePairs(FromEdgeList([])) == []
    ensures Rank([], topK) == Success([])
  {
    assert Combinations(FromEdgeList([]).nodes) == [];
  }

  /** Three nodes and no edges (a graph `from_edgelist` cannot produce, since
      it takes its nodes from the edges). */
  ghost predicate IsThreeIsolated(g: Graph) {
    Valid(g) && g.nodes == [0, 1, 2] && forall u: Node, v: Node :: !HasEdge(g, u, v)
  }

  lemma ThreePositionPairs()
    ensures IndexPairs(3) == [(0, 1), (0, 2), (1, 2)]
  {
    assert Row(0, 3) == [(0, 1), (0, 2)];
    assert Row(1, 3) == [(1, 2)];
    assert IndexPairsFrom(2, 3) == [];
    assert IndexPairsFrom(1, 3) == [(1, 2)];
  }

  lemma ThreeNonEdges(g: Graph, cs: seq<Pair>)
    requires cs == [(0, 1), (0, 2), (1, 2)]
    requires !HasEdge(g, 0, 1) && !HasEdge(g, 0, 2) && !HasEdge(g, 1, 2)
    ensures NonEdges(g, cs) == cs
  {
    assert NonEdges(g, cs[2..]) == [(1, 2)];
    assert NonEdges(g, cs[1..]) == [(0, 2), (1, 2)];
  }

  lemma ThreeIsolatedCommon(g: Graph)
    requires IsThreeIsolated(g)
    ensures Common(g, 0, 1) == {} && Common(g, 0, 2) == {} && Common(g, 1, 2) == {}
  {
  }

  lemma ThreeCombinations(s: seq<Node>)
    requires s == [0, 1, 2]
    ensures Combinations(s) == [(0, 1), (0, 2), (1, 2)]
  {
    ThreePositionPairs();
  }

  /** Every one of the three pairs is a candidate ... */
  lemma ThreeIsolatedCandidates(g: Graph)
    requires IsThreeIsolated(g)
    ensures CandidatePairs(g) == [(0, 1), (0, 2), (1, 2)]
  {
    ThreeCombinations(g.nodes);
    ThreeNonEdges(g, Combinations(g.nodes));
  }

  /** ... and each scores 0. */
  lemma ThreeIsolatedScores(g: Graph)
    requires IsThreeIsolated(g)
    ensures ScoreCandidates(g).value == [Prediction(0, 1, 0), Prediction(0, 2, 0), Prediction(1, 2, 0)]
  {
    ThreeIsolatedCandidates(g);
    ThreeIsolatedCommon(g);
    ThreePredictions(g, (0, 1), (0, 2), (1, 2));
    ZeroScores(ScoreCandidates(g).value, Common(g, 0, 1), Common(g, 0, 2), Common(g, 1, 2));
  }

  lemma ZeroScores(r: seq<Prediction>, s0: set<Node>, s1: set<Node>, s2: set<Node>)
    requires s0 == {} && s1 == {} && s2 == {}
    requires |r| == 3 && r[0] == Prediction(0, 1, |s0|) && r[1] == Prediction(0, 2, |s1|) && r[2] == Prediction(1, 2, |s2|)
    ensures r == [Prediction(0, 1, 0), Prediction(0, 2, 0), Prediction(1, 2, 0)]
  {
  }

  /** Such a graph exists. */
  lemma ThreeIsolatedExists()
    ensures IsThreeIsolated(Graph([0, 1, 2], map[0 := {}, 1 := {}, 2 := {}], map[]))
  {
  }
}
