/** `get_candidate_pairs(G)`: the 2-combinations of the graph's nodes, in node
    order, that are not edges of the graph. */
module Candidates {
  import opened Sequences
  import opened Graphs
  import opened Combinatorics

  /** How many pairs of `cs` are edges of `g`. */
  function EdgeCount(g: Graph, cs: seq<Pair>): nat {
    if |cs| == 0 then 0
    else (if HasEdge(g, cs[0].0, cs[0].1) then 1 else 0) + EdgeCount(g, cs[1..])
  }

  /** The pairs of `cs` that are not edges of `g`, in their order in `cs`
      (the comprehension's `if not G.has_edge(i, j)` filter). */
  function NonEdges(g: Graph, cs: seq<Pair>): (r: seq<Pair>)
    ensures forall c :: c in r <==> c in cs && !HasEdge(g, c.0, c.1)
    ensures |r| + EdgeCount(g, cs) == |cs|
  {
    if |cs| == 0 then []
    else
      var head := if HasEdge(g, cs[0].0, cs[0].1) then [] else [cs[0]];
      var r := head + NonEdges(g, cs[1..]);
      assert cs == [cs[0]] + cs[1..];
      r
  }

  /** `get_candidate_pairs(G)`. */
  function CandidatePairs(g: Graph): (r: seq<Pair>)
    ensures forall c :: c in r <==> c in Combinations(g.nodes) && !HasEdge(g, c.0, c.1)
    ensures |r| + EdgeCount(g, Combinations(g.nodes)) == |Combinations(g.nodes)|
  {
    NonEdges(g, Combinations(g.nodes))
  }

  lemma TailOrdered(s: seq<Node>, cs: seq<Pair>)
    requires PositionOrdered(s, cs) && |cs| > 0
    ensures PositionOrdered(s, cs[1..])
    ensures forall c :: c in cs[1..] ==> c.0 in s && c.1 in s && LexLess(Positions(s, cs[0]), Positions(s, c))
  {
    var tail := cs[1..];
    forall k, l | 0 <= k < l < |tail| ensures LexLess(Positions(s, tail[k]), Positions(s, tail[l])) {
      assert tail[k] == cs[k + 1] && tail[l] == cs[l + 1];
    }
    forall c | c in tail ensures c.0 in s && c.1 in s && LexLess(Positions(s, cs[0]), Positions(s, c)) {
      var j :| 0 <= j < |tail| && tail[j] == c;
      assert tail[j] == cs[j + 1];
    }
  }

  lemma ConsOrdered(s: seq<Node>, c: Pair, rest: seq<Pair>)
    requires PositionOrdered(s, rest)
    requires c.0 in s && c.1 in s && IndexOf(s, c.0) < IndexOf(s, c.1)
    requires forall l :: 0 <= l < |rest| ==> LexLess(Positions(s, c), Positions(s, rest[l]))
    ensures PositionOrdered(s, [c] + rest)
  {
    ConsMembers(s, c, rest);
    ConsPairwise(s, c, rest);
  }

  lemma ConsMembers(s: seq<Node>, c: Pair, rest: seq<Pair>)
    requires forall k :: 0 <= k < |rest| ==> rest[k].0 in s && rest[k].1 in s && IndexOf(s, rest[k].0) < IndexOf(s, rest[k].1)
    requires c.0 in s && c.1 in s && IndexOf(s, c.0) < IndexOf(s, c.1)
    ensures forall k :: 0 <= k < |[c] + rest| ==>
      ([c] + rest)[k].0 in s && ([c] + rest)[k].1 in s && IndexOf(s, ([c] + rest)[k].0) < IndexOf(s, ([c] + rest)[k].1)
  {
    var r := [c] + rest;
    forall k | 0 <= k < |r| ensures r[k].0 in s && r[k].1 in s && IndexOf(s, r[k].0) < IndexOf(s, r[k].1) {
      if k > 0 {
        assert r[k] == rest[k - 1];
      }
    }
  }

  lemma ConsPairwise(s: seq<Node>, c: Pair, rest: seq<Pair>)
    requires forall k :: 0 <= k < |rest| ==> rest[k].0 in s && rest[k].1 in s
    requires c.0 in s && c.1 in s
    requires forall k, l :: 0 <= k < l < |rest| ==> LexLess(Positions(s, rest[k]), Positions(s, rest[l]))
    requires forall l :: 0 <= l < |rest| ==> LexLess(Positions(s, c), Positions(s, rest[l]))
    ensures forall k :: 0 <= k < |[c] + rest| ==> ([c] + rest)[k].0 in s && ([c] + rest)[k].1 in s
    ensures forall k, l :: 0 <= k < l < |[c] + rest| ==> LexLess(Positions(s, ([c] + rest)[k]), Positions(s, ([c] + rest)[l]))
  {
    var r := [c] + rest;
    forall k | 0 <= k < |r| ensures r[k].0 in s && r[k].1 in s {
      if k > 0 {
        assert r[k] == rest[k - 1];
      }
    }
    forall k, l | 0 <= k < l < |r| ensures LexLess(Positions(s, r[k]), Positions(s, r[l])) {
      assert r[l] == rest[l - 1];
      if k > 0 {
        assert r[k] == rest[k - 1];
      }
    }
  }

  /** Restates "every member of `rest` comes after `c`" position by position. */
  lemma MembersAfter(s: seq<Node>, c: Pair, rest: seq<Pair>)
    requires c.0 in s && c.1 in s
    requires forall x :: x in rest ==> x.0 in s && x.1 in s && LexLess(Positions(s, c), Positions(s, x))
    ensures forall l :: 0 <= l < |rest| ==> rest[l].0 in s && rest[l].1 in s && LexLess(Positions(s, c), Positions(s, rest[l]))
  {
    forall l | 0 <= l < |rest| ensures rest[l].0 in s && rest[l].1 in s && LexLess(Positions(s, c), Positions(s, rest[l])) {
      assert rest[l] in rest;
    }
  }

  /** Filtering keeps the pairs in the order of their positions. */
  lemma {:induction false} NonEdgesKeepsOrder(g: Graph, s: seq<Node>, cs: seq<Pair>)
    requires PositionOrdered(s, cs)
    ensures PositionOrdered(s, NonEdges(g, cs))
  {
    if |cs| > 0 {
      TailOrdered(s, cs);
      NonEdgesKeepsOrder(g, s, cs[1..]);
      if !HasEdge(g, cs[0].0, cs[0].1) {
        MembersAfter(s, cs[0], NonEdges(g, cs[1..]));
        ConsOrdered(s, cs[0], NonEdges(g, cs[1..]));
      }
    }
  }

  /** Position-ordered pairs never pair a node with itself, and no two of them
      join the same two nodes, in either order. */
  lemma OrderedPairsDistinct(s: seq<Node>, cs: seq<Pair>)
    requires PositionOrdered(s, cs)
    ensures forall k :: 0 <= k < |cs| ==> cs[k].0 != cs[k].1
    ensures forall k, l :: 0 <= k < l < |cs| ==> Key(cs[k].0, cs[k].1) != Key(cs[l].0, cs[l].1)
  {
    forall k, l | 0 <= k < l < |cs| ensures Key(cs[k].0, cs[k].1) != Key(cs[l].0, cs[l].1) {
      assert LexLess(Positions(s, cs[k]), Positions(s, cs[l]));
    }
  }

  /** The keys of the pairs of `cs` that are edges of `g`. */
  function EdgeKeysOf(g: Graph, cs: seq<Pair>): set<Pair> {
    set k | 0 <= k < |cs| && HasEdge(g, cs[k].0, cs[k].1) :: Key(cs[k].0, cs[k].1)
  }

  /** When no two pairs join the same two nodes, counting the pairs that are
      edges counts distinct edges. */
  lemma {:induction false} EdgeCountIsKeyCount(g: Graph, cs: seq<Pair>)
    requires forall k, l :: 0 <= k < l < |cs| ==> Key(cs[k].0, cs[k].1) != Key(cs[l].0, cs[l].1)
    ensures EdgeCount(g, cs) == |EdgeKeysOf(g, cs)|
  {
    if |cs| > 0 {
      var tail := cs[1..];
      TailKeysDistinct(cs);
      EdgeCountIsKeyCount(g, tail);
      EdgeKeysOfCons(g, cs);
      HeadKeyNotInTail(g, cs);
    }
  }

  lemma TailKeysDistinct(cs: seq<Pair>)
    requires |cs| > 0
    requires forall k, l :: 0 <= k < l < |cs| ==> Key(cs[k].0, cs[k].1) != Key(cs[l].0, cs[l].1)
    ensures forall k, l :: 0 <= k < l < |cs[1..]| ==> Key(cs[1..][k].0, cs[1..][k].1) != Key(cs[1..][l].0, cs[1..][l].1)
  {
    var tail := cs[1..];
    forall k, l | 0 <= k < l < |tail| ensures Key(tail[k].0, tail[k].1) != Key(tail[l].0, tail[l].1) {
      assert tail[k] == cs[k + 1] && tail[l] == cs[l + 1];
    }
  }

  /** The edge keys of a sequence are those of its head, if an edge, and those of its tail. */
  lemma EdgeKeysOfCons(g: Graph, cs: seq<Pair>)
    requires |cs| > 0
    ensures EdgeKeysOf(g, cs) ==
      (if HasEdge(g, cs[0].0, cs[0].1) then {Key(cs[0].0, cs[0].1)} else {}) + EdgeKeysOf(g, cs[1..])
  {
    var tail := cs[1..];
    var head := if HasEdge(g, cs[0].0, cs[0].1) then {Key(cs[0].0, cs[0].1)} else {};
    forall e | e in EdgeKeysOf(g, cs) ensures e in head + EdgeKeysOf(g, tail) {
      var k :| 0 <= k < |cs| && HasEdge(g, cs[k].0, cs[k].1) && e == Key(cs[k].0, cs[k].1);
      if k > 0 {
        assert tail[k - 1] == cs[k];
      }
    }
    forall e | e in EdgeKeysOf(g, tail) ensures e in EdgeKeysOf(g, cs) {
      var k :| 0 <= k < |tail| && HasEdge(g, tail[k].0, tail[k].1) && e == Key(tail[k].0, tail[k].1);
      assert tail[k] == cs[k + 1];
    }
  }

  lemma HeadKeyNotInTail(g: Graph, cs: seq<Pair>)
    requires |cs| > 0
    requires forall l :: 0 < l < |cs| ==> Key(cs[0].0, cs[0].1) != Key(cs[l].0, cs[l].1)
    ensures Key(cs[0].0, cs[0].1) !in EdgeKeysOf(g, cs[1..])
  {
    var tail := cs[1..];
    forall k | 0 <= k < |tail| ensures Key(tail[k].0, tail[k].1) != Key(cs[0].0, cs[0].1) {
      assert tail[k] == cs[k + 1];
    }
  }

  lemma CombinationEdgesAreNonLoop(g: Graph)
    requires Valid(g)
    ensures EdgeKeysOf(g, Combinations(g.nodes)) <= NonLoopEdges(g)
  {
    var cs := Combinations(g.nodes);
    CombinationsOrder(g.nodes);
    OrderedPairsDistinct(g.nodes, cs);
    forall e | e in EdgeKeysOf(g, cs) ensures e in NonLoopEdges(g) {
      var k :| 0 <= k < |cs| && HasEdge(g, cs[k].0, cs[k].1) && e == Key(cs[k].0, cs[k].1);
      assert HasEdge(g, e.0, e.1);
      assert e == (e.0, e.1);
    }
  }

  /** An edge between two distinct nodes is the key of one of the combinations. */
  lemma NonLoopEdgeIsCombinationEdge(g: Graph, e: Pair)
    requires Valid(g) && e in NonLoopEdges(g)
    requires forall x, y :: (x, y) in Combinations(g.nodes) <==> x in g.nodes && y in g.nodes && IndexOf(g.nodes, x) < IndexOf(g.nodes, y)
    ensures e in EdgeKeysOf(g, Combinations(g.nodes))
  {
    var s := g.nodes;
    var cs := Combinations(s);
    var u, v := e.0, e.1;
    assert HasEdge(g, u, v) && HasEdge(g, v, u) && u < v;
    assert u in s && v in s;
    var c := if IndexOf(s, u) < IndexOf(s, v) then (u, v) else (v, u);
    assert IndexOf(s, u) != IndexOf(s, v);
    assert c in cs;
    var k :| 0 <= k < |cs| && cs[k] == c;
    assert Key(cs[k].0, cs[k].1) == e;
  }

  lemma NonLoopEdgesAreCombinationEdges(g: Graph)
    requires Valid(g)
    ensures NonLoopEdges(g) <= EdgeKeysOf(g, Combinations(g.nodes))
  {
    CombinationsMembers(g.nodes);
    forall e | e in NonLoopEdges(g) ensures e in EdgeKeysOf(g, Combinations(g.nodes)) {
      NonLoopEdgeIsCombinationEdge(g, e);
    }
  }

  /** A pair is a candidate exactly when its first node comes before its second
      in the node order and the two are not joined by an edge. */
  lemma CandidatesMembers(g: Graph)
    requires Valid(g)
    ensures forall c: Pair :: c in CandidatePairs(g) <==>
      c.0 in g.nodes && c.1 in g.nodes && IndexOf(g.nodes, c.0) < IndexOf(g.nodes, c.1) && !HasEdge(g, c.0, c.1)
  {
    CombinationsMembers(g.nodes);
    forall c: Pair ensures c in Combinations(g.nodes) <==>
      c.0 in g.nodes && c.1 in g.nodes && IndexOf(g.nodes, c.0) < IndexOf(g.nodes, c.1)
    {
      assert c == (c.0, c.1);
    }
  }

  /** Both nodes of every candidate are nodes of the graph. */
  lemma CandidateNodes(g: Graph)
    requires Valid(g)
    ensures forall k :: 0 <= k < |CandidatePairs(g)| ==> CandidatePairs(g)[k].0 in g.nodes && CandidatePairs(g)[k].1 in g.nodes
  {
    CandidatesMembers(g);
    forall k | 0 <= k < |CandidatePairs(g)| ensures CandidatePairs(g)[k].0 in g.nodes && CandidatePairs(g)[k].1 in g.nodes {
      assert CandidatePairs(g)[k] in CandidatePairs(g);
    }
  }

  /** Candidates come in `combinations` order, never pair a node with itself,
      and list each unordered pair at most once. */
  lemma CandidatesOrdered(g: Graph)
    requires Valid(g)
    ensures PositionOrdered(g.nodes, CandidatePairs(g))
    ensures forall k :: 0 <= k < |CandidatePairs(g)| ==> CandidatePairs(g)[k].0 != CandidatePairs(g)[k].1
    ensures forall k, l :: 0 <= k < l < |CandidatePairs(g)| ==>
      Key(CandidatePairs(g)[k].0, CandidatePairs(g)[k].1) != Key(CandidatePairs(g)[l].0, CandidatePairs(g)[l].1)
  {
    CombinationsOrder(g.nodes);
    NonEdgesKeepsOrder(g, g.nodes, Combinations(g.nodes));
    OrderedPairsDistinct(g.nodes, CandidatePairs(g));
  }

  /** Among the combinations, the pairs that are edges are exactly the edges
      between two distinct nodes, each once. */
  lemma CombinationEdgeCount(g: Graph)
    requires Valid(g)
    ensures EdgeCount(g, Combinations(g.nodes)) == |NonLoopEdges(g)|
  {
    var cs := Combinations(g.nodes);
    CombinationsOrder(g.nodes);
    OrderedPairsDistinct(g.nodes, cs);
    EdgeCountIsKeyCount(g, cs);
    CombinationEdgesAreNonLoop(g);
    NonLoopEdgesAreCombinationEdges(g);
    assert EdgeKeysOf(g, cs) == NonLoopEdges(g);
  }

  /** With n nodes, there are n(n-1)/2 candidates less one per edge between two distinct nodes. */
  lemma CandidateCount(g: Graph)
    requires Valid(g)
    ensures |CandidatePairs(g)| == |g.nodes| * (|g.nodes| - 1) / 2 - |NonLoopEdges(g)|
  {
    var n := |g.nodes|;
    var cs := Combinations(g.nodes);
    CombinationEdgeCount(g);
    var total := n * (n - 1);
    assert 2 * |cs| == total;
    assert |cs| == total / 2;
    assert |NonEdges(g, cs)| + EdgeCount(g, cs) == |cs|;
  }
}
