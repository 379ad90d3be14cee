/** The undirected simple graph the metric and the candidate generator work on
    (a networkx `Graph`), and `nx.from_edgelist`, which `to_networkx` uses to build it. */
module Graphs {
  import opened Sequences

  type Node = nat
  type Pair = (Node, Node)

  /** `nodes` lists the nodes in insertion order (the order `G.nodes()` yields them);
      `adj` maps each node to its neighbour set; `stamps` holds the optional
      `timestamp` attribute of an edge under the edge's `Key`, because networkx
      shares one attribute dictionary between both directions of an edge. */
  datatype Graph = Graph(nodes: seq<Node>, adj: map<Node, set<Node>>, stamps: map<Pair, int>)

  /** The storage key of the undirected edge {u, v}: its endpoints in ascending order. */
  function Key(u: Node, v: Node): (p: Pair)
    ensures p.0 <= p.1
    ensures (p.0 == u && p.1 == v) || (p.0 == v && p.1 == u)
  {
    if u <= v then (u, v) else (v, u)
  }

  /** `G.has_edge(u, v)`: false, not an error, when `u` is not a node. */
  predicate HasEdge(g: Graph, u: Node, v: Node) {
    u in g.adj && v in g.adj[u]
  }

  /** The representation invariant networkx maintains for an undirected graph. */
  ghost predicate Valid(g: Graph) {
    && Distinct(g.nodes)
    && (forall n :: n in g.adj <==> n in g.nodes)
    && (forall u, v :: HasEdge(g, u, v) ==> HasEdge(g, v, u))
    && (forall p :: p in g.stamps ==> p.0 <= p.1 && HasEdge(g, p.0, p.1))
  }

  /** Every undirected edge once, under its key; a self-loop appears as (n, n). */
  function EdgeKeys(g: Graph): set<Pair> {
    set u, v | u in g.adj && v in g.adj[u] && u <= v :: (u, v)
  }

  /** The edges between two distinct nodes; for a simple graph, all of E. */
  function NonLoopEdges(g: Graph): set<Pair> {
    set u, v | u in g.adj && v in g.adj[u] && u < v :: (u, v)
  }

  /** The edges that have `n` as an endpoint. */
  function IncidentEdges(g: Graph, n: Node): set<Pair> {
    set p | p in EdgeKeys(g) && (p.0 == n || p.1 == n)
  }

  function Empty(): (g: Graph)
    ensures Valid(g)
  {
    Graph([], map[], map[])
  }

  /** Adds `n` at the end of the node order unless it is already present. */
  function AddNode(g: Graph, n: Node): (r: Graph)
    requires Valid(g)
    ensures Valid(r)
    ensures r.adj.Keys == g.adj.Keys + {n}
    ensures forall x, y :: HasEdge(r, x, y) <==> HasEdge(g, x, y)
    ensures r.nodes == g.nodes + (if n in g.nodes then [] else [n])
    ensures r.stamps == g.stamps
  {
    if n in g.adj then g
    else
      var r := Graph(g.nodes + [n], g.adj[n := {}], g.stamps);
      assert forall x, y :: HasEdge(r, x, y) <==> HasEdge(g, x, y);
      assert Distinct(r.nodes) by {
        forall a, b | 0 <= a < b < |r.nodes| ensures r.nodes[a] != r.nodes[b] {
          if b == |g.nodes| {
            assert r.nodes[a] == g.nodes[a];
          } else {
            assert r.nodes[a] == g.nodes[a] && r.nodes[b] == g.nodes[b];
          }
        }
      }
      r
  }

  /** networkx's `add_edge(u, v)` without attributes: both endpoints become nodes
      (first `u`, then `v`), and the edge is recorded in both directions; an edge
      that already exists keeps its attribute dictionary. */
  function AddEdge(g: Graph, u: Node, v: Node): (r: Graph)
    requires Valid(g)
    ensures Valid(r)
    ensures forall x, y :: HasEdge(r, x, y) <==> HasEdge(g, x, y) || (x == u && y == v) || (x == v && y == u)
    ensures r.nodes == g.nodes + (if u in g.nodes then [] else [u]) + (if v in g.nodes || v == u then [] else [v])
    ensures r.stamps == g.stamps
  {
    Link(AddNode(AddNode(g, u), v), u, v)
  }

  /** Joins two nodes already in the graph, in both directions. */
  function Link(g: Graph, u: Node, v: Node): (r: Graph)
    requires Valid(g) && u in g.adj && v in g.adj
    ensures Valid(r)
    ensures forall x, y :: HasEdge(r, x, y) <==> HasEdge(g, x, y) || (x == u && y == v) || (x == v && y == u)
    ensures r.nodes == g.nodes && r.stamps == g.stamps
  {
    var a1 := g.adj[u := g.adj[u] + {v}];
    var r := Graph(g.nodes, a1[v := a1[v] + {u}], g.stamps);
    assert forall x, y :: HasEdge(r, x, y) <==> HasEdge(g, x, y) || (x == u && y == v) || (x == v && y == u);
    r
  }

  /** The endpoints of an edge list in reading order: u0, v0, u1, v1, ... */
  function Endpoints(edges: seq<Pair>): (s: seq<Node>)
    ensures |s| == 2 * |edges|
  {
    if |edges| == 0 then []
    else
      var e := edges[|edges| - 1];
      Endpoints(edges[..|edges| - 1]) + [e.0, e.1]
  }

  /** `nx.from_edgelist(edges)`: the undirected graph built by adding the listed
      pairs one after the other; no edge carries a timestamp. */
  function FromEdgeList(edges: seq<Pair>): (g: Graph)
    ensures Valid(g)
    ensures g.stamps == map[]
  {
    if |edges| == 0 then Empty()
    else
      var e := edges[|edges| - 1];
      AddEdge(FromEdgeList(edges[..|edges| - 1]), e.0, e.1)
  }

  /** Duplicate and reversed entries collapse into one undirected edge:
      {u, v} is an edge exactly when (u, v) or (v, u) is listed. */
  lemma {:induction false} FromEdgeListEdges(edges: seq<Pair>)
    ensures forall u: Node, v: Node :: HasEdge(FromEdgeList(edges), u, v) <==> (u, v) in edges || (v, u) in edges
  {
    if |edges| > 0 {
      var init := edges[..|edges| - 1];
      FromEdgeListEdges(init);
      assert edges == init + [edges[|edges| - 1]];
      FromEdgeListEdgesStep(init, edges[|edges| - 1]);
    }
  }

  /** Reading one more edge adds it, in both directions, and nothing else. */
  lemma FromEdgeListEdgesStep(init: seq<Pair>, e: Pair)
    requires forall u: Node, v: Node :: HasEdge(FromEdgeList(init), u, v) <==> (u, v) in init || (v, u) in init
    ensures forall u: Node, v: Node :: HasEdge(FromEdgeList(init + [e]), u, v) <==> (u, v) in init + [e] || (v, u) in init + [e]
  {
    var edges := init + [e];
    assert edges[..|edges| - 1] == init;
    assert FromEdgeList(edges) == AddEdge(FromEdgeList(init), e.0, e.1);
    EdgesAfterAdd(FromEdgeList(init), FromEdgeList(edges), init, e);
  }

  lemma EdgesAfterAdd(g0: Graph, g: Graph, init: seq<Pair>, e: Pair)
    requires forall u: Node, v: Node :: HasEdge(g0, u, v) <==> (u, v) in init || (v, u) in init
    requires forall u: Node, v: Node :: HasEdge(g, u, v) <==> HasEdge(g0, u, v) || (u == e.0 && v == e.1) || (u == e.1 && v == e.0)
    ensures forall u: Node, v: Node :: HasEdge(g, u, v) <==> (u, v) in init + [e] || (v, u) in init + [e]
  {
    forall u: Node, v: Node ensures HasEdge(g, u, v) <==> (u, v) in init + [e] || (v, u) in init + [e] {
      SnocMember(init, e, (u, v));
      SnocMember(init, e, (v, u));
    }
  }

  lemma SnocMember<T>(s: seq<T>, e: T, x: T)
    ensures x in s + [e] <==> x in s || x == e
  {
  }

  /** Where an element first occurs after appending to a sequence. */
  lemma IndexOfAppend<T>(s: seq<T>, t: seq<T>, x: T)
    requires x in s + t
    ensures x in s ==> IndexOf(s + t, x) == IndexOf(s, x)
    ensures x !in s ==> x in t && IndexOf(s + t, x) == |s| + IndexOf(t, x)
  {
    var k := IndexOf(s + t, x);
    if x in s {
      var j := IndexOf(s, x);
      assert (s + t)[j] == x;
    } else {
      assert forall i :: 0 <= i < |s| ==> (s + t)[i] == s[i];
      assert t[k - |s|] == x;
      var j := IndexOf(t, x);
      assert (s + t)[|s| + j] == x;
    }
  }

  /** `nodes` holds exactly the elements of `seen`, each placed in the order of
      its first occurrence in `seen`. */
  ghost predicate FirstSeenOrder(nodes: seq<Node>, seen: seq<Node>) {
    && (forall x :: x in nodes <==> x in seen)
    && (forall a, b :: 0 <= a < b < |nodes| ==> IndexOf(seen, nodes[a]) < IndexOf(seen, nodes[b]))
  }

  /** One `add_edge` step keeps the node order the order of first occurrence. */
  lemma AppendKeepsOrder(e0: seq<Node>, n0: seq<Node>, u: Node, v: Node, n: seq<Node>)
    requires FirstSeenOrder(n0, e0)
    requires n == n0 + (if u in n0 then [] else [u]) + (if v in n0 || v == u then [] else [v])
    ensures FirstSeenOrder(n, e0 + [u, v])
  {
    var e := e0 + [u, v];
    forall x | x in n0
      ensures IndexOf(e, x) == IndexOf(e0, x) < |e0|
    {
      IndexOfAppend(e0, [u, v], x);
    }
    forall a, b | 0 <= a < b < |n|
      ensures IndexOf(e, n[a]) < IndexOf(e, n[b])
    {
      if b >= |n0| {
        IndexOfAppend(e0, [u, v], n[b]);
        if a >= |n0| {
          IndexOfAppend(e0, [u, v], n[a]);
        } else {
          assert n[a] == n0[a];
        }
      } else {
        assert n[a] == n0[a] && n[b] == n0[b];
      }
    }
  }

  /** The nodes of `from_edgelist` are exactly the endpoints of the listed edges
      (a node that occurs in no edge is absent), listed in the order in which
      their first occurrence is read. */
  lemma {:induction false} FromEdgeListNodes(edges: seq<Pair>)
    ensures FirstSeenOrder(FromEdgeList(edges).nodes, Endpoints(edges))
  {
    if |edges| > 0 {
      var init := edges[..|edges| - 1];
      var e := edges[|edges| - 1];
      FromEdgeListNodes(init);
      var g0 := FromEdgeList(init);
      var ep := Endpoints(init);
      assert Endpoints(edges) == ep + [e.0, e.1];
      var n := FromEdgeList(edges).nodes;
      assert n == g0.nodes + (if e.0 in g0.nodes then [] else [e.0]) + (if e.1 in g0.nodes || e.1 == e.0 then [] else [e.1]);
      AppendKeepsOrder(ep, g0.nodes, e.0, e.1, n);
    }
  }
}
