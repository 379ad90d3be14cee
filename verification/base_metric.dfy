/** The part of `BaseLinkPredictionMetric` that has behaviour: neighbour lookup
    in the metric's undirected graph. */
module BaseMetric {
  import opened Wrappers
  import opened Errors
  import opened Sequences
  import opened Graphs

  /** `get_neighbors(node)`: a fresh set holding the nodes adjacent to `node`;
      networkx raises when `node` is not in the graph. The graph is a value, so
      the lookup cannot change it. */
  function Neighbors(g: Graph, n: Node): (r: Result<set<Node>, Error>)
    requires Valid(g)
    ensures r.Success? <==> n in g.nodes
    ensures r.Failure? ==> r.error == UnknownNode(n)
    ensures r.Success? ==> forall m :: m in r.value <==> HasEdge(g, n, m)
    ensures r.Success? ==> r.value <= Elements(g.nodes)
  {
    if n in g.adj then Success(g.adj[n]) else Failure(UnknownNode(n))
  }

  /** Adjacency is symmetric: m is a neighbour of n exactly when n is one of m. */
  lemma NeighborsSymmetric(g: Graph, n: Node, m: Node)
    requires Valid(g)
    ensures (Neighbors(g, n).Success? && m in Neighbors(g, n).value)
        <==> (Neighbors(g, m).Success? && n in Neighbors(g, m).value)
  {
    if Neighbors(g, n).Success? && m in Neighbors(g, n).value {
      assert HasEdge(g, m, n);
    }
    if Neighbors(g, m).Success? && n in Neighbors(g, m).value {
      assert HasEdge(g, n, m);
    }
  }

  /** The keys of the edges from `n` to the nodes of `s`. */
  function KeysFrom(n: Node, s: set<Node>): set<Pair> {
    set v | v in s :: Key(n, v)
  }

  lemma {:induction false} KeysFromCardinality(n: Node, s: set<Node>)
    ensures |KeysFrom(n, s)| == |s|
    decreases |s|
  {
    if s != {} {
      var x :| x in s;
      var rest := s - {x};
      KeysFromCardinality(n, rest);
      assert KeysFrom(n, s) == KeysFrom(n, rest) + {Key(n, x)};
      assert Key(n, x) !in KeysFrom(n, rest);
    }
  }

  /** The number of neighbours of `n` is the number of edges incident to `n`
      (its degree, when `n` has no self-loop, which networkx would count twice). */
  lemma NeighborCountIsDegree(g: Graph, n: Node)
    requires Valid(g) && n in g.nodes
    ensures |Neighbors(g, n).value| == |IncidentEdges(g, n)|
  {
    var s := g.adj[n];
    assert IncidentEdges(g, n) == KeysFrom(n, s) by {
      forall p | p in IncidentEdges(g, n) ensures p in KeysFrom(n, s) {
        if p.0 == n {
          assert Key(n, p.1) == p;
        } else {
          assert HasEdge(g, p.0, n);
          assert Key(n, p.0) == p;
        }
      }
      forall p | p in KeysFrom(n, s) ensures p in IncidentEdges(g, n) {
        var v :| v in s && p == Key(n, v);
        assert HasEdge(g, v, n);
        assert p in EdgeKeys(g);
      }
    }
    KeysFromCardinality(n, s);
  }
}
