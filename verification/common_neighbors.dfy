/** The Common Neighbours metric with its optional temporal filter:
    the score of a pair is the number of nodes adjacent to both. */
module CommonNeighbors {
  import opened Wrappers
  import opened Errors
  import opened Sequences
  import opened Graphs
  import opened BaseMetric

  /** A `CommonNeighbors(graph, use_temporal)` instance; the constructor's
      default for `use_temporal` is true. */
  datatype Metric = Metric(graph: Graph, useTemporal: bool)

  /** Every edge at `n` carries a `timestamp` attribute. */
  predicate AllStamped(g: Graph, n: Node)
    requires n in g.adj
  {
    forall v :: v in g.adj[n] ==> Key(n, v) in g.stamps
  }

  /** The edge {u, v} carries a timestamp no later than `t`. */
  predicate StampedBy(g: Graph, u: Node, v: Node, t: int) {
    Key(u, v) in g.stamps && g.stamps[Key(u, v)] <= t
  }

  /** The nodes of `g` adjacent to both `i` and `j`. */
  function Common(g: Graph, i: Node, j: Node): set<Node> {
    set w | w in g.adj && HasEdge(g, i, w) && HasEdge(g, j, w)
  }

  /** The nodes of `g` joined to both `i` and `j` by edges formed at or before `t`. */
  function CommonBy(g: Graph, i: Node, j: Node, t: int): set<Node> {
    set w | w in g.adj && HasEdge(g, i, w) && HasEdge(g, j, w) && StampedBy(g, i, w, t) && StampedBy(g, j, w, t)
  }

  /** `get_temporal_neighbors(node, timestamp)`. Outside temporal mode it is
      `get_neighbors`. In temporal mode it keeps the neighbours whose edge was
      formed at or before `t`; reading the attribute of an edge that has none
      raises, whether or not that edge would have been kept. */
  function TemporalNeighbors(m: Metric, n: Node, t: int): (r: Result<set<Node>, Error>)
    requires Valid(m.graph)
    ensures !m.useTemporal ==> r == Neighbors(m.graph, n)
    ensures m.useTemporal ==> (r.Success? <==> n in m.graph.nodes && AllStamped(m.graph, n))
    ensures m.useTemporal && r.Failure? ==>
      r.error == (if n in m.graph.nodes then MissingTimestamp else UnknownNode(n))
    ensures m.useTemporal && r.Success? ==>
      forall v :: v in r.value <==> HasEdge(m.graph, n, v) && StampedBy(m.graph, n, v, t)
  {
    if !m.useTemporal then Neighbors(m.graph, n)
    else if n !in m.graph.adj then Failure(UnknownNode(n))
    else if !AllStamped(m.graph, n) then Failure(MissingTimestamp)
    else Success(set v | v in m.graph.adj[n] && m.graph.stamps[Key(n, v)] <= t)
  }

  /** The temporal neighbours are some of the neighbours. */
  lemma TemporalNeighborsSubset(m: Metric, n: Node, t: int)
    requires Valid(m.graph)
    requires TemporalNeighbors(m, n, t).Success?
    ensures Neighbors(m.graph, n).Success?
    ensures TemporalNeighbors(m, n, t).value <= Neighbors(m.graph, n).value
  {
  }

  /** A later cutoff fails on the same nodes and keeps at least the same neighbours. */
  lemma TemporalNeighborsMonotone(m: Metric, n: Node, t1: int, t2: int)
    requires Valid(m.graph) && t1 <= t2
    ensures TemporalNeighbors(m, n, t1).Success? <==> TemporalNeighbors(m, n, t2).Success?
    ensures TemporalNeighbors(m, n, t1).Success? ==>
      TemporalNeighbors(m, n, t1).value <= TemporalNeighbors(m, n, t2).value
  {
  }

  /** The filter is used only in temporal mode and when a timestamp is given. */
  predicate Filtered(m: Metric, t: Option<int>) {
    m.useTemporal && t.Some?
  }

  /** `compute_score(i, j, timestamp)`: the number of common neighbours of `i`
      and `j`, among the temporal neighbours when `Filtered`, otherwise among
      all neighbours. The lookups run for `i` first, so `i`'s error wins. */
  function ComputeScore(m: Metric, i: Node, j: Node, t: Option<int>): (r: Result<nat, Error>)
    requires Valid(m.graph)
    ensures !Filtered(m, t) ==> (r.Success? <==> i in m.graph.nodes && j in m.graph.nodes)
    ensures !Filtered(m, t) && r.Success? ==> r.value == |Common(m.graph, i, j)|
    ensures Filtered(m, t) ==> (r.Success? <==>
      && i in m.graph.nodes && j in m.graph.nodes
      && AllStamped(m.graph, i) && AllStamped(m.graph, j))
    ensures Filtered(m, t) && r.Success? ==> r.value == |CommonBy(m.graph, i, j, t.value)|
    ensures i !in m.graph.nodes ==> r == Failure(UnknownNode(i))
    ensures i in m.graph.nodes && Filtered(m, t) && !AllStamped(m.graph, i) ==> r == Failure(MissingTimestamp)
    ensures i in m.graph.nodes && j !in m.graph.nodes && (!Filtered(m, t) || AllStamped(m.graph, i)) ==>
      r == Failure(UnknownNode(j))
    ensures i in m.graph.nodes && j in m.graph.nodes && Filtered(m, t) && AllStamped(m.graph, i) && !AllStamped(m.graph, j) ==>
      r == Failure(MissingTimestamp)
  {
    if Filtered(m, t) then
      var a :- TemporalNeighbors(m, i, t.value);
      var b :- TemporalNeighbors(m, j, t.value);
      assert a * b == CommonBy(m.graph, i, j, t.value);
      Success(|a * b|)
    else
      var a :- Neighbors(m.graph, i);
      var b :- Neighbors(m.graph, j);
      assert a * b == Common(m.graph, i, j);
      Success(|a * b|)
  }

  /** The score is symmetric: both nodes are filtered against the same cutoff. */
  lemma ScoreSymmetric(m: Metric, i: Node, j: Node, t: Option<int>)
    requires Valid(m.graph)
    ensures ComputeScore(m, i, j, t).Success? <==> ComputeScore(m, j, i, t).Success?
    ensures ComputeScore(m, i, j, t).Success? ==> ComputeScore(m, i, j, t).value == ComputeScore(m, j, i, t).value
  {
    if Filtered(m, t) {
      assert CommonBy(m.graph, i, j, t.value) == CommonBy(m.graph, j, i, t.value);
    } else {
      assert Common(m.graph, i, j) == Common(m.graph, j, i);
    }
  }

  /** The score is at most the smaller neighbour count of the two nodes. */
  lemma ScoreBounded(m: Metric, i: Node, j: Node, t: Option<int>)
    requires Valid(m.graph)
    requires ComputeScore(m, i, j, t).Success?
    ensures ComputeScore(m, i, j, t).value <= |Neighbors(m.graph, i).value|
    ensures ComputeScore(m, i, j, t).value <= |Neighbors(m.graph, j).value|
  {
    var g := m.graph;
    if Filtered(m, t) {
      assert CommonBy(g, i, j, t.value) <= g.adj[i];
      assert CommonBy(g, i, j, t.value) <= g.adj[j];
      SubsetCardinality(CommonBy(g, i, j, t.value), g.adj[i]);
      SubsetCardinality(CommonBy(g, i, j, t.value), g.adj[j]);
    } else {
      assert Common(g, i, j) <= g.adj[i];
      assert Common(g, i, j) <= g.adj[j];
      SubsetCardinality(Common(g, i, j), g.adj[i]);
      SubsetCardinality(Common(g, i, j), g.adj[j]);
    }
  }

  /** A pair without a common neighbour scores 0. */
  lemma ScoreZeroWithoutCommonNeighbor(m: Metric, i: Node, j: Node, t: Option<int>)
    requires Valid(m.graph)
    requires forall w :: !(HasEdge(m.graph, i, w) && HasEdge(m.graph, j, w))
    requires ComputeScore(m, i, j, t).Success?
    ensures ComputeScore(m, i, j, t).value == 0
  {
    if Filtered(m, t) {
      assert CommonBy(m.graph, i, j, t.value) == {};
    } else {
      assert Common(m.graph, i, j) == {};
    }
  }

  /** In temporal mode the score never decreases as the cutoff grows,
      and whether it fails does not depend on the cutoff. */
  lemma ScoreMonotoneInTime(m: Metric, i: Node, j: Node, t1: int, t2: int)
    requires Valid(m.graph) && m.useTemporal && t1 <= t2
    ensures ComputeScore(m, i, j, Some(t1)).Success? <==> ComputeScore(m, i, j, Some(t2)).Success?
    ensures ComputeScore(m, i, j, Some(t1)).Success? ==>
      ComputeScore(m, i, j, Some(t1)).value <= ComputeScore(m, i, j, Some(t2)).value
  {
    if ComputeScore(m, i, j, Some(t1)).Success? {
      assert CommonBy(m.graph, i, j, t1) <= CommonBy(m.graph, i, j, t2);
      SubsetCardinality(CommonBy(m.graph, i, j, t1), CommonBy(m.graph, i, j, t2));
    }
  }

  /** A timestamp list is used only when it is present and non-empty
      (an empty list is falsy). */
  predicate UsesStamps(ts: Option<seq<int>>) {
    ts.Some? && |ts.value| > 0
  }

  /** The timestamp the `k`-th pair is scored with. */
  function StampFor(ts: Option<seq<int>>, k: nat): Option<int> {
    if UsesStamps(ts) && k < |ts.value| then Some(ts.value[k]) else None
  }

  /** The timestamp list is absent, empty, or as long as the pair list. */
  predicate LengthsAgree(pairs: seq<Pair>, ts: Option<seq<int>>) {
    !UsesStamps(ts) || |ts.value| == |pairs|
  }

  /** `compute_all_scores(node_pairs, timestamps)`: one score per pair, in input
      order, each the `compute_score` of that pair; a non-empty timestamp list of
      another length fails first, and otherwise the first failing pair's error
      is the result. */
  method ComputeAllScores(m: Metric, pairs: seq<Pair>, ts: Option<seq<int>>) returns (r: Result<seq<nat>, Error>)
    requires Valid(m.graph)
    ensures !LengthsAgree(pairs, ts) ==> r == Failure(LengthMismatch)
    ensures r.Success? <==>
      (LengthsAgree(pairs, ts) &&
       forall k :: 0 <= k < |pairs| ==> ComputeScore(m, pairs[k].0, pairs[k].1, StampFor(ts, k)).Success?)
    ensures r.Success? ==>
      (|r.value| == |pairs| &&
       forall k :: 0 <= k < |pairs| ==> ComputeScore(m, pairs[k].0, pairs[k].1, StampFor(ts, k)) == Success(r.value[k]))
    ensures r.Failure? && LengthsAgree(pairs, ts) ==>
      exists k :: (0 <= k < |pairs| &&
        (forall l :: 0 <= l < k ==> ComputeScore(m, pairs[l].0, pairs[l].1, StampFor(ts, l)).Success?) &&
        ComputeScore(m, pairs[k].0, pairs[k].1, StampFor(ts, k)) == Failure(r.error))
  {
    if !LengthsAgree(pairs, ts) {
      return Failure(LengthMismatch);
    }
    var scores: seq<nat> := [];
    var k := 0;
    while k < |pairs|
      invariant 0 <= k <= |pairs|
      invariant |scores| == k
      invariant forall l :: 0 <= l < k ==> ComputeScore(m, pairs[l].0, pairs[l].1, StampFor(ts, l)) == Success(scores[l])
    {
      var s := ComputeScore(m, pairs[k].0, pairs[k].1, StampFor(ts, k));
      if s.Failure? {
        return Failure(s.error);
      }
      scores := scores + [s.value];
      k := k + 1;
    }
    return Success(scores);
  }
}
