/** The ranking part of `main`: one prediction per candidate pair, a stable sort
    by score, highest first, and the first `top_k` predictions. */
module Ranking {
  import opened Wrappers
  import opened Errors
  import opened Sequences
  import opened Graphs
  import opened CommonNeighbors
  import opened Candidates

  /** One `(i, j, score)` triple of the prediction list. */
  datatype Prediction = Prediction(i: Node, j: Node, score: nat)

  /** Every pair of `cs` scores without error (no timestamp passed). */
  predicate AllScore(m: Metric, cs: seq<Pair>)
    requires Valid(m.graph)
  {
    forall k :: 0 <= k < |cs| ==> ComputeScore(m, cs[k].0, cs[k].1, None).Success?
  }

  /** `ps` holds one triple per pair of `cs`, in order, carrying its score. */
  predicate ScoredAs(m: Metric, cs: seq<Pair>, ps: seq<Prediction>)
    requires Valid(m.graph) && AllScore(m, cs)
  {
    && |ps| == |cs|
    && forall k :: 0 <= k < |cs| ==>
      ps[k] == Prediction(cs[k].0, cs[k].1, ComputeScore(m, cs[k].0, cs[k].1, None).value)
  }

  /** `e` is the error of the first pair of `cs` whose score fails. */
  ghost predicate FirstFailure(m: Metric, cs: seq<Pair>, e: Error)
    requires Valid(m.graph)
  {
    exists k :: (0 <= k < |cs| &&
      (forall l :: 0 <= l < k ==> ComputeScore(m, cs[l].0, cs[l].1, None).Success?) &&
      ComputeScore(m, cs[k].0, cs[k].1, None) == Failure(e))
  }

  /** `[(i, j, metric.compute_score(i, j)) for i, j in pairs]`: no timestamp is
      passed; the first pair whose score fails makes the whole list fail. */
  function PredictAll(m: Metric, cs: seq<Pair>): (r: Result<seq<Prediction>, Error>)
    requires Valid(m.graph)
    ensures r.Success? <==> AllScore(m, cs)
    ensures r.Success? ==> ScoredAs(m, cs, r.value)
    ensures r.Failure? ==> FirstFailure(m, cs, r.error)
  {
    if |cs| == 0 then Success([])
    else
      var head := ComputeScore(m, cs[0].0, cs[0].1, None);
      if head.Failure? then
        FailsAtHead(m, cs);
        Failure(head.error)
      else
        var rest := PredictAll(m, cs[1..]);
        AllScoreCons(m, cs);
        if rest.Failure? then
          FailsInTail(m, cs, rest.error);
          Failure(rest.error)
        else
          ScoredCons(m, cs, rest.value);
          Success([Prediction(cs[0].0, cs[0].1, head.value)] + rest.value)
  }

  lemma FailsAtHead(m: Metric, cs: seq<Pair>)
    requires Valid(m.graph) && |cs| > 0
    requires ComputeScore(m, cs[0].0, cs[0].1, None).Failure?
    ensures FirstFailure(m, cs, ComputeScore(m, cs[0].0, cs[0].1, None).error)
  {
    assert ComputeScore(m, cs[0].0, cs[0].1, None) == Failure(ComputeScore(m, cs[0].0, cs[0].1, None).error);
  }

  /** All pairs score exactly when the head and all of the tail do. */
  lemma AllScoreCons(m: Metric, cs: seq<Pair>)
    requires Valid(m.graph) && |cs| > 0
    ensures AllScore(m, cs) <==> ComputeScore(m, cs[0].0, cs[0].1, None).Success? && AllScore(m, cs[1..])
  {
    forall k | 0 < k < |cs| ensures cs[k] == cs[1..][k - 1] {}
  }

  /** A first failure in the tail is a first failure of the whole list once the head scores. */
  lemma FailsInTail(m: Metric, cs: seq<Pair>, e: Error)
    requires Valid(m.graph) && |cs| > 0
    requires ComputeScore(m, cs[0].0, cs[0].1, None).Success?
    requires FirstFailure(m, cs[1..], e)
    ensures FirstFailure(m, cs, e)
  {
    var tail := cs[1..];
    var k :| 0 <= k < |tail| &&
      (forall l :: 0 <= l < k ==> ComputeScore(m, tail[l].0, tail[l].1, None).Success?) &&
      ComputeScore(m, tail[k].0, tail[k].1, None) == Failure(e);
    ShiftPrefix(m, cs, k);
    assert tail[k] == cs[k + 1];
  }

  /** The first `k` pairs of the tail and the head score: the first `k + 1` pairs do. */
  lemma ShiftPrefix(m: Metric, cs: seq<Pair>, k: nat)
    requires Valid(m.graph) && k < |cs| - 1
    requires ComputeScore(m, cs[0].0, cs[0].1, None).Success?
    requires forall l :: 0 <= l < k ==> ComputeScore(m, cs[1..][l].0, cs[1..][l].1, None).Success?
    ensures forall l :: 0 <= l < k + 1 ==> ComputeScore(m, cs[l].0, cs[l].1, None).Success?
  {
    forall l | 0 < l < k + 1 ensures ComputeScore(m, cs[l].0, cs[l].1, None).Success? {
      assert cs[l] == cs[1..][l - 1];
    }
  }

  /** Putting the head's triple in front of the tail's triples scores the whole list. */
  lemma ScoredCons(m: Metric, cs: seq<Pair>, ps: seq<Prediction>)
    requires Valid(m.graph) && |cs| > 0 && AllScore(m, cs) && AllScore(m, cs[1..])
    requires ScoredAs(m, cs[1..], ps)
    ensures ScoredAs(m, cs, [Prediction(cs[0].0, cs[0].1, ComputeScore(m, cs[0].0, cs[0].1, None).value)] + ps)
  {
    var r := [Prediction(cs[0].0, cs[0].1, ComputeScore(m, cs[0].0, cs[0].1, None).value)] + ps;
    forall k | 0 < k < |cs|
      ensures r[k] == Prediction(cs[k].0, cs[k].1, ComputeScore(m, cs[k].0, cs[k].1, None).value)
    {
      assert cs[k] == cs[1..][k - 1] && r[k] == ps[k - 1];
    }
  }

  /** Scoring every candidate of a graph with the default metric
      (`CommonNeighbors(G)`, temporal mode on, no timestamp) never fails, and
      gives each candidate, in candidate order, its common-neighbour count. */
  function ScoreCandidates(g: Graph): (r: Result<seq<Prediction>, Error>)
    requires Valid(g)
    ensures r.Success?
    ensures |r.value| == |CandidatePairs(g)|
    ensures forall k :: 0 <= k < |r.value| ==>
      var c := CandidatePairs(g)[k];
      r.value[k] == Prediction(c.0, c.1, |Common(g, c.0, c.1)|)
  {
    CandidateNodes(g);
    PredictAll(Metric(g, true), CandidatePairs(g))
  }

  /** Non-increasing by score. */
  ghost predicate SortedDesc(ps: seq<Prediction>) {
    forall k, l :: 0 <= k < l < |ps| ==> ps[k].score >= ps[l].score
  }

  /** The predictions of `ps` with score `v`, in their order in `ps`. */
  function WithScore(ps: seq<Prediction>, v: nat): seq<Prediction> {
    if |ps| == 0 then []
    else (if ps[0].score == v then [ps[0]] else []) + WithScore(ps[1..], v)
  }

  /** A sort is stable when, for every score, the predictions with that score
      keep their relative order. */
  ghost predicate SameTies(ps: seq<Prediction>, qs: seq<Prediction>) {
    forall v :: WithScore(ps, v) == WithScore(qs, v)
  }

  /** The predictions picked for score `v` come from `ps` and score `v`. */
  lemma {:induction false} WithScoreMembers(ps: seq<Prediction>, v: nat)
    ensures forall p :: p in WithScore(ps, v) ==> p in ps && p.score == v
  {
    if |ps| > 0 {
      WithScoreMembers(ps[1..], v);
    }
  }

  lemma WithScoreCons(p: Prediction, ps: seq<Prediction>, v: nat)
    ensures WithScore([p] + ps, v) == (if p.score == v then [p] else []) + WithScore(ps, v)
  {
    assert ([p] + ps)[0] == p && ([p] + ps)[1..] == ps;
  }

  lemma {:induction false} WithScoreAppend(a: seq<Prediction>, b: seq<Prediction>, v: nat)
    ensures WithScore(a + b, v) == WithScore(a, v) + WithScore(b, v)
  {
    if |a| > 0 {
      var h := if a[0].score == v then [a[0]] else [];
      assert (a + b)[0] == a[0];
      assert (a + b)[1..] == a[1..] + b;
      assert WithScore(a + b, v) == h + WithScore(a[1..] + b, v);
      WithScoreAppend(a[1..], b, v);
      assert WithScore(a, v) == h + WithScore(a[1..], v);
    } else {
      assert a + b == b;
    }
  }

  lemma {:induction false} WithScoreNone(ps: seq<Prediction>, v: nat)
    requires forall k :: 0 <= k < |ps| ==> ps[k].score != v
    ensures WithScore(ps, v) == []
  {
    if |ps| > 0 {
      WithScoreNone(ps[1..], v);
    }
  }

  /** Inserts `x` after every prediction scoring at least as much as it, so
      that an element inserted later lands after the equal ones already there. */
  function Insert(x: Prediction, s: seq<Prediction>): (r: seq<Prediction>)
    requires SortedDesc(s)
    ensures |r| == |s| + 1
    ensures SortedDesc(r)
    ensures multiset(r) == multiset(s) + multiset{x}
  {
    if |s| == 0 then [x]
    else if s[0].score >= x.score then
      var rest := Insert(x, s[1..]);
      InsertStep(x, s, rest);
      [s[0]] + rest
    else
      [x] + s
  }

  /** Putting the head of `s` back in front of the insertion into its tail
      keeps the order and the contents. */
  lemma InsertStep(x: Prediction, s: seq<Prediction>, rest: seq<Prediction>)
    requires |s| > 0 && s[0].score >= x.score && SortedDesc(s)
    requires SortedDesc(rest) && multiset(rest) == multiset(s[1..]) + multiset{x}
    ensures SortedDesc([s[0]] + rest)
    ensures multiset([s[0]] + rest) == multiset(s) + multiset{x}
  {
    var r := [s[0]] + rest;
    assert s == [s[0]] + s[1..];
    forall l | 0 < l < |r| ensures r[0].score >= r[l].score {
      assert r[l] == rest[l - 1];
      assert r[l] in multiset(rest);
      if r[l] != x {
        assert r[l] in multiset(s[1..]);
        assert r[l] in s[1..];
      }
    }
    forall k, l | 0 < k < l < |r| ensures r[k].score >= r[l].score {
      assert r[k] == rest[k - 1] && r[l] == rest[l - 1];
    }
  }

  /** Inserting `x` in front of a list whose scores are all below its own. */
  lemma InsertFrontTies(x: Prediction, s: seq<Prediction>, v: nat)
    requires SortedDesc(s) && |s| > 0 && s[0].score < x.score
    ensures WithScore([x] + s, v) == WithScore(s, v) + (if x.score == v then [x] else [])
  {
    WithScoreCons(x, s, v);
    if x.score == v {
      WithScoreNone(s, v);
    }
  }

  /** Putting the same prediction in front of two lists keeps a relation
      between their ties. */
  lemma ConsTies(p: Prediction, a: seq<Prediction>, b: seq<Prediction>, t: seq<Prediction>, v: nat)
    requires WithScore(a, v) == WithScore(b, v) + t
    ensures WithScore([p] + a, v) == WithScore([p] + b, v) + t
  {
    WithScoreCons(p, a, v);
    WithScoreCons(p, b, v);
  }

  /** Insertion appends `x` to the predictions of its own score and leaves the
      other scores' predictions as they were. */
  lemma {:induction false} InsertTies(x: Prediction, s: seq<Prediction>, v: nat)
    requires SortedDesc(s)
    ensures WithScore(Insert(x, s), v) == WithScore(s, v) + (if x.score == v then [x] else [])
  {
    if |s| == 0 {
      assert Insert(x, s) == [x];
      assert WithScore([x], v) == (if x.score == v then [x] else []) + WithScore([x][1..], v);
    } else if s[0].score >= x.score {
      var rest := Insert(x, s[1..]);
      assert Insert(x, s) == [s[0]] + rest;
      InsertTies(x, s[1..], v);
      ConsTies(s[0], rest, s[1..], if x.score == v then [x] else [], v);
      assert s == [s[0]] + s[1..];
    } else {
      assert Insert(x, s) == [x] + s;
      InsertFrontTies(x, s, v);
    }
  }

  /** `predictions.sort(key=lambda x: x[2], reverse=True)`: highest score first,
      a permutation of the input, ties in their input order (Python's sort is
      stable, also with `reverse=True`). */
  function SortByScore(ps: seq<Prediction>): (r: seq<Prediction>)
    ensures |r| == |ps|
    ensures SortedDesc(r)
    ensures multiset(r) == multiset(ps)
  {
    if |ps| == 0 then []
    else
      var init := ps[..|ps| - 1];
      assert ps == init + [ps[|ps| - 1]];
      Insert(ps[|ps| - 1], SortByScore(init))
  }

  /** Sorting one more prediction keeps every score's ties in input order. */
  lemma SortStepTies(init: seq<Prediction>, x: Prediction, v: nat)
    requires WithScore(SortByScore(init), v) == WithScore(init, v)
    ensures WithScore(SortByScore(init + [x]), v) == WithScore(init + [x], v)
  {
    var ps := init + [x];
    assert ps[..|ps| - 1] == init && ps[|ps| - 1] == x;
    assert SortByScore(ps) == Insert(x, SortByScore(init));
    InsertTies(x, SortByScore(init), v);
    SnocTies(init, x, v);
  }

  /** Appending a prediction appends it to the ties of its score. */
  lemma SnocTies(init: seq<Prediction>, x: Prediction, v: nat)
    ensures WithScore(init + [x], v) == WithScore(init, v) + (if x.score == v then [x] else [])
  {
    WithScoreAppend(init, [x], v);
    WithScoreCons(x, [], v);
    assert [x] + [] == [x];
  }

  /** The sort is stable: for every score, its predictions keep their input order. */
  lemma {:induction false} SortByScoreStable(ps: seq<Prediction>)
    ensures SameTies(SortByScore(ps), ps)
  {
    if |ps| > 0 {
      var init := ps[..|ps| - 1];
      assert ps == init + [ps[|ps| - 1]];
      SortByScoreStable(init);
      forall v ensures WithScore(SortByScore(ps), v) == WithScore(ps, v) {
        SortStepTies(init, ps[|ps| - 1], v);
      }
    }
  }

  /** Sorted lists with the same ties start with the same prediction. */
  lemma SameTiesSameHead(q: seq<Prediction>, r: seq<Prediction>)
    requires SortedDesc(q) && SortedDesc(r) && SameTies(q, r)
    requires |q| > 0
    ensures |r| > 0 && q[0] == r[0]
  {
    var a := q[0].score;
    assert WithScore(q, a) == [q[0]] + WithScore(q[1..], a);
    assert WithScore(r, a) == WithScore(q, a);
    var b := r[0].score;
    WithScoreMembers(q, b);
    WithScoreMembers(r, a);
    assert a <= b by {
      var p := WithScore(r, a)[0];
      assert p in r;
    }
    assert WithScore(r, b) == [r[0]] + WithScore(r[1..], b);
    assert WithScore(q, b) == WithScore(r, b);
    assert b <= a by {
      var p := WithScore(q, b)[0];
      assert p in q;
    }
  }

  /** Removing the same first prediction keeps the ties equal. */
  lemma SameTiesTails(q: seq<Prediction>, r: seq<Prediction>)
    requires SameTies(q, r) && |q| > 0 && |r| > 0 && q[0] == r[0]
    ensures SameTies(q[1..], r[1..])
  {
    forall v ensures WithScore(q[1..], v) == WithScore(r[1..], v) {
      var h := if q[0].score == v then [q[0]] else [];
      assert WithScore(q, v) == h + WithScore(q[1..], v);
      assert WithScore(r, v) == h + WithScore(r[1..], v);
      assert WithScore(q, v) == WithScore(r, v);
      assert WithScore(q[1..], v) == WithScore(q, v)[|h|..];
      assert WithScore(r[1..], v) == WithScore(r, v)[|h|..];
    }
  }

  /** Two score-sorted lists with the same ties are equal: a stable descending
      sort has exactly one possible outcome. */
  lemma {:induction false} SortedWithSameTiesEqual(q: seq<Prediction>, r: seq<Prediction>)
    requires SortedDesc(q) && SortedDesc(r) && SameTies(q, r)
    ensures q == r
  {
    if |q| > 0 {
      SameTiesSameHead(q, r);
      SameTiesTails(q, r);
      SortedWithSameTiesEqual(q[1..], r[1..]);
      assert q == [q[0]] + q[1..];
      assert r == [r[0]] + r[1..];
    } else if |r| > 0 {
      SameTiesSameHead(r, q);
    }
  }

  /** Any stable descending sort of `ps` is `SortByScore(ps)`. */
  lemma StableSortUnique(ps: seq<Prediction>, q: seq<Prediction>)
    requires SortedDesc(q) && SameTies(q, ps)
    ensures q == SortByScore(ps)
  {
    SortByScoreStable(ps);
    SortedWithSameTiesEqual(q, SortByScore(ps));
  }

  /** `predictions[:top_k]`, with Python's slice rules for a negative bound. */
  function TopK(ps: seq<Prediction>, k: int): (r: seq<Prediction>)
    ensures |r| <= |ps|
    ensures k >= 0 ==> |r| == Min(k, |ps|)
    ensures k < 0 ==> |r| == (if |ps| + k < 0 then 0 else |ps| + k)
    ensures forall a :: 0 <= a < |r| ==> r[a] == ps[a]
  {
    Slice(ps, 0, k)
  }

  /** From a sorted list, the first `k` are the best: nothing left out scores
      higher than anything kept. */
  lemma TopKKeepsBest(ps: seq<Prediction>, k: int)
    requires SortedDesc(ps)
    ensures SortedDesc(TopK(ps, k))
    ensures forall a, b :: 0 <= a < |TopK(ps, k)| <= b < |ps| ==> TopK(ps, k)[a].score >= ps[b].score
  {
  }

  /** Every prediction that survives sorting and truncation is a candidate
      carrying its common-neighbour count. */
  lemma RankedAreScoredCandidates(g: Graph, topK: int)
    requires Valid(g)
    ensures forall p :: p in TopK(SortByScore(ScoreCandidates(g).value), topK) ==>
      (p.i, p.j) in CandidatePairs(g) && p.score == |Common(g, p.i, p.j)|
  {
    var preds := ScoreCandidates(g).value;
    var sorted := SortByScore(preds);
    var r := TopK(sorted, topK);
    forall p | p in r
      ensures (p.i, p.j) in CandidatePairs(g) && p.score == |Common(g, p.i, p.j)|
    {
      var a :| 0 <= a < |r| && r[a] == p;
      assert p in sorted;
      assert p in multiset(preds);
      var k :| 0 <= k < |preds| && preds[k] == p;
      assert CandidatePairs(g)[k] in CandidatePairs(g);
    }
  }

  /** The ranking part of `main` on the graph `to_networkx` builds from `edges`:
      it never fails, and its result is sorted, as long as `topK` allows, and
      made of candidates carrying their common-neighbour counts. */
  function Rank(edges: seq<Pair>, topK: int): (r: Result<seq<Prediction>, Error>)
    ensures r.Success?
    ensures SortedDesc(r.value)
    ensures topK >= 0 ==> |r.value| == Min(topK, |CandidatePairs(FromEdgeList(edges))|)
    ensures forall p :: p in r.value ==>
      (p.i, p.j) in CandidatePairs(FromEdgeList(edges)) && p.score == |Common(FromEdgeList(edges), p.i, p.j)|
  {
    var g := FromEdgeList(edges);
    var preds := ScoreCandidates(g).value;
    var sorted := SortByScore(preds);
    assert |sorted| == |CandidatePairs(g)|;
    RankedAreScoredCandidates(g, topK);
    TopKKeepsBest(sorted, topK);
    Success(TopK(sorted, topK))
  }

  /** The ranking is the first `topK` of any stable descending sort of the
      candidate predictions. */
  lemma RankIsTopOfStableSort(edges: seq<Pair>, topK: int, q: seq<Prediction>)
    requires SortedDesc(q) && SameTies(q, ScoreCandidates(FromEdgeList(edges)).value)
    ensures Rank(edges, topK) == Success(TopK(q, topK))
  {
    var g := FromEdgeList(edges);
    StableSortUnique(ScoreCandidates(g).value, q);
  }
}
