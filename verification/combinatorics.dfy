/** `itertools.combinations(s, 2)`: the pairs (s[a], s[b]) with a < b, in
    lexicographic order of their positions (a, b). The order depends only on
    positions, never on the values. */
module Combinatorics {
  import opened Sequences

  type Position = (nat, nat)

  /** `p` comes strictly before `q` in lexicographic order. */
  predicate LexLess(p: Position, q: Position) {
    p.0 < q.0 || (p.0 == q.0 && p.1 < q.1)
  }

  /** The row of position pairs whose first position is `a`: (a, a+1), ..., (a, n-1). */
  function Row(a: nat, n: nat): (r: seq<Position>)
    requires a < n
    ensures |r| == n - a - 1
    ensures forall p :: p in r <==> p.0 == a && a < p.1 < n
    ensures forall k, l :: 0 <= k < l < |r| ==> LexLess(r[k], r[l])
  {
    var r := seq(n - a - 1, k requires 0 <= k < n - a - 1 => (a, a + 1 + k));
    assert forall p: Position :: p.0 == a && a < p.1 < n ==> r[p.1 - a - 1] == p;
    r
  }

  /** The position pairs `combinations` visits once its first position has reached `a`. */
  function IndexPairsFrom(a: nat, n: nat): (r: seq<Position>)
    ensures forall p :: p in r <==> a <= p.0 < p.1 < n
    ensures forall k, l :: 0 <= k < l < |r| ==> LexLess(r[k], r[l])
    ensures a <= n ==> 2 * |r| == (n - a) * (n - a - 1)
    decreases n - a
  {
    if a >= n then []
    else
      var row := Row(a, n);
      var rest := IndexPairsFrom(a + 1, n);
      RowPrecedesRest(row, rest, a);
      PairCountStep(n - a, |rest|);
      row + rest
  }

  lemma RowPrecedesRest(row: seq<Position>, rest: seq<Position>, a: nat)
    requires forall p :: p in row ==> p.0 == a
    requires forall p :: p in rest ==> a < p.0
    requires forall k, l :: 0 <= k < l < |row| ==> LexLess(row[k], row[l])
    requires forall k, l :: 0 <= k < l < |rest| ==> LexLess(rest[k], rest[l])
    ensures forall k, l :: 0 <= k < l < |row + rest| ==> LexLess((row + rest)[k], (row + rest)[l])
  {
    var r := row + rest;
    forall k, l | 0 <= k < l < |r| ensures LexLess(r[k], r[l]) {
      if l < |row| {
        assert r[k] == row[k] && r[l] == row[l];
      } else if k >= |row| {
        assert r[k] == rest[k - |row|] && r[l] == rest[l - |row|];
      } else {
        assert r[k] == row[k] && r[l] == rest[l - |row|];
        assert row[k] in row && rest[l - |row|] in rest;
      }
    }
  }

  /** Row `a` adds m - 1 pairs to the (m - 1)(m - 2) / 2 pairs that follow it. */
  lemma PairCountStep(m: nat, rest: nat)
    requires m >= 1 && 2 * rest == (m - 1) * (m - 2)
    ensures 2 * ((m - 1) + rest) == m * (m - 1)
  {
  }

  /** The position pairs of `combinations(range(n), 2)`. */
  function IndexPairs(n: nat): (r: seq<Position>)
    ensures forall p :: p in r <==> p.0 < p.1 < n
    ensures forall k, l :: 0 <= k < l < |r| ==> LexLess(r[k], r[l])
    ensures 2 * |r| == n * (n - 1)
  {
    IndexPairsFrom(0, n)
  }

  /** `combinations(s, 2)`: the pair of elements at each position pair, in order. */
  function Combinations<T>(s: seq<T>): (r: seq<(T, T)>)
    ensures |r| == |IndexPairs(|s|)|
    ensures forall k :: 0 <= k < |r| ==>
      IndexPairs(|s|)[k].1 < |s| && r[k] == (s[IndexPairs(|s|)[k].0], s[IndexPairs(|s|)[k].1])
  {
    var ps := IndexPairs(|s|);
    assert forall k :: 0 <= k < |ps| ==> ps[k] in ps;
    seq(|ps|, k requires 0 <= k < |ps| => (s[ps[k].0], s[ps[k].1]))
  }

  /** The positions in `s` of the two elements of a pair. */
  function Positions<T(==)>(s: seq<T>, c: (T, T)): Position
    requires c.0 in s && c.1 in s
  {
    (IndexOf(s, c.0), IndexOf(s, c.1))
  }

  /** Every pair of `cs` is made of elements of `s`, the first earlier in `s`
      than the second, and the pairs come in lexicographic order of positions. */
  ghost predicate PositionOrdered<T>(s: seq<T>, cs: seq<(T, T)>) {
    && (forall k :: 0 <= k < |cs| ==> cs[k].0 in s && cs[k].1 in s)
    && (forall k :: 0 <= k < |cs| ==> IndexOf(s, cs[k].0) < IndexOf(s, cs[k].1))
    && (forall k, l :: 0 <= k < l < |cs| ==> LexLess(Positions(s, cs[k]), Positions(s, cs[l])))
  }

  /** For duplicate-free `s`, the 2-combinations are exactly the pairs of
      elements whose first comes earlier in `s` than the second ... */
  lemma CombinationsMembers<T>(s: seq<T>)
    requires Distinct(s)
    ensures forall x, y :: (x, y) in Combinations(s) <==> x in s && y in s && IndexOf(s, x) < IndexOf(s, y)
  {
    var ps := IndexPairs(|s|);
    var cs := Combinations(s);
    forall x, y | x in s && y in s && IndexOf(s, x) < IndexOf(s, y)
      ensures (x, y) in cs
    {
      var p := (IndexOf(s, x), IndexOf(s, y));
      assert p in ps;
      var k :| 0 <= k < |ps| && ps[k] == p;
      assert cs[k] == (x, y);
    }
    forall x, y | (x, y) in cs
      ensures x in s && y in s && IndexOf(s, x) < IndexOf(s, y)
    {
      var k :| 0 <= k < |cs| && cs[k] == (x, y);
      assert ps[k] in ps;
      IndexOfDistinct(s, ps[k].0);
      IndexOfDistinct(s, ps[k].1);
    }
  }

  /** ... and they come in the lexicographic order of their positions. */
  lemma CombinationsOrder<T>(s: seq<T>)
    requires Distinct(s)
    ensures PositionOrdered(s, Combinations(s))
  {
    var ps := IndexPairs(|s|);
    var cs := Combinations(s);
    forall k | 0 <= k < |cs|
      ensures cs[k].0 in s && cs[k].1 in s && Positions(s, cs[k]) == ps[k]
    {
      assert ps[k] in ps;
      IndexOfDistinct(s, ps[k].0);
      IndexOfDistinct(s, ps[k].1);
    }
    forall k | 0 <= k < |cs|
      ensures IndexOf(s, cs[k].0) < IndexOf(s, cs[k].1)
    {
      assert ps[k] in ps;
    }
  }
}
