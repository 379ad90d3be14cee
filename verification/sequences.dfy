/** Sequence helpers shared by the model: distinctness, first-occurrence index,
    and Python's `s[lo:hi]` slice with its negative-index and clamping rules. */
module Sequences {

  /** No element occurs twice. */
  predicate Distinct<T(==)>(s: seq<T>) {
    forall a, b :: 0 <= a < b < |s| ==> s[a] != s[b]
  }

  /** The set of elements of a sequence. */
  function Elements<T>(s: seq<T>): set<T> {
    set x | x in s
  }

  /** Position of the first occurrence of `x` in `s` (Python's `list.index`). */
  function IndexOf<T(==)>(s: seq<T>, x: T): (k: nat)
    requires x in s
    ensures k < |s| && s[k] == x
    ensures forall j :: 0 <= j < k ==> s[j] != x
  {
    if s[0] == x then 0 else 1 + IndexOf(s[1..], x)
  }

  lemma IndexOfDistinct<T>(s: seq<T>, a: nat)
    requires Distinct(s) && a < |s|
    ensures IndexOf(s, s[a]) == a
  {
  }

  /** A duplicate-free sequence has as many elements as its set. */
  lemma {:induction false} DistinctCardinality<T>(s: seq<T>)
    requires Distinct(s)
    ensures |Elements(s)| == |s|
  {
    if |s| > 0 {
      var t := s[1..];
      assert Distinct(t) by {
        forall a, b | 0 <= a < b < |t| ensures t[a] != t[b] {
          assert t[a] == s[a + 1] && t[b] == s[b + 1];
        }
      }
      DistinctCardinality(t);
      assert s[0] !in Elements(t) by {
        forall k | 0 <= k < |t| ensures t[k] != s[0] {
          assert t[k] == s[k + 1];
        }
      }
      assert Elements(s) == {s[0]} + Elements(t) by {
        assert s == [s[0]] + t;
      }
    }
  }

  /** A subset is no larger than its superset. */
  lemma {:induction false} SubsetCardinality<T>(a: set<T>, b: set<T>)
    requires a <= b
    ensures |a| <= |b|
    decreases |b|
  {
    if a != {} {
      var x :| x in a;
      SubsetCardinality(a - {x}, b - {x});
    }
  }

  function Min(a: int, b: int): int {
    if a <= b then a else b
  }

  /** Python's normalisation of a slice bound against a length:
      a negative bound counts from the end, and the result is clamped to 0..len. */
  function Clamp(i: int, len: nat): (r: nat)
    ensures r <= len
    ensures 0 <= i <= len ==> r == i
    ensures i > len ==> r == len
    ensures i < 0 ==> r == (if i + len < 0 then 0 else i + len)
  {
    if i < 0 then (if i + len < 0 then 0 else i + len)
    else if i > len then len
    else i
  }

  /** Python's `s[lo:hi]` (step 1). */
  function Slice<T>(s: seq<T>, lo: int, hi: int): (r: seq<T>)
    ensures |r| <= |s|
    ensures forall x :: x in r ==> x in s
    ensures 0 <= lo <= hi <= |s| ==> r == s[lo..hi]
    ensures 0 <= hi <= lo ==> r == []
    ensures 0 <= lo && 0 <= hi ==> |r| == (if Min(hi, |s|) <= lo then 0 else Min(hi, |s|) - lo)
  {
    var a := Clamp(lo, |s|);
    var b := Clamp(hi, |s|);
    if a < b then s[a..b] else []
  }
}
