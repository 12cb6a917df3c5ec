/**
 Facts about finite sets of integers shared by the array solutions: the set
 of a range of integers, and the sizes of subsets and of a sequence's values.
 */
module IntSets {

  /** The integers lo..hi-1, as a set. */
  function Range(lo: int, hi: int): (r: set<int>)
    ensures forall x :: x in r <==> lo <= x < hi
    ensures lo <= hi ==> |r| == hi - lo
    decreases hi - lo
  {
    if lo >= hi then {} else Range(lo, hi - 1) + {hi - 1}
  }

  /** The distinct values of a sequence. */
  function Values(s: seq<int>): set<int> {
    set x | x in s
  }

  /** A sequence holds at most as many distinct values as it has elements. */
  lemma {:induction false} DistinctAtMostLength(s: seq<int>)
    ensures |Values(s)| <= |s|
  {
    if |s| > 0 {
      DistinctAtMostLength(s[1..]);
      assert Values(s) == Values(s[1..]) + {s[0]};
    } else {
      assert Values(s) == {};
    }
  }

  /** A subset is no larger than its superset. */
  lemma SubsetSize(a: set<int>, b: set<int>)
    requires a <= b
    ensures |a| <= |b|
  {
    assert b == a + (b - a);
    assert a * (b - a) == {};
  }

  /** The largest entry of a non-empty sequence. */
  function MaxOf(p: seq<int>): (m: int)
    requires |p| > 0
    ensures forall j :: 0 <= j < |p| ==> p[j] <= m
    ensures exists j :: 0 <= j < |p| && p[j] == m
  {
    if |p| == 1 then p[0]
    else
      var rest := MaxOf(p[1..]);
      assert forall j :: 1 <= j < |p| ==> p[j] == p[1..][j - 1];
      if p[0] > rest then p[0] else rest
  }

  /** The smallest entry of a non-empty sequence. */
  function MinOf(p: seq<int>): (m: int)
    requires |p| > 0
    ensures forall j :: 0 <= j < |p| ==> m <= p[j]
    ensures exists j :: 0 <= j < |p| && p[j] == m
  {
    if |p| == 1 then p[0]
    else
      var rest := MinOf(p[1..]);
      assert forall j :: 1 <= j < |p| ==> p[j] == p[1..][j - 1];
      if p[0] < rest then p[0] else rest
  }
}
