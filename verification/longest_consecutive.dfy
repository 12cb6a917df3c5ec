/**
 Longest consecutive sequence: the length of the longest run v, v+1, ...,
 v+L-1 of integers that all occur in an unordered input.

 The source puts the values into a hash set, starts counting only at values
 whose predecessor is absent, and extends each such run while the next
 integer is present. Java's hash-set iteration order is unspecified: the
 model takes the set's members as a sequence, and the counting loop is
 proved for every enumeration of the set.
 */
module LongestConsecutiveSequence {
  import opened IntSets

  /** All of v, v+1, ..., v+len-1 are in `s`. */
  ghost predicate RunIn(s: set<int>, v: int, len: int) {
    forall x :: v <= x < v + len ==> x in s
  }

  /** `r` is the length of a longest run of consecutive integers inside `s`. */
  ghost predicate IsLongestRun(s: set<int>, r: int) {
    && 0 <= r
    && (exists v :: RunIn(s, v, r))
    && forall v, len :: RunIn(s, v, len) ==> len <= r
  }

  /** A run inside `s` is no longer than `s` has elements. */
  lemma RunWithinSet(s: set<int>, v: int, len: int)
    requires 0 <= len && RunIn(s, v, len)
    ensures len <= |s|
  {
    SubsetSize(Range(v, v + len), s);
  }

  /** The longest-run length of a set is unique, so it cannot depend on how the set is visited. */
  lemma LongestRunUnique(s: set<int>, r1: int, r2: int)
    requires IsLongestRun(s, r1) && IsLongestRun(s, r2)
    ensures r1 == r2
  {
    var v1 :| RunIn(s, v1, r1);
    var v2 :| RunIn(s, v2, r2);
  }

  /**
   Every run extends downwards to one that starts at a value whose
   predecessor is absent; `lo` bounds the set from below.
   */
  lemma {:induction false} RunStart(s: set<int>, v: int, len: int, lo: int) returns (u: int)
    requires forall x :: x in s ==> lo <= x
    requires 1 <= len && RunIn(s, v, len)
    ensures u <= v && u - 1 !in s && RunIn(s, u, len + v - u)
    decreases v - lo
  {
    assert v in s;
    if v - 1 in s {
      u := RunStart(s, v - 1, len + 1, lo);
    } else {
      u := v;
    }
  }

  /**
   The set-building loop: `numSet` holds exactly the input values, and
   `members` lists each of them once (the order in which the model visits the set).
   */
  method BuildSet(nums: seq<int>) returns (numSet: set<int>, members: seq<int>)
    ensures numSet == Values(nums)
    ensures forall x :: x in members <==> x in numSet
    ensures forall i, j :: 0 <= i < j < |members| ==> members[i] != members[j]
    ensures |nums| > 0 ==> |members| > 0
  {
    numSet := {};
    members := [];
    var i := 0;
    while i < |nums|
      invariant 0 <= i <= |nums|
      invariant numSet == Values(nums[..i])
      invariant forall x :: x in members <==> x in numSet
      invariant forall a, b :: 0 <= a < b < |members| ==> members[a] != members[b]
      invariant i > 0 ==> |members| > 0
    {
      if nums[i] !in numSet {
        members := members + [nums[i]];
      }
      assert nums[..i + 1] == nums[..i] + [nums[i]];
      assert Values(nums[..i + 1]) == Values(nums[..i]) + {nums[i]};
      numSet := numSet + {nums[i]};
      i := i + 1;
    }
    assert nums[..i] == nums;
  }

  /**
   The inner loop: from a value `num` of the set, count how far the run
   num, num+1, ... continues. `hi` bounds the set from above.
   */
  method RunLengthFrom(numSet: set<int>, num: int, ghost hi: int) returns (currSub: int)
    requires num in numSet && forall x :: x in numSet ==> x <= hi
    ensures 1 <= currSub && RunIn(numSet, num, currSub) && num + currSub !in numSet
  {
    var currNum := num;
    currSub := 1;
    while currNum + 1 in numSet
      invariant currSub == currNum - num + 1 && currNum in numSet
      invariant RunIn(numSet, num, currSub)
      decreases hi - currNum
    {
      currNum := currNum + 1;
      currSub := currSub + 1;
    }
  }

  /** A run that stops before `num + len` is no longer than `len`. */
  lemma MaximalRun(s: set<int>, num: int, len: int, other: int)
    requires 0 <= len && num + len !in s && RunIn(s, num, other)
    ensures other <= len
  {
  }

  /**
   The loop over the set: a run is counted only from a value whose
   predecessor is absent, and the longest counted run is the answer.
   `members` is any enumeration of the non-empty set.
   */
  method CountRuns(numSet: set<int>, members: seq<int>, ghost lo: int, ghost hi: int) returns (longestSub: int)
    requires |members| > 0
    requires forall x :: x in members <==> x in numSet
    requires forall x :: x in numSet ==> lo <= x <= hi
    ensures IsLongestRun(numSet, longestSub)
    ensures 1 <= longestSub <= |numSet|
  {
    longestSub := 1;
    assert RunIn(numSet, members[0], 1);
    var k := 0;
    while k < |members|
      invariant 0 <= k <= |members|
      invariant 1 <= longestSub
      invariant exists v :: RunIn(numSet, v, longestSub)
      invariant forall j, len :: 0 <= j < k && members[j] - 1 !in numSet && RunIn(numSet, members[j], len) ==> len <= longestSub
    {
      var num := members[k];
      if num - 1 in numSet {
        k := k + 1;
        continue;
      }
      var currSub := RunLengthFrom(numSet, num, hi);
      forall len | RunIn(numSet, num, len)
        ensures len <= currSub
      {
        MaximalRun(numSet, num, currSub, len);
      }
      longestSub := if currSub > longestSub then currSub else longestSub;
      k := k + 1;
    }
    forall v, len | RunIn(numSet, v, len)
      ensures len <= longestSub
    {
      if len >= 1 {
        var u := RunStart(numSet, v, len, lo);
        assert u in numSet;
        var j :| 0 <= j < |members| && members[j] == u;
        assert RunIn(numSet, members[j], len + v - u);
      }
    }
    ghost var v :| RunIn(numSet, v, longestSub);
    RunWithinSet(numSet, v, longestSub);
  }

  /**
   The source's `longestConsecutive`: 0 for an empty input, otherwise the
   length of the longest run of consecutive integers among the input values.
   */
  method LongestConsecutive(nums: seq<int>) returns (r: int)
    ensures IsLongestRun(Values(nums), r)
    ensures |nums| == 0 <==> r == 0
    ensures r <= |Values(nums)| <= |nums|
  {
    if |nums| == 0 {
      forall v, len | RunIn(Values(nums), v, len)
        ensures len <= 0
      {
        if len >= 0 {
          RunWithinSet(Values(nums), v, len);
        }
      }
      assert RunIn(Values(nums), 0, 0);
      return 0;
    }
    var numSet, members := BuildSet(nums);
    r := CountRuns(numSet, members, MinOf(nums), MaxOf(nums));
    DistinctAtMostLength(nums);
  }
}
