/**
 First missing positive: the smallest positive integer absent from an array,
 found in place by using the sign of each slot as a presence flag.

 The source mutates its `int[]`. Here the array is a local sequence that each
 pass rewrites; the state the caller's array is left in is returned as a
 second result so that the side effect is part of the contract.
 */
module FirstMissingPositive {
  import opened IntSets

  function Abs(x: int): int {
    if x < 0 then -x else x
  }

  /** `r` is the smallest positive integer that does not occur in `nums`. */
  ghost predicate IsFirstMissing(nums: seq<int>, r: int) {
    && 0 < r
    && r !in nums
    && forall v :: 0 < v < r ==> v in nums
  }

  /** The placeholder rule of the second pass: out-of-range values become 1. */
  function Clamp(x: int, n: int): int {
    if x <= 0 || x > n then 1 else x
  }

  /** The value whose presence slot `j` records: slot 0 stands for `n`. */
  function SlotValue(j: int, n: int): int {
    if j == 0 then n else j
  }

  /** The slot that records value `v` (1 <= v <= n): value `n` wraps to slot 0. */
  function SlotOf(v: int, n: int): int {
    if v == n then 0 else v
  }

  /** Pass 1: whether 1 occurs, stopping at the first occurrence. */
  method ContainsOne(nums: seq<int>) returns (found: bool)
    ensures found <==> 1 in nums
  {
    found := false;
    var i := 0;
    while i < |nums|
      invariant 0 <= i <= |nums|
      invariant 1 !in nums[..i]
    {
      if nums[i] == 1 {
        found := true;
        break;
      }
      i := i + 1;
    }
    assert !found ==> nums[..i] == nums;
  }

  /** Pass 2: every value outside 1..n is replaced by 1, everything else is kept. */
  method ClampPass(nums: seq<int>) returns (c: seq<int>)
    ensures |c| == |nums|
    ensures forall j :: 0 <= j < |c| ==> 1 <= c[j] <= |nums|
    ensures forall j :: 0 <= j < |c| ==> c[j] == (if 1 <= nums[j] <= |nums| then nums[j] else 1)
  {
    var n := |nums|;
    c := nums;
    var i := 0;
    while i < n
      invariant 0 <= i <= n && |c| == n
      invariant forall j :: 0 <= j < i ==> c[j] == Clamp(nums[j], n)
      invariant forall j :: i <= j < n ==> c[j] == nums[j]
    {
      if c[i] <= 0 || c[i] > n {
        c := c[i := 1];
      }
      i := i + 1;
    }
  }

  /** Once 1 occurs, clamping keeps exactly the members of 1..n. */
  lemma ClampKeepsInRange(nums: seq<int>, c: seq<int>, v: int)
    requires 1 in nums && |c| == |nums|
    requires forall j :: 0 <= j < |c| ==> c[j] == Clamp(nums[j], |nums|)
    requires 1 <= v <= |nums|
    ensures v in c <==> v in nums
  {
    if v in nums {
      var j :| 0 <= j < |nums| && nums[j] == v;
      assert c[j] == v;
    }
    if v in c {
      var j :| 0 <= j < |c| && c[j] == v;
      if nums[j] != v {
        assert v == 1;
      }
    }
  }

  /**
   One marking step of pass 3: the slot of value `a` is made negative (value
   `n` uses slot 0); magnitudes are kept. After clamping no slot holds 0, so
   a slot's sign is a presence flag.
   */
  function Mark(m: seq<int>, a: int): (r: seq<int>)
    requires 1 <= a <= |m|
    requires forall j :: 0 <= j < |m| ==> m[j] != 0
    ensures |r| == |m|
    ensures forall j :: 0 <= j < |m| ==> Abs(r[j]) == Abs(m[j])
    ensures forall j :: 0 <= j < |m| ==> (r[j] < 0 <==> m[j] < 0 || SlotValue(j, |m|) == a)
  {
    var n := |m|;
    if a == n then m[0 := -Abs(m[0])] else m[a := -Abs(m[a])]
  }

  /**
   Pass 3: for each value `a` (read through `Abs`, since earlier marks may
   have negated it) the slot of `a` is made negative.
   */
  method MarkPass(c: seq<int>) returns (m: seq<int>)
    requires forall j :: 0 <= j < |c| ==> 1 <= c[j] <= |c|
    ensures |m| == |c|
    ensures forall j :: 0 <= j < |m| ==> Abs(m[j]) == c[j]
    ensures forall j :: 0 <= j < |m| ==> (m[j] < 0 <==> SlotValue(j, |c|) in c)
  {
    var n := |c|;
    m := c;
    var i := 0;
    while i < n
      invariant 0 <= i <= n && |m| == n
      invariant forall j :: 0 <= j < n ==> Abs(m[j]) == c[j]
      invariant forall j :: 0 <= j < n ==> (m[j] < 0 <==> SlotValue(j, n) in c[..i])
    {
      var a := Abs(m[i]);
      assert a == c[i];
      assert forall j :: 0 <= j < n ==> m[j] != 0;
      assert c[..i + 1] == c[..i] + [a];
      assert forall v :: v in c[..i + 1] <==> v in c[..i] || v == a;
      m := Mark(m, a);
      i := i + 1;
    }
    assert c[..n] == c;
  }

  /**
   Pass 4: the first slot among 1..n-1 still positive names the answer;
   otherwise slot 0 decides between n and n + 1.
   */
  method ScanPass(m: seq<int>) returns (r: int)
    requires |m| > 0
    ensures 1 <= r <= |m| + 1
    ensures forall v :: 1 <= v < r ==> m[SlotOf(v, |m|)] <= 0
    ensures r <= |m| ==> m[SlotOf(r, |m|)] > 0
  {
    var n := |m|;
    var i := 1;
    while i < n
      invariant 1 <= i <= n
      invariant forall v :: 1 <= v < i ==> m[SlotOf(v, n)] <= 0
    {
      if m[i] > 0 {
        return i;
      }
      i := i + 1;
    }
    if m[0] > 0 {
      return n;
    }
    return n + 1;
  }

  /**
   Pigeonhole: an array of length n that holds all of 1..n has no room for
   n + 1, so n + 1 is then the first missing positive.
   */
  lemma AllSmallPresentExcludesNext(nums: seq<int>)
    requires forall v :: 1 <= v <= |nums| ==> v in nums
    ensures |nums| + 1 !in nums
  {
    var n := |nums|;
    if n + 1 in nums {
      var range := Range(1, n + 2);
      var values := Values(nums);
      assert range <= values;
      DistinctAtMostLength(nums);
      SubsetSize(range, values);
    }
  }

  /** What the fourth pass reads off the marked array is the first missing positive. */
  lemma ScanFindsFirstMissing(nums: seq<int>, c: seq<int>, m: seq<int>, r: int)
    requires 1 in nums && |c| == |nums| == |m|
    requires forall j :: 0 <= j < |c| ==> c[j] == Clamp(nums[j], |nums|)
    requires forall j :: 0 <= j < |m| ==> Abs(m[j]) == c[j]
    requires forall j :: 0 <= j < |m| ==> (m[j] < 0 <==> SlotValue(j, |c|) in c)
    requires 1 <= r <= |m| + 1
    requires forall v :: 1 <= v < r ==> m[SlotOf(v, |m|)] <= 0
    requires r <= |m| ==> m[SlotOf(r, |m|)] > 0
    ensures IsFirstMissing(nums, r)
  {
    var n := |nums|;
    forall v | 1 <= v < r
      ensures v in nums
    {
      var j := SlotOf(v, n);
      assert SlotValue(j, n) == v;
      assert m[j] < 0;
      ClampKeepsInRange(nums, c, v);
    }
    if r <= n {
      var j := SlotOf(r, n);
      assert SlotValue(j, n) == r;
      ClampKeepsInRange(nums, c, r);
    } else {
      AllSmallPresentExcludesNext(nums);
    }
  }

  /**
   The whole algorithm. `r` is the answer; `after` is what the caller's
   array holds on return.
   */
  method FirstMissingPositive(nums: seq<int>) returns (r: int, after: seq<int>)
    ensures IsFirstMissing(nums, r)
    ensures 1 <= r <= |nums| + 1
    ensures r == |nums| + 1 <==> forall v :: 1 <= v <= |nums| ==> v in nums
    ensures 1 !in nums ==> r == 1 && after == nums
    ensures |after| == |nums|
    ensures 1 in nums ==> forall j :: 0 <= j < |after| ==>
              && Abs(after[j]) == Clamp(nums[j], |nums|)
              && (after[j] < 0 <==> SlotValue(j, |nums|) in nums)
  {
    var n := |nums|;
    var hasOne := ContainsOne(nums);
    if !hasOne {
      return 1, nums;
    }
    var c := ClampPass(nums);
    var m := MarkPass(c);
    r := ScanPass(m);
    after := m;
    ScanFindsFirstMissing(nums, c, m, r);
    forall j | 0 <= j < n
      ensures after[j] < 0 <==> SlotValue(j, n) in nums
    {
      ClampKeepsInRange(nums, c, SlotValue(j, n));
    }
  }
}
