/**
 Permutation in string: does some window of `s2` of length `|s1|` hold the
 same letters as `s1`, counted with multiplicity?

 The source keeps two 26-slot count arrays, one for `s1` and one for the
 current window of `s2`, and slides the window one position at a time,
 adding the letter that enters and removing the one that leaves.
 */
module PermutationInString {
  import opened Letters

  const Lower: char := 'a'

  /** The window of `s2` of length `|s1|` starting at `i` is a rearrangement of `s1`. */
  ghost predicate PermutationAt(s1: string, s2: string, i: int)
    requires 0 <= i <= |s2| - |s1|
  {
    multiset(s2[i..i + |s1|]) == multiset(s1)
  }

  /** Some window of `s2` of length `|s1|` is a rearrangement of `s1`. */
  ghost predicate HasPermutationWindow(s1: string, s2: string) {
    exists i :: 0 <= i <= |s2| - |s1| && PermutationAt(s1, s2, i)
  }

  /** The source's `matches`: all 26 counts agree. */
  method Matches(arr: seq<int>, brr: seq<int>) returns (eq: bool)
    requires |arr| == AlphabetSize && |brr| == AlphabetSize
    ensures eq <==> arr == brr
  {
    var i := 0;
    while i < AlphabetSize
      invariant 0 <= i <= AlphabetSize
      invariant arr[..i] == brr[..i]
    {
      if arr[i] != brr[i] {
        return false;
      }
      assert arr[..i + 1] == arr[..i] + [arr[i]] && brr[..i + 1] == brr[..i] + [brr[i]];
      i := i + 1;
    }
    assert arr == arr[..i] && brr == brr[..i];
    return true;
  }

  /**
   The opening loop: `map1` counts `s1` and `map2` counts the first `|s1|`
   letters of `s2`.
   */
  method InitialCounts(s1: string, s2: string) returns (map1: seq<int>, map2: seq<int>)
    requires |s1| <= |s2| && AllIn(s1, Lower) && AllIn(s2, Lower)
    ensures map1 == Profile(s1, Lower)
    ensures map2 == Profile(s2[..|s1|], Lower)
  {
    map1 := Zeros();
    map2 := Zeros();
    ProfileEmpty(Lower);
    var i := 0;
    while i < |s1|
      invariant 0 <= i <= |s1|
      invariant map1 == Profile(s1[..i], Lower)
      invariant map2 == Profile(s2[..i], Lower)
    {
      ProfileAppend(s1[..i], s1[i], Lower);
      ProfileAppend(s2[..i], s2[i], Lower);
      assert s1[..i + 1] == s1[..i] + [s1[i]];
      assert s2[..i + 1] == s2[..i] + [s2[i]];
      map1 := map1[Slot(s1[i], Lower) := map1[Slot(s1[i], Lower)] + 1];
      map2 := map2[Slot(s2[i], Lower) := map2[Slot(s2[i], Lower)] + 1];
      i := i + 1;
    }
    assert s1[..i] == s1;
  }

  /**
   One slide: counting the letter that enters and uncounting the one that
   leaves turns the counts of `s2[i..i+m]` into those of `s2[i+1..i+m+1]`.
   */
  lemma Slide(s2: string, i: int, m: int)
    requires 0 <= i && 0 <= m && i + m < |s2| && AllIn(s2, Lower)
    ensures var p := Profile(s2[i..i + m], Lower);
            var entered := p[Slot(s2[i + m], Lower) := p[Slot(s2[i + m], Lower)] + 1];
            Profile(s2[i + 1..i + m + 1], Lower)
              == entered[Slot(s2[i], Lower) := entered[Slot(s2[i], Lower)] - 1]
  {
    var w := s2[i..i + m + 1];
    assert w == s2[i..i + m] + [s2[i + m]];
    ProfileAppend(s2[i..i + m], s2[i + m], Lower);
    assert w[0] == s2[i] && w[1..] == s2[i + 1..i + m + 1];
    ProfileDropFirst(w, Lower);
  }

  /** Equal counts for a window of letters-only input means a rearrangement, and conversely. */
  lemma CountsDecideWindow(s1: string, s2: string, i: int)
    requires 0 <= i <= |s2| - |s1| && AllIn(s1, Lower) && AllIn(s2, Lower)
    ensures Profile(s2[i..i + |s1|], Lower) == Profile(s1, Lower) <==> PermutationAt(s1, s2, i)
  {
    assert AllIn(s2[i..i + |s1|], Lower);
    ProfileEqIffSameMultiset(s2[i..i + |s1|], s1, Lower);
  }

  /** The two updates of the loop body, entering letter first and leaving letter second. */
  method SlideCounts(map2: seq<int>, s2: string, i: int, m: int) returns (next: seq<int>)
    requires 0 <= i && 0 <= m && i + m < |s2| && AllIn(s2, Lower)
    requires map2 == Profile(s2[i..i + m], Lower)
    ensures next == Profile(s2[i + 1..i + 1 + m], Lower)
  {
    Slide(s2, i, m);
    next := map2[Slot(s2[i + m], Lower) := map2[Slot(s2[i + m], Lower)] + 1];
    next := next[Slot(s2[i], Lower) := next[Slot(s2[i], Lower)] - 1];
  }

  /**
   The source's `checkInclusion`. Letters are looked up only when `|s1| <= |s2|`,
   and then both strings are required to consist of 'a'..'z'; this asks more
   than the source, which stops at the first matching window without reading
   the letters after it.
   */
  method CheckInclusion(s1: string, s2: string) returns (found: bool)
    requires |s1| <= |s2| ==> AllIn(s1, Lower) && AllIn(s2, Lower)
    ensures found <==> HasPermutationWindow(s1, s2)
    ensures |s1| > |s2| ==> !found
  {
    var m := |s1|;
    if m > |s2| {
      return false;
    }
    var map1, map2 := InitialCounts(s1, s2);
    assert s2[..m] == s2[0..0 + m];
    var i := 0;
    while i < |s2| - m
      invariant 0 <= i <= |s2| - m
      invariant map1 == Profile(s1, Lower)
      invariant map2 == Profile(s2[i..i + m], Lower)
      invariant forall j :: 0 <= j < i ==> !PermutationAt(s1, s2, j)
    {
      var eq := Matches(map1, map2);
      CountsDecideWindow(s1, s2, i);
      if eq {
        return true;
      }
      map2 := SlideCounts(map2, s2, i, m);
      i := i + 1;
    }
    found := Matches(map1, map2);
    CountsDecideWindow(s1, s2, i);
  }
}
