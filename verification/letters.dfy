/**
 Letter profiles over a 26-letter alphabet.

 The sliding-window solutions keep an `int[26]` in which slot `j` counts the
 occurrences of the letter `base + j` inside the current window (`base` is
 'a' for lower-case input and 'A' for upper-case input). This module defines
 that array as a function of the window's contents, `Profile`, in terms of the
 window's multiset, and proves the incremental updates the loops perform.
 */
module Letters {

  const AlphabetSize: int := 26

  /** A first letter for which all 26 letters are valid characters. */
  predicate ValidBase(base: char) {
    base as int + AlphabetSize <= 0xD800
  }

  /** `c` is one of the 26 letters starting at `base`. */
  predicate InAlphabet(c: char, base: char) {
    base as int <= c as int < base as int + AlphabetSize
  }

  /** Every character of `s` is one of the 26 letters starting at `base`. */
  predicate AllIn(s: string, base: char) {
    forall i :: 0 <= i < |s| ==> InAlphabet(s[i], base)
  }

  /** The array slot of letter `c`, the source's `c - 'a'` (or `c - 'A'`). */
  function Slot(c: char, base: char): (j: int)
    requires InAlphabet(c, base)
    ensures 0 <= j < AlphabetSize
  {
    c as int - base as int
  }

  /** The letter counted in slot `j`. */
  function Letter(base: char, j: int): (c: char)
    requires ValidBase(base) && 0 <= j < AlphabetSize
    ensures InAlphabet(c, base) && Slot(c, base) == j
  {
    (base as int + j) as char
  }

  /** The 26 letter counts of `s`: slot `j` holds the multiplicity of `Letter(base, j)`. */
  function Profile(s: string, base: char): (p: seq<int>)
    requires ValidBase(base)
    ensures |p| == AlphabetSize
  {
    seq(AlphabetSize, j requires 0 <= j < AlphabetSize => multiset(s)[Letter(base, j)])
  }

  /** The all-zero array the source starts from (`new int[26]`). */
  function Zeros(): (p: seq<int>)
    ensures |p| == AlphabetSize
  {
    seq(AlphabetSize, j => 0)
  }

  function Sum(p: seq<int>): int
  {
    if |p| == 0 then 0 else Sum(p[..|p| - 1]) + p[|p| - 1]
  }

  /** The empty window has the all-zero profile. */
  lemma ProfileEmpty(base: char)
    requires ValidBase(base)
    ensures Profile([], base) == Zeros()
  {
  }

  /** A letter entering at the right end increments exactly its own slot. */
  lemma ProfileAppend(s: string, c: char, base: char)
    requires ValidBase(base) && InAlphabet(c, base)
    ensures var p := Profile(s, base);
            Profile(s + [c], base) == p[Slot(c, base) := p[Slot(c, base)] + 1]
  {
    var p := Profile(s, base);
    var q := Profile(s + [c], base);
    assert multiset(s + [c]) == multiset(s) + multiset{c};
    forall j | 0 <= j < AlphabetSize
      ensures q[j] == p[Slot(c, base) := p[Slot(c, base)] + 1][j]
    {
      if j == Slot(c, base) {
        assert Letter(base, j) == c;
      } else {
        assert Letter(base, j) != c;
      }
    }
  }

  /** A letter leaving at the left end decrements exactly its own slot. */
  lemma ProfileDropFirst(s: string, base: char)
    requires ValidBase(base) && |s| > 0 && InAlphabet(s[0], base)
    ensures var p := Profile(s, base);
            Profile(s[1..], base) == p[Slot(s[0], base) := p[Slot(s[0], base)] - 1]
  {
    var c := s[0];
    var p := Profile(s, base);
    var q := Profile(s[1..], base);
    assert s == [c] + s[1..];
    assert multiset(s) == multiset{c} + multiset(s[1..]);
    forall j | 0 <= j < AlphabetSize
      ensures q[j] == p[Slot(c, base) := p[Slot(c, base)] - 1][j]
    {
      if j == Slot(c, base) {
        assert Letter(base, j) == c;
      } else {
        assert Letter(base, j) != c;
      }
    }
  }

  /** For words over the alphabet, equal profiles means equal multisets, and conversely. */
  lemma ProfileEqIffSameMultiset(a: string, b: string, base: char)
    requires ValidBase(base) && AllIn(a, base) && AllIn(b, base)
    ensures Profile(a, base) == Profile(b, base) <==> multiset(a) == multiset(b)
  {
    if Profile(a, base) == Profile(b, base) {
      forall c
        ensures multiset(a)[c] == multiset(b)[c]
      {
        if InAlphabet(c, base) {
          var j := Slot(c, base);
          assert Letter(base, j) == c;
          assert Profile(a, base)[j] == Profile(b, base)[j];
        } else {
          assert c !in a && c !in b;
        }
      }
    }
  }

  lemma SumIncrement(p: seq<int>, j: int, d: int)
    requires 0 <= j < |p|
    ensures Sum(p[j := p[j] + d]) == Sum(p) + d
  {
    var q := p[j := p[j] + d];
    if j == |p| - 1 {
      assert q[..|q| - 1] == p[..|p| - 1];
    } else {
      assert q[..|q| - 1] == p[..|p| - 1][j := p[j] + d];
      SumIncrement(p[..|p| - 1], j, d);
    }
  }

  lemma SumZeros(n: nat)
    ensures Sum(seq(n, j => 0)) == 0
  {
    if n > 0 {
      assert seq(n, j => 0)[..n - 1] == seq(n - 1, j => 0);
      SumZeros(n - 1);
    }
  }

  /** The counts of a window over the alphabet add up to the window's length. */
  lemma {:induction false} ProfileSumIsLength(s: string, base: char)
    requires ValidBase(base) && AllIn(s, base)
    ensures Sum(Profile(s, base)) == |s|
  {
    if |s| == 0 {
      ProfileEmpty(base);
      SumZeros(AlphabetSize);
    } else {
      var init := s[..|s| - 1];
      var c := s[|s| - 1];
      assert s == init + [c];
      ProfileSumIsLength(init, base);
      ProfileAppend(init, c, base);
      SumIncrement(Profile(init, base), Slot(c, base), 1);
    }
  }
}
