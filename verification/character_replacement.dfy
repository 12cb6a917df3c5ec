/**
 Longest repeating character replacement: the length of the longest
 substring that can be made of a single letter by replacing at most `k` of
 its letters, i.e. whose length minus the count of its most frequent letter
 is at most `k`.

 The source slides a window that grows by one letter per step and, when the
 window needs more than `k` replacements according to `maxFq`, drops one
 letter from the left. `maxFq` is the largest letter count seen in any window
 so far; it is never lowered when letters leave, so it can be stale. The
 window length therefore never decreases, and the final length is the answer.
 */
module CharacterReplacement {
  import opened Letters
  import opened IntSets

  const Upper: char := 'A'

  /** The count of the most frequent letter of `w`. */
  function MostFrequent(w: string): int {
    MaxOf(Profile(w, Upper))
  }

  /** `w` becomes a single repeated letter after at most `k` replacements. */
  predicate Fits(w: string, k: int) {
    |w| - MostFrequent(w) <= k
  }

  /** The substring `s[a..b]` fits the budget `k`. */
  ghost predicate FitsAt(s: string, k: int, a: int, b: int)
    requires 0 <= a <= b <= |s|
  {
    Fits(s[a..b], k)
  }

  /** The substring of length `len` starting at `a` fits the budget `k`. */
  ghost predicate FitsFrom(s: string, k: int, a: int, len: int)
    requires 0 <= a && 0 <= len && a + len <= |s|
  {
    Fits(s[a..a + len], k)
  }

  /** `r` is the length of a longest substring of `s` that fits the budget `k`. */
  ghost predicate IsLongestFit(s: string, k: int, r: int) {
    && 0 <= r <= |s|
    && (exists a :: 0 <= a <= |s| - r && FitsFrom(s, k, a, r))
    && forall a, b :: 0 <= a <= b <= |s| && FitsAt(s, k, a, b) ==> b - a <= r
  }

  /**
   The loop state of the source: the window is `s[left..right]` (the source's
   `right` is this `right - 1`), `frequency` its letter counts, `maxFq` the
   stale maximum and `ans` the best length so far.
   */
  datatype Window = Window(left: int, right: int, frequency: seq<int>, maxFq: int, ans: int)

  /** The state before the first step. */
  function Start(): Window {
    Window(0, 0, Zeros(), 0, 0)
  }

  /**
   One iteration of the source's loop: the next letter enters the window;
   if the window then needs more than `k` replacements according to `maxFq`,
   the leftmost letter leaves.
   */
  function Step(s: string, k: int, w: Window): (w': Window)
    requires AllIn(s, Upper) && 0 <= w.left <= w.right < |s| && |w.frequency| == AlphabetSize
    ensures w'.right == w.right + 1
    ensures w'.left == w.left || w'.left == w.left + 1
    ensures w.right - w.left <= w'.right - w'.left <= w.right - w.left + 1
    ensures w.maxFq <= w'.maxFq
    ensures |w'.frequency| == AlphabetSize
  {
    var j := Slot(s[w.right], Upper);
    var frequency := w.frequency[j := w.frequency[j] + 1];
    var maxFq := if w.maxFq >= frequency[j] then w.maxFq else frequency[j];
    if w.right - w.left + 1 - maxFq > k then
      var i := Slot(s[w.left], Upper);
      var length := w.right - w.left;
      Window(w.left + 1, w.right + 1, frequency[i := frequency[i] - 1], maxFq,
             if w.ans >= length then w.ans else length)
    else
      var length := w.right - w.left + 1;
      Window(w.left, w.right + 1, frequency, maxFq, if w.ans >= length then w.ans else length)
  }

  /** Some window no longer than the current one, ending by `right`, holds `maxFq` equal letters. */
  ghost predicate WitnessAt(s: string, w: Window, lo: int, hi: int) {
    && 0 <= lo <= hi <= w.right <= |s|
    && hi - lo <= w.right - w.left
    && MostFrequent(s[lo..hi]) >= w.maxFq
  }

  /** The window lies inside `s` and `frequency` holds its letter counts. */
  ghost predicate Tracks(s: string, w: Window) {
    && 0 <= w.left <= w.right <= |s|
    && w.frequency == Profile(s[w.left..w.right], Upper)
  }

  /** `maxFq` is at least every count of the window. */
  ghost predicate Bounded(w: Window) {
    forall j :: 0 <= j < |w.frequency| ==> w.frequency[j] <= w.maxFq
  }

  /** No substring ending by `right` that fits the budget is longer than the window. */
  ghost predicate Complete(s: string, k: int, w: Window) {
    forall a, b :: 0 <= a <= b <= w.right && b <= |s| && FitsAt(s, k, a, b) ==> b - a <= w.right - w.left
  }

  /** What holds of the loop state after every iteration. */
  ghost predicate Inv(s: string, k: int, w: Window) {
    && Tracks(s, w)
    && Bounded(w)
    && w.ans == w.right - w.left
    && (k < 0 ==> w.left == w.right && w.maxFq <= 1)
    && (k >= 0 ==> w.right - w.left - w.maxFq <= k)
    && (k >= 0 ==> exists lo, hi :: WitnessAt(s, w, lo, hi))
    && (k >= 0 ==> Complete(s, k, w))
  }

  lemma MaxOfMonotone(p: seq<int>, q: seq<int>)
    requires |p| == |q| > 0
    requires forall j :: 0 <= j < |p| ==> p[j] <= q[j]
    ensures MaxOf(p) <= MaxOf(q)
  {
    var j :| 0 <= j < |p| && p[j] == MaxOf(p);
  }

  /** A letter count never exceeds the length of the word. */
  lemma CountAtMostLength(w: string, j: int)
    requires AllIn(w, Upper) && 0 <= j < AlphabetSize
    ensures 0 <= Profile(w, Upper)[j] <= |w|
  {
    var p := Profile(w, Upper);
    ProfileSumIsLength(w, Upper);
    SumBounds(p, j);
  }

  lemma {:induction false} SumBounds(p: seq<int>, j: int)
    requires 0 <= j < |p| && forall i :: 0 <= i < |p| ==> p[i] >= 0
    ensures p[j] <= Sum(p)
  {
    var init := p[..|p| - 1];
    SumNonNegative(init);
    if j < |p| - 1 {
      SumBounds(init, j);
    }
  }

  lemma {:induction false} SumNonNegative(p: seq<int>)
    requires forall i :: 0 <= i < |p| ==> p[i] >= 0
    ensures Sum(p) >= 0
  {
    if |p| > 0 {
      SumNonNegative(p[..|p| - 1]);
    }
  }

  /** The most frequent letter of a word over 'A'..'Z' occurs at most as often as the word is long. */
  lemma MostFrequentAtMostLength(w: string)
    requires AllIn(w, Upper)
    ensures 0 <= MostFrequent(w) <= |w|
  {
    var p := Profile(w, Upper);
    var j :| 0 <= j < |p| && p[j] == MaxOf(p);
    CountAtMostLength(w, j);
  }

  /** With a negative budget no substring fits, not even the empty one. */
  lemma NothingFitsNegativeBudget(s: string, k: int, a: int, b: int)
    requires AllIn(s, Upper) && k < 0 && 0 <= a <= b <= |s|
    ensures !FitsAt(s, k, a, b)
  {
    assert AllIn(s[a..b], Upper);
    MostFrequentAtMostLength(s[a..b]);
  }

  /** Dropping the last letter of a word that fits keeps it fitting. */
  lemma FitsDropLast(w: string, c: char, k: int)
    requires InAlphabet(c, Upper) && Fits(w + [c], k)
    ensures Fits(w, k)
  {
    var p := Profile(w, Upper);
    var q := Profile(w + [c], Upper);
    ProfileAppend(w, c, Upper);
    var j :| 0 <= j < |q| && q[j] == MaxOf(q);
    assert q[j] <= p[j] + 1;
  }

  /** A substring holds no more of any letter than a substring enclosing it. */
  lemma EnclosedCounts(s: string, a: int, lo: int, hi: int, b: int)
    requires 0 <= a <= lo <= hi <= b <= |s|
    ensures MostFrequent(s[lo..hi]) <= MostFrequent(s[a..b])
  {
    assert s[a..b] == s[a..lo] + s[lo..hi] + s[hi..b];
    assert multiset(s[a..b]) == multiset(s[a..lo]) + multiset(s[lo..hi]) + multiset(s[hi..b]);
    MaxOfMonotone(Profile(s[lo..hi], Upper), Profile(s[a..b], Upper));
  }

  /**
   A window of length at most `len` ending by `n` with `m` equal letters
   extends to a substring of length exactly `len` inside `s[..n]` that fits
   whenever `len - m <= k`.
   */
  lemma ExtendWitness(s: string, k: int, lo: int, hi: int, n: int, len: int, m: int)
    requires 0 <= lo <= hi <= n <= |s| && hi - lo <= len <= n
    requires MostFrequent(s[lo..hi]) >= m && len - m <= k
    ensures exists a :: 0 <= a <= n - len && FitsFrom(s, k, a, len)
  {
    var a := if hi >= len then hi - len else 0;
    assert 0 <= a <= lo && hi <= a + len <= n;
    EnclosedCounts(s, a, lo, hi, a + len);
    var window := s[a..a + len];
    assert |window| == len && MostFrequent(window) >= m;
    assert Fits(window, k);
    assert FitsFrom(s, k, a, len);
  }

  /** The letter counts follow the window through a step. */
  lemma StepCounts(s: string, k: int, w: Window)
    requires AllIn(s, Upper) && Tracks(s, w) && w.right < |s|
    ensures Tracks(s, Step(s, k, w))
  {
    var n := w.right;
    var grown := s[w.left..n + 1];
    assert grown == s[w.left..n] + [s[n]];
    ProfileAppend(s[w.left..n], s[n], Upper);
    var w' := Step(s, k, w);
    if w'.left == w.left + 1 {
      assert grown[0] == s[w.left] && grown[1..] == s[w.left + 1..n + 1];
      ProfileDropFirst(grown, Upper);
    }
  }

  /** After a step `maxFq` still bounds every count of the window. */
  lemma StepBounded(s: string, k: int, w: Window)
    requires AllIn(s, Upper) && Tracks(s, w) && Bounded(w) && w.right < |s|
    ensures Bounded(Step(s, k, w))
  {
  }

  /**
   The window grown by the entering letter is kept whole when it fits the
   budget: `maxFq` is at least its true most-frequent count, so the stale
   test cannot reject it.
   */
  lemma GrownWindowKept(s: string, k: int, w: Window)
    requires AllIn(s, Upper) && Tracks(s, w) && Bounded(w) && w.right < |s|
    requires FitsAt(s, k, w.left, w.right + 1)
    ensures Step(s, k, w).left == w.left
  {
    var n := w.right;
    var j := Slot(s[n], Upper);
    var grown := Profile(s[w.left..n + 1], Upper);
    assert s[w.left..n + 1] == s[w.left..n] + [s[n]];
    ProfileAppend(s[w.left..n], s[n], Upper);
    var maxFq := Step(s, k, w).maxFq;
    assert grown[j] <= maxFq;
    var top :| 0 <= top < |grown| && grown[top] == MaxOf(grown);
    assert MostFrequent(s[w.left..n + 1]) <= maxFq;
  }

  /**
   The stale maximum is always backed by a real window: if `maxFq` grew in
   this step, the grown window (which then does not shrink) holds that many
   equal letters; otherwise the previous witness still serves.
   */
  lemma StepWitness(s: string, k: int, w: Window)
    requires AllIn(s, Upper) && Inv(s, k, w) && w.right < |s| && k >= 0
    ensures exists lo, hi :: WitnessAt(s, Step(s, k, w), lo, hi)
    ensures Step(s, k, w).right - Step(s, k, w).left - Step(s, k, w).maxFq <= k
  {
    var w' := Step(s, k, w);
    var n := w.right;
    var j := Slot(s[n], Upper);
    if w'.maxFq > w.maxFq {
      assert s[w.left..n + 1] == s[w.left..n] + [s[n]];
      ProfileAppend(s[w.left..n], s[n], Upper);
      assert w'.left == w.left;
      assert Profile(s[w.left..n + 1], Upper)[j] == w'.maxFq;
      assert WitnessAt(s, w', w.left, n + 1);
    } else {
      var lo, hi :| WitnessAt(s, w, lo, hi);
      assert WitnessAt(s, w', lo, hi);
    }
  }

  /**
   No fitting substring ending by the new right end is longer than the new
   window: the only candidate one longer than the old window is the grown
   window itself, which is kept whole when it fits.
   */
  lemma StepComplete(s: string, k: int, w: Window)
    requires AllIn(s, Upper) && Tracks(s, w) && Bounded(w) && Complete(s, k, w) && w.right < |s|
    ensures Complete(s, k, Step(s, k, w))
  {
    forall a, b | 0 <= a <= b <= w.right + 1 && b <= |s| && FitsAt(s, k, a, b)
      ensures b - a <= Step(s, k, w).right - Step(s, k, w).left
    {
      if b == w.right + 1 {
        EndingAtNewRight(s, k, w, a);
      }
    }
  }

  /** A fitting substring that ends with the entering letter is no longer than the new window. */
  lemma EndingAtNewRight(s: string, k: int, w: Window, a: int)
    requires AllIn(s, Upper) && Tracks(s, w) && Bounded(w) && Complete(s, k, w) && w.right < |s|
    requires 0 <= a <= w.right + 1 && FitsAt(s, k, a, w.right + 1)
    ensures w.right + 1 - a <= Step(s, k, w).right - Step(s, k, w).left
  {
    var n := w.right;
    if a <= n {
      assert s[a..n + 1] == s[a..n] + [s[n]];
      FitsDropLast(s[a..n], s[n], k);
      assert FitsAt(s, k, a, n);
      if a == w.left {
        GrownWindowKept(s, k, w);
      }
    }
  }

  /** With a negative budget the window stays empty and `maxFq` stays at most 1. */
  lemma StepNegativeBudget(s: string, k: int, w: Window)
    requires AllIn(s, Upper) && Inv(s, k, w) && w.right < |s| && k < 0
    ensures Step(s, k, w).left == Step(s, k, w).right && Step(s, k, w).maxFq <= 1
  {
    var n := w.right;
    assert s[w.left..n] == [];
    ProfileEmpty(Upper);
  }

  /** Every iteration of the source's loop keeps the invariant. */
  lemma StepKeepsInv(s: string, k: int, w: Window)
    requires AllIn(s, Upper) && Inv(s, k, w) && w.right < |s|
    ensures Inv(s, k, Step(s, k, w))
  {
    StepCounts(s, k, w);
    StepBounded(s, k, w);
    if k >= 0 {
      StepWitness(s, k, w);
      StepComplete(s, k, w);
    } else {
      StepNegativeBudget(s, k, w);
    }
  }

  /** The 26 counts of the window add up to the window's length. */
  lemma WindowCountsSumToLength(s: string, k: int, w: Window)
    requires AllIn(s, Upper) && Inv(s, k, w)
    ensures Sum(w.frequency) == w.right - w.left
  {
    assert AllIn(s[w.left..w.right], Upper);
    ProfileSumIsLength(s[w.left..w.right], Upper);
  }

  /** The state before the first step satisfies the invariant. */
  lemma StartInv(s: string, k: int)
    ensures Inv(s, k, Start())
  {
    ProfileEmpty(Upper);
    assert s[0..0] == [];
    if k >= 0 {
      assert WitnessAt(s, Start(), 0, 0);
    }
  }

  /** Once every letter has entered, the window length is the answer. */
  lemma InvAtEnd(s: string, k: int, w: Window)
    requires Inv(s, k, w) && w.right == |s|
    ensures 0 <= w.ans <= |s|
    ensures k >= 0 ==> IsLongestFit(s, k, w.ans)
    ensures k < 0 ==> w.ans == 0
  {
    if k >= 0 {
      var lo, hi :| WitnessAt(s, w, lo, hi);
      ExtendWitness(s, k, lo, hi, |s|, w.ans, w.maxFq);
    }
  }

  /**
   The source's `characterReplacement`: for a non-negative budget, the length
   of the longest substring that fits it; 0 for a negative budget.
   */
  method CharacterReplacement(s: string, k: int) returns (ans: int)
    requires AllIn(s, Upper)
    ensures 0 <= ans <= |s|
    ensures k >= 0 ==> IsLongestFit(s, k, ans)
    ensures k < 0 ==> ans == 0
    ensures |s| == 0 ==> ans == 0
  {
    var w := Start();
    StartInv(s, k);
    var right := 0;
    while right < |s|
      invariant right == w.right
      invariant Inv(s, k, w)
    {
      StepKeepsInv(s, k, w);
      w := Step(s, k, w);
      right := right + 1;
    }
    ans := w.ans;
    InvAtEnd(s, k, w);
  }

  /** A larger budget never gives a shorter answer. */
  lemma LongerWithLargerBudget(s: string, k1: int, r1: int, k2: int, r2: int)
    requires k1 <= k2 && IsLongestFit(s, k1, r1) && IsLongestFit(s, k2, r2)
    ensures r1 <= r2
  {
    var a :| 0 <= a <= |s| - r1 && FitsFrom(s, k1, a, r1);
    assert FitsAt(s, k2, a, a + r1);
  }
}
