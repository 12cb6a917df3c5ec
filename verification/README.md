# Five array and string algorithms, modelled and verified in Dafny

This project models five single-method Java solutions from a collection of
data-structure notes and proves that each computes what its problem asks for:

- **First missing positive** (`leetcode/arrays/FirstMissingPositive.java`):
  the smallest positive integer absent from an array. The Java code finds it
  in place in four passes, and the sign of each slot serves as a presence flag.
- **Verifying an alien dictionary** (`leetcode/arrays/VerifyingAnAlienDictionary.java`):
  whether a word list is sorted under the lexicographic order that a
  permutation of the alphabet induces.
- **Permutation in string** (`leetcode/slidingwindow/PermutationInString.java`):
  whether some window of `s2` is a rearrangement of `s1`. The code keeps two
  arrays of 26 letter counts and slides the window.
- **Longest consecutive sequence** (`leetcode/arrays/LongestConsecutiveSequence.java`):
  the longest run `v, v+1, …` of input values. The code builds a hash set and
  counts only from run starts.
- **Longest repeating character replacement**
  (`leetcode/slidingwindow/LongestRepeatingCharacterReplacement.java`): the
  longest substring that at most `k` replacements turn into one repeated
  letter. The code uses a window that never shrinks and a stale maximum count.

There is one module per Java file, plus two shared modules:

- `Letters` (`letters.dfy`) defines the 26-slot letter-count array as a
  function of a window's multiset (`Profile`) and proves the updates the
  loops make: add one letter, remove the first letter.
- `IntSets` (`int_sets.dfy`) provides integer ranges and the set of values of
  a sequence, with the cardinality facts the proofs use.

Each Java loop is a Dafny method with loop invariants. Each method is checked
against a declarative definition:

| Java file | declarative definition |
|---|---|
| first missing positive | `IsFirstMissing` |
| alien dictionary | `LexLe` under `RankMap` |
| permutation in string | `HasPermutationWindow`, over multisets |
| longest consecutive sequence | `IsLongestRun`, over `RunIn` |
| character replacement | `IsLongestFit`, over `Fits` |

The sliding window of the character-replacement solution is a pure `Step`
function on a `Window` record. Its invariant `Inv` is proved one step at a time.

Java arrays and strings become Dafny sequences.

- `firstMissingPositive` writes into its argument. Here each pass returns a
  new sequence. The top-level method returns the final array contents as a
  second result, `after`, and its contract says what the caller's array
  holds on return.
- Java's hash set becomes a Dafny `set<int>`. Iterating it becomes walking a
  sequence `members` that lists each element once, in any order. The counting
  loop is proved for every such enumeration, so the answer does not depend on
  the iteration order (see also `LongestRunUnique`).

## Model

| member | source | states |
|---|---|---|
| FirstMissingPositive.ContainsOne | leetcode/arrays/FirstMissingPositive.java:10-17 | the first pass reports true exactly when 1 occurs in the array |
| FirstMissingPositive.ClampPass | leetcode/arrays/FirstMissingPositive.java:24-30 | after the second pass every element lies in 1..n; an element already in 1..n is kept, any other element becomes 1 |
| FirstMissingPositive.ClampKeepsInRange | leetcode/arrays/FirstMissingPositive.java:19-30 | when 1 occurs, clamping neither adds nor removes any value of 1..n, so later passes can read presence in the original array off the clamped one |
| FirstMissingPositive.Mark | leetcode/arrays/FirstMissingPositive.java:34-41 | one marking step writes within the array: value a < n negates slot a and value n negates slot 0; every magnitude is kept and no other sign changes |
| FirstMissingPositive.MarkPass | leetcode/arrays/FirstMissingPositive.java:32-42 | after the third pass every slot keeps its clamped magnitude, slot i (1 <= i < n) is negative exactly when i occurs in the clamped array, and slot 0 is negative exactly when n does |
| FirstMissingPositive.ScanPass | leetcode/arrays/FirstMissingPositive.java:44-57 | the result is in 1..n+1; every smaller value's slot is non-positive; when the result is at most n, its slot is positive |
| FirstMissingPositive.AllSmallPresentExcludesNext | leetcode/arrays/FirstMissingPositive.java:52-57 | an array of length n holding every value 1..n cannot hold n+1, so returning n+1 is correct |
| FirstMissingPositive.ScanFindsFirstMissing | leetcode/arrays/FirstMissingPositive.java:44-57 | the value the last pass reads off the marked array is positive, absent from the original array, and every smaller positive value occurs in it |
| FirstMissingPositive.FirstMissingPositive | leetcode/arrays/FirstMissingPositive.java:4-58 | the result is the smallest positive integer absent from the input; it is 1 whenever 1 is absent (including for the empty array, which is then left untouched); it lies in 1..n+1 and equals n+1 exactly when all of 1..n occur; otherwise the array is left holding the clamped magnitudes, with the sign of slot j telling whether j (or n for slot 0) occurs in the input |
| AlienDictionary.RankMap | leetcode/arrays/VerifyingAnAlienDictionary.java:12-17 | exactly the letters of `order` are ranked, and a letter's rank is the position of its last occurrence in `order` |
| AlienDictionary.BuildRank | leetcode/arrays/VerifyingAnAlienDictionary.java:12-17 | the rank-table loop leaves each letter of `order` mapped to the position of its last occurrence, and no other key |
| AlienDictionary.RankMapInjective | leetcode/arrays/VerifyingAnAlienDictionary.java:14-17 | two different letters never share a rank |
| AlienDictionary.LexLeSkipCommon | leetcode/arrays/VerifyingAnAlienDictionary.java:21-28 | skipping a common prefix, as the scan over j does, leaves the comparison unchanged |
| AlienDictionary.FirstDifferenceDecides | leetcode/arrays/VerifyingAnAlienDictionary.java:28-37 | at the first differing position the pair is in order exactly when the earlier word's letter has no greater rank, whatever letters follow |
| AlienDictionary.ProperPrefixRejected | leetcode/arrays/VerifyingAnAlienDictionary.java:21-26 | a word followed by a proper prefix of itself is out of order |
| AlienDictionary.ExtensionAccepted | leetcode/arrays/VerifyingAnAlienDictionary.java:21-39 | a word followed by itself or by any extension of itself is in order |
| AlienDictionary.LexLeTransitive | leetcode/arrays/VerifyingAnAlienDictionary.java:19-42 | with distinct ranks the word order is transitive |
| AlienDictionary.AdjacentOrderIsGlobal | leetcode/arrays/VerifyingAnAlienDictionary.java:19-42 | if every adjacent pair is in order, every earlier word is in order with every later one |
| AlienDictionary.PairInOrder | leetcode/arrays/VerifyingAnAlienDictionary.java:21-39 | the inner loop accepts a pair exactly when the first word sorts no later than the second |
| AlienDictionary.AllWordsRanked | leetcode/arrays/VerifyingAnAlienDictionary.java:30-31 | when every letter of every word occurs in `order`, every rank lookup finds its key |
| AlienDictionary.SortedEverywhere | leetcode/arrays/VerifyingAnAlienDictionary.java:19-42 | adjacent pairs in order under the table of `order` put every pair of words in order |
| AlienDictionary.AdjacentPairsInOrder | leetcode/arrays/VerifyingAnAlienDictionary.java:19-42 | the outer loop returns true exactly when every adjacent pair is in order |
| AlienDictionary.IsAlienSorted | leetcode/arrays/VerifyingAnAlienDictionary.java:10-44 | true exactly when every adjacent pair is in order under the ranks of `order`; then every earlier word is in order with every later one; zero or one word is always accepted |
| Letters.Slot | leetcode/slidingwindow/PermutationInString.java:19-20 | the index `c - 'a'` (or `c - 'A'`) of a letter of the alphabet lies in 0..25 |
| Letters.ProfileEmpty | leetcode/slidingwindow/PermutationInString.java:14-15 | a freshly allocated count array holds the counts of the empty window |
| Letters.ProfileAppend | leetcode/slidingwindow/PermutationInString.java:30 | incrementing the slot of a letter appended to a window yields the counts of the longer window |
| Letters.ProfileDropFirst | leetcode/slidingwindow/PermutationInString.java:31 | decrementing the slot of a window's first letter yields the counts of the window without it |
| Letters.ProfileEqIffSameMultiset | leetcode/slidingwindow/PermutationInString.java:39-49 | two letter strings have equal count arrays exactly when they are rearrangements of each other |
| Letters.ProfileSumIsLength | leetcode/slidingwindow/LongestRepeatingCharacterReplacement.java:15-19 | the 26 counts of a letter string add up to its length |
| PermutationInString.Matches | leetcode/slidingwindow/PermutationInString.java:39-49 | `matches` is true exactly when all 26 counts are equal |
| PermutationInString.InitialCounts | leetcode/slidingwindow/PermutationInString.java:14-21 | after the first loop `map1` holds the counts of `s1` and `map2` those of the first len(s1) letters of `s2` |
| PermutationInString.Slide | leetcode/slidingwindow/PermutationInString.java:30-31 | counting the entering letter and uncounting the leaving one turns the counts of one window into those of the next |
| PermutationInString.SlideCounts | leetcode/slidingwindow/PermutationInString.java:30-31 | the two updates of the loop body move `map2` from window i to window i+1 |
| PermutationInString.CountsDecideWindow | leetcode/slidingwindow/PermutationInString.java:25 | equal counts hold exactly when the window is a rearrangement of `s1` |
| PermutationInString.CheckInclusion | leetcode/slidingwindow/PermutationInString.java:7-37 | true exactly when some window of `s2` of length len(s1) (all len(s2)-len(s1)+1 of them, the last one included) is a rearrangement of `s1`; false when `s1` is longer than `s2` |
| IntSets.DistinctAtMostLength | leetcode/arrays/LongestConsecutiveSequence.java:15-20 | the set of an input's values has at most as many elements as the input |
| LongestConsecutiveSequence.BuildSet | leetcode/arrays/LongestConsecutiveSequence.java:15-20 | the set holds exactly the input values, so duplicates change nothing, and the enumeration lists each of them once |
| LongestConsecutiveSequence.RunLengthFrom | leetcode/arrays/LongestConsecutiveSequence.java:30-36 | the inner loop counts a run num..num+currSub-1 lying in the set and stops where num+currSub is absent |
| LongestConsecutiveSequence.MaximalRun | leetcode/arrays/LongestConsecutiveSequence.java:32-36 | a run from num is never longer than the count at which the inner loop stops |
| LongestConsecutiveSequence.RunStart | leetcode/arrays/LongestConsecutiveSequence.java:26-29 | every run extends downwards to one starting at a value whose predecessor is absent, so skipping the other values loses no run |
| LongestConsecutiveSequence.RunWithinSet | leetcode/arrays/LongestConsecutiveSequence.java:24-43 | a run inside the set is no longer than the number of distinct values |
| LongestConsecutiveSequence.LongestRunUnique | leetcode/arrays/LongestConsecutiveSequence.java:24-43 | the longest-run length of a set is unique, so the answer cannot depend on the set's iteration order |
| LongestConsecutiveSequence.CountRuns | leetcode/arrays/LongestConsecutiveSequence.java:22-43 | for any enumeration of a non-empty set, counting from run starts only gives the longest run length, at least 1 and at most the set's size |
| LongestConsecutiveSequence.LongestConsecutive | leetcode/arrays/LongestConsecutiveSequence.java:8-45 | the result is the length of the longest run of consecutive integers among the input values; it is 0 exactly for the empty input, and at most the number of distinct values |
| IntSets.MaxOf | leetcode/slidingwindow/LongestRepeatingCharacterReplacement.java:15 | the maximum of the counts bounds every count and is attained by one of them |
| CharacterReplacement.Step | leetcode/slidingwindow/LongestRepeatingCharacterReplacement.java:15-23 | one iteration advances the right end by one and the left end by at most one, so the window length never decreases and grows by at most one; `maxFq` never decreases |
| CharacterReplacement.StepCounts | leetcode/slidingwindow/LongestRepeatingCharacterReplacement.java:15-19 | the increment and decrement keep `frequency` equal to the letter counts of the window |
| CharacterReplacement.StepBounded | leetcode/slidingwindow/LongestRepeatingCharacterReplacement.java:15 | `maxFq` stays at least every count of the current window |
| CharacterReplacement.GrownWindowKept | leetcode/slidingwindow/LongestRepeatingCharacterReplacement.java:15-21 | the stale `maxFq` never rejects a grown window that really fits the budget |
| CharacterReplacement.StepWitness | leetcode/slidingwindow/LongestRepeatingCharacterReplacement.java:15-21 | `maxFq` is always backed by a real substring no longer than the window, and the window needs at most k replacements by the `maxFq` measure |
| CharacterReplacement.EndingAtNewRight | leetcode/slidingwindow/LongestRepeatingCharacterReplacement.java:15-23 | no fitting substring that ends at the new right end is longer than the new window |
| CharacterReplacement.StepComplete | leetcode/slidingwindow/LongestRepeatingCharacterReplacement.java:13-23 | after each step no fitting substring seen so far is longer than the window |
| CharacterReplacement.StepNegativeBudget | leetcode/slidingwindow/LongestRepeatingCharacterReplacement.java:15-21 | with a negative budget every step drops the letter it added, so the window stays empty |
| CharacterReplacement.StepKeepsInv | leetcode/slidingwindow/LongestRepeatingCharacterReplacement.java:13-24 | every iteration keeps the loop invariant: counts tracked, `maxFq` bounding, `ans` equal to the window length, the window no shorter than any fitting substring seen |
| CharacterReplacement.StartInv | leetcode/slidingwindow/LongestRepeatingCharacterReplacement.java:7-11 | the starting state (empty window, all-zero counts, `maxFq` 0, `ans` 0) satisfies the loop invariant: the counts are those of the empty window and no fitting substring has been seen yet |
| CharacterReplacement.WindowCountsSumToLength | leetcode/slidingwindow/LongestRepeatingCharacterReplacement.java:15-19 | the 26 counts always add up to the window length |
| CharacterReplacement.InvAtEnd | leetcode/slidingwindow/LongestRepeatingCharacterReplacement.java:23-26 | once every letter has entered, `ans` (the final window length) is the longest fitting length for k >= 0 and 0 for k < 0 |
| CharacterReplacement.MostFrequentAtMostLength | leetcode/slidingwindow/LongestRepeatingCharacterReplacement.java:15 | no letter count exceeds the substring length |
| CharacterReplacement.NothingFitsNegativeBudget | leetcode/slidingwindow/LongestRepeatingCharacterReplacement.java:16 | with a negative budget no substring fits, not even the empty one |
| CharacterReplacement.FitsDropLast | leetcode/slidingwindow/LongestRepeatingCharacterReplacement.java:16-19 | removing the last letter of a fitting substring keeps it fitting |
| CharacterReplacement.ExtendWitness | leetcode/slidingwindow/LongestRepeatingCharacterReplacement.java:23-26 | a window length backed by `maxFq` equal letters is attained by some fitting substring |
| CharacterReplacement.CharacterReplacement | leetcode/slidingwindow/LongestRepeatingCharacterReplacement.java:4-28 | for k >= 0 the result is the length of a longest substring whose length minus its most-frequent-letter count is at most k; for k < 0 it is 0; it is at most the length of `s` and 0 for the empty string |
| CharacterReplacement.LongerWithLargerBudget | leetcode/slidingwindow/LongestRepeatingCharacterReplacement.java:4-28 | a larger budget never gives a shorter answer |

## Left out

- Java's 32-bit `int` arithmetic. The model uses unbounded integers. In
  `LongestConsecutiveSequence.java`, `num-1` and `currNum+1` wrap around at
  the ends of the `int` range, so Java treats `Integer.MAX_VALUE` and
  `Integer.MIN_VALUE` as consecutive; the model does not.
  `Math.abs(Integer.MIN_VALUE)` never arises in the marking pass, because
  clamping runs first.
- Hash table internals and hash-set iteration order. `HashMap` becomes a
  Dafny `map`, and `HashSet` a `set` plus an arbitrary duplicate-free
  enumeration of it.
- Characters outside the 26-letter alphabets, and a letter of a word that
  does not occur in `order`. Java throws when it reaches such a character.
  Here they are preconditions:
  - `AllIn` for the two sliding-window problems;
  - every letter of every word in `order` for `IsAlienSorted`.

  In `LongestRepeatingCharacterReplacement.java`, every character of `s` is
  read as an array index, so there the precondition is exactly what Java needs.
- PermutationInString.CheckInclusion: the precondition is stronger than what
  Java needs. Java returns true at the first matching window and never reads
  the letters after it. For example, `checkInclusion("ab", "abZ")` returns
  true, but the model requires every character of both strings to be a
  lower-case letter (when `|s1| <= |s2|`). Modelling the exception as a
  result would mean threading a failure value through every window; the
  precondition keeps the contract about the letters-only inputs the problem
  defines.
- AlienDictionary.IsAlienSorted: the precondition is stronger than what Java
  needs. Java looks a letter up in `order` only at the first position where
  two adjacent words differ, so letters elsewhere may be missing from it.
  For example, `isAlienSorted(["x"], "abc")` and
  `isAlienSorted(["xa", "xb"], "ab")` both return true. The model requires
  every letter of every word to occur in `order`.
- `FirstMissingPositive.FirstMissingPositive` does not model aliasing: the
  caller's array is returned as the value `after` rather than mutated.
- Package and class wrappers.
