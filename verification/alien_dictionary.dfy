/**
 Verifying an alien dictionary: is a word list non-decreasing under the
 lexicographic order induced by a permutation of the alphabet?

 The rank of a letter is its position in `order`. Two words are compared at
 their first differing position; a word that runs out first (a proper prefix)
 sorts first.
 */
module AlienDictionary {

  /**
   The rank table the source builds by `map.put(order[i], i)` for i = 0, 1, ...:
   a letter's rank is the position of its last occurrence in `order`
   (for a permutation, its only occurrence).
   */
  function RankMap(order: string): (rank: map<char, int>)
    ensures forall c :: c in rank <==> c in order
    ensures forall c :: c in rank ==> 0 <= rank[c] < |order| && order[rank[c]] == c
    ensures forall c, j :: c in rank && rank[c] < j < |order| ==> order[j] != c
  {
    if |order| == 0 then map[]
    else
      var init := order[..|order| - 1];
      assert order == init + [order[|order| - 1]];
      RankMap(init)[order[|order| - 1] := |order| - 1]
  }

  /** Every letter of `w` has a rank. */
  predicate Ranked(rank: map<char, int>, w: string) {
    forall i :: 0 <= i < |w| ==> w[i] in rank
  }

  /**
   `a` sorts no later than `b`: at the first differing position the letter of
   `a` has no greater rank, or `a` is a prefix of `b`.
   */
  predicate LexLe(rank: map<char, int>, a: string, b: string)
    requires Ranked(rank, a) && Ranked(rank, b)
    decreases |a|
  {
    if |a| == 0 then true
    else if |b| == 0 then false
    else if a[0] != b[0] then rank[a[0]] <= rank[b[0]]
    else LexLe(rank, a[1..], b[1..])
  }

  /** Distinct ranked letters have distinct ranks. */
  ghost predicate Injective(rank: map<char, int>) {
    forall x, y :: x in rank && y in rank && x != y ==> rank[x] != rank[y]
  }

  /** The rank table built from any `order` never gives two letters the same rank. */
  lemma RankMapInjective(order: string)
    ensures Injective(RankMap(order))
  {
    var rank := RankMap(order);
    forall x, y | x in rank && y in rank && x != y
      ensures rank[x] != rank[y]
    {
      assert order[rank[x]] == x && order[rank[y]] == y;
    }
  }

  /** The rank-table loop of the source: the table it leaves is `RankMap(order)`. */
  method BuildRank(order: string) returns (rank: map<char, int>)
    ensures forall c :: c in rank <==> c in order
    ensures forall c :: c in rank ==> 0 <= rank[c] < |order| && order[rank[c]] == c
    ensures forall c, j :: c in rank && rank[c] < j < |order| ==> order[j] != c
    ensures rank == RankMap(order)
  {
    rank := map[];
    var i := 0;
    while i < |order|
      invariant 0 <= i <= |order|
      invariant rank == RankMap(order[..i])
    {
      assert order[..i + 1][..i] == order[..i];
      rank := rank[order[i] := i];
      i := i + 1;
    }
    assert order[..i] == order;
  }

  /** Dropping a common prefix does not change the comparison. */
  lemma {:induction false} LexLeSkipCommon(rank: map<char, int>, a: string, b: string, j: nat)
    requires Ranked(rank, a) && Ranked(rank, b)
    requires j <= |a| && j <= |b| && a[..j] == b[..j]
    ensures LexLe(rank, a, b) == LexLe(rank, a[j..], b[j..])
    decreases j
  {
    if j > 0 {
      assert a[0] == a[..j][0] && b[0] == b[..j][0];
      assert a[1..][..j - 1] == a[..j][1..] && b[1..][..j - 1] == b[..j][1..];
      LexLeSkipCommon(rank, a[1..], b[1..], j - 1);
      assert a[1..][j - 1..] == a[j..] && b[1..][j - 1..] == b[j..];
    }
  }

  /**
   At the first differing position the ranks decide: a greater rank rejects
   the pair, a smaller one accepts it whatever follows.
   */
  lemma FirstDifferenceDecides(rank: map<char, int>, a: string, b: string, j: nat)
    requires Ranked(rank, a) && Ranked(rank, b)
    requires j < |a| && j < |b| && a[..j] == b[..j] && a[j] != b[j]
    ensures LexLe(rank, a, b) <==> rank[a[j]] <= rank[b[j]]
  {
    LexLeSkipCommon(rank, a, b, j);
  }

  /** A word followed by a proper prefix of itself is out of order. */
  lemma ProperPrefixRejected(rank: map<char, int>, a: string, b: string)
    requires Ranked(rank, a) && Ranked(rank, b)
    requires |b| < |a| && b == a[..|b|]
    ensures !LexLe(rank, a, b)
  {
    LexLeSkipCommon(rank, a, b, |b|);
    assert b[|b|..] == [];
  }

  /** A word is in order with any extension of itself, in particular with itself. */
  lemma ExtensionAccepted(rank: map<char, int>, a: string, t: string)
    requires Ranked(rank, a) && Ranked(rank, a + t)
    ensures LexLe(rank, a, a + t)
  {
    assert (a + t)[..|a|] == a[..|a|];
    LexLeSkipCommon(rank, a, a + t, |a|);
    assert a[|a|..] == [];
  }

  /** Under an injective rank table the order on words is transitive. */
  lemma {:induction false} LexLeTransitive(rank: map<char, int>, a: string, b: string, c: string)
    requires Injective(rank) && Ranked(rank, a) && Ranked(rank, b) && Ranked(rank, c)
    requires LexLe(rank, a, b) && LexLe(rank, b, c)
    ensures LexLe(rank, a, c)
    decreases |a|
  {
    if |a| > 0 && |b| > 0 && |c| > 0 && a[0] == b[0] && b[0] == c[0] {
      LexLeTransitive(rank, a[1..], b[1..], c[1..]);
    }
  }

  /** Adjacent pairs in order imply every earlier word is in order with every later one. */
  lemma {:induction false} AdjacentOrderIsGlobal(rank: map<char, int>, words: seq<string>, i: int, j: int)
    requires Injective(rank)
    requires forall k :: 0 <= k < |words| ==> Ranked(rank, words[k])
    requires forall k :: 0 <= k < |words| - 1 ==> LexLe(rank, words[k], words[k + 1])
    requires 0 <= i < j < |words|
    ensures LexLe(rank, words[i], words[j])
    decreases j - i
  {
    if j > i + 1 {
      AdjacentOrderIsGlobal(rank, words, i + 1, j);
      LexLeTransitive(rank, words[i], words[i + 1], words[j]);
    }
  }

  /** The inner loop of the source: compares one adjacent pair. */
  method PairInOrder(rank: map<char, int>, a: string, b: string) returns (ok: bool)
    requires Ranked(rank, a) && Ranked(rank, b)
    ensures ok <==> LexLe(rank, a, b)
  {
    var j := 0;
    while j < |a|
      invariant 0 <= j <= |a| && j <= |b|
      invariant a[..j] == b[..j]
    {
      if j >= |b| {
        ProperPrefixRejected(rank, a, b);
        return false;
      }
      if a[j] != b[j] {
        var currLet := rank[a[j]];
        var nextLet := rank[b[j]];
        FirstDifferenceDecides(rank, a, b, j);
        if currLet > nextLet {
          return false;
        } else {
          return true;
        }
      }
      assert a[..j + 1] == a[..j] + [a[j]] && b[..j + 1] == b[..j] + [b[j]];
      j := j + 1;
    }
    assert b[..|a|] == a;
    ExtensionAccepted(rank, a, b[|a|..]);
    assert a + b[|a|..] == b;
    return true;
  }

  /** Every word spelled with letters of `order` is ranked by the table built from `order`. */
  lemma AllWordsRanked(words: seq<string>, order: string)
    requires forall i, j :: 0 <= i < |words| && 0 <= j < |words[i]| ==> words[i][j] in order
    ensures forall i :: 0 <= i < |words| ==> Ranked(RankMap(order), words[i])
  {
  }

  /** Adjacent pairs in order under the table of `order` put the whole list in order. */
  lemma SortedEverywhere(words: seq<string>, order: string)
    requires forall i :: 0 <= i < |words| ==> Ranked(RankMap(order), words[i])
    requires forall i :: 0 <= i < |words| - 1 ==> LexLe(RankMap(order), words[i], words[i + 1])
    ensures forall i, j :: 0 <= i < j < |words| ==> LexLe(RankMap(order), words[i], words[j])
  {
    RankMapInjective(order);
    forall i, j | 0 <= i < j < |words|
      ensures LexLe(RankMap(order), words[i], words[j])
    {
      AdjacentOrderIsGlobal(RankMap(order), words, i, j);
    }
  }

  /** The outer loop of the source: every adjacent pair in order, stopping at the first that is not. */
  method AdjacentPairsInOrder(rank: map<char, int>, words: seq<string>) returns (ok: bool)
    requires forall i :: 0 <= i < |words| ==> Ranked(rank, words[i])
    ensures ok <==> forall i :: 0 <= i < |words| - 1 ==> LexLe(rank, words[i], words[i + 1])
  {
    var i := 0;
    while i < |words| - 1
      invariant 0 <= i <= |words|
      invariant forall k :: 0 <= k < i && k < |words| - 1 ==> LexLe(rank, words[k], words[k + 1])
    {
      var pairOk := PairInOrder(rank, words[i], words[i + 1]);
      if !pairOk {
        return false;
      }
      i := i + 1;
    }
    return true;
  }

  /**
   The whole check: true exactly when every adjacent pair is in order, which
   (ranks being distinct) means every earlier word is in order with every later one.
   */
  method IsAlienSorted(words: seq<string>, order: string) returns (ok: bool)
    requires forall i, j :: 0 <= i < |words| && 0 <= j < |words[i]| ==> words[i][j] in order
    ensures ok <==> forall i :: 0 <= i < |words| - 1 ==> LexLe(RankMap(order), words[i], words[i + 1])
    ensures ok ==> forall i, j :: 0 <= i < j < |words| ==> LexLe(RankMap(order), words[i], words[j])
    ensures |words| <= 1 ==> ok
  {
    var rank := BuildRank(order);
    AllWordsRanked(words, order);
    ok := AdjacentPairsInOrder(rank, words);
    if ok {
      SortedEverywhere(words, order);
    }
  }
}
