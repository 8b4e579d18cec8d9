/**
 * The pairwise score compute(i, j): a stemmed word-overlap ratio between
 * the keyword of node i (the "A" side) and that of node j (the "B" side).
 * The stemmer is a pure function supplied by the caller.
 */
module Scoring {
  import opened Text
  import opened Keywords

  /** Some token of A has the same stem as the token b. */
  predicate StemFound(wordsA: seq<string>, b: string, stem: string -> string) {
    exists k :: 0 <= k < |wordsA| && stem(wordsA[k]) == stem(b)
  }

  /** The number of tokens of B whose stem is found among the stems of A. */
  function Common(wordsA: seq<string>, wordsB: seq<string>, stem: string -> string): (c: nat)
    ensures c <= |wordsB|
  {
    if wordsB == [] then 0
    else
      Common(wordsA, wordsB[..|wordsB| - 1], stem)
      + (if StemFound(wordsA, wordsB[|wordsB| - 1], stem) then 1 else 0)
  }

  lemma CommonSnoc(wordsA: seq<string>, wordsB: seq<string>, b: string, stem: string -> string)
    ensures Common(wordsA, wordsB + [b], stem)
         == Common(wordsA, wordsB, stem) + (if StemFound(wordsA, b, stem) then 1 else 0)
  {
    assert (wordsB + [b])[..|wordsB|] == wordsB;
  }

  /** Some token of B has its stem among the stems of A. */
  predicate Shares(wordsA: seq<string>, wordsB: seq<string>, stem: string -> string) {
    exists k :: 0 <= k < |wordsB| && StemFound(wordsA, wordsB[k], stem)
  }

  lemma {:induction false} CommonPositive(wordsA: seq<string>, wordsB: seq<string>, stem: string -> string)
    ensures Common(wordsA, wordsB, stem) > 0 <==> Shares(wordsA, wordsB, stem)
  {
    if wordsB != [] {
      var init := wordsB[..|wordsB| - 1];
      CommonPositive(wordsA, init, stem);
      if Shares(wordsA, init, stem) {
        var k :| 0 <= k < |init| && StemFound(wordsA, init[k], stem);
        assert wordsB[k] == init[k];
      }
      if Shares(wordsA, wordsB, stem) && !StemFound(wordsA, wordsB[|wordsB| - 1], stem) {
        var k :| 0 <= k < |wordsB| && StemFound(wordsA, wordsB[k], stem);
        assert init[k] == wordsB[k];
      }
    }
  }

  /** Java's (double) c / t for a positive t. */
  function Ratio(c: nat, t: nat): real
    requires 1 <= t
  {
    (c as real) / (t as real)
  }

  lemma RatioBounds(c: nat, t: nat)
    requires 1 <= t
    ensures Ratio(c, t) >= 0.0
    ensures c > 0 <==> Ratio(c, t) > 0.0
    ensures c <= t ==> Ratio(c, t) <= 1.0
    ensures c == t ==> Ratio(c, t) == 1.0
  {
  }

  /**
   * The score of B's tokens against A's: common / (|A| + |B| - common),
   * where common counts the B tokens whose stem is the stem of some A token.
   */
  function Score(wordsA: seq<string>, wordsB: seq<string>, stem: string -> string): (r: real)
    requires |wordsA| >= 1
    ensures r >= 0.0
    ensures r > 0.0 <==> Shares(wordsA, wordsB, stem)
  {
    var common := Common(wordsA, wordsB, stem);
    CommonPositive(wordsA, wordsB, stem);
    RatioBounds(common, |wordsA| + |wordsB| - common);
    Ratio(common, |wordsA| + |wordsB| - common)
  }

  /** A keyword, being stripped, splits into at least one token. */
  lemma StrippedTokens(s: string)
    requires Stripped(s)
    ensures |SplitOnSpace(s)| >= 1
  {
  }

  /**
   * compute(i, j) with A the keyword of node i and B that of node j: the
   * score of their tokens. A keyword never splits into zero tokens, so the
   * denominator is at least 1.
   */
  function Similarity(strA: string, strB: string, stem: string -> string): (r: real)
    requires Stripped(strA)
    ensures r >= 0.0
  {
    StrippedTokens(strA);
    Score(SplitOnSpace(strA), SplitOnSpace(strB), stem)
  }

  lemma {:induction false} CommonAllFound(wordsA: seq<string>, wordsB: seq<string>, stem: string -> string)
    requires forall k :: 0 <= k < |wordsB| ==> StemFound(wordsA, wordsB[k], stem)
    ensures Common(wordsA, wordsB, stem) == |wordsB|
  {
    if wordsB != [] {
      var init := wordsB[..|wordsB| - 1];
      assert forall k :: 0 <= k < |init| ==> init[k] == wordsB[k];
      CommonAllFound(wordsA, init, stem);
      assert StemFound(wordsA, wordsB[|wordsB| - 1], stem);
    }
  }

  /** Token lists compared with themselves score exactly 1. */
  lemma SelfScore(words: seq<string>, stem: string -> string)
    requires |words| >= 1
    ensures Score(words, words, stem) == 1.0
  {
    forall k | 0 <= k < |words|
      ensures StemFound(words, words[k], stem)
    {
    }
    CommonAllFound(words, words, stem);
    RatioBounds(|words|, |words|);
  }

  /** A keyword compared with itself scores exactly 1, the value the matrix keeps on its diagonal. */
  lemma SelfSimilarity(s: string, stem: string -> string)
    requires Stripped(s)
    ensures Similarity(s, s, stem) == 1.0
  {
    StrippedTokens(s);
    SelfScore(SplitOnSpace(s), stem);
  }

  /** The distinct stems of a token list. */
  function StemSet(words: seq<string>, stem: string -> string): (ss: set<string>)
    ensures |ss| <= |words|
    ensures forall k :: 0 <= k < |words| ==> stem(words[k]) in ss
  {
    if words == [] then {}
    else
      var init := words[..|words| - 1];
      var ss := StemSet(init, stem) + {stem(words[|words| - 1])};
      assert forall k :: 0 <= k < |init| ==> init[k] == words[k];
      ss
  }

  /** The stems of the B tokens that are found among the stems of A. */
  function FoundStems(wordsA: seq<string>, wordsB: seq<string>, stem: string -> string): (fs: set<string>)
    ensures fs <= StemSet(wordsA, stem)
  {
    if wordsB == [] then {}
    else
      var b := wordsB[|wordsB| - 1];
      FoundStems(wordsA, wordsB[..|wordsB| - 1], stem)
      + (if StemFound(wordsA, b, stem) then {stem(b)} else {})
  }

  /** The stems of the tokens are pairwise distinct. */
  predicate DistinctStems(words: seq<string>, stem: string -> string) {
    forall i, j :: 0 <= i < j < |words| ==> stem(words[i]) != stem(words[j])
  }

  /** Every found stem is the stem of some token of B. */
  lemma {:induction false} FoundStemsFromB(wordsA: seq<string>, wordsB: seq<string>, stem: string -> string)
    ensures forall s :: s in FoundStems(wordsA, wordsB, stem) ==> exists k :: 0 <= k < |wordsB| && stem(wordsB[k]) == s
  {
    if wordsB != [] {
      var init := wordsB[..|wordsB| - 1];
      FoundStemsFromB(wordsA, init, stem);
      forall s | s in FoundStems(wordsA, wordsB, stem)
        ensures exists k :: 0 <= k < |wordsB| && stem(wordsB[k]) == s
      {
        if s in FoundStems(wordsA, init, stem) {
          var k :| 0 <= k < |init| && stem(init[k]) == s;
          assert wordsB[k] == init[k];
        } else {
          assert stem(wordsB[|wordsB| - 1]) == s;
        }
      }
    }
  }

  /** With pairwise distinct stems in B, each found token adds a new stem. */
  lemma {:induction false} FoundStemsCount(wordsA: seq<string>, wordsB: seq<string>, stem: string -> string)
    requires DistinctStems(wordsB, stem)
    ensures |FoundStems(wordsA, wordsB, stem)| == Common(wordsA, wordsB, stem)
  {
    if wordsB != [] {
      var init := wordsB[..|wordsB| - 1];
      var b := wordsB[|wordsB| - 1];
      assert DistinctStems(init, stem);
      FoundStemsCount(wordsA, init, stem);
      FoundStemsFromB(wordsA, init, stem);
      forall k | 0 <= k < |init|
        ensures stem(init[k]) != stem(b)
      {
        assert init[k] == wordsB[k];
      }
      assert stem(b) !in FoundStems(wordsA, init, stem);
    }
  }

  lemma {:induction false} SubsetCardinality(xs: set<string>, ys: set<string>)
    requires xs <= ys
    ensures |xs| <= |ys|
  {
    if xs != {} {
      var x :| x in xs;
      SubsetCardinality(xs - {x}, ys - {x});
    }
  }

  /**
   * When the stems of B's tokens are pairwise distinct (with the identity
   * stemmer, for one, since keyword tokens are distinct), the score is at
   * most 1.
   */
  lemma ScoreAtMostOne(wordsA: seq<string>, wordsB: seq<string>, stem: string -> string)
    requires |wordsA| >= 1
    requires DistinctStems(wordsB, stem)
    ensures Score(wordsA, wordsB, stem) <= 1.0
  {
    var common := Common(wordsA, wordsB, stem);
    var found := FoundStems(wordsA, wordsB, stem);
    FoundStemsCount(wordsA, wordsB, stem);
    SubsetCardinality(found, StemSet(wordsA, stem));
    assert common <= |wordsA|;
    RatioBounds(common, |wordsA| + |wordsB| - common);
  }

  /**
   * Without distinct stems the score can exceed 1: with a stemmer that maps
   * every token to the same stem, A = [x] and B = [y, z] score 2 / 1.
   */
  lemma ScoreCanExceedOne()
    ensures Score(["x"], ["y", "z"], w => "s") == 2.0
  {
    var stem: string -> string := w => "s";
    assert stem(["x"][0]) == stem("y") && stem(["x"][0]) == stem("z");
    assert StemFound(["x"], "y", stem) && StemFound(["x"], "z", stem);
    CommonAllFound(["x"], ["y", "z"], stem);
  }

  /** The score of two keywords is the score of their tokens. */
  lemma SimilarityScore(strA: string, strB: string, stem: string -> string)
    requires Stripped(strA)
    ensures |SplitOnSpace(strA)| >= 1
    ensures Similarity(strA, strB, stem) == Score(SplitOnSpace(strA), SplitOnSpace(strB), stem)
  {
    StrippedTokens(strA);
  }

  lemma ScoreRatio(wordsA: seq<string>, wordsB: seq<string>, stem: string -> string)
    requires |wordsA| >= 1
    ensures |wordsA| + |wordsB| - Common(wordsA, wordsB, stem) >= 1
    ensures Score(wordsA, wordsB, stem)
         == Ratio(Common(wordsA, wordsB, stem), |wordsA| + |wordsB| - Common(wordsA, wordsB, stem))
  {
  }

  /** compute's inner loop: whether the stem of b is the stem of some token of A. */
  method FindStem(wordsA: seq<string>, b: string, stem: string -> string) returns (found: bool)
    ensures found == StemFound(wordsA, b, stem)
  {
    var wordB := stem(b);
    found := false;
    var p := 0;
    while p < |wordsA|
      invariant 0 <= p <= |wordsA|
      invariant forall p' :: 0 <= p' < p ==> stem(wordsA[p']) != wordB
    {
      var wordA := stem(wordsA[p]);
      if wordB == wordA {
        found := true;
        break;
      }
      p := p + 1;
    }
  }

  /** compute's outer loop: counts the found B tokens and widens the total for each one not found. */
  method CountCommon(wordsA: seq<string>, wordsB: seq<string>, stem: string -> string) returns (common: nat, total: nat)
    ensures common == Common(wordsA, wordsB, stem)
    ensures total == |wordsA| + |wordsB| - common
  {
    total := |wordsA|;
    common := 0;
    for q := 0 to |wordsB|
      invariant common == Common(wordsA, wordsB[..q], stem)
      invariant total == |wordsA| + q - common
    {
      var found := FindStem(wordsA, wordsB[q], stem);
      TakeSnoc(wordsB, q);
      CommonSnoc(wordsA, wordsB[..q], wordsB[q], stem);
      if found {
        common := common + 1;
      } else {
        total := total + 1;
      }
    }
    assert wordsB[..|wordsB|] == wordsB;
  }

  /** Java's compute: the score of the two keywords' tokens, common / total. */
  method Compute(strA: string, strB: string, stem: string -> string) returns (score: real)
    requires Stripped(strA)
    ensures score == Similarity(strA, strB, stem)
  {
    var wordsA := SplitOnSpace(strA);
    var wordsB := SplitOnSpace(strB);
    var common, total := CountCommon(wordsA, wordsB, stem);
    SimilarityScore(strA, strB, stem);
    ScoreRatio(wordsA, wordsB, stem);
    score := Ratio(common, total);
  }
}
