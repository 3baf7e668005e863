/**
 The word-accuracy percentage: matched words over the larger of the two
 word counts, times 100. When both texts have no words the division has no
 divisor and the computation fails.
 */
module Accuracy {
  import opened Results
  import Cleaning
  import Tokenize
  import Matching

  datatype AccuracyResult = AccuracyResult(
    percentage: real,
    matchedCount: nat,
    referenceWordCount: nat,
    transcribedWordCount: nat)

  /** The failure of the percentage computation: both texts are empty of words. */
  datatype ScoreError = DivisionByZero

  function Max(a: nat, b: nat): nat {
    if a >= b then a else b
  }

  /** p percent of denominator words is exactly matched words. */
  predicate IsPercentage(p: real, matched: nat, denominator: nat) {
    p * denominator as real == matched as real * 100.0
  }

  /** The unrounded percentage of matched words among denominator words. */
  function Percent(matched: nat, denominator: nat): (p: real)
    requires 0 < denominator
    requires matched <= denominator
    ensures IsPercentage(p, matched, denominator)
    ensures 0.0 <= p <= 100.0
    ensures p == 100.0 <==> matched == denominator
    ensures p == 0.0 <==> matched == 0
  {
    var d := denominator as real;
    var q := matched as real / d;
    assert q * d == matched as real;
    assert 0.0 <= q <= 1.0 by {
      assert q * d <= d;
    }
    assert q == 1.0 <==> matched == denominator;
    assert (q * 100.0) * d == (q * d) * 100.0;
    q * 100.0
  }

  /**
   The score of two word lists: the greedy match count against the larger
   word count, or a division-by-zero failure when both lists are empty.
   */
  function ScoreWords(ref: seq<string>, trans: seq<string>): (r: Result<AccuracyResult, ScoreError>)
    ensures r.Failure? <==> |ref| == 0 && |trans| == 0
    ensures r.Success? ==> r.value.referenceWordCount == |ref| && r.value.transcribedWordCount == |trans|
    ensures r.Success? ==> r.value.matchedCount == |multiset(ref) * multiset(trans)|
    ensures r.Success? ==> 0.0 <= r.value.percentage <= 100.0
    ensures r.Success? ==> IsPercentage(r.value.percentage, r.value.matchedCount,
      Max(r.value.referenceWordCount, r.value.transcribedWordCount))
    ensures r.Success? ==> (r.value.percentage == 100.0
      <==> r.value.matchedCount == r.value.referenceWordCount == r.value.transcribedWordCount)
    ensures r.Success? ==> (r.value.percentage == 0.0 <==> r.value.matchedCount == 0)
  {
    var matched := Matching.MatchCount(ref, trans);
    var denominator := Max(|ref|, |trans|);
    if denominator == 0 then Failure(DivisionByZero)
    else
      Success(AccuracyResult(Percent(matched, denominator), matched, |ref|, |trans|))
  }

  /** The score of two texts: both are tokenised, then their word lists are scored. */
  function Score(cc: Cleaning.CharClasses, reference: string, transcribed: string)
    : (r: Result<AccuracyResult, ScoreError>)
    ensures r.Failure? <==> |Tokenize.Tokens(cc, reference)| == 0 && |Tokenize.Tokens(cc, transcribed)| == 0
    ensures r.Success? ==> r.value.referenceWordCount == |Tokenize.Tokens(cc, reference)|
    ensures r.Success? ==> r.value.transcribedWordCount == |Tokenize.Tokens(cc, transcribed)|
    ensures r.Success? ==>
      r.value.matchedCount == |multiset(Tokenize.Tokens(cc, reference)) * multiset(Tokenize.Tokens(cc, transcribed))|
  {
    ScoreWords(Tokenize.Tokens(cc, reference), Tokenize.Tokens(cc, transcribed))
  }

  /** The score with the zero-word case defined as 0 percent, so it never fails. */
  function ScoreOrZero(cc: Cleaning.CharClasses, reference: string, transcribed: string): (r: AccuracyResult)
    ensures 0.0 <= r.percentage <= 100.0
    ensures Score(cc, reference, transcribed).Success? ==> r == Score(cc, reference, transcribed).value
    ensures Score(cc, reference, transcribed).Failure? ==>
      r == AccuracyResult(0.0, 0, 0, 0)
      && |Tokenize.Tokens(cc, reference)| == |Tokenize.Tokens(cc, transcribed)| == 0
  {
    match Score(cc, reference, transcribed)
    case Success(a) => a
    case Failure(_) => AccuracyResult(0.0, 0, 0, 0)
  }

  /** The same non-empty word list on both sides scores 100. */
  lemma ScoreWordsIdentical(words: seq<string>)
    requires |words| > 0
    ensures ScoreWords(words, words).Success?
    ensures ScoreWords(words, words).value.percentage == 100.0
  {
    Matching.MatchCountIdentical(words);
  }

  /** Word lists with no word in common score 0, unless both are empty. */
  lemma ScoreWordsDisjoint(ref: seq<string>, trans: seq<string>)
    requires forall w :: w in ref ==> w !in trans
    requires |ref| + |trans| > 0
    ensures ScoreWords(ref, trans).Success?
    ensures ScoreWords(ref, trans).value.percentage == 0.0
  {
    Matching.MatchCountDisjoint(ref, trans);
  }

  /** Swapping the two word lists swaps the word counts and keeps the percentage. */
  lemma ScoreWordsSymmetric(a: seq<string>, b: seq<string>)
    ensures ScoreWords(a, b).Success? <==> ScoreWords(b, a).Success?
    ensures ScoreWords(a, b).Success? ==>
      && ScoreWords(a, b).value.percentage == ScoreWords(b, a).value.percentage
      && ScoreWords(a, b).value.referenceWordCount == ScoreWords(b, a).value.transcribedWordCount
      && ScoreWords(a, b).value.transcribedWordCount == ScoreWords(b, a).value.referenceWordCount
      && ScoreWords(a, b).value.matchedCount == ScoreWords(b, a).value.matchedCount
  {
    Matching.MatchCountSymmetric(a, b);
  }

  /** Inserting a character outside the kept classes into either text changes nothing. */
  lemma ScoreIgnoresPunctuation(cc: Cleaning.CharClasses, pre: string, c: char, post: string, other: string)
    requires !Cleaning.Kept(cc, c)
    ensures Score(cc, pre + [c] + post, other) == Score(cc, pre + post, other)
    ensures Score(cc, other, pre + [c] + post) == Score(cc, other, pre + post)
  {
    Cleaning.CleanIgnoresDropped(cc, pre, c, post);
    assert Tokenize.Tokens(cc, pre + [c] + post) == Tokenize.Tokens(cc, pre + post);
  }

  /** Changing the case of ASCII letters in either text changes nothing. */
  lemma ScoreIgnoresCase(cc: Cleaning.CharClasses, a: string, a': string, other: string)
    requires Cleaning.CaseClosed(cc)
    requires |a| == |a'|
    requires forall i :: 0 <= i < |a| ==> Cleaning.Lower(a[i]) == Cleaning.Lower(a'[i])
    ensures Score(cc, a, other) == Score(cc, a', other)
    ensures Score(cc, other, a) == Score(cc, other, a')
  {
    Cleaning.CleanCaseInsensitive(cc, a, a');
    assert Tokenize.Tokens(cc, a) == Tokenize.Tokens(cc, a');
  }
}
