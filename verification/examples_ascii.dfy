/**
 Worked scores for any character classes that agree with Unicode on ASCII:
 of the ASCII characters, exactly the letters A-Z and a-z, the digits 0-9
 and the six whitespace characters are kept.
 */
module AsciiExamples {
  import opened Results
  import Cleaning
  import Tokenize
  import Matching
  import Accuracy

  predicate AsciiKept(c: char) {
    'a' <= c <= 'z' || 'A' <= c <= 'Z' || '0' <= c <= '9' || c == ' ' || 9 <= c as int <= 13
  }

  /** The classes behave on ASCII as the Unicode letter, number and space classes do. */
  ghost predicate AsciiFaithful(cc: Cleaning.CharClasses) {
    && Cleaning.CaseClosed(cc)
    && forall c: char :: c as int < 128 ==> (Cleaning.Kept(cc, c) <==> AsciiKept(c))
  }

  /** Classes that know only ASCII; they witness that faithful classes exist. */
  function AsciiClasses(): (cc: Cleaning.CharClasses)
    ensures AsciiFaithful(cc)
  {
    Cleaning.CharClasses(
      c => 'a' <= c <= 'z' || 'A' <= c <= 'Z',
      c => '0' <= c <= '9',
      c => c == ' ' || 9 <= c as int <= 13)
  }

  /** Lower-case letters and spaces pass the cleaning step unchanged. */
  lemma CleanPlainText(cc: Cleaning.CharClasses, s: string)
    requires AsciiFaithful(cc)
    requires forall i :: 0 <= i < |s| ==> 'a' <= s[i] <= 'z' || s[i] == ' '
    ensures Cleaning.Clean(cc, s) == s
  {
    forall i | 0 <= i < |s|
      ensures Cleaning.Kept(cc, s[i]) && !Cleaning.IsUpperAscii(s[i])
    {
    }
    Cleaning.CleanUnchanged(cc, s);
  }

  /** Punctuation and capitals do not count against the reader. */
  lemma HelloWorld(cc: Cleaning.CharClasses)
    requires AsciiFaithful(cc)
    ensures Accuracy.Score(cc, "Hello, World!", "hello world")
         == Accuracy.Score(cc, "hello world", "hello world")
  {
    assert !Cleaning.Kept(cc, ',') && !Cleaning.Kept(cc, '!');
    var t := "hello world";
    Accuracy.ScoreIgnoresCase(cc, "Hello, World!", "hello, world!", t);
    HelloWorldPieces();
    Accuracy.ScoreIgnoresPunctuation(cc, "hello", ',', " world!", t);
    Accuracy.ScoreIgnoresPunctuation(cc, "hello world", '!', "", t);
  }

  lemma HelloWorldPieces()
    ensures "hello, world!" == "hello" + [','] + " world!"
    ensures "hello" + " world!" == "hello world" + ['!'] + ""
    ensures "hello world" + "" == "hello world"
  {
  }

  /** One omitted word out of four scores 75 percent. */
  lemma QuickBrownFox(cc: Cleaning.CharClasses)
    requires AsciiFaithful(cc)
    ensures Accuracy.Score(cc, "The quick brown fox", "The brown fox")
         == Success(Accuracy.AccuracyResult(75.0, 3, 4, 3))
  {
    FoxTokens(cc);
    var ref := ["the", "quick", "brown", "fox"];
    var trans := ["the", "brown", "fox"];
    assert multiset(ref) * multiset(trans) == multiset(trans);
    assert Matching.MatchCount(ref, trans) == 3;
    assert Accuracy.Max(4, 3) == 4;
    assert Accuracy.Percent(3, 4) == 75.0;
  }

  lemma FoxTokens(cc: Cleaning.CharClasses)
    requires AsciiFaithful(cc)
    ensures Tokenize.Tokens(cc, "The quick brown fox") == ["the", "quick", "brown", "fox"]
    ensures Tokenize.Tokens(cc, "The brown fox") == ["the", "brown", "fox"]
  {
    FoxCapitals();
    FoxPlainRests();
    LowerFirst(cc, 'T', "he quick brown fox");
    LowerFirst(cc, 'T', "he brown fox");
    FoxWords();
  }

  /** Each fox sentence is its capital followed by plain lower-case text. */
  lemma FoxCapitals()
    ensures "The quick brown fox" == ['T'] + "he quick brown fox"
    ensures "the quick brown fox" == ['t'] + "he quick brown fox"
    ensures "The brown fox" == ['T'] + "he brown fox"
    ensures "the brown fox" == ['t'] + "he brown fox"
    ensures Cleaning.Lower('T') == 't'
  {
  }

  /** After their capital, the fox sentences are lower-case letters and spaces. */
  lemma FoxPlainRests()
    ensures forall i :: 0 <= i < |"he quick brown fox"| ==>
      'a' <= "he quick brown fox"[i] <= 'z' || "he quick brown fox"[i] == ' '
    ensures forall i :: 0 <= i < |"he brown fox"| ==>
      'a' <= "he brown fox"[i] <= 'z' || "he brown fox"[i] == ' '
  {
  }

  /** Lowering the capital at the front of a plain lower-case sentence. */
  lemma LowerFirst(cc: Cleaning.CharClasses, c: char, rest: string)
    requires AsciiFaithful(cc)
    requires Cleaning.IsUpperAscii(c)
    requires forall i :: 0 <= i < |rest| ==> 'a' <= rest[i] <= 'z' || rest[i] == ' '
    ensures Cleaning.Clean(cc, [c] + rest) == [Cleaning.Lower(c)] + rest
  {
    assert Cleaning.Kept(cc, c);
    Cleaning.CleanAppend(cc, [c], rest);
    Cleaning.CleanChar(cc, c);
    CleanPlainText(cc, rest);
  }

  lemma FoxWords()
    ensures Tokenize.Words("the quick brown fox") == ["the", "quick", "brown", "fox"]
    ensures Tokenize.Words("the brown fox") == ["the", "brown", "fox"]
  {
    FoxReferencePieces();
    FoxTranscriptPieces();
    Tokenize.WordsJoin(["the", "quick", "brown", "fox"]);
    Tokenize.WordsJoin(["the", "brown", "fox"]);
  }

  lemma FoxReferencePieces()
    ensures Tokenize.JoinSpace(["the", "quick", "brown", "fox"]) == "the quick brown fox"
  {
  }

  lemma FoxTranscriptPieces()
    ensures Tokenize.JoinSpace(["the", "brown", "fox"]) == "the brown fox"
  {
  }

  /** A punctuation-only reference read against a silent recording: no words on
      either side, so the percentage divides by zero; the corrected score gives 0. */
  lemma NoWordsDividesByZero(cc: Cleaning.CharClasses)
    requires AsciiFaithful(cc)
    ensures Accuracy.Score(cc, "!!!", "") == Failure(Accuracy.DivisionByZero)
    ensures Accuracy.ScoreOrZero(cc, "!!!", "").percentage == 0.0
  {
    assert !Cleaning.Kept(cc, '!');
    assert Cleaning.Clean(cc, "!!!") == [];
    assert Tokenize.Split([]) == [""];
  }
}
