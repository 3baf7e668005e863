/**
 Word splitting of the accuracy scorer: the cleaned text is cut at every
 single space character (other whitespace stays inside a word), and the
 pieces PHP treats as false, the empty string and "0", are dropped.
 */
module Tokenize {
  import Cleaning

  /** Join pieces with one space between neighbours. */
  function JoinSpace(pieces: seq<string>): string
    requires |pieces| >= 1
  {
    if |pieces| == 1 then pieces[0]
    else pieces[0] + " " + JoinSpace(pieces[1..])
  }

  ghost predicate SpaceFree(pieces: seq<string>) {
    forall i :: 0 <= i < |pieces| ==> ' ' !in pieces[i]
  }

  /** Cut at every ' ', keeping empty pieces. */
  function Split(s: string): (r: seq<string>)
    ensures |r| >= 1
    ensures SpaceFree(r)
  {
    if |s| == 0 then [""]
    else if s[0] == ' ' then [""] + Split(s[1..])
    else
      var rest := Split(s[1..]);
      [[s[0]] + rest[0]] + rest[1..]
  }

  /** Joining the pieces with spaces gives back the text. */
  lemma {:induction false} JoinSplit(s: string)
    ensures JoinSpace(Split(s)) == s
  {
    if |s| > 0 {
      var rest := Split(s[1..]);
      JoinSplit(s[1..]);
      assert s == [s[0]] + s[1..];
      if s[0] != ' ' {
        var r := Split(s);
        assert r[1..] == rest[1..];
        if |rest| > 1 {
          assert JoinSpace(rest) == rest[0] + " " + JoinSpace(rest[1..]);
          assert JoinSpace(r) == r[0] + " " + JoinSpace(r[1..]);
        }
      }
    }
  }

  /** A piece survives array_filter unless it is empty or the string "0". */
  predicate Truthy(w: string) {
    w != "" && w != "0"
  }

  /** The pieces that survive array_filter, in their original order. */
  function KeepTruthy(pieces: seq<string>): (r: seq<string>)
    ensures |r| <= |pieces|
    ensures forall i :: 0 <= i < |r| ==> Truthy(r[i]) && r[i] in pieces
    ensures (forall i :: 0 <= i < |pieces| ==> Truthy(pieces[i])) ==> r == pieces
  {
    if |pieces| == 0 then []
    else (if Truthy(pieces[0]) then [pieces[0]] else []) + KeepTruthy(pieces[1..])
  }

  /** The words of an already cleaned text. */
  function Words(t: string): (r: seq<string>)
    ensures SpaceFree(r)
    ensures forall i :: 0 <= i < |r| ==> Truthy(r[i])
  {
    KeepTruthy(Split(t))
  }

  /** The token sequence the scorer compares: the words of the cleaned text. */
  function Tokens(cc: Cleaning.CharClasses, text: string): (r: seq<string>)
    ensures SpaceFree(r)
    ensures forall i :: 0 <= i < |r| ==> Truthy(r[i])
    ensures forall i, j :: 0 <= i < |r| && 0 <= j < |r[i]| ==> !Cleaning.IsUpperAscii(r[i][j])
  {
    var t := Cleaning.Clean(cc, text);
    var pieces := Split(t);
    var r := KeepTruthy(pieces);
    assert forall i, j :: 0 <= i < |r| && 0 <= j < |r[i]| ==> !Cleaning.IsUpperAscii(r[i][j]) by {
      forall i, j | 0 <= i < |r| && 0 <= j < |r[i]|
        ensures !Cleaning.IsUpperAscii(r[i][j])
      {
        var k :| 0 <= k < |pieces| && pieces[k] == r[i];
        SplitPieceChars(t, k, j);
      }
    }
    r
  }

  /** Every character of a piece comes from the split text. */
  lemma {:induction false} SplitPieceChars(s: string, k: nat, j: nat)
    requires k < |Split(s)| && j < |Split(s)[k]|
    ensures Split(s)[k][j] in s
  {
    var rest := Split(s[1..]);
    if s[0] == ' ' {
      SplitPieceChars(s[1..], k - 1, j);
    } else if k == 0 && j == 0 {
    } else if k == 0 {
      SplitPieceChars(s[1..], 0, j - 1);
    } else {
      SplitPieceChars(s[1..], k, j);
    }
  }

  lemma {:induction false} KeepTruthyAppend(a: seq<string>, b: seq<string>)
    ensures KeepTruthy(a + b) == KeepTruthy(a) + KeepTruthy(b)
  {
    if |a| == 0 {
      assert a + b == b;
    } else {
      assert (a + b)[1..] == a[1..] + b;
      KeepTruthyAppend(a[1..], b);
    }
  }

  /** A space splits the text into two independent halves. */
  lemma {:induction false} SplitAtSpace(a: string, b: string)
    ensures Split(a + " " + b) == Split(a) + Split(b)
  {
    if |a| == 0 {
      assert a + " " + b == [' '] + b;
      SplitAfterSpace(b);
    } else {
      var c, t := a[0], a[1..];
      assert a == [c] + t;
      assert a + " " + b == [c] + (t + " " + b);
      SplitAtSpace(t, b);
      SplitAtSpaceStep(c, t, b);
    }
  }

  /** The inductive step of SplitAtSpace: one more character in front. */
  lemma SplitAtSpaceStep(c: char, t: string, b: string)
    requires Split(t + " " + b) == Split(t) + Split(b)
    ensures Split([c] + (t + " " + b)) == Split([c] + t) + Split(b)
  {
    if c == ' ' {
      SplitAtSpaceSpace(t, b);
    } else {
      SplitAtSpaceLetter(c, t, b);
    }
  }

  lemma SplitAtSpaceSpace(t: string, b: string)
    requires Split(t + " " + b) == Split(t) + Split(b)
    ensures Split([' '] + (t + " " + b)) == Split([' '] + t) + Split(b)
  {
    SplitAfterSpace(t + " " + b);
    SplitAfterSpace(t);
  }

  lemma SplitAtSpaceLetter(c: char, t: string, b: string)
    requires c != ' '
    requires Split(t + " " + b) == Split(t) + Split(b)
    ensures Split([c] + (t + " " + b)) == Split([c] + t) + Split(b)
  {
    var rt, rb := Split(t), Split(b);
    SplitAfterLetter(c, t + " " + b);
    SplitAfterLetter(c, t);
    var head := [c] + rt[0];
    assert (rt + rb)[0] == rt[0];
    assert (rt + rb)[1..] == rt[1..] + rb;
    ConsAppend(head, rt[1..], rb);
  }

  lemma ConsAppend(x: string, p: seq<string>, q: seq<string>)
    ensures [x] + (p + q) == ([x] + p) + q
  {
  }

  lemma SplitAfterSpace(t: string)
    ensures Split([' '] + t) == [""] + Split(t)
  {
    assert ([' '] + t)[1..] == t;
  }

  lemma SplitAfterLetter(c: char, t: string)
    requires c != ' '
    ensures Split([c] + t) == [[c] + Split(t)[0]] + Split(t)[1..]
  {
    assert ([c] + t)[1..] == t;
  }

  /** Words of two texts joined by a space are the words of each, concatenated. */
  lemma WordsAtSpace(a: string, b: string)
    ensures Words(a + " " + b) == Words(a) + Words(b)
  {
    SplitAtSpace(a, b);
    KeepTruthyAppend(Split(a), Split(b));
  }

  /** A text without spaces is one word, or none when it is "" or "0". */
  lemma WordsOfSpaceFree(w: string)
    requires ' ' !in w
    ensures Words(w) == if Truthy(w) then [w] else []
  {
    SplitSpaceFree(w);
  }

  lemma {:induction false} SplitSpaceFree(w: string)
    requires ' ' !in w
    ensures Split(w) == [w]
  {
    if |w| > 0 {
      assert ' ' !in w[1..];
      SplitSpaceFree(w[1..]);
      SplitAfterLetter(w[0], w[1..]);
      assert w == [w[0]] + w[1..];
    }
  }

  /** Splitting undoes joining, whatever space-free pieces were joined. */
  lemma {:induction false} SplitJoin(pieces: seq<string>)
    requires |pieces| >= 1
    requires SpaceFree(pieces)
    ensures Split(JoinSpace(pieces)) == pieces
  {
    SplitSpaceFree(pieces[0]);
    if |pieces| > 1 {
      assert SpaceFree(pieces[1..]);
      SplitJoin(pieces[1..]);
      SplitAtSpace(pieces[0], JoinSpace(pieces[1..]));
      assert pieces == [pieces[0]] + pieces[1..];
    }
  }

  /** Words joined by single spaces tokenise back to the same words. */
  lemma WordsJoin(words: seq<string>)
    requires |words| >= 1
    requires SpaceFree(words)
    requires forall i :: 0 <= i < |words| ==> Truthy(words[i])
    ensures Words(JoinSpace(words)) == words
  {
    SplitJoin(words);
  }
}
