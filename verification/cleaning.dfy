/**
 Text normalisation applied by the accuracy scorer before tokenising:
 every character outside the letter, number and whitespace classes is
 deleted, then ASCII upper-case letters are lowered.
 */
module Cleaning {

  /** The three Unicode character classes of the cleaning pattern (letters,
      numbers and whitespace), left abstract: no Unicode tables are modelled. */
  datatype CharClasses = CharClasses(
    isLetter: char -> bool,
    isNumber: char -> bool,
    isSpace: char -> bool)

  /** A character survives the cleaning step. */
  predicate Kept(cc: CharClasses, c: char) {
    cc.isLetter(c) || cc.isNumber(c) || cc.isSpace(c)
  }

  predicate IsUpperAscii(c: char) {
    'A' <= c <= 'Z'
  }

  /** Locale-independent lowering: only 'A'..'Z' change. */
  function Lower(c: char): (r: char)
    ensures !IsUpperAscii(r)
    ensures IsUpperAscii(c) ==> r as int == c as int + 32
    ensures !IsUpperAscii(c) ==> r == c
  {
    if IsUpperAscii(c) then (c as int + 32) as char else c
  }

  /** Letters keep their class when lowered, as every real letter class does. */
  ghost predicate CaseClosed(cc: CharClasses) {
    forall c {:trigger Lower(c)} :: Kept(cc, c) <==> Kept(cc, Lower(c))
  }

  /** Delete the characters outside the classes, then lower what is left. */
  function Clean(cc: CharClasses, s: string): (r: string)
    ensures |r| <= |s|
    ensures forall i :: 0 <= i < |r| ==> !IsUpperAscii(r[i])
    ensures (forall i :: 0 <= i < |s| ==> !Kept(cc, s[i])) ==> r == []
  {
    if |s| == 0 then []
    else (if Kept(cc, s[0]) then [Lower(s[0])] else []) + Clean(cc, s[1..])
  }

  /** One character: kept and lowered when it is in a kept class, deleted otherwise. */
  lemma CleanChar(cc: CharClasses, c: char)
    ensures Clean(cc, [c]) == if Kept(cc, c) then [Lower(c)] else []
  {
  }

  /** A text made only of kept characters with no ASCII capital is already clean. */
  lemma {:induction false} CleanUnchanged(cc: CharClasses, s: string)
    requires forall i :: 0 <= i < |s| ==> Kept(cc, s[i]) && !IsUpperAscii(s[i])
    ensures Clean(cc, s) == s
  {
    if |s| > 0 {
      CleanUnchanged(cc, s[1..]);
      assert s == [s[0]] + s[1..];
    }
  }

  /** Every character of the cleaned text is the lowered form of a kept
      character of the input, so nothing outside the classes survives. */
  lemma {:induction false} CleanOrigin(cc: CharClasses, s: string, i: nat)
    requires i < |Clean(cc, s)|
    ensures exists j :: 0 <= j < |s| && Kept(cc, s[j]) && Clean(cc, s)[i] == Lower(s[j])
  {
    var head := if Kept(cc, s[0]) then [Lower(s[0])] else [];
    if i < |head| {
      assert Clean(cc, s)[i] == Lower(s[0]);
    } else {
      CleanOrigin(cc, s[1..], i - |head|);
      var j :| 0 <= j < |s[1..]| && Kept(cc, s[1..][j]) && Clean(cc, s[1..])[i - |head|] == Lower(s[1..][j]);
      assert s[1..][j] == s[j + 1];
    }
  }

  lemma {:induction false} CleanAppend(cc: CharClasses, a: string, b: string)
    ensures Clean(cc, a + b) == Clean(cc, a) + Clean(cc, b)
  {
    if |a| == 0 {
      assert a + b == b;
    } else {
      assert (a + b)[1..] == a[1..] + b;
      CleanAppend(cc, a[1..], b);
    }
  }

  /** Punctuation insensitivity: a deleted character may be inserted anywhere. */
  lemma CleanIgnoresDropped(cc: CharClasses, a: string, c: char, b: string)
    requires !Kept(cc, c)
    ensures Clean(cc, a + [c] + b) == Clean(cc, a + b)
  {
    CleanAppend(cc, a + [c], b);
    CleanAppend(cc, a, [c]);
    CleanAppend(cc, a, b);
    assert Clean(cc, [c]) == [];
  }

  /** Two texts that differ only in the case of ASCII letters agree after cleaning. */
  lemma {:induction false} CleanCaseInsensitive(cc: CharClasses, a: string, b: string)
    requires CaseClosed(cc)
    requires |a| == |b|
    requires forall i :: 0 <= i < |a| ==> Lower(a[i]) == Lower(b[i])
    ensures Clean(cc, a) == Clean(cc, b)
  {
    if |a| > 0 {
      assert Kept(cc, a[0]) <==> Kept(cc, Lower(a[0]));
      assert Kept(cc, b[0]) <==> Kept(cc, Lower(b[0]));
      CleanCaseInsensitive(cc, a[1..], b[1..]);
    }
  }

  /** Cleaning an already cleaned text changes nothing. */
  lemma {:induction false} CleanIdempotent(cc: CharClasses, s: string)
    requires CaseClosed(cc)
    ensures Clean(cc, Clean(cc, s)) == Clean(cc, s)
  {
    if |s| > 0 {
      var head := if Kept(cc, s[0]) then [Lower(s[0])] else [];
      CleanAppend(cc, head, Clean(cc, s[1..]));
      if Kept(cc, s[0]) {
        assert Kept(cc, Lower(s[0]));
        assert Clean(cc, head) == head;
      }
      CleanIdempotent(cc, s[1..]);
    }
  }
}
