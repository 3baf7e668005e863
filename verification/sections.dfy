/**
 Extraction of the two marked sections of the language model's analysis
 text. The feedback is the text after the first "**Feedback**" marker, with
 leading whitespace skipped, up to the first "**Corrected Transcription**"
 marker after it; the corrected transcription is everything after the first
 "**Corrected Transcription**" marker, with leading whitespace skipped.
 Missing markers give fixed placeholder texts.
 */
module Sections {
  import opened Results

  const FeedbackMarker: string := "**Feedback**"
  const CorrectedMarker: string := "**Corrected Transcription**"
  const NoFeedback: string := "No feedback available."
  const NoTranscription: string := "No transcription available."

  /** The whitespace class of a pattern without Unicode mode: tab, line feed,
      vertical tab, form feed, carriage return and space. */
  predicate IsSpace(c: char) {
    c == ' ' || 9 <= c as int <= 13
  }

  /** pat occurs in s starting at position i. */
  predicate Occurs(pat: string, s: string, i: nat) {
    i + |pat| <= |s| && s[i..i + |pat|] == pat
  }

  /** pat occurs nowhere in s starting in [from, to). */
  predicate AbsentBetween(pat: string, s: string, from: nat, to: nat) {
    forall i: nat :: from <= i < to ==> !Occurs(pat, s, i)
  }

  /** The first occurrence of pat starting at or after from. */
  function Find(pat: string, s: string, from: nat): (r: Option<nat>)
    decreases |s| - from
    ensures r.Some? ==> from <= r.value && Occurs(pat, s, r.value) && AbsentBetween(pat, s, from, r.value)
    ensures r.None? ==> forall i: nat :: from <= i ==> !Occurs(pat, s, i)
  {
    if from + |pat| > |s| then None
    else if s[from..from + |pat|] == pat then Some(from)
    else Find(pat, s, from + 1)
  }

  /** The first position at or after k that does not hold whitespace. */
  function SkipSpace(s: string, k: nat): (r: nat)
    requires k <= |s|
    decreases |s| - k
    ensures k <= r <= |s|
    ensures forall i :: k <= i < r ==> IsSpace(s[i])
    ensures r < |s| ==> !IsSpace(s[r])
  {
    if k == |s| || !IsSpace(s[k]) then k else SkipSpace(s, k + 1)
  }

  /** Where a marked section sits: its marker, and the first and one-past-last
      positions of the captured text. */
  datatype Section = Section(marker: nat, start: nat, end: nat)

  /** Some "**Feedback**" is followed, later, by a "**Corrected Transcription**". */
  ghost predicate HasFeedback(s: string) {
    exists i: nat, j: nat :: Occurs(FeedbackMarker, s, i) && i + |FeedbackMarker| <= j && Occurs(CorrectedMarker, s, j)
  }

  function FeedbackSection(s: string): (r: Option<Section>)
    ensures r.None? <==> !HasFeedback(s)
    ensures r.Some? ==>
      var sec := r.value;
      var after := sec.marker + |FeedbackMarker|;
      && Occurs(FeedbackMarker, s, sec.marker)
      && AbsentBetween(FeedbackMarker, s, 0, sec.marker)
      && after <= sec.start <= sec.end < |s|
      && (forall i :: after <= i < sec.start ==> IsSpace(s[i]))
      && !IsSpace(s[sec.start])
      && Occurs(CorrectedMarker, s, sec.end)
      && AbsentBetween(CorrectedMarker, s, after, sec.end)
  {
    match Find(FeedbackMarker, s, 0)
    case None => None
    case Some(i) =>
      var after := i + |FeedbackMarker|;
      match Find(CorrectedMarker, s, after)
      case None =>
        assert !HasFeedback(s) by {
          forall i': nat, j: nat | Occurs(FeedbackMarker, s, i') && i' + |FeedbackMarker| <= j
            ensures !Occurs(CorrectedMarker, s, j)
          {
            assert i <= i';
          }
        }
        None
      case Some(j) =>
        var start := SkipSpace(s, after);
        assert s[j] == CorrectedMarker[0] == '*';
        Some(Section(i, start, j))
  }

  /** The feedback text, or the placeholder when there is none. */
  function ExtractFeedback(s: string): (r: string)
    ensures !HasFeedback(s) ==> r == NoFeedback
    ensures HasFeedback(s) ==> forall k: nat :: !Occurs(CorrectedMarker, r, k)
    ensures HasFeedback(s) ==> |r| == 0 || !IsSpace(r[0])
    ensures HasFeedback(s) ==>
      var sec := FeedbackSection(s).value;
      r == s[sec.start..sec.end]
  {
    match FeedbackSection(s)
    case None => NoFeedback
    case Some(sec) =>
      var r := s[sec.start..sec.end];
      assert forall k: nat :: !Occurs(CorrectedMarker, r, k) by {
        forall k: nat | Occurs(CorrectedMarker, r, k)
          ensures false
        {
          OccursInSlice(CorrectedMarker, s, sec.start, sec.end, k);
        }
      }
      r
  }

  /** An occurrence inside a slice is an occurrence in the whole text. */
  lemma OccursInSlice(pat: string, s: string, a: nat, b: nat, k: nat)
    requires a <= b <= |s|
    requires Occurs(pat, s[a..b], k)
    ensures Occurs(pat, s, a + k) && a + k + |pat| <= b
  {
    var inner := s[a..b][k..k + |pat|];
    var outer := s[a + k..a + k + |pat|];
    assert forall t :: 0 <= t < |pat| ==> inner[t] == outer[t];
    assert inner == outer;
  }

  function CorrectedSection(s: string): (r: Option<Section>)
    ensures r.None? <==> forall i: nat :: !Occurs(CorrectedMarker, s, i)
    ensures r.Some? ==>
      var sec := r.value;
      var after := sec.marker + |CorrectedMarker|;
      && Occurs(CorrectedMarker, s, sec.marker)
      && AbsentBetween(CorrectedMarker, s, 0, sec.marker)
      && after <= sec.start <= sec.end == |s|
      && (forall i :: after <= i < sec.start ==> IsSpace(s[i]))
      && (sec.start < |s| ==> !IsSpace(s[sec.start]))
  {
    match Find(CorrectedMarker, s, 0)
    case None => None
    case Some(i) =>
      var after := i + |CorrectedMarker|;
      Some(Section(i, SkipSpace(s, after), |s|))
  }

  /** The corrected transcription, or the placeholder when there is none. */
  function ExtractCorrectedTranscription(s: string): (r: string)
    ensures (forall i: nat :: !Occurs(CorrectedMarker, s, i)) ==> r == NoTranscription
    ensures (exists i: nat :: Occurs(CorrectedMarker, s, i)) ==>
      && |r| + |CorrectedMarker| <= |s|
      && r == s[|s| - |r|..]
      && (|r| == 0 || !IsSpace(r[0]))
    ensures CorrectedSection(s).Some? ==> r == s[CorrectedSection(s).value.start..]
  {
    match CorrectedSection(s)
    case None => NoTranscription
    case Some(sec) => s[sec.start..]
  }

  /** A report holding a feedback text between the two markers gives that
      text back, whatever precedes the first feedback marker, provided the
      text does not start with whitespace and holds no closing marker. */
  lemma FeedbackRoundTrip(prefix: string, feedback: string, rest: string)
    requires |feedback| == 0 || !IsSpace(feedback[0])
    requires AbsentBetween(FeedbackMarker, prefix + FeedbackMarker + feedback + CorrectedMarker + rest,
      0, |prefix|)
    requires AbsentBetween(CorrectedMarker, prefix + FeedbackMarker + feedback + CorrectedMarker + rest,
      |prefix| + |FeedbackMarker|, |prefix| + |FeedbackMarker| + |feedback|)
    ensures ExtractFeedback(prefix + FeedbackMarker + feedback + CorrectedMarker + rest) == feedback
  {
    var s := prefix + FeedbackMarker + feedback + CorrectedMarker + rest;
    var open := |prefix|;
    var after := open + |FeedbackMarker|;
    var close := after + |feedback|;
    assert s[open..after] == FeedbackMarker;
    assert s[after..close] == feedback;
    assert s[close..close + |CorrectedMarker|] == CorrectedMarker;
    assert Occurs(FeedbackMarker, s, open);
    assert Occurs(CorrectedMarker, s, close);
    assert s[after] == if |feedback| == 0 then '*' else feedback[0];
    var sec := FeedbackSection(s).value;
    assert sec.marker == open;
    assert sec.start == after;
    assert sec.end == close;
  }

  /** Whatever precedes the first closing marker, and whatever whitespace
      follows it, the text after that whitespace comes back. */
  lemma CorrectedRoundTrip(prefix: string, ws: string, transcription: string)
    requires forall i :: 0 <= i < |ws| ==> IsSpace(ws[i])
    requires |transcription| == 0 || !IsSpace(transcription[0])
    requires AbsentBetween(CorrectedMarker, prefix + CorrectedMarker + ws + transcription, 0, |prefix|)
    ensures ExtractCorrectedTranscription(prefix + CorrectedMarker + ws + transcription) == transcription
  {
    var s := prefix + CorrectedMarker + ws + transcription;
    var after := |prefix| + |CorrectedMarker|;
    var start := after + |ws|;
    assert s[|prefix|..after] == CorrectedMarker;
    assert Occurs(CorrectedMarker, s, |prefix|);
    assert s[after..start] == ws;
    assert s[start..] == transcription;
    var sec := CorrectedSection(s).value;
    assert sec.marker == |prefix|;
    assert forall i :: after <= i < start ==> IsSpace(s[i]);
    assert start < |s| ==> s[start] == transcription[0];
    assert sec.start == start;
  }
}
