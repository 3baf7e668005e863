/**
 Reading speed in words per minute, from the per-word timings of a finished
 transcription: the word count over the time from the first word's start to
 the last word's end. Exact reals; the rounding to two places is not modelled.
 */
module ReadingSpeed {
  import opened Results

  /** A transcribed word with its start and end time in milliseconds. */
  datatype Word = Word(text: string, start: int, end: int)

  /** The reading time in milliseconds: first start to last end. */
  function SpanMs(words: seq<Word>): int
    requires |words| > 0
  {
    words[|words| - 1].end - words[0].start
  }

  /** Words per minute; None when the reading time is zero, where the source divides by zero. */
  function WordsPerMinute(words: seq<Word>): (r: Option<real>)
    ensures |words| == 0 ==> r == Some(0.0)
    ensures |words| > 0 ==> (r.None? <==> SpanMs(words) == 0)
    ensures |words| > 0 && r.Some? ==> r.value * SpanMs(words) as real == |words| as real * 60000.0
    ensures |words| > 0 && SpanMs(words) > 0 ==> r.Some? && r.value > 0.0
  {
    if |words| == 0 then Some(0.0)
    else
      var span := SpanMs(words);
      if span == 0 then None
      else
        var seconds := span as real / 1000.0;
        var wpm := |words| as real / seconds * 60.0;
        assert seconds * 1000.0 == span as real;
        assert (|words| as real / seconds) * seconds == |words| as real;
        assert wpm * span as real == (|words| as real / seconds) * seconds * 60000.0;
        Some(wpm)
  }

  /** Only the count, the first start and the last end matter. */
  lemma WordsPerMinuteEndpoints(a: seq<Word>, b: seq<Word>)
    requires |a| == |b| > 0
    requires a[0].start == b[0].start
    requires a[|a| - 1].end == b[|b| - 1].end
    ensures WordsPerMinute(a) == WordsPerMinute(b)
  {
  }
}
