/**
 The transcription poller: the job status is queried at most 100 times, with
 a three-second pause after every answer that is neither "completed" nor
 "error". The provider is an oracle: the k-th element of the oracle is the
 answer to the k-th status query. Pauses are counted, not timed.
 */
module Polling {
  import opened Results
  import ReadingSpeed

  const MaxAttempts: nat := 100

  /** One status query: the provider's answer, or a failed query. A failed
      query stands for every way the status request can raise instead of
      answering; all of them end the poller at once. */
  datatype Response =
    | Reply(status: string, text: string, words: seq<ReadingSpeed.Word>, error: string)
    | TransportFailure

  /** How the poller ends. */
  datatype Outcome =
    | Transcribed(text: string, words: seq<ReadingSpeed.Word>, readingSpeed: real)
    | JobFailed(providerError: string)
    | Timeout
    | PollingFailed
    | SpeedDivisionByZero
  {
    /** The message of the exception the poller raises for a failure. */
    function Message(): (m: string)
      requires !Transcribed?
      ensures JobFailed? ==> m == "Transcription failed: " + providerError
      ensures Timeout? ==> m == "Transcription timeout"
      ensures PollingFailed? ==> m == "Polling failed"
      ensures SpeedDivisionByZero? ==> m == "Division by zero"
    {
      match this
      case JobFailed(e) => "Transcription failed: " + e
      case Timeout => "Transcription timeout"
      case PollingFailed => "Polling failed"
      case SpeedDivisionByZero => "Division by zero"
    }
  }

  /** The outcome, how many status queries were made, and how many pauses. */
  datatype Run = Run(outcome: Outcome, queries: nat, sleeps: nat)

  /** An answer that keeps the poller going. */
  predicate KeepsPolling(r: Response) {
    r.Reply? && r.status != "completed" && r.status != "error"
  }

  /** What a single answer decides: None to keep polling, or the outcome. */
  function Settle(r: Response): (o: Option<Outcome>)
    ensures o.None? <==> KeepsPolling(r)
    ensures r.TransportFailure? ==> o == Some(PollingFailed)
    ensures r.Reply? && r.status == "error" ==> o == Some(JobFailed(r.error))
    ensures r.Reply? && r.status == "completed" && ReadingSpeed.WordsPerMinute(r.words).Some? ==>
      o == Some(Transcribed(r.text, r.words, ReadingSpeed.WordsPerMinute(r.words).value))
    ensures r.Reply? && r.status == "completed" && ReadingSpeed.WordsPerMinute(r.words).None? ==>
      o == Some(SpeedDivisionByZero)
  {
    match r
    case TransportFailure => Some(PollingFailed)
    case Reply(status, text, words, error) =>
      if status == "completed" then
        match ReadingSpeed.WordsPerMinute(words)
        case Some(wpm) => Some(Transcribed(text, words, wpm))
        case None => Some(SpeedDivisionByZero)
      else if status == "error" then Some(JobFailed(error))
      else None
  }

  /** The poller from query number attempt (counting from 0) on. */
  function Poll(oracle: seq<Response>, attempt: nat): (run: Run)
    requires |oracle| >= MaxAttempts
    requires attempt <= MaxAttempts
    decreases MaxAttempts - attempt
    ensures attempt <= run.queries <= MaxAttempts
    ensures forall i :: attempt <= i < run.queries - 1 ==> KeepsPolling(oracle[i])
    ensures run.outcome.Timeout? ==>
      run.queries == run.sleeps == MaxAttempts && forall i :: attempt <= i < MaxAttempts ==> KeepsPolling(oracle[i])
    ensures !run.outcome.Timeout? ==>
      attempt < run.queries && run.sleeps == run.queries - 1 && Settle(oracle[run.queries - 1]) == Some(run.outcome)
  {
    if attempt == MaxAttempts then Run(Timeout, MaxAttempts, MaxAttempts)
    else match Settle(oracle[attempt])
      case Some(outcome) => Run(outcome, attempt + 1, attempt)
      case None => Poll(oracle, attempt + 1)
  }

  /** The poller's loop: query, stop on a terminal answer, otherwise pause. */
  method GetTranscription(oracle: seq<Response>) returns (run: Run)
    requires |oracle| >= MaxAttempts
    ensures run == Poll(oracle, 0)
  {
    var sleeps := 0;
    for i := 0 to MaxAttempts
      invariant sleeps == i
      invariant Poll(oracle, i) == Poll(oracle, 0)
    {
      var settled := Settle(oracle[i]);
      if settled.Some? {
        return Run(settled.value, i + 1, sleeps);
      }
      sleeps := sleeps + 1;
    }
    return Run(Timeout, MaxAttempts, sleeps);
  }

  /** Answers after the deciding one are never asked for. */
  lemma {:induction false} PollIgnoresLaterAnswers(a: seq<Response>, b: seq<Response>, attempt: nat)
    requires |a| >= MaxAttempts && |b| >= MaxAttempts
    requires attempt <= MaxAttempts
    requires forall i :: attempt <= i < Poll(a, attempt).queries ==> a[i] == b[i]
    ensures Poll(a, attempt) == Poll(b, attempt)
    decreases MaxAttempts - attempt
  {
    if attempt < MaxAttempts && Settle(a[attempt]).None? {
      PollIgnoresLaterAnswers(a, b, attempt + 1);
    }
  }

  /** The converse of Poll's contract: the first deciding answer, at query k,
      fixes the outcome, k queries and k - 1 pauses. */
  lemma {:induction false} PollDecidedAt(oracle: seq<Response>, attempt: nat, k: nat)
    requires |oracle| >= MaxAttempts
    requires attempt < k <= MaxAttempts
    requires forall i :: attempt <= i < k - 1 ==> KeepsPolling(oracle[i])
    requires !KeepsPolling(oracle[k - 1])
    ensures Poll(oracle, attempt) == Run(Settle(oracle[k - 1]).value, k, k - 1)
    decreases MaxAttempts - attempt
  {
    if attempt < k - 1 {
      PollDecidedAt(oracle, attempt + 1, k);
    }
  }

  /** An oracle that never decides times out after exactly 100 queries and 100 pauses. */
  lemma {:induction false} PollNeverDecided(oracle: seq<Response>, attempt: nat)
    requires |oracle| >= MaxAttempts
    requires attempt <= MaxAttempts
    requires forall i :: attempt <= i < MaxAttempts ==> KeepsPolling(oracle[i])
    ensures Poll(oracle, attempt) == Run(Timeout, MaxAttempts, MaxAttempts)
    decreases MaxAttempts - attempt
  {
    if attempt < MaxAttempts {
      PollNeverDecided(oracle, attempt + 1);
    }
  }

  /** Four "processing" answers, then "completed": five queries and four pauses. */
  lemma CompletedOnFifthQuery(oracle: seq<Response>)
    requires |oracle| >= MaxAttempts
    requires forall i :: 0 <= i < 4 ==> oracle[i].Reply? && oracle[i].status == "processing"
    requires oracle[4].Reply? && oracle[4].status == "completed"
    requires ReadingSpeed.WordsPerMinute(oracle[4].words).Some?
    ensures Poll(oracle, 0).queries == 5 && Poll(oracle, 0).sleeps == 4
    ensures Poll(oracle, 0).outcome == Transcribed(oracle[4].text, oracle[4].words,
      ReadingSpeed.WordsPerMinute(oracle[4].words).value)
  {
    PollDecidedAt(oracle, 0, 5);
  }

  /** An "error" answer to the first query (the provider may say, for instance,
      "audio too short") ends the poller at once with the provider's message. */
  lemma ErrorOnFirstQuery(oracle: seq<Response>, message: string)
    requires |oracle| >= MaxAttempts
    requires oracle[0].Reply? && oracle[0].status == "error" && oracle[0].error == message
    ensures Poll(oracle, 0) == Run(JobFailed(message), 1, 0)
    ensures Poll(oracle, 0).outcome.Message() == "Transcription failed: " + message
  {
    PollDecidedAt(oracle, 0, 1);
  }
}
