/**
 * `TranscriptionService.transcribe_file`: upload, start, then poll the job
 * until it completes, fails, or 30 minutes have passed since polling began.
 *
 * The three HTTP requests are inputs: `upload` and `start` say whether those
 * requests failed, `poll(n)` is the answer to the n-th status request, and
 * `latency(n)` is the time in milliseconds that round n spends outside the
 * `RETRY_DELAY` sleep (the request itself and the progress callback). The
 * clock is read only in the loop condition.
 */
module Transcription {
  import opened Text

  const MaxWaitTimeMs: nat := 1800 * 1000
  const RetryDelayMs: nat := 2 * 1000
  /** The most status requests a job can get: the sleeps alone use up the budget. */
  const MaxPolls: nat := 900

  const TimedOut: string := "Transcription timed out"
  const UnknownError: string := "Unknown transcription error"

  /** The `status` field of a status document; any other value, or none, is `Unrecognised`. */
  datatype JobStatus = Queued | Processing | Completed | Error | Unrecognised

  /** The fields of the status document that the loop reads; `None` is an absent key. */
  datatype StatusData = StatusData(status: JobStatus, text: Option<string>, error: Option<string>)

  datatype Poll = Fetched(data: StatusData) | FetchFailed(reason: string)

  datatype Request = Succeeded | RequestFailed(reason: string)

  datatype Outcome = Transcript(text: string) | Failed(message: string)

  function GetOr(field: Option<string>, default: string): string {
    if field.Some? then field.value else default
  }

  /** The answer neither ends the loop nor raises: the job is still queued or processing. */
  predicate Continues(p: Poll) {
    p.Fetched? && p.data.status != Completed && p.data.status != Error
  }

  /** How an answer that stops the loop decides the outcome. */
  function Settle(p: Poll): (outcome: Outcome)
    requires !Continues(p)
    ensures outcome.Transcript? <==> p.Fetched? && p.data.status == Completed
    ensures outcome.Transcript? ==> outcome.text == GetOr(p.data.text, "")
    ensures p.FetchFailed? ==> outcome == Failed("Failed to check transcription status: " + p.reason)
    ensures p.Fetched? && p.data.status == Error ==>
              outcome == Failed("Transcription failed: " + GetOr(p.data.error, UnknownError))
  {
    match p
    case FetchFailed(r) => Failed("Failed to check transcription status: " + r)
    case Fetched(d) =>
      if d.status == Completed then Transcript(GetOr(d.text, ""))
      else Failed("Transcription failed: " + GetOr(d.error, UnknownError))
  }

  /** Milliseconds since `start_time` at the n-th evaluation of the loop condition. */
  function CheckTime(latency: nat -> nat, n: nat): nat {
    if n == 0 then 0 else CheckTime(latency, n - 1) + latency(n - 1) + RetryDelayMs
  }

  /** Each round costs at least its sleep. */
  lemma {:induction false} CheckTimeGrows(latency: nat -> nat, n: nat)
    ensures CheckTime(latency, n) >= RetryDelayMs * n
  {
    if n > 0 {
      CheckTimeGrows(latency, n - 1);
    }
  }

  /**
   * What the polling loop does with `poll` and `latency`: `polls` status requests, the
   * last one issued before the deadline (so all were, by `EveryPollBeforeDeadline`), all
   * but the last still pending; the last one settles the outcome, or, if it too was
   * pending, the deadline has passed and the job timed out.
   */
  predicate PollResult(poll: nat -> Poll, latency: nat -> nat, outcome: Outcome, polls: nat) {
    && 0 < polls <= MaxPolls
    && CheckTime(latency, polls - 1) < MaxWaitTimeMs
    && (forall j :: 0 <= j < polls - 1 ==> Continues(poll(j)))
    && (!Continues(poll(polls - 1)) ==> outcome == Settle(poll(polls - 1)))
    && (Continues(poll(polls - 1)) ==>
          outcome == Failed(TimedOut) && CheckTime(latency, polls) >= MaxWaitTimeMs)
  }

  /** The `while time.time() - start_time < max_wait_time` loop. */
  method PollTranscript(poll: nat -> Poll, latency: nat -> nat) returns (outcome: Outcome, polls: nat)
    ensures PollResult(poll, latency, outcome, polls)
  {
    var elapsed := 0;
    polls := 0;
    while elapsed < MaxWaitTimeMs
      invariant elapsed == CheckTime(latency, polls)
      invariant polls > 0 ==> CheckTime(latency, polls - 1) < MaxWaitTimeMs
      invariant forall j :: 0 <= j < polls ==> Continues(poll(j))
      decreases MaxWaitTimeMs - elapsed
    {
      var status := poll(polls);
      elapsed := elapsed + latency(polls);
      polls := polls + 1;
      if !Continues(status) {
        PollsWithinBound(latency, polls);
        return Settle(status), polls;
      }
      elapsed := elapsed + RetryDelayMs;
    }
    PollsWithinBound(latency, polls);
    outcome := Failed(TimedOut);
  }

  /** A request issued before the deadline is among the first `MaxPolls`. */
  lemma PollsWithinBound(latency: nat -> nat, polls: nat)
    requires 0 < polls && CheckTime(latency, polls - 1) < MaxWaitTimeMs
    ensures polls <= MaxPolls
  {
    CheckTimeGrows(latency, polls - 1);
  }

  /** The whole workflow: a failed upload or start raises before any status request. */
  predicate TranscribeResult(upload: Request, start: Request, poll: nat -> Poll, latency: nat -> nat,
                             outcome: Outcome, polls: nat)
  {
    && (upload.RequestFailed? ==> outcome == Failed("Failed to upload file: " + upload.reason) && polls == 0)
    && (upload.Succeeded? && start.RequestFailed? ==>
          outcome == Failed("Failed to start transcription: " + start.reason) && polls == 0)
    && (upload.Succeeded? && start.Succeeded? ==> PollResult(poll, latency, outcome, polls))
  }

  method TranscribeFile(upload: Request, start: Request, poll: nat -> Poll, latency: nat -> nat)
    returns (outcome: Outcome, polls: nat)
    ensures TranscribeResult(upload, start, poll, latency, outcome, polls)
  {
    if upload.RequestFailed? {
      return Failed("Failed to upload file: " + upload.reason), 0;
    }
    if start.RequestFailed? {
      return Failed("Failed to start transcription: " + start.reason), 0;
    }
    outcome, polls := PollTranscript(poll, latency);
  }

  /** The clock never runs backwards. */
  lemma {:induction false} CheckTimeMonotone(latency: nat -> nat, i: nat, j: nat)
    requires i <= j
    ensures CheckTime(latency, i) <= CheckTime(latency, j)
    decreases j
  {
    if i < j {
      CheckTimeMonotone(latency, i, j - 1);
    }
  }

  /** Every status request of a run was issued before the deadline. */
  lemma EveryPollBeforeDeadline(poll: nat -> Poll, latency: nat -> nat, outcome: Outcome, polls: nat, j: nat)
    requires PollResult(poll, latency, outcome, polls) && j < polls
    ensures CheckTime(latency, j) < MaxWaitTimeMs
  {
    CheckTimeMonotone(latency, j, polls - 1);
  }

  /** A status service that answers instantly. */
  function NoLatency(n: nat): nat {
    0
  }

  /** With instant answers, a job that never settles is polled exactly `MaxPolls` times. */
  lemma PendingForeverPolledMaxTimes(poll: nat -> Poll, outcome: Outcome, polls: nat)
    requires PollResult(poll, NoLatency, outcome, polls)
    requires forall j :: Continues(poll(j))
    ensures polls == MaxPolls && outcome == Failed(TimedOut)
  {
    InstantRounds(polls);
  }

  lemma {:induction false} InstantRounds(n: nat)
    ensures CheckTime(NoLatency, n) == RetryDelayMs * n
  {
    if n > 0 {
      InstantRounds(n - 1);
    }
  }

  /** A job that settles on the first answer is settled by it, whatever the clock does. */
  lemma FirstAnswerSettles(poll: nat -> Poll, latency: nat -> nat, outcome: Outcome, polls: nat)
    requires PollResult(poll, latency, outcome, polls)
    requires !Continues(poll(0))
    ensures polls == 1 && outcome == Settle(poll(0))
  {
  }
}
