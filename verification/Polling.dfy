/**
 Waiting for a worker job: polling with backoff until a terminal status, too many failures or the
 deadline.

 The server and the clock are given as what they answer: `fetch(k)` is the outcome of the k-th poll
 and `lag(k)` how much later than asked for the poll after sleep k is over. Times are milliseconds.
 */
module Polling {
  import opened Wrappers

  const POLL_INTERVAL_MS: nat := 1500
  const POLL_TIMEOUT_MS: nat := 5 * 60 * 1000
  const MAX_CONSECUTIVE_FAILURES: nat := 3

  datatype Status = Pending | Running | Completed | Failed | Cancelled

  datatype Job = Job(status: Status, result: Option<string>, error: Option<string>)

  /** A poll answers with the job, an HTTP status that is an error, or no answer at all. */
  datatype Reply = Answer(job: Job) | HttpError(status: nat) | NoAnswer

  datatype Outcome = Resolved(result: string) | JobFailed(message: Option<string>) | TimedOut | PollFailed(reply: Reply) | Aborted

  predicate IsTransient(reply: Reply)
    requires !reply.Answer?
  {
    reply.NoAnswer? || reply.status >= 500 || reply.status == 408 || reply.status == 429
  }

  predicate Unfinished(job: Job) {
    job.status.Pending? || job.status.Running?
  }

  /** `!current.result_summary`: there is a payload. */
  function Finish(job: Job): Outcome {
    if job.status.Completed? && job.result.Some? then Resolved(job.result.value) else JobFailed(job.error)
  }

  /** `POLL_INTERVAL_MS * 2 ** failures`. */
  function Backoff(failures: nat): nat {
    if failures == 0 then POLL_INTERVAL_MS else 2 * Backoff(failures - 1)
  }

  /** Failures in a row just before poll k: since the last answer. */
  function Streak(fetch: nat -> Reply, k: nat): nat {
    if k == 0 || fetch(k - 1).Answer? then 0 else 1 + Streak(fetch, k - 1)
  }

  /** The job as last seen before poll k. */
  function Seen(job: Job, fetch: nat -> Reply, k: nat): Job {
    if k == 0 then job else if fetch(k - 1).Answer? then fetch(k - 1).job else Seen(job, fetch, k - 1)
  }

  /** The clock when poll k is due to be considered: every sleep lasts at least what was asked for. */
  function Clock(fetch: nat -> Reply, lag: nat -> nat, k: nat): nat {
    if k == 0 then 0 else Clock(fetch, lag, k - 1) + Backoff(Streak(fetch, k - 1)) + lag(k - 1)
  }

  /** Poll k happens: the job is unfinished, the deadline has not passed and the caller still waits. */
  predicate Polls(job: Job, fetch: nat -> Reply, lag: nat -> nat, aborted: nat -> bool, k: nat) {
    Unfinished(Seen(job, fetch, k)) && Clock(fetch, lag, k) <= POLL_TIMEOUT_MS && !aborted(k)
  }

  /** Poll k ends the wait with an error: not transient, or the third in a row. */
  predicate GivesUp(fetch: nat -> Reply, k: nat) {
    !fetch(k).Answer? && (!IsTransient(fetch(k)) || Streak(fetch, k + 1) >= MAX_CONSECUTIVE_FAILURES)
  }

  /** The first `n` polls happen and none of them ends the wait. */
  ghost predicate Waiting(job: Job, fetch: nat -> Reply, lag: nat -> nat, aborted: nat -> bool, n: nat) {
    forall k: nat :: k < n ==> Polls(job, fetch, lag, aborted, k) && !GivesUp(fetch, k)
  }

  /** How a wait that made exactly `n` polls must end. */
  ghost predicate EndsAfter(job: Job, fetch: nat -> Reply, lag: nat -> nat, aborted: nat -> bool, n: nat, out: Outcome) {
    || (&& Waiting(job, fetch, lag, aborted, n)
        && (if !Unfinished(Seen(job, fetch, n)) then out == Finish(Seen(job, fetch, n))
            else if Clock(fetch, lag, n) > POLL_TIMEOUT_MS then out == TimedOut
            else aborted(n) && out == Aborted))
    || (&& n > 0 && Waiting(job, fetch, lag, aborted, n - 1)
        && Polls(job, fetch, lag, aborted, n - 1) && GivesUp(fetch, n - 1)
        && out == PollFailed(fetch(n - 1)))
  }

  ghost predicate SleepsMatch(fetch: nat -> Reply, sleeps: seq<nat>) {
    forall i :: 0 <= i < |sleeps| ==> sleeps[i] == Backoff(Streak(fetch, i))
  }

  lemma NextPoll(job: Job, fetch: nat -> Reply, lag: nat -> nat, aborted: nat -> bool, n: nat)
    requires Waiting(job, fetch, lag, aborted, n) && Polls(job, fetch, lag, aborted, n)
    ensures GivesUp(fetch, n) ==> EndsAfter(job, fetch, lag, aborted, n + 1, PollFailed(fetch(n)))
    ensures !GivesUp(fetch, n) ==> Waiting(job, fetch, lag, aborted, n + 1)
  {
  }

  /** One poll later: the clock, the job and the failures in a row. */
  lemma NextSeen(job: Job, fetch: nat -> Reply, lag: nat -> nat, n: nat)
    ensures Clock(fetch, lag, n + 1) == Clock(fetch, lag, n) + Backoff(Streak(fetch, n)) + lag(n)
    ensures Seen(job, fetch, n + 1) == if fetch(n).Answer? then fetch(n).job else Seen(job, fetch, n)
    ensures Streak(fetch, n + 1) == if fetch(n).Answer? then 0 else 1 + Streak(fetch, n)
  {
  }

  lemma {:induction false} BackoffAtLeastInterval(failures: nat)
    ensures Backoff(failures) >= POLL_INTERVAL_MS
    decreases failures
  {
    if failures > 0 {
      BackoffAtLeastInterval(failures - 1);
    }
  }

  lemma BackoffAtMostSixSeconds(failures: nat)
    requires failures < MAX_CONSECUTIVE_FAILURES
    ensures Backoff(failures) <= 6000
  {
    assert Backoff(0) == 1500 && Backoff(1) == 3000 && Backoff(2) == 6000;
  }

  lemma {:induction false} ClockAdvances(fetch: nat -> Reply, lag: nat -> nat, k: nat)
    ensures Clock(fetch, lag, k) >= k * POLL_INTERVAL_MS
  {
    if k > 0 {
      ClockAdvances(fetch, lag, k - 1);
      BackoffAtLeastInterval(Streak(fetch, k - 1));
    }
  }

  /**
   The loop, for any server and any clock that advances at least each sleep. `aborted(k)` is the
   signal's state during the k-th sleep; a sleep is listed when it starts.
   */
  method PollJob(job: Job, fetch: nat -> Reply, lag: nat -> nat, aborted: nat -> bool)
    returns (out: Outcome, polls: nat, sleeps: seq<nat>)
    ensures EndsAfter(job, fetch, lag, aborted, polls, out)
    ensures |sleeps| == (if out.Aborted? then polls + 1 else polls) && SleepsMatch(fetch, sleeps)
  {
    var deadline := POLL_TIMEOUT_MS;
    var now := 0;
    var current := job;
    var failures := 0;
    polls, sleeps := 0, [];
    while Unfinished(current)
      invariant now == Clock(fetch, lag, polls)
      invariant current == Seen(job, fetch, polls) && failures == Streak(fetch, polls)
      invariant Waiting(job, fetch, lag, aborted, polls)
      invariant |sleeps| == polls && SleepsMatch(fetch, sleeps)
      decreases deadline + POLL_INTERVAL_MS - now
    {
      if now > deadline {
        return TimedOut, polls, sleeps;
      }
      BackoffAtLeastInterval(failures);
      sleeps := sleeps + [Backoff(failures)];
      if aborted(polls) {
        return Aborted, polls, sleeps;
      }
      NextPoll(job, fetch, lag, aborted, polls);
      NextSeen(job, fetch, lag, polls);
      now := now + Backoff(failures) + lag(polls);
      var reply := fetch(polls);
      polls := polls + 1;
      if reply.Answer? {
        current := reply.job;
        failures := 0;
      } else {
        failures := failures + 1;
        if !IsTransient(reply) || failures >= MAX_CONSECUTIVE_FAILURES {
          return PollFailed(reply), polls, sleeps;
        }
      }
    }
    out := Finish(current);
  }

  /** Before the third failure in a row the wait goes on. */
  lemma StreakBounded(fetch: nat -> Reply, k: nat)
    requires k > 0 ==> !GivesUp(fetch, k - 1)
    ensures Streak(fetch, k) < MAX_CONSECUTIVE_FAILURES
  {
  }

  /**
   However the server answers and however slow the clock: at most 201 polls, never more than three
   failures in a row, no sleep longer than six seconds.
   */
  lemma WaitIsBounded(job: Job, fetch: nat -> Reply, lag: nat -> nat, aborted: nat -> bool, n: nat, out: Outcome)
    requires EndsAfter(job, fetch, lag, aborted, n, out)
    ensures n <= 201
    ensures forall k: nat :: k <= n ==> Streak(fetch, k) <= MAX_CONSECUTIVE_FAILURES
    ensures forall i: nat :: i < n || (i == n && out.Aborted?) ==> Backoff(Streak(fetch, i)) <= 6000
  {
    if n > 0 {
      assert Polls(job, fetch, lag, aborted, n - 1);
      ClockAdvances(fetch, lag, n - 1);
    }
    forall k: nat | k < n || (k == n && out.Aborted?)
      ensures Streak(fetch, k) < MAX_CONSECUTIVE_FAILURES && Backoff(Streak(fetch, k)) <= 6000
    {
      assert k > 0 ==> !GivesUp(fetch, k - 1);
      StreakBounded(fetch, k);
      BackoffAtMostSixSeconds(Streak(fetch, k));
    }
    if n > 0 {
      assert Streak(fetch, n) <= 1 + Streak(fetch, n - 1);
    }
  }

  /** The run is determined: only one number of polls and one outcome fit the server and the clock. */
  lemma EndIsDetermined(job: Job, fetch: nat -> Reply, lag: nat -> nat, aborted: nat -> bool,
                        n: nat, m: nat, a: Outcome, b: Outcome)
    requires EndsAfter(job, fetch, lag, aborted, n, a) && EndsAfter(job, fetch, lag, aborted, m, b)
    ensures n == m && a == b
  {
    if n < m {
      OnlyOneEnd(job, fetch, lag, aborted, n, m, a, b);
    } else if m < n {
      OnlyOneEnd(job, fetch, lag, aborted, m, n, b, a);
    } else if n > 0 {
      assert Waiting(job, fetch, lag, aborted, n) ==> !GivesUp(fetch, n - 1);
    }
  }

  lemma OnlyOneEnd(job: Job, fetch: nat -> Reply, lag: nat -> nat, aborted: nat -> bool,
                   n: nat, m: nat, a: Outcome, b: Outcome)
    requires n < m && EndsAfter(job, fetch, lag, aborted, n, a)
    ensures !EndsAfter(job, fetch, lag, aborted, m, b)
  {
    if Polls(job, fetch, lag, aborted, n) {
      assert GivesUp(fetch, n - 1);
    }
  }

  /**
   A job that finishes is never reported as timed out: if some poll would bring a terminal status, and
   nothing ends the wait before it, the caller gets that job's result or error.
   */
  lemma TerminalStatusIsReported(job: Job, fetch: nat -> Reply, lag: nat -> nat, aborted: nat -> bool,
                                 n: nat, out: Outcome, k: nat)
    requires EndsAfter(job, fetch, lag, aborted, n, out)
    requires fetch(k).Answer? && !Unfinished(fetch(k).job)
    requires Waiting(job, fetch, lag, aborted, k) && Polls(job, fetch, lag, aborted, k)
    ensures n == k + 1 && out == Finish(fetch(k).job)
  {
    NextPoll(job, fetch, lag, aborted, k);
    EndIsDetermined(job, fetch, lag, aborted, n, k + 1, out, Finish(fetch(k).job));
  }

  // ------------------------------------------------------------- what each ending means

  /** The reply is an answer that will not change: an HTTP status that is not worth asking about again. */
  predicate Final(reply: Reply) {
    reply.HttpError? && reply.status < 500 && reply.status != 408 && reply.status != 429
  }

  /** A poll ends the wait exactly when its status is final, or it and the two before it all failed. */
  lemma GivesUpExactly(fetch: nat -> Reply, k: nat)
    ensures GivesUp(fetch, k) <==>
      || Final(fetch(k))
      || (!fetch(k).Answer? && k >= 2 && !fetch(k - 1).Answer? && !fetch(k - 2).Answer?)
  {
    assert Streak(fetch, k + 1) >= 2 <==> !fetch(k).Answer? && k >= 1 && !fetch(k - 1).Answer?;
    if k >= 2 {
      assert Streak(fetch, k - 1) == 0 <==> fetch(k - 2).Answer?;
    } else if k == 1 {
      assert Streak(fetch, 0) == 0;
    }
  }

  /** Sleep k lasts 1.5, 3 or 6 seconds, by how many polls just before it failed. */
  lemma SleepsExactly(fetch: nat -> Reply, k: nat)
    requires Streak(fetch, k) < 3
    ensures Backoff(Streak(fetch, k)) ==
      if k == 0 || fetch(k - 1).Answer? then 1500 else if k == 1 || fetch(k - 2).Answer? then 3000 else 6000
  {
    assert Backoff(0) == 1500 && Backoff(1) == 3000 && Backoff(2) == 6000;
    assert k == 0 ==> Streak(fetch, k) == 0;
    if k >= 1 && !fetch(k - 1).Answer? {
      assert Streak(fetch, k - 1) == 0 <==> k == 1 || fetch(k - 2).Answer?;
    }
  }

  /** The job as last seen still runs. */
  predicate InProgress(job: Job) {
    job.status == Pending || job.status == Running
  }

  /**
   How each wait ends, exactly: with the result of a completed job, with the error of one that failed, was
   cancelled or completed without a result, at the deadline of five minutes, with the poll that gave up,
   or aborted.
   */
  lemma EndsExactly(job: Job, fetch: nat -> Reply, lag: nat -> nat, aborted: nat -> bool, n: nat, out: Outcome)
    ensures EndsAfter(job, fetch, lag, aborted, n, out) <==>
      (match out
       case Resolved(result) =>
         && Waiting(job, fetch, lag, aborted, n)
         && Seen(job, fetch, n).status == Completed && Seen(job, fetch, n).result == Some(result)
       case JobFailed(message) =>
         && Waiting(job, fetch, lag, aborted, n) && message == Seen(job, fetch, n).error
         && !InProgress(Seen(job, fetch, n))
         && (Seen(job, fetch, n).status == Completed ==> Seen(job, fetch, n).result == None)
       case TimedOut =>
         && Waiting(job, fetch, lag, aborted, n)
         && InProgress(Seen(job, fetch, n)) && Clock(fetch, lag, n) > 300_000
       case PollFailed(reply) =>
         && n > 0 && Waiting(job, fetch, lag, aborted, n - 1) && GivesUp(fetch, n - 1) && reply == fetch(n - 1)
         && InProgress(Seen(job, fetch, n - 1)) && Clock(fetch, lag, n - 1) <= 300_000 && !aborted(n - 1)
       case Aborted =>
         && Waiting(job, fetch, lag, aborted, n) && aborted(n)
         && InProgress(Seen(job, fetch, n)) && Clock(fetch, lag, n) <= 300_000)
  {
  }

  /** At poll k the job runs, the deadline has not passed, the caller waits, and the poll does not give up. */
  predicate GoesOn(job: Job, fetch: nat -> Reply, lag: nat -> nat, aborted: nat -> bool, k: nat) {
    InProgress(Seen(job, fetch, k)) && Clock(fetch, lag, k) <= 300_000 && !aborted(k) && !GivesUp(fetch, k)
  }

  lemma WaitingExactly(job: Job, fetch: nat -> Reply, lag: nat -> nat, aborted: nat -> bool, n: nat)
    ensures Waiting(job, fetch, lag, aborted, n) <==> forall k: nat :: k < n ==> GoesOn(job, fetch, lag, aborted, k)
  {
    forall k: nat
      ensures Polls(job, fetch, lag, aborted, k) && !GivesUp(fetch, k) <==> GoesOn(job, fetch, lag, aborted, k)
    {
    }
    if forall k: nat :: k < n ==> GoesOn(job, fetch, lag, aborted, k) {
      forall k: nat | k < n
        ensures Polls(job, fetch, lag, aborted, k) && !GivesUp(fetch, k)
      {
        assert GoesOn(job, fetch, lag, aborted, k);
      }
    }
  }

  /** The job last seen is the answer to the last poll that was answered, or the job at the start. */
  lemma {:induction false} SeenExactly(job: Job, fetch: nat -> Reply, n: nat)
    ensures || (Seen(job, fetch, n) == job && forall k: nat :: k < n ==> !fetch(k).Answer?)
            || exists k: nat :: k < n && LastAnswer(fetch, k, n) && fetch(k).job == Seen(job, fetch, n)
    decreases n
  {
    if n > 0 {
      if fetch(n - 1).Answer? {
        assert LastAnswer(fetch, n - 1, n);
      } else {
        SeenExactly(job, fetch, n - 1);
        if k: nat :| k < n - 1 && LastAnswer(fetch, k, n - 1) && fetch(k).job == Seen(job, fetch, n - 1) {
          assert LastAnswer(fetch, k, n);
        }
      }
    }
  }

  predicate LastAnswer(fetch: nat -> Reply, k: nat, n: nat) {
    fetch(k).Answer? && forall j: nat :: k < j < n ==> !fetch(j).Answer?
  }
}
