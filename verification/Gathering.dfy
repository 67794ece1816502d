/**
 Bounded gathering: `n` awaitables, one task each, all behind one semaphore of `limit` permits.

 A task enters the semaphore, runs its awaitable, releases the permit and is done. Steps of
 different tasks may come in any order. The semaphore is the event loop's: a release hands its
 permit to the longest waiter not yet woken, a woken task holds its permit before it resumes, and
 nobody enters past a waiter. A run is any sequence of steps.
 */
module Gathering {
  import opened Wrappers

  datatype Outcome<T> = Returned(value: T) | Raised(error: string)

  /** `Queued` waits for a permit; `Woken` has one but has not resumed. */
  datatype Task<T> = Created | Queued | Woken | Running | Done(outcome: Outcome<T>)

  /** `failure` is the exception the gathering raises. */
  datatype Sys<T> = Sys(free: nat, waiters: seq<nat>, tasks: seq<Task<T>>, failure: Option<string>)

  datatype Step<T> = Enter(i: nat) | Resume(i: nat) | Finish(i: nat, outcome: Outcome<T>)

  datatype Gathered<T> = Pending | Results(values: seq<T>) | Failed(error: string)

  function Start<T>(n: nat, limit: nat): Sys<T> {
    Sys(limit, [], seq(n, _ => Created), None)
  }

  // --------------------------------------------------------------------- the semaphore

  /** The longest waiter without a permit. */
  function FirstQueued<T>(waiters: seq<nat>, tasks: seq<Task<T>>): (w: Option<nat>)
    ensures w.Some? ==> w.value in waiters && w.value < |tasks| && tasks[w.value].Queued?
    ensures w.None? ==> forall i :: i in waiters && i < |tasks| ==> !tasks[i].Queued?
  {
    if waiters == [] then None
    else if waiters[0] < |tasks| && tasks[waiters[0]].Queued? then Some(waiters[0])
    else FirstQueued(waiters[1..], tasks)
  }

  function Wake<T>(s: Sys<T>): Sys<T>
    requires s.free > 0
  {
    match FirstQueued(s.waiters, s.tasks)
    case None => s
    case Some(i) => s.(free := s.free - 1, tasks := s.tasks[i := Woken])
  }

  function WakeAll<T>(s: Sys<T>): Sys<T>
    decreases s.free
  {
    if s.free == 0 || FirstQueued(s.waiters, s.tasks).None? then s else WakeAll(Wake(s))
  }

  function Without(xs: seq<nat>, x: nat): (r: seq<nat>)
    ensures forall i :: i in r <==> i in xs && i != x
  {
    if xs == [] then []
    else if xs[0] == x then Without(xs[1..], x)
    else [xs[0]] + Without(xs[1..], x)
  }

  // -------------------------------------------------------------------------- the steps

  predicate Enabled<T>(s: Sys<T>, step: Step<T>) {
    step.i < |s.tasks| &&
    match step
    case Enter(i) => s.tasks[i].Created?
    case Resume(i) => s.tasks[i].Woken?
    case Finish(i, _) => s.tasks[i].Running?
  }

  function Apply<T>(s: Sys<T>, step: Step<T>): Sys<T>
    requires Enabled(s, step)
  {
    match step
    case Enter(i) =>
      if s.free > 0 && s.waiters == [] then s.(free := s.free - 1, tasks := s.tasks[i := Running])
      else s.(waiters := s.waiters + [i], tasks := s.tasks[i := Queued])
    case Resume(i) =>
      WakeAll(s.(waiters := Without(s.waiters, i), tasks := s.tasks[i := Running]))
    case Finish(i, o) =>
      Wake(s.(free := s.free + 1, tasks := s.tasks[i := Done(o)],
              failure := if s.failure.None? && o.Raised? then Some(o.error) else s.failure))
  }

  predicate Legal<T>(s: Sys<T>, run: seq<Step<T>>)
    decreases |run|
  {
    run == [] || (Enabled(s, run[0]) && Legal(Apply(s, run[0]), run[1..]))
  }

  function After<T>(s: Sys<T>, run: seq<Step<T>>): Sys<T>
    requires Legal(s, run)
    decreases |run|
  {
    if run == [] then s else After(Apply(s, run[0]), run[1..])
  }

  predicate AllReturned<T>(tasks: seq<Task<T>>) {
    forall i :: 0 <= i < |tasks| ==> tasks[i].Done? && tasks[i].outcome.Returned?
  }

  /** What the caller sees: the first exception, or every value once all have returned. */
  function Outcomes<T>(s: Sys<T>): Gathered<T> {
    if s.failure.Some? then Failed(s.failure.value)
    else if AllReturned(s.tasks) then
      Results(seq(|s.tasks|, i requires 0 <= i < |s.tasks| => s.tasks[i].outcome.value))
    else Pending
  }

  // ------------------------------------------------------------------- adding up tasks

  function Total<T>(tasks: seq<Task<T>>, weight: Task<T> -> nat): nat {
    if tasks == [] then 0 else weight(tasks[0]) + Total(tasks[1..], weight)
  }

  function Active<T>(t: Task<T>): nat {
    if t.Running? then 1 else 0
  }

  /** Permits a task holds. */
  function Held<T>(t: Task<T>): nat {
    if t.Running? || t.Woken? then 1 else 0
  }

  /** Steps a task still takes at most. */
  function Left<T>(t: Task<T>): nat {
    match t
    case Created => 3
    case Queued => 2
    case Woken => 2
    case Running => 1
    case Done(_) => 0
  }

  lemma {:induction false} TotalUpdate<T>(tasks: seq<Task<T>>, weight: Task<T> -> nat, i: nat, t: Task<T>)
    requires i < |tasks|
    ensures Total(tasks[i := t], weight) + weight(tasks[i]) == Total(tasks, weight) + weight(t)
    decreases |tasks|
  {
    if i == 0 {
      assert tasks[0 := t][1..] == tasks[1..];
    } else {
      TotalUpdate(tasks[1..], weight, i - 1, t);
      assert tasks[i := t][1..] == tasks[1..][i - 1 := t];
    }
  }

  lemma {:induction false} TotalAtMost<T>(tasks: seq<Task<T>>, light: Task<T> -> nat, heavy: Task<T> -> nat)
    requires forall i :: 0 <= i < |tasks| ==> light(tasks[i]) <= heavy(tasks[i])
    ensures Total(tasks, light) <= Total(tasks, heavy)
    decreases |tasks|
  {
    if tasks != [] {
      TotalAtMost(tasks[1..], light, heavy);
    }
  }

  lemma {:induction false} TotalOfSame<T>(tasks: seq<Task<T>>, weight: Task<T> -> nat, w: nat)
    requires forall i :: 0 <= i < |tasks| ==> weight(tasks[i]) == w
    ensures Total(tasks, weight) == w * |tasks|
    decreases |tasks|
  {
    if tasks != [] {
      TotalOfSame(tasks[1..], weight, w);
    }
  }

  lemma {:induction false} TotalAtLeast<T>(tasks: seq<Task<T>>, weight: Task<T> -> nat, i: nat)
    requires i < |tasks|
    ensures weight(tasks[i]) <= Total(tasks, weight)
    decreases |tasks|
  {
    if i > 0 {
      TotalAtLeast(tasks[1..], weight, i - 1);
    }
  }

  // ------------------------------------------------------------------------ invariants

  /** Every permit is free or held by one task. */
  ghost predicate PermitInv<T>(s: Sys<T>, limit: nat) {
    s.free + Total(s.tasks, Held) == limit
  }

  /** The waiters are exactly the tasks between asking for a permit and resuming with one. */
  ghost predicate WaiterInv<T>(s: Sys<T>) {
    && (forall i :: i in s.waiters ==> i < |s.tasks|)
    && (forall i :: 0 <= i < |s.tasks| ==> (i in s.waiters <==> s.tasks[i].Queued? || s.tasks[i].Woken?))
  }

  ghost predicate SomeQueued<T>(s: Sys<T>) {
    exists i :: 0 <= i < |s.tasks| && s.tasks[i].Queued?
  }

  ghost predicate SomeWoken<T>(s: Sys<T>) {
    exists i :: 0 <= i < |s.tasks| && s.tasks[i].Woken?
  }

  /** No permit lies idle beside a waiter unless a woken task is about to hand it on. */
  ghost predicate MovingInv<T>(s: Sys<T>) {
    s.free > 0 && SomeQueued(s) ==> SomeWoken(s)
  }

  ghost predicate Inv<T>(s: Sys<T>, limit: nat) {
    PermitInv(s, limit) && WaiterInv(s) && MovingInv(s)
  }

  /** What waking changes: queued tasks become woken, each against one free permit. */
  ghost predicate OnlyWakes<T>(s: Sys<T>, w: Sys<T>) {
    && |w.tasks| == |s.tasks| && w.failure == s.failure
    && (forall i :: 0 <= i < |s.tasks| ==> w.tasks[i] == s.tasks[i] || (s.tasks[i].Queued? && w.tasks[i].Woken?))
    && Total(w.tasks, Left) == Total(s.tasks, Left)
  }

  lemma WakeStep<T>(s: Sys<T>, limit: nat)
    requires s.free > 0 && PermitInv(s, limit) && WaiterInv(s)
    ensures PermitInv(Wake(s), limit) && WaiterInv(Wake(s)) && OnlyWakes(s, Wake(s))
    ensures SomeWoken(Wake(s)) || !SomeQueued(Wake(s))
  {
    var first := FirstQueued(s.waiters, s.tasks);
    if first.Some? {
      TotalUpdate(s.tasks, Held, first.value, Woken);
      TotalUpdate(s.tasks, Left, first.value, Woken);
      assert Wake(s).tasks[first.value].Woken?;
    }
  }

  lemma {:induction false} WakeAllStep<T>(s: Sys<T>, limit: nat)
    requires PermitInv(s, limit) && WaiterInv(s)
    ensures PermitInv(WakeAll(s), limit) && WaiterInv(WakeAll(s)) && OnlyWakes(s, WakeAll(s))
    ensures WakeAll(s).free == 0 || !SomeQueued(WakeAll(s))
    decreases s.free
  {
    if s.free > 0 && FirstQueued(s.waiters, s.tasks).Some? {
      WakeStep(s, limit);
      WakeAllStep(Wake(s), limit);
    }
  }

  /** Every step keeps the invariant and uses up at least one of the steps left. */
  lemma StepKeepsInv<T>(s: Sys<T>, limit: nat, step: Step<T>)
    requires Inv(s, limit) && Enabled(s, step)
    ensures Inv(Apply(s, step), limit)
    ensures |Apply(s, step).tasks| == |s.tasks|
    ensures Total(Apply(s, step).tasks, Left) < Total(s.tasks, Left)
  {
    match step
    case Enter(i) =>
      EnterKeepsInv(s, limit, i);
    case Resume(i) =>
      TotalUpdate(s.tasks, Held, i, Running);
      TotalUpdate(s.tasks, Left, i, Running);
      WakeAllStep(s.(waiters := Without(s.waiters, i), tasks := s.tasks[i := Running]), limit);
    case Finish(i, o) =>
      TotalUpdate(s.tasks, Held, i, Done(o));
      TotalUpdate(s.tasks, Left, i, Done(o));
      WakeStep(s.(free := s.free + 1, tasks := s.tasks[i := Done(o)],
                  failure := if s.failure.None? && o.Raised? then Some(o.error) else s.failure), limit);
  }

  lemma EnterKeepsInv<T>(s: Sys<T>, limit: nat, i: nat)
    requires Inv(s, limit) && Enabled(s, Enter(i))
    ensures Inv(Apply(s, Enter(i)), limit)
    ensures Total(Apply(s, Enter(i)).tasks, Left) < Total(s.tasks, Left)
  {
    var t := Apply(s, Enter(i));
    TotalUpdate(s.tasks, Held, i, t.tasks[i]);
    TotalUpdate(s.tasks, Left, i, t.tasks[i]);
    if s.waiters != [] {
      assert s.waiters[0] in s.waiters;
      assert SomeQueued(s) || SomeWoken(s);
      if SomeWoken(s) {
        var w :| 0 <= w < |s.tasks| && s.tasks[w].Woken?;
        assert t.tasks[w].Woken?;
      }
    }
  }

  lemma {:induction false} RunKeepsInv<T>(s: Sys<T>, limit: nat, run: seq<Step<T>>)
    requires Inv(s, limit) && Legal(s, run)
    ensures Inv(After(s, run), limit)
    ensures |After(s, run).tasks| == |s.tasks|
    ensures |run| + Total(After(s, run).tasks, Left) <= Total(s.tasks, Left)
    decreases |run|
  {
    if run != [] {
      StepKeepsInv(s, limit, run[0]);
      RunKeepsInv(Apply(s, run[0]), limit, run[1..]);
    }
  }

  lemma StartInv<T>(n: nat, limit: nat)
    ensures Inv(Start<T>(n, limit), limit)
    ensures Total(Start<T>(n, limit).tasks, Left) == 3 * n
  {
    TotalOfSame(Start<T>(n, limit).tasks, Held, 0);
    TotalOfSame(Start<T>(n, limit).tasks, Left, 3);
  }

  // ---------------------------------------------------------------------- main results

  /** In every reachable state at most `limit` awaitables run. */
  lemma NeverMoreThanLimit<T>(n: nat, limit: nat, run: seq<Step<T>>)
    requires Legal(Start(n, limit), run)
    ensures Total(After(Start(n, limit), run).tasks, Active) <= limit
  {
    StartInv<T>(n, limit);
    RunKeepsInv(Start(n, limit), limit, run);
    TotalAtMost(After(Start(n, limit), run).tasks, Active, Held);
  }

  /** Waking finishes nothing and hides no failure. */
  lemma {:induction false} WakeAllDone<T>(s: Sys<T>)
    ensures WakeAll(s).failure == s.failure && |WakeAll(s).tasks| == |s.tasks|
    ensures forall i :: 0 <= i < |s.tasks| ==> DoneAlike(s.tasks[i], WakeAll(s).tasks[i])
    decreases s.free
  {
    if s.free > 0 && FirstQueued(s.waiters, s.tasks).Some? {
      WakeAllDone(Wake(s));
    }
  }

  ghost predicate DoneAlike<T>(a: Task<T>, b: Task<T>) {
    a.Done? || b.Done? ==> a == b
  }

  lemma StepDone<T>(s: Sys<T>, step: Step<T>, i: nat, o: Outcome<T>)
    requires Enabled(s, step) && i < |s.tasks|
    ensures |Apply(s, step).tasks| == |s.tasks|
    ensures Apply(s, step).tasks[i] == Done(o) <==> s.tasks[i] == Done(o) || step == Finish(i, o)
  {
    if step.Resume? {
      var t := s.(waiters := Without(s.waiters, step.i), tasks := s.tasks[step.i := Running]);
      WakeAllDone(t);
      assert DoneAlike(t.tasks[i], WakeAll(t).tasks[i]);
    }
  }

  lemma {:induction false} DoneExactly<T>(s: Sys<T>, run: seq<Step<T>>, i: nat, o: Outcome<T>)
    requires Legal(s, run) && i < |s.tasks|
    ensures |After(s, run).tasks| == |s.tasks|
    ensures After(s, run).tasks[i] == Done(o) <==> s.tasks[i] == Done(o) || Finish(i, o) in run
    decreases |run|
  {
    if run != [] {
      StepDone(s, run[0], i, o);
      DoneExactly(Apply(s, run[0]), run[1..], i, o);
      assert run == [run[0]] + run[1..];
    }
  }

  /**
   Whatever the order of completion, a list of results has awaitable i's own value at index i:
   it returned that value and nothing else.
   */
  lemma ResultsKeepTheOrder<T>(n: nat, limit: nat, run: seq<Step<T>>)
    requires Legal(Start(n, limit), run)
    ensures var g := Outcomes(After(Start(n, limit), run));
            g.Results? ==>
              && |g.values| == n
              && forall i: nat, o :: i < n ==> (Finish(i, o) in run <==> o == Returned(g.values[i]))
  {
    var s := Start(n, limit);
    StartInv<T>(n, limit);
    RunKeepsInv(s, limit, run);
    var g := Outcomes(After(s, run));
    if g.Results? {
      forall i: nat, o | i < n
        ensures Finish(i, o) in run <==> o == Returned(g.values[i])
      {
        DoneExactly(s, run, i, o);
      }
    }
  }

  /** The first exception in a run, scanning from its beginning. */
  function FirstRaised<T>(run: seq<Step<T>>): Option<string> {
    if run == [] then None
    else if run[0].Finish? && run[0].outcome.Raised? then Some(run[0].outcome.error)
    else FirstRaised(run[1..])
  }

  /** A task that raised leaves its mark. */
  ghost predicate FailureInv<T>(s: Sys<T>) {
    s.failure.None? ==> forall i :: 0 <= i < |s.tasks| && s.tasks[i].Done? ==> s.tasks[i].outcome.Returned?
  }

  lemma StepFailure<T>(s: Sys<T>, step: Step<T>)
    requires Enabled(s, step)
    ensures Apply(s, step).failure == if s.failure.Some? then s.failure else FirstRaised([step])
  {
    assert [step][1..] == [];
    if step.Resume? {
      WakeAllDone(s.(waiters := Without(s.waiters, step.i), tasks := s.tasks[step.i := Running]));
    }
  }

  lemma StepKeepsFailureInv<T>(s: Sys<T>, step: Step<T>)
    requires FailureInv(s) && Enabled(s, step) && |Apply(s, step).tasks| == |s.tasks|
    ensures FailureInv(Apply(s, step))
  {
    var t := Apply(s, step);
    StepFailure(s, step);
    assert [step][1..] == [];
    forall i | 0 <= i < |t.tasks| && t.failure.None? && t.tasks[i].Done?
      ensures t.tasks[i].outcome.Returned?
    {
      StepDone(s, step, i, t.tasks[i].outcome);
    }
  }

  lemma {:induction false} RunFailure<T>(s: Sys<T>, limit: nat, run: seq<Step<T>>)
    requires Inv(s, limit) && FailureInv(s) && Legal(s, run)
    ensures FailureInv(After(s, run))
    ensures After(s, run).failure == if s.failure.Some? then s.failure else FirstRaised(run)
    decreases |run|
  {
    if run != [] {
      assert [run[0]][1..] == [];
      StepKeepsInv(s, limit, run[0]);
      StepFailure(s, run[0]);
      StepKeepsFailureInv(s, run[0]);
      RunFailure(Apply(s, run[0]), limit, run[1..]);
    }
  }

  /** The gathering fails exactly when some awaitable raised, and with the first exception raised. */
  lemma FirstFailureWins<T>(n: nat, limit: nat, run: seq<Step<T>>, error: string)
    requires Legal(Start(n, limit), run)
    ensures Outcomes(After(Start(n, limit), run)) == Failed(error) <==> FirstRaised(run) == Some(error)
  {
    StartInv<T>(n, limit);
    RunFailure(Start(n, limit), limit, run);
  }

  /** No step is possible. */
  ghost predicate Stuck<T(!new)>(s: Sys<T>) {
    forall step: Step<T> :: !Enabled(s, step)
  }

  /** With a permit at all, something can move until every task is done. */
  lemma StuckMeansDone<T(!new)>(s: Sys<T>, limit: nat, i: nat)
    requires Inv(s, limit) && limit > 0 && Stuck(s) && i < |s.tasks|
    ensures s.tasks[i].Done?
  {
    forall j: nat | j < |s.tasks|
      ensures Held(s.tasks[j]) == 0 && !s.tasks[j].Created? && !s.tasks[j].Woken?
    {
      assert !Enabled(s, Enter(j)) && !Enabled(s, Resume(j)) && !Enabled(s, Finish(j, Raised("")));
    }
    TotalOfSame(s.tasks, Held, 0);
    assert s.free > 0;
  }

  /** Without permits nothing ever finishes. */
  lemma NoPermitNoFinish<T>(s: Sys<T>, run: seq<Step<T>>, step: Step<T>)
    requires Inv(s, 0) && Legal(s, run) && step in run
    ensures !step.Finish?
    decreases |run|
  {
    if run[0].Finish? {
      TotalAtLeast(s.tasks, Held, run[0].i);
    }
    StepKeepsInv(s, 0, run[0]);
    if step != run[0] {
      assert run == [run[0]] + run[1..];
      NoPermitNoFinish(Apply(s, run[0]), run[1..], step);
    }
  }

  lemma {:induction false} FirstRaisedFinishes<T>(run: seq<Step<T>>) returns (step: Step<T>)
    requires FirstRaised(run).Some?
    ensures step in run && step.Finish?
    decreases |run|
  {
    if run[0].Finish? {
      step := run[0];
    } else {
      step := FirstRaisedFinishes(run[1..]);
      assert step in run[1..];
    }
  }

  lemma NoPermitNoAnswer<T>(n: nat, run: seq<Step<T>>)
    requires Legal(Start(n, 0), run) && n > 0
    ensures Outcomes(After(Start(n, 0), run)).Pending?
  {
    var s := Start<T>(n, 0);
    var t := After(s, run);
    StartInv<T>(n, 0);
    RunKeepsInv(s, 0, run);
    RunFailure(s, 0, run);
    if FirstRaised(run).Some? {
      var step := FirstRaisedFinishes(run);
      NoPermitNoFinish(s, run, step);
    }
    if t.tasks[0].Done? {
      DoneExactly(s, run, 0, t.tasks[0].outcome);
      NoPermitNoFinish(s, run, Finish(0, t.tasks[0].outcome));
    }
  }

  lemma PermitGivesAnswer<T(!new)>(n: nat, limit: nat, run: seq<Step<T>>)
    requires Legal(Start(n, limit), run) && limit > 0 && Stuck(After(Start(n, limit), run))
    ensures !Outcomes(After(Start(n, limit), run)).Pending?
  {
    var s := Start<T>(n, limit);
    var t := After(s, run);
    StartInv<T>(n, limit);
    RunKeepsInv(s, limit, run);
    RunFailure(s, limit, run);
    forall i | 0 <= i < n
      ensures t.tasks[i].Done?
    {
      StuckMeansDone(t, limit, i);
    }
  }

  /**
   Every run is short, and one that cannot go on has an answer exactly when there was a permit
   to hand out, or nothing to do. With no permit it waits for ever.
   */
  lemma EveryRunEnds<T(!new)>(n: nat, limit: nat, run: seq<Step<T>>)
    requires Legal(Start(n, limit), run)
    ensures |run| <= 3 * n
    ensures Stuck(After(Start(n, limit), run)) ==>
              (!Outcomes(After(Start(n, limit), run)).Pending? <==> limit > 0 || n == 0)
  {
    StartInv<T>(n, limit);
    RunKeepsInv(Start<T>(n, limit), limit, run);
    if limit == 0 && n > 0 {
      NoPermitNoAnswer(n, run);
    } else if limit > 0 && Stuck(After(Start(n, limit), run)) {
      PermitGivesAnswer(n, limit, run);
    }
  }
}
