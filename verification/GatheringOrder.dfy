/**
 Bounded gathering, who gets the permits: first come, first served.
 */
module GatheringOrder {
  import opened Wrappers
  import opened Gathering

  /** The tasks in the order in which they asked for a permit. */
  function Entered<T>(run: seq<Step<T>>): seq<nat> {
    if run == [] then [] else (if run[0].Enter? then [run[0].i] else []) + Entered(run[1..])
  }

  /** The task has had its permit. */
  predicate Granted<T>(t: Task<T>) {
    t.Woken? || t.Running? || t.Done?
  }

  predicate StillQueued<T>(tasks: seq<Task<T>>, i: nat) {
    i < |tasks| && tasks[i].Queued?
  }

  /** Those of `xs` that wait without a permit. */
  function QueuedOf<T>(xs: seq<nat>, tasks: seq<Task<T>>): (r: seq<nat>)
    ensures forall i :: i in r <==> i in xs && StillQueued(tasks, i)
  {
    if xs == [] then []
    else if StillQueued(tasks, xs[0]) then [xs[0]] + QueuedOf(xs[1..], tasks)
    else QueuedOf(xs[1..], tasks)
  }

  /** Exactly the tasks that have asked, each once. */
  ghost predicate Askers<T>(tasks: seq<Task<T>>, order: seq<nat>) {
    && (forall p, q :: 0 <= p < q < |order| ==> order[p] != order[q])
    && (forall p :: 0 <= p < |order| ==> order[p] < |tasks| && !tasks[order[p]].Created?)
    && (forall i: nat :: i < |tasks| && !tasks[i].Created? ==> i in order)
  }

  ghost predicate GrantedFirst<T>(tasks: seq<Task<T>>, order: seq<nat>) {
    forall p, q :: 0 <= p < q < |order| && GrantedAt(tasks, order[q]) ==> GrantedAt(tasks, order[p])
  }

  predicate GrantedAt<T>(tasks: seq<Task<T>>, i: nat) {
    i < |tasks| && Granted(tasks[i])
  }

  /** Nobody has a permit while one that asked before waits, and the queue is in that order. */
  ghost predicate OrderInv<T>(s: Sys<T>, order: seq<nat>) {
    && Askers(s.tasks, order) && GrantedFirst(s.tasks, order)
    && QueuedOf(s.waiters, s.tasks) == QueuedOf(order, s.tasks)
  }

  lemma {:induction false} QueuedOfSnoc<T>(xs: seq<nat>, x: nat, tasks: seq<Task<T>>)
    ensures QueuedOf(xs + [x], tasks) == QueuedOf(xs, tasks) + if StillQueued(tasks, x) then [x] else []
    decreases |xs|
  {
    if xs == [] {
      assert (xs + [x])[1..] == [];
    } else {
      QueuedOfSnoc(xs[1..], x, tasks);
      assert (xs + [x])[1..] == xs[1..] + [x];
    }
  }

  /** A task that is, or becomes, something else than queued drops out. */
  lemma {:induction false} QueuedOfUpdate<T>(xs: seq<nat>, tasks: seq<Task<T>>, i: nat, t: Task<T>)
    requires i < |tasks| && !t.Queued?
    ensures QueuedOf(xs, tasks[i := t]) == Without(QueuedOf(xs, tasks), i)
    decreases |xs|
  {
    if xs != [] {
      QueuedOfUpdate(xs[1..], tasks, i, t);
    }
  }

  lemma {:induction false} WithoutAbsent(xs: seq<nat>, x: nat)
    requires x !in xs
    ensures Without(xs, x) == xs
    decreases |xs|
  {
    if xs != [] {
      assert xs == [xs[0]] + xs[1..];
      WithoutAbsent(xs[1..], x);
    }
  }

  lemma {:induction false} QueuedOfWithout<T>(xs: seq<nat>, tasks: seq<Task<T>>, i: nat)
    requires !StillQueued(tasks, i)
    ensures QueuedOf(Without(xs, i), tasks) == QueuedOf(xs, tasks)
    decreases |xs|
  {
    if xs != [] {
      QueuedOfWithout(xs[1..], tasks, i);
      if xs[0] != i {
        assert Without(xs, i)[1..] == Without(xs[1..], i);
      }
    }
  }

  lemma {:induction false} QueuedOfCreated<T>(xs: seq<nat>, tasks: seq<Task<T>>, i: nat, t: Task<T>)
    requires i < |tasks| && i !in xs
    ensures QueuedOf(xs, tasks[i := t]) == QueuedOf(xs, tasks)
    decreases |xs|
  {
    if xs != [] {
      assert xs[0] in xs && (forall j :: j in xs[1..] ==> j in xs);
      QueuedOfCreated(xs[1..], tasks, i, t);
    }
  }

  lemma {:induction false} FirstQueuedIsFirst<T>(waiters: seq<nat>, tasks: seq<Task<T>>)
    ensures FirstQueued(waiters, tasks)
         == (var queued := QueuedOf(waiters, tasks); if queued == [] then None else Some(queued[0]))
    decreases |waiters|
  {
    if waiters != [] {
      FirstQueuedIsFirst(waiters[1..], tasks);
    }
  }

  /** The first that waits, in an order without repetition: nobody before it does. */
  lemma {:induction false} FirstInOrder<T>(order: seq<nat>, tasks: seq<Task<T>>) returns (n: nat)
    requires QueuedOf(order, tasks) != []
    ensures n < |order| && order[n] == QueuedOf(order, tasks)[0]
    ensures forall p :: 0 <= p < n ==> !StillQueued(tasks, order[p])
    decreases |order|
  {
    if StillQueued(tasks, order[0]) {
      n := 0;
    } else {
      var m := FirstInOrder(order[1..], tasks);
      n := m + 1;
    }
  }

  /** Changing an asker's state, not back to created, keeps who asked. */
  lemma AskersStay<T>(tasks: seq<Task<T>>, order: seq<nat>, i: nat, t: Task<T>)
    requires Askers(tasks, order) && i < |tasks| && !tasks[i].Created? && !t.Created?
    ensures Askers(tasks[i := t], order)
  {
  }

  lemma WakingTheFirst<T>(tasks: seq<Task<T>>, order: seq<nat>, n: nat)
    requires Askers(tasks, order) && n < |order| && order[n] < |tasks|
    requires GrantedFirst(tasks, order) && forall p :: 0 <= p < n ==> !StillQueued(tasks, order[p])
    ensures GrantedFirst(tasks[order[n] := Woken], order)
  {
    var woken := tasks[order[n] := Woken];
    forall p, q | 0 <= p < q < |order| && GrantedAt(woken, order[q])
      ensures GrantedAt(woken, order[p])
    {
      assert q != n ==> GrantedAt(tasks, order[q]);
      assert p < n ==> !StillQueued(tasks, order[p]);
    }
  }

  lemma WakeKeepsOrder<T>(s: Sys<T>, order: seq<nat>)
    requires s.free > 0 && OrderInv(s, order)
    ensures OrderInv(Wake(s), order)
  {
    FirstQueuedIsFirst(s.waiters, s.tasks);
    var first := FirstQueued(s.waiters, s.tasks);
    if first.Some? {
      var i := first.value;
      QueuedOfUpdate(s.waiters, s.tasks, i, Woken);
      QueuedOfUpdate(order, s.tasks, i, Woken);
      var n := FirstInOrder(order, s.tasks);
      WakingTheFirst(s.tasks, order, n);
      AskersStay(s.tasks, order, i, Woken);
    }
  }

  lemma {:induction false} WakeAllKeepsOrder<T>(s: Sys<T>, order: seq<nat>)
    requires OrderInv(s, order)
    ensures OrderInv(WakeAll(s), order)
    decreases s.free
  {
    if s.free > 0 && FirstQueued(s.waiters, s.tasks).Some? {
      WakeKeepsOrder(s, order);
      WakeAllKeepsOrder(Wake(s), order);
    }
  }

  /** A task with a permit that goes on with one keeps everything in order. */
  lemma GrantedKeepsOrder<T>(s: Sys<T>, order: seq<nat>, i: nat, t: Task<T>)
    requires OrderInv(s, order) && i < |s.tasks| && Granted(s.tasks[i]) && Granted(t)
    ensures OrderInv(s.(tasks := s.tasks[i := t]), order)
  {
    QueuedOfUpdate(s.waiters, s.tasks, i, t);
    QueuedOfUpdate(order, s.tasks, i, t);
    AskersStay(s.tasks, order, i, t);
    SameGrants(s.tasks, order, i, t);
  }

  lemma SameGrants<T>(tasks: seq<Task<T>>, order: seq<nat>, i: nat, t: Task<T>)
    requires GrantedFirst(tasks, order) && i < |tasks| && Granted(tasks[i]) && Granted(t)
    ensures GrantedFirst(tasks[i := t], order)
  {
    forall p, q | 0 <= p < q < |order| && GrantedAt(tasks[i := t], order[q])
      ensures GrantedAt(tasks[i := t], order[p])
    {
      assert GrantedAt(tasks, order[q]);
    }
  }

  lemma AskersSnoc<T>(tasks: seq<Task<T>>, order: seq<nat>, i: nat, t: Task<T>)
    requires Askers(tasks, order) && i < |tasks| && tasks[i].Created? && !t.Created?
    ensures i !in order && Askers(tasks[i := t], order + [i])
  {
    var all := order + [i];
    forall j: nat | j < |tasks| && !tasks[i := t][j].Created?
      ensures j in all
    {
      assert j != i ==> j in order;
      assert all[|order|] == i;
    }
  }

  /** The last to ask has a permit only if all the others do. */
  lemma GrantedSnoc<T>(tasks: seq<Task<T>>, order: seq<nat>, i: nat, t: Task<T>)
    requires Askers(tasks, order) && GrantedFirst(tasks, order) && i < |tasks| && i !in order
    requires Granted(t) ==> forall p :: 0 <= p < |order| ==> GrantedAt(tasks, order[p])
    ensures GrantedFirst(tasks[i := t], order + [i])
  {
    var all := order + [i];
    forall p, q | 0 <= p < q < |all| && GrantedAt(tasks[i := t], all[q])
      ensures GrantedAt(tasks[i := t], all[p])
    {
      assert all[p] == order[p] && order[p] in order;
      if q < |order| {
        assert all[q] == order[q] && order[q] in order;
        assert GrantedAt(tasks, order[q]);
      }
    }
  }

  lemma NoneQueuedAllGranted<T>(tasks: seq<Task<T>>, order: seq<nat>, p: nat)
    requires Askers(tasks, order) && QueuedOf(order, tasks) == [] && p < |order|
    ensures GrantedAt(tasks, order[p])
  {
    assert order[p] in order && order[p] !in QueuedOf(order, tasks);
  }

  lemma EnterKeepsOrder<T>(s: Sys<T>, order: seq<nat>, i: nat)
    requires WaiterInv(s) && OrderInv(s, order) && Enabled(s, Enter(i))
    ensures OrderInv(Apply(s, Enter(i)), order + [i])
  {
    var t := Apply(s, Enter(i));
    AskersSnoc(s.tasks, order, i, t.tasks[i]);
    QueuedOfCreated(order, s.tasks, i, t.tasks[i]);
    QueuedOfCreated(s.waiters, s.tasks, i, t.tasks[i]);
    QueuedOfSnoc(order, i, t.tasks);
    if t.tasks[i].Queued? {
      QueuedOfSnoc(s.waiters, i, t.tasks);
    } else {
      forall p | 0 <= p < |order|
        ensures GrantedAt(s.tasks, order[p])
      {
        NoneQueuedAllGranted(s.tasks, order, p);
      }
    }
    GrantedSnoc(s.tasks, order, i, t.tasks[i]);
  }

  lemma StepKeepsOrder<T>(s: Sys<T>, order: seq<nat>, step: Step<T>)
    requires WaiterInv(s) && OrderInv(s, order) && Enabled(s, step)
    ensures OrderInv(Apply(s, step), if step.Enter? then order + [step.i] else order)
  {
    match step
    case Enter(i) =>
      EnterKeepsOrder(s, order, i);
    case Resume(i) =>
      GrantedKeepsOrder(s, order, i, Running);
      var t := s.(tasks := s.tasks[i := Running]);
      QueuedOfWithout(t.waiters, t.tasks, i);
      WakeAllKeepsOrder(t.(waiters := Without(t.waiters, i)), order);
    case Finish(i, o) =>
      GrantedKeepsOrder(s, order, i, Done(o));
      WakeKeepsOrder(s.(free := s.free + 1, tasks := s.tasks[i := Done(o)],
                        failure := if s.failure.None? && o.Raised? then Some(o.error) else s.failure), order);
  }

  lemma {:induction false} RunKeepsOrder<T>(s: Sys<T>, limit: nat, order: seq<nat>, run: seq<Step<T>>)
    requires Inv(s, limit) && OrderInv(s, order) && Legal(s, run)
    ensures OrderInv(After(s, run), order + Entered(run))
    decreases |run|
  {
    if run == [] {
      assert order + [] == order;
    } else {
      var first := if run[0].Enter? then [run[0].i] else [];
      StepKeepsOrder(s, order, run[0]);
      StepKeepsInv(s, limit, run[0]);
      assert order + first == if run[0].Enter? then order + [run[0].i] else order;
      RunKeepsOrder(Apply(s, run[0]), limit, order + first, run[1..]);
      Reassociate(order, first, Entered(run[1..]));
    }
  }

  lemma Reassociate(a: seq<nat>, b: seq<nat>, c: seq<nat>)
    ensures a + b + c == a + (b + c)
  {
  }

  lemma StartInOrder<T>(n: nat, limit: nat)
    ensures OrderInv(Start<T>(n, limit), [])
  {
  }

  /** Permits go first come, first served: in every reachable state, nobody has one while an earlier asker waits. */
  lemma NobodyOvertakes<T>(n: nat, limit: nat, run: seq<Step<T>>, p: nat, q: nat)
    requires Legal(Start(n, limit), run) && p < q < |Entered(run)|
    ensures var tasks, order := After(Start(n, limit), run).tasks, Entered(run);
            GrantedAt(tasks, order[q]) ==> GrantedAt(tasks, order[p])
  {
    StartInv<T>(n, limit);
    StartInOrder<T>(n, limit);
    RunKeepsOrder(Start(n, limit), limit, [], run);
    assert [] + Entered(run) == Entered(run);
  }
}
