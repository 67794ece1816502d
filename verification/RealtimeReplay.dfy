/**
 What a replay holds, and in which order: the exact conditions, in every run, under which the gap that
 `hello` promises arrives and the replay ascends by id, and runs in which they fail.
 */
module RealtimeReplay {
  import opened Wrappers
  import opened Realtime
  import opened RealtimeRuns

  // ------------------------------------------------------------- what a replay holds

  /** Among the newest `BUFFER_SIZE` pushes. */
  ghost predicate Recent(pushes: seq<Push>, j: int) {
    0 <= j < |pushes| && |pushes| - BUFFER_SIZE <= j
  }

  /** A recent push carries the envelope. */
  ghost predicate Carried(pushes: seq<Push>, e: Envelope) {
    exists j :: Recent(pushes, j) && pushes[j].env == e
  }

  lemma {:induction false} PastCursorHolds(pushes: seq<Push>, cursor: int, e: Envelope)
    ensures e in PastCursor(pushes, cursor) <==>
              e.Number() > cursor && exists j :: 0 <= j < |pushes| && pushes[j].env == e
    decreases |pushes|
  {
    if pushes != [] {
      PastCursorHolds(pushes[1..], cursor, e);
      assert pushes == [pushes[0]] + pushes[1..];
    }
  }

  lemma WindowHolds(pushes: seq<Push>, cursor: int, e: Envelope)
    ensures e in Window(pushes, cursor) <==> e.Number() > cursor && Carried(pushes, e)
  {
    var from := |pushes| - Min(|pushes|, BUFFER_SIZE);
    var recent := pushes[from..];
    PastCursorHolds(recent, cursor, e);
    if j :| 0 <= j < |recent| && recent[j].env == e {
      assert Recent(pushes, from + j) && pushes[from + j].env == e;
    }
    if j :| Recent(pushes, j) && pushes[j].env == e {
      assert recent[j - from].env == e;
    }
  }

  /** In every run an envelope is replayed exactly when it is past the cursor and a recent push carries it. */
  lemma ReplayedExactly(steps: seq<Step>, r: ReaderId, e: Envelope)
    requires Legal(Init, steps)
    requires r in After(Init, steps).resumed && After(Init, steps).resumed[r].cursor.Some?
    ensures var read := After(Init, steps).resumed[r];
            e in read.point.replay <==> e.Number() > read.cursor.value && Carried(read.pushes, e)
  {
    ReplayIsTheWindow(steps, r);
    var read := After(Init, steps).resumed[r];
    WindowHolds(read.pushes, read.cursor.value, e);
  }

  /**
   A push past the cursor is replayed exactly when fewer than `BUFFER_SIZE` pushes followed it. (None of
   them of an equal envelope: a call left over from a lost generation can push one again.)
   */
  lemma ReplayedExactlyWhenInWindow(steps: seq<Step>, r: ReaderId, i: nat)
    requires Legal(Init, steps)
    requires r in After(Init, steps).resumed
    requires var read := After(Init, steps).resumed[r];
             && i < |read.pushes|
             && read.cursor.Some? && read.pushes[i].env.Number() > read.cursor.value
             && forall j :: i < j < |read.pushes| ==> read.pushes[j].env != read.pushes[i].env
    ensures var read := After(Init, steps).resumed[r];
            read.pushes[i].env in read.point.replay <==> |read.pushes| - 1 - i < BUFFER_SIZE
  {
    var read := After(Init, steps).resumed[r];
    ReplayedExactly(steps, r, read.pushes[i].env);
    assert |read.pushes| - 1 - i < BUFFER_SIZE ==> Recent(read.pushes, i);
  }

  // ------------------------------------------------------------ every number is a call

  /** Call `c` is the event numbered `n` of the generation. */
  predicate IsEvent(calls: map<CallId, Call>, gen: nat, n: int, c: CallId) {
    c in calls && calls[c].gen == gen && calls[c].env.Number() == n
  }

  ghost predicate HasEvent(calls: map<CallId, Call>, gen: nat, n: int) {
    exists c :: IsEvent(calls, gen, n, c)
  }

  ghost predicate PushesAreCalls(calls: map<CallId, Call>, pushes: seq<Push>) {
    forall i :: 0 <= i < |pushes| ==> IsPushOf(calls, pushes[i])
  }

  predicate IsPushOf(calls: map<CallId, Call>, p: Push) {
    p.call in calls && calls[p.call].env == p.env && calls[p.call].gen == p.gen
  }

  /** Every number handed out belongs to a call, now and at every read, and reads saw pushes of calls only. */
  ghost predicate NumberInv(s: Sys) {
    && (forall n :: 1 <= n <= s.store.Seq() ==> HasEvent(s.calls, s.gen, n))
    && (forall i :: 0 <= i < |s.log| ==> ReadNumbered(s.calls, s.log[i]))
  }

  ghost predicate ReadNumbered(calls: map<CallId, Call>, read: Read) {
    && PushesAreCalls(calls, read.pushes)
    && forall n :: 1 <= n <= read.point.seqNo.GetOr(0) ==> HasEvent(calls, read.gen, n)
  }

  /** Calls stay, with their generation and envelope. */
  ghost predicate Outlives(before: map<CallId, Call>, after: map<CallId, Call>) {
    forall c :: c in before ==> c in after && after[c].gen == before[c].gen && after[c].env == before[c].env
  }

  lemma EventOutlives(before: map<CallId, Call>, after: map<CallId, Call>, gen: nat, n: int)
    requires Outlives(before, after) && HasEvent(before, gen, n)
    ensures HasEvent(after, gen, n)
  {
    var c :| IsEvent(before, gen, n, c);
    assert IsEvent(after, gen, n, c);
  }

  lemma ReadOutlives(before: map<CallId, Call>, after: map<CallId, Call>, read: Read)
    requires Outlives(before, after) && ReadNumbered(before, read)
    ensures ReadNumbered(after, read)
  {
    forall n | 1 <= n <= read.point.seqNo.GetOr(0)
      ensures HasEvent(after, read.gen, n)
    {
      EventOutlives(before, after, read.gen, n);
    }
    forall i | 0 <= i < |read.pushes|
      ensures IsPushOf(after, read.pushes[i])
    {
      assert IsPushOf(before, read.pushes[i]);
    }
  }

  lemma CallsOutlive(s: Sys, step: Step)
    requires Enabled(s, step)
    ensures Outlives(s.calls, Apply(s, step).calls)
  {
  }

  lemma StepKeepsNumberInv(s: Sys, step: Step)
    requires Inv(s) && NumberInv(s) && Enabled(s, step)
    ensures NumberInv(Apply(s, step))
  {
    var t := Apply(s, step);
    CallsOutlive(s, step);
    forall n | 1 <= n <= t.store.Seq()
      ensures HasEvent(t.calls, t.gen, n)
    {
      if step.StepIncr? && n == t.store.Seq() {
        assert IsEvent(t.calls, t.gen, n, step.c);
      } else {
        EventOutlives(s.calls, t.calls, s.gen, n);
      }
    }
    forall i | 0 <= i < |t.log|
      ensures ReadNumbered(t.calls, t.log[i])
    {
      if i < |s.log| {
        ReadOutlives(s.calls, t.calls, s.log[i]);
      } else {
        NewReadNumbered(s, step);
      }
    }
  }

  lemma NewReadNumbered(s: Sys, step: Step)
    requires Inv(s) && NumberInv(s) && Enabled(s, step) && step.StepResume?
    ensures var t := Apply(s, step); |t.log| == |s.log| + 1 && ReadNumbered(t.calls, t.log[|s.log|])
  {
    forall i | 0 <= i < |s.pushes|
      ensures IsPushOf(s.calls, s.pushes[i])
    {
    }
  }

  lemma {:induction false} RunKeepsNumberInv(s: Sys, steps: seq<Step>)
    requires Inv(s) && NumberInv(s) && Legal(s, steps)
    ensures NumberInv(After(s, steps))
    decreases |steps|
  {
    if steps != [] {
      StepKeepsInv(s, steps[0]);
      StepKeepsNumberInv(s, steps[0]);
      RunKeepsNumberInv(Apply(s, steps[0]), steps[1..]);
    }
  }

  // ---------------------------------------------------------------- the promised gap

  /** Call `c` is one of the gap: past the cursor, up to the number the read promised. */
  predicate InGap(calls: map<CallId, Call>, read: Read, c: CallId)
    requires read.cursor.Some?
  {
    && c in calls && calls[c].gen == read.gen
    && read.cursor.value < calls[c].env.Number() <= read.point.seqNo.GetOr(0)
  }

  ghost predicate EventReplayed(calls: map<CallId, Call>, read: Read, n: int) {
    exists c :: IsEvent(calls, read.gen, n, c) && calls[c].env in read.point.replay
  }

  /** What `hello` promises: every number between the cursor and `seq` arrives as replay. */
  ghost predicate GapArrives(calls: map<CallId, Call>, read: Read)
    requires read.cursor.Some?
  {
    forall n :: 1 <= n && read.cursor.value < n <= read.point.seqNo.GetOr(0) ==> EventReplayed(calls, read, n)
  }

  /** The call's own push is recent. */
  ghost predicate PushedInTime(calls: map<CallId, Call>, read: Read, c: CallId)
    requires c in calls
  {
    exists j :: Recent(read.pushes, j) && read.pushes[j] == Push(c, calls[c].gen, calls[c].env)
  }

  /** A call left over from a lost generation pushed an equal envelope recently. */
  ghost predicate LeftoverInTime(calls: map<CallId, Call>, read: Read, c: CallId)
    requires c in calls
  {
    exists j :: Recent(read.pushes, j) && read.pushes[j].gen != read.gen && read.pushes[j].env == calls[c].env
  }

  lemma CarriedByWhom(s: Sys, read: Read, c: CallId)
    requires CallInv(s) && ReadNumbered(s.calls, read) && read.cursor.Some? && InGap(s.calls, read, c)
    ensures Carried(read.pushes, s.calls[c].env) <==>
              PushedInTime(s.calls, read, c) || LeftoverInTime(s.calls, read, c)
  {
    if j :| Recent(read.pushes, j) && read.pushes[j].env == s.calls[c].env && read.pushes[j].gen == read.gen {
      assert IsPushOf(s.calls, read.pushes[j]);
      assert read.pushes[j] == Push(c, s.calls[c].gen, s.calls[c].env);
    }
  }

  lemma EventIsReplayed(s: Sys, read: Read, c: CallId)
    requires CallInv(s) && read.cursor.Some? && InGap(s.calls, read, c)
    ensures EventReplayed(s.calls, read, s.calls[c].env.Number()) <==> s.calls[c].env in read.point.replay
  {
    assert IsEvent(s.calls, read.gen, s.calls[c].env.Number(), c);
  }

  lemma GapIsItsCalls(s: Sys, read: Read)
    requires CallInv(s) && ReadNumbered(s.calls, read) && read.cursor.Some?
    ensures GapArrives(s.calls, read) <==>
              forall c :: InGap(s.calls, read, c) ==> s.calls[c].env in read.point.replay
  {
    forall c | InGap(s.calls, read, c)
      ensures 1 <= s.calls[c].env.Number()
      ensures EventReplayed(s.calls, read, s.calls[c].env.Number()) <==> s.calls[c].env in read.point.replay
    {
      EventIsReplayed(s, read, c);
    }
    if forall c :: InGap(s.calls, read, c) ==> s.calls[c].env in read.point.replay {
      forall n | 1 <= n && read.cursor.value < n <= read.point.seqNo.GetOr(0)
        ensures EventReplayed(s.calls, read, n)
      {
        assert HasEvent(s.calls, read.gen, n);
        var c :| IsEvent(s.calls, read.gen, n, c);
        assert InGap(s.calls, read, c);
      }
    }
  }

  /** A resumed reader's read is logged, so both invariants speak of it. */
  lemma ResumedFacts(steps: seq<Step>, r: ReaderId)
    requires Legal(Init, steps) && r in After(Init, steps).resumed
    ensures var s := After(Init, steps);
            CallInv(s) && ReadNumbered(s.calls, s.resumed[r]) && ReadOk(s.resumed[r])
  {
    RunKeepsInv(Init, steps);
    RunKeepsNumberInv(Init, steps);
    assert After(Init, steps).resumed[r] in After(Init, steps).log;
  }

  /**
   Exactly when the gap arrives, in every run: each call of the gap had pushed before the read and its
   push is recent, unless a call left over from a lost generation pushed an equal envelope instead.
   */
  lemma GapArrivesExactly(steps: seq<Step>, r: ReaderId)
    requires Legal(Init, steps)
    requires r in After(Init, steps).resumed && After(Init, steps).resumed[r].cursor.Some?
    ensures var s := After(Init, steps);
            var read := s.resumed[r];
            GapArrives(s.calls, read) <==>
              forall c :: InGap(s.calls, read, c) ==>
                PushedInTime(s.calls, read, c) || LeftoverInTime(s.calls, read, c)
  {
    var s := After(Init, steps);
    var read := s.resumed[r];
    ResumedFacts(steps, r);
    GapIsItsCalls(s, read);
    forall c | InGap(s.calls, read, c)
      ensures s.calls[c].env in read.point.replay <==>
                PushedInTime(s.calls, read, c) || LeftoverInTime(s.calls, read, c)
    {
      ReplayedExactly(steps, r, s.calls[c].env);
      CarriedByWhom(s, read, c);
    }
  }

  /** The two ways to miss it: the call had not pushed when the reader read, or it was overtaken. */
  lemma MissedExactly(steps: seq<Step>, r: ReaderId, c: CallId)
    requires Legal(Init, steps)
    requires r in After(Init, steps).resumed && After(Init, steps).resumed[r].cursor.Some?
    requires InGap(After(Init, steps).calls, After(Init, steps).resumed[r], c)
    ensures var s := After(Init, steps);
            var read, p := s.resumed[r], Push(c, s.calls[c].gen, s.calls[c].env);
            !PushedInTime(s.calls, read, c) <==> p !in read.pushes || Overtaken(p, read.pushes)
  {
    var s := After(Init, steps);
    ResumedFacts(steps, r);
    OnePushEach(s.resumed[r], Push(c, s.calls[c].gen, s.calls[c].env));
  }

  /** At the read itself the phase tells: a numbered call has not pushed, a pushed or later one has. */
  lemma PhaseAtTheRead(steps: seq<Step>, r: ReaderId, c: CallId)
    requires Legal(Init, steps)
    requires var s := After(Init, steps);
             && r in s.resumed && s.resumed[r].pushes == s.pushes && s.resumed[r].gen == s.gen
             && s.resumed[r].cursor.Some? && InGap(s.calls, s.resumed[r], c)
    ensures var s := After(Init, steps);
            var p := Push(c, s.calls[c].gen, s.calls[c].env);
            && (s.calls[c].phase == Numbered ==> p !in s.resumed[r].pushes)
            && (HasPushed(s.calls[c].phase) ==> p in s.resumed[r].pushes)
  {
    RunKeepsInv(Init, steps);
  }

  lemma OnePushEach(read: Read, p: Push)
    requires ReadOk(read) && p.gen == read.gen
    ensures (exists j :: Recent(read.pushes, j) && read.pushes[j] == p)
       <==> p in read.pushes && !Overtaken(p, read.pushes)
  {
    if p in read.pushes && !Overtaken(p, read.pushes) {
      var j :| 0 <= j < |read.pushes| && read.pushes[j] == p;
      assert Recent(read.pushes, j);
    }
  }

  /** No push after the `i`th is a straggler: an id the client already has, or an older generation's. */
  ghost predicate NoStragglers(read: Read, i: nat)
    requires read.cursor.Some?
  {
    forall j :: i <= j < |read.pushes| ==>
      read.pushes[j].gen == read.gen && read.pushes[j].env.Number() > read.cursor.value
  }

  function Range(lo: int, hi: int): (r: set<int>)
    requires lo <= hi
    ensures |r| == hi - lo
    ensures forall x :: x in r <==> lo < x <= hi
    decreases hi - lo
  {
    if lo == hi then {} else Range(lo, hi - 1) + {hi}
  }

  function Numbers(pushes: seq<Push>): (r: set<int>)
    ensures forall i :: 0 <= i < |pushes| ==> pushes[i].env.Number() in r
    ensures forall x :: x in r ==> exists i :: 0 <= i < |pushes| && pushes[i].env.Number() == x
  {
    if pushes == [] then {} else Numbers(pushes[1..]) + {pushes[0].env.Number()}
  }

  lemma {:induction false} DistinctNumbers(pushes: seq<Push>)
    requires forall i, j :: 0 <= i < j < |pushes| ==> pushes[i].env.Number() != pushes[j].env.Number()
    ensures |Numbers(pushes)| == |pushes|
    decreases |pushes|
  {
    if pushes != [] {
      DistinctNumbers(pushes[1..]);
      assert pushes[0].env.Number() !in Numbers(pushes[1..]);
    }
  }

  lemma SubsetSize<T>(a: set<T>, b: set<T>)
    requires a <= b
    ensures |a| <= |b|
  {
    assert b == a + (b - a);
  }

  /** Distinct numbers in (cursor, seq] are at most seq - cursor many. */
  lemma FewPushesFollow(read: Read, i: nat)
    requires ReadOk(read) && read.cursor.Some? && i < |read.pushes| && NoStragglers(read, i)
    ensures |read.pushes| - i <= read.point.seqNo.value - read.cursor.value
  {
    var tail := read.pushes[i..];
    DistinctNumbers(tail);
    assert tail[0] == read.pushes[i];
    assert read.pushes[i].env.Number() <= read.point.seqNo.value;
    var range := Range(read.cursor.value, read.point.seqNo.value);
    forall x | x in Numbers(tail)
      ensures x in range
    {
      var k :| 0 <= k < |tail| && tail[k].env.Number() == x;
      assert tail[k] == read.pushes[i + k];
    }
    SubsetSize(Numbers(tail), range);
  }

  lemma CoveredIdArrives(read: Read, i: nat)
    requires ReadOk(read) && read.cursor.Some?
    requires read.point.seqNo.value - read.cursor.value <= BUFFER_SIZE
    requires i < |read.pushes| && NoStragglers(read, i)
    ensures Recent(read.pushes, i)
  {
    FewPushesFollow(read, i);
  }

  /** The call pushed before the read, and no straggler after it. */
  ghost predicate PushedWithoutStragglers(calls: map<CallId, Call>, read: Read, c: CallId)
    requires c in calls && read.cursor.Some?
  {
    exists i: nat :: i < |read.pushes| && read.pushes[i] == Push(c, calls[c].gen, calls[c].env) && NoStragglers(read, i)
  }

  /**
   The `hello` promise as the publishers can keep it: in every run, a gap of at most `BUFFER_SIZE` arrives
   whole if each of its calls pushed before the read and no straggler pushed after them.
   `UnpushedBreaksTheGap` and `StragglersBreakTheGap` show that both provisos are needed.
   */
  lemma CoveredGapArrives(steps: seq<Step>, r: ReaderId)
    requires Legal(Init, steps) && r in After(Init, steps).resumed
    requires var s := After(Init, steps);
             var read := s.resumed[r];
             && read.cursor.Some? && read.point.seqNo.GetOr(0) - read.cursor.value <= BUFFER_SIZE
             && forall c :: InGap(s.calls, read, c) ==> PushedWithoutStragglers(s.calls, read, c)
    ensures var s := After(Init, steps); GapArrives(s.calls, s.resumed[r])
  {
    var s := After(Init, steps);
    var read := s.resumed[r];
    ResumedFacts(steps, r);
    GapArrivesExactly(steps, r);
    forall c | InGap(s.calls, read, c)
      ensures PushedInTime(s.calls, read, c)
    {
      var i: nat :| i < |read.pushes| && read.pushes[i] == Push(c, s.calls[c].gen, s.calls[c].env) && NoStragglers(read, i);
      CoveredIdArrives(read, i);
    }
  }

  // ------------------------------------------------------------------- ascending by id

  ghost predicate Ascending(es: seq<Envelope>) {
    forall i, j :: 0 <= i < j < |es| ==> es[i].Number() < es[j].Number()
  }

  /** The recent pushes past the cursor are in number order. */
  ghost predicate PushedInOrder(pushes: seq<Push>, cursor: int) {
    forall i, j :: 0 <= i < j < |pushes| && Recent(pushes, i) && pushes[i].env.Number() > cursor
                   && pushes[j].env.Number() > cursor ==>
      pushes[i].env.Number() < pushes[j].env.Number()
  }

  ghost predicate InOrder(pushes: seq<Push>, cursor: int) {
    forall i, j :: 0 <= i < j < |pushes| && pushes[i].env.Number() > cursor && pushes[j].env.Number() > cursor ==>
      pushes[i].env.Number() < pushes[j].env.Number()
  }

  lemma AscendingCons(e: Envelope, rest: seq<Envelope>)
    ensures Ascending([e] + rest) <==> Ascending(rest) && forall f :: f in rest ==> e.Number() < f.Number()
  {
    var all := [e] + rest;
    if Ascending(all) {
      forall i, j | 0 <= i < j < |rest|
        ensures rest[i].Number() < rest[j].Number()
      {
        assert all[i + 1].Number() < all[j + 1].Number();
      }
      forall f | f in rest
        ensures e.Number() < f.Number()
      {
        var j :| 0 <= j < |rest| && rest[j] == f;
        assert all[0].Number() < all[j + 1].Number();
      }
    }
  }

  lemma InOrderCons(p: Push, rest: seq<Push>, cursor: int)
    ensures InOrder([p] + rest, cursor) <==>
              && InOrder(rest, cursor)
              && (p.env.Number() > cursor ==>
                    forall j :: 0 <= j < |rest| && rest[j].env.Number() > cursor ==> p.env.Number() < rest[j].env.Number())
  {
    var all := [p] + rest;
    if InOrder(all, cursor) {
      forall i, j | 0 <= i < j < |rest| && rest[i].env.Number() > cursor && rest[j].env.Number() > cursor
        ensures rest[i].env.Number() < rest[j].env.Number()
      {
        assert all[i + 1] == rest[i] && all[j + 1] == rest[j];
      }
      forall j | 0 <= j < |rest| && p.env.Number() > cursor && rest[j].env.Number() > cursor
        ensures p.env.Number() < rest[j].env.Number()
      {
        assert all[0] == p && all[j + 1] == rest[j];
      }
    }
  }

  lemma {:induction false} AboveAllPast(m: nat, pushes: seq<Push>, cursor: int)
    ensures (forall f :: f in PastCursor(pushes, cursor) ==> m < f.Number()) <==>
              forall j :: 0 <= j < |pushes| && pushes[j].env.Number() > cursor ==> m < pushes[j].env.Number()
  {
    forall j | 0 <= j < |pushes| && pushes[j].env.Number() > cursor
      ensures pushes[j].env in PastCursor(pushes, cursor)
    {
      PastCursorMembers(pushes, cursor, j);
    }
    forall f | f in PastCursor(pushes, cursor)
      ensures exists j :: 0 <= j < |pushes| && pushes[j].env == f && f.Number() > cursor
    {
      PastCursorHolds(pushes, cursor, f);
    }
  }

  lemma {:induction false} PastCursorAscends(pushes: seq<Push>, cursor: int)
    ensures Ascending(PastCursor(pushes, cursor)) <==> InOrder(pushes, cursor)
    decreases |pushes|
  {
    if pushes != [] {
      var p, rest := pushes[0], pushes[1..];
      assert pushes == [p] + rest;
      PastCursorAscends(rest, cursor);
      InOrderCons(p, rest, cursor);
      if p.env.Number() > cursor {
        AscendingCons(p.env, PastCursor(rest, cursor));
        AboveAllPast(p.env.Number(), rest, cursor);
      } else {
        assert [] + PastCursor(rest, cursor) == PastCursor(rest, cursor);
      }
    }
  }

  lemma RecentInOrder(pushes: seq<Push>, cursor: int)
    ensures var from := |pushes| - Min(|pushes|, BUFFER_SIZE);
            PushedInOrder(pushes, cursor) <==> InOrder(pushes[from..], cursor)
  {
    var from := |pushes| - Min(|pushes|, BUFFER_SIZE);
    var recent := pushes[from..];
    if InOrder(recent, cursor) {
      forall i, j | 0 <= i < j < |pushes| && Recent(pushes, i) && pushes[i].env.Number() > cursor
                    && pushes[j].env.Number() > cursor
        ensures pushes[i].env.Number() < pushes[j].env.Number()
      {
        assert recent[i - from] == pushes[i] && recent[j - from] == pushes[j];
      }
    }
    if PushedInOrder(pushes, cursor) {
      forall i, j | 0 <= i < j < |recent| && recent[i].env.Number() > cursor && recent[j].env.Number() > cursor
        ensures recent[i].env.Number() < recent[j].env.Number()
      {
        assert Recent(pushes, from + i) && recent[i] == pushes[from + i] && recent[j] == pushes[from + j];
      }
    }
  }

  /** In every run a replay strictly ascends exactly when the recent pushes past the cursor are in number order. */
  lemma AscendsExactly(steps: seq<Step>, r: ReaderId)
    requires Legal(Init, steps)
    requires r in After(Init, steps).resumed && After(Init, steps).resumed[r].cursor.Some?
    ensures var read := After(Init, steps).resumed[r];
            Ascending(read.point.replay) <==> PushedInOrder(read.pushes, read.cursor.value)
  {
    var read := After(Init, steps).resumed[r];
    ReplayIsTheWindow(steps, r);
    RecentInOrder(read.pushes, read.cursor.value);
    PastCursorAscends(read.pushes[|read.pushes| - Min(|read.pushes|, BUFFER_SIZE)..], read.cursor.value);
  }

  /** No call is between its number and its push when the next number is handed out or the keys are lost. */
  predicate NumbersPushedFirst(s: Sys, steps: seq<Step>)
    requires Legal(s, steps)
    decreases |steps|
  {
    steps != [] ==>
      && (steps[0].StepIncr? || steps[0].StepLose? ==> NoneNumbered(s))
      && NumbersPushedFirst(Apply(s, steps[0]), steps[1..])
  }

  predicate NoneNumbered(s: Sys) {
    forall c :: c in s.calls ==> s.calls[c].phase != Numbered
  }

  ghost predicate AllInOrder(pushes: seq<Push>) {
    forall i, j :: 0 <= i < j < |pushes| ==> pushes[i].env.Number() < pushes[j].env.Number()
  }

  /** At most the newest number is unpushed, and all pushes so far are in number order below it. */
  ghost predicate OrderInv(s: Sys) {
    && AllInOrder(s.pushes)
    && (forall i :: 0 <= i < |s.pushes| ==> s.pushes[i].env.Number() <= s.store.Seq())
    && (forall c :: c in s.calls && s.calls[c].phase == Numbered ==> LastNumbered(s, c))
    && (forall i :: 0 <= i < |s.log| ==> AllInOrder(s.log[i].pushes))
  }

  ghost predicate LastNumbered(s: Sys, c: CallId)
    requires c in s.calls
  {
    && s.calls[c].gen == s.gen && s.calls[c].env.Number() == s.store.Seq()
    && forall i :: 0 <= i < |s.pushes| ==> s.pushes[i].env.Number() < s.store.Seq()
  }

  lemma PushKeepsOrderInv(s: Sys, c: CallId)
    requires CallInv(s) && OrderInv(s) && Enabled(s, StepPush(c))
    ensures OrderInv(Apply(s, StepPush(c)))
  {
    var t := Apply(s, StepPush(c));
    assert LastNumbered(s, c);
    forall d | d in t.calls
      ensures t.calls[d].phase != Numbered
    {
      assert d != c && s.calls[d].phase == Numbered ==> LastNumbered(s, d);
    }
  }

  lemma StepKeepsOrderInv(s: Sys, step: Step)
    requires CallInv(s) && OrderInv(s) && Enabled(s, step)
    requires step.StepIncr? || step.StepLose? ==> NoneNumbered(s)
    ensures OrderInv(Apply(s, step))
  {
    if step.StepPush? {
      PushKeepsOrderInv(s, step.c);
    } else {
      var t := Apply(s, step);
      forall c | c in t.calls && t.calls[c].phase == Numbered
        ensures LastNumbered(t, c)
      {
        assert c in s.calls && s.calls[c].phase == Numbered ==> LastNumbered(s, c);
      }
    }
  }

  lemma {:induction false} RunKeepsOrderInv(s: Sys, steps: seq<Step>)
    requires Inv(s) && OrderInv(s) && Legal(s, steps) && NumbersPushedFirst(s, steps)
    ensures OrderInv(After(s, steps))
    decreases |steps|
  {
    if steps != [] {
      StepKeepsInv(s, steps[0]);
      StepKeepsOrderInv(s, steps[0]);
      RunKeepsOrderInv(Apply(s, steps[0]), steps[1..]);
    }
  }

  /**
   A discipline that keeps every replay ascending, whatever aborts, losses and readers the run has:
   numbers are pushed, or their calls given up, before the next one is handed out or the keys are lost.
   */
  lemma OrderlyRunsAscend(steps: seq<Step>, r: ReaderId)
    requires Legal(Init, steps) && NumbersPushedFirst(Init, steps)
    requires r in After(Init, steps).resumed && After(Init, steps).resumed[r].cursor.Some?
    ensures Ascending(After(Init, steps).resumed[r].point.replay)
  {
    RunKeepsInv(Init, steps);
    RunKeepsOrderInv(Init, steps);
    LoggedInOrder(After(Init, steps), r);
    AscendsExactly(steps, r);
  }

  lemma LoggedInOrder(s: Sys, r: ReaderId)
    requires EpochInv(s) && OrderInv(s) && r in s.resumed
    ensures forall cursor: int :: PushedInOrder(s.resumed[r].pushes, cursor)
  {
    assert s.resumed[r] in s.log;
    assert AllInOrder(s.resumed[r].pushes);
  }

  // -------------------------------------------------- what does not hold

  lemma {:induction false} Extend(s: Sys, steps: seq<Step>, step: Step)
    requires Legal(s, steps) && Enabled(After(s, steps), step)
    ensures Legal(s, steps + [step]) && After(s, steps + [step]) == Apply(After(s, steps), step)
    decreases |steps|
  {
    if steps == [] {
      assert ([] + [step])[1..] == [] && ([] + [step])[0] == step;
    } else {
      Extend(Apply(s, steps[0]), steps[1..], step);
      assert (steps + [step])[1..] == steps[1..] + [step];
    }
  }

  function Plain(n: nat): Envelope {
    Envelope(Some(n), "", "")
  }

  /** Calls 0 and 1 are numbered 1 and 2 and push in the other order; reader 0 resumes from the start. */
  lemma CrossedRun() returns (run: seq<Step>)
    ensures Legal(Init, run)
    ensures var s := After(Init, run);
            && 0 in s.resumed && s.resumed[0].cursor == Some(0)
            && s.resumed[0].pushes == [Push(1, 0, Plain(2)), Push(0, 0, Plain(1))]
  {
    var r1 := [StepIncr(0, "", "")];
    assert [] + r1 == r1;
    Extend(Init, [], StepIncr(0, "", ""));
    var r2 := r1 + [StepIncr(1, "", "")];
    Extend(Init, r1, StepIncr(1, "", ""));
    var r3 := r2 + [StepPush(1)];
    Extend(Init, r2, StepPush(1));
    var r4 := r3 + [StepPush(0)];
    Extend(Init, r3, StepPush(0));
    var r5 := r4 + [StepSubscribe(0)];
    Extend(Init, r4, StepSubscribe(0));
    run := r5 + [StepResume(0, Some(0), 0)];
    Extend(Init, r5, StepResume(0, Some(0), 0));
  }

  lemma CrossedWindow()
    ensures Window([Push(1, 0, Plain(2)), Push(0, 0, Plain(1))], 0) == [Plain(2), Plain(1)]
  {
    var p1, p2 := Push(0, 0, Plain(1)), Push(1, 0, Plain(2));
    assert [p2, p1][0..] == [p2, p1] && [p2, p1][1..] == [p1] && [p1][1..] == [];
    assert PastCursor([p1], 0) == [Plain(1)];
  }

  /**
   A replay is not always ascending by id: two publishers that push in the other order than they
   were numbered put the ids into it out of order.
   */
  lemma ReplayCanDescend()
    ensures exists steps, r :: Legal(Init, steps) && r in After(Init, steps).resumed
              && After(Init, steps).resumed[r].point.replay == [Plain(2), Plain(1)]
  {
    var run := CrossedRun();
    ReplayIsTheWindow(run, 0);
    CrossedWindow();
  }

  lemma {:induction false} NumberCalls(n: nat) returns (steps: seq<Step>)
    ensures Legal(Init, steps)
    ensures var s := After(Init, steps);
            && s.store.Seq() == n && s.store.ring == [] && s.store.inboxes == map[]
            && s.gen == 0 && s.pushes == [] && s.tokens == {} && s.resumed == map[]
            && (forall i: nat :: i in s.calls <==> i < n)
            && forall i: nat :: i < n ==> s.calls[i] == Call(0, Plain(i + 1), Numbered)
  {
    if n == 0 {
      steps := [];
    } else {
      var most := NumberCalls(n - 1);
      Extend(Init, most, StepIncr(n - 1, "", ""));
      steps := most + [StepIncr(n - 1, "", "")];
    }
  }

  /** Two more publishes in full: ids `BUFFER_SIZE + 1` and `BUFFER_SIZE + 2`. */
  lemma PublishTwoMore() returns (steps: seq<Step>)
    ensures Legal(Init, steps) && Lagging(After(Init, steps), 0)
  {
    var numbered := NumberCalls(BUFFER_SIZE);
    var one := FullPublish(numbered, BUFFER_SIZE);
    steps := FullPublish(one, BUFFER_SIZE + 1);
  }

  lemma FullPublish(before: seq<Step>, c: CallId) returns (steps: seq<Step>)
    requires Legal(Init, before) && c !in After(Init, before).calls
    requires After(Init, before).store.inboxes == map[]
    ensures Legal(Init, steps)
    ensures var s, t := After(Init, before), After(Init, steps);
            var e := Plain(s.store.Seq() + 1);
            && t.store.Seq() == s.store.Seq() + 1 && t.store.inboxes == map[]
            && t.gen == s.gen && t.tokens == s.tokens && t.resumed == s.resumed
            && t.calls == s.calls[c := Call(s.gen, e, Published)]
            && t.pushes == s.pushes + [Push(c, s.gen, e)]
  {
    var r1 := before + [StepIncr(c, "", "")];
    Extend(Init, before, StepIncr(c, "", ""));
    var r2 := r1 + [StepPush(c)];
    Extend(Init, r1, StepPush(c));
    var r3 := r2 + [StepTrim(c)];
    Extend(Init, r2, StepTrim(c));
    steps := r3 + [StepPublish(c)];
    Extend(Init, r3, StepPublish(c));
  }

  /** Id `BUFFER_SIZE + 2` is published; `j` of the `BUFFER_SIZE` slow calls have pushed since. */
  ghost predicate Lagging(s: Sys, j: nat) {
    && s.store.Seq() == BUFFER_SIZE + 2 && s.store.inboxes == map[]
    && s.gen == 0 && s.tokens == {} && s.resumed == map[]
    && |s.pushes| == j + 2
    && s.pushes[1] == Push(BUFFER_SIZE + 1, 0, Plain(BUFFER_SIZE + 2))
    && At(s, BUFFER_SIZE + 1, Published) && s.calls[BUFFER_SIZE + 1].env == Plain(BUFFER_SIZE + 2)
    && s.calls[BUFFER_SIZE + 1].gen == 0
    && (forall i :: 2 <= i < |s.pushes| ==> s.pushes[i].env.Number() <= BUFFER_SIZE)
    && (forall c: nat :: j <= c < BUFFER_SIZE ==>
          At(s, c, Numbered) && s.calls[c].env == Plain(c + 1) && s.calls[c].gen == 0)
  }

  lemma {:induction false} PushSlowCalls(j: nat) returns (steps: seq<Step>)
    requires j <= BUFFER_SIZE
    ensures Legal(Init, steps) && Lagging(After(Init, steps), j)
  {
    if j == 0 {
      steps := PublishTwoMore();
    } else {
      var most := PushSlowCalls(j - 1);
      Extend(Init, most, StepPush(j - 1));
      steps := most + [StepPush(j - 1)];
    }
  }

  lemma {:induction false} NothingPast(pushes: seq<Push>, cursor: int)
    requires forall i :: 0 <= i < |pushes| ==> pushes[i].env.Number() <= cursor
    ensures PastCursor(pushes, cursor) == []
    decreases |pushes|
  {
    if pushes != [] {
      NothingPast(pushes[1..], cursor);
    }
  }

  /**
   Reader `r` is one id behind the sequence; that id's publish, `c`, completed in the epoch the
   reader resumed in, and it is neither in the replay nor in the inbox.
   */
  ghost predicate MissedNext(s: Sys, r: ReaderId, c: CallId) {
    && r in s.resumed && c in s.calls && r in s.store.inboxes
    && s.calls[c].phase == Published && Past(s.resumed[r], s.calls[c])
    && s.resumed[r].point.seqNo == Some(s.resumed[r].cursor.value + 1)
    && s.resumed[r].point.replay == [] && s.store.inboxes[r] == []
    && !GapArrives(s.calls, s.resumed[r])
  }

  lemma ResumeAfterStragglers(s: Sys)
    requires RingInv(s) && Lagging(s, BUFFER_SIZE)
    ensures Enabled(s, StepSubscribe(0))
    ensures var t := Apply(s, StepSubscribe(0));
            var step := StepResume(0, Some(BUFFER_SIZE + 1), 0);
            Enabled(t, step) && MissedNext(Apply(t, step), 0, BUFFER_SIZE + 1)
  {
    var t := Apply(s, StepSubscribe(0));
    ResumeIsWindow(t, 0, BUFFER_SIZE + 1);
    NothingPast(t.pushes[2..], BUFFER_SIZE + 1);
    var after := Apply(t, StepResume(0, Some(BUFFER_SIZE + 1), 0));
    NothingReplayed(after.calls, after.resumed[0]);
  }

  lemma StragglerRun() returns (steps: seq<Step>)
    ensures Legal(Init, steps) && MissedNext(After(Init, steps), 0, BUFFER_SIZE + 1)
  {
    var most := PushSlowCalls(BUFFER_SIZE);
    RunKeepsInv(Init, most);
    ResumeAfterStragglers(After(Init, most));
    var subscribed := most + [StepSubscribe(0)];
    Extend(Init, most, StepSubscribe(0));
    var resume := StepResume(0, Some(BUFFER_SIZE + 1), 0);
    Extend(Init, subscribed, resume);
    steps := subscribed + [resume];
  }

  /** In both runs below the whole promise fails: no event of the one-number gap is in the replay. */
  lemma NothingReplayed(calls: map<CallId, Call>, read: Read)
    requires read.cursor.Some? && read.cursor.value >= 0
    requires read.point.seqNo == Some(read.cursor.value + 1) && read.point.replay == []
    ensures !GapArrives(calls, read)
  {
    assert !EventReplayed(calls, read, read.cursor.value + 1);
  }

  /** Reader `r` is one id behind, nothing was ever lost or pushed, and the gap does not arrive. */
  ghost predicate GapUnpushed(s: Sys, r: ReaderId) {
    && s.gen == 0 && s.pushes == []
    && r in s.resumed && s.resumed[r].cursor.Some?
    && s.resumed[r].point.seqNo == Some(s.resumed[r].cursor.value + 1)
    && !GapArrives(s.calls, s.resumed[r])
  }

  /**
   The first proviso of `CoveredGapArrives` is needed: one publisher has its number and has not pushed
   yet when a reader one id behind resumes. The promised id is not in the replay.
   */
  lemma UnpushedBreaksTheGap()
    ensures exists steps, r :: Legal(Init, steps) && GapUnpushed(After(Init, steps), r)
  {
    var s0 := [StepIncr(0, "", "")];
    Extend(Init, [], StepIncr(0, "", ""));
    assert [] + s0 == s0;
    var s1 := s0 + [StepSubscribe(0)];
    Extend(Init, s0, StepSubscribe(0));
    var run := s1 + [StepResume(0, Some(0), 0)];
    Extend(Init, s1, StepResume(0, Some(0), 0));
    ReplayIsTheWindow(run, 0);
    var s := After(Init, run);
    assert s.resumed[0].point.replay == [];
    NothingReplayed(s.calls, s.resumed[0]);
    assert GapUnpushed(s, 0);
  }

  /**
   The second proviso is needed. With `BUFFER_SIZE` slow publishers, a reader one id
   behind, in an unchanged epoch, whose missed event was published in full, gets an empty replay and
   an empty inbox: the pushes of ids it already had drove the missed one out of the ring.
   */
  lemma StragglersBreakTheGap()
    ensures exists steps, r, c :: Legal(Init, steps) && MissedNext(After(Init, steps), r, c)
  {
    var steps := StragglerRun();
  }
}
