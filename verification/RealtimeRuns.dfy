/**
 Every interleaving of publishers and readers on one project's keys.

 A publish is one call whose four Redis commands are separate steps; any of them may be the last
 one that happens. Readers subscribe, then read the resume point, and may leave and come back.
 Redis may lose the keys at any moment (a restart, or `async_drop_project_keys`); calls already
 numbered carry on into the new generation.
 */
module RealtimeRuns {
  import opened Wrappers
  import opened Realtime

  type CallId = nat

  datatype Phase = Numbered | Pushed | Trimmed | Published | Aborted

  /** `gen` is the generation of the sequence that numbered the call. */
  datatype Call = Call(gen: nat, env: Envelope, phase: Phase)

  datatype Push = Push(call: CallId, gen: nat, env: Envelope)

  /** A successful resume read; `pushes` is what this generation's ring had received by then. */
  datatype Read = Read(gen: nat, cursor: Option<int>, point: ResumePoint, pushes: seq<Push>)

  datatype Sys = Sys(
    store: Store,
    gen: nat,
    calls: map<CallId, Call>,
    pushes: seq<Push>,
    tokens: set<Token>,
    resumed: map<ReaderId, Read>,
    log: seq<Read>)

  const Init := Sys(Store(None, None, [], map[]), 0, map[], [], {}, map[], [])

  datatype Step =
    | StepIncr(c: CallId, kind: string, data: string)
    | StepPush(c: CallId)
    | StepTrim(c: CallId)
    | StepPublish(c: CallId)
    | StepAbort(c: CallId)
    | StepSubscribe(r: ReaderId)
    | StepResume(r: ReaderId, cursor: Option<int>, token: Token)
    | StepLeave(r: ReaderId)
    | StepLose

  predicate At(s: Sys, c: CallId, phase: Phase) {
    c in s.calls && s.calls[c].phase == phase
  }

  predicate Enabled(s: Sys, step: Step) {
    match step
    case StepIncr(c, _, _) => c !in s.calls
    case StepPush(c) => At(s, c, Numbered)
    case StepTrim(c) => At(s, c, Pushed)
    case StepPublish(c) => At(s, c, Trimmed)
    case StepAbort(c) => At(s, c, Numbered) || At(s, c, Pushed) || At(s, c, Trimmed)
    case StepSubscribe(r) => r !in s.store.inboxes
    case StepResume(r, _, token) => r in s.store.inboxes && r !in s.resumed && token !in s.tokens
    case StepLeave(r) => r in s.store.inboxes
    case StepLose => true
  }

  function Moved(s: Sys, c: CallId, phase: Phase): map<CallId, Call>
    requires c in s.calls
  {
    s.calls[c := s.calls[c].(phase := phase)]
  }

  function Apply(s: Sys, step: Step): Sys
    requires Enabled(s, step)
  {
    match step
    case StepIncr(c, kind, data) =>
      var e := Envelope(Some(s.store.Seq() + 1), kind, data);
      s.(store := Incr(s.store), calls := s.calls[c := Call(s.gen, e, Numbered)])
    case StepPush(c) =>
      s.(store := LPush(s.store, Doc(s.calls[c].env)),
         pushes := s.pushes + [Push(c, s.calls[c].gen, s.calls[c].env)],
         calls := Moved(s, c, Pushed))
    case StepTrim(c) =>
      s.(store := LTrim(s.store), calls := Moved(s, c, Trimmed))
    case StepPublish(c) =>
      s.(store := Broadcast(s.store, s.calls[c].env), calls := Moved(s, c, Published))
    case StepAbort(c) =>
      s.(calls := Moved(s, c, Aborted))
    case StepSubscribe(r) =>
      s.(store := s.store.(inboxes := s.store.inboxes[r := []]))
    case StepResume(r, cursor, token) =>
      var store := SetEpochIfAbsent(s.store, token);
      var read := Read(s.gen, cursor, Resume(store, cursor), s.pushes);
      s.(store := store, tokens := s.tokens + {token},
         resumed := s.resumed[r := read], log := s.log + [read])
    case StepLeave(r) =>
      s.(store := s.store.(inboxes := s.store.inboxes - {r}), resumed := s.resumed - {r})
    case StepLose =>
      s.(store := DropKeys(s.store), gen := s.gen + 1, pushes := [])
  }

  predicate Legal(s: Sys, steps: seq<Step>)
    decreases |steps|
  {
    steps == [] || (Enabled(s, steps[0]) && Legal(Apply(s, steps[0]), steps[1..]))
  }

  function After(s: Sys, steps: seq<Step>): Sys
    requires Legal(s, steps)
    decreases |steps|
  {
    if steps == [] then s else After(Apply(s, steps[0]), steps[1..])
  }

  /** A publish that any of its commands may end: the first `k` steps are what the class does in one call. */
  lemma StepsArePublish(s: Sys, c: CallId, kind: string, data: string, k: nat)
    requires c !in s.calls && k <= 4
    ensures var steps := [StepIncr(c, kind, data), StepPush(c), StepTrim(c), StepPublish(c)][..k];
            Legal(s, steps) && After(s, steps).store == Publish(s.store, kind, data, k)
  {
    var s1 := Apply(s, StepIncr(c, kind, data));
    var s2 := Apply(s1, StepPush(c));
    var s3 := Apply(s2, StepTrim(c));
    var steps := [StepIncr(c, kind, data), StepPush(c), StepTrim(c), StepPublish(c)];
    if k == 0 {
      assert steps[..0] == [];
    } else if k == 1 {
      OneStep(s, steps[0]);
      assert steps[..1] == [steps[0]];
    } else if k == 2 {
      OneStep(s1, steps[1]);
      MoreSteps(s, steps[0], [steps[1]]);
      assert steps[..2] == [steps[0]] + [steps[1]];
    } else if k == 3 {
      OneStep(s2, steps[2]);
      MoreSteps(s1, steps[1], [steps[2]]);
      MoreSteps(s, steps[0], [steps[1]] + [steps[2]]);
      assert steps[..3] == [steps[0]] + ([steps[1]] + [steps[2]]);
    } else {
      FourStepsArePublish(s, c, kind, data);
      assert steps[..4] == steps;
    }
  }

  lemma OneStep(s: Sys, step: Step)
    requires Enabled(s, step)
    ensures Legal(s, [step]) && After(s, [step]) == Apply(s, step)
  {
    MoreSteps(s, step, []);
    assert [step] + [] == [step];
  }

  lemma MoreSteps(s: Sys, step: Step, steps: seq<Step>)
    requires Enabled(s, step) && Legal(Apply(s, step), steps)
    ensures Legal(s, [step] + steps) && After(s, [step] + steps) == After(Apply(s, step), steps)
  {
    assert ([step] + steps)[1..] == steps;
  }

  /** A complete publish is the four steps in a row: the runs below contain the class's behaviour. */
  lemma FourStepsArePublish(s: Sys, c: CallId, kind: string, data: string)
    requires c !in s.calls
    ensures var steps := [StepIncr(c, kind, data), StepPush(c), StepTrim(c), StepPublish(c)];
            Legal(s, steps) && After(s, steps).store == Publish(s.store, kind, data, 4)
  {
    var s1 := Apply(s, StepIncr(c, kind, data));
    var s2 := Apply(s1, StepPush(c));
    var s3 := Apply(s2, StepTrim(c));
    var s4 := Apply(s3, StepPublish(c));
    var p4 := [StepPublish(c)];
    var p3 := [StepTrim(c)] + p4;
    var p2 := [StepPush(c)] + p3;
    assert p4[1..] == [] && p3[1..] == p4 && p2[1..] == p3;
    assert Legal(s3, p4) && After(s3, p4) == s4;
    assert Legal(s2, p3) && After(s2, p3) == s4;
    assert Legal(s1, p2) && After(s1, p2) == s4;
    assert ([StepIncr(c, kind, data)] + p2)[1..] == p2;
    assert [StepIncr(c, kind, data), StepPush(c), StepTrim(c), StepPublish(c)] == [StepIncr(c, kind, data)] + p2;
  }

  // -------------------------------------------------------------- invariants

  /** The ring is the newest part of this generation's pushes, and no less than `BUFFER_SIZE` of it. */
  ghost predicate RingInv(s: Sys) {
    Min(|s.pushes|, BUFFER_SIZE) <= |s.store.ring| && Mirrors(s.store.ring, s.pushes)
  }

  /** The ring, newest first, is the end of the push history. */
  ghost predicate Mirrors(ring: seq<Raw>, pushes: seq<Push>) {
    && |ring| <= |pushes|
    && forall i :: 0 <= i < |ring| ==> ring[i] == Doc(pushes[|pushes| - 1 - i].env)
  }

  /** INCR never hands out one number twice in a generation. */
  ghost predicate CallInv(s: Sys) {
    && (forall c :: c in s.calls ==>
          && s.calls[c].gen <= s.gen
          && s.calls[c].env.id.Some? && 1 <= s.calls[c].env.Number()
          && (s.calls[c].gen == s.gen ==> s.calls[c].env.Number() <= s.store.Seq()))
    && (forall c, d :: c in s.calls && d in s.calls && c != d && s.calls[c].gen == s.calls[d].gen ==>
          s.calls[c].env.Number() != s.calls[d].env.Number())
  }

  predicate HasPushed(phase: Phase) {
    phase == Pushed || phase == Trimmed || phase == Published
  }

  /** Each call is pushed at most once, and a published call of this generation was pushed. */
  ghost predicate PushInv(s: Sys) {
    && (forall i :: 0 <= i < |s.pushes| ==>
          var p := s.pushes[i];
          && p.call in s.calls
          && s.calls[p.call].env == p.env && s.calls[p.call].gen == p.gen
          && s.calls[p.call].phase != Numbered)
    && (forall i, j :: 0 <= i < j < |s.pushes| ==> s.pushes[i].call != s.pushes[j].call)
    && (forall c :: c in s.calls && s.calls[c].gen == s.gen && HasPushed(s.calls[c].phase) ==>
          Push(c, s.gen, s.calls[c].env) in s.pushes)
  }

  /** At least `BUFFER_SIZE` pushes followed this one into the ring before the read. */
  ghost predicate Overtaken(p: Push, pushes: seq<Push>) {
    exists i :: 0 <= i < |pushes| - BUFFER_SIZE && pushes[i] == p
  }

  /** What a resumed reader holds of a call past its cursor. */
  ghost predicate Arrived(read: Read, inbox: seq<Envelope>, c: CallId, call: Call) {
    || call.env in read.point.replay
    || call.env in inbox
    || Overtaken(Push(c, call.gen, call.env), read.pushes)
  }

  ghost predicate Past(read: Read, call: Call) {
    call.gen == read.gen && read.cursor.Some? && call.env.Number() > read.cursor.value
  }

  ghost predicate ReaderInv(s: Sys) {
    forall r :: r in s.resumed ==>
      && r in s.store.inboxes
      && s.resumed[r].gen <= s.gen
      && forall c :: c in s.calls && s.calls[c].phase == Published && Past(s.resumed[r], s.calls[c]) ==>
           Arrived(s.resumed[r], s.store.inboxes[r], c, s.calls[c])
  }

  /** The pushes a read saw: of its own generation's numbers, none twice and none above `seq`. */
  ghost predicate ReadOk(read: Read) {
    && read.point.seqNo.Some? && read.point.epoch.Some?
    && read.point.replay == (if read.cursor.Some? then Window(read.pushes, read.cursor.value) else [])
    && (forall i :: 0 <= i < |read.pushes| && read.pushes[i].gen == read.gen ==>
          read.pushes[i].env.Number() <= read.point.seqNo.value)
    && (forall i, j :: 0 <= i < j < |read.pushes| && read.pushes[i].gen == read.pushes[j].gen ==>
          read.pushes[i].env.Number() != read.pushes[j].env.Number())
  }

  ghost predicate EpochInv(s: Sys) {
    && (s.store.epoch.Some? ==> s.store.epoch.value in s.tokens)
    && (forall i :: 0 <= i < |s.log| ==>
          var read := s.log[i];
          && ReadOk(read) && read.gen <= s.gen && read.point.epoch.value in s.tokens
          && (read.gen == s.gen ==>
                s.store.epoch == read.point.epoch && read.point.seqNo.value <= s.store.Seq())
          && (read.gen < s.gen ==> s.store.epoch != read.point.epoch))
    && (forall i, j :: 0 <= i < j < |s.log| ==> Consistent(s.log[i], s.log[j]))
    && (forall r :: r in s.resumed ==> s.resumed[r] in s.log)
  }

  /** Same epoch exactly when no loss lies between the two reads; then the sequence has not gone back. */
  ghost predicate Consistent(earlier: Read, later: Read) {
    && earlier.gen <= later.gen
    && (earlier.point.epoch == later.point.epoch <==> earlier.gen == later.gen)
    && (earlier.gen == later.gen && earlier.point.seqNo.Some? && later.point.seqNo.Some? ==>
          earlier.point.seqNo.value <= later.point.seqNo.value)
  }

  ghost predicate Inv(s: Sys) {
    RingInv(s) && CallInv(s) && PushInv(s) && ReaderInv(s) && EpochInv(s)
  }

  /** The newest `BUFFER_SIZE` pushes past the cursor, oldest first. */
  function Window(pushes: seq<Push>, cursor: int): seq<Envelope> {
    PastCursor(pushes[|pushes| - Min(|pushes|, BUFFER_SIZE)..], cursor)
  }

  function PastCursor(pushes: seq<Push>, cursor: int): seq<Envelope> {
    if pushes == [] then []
    else (if pushes[0].env.Number() > cursor then [pushes[0].env] else []) + PastCursor(pushes[1..], cursor)
  }

  lemma {:induction false} PastCursorMembers(pushes: seq<Push>, cursor: int, i: nat)
    requires i < |pushes| && pushes[i].env.Number() > cursor
    ensures pushes[i].env in PastCursor(pushes, cursor)
    decreases |pushes|
  {
    if i > 0 {
      PastCursorMembers(pushes[1..], cursor, i - 1);
    }
  }

  lemma {:induction false} PastCursorSnoc(pushes: seq<Push>, p: Push, cursor: int)
    ensures PastCursor(pushes + [p], cursor)
         == PastCursor(pushes, cursor) + if p.env.Number() > cursor then [p.env] else []
    decreases |pushes|
  {
    if pushes == [] {
      assert (pushes + [p])[1..] == [];
    } else {
      PastCursorSnoc(pushes[1..], p, cursor);
      assert (pushes + [p])[1..] == pushes[1..] + [p];
    }
  }

  lemma {:induction false} ReplayIsPastCursor(ring: seq<Raw>, pushes: seq<Push>, cursor: int)
    requires |ring| == |pushes| && Mirrors(ring, pushes)
    ensures Replay(ring, cursor) == PastCursor(pushes, cursor)
    decreases |ring|
  {
    if ring != [] {
      var n := |pushes|;
      var older, last := pushes[..n - 1], pushes[n - 1];
      assert pushes == older + [last];
      assert ring[0] == Doc(last.env);
      ReplayIsPastCursor(ring[1..], older, cursor);
      PastCursorSnoc(older, last, cursor);
    }
  }

  lemma NewestMirror(ring: seq<Raw>, pushes: seq<Push>, k: nat)
    requires Mirrors(ring, pushes) && k <= |ring|
    ensures Mirrors(ring[..k], pushes[|pushes| - k..])
  {
  }

  lemma ResumeIsWindow(s: Sys, token: Token, cursor: int)
    requires RingInv(s)
    ensures Resume(SetEpochIfAbsent(s.store, token), Some(cursor)).replay == Window(s.pushes, cursor)
  {
    var k := Min(|s.pushes|, BUFFER_SIZE);
    assert k == Min(|s.store.ring|, BUFFER_SIZE);
    NewestMirror(s.store.ring, s.pushes, k);
    ReplayIsPastCursor(s.store.ring[..k], s.pushes[|s.pushes| - k..], cursor);
  }

  // ------------------------------------------------- every step keeps them

  lemma PushedIsReplayedOrOvertaken(pushes: seq<Push>, p: Push, cursor: int)
    requires p in pushes && p.env.Number() > cursor
    ensures p.env in Window(pushes, cursor) || Overtaken(p, pushes)
  {
    var i :| 0 <= i < |pushes| && pushes[i] == p;
    if i >= |pushes| - BUFFER_SIZE {
      var from := |pushes| - Min(|pushes|, BUFFER_SIZE);
      PastCursorMembers(pushes[from..], cursor, i - from);
    }
  }

  lemma ResumeKeepsReaderInv(s: Sys, r: ReaderId, cursor: Option<int>, token: Token)
    requires Inv(s) && Enabled(s, StepResume(r, cursor, token))
    ensures ReaderInv(Apply(s, StepResume(r, cursor, token)))
  {
    var t := Apply(s, StepResume(r, cursor, token));
    var read := t.resumed[r];
    assert t.calls == s.calls && t.store.inboxes == s.store.inboxes;
    forall c | c in s.calls && s.calls[c].phase == Published && Past(read, s.calls[c])
      ensures Arrived(read, t.store.inboxes[r], c, s.calls[c])
    {
      ResumeIsWindow(s, token, cursor.value);
      PushedIsReplayedOrOvertaken(s.pushes, Push(c, s.gen, s.calls[c].env), cursor.value);
    }
    forall q | q in t.resumed
      ensures q in t.store.inboxes && t.resumed[q].gen <= t.gen
    {
    }
  }

  lemma NewReadOk(s: Sys, cursor: Option<int>, token: Token)
    requires RingInv(s) && CallInv(s) && PushInv(s)
    ensures ReadOk(Read(s.gen, cursor, Resume(SetEpochIfAbsent(s.store, token), cursor), s.pushes))
  {
    if cursor.Some? {
      ResumeIsWindow(s, token, cursor.value);
    }
  }

  lemma ResumeKeepsEpochInv(s: Sys, r: ReaderId, cursor: Option<int>, token: Token)
    requires Inv(s) && Enabled(s, StepResume(r, cursor, token))
    ensures EpochInv(Apply(s, StepResume(r, cursor, token)))
  {
    var t := Apply(s, StepResume(r, cursor, token));
    var read := t.resumed[r];
    NewReadOk(s, cursor, token);
    assert t.log == s.log + [read];
    forall i | 0 <= i < |s.log|
      ensures Consistent(s.log[i], read)
    {
      assert ReadOk(s.log[i]);
    }
    forall i, j | 0 <= i < j < |t.log|
      ensures Consistent(t.log[i], t.log[j])
    {
    }
  }

  lemma PublishKeepsReaderInv(s: Sys, c: CallId)
    requires Inv(s) && Enabled(s, StepPublish(c))
    ensures ReaderInv(Apply(s, StepPublish(c)))
  {
  }

  lemma StepKeepsReaderInv(s: Sys, step: Step)
    requires Inv(s) && Enabled(s, step)
    ensures ReaderInv(Apply(s, step))
  {
    match step
    case StepResume(r, cursor, token) => ResumeKeepsReaderInv(s, r, cursor, token);
    case StepPublish(c) => PublishKeepsReaderInv(s, c);
    case _ =>
  }

  lemma IncrKeepsCallInv(s: Sys, c: CallId, kind: string, data: string)
    requires CallInv(s) && Enabled(s, StepIncr(c, kind, data))
    ensures CallInv(Apply(s, StepIncr(c, kind, data)))
  {
  }

  /** The same calls with the same numbers; phases may differ, and the keys may be lost. */
  ghost predicate SameNumbers(s: Sys, t: Sys) {
    && t.calls.Keys == s.calls.Keys
    && (forall c :: c in s.calls ==> t.calls[c].gen == s.calls[c].gen && t.calls[c].env == s.calls[c].env)
    && ((t.gen == s.gen && t.store.Seq() == s.store.Seq()) || t.gen == s.gen + 1)
  }

  lemma OthersKeepNumbers(s: Sys, step: Step)
    requires Enabled(s, step) && !step.StepIncr?
    ensures SameNumbers(s, Apply(s, step))
  {
  }

  lemma NumbersKeepCallInv(s: Sys, t: Sys)
    requires CallInv(s) && SameNumbers(s, t)
    ensures CallInv(t)
  {
  }

  lemma StepKeepsCallInv(s: Sys, step: Step)
    requires CallInv(s) && Enabled(s, step)
    ensures CallInv(Apply(s, step))
  {
    if step.StepIncr? {
      IncrKeepsCallInv(s, step.c, step.kind, step.data);
    } else {
      OthersKeepNumbers(s, step);
      NumbersKeepCallInv(s, Apply(s, step));
    }
  }

  lemma PushKeepsMirror(ring: seq<Raw>, pushes: seq<Push>, p: Push)
    requires Mirrors(ring, pushes)
    ensures Mirrors([Doc(p.env)] + ring, pushes + [p])
  {
  }

  lemma StepKeepsRingInv(s: Sys, step: Step)
    requires Inv(s) && Enabled(s, step)
    ensures RingInv(Apply(s, step))
  {
    match step
    case StepPush(c) => PushKeepsMirror(s.store.ring, s.pushes, Push(c, s.calls[c].gen, s.calls[c].env));
    case _ =>
  }

  lemma PushKeepsPushInv(s: Sys, c: CallId)
    requires Inv(s) && Enabled(s, StepPush(c))
    ensures PushInv(Apply(s, StepPush(c)))
  {
  }

  lemma StepKeepsPushInv(s: Sys, step: Step)
    requires Inv(s) && Enabled(s, step)
    ensures PushInv(Apply(s, step))
  {
    if step.StepPush? {
      PushKeepsPushInv(s, step.c);
    }
  }

  lemma StepKeepsEpochInv(s: Sys, step: Step)
    requires Inv(s) && Enabled(s, step)
    ensures EpochInv(Apply(s, step))
  {
    match step
    case StepResume(r, cursor, token) => ResumeKeepsEpochInv(s, r, cursor, token);
    case _ =>
  }

  lemma StepKeepsInv(s: Sys, step: Step)
    requires Inv(s) && Enabled(s, step)
    ensures Inv(Apply(s, step))
  {
    StepKeepsRingInv(s, step);
    StepKeepsCallInv(s, step);
    StepKeepsPushInv(s, step);
    StepKeepsReaderInv(s, step);
    StepKeepsEpochInv(s, step);
  }

  lemma {:induction false} RunKeepsInv(s: Sys, steps: seq<Step>)
    requires Inv(s) && Legal(s, steps)
    ensures Inv(After(s, steps))
    decreases |steps|
  {
    if steps != [] {
      StepKeepsInv(s, steps[0]);
      RunKeepsInv(Apply(s, steps[0]), steps[1..]);
    }
  }

  // ------------------------------------------------------------ main results

  /**
   Nothing past the cursor is lost silently. In every run, every number the reader's own
   generation handed out past its cursor, and whose publish completed, is in the reader's replay,
   or came over its subscription, or was followed into the ring by at least `BUFFER_SIZE` pushes
   before the read.
   */
  lemma NoSilentLoss(steps: seq<Step>, r: ReaderId, c: CallId)
    requires Legal(Init, steps)
    requires var s := After(Init, steps);
             && r in s.resumed && c in s.calls
             && s.calls[c].phase == Published && Past(s.resumed[r], s.calls[c])
    ensures var s := After(Init, steps);
            r in s.store.inboxes && Arrived(s.resumed[r], s.store.inboxes[r], c, s.calls[c])
  {
    RunKeepsInv(Init, steps);
  }

  /** Two reads report one epoch exactly when no loss lies between them, and then `seq` never goes back. */
  lemma EpochNamesTheSequence(steps: seq<Step>, i: nat, j: nat)
    requires Legal(Init, steps)
    requires i < j < |After(Init, steps).log|
    ensures var log := After(Init, steps).log;
            && log[i].point.seqNo.Some? && log[j].point.seqNo.Some?
            && (log[i].point.epoch == log[j].point.epoch <==> log[i].gen == log[j].gen)
            && (log[i].point.epoch == log[j].point.epoch ==>
                  log[i].point.seqNo.value <= log[j].point.seqNo.value)
  {
    RunKeepsInv(Init, steps);
    assert Consistent(After(Init, steps).log[i], After(Init, steps).log[j]);
    assert ReadOk(After(Init, steps).log[i]) && ReadOk(After(Init, steps).log[j]);
  }

  /** In every run a replay is the newest `BUFFER_SIZE` pushes past the cursor, in push order. */
  lemma ReplayIsTheWindow(steps: seq<Step>, r: ReaderId)
    requires Legal(Init, steps)
    requires r in After(Init, steps).resumed && After(Init, steps).resumed[r].cursor.Some?
    ensures var read := After(Init, steps).resumed[r];
            read.point.replay == Window(read.pushes, read.cursor.value)
  {
    RunKeepsInv(Init, steps);
    assert ReadOk(After(Init, steps).resumed[r]);
  }
}
