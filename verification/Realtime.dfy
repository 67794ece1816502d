/**
 The Redis side of one project's event stream: the four commands a publisher runs, the
 transaction a reconnecting reader runs, and the replay it gets.

 `Store` is what Redis holds for the project. The functions on it say what each command does;
 the class `ProjectRedis` performs the commands in place and is proved against them.
 The interleavings of many publishers and readers are in module RealtimeRuns.
 */
module Realtime {
  import opened Wrappers

  const BUFFER_SIZE: nat := 50

  type ReaderId = nat

  /** An epoch value: the source draws a fresh UUID for every read. */
  type Token = nat

  datatype Envelope = Envelope(id: Option<nat>, kind: string, data: string) {

    /** `envelope.get("id", 0)`. */
    function Number(): nat {
      id.GetOr(0)
    }
  }

  /** One ring entry: an envelope's JSON, or text that does not decode to a JSON object. */
  datatype Raw = Doc(env: Envelope) | Garbage

  datatype Store = Store(
    seqNo: Option<nat>,
    epoch: Option<Token>,
    ring: seq<Raw>,
    inboxes: map<ReaderId, seq<Envelope>>)
  {
    function Seq(): nat {
      seqNo.GetOr(0)
    }
  }

  datatype ResumePoint = ResumePoint(seqNo: Option<nat>, epoch: Option<Token>, replay: seq<Envelope>)

  function Min(a: nat, b: nat): nat {
    if a < b then a else b
  }

  // ---------------------------------------------------------------- commands

  function Incr(s: Store): Store {
    s.(seqNo := Some(s.Seq() + 1))
  }

  function LPush(s: Store, raw: Raw): Store {
    s.(ring := [raw] + s.ring)
  }

  function LTrim(s: Store): Store {
    s.(ring := s.ring[..Min(|s.ring|, BUFFER_SIZE)])
  }

  function Broadcast(s: Store, e: Envelope): Store {
    s.(inboxes := map r | r in s.inboxes :: s.inboxes[r] + [e])
  }

  function DropKeys(s: Store): Store {
    s.(seqNo := None, epoch := None, ring := [])
  }

  function SetEpochIfAbsent(s: Store, token: Token): Store {
    if s.epoch.None? then s.(epoch := Some(token)) else s
  }

  /** What one publish leaves behind when only its first `effective` commands reach Redis. */
  function Publish(s: Store, kind: string, data: string, effective: nat): Store {
    var e := Envelope(Some(s.Seq() + 1), kind, data);
    var s1 := if effective >= 1 then Incr(s) else s;
    var s2 := if effective >= 2 then LPush(s1, Doc(e)) else s1;
    var s3 := if effective >= 3 then LTrim(s2) else s2;
    if effective >= 4 then Broadcast(s3, e) else s3
  }

  predicate Keeps(raw: Raw, afterId: int) {
    raw.Doc? && raw.env.Number() > afterId
  }

  /** The decodable entries past the cursor, in the order they were pushed (oldest first). */
  function Replay(raw: seq<Raw>, afterId: int): seq<Envelope> {
    if raw == [] then []
    else Replay(raw[1..], afterId) + if Keeps(raw[0], afterId) then [raw[0].env] else []
  }

  function Resume(s: Store, cursor: Option<int>): ResumePoint {
    ResumePoint(
      Some(s.Seq()),
      s.epoch,
      if cursor.Some? then Replay(s.ring[..Min(|s.ring|, BUFFER_SIZE)], cursor.value) else [])
  }

  function Reverse<T>(xs: seq<T>): (r: seq<T>)
    ensures |r| == |xs|
    ensures forall i :: 0 <= i < |xs| ==> r[i] == xs[|xs| - 1 - i]
  {
    if xs == [] then [] else Reverse(xs[1..]) + [xs[0]]
  }

  lemma {:induction false} ReplaySnoc(raw: seq<Raw>, last: Raw, afterId: int)
    ensures Replay(raw + [last], afterId)
         == (if Keeps(last, afterId) then [last.env] else []) + Replay(raw, afterId)
  {
    if raw == [] {
      assert raw + [last] == [last];
      assert [last][1..] == [];
    } else {
      ReplaySnoc(raw[1..], last, afterId);
      assert (raw + [last])[1..] == raw[1..] + [last];
    }
  }

  /** Exactly the kept entries, nothing else. */
  lemma {:induction false} ReplayMembers(raw: seq<Raw>, afterId: int, e: Envelope)
    ensures e in Replay(raw, afterId) <==> Doc(e) in raw && (if e.id == None then 0 else e.id.value) > afterId
  {
    if raw != [] {
      ReplayMembers(raw[1..], afterId, e);
      assert raw == [raw[0]] + raw[1..];
    }
  }

  /** The loop of `_parse_replay`: newest to oldest, then reversed. */
  method ParseReplay(raw: seq<Raw>, afterId: int) returns (events: seq<Envelope>)
    ensures events == Replay(raw, afterId)
  {
    events := [];
    for i := 0 to |raw|
      invariant Reverse(events) == Replay(raw[..i], afterId)
    {
      ghost var before := events;
      if raw[i].Doc? && raw[i].env.Number() > afterId {
        events := events + [raw[i].env];
      }
      ReplaySnoc(raw[..i], raw[i], afterId);
      assert raw[..i + 1] == raw[..i] + [raw[i]];
      assert Keeps(raw[i], afterId) ==> Reverse(events) == [raw[i].env] + Reverse(before);
      assert !Keeps(raw[i], afterId) ==> [] + Reverse(before) == Reverse(before);
    }
    events := Reverse(events);
    assert raw[..|raw|] == raw;
  }

  // ------------------------------------------------------ commands, in place

  class ProjectRedis {
    var seqNo: Option<nat>
    var epoch: Option<Token>
    var ring: seq<Raw>
    var inboxes: map<ReaderId, seq<Envelope>>

    function View(): Store
      reads this
    {
      Store(seqNo, epoch, ring, inboxes)
    }

    constructor ()
      ensures View() == Store(None, None, [], map[])
    {
      seqNo, epoch, ring, inboxes := None, None, [], map[];
    }

    /** `publish_project_event`; an exception after `effective` commands ends it silently. */
    method PublishProjectEvent(kind: string, data: string, effective: nat)
      modifies this
      ensures View() == Publish(old(View()), kind, data, effective)
    {
      if effective == 0 {
        return;
      }
      var n := seqNo.GetOr(0) + 1;
      seqNo := Some(n);
      var e := Envelope(Some(n), kind, data);
      if effective == 1 {
        return;
      }
      ring := [Doc(e)] + ring;
      if effective == 2 {
        return;
      }
      if |ring| > BUFFER_SIZE {
        ring := ring[..BUFFER_SIZE];
      }
      if effective == 3 {
        return;
      }
      inboxes := map r | r in inboxes :: inboxes[r] + [e];
    }

    method AsyncDropProjectKeys(reachable: bool)
      modifies this
      ensures View() == if reachable then DropKeys(old(View())) else old(View())
      ensures reachable ==> View() == Store(None, None, [], old(inboxes))
    {
      if reachable {
        seqNo, epoch, ring := None, None, [];
      }
    }

    method Subscribe(r: ReaderId)
      modifies this`inboxes
      ensures View() == old(View()).(inboxes := old(inboxes)[r := []])
    {
      inboxes := inboxes[r := []];
    }

    /** `read_resume_point`: the whole transaction at one instant, or nothing at all. */
    method ReadResumePoint(cursor: Option<int>, token: Token, reachable: bool) returns (p: ResumePoint)
      modifies this`epoch
      ensures !reachable ==> View() == old(View()) && p == ResumePoint(None, None, [])
      ensures reachable ==> View() == SetEpochIfAbsent(old(View()), token) && p == Resume(View(), cursor)
      ensures reachable ==> epoch == (if old(epoch) == None then Some(token) else old(epoch)) && p.epoch == epoch
      ensures reachable ==> p.seqNo == Some(if seqNo == None then 0 else seqNo.value)
      ensures cursor == None ==> p.replay == []
    {
      if !reachable {
        return ResumePoint(None, None, []);
      }
      if epoch.None? {
        epoch := Some(token);
      }
      var items := if |ring| > BUFFER_SIZE then ring[..BUFFER_SIZE] else ring;
      var replay: seq<Envelope> := [];
      if cursor.Some? {
        replay := ParseReplay(items, cursor.value);
      }
      assert ring[..|ring|] == ring;
      p := ResumePoint(Some(seqNo.GetOr(0)), epoch, replay);
    }
  }

  /** A publish cut short after `effective` commands: what has reached Redis by then, key by key. */
  lemma PublishCutShort(s: Store, kind: string, data: string, effective: nat)
    ensures var p := Publish(s, kind, data, effective);
            var n := if s.seqNo == None then 1 else s.seqNo.value + 1;
            var e := Envelope(Some(n), kind, data);
            var pushed := [Doc(e)] + s.ring;
            && p.epoch == s.epoch
            && p.seqNo == (if effective == 0 then s.seqNo else Some(n))
            && p.ring == (if effective < 2 then s.ring
                          else if effective == 2 || |pushed| <= 50 then pushed else pushed[..50])
            && p.inboxes.Keys == s.inboxes.Keys
            && forall r :: r in s.inboxes ==> p.inboxes[r] == s.inboxes[r] + if effective < 4 then [] else [e]
  {
    var pushed := [Doc(Envelope(Some(s.Seq() + 1), kind, data))] + s.ring;
    assert |pushed| <= 50 ==> pushed[..|pushed|] == pushed;
  }

  // ---------------------------------------------- publishers one at a time

  datatype Event = Event(kind: string, data: string)

  function PublishAll(s: Store, events: seq<Event>): Store
    decreases |events|
  {
    if events == [] then s
    else
      var last := events[|events| - 1];
      Publish(PublishAll(s, events[..|events| - 1]), last.kind, last.data, 4)
  }

  /** Envelopes `from + 1 .. |events|`, numbered as INCR numbers them. */
  function Envelopes(events: seq<Event>, from: nat): seq<Envelope>
    requires from <= |events|
  {
    seq(|events| - from, i requires 0 <= i < |events| - from =>
      Envelope(Some(from + i + 1), events[from + i].kind, events[from + i].data))
  }

  /** The ring is the newest `BUFFER_SIZE` of `envs`, newest first. */
  ghost predicate HoldsNewest(s: Store, envs: seq<Envelope>) {
    && s.Seq() == |envs|
    && |s.ring| == Min(|envs|, BUFFER_SIZE)
    && forall i :: 0 <= i < |s.ring| ==> s.ring[i] == Doc(envs[|envs| - 1 - i])
  }

  lemma PublishKeepsNewest(s: Store, envs: seq<Envelope>, kind: string, data: string)
    requires HoldsNewest(s, envs)
    ensures HoldsNewest(Publish(s, kind, data, 4), envs + [Envelope(Some(|envs| + 1), kind, data)])
  {
  }

  lemma EnvelopesSnoc(events: seq<Event>)
    requires events != []
    ensures var most, last := events[..|events| - 1], events[|events| - 1];
            Envelopes(events, 0) == Envelopes(most, 0) + [Envelope(Some(|events|), last.kind, last.data)]
  {
  }

  ghost predicate EachGot(before: map<ReaderId, seq<Envelope>>, after: map<ReaderId, seq<Envelope>>,
                          envs: seq<Envelope>)
  {
    after.Keys == before.Keys && forall r :: r in after ==> after[r] == before[r] + envs
  }

  lemma BroadcastAddsOne(before: map<ReaderId, seq<Envelope>>, s: Store, envs: seq<Envelope>, e: Envelope)
    requires EachGot(before, s.inboxes, envs)
    ensures EachGot(before, Broadcast(s, e).inboxes, envs + [e])
  {
  }

  /**
   Publishers that neither overlap nor fail, starting from absent keys: the ring holds exactly
   the newest `BUFFER_SIZE` envelopes, newest first, and every subscriber got each of them once.
   */
  lemma {:induction false} SequentialStore(s: Store, events: seq<Event>)
    requires s.seqNo.None? && s.ring == []
    ensures HoldsNewest(PublishAll(s, events), Envelopes(events, 0))
    ensures EachGot(s.inboxes, PublishAll(s, events).inboxes, Envelopes(events, 0))
    decreases |events|
  {
    if events == [] {
      assert Envelopes(events, 0) == [];
    } else {
      var n := |events|;
      var most, last := events[..n - 1], events[n - 1];
      SequentialStore(s, most);
      EnvelopesSnoc(events);
      var before := PublishAll(s, most);
      PublishKeepsNewest(before, Envelopes(most, 0), last.kind, last.data);
      BroadcastAddsOne(s.inboxes, before, Envelopes(most, 0), Envelope(Some(n), last.kind, last.data));
    }
  }

  /** The ring is `envs`, newest first. */
  ghost predicate NewestFirst(ring: seq<Raw>, envs: seq<Envelope>) {
    |ring| == |envs| && forall i :: 0 <= i < |ring| ==> ring[i] == Doc(envs[|envs| - 1 - i])
  }

  lemma {:induction false} ReplayKeepsAll(ring: seq<Raw>, envs: seq<Envelope>, c: int)
    requires NewestFirst(ring, envs)
    requires forall i :: 0 <= i < |envs| ==> envs[i].Number() > c
    ensures Replay(ring, c) == envs
    decreases |ring|
  {
    if ring != [] {
      var most, last := envs[..|envs| - 1], envs[|envs| - 1];
      ReplayKeepsAll(ring[1..], most, c);
      assert ring[0] == Doc(last);
      assert envs == most + [last];
    }
  }

  lemma {:induction false} ReplayKeepsNone(ring: seq<Raw>, c: int)
    requires forall i :: 0 <= i < |ring| ==> !Keeps(ring[i], c)
    ensures Replay(ring, c) == []
    decreases |ring|
  {
    if ring != [] {
      ReplayKeepsNone(ring[1..], c);
    }
  }

  lemma {:induction false} ReplayConcat(newer: seq<Raw>, older: seq<Raw>, c: int)
    ensures Replay(newer + older, c) == Replay(older, c) + Replay(newer, c)
    decreases |newer|
  {
    if newer == [] {
      assert newer + older == older;
    } else {
      ReplayConcat(newer[1..], older, c);
      assert (newer + older)[1..] == newer[1..] + older;
    }
  }

  lemma SplitNewestFirst(ring: seq<Raw>, envs: seq<Envelope>, k: nat)
    requires NewestFirst(ring, envs) && k <= |envs|
    ensures NewestFirst(ring[..|ring| - k], envs[k..])
    ensures forall i :: |ring| - k <= i < |ring| ==> ring[i] == Doc(envs[|ring| - 1 - i])
  {
  }

  /** Of a ring of consecutive numbers `lo + 1, lo + 2, ...` the replay keeps those past `c`. */
  lemma {:induction false} ReplayOfConsecutive(ring: seq<Raw>, envs: seq<Envelope>, lo: nat, c: int)
    requires NewestFirst(ring, envs)
    requires forall i :: 0 <= i < |envs| ==> envs[i].Number() == lo + i + 1
    requires c <= lo + |envs|
    ensures Replay(ring, c) == envs[if c <= lo then 0 else c - lo..]
  {
    var k := if c <= lo then 0 else c - lo;
    SplitNewestFirst(ring, envs, k);
    var newer, older := ring[..|ring| - k], ring[|ring| - k..];
    assert ring == newer + older;
    ReplayConcat(newer, older, c);
    ReplayKeepsAll(newer, envs[k..], c);
    ReplayKeepsNone(older, c);
  }

  lemma EnvelopesFrom(events: seq<Event>, from: nat)
    requires from <= |events|
    ensures Envelopes(events, 0)[from..] == Envelopes(events, from)
  {
  }

  lemma ResumeFromNewest(s: Store, envs: seq<Envelope>, cursor: nat)
    requires HoldsNewest(s, envs) && cursor <= |envs|
    requires forall k :: 0 <= k < |envs| ==> envs[k].Number() == k + 1
    ensures var n := |envs|;
            var from := if n - cursor <= BUFFER_SIZE then cursor else n - BUFFER_SIZE;
            Resume(s, Some(cursor)).replay == envs[from..]
  {
    var lo := |envs| - |s.ring|;
    RingIsTail(s, envs);
    ReplayOfConsecutive(s.ring, envs[lo..], lo, cursor);
  }

  lemma RingIsTail(s: Store, envs: seq<Envelope>)
    requires HoldsNewest(s, envs)
    ensures s.ring[..Min(|s.ring|, BUFFER_SIZE)] == s.ring
    ensures NewestFirst(s.ring, envs[|envs| - |s.ring|..])
  {
  }

  /**
   The replay a reader gets after non-overlapping publishers: exactly the envelopes past its
   cursor that fit the ring, ascending, once each. A gap of at most `BUFFER_SIZE` is closed whole.
   */
  lemma SequentialReplay(s: Store, events: seq<Event>, cursor: nat, token: Token)
    requires s.seqNo.None? && s.ring == []
    requires cursor <= |events|
    ensures var n := |events|;
            var p := Resume(SetEpochIfAbsent(PublishAll(s, events), token), Some(cursor));
            && p.seqNo == Some(n)
            && p.replay == Envelopes(events, if n - cursor <= BUFFER_SIZE then cursor else n - BUFFER_SIZE)
  {
    SequentialStore(s, events);
    ResumeFromNewest(SetEpochIfAbsent(PublishAll(s, events), token), Envelopes(events, 0), cursor);
    EnvelopesFrom(events, if |events| - cursor <= BUFFER_SIZE then cursor else |events| - BUFFER_SIZE);
  }
}
