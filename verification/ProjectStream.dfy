/**
 One reader's whole response: subscribe, read the resume point, greet, replay, go live, and after a
 Redis failure stay connected in degraded mode.

 The end-to-end result runs from the publishers' commands to the events a browser parses.
 */
module ProjectStream {
  import opened Wrappers
  import opened Realtime
  import opened Sse

  datatype Backend = Redis | Degraded

  /** The body of the `hello` event, before it is written as JSON. */
  datatype Greeting = Greeting(slug: string, backend: Backend, seqNo: Option<nat>, epoch: Option<Token>, bufferSize: nat)

  function HelloPayload(slug: string, backend: Backend, point: ResumePoint): Greeting {
    Greeting(slug, backend, point.seqNo, point.epoch, BUFFER_SIZE)
  }

  const NoPoint := ResumePoint(None, None, [])

  function Subscribed(s: Store, r: ReaderId): Store {
    s.(inboxes := s.inboxes[r := []])
  }

  /** The degraded stream that follows a live one: none after a frame limit or for a client that left. */
  function Afterwards(hello: string, follows: bool, ticks: nat): seq<Option<Envelope>> {
    if follows then [Some(Hello(hello))] + Ticks(ticks) else []
  }

  /**
   `project_response_stream`. `up` says whether the subscription opened, `reachable` whether the read
   succeeded, `live` is what the subscription delivers until Redis fails, `gone` and `later` answer the
   disconnect checks of the two streams, one for every live item at least, `left` the one between them.
   */
  method ProjectResponseStream(redis: ProjectRedis, r: ReaderId, slug: string, dump: Greeting -> string,
                               lastEventId: Option<int>, token: Token, up: bool, reachable: bool,
                               live: seq<Option<Envelope>>, gone: seq<bool>, left: bool, later: seq<bool>,
                               maxMessages: Option<nat>)
    returns (frames: seq<string>, delivered: nat, ticks: nat)
    requires up ==> |gone| >= |live|
    modifies redis
    ensures redis.View() == if !up then old(redis.View())
                            else if !reachable then Subscribed(old(redis.View()), r)
                            else SetEpochIfAbsent(Subscribed(old(redis.View()), r), token)
    ensures var items := if up then live else Ticks(|gone|);
            var read := up && reachable;
            var greeting := Greeting(slug, if up then Redis else Degraded,
                                     if read then Some(redis.View().Seq()) else None,
                                     if read then redis.View().epoch else None, 50);
            var replay := if read then Resume(redis.View(), lastEventId).replay else [];
            var again := up && maxMessages.None? && !left;
            && (read ==> redis.View().epoch.Some?)
            && StopsAfter(delivered, |items|, gone, maxMessages)
            && (again ==> StopsAfter(ticks, |later|, later, None))
            && frames == Frames([Some(Hello(dump(greeting)))] + Events(replay)
                                + (items[..delivered]
                                   + Afterwards(dump(Greeting(slug, Degraded, None, None, 50)), again, ticks)))
    ensures up && maxMessages.None? && !left && (forall k :: 0 <= k < |gone| ==> !gone[k]) ==> delivered == |live|
  {
    var point := NoPoint;
    ticks := 0;
    if up {
      redis.Subscribe(r);
      point := redis.ReadResumePoint(lastEventId, token, reachable);
    }
    var hello := dump(HelloPayload(slug, if up then Redis else Degraded, point));
    frames, delivered := SseResponseStream(hello, point.replay, if up then Some(live) else None, gone, maxMessages);
    ghost var head := [Some(Hello(hello))] + Events(point.replay);
    ghost var shown := (if up then live else Ticks(|gone|))[..delivered];
    if up && maxMessages.None? && !left {
      var degraded := dump(HelloPayload(slug, Degraded, NoPoint));
      var more: seq<string>;
      more, ticks := SseResponseStream(degraded, [], None, later, None);
      frames := frames + more;
      DegradedPart(degraded, |later|, ticks);
      FramesConcat(head + shown, Afterwards(degraded, true, ticks));
      SeqAssoc(head, shown, Afterwards(degraded, true, ticks));
    } else {
      assert shown + [] == shown;
    }
  }

  lemma DegradedPart(hello: string, n: nat, ticks: nat)
    requires ticks <= n
    ensures [Some(Hello(hello))] + Events([]) + Ticks(n)[..ticks] == Afterwards(hello, true, ticks)
  {
  }

  lemma FramesConcat(a: seq<Option<Envelope>>, b: seq<Option<Envelope>>)
    ensures Frames(a + b) == Frames(a) + Frames(b)
  {
  }

  // -------------------------------------------------------------- from end to end

  /** Envelopes numbered from `base + 1`. */
  function Numbered(events: seq<Event>, base: nat): seq<Envelope> {
    seq(|events|, i requires 0 <= i < |events| => Envelope(Some(base + i + 1), events[i].kind, events[i].data))
  }

  lemma NumberedSnoc(events: seq<Event>, last: Event, base: nat)
    ensures Numbered(events + [last], base)
         == Numbered(events, base) + [Envelope(Some(base + |events| + 1), last.kind, last.data)]
  {
  }

  lemma NumberedConcat(a: seq<Event>, b: seq<Event>, base: nat)
    ensures Numbered(a + b, base) == Numbered(a, base) + Numbered(b, base + |a|)
  {
  }

  /** Publishes in a row, from any store whose ring is the newest of what was published before. */
  lemma {:induction false} PublishOn(s: Store, envs: seq<Envelope>, events: seq<Event>)
    requires HoldsNewest(s, envs)
    ensures HoldsNewest(PublishAll(s, events), envs + Numbered(events, |envs|))
    ensures EachGot(s.inboxes, PublishAll(s, events).inboxes, Numbered(events, |envs|))
    decreases |events|
  {
    if events == [] {
      assert envs + [] == envs && Numbered([], |envs|) == [];
    } else {
      var most, last := events[..|events| - 1], events[|events| - 1];
      assert events == most + [last];
      PublishOn(s, envs, most);
      NumberedSnoc(most, last, |envs|);
      var so := Numbered(most, |envs|);
      var e := Envelope(Some(|envs| + |most| + 1), last.kind, last.data);
      PublishKeepsNewest(PublishAll(s, most), envs + so, last.kind, last.data);
      BroadcastAddsOne(s.inboxes, PublishAll(s, most), so, e);
      SeqAssoc(envs, so, [e]);
    }
  }

  predicate Plain(events: seq<Event>) {
    forall i :: 0 <= i < |events| ==> events[i].kind != "" && OneLine(events[i].kind) && OneLine(events[i].data)
  }

  /** The stores of a reader that subscribes after `before`, and reads after `between`. */
  function AtRead(s: Store, r: ReaderId, before: seq<Event>, between: seq<Event>, token: Token): Store {
    SetEpochIfAbsent(PublishAll(Subscribed(PublishAll(s, before), r), between), token)
  }

  /** What waits on a reader's subscription. */
  function Inbox(s: Store, r: ReaderId): seq<Envelope> {
    if r in s.inboxes then s.inboxes[r] else []
  }

  lemma InboxGets(s: Store, r: ReaderId, envs: seq<Envelope>, events: seq<Event>)
    requires HoldsNewest(s, envs) && r in s.inboxes
    ensures r in PublishAll(s, events).inboxes
    ensures Inbox(PublishAll(s, events), r) == Inbox(s, r) + Numbered(events, |envs|)
  {
    PublishOn(s, envs, events);
  }

  /** Channels and the epoch are no part of the sequence. */
  lemma SameSequence(s: Store, t: Store, envs: seq<Envelope>)
    requires HoldsNewest(s, envs) && t.seqNo == s.seqNo && t.ring == s.ring
    ensures HoldsNewest(t, envs)
  {
  }

  lemma {:induction false} SubscribePhase(s: Store, r: ReaderId, before: seq<Event>)
    requires s.seqNo.None? && s.ring == []
    ensures HoldsNewest(Subscribed(PublishAll(s, before), r), Numbered(before, 0))
  {
    PublishOn(s, [], before);
    assert [] + Numbered(before, 0) == Numbered(before, 0);
    SameSequence(PublishAll(s, before), Subscribed(PublishAll(s, before), r), Numbered(before, 0));
  }

  /** When the reader reads: all of `before` and `between` is in the sequence, `between` on its channel. */
  lemma ReadPhase(s: Store, r: ReaderId, before: seq<Event>, between: seq<Event>, token: Token)
    requires s.seqNo.None? && s.ring == []
    ensures HoldsNewest(AtRead(s, r, before, between, token), Numbered(before + between, 0))
    ensures r in AtRead(s, r, before, between, token).inboxes
    ensures Inbox(AtRead(s, r, before, between, token), r) == Numbered(between, |before|)
  {
    SubscribePhase(s, r, before);
    ReadFrom(Subscribed(PublishAll(s, before), r), r, Numbered(before, 0), between, token);
    NumberedConcat(before, between, 0);
  }

  lemma {:induction false} ReadFrom(s: Store, r: ReaderId, envs: seq<Envelope>, between: seq<Event>, token: Token)
    requires HoldsNewest(s, envs) && r in s.inboxes && s.inboxes[r] == []
    ensures var read := SetEpochIfAbsent(PublishAll(s, between), token);
            && HoldsNewest(read, envs + Numbered(between, |envs|))
            && r in read.inboxes && Inbox(read, r) == Numbered(between, |envs|)
  {
    var s3 := PublishAll(s, between);
    PublishOn(s, envs, between);
    InboxGets(s, r, envs, between);
    NothingBefore(Numbered(between, |envs|));
    SameSequence(s3, SetEpochIfAbsent(s3, token), envs + Numbered(between, |envs|));
  }

  lemma NothingBefore<T>(xs: seq<T>)
    ensures [] + xs == xs
  {
  }

  lemma ResumeAfter(s: Store, events: seq<Event>, cursor: nat)
    requires HoldsNewest(s, Numbered(events, 0))
    requires cursor <= |events| <= cursor + BUFFER_SIZE
    ensures Resume(s, Some(cursor)).seqNo == Some(|events|)
    ensures Resume(s, Some(cursor)).replay == Numbered(events[cursor..], cursor)
  {
    ResumeFromNewest(s, Numbered(events, 0), cursor);
    assert Numbered(events, 0)[cursor..] == Numbered(events[cursor..], cursor);
  }

  /** The read promises `seq`; the replay is what lies past the cursor; the channel has the rest. */
  lemma ReaderGets(s: Store, r: ReaderId, before: seq<Event>, between: seq<Event>, after: seq<Event>,
                   cursor: nat, token: Token)
    requires s.seqNo.None? && s.ring == []
    requires cursor <= |before + between| <= cursor + BUFFER_SIZE
    ensures var read := AtRead(s, r, before, between, token);
            && Resume(read, Some(cursor)).seqNo == Some(|before + between|)
            && Resume(read, Some(cursor)).replay == Numbered((before + between)[cursor..], cursor)
            && Inbox(PublishAll(read, after), r) == Numbered(between + after, |before|)
  {
    var read := AtRead(s, r, before, between, token);
    ReadPhase(s, r, before, between, token);
    ResumeAfter(read, before + between, cursor);
    InboxGets(read, r, Numbered(before + between, 0), after);
    NumberedConcat(between, after, |before|);
  }

  lemma NumberedIsPlain(events: seq<Event>, base: nat)
    requires Plain(events)
    ensures Sendable(Events(Numbered(events, base)))
    ensures forall i :: 0 <= i < |Numbered(events, base)| ==> Numbered(events, base)[i].id.Some?
  {
  }

  /** Heartbeats aside, `live` is what the channel carried. */
  lemma {:induction false} LiveIsPlain(live: seq<Option<Envelope>>)
    requires Sendable(Events(LiveEvents(live)))
    requires forall i :: 0 <= i < |LiveEvents(live)| ==> LiveEvents(live)[i].id.Some?
    ensures Sendable(live)
    ensures forall i :: 0 <= i < |live| && live[i].Some? ==> live[i].value.id.Some?
    decreases |live|
  {
    if live != [] {
      var rest := LiveEvents(live[1..]);
      if live[0].Some? {
        assert LiveEvents(live) == [live[0].value] + rest;
        forall i | 0 <= i < |rest|
          ensures Events(rest)[i] == Events(LiveEvents(live))[i + 1] && rest[i] == LiveEvents(live)[i + 1]
        {
        }
        assert Events(LiveEvents(live))[0] == live[0];
      } else {
        assert LiveEvents(live) == rest;
      }
      LiveIsPlain(live[1..]);
      assert live == [live[0]] + live[1..];
    }
  }

  /**
   Publishers that do not overlap or fail, a reader whose gap the ring covers, and any pattern of
   heartbeats: the browser parses hello, then every id past its cursor up to the sequence number hello
   promised, then every id since it subscribed. No id past the cursor is missing; those published
   between the subscription and the read are the only ones that come twice.
   */
  lemma {:induction false} BrowserSeesEveryId(s: Store, r: ReaderId, before: seq<Event>, between: seq<Event>,
                                              after: seq<Event>, cursor: nat, token: Token, hello: string,
                                              live: seq<Option<Envelope>>)
    requires s.seqNo.None? && s.ring == []
    requires cursor <= |before + between| <= cursor + BUFFER_SIZE
    requires OneLine(hello) && Plain(before) && Plain(between) && Plain(after)
    requires LiveEvents(live) == Inbox(PublishAll(AtRead(s, r, before, between, token), after), r)
    ensures var replayed, delivered := Numbered((before + between)[cursor..], cursor), Numbered(between + after, |before|);
            && (forall i :: 0 <= i < |replayed| ==> replayed[i].id.Some?)
            && (forall i :: 0 <= i < |delivered| ==> delivered[i].id.Some?)
            && Parse(Concat(Frames([Some(Hello(hello))]
                                   + Events(Resume(AtRead(s, r, before, between, token), Some(cursor)).replay) + live)))
               == [Msg("0", "hello", hello)] + Triples(replayed) + Triples(delivered)
  {
    var replayed := Numbered((before + between)[cursor..], cursor);
    ReaderGets(s, r, before, between, after, cursor, token);
    NumberedIsPlain((before + between)[cursor..], cursor);
    NumberedIsPlain(between + after, |before|);
    LiveIsPlain(live);
    StreamRoundTrip(hello, replayed, live);
  }
}
