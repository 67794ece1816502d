/**
 The text of one event stream: the frames the server writes, and the client that reads them.

 `Parse` follows sections 9.2.5 and 9.2.6 of the WHATWG HTML Living Standard: lines end in LF, CR
 or CRLF, a blank line dispatches, a line starting with a colon is a comment. The main result is
 that parsing the stream gives back hello, the whole replay and the live events, in order.
 */
module Sse {
  import opened Text
  import opened Wrappers
  import opened Realtime

  const LF: char := '\n'
  const CR: char := '\r'
  const HELLO_KIND := "hello"

  predicate OneLine(s: string) {
    LF !in s && CR !in s
  }

  // ------------------------------------------------------------------ server

  /** `lines.append(...)` three times, then the join: each line ends in LF, a blank line closes the frame. */
  function FormatEvent(e: Envelope): string {
    (if e.id.Some? then Line("id: " + Decimal(e.id.value)) else "")
    + Line("event: " + e.kind) + Line("data: " + e.data) + "\n"
  }

  function Line(text: string): string {
    text + "\n"
  }

  function FormatComment(text: string): string {
    ": " + text + "\n" + "\n"
  }

  /** `None` is a heartbeat tick. */
  function Frame(item: Option<Envelope>): string {
    if item.Some? then FormatEvent(item.value) else FormatComment("heartbeat")
  }

  function Frames(items: seq<Option<Envelope>>): seq<string> {
    seq(|items|, i requires 0 <= i < |items| => Frame(items[i]))
  }

  function Events(es: seq<Envelope>): (r: seq<Option<Envelope>>) {
    seq(|es|, i requires 0 <= i < |es| => Some(es[i]))
  }

  function Hello(payload: string): Envelope {
    Envelope(Some(0), HELLO_KIND, payload)
  }

  function Ticks(n: nat): seq<Option<Envelope>> {
    seq(n, _ => None)
  }

  /**
   Whether the live part stops after exactly `n` frames: not past the items, a disconnected client
   or the limit, and not before one of them. `gone[k]` is the answer to the k-th disconnect check;
   the stream is followed for at most `|gone|` rounds.
   */
  predicate StopsAfter(n: nat, items: nat, gone: seq<bool>, maxMessages: Option<nat>) {
    && n <= items && n <= |gone|
    && (forall k :: 0 <= k < n ==> !gone[k])
    && (maxMessages.Some? ==> n <= maxMessages.value)
    && (n == items || n == |gone| || gone[n] || maxMessages == Some(n))
  }

  method HelloAndReplay(hello: string, replay: seq<Envelope>) returns (frames: seq<string>)
    ensures frames == Frames([Some(Hello(hello))] + Events(replay))
  {
    frames := [FormatEvent(Hello(hello))];
    ghost var out := [Some(Hello(hello))];
    for i := 0 to |replay|
      invariant out == [Some(Hello(hello))] + Events(replay)[..i]
      invariant frames == Frames(out)
    {
      FramesSnoc(out, Some(replay[i]));
      frames := frames + [FormatEvent(replay[i])];
      out := out + [Some(replay[i])];
    }
    assert Events(replay)[..|replay|] == Events(replay);
  }

  /**
   The core generator: hello, then the replay, then live items until they end, the client leaves or
   `maxMessages` frames are out. `messages` is `None` when Redis is off: heartbeats only.
   */
  method SseResponseStream(hello: string, replay: seq<Envelope>,
                           messages: Option<seq<Option<Envelope>>>,
                           gone: seq<bool>, maxMessages: Option<nat>)
    returns (frames: seq<string>, delivered: nat)
    ensures var live := messages.GetOr(Ticks(|gone|));
            && StopsAfter(delivered, |live|, gone, maxMessages)
            && frames == Frames([Some(Hello(hello))] + Events(replay) + live[..delivered])
  {
    frames := HelloAndReplay(hello, replay);
    delivered := 0;
    ghost var head, live := [Some(Hello(hello))] + Events(replay), messages.GetOr(Ticks(|gone|));
    assert head + live[..0] == head;
    if maxMessages == Some(0) {
      return;
    }
    if messages.None? {
      while delivered < |gone| && (maxMessages.None? || delivered < maxMessages.value)
        invariant delivered <= |gone| && (maxMessages.Some? ==> delivered <= maxMessages.value)
        invariant forall k :: 0 <= k < delivered ==> !gone[k]
        invariant frames == Frames(head + live[..delivered])
      {
        if gone[delivered] {
          return;
        }
        frames := frames + [FormatComment("heartbeat")];
        NextFrame(head, live, delivered);
        delivered := delivered + 1;
      }
      return;
    }
    while delivered < |messages.value| && delivered < |gone|
      invariant delivered <= |messages.value| && delivered <= |gone|
      invariant maxMessages.Some? ==> delivered < maxMessages.value
      invariant forall k :: 0 <= k < delivered ==> !gone[k]
      invariant frames == Frames(head + live[..delivered])
    {
      var item := messages.value[delivered];
      if gone[delivered] {
        return;
      }
      if item.None? {
        frames := frames + [FormatComment("heartbeat")];
      } else {
        frames := frames + [FormatEvent(item.value)];
      }
      NextFrame(head, live, delivered);
      delivered := delivered + 1;
      if maxMessages.Some? && delivered >= maxMessages.value {
        return;
      }
    }
  }

  lemma FramesSnoc(items: seq<Option<Envelope>>, item: Option<Envelope>)
    ensures Frames(items + [item]) == Frames(items) + [Frame(item)]
  {
  }

  lemma NextFrame(head: seq<Option<Envelope>>, live: seq<Option<Envelope>>, i: nat)
    requires i < |live|
    ensures Frames(head + live[..i + 1]) == Frames(head + live[..i]) + [Frame(live[i])]
  {
    assert head + live[..i + 1] == (head + live[..i]) + [live[i]];
    FramesSnoc(head + live[..i], live[i]);
  }

  /** The stopping point is determined by the inputs. */
  lemma StopsOnce(n: nat, m: nat, items: nat, gone: seq<bool>, maxMessages: Option<nat>)
    requires StopsAfter(n, items, gone, maxMessages) && StopsAfter(m, items, gone, maxMessages)
    ensures n == m
  {
  }

  // ------------------------------------------------------------------ client

  datatype Msg = Msg(lastId: string, kind: string, data: string)

  /** The three buffers of the standard's parser. */
  datatype Buffers = Buffers(data: string, kind: string, lastId: string)

  datatype Step = Step(next: Buffers, out: seq<Msg>)

  function ColonAt(line: string): nat {
    if line == "" || line[0] == ':' then 0 else 1 + ColonAt(line[1..])
  }

  /** A line split at its first colon, one space after the colon dropped. */
  function Field(line: string): (string, string) {
    var k := ColonAt(line);
    if k >= |line| then (line, "")
    else
      var value := line[k + 1..];
      (line[..k], if value != "" && value[0] == ' ' then value[1..] else value)
  }

  function Dispatch(b: Buffers): Step {
    if b.data == "" then Step(Buffers("", "", b.lastId), [])
    else
      var last := |b.data| - 1;
      var data := if b.data[last] == LF then b.data[..last] else b.data;
      Step(Buffers("", "", b.lastId), [Msg(b.lastId, if b.kind == "" then "message" else b.kind, data)])
  }

  function ProcessLine(line: string, b: Buffers): Step {
    if line == "" then Dispatch(b)
    else if line[0] == ':' then Step(b, [])
    else
      var (name, value) := Field(line);
      if name == "event" then Step(b.(kind := value), [])
      else if name == "data" then Step(b.(data := b.data + value + [LF]), [])
      else if name == "id" && '\0' !in value then Step(b.(lastId := value), [])
      else Step(b, [])
  }

  /** `line` is the unfinished line read so far; at the end of the stream it is discarded. */
  function ParseFrom(stream: string, line: string, b: Buffers): seq<Msg>
    decreases |stream|
  {
    if stream == "" then []
    else if stream[0] == LF || stream[0] == CR then
      var step := ProcessLine(line, b);
      var rest := if stream[0] == CR && |stream| > 1 && stream[1] == LF then stream[2..] else stream[1..];
      step.out + ParseFrom(rest, "", step.next)
    else ParseFrom(stream[1..], line + [stream[0]], b)
  }

  function Parse(stream: string): seq<Msg> {
    ParseFrom(stream, "", Buffers("", "", ""))
  }

  // ------------------------------------------------------------- what it means

  function Concat(frames: seq<string>): string {
    if frames == [] then "" else frames[0] + Concat(frames[1..])
  }

  /** What a client should see of the items: heartbeats vanish, an event without an id keeps the last one. */
  function Seen(items: seq<Option<Envelope>>, lastId: string): seq<Msg> {
    if items == [] then []
    else if items[0].None? then Seen(items[1..], lastId)
    else
      var e := items[0].value;
      var id := if e.id.Some? then Decimal(e.id.value) else lastId;
      [Msg(id, if e.kind == "" then "message" else e.kind, e.data)] + Seen(items[1..], id)
  }

  predicate Sendable(items: seq<Option<Envelope>>) {
    forall i :: 0 <= i < |items| && items[i].Some? ==>
      OneLine(items[i].value.kind) && OneLine(items[i].value.data)
  }

  lemma {:induction false} ParseText(text: string, rest: string, line: string, b: Buffers)
    requires OneLine(text)
    ensures ParseFrom(text + rest, line, b) == ParseFrom(rest, line + text, b)
    decreases |text|
  {
    if text == "" {
      assert text + rest == rest && line + text == line;
    } else {
      assert (text + rest)[0] == text[0] && (text + rest)[1..] == text[1..] + rest;
      ParseText(text[1..], rest, line + [text[0]], b);
      assert line + [text[0]] + text[1..] == line + text;
    }
  }

  lemma ParseLine(text: string, rest: string, b: Buffers)
    requires OneLine(text)
    ensures ParseFrom(text + "\n" + rest, "", b)
         == ProcessLine(text, b).out + ParseFrom(rest, "", ProcessLine(text, b).next)
  {
    assert text + "\n" + rest == text + ("\n" + rest);
    ParseText(text, "\n" + rest, "", b);
    assert "" + text == text;
    assert ("\n" + rest)[0] == LF && ("\n" + rest)[1..] == rest;
  }

  lemma {:induction false} ColonAfter(name: string, rest: string)
    requires ':' !in name
    ensures ColonAt(name + ":" + rest) == |name|
    decreases |name|
  {
    if name != "" {
      assert (name + ":" + rest)[1..] == name[1..] + ":" + rest;
      ColonAfter(name[1..], rest);
    }
  }

  lemma FieldOf(name: string, value: string)
    requires ':' !in name && name != ""
    ensures Field(name + ": " + value) == (name, value)
    ensures (name + ": " + value)[0] != ':'
  {
    var line := name + ": " + value;
    assert line == name + ":" + (" " + value);
    ColonAfter(name, " " + value);
    assert line[|name| + 1..] == " " + value;
    assert line[..|name|] == name;
    assert (" " + value)[1..] == value;
  }

  lemma IdLine(n: nat, rest: string, b: Buffers)
    ensures ParseFrom(Line("id: " + Decimal(n)) + rest, "", b)
         == ParseFrom(rest, "", b.(lastId := Decimal(n)))
  {
    FieldOf("id", Decimal(n));
    assert "id: " + Decimal(n) == "id" + ": " + Decimal(n);
    ParseLine("id: " + Decimal(n), rest, b);
  }

  lemma EventLine(kind: string, rest: string, b: Buffers)
    requires OneLine(kind)
    ensures ParseFrom(Line("event: " + kind) + rest, "", b) == ParseFrom(rest, "", b.(kind := kind))
  {
    FieldOf("event", kind);
    assert "event: " + kind == "event" + ": " + kind;
    ParseLine("event: " + kind, rest, b);
  }

  lemma {:induction false} DataLine(data: string, rest: string, b: Buffers)
    requires OneLine(data)
    ensures ParseFrom(Line("data: " + data) + rest, "", b)
         == ParseFrom(rest, "", b.(data := b.data + data + [LF]))
  {
    FieldOf("data", data);
    assert "data: " + data == "data" + ": " + data;
    ParseLine("data: " + data, rest, b);
  }

  lemma BlankLine(rest: string, b: Buffers)
    ensures ParseFrom("\n" + rest, "", b) == Dispatch(b).out + ParseFrom(rest, "", Dispatch(b).next)
  {
  }

  lemma HeartbeatFrame(rest: string, lastId: string)
    ensures var b := Buffers("", "", lastId);
            ParseFrom(FormatComment("heartbeat") + rest, "", b) == ParseFrom(rest, "", b)
  {
    var b := Buffers("", "", lastId);
    var text := ": heartbeat";
    assert FormatComment("heartbeat") + rest == text + "\n" + ("\n" + rest);
    ParseLine(text, "\n" + rest, b);
    BlankLine(rest, b);
  }

  lemma Regroup(a: string, b: string, c: string, d: string, rest: string)
    ensures a + b + c + d + rest == a + (b + (c + (d + rest)))
  {
  }

  lemma FrameEnd(e: Envelope, rest: string, id: string)
    requires OneLine(e.kind) && OneLine(e.data)
    ensures var tail := Line("event: " + e.kind) + (Line("data: " + e.data) + ("\n" + rest));
            var msg := Msg(id, if e.kind == "" then "message" else e.kind, e.data);
            ParseFrom(tail, "", Buffers("", "", id)) == [msg] + ParseFrom(rest, "", Buffers("", "", id))
  {
    var b := Buffers("", "", id);
    EventLine(e.kind, Line("data: " + e.data) + ("\n" + rest), b);
    DataLine(e.data, "\n" + rest, b.(kind := e.kind));
    var full := Buffers("" + e.data + [LF], e.kind, id);
    BlankLine(rest, full);
    assert full.data[..|full.data| - 1] == e.data;
  }

  /** One event frame read from clean buffers dispatches that event and leaves clean buffers. */
  lemma EventFrame(e: Envelope, rest: string, lastId: string)
    requires OneLine(e.kind) && OneLine(e.data)
    ensures var id := if e.id.Some? then Decimal(e.id.value) else lastId;
            var msg := Msg(id, if e.kind == "" then "message" else e.kind, e.data);
            ParseFrom(FormatEvent(e) + rest, "", Buffers("", "", lastId))
              == [msg] + ParseFrom(rest, "", Buffers("", "", id))
  {
    var id := if e.id.Some? then Decimal(e.id.value) else lastId;
    var first := if e.id.Some? then Line("id: " + Decimal(e.id.value)) else "";
    var kind, data := Line("event: " + e.kind), Line("data: " + e.data);
    Regroup(first, kind, data, "\n", rest);
    var tail := kind + (data + ("\n" + rest));
    if e.id.Some? {
      IdLine(e.id.value, tail, Buffers("", "", lastId));
    } else {
      assert first + tail == tail;
    }
    FrameEnd(e, rest, id);
  }

  lemma {:induction false} FramesParse(items: seq<Option<Envelope>>, lastId: string)
    requires Sendable(items)
    ensures ParseFrom(Concat(Frames(items)), "", Buffers("", "", lastId)) == Seen(items, lastId)
    decreases |items|
  {
    if items != [] {
      assert Frames(items)[1..] == Frames(items[1..]);
      var rest := Concat(Frames(items[1..]));
      if items[0].None? {
        HeartbeatFrame(rest, lastId);
        FramesParse(items[1..], lastId);
      } else {
        var e := items[0].value;
        EventFrame(e, rest, lastId);
        FramesParse(items[1..], if e.id.Some? then Decimal(e.id.value) else lastId);
      }
    }
  }

  lemma EventsFirst(es: seq<Envelope>, rest: seq<Option<Envelope>>)
    requires es != []
    ensures Events(es) + rest != [] && (Events(es) + rest)[0] == Some(es[0])
    ensures (Events(es) + rest)[1..] == Events(es[1..]) + rest
  {
  }

  lemma {:induction false} SeenEvents(es: seq<Envelope>, rest: seq<Option<Envelope>>, lastId: string)
    requires forall i :: 0 <= i < |es| ==> es[i].id.Some?
    ensures Seen(Events(es) + rest, lastId)
         == Triples(es) + Seen(rest, if es == [] then lastId else Decimal(es[|es| - 1].id.value))
    decreases |es|
  {
    if es == [] {
      assert Events(es) + rest == rest;
    } else {
      var last := es[|es| - 1];
      EventsFirst(es, rest);
      SeenEvents(es[1..], rest, Decimal(es[0].id.value));
      assert es[1..] != [] ==> es[1..][|es[1..]| - 1] == last;
      var msg := Msg(Decimal(es[0].id.value), if es[0].kind == "" then "message" else es[0].kind, es[0].data);
      SeqAssoc([msg], Triples(es[1..]), Seen(rest, Decimal(last.id.value)));
    }
  }

  function Triples(es: seq<Envelope>): seq<Msg>
    requires forall i :: 0 <= i < |es| ==> es[i].id.Some?
  {
    if es == [] then []
    else [Msg(Decimal(es[0].id.value), if es[0].kind == "" then "message" else es[0].kind, es[0].data)]
         + Triples(es[1..])
  }

  function LiveEvents(items: seq<Option<Envelope>>): seq<Envelope> {
    if items == [] then []
    else (if items[0].Some? then [items[0].value] else []) + LiveEvents(items[1..])
  }

  lemma {:induction false} SeenLive(items: seq<Option<Envelope>>, lastId: string)
    requires forall i :: 0 <= i < |items| && items[i].Some? ==> items[i].value.id.Some?
    ensures forall i :: 0 <= i < |LiveEvents(items)| ==> LiveEvents(items)[i].id.Some?
    ensures Seen(items, lastId) == Triples(LiveEvents(items))
    decreases |items|
  {
    if items != [] {
      var id := if items[0].Some? then Decimal(items[0].value.id.value) else lastId;
      SeenLive(items[1..], id);
      if items[0].Some? {
        assert LiveEvents(items)[1..] == LiveEvents(items[1..]);
      } else {
        assert LiveEvents(items) == LiveEvents(items[1..]);
      }
    }
  }

  lemma SeenHello(hello: string, rest: seq<Option<Envelope>>)
    ensures Seen([Some(Hello(hello))] + rest, "") == [Msg("0", HELLO_KIND, hello)] + Seen(rest, "0")
  {
  }

  lemma SendableStream(hello: string, replay: seq<Envelope>, live: seq<Option<Envelope>>)
    requires OneLine(hello)
    requires Sendable(Events(replay)) && Sendable(live)
    ensures Sendable([Some(Hello(hello))] + Events(replay) + live)
  {
    assert OneLine(HELLO_KIND);
  }

  lemma SeqAssoc<T>(a: seq<T>, b: seq<T>, c: seq<T>)
    ensures a + b + c == a + (b + c)
  {
  }

  lemma {:induction false} SeenStream(hello: string, replay: seq<Envelope>, live: seq<Option<Envelope>>)
    requires forall i :: 0 <= i < |replay| ==> replay[i].id.Some?
    requires forall i :: 0 <= i < |live| && live[i].Some? ==> live[i].value.id.Some?
    ensures forall i :: 0 <= i < |LiveEvents(live)| ==> LiveEvents(live)[i].id.Some?
    ensures Seen([Some(Hello(hello))] + Events(replay) + live, "")
         == [Msg("0", HELLO_KIND, hello)] + Triples(replay) + Triples(LiveEvents(live))
  {
    SeqAssoc([Some(Hello(hello))], Events(replay), live);
    SeenHello(hello, Events(replay) + live);
    SeenEvents(replay, live, "0");
    SeenLive(live, if replay == [] then "0" else Decimal(replay[|replay| - 1].id.value));
    SeqAssoc([Msg("0", HELLO_KIND, hello)], Triples(replay), Triples(LiveEvents(live)));
  }

  /**
   The client's view of a whole stream: hello with id 0, every replayed event in order, then every
   live event in arrival order; heartbeats leave no trace.
   */
  lemma {:induction false} StreamRoundTrip(hello: string, replay: seq<Envelope>, live: seq<Option<Envelope>>)
    requires OneLine(hello)
    requires Sendable(Events(replay)) && Sendable(live)
    requires forall i :: 0 <= i < |replay| ==> replay[i].id.Some?
    requires forall i :: 0 <= i < |live| && live[i].Some? ==> live[i].value.id.Some?
    ensures forall i :: 0 <= i < |LiveEvents(live)| ==> LiveEvents(live)[i].id.Some?
    ensures Parse(Concat(Frames([Some(Hello(hello))] + Events(replay) + live)))
         == [Msg("0", "hello", hello)] + Triples(replay) + Triples(LiveEvents(live))
  {
    var items := [Some(Hello(hello))] + Events(replay) + live;
    SendableStream(hello, replay, live);
    FramesParse(items, "");
    SeenStream(hello, replay, live);
  }
}
