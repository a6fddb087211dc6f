/** The receiving side of the protocol: `ReadLoop` as a parser of the byte stream, and the proof
    that it undoes the serialisation of `SendFrame`. */
module Framing {
  import opened BigEndian
  import opened Sequences
  import opened Wire

  /** What the loop does with one frame: answer a ping, ignore a pong, or call a handler. */
  datatype Event =
    | PingReceived(version: nat)
    | PongReceived(version: nat)
    | HandlerCalled(service: nat, version: nat, body: seq<Byte>)

  /** Why the loop is not reading further: it waits for bytes, or it has shut the session down. */
  datatype Stop =
    | AwaitHeader
    | AwaitBody
    | UnknownService
    | UnsupportedVersion
    | PingWithBody
    | BadBodySize
    | HandlerFailed
  {
    predicate Waiting() {
      AwaitHeader? || AwaitBody?
    }
  }

  datatype Step =
    | Stopped(stop: Stop)
    | Accepted(event: Event, size: nat)

  datatype Outcome = Outcome(events: seq<Event>, stop: Stop, consumed: nat)

  /** One turn of the loop on the bytes not yet read. */
  function Next(s: seq<Byte>): (r: Step)
    ensures r.Accepted? ==> HEADER_SIZE <= r.size <= |s|
  {
    if |s| < HEADER_SIZE then Stopped(AwaitHeader) else
    var service, size, version := Decode(s[..4]), Decode(s[4..8]), Decode(s[8..10]);
    if service >= TYPE_CNT then Stopped(UnknownService)
    else if !IsSupported(service, version) then Stopped(UnsupportedVersion)
    else if service == PING || service == PONG then
      if size != 0 then Stopped(PingWithBody)
      else Accepted(if service == PING then PingReceived(version) else PongReceived(version), HEADER_SIZE)
    else if size == 0 || size > MAX_BODY_SIZE then Stopped(BadBodySize)
    else if |s| < HEADER_SIZE + size then Stopped(AwaitBody)
    else Accepted(HandlerCalled(service, version, s[HEADER_SIZE..HEADER_SIZE + size]), HEADER_SIZE + size)
  }

  /** The whole loop.  `fails(i)` says whether the i-th handler call throws. */
  function Parse(s: seq<Byte>, fails: nat -> bool, calls: nat): Outcome
    decreases |s|
  {
    match Next(s)
    case Stopped(stop) => Outcome([], stop, 0)
    case Accepted(e, n) =>
      if e.HandlerCalled? && fails(calls) then Outcome([e], HandlerFailed, n) else
      var rest := Parse(s[n..], fails, CallsAfter(e, calls));
      Outcome([e] + rest.events, rest.stop, n + rest.consumed)
  }

  function CallsAfter(e: Event, calls: nat): nat {
    if e.HandlerCalled? then calls + 1 else calls
  }

  function EventOf(f: Frame): Event {
    if f.service == PING then PingReceived(f.version)
    else if f.service == PONG then PongReceived(f.version)
    else HandlerCalled(f.service, f.version, f.body)
  }

  function CallsAfterAll(fs: seq<Frame>, calls: nat): nat {
    if fs == [] then calls else CallsAfterAll(fs[1..], CallsAfter(EventOf(fs[0]), calls))
  }

  function FrameOf(e: Event): Frame {
    match e
    case PingReceived(v) => Frame(PING, v, [])
    case PongReceived(v) => Frame(PONG, v, [])
    case HandlerCalled(s, v, body) => Frame(s, v, body)
  }

  function EventsOf(fs: seq<Frame>): (es: seq<Event>)
    ensures |es| == |fs| && forall i :: 0 <= i < |fs| ==> es[i] == EventOf(fs[i])
  {
    seq(|fs|, i requires 0 <= i < |fs| => EventOf(fs[i]))
  }

  function FramesOf(es: seq<Event>): (fs: seq<Frame>)
    ensures |fs| == |es| && forall i :: 0 <= i < |es| ==> fs[i] == FrameOf(es[i])
  {
    seq(|es|, i requires 0 <= i < |es| => FrameOf(es[i]))
  }

  // ---------- The loop ----------

  lemma Slices(stream: seq<Byte>, pos: nat, i: nat, j: nat)
    requires pos <= |stream| && i <= j && pos + j <= |stream|
    ensures stream[pos..][i..j] == stream[pos + i..pos + j]
    ensures stream[pos..][j..] == stream[pos + j..]
  {
  }

  /** Reading one frame at `pos` of the stream received so far: header, checks, body. */
  method ReadFrame(stream: seq<Byte>, pos: nat) returns (r: Step)
    requires pos <= |stream|
    ensures r == Next(stream[pos..])
  {
    hide Decode;
    if |stream| - pos < HEADER_SIZE {
      return Stopped(AwaitHeader);
    }
    Slices(stream, pos, 0, 4);
    Slices(stream, pos, 4, 8);
    Slices(stream, pos, 8, 10);
    var service := Decode(stream[pos..pos + 4]);
    var size := Decode(stream[pos + 4..pos + 8]);
    var version := Decode(stream[pos + 8..pos + 10]);
    if service >= TYPE_CNT {
      return Stopped(UnknownService);
    }
    if !IsSupported(service, version) {
      return Stopped(UnsupportedVersion);
    }
    if service == PING || service == PONG {
      if size != 0 {
        return Stopped(PingWithBody);
      }
      return Accepted(if service == PING then PingReceived(version) else PongReceived(version), HEADER_SIZE);
    }
    if size == 0 || size > MAX_BODY_SIZE {
      return Stopped(BadBodySize);
    }
    if |stream| - pos - HEADER_SIZE < size {
      return Stopped(AwaitBody);
    }
    Slices(stream, pos, HEADER_SIZE, HEADER_SIZE + size);
    var body := stream[pos + HEADER_SIZE..pos + HEADER_SIZE + size];
    r := Accepted(HandlerCalled(service, version, body), HEADER_SIZE + size);
  }

  /** What the loop ends with, given what it has done up to `pos` and what the rest gives. */
  function Continue(events: seq<Event>, pos: nat, rest: Outcome): Outcome {
    Outcome(events + rest.events, rest.stop, pos + rest.consumed)
  }

  lemma LoopPass(stream: seq<Byte>, events: seq<Event>, pos: nat, fails: nat -> bool, calls: nat)
    requires pos <= |stream|
    ensures var step := Next(stream[pos..]);
      Continue(events, pos, Parse(stream[pos..], fails, calls)) ==
        if step.Stopped? then Outcome(events, step.stop, pos)
        else if step.event.HandlerCalled? && fails(calls) then
          Outcome(events + [step.event], HandlerFailed, pos + step.size)
        else Continue(events + [step.event], pos + step.size,
                      Parse(stream[pos + step.size..], fails, CallsAfter(step.event, calls)))
  {
    hide Next;
    var step := Next(stream[pos..]);
    if step.Accepted? {
      Slices(stream, pos, step.size, step.size);
      var rest := Parse(stream[pos + step.size..], fails, CallsAfter(step.event, calls));
      Associative(events, [step.event], rest.events);
    }
  }

  /** `ReadLoop` over everything received so far. */
  method ReadLoop(stream: seq<Byte>, fails: nat -> bool) returns (r: Outcome)
    ensures r == Parse(stream, fails, 0)
  {
    hide Next, Parse;
    var events: seq<Event> := [];
    var pos, calls := 0, 0;
    assert stream[0..] == stream;
    ghost var all := Parse(stream, fails, 0);
    assert Continue([], 0, all) == all;
    while true
      invariant pos <= |stream|
      invariant Continue(events, pos, Parse(stream[pos..], fails, calls)) == all
      decreases |stream| - pos
    {
      LoopPass(stream, events, pos, fails, calls);
      var step := ReadFrame(stream, pos);
      if step.Stopped? {
        return Outcome(events, step.stop, pos);
      }
      var e := step.event;
      events := events + [e];
      pos := pos + step.size;
      if e.HandlerCalled? {
        if fails(calls) {
          return Outcome(events, HandlerFailed, pos);
        }
        calls := calls + 1;
      }
    }
  }

  // ---------- Round trips ----------

  /** The parser's step on a serialised frame followed by anything. */
  lemma NextOfSerialized(f: Frame, rest: seq<Byte>)
    requires WellFormed(f)
    ensures Next(Serialize(f) + rest) == Accepted(EventOf(f), |Serialize(f)|)
  {
    hide Encode, Decode;
    var s := Serialize(f) + rest;
    assert s[..4] == Encode(f.service, 4);
    assert s[4..8] == Encode(|f.body| % 0x1_0000_0000, 4);
    assert s[8..10] == Encode(f.version, 2);
    WordSizes();
    DecodeEncode(f.service, 4);
    DecodeEncode(|f.body|, 4);
    DecodeEncode(f.version, 2);
    assert s[HEADER_SIZE..HEADER_SIZE + |f.body|] == f.body;
  }

  lemma ParseFirst(f: Frame, tail: seq<Byte>, fails: nat -> bool, calls: nat)
    requires WellFormed(f) && forall i: nat :: !fails(i)
    ensures var e := EventOf(f);
      var rest := Parse(tail, fails, CallsAfter(e, calls));
      Parse(Serialize(f) + tail, fails, calls) == Outcome([e] + rest.events, rest.stop, |Serialize(f)| + rest.consumed)
  {
    hide Next, Serialize, EventOf;
    NextOfSerialized(f, tail);
    assert (Serialize(f) + tail)[|Serialize(f)|..] == tail;
  }

  /** Parsing what was serialised gives back exactly the frames, in order, and goes on with the
      bytes behind them. */
  lemma {:induction false} ParseSerialized(fs: seq<Frame>, rest: seq<Byte>, fails: nat -> bool, calls: nat)
    requires forall f <- fs :: WellFormed(f)
    requires forall i: nat :: !fails(i)
    ensures var after := Parse(rest, fails, CallsAfterAll(fs, calls));
      Parse(SerializeAll(fs) + rest, fails, calls)
        == Outcome(EventsOf(fs) + after.events, after.stop, |SerializeAll(fs)| + after.consumed)
  {
    hide Next, Serialize, EventOf, Parse;
    if fs == [] {
      assert SerializeAll(fs) + rest == rest;
      assert EventsOf(fs) + Parse(rest, fails, calls).events == Parse(rest, fails, calls).events;
    } else {
      var e, tail := EventOf(fs[0]), SerializeAll(fs[1..]) + rest;
      Associative(Serialize(fs[0]), SerializeAll(fs[1..]), rest);
      ParseFirst(fs[0], tail, fails, calls);
      ParseSerialized(fs[1..], rest, fails, CallsAfter(e, calls));
      var after := Parse(rest, fails, CallsAfterAll(fs, calls));
      assert [e] + EventsOf(fs[1..]) == EventsOf(fs);
      Associative([e], EventsOf(fs[1..]), after.events);
    }
  }

  /** The framing round trip: a stream of serialised well-formed frames is parsed into exactly
      those frames, all of it is consumed, and the loop waits for the next header. */
  lemma RoundTrip(fs: seq<Frame>, fails: nat -> bool)
    requires forall f <- fs :: WellFormed(f)
    requires forall i: nat :: !fails(i)
    ensures Parse(SerializeAll(fs), fails, 0) == Outcome(EventsOf(fs), AwaitHeader, |SerializeAll(fs)|)
    ensures FramesOf(EventsOf(fs)) == fs
  {
    ParseSerialized(fs, [], fails, 0);
    assert SerializeAll(fs) + [] == SerializeAll(fs);
    assert forall calls: nat :: Parse([], fails, calls) == Outcome([], AwaitHeader, 0);
    assert forall f <- fs :: FrameOf(EventOf(f)) == f;
  }

  /** What the parser accepts in one step is the serialisation of a well-formed frame. */
  lemma AcceptedIsSerialized(s: seq<Byte>)
    requires Next(s).Accepted?
    ensures var f := FrameOf(Next(s).event);
      WellFormed(f) && EventOf(f) == Next(s).event && s[..Next(s).size] == Serialize(f)
  {
    hide Encode, Decode;
    var f, n := FrameOf(Next(s).event), Next(s).size;
    EncodeDecode(s[..4]);
    EncodeDecode(s[4..8]);
    EncodeDecode(s[8..10]);
    assert |f.body| == Decode(s[4..8]);
    assert s[..n] == s[..4] + s[4..8] + s[8..10] + f.body;
  }

  lemma NoFrames()
    ensures FramesOf([]) == [] && EventsOf([]) == [] && SerializeAll([]) == []
  {
  }

  lemma FirstFrame(e: Event, rest: seq<Event>)
    ensures FramesOf([e] + rest) == [FrameOf(e)] + FramesOf(rest)
  {
  }

  lemma FirstEvent(f: Frame, fs: seq<Frame>)
    ensures EventsOf([f] + fs) == [EventOf(f)] + EventsOf(fs)
  {
  }

  lemma FirstBytes(f: Frame, fs: seq<Frame>)
    ensures SerializeAll([f] + fs) == Serialize(f) + SerializeAll(fs)
  {
    hide Serialize;
    assert ([f] + fs)[1..] == fs;
  }

  /** One accepted step in front of what the rest of the stream gave. */
  lemma FirstIsSerialized(s: seq<Byte>, events: seq<Event>, consumed: nat)
    requires Next(s).Accepted? && Next(s).size + consumed <= |s|
    requires (forall f <- FramesOf(events) :: WellFormed(f)) && EventsOf(FramesOf(events)) == events
    requires s[Next(s).size..][..consumed] == SerializeAll(FramesOf(events))
    ensures var es, n := [Next(s).event] + events, Next(s).size + consumed;
      && (forall f <- FramesOf(es) :: WellFormed(f)) && EventsOf(FramesOf(es)) == es
      && s[..n] == SerializeAll(FramesOf(es))
  {
    hide Next, Serialize, WellFormed, FramesOf, EventsOf, SerializeAll;
    AcceptedIsSerialized(s);
    var e, n := Next(s).event, Next(s).size;
    FirstFrame(e, events);
    FirstEvent(FrameOf(e), FramesOf(events));
    FirstBytes(FrameOf(e), FramesOf(events));
    assert s[..n + consumed] == s[..n] + s[n..][..consumed];
  }

  /** On arbitrary bytes, whatever the handlers do: the frames delivered are well formed (a known
      service, a supported version, a body of 1 to MAX_BODY_SIZE bytes for a handler), and the bytes
      consumed are exactly their serialisation. */
  lemma {:induction false} ParsedIsSerialized(s: seq<Byte>, fails: nat -> bool, calls: nat)
    ensures var r := Parse(s, fails, calls);
      && (forall f <- FramesOf(r.events) :: WellFormed(f))
      && EventsOf(FramesOf(r.events)) == r.events
      && r.consumed <= |s|
      && s[..r.consumed] == SerializeAll(FramesOf(r.events))
    decreases |s|
  {
    hide Next, Serialize, WellFormed, FramesOf, EventsOf, SerializeAll;
    NoFrames();
    if Next(s).Stopped? {
    } else {
      var e, n := Next(s).event, Next(s).size;
      if e.HandlerCalled? && fails(calls) {
        FirstIsSerialized(s, [], 0);
        assert [e] + [] == [e];
      } else {
        var rest := Parse(s[n..], fails, CallsAfter(e, calls));
        ParsedIsSerialized(s[n..], fails, CallsAfter(e, calls));
        FirstIsSerialized(s, rest.events, rest.consumed);
      }
    }
  }

  // ---------- Prefixes ----------

  /** More bytes do not change a step already taken. */
  lemma NextIsStable(s: seq<Byte>, more: seq<Byte>)
    requires Next(s).Accepted? || !Next(s).stop.Waiting()
    ensures Next(s + more) == Next(s)
  {
    hide Decode;
    assert (s + more)[..4] == s[..4];
    assert (s + more)[4..8] == s[4..8];
    assert (s + more)[8..10] == s[8..10];
    if Next(s).Accepted? && Next(s).event.HandlerCalled? {
      var n := Next(s).size;
      assert (s + more)[HEADER_SIZE..n] == s[HEADER_SIZE..n];
    }
  }

  /** The events on a prefix of the stream are a prefix of the events on the stream, and a session
      shut down by a prefix stays shut down for the same reason. */
  lemma {:induction false} PrefixEvents(s: seq<Byte>, more: seq<Byte>, fails: nat -> bool, calls: nat)
    ensures Parse(s, fails, calls).events <= Parse(s + more, fails, calls).events
    ensures !Parse(s, fails, calls).stop.Waiting() ==> Parse(s + more, fails, calls) == Parse(s, fails, calls)
    decreases |s|
  {
    hide Next;
    if Next(s).Stopped? {
      if !Next(s).stop.Waiting() {
        NextIsStable(s, more);
      }
    } else {
      NextIsStable(s, more);
      var e, n := Next(s).event, Next(s).size;
      assert (s + more)[n..] == s[n..] + more;
      PrefixEvents(s[n..], more, fails, CallsAfter(e, calls));
    }
  }

  /** Two lists of well-formed frames with the same bytes are the same list. */
  lemma SerializationIsInjective(fs: seq<Frame>, gs: seq<Frame>)
    requires (forall f <- fs :: WellFormed(f)) && (forall g <- gs :: WellFormed(g))
    requires SerializeAll(fs) == SerializeAll(gs)
    ensures fs == gs
  {
    RoundTrip(fs, (i: nat) => false);
    RoundTrip(gs, (i: nat) => false);
  }

  // ---------- When the loop waits and when it stops ----------

  /** Some bytes of a well-formed frame are there, and more are to come. */
  ghost predicate IsIncomplete(s: seq<Byte>) {
    exists f :: WellFormed(f) && s < Serialize(f)
  }

  /** A stream that a well-formed frame begins with, in full, is accepted. */
  lemma CompleteIsAccepted(s: seq<Byte>, f: Frame)
    requires WellFormed(f) && Serialize(f) <= s
    ensures Next(s) == Accepted(EventOf(f), |Serialize(f)|)
  {
    hide Next, Serialize, WellFormed, EventOf;
    assert s == Serialize(f) + s[|Serialize(f)|..];
    NextOfSerialized(f, s[|Serialize(f)|..]);
  }

  lemma IncompleteWaits(s: seq<Byte>, f: Frame)
    requires WellFormed(f) && s < Serialize(f)
    ensures Next(s).Stopped? && Next(s).stop.Waiting()
  {
    hide Serialize, WellFormed, EventOf;
    var whole := Serialize(f);
    assert whole + [] == whole && s + whole[|s|..] == whole;
    NextOfSerialized(f, []);
    NextSize(s);
    hide Next;
    if Next(s).Accepted? || !Next(s).stop.Waiting() {
      NextIsStable(s, whole[|s|..]);
    }
  }

  lemma NextSize(s: seq<Byte>)
    ensures Next(s).Accepted? ==> Next(s).size <= |s|
  {
    hide Decode;
  }

  /** The frame that a header announces, with any bytes for what has not arrived of its body. */
  function Announced(s: seq<Byte>): Frame
    requires |s| >= HEADER_SIZE
  {
    var size := Decode(s[4..8]);
    var missing := HEADER_SIZE + size - |s|;
    Frame(Decode(s[..4]), Decode(s[8..10]), s[HEADER_SIZE..] + if missing > 0 then seq(missing, _ => 0) else [])
  }

  lemma WaitingIsIncomplete(s: seq<Byte>)
    requires |s| >= HEADER_SIZE && Next(s).Stopped? && Next(s).stop.Waiting()
    ensures WellFormed(Announced(s)) && s < Serialize(Announced(s))
  {
    hide Encode, Decode;
    var f := Announced(s);
    WordSizes();
    EncodeDecode(s[..4]);
    EncodeDecode(s[4..8]);
    EncodeDecode(s[8..10]);
    assert Serialize(f)[..HEADER_SIZE] == s[..4] + s[4..8] + s[8..10] == s[..HEADER_SIZE];
    assert s == s[..HEADER_SIZE] + s[HEADER_SIZE..];
  }

  /** One step of the loop, judged by the frames alone: it accepts exactly when a well-formed frame is
      there in full, waits exactly when the header is incomplete or a well-formed frame could still
      become complete, and so shuts the session down on everything else. */
  lemma StepIsExact(s: seq<Byte>)
    ensures Next(s).Accepted? <==> exists f :: WellFormed(f) && Serialize(f) <= s
    ensures Next(s).Stopped? && Next(s).stop.Waiting() <==> |s| < HEADER_SIZE || IsIncomplete(s)
  {
    hide Serialize, WellFormed, EventOf, Announced;
    ShortWaits(s);
    hide Next;
    if Next(s).Accepted? {
      AcceptedIsSerialized(s);
      var f := FrameOf(Next(s).event);
      assert WellFormed(f) && Serialize(f) <= s;
    } else if Next(s).stop.Waiting() && |s| >= HEADER_SIZE {
      WaitingIsIncomplete(s);
    }
    if f :| WellFormed(f) && Serialize(f) <= s {
      CompleteIsAccepted(s, f);
    }
    if f :| WellFormed(f) && s < Serialize(f) {
      IncompleteWaits(s, f);
    }
  }

  lemma ShortWaits(s: seq<Byte>)
    ensures |s| < HEADER_SIZE ==> Next(s) == Stopped(AwaitHeader)
  {
    hide Decode;
  }

  function HandlerCalls(es: seq<Event>): nat {
    if es == [] then 0 else (if es[0].HandlerCalled? then 1 else 0) + HandlerCalls(es[1..])
  }

  /** The loop runs until a step stops it or the first handler fails: no call before the last failed; it
      reports a failure exactly if the last one did; and otherwise the next step is the one that
      stopped it. */
  lemma {:induction false} LoopEndsExactly(s: seq<Byte>, fails: nat -> bool, calls: nat)
    ensures var r := Parse(s, fails, calls);
      && r.consumed <= |s|
      && (forall k: nat :: calls <= k < calls + HandlerCalls(r.events) - (if r.stop.HandlerFailed? then 1 else 0) ==>
            !fails(k))
      && (r.stop.HandlerFailed? ==> HandlerCalls(r.events) > 0 && fails(calls + HandlerCalls(r.events) - 1))
      && (!r.stop.HandlerFailed? ==> Next(s[r.consumed..]) == Stopped(r.stop))
    decreases |s|
  {
    NextNeverFails(s);
    hide Next;
    if Next(s).Stopped? {
      assert s[0..] == s;
    } else {
      var e, n := Next(s).event, Next(s).size;
      if e.HandlerCalled? && fails(calls) {
        FirstCall(e, []);
        assert [e] + [] == [e] && HandlerCalls([]) == 0;
      } else {
        var rest := Parse(s[n..], fails, CallsAfter(e, calls));
        LoopEndsExactly(s[n..], fails, CallsAfter(e, calls));
        FirstCall(e, rest.events);
        assert s[n..][rest.consumed..] == s[n + rest.consumed..];
      }
    }
  }

  lemma NextNeverFails(s: seq<Byte>)
    ensures Next(s).Stopped? ==> !Next(s).stop.HandlerFailed?
  {
    hide Decode;
  }

  lemma FirstCall(e: Event, rest: seq<Event>)
    ensures HandlerCalls([e] + rest) == (if e.HandlerCalled? then 1 else 0) + HandlerCalls(rest)
  {
    assert ([e] + rest)[1..] == rest;
  }
}
