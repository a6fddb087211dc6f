/** What every run of a session guarantees, from the state machine of its strand turns. */
module SessionGuarantees {
  import opened Wire
  import opened Framing
  import opened WriteQueue
  import opened SessionProtocol

  // ---------- Order on the wire ----------

  lemma FlattenedQueue(s: State)
    requires QueueInv(s)
    ensures s.completed + Flatten(s.queue) == SerializeAll(s.accepted)
    ensures SerializeAll(s.accepted) <= SerializeAll(s.posted)
  {
    hide SerializeAll, Flatten, TotalBytes;
    FrontOfQueue(s, |s.queue|);
    assert s.queue[..|s.queue|] == s.queue && s.accepted[..|s.accepted|] == s.accepted;
    assert s.posted == s.accepted + s.posted[|s.accepted|..];
    SerializeAllAppend(s.accepted, s.posted[|s.accepted|..]);
  }

  lemma WireIsPrefix(s: State)
    requires QueueInv(s) && WriteInv(s) && WireInv(s)
    ensures s.completed <= s.wire <= s.completed + Flatten(s.queue)
  {
    hide SerializeAll, Flatten, TotalBytes, QueueInv, IsLongestBatch;
    if s.flight.Some? {
      var b := s.flight.value;
      SumsOfSplit(s.queue, b.items);
      assert s.wire <= s.completed + (b.data + Flatten(s.queue[b.items..]));
    }
  }

  /** Exactly once, in order: in every run, completed bytes followed by the queue are the accepted
      frames; the accepted frames are a prefix of those sent, and all of them while the session is
      open; what reached the socket is a prefix of the accepted frames, and holds every completed
      byte. */
  lemma ExactlyOnceInOrder(es: seq<Turn>)
    requires ValidRun(INIT, es)
    ensures var s := Run(INIT, es);
      && s.completed + Flatten(s.queue) == SerializeAll(s.accepted)
      && s.accepted <= s.posted
      && (!s.closed ==> s.accepted == s.posted)
      && s.completed <= s.wire <= SerializeAll(s.accepted)
  {
    hide SerializeAll, Flatten, TotalBytes;
    InitInv();
    RunKeepsInv(INIT, es);
    var s := Run(INIT, es);
    FlattenedQueue(s);
    WireIsPrefix(s);
  }

  /** End to end: if the frames sent are ones the receiving loop accepts, then whatever reached the
      socket is parsed into the first of those the session accepted, exactly once and in order, at least
      all those whose write completed; and the receiver never finds a reason to shut down. */
  lemma PeerReceivesFrames(es: seq<Turn>, fails: nat -> bool)
    requires ValidRun(INIT, es)
    requires forall f <- Run(INIT, es).posted :: WellFormed(f)
    requires forall i: nat :: !fails(i)
    ensures var s := Run(INIT, es);
      var r := Parse(s.wire, fails, 0);
      && |s.queue| <= |s.accepted| <= |s.posted|
      && EventsOf(Sent(s)) <= r.events <= EventsOf(s.accepted)
      && r.stop.Waiting()
  {
    hide SerializeAll, Flatten, TotalBytes, Parse, WellFormed, EventOf;
    InitInv();
    RunKeepsInv(INIT, es);
    ExactlyOnceInOrder(es);
    var s := Run(INIT, es);
    assert forall f <- s.accepted :: f in s.posted;
    RoundTrip(s.accepted, fails);
    var more := SerializeAll(s.accepted)[|s.wire|..];
    assert s.wire + more == SerializeAll(s.accepted);
    PrefixEvents(s.wire, more, fails, 0);
    assert forall f <- Sent(s) :: f in s.accepted;
    RoundTrip(Sent(s), fails);
    var partial := s.wire[|s.completed|..];
    assert s.completed + partial == s.wire;
    PrefixEvents(s.completed, partial, fails, 0);
  }

  // ---------- What is accepted, and when a session closes ----------

  /** A frame is admissible, and with it no more than HardCap would wait to be written. */
  predicate FitsCap(s: State, f: Frame) {
    |f.body| <= MAX_BODY_SIZE && |SerializeAll(s.accepted + [f])| - |s.completed| <= HARD_CAP
  }

  lemma PendingIsUnwritten(s: State, f: Frame)
    requires Inv(s)
    ensures !s.closed ==> s.pending == |SerializeAll(s.accepted)| - |s.completed|
    ensures |SerializeAll(s.accepted + [f])| == |SerializeAll(s.accepted)| + HEADER_SIZE + |f.body|
  {
    hide SerializeAll, Flatten, TotalBytes, Header, WireInv, WriteInv;
    FlattenedQueue(s);
    FrontOfQueue(s, |s.queue|);
    assert s.queue[..|s.queue|] == s.queue;
    SerializeAllAppend(s.accepted, [f]);
    SerializeAllOne(f);
  }

  /** A frame is admissible, and with it no more than HardCap would be pending. */
  predicate FitsPending(s: State, f: Frame) {
    |f.body| <= MAX_BODY_SIZE && s.pending + HEADER_SIZE + |f.body| <= HARD_CAP
  }

  lemma FitsIsFitsPending(s: State, f: Frame)
    requires Inv(s) && !s.closed
    ensures FitsCap(s, f) <==> FitsPending(s, f)
  {
    hide SerializeAll, Inv;
    PendingIsUnwritten(s, f);
  }

  lemma DrainOnlyWrites(s: State)
    ensures Drain(s) == s.(writing := Drain(s).writing, flight := Drain(s).flight)
  {
    hide LongestBatch, TotalBytes, Flatten;
  }

  lemma SendByPending(s: State, f: Frame, closedMeanwhile: bool)
    requires !s.closed && s.pending <= HARD_CAP
    ensures var t := SendTurn(s, f, closedMeanwhile);
      && (t.closed <==> closedMeanwhile || !FitsPending(s, f))
      && t.accepted == if FitsPending(s, f) then s.accepted + [f] else s.accepted
  {
    hide Drain, Header;
    var s1 := s.(posted := s.posted + [f]);
    var s2 := if closedMeanwhile then CloseNow(s1) else s1;
    var s3 := Push(s2.(pending := s.pending + HEADER_SIZE + |f.body|), f);
    DrainOnlyWrites(s3.(writing := true));
  }

  /** The turn of a send, judged by the frames and bytes alone: an open session accepts the frame if and
      only if it fits, and is left closed if and only if it does not fit or another thread closed it;
      a closed one ignores the frame. */
  lemma SendAcceptsIff(s: State, f: Frame, closedMeanwhile: bool)
    requires Inv(s)
    ensures var t := SendTurn(s, f, closedMeanwhile);
      && (s.closed ==> t == s.(posted := s.posted + [f]))
      && (!s.closed ==>
            && (t.closed <==> closedMeanwhile || !FitsCap(s, f))
            && t.accepted == if FitsCap(s, f) then s.accepted + [f] else s.accepted)
  {
    if s.closed {
      hide Inv, Drain, MakeItem;
    } else {
      FitsIsFitsPending(s, f);
      OpenWithinCap(s);
      hide FitsCap, FitsPending, Inv, SendTurn;
      SendByPending(s, f, closedMeanwhile);
    }
  }

  lemma OpenWithinCap(s: State)
    requires Inv(s) && !s.closed
    ensures s.pending <= HARD_CAP
  {
    hide TotalBytes, Flatten, QueueInv, WireInv, WriteInv;
  }

  /** Everything that closes an open session. */
  predicate Closes(s: State, e: Turn) {
    match e
    case Send(f, closedMeanwhile) => closedMeanwhile || !FitsCap(s, f)
    case WriteFailed => true
    case Close => true
    case _ => false
  }

  lemma ClosesIff(s: State, e: Turn)
    requires Inv(s) && Enabled(s, e) && !s.closed
    ensures Apply(s, e).closed <==> Closes(s, e)
    ensures s.accepted == s.posted && !Closes(s, e) ==> Apply(s, e).accepted == Apply(s, e).posted
  {
    hide FitsCap, Inv, SendTurn, Completed, Drain;
    if e.Send? {
      SendAcceptsIff(s, e.frame, e.closedMeanwhile);
      PostedBySend(s, e.frame, e.closedMeanwhile);
    } else if e.WriteDone? {
      CompletedKeepsInv(s);
      CompletedStays(s);
      DrainOnlyWrites(Completed(s));
    }
  }

  lemma PostedBySend(s: State, f: Frame, closedMeanwhile: bool)
    ensures SendTurn(s, f, closedMeanwhile).posted == s.posted + [f]
  {
    hide LongestBatch, TotalBytes, Flatten, Header;
  }

  lemma CompletedStays(s: State)
    requires Enabled(s, WriteDone)
    ensures Completed(s).closed == s.closed && Completed(s).accepted == s.accepted && Completed(s).posted == s.posted
  {
  }

  ghost predicate NothingCloses(s: State, es: seq<Turn>)
    requires ValidRun(s, es)
    decreases |es|
  {
    es == [] || (!Closes(s, es[0]) && NothingCloses(Apply(s, es[0]), es[1..]))
  }

  lemma ClosedStays(s: State, e: Turn)
    requires Enabled(s, e) && s.closed
    ensures Apply(s, e).closed
  {
    hide LongestBatch, TotalBytes, Flatten;
  }

  lemma {:induction false} ClosedForever(s: State, es: seq<Turn>)
    requires ValidRun(s, es) && s.closed
    ensures Run(s, es).closed
    decreases |es|
  {
    hide Apply, Enabled;
    if es == [] {
    } else {
      ClosedStays(s, es[0]);
      ClosedForever(Apply(s, es[0]), es[1..]);
    }
  }

  /** A session is still open after a run if and only if nothing in the run closes it: no close, no
      write error, no frame that does not fit; and then every frame sent was accepted. */
  lemma {:induction false} StaysOpenIff(s: State, es: seq<Turn>)
    requires Inv(s) && !s.closed && ValidRun(s, es)
    ensures !Run(s, es).closed <==> NothingCloses(s, es)
    ensures !Run(s, es).closed ==> Run(s, es).accepted == Run(s, es).posted
    decreases |es|
  {
    if es == [] {
      OpenAcceptsAll(s);
    } else {
      StepKeepsInv(s, es[0]);
      ClosesIff(s, es[0]);
      hide Inv, Apply, Enabled, Closes;
      if Apply(s, es[0]).closed {
        ClosedForever(Apply(s, es[0]), es[1..]);
      } else {
        StaysOpenIff(Apply(s, es[0]), es[1..]);
      }
    }
  }

  lemma OpenAcceptsAll(s: State)
    requires Inv(s) && !s.closed
    ensures s.accepted == s.posted
  {
    hide SerializeAll, Flatten, TotalBytes, Items, WireInv, WriteInv, AccountInv;
  }

  // ---------- Backpressure and the reader ----------

  /** Hysteresis: on above the high-water mark, off at or below the low one. */
  predicate Hysteresis(on: bool, pending: nat) {
    if on then pending > LOW_WATER else pending > HIGH_WATER
  }

  /** After every turn of every run, backpressure is the hysteresis of the bytes then pending. */
  lemma BackpressureIsHysteresis(s: State, e: Turn)
    requires Inv(s) && Enabled(s, e)
    ensures Apply(s, e).backpressure == Hysteresis(s.backpressure, Apply(s, e).pending)
  {
    hide SerializeAll, Flatten, TotalBytes, Header, QueueInv, WireInv, IsLongestBatch, LongestBatch;
    if e.WriteDone? {
      CompletedKeepsInv(s);
    }
  }

  /** The reader parks exactly when it finds backpressure at its check, and is woken exactly when
      backpressure goes off or the task of Shutdown runs. */
  lemma ReaderParksAndWakes(s: State, e: Turn)
    requires Inv(s) && Enabled(s, e)
    ensures var t := Apply(s, e);
      && (!s.parked ==> (t.parked <==> e.ReaderCheck? && s.backpressure))
      && (s.parked ==> (!t.parked <==> e.ShutdownTask? || !t.backpressure))
  {
    hide SerializeAll, Flatten, TotalBytes, Header, QueueInv, WireInv, IsLongestBatch, LongestBatch;
    if e.WriteDone? {
      CompletedKeepsInv(s);
    }
  }

  // ---------- Accounting and backpressure ----------

  /** Byte accounting and hysteresis in every reachable state, and the overflow test of the next
      send never fires. */
  lemma Accounting(es: seq<Turn>)
    requires ValidRun(INIT, es)
    ensures var s := Run(INIT, es);
      && TotalBytes(s.queue) == |Flatten(s.queue)|
      && TotalBytes(s.queue) <= s.pending <= TotalBytes(s.queue) + MAX_BODY_SIZE + HEADER_SIZE
      && (!s.closed ==> s.pending == TotalBytes(s.queue) && s.pending <= HARD_CAP)
      && s.pending <= HARD_CAP + MAX_BODY_SIZE + HEADER_SIZE
      && (forall f: Frame :: |f.body| <= MAX_BODY_SIZE ==> SIZE_MAX - s.pending >= MakeItem(f).totalBytes)
      && (Enabled(s, WriteDone) ==> s.flight.value.bytes <= s.pending)
      && (s.pending > HIGH_WATER ==> s.backpressure)
      && (s.backpressure ==> s.pending > LOW_WATER)
  {
    hide SerializeAll, Flatten, TotalBytes, Header;
    InitInv();
    RunKeepsInv(INIT, es);
    var s := Run(INIT, es);
    FrontOfQueue(s, |s.queue|);
    assert s.queue[..|s.queue|] == s.queue;
    if Enabled(s, WriteDone) {
      CompletedKeepsInv(s);
    }
  }

  /** At most one write is outstanding, an open session has one exactly when it has something to send,
      and it is the longest batch of the queue as it was at its start: no turn replaces an outstanding
      write or touches more than its progress, except the two that end it; and whenever a turn
      starts one, it is the longest batch of the queue at that moment. */
  lemma OneLongestWrite(es: seq<Turn>, e: Turn)
    requires ValidRun(INIT, es) && Enabled(Run(INIT, es), e)
    ensures var s := Run(INIT, es);
      && (s.writing <==> s.flight.Some?)
      && (!s.closed ==> (s.flight.Some? <==> s.queue != []))
      && (s.flight.Some? ==>
            var b := s.flight.value;
            && 1 <= b.items <= b.queued <= |s.queue|
            && IsLongestBatch(s.queue[..b.queued], b.items)
            && b.data == Flatten(s.queue[..b.items]))
    ensures var s, t := Run(INIT, es), Apply(Run(INIT, es), e);
      && (s.flight.Some? && !e.WriteDone? && !e.WriteFailed? ==> SameWrite(s, t))
      && (t.flight.Some? && (s.flight.None? || e.WriteDone?) ==> StartsLongest(t))
      && (e.WriteFailed? ==> t.flight.None?)
  {
    hide Inv, Run, ValidRun, Apply, Enabled, SameWrite, StartsLongest;
    InitInv();
    RunKeepsInv(INIT, es);
    OneWrite(Run(INIT, es));
    WriteOfTurn(Run(INIT, es), e);
  }

  lemma OneWrite(s: State)
    requires Inv(s)
    ensures s.writing <==> s.flight.Some?
    ensures !s.closed ==> (s.flight.Some? <==> s.queue != [])
    ensures s.flight.Some? ==> BatchInv(s.queue, s.flight.value)
  {
    hide SerializeAll, Flatten, TotalBytes, QueueInv, WireInv, AccountInv, IsLongestBatch;
  }

  lemma WriteOfTurn(s: State, e: Turn)
    requires Inv(s) && Enabled(s, e)
    ensures var t := Apply(s, e);
      && (s.flight.Some? && !e.WriteDone? && !e.WriteFailed? ==> SameWrite(s, t))
      && (t.flight.Some? && (s.flight.None? || e.WriteDone?) ==> StartsLongest(t))
      && (e.WriteFailed? ==> t.flight.None?)
  {
    hide Inv, IdleInv, Drain, Completed, SendTurn, StartsLongest;
    if e.Send? {
      SendKeepsInv(s, e.frame, e.closedMeanwhile);
    } else if e.WriteDone? {
      CompletedKeepsInv(s);
      DrainKeepsInv(Completed(s));
    }
  }

  /** While the session is open, a reader parked on backpressure has a write outstanding. */
  lemma ParkedReaderHasWrite(es: seq<Turn>)
    requires ValidRun(INIT, es)
    ensures var s := Run(INIT, es); s.parked && !s.closed ==> s.flight.Some? && s.queue != []
  {
    hide SerializeAll, Flatten, QueueInv, WireInv, IsLongestBatch;
    InitInv();
    RunKeepsInv(INIT, es);
  }

  function Completions(es: seq<Turn>): nat {
    if es == [] then 0 else Completions(es[1..]) + if es[0].WriteDone? then 1 else 0
  }

  predicate OnlyWrites(es: seq<Turn>) {
    forall e <- es :: e.Transfer? || e.WriteDone?
  }

  lemma {:induction false} CompletionsShrinkQueue(s: State, es: seq<Turn>)
    requires Inv(s) && ValidRun(s, es) && OnlyWrites(es)
    ensures |Run(s, es).queue| + Completions(es) <= |s.queue|
    ensures Run(s, es).closed == s.closed
    decreases |es|
  {
    hide Inv, Drain, Completed, SendTurn;
    if es == [] {
    } else {
      StepKeepsInv(s, es[0]);
      CompletionsShrinkQueue(Apply(s, es[0]), es[1..]);
      WriteShrinksQueue(s, es[0]);
    }
  }

  lemma WriteShrinksQueue(s: State, e: Turn)
    requires Inv(s) && Enabled(s, e) && (e.Transfer? || e.WriteDone?)
    ensures e.WriteDone? ==> |Apply(s, e).queue| + 1 <= |s.queue|
    ensures e.Transfer? ==> Apply(s, e).queue == s.queue
    ensures Apply(s, e).closed == s.closed
  {
    hide SerializeAll, Flatten, TotalBytes, QueueInv, WireInv, AccountInv, IsLongestBatch, LongestBatch;
  }

  /** If writes keep succeeding and nothing else happens, a reader parked in an open session always has
      a write outstanding and some completion to come: there are at most as many as frames queued,
      however many frames one write takes. */
  lemma ParkedReaderIsReleased(s: State, es: seq<Turn>)
    requires Inv(s) && !s.closed && ValidRun(s, es) && OnlyWrites(es)
    ensures Completions(es) <= |s.queue|
    ensures Run(s, es).parked ==> Run(s, es).flight.Some? && Completions(es) < |s.queue|
  {
    hide SerializeAll, Flatten, QueueInv, WireInv, IsLongestBatch, ValidRun, Run;
    CompletionsShrinkQueue(s, es);
    RunKeepsInv(s, es);
    var t := Run(s, es);
    if t.parked {
      assert t.queue != [];
    }
  }

  /** A turn by which an outstanding write comes closer to its end. */
  predicate Advances(e: Turn) {
    e.WriteDone? || (e.Transfer? && e.count > 0)
  }

  /** An upper bound on how many of them are left. */
  function Remaining(s: State): int {
    |s.queue| + |Flatten(s.queue)| - if s.flight.Some? then s.flight.value.sent else 0
  }

  lemma RemainingIsNat(s: State)
    requires Inv(s)
    ensures Remaining(s) >= 0
  {
    hide SerializeAll, Flatten, TotalBytes, QueueInv, WireInv, AccountInv, IsLongestBatch;
    if s.flight.Some? {
      SumsOfSplit(s.queue, s.flight.value.items);
    }
  }

  lemma AdvanceDecreases(s: State, e: Turn)
    requires Inv(s) && Enabled(s, e) && Advances(e) && !s.closed
    ensures Remaining(Apply(s, e)) + 1 <= Remaining(s) && !Apply(s, e).closed
  {
    hide SerializeAll, Flatten, TotalBytes, QueueInv, WireInv, AccountInv, IsLongestBatch, LongestBatch;
    if e.WriteDone? {
      SumsOfSplit(s.queue, s.flight.value.items);
    }
  }

  lemma {:induction false} WritesEnd(s: State, es: seq<Turn>)
    requires Inv(s) && !s.closed && ValidRun(s, es) && forall e <- es :: Advances(e)
    ensures |es| + Remaining(Run(s, es)) <= Remaining(s)
    ensures Inv(Run(s, es)) && !Run(s, es).closed
    decreases |es|
  {
    hide Inv, Enabled, Apply, Advances, Remaining;
    if es == [] {
    } else {
      StepKeepsInv(s, es[0]);
      AdvanceDecreases(s, es[0]);
      WritesEnd(Apply(s, es[0]), es[1..]);
    }
  }

  lemma WriteCanAdvance(s: State)
    requires Inv(s) && !s.closed && s.flight.Some?
    ensures exists e :: Advances(e) && Enabled(s, e)
  {
    hide SerializeAll, Flatten, TotalBytes, QueueInv, IsLongestBatch;
    BatchIsSmall(s);
    var b := s.flight.value;
    var e := if b.sent == |b.data| then WriteDone else Transfer(|b.data| - b.sent);
    assert Advances(e) && Enabled(s, e);
  }

  /** So the release comes: advancing turns are boundedly many, and when no more of them is possible
      the reader is not parked. */
  lemma WritesReleaseReader(s: State, es: seq<Turn>)
    requires Inv(s) && !s.closed && ValidRun(s, es) && forall e <- es :: Advances(e)
    ensures |es| <= |s.queue| + |Flatten(s.queue)|
    ensures Run(s, es).parked ==> exists e :: Advances(e) && Enabled(Run(s, es), e)
  {
    hide Inv, Enabled, Apply, Flatten, ValidRun, Run;
    WritesEnd(s, es);
    var t := Run(s, es);
    RemainingIsNat(t);
    if t.parked {
      ParkedReaderIsReleased(s, es);
      WriteCanAdvance(t);
    }
  }

  /** And everything accepted is delivered: an open session in which no such turn is possible has all its
      accepted frames on the wire, completed. */
  lemma IdleSessionDeliveredAll(s: State)
    requires Inv(s) && !s.closed && !exists e :: Advances(e) && Enabled(s, e)
    ensures s.queue == [] && s.wire == s.completed == SerializeAll(s.accepted) && s.accepted == s.posted
  {
    hide Advances, Enabled, SerializeAll, Flatten, TotalBytes, Inv;
    if s.flight.Some? {
      WriteCanAdvance(s);
    }
    OneWrite(s);
    IdleWire(s);
    OpenAcceptsAll(s);
  }

  lemma IdleWire(s: State)
    requires Inv(s) && !s.closed && s.flight.None? && s.queue == []
    ensures s.wire == s.completed == SerializeAll(s.accepted)
  {
    hide SerializeAll, TotalBytes, AccountInv, WriteInv;
    FlattenedQueue(s);
    assert s.completed + [] == s.completed;
  }

  // ---------- A reader that is never released ----------

  /** The reader is parked, the task of `Shutdown` has already run, and the outstanding write, if any, has
      bytes left that the closed socket cannot take, or leaves too much pending to release the
      reader. */
  predicate Stranded(s: State) {
    && s.parked && s.closed && s.task.Done?
    && (s.flight.Some? ==>
          var b := s.flight.value;
          b.sent < |b.data| || s.pending > LOW_WATER + b.bytes)
  }

  lemma StrandedStep(s: State, e: Turn)
    requires Inv(s) && Stranded(s) && Enabled(s, e)
    ensures Stranded(Apply(s, e))
  {
    hide SerializeAll, Flatten, TotalBytes, QueueInv, WireInv, IsLongestBatch, LongestBatch;
    if e.WriteDone? {
      CompletedKeepsInv(s);
    }
  }

  lemma {:induction false} StrandedForever(s: State, es: seq<Turn>)
    requires Inv(s) && Stranded(s) && ValidRun(s, es)
    ensures Stranded(Run(s, es))
    decreases |es|
  {
    hide Inv, Stranded, Apply, Enabled;
    if es == [] {
    } else {
      StepKeepsInv(s, es[0]);
      StrandedStep(s, es[0]);
      StrandedForever(Apply(s, es[0]), es[1..]);
    }
  }

  /** `ReadLoop` does not look at the closed flag before it waits, so a parked reader is not always
      released.  It can still be released exactly while it is not stranded. */
  lemma ReleasableIff(s: State)
    requires Inv(s) && s.parked
    ensures (exists es :: ValidRun(s, es) && !Run(s, es).parked) <==> !Stranded(s)
  {
    if Stranded(s) {
      forall es | ValidRun(s, es) ensures Run(s, es).parked {
        StrandedForever(s, es);
      }
    } else {
      var es := ReleasingRun(s);
    }
  }

  lemma ReleasingRun(s: State) returns (es: seq<Turn>)
    requires Inv(s) && s.parked && !Stranded(s)
    ensures ValidRun(s, es) && !Run(s, es).parked
  {
    hide SerializeAll, Flatten, TotalBytes, QueueInv, WireInv, IsLongestBatch, Drain;
    if !s.closed {
      es := [Close, ShutdownTask];
      TwoTurns(s, Close, ShutdownTask);
    } else if s.task.Posted? {
      es := [ShutdownTask];
      OneTurn(s, ShutdownTask);
    } else {
      es := [WriteDone];
      TransferredBatch(s);
      OneTurn(s, WriteDone);
    }
  }

  /** All bytes of the outstanding write of a closed session left before the socket was closed. */
  lemma TransferredBatch(s: State)
    requires Inv(s) && s.closed && s.parked && s.flight.Some?
    requires s.flight.value.sent == |s.flight.value.data| && s.pending <= LOW_WATER + s.flight.value.bytes
    ensures Enabled(s, WriteDone) && !Apply(s, WriteDone).parked
  {
    hide SerializeAll, Flatten, TotalBytes, QueueInv, IsLongestBatch;
    BatchIsSmall(s);
    CompletedKeepsInv(s);
  }

  lemma BatchIsSmall(s: State)
    requires Inv(s) && s.flight.Some?
    ensures s.flight.value.bytes <= s.pending <= SIZE_MAX
  {
    hide SerializeAll, Flatten, TotalBytes, QueueInv, IsLongestBatch;
    SumsOfSplit(s.queue, s.flight.value.items);
  }

  lemma OneTurn(s: State, e: Turn)
    requires Enabled(s, e)
    ensures ValidRun(s, [e]) && Run(s, [e]) == Apply(s, e)
  {
    hide Enabled, Apply;
    assert [e][1..] == [];
  }

  lemma TwoTurns(s: State, e1: Turn, e2: Turn)
    requires Enabled(s, e1) && Enabled(Apply(s, e1), e2)
    ensures ValidRun(s, [e1, e2]) && Run(s, [e1, e2]) == Apply(Apply(s, e1), e2)
  {
    hide Enabled, Apply;
    OneTurn(Apply(s, e1), e2);
    assert [e1, e2][1..] == [e2];
  }

  /** A stranded reader is reachable: the session is closed while the loop is busy in a handler, its
      last write fails, and only then does the loop come back to wait. */
  lemma StrandedIsReachable()
    ensures exists es :: ValidRun(INIT, es) && Stranded(Run(INIT, es))
  {
    hide Flatten, SerializeAll, LongestBatch;
    var f := Frame(LOGIN, V1, seq(MAX_BODY_SIZE, (i: int) => 0));
    var s1 := Apply(INIT, Send(f, false));
    SumsOfPush([], MakeItem(f));
    assert [] + [MakeItem(f)] == [MakeItem(f)];
    assert s1.flight.Some? && s1.backpressure && !s1.parked && s1.task == NotPosted;
    var es1, es2 := [Send(f, false), Close], [ShutdownTask, WriteFailed];
    TwoTurns(INIT, Send(f, false), Close);
    var s2 := Apply(s1, Close);
    TwoTurns(s2, ShutdownTask, WriteFailed);
    var s3 := Apply(Apply(s2, ShutdownTask), WriteFailed);
    OneTurn(s3, ReaderCheck);
    RunOfRuns(INIT, es1, es2);
    RunOfRuns(INIT, es1 + es2, [ReaderCheck]);
  }

  lemma {:induction false} RunOfRuns(s: State, es: seq<Turn>, more: seq<Turn>)
    requires ValidRun(s, es) && ValidRun(Run(s, es), more)
    ensures ValidRun(s, es + more) && Run(s, es + more) == Run(Run(s, es), more)
    decreases |es|
  {
    hide Enabled, Apply;
    if es == [] {
      assert es + more == more;
    } else {
      RunOfRuns(Apply(s, es[0]), es[1..], more);
      assert (es + more)[1..] == es[1..] + more;
    }
  }
}
