/** The heartbeat of a session in real time.  Times are nanoseconds of the steady clock; a timer may
    be served up to `late` after its deadline. */
module Heartbeat {
  const MS: nat := 1_000_000
  const SECOND: nat := 1_000_000_000
  const INTERVAL: nat := 30 * SECOND
  const SOFT_IDLE: nat := 45 * SECOND
  const HARD_IDLE: nat := 75 * SECOND
  const GRACE_WAIT: nat := 10 * SECOND
  const MAX_JITTER_MS: nat := 500

  /** What the coroutine waits for. */
  datatype Phase =
    | Interval(deadline: nat)
    | Grace(deadline: nat)
    | Ended

  datatype State = State(
    now: nat,
    lastRx: nat,
    phase: Phase,
    closed: bool,
    idleClose: bool,   // closed by the heartbeat
    pinged: bool,      // a ping was sent since the last receive
    lastCheck: nat     // when the check at the end of an interval last found the idle time below the hard limit
  )

  datatype Event =
    | Elapse(time: nat)
    | Receive
    | TimerFires(jitterMs: nat)
    | CloseElsewhere
    | TimerCancelled

  function Idle(s: State): int {
    s.now - s.lastRx
  }

  /** The top of the loop. */
  function NextInterval(s: State, jitterMs: nat): State {
    s.(phase := if s.closed then Ended else Interval(s.now + INTERVAL + jitterMs * MS))
  }

  function Start(jitterMs: nat): State {
    NextInterval(State(0, 0, Ended, false, false, false, 0), jitterMs)
  }

  function CloseIdle(s: State): State {
    s.(phase := Ended, idleClose := s.idleClose || !s.closed, closed := true)
  }

  function Fire(s: State, jitterMs: nat): State {
    if Idle(s) >= HARD_IDLE then CloseIdle(s)
    else if s.phase.Grace? then NextInterval(s, jitterMs)
    else if Idle(s) >= SOFT_IDLE then
      s.(phase := Grace(s.now + GRACE_WAIT), pinged := true, lastCheck := s.now)
    else NextInterval(s.(lastCheck := s.now), jitterMs)
  }

  predicate Enabled(s: State, e: Event, late: nat) {
    match e
    case Elapse(t) => s.phase.Ended? || s.now + t <= s.phase.deadline + late
    case Receive => true
    case TimerFires(j) => !s.phase.Ended? && s.now >= s.phase.deadline && j <= MAX_JITTER_MS
    case CloseElsewhere => true
    case TimerCancelled => s.closed && !s.phase.Ended?
  }

  function Apply(s: State, e: Event): State {
    match e
    case Elapse(t) => s.(now := s.now + t)
    case Receive => s.(lastRx := s.now, pinged := false)
    case TimerFires(j) => Fire(s, j)
    case CloseElsewhere => s.(closed := true)
    case TimerCancelled => NextInterval(s, 0)
  }

  predicate ValidRun(s: State, es: seq<Event>, late: nat)
    decreases |es|
  {
    es == [] || (Enabled(s, es[0], late) && ValidRun(Apply(s, es[0]), es[1..], late))
  }

  function Run(s: State, es: seq<Event>): State
    decreases |es|
  {
    if es == [] then s else Run(Apply(s, es[0]), es[1..])
  }

  /** The longest wait that the loop can put on top of an idle time below the hard limit. */
  const LIMIT: nat := HARD_IDLE + INTERVAL + MAX_JITTER_MS * MS

  ghost predicate Inv(s: State, late: nat) {
    && s.lastRx <= s.now && s.lastCheck <= s.now
    && (s.phase.Ended? ==> s.closed)
    && (s.phase.Interval? ==> s.phase.deadline < s.lastRx + LIMIT)
    && (s.phase.Grace? ==> s.phase.deadline < s.lastRx + HARD_IDLE + GRACE_WAIT)
    && (!s.phase.Ended? ==> s.now <= s.phase.deadline + late)
    && (s.pinged <==> s.lastCheck >= s.lastRx + SOFT_IDLE)
  }

  lemma StepKeepsInv(s: State, e: Event, late: nat)
    requires Inv(s, late) && Enabled(s, e, late)
    ensures Inv(Apply(s, e), late)
    ensures Apply(s, e).idleClose && !s.idleClose ==> !s.closed && Idle(s) >= HARD_IDLE
  {
  }

  lemma {:induction false} RunKeepsInv(s: State, es: seq<Event>, late: nat)
    requires Inv(s, late) && ValidRun(s, es, late)
    ensures Inv(Run(s, es), late)
    decreases |es|
  {
    hide Inv, Apply, Enabled;
    if es == [] {
    } else {
      StepKeepsInv(s, es[0], late);
      RunKeepsInv(Apply(s, es[0]), es[1..], late);
    }
  }

  /** In every timed run, an open session has been idle for less than 105.5 s plus the lateness of
      one timer. */
  lemma IdleIsBounded(jitterMs: nat, es: seq<Event>, late: nat)
    requires jitterMs <= MAX_JITTER_MS && ValidRun(Start(jitterMs), es, late)
    ensures var s := Run(Start(jitterMs), es); !s.closed ==> Idle(s) < LIMIT + late
    ensures LIMIT == 105_500 * MS
  {
    RunKeepsInv(Start(jitterMs), es, late);
  }

  lemma {:induction false} RunOfRuns(s: State, es: seq<Event>, more: seq<Event>, late: nat)
    requires ValidRun(s, es, late) && ValidRun(Run(s, es), more, late)
    ensures ValidRun(s, es + more, late) && Run(s, es + more) == Run(Run(s, es), more)
    decreases |es|
  {
    hide Apply, Enabled;
    if es == [] {
      assert es + more == more;
    } else {
      RunOfRuns(Apply(s, es[0]), es[1..], more, late);
      assert (es + more)[1..] == es[1..] + more;
    }
  }

  /** The bound is the best one: for every lateness some run comes within a nanosecond of it with the
      session still open, well past the 75 s of the hard limit. */
  lemma BoundIsTight(late: nat)
    ensures exists es ::
      ValidRun(Start(0), es, late) && !Run(Start(0), es).closed && Idle(Run(Start(0), es)) == LIMIT + late - 1
  {
    var e1 := [Elapse(25 * SECOND + 1), Receive, Elapse(5 * SECOND - 1), TimerFires(0)];
    var s1 := Run(Start(0), e1);
    assert ValidRun(Start(0), e1, late)
      && s1 == State(30 * SECOND, 25 * SECOND + 1, Interval(60 * SECOND), false, false, false, 30 * SECOND) by {
      FourEvents(Start(0), e1, late);
    }
    var e2 := [Elapse(30 * SECOND), TimerFires(0), Elapse(30 * SECOND), TimerFires(0)];
    var s2 := Run(s1, e2);
    assert ValidRun(s1, e2, late)
      && s2 == State(90 * SECOND, 25 * SECOND + 1, Grace(100 * SECOND), false, false, true, 90 * SECOND) by {
      FourEvents(s1, e2, late);
    }
    var e3 := [Elapse(10 * SECOND), TimerFires(500), Elapse(INTERVAL + 500 * MS + late), Elapse(0)];
    FourEvents(s2, e3, late);
    RunOfRuns(s1, e2, e3, late);
    RunOfRuns(Start(0), e1, e2 + e3, late);
  }

  lemma FourEvents(s: State, es: seq<Event>, late: nat)
    requires |es| == 4
    ensures var s1 := Apply(s, es[0]);
      var s2 := Apply(s1, es[1]);
      var s3 := Apply(s2, es[2]);
      && Run(s, es) == Apply(s3, es[3])
      && (ValidRun(s, es, late) <==>
            Enabled(s, es[0], late) && Enabled(s1, es[1], late) && Enabled(s2, es[2], late) && Enabled(s3, es[3], late))
  {
    hide Apply, Enabled;
    var s1 := Apply(s, es[0]);
    var s2 := Apply(s1, es[1]);
    var s3 := Apply(s2, es[2]);
    TwoEvents(s2, es[2..], late);
    assert es[2..] == es[1..][1..];
  }

  lemma TwoEvents(s: State, es: seq<Event>, late: nat)
    requires |es| == 2
    ensures Run(s, es) == Apply(Apply(s, es[0]), es[1])
    ensures ValidRun(s, es, late) <==> Enabled(s, es[0], late) && Enabled(Apply(s, es[0]), es[1], late)
  {
    hide Apply, Enabled;
    var s1, last := Apply(s, es[0]), es[1..];
    assert last[1..] == [];
    assert Run(s1, last) == Apply(s1, last[0]);
    assert ValidRun(s1, last, late) <==> Enabled(s1, last[0], late);
  }

  /** When the heartbeat closes a session, it has been idle for at least 75 s; and a ping went out
      since the last receive if and only if the idle time had reached 45 s at the check before. */
  lemma IdleClose(jitterMs: nat, es: seq<Event>, fire: Event, late: nat)
    requires jitterMs <= MAX_JITTER_MS && ValidRun(Start(jitterMs), es, late)
    requires var s := Run(Start(jitterMs), es);
      Enabled(s, fire, late) && !s.idleClose && Apply(s, fire).idleClose
    ensures var s := Run(Start(jitterMs), es);
      Idle(s) >= HARD_IDLE && (s.pinged <==> s.lastCheck - s.lastRx >= SOFT_IDLE)
  {
    RunKeepsInv(Start(jitterMs), es, late);
    StepKeepsInv(Run(Start(jitterMs), es), fire, late);
  }

  /** A ping does not always precede an idle close: the idle time can step over the ping threshold,
      from just below 45 s to 75 s, between two checks. */
  lemma CloseWithoutPing()
    ensures exists es ::
      ValidRun(Start(0), es, 0) && Run(Start(0), es).idleClose && !Run(Start(0), es).pinged
  {
    var e1 := [Elapse(15 * SECOND + 100 * MS), Receive, Elapse(14 * SECOND + 900 * MS), TimerFires(0)];
    var s1 := Run(Start(0), e1);
    assert ValidRun(Start(0), e1, 0)
      && s1 == State(30 * SECOND, 15 * SECOND + 100 * MS, Interval(60 * SECOND), false, false, false, 30 * SECOND) by {
      FourEvents(Start(0), e1, 0);
    }
    var e2 := [Elapse(30 * SECOND), TimerFires(200), Elapse(30 * SECOND + 200 * MS), TimerFires(0)];
    FourEvents(s1, e2, 0);
    RunOfRuns(Start(0), e1, e2, 0);
  }

  // ---------- Pings ----------

  /** The longest idle time, less the lateness of the last timer, that an open session can reach without
      having been pinged: from just below the ping threshold through one interval, or from a receive
      during a late grace wait through the rest of that wait and one interval. */
  function UnpingedLimit(late: nat): nat {
    var afterGrace := GRACE_WAIT + INTERVAL + MAX_JITTER_MS * MS + late;
    var afterCheck := SOFT_IDLE + INTERVAL + MAX_JITTER_MS * MS;
    if afterGrace > afterCheck then afterGrace else afterCheck
  }

  ghost predicate PingInv(s: State, late: nat) {
    && (s.phase.Interval? ==> s.phase.deadline <= s.now + INTERVAL + MAX_JITTER_MS * MS)
    && (s.phase.Grace? ==> s.phase.deadline <= s.now + GRACE_WAIT)
    && (s.phase.Interval? && !s.pinged ==> s.phase.deadline <= s.lastRx + UnpingedLimit(late))
    && (s.phase.Grace? && !s.pinged ==> s.phase.deadline <= s.lastRx + GRACE_WAIT)
    && (s.pinged ==> Idle(s) >= SOFT_IDLE)
  }

  lemma StepKeepsPings(s: State, e: Event, late: nat)
    requires Inv(s, late) && PingInv(s, late) && Enabled(s, e, late)
    ensures PingInv(Apply(s, e), late)
  {
  }

  lemma {:induction false} RunKeepsPings(s: State, es: seq<Event>, late: nat)
    requires Inv(s, late) && PingInv(s, late) && ValidRun(s, es, late)
    ensures Inv(Run(s, es), late) && PingInv(Run(s, es), late)
    decreases |es|
  {
    hide Inv, PingInv, Apply, Enabled;
    if es == [] {
    } else {
      StepKeepsInv(s, es[0], late);
      StepKeepsPings(s, es[0], late);
      RunKeepsPings(Apply(s, es[0]), es[1..], late);
    }
  }

  /** A ping goes out, and only to an idle peer: in every run an open session that has been idle for more
      than 75.5 s, with timers no more than 35 s late, was pinged since the last receive, and a pinged
      one has been idle for at least 45 s. */
  lemma IdleSessionIsPinged(jitterMs: nat, es: seq<Event>, late: nat)
    requires jitterMs <= MAX_JITTER_MS && ValidRun(Start(jitterMs), es, late)
    ensures var s := Run(Start(jitterMs), es);
      && (!s.closed && Idle(s) > UnpingedLimit(late) + late ==> s.pinged)
      && (s.pinged ==> Idle(s) >= SOFT_IDLE)
    ensures late <= SOFT_IDLE - GRACE_WAIT ==> UnpingedLimit(late) == 75_500 * MS
  {
    RunKeepsPings(Start(jitterMs), es, late);
  }

  /** What the end of a wait does, by the idle time alone: at 75 s or more it closes; at the end of an
      interval it pings from 45 s on and waits 10 s, and does not ping below; otherwise the loop goes on,
      with the next interval or, once the session is closed, not at all. */
  lemma TimerOutcome(s: State, jitterMs: nat, late: nat)
    requires Enabled(s, TimerFires(jitterMs), late)
    ensures var t := Apply(s, TimerFires(jitterMs));
      && (t.phase.Ended? && !s.closed <==> !s.closed && Idle(s) >= HARD_IDLE)
      && (t.closed <==> s.closed || Idle(s) >= HARD_IDLE)
      && (t.phase.Grace? <==> s.phase.Interval? && SOFT_IDLE <= Idle(s) < HARD_IDLE)
      && (t.phase.Grace? ==> t.pinged && t.phase.deadline == s.now + GRACE_WAIT)
      && (!t.phase.Grace? ==> t.pinged == s.pinged)
      && (t.phase.Interval? ==> t.phase.deadline == s.now + INTERVAL + jitterMs * MS)
  {
  }

  /** The loop of a closed session ends after at most two more waits. */
  function WaitsLeft(s: State): nat {
    match s.phase
    case Interval(_) => 2
    case Grace(_) => 1
    case Ended => 0
  }

  lemma ClosedLoopEnds(s: State, e: Event, late: nat)
    requires s.closed && Enabled(s, e, late)
    ensures Apply(s, e).closed
    ensures WaitsLeft(Apply(s, e)) + (if e.TimerFires? || e.TimerCancelled? then 1 else 0) <= WaitsLeft(s)
  {
  }
}
