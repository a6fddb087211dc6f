/** The accept and stop protocol of the server, in steps as small as another thread can tell apart.
    Handlers on the strand run one at a time; the stop flag may be set, and the last reference to a
    session dropped, between any two steps. */
module AcceptProtocol {

  type SessionId = nat

  /** Where the strand is inside the handler it runs. */
  datatype Turn =
    | Idle
    | Creating      // an accept succeeded and the flag was clear when it was tested
    | Retrying      // an accept failed and the flag was clear when it was tested
    | Rearming      // about to test the flag in StartAcceptor
    | Stopping(todo: set<SessionId>, seen: set<SessionId>)   // in Stop's loop, begun on the set `seen`

  /** What will call StartAcceptor or OnAccept next. */
  datatype Arming = Nothing | FirstCall | Listening | RetryTimer

  datatype StopTask = NotAsked | Posted | Running | Done | Failed

  datatype State = State(
    isStopped: bool,
    turn: Turn,
    arming: Arming,
    stop: StopTask,
    sessions: set<SessionId>,    // the weak references held
    started: set<SessionId>,     // every session handling was started for
    shutDown: set<SessionId>,    // Shutdown was called from Stop
    released: set<SessionId>,    // the last strong reference is gone, so a weak one cannot be locked
    erasures: set<SessionId>,    // posted by the deleter, not yet run
    freed: multiset<SessionId>,
    next: SessionId,
    alive: bool)                 // the server object itself

  datatype Event =
    | SetFlag
    | BeginStart
    | BeginAccept(failed: bool)
    | Create
    | CreateThenThrow
    | Retry
    | Rearm
    | Throw
    | Release(id: SessionId)
    | Erase(id: SessionId)
    | BeginStop
    | Visit(id: SessionId)
    | EndStop
    | StopThrow
    | ServerDies

  /** After `Run` posted the first StartAcceptor. */
  function Initial(): State {
    State(false, Idle, FirstCall, NotAsked, {}, {}, {}, {}, {}, multiset{}, 0, true)
  }

  predicate InAccept(t: Turn) {
    t.Creating? || t.Retrying? || t.Rearming?
  }

  function Started(s: State): State {
    s.(sessions := s.sessions + {s.next}, started := s.started + {s.next}, next := s.next + 1)
  }

  predicate Enabled(s: State, e: Event) {
    match e
    case SetFlag => true
    case Release(id) => id in s.started && id !in s.released
    case BeginStart => s.alive && s.turn.Idle? && (s.arming.FirstCall? || s.arming.RetryTimer?)
    case BeginAccept(_) => s.alive && s.turn.Idle? && s.arming.Listening?
    case Create => s.turn.Creating?
    case CreateThenThrow => s.turn.Creating?
    case Retry => s.turn.Retrying?
    case Rearm => s.turn.Rearming?
    case Throw => InAccept(s.turn)
    case Erase(id) => s.alive && s.turn.Idle? && id in s.erasures
    case BeginStop => s.alive && s.turn.Idle? && s.stop.Posted?
    case Visit(id) => s.turn.Stopping? && id in s.turn.todo
    case EndStop => s.turn.Stopping? && s.turn.todo == {}
    case StopThrow => s.turn.Stopping?
    case ServerDies => s.alive && s.turn.Idle? && s.erasures == {}   // each posted erasure owns the server
  }

  /** `Stop`, up to posting its task. */
  function Flagged(s: State): State {
    s.(isStopped := true, stop := if s.isStopped then s.stop else Posted)
  }

  function Apply(s: State, e: Event): State {
    match e
    case SetFlag => Flagged(s)
    case BeginStart => s.(arming := Nothing, turn := Rearming)
    case BeginAccept(failed) =>
      s.(arming := Nothing, turn := if s.isStopped then Idle else if failed then Retrying else Creating)
    case Create => Started(s).(turn := Rearming)
    case CreateThenThrow => Started(s).(turn := Idle)
    case Retry => s.(arming := RetryTimer, turn := Idle)
    case Rearm => s.(arming := if s.isStopped then Nothing else Listening, turn := Idle)
    case Throw => s.(turn := Idle)
    case Release(id) =>
      if s.alive then s.(released := s.released + {id}, erasures := s.erasures + {id})
      else s.(released := s.released + {id}, freed := s.freed + multiset{id})
    case Erase(id) =>
      s.(sessions := s.sessions - {id}, erasures := s.erasures - {id}, freed := s.freed + multiset{id})
    case BeginStop => s.(stop := Running, turn := Stopping(s.sessions, s.sessions))
    case Visit(id) =>
      if s.turn.Stopping? then
        s.(turn := Stopping(s.turn.todo - {id}, s.turn.seen),
           shutDown := if id in s.released then s.shutDown else s.shutDown + {id})
      else s
    case EndStop => s.(turn := Idle, sessions := {}, stop := Done)
    case StopThrow => s.(turn := Idle, stop := Failed)
    case ServerDies => Flagged(s).(alive := false)   // the destructor calls Stop
  }

  function Step(s: State, e: Event): State {
    if Enabled(s, e) then Apply(s, e) else s
  }

  function Run(s: State, es: seq<Event>): State
    decreases |es|
  {
    if es == [] then s else Run(Step(s, es[0]), es[1..])
  }

  // ---------- Invariant ----------

  /** Ids are fresh, and only released sessions are erased and freed, each exactly once. */
  ghost predicate OwnershipInv(s: State) {
    && (forall id: SessionId :: id in s.started <==> id < s.next)
    && s.sessions <= s.started && s.released <= s.started && s.erasures <= s.released
    && (forall id: SessionId :: s.freed[id] == if id in s.released && id !in s.erasures then 1 else 0)
    && (s.alive ==> forall id: SessionId :: id in s.sessions ==> s.freed[id] == 0)
    && (!s.alive ==> s.erasures == {} && s.isStopped)
  }

  /** At most one way to the next accept; the flag posts one stop task; past its start no accept is
      creating a session. */
  ghost predicate TurnInv(s: State) {
    && (InAccept(s.turn) ==> s.arming.Nothing? && s.alive)
    && (s.isStopped <==> !s.stop.NotAsked?)
    && (s.turn.Stopping? <==> s.stop.Running?)
    && (s.turn.Creating? ==> s.stop.NotAsked? || s.stop.Posted?)
    && (s.turn.Stopping? ==> s.alive)
  }

  /** A session that can still be locked is in the set until Stop has shut it down. */
  ghost predicate CoverInv(s: State) {
    && (!s.stop.Done? ==> forall id: SessionId :: id in s.started && id !in s.released ==> id in s.sessions)
    && (s.turn.Stopping? ==>
          && s.sessions == s.turn.seen && s.turn.todo <= s.turn.seen
          && forall id: SessionId :: id in s.turn.seen && id !in s.turn.todo ==> Handled(s, id))
    && (s.stop.NotAsked? || s.stop.Posted? ==> s.shutDown == {})
    && (s.turn.Stopping? ==> s.turn.todo !! s.shutDown)
    && s.shutDown <= s.started
    && (s.stop.Done? ==> s.sessions == {} && forall id: SessionId :: id in s.started ==> Handled(s, id))
  }

  /** Shut down by Stop, or already released by everyone. */
  predicate Handled(s: State, id: SessionId) {
    id in s.shutDown || id in s.released
  }

  ghost predicate Inv(s: State) {
    OwnershipInv(s) && TurnInv(s) && CoverInv(s)
  }

  lemma InitialInv()
    ensures Inv(Initial())
  {
  }

  lemma OwnershipStep(s: State, e: Event)
    requires Inv(s) && Enabled(s, e)
    ensures OwnershipInv(Apply(s, e))
  {
    hide CoverInv;
  }

  lemma TurnStep(s: State, e: Event)
    requires Inv(s) && Enabled(s, e)
    ensures TurnInv(Apply(s, e))
  {
    hide OwnershipInv, CoverInv;
  }

  lemma CoverStep(s: State, e: Event)
    requires Inv(s) && Enabled(s, e)
    ensures CoverInv(Apply(s, e))
  {
  }

  lemma StepKeepsInv(s: State, e: Event)
    requires Inv(s)
    ensures Inv(Step(s, e))
  {
    hide OwnershipInv, TurnInv, CoverInv, Enabled, Apply;
    if Enabled(s, e) {
      OwnershipStep(s, e);
      TurnStep(s, e);
      CoverStep(s, e);
    }
  }

  lemma {:induction false} RunKeepsInv(s: State, es: seq<Event>)
    requires Inv(s)
    ensures Inv(Run(s, es))
    decreases |es|
  {
    hide Inv, Step;
    if es == [] {
    } else {
      StepKeepsInv(s, es[0]);
      RunKeepsInv(Step(s, es[0]), es[1..]);
    }
  }

  // ---------- What the protocol guarantees ----------

  /** Once Stop's task has run, nothing ever starts again and the set stays empty: every session that
      was started, whatever the interleaving, has been shut down or was already released. */
  lemma {:induction false} StopLeavesNothingRunning(s: State, es: seq<Event>)
    requires Inv(s) && s.stop.Done?
    ensures var r := Run(s, es);
            && r.stop.Done? && r.started == s.started && r.sessions == {}
            && forall id: SessionId :: id in r.started ==> Handled(r, id)
    decreases |es|
  {
    RunKeepsInv(s, es);
    if es == [] {
    } else {
      var next := Step(s, es[0]);
      DoneStep(s, es[0]);
      StepKeepsInv(s, es[0]);
      hide Inv, Step;
      StopLeavesNothingRunning(next, es[1..]);
    }
  }

  lemma DoneStep(s: State, e: Event)
    requires Inv(s) && s.stop.Done?
    ensures Step(s, e).stop.Done? && Step(s, e).started == s.started
  {
    hide OwnershipInv, CoverInv;
  }

  /** Already from the moment Stop's task begins, also when it throws later, no session is started. */
  lemma {:induction false} NoneStartsAfterStopBegins(s: State, es: seq<Event>)
    requires Inv(s) && !s.stop.NotAsked? && !s.stop.Posted?
    ensures Run(s, es).started == s.started
    decreases |es|
  {
    if es == [] {
    } else {
      var next := Step(s, es[0]);
      LateStep(s, es[0]);
      StepKeepsInv(s, es[0]);
      hide Inv, Step;
      NoneStartsAfterStopBegins(next, es[1..]);
    }
  }

  lemma LateStep(s: State, e: Event)
    requires Inv(s) && !s.stop.NotAsked? && !s.stop.Posted?
    ensures !Step(s, e).stop.NotAsked? && !Step(s, e).stop.Posted? && Step(s, e).started == s.started
    ensures Step(s, e).turn.Stopping? ==> s.turn.Stopping? && Step(s, e).turn.seen == s.turn.seen
  {
    hide OwnershipInv, CoverInv;
  }

  /** Releasing a session never changes the set itself: from the beginning of Stop's loop, whatever
      other threads do, the loop walks over the set it began on, and when it has ended normally every
      session of that set has been handled. */
  lemma IterationSeesFixedSet(s: State, es: seq<Event>)
    requires Inv(s) && Enabled(s, BeginStop)
    ensures var r := Run(Step(s, BeginStop), es);
      && (r.turn.Stopping? ==> r.sessions == r.turn.seen == s.sessions)
      && (r.stop.Done? ==> r.sessions == {} && forall id: SessionId :: id in s.sessions ==> Handled(r, id))
  {
    var begun := Step(s, BeginStop);
    StepKeepsInv(s, BeginStop);
    RunKeepsInv(begun, es);
    WalkIsStable(begun, es);
    NoneStartsAfterStopBegins(begun, es);
  }

  /** Stop's loop begins once. */
  lemma {:induction false} WalkIsStable(s: State, es: seq<Event>)
    requires Inv(s) && !s.stop.NotAsked? && !s.stop.Posted?
    ensures Run(s, es).turn.Stopping? ==> s.turn.Stopping? && Run(s, es).turn.seen == s.turn.seen
    decreases |es|
  {
    if es == [] {
    } else {
      var next := Step(s, es[0]);
      LateStep(s, es[0]);
      StepKeepsInv(s, es[0]);
      hide Inv, Step;
      WalkIsStable(next, es[1..]);
    }
  }

  /** A session is freed at most once, only after its last reference is gone, and exactly those are
      still to be freed whose erasure is posted; while the server lives its set refers to no freed one. */
  lemma FreedAtMostOnce(es: seq<Event>, id: SessionId)
    ensures Run(Initial(), es).freed[id] <= 1
    ensures Run(Initial(), es).freed[id] == 1 <==>
            id in Run(Initial(), es).released && id !in Run(Initial(), es).erasures
    ensures Run(Initial(), es).alive && id in Run(Initial(), es).sessions ==> Run(Initial(), es).freed[id] == 0
  {
    InitialInv();
    RunKeepsInv(Initial(), es);
    hide Run, CoverInv, TurnInv;
  }

  // ---------- What is started ----------

  predicate StartsSession(e: Event) {
    e.Create? || e.CreateThenThrow?
  }

  lemma StartStep(s: State, e: Event)
    requires Inv(s)
    ensures var t := Step(s, e);
      if Enabled(s, e) && StartsSession(e) then
        && t.next == s.next + 1 && t.started == s.started + {s.next} && s.next !in s.started
        && t.sessions == s.sessions + {s.next} && s.next !in t.shutDown && s.next !in t.released
      else t.next == s.next && t.started == s.started
  {
    hide TurnInv;
    if s.next in s.shutDown {
      ShutDownStarted(s, s.next);
    }
  }

  /** Only sessions that were started are ever shut down. */
  lemma ShutDownStarted(s: State, id: SessionId)
    requires Inv(s) && id in s.shutDown
    ensures id in s.started
  {
    hide TurnInv;
  }

  /** Every accept that succeeds starts a session of its own, and nothing else does: in every run the
      sessions started are as many as such events, each new, and none is lost. */
  lemma {:induction false} StartedAreCounted(s: State, es: seq<Event>)
    requires Inv(s)
    ensures Run(s, es).next == s.next + CountEvents(s, es, StartsSession)
    ensures forall id: SessionId :: id in Run(s, es).started <==> id in s.started || s.next <= id < Run(s, es).next
    decreases |es|
  {
    if es == [] {
    } else {
      StartStep(s, es[0]);
      StepKeepsInv(s, es[0]);
      hide Inv, Step, Enabled, StartsSession;
      StartedAreCounted(Step(s, es[0]), es[1..]);
    }
  }

  /** A whole accept handler while no one stops the server: a successful accept adds exactly one session,
      which can be locked and was not shut down, and listens again; a failed one adds none and waits
      for the retry timer. */
  lemma AcceptHandler(s: State)
    requires Inv(s) && !s.isStopped && Enabled(s, BeginAccept(false))
    ensures var r := Run(s, [BeginAccept(false), Create, Rearm]);
      && r.started == s.started + {s.next} && s.next !in s.started
      && r.sessions == s.sessions + {s.next} && s.next !in r.shutDown && s.next !in r.released
      && r.arming.Listening? && r.turn.Idle?
    ensures Run(s, [BeginAccept(true), Retry]) == s.(arming := RetryTimer)
  {
    hide Inv, Enabled, Step, Run;
    ThreeSteps(s, BeginAccept(false), Create, Rearm);
    SuccessfulAccept(s);
    TwoSteps(s, BeginAccept(true), Retry);
    FailedAccept(s);
  }

  lemma SuccessfulAccept(s: State)
    requires Inv(s) && !s.isStopped && Enabled(s, BeginAccept(false))
    ensures var r := Step(Step(Step(s, BeginAccept(false)), Create), Rearm);
      && r.started == s.started + {s.next} && s.next !in s.started
      && r.sessions == s.sessions + {s.next} && s.next !in r.shutDown && s.next !in r.released
      && r.arming.Listening? && r.turn.Idle?
  {
    StepKeepsInv(s, BeginAccept(false));
    StartStep(Step(s, BeginAccept(false)), Create);
    hide Inv;
  }

  lemma FailedAccept(s: State)
    requires !s.isStopped && Enabled(s, BeginAccept(false))
    ensures Step(Step(s, BeginAccept(true)), Retry) == s.(arming := RetryTimer)
  {
  }

  lemma TwoSteps(s: State, e1: Event, e2: Event)
    ensures Run(s, [e1, e2]) == Step(Step(s, e1), e2)
  {
    hide Step;
    assert [e1, e2][1..] == [e2] && [e2][1..] == [];
    assert Run(Step(s, e1), [e2]) == Run(Step(Step(s, e1), e2), []);
  }

  lemma ThreeSteps(s: State, e1: Event, e2: Event, e3: Event)
    ensures Run(s, [e1, e2, e3]) == Step(Step(Step(s, e1), e2), e3)
  {
    hide Step;
    assert [e1, e2, e3][1..] == [e2, e3];
    TwoSteps(Step(s, e1), e2, e3);
  }

  // ---------- Accepting ----------

  predicate Armed(s: State) {
    !s.arming.Nothing? || InAccept(s.turn)
  }

  predicate Throws(e: Event) {
    e.Throw? || e.CreateThenThrow?
  }

  /** Some event of the run ends an accept handler by an exception. */
  predicate ThrowOccurs(s: State, es: seq<Event>)
    decreases |es|
  {
    es != [] && ((Throws(es[0]) && Enabled(s, es[0])) || ThrowOccurs(Step(s, es[0]), es[1..]))
  }

  lemma ArmedStep(s: State, e: Event)
    requires Inv(s) && !Step(s, e).isStopped
    ensures Armed(Step(s, e)) <==> Armed(s) && !(Throws(e) && Enabled(s, e))
  {
    hide OwnershipInv, CoverInv;
  }

  lemma {:induction false} StoppedStays(s: State, es: seq<Event>)
    requires s.isStopped
    ensures Run(s, es).isStopped
    decreases |es|
  {
    if es == [] {
    } else {
      StoppedStays(Step(s, es[0]), es[1..]);
    }
  }

  /** While the server is not asked to stop it keeps accepting if and only if no accept handler ends
      by an exception: one such exception, and it never accepts again. */
  lemma {:induction false} AcceptingContinuesIff(s: State, es: seq<Event>)
    requires Inv(s) && !Run(s, es).isStopped
    ensures Armed(Run(s, es)) <==> Armed(s) && !ThrowOccurs(s, es)
    decreases |es|
  {
    if es == [] {
    } else {
      var next := Step(s, es[0]);
      if next.isStopped {
        StoppedStays(next, es[1..]);
      }
      ArmedStep(s, es[0]);
      StepKeepsInv(s, es[0]);
      hide Inv, Step, Armed, Throws, Enabled;
      AcceptingContinuesIff(next, es[1..]);
    }
  }

  /** An accept handler that begins after the flag is set starts no session and arms nothing. */
  lemma StoppedServerDisarms(s: State, failed: bool)
    requires Inv(s) && s.isStopped && Enabled(s, BeginAccept(failed))
    ensures !Armed(Step(s, BeginAccept(failed))) && Step(s, BeginAccept(failed)).started == s.started
  {
    hide OwnershipInv, CoverInv;
  }

  // ---------- A stopped server goes quiet ----------

  /** The events of accept handlers and of what arms them. */
  predicate IsAcceptEvent(e: Event) {
    e.BeginStart? || e.BeginAccept? || e.Create? || e.CreateThenThrow? || e.Retry? || e.Rearm? || e.Throw?
  }

  predicate BeginsAcceptTurn(e: Event) {
    e.BeginStart? || e.BeginAccept?
  }

  /** How many accept events can still happen once the flag is set, and how many of them begin a turn. */
  function AcceptEventsLeft(s: State): nat {
    match s.turn
    case Creating => 2
    case Retrying => 3
    case Rearming => 1
    case _ => if s.arming.Nothing? then 0 else if s.arming.Listening? then 1 else 2
  }

  function AcceptTurnsLeft(s: State): nat {
    if s.turn.Retrying? || (!InAccept(s.turn) && !s.arming.Nothing?) then 1 else 0
  }

  function CountEvents(s: State, es: seq<Event>, counted: Event -> bool): nat
    decreases |es|
  {
    if es == [] then 0
    else (if Enabled(s, es[0]) && counted(es[0]) then 1 else 0) + CountEvents(Step(s, es[0]), es[1..], counted)
  }

  lemma QuietStep(s: State, e: Event)
    requires Inv(s) && s.isStopped
    ensures var t := Step(s, e);
      && t.isStopped
      && AcceptEventsLeft(t) + (if Enabled(s, e) && IsAcceptEvent(e) then 1 else 0) <= AcceptEventsLeft(s)
      && AcceptTurnsLeft(t) + (if Enabled(s, e) && BeginsAcceptTurn(e) then 1 else 0) <= AcceptTurnsLeft(s)
  {
    hide OwnershipInv, CoverInv;
  }

  /** Once the flag is set at most one more accept turn begins and at most three accept events happen
      in all; the server is disarmed as soon as none is left, and until then a live server outside
      Stop's loop can take one. */
  lemma {:induction false} StoppedServerGoesQuiet(s: State, es: seq<Event>)
    requires Inv(s) && s.isStopped
    ensures var r := Run(s, es);
      && CountEvents(s, es, BeginsAcceptTurn) + AcceptTurnsLeft(r) <= AcceptTurnsLeft(s) <= 1
      && CountEvents(s, es, IsAcceptEvent) + AcceptEventsLeft(r) <= AcceptEventsLeft(s) <= 3
      && (Armed(r) <==> AcceptEventsLeft(r) > 0)
      && (Armed(r) && r.alive && !r.turn.Stopping? ==> exists e :: IsAcceptEvent(e) && Enabled(r, e))
    decreases |es|
  {
    if es == [] {
      ArmedCanStep(s);
    } else {
      QuietStep(s, es[0]);
      StepKeepsInv(s, es[0]);
      hide Inv, Step, Armed, Enabled, AcceptEventsLeft, AcceptTurnsLeft, IsAcceptEvent, BeginsAcceptTurn;
      StoppedServerGoesQuiet(Step(s, es[0]), es[1..]);
      TurnsAreBounded(s);
    }
  }

  lemma TurnsAreBounded(s: State)
    ensures AcceptTurnsLeft(s) <= 1 && AcceptEventsLeft(s) <= 3
  {
  }

  lemma ArmedCanStep(s: State)
    requires Inv(s)
    ensures Armed(s) <==> AcceptEventsLeft(s) > 0
    ensures Armed(s) && s.alive && !s.turn.Stopping? ==> exists e :: IsAcceptEvent(e) && Enabled(s, e)
  {
    hide OwnershipInv, CoverInv;
    if Armed(s) && s.alive && !s.turn.Stopping? {
      var e :=
        if s.turn.Creating? then Create
        else if s.turn.Retrying? then Retry
        else if s.turn.Rearming? then Rearm
        else if s.arming.Listening? then BeginAccept(false)
        else BeginStart;
      assert IsAcceptEvent(e) && Enabled(s, e);
    }
  }

  // ---------- A stop that throws ----------

  lemma FailedStep(s: State, e: Event)
    requires Inv(s) && s.stop.Failed?
    ensures Step(s, e).stop.Failed? && !Step(s, e).turn.Stopping?
    ensures Step(s, e).shutDown == s.shutDown && Step(s, e).started == s.started
  {
    hide OwnershipInv, CoverInv;
  }

  lemma {:induction false} FailedStays(s: State, es: seq<Event>)
    requires Inv(s) && s.stop.Failed?
    ensures var r := Run(s, es);
      r.stop.Failed? && !r.turn.Stopping? && r.shutDown == s.shutDown && r.started == s.started
    decreases |es|
  {
    if es == [] {
      NotStopping(s);
    } else {
      FailedStep(s, es[0]);
      StepKeepsInv(s, es[0]);
      hide Inv, Step;
      FailedStays(Step(s, es[0]), es[1..]);
    }
  }

  lemma NotStopping(s: State)
    requires Inv(s) && s.stop.Failed?
    ensures !s.turn.Stopping?
  {
    hide OwnershipInv, CoverInv;
  }

  /** When Stop's task throws, its loop never runs again and shuts nothing more down; in any continuation
      every session ever started is handled if and only if everyone else has released those that the
      loop had not visited. */
  lemma ThrowingStopHandlesIff(s: State, es: seq<Event>)
    requires Inv(s) && s.turn.Stopping?
    ensures var r := Run(Step(s, StopThrow), es);
      && r.stop.Failed? && !r.turn.Stopping? && r.shutDown == s.shutDown && r.started == s.started
      && ((forall id: SessionId :: id in r.started ==> Handled(r, id)) <==>
          (forall id: SessionId :: id in s.turn.todo ==> id in r.released))
  {
    var thrown := Step(s, StopThrow);
    var r := Run(thrown, es);
    StepKeepsInv(s, StopThrow);
    FailedStays(thrown, es);
    ReleasedGrows(thrown, es);
    Unvisited(s);
    hide Inv, Run;
    forall id: SessionId | id in s.started && id !in s.turn.todo
      ensures Handled(r, id)
    {
      assert Handled(s, id);
    }
  }

  /** While the loop runs, a session is either still to be visited, and not yet shut down, or handled. */
  lemma Unvisited(s: State)
    requires Inv(s) && s.turn.Stopping?
    ensures forall id: SessionId :: id in s.turn.todo ==> id in s.started && id !in s.shutDown
    ensures forall id: SessionId :: id in s.started && id !in s.turn.todo ==> Handled(s, id)
  {
  }

  lemma {:induction false} ReleasedGrows(s: State, es: seq<Event>)
    ensures s.released <= Run(s, es).released
    decreases |es|
  {
    if es == [] {
    } else {
      ReleasedGrows(Step(s, es[0]), es[1..]);
    }
  }
}
