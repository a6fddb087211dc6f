/** The server as the object it is: each handler of the strand runs the protocol's steps in order. */
module TcpServer {
  import opened AcceptProtocol

  lemma {:induction false} RunAppend(s: State, es: seq<Event>, e: Event)
    ensures Run(s, es + [e]) == Step(Run(s, es), e)
    decreases |es|
  {
    hide Step;
    if es == [] {
      assert es + [e] == [e];
      assert Run(s, [e]) == Run(Step(s, e), [e][1..]);
    } else {
      assert (es + [e])[1..] == es[1..] + [e];
      RunAppend(Step(s, es[0]), es[1..], e);
    }
  }

  datatype Outcome = Completes | ThrowsBeforeSession | ThrowsAfterSession

  class Server {
    var isStopped: bool
    var arming: Arming
    var sessions: set<SessionId>
    var next: SessionId
    var released: set<SessionId>        // sessions whose weak reference cannot be locked
    var shutDown: set<SessionId>
    ghost var turn: Turn
    ghost var stop: StopTask
    ghost var started: set<SessionId>
    ghost var erasures: set<SessionId>
    ghost var freed: multiset<SessionId>
    ghost var alive: bool

    ghost function State(): State
      reads this
    {
      AcceptProtocol.State(isStopped, turn, arming, stop, sessions, started, shutDown, released, erasures,
                           freed, next, alive)
    }

    constructor ()
      ensures State() == Initial()
    {
      isStopped, arming, sessions, next, released, shutDown := false, FirstCall, {}, 0, {}, {};
      turn, stop, started, erasures, freed, alive := Idle, NotAsked, {}, {}, multiset{}, true;
    }

    /** `Stop`: any thread, at any moment; the task is posted once. */
    method Stop()
      modifies this`isStopped, this`stop
      ensures State() == Apply(old(State()), SetFlag)
    {
      if !isStopped {
        stop := Posted;
      }
      isStopped := true;
    }

    method StartAcceptor()
      requires turn.Rearming?
      modifies this`arming, this`turn
      ensures State() == Apply(old(State()), Rearm)
    {
      arming := if isStopped then Nothing else Listening;
      turn := Idle;
    }

    /** `OnAccept`; `raced` says that another thread calls Stop while the handler starts the session. */
    method OnAccept(failed: bool, outcome: Outcome, raced: bool) returns (ghost trace: seq<Event>)
      requires Enabled(State(), BeginAccept(failed))
      modifies this
      ensures State() == Run(old(State()), trace)
      ensures trace ==
              if old(isStopped) then [BeginAccept(failed)]
              else if failed then [BeginAccept(failed), Retry]
              else if outcome.ThrowsBeforeSession? then [BeginAccept(failed), Throw]
              else if outcome.ThrowsAfterSession? then [BeginAccept(failed), CreateThenThrow]
              else if raced then [BeginAccept(failed), Create, SetFlag, Rearm]
              else [BeginAccept(failed), Create, Rearm]
    {
      hide Step, Run;
      ghost var before := State();
      trace := [BeginAccept(failed)];
      Unfold(before, BeginAccept(failed));
      var goOn := BeginHandler(failed);
      if !goOn {
        return;
      }
      if failed {
        Extend(before, trace, Retry);
        trace := trace + [Retry];
        arming := RetryTimer;
        turn := Idle;
        return;
      }
      if outcome.ThrowsBeforeSession? {
        Extend(before, trace, Throw);
        trace := trace + [Throw];
        turn := Idle;
        return;
      }
      ghost var made := if outcome.ThrowsAfterSession? then CreateThenThrow else Create;
      Extend(before, trace, made);
      trace := trace + [made];
      MakeSession(outcome.ThrowsAfterSession?);
      if outcome.ThrowsAfterSession? {
        return;
      }
      if raced {
        Extend(before, trace, SetFlag);
        trace := trace + [SetFlag];
        Stop();
      }
      Extend(before, trace, Rearm);
      trace := trace + [Rearm];
      StartAcceptor();
    }

    /** The first test of the flag. */
    method BeginHandler(failed: bool) returns (goOn: bool)
      requires Enabled(State(), BeginAccept(failed))
      modifies this`arming, this`turn
      ensures State() == Apply(old(State()), BeginAccept(failed)) && goOn == !isStopped
    {
      arming := Nothing;
      goOn := !isStopped;
      if goOn {
        turn := if failed then Retrying else Creating;
      }
    }

    method MakeSession(throws: bool)
      requires turn.Creating?
      modifies this`sessions, this`started, this`next, this`turn
      ensures State() == Apply(old(State()), if throws then CreateThenThrow else Create)
    {
      sessions := sessions + {next};
      started := started + {next};
      next := next + 1;
      turn := if throws then Idle else Rearming;
    }

    /** The task Stop posts: every session that can still be locked is shut down, once, and the set is
        cleared. */
    method StopSessions() returns (ghost trace: seq<Event>)
      requires Enabled(State(), BeginStop)
      modifies this
      ensures State() == Run(old(State()), trace)
      ensures stop.Done? && turn.Idle? && sessions == {}
      ensures shutDown == old(shutDown) + (old(sessions) - old(released))
    {
      hide Step, Run, Apply;
      ghost var before := State();
      trace := [BeginStop];
      Unfold(before, BeginStop);
      var todo := BeginStopping();
      while todo != {}
        invariant State() == Run(before, trace)
        invariant turn == Stopping(todo, old(sessions)) && todo <= sessions == old(sessions)
        invariant released == old(released)
        invariant shutDown == old(shutDown) + (sessions - todo - released)
        decreases todo
      {
        var id :| id in todo;
        Extend(before, trace, Visit(id));
        trace := trace + [Visit(id)];
        todo := VisitSession(id, todo);
      }
      Extend(before, trace, EndStop);
      trace := trace + [EndStop];
      EndStopping();
    }

    method BeginStopping() returns (todo: set<SessionId>)
      modifies this`turn, this`stop
      ensures State() == Apply(old(State()), BeginStop) && todo == sessions && turn == Stopping(todo, sessions)
    {
      todo := sessions;
      turn := Stopping(todo, sessions);
      stop := Running;
    }

    method EndStopping()
      modifies this`sessions, this`turn, this`stop
      ensures State() == Apply(old(State()), EndStop) && sessions == {} && turn.Idle? && stop.Done?
    {
      sessions := {};
      turn := Idle;
      stop := Done;
    }

    /** One pass of the loop: a session that can be locked is shut down. */
    method VisitSession(id: SessionId, todo: set<SessionId>) returns (rest: set<SessionId>)
      requires turn.Stopping? && turn.todo == todo && id in todo
      modifies this`turn, this`shutDown
      ensures State() == Apply(old(State()), Visit(id))
      ensures rest == todo - {id} && turn == Stopping(rest, old(turn.seen))
      ensures shutDown == if id in released then old(shutDown) else old(shutDown) + {id}
    {
      if id !in released {
        shutDown := shutDown + {id};
      }
      rest := todo - {id};
      turn := Stopping(rest, turn.seen);
    }

    /** The task a deleter posts. */
    method EraseSession(id: SessionId)
      requires Enabled(State(), Erase(id))
      modifies this
      ensures State() == Apply(old(State()), Erase(id))
    {
      sessions := sessions - {id};
      erasures := erasures - {id};
      freed := freed + multiset{id};
    }
  }

  lemma Unfold(s: State, e: Event)
    requires Enabled(s, e)
    ensures Run(s, [e]) == Apply(s, e)
  {
    assert Run(s, [e]) == Run(Step(s, e), [e][1..]);
  }

  lemma Extend(s: State, es: seq<Event>, e: Event)
    requires Enabled(Run(s, es), e)
    ensures Run(s, es + [e]) == Apply(Run(s, es), e)
  {
    RunAppend(s, es, e);
  }
}
