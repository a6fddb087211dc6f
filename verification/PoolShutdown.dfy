/** What the destructor of the thread pool guarantees, from the state machine in `ThreadPool`:
    every message is handled exactly once, every worker ends, and nothing can get stuck. */
module PoolShutdown {
  import opened ThreadPool

  // ---------- Every message is handled once ----------

  /** The items that left the queue with a given fate. */
  function WithFate(gone: seq<(Msg, Q.Fate)>, fate: Q.Fate): multiset<Msg> {
    if gone == [] then multiset{}
    else
      var last := gone[|gone| - 1];
      WithFate(gone[..|gone| - 1], fate) + if last.1 == fate then multiset{last.0} else multiset{}
  }

  lemma WithFateAppend(gone: seq<(Msg, Q.Fate)>, g: (Msg, Q.Fate), fate: Q.Fate)
    ensures WithFate(gone + [g], fate) == WithFate(gone, fate) + if g.1 == fate then multiset{g.0} else multiset{}
  {
    assert (gone + [g])[..|gone|] == gone;
  }

  lemma {:induction false} FatesArePartition(gone: seq<(Msg, Q.Fate)>)
    ensures multiset(Q.Firsts(gone)) == WithFate(gone, Q.Popped) + WithFate(gone, Q.Overrun)
  {
    if gone == [] {
    } else {
      hide WithFate, Q.Firsts;
      var p, g := gone[..|gone| - 1], gone[|gone| - 1];
      FatesArePartition(p);
      assert gone == p + [g];
      FirstsAppend(p, g);
      WithFateAppend(p, g, Q.Popped);
      WithFateAppend(p, g, Q.Overrun);
    }
  }

  lemma FirstsAppend(gone: seq<(Msg, Q.Fate)>, g: (Msg, Q.Fate))
    ensures multiset(Q.Firsts(gone + [g])) == multiset(Q.Firsts(gone)) + multiset{g.0}
  {
    assert Q.Firsts(gone + [g]) == Q.Firsts(gone) + [g.0];
  }

  /** What workers have popped is processed, or in their hands, or has ended them. */
  ghost predicate HandledInv(p: Pool) {
    && WithFate(p.q.gone, Q.Popped) == p.processed + p.popped + p.holding + multiset{}[Terminate := p.exited]
    && p.processed[Terminate] == 0
    && WithFate(p.q.gone, Q.Overrun)[Terminate] == 0
  }

  /** Only the pushes of clients overrun, and only the passes of workers pop. */
  lemma GoneAfterClient(q: Q.State<Msg>, step: Q.Step<Msg>)
    requires ClientStep(step) && Q.Enabled(q, step) && |q.items| <= q.capacity
    ensures var t := Q.Apply(q, step);
      && WithFate(t.gone, Q.Popped) == WithFate(q.gone, Q.Popped)
      && (multiset(q.items)[Terminate] == 0 ==>
            WithFate(t.gone, Q.Overrun)[Terminate] == WithFate(q.gone, Q.Overrun)[Terminate])
  {
    hide WithFate;
    var t := Q.Apply(q, step);
    if t.gone != q.gone {
      var first := (q.items + [step.item])[0];
      assert first == step.item || first in q.items;
      WithFateAppend(q.gone, (first, Q.Overrun), Q.Popped);
      WithFateAppend(q.gone, (first, Q.Overrun), Q.Overrun);
    }
  }

  lemma GoneAfterTake(q: Q.State<Msg>, step: Q.Step<Msg>)
    requires (step.Dequeue? || step.DequeueAgain?) && Q.Enabled(q, step)
    ensures var t := Q.Apply(q, step);
      && WithFate(t.gone, Q.Popped) == WithFate(q.gone, Q.Popped) + Taken(q)
      && WithFate(t.gone, Q.Overrun) == WithFate(q.gone, Q.Overrun)
  {
    hide WithFate;
    if q.items != [] {
      WithFateAppend(q.gone, (q.items[0], Q.Popped), Q.Popped);
      WithFateAppend(q.gone, (q.items[0], Q.Popped), Q.Overrun);
    }
  }

  lemma GoneStays(p: Pool, e: Event)
    requires Enabled(p, e) && !e.Client? && !e.WorkerDequeue? && !e.WorkerDequeueAgain?
    ensures QueueAfter(p, e).gone == p.q.gone
  {
  }

  lemma HandledStep(p: Pool, e: Event)
    requires Inv(p) && HandledInv(p) && Enabled(p, e)
    ensures HandledInv(Apply(p, e))
  {
    hide Inv, HandledInv, Apply, Enabled;
    if e.Client? {
      HandledAfterClient(p, e);
    } else if e.WorkerDequeue? || e.WorkerDequeueAgain? {
      HandledAfterTake(p, e);
    } else if e.WorkerNotify? {
      HandledAfterNotify(p, e);
    } else if e.WorkerProcess? {
      HandledAfterProcess(p, e.msg);
      ProcessIsApply(p, e.msg);
    } else {
      HandledAfterOther(p, e);
    }
  }

  lemma HandledAfterClient(p: Pool, e: Event)
    requires Inv(p) && HandledInv(p) && Enabled(p, e) && e.Client?
    ensures HandledInv(Apply(p, e))
  {
    hide WithFate, Q.Apply, Q.Enabled, QueueInv, WorkersInv, DtorInv, ClientStep;
    Bounded(p);
    GoneAfterClient(p.q, e.step);
  }

  lemma HandledAfterTake(p: Pool, e: Event)
    requires HandledInv(p) && Enabled(p, e) && (e.WorkerDequeue? || e.WorkerDequeueAgain?)
    ensures HandledInv(Apply(p, e))
  {
    hide WithFate, Q.Apply, Q.Enabled, Taken;
    GoneAfterTake(p.q, StepOf(e).value);
  }

  lemma HandledAfterNotify(p: Pool, e: Event)
    requires HandledInv(p) && Enabled(p, e) && e.WorkerNotify?
    ensures HandledInv(Apply(p, e))
  {
    GoneStays(p, e);
    hide WithFate, Q.Apply, Q.Enabled;
    assert p.popped == (p.popped - multiset{e.msg}) + multiset{e.msg};
  }

  lemma HandledAfterOther(p: Pool, e: Event)
    requires HandledInv(p) && Enabled(p, e) && !e.Client? && !e.WorkerDequeue? && !e.WorkerDequeueAgain?
    requires !e.WorkerNotify? && !e.WorkerProcess?
    ensures HandledInv(Apply(p, e))
  {
    GoneStays(p, e);
    hide WithFate, Q.Apply, Q.Enabled;
  }

  lemma Bounded(p: Pool)
    requires QueueInv(p)
    ensures |p.q.items| <= p.q.capacity
  {
  }

  lemma HandledAfterProcess(p: Pool, m: Msg)
    requires HandledInv(p) && Enabled(p, WorkerProcess(m))
    ensures HandledInv(Process(p, m))
  {
    hide WithFate;
    assert p.holding == (p.holding - multiset{m}) + multiset{m};
    assert multiset{}[Terminate := p.exited + 1] == multiset{}[Terminate := p.exited] + multiset{Terminate};
  }

  lemma {:induction false} RunKeepsHandled(p: Pool, es: seq<Event>)
    requires Inv(p) && HandledInv(p) && ValidRun(p, es)
    ensures HandledInv(Run(p, es))
    decreases |es|
  {
    hide Inv, HandledInv, Apply, Enabled;
    if es == [] {
    } else {
      StepKeepsInv(p, es[0]);
      HandledStep(p, es[0]);
      RunKeepsHandled(Apply(p, es[0]), es[1..]);
    }
  }

  /** After the destructor has joined, the queue is empty, no worker holds a message, every worker
      has ended on a terminate message of its own, and every other message ever pushed was handled
      exactly once, except those that the overrun policy dropped. */
  lemma FinishedPool(capacity: nat, threads: nat, es: seq<Event>)
    requires 1 <= threads <= 1000
    requires ValidRun(Create(capacity, threads).value, es)
    requires Run(Create(capacity, threads).value, es).dtor == Finished
    ensures var p := Run(Create(capacity, threads).value, es);
      && p.q.items == [] && p.popped == multiset{} && p.holding == multiset{}
      && p.exited == p.threads && p.ready == 0 && p.q.consumersAsleep == 0
      && multiset(p.q.log) == p.processed + WithFate(p.q.gone, Q.Overrun) + multiset{}[Terminate := p.threads]
      && p.processed[Terminate] == 0
  {
    hide WithFate, Apply, Enabled, Run, ValidRun;
    var init := Create(capacity, threads).value;
    FinishingNeedsRoom(capacity, threads, es);
    CreateInv(capacity, threads);
    InitHandled(init);
    RunKeepsInv(init, es);
    RunKeepsHandled(init, es);
    var p := Run(init, es);
    NothingLeft(p);
    FatesArePartition(p.q.gone);
  }

  lemma InitHandled(p: Pool)
    requires p.q.gone == [] && p.exited == 0 && p.processed == p.popped == p.holding == multiset{}
    ensures HandledInv(p)
  {
    assert multiset{}[Terminate := 0] == multiset{};
  }

  lemma LastIsMember(items: seq<Msg>)
    ensures items != [] && items[|items| - 1] == Terminate ==> multiset(items)[Terminate] > 0
  {
    if items != [] && items[|items| - 1] == Terminate {
      assert Terminate in items;
    }
  }

  lemma NothingLeft(p: Pool)
    requires Inv(p) && p.dtor == Finished
    ensures p.q.items == [] && p.popped == multiset{} && p.holding == multiset{} && p.exited == p.threads
    ensures p.ready == 0 && p.q.consumersAsleep == 0 && p.q.log == Q.Firsts(p.q.gone)
  {
    hide Q.Firsts, Q.CountOverruns;
    LastIsMember(p.q.items);
    assert p.q.log == Q.Firsts(p.q.gone) + [];
  }

  // ---------- One worker keeps the order ----------

  /** The messages that left the queue by a pop, in order. */
  function PoppedOf(gone: seq<(Msg, Q.Fate)>): seq<Msg> {
    if gone == [] then []
    else
      var last := gone[|gone| - 1];
      PoppedOf(gone[..|gone| - 1]) + if last.1.Popped? then [last.0] else []
  }

  lemma PoppedOfMore(gone: seq<(Msg, Q.Fate)>, g: (Msg, Q.Fate))
    ensures PoppedOf(gone + [g]) == PoppedOf(gone) + if g.1.Popped? then [g.0] else []
  {
    assert (gone + [g])[..|gone|] == gone;
  }

  /** What the worker has in its hands, if anything. */
  ghost predicate InHand(p: Pool, h: seq<Msg>) {
    |h| <= 1 && multiset(h) == p.popped + p.holding
  }

  /** With one worker, what was popped was handled in that order, up to the message in hand; and the
      worker ends on a terminate message. */
  ghost predicate OrderInv(p: Pool) {
    && (exists h :: InHand(p, h) && PoppedOf(p.q.gone) == p.order + h)
    && (p.exited > 0 ==> p.order != [] && p.order[|p.order| - 1] == Terminate)
  }

  lemma PoppedAfterClient(q: Q.State<Msg>, step: Q.Step<Msg>)
    requires ClientStep(step) && Q.Enabled(q, step)
    ensures PoppedOf(Q.Apply(q, step).gone) == PoppedOf(q.gone)
  {
    hide PoppedOf;
    var t := Q.Apply(q, step);
    if t.gone != q.gone {
      PoppedOfMore(q.gone, ((q.items + [step.item])[0], Q.Overrun));
    }
  }

  lemma PoppedAfterTake(q: Q.State<Msg>, step: Q.Step<Msg>)
    requires (step.Dequeue? || step.DequeueAgain?) && Q.Enabled(q, step)
    ensures PoppedOf(Q.Apply(q, step).gone) == PoppedOf(q.gone) + if q.items == [] then [] else [q.items[0]]
  {
    hide PoppedOf;
    if q.items != [] {
      PoppedOfMore(q.gone, (q.items[0], Q.Popped));
    }
  }

  /** The one worker has nothing in hand when it dequeues, and is not there after it has ended. */
  lemma OneWorkerTakes(p: Pool, e: Event)
    requires Inv(p) && p.threads == 1 && Enabled(p, e) && (e.WorkerDequeue? || e.WorkerDequeueAgain?)
    ensures p.popped == multiset{} && p.holding == multiset{} && p.exited == 0
  {
    hide QueueInv, DtorInv, TerminateInv;
  }

  lemma OneWorkerHolds(p: Pool, m: Msg)
    requires Inv(p) && p.threads == 1 && m in p.holding
    ensures p.popped == multiset{} && p.holding == multiset{m} && p.exited == 0
  {
    hide QueueInv, DtorInv, TerminateInv;
    assert p.holding == (p.holding - multiset{m}) + multiset{m};
  }

  lemma NothingInHand(p: Pool, h: seq<Msg>)
    requires InHand(p, h) && p.popped == multiset{} && p.holding == multiset{}
    ensures h == []
  {
    assert |multiset(h)| == |h|;
  }

  lemma Take(p: Pool, e: Event)
    requires Enabled(p, e) && (e.WorkerDequeue? || e.WorkerDequeueAgain?)
    requires p.popped == multiset{} && p.holding == multiset{}
    ensures var t := Apply(p, e);
      && t.q == Q.Apply(p.q, StepOf(e).value) && t.order == p.order && t.exited == p.exited
      && InHand(t, if p.q.items == [] then [] else [p.q.items[0]])
  {
    hide Q.Apply, Q.Enabled;
  }

  lemma OrderAfterTake(p: Pool, e: Event)
    requires Inv(p) && OrderInv(p) && p.threads == 1 && Enabled(p, e) && (e.WorkerDequeue? || e.WorkerDequeueAgain?)
    ensures OrderInv(Apply(p, e))
  {
    OneWorkerTakes(p, e);
    Take(p, e);
    PoppedAfterTake(p.q, StepOf(e).value);
    hide PoppedOf, Q.Apply, Q.Enabled, Inv, InHand, Apply, Enabled;
    var h :| InHand(p, h) && PoppedOf(p.q.gone) == p.order + h;
    NothingInHand(p, h);
    var t := Apply(p, e);
    var taken := if p.q.items == [] then [] else [p.q.items[0]];
    assert InHand(t, taken) && PoppedOf(t.q.gone) == t.order + taken;
  }

  lemma OneInHand(p: Pool, h: seq<Msg>, m: Msg)
    requires InHand(p, h) && p.popped == multiset{} && p.holding == multiset{m}
    ensures h == [m]
  {
    assert |multiset(h)| == |h|;
    assert h[0] in multiset(h);
  }

  lemma HandAfterProcess(p: Pool, m: Msg)
    requires p.popped == multiset{} && p.holding == multiset{m}
    ensures var t := Process(p, m);
      && InHand(t, []) && t.q == p.q && t.order == p.order + [m]
      && (t.exited > p.exited ==> m == Terminate)
  {
  }

  lemma OrderAfterProcess(p: Pool, m: Msg)
    requires Inv(p) && OrderInv(p) && p.threads == 1 && m in p.holding
    ensures OrderInv(Process(p, m))
  {
    OneWorkerHolds(p, m);
    hide PoppedOf, Inv, InHand, Process;
    var h :| InHand(p, h) && PoppedOf(p.q.gone) == p.order + h;
    OneInHand(p, h, m);
    HandAfterProcess(p, m);
    var t := Process(p, m);
    assert InHand(t, []) && PoppedOf(t.q.gone) == t.order + [];
  }

  /** Every other step keeps what was popped, handled and is in hand. */
  lemma OrderStays(p: Pool, t: Pool)
    requires OrderInv(p) && PoppedOf(t.q.gone) == PoppedOf(p.q.gone) && t.order == p.order
    requires t.popped + t.holding == p.popped + p.holding && t.exited == p.exited
    ensures OrderInv(t)
  {
    hide PoppedOf;
    var h :| InHand(p, h) && PoppedOf(p.q.gone) == p.order + h;
    assert InHand(t, h) && PoppedOf(t.q.gone) == t.order + h;
  }

  lemma OrderStep(p: Pool, e: Event)
    requires Inv(p) && OrderInv(p) && p.threads == 1 && Enabled(p, e)
    ensures OrderInv(Apply(p, e))
  {
    hide Inv, OrderInv, PoppedOf, Q.Apply, Q.Enabled, ClientStep;
    if e.Client? {
      PoppedAfterClient(p.q, e.step);
      OrderStays(p, Apply(p, e));
    } else if e.WorkerDequeue? || e.WorkerDequeueAgain? {
      OrderAfterTake(p, e);
    } else if e.WorkerProcess? {
      ProcessIsApply(p, e.msg);
      OrderAfterProcess(p, e.msg);
    } else {
      GoneStays(p, e);
      if e.WorkerNotify? {
        assert p.popped == (p.popped - multiset{e.msg}) + multiset{e.msg};
      }
      OrderStays(p, Apply(p, e));
    }
  }

  lemma {:induction false} RunKeepsOrder(p: Pool, es: seq<Event>)
    requires Inv(p) && OrderInv(p) && p.threads == 1 && ValidRun(p, es)
    ensures OrderInv(Run(p, es)) && Inv(Run(p, es))
    decreases |es|
  {
    hide Inv, OrderInv, Apply, Enabled;
    if es == [] {
    } else {
      StepKeepsInv(p, es[0]);
      OrderStep(p, es[0]);
      ThreadsStay(p, es[0]);
      RunKeepsOrder(Apply(p, es[0]), es[1..]);
    }
  }

  lemma ThreadsStay(p: Pool, e: Event)
    requires Enabled(p, e)
    ensures Apply(p, e).threads == p.threads
  {
  }

  /** A pool with one worker, in every run: what was handled is, in order, what the queue gave out, up
      to the one message in hand.  After the destructor it is exactly the part of the push log that
      was not overrun, in push order, ending in the terminate message. */
  lemma OneWorkerKeepsOrder(capacity: nat, es: seq<Event>)
    requires capacity >= 1 && ValidRun(Create(capacity, 1).value, es)
    ensures var p := Run(Create(capacity, 1).value, es);
      && p.q.log == Q.Firsts(p.q.gone) + p.q.items
      && p.order <= PoppedOf(p.q.gone) && |PoppedOf(p.q.gone)| <= |p.order| + 1
      && (p.dtor.Finished? ==>
            && p.q.log == Q.Firsts(p.q.gone) && p.order == PoppedOf(p.q.gone)
            && p.order != [] && p.order[|p.order| - 1] == Terminate)
  {
    var init := Create(capacity, 1).value;
    CreateInv(capacity, 1);
    InitOrder(init);
    hide PoppedOf, Apply, Enabled, Run, ValidRun, Inv;
    RunKeepsOrder(init, es);
    var p := Run(init, es);
    LogOf(p);
    if p.dtor.Finished? {
      NothingLeft(p);
    }
  }

  lemma InitOrder(p: Pool)
    requires p.q.gone == [] && p.order == [] && p.popped == p.holding == multiset{} && p.exited == 0
    ensures OrderInv(p)
  {
    assert InHand(p, []) && PoppedOf(p.q.gone) == p.order + [];
  }

  lemma LogOf(p: Pool)
    requires Inv(p)
    ensures p.q.log == Q.Firsts(p.q.gone) + p.q.items && p.threads >= 1
  {
  }

  // ---------- Nothing gets stuck ----------

  /** Waits that end by themselves, which the guarantee below does not rely on. */
  predicate Spurious(e: Event) {
    e.WorkerSpurious? || e.DtorSpurious?
  }

  /** While the destructor waits for room, a worker is alive. */
  lemma BlockedDestructorHasWorker(p: Pool)
    requires Inv(p) && (p.dtor.Posting? ==> p.dtor.left > 0) && (p.dtor.Posting? || p.dtor.Waiting?)
    ensures p.exited < p.threads
  {
    hide QueueInv, WorkersInv;
  }

  /** Until the destructor has finished, some thread can take a step. */
  lemma DestructionProgresses(p: Pool) returns (e: Event)
    requires Inv(p) && !p.dtor.NotStarted? && !p.dtor.Finished?
    ensures Enabled(p, e) && !Spurious(e)
  {
    hide Inv, Enabled, Spurious;
    if p.dtor.Posting? {
      e := PostingProgresses(p);
    } else if p.dtor.Notifying? {
      e := NotifyingProgresses(p);
    } else if p.dtor.Waiting? && p.q.producersWoken > 0 {
      e := DtorPostAgain;
      WaitingProgresses(p);
    } else if p.ready > 0 || p.q.consumersWoken > 0 || p.popped != multiset{} || p.holding != multiset{} {
      e := WorkersProgress(p);
    } else {
      e := DtorJoin;
      JoiningProgresses(p);
    }
  }

  lemma PostingProgresses(p: Pool) returns (e: Event)
    requires p.dtor.Posting?
    ensures Enabled(p, e) && !Spurious(e)
  {
    e := if p.dtor.left == 0 then DtorPosted else DtorPost;
  }

  lemma NotifyingProgresses(p: Pool) returns (e: Event)
    requires Inv(p) && p.dtor.Notifying?
    ensures Enabled(p, e) && !Spurious(e)
  {
    hide QueueInv, TerminateInv;
    e := DtorNotify(if p.q.consumersAsleep > 0 then Q.Consumer else Q.Nobody);
  }

  /** A woken destructor has its terminate message to push. */
  lemma WaitingProgresses(p: Pool)
    requires Inv(p) && p.dtor.Waiting? && p.q.producersWoken > 0
    ensures Enabled(p, DtorPostAgain) && !Spurious(DtorPostAgain)
  {
    hide QueueInv, WorkersInv, TerminateInv;
  }

  lemma WorkersProgress(p: Pool) returns (e: Event)
    requires Inv(p)
    requires p.ready > 0 || p.q.consumersWoken > 0 || p.popped != multiset{} || p.holding != multiset{}
    ensures Enabled(p, e) && !Spurious(e)
  {
    hide QueueInv, DtorInv, TerminateInv;
    if p.ready > 0 {
      e := WorkerDequeue;
    } else if p.q.consumersWoken > 0 {
      e := WorkerDequeueAgain;
    } else if p.popped != multiset{} {
      var m :| m in p.popped;
      e := WorkerNotify(m);
    } else {
      var m :| m in p.holding;
      e := WorkerProcess(m);
    }
  }

  lemma JoiningProgresses(p: Pool)
    requires Inv(p) && (p.dtor.Joining? || (p.dtor.Waiting? && p.q.producersWoken == 0))
    requires p.ready == 0 && p.q.consumersWoken == 0 && p.popped == multiset{} && p.holding == multiset{}
    ensures Enabled(p, DtorJoin) && !Spurious(DtorJoin)
  {
    hide Inv;
    OnlySleepersLeft(p);
  }

  /** With every live worker asleep and no notification under way, the destructor can join. */
  lemma OnlySleepersLeft(p: Pool)
    requires Inv(p) && (p.dtor.Joining? || (p.dtor.Waiting? && p.q.producersWoken == 0))
    requires p.ready == 0 && p.q.consumersWoken == 0 && p.popped == multiset{} && p.holding == multiset{}
    ensures p.dtor.Joining? && p.exited == p.threads
  {
    hide Q.HistoryInv;
  }

  /** An upper bound on the steps left until the destructor has finished. */
  function Measure(p: Pool): nat {
    var d := match p.dtor
      case NotStarted => 0
      case Posting(l) => 8 * l + 2
      case Waiting(l) => 8 * l
      case Notifying(l) => 8 * l + 4
      case Joining => 1
      case Finished => 0;
    d + p.q.producersWoken + 4 * |p.q.items| + p.q.consumersWoken + p.ready + 4 * |p.popped| + 2 * |p.holding|
  }

  lemma MeasureStep(p: Pool, e: Event)
    requires Inv(p) && !p.dtor.NotStarted? && Enabled(p, e)
    ensures !Apply(p, e).dtor.NotStarted?
    ensures Measure(Apply(p, e)) + 1 <= Measure(p) + if Spurious(e) then 2 else 0
  {
    hide Inv, Q.Apply, Measure, Enabled, Apply, Spurious;
    NoTimedSleepers(p);
    match e {
      case Client(_) => MeasureLocal(p, e);
      case WorkerDequeue => MeasureTake(p, e);
      case WorkerDequeueAgain => MeasureTake(p, e);
      case DtorPost => MeasurePost(p, e);
      case DtorPostAgain => MeasurePost(p, e);
      case WorkerProcess(m) => MeasureLocal(p, e);
      case StartDestroy => MeasureLocal(p, e);
      case DtorPosted => MeasureLocal(p, e);
      case DtorJoin => MeasureLocal(p, e);
      case WorkerNotify(m) => MeasureWorkerNotify(p, m);
      case DtorNotify(wake) => MeasureDtorNotify(p, wake);
      case WorkerSpurious => MeasureSpurious(p, e);
      case DtorSpurious => MeasureSpurious(p, e);
    }
  }

  lemma MeasureTake(p: Pool, e: Event)
    requires !p.dtor.NotStarted? && Enabled(p, e) && (e.WorkerDequeue? || e.WorkerDequeueAgain?)
    ensures !Apply(p, e).dtor.NotStarted? && Measure(Apply(p, e)) + 1 <= Measure(p) && !Spurious(e)
  {
    hide Q.Apply, Q.Enabled;
    TakeFacts(p.q, StepOf(e).value);
  }

  lemma MeasurePost(p: Pool, e: Event)
    requires !p.dtor.NotStarted? && Enabled(p, e) && (e.DtorPost? || e.DtorPostAgain?)
    ensures !Apply(p, e).dtor.NotStarted? && Measure(Apply(p, e)) + 1 <= Measure(p) && !Spurious(e)
  {
    hide Q.Apply, Q.Enabled;
    PostFacts(p.q, StepOf(e).value);
  }

  lemma MeasureWorkerNotify(p: Pool, m: Msg)
    requires !p.dtor.NotStarted? && Enabled(p, WorkerNotify(m)) && p.q.timedAsleep == 0
    ensures !Apply(p, WorkerNotify(m)).dtor.NotStarted? && !Spurious(WorkerNotify(m))
    ensures Measure(Apply(p, WorkerNotify(m))) + 1 <= Measure(p)
  {
    hide Q.Apply, Q.Enabled;
    MoveFacts(p.q, Q.NotifyPop);
    assert |p.popped - multiset{m}| == |p.popped| - 1;
  }

  lemma MeasureDtorNotify(p: Pool, wake: Q.Wake)
    requires !p.dtor.NotStarted? && Enabled(p, DtorNotify(wake)) && p.q.timedAsleep == 0
    ensures !Apply(p, DtorNotify(wake)).dtor.NotStarted? && !Spurious(DtorNotify(wake))
    ensures Measure(Apply(p, DtorNotify(wake))) + 1 <= Measure(p)
  {
    hide Q.Apply, Q.Enabled;
    MoveFacts(p.q, Q.NotifyPush(wake));
  }

  lemma MeasureSpurious(p: Pool, e: Event)
    requires !p.dtor.NotStarted? && Enabled(p, e) && p.q.timedAsleep == 0 && (e.WorkerSpurious? || e.DtorSpurious?)
    ensures Spurious(e) && !Apply(p, e).dtor.NotStarted? && Measure(Apply(p, e)) <= Measure(p) + 1
  {
    hide Q.Apply, Q.Enabled;
    MoveFacts(p.q, StepOf(e).value);
  }

  lemma NoTimedSleepers(p: Pool)
    requires Inv(p)
    ensures p.q.timedAsleep == 0
  {
    hide Q.HistoryInv, Q.WakeupInv, TerminateInv, DtorInv;
  }

  lemma MeasureLocal(p: Pool, e: Event)
    requires !p.dtor.NotStarted? && Enabled(p, e) && (StepOf(e).None? || e.Client?)
    ensures !Apply(p, e).dtor.NotStarted? && Measure(Apply(p, e)) + 1 <= Measure(p) && !Spurious(e)
  {
    hide Q.Apply;
    if e.WorkerProcess? {
      ProcessIsApply(p, e.msg);
      assert |p.holding - multiset{e.msg}| == |p.holding| - 1;
    }
  }

  function CountSpurious(es: seq<Event>): nat {
    if es == [] then 0 else CountSpurious(es[1..]) + if Spurious(es[0]) then 1 else 0
  }

  /** Once destruction has started, every run is finite up to its spurious wakeups, whatever the
      interleaving. */
  lemma {:induction false} DestructionTerminates(p: Pool, es: seq<Event>)
    requires Inv(p) && !p.dtor.NotStarted? && ValidRun(p, es)
    ensures !Run(p, es).dtor.NotStarted?
    ensures |es| + Measure(Run(p, es)) <= Measure(p) + 2 * CountSpurious(es)
    decreases |es|
  {
    hide Inv, Apply, Enabled, Measure, Spurious;
    if es == [] {
    } else {
      StepKeepsInv(p, es[0]);
      MeasureStep(p, es[0]);
      DestructionTerminates(Apply(p, es[0]), es[1..]);
    }
  }

  /** Together: a run from the start of destruction that cannot go on without a spurious wakeup has
      finished. */
  lemma StuckMeansFinished(p: Pool, es: seq<Event>)
    requires Inv(p) && !p.dtor.NotStarted? && ValidRun(p, es)
    requires forall e :: Enabled(Run(p, es), e) ==> Spurious(e)
    ensures Run(p, es).dtor == Finished
  {
    hide Inv, Apply, Enabled, Measure, Spurious;
    RunKeepsInv(p, es);
    DestructionTerminates(p, es);
    if !Run(p, es).dtor.Finished? {
      var e := DestructionProgresses(Run(p, es));
    }
  }

  // ---------- A queue without room ----------

  ghost predicate NoRoomInv(p: Pool) {
    && p.q.capacity == 0 && p.q.items == [] && p.threads >= 1 && p.exited == 0
    && p.popped == multiset{} && p.holding == multiset{}
    && match p.dtor
       case NotStarted => true
       case Posting(l) => l == p.threads
       case Waiting(l) => true
       case _ => false
  }

  lemma NoRoomStep(p: Pool, e: Event)
    requires NoRoomInv(p) && Enabled(p, e)
    ensures NoRoomInv(Apply(p, e))
  {
  }

  /** The condition on the capacity is needed: the constructor also accepts a queue of capacity 0,
      whose pool can never be destroyed. */
  lemma {:induction false} NoRoomNeverFinishes(p: Pool, es: seq<Event>)
    requires NoRoomInv(p) && ValidRun(p, es)
    ensures !Run(p, es).dtor.Finished? && NoRoomInv(Run(p, es))
    decreases |es|
  {
    hide NoRoomInv, Enabled, Apply;
    if es == [] {
      NoRoomNotFinished(p);
    } else {
      NoRoomStep(p, es[0]);
      NoRoomNeverFinishes(Apply(p, es[0]), es[1..]);
    }
  }

  lemma NoRoomNotFinished(p: Pool)
    requires NoRoomInv(p)
    ensures !p.dtor.Finished?
  {
  }

  /** A destructor finishes in some run only if the capacity is at least 1. */
  lemma FinishingNeedsRoom(capacity: nat, threads: nat, es: seq<Event>)
    requires 1 <= threads <= 1000
    requires ValidRun(Create(capacity, threads).value, es) && Run(Create(capacity, threads).value, es).dtor.Finished?
    ensures capacity >= 1
  {
    hide Enabled, Apply, Run, ValidRun;
    if capacity == 0 {
      NoRoomNeverFinishes(Create(capacity, threads).value, es);
    }
  }
}
