/** The multi-producer, multi-consumer blocking queue as a state machine: every region under the
    mutex is one step, and so is every notification, which happens after the mutex is released.
    Threads are counted by where they are; a wait may end without a notification. */
module QueueProtocol {
  import opened CircularQueue
  import opened Sequences

  datatype Fate = Popped | Overrun

  datatype State<T> = State(
    capacity: nat,
    items: seq<T>,
    producersAsleep: nat,  // in pop_cv_.wait
    producersWoken: nat,   // about to take the mutex again
    consumersAsleep: nat,  // in push_cv_.wait, from dequeue
    consumersWoken: nat,
    timedAsleep: nat,      // in push_cv_.wait_for, from dequeue_for
    timedWoken: nat,
    pushNotices: nat,      // pushed, and about to call push_cv_.notify_one
    popNotices: nat,       // popped, and about to call pop_cv_.notify_one
    discardNotices: nat,   // found no room, and about to count it
    discarded: nat,
    overruns: nat,
    log: seq<T>,                // every item pushed, in order
    gone: seq<(T, Fate)>,       // every item that left, in order
    waiting: multiset<T>,       // the items of producers asleep or woken
    rejected: multiset<T>,      // the items of enqueue_if_have_room that found no room
    attempted: multiset<T>      // every item given to an enqueue
  )

  function Init<T>(capacity: nat): State<T> {
    State(capacity, [], 0, 0, 0, 0, 0, 0, 0, 0, 0, 0, 0, [], [], multiset{}, multiset{}, multiset{})
  }

  /** Whom `push_cv_.notify_one` wakes. */
  datatype Wake = Nobody | Consumer | TimedConsumer

  datatype Step<T> =
    | Enqueue(item: T)                 // the first pass of the wait, and the push if there is room
    | EnqueueAgain(item: T)            // a later pass, by a woken producer
    | EnqueueNowait(item: T)
    | EnqueueIfHaveRoom(item: T)
    | Dequeue
    | DequeueAgain
    | DequeueFor
    | DequeueForAgain(expired: bool)
    | NotifyPush(wake: Wake)
    | NotifyPop
    | CountDiscard
    | SpuriousProducer                 // a wait that ends without a notification,
    | SpuriousConsumer                 // or by its timeout
    | SpuriousTimed

  function Push<T>(s: State<T>, item: T): State<T> {
    var full := |s.items| >= s.capacity;
    s.(items := Pushed(s.items, s.capacity, item),
       log := s.log + [item],
       gone := if full then s.gone + [((s.items + [item])[0], Overrun)] else s.gone,
       overruns := if full then s.overruns + 1 else s.overruns,
       pushNotices := s.pushNotices + 1)
  }

  function Pop<T>(s: State<T>): State<T>
    requires s.items != []
  {
    s.(items := s.items[1..], gone := s.gone + [(s.items[0], Popped)], popNotices := s.popNotices + 1)
  }

  predicate Enabled<T(==)>(s: State<T>, e: Step<T>) {
    match e
    case EnqueueAgain(item) => s.producersWoken > 0 && item in s.waiting
    case DequeueAgain => s.consumersWoken > 0
    case DequeueForAgain(_) => s.timedWoken > 0
    case NotifyPush(Nobody) => s.pushNotices > 0 && s.consumersAsleep == 0 && s.timedAsleep == 0
    case NotifyPush(Consumer) => s.pushNotices > 0 && s.consumersAsleep > 0
    case NotifyPush(TimedConsumer) => s.pushNotices > 0 && s.timedAsleep > 0
    case NotifyPop => s.popNotices > 0
    case CountDiscard => s.discardNotices > 0
    case SpuriousProducer => s.producersAsleep > 0
    case SpuriousConsumer => s.consumersAsleep > 0
    case SpuriousTimed => s.timedAsleep > 0
    case _ => true
  }

  function Apply<T>(s: State<T>, e: Step<T>): State<T>
    requires Enabled(s, e)
  {
    match e
    case Enqueue(item) =>
      var t := s.(attempted := s.attempted + multiset{item});
      if |s.items| < s.capacity then Push(t, item)
      else t.(producersAsleep := s.producersAsleep + 1, waiting := s.waiting + multiset{item})
    case EnqueueAgain(item) =>
      if |s.items| < s.capacity then
        Push(s.(producersWoken := s.producersWoken - 1, waiting := s.waiting - multiset{item}), item)
      else s.(producersWoken := s.producersWoken - 1, producersAsleep := s.producersAsleep + 1)
    case EnqueueNowait(item) => Push(s.(attempted := s.attempted + multiset{item}), item)
    case EnqueueIfHaveRoom(item) =>
      var t := s.(attempted := s.attempted + multiset{item});
      if |s.items| < s.capacity then Push(t, item)
      else t.(discardNotices := s.discardNotices + 1, rejected := s.rejected + multiset{item})
    case Dequeue =>
      if s.items != [] then Pop(s) else s.(consumersAsleep := s.consumersAsleep + 1)
    case DequeueAgain =>
      var t := s.(consumersWoken := s.consumersWoken - 1);
      if s.items != [] then Pop(t) else t.(consumersAsleep := s.consumersAsleep + 1)
    case DequeueFor =>
      if s.items != [] then Pop(s) else s.(timedAsleep := s.timedAsleep + 1)
    case DequeueForAgain(expired) =>
      var t := s.(timedWoken := s.timedWoken - 1);
      if s.items != [] then Pop(t) else if expired then t else t.(timedAsleep := s.timedAsleep + 1)
    case NotifyPush(wake) =>
      var t := s.(pushNotices := s.pushNotices - 1);
      (match wake
       case Nobody => t
       case Consumer => t.(consumersAsleep := s.consumersAsleep - 1, consumersWoken := s.consumersWoken + 1)
       case TimedConsumer => t.(timedAsleep := s.timedAsleep - 1, timedWoken := s.timedWoken + 1))
    case NotifyPop =>
      var t := s.(popNotices := s.popNotices - 1);
      if s.producersAsleep == 0 then t
      else t.(producersAsleep := s.producersAsleep - 1, producersWoken := s.producersWoken + 1)
    case CountDiscard => s.(discardNotices := s.discardNotices - 1, discarded := s.discarded + 1)
    case SpuriousProducer =>
      s.(producersAsleep := s.producersAsleep - 1, producersWoken := s.producersWoken + 1)
    case SpuriousConsumer =>
      s.(consumersAsleep := s.consumersAsleep - 1, consumersWoken := s.consumersWoken + 1)
    case SpuriousTimed =>
      s.(timedAsleep := s.timedAsleep - 1, timedWoken := s.timedWoken + 1)
  }

  predicate ValidRun<T(==)>(s: State<T>, es: seq<Step<T>>)
    decreases |es|
  {
    es == [] || (Enabled(s, es[0]) && ValidRun(Apply(s, es[0]), es[1..]))
  }

  function Run<T>(s: State<T>, es: seq<Step<T>>): State<T>
    requires ValidRun(s, es)
    decreases |es|
  {
    if es == [] then s else Run(Apply(s, es[0]), es[1..])
  }

  // ---------- No lost wakeup ----------

  function Sleepers<T>(s: State<T>): nat {
    s.consumersAsleep + s.timedAsleep
  }

  function WokenConsumers<T>(s: State<T>): nat {
    s.consumersWoken + s.timedWoken
  }

  /** Every item has someone coming for it while a consumer sleeps, and every free slot while a
      producer sleeps. */
  ghost predicate WakeupInv<T>(s: State<T>) {
    && |s.items| <= s.capacity
    && (Sleepers(s) > 0 ==> |s.items| <= s.pushNotices + WokenConsumers(s))
    && (s.producersAsleep > 0 ==> s.capacity - |s.items| <= s.popNotices + s.producersWoken)
  }

  lemma StepKeepsWakeup<T>(s: State<T>, e: Step<T>)
    requires WakeupInv(s) && Enabled(s, e)
    ensures WakeupInv(Apply(s, e))
  {
    hide WakeupInv, Enabled, Apply;
    if e.Enqueue? || e.EnqueueAgain? || e.EnqueueNowait? || e.EnqueueIfHaveRoom? {
      EnqueueKeepsWakeup(s, e);
    } else if e.Dequeue? || e.DequeueAgain? || e.DequeueFor? || e.DequeueForAgain? {
      DequeueKeepsWakeup(s, e);
    } else {
      MoveKeepsWakeup(s, e);
    }
  }

  lemma EnqueueKeepsWakeup<T>(s: State<T>, e: Step<T>)
    requires WakeupInv(s) && Enabled(s, e)
    requires e.Enqueue? || e.EnqueueAgain? || e.EnqueueNowait? || e.EnqueueIfHaveRoom?
    ensures WakeupInv(Apply(s, e))
  {
  }

  lemma DequeueKeepsWakeup<T>(s: State<T>, e: Step<T>)
    requires WakeupInv(s) && Enabled(s, e)
    requires e.Dequeue? || e.DequeueAgain? || e.DequeueFor? || e.DequeueForAgain?
    ensures WakeupInv(Apply(s, e))
  {
  }

  lemma MoveKeepsWakeup<T>(s: State<T>, e: Step<T>)
    requires WakeupInv(s) && Enabled(s, e)
    requires
      || e.NotifyPush? || e.NotifyPop? || e.CountDiscard?
      || e.SpuriousProducer? || e.SpuriousConsumer? || e.SpuriousTimed?
    ensures WakeupInv(Apply(s, e))
  {
  }

  lemma {:induction false} RunKeepsWakeup<T>(s: State<T>, es: seq<Step<T>>)
    requires WakeupInv(s) && ValidRun(s, es)
    ensures WakeupInv(Run(s, es)) && Run(s, es).capacity == s.capacity
    decreases |es|
  {
    hide WakeupInv, Enabled;
    if es == [] {
    } else {
      StepKeepsWakeup(s, es[0]);
      RunKeepsWakeup(Apply(s, es[0]), es[1..]);
    }
  }

  /** No thread is between two steps. */
  predicate Quiescent<T>(s: State<T>) {
    && s.pushNotices == 0 && s.popNotices == 0 && s.discardNotices == 0
    && s.producersWoken == 0 && WokenConsumers(s) == 0
  }

  /** In every run, once all notifications have been delivered, a sleeping consumer means an empty
      queue, a sleeping producer a full one, and with a capacity never both. */
  lemma NoLostWakeup<T>(capacity: nat, es: seq<Step<T>>)
    requires ValidRun(Init(capacity), es) && Quiescent(Run(Init(capacity), es))
    ensures var s := Run(Init(capacity), es);
      && (Sleepers(s) > 0 ==> s.items == [])
      && (s.producersAsleep > 0 ==> |s.items| == capacity)
      && (capacity > 0 ==> Sleepers(s) == 0 || s.producersAsleep == 0)
  {
    hide Enabled, Apply, Run, ValidRun;
    RunKeepsWakeup(Init(capacity), es);
  }

  /** The steps that threads under way take of their own accord. */
  predicate Internal<T>(e: Step<T>) {
    e.EnqueueAgain? || e.DequeueAgain? || e.DequeueForAgain? || e.NotifyPush? || e.NotifyPop? || e.CountDiscard?
  }

  function Measure<T>(s: State<T>): nat {
    2 * (Sleepers(s) + s.producersAsleep) + 3 * (WokenConsumers(s) + s.producersWoken)
    + 2 * (s.pushNotices + s.popNotices) + s.discardNotices
  }

  lemma InternalDecreases<T>(s: State<T>, e: Step<T>)
    requires Enabled(s, e) && Internal(e)
    ensures Measure(Apply(s, e)) < Measure(s)
  {
  }

  /** No deadlock: left alone, the threads under way take at most `Measure` steps, and as long as
      one of them is between two steps, some step is possible. */
  lemma {:induction false} ReachesQuiescence<T>(s: State<T>, es: seq<Step<T>>)
    requires ValidRun(s, es) && forall e <- es :: Internal(e)
    ensures |es| <= Measure(s)
    decreases |es|
  {
    hide Enabled, Apply, Measure, Internal;
    if es == [] {
    } else {
      InternalDecreases(s, es[0]);
      ReachesQuiescence(Apply(s, es[0]), es[1..]);
    }
  }

  lemma ProgressUntilQuiescent<T>(capacity: nat, es: seq<Step<T>>)
    requires ValidRun(Init(capacity), es) && !Quiescent(Run(Init(capacity), es))
    ensures exists e: Step<T> :: Internal(e) && Enabled(Run(Init(capacity), es), e)
  {
    hide Enabled, Apply, Run, ValidRun, Internal, Quiescent;
    Conservation(capacity, es);
    SomeStepIsPossible(Run(Init(capacity), es));
  }

  lemma SomeStepIsPossible<T>(s: State<T>)
    requires !Quiescent(s) && |s.waiting| == s.producersAsleep + s.producersWoken
    ensures exists e: Step<T> :: Internal(e) && Enabled(s, e)
  {
    var e: Step<T>;
    if s.producersWoken > 0 {
      var item :| item in s.waiting;
      e := EnqueueAgain(item);
    } else if s.consumersWoken > 0 {
      e := DequeueAgain;
    } else if s.timedWoken > 0 {
      e := DequeueForAgain(true);
    } else if s.pushNotices > 0 {
      e := NotifyPush(if s.consumersAsleep > 0 then Consumer else if s.timedAsleep > 0 then TimedConsumer else Nobody);
    } else if s.popNotices > 0 {
      e := NotifyPop;
    } else {
      e := CountDiscard;
    }
    assert Internal(e) && Enabled(s, e);
  }

  // ---------- Conservation and order ----------

  function Firsts<T>(gone: seq<(T, Fate)>): (r: seq<T>)
    ensures |r| == |gone| && forall i :: 0 <= i < |gone| ==> r[i] == gone[i].0
  {
    seq(|gone|, i requires 0 <= i < |gone| => gone[i].0)
  }

  function CountOverruns<T>(gone: seq<(T, Fate)>): nat {
    if gone == [] then 0
    else CountOverruns(gone[..|gone| - 1]) + if gone[|gone| - 1].1.Overrun? then 1 else 0
  }

  /** Nothing is lost or duplicated, and items leave in the order they were pushed. */
  ghost predicate HistoryInv<T>(s: State<T>) {
    && s.log == Firsts(s.gone) + s.items
    && s.overruns == CountOverruns(s.gone)
    && s.attempted == multiset(s.log) + s.waiting + s.rejected
    && |s.waiting| == s.producersAsleep + s.producersWoken
    && |s.rejected| == s.discarded + s.discardNotices
  }

  lemma PushKeepsLog<T>(s: State<T>, item: T)
    requires s.log == Firsts(s.gone) + s.items && s.overruns == CountOverruns(s.gone)
    ensures var t := Push(s, item);
      && t.log == Firsts(t.gone) + t.items && t.overruns == CountOverruns(t.gone)
      && multiset(t.log) == multiset(s.log) + multiset{item}
  {
    hide Firsts, CountOverruns;
    Associative(Firsts(s.gone), s.items, [item]);
    if |s.items| >= s.capacity {
      var all := s.items + [item];
      GoneGrows(s.gone, (all[0], Overrun));
      assert all == [all[0]] + all[1..];
      Associative(Firsts(s.gone), [all[0]], all[1..]);
    }
  }

  lemma GoneGrows<T>(gone: seq<(T, Fate)>, g: (T, Fate))
    ensures Firsts(gone + [g]) == Firsts(gone) + [g.0]
    ensures CountOverruns(gone + [g]) == CountOverruns(gone) + if g.1.Overrun? then 1 else 0
  {
    assert (gone + [g])[..|gone|] == gone;
  }

  lemma PopKeepsLog<T>(s: State<T>)
    requires s.log == Firsts(s.gone) + s.items && s.overruns == CountOverruns(s.gone) && s.items != []
    ensures var t := Pop(s); t.log == Firsts(t.gone) + t.items && t.overruns == CountOverruns(t.gone)
  {
    hide Firsts, CountOverruns;
    GoneGrows(s.gone, (s.items[0], Popped));
    assert s.items == [s.items[0]] + s.items[1..];
    Associative(Firsts(s.gone), [s.items[0]], s.items[1..]);
  }

  lemma StepKeepsHistory<T>(s: State<T>, e: Step<T>)
    requires HistoryInv(s) && Enabled(s, e)
    ensures HistoryInv(Apply(s, e))
  {
    hide HistoryInv, Enabled, Apply;
    match e {
      case Enqueue(_) => AdmitStep(s, e);
      case EnqueueAgain(_) => AdmitAgainStep(s, e);
      case EnqueueNowait(_) => AdmitStep(s, e);
      case EnqueueIfHaveRoom(_) => AdmitStep(s, e);
      case Dequeue => TakeStep(s, e);
      case DequeueAgain => TakeStep(s, e);
      case DequeueFor => TakeStep(s, e);
      case DequeueForAgain(_) => TakeStep(s, e);
      case _ => ThreadStep(s, e);
    }
  }

  lemma AdmitStep<T>(s: State<T>, e: Step<T>)
    requires HistoryInv(s) && Enabled(s, e) && (e.Enqueue? || e.EnqueueNowait? || e.EnqueueIfHaveRoom?)
    ensures HistoryInv(Apply(s, e))
  {
    hide Push, HistoryInv;
    PushedKeepsHistory(s, e.item);
    WaitingKeepsHistory(s, e.item);
    RejectedKeepsHistory(s, e.item);
  }

  lemma AdmitAgainStep<T>(s: State<T>, e: Step<T>)
    requires HistoryInv(s) && Enabled(s, e) && e.EnqueueAgain?
    ensures HistoryInv(Apply(s, e))
  {
    hide Push, HistoryInv;
    if |s.items| < s.capacity {
      AdmitAgainKeepsHistory(s, e.item);
    } else {
      ThreadsOnly(s, Apply(s, e));
    }
  }

  lemma TakeStep<T>(s: State<T>, e: Step<T>)
    requires HistoryInv(s) && Enabled(s, e)
    requires e.Dequeue? || e.DequeueAgain? || e.DequeueFor? || e.DequeueForAgain?
    ensures HistoryInv(Apply(s, e))
  {
    hide Pop, HistoryInv;
    var u := if e.DequeueAgain? then s.(consumersWoken := s.consumersWoken - 1)
             else if e.DequeueForAgain? then s.(timedWoken := s.timedWoken - 1)
             else s;
    TakeKeepsHistory(s, u, Apply(s, e));
  }

  lemma ThreadStep<T>(s: State<T>, e: Step<T>)
    requires HistoryInv(s) && Enabled(s, e)
    requires
      || e.NotifyPush? || e.NotifyPop? || e.CountDiscard?
      || e.SpuriousProducer? || e.SpuriousConsumer? || e.SpuriousTimed?
    ensures HistoryInv(Apply(s, e))
  {
    hide HistoryInv;
    ThreadsOnly(s, Apply(s, e));
  }

  /** Steps that only move threads about. */
  ghost predicate SameHistory<T>(s: State<T>, t: State<T>) {
    && t.items == s.items && t.log == s.log && t.gone == s.gone && t.overruns == s.overruns
    && t.attempted == s.attempted && t.waiting == s.waiting && t.rejected == s.rejected
    && t.producersAsleep + t.producersWoken == s.producersAsleep + s.producersWoken
    && t.discarded + t.discardNotices == s.discarded + s.discardNotices
  }

  lemma ThreadsOnly<T>(s: State<T>, t: State<T>)
    requires HistoryInv(s) && SameHistory(s, t)
    ensures HistoryInv(t)
  {
  }

  /** An item given to an enqueue is pushed, or waits, or is rejected. */
  lemma PushedKeepsHistory<T>(s: State<T>, item: T)
    requires HistoryInv(s)
    ensures HistoryInv(Push(s.(attempted := s.attempted + multiset{item}), item))
  {
    hide Firsts, CountOverruns, Pushed;
    PushKeepsLog(s.(attempted := s.attempted + multiset{item}), item);
  }

  lemma WaitingKeepsHistory<T>(s: State<T>, item: T)
    requires HistoryInv(s)
    ensures HistoryInv(s.(attempted := s.attempted + multiset{item},
                          producersAsleep := s.producersAsleep + 1, waiting := s.waiting + multiset{item}))
  {
    hide Firsts, CountOverruns;
  }

  lemma RejectedKeepsHistory<T>(s: State<T>, item: T)
    requires HistoryInv(s)
    ensures HistoryInv(s.(attempted := s.attempted + multiset{item},
                          discardNotices := s.discardNotices + 1, rejected := s.rejected + multiset{item}))
  {
    hide Firsts, CountOverruns;
  }

  lemma AdmitAgainKeepsHistory<T>(s: State<T>, item: T)
    requires HistoryInv(s) && item in s.waiting && s.producersWoken > 0
    ensures HistoryInv(Push(s.(producersWoken := s.producersWoken - 1, waiting := s.waiting - multiset{item}), item))
  {
    hide Firsts, CountOverruns, Pushed;
    PushKeepsLog(s.(producersWoken := s.producersWoken - 1, waiting := s.waiting - multiset{item}), item);
    assert s.waiting == (s.waiting - multiset{item}) + multiset{item};
  }

  lemma TakeKeepsHistory<T>(s: State<T>, u: State<T>, t: State<T>)
    requires HistoryInv(s) && SameHistory(s, u)
    requires if s.items != [] then t == Pop(u) else SameHistory(s, t)
    ensures HistoryInv(t)
  {
    hide Firsts, CountOverruns;
    if s.items != [] {
      PopKeepsLog(u);
    }
  }

  lemma {:induction false} RunKeepsHistory<T>(s: State<T>, es: seq<Step<T>>)
    requires HistoryInv(s) && ValidRun(s, es)
    ensures HistoryInv(Run(s, es))
    decreases |es|
  {
    hide HistoryInv, Enabled, Apply;
    if es == [] {
    } else {
      StepKeepsHistory(s, es[0]);
      RunKeepsHistory(Apply(s, es[0]), es[1..]);
    }
  }

  /** Conservation in every run, under any mix of the three overflow policies: what was pushed is
      what left followed by what is held, so items leave in push order; pushed = popped + overrun +
      held, and attempts = pushed + waiting + discarded, as multisets and not only as counts. */
  lemma Conservation<T>(capacity: nat, es: seq<Step<T>>)
    requires ValidRun(Init(capacity), es)
    ensures var s := Run(Init(capacity), es);
      && s.log == Firsts(s.gone) + s.items
      && |s.log| == (|s.gone| - s.overruns) + s.overruns + |s.items|
      && s.overruns == CountOverruns(s.gone)
      && s.attempted == multiset(s.log) + s.waiting + s.rejected
      && |s.attempted| == |s.log| + |s.waiting| + s.discarded + s.discardNotices
      && |s.waiting| == s.producersAsleep + s.producersWoken
  {
    hide Enabled, Apply, Run, ValidRun;
    assert Firsts<T>([]) + [] == [];
    RunKeepsHistory(Init(capacity), es);
  }

  lemma {:induction false} NoOverrunsMeansPopped<T>(gone: seq<(T, Fate)>)
    requires CountOverruns(gone) == 0
    ensures forall g <- gone :: g.1 == Popped
  {
    if gone == [] {
    } else {
      NoOverrunsMeansPopped(gone[..|gone| - 1]);
      forall g | g in gone ensures g.1 == Popped {
        assert g == gone[|gone| - 1] || g in gone[..|gone| - 1];
      }
    }
  }

  ghost predicate BlocksOnly<T>(es: seq<Step<T>>) {
    forall e <- es :: !e.EnqueueNowait? && !e.EnqueueIfHaveRoom?
  }

  lemma {:induction false} BlockingNeverOverruns<T>(s: State<T>, es: seq<Step<T>>)
    requires ValidRun(s, es) && BlocksOnly(es) && s.overruns == 0 && s.rejected == multiset{}
    ensures Run(s, es).overruns == 0 && Run(s, es).rejected == multiset{}
    decreases |es|
  {
    if es == [] {
    } else {
      BlockingStep(s, es[0]);
      BlockingNeverOverruns(Apply(s, es[0]), es[1..]);
    }
  }

  lemma BlockingStep<T>(s: State<T>, e: Step<T>)
    requires Enabled(s, e) && !e.EnqueueNowait? && !e.EnqueueIfHaveRoom?
    ensures Apply(s, e).overruns == s.overruns && Apply(s, e).rejected == s.rejected
  {
  }

  /** With the blocking policy only, nothing is lost: every item ever given to an enqueue was popped,
      is held, or is still waiting to be pushed. */
  lemma BlockingLosesNothing<T>(capacity: nat, es: seq<Step<T>>)
    requires ValidRun(Init(capacity), es) && BlocksOnly(es)
    ensures var s := Run(Init(capacity), es);
      && (forall g <- s.gone :: g.1 == Popped)
      && s.attempted == multiset(Firsts(s.gone)) + multiset(s.items) + s.waiting
  {
    hide Enabled, Apply, Run, ValidRun;
    Conservation(capacity, es);
    BlockingNeverOverruns(Init(capacity), es);
    NoOverrunsMeansPopped(Run(Init(capacity), es).gone);
  }

  // ---------- Which items go in, come out, and are refused ----------

  predicate HasRoom<T>(s: State<T>) {
    |s.items| < s.capacity
  }

  /** The overflow policies: an enqueue that may overrun always puts its item in, the others exactly when
      there is room. */
  function GoesIn<T>(s: State<T>, e: Step<T>): seq<T> {
    match e
    case EnqueueNowait(item) => [item]
    case Enqueue(item) => if HasRoom(s) then [item] else []
    case EnqueueAgain(item) => if HasRoom(s) then [item] else []
    case EnqueueIfHaveRoom(item) => if HasRoom(s) then [item] else []
    case _ => []
  }

  /** A dequeue takes the oldest item if there is one; an overrun pushes the oldest one out, which is the
      new one itself if nothing can be held. */
  function ComesOut<T>(s: State<T>, e: Step<T>): seq<(T, Fate)> {
    if e.EnqueueNowait? && !HasRoom(s) then [(if s.items == [] then e.item else s.items[0], Overrun)]
    else if (e.Dequeue? || e.DequeueAgain? || e.DequeueFor? || e.DequeueForAgain?) && s.items != [] then
      [(s.items[0], Popped)]
    else []
  }

  function IsRefused<T>(s: State<T>, e: Step<T>): multiset<T> {
    if e.EnqueueIfHaveRoom? && !HasRoom(s) then multiset{e.item} else multiset{}
  }

  ghost predicate IsExact<T>(s: State<T>, e: Step<T>, t: State<T>) {
    && t.log == s.log + GoesIn(s, e) && t.gone == s.gone + ComesOut(s, e)
    && t.rejected == s.rejected + IsRefused(s, e)
  }

  lemma EnqueueIsExact<T>(s: State<T>, e: Step<T>)
    requires Enabled(s, e) && (e.Enqueue? || e.EnqueueAgain? || e.EnqueueIfHaveRoom?)
    ensures IsExact(s, e, Apply(s, e))
  {
    hide Apply, Enabled, IsExact;
    if HasRoom(s) {
      PushIsExact(s, e);
    } else {
      FullIsExact(s, e);
    }
  }

  lemma PushIsExact<T>(s: State<T>, e: Step<T>)
    requires Enabled(s, e) && (e.Enqueue? || e.EnqueueAgain? || e.EnqueueIfHaveRoom?) && HasRoom(s)
    ensures IsExact(s, e, Apply(s, e))
  {
    hide Pushed;
    assert s.gone + [] == s.gone;
  }

  lemma FullIsExact<T>(s: State<T>, e: Step<T>)
    requires Enabled(s, e) && (e.Enqueue? || e.EnqueueAgain? || e.EnqueueIfHaveRoom?) && !HasRoom(s)
    ensures IsExact(s, e, Apply(s, e))
  {
    hide Push;
    assert s.log + [] == s.log && s.gone + [] == s.gone;
  }

  lemma NowaitIsExact<T>(s: State<T>, e: Step<T>)
    requires e.EnqueueNowait?
    ensures IsExact(s, e, Apply(s, e))
  {
    hide Pushed;
    assert s.gone + [] == s.gone;
  }

  lemma DequeueIsExact<T>(s: State<T>, e: Step<T>)
    requires Enabled(s, e) && (e.Dequeue? || e.DequeueAgain? || e.DequeueFor? || e.DequeueForAgain?)
    ensures IsExact(s, e, Apply(s, e))
  {
    assert s.log + [] == s.log && s.gone + [] == s.gone;
  }

  lemma MoveIsExact<T>(s: State<T>, e: Step<T>)
    requires Enabled(s, e)
    requires
      || e.NotifyPush? || e.NotifyPop? || e.CountDiscard?
      || e.SpuriousProducer? || e.SpuriousConsumer? || e.SpuriousTimed?
    ensures IsExact(s, e, Apply(s, e))
  {
    assert s.log + [] == s.log && s.gone + [] == s.gone;
  }

  lemma StepIsExact<T>(s: State<T>, e: Step<T>)
    requires Enabled(s, e)
    ensures IsExact(s, e, Apply(s, e))
  {
    hide IsExact, Enabled, Apply;
    if e.Enqueue? || e.EnqueueAgain? || e.EnqueueIfHaveRoom? {
      EnqueueIsExact(s, e);
    } else if e.EnqueueNowait? {
      NowaitIsExact(s, e);
    } else if e.Dequeue? || e.DequeueAgain? || e.DequeueFor? || e.DequeueForAgain? {
      DequeueIsExact(s, e);
    } else {
      MoveIsExact(s, e);
    }
  }

  function AllIn<T>(s: State<T>, es: seq<Step<T>>): seq<T>
    requires ValidRun(s, es)
    decreases |es|
  {
    if es == [] then [] else GoesIn(s, es[0]) + AllIn(Apply(s, es[0]), es[1..])
  }

  function AllOut<T>(s: State<T>, es: seq<Step<T>>): seq<(T, Fate)>
    requires ValidRun(s, es)
    decreases |es|
  {
    if es == [] then [] else ComesOut(s, es[0]) + AllOut(Apply(s, es[0]), es[1..])
  }

  function AllRefused<T>(s: State<T>, es: seq<Step<T>>): multiset<T>
    requires ValidRun(s, es)
    decreases |es|
  {
    if es == [] then multiset{} else IsRefused(s, es[0]) + AllRefused(Apply(s, es[0]), es[1..])
  }

  /** Over every run: precisely the items that the policies let in are pushed, in that order; precisely
      those that dequeues find and overruns push out leave; and only a full queue refuses one. */
  lemma {:induction false} RunIsExact<T>(s: State<T>, es: seq<Step<T>>)
    requires ValidRun(s, es)
    ensures var t := Run(s, es);
      && t.log == s.log + AllIn(s, es) && t.gone == s.gone + AllOut(s, es)
      && t.rejected == s.rejected + AllRefused(s, es)
    decreases |es|
  {
    hide Enabled, Apply, GoesIn, ComesOut, IsRefused;
    if es == [] {
      assert s.log + [] == s.log && s.gone + [] == s.gone;
    } else {
      var t := Apply(s, es[0]);
      StepIsExact(s, es[0]);
      RunIsExact(t, es[1..]);
      Associative(s.log, GoesIn(s, es[0]), AllIn(t, es[1..]));
      Associative(s.gone, ComesOut(s, es[0]), AllOut(t, es[1..]));
    }
  }
}
