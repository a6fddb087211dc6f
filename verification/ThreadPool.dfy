/** The logging thread pool: clients post messages, workers handle them, and the destructor posts
    one terminate message per worker and joins.  The queue between them is that of
    `QueueProtocol`, with every lock region and every notification a step of its own. */
module ThreadPool {
  import opened Wrappers
  import C = CircularQueue
  import Q = QueueProtocol

  datatype Msg = Log(id: nat) | Flush(id: nat) | Terminate

  /** Where the destructor is; `left` terminate messages are still to be posted. */
  datatype Destructor =
    | NotStarted
    | Posting(left: nat)    // about to enqueue
    | Waiting(left: nat)    // asleep or woken in enqueue
    | Notifying(left: nat)  // pushed, about to notify
    | Joining
    | Finished

  datatype Pool = Pool(
    threads: nat,
    q: Q.State<Msg>,
    ready: nat,               // workers about to dequeue
    popped: multiset<Msg>,    // messages of workers that have popped and are about to notify
    holding: multiset<Msg>,   // messages of workers that are about to handle them
    exited: nat,
    processed: multiset<Msg>,
    order: seq<Msg>,          // every message handled, terminate messages included, in order
    dtor: Destructor
  )

  datatype Event =
    | Client(step: Q.Step<Msg>)
    | WorkerDequeue
    | WorkerDequeueAgain
    | WorkerNotify(msg: Msg)
    | WorkerProcess(msg: Msg)
    | WorkerSpurious
    | StartDestroy
    | DtorPost
    | DtorPostAgain
    | DtorNotify(wake: Q.Wake)
    | DtorSpurious
    | DtorPosted
    | DtorJoin

  /** The constructor accepts 1 to 1000 threads. */
  function Create(capacity: nat, threads: nat): Option<Pool> {
    if threads == 0 || threads > 1000 then None
    else Some(Pool(threads, Q.Init(capacity), threads, multiset{}, multiset{}, 0, multiset{}, [], NotStarted))
  }

  /** The steps of threads that post log and flush messages, with any overflow policy. */
  predicate ClientStep(e: Q.Step<Msg>) {
    match e
    case Enqueue(m) => m != Terminate
    case EnqueueAgain(m) => m != Terminate
    case EnqueueNowait(m) => m != Terminate
    case EnqueueIfHaveRoom(m) => m != Terminate
    case NotifyPush(w) => true
    case CountDiscard => true
    case SpuriousProducer => true
    case _ => false
  }

  predicate NoProducers(q: Q.State<Msg>) {
    q.producersAsleep == 0 && q.producersWoken == 0 && q.pushNotices == 0 && q.discardNotices == 0
  }

  /** The step of the queue that an event of the pool takes, if any. */
  function StepOf(e: Event): Option<Q.Step<Msg>> {
    match e
    case Client(step) => Some(step)
    case WorkerDequeue => Some(Q.Dequeue)
    case WorkerDequeueAgain => Some(Q.DequeueAgain)
    case WorkerNotify(_) => Some(Q.NotifyPop)
    case WorkerSpurious => Some(Q.SpuriousConsumer)
    case DtorPost => Some(Q.Enqueue(Terminate))
    case DtorPostAgain => Some(Q.EnqueueAgain(Terminate))
    case DtorNotify(w) => Some(Q.NotifyPush(w))
    case DtorSpurious => Some(Q.SpuriousProducer)
    case _ => None
  }

  predicate Enabled(p: Pool, e: Event) {
    && (StepOf(e).Some? ==> Q.Enabled(p.q, StepOf(e).value))
    && match e
       case Client(step) => p.dtor.NotStarted? && ClientStep(step)
       case WorkerDequeue => p.ready > 0
       case WorkerDequeueAgain => true
       case WorkerNotify(m) => m in p.popped
       case WorkerProcess(m) => m in p.holding
       case WorkerSpurious => true
       case StartDestroy => p.dtor.NotStarted? && NoProducers(p.q)
       case DtorPost => p.dtor.Posting? && p.dtor.left > 0
       case DtorPostAgain => p.dtor.Waiting? && p.dtor.left > 0
       case DtorNotify(w) => p.dtor.Notifying?
       case DtorSpurious => p.dtor.Waiting?
       case DtorPosted => p.dtor == Posting(0)
       case DtorJoin => p.dtor.Joining? && p.exited == p.threads
  }

  function QueueAfter(p: Pool, e: Event): Q.State<Msg>
    requires Enabled(p, e)
  {
    if StepOf(e).Some? then Q.Apply(p.q, StepOf(e).value) else p.q
  }

  /** What a worker's pass over the queue takes. */
  function Taken(q: Q.State<Msg>): multiset<Msg> {
    if q.items == [] then multiset{} else multiset{q.items[0]}
  }

  /** A pass of the destructor's enqueue: it pushes, or waits. */
  function AfterPost(q: Q.State<Msg>, left: nat): Destructor
    requires left > 0
  {
    if |q.items| < q.capacity then Notifying(left - 1) else Waiting(left)
  }

  /** Handling a message: a terminate message ends the worker's loop. */
  function Process(p: Pool, m: Msg): Pool {
    var t := p.(holding := p.holding - multiset{m}, order := p.order + [m]);
    if m == Terminate then t.(exited := p.exited + 1)
    else t.(ready := p.ready + 1, processed := p.processed + multiset{m})
  }

  function Apply(p: Pool, e: Event): Pool
    requires Enabled(p, e)
  {
    var t := p.(q := QueueAfter(p, e));
    match e
    case Client(_) => t
    case WorkerDequeue => t.(ready := p.ready - 1, popped := p.popped + Taken(p.q))
    case WorkerDequeueAgain => t.(popped := p.popped + Taken(p.q))
    case WorkerNotify(m) => t.(popped := p.popped - multiset{m}, holding := p.holding + multiset{m})
    case WorkerProcess(m) => Process(p, m)
    case WorkerSpurious => t
    case StartDestroy => t.(dtor := Posting(p.threads))
    case DtorPost => t.(dtor := AfterPost(p.q, p.dtor.left))
    case DtorPostAgain => t.(dtor := AfterPost(p.q, p.dtor.left))
    case DtorNotify(_) => t.(dtor := Posting(p.dtor.left))
    case DtorSpurious => t
    case DtorPosted => t.(dtor := Joining)
    case DtorJoin => t.(dtor := Finished)
  }

  predicate ValidRun(p: Pool, es: seq<Event>)
    decreases |es|
  {
    es == [] || (Enabled(p, es[0]) && ValidRun(Apply(p, es[0]), es[1..]))
  }

  function Run(p: Pool, es: seq<Event>): Pool
    requires ValidRun(p, es)
    decreases |es|
  {
    if es == [] then p else Run(Apply(p, es[0]), es[1..])
  }

  // ---------- The invariant ----------

  /** Terminate messages posted so far. */
  function Posted(p: Pool): int {
    match p.dtor
    case NotStarted => 0
    case Posting(l) => p.threads - l
    case Waiting(l) => p.threads - l
    case Notifying(l) => p.threads - l
    case Joining => p.threads
    case Finished => p.threads
  }

  ghost predicate QueueInv(p: Pool) {
    Q.WakeupInv(p.q) && Q.HistoryInv(p.q) && p.q.capacity >= 1 && p.threads >= 1
  }

  /** Every worker is somewhere, and only workers dequeue. */
  ghost predicate WorkersInv(p: Pool) {
    && p.ready + p.q.consumersAsleep + p.q.consumersWoken + |p.popped| + |p.holding| + p.exited == p.threads
    && |p.popped| == p.q.popNotices
    && p.q.timedAsleep == 0 && p.q.timedWoken == 0
  }

  /** Where the destructor is, in terms of the producers of the queue. */
  ghost predicate DtorInv(p: Pool) {
    match p.dtor
    case NotStarted => p.q.waiting[Terminate] == 0
    case Posting(l) => l <= p.threads && NoProducers(p.q)
    case Waiting(l) =>
      && 1 <= l <= p.threads && p.q.pushNotices == 0 && p.q.discardNotices == 0
      && p.q.producersAsleep + p.q.producersWoken == 1 && p.q.waiting == multiset{Terminate}
    case Notifying(l) =>
      && l < p.threads && p.q.pushNotices == 1 && p.q.discardNotices == 0
      && p.q.producersAsleep == 0 && p.q.producersWoken == 0
    case Joining => NoProducers(p.q)
    case Finished => NoProducers(p.q) && p.exited == p.threads
  }

  /** Every terminate message posted is queued, held, or has ended its worker; once one is posted,
      nothing else is queued behind it. */
  ghost predicate TerminateInv(p: Pool) {
    && multiset(p.q.items)[Terminate] + p.popped[Terminate] + p.holding[Terminate] + p.exited == Posted(p)
    && (Posted(p) > 0 && p.q.items != [] ==> p.q.items[|p.q.items| - 1] == Terminate)
  }

  ghost predicate Inv(p: Pool) {
    QueueInv(p) && WorkersInv(p) && DtorInv(p) && TerminateInv(p)
  }

  /** A pool can be created with any capacity; it is sound exactly when the queue can hold a message. */
  lemma CreateInv(capacity: nat, threads: nat)
    ensures var p := Create(capacity, threads);
      && (p.Some? <==> 1 <= threads <= 1000)
      && (p.Some? ==> (Inv(p.value) <==> capacity >= 1))
      && (p.Some? ==> p.value.q.capacity == capacity && p.value.threads == p.value.ready == threads)
  {
    assert Q.Firsts<Msg>([]) + [] == [];
  }

  lemma QueueStep(p: Pool, e: Event)
    requires QueueInv(p) && Enabled(p, e)
    ensures QueueInv(Apply(p, e))
  {
    hide Q.WakeupInv, Q.HistoryInv, Q.Enabled, Q.Apply, Q.Push, Q.Pop;
    if StepOf(e).Some? {
      Q.StepKeepsWakeup(p.q, StepOf(e).value);
      Q.StepKeepsHistory(p.q, StepOf(e).value);
      CapacityStays(p.q, StepOf(e).value);
    }
  }

  lemma CapacityStays(q: Q.State<Msg>, step: Q.Step<Msg>)
    requires Q.Enabled(q, step)
    ensures Q.Apply(q, step).capacity == q.capacity
  {
  }

  // What the steps of each kind of thread do to the queue.

  ghost predicate SameProducers(q: Q.State<Msg>, t: Q.State<Msg>) {
    && t.producersAsleep == q.producersAsleep && t.producersWoken == q.producersWoken
    && t.pushNotices == q.pushNotices && t.discardNotices == q.discardNotices && t.waiting == q.waiting
  }

  ghost predicate SameConsumers(q: Q.State<Msg>, t: Q.State<Msg>) {
    && t.consumersAsleep + t.consumersWoken == q.consumersAsleep + q.consumersWoken
    && t.popNotices == q.popNotices && t.timedAsleep == q.timedAsleep && t.timedWoken == q.timedWoken
  }

  lemma ClientFacts(q: Q.State<Msg>, step: Q.Step<Msg>)
    requires ClientStep(step) && Q.Enabled(q, step) && q.timedAsleep == 0 && |q.items| <= q.capacity
    ensures var t := Q.Apply(q, step);
      && SameConsumers(q, t)
      && t.waiting[Terminate] == q.waiting[Terminate]
      && (multiset(q.items)[Terminate] == 0 ==> multiset(t.items)[Terminate] == 0)
  {
    hide Q.Apply, Q.Enabled, SameConsumers;
    ClientConsumers(q, step);
    ClientItems(q, step);
    ClientWaiting(q, step);
  }

  lemma ClientConsumers(q: Q.State<Msg>, step: Q.Step<Msg>)
    requires ClientStep(step) && Q.Enabled(q, step) && q.timedAsleep == 0
    ensures SameConsumers(q, Q.Apply(q, step))
  {
    hide C.Pushed;
  }

  lemma ClientItems(q: Q.State<Msg>, step: Q.Step<Msg>)
    requires ClientStep(step) && Q.Enabled(q, step) && |q.items| <= q.capacity
    ensures multiset(q.items)[Terminate] == 0 ==> multiset(Q.Apply(q, step).items)[Terminate] == 0
  {
    hide C.Pushed;
    if step.Enqueue? || step.EnqueueAgain? || step.EnqueueNowait? || step.EnqueueIfHaveRoom? {
      PushedItems(q.items, q.capacity, step.item);
    }
  }

  lemma ClientWaiting(q: Q.State<Msg>, step: Q.Step<Msg>)
    requires ClientStep(step) && Q.Enabled(q, step)
    ensures Q.Apply(q, step).waiting[Terminate] == q.waiting[Terminate]
  {
  }

  lemma PushedItems(items: seq<Msg>, capacity: nat, m: Msg)
    requires |items| <= capacity
    ensures m != Terminate && multiset(items)[Terminate] == 0 ==>
      multiset(C.Pushed(items, capacity, m))[Terminate] == 0
    ensures |items| < capacity ==> C.Pushed(items, capacity, m) == items + [m]
  {
    var all := items + [m];
    assert all == [all[0]] + all[1..];
  }

  lemma TakeFacts(q: Q.State<Msg>, step: Q.Step<Msg>)
    requires (step.Dequeue? || step.DequeueAgain?) && Q.Enabled(q, step)
    ensures var t := Q.Apply(q, step);
      var again := if step.DequeueAgain? then 1 else 0;
      && SameProducers(q, t)
      && t.items == (if q.items == [] then [] else q.items[1..])
      && multiset(t.items) + Taken(q) == multiset(q.items)
      && t.popNotices == q.popNotices + |Taken(q)|
      && t.consumersAsleep == q.consumersAsleep + 1 - |Taken(q)|
      && t.consumersWoken == q.consumersWoken - again
      && t.timedAsleep == q.timedAsleep && t.timedWoken == q.timedWoken
  {
    if q.items != [] {
      assert q.items == [q.items[0]] + q.items[1..];
    }
  }

  lemma PostFacts(q: Q.State<Msg>, step: Q.Step<Msg>)
    requires (step == Q.Enqueue(Terminate) || step == Q.EnqueueAgain(Terminate)) && Q.Enabled(q, step)
    ensures var t := Q.Apply(q, step);
      var again := if step.EnqueueAgain? then 1 else 0;
      && SameConsumers(q, t) && t.consumersAsleep == q.consumersAsleep
      && t.producersWoken == q.producersWoken - again && t.discardNotices == q.discardNotices
      && if |q.items| < q.capacity then
           && t.items == q.items + [Terminate] && t.pushNotices == q.pushNotices + 1
           && t.producersAsleep == q.producersAsleep
           && (again == 1 ==> t.waiting == q.waiting - multiset{Terminate})
         else
           && t.items == q.items && t.pushNotices == q.pushNotices
           && t.producersAsleep == q.producersAsleep + 1
           && t.waiting == if again == 1 then q.waiting else q.waiting + multiset{Terminate}
  {
  }

  /** Notifications, and waits that end by themselves. */
  lemma MoveFacts(q: Q.State<Msg>, step: Q.Step<Msg>)
    requires step.NotifyPop? || step.NotifyPush? || step.SpuriousConsumer? || step.SpuriousProducer?
    requires Q.Enabled(q, step) && q.timedAsleep == 0
    ensures var t := Q.Apply(q, step);
      && t.items == q.items && t.waiting == q.waiting && t.discardNotices == q.discardNotices
      && t.producersAsleep + t.producersWoken == q.producersAsleep + q.producersWoken
      && t.consumersAsleep + t.consumersWoken == q.consumersAsleep + q.consumersWoken
      && t.timedAsleep == q.timedAsleep && t.timedWoken == q.timedWoken
      && t.pushNotices == q.pushNotices - (if step.NotifyPush? then 1 else 0)
      && t.popNotices == q.popNotices - (if step.NotifyPop? then 1 else 0)
      && t.consumersWoken <= q.consumersWoken + (if step.NotifyPush? || step.SpuriousConsumer? then 1 else 0)
      && t.producersWoken <= q.producersWoken + (if step.NotifyPop? || step.SpuriousProducer? then 1 else 0)
  {
  }

  // The invariant, by kind of event.

  lemma ClientKeepsInv(p: Pool, e: Event)
    requires Inv(p) && Enabled(p, e) && e.Client?
    ensures WorkersInv(Apply(p, e)) && DtorInv(Apply(p, e)) && TerminateInv(Apply(p, e))
  {
    hide Q.HistoryInv, Q.Apply, ClientStep;
    ClientFacts(p.q, e.step);
  }

  lemma TakeKeepsInv(p: Pool, e: Event)
    requires Inv(p) && Enabled(p, e) && (e.WorkerDequeue? || e.WorkerDequeueAgain?)
    ensures WorkersInv(Apply(p, e)) && DtorInv(Apply(p, e)) && TerminateInv(Apply(p, e))
  {
    hide QueueInv, WorkersInv, DtorInv, TerminateInv, Apply, Enabled;
    TakeWorkers(p, e);
    TakeDtor(p, e);
    TakeTerminates(p, e);
  }

  lemma TakeWorkers(p: Pool, e: Event)
    requires Inv(p) && Enabled(p, e) && (e.WorkerDequeue? || e.WorkerDequeueAgain?)
    ensures WorkersInv(Apply(p, e))
  {
    hide QueueInv, DtorInv, TerminateInv, Q.Enabled, Q.Apply, Taken;
    TakeFacts(p.q, StepOf(e).value);
  }

  lemma TakeDtor(p: Pool, e: Event)
    requires Inv(p) && Enabled(p, e) && (e.WorkerDequeue? || e.WorkerDequeueAgain?)
    ensures DtorInv(Apply(p, e))
  {
    hide QueueInv, WorkersInv, TerminateInv, Q.Enabled, Q.Apply, Taken;
    TakeFacts(p.q, StepOf(e).value);
  }

  lemma TakeTerminates(p: Pool, e: Event)
    requires Inv(p) && Enabled(p, e) && (e.WorkerDequeue? || e.WorkerDequeueAgain?)
    ensures TerminateInv(Apply(p, e))
  {
    hide QueueInv, WorkersInv, DtorInv, Q.Enabled, Q.Apply, Taken;
    TakeFacts(p.q, StepOf(e).value);
  }

  lemma PostKeepsInv(p: Pool, e: Event)
    requires Inv(p) && Enabled(p, e) && (e.DtorPost? || e.DtorPostAgain?)
    ensures WorkersInv(Apply(p, e)) && DtorInv(Apply(p, e)) && TerminateInv(Apply(p, e))
  {
    hide QueueInv, WorkersInv, DtorInv, TerminateInv, Apply, Enabled;
    PostWorkers(p, e);
    PostTerminates(p, e);
  }

  lemma PostWorkers(p: Pool, e: Event)
    requires Inv(p) && Enabled(p, e) && (e.DtorPost? || e.DtorPostAgain?)
    ensures WorkersInv(Apply(p, e)) && DtorInv(Apply(p, e))
  {
    hide Q.WakeupInv, Q.Enabled, Q.Apply, TerminateInv;
    PostFacts(p.q, StepOf(e).value);
    if e.DtorPost? {
      assert |p.q.waiting| == 0;
    }
  }

  /** What a pass of the destructor's enqueue changes, as far as terminate messages go. */
  lemma PostShape(p: Pool, e: Event)
    requires Enabled(p, e) && (e.DtorPost? || e.DtorPostAgain?)
    ensures var t := Apply(p, e);
      var pushes := |p.q.items| < p.q.capacity;
      && t.popped == p.popped && t.holding == p.holding && t.exited == p.exited
      && t.q.items == (if pushes then p.q.items + [Terminate] else p.q.items)
      && Posted(t) == Posted(p) + if pushes then 1 else 0
  {
    hide Q.Enabled, Q.Apply;
    PostFacts(p.q, StepOf(e).value);
  }

  lemma PostTerminates(p: Pool, e: Event)
    requires Inv(p) && Enabled(p, e) && (e.DtorPost? || e.DtorPostAgain?)
    ensures TerminateInv(Apply(p, e))
  {
    hide QueueInv, WorkersInv, DtorInv, Enabled, Apply, Posted;
    PostShape(p, e);
  }

  lemma NotifyKeepsInv(p: Pool, e: Event)
    requires Inv(p) && Enabled(p, e) && e.WorkerNotify?
    ensures WorkersInv(Apply(p, e)) && DtorInv(Apply(p, e)) && TerminateInv(Apply(p, e))
  {
    hide QueueInv, Q.Enabled, Q.Apply;
    MoveFacts(p.q, StepOf(e).value);
  }

  lemma SpuriousKeepsInv(p: Pool, e: Event)
    requires Inv(p) && Enabled(p, e) && (e.WorkerSpurious? || e.DtorSpurious?)
    ensures WorkersInv(Apply(p, e)) && DtorInv(Apply(p, e)) && TerminateInv(Apply(p, e))
  {
    hide QueueInv, Q.Enabled, Q.Apply;
    MoveFacts(p.q, StepOf(e).value);
  }

  lemma DtorNotifyKeepsInv(p: Pool, e: Event)
    requires Inv(p) && Enabled(p, e) && e.DtorNotify?
    ensures WorkersInv(Apply(p, e)) && DtorInv(Apply(p, e)) && TerminateInv(Apply(p, e))
  {
    hide QueueInv, Q.Enabled, Q.Apply;
    MoveFacts(p.q, StepOf(e).value);
  }

  lemma ProcessKeepsInv(p: Pool, m: Msg)
    requires Inv(p) && m in p.holding
    ensures WorkersInv(Process(p, m)) && DtorInv(Process(p, m)) && TerminateInv(Process(p, m))
  {
    hide QueueInv, WorkersInv, DtorInv, TerminateInv, Process;
    ProcessWorkers(p, m);
    ProcessTerminates(p, m);
  }

  lemma ProcessWorkers(p: Pool, m: Msg)
    requires WorkersInv(p) && DtorInv(p) && m in p.holding
    ensures WorkersInv(Process(p, m)) && DtorInv(Process(p, m))
  {
    assert |p.holding - multiset{m}| == |p.holding| - 1;
  }

  lemma ProcessTerminates(p: Pool, m: Msg)
    requires TerminateInv(p) && m in p.holding
    ensures TerminateInv(Process(p, m))
  {
    hide Posted;
    assert Posted(Process(p, m)) == Posted(p) by {
      SamePosted(p, Process(p, m));
    }
    assert (p.holding - multiset{m})[Terminate] == p.holding[Terminate] - if m == Terminate then 1 else 0;
  }

  lemma SamePosted(p: Pool, t: Pool)
    requires p.dtor == t.dtor && p.threads == t.threads
    ensures Posted(p) == Posted(t)
  {
  }

  lemma PhaseKeepsInv(p: Pool, e: Event)
    requires Inv(p) && Enabled(p, e) && (e.StartDestroy? || e.DtorPosted? || e.DtorJoin?)
    ensures WorkersInv(Apply(p, e)) && DtorInv(Apply(p, e)) && TerminateInv(Apply(p, e))
  {
    hide QueueInv, WorkersInv, DtorInv, TerminateInv, Apply, Enabled;
    PhaseShape(p, e);
    PhaseDtor(p, e);
    SameWorkers(p, Apply(p, e));
  }

  lemma PhaseShape(p: Pool, e: Event)
    requires Inv(p) && Enabled(p, e) && (e.StartDestroy? || e.DtorPosted? || e.DtorJoin?)
    ensures Apply(p, e) == p.(dtor := Apply(p, e).dtor) && Posted(Apply(p, e)) == Posted(p)
  {
    hide QueueInv, WorkersInv, DtorInv, TerminateInv, Q.Enabled, Q.Apply;
  }

  lemma PhaseDtor(p: Pool, e: Event)
    requires Inv(p) && Enabled(p, e) && (e.StartDestroy? || e.DtorPosted? || e.DtorJoin?)
    ensures DtorInv(Apply(p, e))
  {
    hide QueueInv, WorkersInv, TerminateInv, Q.Enabled, Q.Apply;
  }

  /** The other invariants see of the destructor only how many messages it has posted. */
  lemma SameWorkers(p: Pool, t: Pool)
    requires WorkersInv(p) && TerminateInv(p) && t == p.(dtor := t.dtor) && Posted(t) == Posted(p)
    ensures WorkersInv(t) && TerminateInv(t)
  {
    hide Posted;
  }

  lemma ProcessIsApply(p: Pool, m: Msg)
    requires Enabled(p, WorkerProcess(m))
    ensures m in p.holding && Apply(p, WorkerProcess(m)) == Process(p, m)
  {
  }

  lemma StepKeepsInv(p: Pool, e: Event)
    requires Inv(p) && Enabled(p, e)
    ensures Inv(Apply(p, e))
  {
    hide WorkersInv, DtorInv, TerminateInv, QueueInv, Apply, Enabled;
    QueueStep(p, e);
    match e {
      case Client(_) => ClientKeepsInv(p, e);
      case WorkerDequeue => TakeKeepsInv(p, e);
      case WorkerDequeueAgain => TakeKeepsInv(p, e);
      case DtorPost => PostKeepsInv(p, e);
      case DtorPostAgain => PostKeepsInv(p, e);
      case WorkerNotify(_) => NotifyKeepsInv(p, e);
      case WorkerSpurious => SpuriousKeepsInv(p, e);
      case DtorSpurious => SpuriousKeepsInv(p, e);
      case DtorNotify(_) => DtorNotifyKeepsInv(p, e);
      case WorkerProcess(m) =>
        ProcessIsApply(p, m);
        ProcessKeepsInv(p, m);
      case _ => PhaseKeepsInv(p, e);
    }
  }

  lemma {:induction false} RunKeepsInv(p: Pool, es: seq<Event>)
    requires Inv(p) && ValidRun(p, es)
    ensures Inv(Run(p, es))
    decreases |es|
  {
    hide Inv, Apply, Enabled;
    if es == [] {
    } else {
      StepKeepsInv(p, es[0]);
      RunKeepsInv(Apply(p, es[0]), es[1..]);
    }
  }
}
