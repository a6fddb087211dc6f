/** The strand turns of a TCP session as a state machine: sending, the gathered writes and their
    completions, backpressure, and closing from any thread. */
module SessionProtocol {
  import opened BigEndian
  import opened Sequences
  import opened Wire
  import opened Wrappers
  import opened WriteQueue

  const LOW_WATER: nat := 1024 * 512
  const HIGH_WATER: nat := LOW_WATER * 2
  const HARD_CAP: nat := MAX_BODY_SIZE * 4
  const SIZE_MAX: nat := 0xffff_ffff_ffff_ffff

  /** An outstanding `async_write`: what its handler captured, the bytes it was given, how many of
      them have reached the socket, and, as history, how many items were queued when it started. */
  datatype Batch = Batch(items: nat, bytes: nat, data: seq<Byte>, sent: nat, queued: nat)

  /** The strand task that `Shutdown` posts the first time it is called.  It cancels the waits and closes
      the socket, so once it is done no byte can leave any more. */
  datatype Task = NotPosted | Posted | Done

  datatype State = State(
    closed: bool,
    queue: seq<WriteData>,
    pending: nat,
    writing: bool,
    backpressure: bool,
    flight: Option<Batch>,
    parked: bool,          // ReadLoop waits on m_resume_read
    task: Task,
    posted: seq<Frame>,    // every frame whose send turn has run
    accepted: seq<Frame>,  // those pushed on the queue
    completed: seq<Byte>,  // the bytes of the writes that succeeded
    wire: seq<Byte>        // the bytes that reached the socket
  )

  const INIT := State(false, [], 0, false, false, None, false, NotPosted, [], [], [], [])

  datatype Turn =
    | Send(frame: Frame, closedMeanwhile: bool)  // another thread may close during the turn
    | Transfer(count: nat)
    | WriteDone
    | WriteFailed
    | Close                                      // any thread
    | ShutdownTask
    | ReaderCheck

  // ---------- The turns ----------

  function CloseNow(s: State): State {
    if s.closed then s else s.(closed := true, task := Posted)
  }

  /** `Drain`. */
  function Drain(s: State): State {
    if s.closed || s.queue == [] then s.(writing := false)
    else
      var batch := s.queue[..LongestBatch(s.queue)];
      s.(flight := Some(Batch(|batch|, TotalBytes(batch), Flatten(batch), 0, |s.queue|)))
  }

  /** Pushing an accepted frame, already counted in `pending`. */
  function Push(s: State, f: Frame): State {
    s.(backpressure := s.backpressure || s.pending > HIGH_WATER,
       queue := s.queue + [MakeItem(f)],
       accepted := s.accepted + [f])
  }

  /** The turn that `SendFrame` posts. */
  function SendTurn(s: State, f: Frame, closedMeanwhile: bool): State {
    var s0 := s.(posted := s.posted + [f]);
    if s0.closed then s0 else
    var s1 := if closedMeanwhile then CloseNow(s0) else s0;
    var total := MakeItem(f).totalBytes;
    if |f.body| > MAX_BODY_SIZE || SIZE_MAX - s1.pending < total then CloseNow(s1) else
    var s2 := s1.(pending := s1.pending + total);
    if s2.pending > HARD_CAP then CloseNow(s2) else
    var s3 := Push(s2, f);
    if s3.writing then s3 else Drain(s3.(writing := true))
  }

  function PopFront(q: seq<WriteData>, n: nat): seq<WriteData> {
    if n <= |q| then q[n..] else []
  }

  /** Subtraction of `std::size_t`. */
  function SizeSub(a: nat, b: nat): nat
    requires b <= SIZE_MAX
  {
    if b <= a then a - b else a + (SIZE_MAX + 1 - b)
  }

  predicate Enabled(s: State, e: Turn) {
    match e
    case Transfer(n) => s.flight.Some? && s.flight.value.sent + n <= |s.flight.value.data| && !s.task.Done?
    case WriteDone =>
      s.flight.Some? && s.flight.value.sent == |s.flight.value.data| && s.flight.value.bytes <= SIZE_MAX
    case WriteFailed => s.flight.Some?
    case ShutdownTask => s.task == Posted
    case ReaderCheck => !s.parked
    case _ => true
  }

  /** The successful completion, up to the next `Drain`. */
  function Completed(s: State): State
    requires Enabled(s, WriteDone)
  {
    var b := s.flight.value;
    var pending := SizeSub(s.pending, b.bytes);
    var released := s.backpressure && pending <= LOW_WATER;
    s.(flight := None,
       queue := PopFront(s.queue, b.items),
       pending := pending,
       backpressure := s.backpressure && !released,
       parked := s.parked && !released,
       completed := s.completed + b.data)
  }

  function Apply(s: State, e: Turn): State
    requires Enabled(s, e)
  {
    match e
    case Send(f, closedMeanwhile) => SendTurn(s, f, closedMeanwhile)
    case Transfer(n) =>
      var b := s.flight.value;
      s.(flight := Some(b.(sent := b.sent + n)), wire := s.wire + b.data[b.sent..b.sent + n])
    case WriteDone => Drain(Completed(s))
    case WriteFailed => CloseNow(s.(flight := None, writing := false))
    case Close => CloseNow(s)
    case ShutdownTask => s.(task := Done, parked := false)
    case ReaderCheck => s.(parked := s.backpressure)
  }

  predicate ValidRun(s: State, es: seq<Turn>)
    decreases |es|
  {
    es == [] || (Enabled(s, es[0]) && ValidRun(Apply(s, es[0]), es[1..]))
  }

  function Run(s: State, es: seq<Turn>): State
    requires ValidRun(s, es)
    decreases |es|
  {
    if es == [] then s else Run(Apply(s, es[0]), es[1..])
  }

  // ---------- The invariant ----------

  /** The frames whose bytes have all been written. */
  function Sent(s: State): seq<Frame>
    requires |s.queue| <= |s.accepted|
  {
    s.accepted[..|s.accepted| - |s.queue|]
  }

  ghost predicate QueueInv(s: State) {
    && |s.queue| <= |s.accepted|
    && s.queue == Items(s.accepted[|s.accepted| - |s.queue|..])
    && s.completed == SerializeAll(Sent(s))
    && s.accepted <= s.posted
    && (!s.closed ==> s.accepted == s.posted)
    && forall f <- s.accepted :: |f.body| <= MAX_BODY_SIZE
  }

  /** The outstanding write is the batch at the front of the queue that was the longest one of the queue
      as it was when the write started. */
  ghost predicate BatchInv(q: seq<WriteData>, b: Batch) {
    && 1 <= b.items <= b.queued <= |q|
    && b.bytes == TotalBytes(q[..b.items])
    && b.data == Flatten(q[..b.items])
    && b.sent <= |b.data|
    && IsLongestBatch(q[..b.queued], b.items)
  }

  ghost predicate WriteInv(s: State) {
    && (s.writing <==> s.flight.Some?)
    && (s.flight.Some? ==> BatchInv(s.queue, s.flight.value))
    && (!s.closed && s.queue != [] ==> s.writing)
  }

  ghost predicate WireInv(s: State) {
    if s.flight.Some? then
      s.flight.value.sent <= |s.flight.value.data| && s.wire == s.completed + s.flight.value.data[..s.flight.value.sent]
    else
      && s.completed <= s.wire <= s.completed + Flatten(s.queue)
      && (!s.closed ==> s.wire == s.completed)
  }

  ghost predicate AccountInv(s: State) {
    && TotalBytes(s.queue) <= s.pending <= TotalBytes(s.queue) + MAX_BODY_SIZE + HEADER_SIZE
    && s.pending <= HARD_CAP + MAX_BODY_SIZE + HEADER_SIZE
    && (!s.closed ==> s.pending == TotalBytes(s.queue) && s.pending <= HARD_CAP)
    && (s.pending > HIGH_WATER ==> s.backpressure)
    && (s.backpressure ==> s.pending > LOW_WATER)
    && (s.parked ==> s.backpressure)
    && (s.closed <==> !s.task.NotPosted?)
  }

  ghost predicate Inv(s: State) {
    QueueInv(s) && WriteInv(s) && WireInv(s) && AccountInv(s)
  }

  /** The state in which `Drain` is called: no write is outstanding. */
  ghost predicate IdleInv(s: State) {
    QueueInv(s) && AccountInv(s) && WireInv(s) && s.flight.None?
  }

  lemma InitInv()
    ensures Inv(INIT)
  {
    assert Items([]) == [];
  }

  lemma CloseKeepsInv(s: State)
    ensures Inv(s) ==> Inv(CloseNow(s))
    ensures IdleInv(s) ==> IdleInv(CloseNow(s))
  {
    hide TotalBytes, Flatten, BatchInv, SerializeAll;
  }

  /** A write has just been started on the longest batch of the whole queue. */
  ghost predicate StartsLongest(t: State) {
    && t.flight.Some?
    && var b := t.flight.value;
       && b.sent == 0 && b.queued == |t.queue|
       && IsLongestBatch(t.queue, b.items)
       && b.bytes == TotalBytes(t.queue[..b.items]) && b.data == Flatten(t.queue[..b.items])
  }

  /** The same write is still outstanding. */
  predicate SameWrite(s: State, t: State) {
    s.flight.Some? && t.flight.Some? && t.flight.value == s.flight.value.(sent := t.flight.value.sent)
  }

  lemma DrainKeepsInv(s: State)
    requires IdleInv(s) && s.writing
    ensures Inv(Drain(s))
    ensures if s.closed || s.queue == [] then Drain(s).flight.None? else StartsLongest(Drain(s))
  {
    hide TotalBytes, Flatten, SerializeAll, Items;
    if !s.closed && s.queue != [] {
      var k := LongestBatch(s.queue);
      LongestWithinIsLongest(s.queue, |s.queue|);
      assert s.queue[..|s.queue|] == s.queue;
      var b := Drain(s).flight.value;
      assert s.completed + b.data[..0] == s.completed;
    }
  }

  /** The batch at the front of the queue is the serialisation of the next unsent frames. */
  lemma FrontOfQueue(s: State, k: nat)
    requires QueueInv(s) && k <= |s.queue|
    ensures var n := |s.accepted| - |s.queue|;
      && s.queue[k..] == Items(s.accepted[n + k..])
      && s.completed + Flatten(s.queue[..k]) == SerializeAll(s.accepted[..n + k])
      && TotalBytes(s.queue[..k]) == |Flatten(s.queue[..k])|
  {
    hide TotalBytes, Flatten, SerializeAll, Items;
    var n := |s.accepted| - |s.queue|;
    var queued, batch := s.accepted[n..], s.accepted[n..n + k];
    SplitTwice(s.accepted, n, k);
    ItemsSplit(queued, k);
    ItemsAreFrames(batch);
    SerializeAllAppend(s.accepted[..n], batch);
  }

  /** A successful completion leaves no write outstanding and takes exactly its bytes off the
      account. */
  lemma CompletedKeepsInv(s: State)
    requires Inv(s) && Enabled(s, WriteDone)
    ensures IdleInv(Completed(s)) && Completed(s).writing
    ensures s.flight.value.items <= |s.queue| && s.flight.value.bytes <= s.pending
  {
    hide QueueInv, WireInv, AccountInv, BatchInv, Enabled, Completed;
    CompletedQueue(s);
    CompletedWire(s);
    CompletedAccount(s);
  }

  lemma CompletedWire(s: State)
    requires Inv(s) && Enabled(s, WriteDone)
    ensures WireInv(Completed(s)) && Completed(s).flight.None? && Completed(s).writing
  {
    hide TotalBytes, Flatten, BatchInv, QueueInv, AccountInv, SizeSub, PopFront;
    var b := s.flight.value;
    assert b.data[..b.sent] == b.data;
  }

  lemma CompletedAccount(s: State)
    requires Inv(s) && Enabled(s, WriteDone)
    ensures AccountInv(Completed(s))
    ensures s.flight.value.items <= |s.queue| && s.flight.value.bytes <= s.pending
  {
    hide TotalBytes, TotalIov, Flatten, IsLongestBatch, QueueInv, WireInv;
    SumsOfSplit(s.queue, s.flight.value.items);
  }

  lemma CompletedQueue(s: State)
    requires Inv(s) && Enabled(s, WriteDone)
    ensures QueueInv(Completed(s))
    ensures Completed(s).queue == s.queue[s.flight.value.items..]
  {
    hide TotalBytes, Flatten, SerializeAll, Items, IsLongestBatch;
    FrontOfQueue(s, s.flight.value.items);
  }

  /** Pushing one frame behind the queue. */
  lemma PushKeepsQueue(s: State, f: Frame, pending: nat)
    requires QueueInv(s) && !s.closed && |f.body| <= MAX_BODY_SIZE
    ensures QueueInv(Push(s.(posted := s.posted + [f], pending := pending), f))
  {
    hide SerializeAll;
    var t := Push(s.(posted := s.posted + [f], pending := pending), f);
    assert t.accepted[|t.accepted| - |t.queue|..] == s.accepted[|s.accepted| - |s.queue|..] + [f];
    assert Sent(t) == Sent(s);
  }

  lemma PushKeepsBatch(q: seq<WriteData>, it: WriteData, b: Batch)
    requires BatchInv(q, b)
    ensures BatchInv(q + [it], b)
  {
    hide TotalBytes, Flatten, IsLongestBatch;
    assert (q + [it])[..b.queued] == q[..b.queued] && (q + [it])[..b.items] == q[..b.items];
  }

  /** A frame accepted by an open session keeps the account, the order and an outstanding write. */
  lemma PushKeepsInv(s: State, f: Frame)
    requires Inv(s) && !s.closed && |f.body| <= MAX_BODY_SIZE
    requires s.pending + HEADER_SIZE + |f.body| <= HARD_CAP
    ensures var t := Push(s.(posted := s.posted + [f], pending := s.pending + HEADER_SIZE + |f.body|), f);
      if s.flight.Some? then Inv(t) else IdleInv(t)
  {
    hide TotalBytes, Flatten, BatchInv, Header, QueueInv;
    SumsOfPush(s.queue, MakeItem(f));
    var pending := s.pending + HEADER_SIZE + |f.body|;
    PushKeepsQueue(s, f, pending);
    if s.flight.Some? {
      PushKeepsBatch(s.queue, MakeItem(f), s.flight.value);
    }
  }

  /** Rejecting a frame counts it at most once, and closes. */
  lemma RejectKeepsInv(s: State, f: Frame, counted: nat)
    requires Inv(s) && !s.closed
    requires counted == 0 || (s.pending + counted > HARD_CAP && counted <= MAX_BODY_SIZE + HEADER_SIZE)
    ensures Inv(CloseNow(s.(posted := s.posted + [f], pending := s.pending + counted)))
  {
    hide TotalBytes, Flatten, SerializeAll, Items, BatchInv;
  }

  lemma StartKeepsInv(s: State)
    requires IdleInv(s)
    ensures IdleInv(s.(writing := true))
  {
    hide TotalBytes, Flatten, SerializeAll, Items;
  }

  lemma PostedGrows(s: State, f: Frame)
    requires Inv(s) && s.closed
    ensures Inv(s.(posted := s.posted + [f]))
  {
    hide TotalBytes, Flatten, SerializeAll, Items, BatchInv;
  }

  lemma SendKeepsInv(s: State, f: Frame, closedMeanwhile: bool)
    requires Inv(s)
    ensures var t := SendTurn(s, f, closedMeanwhile);
      && Inv(t)
      && (s.flight.Some? ==> t.flight == s.flight)
      && (s.flight.None? && t.flight.Some? ==> StartsLongest(t))
    ensures SIZE_MAX - s.pending >= HEADER_SIZE + MAX_BODY_SIZE
  {
    hide TotalBytes, Flatten, SerializeAll, Items, BatchInv, Header, Drain, QueueInv, WireInv, StartsLongest;
    var total := HEADER_SIZE + |f.body|;
    if s.closed {
      PostedGrows(s, f);
    } else if |f.body| > MAX_BODY_SIZE {
      RejectKeepsInv(s, f, 0);
    } else if s.pending + total > HARD_CAP {
      RejectKeepsInv(s, f, total);
    } else {
      PushKeepsInv(s, f);
      var t := Push(s.(posted := s.posted + [f], pending := s.pending + total), f);
      CloseKeepsInv(t);
      if s.flight.None? {
        var u := if closedMeanwhile then CloseNow(t) else t;
        StartKeepsInv(u);
        DrainKeepsInv(u.(writing := true));
      }
    }
  }

  /** A failed write leaves a partial batch on the wire and its items on the queue. */
  lemma FailKeepsInv(s: State)
    requires Inv(s) && s.flight.Some?
    ensures Inv(Apply(s, WriteFailed))
  {
    hide TotalBytes, Flatten, SerializeAll, Items, BatchInv, IsLongestBatch, QueueInv;
    FailedWire(s);
    CloseKeepsQueue(s, Apply(s, WriteFailed));
  }

  lemma FailedWire(s: State)
    requires Inv(s) && s.flight.Some?
    ensures s.completed <= s.wire <= s.completed + Flatten(s.queue)
  {
    hide TotalBytes, Flatten, SerializeAll, Items, IsLongestBatch, QueueInv, AccountInv;
    var b := s.flight.value;
    SumsOfSplit(s.queue, b.items);
    assert s.wire <= s.completed + (b.data + Flatten(s.queue[b.items..]));
  }

  lemma CloseKeepsQueue(s: State, t: State)
    requires QueueInv(s) && t.closed && t.queue == s.queue && t.completed == s.completed
    requires t.accepted == s.accepted && t.posted == s.posted
    ensures QueueInv(t)
  {
    hide SerializeAll, Items;
  }

  lemma TransferKeepsInv(s: State, n: nat)
    requires Inv(s) && Enabled(s, Transfer(n))
    ensures Inv(Apply(s, Transfer(n)))
  {
    hide TotalBytes, Flatten, SerializeAll, Items, IsLongestBatch, QueueInv, AccountInv;
    var b := s.flight.value;
    assert b.data[..b.sent + n] == b.data[..b.sent] + b.data[b.sent..b.sent + n];
    SameQueueAndAccount(s, Apply(s, Transfer(n)));
  }

  /** The queue and the account do not depend on how far the outstanding write has come. */
  lemma SameQueueAndAccount(s: State, t: State)
    requires t == s.(flight := t.flight, wire := t.wire)
    ensures QueueInv(s) == QueueInv(t) && AccountInv(s) == AccountInv(t)
  {
    hide TotalBytes, SerializeAll, Items;
  }

  lemma ReaderKeepsInv(s: State, e: Turn)
    requires Inv(s) && Enabled(s, e) && (e.ShutdownTask? || e.ReaderCheck?)
    ensures Inv(Apply(s, e))
  {
    hide TotalBytes, Flatten, SerializeAll, Items, BatchInv;
  }

  lemma StepKeepsInv(s: State, e: Turn)
    requires Inv(s) && Enabled(s, e)
    ensures Inv(Apply(s, e))
  {
    hide Inv, IdleInv, Drain, SendTurn, Completed, CloseNow;
    match e {
      case Send(f, closedMeanwhile) => SendKeepsInv(s, f, closedMeanwhile);
      case Transfer(n) => TransferKeepsInv(s, n);
      case WriteDone =>
        CompletedKeepsInv(s);
        DrainKeepsInv(Completed(s));
      case WriteFailed => FailKeepsInv(s);
      case Close => CloseKeepsInv(s);
      case ShutdownTask => ReaderKeepsInv(s, e);
      case ReaderCheck => ReaderKeepsInv(s, e);
    }
  }

  lemma WritingMeansFlight(s: State)
    requires Inv(s)
    ensures s.writing <==> s.flight.Some?
  {
  }

  lemma {:induction false} RunKeepsInv(s: State, es: seq<Turn>)
    requires Inv(s) && ValidRun(s, es)
    ensures Inv(Run(s, es))
    decreases |es|
  {
    hide Inv, Enabled, Apply;
    if es == [] {
    } else {
      StepKeepsInv(s, es[0]);
      RunKeepsInv(Apply(s, es[0]), es[1..]);
    }
  }
}
