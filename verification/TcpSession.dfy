/** The TCP session as the object it is: every strand turn updates the fields in place, and is
    proved to be the turn of the state machine in `SessionProtocol`. */
module TcpSession {
  import opened BigEndian
  import opened Wire
  import opened Wrappers
  import opened WriteQueue
  import Protocol = SessionProtocol

  /** The bytes of a list of buffers, as one gathered write sends them. */
  function Gather(bufs: seq<seq<Byte>>): seq<Byte> {
    if bufs == [] then [] else Gather(bufs[..|bufs| - 1]) + bufs[|bufs| - 1]
  }

  lemma {:induction false} UnusedBuffers(bufs: seq<seq<Byte>>, used: nat)
    requires used <= |bufs| && forall i :: used <= i < |bufs| ==> bufs[i] == []
    ensures Gather(bufs) == Gather(bufs[..used])
  {
    if used == |bufs| {
      assert bufs[..used] == bufs;
    } else {
      var p := bufs[..|bufs| - 1];
      UnusedBuffers(p, used);
      assert p[..used] == bufs[..used];
      assert Gather(p) + [] == Gather(p);
    }
  }

  lemma GatherMore(before: seq<seq<Byte>>, after: seq<seq<Byte>>)
    requires before <= after && |before| < |after| <= |before| + 2
    ensures Gather(after) == Gather(before)
      + if |after| == |before| + 1 then after[|before|] else after[|before|] + after[|before| + 1]
  {
    var n := |before|;
    assert after[..n] == before;
    if |after| == n + 2 {
      assert after[..n + 1][..n] == before;
      assert Gather(after) == (Gather(before) + after[n]) + after[n + 1];
    }
  }

  class TcpSession {
    var isWriting: bool
    var writeQueue: seq<WriteData>
    var pendingBytes: nat
    var backpressure: bool
    var isClosed: bool

    // Asio: the outstanding write, the wait of ReadLoop, the task posted by Shutdown, the socket
    var flight: Option<Protocol.Batch>
    var parked: bool
    var task: Protocol.Task
    var wire: seq<Byte>

    // History
    ghost var posted: seq<Frame>
    ghost var accepted: seq<Frame>
    ghost var completed: seq<Byte>

    ghost function View(): Protocol.State
      reads this
    {
      Protocol.State(isClosed, writeQueue, pendingBytes, isWriting, backpressure, flight, parked, task,
                     posted, accepted, completed, wire)
    }

    constructor ()
      ensures View() == Protocol.INIT
      ensures Protocol.Inv(View())
    {
      isWriting, writeQueue, pendingBytes, backpressure, isClosed := false, [], 0, false, false;
      flight, parked, task, wire := None, false, Protocol.NotPosted, [];
      posted, accepted, completed := [], [], [];
      new;
      Protocol.InitInv();
    }

    method Shutdown()
      modifies `isClosed, `task
      ensures View() == Protocol.CloseNow(old(View()))
    {
      if isClosed {
        return;
      }
      isClosed := true;
      task := Protocol.Posted;
    }

    /** Gathers the items that fit from the front of the queue and starts the write. */
    method Drain()
      requires flight.None?
      modifies `isWriting, `flight
      ensures View() == Protocol.Drain(old(View()))
    {
      if isClosed || writeQueue == [] {
        isWriting := false;
        return;
      }
      var items, bytes, data := GatherBatch(writeQueue);
      flight := Some(Protocol.Batch(items, bytes, data, 0, |writeQueue|));
    }

    /** The loop of `Drain`: a fixed array of 32 buffers is filled item by item until the next one
        would exceed a limit. */
    static method GatherBatch(queue: seq<WriteData>) returns (items: nat, bytes: nat, data: seq<Byte>)
      requires queue != []
      ensures items == LongestBatch(queue)
      ensures IsLongestBatch(queue, items)
      ensures bytes == TotalBytes(queue[..items]) && data == Flatten(queue[..items])
    {
      hide TotalBytes, TotalIov, Flatten, Gather;
      var bufs := new seq<Byte>[MAX_IOV_PER_WRITE](_ => []);
      var usedIov := 0;
      items, bytes := 0, 0;
      Empty(queue);
      assert bufs[..0] == [];
      while items < |queue|
        invariant items <= |queue| && usedIov <= MAX_IOV_PER_WRITE
        invariant items != 0 ==> Fits(queue[..items])
        invariant usedIov == TotalIov(queue[..items]) && bytes == TotalBytes(queue[..items])
        invariant Gather(bufs[..usedIov]) == Flatten(queue[..items])
        invariant forall i :: usedIov <= i < MAX_IOV_PER_WRITE ==> bufs[i] == []
      {
        var it := queue[items];
        assert queue[..items + 1] == queue[..items] + [it];
        SumsOfPush(queue[..items], it);
        if items != 0 && (usedIov + Iov(it) > MAX_IOV_PER_WRITE || bytes + it.totalBytes > MAX_BATCH_BYTES) {
          NoLongerBatch(queue, items);
          break;
        }
        ghost var before := bufs[..usedIov];
        bufs[usedIov] := it.header;
        usedIov := usedIov + 1;
        if it.body != [] {
          bufs[usedIov] := it.body;
          usedIov := usedIov + 1;
        }
        GatherMore(before, bufs[..usedIov]);
        bytes := bytes + it.totalBytes;
        items := items + 1;
        assert it.header + [] == it.header;
      }
      LongestIsUnique(queue, items);
      UnusedBuffers(bufs[..], usedIov);
      assert bufs[..][..usedIov] == bufs[..usedIov];
      data := Gather(bufs[..]);
    }

    static lemma Empty(queue: seq<WriteData>)
      ensures TotalIov(queue[..0]) == 0 && TotalBytes(queue[..0]) == 0 && Flatten(queue[..0]) == []
      ensures Gather([]) == []
    {
    }

    /** Queueing an accepted frame, with the high-water check. */
    method Push(f: Frame)
      modifies `backpressure, `writeQueue, `accepted
      ensures View() == Protocol.Push(old(View()), f)
    {
      if !backpressure && pendingBytes > Protocol.HIGH_WATER {
        backpressure := true;
      }
      writeQueue := writeQueue + [MakeItem(f)];
      accepted := accepted + [f];
    }

    method AddPending(bytes: nat)
      modifies `pendingBytes
      ensures var s := old(View()); View() == s.(pending := s.pending + bytes)
    {
      pendingBytes := pendingBytes + bytes;
    }

    /** The turn posted by `SendFrame`.  Another thread may close the session after the turn has
        looked at the closed flag. */
    method SendFrame(f: Frame, closedMeanwhile: bool)
      requires Protocol.Inv(View())
      modifies this
      ensures View() == Protocol.SendTurn(old(View()), f, closedMeanwhile)
      ensures Protocol.Inv(View())
    {
      hide Protocol.Inv, Protocol.Drain, Protocol.CloseNow, Protocol.Push;
      ghost var s := View();
      Protocol.SendKeepsInv(s, f, closedMeanwhile);
      Protocol.WritingMeansFlight(s);
      posted := posted + [f];
      ghost var s0 := View();
      assert s0 == s.(posted := s.posted + [f]);
      if isClosed {
        return;
      }
      if closedMeanwhile {
        Shutdown();
      }
      ghost var s1 := View();
      var total := MakeItem(f).totalBytes;
      if |f.body| > MAX_BODY_SIZE || Protocol.SIZE_MAX - pendingBytes < total {
        Shutdown();
        return;
      }
      AddPending(total);
      if pendingBytes > Protocol.HARD_CAP {
        Shutdown();
        return;
      }
      PushAndDrain(f);
    }

    /** The end of the turn: the frame is queued, and the write started unless one is outstanding. */
    method PushAndDrain(f: Frame)
      requires isWriting <==> flight.Some?
      modifies `backpressure, `writeQueue, `accepted, `isWriting, `flight
      ensures var s := Protocol.Push(old(View()), f);
        View() == if s.writing then s else Protocol.Drain(s.(writing := true))
    {
      hide Protocol.Drain;
      Push(f);
      if !isWriting {
        isWriting := true;
        Drain();
      }
    }

    /** The completion handler after an error. */
    method OnWriteFailed()
      requires Protocol.Inv(View()) && flight.Some?
      modifies this
      ensures View() == Protocol.Apply(old(View()), Protocol.WriteFailed)
      ensures Protocol.Inv(View())
    {
      hide Protocol.Inv;
      Protocol.StepKeepsInv(View(), Protocol.WriteFailed);
      flight := None;
      isWriting := false;
      Shutdown();
    }

    /** The completion handler after success. */
    method OnWriteDone()
      requires Protocol.Inv(View()) && Protocol.Enabled(View(), Protocol.WriteDone)
      modifies this
      ensures View() == Protocol.Apply(old(View()), Protocol.WriteDone)
      ensures Protocol.Inv(View())
    {
      hide Protocol.Inv, Protocol.Drain, Protocol.Completed;
      Protocol.StepKeepsInv(View(), Protocol.WriteDone);
      TakeCompleted();
      Drain();
    }

    /** Popping the items of the write, taking its bytes off the account, and resuming the reader. */
    method TakeCompleted()
      requires Protocol.Inv(View()) && Protocol.Enabled(View(), Protocol.WriteDone)
      modifies `flight, `completed, `writeQueue, `pendingBytes, `backpressure, `parked
      ensures View() == Protocol.Completed(old(View()))
      ensures flight.None?
    {
      hide Protocol.Inv, Protocol.IdleInv;
      Protocol.CompletedKeepsInv(View());
      var b := flight.value;
      flight := None;
      completed := completed + b.data;
      PopItems(b.items);
      pendingBytes := pendingBytes - b.bytes;
      if backpressure && pendingBytes <= Protocol.LOW_WATER {
        backpressure := false;
        parked := false;
      }
    }

    method PopItems(n: nat)
      requires n <= |writeQueue|
      modifies `writeQueue
      ensures writeQueue == old(writeQueue)[n..]
    {
      for i := 0 to n
        invariant writeQueue == old(writeQueue)[i..]
      {
        writeQueue := writeQueue[1..];
      }
    }

    /** The top of `ReadLoop`. */
    method CheckBackpressure()
      requires !parked
      modifies `parked
      ensures View() == Protocol.Apply(old(View()), Protocol.ReaderCheck)
    {
      if backpressure {
        parked := true;
      }
    }

    /** The strand task of `Shutdown` cancels the wait of `ReadLoop`. */
    method RunShutdownTask()
      requires task.Posted?
      modifies this
      ensures View() == Protocol.Apply(old(View()), Protocol.ShutdownTask)
    {
      task := Protocol.Done;
      parked := false;
    }
  }
}
