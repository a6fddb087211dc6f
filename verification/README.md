# Verified model of the TCP server and its logging path

This project models, in Dafny, the parts of the repository whose correctness is not visible from one
function, and proves what they promise over all inputs and all runs. Check it with
`dafny verify dfyconfig.toml`.

## The parts

- **TCP session.** `SessionProtocol` is the state machine of the strand turns of a session: sending,
  the gathered write and its partial progress, completion and failure, closing from any thread, and
  backpressure. `SessionGuarantees` draws the conclusions about whole runs. `TcpSession` is the object
  with its fields and loops, each method proved equal to the turn it is. `WriteQueue` is the write
  queue and the choice of a batch.
- **Framing and codec.** `Wire` and `BigEndian` are the frame format, `Framing` the receiving loop as a
  parser with its round trips, `ByteCodec` the reader and writer of message bodies.
- **Heartbeat.** Timed runs of the heartbeat coroutine, in nanoseconds, with jitter and timer lateness.
- **Accepting and stopping.** `AcceptProtocol` has steps as small as another thread can tell apart: the
  flag may be set and the last reference to a session dropped between any two of them. `TcpServer`
  runs the steps as the handlers do.
- **Logging queue and workers.** `CircularQueue` is the ring buffer; `QueueProtocol` the queue under any
  number of threads, with sleeping, woken and about-to-notify threads as counts; `BlockingQueue` the
  object, one method for each region under the mutex. `ThreadPool` and `PoolShutdown` add the workers
  and the destructor. The application runs one worker, for which `OneWorkerKeepsOrder` and the log
  history together give the order of messages in the files.
- **Log rotation.** `FileNames`, `RotatingSink` (what one call does to the directory, for every outcome
  of the file operations), `LogHistory` (what any sequence of calls keeps), `RotatingFileSink` (the
  object).
- **Formatting.** `TrailingZeros`, `FixedBuffer`, `IsoWeek` and `TextStyle`: fast forms against simple
  specifications.

`Arithmetic`, `Sequences` and `Wrappers` hold a few shared facts and the optional type.

## Assumptions

- Handlers bound to one strand do not overlap and run in the order their steps are listed; other
  threads act between steps. In `SessionProtocol` an outside close is possible between turns and inside
  a send; a close seen or not seen elsewhere in a turn is the same as one just before or after it.
- A write transfers its bytes in order and completes successfully only after all of them; an aborted
  write may have transferred any prefix. Once the task of `Shutdown` has closed the socket no byte leaves.
- The body passed to a send is not changed afterwards, although the source shares it by pointer.
- Condition variables may wake without a notification, and a notification wakes at most one sleeper.
- In `RotatingSink` a successful rename replaces its target, only the sink changes its files, and a
  write to an open file writes all its bytes.

## Where the code and its documentation disagree

The model follows the code.

- `backend/Document/api_specification.md` describes an 8-byte header; the code sends ten bytes, with
  the API version.
- The same document promises a ping every 45 s and a close after 75 s without an answer. The code looks
  at the idle time only about every 30 s: a session can stay open to just below 105.5 s (`IdleIsBounded`,
  `BoundIsTight`), and the ping can be missing (`CloseWithoutPing`).

## Results about the code that a reader may not expect

- A reader parked on backpressure is not always released after a close: `StrandedIsReachable`, with the
  exact condition in `ReleasableIff`.
- The 64-bit `remove_trailing_zeros` truncates the quotient by 10^8 to 32 bits: it is exact for all n
  below 2^32 * 10^8, and beyond that exactly on the inputs `RemoveTrailingZeros64` names.
- One exception in an accept handler ends accepting for good: `AcceptingContinuesIff`.
- A worker pool with a queue of capacity 0 can be constructed but not destroyed: `FinishingNeedsRoom`.
- A failed reopen silences the log: `ClosedSinkDropsMessages`; a rotation that cannot rename a file
  loses the newest log: `FailedRotateLosesNewest`, with the exact effect in `FailedRotateIsExact`.
- The division by 1000 is wrong for some large 64-bit numbers: `DivideBy1000IsExactIff`.

## Model

| member | source | states |
|---|---|---|
| `SessionGuarantees.ExactlyOnceInOrder` | backend/Adapters/Inbound/Tcp/Session/TCPSession.cpp:94-215 | In every run of sends, partial transfers, completions, write errors and closes from any thread: completed bytes followed by the flattened queue are the serialised accepted frames; those are a prefix of all frames sent, and all of them while open; what reached the socket extends the completed bytes and is a prefix of the accepted frames |
| `SessionGuarantees.PeerReceivesFrames` | backend/Adapters/Inbound/Tcp/Session/TCPSession.cpp:94-319 | End to end: the receiving loop, run on whatever reached the socket, delivers a prefix of the accepted frames, exactly once and in order, at least every frame whose write completed, and never finds a reason to shut down |
| `SessionGuarantees.SendAcceptsIff` | backend/Adapters/Inbound/Tcp/Session/TCPSession.cpp:98-143 | An open session accepts a frame if and only if its body is admissible and what would then wait to be written is within HardCap, and the turn leaves it closed if and only if the frame does not fit or another thread closed it; a closed session ignores the frame |
| `SessionGuarantees.StaysOpenIff` | backend/Adapters/Inbound/Tcp/Session/TCPSession.cpp:94-215 | A session is open after a run if and only if the run has no close, no write error and no frame that does not fit; and then every frame sent was accepted |
| `SessionGuarantees.IdleSessionDeliveredAll` | backend/Adapters/Inbound/Tcp/Session/TCPSession.cpp:158-215 | An open session in which no write can advance has every frame sent on the wire, completed |
| `SessionGuarantees.BackpressureIsHysteresis` | backend/Adapters/Inbound/Tcp/Session/TCPSession.cpp:134-135 | After every turn backpressure is the hysteresis of the pending bytes: on above the high-water mark, off at or below the low one, and otherwise as before |
| `SessionGuarantees.ReaderParksAndWakes` | backend/Adapters/Inbound/Tcp/Session/TCPSession.cpp:224-229 | The reader parks exactly when it finds backpressure at its check, and wakes exactly when backpressure goes off or the task of Shutdown runs |
| `SessionGuarantees.Accounting` | backend/Adapters/Inbound/Tcp/Session/TCPSession.cpp:118-135 | In every reachable state pending is the queued bytes while open and exceeds them by at most one rejected frame after a close, stays within HardCap while open and HardCap plus one frame ever, never underflows at a completion, never lets the `size_t` overflow test fire, and obeys both water marks |
| `SessionGuarantees.OneLongestWrite` | backend/Adapters/Inbound/Tcp/Session/TCPSession.cpp:158-215 | In every run and for every next turn: no turn but the two that end a write replaces an outstanding one, so at most one is outstanding; an open session has one exactly when the queue is not empty; whenever a turn starts one it is the longest batch, within 32 buffers and 256 KiB or a single frame, of the whole queue at that moment |
| `SessionGuarantees.ParkedReaderHasWrite` | backend/Adapters/Inbound/Tcp/Session/TCPSession.cpp:224-229 | While the session is open, a reader parked on backpressure has a write outstanding |
| `SessionGuarantees.CompletionsShrinkQueue` | backend/Adapters/Inbound/Tcp/Session/TCPSession.cpp:202-213 | When only writes happen, every completion takes at least one frame off the queue |
| `SessionGuarantees.ParkedReaderIsReleased` | backend/Adapters/Inbound/Tcp/Session/TCPSession.cpp:205-213 | In an open session where only writes happen and succeed, however many frames one write takes: there are at most as many completions as frames queued, and while the reader is parked a write is outstanding and a completion still to come |
| `SessionGuarantees.WritesReleaseReader` | backend/Adapters/Inbound/Tcp/Session/TCPSession.cpp:192-213 | So the release comes: such turns are bounded by the frames and bytes queued, and as long as the reader is parked another one is possible |
| `SessionGuarantees.ReleasableIff` | backend/Adapters/Inbound/Tcp/Session/TCPSession.cpp:217-229 | A parked reader can still be released if and only if it is not stranded, that is, not (closed, task of Shutdown already run, and no outstanding write whose bytes had all left and whose completion brings pending to the low-water mark) |
| `SessionGuarantees.StrandedForever` | backend/Adapters/Inbound/Tcp/Session/TCPSession.cpp:224-229 | Once stranded, a reader stays so in every continuation |
| `SessionGuarantees.StrandedIsReachable` | backend/Adapters/Inbound/Tcp/Session/TCPSession.cpp:384-397 | A run of five events strands a reader: the loop does not test the closed flag before it waits, and the cancel and the closing of the socket happen once |
| `SessionProtocol.SendKeepsInv` | backend/Adapters/Inbound/Tcp/Session/TCPSession.cpp:98-143 | One turn of a send keeps the whole invariant (order, one longest write, wire, account), also when another thread closes during it; it leaves an outstanding write alone and starts one only on the longest batch; and the `size_t` overflow test cannot fire for an admissible body |
| `SessionProtocol.CompletedKeepsInv` | backend/Adapters/Inbound/Tcp/Session/TCPSession.cpp:202-211 | A successful completion pops the items of its batch, never underflows pending, and leaves order, wire and account intact |
| `SessionProtocol.DrainKeepsInv` | backend/Adapters/Inbound/Tcp/Session/TCPSession.cpp:158-190 | Drain starts the longest batch of the whole queue, from its first byte, unless the session is closed or has nothing to send; and restores the invariant |
| `SessionProtocol.FailKeepsInv` | backend/Adapters/Inbound/Tcp/Session/TCPSession.cpp:195-200 | A failed write leaves a prefix of its batch on the wire and its items queued, and closes the session |
| `SessionProtocol.StepKeepsInv` | backend/Adapters/Inbound/Tcp/Session/TCPSession.cpp:94-229 | Every strand turn and every outside close keeps the invariant |
| `SessionProtocol.RunKeepsInv` | backend/Adapters/Inbound/Tcp/Session/TCPSession.cpp:94-229 | So does every run |
| `WriteQueue.LongestIsUnique` | backend/Adapters/Inbound/Tcp/Session/TCPSession.cpp:172-190 | The longest batch is unique, so being it fixes how many items one gathered write takes |
| `WriteQueue.NoLongerBatch` | backend/Adapters/Inbound/Tcp/Session/TCPSession.cpp:178-182 | Once an item exceeds a limit no longer batch fits, so stopping at the first one is greedy and optimal |
| `WriteQueue.ItemsAreFrames` | backend/Adapters/Inbound/Tcp/Session/TCPSession.cpp:102-116 | The flattened queue of frames is their serialisation, and the counted bytes are its length |
| `TcpSession.TcpSession.constructor` | backend/Adapters/Inbound/Tcp/Session/TCPSession.cpp:27-40 | A new session is the initial state |
| `TcpSession.TcpSession.SendFrame` | backend/Adapters/Inbound/Tcp/Session/TCPSession.cpp:98-143 | The turn on the fields, with the source's branches in order, is the protocol's send turn and keeps its invariant |
| `TcpSession.TcpSession.Drain` | backend/Adapters/Inbound/Tcp/Session/TCPSession.cpp:158-215 | Drain on the fields is the protocol's drain |
| `TcpSession.TcpSession.GatherBatch` | backend/Adapters/Inbound/Tcp/Session/TCPSession.cpp:166-190 | The loop filling the array of 32 buffers stays in bounds and gathers exactly the bytes and the items of the longest batch |
| `TcpSession.TcpSession.OnWriteDone` | backend/Adapters/Inbound/Tcp/Session/TCPSession.cpp:202-213 | The completion handler after success is the protocol's completion, and keeps the invariant |
| `TcpSession.TcpSession.TakeCompleted` | backend/Adapters/Inbound/Tcp/Session/TCPSession.cpp:202-211 | Popping the items one by one, the subtraction without underflow, and the low-water release are the protocol's completion |
| `TcpSession.TcpSession.OnWriteFailed` | backend/Adapters/Inbound/Tcp/Session/TCPSession.cpp:195-200 | The completion handler after an error is the protocol's failure |
| `Framing.RoundTrip` | backend/Adapters/Inbound/Tcp/Session/TCPSession.cpp:217-316 | For every list of well-formed frames, parsing their serialisation gives back exactly those frames, consumes all bytes, and waits for the next header |
| `Framing.StepIsExact` | backend/Adapters/Inbound/Tcp/Session/TCPSession.cpp:231-301 | One step of the loop, judged by the frames alone: it accepts exactly when a well-formed frame is there in full, waits exactly when the header is incomplete or a well-formed frame could still become complete, and so shuts down on everything else |
| `Framing.LoopEndsExactly` | backend/Adapters/Inbound/Tcp/Session/TCPSession.cpp:222-316 | The loop runs until a step stops it or a handler fails: no earlier call failed, a failure is reported exactly if the last one did, and otherwise the next step is the one that stopped it |
| `Wire.HeaderLayout` | backend/Adapters/Inbound/Tcp/Protocol/Service/Protocol.hpp:17-22 | A serialised frame is big-endian service, body size and version in 4, 4 and 2 bytes, then the body |
| `Wire.SupportedIff` | backend/Adapters/Inbound/Tcp/Protocol/Common/ApiVersion.hpp:16-36 | The two overloads together leave version 1 of the four service codes |
| `Framing.ParseSerialized` | backend/Adapters/Inbound/Tcp/Session/TCPSession.cpp:222-316 | The same in front of any further bytes, with which parsing goes on |
| `Framing.ParsedIsSerialized` | backend/Adapters/Inbound/Tcp/Session/TCPSession.cpp:253-289 | On arbitrary bytes and with failing handlers: every delivered frame has a known service, a supported version and a body of 1 to MaxBodySize (none for a ping), and the consumed bytes are exactly their serialisation |
| `Framing.PrefixEvents` | backend/Adapters/Inbound/Tcp/Session/TCPSession.cpp:222-316 | The events on a prefix of the stream are a prefix of the events on the stream, and a shutdown on a prefix is final |
| `Framing.NextOfSerialized` | backend/Adapters/Inbound/Tcp/Session/TCPSession.cpp:102-116 | One step on a serialised frame followed by anything yields that frame and its size |
| `Framing.AcceptedIsSerialized` | backend/Adapters/Inbound/Tcp/Protocol/Service/Protocol.hpp:17-22 | Whatever one step accepts is the serialisation of a well-formed frame |
| `Framing.NextIsStable` | backend/Adapters/Inbound/Tcp/Session/TCPSession.cpp:231-301 | More bytes do not change a step already decided |
| `Framing.SerializationIsInjective` | backend/Adapters/Inbound/Tcp/Session/TCPSession.cpp:102-116 | Two lists of well-formed frames with the same bytes are equal |
| `Framing.ReadFrame` | backend/Adapters/Inbound/Tcp/Session/TCPSession.cpp:231-301 | Reading header and body at a position of the stream, check by check, is one step of the parser |
| `Framing.ReadLoop` | backend/Adapters/Inbound/Tcp/Session/TCPSession.cpp:217-319 | The loop over everything received is the parser |
| `Heartbeat.IdleIsBounded` | backend/Adapters/Inbound/Tcp/Session/TCPSession.cpp:321-368 | In every timed run, with any receive times, jitter and outside closes, an open session has been idle for less than 105.5 s plus the lateness of one timer |
| `Heartbeat.IdleSessionIsPinged` | backend/Adapters/Inbound/Tcp/Session/TCPSession.cpp:345-350 | In every timed run an open session idle for more than 75.5 s (more, if timers are over 35 s late) plus one lateness was pinged since the last receive, and a pinged one has been idle for at least 45 s |
| `Heartbeat.TimerOutcome` | backend/Adapters/Inbound/Tcp/Session/TCPSession.cpp:337-364 | The end of a wait, by the idle time: from 75 s it closes; at the end of an interval it pings from 45 s on and waits 10 s, and does not ping below; otherwise the next interval begins, unless the session is closed |
| `Heartbeat.BoundIsTight` | backend/Adapters/Inbound/Tcp/Session/TCPSession.cpp:331-363 | For every lateness some run comes within a nanosecond of that bound with the session open |
| `Heartbeat.IdleClose` | backend/Adapters/Inbound/Tcp/Session/TCPSession.cpp:337-363 | The heartbeat closes only at an idle time of at least 75 s, and a ping was sent since the last receive if and only if the idle time had reached 45 s at the check before |
| `Heartbeat.CloseWithoutPing` | backend/Adapters/Inbound/Tcp/Session/TCPSession.cpp:337-363 | A run in which the idle close is not preceded by a ping |
| `Heartbeat.StepKeepsInv` | backend/Adapters/Inbound/Tcp/Session/TCPSession.cpp:321-368 | The phase-indexed bound on the next deadline is kept by every event |
| `ByteCodec.MessageRoundTrip` | backend/Adapters/Inbound/Tcp/Protocol/Common/ByteCodec.hpp:130-151 | For any list of integer and length-prefixed fields, reading what was written gives the values back and consumes exactly those bytes, whatever stands before and after |
| `ByteCodec.MessageRewrites` | backend/Adapters/Inbound/Tcp/Protocol/Common/ByteCodec.hpp:130-151 | Any successful read re-writes to exactly the bytes it consumed |
| `ByteCodec.FieldRoundTrip` | backend/Adapters/Inbound/Tcp/Protocol/Common/ByteCodec.hpp:78-99 | The same for one field: unsigned, signed by bit cast, or length-prefixed |
| `ByteCodec.ReadRewrites` | backend/Adapters/Inbound/Tcp/Protocol/Common/ByteCodec.hpp:235-246 | A value read from one field has the field's type and encodes to the consumed bytes |
| `ByteCodec.BitsAreTwosComplement` | backend/Adapters/Inbound/Tcp/Protocol/Common/ByteCodec.hpp:78-99 | A value is sent as itself, or as its two's complement if negative |
| `ByteCodec.Reader.ReadUnsigned` | backend/Adapters/Inbound/Tcp/Protocol/Common/ByteCodec.hpp:170-186 | The shift-and-insert loop with truncation reads the big-endian value; a failed read moves nothing |
| `ByteCodec.Reader.ReadField` | backend/Adapters/Inbound/Tcp/Protocol/Common/ByteCodec.hpp:130-151 | Reading a field is its decoding; the offset stays within the payload, and moves on failure exactly when a length was read and its bytes are missing |
| `ByteCodec.Writer.WriteUnsigned` | backend/Adapters/Inbound/Tcp/Protocol/Common/ByteCodec.hpp:309-318 | The shift-and-mask loop appends the big-endian encoding |
| `ByteCodec.Writer.WriteField` | backend/Adapters/Inbound/Tcp/Protocol/Common/ByteCodec.hpp:320-357 | Writing a field appends its encoding; a byte string too long for its length is rejected and leaves the payload unchanged |
| `BigEndian.DecodeEncode` | backend/Adapters/Inbound/Tcp/Protocol/Common/ByteCodec.hpp:176-180 | Decoding an encoding gives the number back |
| `BigEndian.EncodeDecode` | backend/Adapters/Inbound/Tcp/Protocol/Common/ByteCodec.hpp:312-317 | Encoding a decoded word gives its bytes back |
| `AcceptProtocol.StopLeavesNothingRunning` | backend/Adapters/Inbound/Tcp/Base/Server.hpp:157-179 | Once Stop's task has run, in every continuation no session starts, the set stays empty, and every session ever started has been shut down or was already released |
| `AcceptProtocol.AcceptHandler` | backend/Adapters/Inbound/Tcp/Base/Server.hpp:50-97 | A successful accept adds exactly one session, new, lockable and not shut down, and listens again; a failed one adds none and waits for the retry timer |
| `AcceptProtocol.StartedAreCounted` | backend/Adapters/Inbound/Tcp/Base/Server.hpp:59-81 | In every run the sessions started are as many as the accepts that reached StartHandling, each with an id of its own |
| `AcceptProtocol.NoneStartsAfterStopBegins` | backend/Adapters/Inbound/Tcp/Base/Server.hpp:50-57 | From the moment Stop's task begins, even if it throws, no session starts |
| `AcceptProtocol.IterationSeesFixedSet` | backend/Adapters/Inbound/Tcp/Base/Server.hpp:65-75 | Deleters only post, so from its beginning, in every continuation, Stop's loop walks over the set it began on, and once it has ended normally every session of that set has been shut down or was released |
| `AcceptProtocol.ThrowingStopHandlesIff` | backend/Adapters/Inbound/Tcp/Base/Server.hpp:163-177 | When Stop's task throws, its loop never runs again and shuts nothing more down; in any continuation every session is handled if and only if those the loop had not visited were all released by others |
| `AcceptProtocol.FreedAtMostOnce` | backend/Adapters/Inbound/Tcp/Base/Server.hpp:65-75 | In every run a session is freed at most once, and has been freed exactly when it is released and its posted erasure has run; the set never refers to a freed one while the server lives |
| `AcceptProtocol.AcceptingContinuesIff` | backend/Adapters/Inbound/Tcp/Base/Server.hpp:59-97 | Until stop is requested the server keeps accepting if and only if no accept handler ended by an exception |
| `AcceptProtocol.StoppedServerGoesQuiet` | backend/Adapters/Inbound/Tcp/Base/Server.hpp:30-57 | Once the flag is set, in every continuation at most one more accept turn begins and at most three accept events happen in all; the server is disarmed exactly when none is left, and until then a live server outside Stop's loop can take one |
| `AcceptProtocol.StepKeepsInv` | backend/Adapters/Inbound/Tcp/Base/Server.hpp:30-97 | Every step, interleaved with the flag and with releases by any thread, keeps ownership, turn and coverage invariants |
| `TcpServer.Server.OnAccept` | backend/Adapters/Inbound/Tcp/Base/Server.hpp:50-97 | The handler, with its exceptions and with a Stop that races it, is the listed sequence of protocol steps |
| `TcpServer.Server.StopSessions` | backend/Adapters/Inbound/Tcp/Base/Server.hpp:162-178 | The task shuts down exactly the sessions of the set that can still be locked, clears the set, and is a run of the protocol |
| `QueueProtocol.NoLostWakeup` | backend/Library/spdlog/spdlog/details/mpmc_blocking_q.h:31-90 | For any number of producers and consumers and any interleaving with late notifications, spurious wakeups and timeouts: at quiescence a sleeping consumer means an empty queue, a sleeping producer a full one, and with a capacity never both |
| `QueueProtocol.RunKeepsWakeup` | backend/Library/spdlog/spdlog/details/mpmc_blocking_q.h:31-90 | In every run, while a consumer sleeps the items are at most the pending notifications plus the woken consumers, and while a producer sleeps the free slots likewise |
| `QueueProtocol.StepKeepsWakeup` | backend/Library/spdlog/spdlog/details/mpmc_blocking_q.h:31-90 | Every step of every thread keeps that |
| `QueueProtocol.ReachesQuiescence` | backend/Library/spdlog/spdlog/details/mpmc_blocking_q.h:31-90 | Left alone, the threads under way take at most a bounded number of steps |
| `QueueProtocol.ProgressUntilQuiescent` | backend/Library/spdlog/spdlog/details/mpmc_blocking_q.h:31-90 | and as long as one of them is between two steps, one can move |
| `QueueProtocol.Conservation` | backend/Library/spdlog/spdlog/details/mpmc_blocking_q.h:31-64 | In every run, under any mix of the overflow policies: the push log is what left, in order, followed by what is held; pushed = popped + overrun + held and attempted = pushed + waiting + discarded, as multisets |
| `QueueProtocol.RunIsExact` | backend/Library/spdlog/spdlog/details/mpmc_blocking_q.h:31-90 | Over every run precisely the items the overflow policies let in are pushed, in that order, precisely those that dequeues find and overruns push out leave, and only a full queue refuses one |
| `QueueProtocol.BlockingLosesNothing` | backend/Library/spdlog/spdlog/details/mpmc_blocking_q.h:31-38 | A run that only blocks loses nothing |
| `BlockingQueue.MpmcBlockingQueue.EnqueuePass` | backend/Library/spdlog/spdlog/details/mpmc_blocking_q.h:31-38 | One pass of `enqueue` on the ring is the protocol's step; it pushes exactly when there is room |
| `BlockingQueue.MpmcBlockingQueue.EnqueueNowait` | backend/Library/spdlog/spdlog/details/mpmc_blocking_q.h:41-47 | `enqueue_nowait` is the protocol's step |
| `BlockingQueue.MpmcBlockingQueue.EnqueueIfHaveRoom` | backend/Library/spdlog/spdlog/details/mpmc_blocking_q.h:49-60 | `enqueue_if_have_room` pushes exactly when there is room, and is the protocol's step |
| `BlockingQueue.MpmcBlockingQueue.DequeuePass` | backend/Library/spdlog/spdlog/details/mpmc_blocking_q.h:68-90 | One pass of `dequeue` or `dequeue_for` pops the oldest item if there is one, and is the protocol's step |
| `CircularQueue.CircularQ.PushBack` | backend/Library/spdlog/spdlog/details/circular_q.h:46-57 | The ring refines a bounded sequence: a push on a full one drops its oldest element and counts it; a disabled ring ignores it |
| `CircularQueue.CircularQ.PopFront` | backend/Library/spdlog/spdlog/details/circular_q.h:83 | Removes the first element of the sequence |
| `CircularQueue.CircularQ.Front` | backend/Library/spdlog/spdlog/details/circular_q.h:61-63 | The first element |
| `CircularQueue.CircularQ.Size` | backend/Library/spdlog/spdlog/details/circular_q.h:66-72 | The length of the sequence |
| `CircularQueue.CircularQ.At` | backend/Library/spdlog/spdlog/details/circular_q.h:76-79 | The element at an index of the sequence |
| `CircularQueue.CircularQ.Empty` | backend/Library/spdlog/spdlog/details/circular_q.h:85 | True exactly for the empty sequence |
| `CircularQueue.CircularQ.Full` | backend/Library/spdlog/spdlog/details/circular_q.h:87-93 | True exactly when the sequence has reached the capacity, never for a disabled ring |
| `CircularQueue.RingOverrun` | backend/Library/spdlog/spdlog/details/circular_q.h:48-55 | Why an overrun loses precisely the oldest element |
| `PoolShutdown.FinishedPool` | backend/Library/spdlog/spdlog/details/thread_pool-inl.h:44-123 | After the destructor has joined: the queue is empty, no worker holds a message, each worker ended on one terminate message, and every other message ever pushed was handled exactly once, except those dropped by the overrun policy |
| `PoolShutdown.OneWorkerKeepsOrder` | backend/Library/spdlog/spdlog/details/thread_pool-inl.h:91-123 | With one worker, which is what the application uses: in every run what was handled is, in order, what the queue gave out, up to one message in hand; after the destructor it is the part of the push log that was not overrun, in push order, ending in the terminate message |
| `PoolShutdown.DestructionTerminates` | backend/Library/spdlog/spdlog/details/thread_pool-inl.h:44-55 | Once destruction has begun, every run is finite up to spurious wakeups: a measure decreases |
| `PoolShutdown.DestructionProgresses` | backend/Library/spdlog/spdlog/details/thread_pool-inl.h:44-55 | and until the destructor has finished some thread can step |
| `PoolShutdown.StuckMeansFinished` | backend/Library/spdlog/spdlog/details/thread_pool-inl.h:44-55 | so a run that can only go on by a spurious wakeup has finished |
| `PoolShutdown.BlockedDestructorHasWorker` | backend/Library/spdlog/spdlog/details/thread_pool-inl.h:46-48 | The destructor is never blocked on a full queue with no live worker |
| `PoolShutdown.FinishingNeedsRoom` | backend/Library/spdlog/spdlog/details/thread_pool-inl.h:16-20 | The constructor accepts a queue of capacity 0, but its pool is never destroyed: a destructor finishes only if the capacity is at least 1 |
| `PoolShutdown.RunKeepsHandled` | backend/Library/spdlog/spdlog/details/thread_pool-inl.h:91-123 | In every run each message that left the queue by a pop is with exactly one worker, handled, or ended one |
| `ThreadPool.StepKeepsInv` | backend/Library/spdlog/spdlog/details/thread_pool-inl.h:44-123 | Every step keeps: each worker is somewhere, each posted terminate message is queued, held or has ended its worker, and nothing is queued behind one |
| `ThreadPool.CreateInv` | backend/Library/spdlog/spdlog/details/thread_pool-inl.h:16-33 | The constructor accepts exactly 1 to 1000 threads, with a queue of the given capacity, and the invariant holds at the start if and only if that is at least 1 |
| `LogHistory.HistoryIsConserved` | backend/Library/spdlog/spdlog/sinks/rotating_file_sink-inl.h:107-166 | Over every run in which no call throws: the initial files followed by every message written are what rotations deleted, oldest first, followed by what the files hold from the highest index down to 0 |
| `LogHistory.FilesHoldSuffix` | backend/Library/spdlog/spdlog/sinks/rotating_file_sink-inl.h:107-166 | so the files hold a suffix of history, which after a message ends in that message |
| `LogHistory.SizesAreBounded` | backend/Library/spdlog/spdlog/sinks/rotating_file_sink-inl.h:73-125 | Over every run with any outcomes of renames, removals and openings, `rotate_now` included: the size the sink counts is never below the real one, and every file is within max_size or is exactly one message |
| `LogHistory.RotatesByRealSize` | backend/Library/spdlog/spdlog/sinks/rotating_file_sink-inl.h:107-125 | Over every run of messages without exception the sink rotates exactly when the log is not empty and its real size plus the message exceeds max_size, and its count stays right |
| `LogHistory.MessageOutcome` | backend/Library/spdlog/spdlog/sinks/rotating_file_sink-inl.h:107-125 | One such message is appended, touching nothing else, or starts a new log when the log is full, which becomes file 1 |
| `LogHistory.CallDrift` | backend/Library/spdlog/spdlog/sinks/rotating_file_sink-inl.h:73-125 | What the count exceeds the real size by, after any call: rotations by a message and failed ones reset it, `rotate_now` leaves it at the count before, and nothing else changes it |
| `LogHistory.CallKeepsHistory` | backend/Library/spdlog/spdlog/sinks/rotating_file_sink-inl.h:107-125 | One call that succeeds appends its text and deletes at most the oldest file |
| `LogHistory.AllSucceedIffUnhindered` | backend/Library/spdlog/spdlog/sinks/rotating_file_sink-inl.h:107-166 | No call of a run throws if and only if, in every rotation of it, each file that has to be moved is renamed at the first or second try and the log is opened again |
| `LogHistory.SucceedsIffUnhindered` | backend/Library/spdlog/spdlog/sinks/rotating_file_sink-inl.h:107-166 | The same for one call |
| `LogHistory.CallKeepsSizes` | backend/Library/spdlog/spdlog/sinks/rotating_file_sink-inl.h:107-166 | One call keeps the size bound whatever its file operations do |
| `LogHistory.FailedRotateLosesNewest` | backend/Library/spdlog/spdlog/sinks/rotating_file_sink-inl.h:150-163 | Success is needed: when a rotation gives up at any index the log is emptied, and what the files below that index have lost is exactly the newest log |
| `LogHistory.ClosedSinkDropsMessages` | backend/Library/spdlog/spdlog/details/file_helper-inl.h:100-108 | A sink whose log could not be reopened drops every later message without touching a file, and no call throws exactly as long as all the dropped bytes fit the limit |
| `LogHistory.ConstructedSinkIsReady` | backend/Library/spdlog/spdlog/sinks/rotating_file_sink-inl.h:26-49 | The constructor throws if and only if an argument is bad, the open fails, or a rotation on opening cannot be done; otherwise the sink starts open, within the size bound, counting the real size, and holds what was found, up to the file that a rotation on opening deletes |
| `RotatingSink.RotateSucceedsIff` | backend/Library/spdlog/spdlog/sinks/rotating_file_sink-inl.h:138-166 | A rotation succeeds if and only if every file it has to move is renamed at the first or second try and the log is opened again |
| `RotatingSink.RotateIsExact` | backend/Library/spdlog/spdlog/sinks/rotating_file_sink-inl.h:138-166 | A successful rotation empties the log and gives file j the contents of file j - 1, keeping the last one when nothing takes its place |
| `RotatingSink.FailedRotateIsExact` | backend/Library/spdlog/spdlog/sinks/rotating_file_sink-inl.h:150-163 | A rotation that gives up at index k, for every outcome of the operations: files above k are moved up, files below stay, file k is gone or, if it is the last, may remain, and the log is emptied |
| `RotatingSink.ShiftIsExact` | backend/Library/spdlog/spdlog/sinks/rotating_file_sink-inl.h:143-164 | The loop for every outcome: it gives up at the highest index whose file cannot be moved, and otherwise moves every file up by one |
| `RotatingSink.ShiftLeaves` | backend/Library/spdlog/spdlog/sinks/rotating_file_sink-inl.h:143-164 | Whatever the outcomes, no other file of the directory is touched |
| `RotatingSink.RotationLosesOldest` | backend/Library/spdlog/spdlog/sinks/rotating_file_sink-inl.h:132-166 | A successful rotation loses precisely the dropped file from the oldest end of history |
| `RotatingSink.MoveSucceeds` | backend/Library/spdlog/spdlog/sinks/rotating_file_sink-inl.h:150-176 | Removal, rename and the retry move the file whenever one of the two renames succeeds |
| `RotatingSink.MoveFails` | backend/Library/spdlog/spdlog/sinks/rotating_file_sink-inl.h:150-176 | and otherwise leave everything as it was, except that the target may be gone |
| `FileNames.NamesAreDistinct` | backend/Library/spdlog/spdlog/sinks/rotating_file_sink-inl.h:54-64 | Generated names of distinct indices are distinct |
| `FileNames.RotatedKeepsExtension` | backend/Library/spdlog/spdlog/sinks/rotating_file_sink-inl.h:51-64 | The index goes between stem and extension, which stays the extension of the new name; a name without one gets it at its end |
| `FileNames.SplitIsExact` | backend/Library/spdlog/spdlog/details/file_helper-inl.h:132-150 | The split rejoins to the name, and finds the extension exactly when there is one: after the last dot, not empty, in the last path component, and not a hidden file's dot |
| `FileNames.DecimalRoundTrip` | backend/Library/spdlog/spdlog/sinks/rotating_file_sink-inl.h:63 | The decimal index in a name determines the index |
| `RotatingFileSink.FileSink.Rotate` | backend/Library/spdlog/spdlog/sinks/rotating_file_sink-inl.h:138-166 | The loop on the directory, with retries, truncation on failure and the exception, is the specified rotation |
| `RotatingFileSink.FileSink.LogMessage` | backend/Library/spdlog/spdlog/sinks/rotating_file_sink-inl.h:107-125 | `sink_it_` on the fields is the specified call |
| `RotatingFileSink.FileSink.Initialize` | backend/Library/spdlog/spdlog/sinks/rotating_file_sink-inl.h:36-48 | The throwing part of the constructor is the specified one, also in what it leaves on disk |
| `TrailingZeros.StripZeros` | backend/Library/spdlog/spdlog/fmt/bundled/format-inl.h:1153-1173 | For every nonzero word the loops terminate and the significand is exact: n_in without its trailing zeros; the exponent is exact if and only if it starts even or the number of zeros is even |
| `TrailingZeros.RemoveTrailingZeros64` | backend/Library/spdlog/spdlog/fmt/bundled/format-inl.h:1176-1209 | The 64-bit version is exact if and only if n is not a multiple of 10^8 with a quotient beyond 32 bits; the inner assertion fails exactly when the truncated quotient is 0 |
| `TrailingZeros.EightZerosTest` | backend/Library/spdlog/spdlog/fmt/bundled/format-inl.h:1180-1186 | For every 64-bit n the magic multiplication decides divisibility by 10^8, and its upper bits are the quotient |
| `TrailingZeros.HundredTest` | backend/Library/spdlog/spdlog/fmt/bundled/format-inl.h:1159-1164 | Inverse and rotation decide divisibility by 100 in both widths, and yield the quotient |
| `TrailingZeros.TenTest` | backend/Library/spdlog/spdlog/fmt/bundled/format-inl.h:1167-1171 | The same for 10 |
| `TrailingZeros.StrippedIsUnique` | backend/Library/spdlog/spdlog/fmt/bundled/format-inl.h:1153-1173 | Only one pair of significand and exponent is stripped |
| `TrailingZeros.DivideBy100IsExact` | backend/Library/spdlog/spdlog/fmt/bundled/format-inl.h:258-261 | Exact for all 32-bit n |
| `TrailingZeros.DivideBy1000IsExactIff` | backend/Library/spdlog/spdlog/fmt/bundled/format-inl.h:263-266 | For 64-bit n, exact if and only if n does not end in 999 or is at most 15534100272597517998 |
| `FixedBuffer.FormatToIterator` | backend/Library/spdlog/spdlog/fmt/bundled/base.h:1875-1911 | For any sequence of writes and any limit, the iterator receives exactly the first n units in order, and the count is the whole length |
| `FixedBuffer.FormatToMemory` | backend/Library/spdlog/spdlog/fmt/bundled/base.h:1914-1956 | The same for the caller's memory, which is unchanged behind what was written |
| `FixedBuffer.IteratorBuffer.Append` | backend/Library/spdlog/spdlog/fmt/bundled/base.h:1829-1841 | Append delivers its text whatever the fill level, and its loop makes progress |
| `FixedBuffer.IteratorBuffer.Flush` | backend/Library/spdlog/spdlog/fmt/bundled/base.h:1885-1891 | Flushing delivers what the limit still allows |
| `FixedBuffer.IteratorBuffer.PushBack` | backend/Library/spdlog/spdlog/fmt/bundled/base.h:1816-1819 | One unit |
| `FixedBuffer.PointerBuffer.Append` | backend/Library/spdlog/spdlog/fmt/bundled/base.h:1829-1841 | The same on the caller's memory and then on scratch space |
| `FixedBuffer.PointerBuffer.PushBack` | backend/Library/spdlog/spdlog/fmt/bundled/base.h:1816-1819 | One unit |
| `FixedBuffer.PointerBuffer.Flush` | backend/Library/spdlog/spdlog/fmt/bundled/base.h:1926-1933 | Only the first flush advances the output pointer |
| `FixedBuffer.PointerBuffer.Finish` | backend/Library/spdlog/spdlog/fmt/bundled/base.h:1949-1955 | The pointer stands behind what was written and the count is the whole length |
| `IsoWeek.WeekDateIsIso` | backend/Library/spdlog/spdlog/fmt/bundled/chrono.h:1193-1220 | For every date of every year from 1 on, the computed year and week are those of the Thursday of its Monday-to-Sunday week |
| `IsoWeek.IsoWeekDateIsUnique` | backend/Library/spdlog/spdlog/fmt/bundled/chrono.h:1207-1220 | The definition gives every day one year and week |
| `IsoWeek.IsoWeekDateDeterminesDay` | backend/Library/spdlog/spdlog/fmt/bundled/chrono.h:1207-1220 | Year, week and weekday give the day back |
| `IsoWeek.WeeksOfYear` | backend/Library/spdlog/spdlog/fmt/bundled/chrono.h:1193-1202 | A year has 53 weeks exactly when its 1 January is a Thursday or its 31 December is |
| `IsoWeek.LeapDays` | backend/Library/spdlog/spdlog/fmt/bundled/chrono.h:1195-1200 | The closed form counts the days of all years before |
| `TextStyle.ErrorIffIncompatible` | backend/Library/spdlog/spdlog/fmt/bundled/color.h:264-290 | A style built from fg, bg, emphasis and OR reports an error if and only if in some OR, in the same channel, one side contains a terminal colour and the other any colour |
| `TextStyle.PackedStyleIsExact` | backend/Library/spdlog/spdlog/fmt/bundled/color.h:285-296 | Otherwise its word packs both colours and the emphases of the channel-wise reference |
| `TextStyle.OverflowIffClash` | backend/Library/spdlog/spdlog/fmt/bundled/color.h:264-288 | One 64-bit addition signals exactly that clash, in both channels at once |
| `TextStyle.OrRefinesMerge` | backend/Library/spdlog/spdlog/fmt/bundled/color.h:285-290 | OR on words is the channel-wise combination of their meanings |
| `TextStyle.GettersReadBack` | backend/Library/spdlog/spdlog/fmt/bundled/color.h:313-333 | Overflow bits are zero, unset channels are zero, and the getters read back what was packed |
| `TextStyle.LeafReadsBack` | backend/Library/spdlog/spdlog/fmt/bundled/color.h:282-283 | The getters say of a style from one builder that only its own field is set, with what the builder was given |
| `TextStyle.CombinedReadsBack` | backend/Library/spdlog/spdlog/fmt/bundled/color.h:285-290 | and of an OR that is not rejected that every field has the bits of both sides |
| `TextStyle.PackIsValid` | backend/Library/spdlog/spdlog/fmt/bundled/color.h:210-227 | The discriminator tells RGB from terminal colours, and the value is kept |
| `TextStyle.StyleWord.OrAssign` | backend/Library/spdlog/spdlog/fmt/bundled/color.h:285-290 | `operator|=` on the object: an error leaves the word alone, otherwise it packs the combined meaning |

## Left out

- Asio itself, sockets, coroutines, timers and signals: only the step each one enables is modelled.
- `TCPSession` members other than the write path, the read loop, the heartbeat and the shutdown; the
  handlers, the login use case, PostgreSQL access and configuration.
- `Heartbeat`, `ThreadPool`, `QueueProtocol` and `AcceptProtocol` are state machines on values, because a
  method cannot be interrupted in the middle; the object forms (`TcpSession`, `TcpServer`,
  `BlockingQueue`) cover the regions that run without interruption. `Heartbeat` and `ThreadPool` have no
  object form, so update in place is not captured there; a turn of the heartbeat takes no time.
- The destructor's joins are one step, enabled when every worker has exited; exceptions of a logger's
  sinks are not modelled, since `backend_sink_it_` catches them.
- The MinGW variant of the queue, resets of its counters, and the move operations of the ring buffer.
- A server destroyed with handlers still pending: its destructor sets the flag, and the handlers never run
  in the model.
- `SIZE_MAX` wrap-around of the rotating sink's byte count, `set_max_size` and `set_max_files`, file
  event handlers, and changes of the directory by other processes.
- LogHistory.SizesAreBounded: does not cover a write that fails after part of its bytes, because the
  code then leaves the count as it was.
- IsoWeek.WeekDateIsIso: years before 1 are left out, where the truncating divisions of the code do not
  follow the calendar.
- Floating-point and enumeration fields of the byte codec, which are bit casts of the integer ones.
- The generic growing buffers of the formatter, moving a buffer, the rest of Dragonbox, other log sinks,
  pattern flags and terminal colour output.
