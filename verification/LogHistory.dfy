/** What any sequence of calls on the rotating sink keeps: with no file errors, a suffix of everything
    ever written; with any outcome of the file operations, the size bound of every file. */
module LogHistory {
  import opened FileNames
  import opened RotatingSink
  import opened Sequences

  datatype Call = Message(text: Bytes) | RotateNow

  datatype Event = Event(call: Call, faults: Faults)

  function Perform(s: Sink, e: Event): (Sink, bool) {
    match e.call
    case Message(text) => Log(s, text, e.faults)
    case RotateNow => Rotate(s, e.faults)
  }

  /** The sink after a sequence of calls; a call that throws leaves the sink usable. */
  function Run(s: Sink, es: seq<Event>): Sink
    decreases |es|
  {
    if es == [] then s else Run(Perform(s, es[0]).0, es[1..])
  }

  function Text(c: Call): Bytes {
    if c.Message? then c.text else []
  }

  /** Everything the calls wrote, in order. */
  function Written(es: seq<Event>): Bytes {
    if es == [] then [] else Text(es[0].call) + Written(es[1..])
  }

  predicate Rotates(s: Sink, c: Call) {
    c.Message? ==> s.currentSize + |c.text| > s.maxSize && Content(s.files, s.name) != []
  }

  /** The contents of the files that rotations deleted, oldest first. */
  function Deleted(s: Sink, es: seq<Event>): Bytes
    decreases |es|
  {
    if es == [] then []
    else (if Rotates(s, es[0].call) then Dropped(s) else []) + Deleted(Perform(s, es[0]).0, es[1..])
  }

  /** The call does not rotate, or every file operation its rotation needs succeeds. */
  ghost predicate Unhindered(s: Sink, e: Event) {
    Rotates(s, e.call) ==> CanRotate(s, e.faults)
  }

  ghost predicate AllUnhindered(s: Sink, es: seq<Event>)
    decreases |es|
  {
    es == [] || (Unhindered(s, es[0]) && AllUnhindered(Perform(s, es[0]).0, es[1..]))
  }

  /** No call of the run throws. */
  predicate AllSucceed(s: Sink, es: seq<Event>)
    decreases |es|
  {
    es == [] || (Perform(s, es[0]).1 && AllSucceed(Perform(s, es[0]).0, es[1..]))
  }

  function Kept(s: Sink): Bytes {
    History(s.files, s.name, s.maxFiles)
  }

  // ---------- History ----------

  lemma WriteContent(s: Sink, msg: Bytes, n: nat)
    requires s.isOpen
    ensures var kept := Content(s.files, Rotated(s.name, n));
            Content(Write(s, msg).files, Rotated(s.name, n)) == if n == 0 then kept + msg else kept
  {
    if n > 0 {
      NamesDiffer(s.name, 0, n);
      hide Rotated;
    }
  }

  lemma {:induction false} WriteAppends(s: Sink, msg: Bytes, n: nat)
    requires s.isOpen
    ensures History(Write(s, msg).files, s.name, n) == History(s.files, s.name, n) + msg
  {
    hide Rotated, Write, Content;
    WriteContent(s, msg, n);
    if n == 0 {
    } else {
      WriteAppends(s, msg, n - 1);
      Associative(Content(s.files, Rotated(s.name, n)), History(s.files, s.name, n - 1), msg);
    }
  }

  lemma RotateKeepsOpen(s: Sink, f: Faults)
    requires CanRotate(s, f)
    ensures Rotate(s, f).1
    ensures var r := Rotate(s, f).0; r.isOpen && r.name == s.name && r.maxFiles == s.maxFiles
  {
    RotateIsExact(s, f, 0);
  }

  /** An open sink's call succeeds if and only if no file operation it needs fails. */
  lemma SucceedsIffUnhindered(s: Sink, e: Event)
    requires s.isOpen
    ensures Perform(s, e).1 <==> Unhindered(s, e)
    ensures Perform(s, e).1 ==> Perform(s, e).0.isOpen
  {
    hide Rotate, CanRotate;
    RotateSucceedsIff(s, e.faults);
    if CanRotate(s, e.faults) {
      RotateKeepsOpen(s, e.faults);
    }
  }

  /** So a caller can tell: a run meets no file error that matters exactly when no call throws. */
  lemma {:induction false} AllSucceedIffUnhindered(s: Sink, es: seq<Event>)
    requires s.isOpen
    ensures AllSucceed(s, es) <==> AllUnhindered(s, es)
    decreases |es|
  {
    hide Perform, Unhindered;
    if es == [] {
    } else {
      SucceedsIffUnhindered(s, es[0]);
      if Perform(s, es[0]).1 {
        AllSucceedIffUnhindered(Perform(s, es[0]).0, es[1..]);
      }
    }
  }

  /** One call that succeeds appends its text and deletes at most the oldest file. */
  lemma CallKeepsHistory(s: Sink, e: Event)
    requires s.isOpen && Perform(s, e).1
    ensures var r := Perform(s, e).0; r.isOpen && r.name == s.name && r.maxFiles == s.maxFiles
    ensures Kept(s) + Text(e.call) == (if Rotates(s, e.call) then Dropped(s) else []) + Kept(Perform(s, e).0)
  {
    hide Rotate, History, Dropped, CanRotate;
    SucceedsIffUnhindered(s, e);
    if Rotates(s, e.call) {
      RotateKeepsOpen(s, e.faults);
      RotationLosesOldest(s, e.faults);
      var r := Rotate(s, e.faults).0;
      if e.call.Message? {
        WriteAppends(r, e.call.text, s.maxFiles);
        assert Kept(s) + e.call.text == Dropped(s) + (Kept(r) + e.call.text);
      }
    } else {
      WriteAppends(s, e.call.text, s.maxFiles);
    }
  }

  /** Conservation over every run: what was there and what was written is what rotations deleted from
      the oldest end, followed by what the files hold. */
  lemma {:induction false} HistoryIsConserved(s: Sink, es: seq<Event>)
    requires s.isOpen && AllSucceed(s, es)
    ensures Kept(s) + Written(es) == Deleted(s, es) + Kept(Run(s, es))
    decreases |es|
  {
    hide Perform, Kept, Dropped, Rotates, Text;
    if es == [] {
    } else {
      var e, rest := es[0], es[1..];
      var r := Perform(s, e).0;
      CallKeepsHistory(s, e);
      HistoryIsConserved(r, rest);
      var d := if Rotates(s, e.call) then Dropped(s) else [];
      Regroup(Kept(s), Text(e.call), Written(rest), d, Kept(r), Deleted(r, rest), Kept(Run(r, rest)));
    }
  }

  lemma Regroup(a: Bytes, b: Bytes, c: Bytes, d: Bytes, k: Bytes, m: Bytes, z: Bytes)
    requires a + b == d + k && k + c == m + z
    ensures a + (b + c) == (d + m) + z
  {
    Associative(a, b, c);
    Associative(d, k, c);
    Associative(d, m, z);
  }

  predicate IsSuffix(x: Bytes, y: Bytes) {
    |x| <= |y| && y[|y| - |x|..] == x
  }

  /** So the files hold a suffix of history, and after a message it ends in that message. */
  lemma FilesHoldSuffix(s: Sink, es: seq<Event>)
    requires s.isOpen && AllSucceed(s, es)
    ensures IsSuffix(Kept(Run(s, es)), Kept(s) + Written(es))
    ensures es != [] && es[|es| - 1].call.Message? ==> IsSuffix(es[|es| - 1].call.text, Kept(Run(s, es)))
  {
    HistoryIsConserved(s, es);
    if es != [] && es[|es| - 1].call.Message? {
      var before := es[..|es| - 1];
      RunOfLast(s, es);
      AllButLastSucceed(s, es);
      RunStaysOpen(s, before);
      LastMessageIsKept(Run(s, before), es[|es| - 1]);
    }
  }

  lemma {:induction false} RunOfLast(s: Sink, es: seq<Event>)
    requires es != []
    ensures Run(s, es) == Perform(Run(s, es[..|es| - 1]), es[|es| - 1]).0
    decreases |es|
  {
    hide Perform;
    var before := es[..|es| - 1];
    if before == [] {
      assert Run(Perform(s, es[0]).0, es[1..]) == Perform(s, es[0]).0;
    } else {
      RunOfLast(Perform(s, es[0]).0, es[1..]);
      assert es[1..][..|es| - 2] == before[1..];
    }
  }

  lemma {:induction false} AllButLastSucceed(s: Sink, es: seq<Event>)
    requires es != [] && AllSucceed(s, es)
    ensures AllSucceed(s, es[..|es| - 1]) && Perform(Run(s, es[..|es| - 1]), es[|es| - 1]).1
    decreases |es|
  {
    hide Perform;
    var before := es[..|es| - 1];
    if before == [] {
    } else {
      AllButLastSucceed(Perform(s, es[0]).0, es[1..]);
      assert es[1..][..|es| - 2] == before[1..];
    }
  }

  lemma {:induction false} RunStaysOpen(s: Sink, es: seq<Event>)
    requires s.isOpen && AllSucceed(s, es)
    ensures Run(s, es).isOpen
    decreases |es|
  {
    hide Perform;
    if es == [] {
    } else {
      SucceedsIffUnhindered(s, es[0]);
      RunStaysOpen(Perform(s, es[0]).0, es[1..]);
    }
  }

  lemma LastMessageIsKept(s: Sink, e: Event)
    requires s.isOpen && Perform(s, e).1 && e.call.Message?
    ensures IsSuffix(e.call.text, Kept(Perform(s, e).0))
  {
    hide Rotate, History, CanRotate;
    SucceedsIffUnhindered(s, e);
    if Rotates(s, e.call) {
      RotateKeepsOpen(s, e.faults);
      WriteAppends(Rotate(s, e.faults).0, e.call.text, s.maxFiles);
    } else {
      WriteAppends(s, e.call.text, s.maxFiles);
    }
  }

  // ---------- Sizes, with any outcome of the file operations ----------

  predicate Fits(content: Bytes, limit: nat, sent: set<Bytes>) {
    |content| <= limit || content in sent
  }

  predicate FilesFit(files: Files, name: string, n: nat, limit: nat, sent: set<Bytes>) {
    forall j: nat :: j <= n ==> Fits(Content(files, Rotated(name, j)), limit, sent)
  }

  /** The size the sink believes in is never too small, and every file is within the limit or is one
      message. */
  predicate SizesFit(s: Sink, sent: set<Bytes>) {
    |Content(s.files, s.name)| <= s.currentSize && FilesFit(s.files, s.name, s.maxFiles, s.maxSize, sent)
  }

  lemma RenameMovesContent(files: Files, src: string, target: string, a: Attempt, n: string)
    requires src in files && src != target
    ensures Content(RenameFile(files, src, target, a).0, n) in {[], Content(files, n), Content(files, src)}
    ensures n != target ==> Content(RenameFile(files, src, target, a).0, n) in {[], Content(files, n)}
    ensures var (once, ok) := RenameFile(files, src, target, a);
            !ok ==> Content(once, src) == Content(files, src)
  {
  }

  lemma MoveMovesContent(files: Files, src: string, target: string, a: Attempt, b: Attempt, n: string)
    requires src in files && src != target
    ensures Content(Move(files, src, target, a, b).0, n) in {[], Content(files, n), Content(files, src)}
    ensures n != target ==> Content(Move(files, src, target, a, b).0, n) in {[], Content(files, n)}
  {
    hide RenameFile, Content;
    RenameMovesContent(files, src, target, a, n);
    var (once, ok) := RenameFile(files, src, target, a);
    if !ok {
      SourceRemains(files, src, target, a);
      RenameMovesContent(files, src, target, a, src);
      RenameMovesContent(once, src, target, b, n);
    }
  }

  /** However the renames turn out, the loop only moves or deletes whole files, and never writes into
      the log itself. */
  lemma {:induction false} ShiftFits(files: Files, name: string, i: nat, f: Faults,
                                     n: nat, limit: nat, sent: set<Bytes>)
    requires i <= n && FilesFit(files, name, n, limit, sent)
    ensures FilesFit(Shift(files, name, i, f).0, name, n, limit, sent)
    ensures Content(Shift(files, name, i, f).0, name) in {[], Content(files, name)}
    decreases i
  {
    hide Move, Rotated, Content, Fits;
    if i == 0 {
    } else if Rotated(name, i - 1) in files {
      var src, target := Rotated(name, i - 1), Rotated(name, i);
      NamesDiffer(name, i - 1, i);
      var (moved, ok) := Move(files, src, target, f.first(i), f.second(i));
      MoveFits(files, name, i, f, n, limit, sent);
      if ok {
        ShiftFits(moved, name, i - 1, f, n, limit, sent);
      }
    } else {
      ShiftFits(files, name, i - 1, f, n, limit, sent);
    }
  }

  lemma MoveFits(files: Files, name: string, i: nat, f: Faults, n: nat, limit: nat, sent: set<Bytes>)
    requires 0 < i <= n && Rotated(name, i - 1) in files && FilesFit(files, name, n, limit, sent)
    requires Rotated(name, i - 1) != Rotated(name, i)
    ensures var moved := Move(files, Rotated(name, i - 1), Rotated(name, i), f.first(i), f.second(i)).0;
            FilesFit(moved, name, n, limit, sent) && Content(moved, name) in {[], Content(files, name)}
  {
    hide Move, Content, Rotated;
    var src, target := Rotated(name, i - 1), Rotated(name, i);
    var moved := Move(files, src, target, f.first(i), f.second(i)).0;
    forall j: nat | j <= n
      ensures Fits(Content(moved, Rotated(name, j)), limit, sent)
    {
      MoveMovesContent(files, src, target, f.first(i), f.second(i), Rotated(name, j));
    }
    LogIsIndexZero(name);
    NamesDiffer(name, 0, i);
    MoveMovesContent(files, src, target, f.first(i), f.second(i), name);
  }

  lemma LogIsIndexZero(name: string)
    ensures Rotated(name, 0) == name
  {
  }

  lemma FitsAfterUpdate(files: Files, name: string, n: nat, limit: nat, sent: set<Bytes>, content: Bytes)
    requires FilesFit(files, name, n, limit, sent) && Fits(content, limit, sent)
    ensures FilesFit(files[name := content], name, n, limit, sent)
  {
  }

  lemma RotateFits(s: Sink, f: Faults, sent: set<Bytes>)
    requires SizesFit(s, sent)
    ensures SizesFit(Rotate(s, f).0, sent)
    ensures Rotate(s, f).1 ==> Content(Rotate(s, f).0.files, s.name) == [] && Rotate(s, f).0.isOpen
    ensures var r := Rotate(s, f).0; r.maxSize == s.maxSize && r.name == s.name && r.maxFiles == s.maxFiles
  {
    hide Shift, FilesFit;
    ShiftFits(s.files, s.name, s.maxFiles, f, s.maxFiles, s.maxSize, sent);
    FitsAfterUpdate(Shift(s.files, s.name, s.maxFiles, f).0, s.name, s.maxFiles, s.maxSize, sent, []);
  }

  lemma WriteFits(s: Sink, msg: Bytes, size: nat, sent: set<Bytes>)
    requires SizesFit(s, sent) && msg in sent
    requires if Content(s.files, s.name) == [] then size >= |msg| else s.currentSize + |msg| == size <= s.maxSize
    ensures SizesFit(Write(s, msg).(currentSize := size), sent)
  {
    hide FilesFit;
    var content := Content(s.files, s.name) + msg;
    if Content(s.files, s.name) == [] {
      assert content == msg;
    }
    FitsAfterUpdate(s.files, s.name, s.maxFiles, s.maxSize, sent, content);
  }

  /** Every call keeps the size bound, whatever the outcomes of its file operations. */
  lemma CallKeepsSizes(s: Sink, e: Event, sent: set<Bytes>)
    requires SizesFit(s, sent) && (e.call.Message? ==> e.call.text in sent)
    ensures SizesFit(Perform(s, e).0, sent)
  {
    hide Rotate, Write, SizesFit;
    if e.call.RotateNow? {
      RotateFits(s, e.faults, sent);
    } else if s.currentSize + |e.call.text| > s.maxSize && Content(s.files, s.name) != [] {
      RotateFits(s, e.faults, sent);
      if Rotate(s, e.faults).1 {
        WriteFits(Rotate(s, e.faults).0, e.call.text, |e.call.text|, sent);
      }
    } else {
      WriteFits(s, e.call.text, s.currentSize + |e.call.text|, sent);
    }
  }

  function Messages(es: seq<Event>): set<Bytes> {
    if es == [] then {}
    else (if es[0].call.Message? then {es[0].call.text} else {}) + Messages(es[1..])
  }

  /** The size bound over every run, with any outcomes of renames, removals and openings. */
  lemma {:induction false} SizesAreBounded(s: Sink, es: seq<Event>, sent: set<Bytes>)
    requires SizesFit(s, sent) && Messages(es) <= sent
    ensures SizesFit(Run(s, es), sent)
    decreases |es|
  {
    hide SizesFit, Perform;
    if es == [] {
    } else {
      CallKeepsSizes(s, es[0], sent);
      SizesAreBounded(Perform(s, es[0]).0, es[1..], sent);
    }
  }

  // ---------- When the sink rotates ----------

  /** How much the size the sink counts exceeds the real one. */
  function Drift(s: Sink): int {
    s.currentSize - |Content(s.files, s.name)|
  }

  lemma RotatedLogIsEmpty(s: Sink, f: Faults)
    requires Rotate(s, f).0.isOpen
    ensures var r := Rotate(s, f).0;
      && r.name == s.name && Content(r.files, s.name) == []
      && r.currentSize == if Rotate(s, f).1 then s.currentSize else 0
  {
    hide Shift;
  }

  /** Every rotation by a message resets the count, and so does one that fails; only `rotate_now` leaves
      it as it was, by exactly the count before; and nothing else changes the difference. */
  lemma CallDrift(s: Sink, e: Event)
    requires s.isOpen && Perform(s, e).0.isOpen
    ensures Drift(Perform(s, e).0) ==
            if !Rotates(s, e.call) then Drift(s)
            else if e.call.RotateNow? && Perform(s, e).1 then s.currentSize
            else 0
  {
    hide Rotate;
    if Rotates(s, e.call) {
      if Rotate(s, e.faults).0.isOpen {
        RotatedLogIsEmpty(s, e.faults);
      }
    }
  }

  /** The log, by the real size alone, gets a new file when it is not empty and the message would take it
      over the limit. */
  predicate IsFull(log: Bytes, text: Bytes, maxSize: nat) {
    log != [] && |log| + |text| > maxSize
  }

  /** A message to a sink whose count is right: it is appended to the log, or starts a new one when the
      log is full, which then becomes file 1; and the count stays right. */
  lemma MessageOutcome(s: Sink, e: Event)
    requires s.isOpen && Drift(s) == 0 && e.call.Message? && Perform(s, e).1
    ensures var r, log := Perform(s, e).0, Content(s.files, s.name);
      && Drift(r) == 0
      && Content(r.files, s.name) == (if IsFull(log, e.call.text, s.maxSize) then e.call.text else log + e.call.text)
      && (!IsFull(log, e.call.text, s.maxSize) ==> r.files == s.files[s.name := log + e.call.text])
      && (IsFull(log, e.call.text, s.maxSize) && s.maxFiles > 0 ==> Content(r.files, Rotated(s.name, 1)) == log)
      && r.isOpen && r.name == s.name && r.maxSize == s.maxSize && r.maxFiles == s.maxFiles
  {
    SucceedsIffUnhindered(s, e);
    CallDrift(s, e);
    CallKeepsLimit(s, e);
    hide Rotate, CanRotate, Rotated;
    if IsFull(Content(s.files, s.name), e.call.text, s.maxSize) {
      RotateKeepsOpen(s, e.faults);
      RotatedLogIsEmpty(s, e.faults);
      if s.maxFiles > 0 {
        LogIsIndexZero(s.name);
        NamesDiffer(s.name, 0, 1);
        RotateIsExact(s, e.faults, 1);
      }
    }
  }

  lemma CallKeepsLimit(s: Sink, e: Event)
    ensures var r := Perform(s, e).0; r.maxSize == s.maxSize && r.name == s.name && r.maxFiles == s.maxFiles
  {
    hide Shift;
  }

  /** The log after some messages, counting nothing but real sizes. */
  function LogAfter(log: Bytes, maxSize: nat, es: seq<Event>): Bytes
    decreases |es|
  {
    if es == [] then log
    else
      var text := Text(es[0].call);
      LogAfter(if IsFull(log, text, maxSize) then text else log + text, maxSize, es[1..])
  }

  /** Over every run of messages in which no call throws, the sink rotates exactly when the log is not
      empty and its real size plus the message exceeds the limit. */
  lemma {:induction false} RotatesByRealSize(s: Sink, es: seq<Event>)
    requires s.isOpen && Drift(s) == 0 && AllSucceed(s, es) && (forall i :: 0 <= i < |es| ==> es[i].call.Message?)
    ensures Content(Run(s, es).files, s.name) == LogAfter(Content(s.files, s.name), s.maxSize, es)
    ensures Drift(Run(s, es)) == 0
    decreases |es|
  {
    hide Perform, Drift, IsFull, Content;
    if es == [] {
    } else {
      MessageOutcome(s, es[0]);
      RotatesByRealSize(Perform(s, es[0]).0, es[1..]);
    }
  }

  // ---------- What is lost when an operation fails ----------

  /** Success is also needed: a rotation that gives up at any index empties the log, or would if it
      could open it, and what the files below that index have lost is exactly the newest log. */
  lemma {:induction false} FailedRotateLosesNewest(s: Sink, f: Faults, j: nat)
    requires j < StopsAt(s.files, s.name, s.maxFiles, f)
    requires f.opening.Opened? || f.opening.truncated
    ensures !Rotate(s, f).1 && Content(Rotate(s, f).0.files, s.name) == []
    ensures History(s.files, s.name, j) == History(Rotate(s, f).0.files, s.name, j) + Content(s.files, s.name)
  {
    hide Rotate, Rotated, StopsAt, At, Content;
    var r := Rotate(s, f).0.files;
    LogIsIndexZero(s.name);
    FailedRotateIsExact(s, f, 0);
    FailedRotateIsExact(s, f, j);
    ContentOf(s.files, Rotated(s.name, j));
    ContentOf(r, Rotated(s.name, j));
    if j == 0 {
      ContentOf(r, s.name);
    } else {
      FailedRotateLosesNewest(s, f, j - 1);
      Associative(Content(s.files, Rotated(s.name, j)), History(r, s.name, j - 1), Content(s.files, s.name));
    }
  }

  /** A message to a sink whose log could not be opened again: accepted while the count of bytes stays
      within the limit, though nothing is written, and an exception otherwise. */
  lemma ClosedSinkDropsMessage(s: Sink, e: Event)
    requires !s.isOpen && e.call.Message?
    ensures Perform(s, e).1 <==> s.currentSize + |e.call.text| <= s.maxSize
    ensures Perform(s, e).0 == if Perform(s, e).1 then s.(currentSize := s.currentSize + |e.call.text|) else s
  {
  }

  /** So it drops every message from then on without touching a file, and no call throws exactly as
      long as all the dropped bytes fit the limit. */
  lemma {:induction false} ClosedSinkDropsMessages(s: Sink, es: seq<Event>)
    requires !s.isOpen && (forall i :: 0 <= i < |es| ==> es[i].call.Message?)
    ensures !Run(s, es).isOpen && Run(s, es).files == s.files
    ensures es != [] ==> (AllSucceed(s, es) <==> s.currentSize + |Written(es)| <= s.maxSize)
    decreases |es|
  {
    hide Perform;
    if es == [] {
    } else {
      ClosedSinkDropsMessage(s, es[0]);
      ClosedSinkDropsMessages(Perform(s, es[0]).0, es[1..]);
    }
  }

  // ---------- Construction ----------

  /** The sink the constructor has once the log is opened. */
  function FirstOpened(files: Files, name: string, maxSize: nat, maxFiles: nat): Sink {
    var content := Content(files, name);
    Sink(files[name := content], name, maxSize, maxFiles, |content|, true)
  }

  /** The sink that results when no exception is thrown: as opened, or rotated once. */
  function Ready(s: Sink, rotates: bool, f: Faults): Sink {
    if rotates then Rotate(s, f).0.(currentSize := 0) else s
  }

  lemma ConstructIs(files: Files, name: string, maxSize: nat, maxFiles: nat, rotateOnOpen: bool,
                    opening: Opening, f: Faults)
    ensures var s := FirstOpened(files, name, maxSize, maxFiles);
      var rotates := rotateOnOpen && Content(files, name) != [];
      var (sink, left) := Construct(files, name, maxSize, maxFiles, rotateOnOpen, opening, f);
      && (sink.None? <==>
            || maxSize == 0 || maxFiles > MAX_FILES || opening.NotOpened? || (rotates && !CanRotate(s, f)))
      && (sink.Some? ==> sink.value == Ready(s, rotates, f) && left == sink.value.files)
  {
    hide Rotate, CanRotate;
    RotateSucceedsIff(FirstOpened(files, name, maxSize, maxFiles), f);
  }

  lemma ReadyKeeps(s: Sink, rotates: bool, f: Faults, sent: set<Bytes>)
    requires s.isOpen && SizesFit(s, sent) && Drift(s) == 0 && (rotates ==> CanRotate(s, f))
    ensures var r := Ready(s, rotates, f);
      && r.isOpen && SizesFit(r, sent) && Drift(r) == 0
      && Kept(s) == (if rotates then Dropped(s) else []) + Kept(r)
  {
    hide Rotate, CanRotate, FilesFit, History, Dropped;
    if rotates {
      RotateKeepsOpen(s, f);
      RotateFits(s, f, sent);
      RotationLosesOldest(s, f);
      RotatedLogIsEmpty(s, f);
    } else {
      assert [] + Kept(s) == Kept(s);
    }
  }

  /** A constructed sink starts within the size bound, if the files it found are, counts the real size,
      and holds what they held, up to the file that a rotation on opening deletes. */
  lemma ConstructedSinkIsReady(files: Files, name: string, maxSize: nat, maxFiles: nat, rotateOnOpen: bool,
                               opening: Opening, f: Faults, sent: set<Bytes>)
    requires FilesFit(files, name, maxFiles, maxSize, sent)
    ensures var s := FirstOpened(files, name, maxSize, maxFiles);
      var rotates := rotateOnOpen && Content(files, name) != [];
      var (sink, left) := Construct(files, name, maxSize, maxFiles, rotateOnOpen, opening, f);
      && (sink.None? <==>
            || maxSize == 0 || maxFiles > MAX_FILES || opening.NotOpened? || (rotates && !CanRotate(s, f)))
      && (sink.Some? ==>
            && sink.value.isOpen && SizesFit(sink.value, sent) && Drift(sink.value) == 0
            && left == sink.value.files
            && History(files, name, maxFiles) == (if rotates then Dropped(s) else []) + Kept(sink.value))
  {
    var s := FirstOpened(files, name, maxSize, maxFiles);
    ConstructIs(files, name, maxSize, maxFiles, rotateOnOpen, opening, f);
    OpenedFits(files, name, maxSize, maxFiles, sent);
    hide Construct, Ready, CanRotate, FilesFit, SizesFit, Drift, History, Dropped, Content;
    if Construct(files, name, maxSize, maxFiles, rotateOnOpen, opening, f).0.Some? {
      ReadyKeeps(s, rotateOnOpen && Content(files, name) != [], f, sent);
    }
  }

  lemma OpenedFits(files: Files, name: string, maxSize: nat, maxFiles: nat, sent: set<Bytes>)
    requires FilesFit(files, name, maxFiles, maxSize, sent)
    ensures var s := FirstOpened(files, name, maxSize, maxFiles);
      s.isOpen && SizesFit(s, sent) && Drift(s) == 0 && Kept(s) == History(files, name, maxFiles)
  {
    hide FilesFit, History;
    LogFits(files, name, maxFiles, maxSize, sent);
    FitsAfterUpdate(files, name, maxFiles, maxSize, sent, Content(files, name));
    SameHistory(files, name, maxFiles);
  }

  lemma LogFits(files: Files, name: string, n: nat, limit: nat, sent: set<Bytes>)
    requires FilesFit(files, name, n, limit, sent)
    ensures Fits(Content(files, name), limit, sent)
  {
    LogIsIndexZero(name);
  }

  /** Creating the log, empty, adds nothing to the history. */
  lemma {:induction false} SameHistory(files: Files, name: string, n: nat)
    ensures History(files[name := Content(files, name)], name, n) == History(files, name, n)
  {
    LogIsIndexZero(name);
    hide Rotated;
    if n == 0 {
    } else {
      SameHistory(files, name, n - 1);
    }
  }
}
