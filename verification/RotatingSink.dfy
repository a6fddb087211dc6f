/** What one call on the rotating file sink does to the directory, for every outcome of the file
    operations it makes, and what survives any sequence of calls. */
module RotatingSink {
  import opened Wrappers
  import opened FileNames

  type Bytes = seq<bv8>
  type Files = map<string, Bytes>

  const MAX_FILES: nat := 200000

  // ---------- Outcomes of file operations ----------

  /** One try of `rename_file_`: whether the target could be removed, and whether the source could
      then be renamed. */
  datatype Attempt = Attempt(removed: bool, renamed: bool)

  /** Opening for writing; when it fails, the truncating pass may already have succeeded. */
  datatype Opening = Opened | NotOpened(truncated: bool)

  /** The outcomes met by one call: the two tries at each index, and the opening that ends it. */
  datatype Faults = Faults(first: nat -> Attempt, second: nat -> Attempt, opening: Opening)

  /** The first try at index `i`, or the retry, renames. */
  predicate Renames(f: Faults, i: nat) {
    f.first(i).renamed || f.second(i).renamed
  }

  // ---------- The sink ----------

  datatype Sink = Sink(files: Files, name: string, maxSize: nat, maxFiles: nat, currentSize: nat, isOpen: bool)

  function Content(files: Files, n: string): Bytes {
    if n in files then files[n] else []
  }

  function Clear(files: Files, n: string, a: Attempt): Files {
    if a.removed then files - {n} else files
  }

  /** `rename_file_`. */
  function RenameFile(files: Files, src: string, target: string, a: Attempt): (Files, bool)
    requires src in files && src != target
  {
    var cleared := Clear(files, target, a);
    if a.renamed then ((cleared - {src})[target := cleared[src]], true) else (cleared, false)
  }

  /** A rename and its one retry. */
  function Move(files: Files, src: string, target: string, a: Attempt, b: Attempt): (Files, bool)
    requires src in files && src != target
  {
    var (once, ok) := RenameFile(files, src, target, a);
    if ok then (once, true) else RenameFile(once, src, target, b)
  }

  /** The loop of `rotate_` from index `i` down to 1, and whether every rename succeeded. */
  function Shift(files: Files, name: string, i: nat, f: Faults): (Files, bool)
    decreases i
  {
    if i == 0 then (files, true)
    else if Rotated(name, i - 1) !in files then Shift(files, name, i - 1, f)
    else
      (NamesDiffer(name, i - 1, i);
       var (moved, ok) := Move(files, Rotated(name, i - 1), Rotated(name, i), f.first(i), f.second(i));
       if ok then Shift(moved, name, i - 1, f) else (moved, false))
  }

  lemma NamesDiffer(name: string, i: nat, j: nat)
    requires i != j
    ensures Rotated(name, i) != Rotated(name, j)
  {
    hide Rotated;
    if Rotated(name, i) == Rotated(name, j) {
      NamesAreDistinct(name, i, j);
    }
  }

  /** `reopen(true)`. */
  function Reopen(s: Sink, o: Opening): Sink {
    match o
    case Opened => s.(files := s.files[s.name := []], isOpen := true)
    case NotOpened(truncated) => s.(files := if truncated then s.files[s.name := []] else s.files, isOpen := false)
  }

  /** `rotate_`, and whether it ends without an exception. */
  function Rotate(s: Sink, f: Faults): (Sink, bool) {
    var (files, ok) := Shift(s.files, s.name, s.maxFiles, f);
    var r := Reopen(s.(files := files), f.opening);
    (if !ok && r.isOpen then r.(currentSize := 0) else r, ok && r.isOpen)
  }

  /** `file_helper::write`: silently nothing when the file is not open. */
  function Write(s: Sink, msg: Bytes): Sink {
    if s.isOpen then s.(files := s.files[s.name := Content(s.files, s.name) + msg]) else s
  }

  /** `sink_it_`. */
  function Log(s: Sink, msg: Bytes, f: Faults): (Sink, bool) {
    var newSize := s.currentSize + |msg|;
    if newSize <= s.maxSize then (Write(s, msg).(currentSize := newSize), true)
    else if !s.isOpen then (s, false)
    else if Content(s.files, s.name) == [] then (Write(s, msg).(currentSize := newSize), true)
    else
      var (r, ok) := Rotate(s, f);
      (if ok then Write(r, msg).(currentSize := |msg|) else r, ok)
  }

  /** The constructor: the sink, unless it throws, and the directory it leaves. */
  function Construct(files: Files, name: string, maxSize: nat, maxFiles: nat, rotateOnOpen: bool,
                     opening: Opening, f: Faults): (Option<Sink>, Files) {
    if maxSize == 0 || maxFiles > MAX_FILES || opening.NotOpened? then (None, files)
    else
      var content := Content(files, name);
      var s := Sink(files[name := content], name, maxSize, maxFiles, |content|, true);
      if rotateOnOpen && content != [] then
        var (r, ok) := Rotate(s, f);
        (if ok then Some(r.(currentSize := 0)) else None, r.files)
      else (Some(s), s.files)
  }

  // ---------- When a rotation succeeds ----------

  /** The index at which the loop from `i` gives up, or 0: the highest one that has a file to move and
      cannot move it. */
  function StopsAt(files: Files, name: string, i: nat, f: Faults): (k: nat)
    ensures k <= i
    ensures k > 0 ==> Rotated(name, k - 1) in files && !Renames(f, k)
    ensures forall j: nat :: k < j <= i && Rotated(name, j - 1) in files ==> Renames(f, j)
  {
    if i == 0 then 0
    else if Rotated(name, i - 1) in files && !Renames(f, i) then i
    else StopsAt(files, name, i - 1, f)
  }

  /** Every file that the rotation has to move can be renamed, and the log can be opened again. */
  ghost predicate CanRotate(s: Sink, f: Faults) {
    && f.opening.Opened?
    && forall i: nat :: 0 < i <= s.maxFiles && Rotated(s.name, i - 1) in s.files ==> Renames(f, i)
  }

  lemma MoveSucceeds(files: Files, src: string, target: string, a: Attempt, b: Attempt)
    requires src in files && src != target && (a.renamed || b.renamed)
    ensures Move(files, src, target, a, b) == ((files - {src})[target := files[src]], true)
  {
    var (once, ok) := RenameFile(files, src, target, a);
    if ok {
      assert once == (files - {src})[target := files[src]];
    } else {
      assert once[src] == files[src];
      assert RenameFile(once, src, target, b).0 == (files - {src})[target := files[src]];
    }
  }

  /** A move that fails leaves everything as it was, except that the target may be gone. */
  lemma MoveFails(files: Files, src: string, target: string, a: Attempt, b: Attempt)
    requires src in files && src != target && !a.renamed && !b.renamed
    ensures Move(files, src, target, a, b) == (if a.removed || b.removed then files - {target} else files, false)
  {
    var (once, ok) := RenameFile(files, src, target, a);
    SourceRemains(files, src, target, a);
    assert RenameFile(once, src, target, b) == (Clear(once, target, b), false);
    if a.removed && b.removed {
      assert files - {target} - {target} == files - {target};
    }
  }

  lemma SourceRemains(files: Files, src: string, target: string, a: Attempt)
    requires src in files && src != target
    ensures !RenameFile(files, src, target, a).1 ==> src in RenameFile(files, src, target, a).0
  {
  }

  function At(files: Files, n: string): Option<Bytes> {
    if n in files then Some(files[n]) else None
  }

  /** A pass of the loop that succeeds, at index `i`, only moves file `i - 1`. */
  function MovedOnce(files: Files, name: string, i: nat): Files
    requires i > 0
  {
    var src := Rotated(name, i - 1);
    if src in files then (files - {src})[Rotated(name, i) := files[src]] else files
  }

  /** A pass that fails ends the loop, and at most removes its target. */
  function StoppedOnce(files: Files, name: string, i: nat, f: Faults): Files {
    if f.first(i).removed || f.second(i).removed then files - {Rotated(name, i)} else files
  }

  lemma ShiftUnfolds(files: Files, name: string, i: nat, f: Faults)
    requires i > 0
    ensures Shift(files, name, i, f) ==
            if Rotated(name, i - 1) in files && !Renames(f, i) then (StoppedOnce(files, name, i, f), false)
            else Shift(MovedOnce(files, name, i), name, i - 1, f)
  {
    hide Rotated, Move;
    NamesDiffer(name, i - 1, i);
    if Rotated(name, i - 1) in files {
      if Renames(f, i) {
        MoveSucceeds(files, Rotated(name, i - 1), Rotated(name, i), f.first(i), f.second(i));
      } else {
        MoveFails(files, Rotated(name, i - 1), Rotated(name, i), f.first(i), f.second(i));
      }
    }
  }

  /** Moving file `i - 1` does not change which files below it there are to move. */
  lemma {:induction false} StopsAtStays(files: Files, name: string, i: nat, j: nat, f: Faults)
    requires j < i
    ensures StopsAt(MovedOnce(files, name, i), name, j, f) == StopsAt(files, name, j, f)
  {
    hide Rotated, Renames;
    if j == 0 {
    } else {
      NamesDiffer(name, j - 1, i);
      NamesDiffer(name, j - 1, i - 1);
      StopsAtStays(files, name, i, j - 1, f);
    }
  }

  /** Whose contents file `j` has after the loop from index `i` that gives up at `k`: those of file
      `j - 1`, except that the last file stays where it is when there is none to replace it, and that
      nothing below `k` is moved. */
  function Shifted(files: Files, name: string, i: nat, f: Faults, j: nat): Option<Bytes>
    requires j <= i
  {
    var k := StopsAt(files, name, i, f);
    if j < k then At(files, Rotated(name, j))
    else if j < i && j == k then None
    else if j == k > 0 then At(StoppedOnce(files, name, i, f), Rotated(name, i))
    else if j == 0 then At(files, Rotated(name, 0))
    else if j == i && Rotated(name, i - 1) !in files then At(files, Rotated(name, i))
    else At(files, Rotated(name, j - 1))
  }

  /** Whatever the outcomes, the loop touches no other file of the directory. */
  lemma {:induction false} ShiftLeaves(files: Files, name: string, i: nat, f: Faults, n: string)
    requires forall j: nat :: j <= i ==> n != Rotated(name, j)
    ensures At(Shift(files, name, i, f).0, n) == At(files, n)
    decreases i
  {
    hide Rotated, Move, Renames;
    if i == 0 {
    } else {
      ShiftUnfolds(files, name, i, f);
      ShiftLeaves(MovedOnce(files, name, i), name, i - 1, f, n);
    }
  }

  /** The loop for every outcome: it gives up where the first rename fails twice, and otherwise moves
      every file up by one. */
  lemma {:induction false} ShiftIsExact(files: Files, name: string, i: nat, f: Faults, j: nat)
    requires j <= i
    ensures Shift(files, name, i, f).1 <==> StopsAt(files, name, i, f) == 0
    ensures At(Shift(files, name, i, f).0, Rotated(name, j)) == Shifted(files, name, i, f, j)
    decreases i
  {
    hide Rotated, Move, Renames, Shift, Shifted;
    if i == 0 {
      NothingToShift(files, name, f);
    } else {
      ShiftUnfolds(files, name, i, f);
      var once := MovedOnce(files, name, i);
      if Rotated(name, i - 1) in files && !Renames(f, i) {
        ShiftedAtStop(files, name, i, f, j);
      } else {
        StopsAtStays(files, name, i, i - 1, f);
        if j < i {
          ShiftIsExact(once, name, i - 1, f, j);
          ShiftedBelow(files, name, i, f, j);
        } else {
          ShiftIsExact(once, name, i - 1, f, 0);
          OthersDiffer(name, i);
          ShiftLeaves(once, name, i - 1, f, Rotated(name, i));
          ShiftedTop(files, name, i, f);
        }
      }
    }
  }

  lemma NothingToShift(files: Files, name: string, f: Faults)
    ensures Shift(files, name, 0, f) == (files, true)
    ensures At(files, Rotated(name, 0)) == Shifted(files, name, 0, f, 0)
  {
  }

  lemma OthersDiffer(name: string, i: nat)
    ensures forall k: nat :: k < i ==> Rotated(name, i) != Rotated(name, k)
  {
    hide Rotated;
    forall k: nat | k < i
      ensures Rotated(name, i) != Rotated(name, k)
    {
      NamesDiffer(name, i, k);
    }
  }

  lemma ShiftedAtStop(files: Files, name: string, i: nat, f: Faults, j: nat)
    requires 0 < i && j <= i && Rotated(name, i - 1) in files && !Renames(f, i)
    ensures At(StoppedOnce(files, name, i, f), Rotated(name, j)) == Shifted(files, name, i, f, j)
  {
    hide Rotated, Renames;
    if j < i {
      NamesDiffer(name, j, i);
    }
  }

  lemma ShiftedBelow(files: Files, name: string, i: nat, f: Faults, j: nat)
    requires j < i && (Rotated(name, i - 1) in files ==> Renames(f, i))
    ensures Shifted(MovedOnce(files, name, i), name, i - 1, f, j) == Shifted(files, name, i, f, j)
  {
    hide Rotated, Renames;
    StopsAtStays(files, name, i, i - 1, f);
    NamesDiffer(name, i, i - 1);
    NamesDiffer(name, j, i);
    if j < i - 1 {
      NamesDiffer(name, j, i - 1);
    }
    if 0 < j {
      NamesDiffer(name, j - 1, i);
      NamesDiffer(name, j - 1, i - 1);
    }
  }

  lemma ShiftedTop(files: Files, name: string, i: nat, f: Faults)
    requires 0 < i && (Rotated(name, i - 1) in files ==> Renames(f, i))
    ensures At(MovedOnce(files, name, i), Rotated(name, i)) == Shifted(files, name, i, f, i)
  {
    hide Rotated, Renames;
    NamesDiffer(name, i, i - 1);
  }

  /** A rotation succeeds if and only if every file it has to move can be renamed and the log can be
      opened again. */
  lemma RotateSucceedsIff(s: Sink, f: Faults)
    ensures Rotate(s, f).1 <==> CanRotate(s, f)
  {
    hide Rotated, Renames, Shift, Shifted;
    ShiftIsExact(s.files, s.name, s.maxFiles, f, 0);
  }

  /** What a successful rotation does: the log is empty, every older file is the one that was before
      it, and the last one is replaced only when there is a file to replace it. */
  lemma RotateIsExact(s: Sink, f: Faults, j: nat)
    requires CanRotate(s, f) && j <= s.maxFiles
    ensures Rotate(s, f).1 && Rotate(s, f).0 == s.(files := Rotate(s, f).0.files, isOpen := true)
    ensures At(Rotate(s, f).0.files, Rotated(s.name, j)) ==
            if j == 0 then Some([])
            else if j == s.maxFiles && Rotated(s.name, j - 1) !in s.files then At(s.files, Rotated(s.name, j))
            else At(s.files, Rotated(s.name, j - 1))
  {
    hide Shift, Renames;
    ShiftIsExact(s.files, s.name, s.maxFiles, f, j);
    if j > 0 {
      NamesDiffer(s.name, 0, j);
    }
  }

  /** What a rotation does that gives up at index `k`: the files above `k` are moved up, those below stay
      where they are, file `k` itself is gone or, when it is the last, may remain; but the log is
      emptied although no file took its contents. */
  lemma FailedRotateIsExact(s: Sink, f: Faults, j: nat)
    requires StopsAt(s.files, s.name, s.maxFiles, f) > 0 && j <= s.maxFiles
    ensures !Rotate(s, f).1
    ensures var k := StopsAt(s.files, s.name, s.maxFiles, f);
      At(Rotate(s, f).0.files, Rotated(s.name, j)) ==
        if j == 0 then (if f.opening.Opened? || f.opening.truncated then Some([]) else At(s.files, s.name))
        else if j < k then At(s.files, Rotated(s.name, j))
        else if j == k && (k < s.maxFiles || f.first(k).removed || f.second(k).removed) then None
        else if j == s.maxFiles && (j == k || Rotated(s.name, j - 1) !in s.files) then At(s.files, Rotated(s.name, j))
        else At(s.files, Rotated(s.name, j - 1))
  {
    hide Shift, Renames;
    ShiftIsExact(s.files, s.name, s.maxFiles, f, j);
    if j > 0 {
      NamesDiffer(s.name, 0, j);
    }
  }

  // ---------- History ----------

  /** The files from index `n` down to 0, oldest first. */
  function History(files: Files, name: string, n: nat): Bytes {
    Content(files, Rotated(name, n)) + if n == 0 then [] else History(files, name, n - 1)
  }

  /** What a rotation deletes: the last file, when another takes its place. */
  function Dropped(s: Sink): Bytes {
    if s.maxFiles == 0 || Rotated(s.name, s.maxFiles - 1) in s.files
    then Content(s.files, Rotated(s.name, s.maxFiles))
    else []
  }

  lemma ContentOf(files: Files, n: string)
    ensures Content(files, n) == if At(files, n).None? then [] else At(files, n).value
  {
  }

  lemma {:induction false} ShiftedHistory(s: Sink, f: Faults, j: nat)
    requires CanRotate(s, f) && j < s.maxFiles
    ensures History(Rotate(s, f).0.files, s.name, j) == if j == 0 then [] else History(s.files, s.name, j - 1)
    decreases j
  {
    hide Rotate, Rotated, Content, At;
    var r := Rotate(s, f).0.files;
    RotateIsExact(s, f, j);
    ContentOf(r, Rotated(s.name, j));
    if j == 0 {
    } else {
      ContentOf(s.files, Rotated(s.name, j - 1));
      ShiftedHistory(s, f, j - 1);
    }
  }

  lemma HistoryUnfolds(files: Files, name: string, n: nat)
    ensures History(files, name, n) ==
            if n == 0 then Content(files, Rotated(name, 0))
            else Content(files, Rotated(name, n)) + History(files, name, n - 1)
  {
    hide Content, Rotated;
  }

  /** The contents of the last file after a successful rotation. */
  lemma LastContent(s: Sink, f: Faults)
    requires CanRotate(s, f) && s.maxFiles > 0
    ensures var src := Rotated(s.name, s.maxFiles - 1);
      && Content(Rotate(s, f).0.files, Rotated(s.name, s.maxFiles)) ==
           Content(s.files, if src in s.files then src else Rotated(s.name, s.maxFiles))
      && (src !in s.files ==> Content(s.files, src) == [])
  {
    hide Rotate, Rotated, CanRotate;
    RotateIsExact(s, f, s.maxFiles);
  }

  /** A successful rotation loses exactly the dropped file from the oldest end. */
  lemma RotationLosesOldest(s: Sink, f: Faults)
    requires CanRotate(s, f)
    ensures History(s.files, s.name, s.maxFiles) == Dropped(s) + History(Rotate(s, f).0.files, s.name, s.maxFiles)
  {
    hide Rotate, Rotated, CanRotate, History, Content;
    var max, r := s.maxFiles, Rotate(s, f).0.files;
    HistoryUnfolds(s.files, s.name, max);
    HistoryUnfolds(r, s.name, max);
    if max == 0 {
      RotateIsExact(s, f, 0);
      ContentOf(r, Rotated(s.name, 0));
    } else {
      HistoryUnfolds(s.files, s.name, max - 1);
      ShiftedHistory(s, f, max - 1);
      LastContent(s, f);
    }
  }
}
