/** The rotating file sink as the object it is: each method does to its fields and to the directory
    exactly what the call does in `RotatingSink`. */
module RotatingFileSink {
  import opened Wrappers
  import opened FileNames
  import opened RotatingSink

  class FileSink {
    var files: Files          // the directory, as far as this process changes it
    const baseName: string
    const maxSize: nat
    const maxFiles: nat
    var currentSize: nat
    var isOpen: bool

    ghost function State(): Sink
      reads this
    {
      Sink(files, baseName, maxSize, maxFiles, currentSize, isOpen)
    }

    /** The part of the constructor that cannot throw. */
    constructor (files0: Files, name: string, size: nat, count: nat)
      ensures State() == Sink(files0, name, size, count, 0, false)
    {
      files := files0;
      baseName := name;
      maxSize := size;
      maxFiles := count;
      currentSize := 0;
      isOpen := false;
    }

    /** The part that can; on an exception the object is discarded, but not the files. */
    method Initialize(rotateOnOpen: bool, opening: Opening, f: Faults) returns (ok: bool)
      modifies this
      ensures ok == Construct(old(files), baseName, maxSize, maxFiles, rotateOnOpen, opening, f).0.Some?
      ensures files == Construct(old(files), baseName, maxSize, maxFiles, rotateOnOpen, opening, f).1
      ensures ok ==> Construct(old(files), baseName, maxSize, maxFiles, rotateOnOpen, opening, f).0 == Some(State())
    {
      hide RotatingSink.Rotate;
      if maxSize == 0 || maxFiles > MAX_FILES || opening.NotOpened? {
        return false;
      }
      files := files[baseName := Content(files, baseName)];
      isOpen := true;
      currentSize := |files[baseName]|;
      ok := true;
      if rotateOnOpen && currentSize > 0 {
        ok := Rotate(f);
        if ok {
          currentSize := 0;
        }
      }
    }

    /** One removal and one rename. */
    method TryRename(src: string, target: string, a: Attempt) returns (ok: bool)
      requires src in files && src != target
      modifies this`files
      ensures (files, ok) == RenameFile(old(files), src, target, a)
    {
      if a.removed {
        files := files - {target};
      }
      ok := a.renamed;
      if ok {
        files := (files - {src})[target := files[src]];
      }
    }

    /** `file_helper::reopen(true)`. */
    method ReopenTruncated(o: Opening)
      modifies this`files, this`isOpen
      ensures State() == Reopen(old(State()), o)
    {
      isOpen := o.Opened?;
      if o.Opened? || o.truncated {
        files := files[baseName := []];
      }
    }

    method Rotate(f: Faults) returns (ok: bool)
      modifies this
      ensures (State(), ok) == RotatingSink.Rotate(old(State()), f)
    {
      hide Rotated, RenameFile;
      isOpen := false;
      var i: nat := maxFiles;
      while i > 0
        invariant !isOpen && currentSize == old(currentSize)
        invariant Shift(files, baseName, i, f) == Shift(old(files), baseName, maxFiles, f)
      {
        var src := Rotated(baseName, i - 1);
        if src in files {
          var target := Rotated(baseName, i);
          NamesDiffer(baseName, i - 1, i);
          SourceRemains(files, src, target, f.first(i));
          ok := TryRename(src, target, f.first(i));
          if !ok {
            ok := TryRename(src, target, f.second(i));
            if !ok {
              ReopenTruncated(f.opening);
              if isOpen {
                currentSize := 0;
              }
              return;
            }
          }
        }
        i := i - 1;
      }
      ReopenTruncated(f.opening);
      ok := isOpen;
    }

    method Append(msg: Bytes)
      modifies this`files
      ensures State() == Write(old(State()), msg)
    {
      if isOpen {
        files := files[baseName := Content(files, baseName) + msg];
      }
    }

    /** `sink_it_` for an already formatted message. */
    method LogMessage(msg: Bytes, f: Faults) returns (ok: bool)
      modifies this
      ensures (State(), ok) == Log(old(State()), msg, f)
    {
      hide RotatingSink.Rotate, Write;
      var newSize := currentSize + |msg|;
      if newSize > maxSize {
        if !isOpen {
          return false;
        }
        if |Content(files, baseName)| > 0 {
          ok := Rotate(f);
          if !ok {
            return;
          }
          newSize := |msg|;
        }
      }
      Append(msg);
      currentSize := newSize;
      ok := true;
    }

    /** `rotate_now`: the size count is left as it is. */
    method RotateNow(f: Faults) returns (ok: bool)
      modifies this
      ensures (State(), ok) == RotatingSink.Rotate(old(State()), f)
    {
      ok := Rotate(f);
    }
  }
}
