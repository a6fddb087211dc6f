/** The truncating output buffers behind `format_to_n`: one that hands its content to an output
    iterator when full, and one that writes directly into the caller's memory. */
module FixedBuffer {
  const BUFFER_SIZE: nat := 256

  function Min(a: nat, b: nat): nat {
    if a < b then a else b
  }

  /** What `n` units of room leave of a text. */
  function Truncated<T>(text: seq<T>, n: nat): seq<T> {
    text[..Min(n, |text|)]
  }

  /** `fixed_buffer_traits::limit`: how many of `size` more units may still be delivered. */
  function Deliverable(limit: nat, count: nat, size: nat): nat {
    Min(size, if limit > count then limit - count else 0)
  }

  lemma DeliverMore<T>(text: seq<T>, limit: nat, count: nat, size: nat)
    requires count + size <= |text|
    ensures Truncated(text[..count], limit) + text[count..count + Deliverable(limit, count, size)]
         == Truncated(text[..count + size], limit)
  {
    var more := Deliverable(limit, count, size);
    if limit <= count {
      assert more == 0 && text[..count][..limit] == text[..limit] == text[..count + size][..limit];
    } else {
      assert text[..count + size][..count + more] == text[..count + more] == text[..count] + text[count..count + more];
      assert text[..count][..count] == text[..count];
    }
  }

  /** The buffer in front of an output iterator. */
  class IteratorBuffer<T(0)> {
    const data: array<T>
    const limit: nat
    var size: nat
    var count: nat
    var out: seq<T>          // what the iterator has received
    ghost var content: seq<T>

    ghost predicate Valid()
      reads this, data
    {
      && data.Length == BUFFER_SIZE && size <= BUFFER_SIZE
      && count + size == |content|
      && data[..size] == content[count..]
      && out == Truncated(content[..count], limit)
    }

    constructor (limit: nat)
      ensures Valid() && fresh(data) && content == [] && this.limit == limit
    {
      data := new T[BUFFER_SIZE];
      this.limit := limit;
      size, count, out, content := 0, 0, [], [];
    }

    method Flush()
      requires Valid()
      modifies `size, `count, `out
      ensures Valid() && size == 0
    {
      var n := Deliverable(limit, count, size);
      DeliverMore(content, limit, count, size);
      assert data[..n] == content[count..count + n];
      assert content[..count + size] == content;
      out := out + data[..n];
      count := count + size;
      size := 0;
    }

    /** `try_reserve` with `grow`: afterwards there is room for at least one more unit. */
    method TryReserve(newCapacity: nat)
      requires Valid()
      modifies `size, `count, `out
      ensures Valid() && (newCapacity > BUFFER_SIZE || old(size) < newCapacity ==> size < BUFFER_SIZE)
    {
      if newCapacity > BUFFER_SIZE && size == BUFFER_SIZE {
        Flush();
      }
    }

    method PushBack(value: T)
      requires Valid()
      modifies this, data
      ensures Valid() && content == old(content) + [value]
    {
      TryReserve(size + 1);
      data[size] := value;
      size := size + 1;
      content := content + [value];
      assert content[..count] == old(content)[..count];
    }

    method Append(text: seq<T>)
      requires Valid()
      modifies this, data
      ensures Valid() && content == old(content) + text
    {
      var begin := 0;
      while begin != |text|
        invariant Valid() && begin <= |text|
        invariant content == old(content) + text[..begin]
        decreases |text| - begin
      {
        TryReserve(size + (|text| - begin));
        var chunk := Min(BUFFER_SIZE - size, |text| - begin);
        CopyIn(text[begin..begin + chunk]);
        assert text[..begin + chunk] == text[..begin] + text[begin..begin + chunk];
        begin := begin + chunk;
      }
      assert text[..begin] == text;
    }

    method CopyIn(chunk: seq<T>)
      requires Valid() && size + |chunk| <= BUFFER_SIZE
      modifies `size, `content, data
      ensures Valid() && content == old(content) + chunk
    {
      CopyAt(data, size, chunk);
      size := size + |chunk|;
      content := content + chunk;
      assert content[..count] == old(content)[..count];
    }
  }

  /** The copy loop of `append`. */
  method CopyAt<T>(a: array<T>, at: nat, chunk: seq<T>)
    requires at + |chunk| <= a.Length
    modifies a
    ensures a[..] == old(a[..at]) + chunk + old(a[at + |chunk|..])
  {
    for i := 0 to |chunk|
      invariant a[..at] == old(a[..at]) && a[at..at + i] == chunk[..i]
      invariant a[at + |chunk|..] == old(a[at + |chunk|..])
    {
      a[at + i] := chunk[i];
    }
    assert a[..] == a[..at] + a[at..at + |chunk|] + a[at + |chunk|..];
  }

  lemma PastLimit<T>(content: seq<T>, chunk: seq<T>, limit: nat)
    requires limit <= |content|
    ensures Truncated(content + chunk, limit) == Truncated(content, limit)
  {
  }

  /** The buffer that writes into the caller's memory, and into scratch space once that is full.
      The pointer of the base class equals the output pointer exactly while it is `dest`. */
  class PointerBuffer<T(0)> {
    const dest: array<T>
    const scratch: array<T>
    const limit: nat
    var ptr: array<T>
    var capacity: nat
    var size: nat
    var count: nat
    var outPos: nat          // out_, relative to the start of dest
    ghost var content: seq<T>
    ghost const initial: seq<T>

    ghost predicate Valid()
      reads this, dest, scratch
    {
      && dest != scratch && scratch.Length == BUFFER_SIZE && limit <= dest.Length && |initial| == dest.Length
      && count + size == |content|
      && dest[..] == Truncated(content, limit) + initial[Min(limit, |content|)..]
      && if ptr == dest then
           && capacity == limit && size <= limit && count == 0 && outPos == 0
         else
           && ptr == scratch && capacity == BUFFER_SIZE && size <= BUFFER_SIZE
           && count >= limit && outPos == limit
    }

    constructor (dest: array<T>, limit: nat)
      requires limit <= dest.Length
      ensures Valid() && fresh(scratch) && this.dest == dest && this.limit == limit
      ensures content == [] && initial == dest[..] && ptr == dest
    {
      this.dest := dest;
      this.limit := limit;
      scratch := new T[BUFFER_SIZE];
      ptr, capacity, size, count, outPos := dest, limit, 0, 0, 0;
      content, initial := [], dest[..];
      new;
      assert dest[..] == [] + initial[0..];
    }

    /** Flushing advances the output only the first time, and then writes to scratch space. */
    method Flush()
      requires Valid()
      modifies `ptr, `capacity, `size, `count, `outPos
      ensures size == 0 && count == |content| && outPos == Min(limit, |content|)
      ensures ptr == scratch && capacity == BUFFER_SIZE
    {
      var n := Deliverable(limit, count, size);
      count := count + size;
      if ptr == dest {
        outPos := outPos + n;
        ptr := scratch;
        capacity := BUFFER_SIZE;
      }
      size := 0;
    }

    /** `try_reserve` with `grow`: afterwards there is room for at least one more unit. */
    method TryReserve(newCapacity: nat)
      requires Valid() && newCapacity > size
      modifies `ptr, `capacity, `size, `count, `outPos
      ensures Valid() && size < capacity
    {
      if newCapacity > capacity && size == capacity {
        Flush();
      }
    }

    /** Writes at the end of the buffer; in scratch space they are past the limit. */
    method CopyIn(chunk: seq<T>)
      requires Valid() && size + |chunk| <= capacity
      modifies `size, `content, dest, scratch
      ensures Valid() && content == old(content) + chunk
    {
      CopyAt(ptr, size, chunk);
      if ptr == dest {
        InDest(content, chunk, limit, initial);
      } else {
        PastLimit(content, chunk, limit);
      }
      size := size + |chunk|;
      content := content + chunk;
    }

    method PushBack(value: T)
      requires Valid()
      modifies this, dest, scratch
      ensures Valid() && content == old(content) + [value]
    {
      TryReserve(size + 1);
      CopyIn([value]);
    }

    method Append(text: seq<T>)
      requires Valid()
      modifies this, dest, scratch
      ensures Valid() && content == old(content) + text
    {
      var begin := 0;
      while begin != |text|
        invariant Valid() && begin <= |text|
        invariant content == old(content) + text[..begin]
        decreases |text| - begin
      {
        TryReserve(size + (|text| - begin));
        var chunk := Min(capacity - size, |text| - begin);
        CopyIn(text[begin..begin + chunk]);
        assert text[..begin + chunk] == text[..begin] + text[begin..begin + chunk];
        begin := begin + chunk;
      }
      assert text[..begin] == text;
    }

    /** `out` flushes whatever is there, and `count` is then the whole length. */
    method Finish() returns (written: nat, total: nat)
      requires Valid()
      modifies this
      ensures total == |content| && written == Min(limit, |content|) && content == old(content)
    {
      Flush();
      written := outPos;
      total := count + size;
    }
  }

  /** Writing within the limit puts the text itself into the caller's memory. */
  lemma InDest<T>(content: seq<T>, chunk: seq<T>, limit: nat, initial: seq<T>)
    requires |content| + |chunk| <= limit <= |initial|
    ensures var before := Truncated(content, limit) + initial[Min(limit, |content|)..];
      before[..|content|] + chunk + before[|content| + |chunk|..]
        == Truncated(content + chunk, limit) + initial[Min(limit, |content + chunk|)..]
  {
    var before := Truncated(content, limit) + initial[|content|..];
    assert Truncated(content, limit) == content;
    assert before[|content| + |chunk|..] == initial[|content| + |chunk|..];
  }

  // ---------- format_to_n ----------

  /** The calls that formatting makes on the buffer. */
  datatype Call<T> = Push(value: T) | AppendAll(text: seq<T>)

  function Text<T>(calls: seq<Call<T>>): seq<T> {
    if calls == [] then []
    else
      var last := calls[|calls| - 1];
      Text(calls[..|calls| - 1]) + match last case Push(v) => [v] case AppendAll(t) => t
  }

  lemma TextOfMore<T>(calls: seq<Call<T>>, i: nat)
    requires i < |calls|
    ensures Text(calls[..i + 1]) == Text(calls[..i]) + match calls[i] case Push(v) => [v] case AppendAll(t) => t
  {
    assert calls[..i + 1][..i] == calls[..i];
  }

  /** Whatever the sequence of writes and the limit, the iterator receives exactly the first `n`
      units of the text, in order, and the reported size is that of the whole text. */
  method FormatToIterator<T(0)>(calls: seq<Call<T>>, n: nat) returns (out: seq<T>, total: nat)
    ensures out == Truncated(Text(calls), n) && total == |Text(calls)|
  {
    var buf := new IteratorBuffer<T>(n);
    for i := 0 to |calls|
      invariant fresh(buf) && fresh(buf.data) && buf.limit == n
      invariant buf.Valid() && buf.content == Text(calls[..i])
    {
      TextOfMore(calls, i);
      match calls[i] {
        case Push(v) => buf.PushBack(v);
        case AppendAll(t) => buf.Append(t);
      }
    }
    assert calls[..|calls|] == calls;
    buf.Flush();
    assert buf.content[..buf.count] == buf.content;
    out, total := buf.out, buf.count + buf.size;
  }

  /** The same for the caller's memory, which is not touched behind what was written. */
  method FormatToMemory<T(0)>(calls: seq<Call<T>>, dest: array<T>, n: nat) returns (written: nat, total: nat)
    requires n <= dest.Length
    modifies dest
    ensures written == Min(n, |Text(calls)|) && total == |Text(calls)|
    ensures dest[..] == Truncated(Text(calls), n) + old(dest[..])[written..]
  {
    var buf := new PointerBuffer<T>(dest, n);
    for i := 0 to |calls|
      invariant fresh(buf) && fresh(buf.scratch) && buf.dest == dest && buf.limit == n
      invariant buf.initial == old(dest[..])
      invariant buf.Valid() && buf.content == Text(calls[..i])
    {
      TextOfMore(calls, i);
      match calls[i] {
        case Push(v) => buf.PushBack(v);
        case AppendAll(t) => buf.Append(t);
      }
    }
    assert calls[..|calls|] == calls;
    written, total := buf.Finish();
  }
}
