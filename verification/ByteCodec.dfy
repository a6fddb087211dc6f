/** The big-endian reader and writer of message bodies: integers of 1, 2, 4 and 8 bytes, signed or
    unsigned, and length-prefixed byte strings. */
module ByteCodec {
  import opened Arithmetic
  import opened BigEndian
  import opened Wrappers

  predicate IsWordSize(size: nat) {
    size in {1, 2, 4, 8}
  }

  datatype Field =
    | Unsigned(size: nat)
    | Signed(size: nat)
    | LenPrefixed(size: nat)  // the size of the length

  datatype Value =
    | Num(n: int)
    | Blob(bytes: seq<Byte>)

  /** The values of the C++ type that a field is read into. */
  predicate HasType(f: Field, v: Value) {
    && IsWordSize(f.size)
    && match f
       case Unsigned(size) => v.Num? && 0 <= v.n < Pow256(size)
       case Signed(size) => v.Num? && 0 <= 2 * v.n + Pow256(size) && 2 * v.n < Pow256(size)
       case LenPrefixed(_) => v.Blob?
  }

  /** `std::bit_cast` between an integer and the unsigned integer of its size. */
  function ToUnsignedBits(size: nat, n: int): int {
    if n < 0 then n + Pow256(size) else n
  }

  function FromUnsignedBits(f: Field, raw: nat): int {
    if f.Signed? && 2 * raw >= Pow256(f.size) then raw - Pow256(f.size) else raw
  }

  /** What a write appends, or `None` for a byte string too long for its length. */
  function EncodeField(f: Field, v: Value): Option<seq<Byte>>
    requires HasType(f, v)
  {
    match v
    case Num(n) => Some(Encode(ToUnsignedBits(f.size, n), f.size))
    case Blob(bytes) =>
      if |bytes| >= Pow256(f.size) then None else Some(Encode(|bytes|, f.size) + bytes)
  }

  /** What a read returns, and the offset it leaves. */
  function DecodeField(f: Field, payload: seq<Byte>, offset: nat): (r: (Option<Value>, nat))
    requires offset <= |payload|
    ensures offset <= r.1 <= |payload|
  {
    if |payload| - offset < f.size then (None, offset) else
    var next := offset + f.size;
    var raw := Decode(payload[offset..next]);
    if !f.LenPrefixed? then (Some(Num(FromUnsignedBits(f, raw))), next)
    else if |payload| - next < raw then (None, next)
    else (Some(Blob(payload[next..next + raw])), next + raw)
  }

  predicate Typed(fs: seq<Field>, vs: seq<Value>) {
    |fs| == |vs| && forall i :: 0 <= i < |fs| ==> HasType(fs[i], vs[i])
  }

  function EncodeAll(fs: seq<Field>, vs: seq<Value>): Option<seq<Byte>>
    requires Typed(fs, vs)
  {
    if fs == [] then Some([]) else
    var first, rest := EncodeField(fs[0], vs[0]), EncodeAll(fs[1..], vs[1..]);
    if first.None? || rest.None? then None else Some(first.value + rest.value)
  }

  function DecodeAll(fs: seq<Field>, payload: seq<Byte>, offset: nat): Option<(seq<Value>, nat)>
    requires offset <= |payload|
  {
    if fs == [] then Some(([], offset)) else
    var (v, next) := DecodeField(fs[0], payload, offset);
    if v.None? then None else
    var rest := DecodeAll(fs[1..], payload, next);
    if rest.None? then None else Some(([v.value] + rest.value.0, rest.value.1))
  }

  // ---------- Round trips ----------

  lemma BitsRoundTrip(f: Field, v: Value)
    requires HasType(f, v) && v.Num?
    ensures 0 <= ToUnsignedBits(f.size, v.n) < Pow256(f.size)
    ensures FromUnsignedBits(f, ToUnsignedBits(f.size, v.n)) == v.n
  {
    hide Pow256;
  }

  /** A negative value is sent as its two's complement: the bits are the value modulo the word size. */
  lemma BitsAreTwosComplement(f: Field, v: Value)
    requires HasType(f, v) && v.Num?
    ensures 0 <= ToUnsignedBits(f.size, v.n) < Pow256(f.size)
    ensures ToUnsignedBits(f.size, v.n) == v.n || ToUnsignedBits(f.size, v.n) == v.n + Pow256(f.size)
    ensures FromUnsignedBits(f, ToUnsignedBits(f.size, v.n)) == v.n
  {
    hide Pow256;
    BitsRoundTrip(f, v);
  }

  lemma WordIsEven(size: nat)
    requires size >= 1
    ensures Pow256(size) % 2 == 0 && Pow256(size) > 0
  {
    PowPositive(size - 1);
  }

  lemma PowPositive(k: nat)
    ensures Pow256(k) > 0
  {
  }

  lemma RawRoundTrip(f: Field, raw: nat)
    requires IsWordSize(f.size) && !f.LenPrefixed? && raw < Pow256(f.size)
    ensures var n := FromUnsignedBits(f, raw); HasType(f, Num(n)) && ToUnsignedBits(f.size, n) == raw
  {
    hide Pow256;
    WordIsEven(f.size);
  }

  /** Reading what a write appended gives the value back and consumes exactly those bytes, whatever
      stands before and after. */
  lemma FieldRoundTrip(f: Field, v: Value, before: seq<Byte>, after: seq<Byte>)
    requires HasType(f, v) && EncodeField(f, v).Some?
    ensures var bytes := EncodeField(f, v).value;
      DecodeField(f, before + bytes + after, |before|) == (Some(v), |before| + |bytes|)
  {
    hide Decode, Encode, Pow256;
    var bytes := EncodeField(f, v).value;
    var p := before + bytes + after;
    assert p[|before|..|before| + f.size] == bytes[..f.size];
    if v.Num? {
      BitsRoundTrip(f, v);
      DecodeEncode(ToUnsignedBits(f.size, v.n), f.size);
      assert bytes[..f.size] == bytes;
    } else {
      DecodeEncode(|v.bytes|, f.size);
      assert bytes[..f.size] == Encode(|v.bytes|, f.size);
      assert p[|before| + f.size..|before| + |bytes|] == v.bytes;
    }
  }

  /** A successful read re-writes to exactly the bytes it consumed. */
  lemma ReadRewrites(f: Field, payload: seq<Byte>, offset: nat)
    requires IsWordSize(f.size) && offset <= |payload| && DecodeField(f, payload, offset).0.Some?
    ensures var (v, next) := DecodeField(f, payload, offset);
      && HasType(f, v.value)
      && EncodeField(f, v.value) == Some(payload[offset..next])
  {
    hide Decode, Encode, Pow256;
    var word := payload[offset..offset + f.size];
    EncodeDecode(word);
    var next := DecodeField(f, payload, offset).1;
    if f.LenPrefixed? {
      assert payload[offset..next] == word + payload[offset + f.size..next];
    } else {
      RawRoundTrip(f, Decode(word));
    }
  }

  /** Reading back a whole message. */
  lemma {:induction false} MessageRoundTrip(fs: seq<Field>, vs: seq<Value>, before: seq<Byte>, after: seq<Byte>)
    requires Typed(fs, vs) && EncodeAll(fs, vs).Some?
    ensures var bytes := EncodeAll(fs, vs).value;
      DecodeAll(fs, before + bytes + after, |before|) == Some((vs, |before| + |bytes|))
  {
    hide EncodeField, DecodeField, HasType;
    var bytes := EncodeAll(fs, vs).value;
    if fs == [] {
    } else {
      var first, rest := EncodeField(fs[0], vs[0]).value, EncodeAll(fs[1..], vs[1..]).value;
      FieldRoundTrip(fs[0], vs[0], before, rest + after);
      assert before + bytes + after == before + first + (rest + after);
      MessageRoundTrip(fs[1..], vs[1..], before + first, after);
      assert before + bytes + after == (before + first) + rest + after;
      assert vs == [vs[0]] + vs[1..];
    }
  }

  /** A message that is read re-writes to exactly the bytes it took. */
  lemma {:induction false} MessageRewrites(fs: seq<Field>, payload: seq<Byte>, offset: nat)
    requires (forall f <- fs :: IsWordSize(f.size)) && offset <= |payload| && DecodeAll(fs, payload, offset).Some?
    ensures var (vs, next) := DecodeAll(fs, payload, offset).value;
      && Typed(fs, vs) && offset <= next <= |payload|
      && EncodeAll(fs, vs) == Some(payload[offset..next])
  {
    hide EncodeField, DecodeField, HasType;
    if fs == [] {
      assert payload[offset..offset] == [];
    } else {
      var (v, mid) := DecodeField(fs[0], payload, offset);
      ReadRewrites(fs[0], payload, offset);
      MessageRewrites(fs[1..], payload, mid);
      var (vs, next) := DecodeAll(fs, payload, offset).value;
      assert vs[1..] == DecodeAll(fs[1..], payload, mid).value.0;
      assert payload[offset..next] == payload[offset..mid] + payload[mid..next];
    }
  }

  // ---------- The reader ----------

  class Reader {
    const payload: seq<Byte>
    var offset: nat

    ghost predicate Valid()
      reads this
    {
      offset <= |payload|
    }

    constructor (payload: seq<Byte>)
      ensures Valid() && this.payload == payload && offset == 0
    {
      this.payload := payload;
      offset := 0;
    }

    predicate CanRead(length: nat)
      reads this
    {
      offset <= |payload| && |payload| - offset >= length
    }

    /** The byte loop: shift left by eight, insert the next byte, truncate to the type. */
    method ReadUnsigned(size: nat) returns (out: Option<nat>)
      requires Valid()
      modifies `offset
      ensures Valid()
      ensures out.Some? <==> |payload| - old(offset) >= size
      ensures out.Some? ==> offset == old(offset) + size && out.value == Decode(payload[old(offset)..offset])
      ensures out.None? ==> offset == old(offset)
    {
      if !CanRead(size) {
        return None;
      }
      hide Decode, Pow256;
      var value := 0;
      EmptyDecodes();
      ghost var word := payload[offset..offset + size];
      for i := 0 to size
        invariant offset == old(offset)
        invariant value == Decode(word[..i])
      {
        NextByteFits(word, i);
        value := (value * 256 + payload[offset + i]) % Pow256(size);
      }
      assert word[..size] == word;
      offset := offset + size;
      out := Some(value);
    }

    /** `Read` and `ReadLenPrefixed`.  A failed read leaves the offset where it was, unless the
        length of a byte string was read and its bytes are missing. */
    method ReadField(f: Field) returns (out: Option<Value>)
      requires Valid()
      modifies `offset
      ensures Valid()
      ensures (out, offset) == DecodeField(f, payload, old(offset))
      ensures out.None? ==>
        (offset != old(offset) <==> f.LenPrefixed? && f.size > 0 && |payload| - old(offset) >= f.size)
    {
      var raw := ReadUnsigned(f.size);
      if raw.None? {
        return None;
      }
      if !f.LenPrefixed? {
        return Some(Num(FromUnsignedBits(f, raw.value)));
      }
      if !CanRead(raw.value) {
        return None;
      }
      var bytes := payload[offset..offset + raw.value];
      offset := offset + raw.value;
      out := Some(Blob(bytes));
    }
  }

  lemma EmptyDecodes()
    ensures Decode([]) == 0
  {
  }

  /** Truncation to the type never cuts a value that is still being read. */
  lemma NextByteFits(word: seq<Byte>, i: nat)
    requires i < |word|
    ensures Pow256(|word|) > 0
    ensures (Decode(word[..i]) * 256 + word[i]) % Pow256(|word|) == Decode(word[..i + 1])
  {
    assert word[..i + 1][..i] == word[..i];
    EncodeDecode(word[..i + 1]);
    PowGrows(i + 1, |word|);
    DivModUnique(Decode(word[..i + 1]), Pow256(|word|), 0, Decode(word[..i + 1]));
  }

  lemma {:induction false} PowGrows(i: nat, j: nat)
    requires i <= j
    ensures 0 < Pow256(i) <= Pow256(j)
  {
    if i < j {
      PowGrows(i, j - 1);
    } else {
      PowPositive(i);
    }
  }

  // ---------- The writer ----------

  /** The bytes of an encoding, by position. */
  lemma {:induction false} EncodeAt(n: nat, size: nat, i: nat)
    requires i < size
    ensures Pow256(size - 1 - i) > 0 && Encode(n, size)[i] == n / Pow256(size - 1 - i) % 256
    decreases size
  {
    PowPositive(size - 1 - i);
    if i == size - 1 {
    } else {
      EncodeAt(n / 256, size - 1, i);
      DivTwice(n, Pow256(size - 2 - i));
    }
  }

  lemma DivTwice(n: nat, p: nat)
    requires p > 0
    ensures n / 256 / p == n / (256 * p)
  {
    var q, r := n / 256 / p, n / 256 % p;
    assert n / 256 == q * p + r;
    calc {
      n;
      256 * (q * p + r) + n % 256;
      q * (256 * p) + (256 * r + n % 256);
    }
    DivModUnique(n, 256 * p, q, 256 * r + n % 256);
  }

  class Writer {
    var payload: seq<Byte>

    constructor (payload: seq<Byte>)
      ensures this.payload == payload
    {
      this.payload := payload;
    }

    /** The byte loop: shift right, take the low byte, append. */
    method WriteUnsigned(value: nat, size: nat)
      modifies this
      ensures payload == old(payload) + Encode(value, size)
    {
      hide Encode, Pow256;
      ghost var all := Encode(value, size);
      for i := 0 to size
        invariant payload == old(payload) + all[..i]
      {
        EncodeAt(value, size, i);
        assert all[..i + 1] == all[..i] + [all[i]];
        payload := payload + [value / Pow256(size - 1 - i) % 256];
      }
      assert all[..size] == all;
    }

    /** `Write` and `WriteLenPrefixed`: a rejected write leaves the payload unchanged. */
    method WriteField(f: Field, v: Value) returns (ok: bool)
      requires HasType(f, v)
      modifies this
      ensures ok <==> EncodeField(f, v).Some?
      ensures payload == if ok then old(payload) + EncodeField(f, v).value else old(payload)
    {
      hide Encode, Pow256;
      match v {
        case Num(n) =>
          WriteUnsigned(ToUnsignedBits(f.size, n), f.size);
          ok := true;
        case Blob(bytes) =>
          if |bytes| >= Pow256(f.size) {
            return false;
          }
          WriteUnsigned(|bytes|, f.size);
          payload := payload + bytes;
          ok := true;
      }
    }
  }
}
