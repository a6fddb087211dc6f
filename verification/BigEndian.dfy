/** Unsigned integers as big-endian bytes: the byte loops of the codec and the header fields. */
module BigEndian {
  type Byte = b: int | 0 <= b < 256

  function Pow256(k: nat): nat {
    if k == 0 then 1 else 256 * Pow256(k - 1)
  }

  function Decode(s: seq<Byte>): nat {
    if s == [] then 0 else 256 * Decode(s[..|s| - 1]) + s[|s| - 1]
  }

  /** The `size` low bytes of `n`, most significant first. */
  function Encode(n: nat, size: nat): (s: seq<Byte>)
    ensures |s| == size
  {
    if size == 0 then [] else Encode(n / 256, size - 1) + [n % 256]
  }

  lemma {:induction false} DecodeEncode(n: nat, size: nat)
    requires n < Pow256(size)
    ensures Decode(Encode(n, size)) == n
  {
    if size == 0 {
    } else {
      DecodeEncode(n / 256, size - 1);
      assert Encode(n, size)[..size - 1] == Encode(n / 256, size - 1);
    }
  }

  lemma {:induction false} EncodeDecode(s: seq<Byte>)
    ensures Decode(s) < Pow256(|s|)
    ensures Encode(Decode(s), |s|) == s
  {
    if s == [] {
    } else {
      EncodeDecode(s[..|s| - 1]);
      assert s == s[..|s| - 1] + [s[|s| - 1]];
    }
  }

  lemma WordSizes()
    ensures Pow256(1) == 0x100 && Pow256(2) == 0x1_0000 && Pow256(4) == 0x1_0000_0000
    ensures Pow256(8) == 0x1_0000_0000_0000_0000
  {
    assert Pow256(4) == 0x1_0000 * Pow256(2);
    assert Pow256(6) == 0x1_0000 * Pow256(4);
    assert Pow256(8) == 0x1_0000 * Pow256(6);
  }
}
