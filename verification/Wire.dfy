/** The frame format of the TCP protocol: a ten-byte header and a body. */
module Wire {
  import opened Sequences
  import opened BigEndian

  const HEADER_SIZE: nat := 10
  const MAX_BODY_SIZE: nat := 2 * 1024 * 1024

  const PING: nat := 0
  const PONG: nat := 1
  const LOGIN: nat := 2
  const RECEIVING: nat := 3
  const TYPE_CNT: nat := 4

  const V1: nat := 1
  const LATEST: nat := V1
  const MIN_SUPPORTED: nat := V1

  predicate IsSupportedVersion(version: nat) {
    MIN_SUPPORTED <= version <= LATEST
  }

  predicate IsSupported(service: nat, version: nat) {
    IsSupportedVersion(version) && service in {PING, PONG, LOGIN, RECEIVING} && version == V1
  }

  /** Both tests together leave version 1 of the four service codes below the count. */
  lemma SupportedIff(service: nat, version: nat)
    ensures IsSupported(service, version) <==> service < TYPE_CNT && version == 1
  {
  }

  /** A frame as `SendFrame` is asked to send it.  An absent body and an empty one are the same. */
  datatype Frame = Frame(service: nat, version: nat, body: seq<Byte>)

  /** The fields of the header are 4, 4 and 2 bytes; the body size is cast to 32 bits. */
  function Header(f: Frame): (h: seq<Byte>)
    ensures |h| == HEADER_SIZE
  {
    Encode(f.service, 4) + Encode(|f.body| % 0x1_0000_0000, 4) + Encode(f.version, 2)
  }

  function Serialize(f: Frame): seq<Byte> {
    Header(f) + f.body
  }

  function SerializeAll(fs: seq<Frame>): seq<Byte> {
    if fs == [] then [] else Serialize(fs[0]) + SerializeAll(fs[1..])
  }

  /** The frames the receiving side accepts. */
  predicate WellFormed(f: Frame) {
    && IsSupported(f.service, f.version)
    && if f.service == PING || f.service == PONG then f.body == [] else 1 <= |f.body| <= MAX_BODY_SIZE
  }

  lemma {:induction false} SerializeAllAppend(fs: seq<Frame>, gs: seq<Frame>)
    ensures SerializeAll(fs + gs) == SerializeAll(fs) + SerializeAll(gs)
  {
    hide Serialize;
    if fs == [] {
      assert fs + gs == gs;
    } else {
      SerializeAllAppend(fs[1..], gs);
      assert (fs + gs)[1..] == fs[1..] + gs;
      Associative(Serialize(fs[0]), SerializeAll(fs[1..]), SerializeAll(gs));
    }
  }

  lemma SerializeAllOne(f: Frame)
    ensures SerializeAll([f]) == Serialize(f)
  {
    assert SerializeAll([f][1..]) == [];
  }

  /** The layout on the wire: big-endian service, body size and version, then the body. */
  lemma HeaderLayout(f: Frame)
    requires f.service < 0x1_0000_0000 && f.version < 0x1_0000 && |f.body| < 0x1_0000_0000
    ensures var s := Serialize(f);
      && |s| == HEADER_SIZE + |f.body| && s[HEADER_SIZE..] == f.body
      && Decode(s[..4]) == f.service && Decode(s[4..8]) == |f.body| && Decode(s[8..10]) == f.version
  {
    hide Encode, Decode;
    var s := Serialize(f);
    assert s[..4] == Encode(f.service, 4);
    assert s[4..8] == Encode(|f.body|, 4);
    assert s[8..10] == Encode(f.version, 2);
    WordSizes();
    DecodeEncode(f.service, 4);
    DecodeEncode(|f.body|, 4);
    DecodeEncode(f.version, 2);
  }
}
