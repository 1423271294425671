/** The RLP encoding of an unsigned 64-bit integer, used for the message code of a frame. */
module Rlp {
  import opened Common
  import opened Bytes

  const UINT64: nat := 0x1_0000_0000_0000_0000

  function EncodeUint(n: nat): bytes
    requires n < UINT64
  {
    UintFits(n);
    if 0 < n < 128 then [Byte(n)] else [Byte(0x80 + |ToBytes(n)|)] + ToBytes(n)
  }

  lemma UintFits(n: nat)
    requires n < UINT64
    ensures |ToBytes(n)| <= 8
  {
    ToBytesLength(n, 8);
    assert Pow256(8) == UINT64 by {
      assert Pow256(2) == 65536;
      assert Pow256(4) == 256 * (256 * Pow256(2));
      assert Pow256(6) == 256 * (256 * Pow256(4));
      assert Pow256(8) == 256 * (256 * Pow256(6));
    }
  }

  datatype Decoded = Decoded(value: nat, rest: bytes)

  /** Read one canonical unsigned integer from the front of a stream. */
  function DecodeUint(s: bytes): Option<Decoded> {
    if s == [] then None
    else
      var b := s[0] as int;
      if b < 0x80 then
        if b == 0 then None else Some(Decoded(b, s[1..]))
      else if b > 0x88 || |s| < 1 + (b - 0x80) then None
      else
        var body := s[1..1 + (b - 0x80)];
        if body != [] && body[0] == 0 then None
        else if |body| == 1 && body[0] as int < 0x80 then None
        else Some(Decoded(FromBytes(body), s[1 + (b - 0x80)..]))
  }

  /** An encoded integer is a prefix code: whatever follows it, decoding returns the integer
      and exactly what follows. */
  lemma DecodeEncode(n: nat, rest: bytes)
    requires n < UINT64
    ensures DecodeUint(EncodeUint(n) + rest) == Some(Decoded(n, rest))
  {
    UintFits(n);
    var e := EncodeUint(n);
    var s := e + rest;
    assert s[|e|..] == rest;
    if !(0 < n < 128) {
      var body := ToBytes(n);
      assert s[1..1 + |body|] == body;
      FromToBytes(n);
      ToBytesLength(n, 1);
      assert Pow256(1) == 256;
      if |body| == 1 {
        SingleByte(n);
      }
    }
  }

  lemma SingleByte(n: nat)
    requires |ToBytes(n)| == 1
    ensures ToBytes(n)[0] as int == n
  {
    ToBytesLength(n, 1);
    assert Pow256(1) == 256;
    assert n / 256 == 0;
  }

  /** A proper prefix of an encoded integer does not decode. */
  lemma TruncatedFails(n: nat, k: nat)
    requires n < UINT64 && k < |EncodeUint(n)|
    ensures DecodeUint(EncodeUint(n)[..k]) == None
  {
    UintFits(n);
    if 0 < k {
      assert EncodeUint(n)[..k][0] == EncodeUint(n)[0];
    }
  }

  lemma ByteOf(b: byte, x: int)
    requires b as int == x
    ensures 0 <= x < 256 && Byte(x) == b
  {
    ByteInjective(Byte(x), b);
  }

  lemma LongEncoding(head: byte, body: bytes)
    requires |body| <= 8 && head as int == 0x80 + |body|
    requires (body != [] ==> body[0] != 0) && (|body| == 1 ==> body[0] as int >= 0x80)
    ensures FromBytes(body) < UINT64 && EncodeUint(FromBytes(body)) == [head] + body
  {
    hide ToBytes, FromBytes, Pow256;
    FromBytesBound(body);
    EightBytes(|body|);
    CanonicalBody(body);
    ByteOf(head, 0x80 + |body|);
  }

  lemma ShortEncoding(head: byte, x: int)
    requires head as int == x && 0 < x < 128
    ensures EncodeUint(x) == [head]
  {
    hide ToBytes;
    ByteOf(head, x);
  }

  /** Only canonical encodings decode: what was read is the encoding of the value, so together with
      `DecodeEncode` a stream decodes exactly if it starts with an encoding. */
  lemma DecodesOnlyEncodings(s: bytes)
    requires DecodeUint(s).Some?
    ensures var d := DecodeUint(s).value;
            d.value < UINT64 && s == EncodeUint(d.value) + d.rest
  {
    hide EncodeUint, FromBytes;
    var b := s[0] as int;
    if b < 0x80 {
      ShortEncoding(s[0], b);
      assert s == [s[0]] + s[1..];
    } else {
      var k := b - 0x80;
      LongEncoding(s[0], s[1..1 + k]);
      assert s == [s[0]] + s[1..1 + k] + s[1 + k..];
    }
  }

  lemma EightBytes(k: nat)
    requires k <= 8
    ensures Pow256(k) <= UINT64
  {
    Pow256Monotone(k, 8);
    UintFits(UINT64 - 1);
    ToBytesLength(UINT64 - 1, 8);
    assert Pow256(2) == 65536;
    assert Pow256(4) == 256 * (256 * Pow256(2));
    assert Pow256(6) == 256 * (256 * Pow256(4));
    assert Pow256(8) == 256 * (256 * Pow256(6));
  }

  /** A body without leading zero that is not a single small byte is the body of its number. */
  lemma CanonicalBody(body: bytes)
    requires body != [] ==> body[0] != 0
    requires |body| == 1 ==> body[0] as int >= 0x80
    ensures ToBytes(FromBytes(body)) == body && !(0 < FromBytes(body) < 128)
  {
    if body != [] {
      ToFromBytes(body);
      if |body| == 1 {
        SingleByte(FromBytes(body));
      } else {
        LeadingByte(body);
        Pow256Monotone(1, |body| - 1);
        assert Pow256(1) == 256;
      }
    }
  }
}
