/** RLPx frames: encryption with a running keystream and authentication with a running MAC,
    as functions of the cipher state ("Framing" and "MAC" sections of the RLPx Transport
    Protocol specification). */
module Frames {
  import opened Common
  import opened Bytes
  import opened Rlp

  const MAX_UINT24: nat := 0xFF_FFFF
  const UINT32: nat := 0x1_0000_0000

  /** The primitives keyed by one connection's secrets: the CTR keystream by position, the
      Keccak sum of everything absorbed, one AES block, and snappy. */
  datatype Crypto = Crypto(
    stream: nat -> byte,
    sum: bytes -> bytes,
    block: bytes -> bytes,
    compress: bytes -> bytes,
    decompress: bytes -> Option<bytes>)

  ghost predicate ValidCrypto(c: Crypto) {
    && (forall x :: |c.sum(x)| == 32)
    && (forall x :: |c.block(x)| == 16)
    && (forall p :: c.decompress(c.compress(p)) == Some(p))
    && (forall p :: |c.compress(p)| <= 32 + |p| + |p| / 6)
  }

  /** One direction of a connection: keystream position and absorbed MAC input. */
  datatype Lane = Lane(pos: nat, mac: bytes)

  // ------------------------------------------------------------------ primitives

  /** XOR with the keystream from position `pos` on. */
  function Cipher(c: Crypto, pos: nat, data: bytes): (r: bytes)
    ensures |r| == |data|
    ensures forall i :: 0 <= i < |data| ==> r[i] == data[i] ^ c.stream(pos + i)
  {
    seq(|data|, i requires 0 <= i < |data| => data[i] ^ c.stream(pos + i))
  }

  lemma XorTwice(a: byte, k: byte)
    ensures (a ^ k) ^ k == a
  {
  }

  /** Decryption is the same operation at the same position. */
  lemma CipherTwice(c: Crypto, pos: nat, data: bytes)
    ensures Cipher(c, pos, Cipher(c, pos, data)) == data
  {
    var e := Cipher(c, pos, data);
    forall i | 0 <= i < |data|
      ensures Cipher(c, pos, e)[i] == data[i]
    {
      XorTwice(data[i], c.stream(pos + i));
    }
  }

  /** Encrypting in pieces is encrypting at once. */
  lemma CipherAppend(c: Crypto, pos: nat, a: bytes, b: bytes)
    ensures Cipher(c, pos, a + b) == Cipher(c, pos, a) + Cipher(c, pos + |a|, b)
  {
  }

  function Xor(a: byte, b: byte): byte { a ^ b }

  function XorBytes(a: bytes, b: bytes): (r: bytes)
    requires |a| <= |b|
    ensures |r| == |a| && forall i :: 0 <= i < |a| ==> r[i] == Xor(a[i], b[i])
  {
    seq(|a|, i requires 0 <= i < |a| => Xor(a[i], b[i]))
  }

  datatype Tagged = Tagged(mac: bytes, tag: bytes)

  /** `updateMAC`: absorb the encrypted state xor the seed; the tag is half the new sum. */
  function UpdateMAC(c: Crypto, mac: bytes, seed: bytes): (t: Tagged)
    requires ValidCrypto(c) && |seed| >= 16
    ensures |t.tag| == 16
  {
    var mac' := mac + XorBytes(c.block(c.sum(mac)[..16]), seed);
    Tagged(mac', c.sum(mac')[..16])
  }

  function PutInt24(v: nat): (b: bytes)
    requires v <= MAX_UINT24
    ensures |b| == 3
  {
    [Byte(v / 65536), Byte(v / 256 % 256), Byte(v % 256)]
  }

  function ReadInt24(b: bytes): (v: nat)
    requires |b| >= 3
    ensures v <= MAX_UINT24
  {
    b[0] as nat * 65536 + b[1] as nat * 256 + b[2] as nat
  }

  lemma Int24RoundTrip(v: nat, rest: bytes)
    requires v <= MAX_UINT24
    ensures ReadInt24(PutInt24(v) + rest) == v
  {
    var b := PutInt24(v) + rest;
    assert b[0] as nat == v / 65536 && b[1] as nat == v / 256 % 256 && b[2] as nat == v % 256;
    assert v / 65536 == v / 256 / 256;
  }

  /** The bytes that round a frame of `fsize` up to a multiple of 16. */
  function Padding(fsize: nat): (n: nat)
    ensures (fsize + n) % 16 == 0 && n < 16
  {
    if fsize % 16 > 0 then 16 - fsize % 16 else 0
  }

  // ---------------------------------------------------------------------- frames

  function PlainHeader(fsize: nat): (h: bytes)
    requires fsize <= MAX_UINT24
    ensures |h| == 16
  {
    PutInt24(fsize) + [0xC2, 0x80, 0x80] + Zeros(10)
  }

  datatype Sent = Sent(wire: bytes, lane: Lane)

  /** What is put on the wire for a frame whose header says `fsize`, and the writer's next state. */
  function WriteFrame(c: Crypto, w: Lane, fsize: nat, content: bytes): Sent
    requires ValidCrypto(c) && fsize <= MAX_UINT24
  {
    var head := Cipher(c, w.pos, PlainHeader(fsize));
    var t1 := UpdateMAC(c, w.mac, head);
    var body := Cipher(c, w.pos + 16, content + Zeros(Padding(fsize)));
    var mac2 := t1.mac + body;
    var t2 := UpdateMAC(c, mac2, c.sum(mac2));
    Sent(head + t1.tag + body + t2.tag, Lane(w.pos + 16 + |body|, t2.mac))
  }

  datatype ReadError = UnexpectedEOF | BadHeaderMAC | BadFrameMAC | BadCode | BadSnappy | TooLarge

  /** The outcome of a read, with the bytes it left unread and the state it left behind. A read
      that runs out of bytes has used them all up. */
  datatype Received<T> =
    | Received(value: T, rest: bytes, lane: Lane)
    | Failed(error: ReadError, rest: bytes, lane: Lane)

  /** Read one frame from `wire`. */
  function ReadFrame(c: Crypto, r: Lane, wire: bytes): Received<bytes>
    requires ValidCrypto(c)
  {
    if |wire| < 32 then Failed(UnexpectedEOF, [], r)
    else
      var head := wire[..16];
      var t1 := UpdateMAC(c, r.mac, head);
      if t1.tag != wire[16..32] then Failed(BadHeaderMAC, wire[32..], Lane(r.pos, t1.mac))
      else
        var fsize := ReadInt24(Cipher(c, r.pos, head));
        var rsize := fsize + Padding(fsize);
        if |wire| < 32 + rsize then Failed(UnexpectedEOF, [], Lane(r.pos + 16, t1.mac))
        else
          var body := wire[32..32 + rsize];
          var mac2 := t1.mac + body;
          if |wire| < 32 + rsize + 16 then Failed(UnexpectedEOF, [], Lane(r.pos + 16, mac2))
          else
            var t2 := UpdateMAC(c, mac2, c.sum(mac2));
            var rest := wire[32 + rsize + 16..];
            if t2.tag != wire[32 + rsize..32 + rsize + 16] then
              Failed(BadFrameMAC, rest, Lane(r.pos + 16, t2.mac))
            else
              Received(Cipher(c, r.pos + 16, body)[..fsize], rest, Lane(r.pos + 16 + rsize, t2.mac))
  }

  /** A reader in the writer's state reads the frame back and ends in the writer's next state. */
  lemma FrameRoundTrip(c: Crypto, w: Lane, content: bytes, rest: bytes)
    requires ValidCrypto(c) && |content| <= MAX_UINT24
    ensures var sent := WriteFrame(c, w, |content|, content);
            ReadFrame(c, w, sent.wire + rest) == Received(content, rest, sent.lane)
  {
    hide Cipher, UpdateMAC, ReadInt24, Padding, PlainHeader;
    var fsize := |content|;
    var sent := WriteFrame(c, w, fsize, content);
    var wire := sent.wire + rest;
    var head := Cipher(c, w.pos, PlainHeader(fsize));
    var t1 := UpdateMAC(c, w.mac, head);
    var body := Cipher(c, w.pos + 16, content + Zeros(Padding(fsize)));
    var mac2 := t1.mac + body;
    var t2 := UpdateMAC(c, mac2, c.sum(mac2));
    var rsize := fsize + Padding(fsize);
    WireParts(head, t1.tag, body, t2.tag, rest);
    assert wire == head + t1.tag + body + t2.tag + rest;
    HeaderRoundTrip(c, w.pos, fsize);
    CipherTwice(c, w.pos + 16, content + Zeros(Padding(fsize)));
    assert (content + Zeros(Padding(fsize)))[..fsize] == content;
  }

  lemma WireParts(a: bytes, b: bytes, d: bytes, e: bytes, rest: bytes)
    requires |a| == 16 && |b| == 16 && |e| == 16
    ensures var wire := a + b + d + e + rest;
            && wire[..16] == a && wire[16..32] == b && wire[32..32 + |d|] == d
            && wire[32 + |d|..32 + |d| + 16] == e && wire[32 + |d| + 16..] == rest
  {
  }

  // -------------------------------------------------------- what the tags bind

  lemma XorInjective(a: byte, x: byte, y: byte)
    requires Xor(a, x) == Xor(a, y)
    ensures x == y
  {
    assert a ^ (a ^ x) == x && a ^ (a ^ y) == y;
  }

  lemma XorAt(k: bytes, s1: bytes, s2: bytes, i: nat)
    requires i < |k| <= |s1| && |k| <= |s2| && XorBytes(k, s1) == XorBytes(k, s2)
    ensures s1[i] == s2[i]
  {
    hide Xor;
    assert XorBytes(k, s1)[i] == XorBytes(k, s2)[i];
    XorInjective(k[i], s1[i], s2[i]);
  }

  lemma SameXor(k: bytes, s1: bytes, s2: bytes)
    requires |k| <= |s1| && |k| <= |s2| && forall i :: 0 <= i < |k| ==> s1[i] == s2[i]
    ensures XorBytes(k, s1) == XorBytes(k, s2)
  {
    hide Xor;
    var x1, x2 := XorBytes(k, s1), XorBytes(k, s2);
    assert forall i :: 0 <= i < |k| ==> x1[i] == x2[i];
  }

  lemma XorBytesSame(k: bytes, s1: bytes, s2: bytes)
    requires |k| == 16 && |s1| >= 16 && |s2| >= 16
    ensures XorBytes(k, s1) == XorBytes(k, s2) <==> s1[..16] == s2[..16]
  {
    if s1[..16] == s2[..16] {
      forall i | 0 <= i < 16
        ensures s1[i] == s2[i]
      {
        assert s1[..16][i] == s2[..16][i];
      }
      SameXor(k, s1, s2);
    } else if XorBytes(k, s1) == XorBytes(k, s2) {
      forall i | 0 <= i < 16
        ensures s1[i] == s2[i]
      {
        XorAt(k, s1, s2, i);
      }
    }
  }

  lemma AppendSame(a: bytes, x: bytes, y: bytes)
    ensures a + x == a + y <==> x == y
  {
    assert (a + x)[|a|..] == x && (a + y)[|a|..] == y;
  }

  /** The next MAC state is as different as the first 16 bytes of the seeds. */
  lemma MacStateBindsSeed(c: Crypto, mac: bytes, s1: bytes, s2: bytes)
    requires ValidCrypto(c) && |s1| >= 16 && |s2| >= 16
    ensures UpdateMAC(c, mac, s1).mac == UpdateMAC(c, mac, s2).mac <==> s1[..16] == s2[..16]
  {
    hide XorBytes;
    var k := c.block(c.sum(mac)[..16]);
    XorBytesSame(k, s1, s2);
    AppendSame(mac, XorBytes(k, s1), XorBytes(k, s2));
  }

  /** Two different inputs whose sums agree on the bytes that become tags. */
  predicate Collide(c: Crypto, x: bytes, y: bytes) {
    x != y && Half(c, x) == Half(c, y)
  }

  function Half(c: Crypto, x: bytes): bytes {
    var s := c.sum(x);
    if |s| < 16 then s else s[..16]
  }

  lemma TagBindsState(c: Crypto, mac1: bytes, s1: bytes, mac2: bytes, s2: bytes)
    requires ValidCrypto(c) && |s1| >= 16 && |s2| >= 16
    requires UpdateMAC(c, mac1, s1).tag == UpdateMAC(c, mac2, s2).tag
    ensures var x, y := UpdateMAC(c, mac1, s1).mac, UpdateMAC(c, mac2, s2).mac;
            x == y || Collide(c, x, y)
  {
  }

  /** What has been absorbed after a header. */
  function HeaderState(c: Crypto, r: Lane, head: bytes): bytes
    requires ValidCrypto(c) && |head| >= 16
  {
    UpdateMAC(c, r.mac, head).mac
  }

  /** Equal header tags from one state mean equal headers, or the sums of the two states collide. */
  lemma TagBindsHeader(c: Crypto, r: Lane, h1: bytes, h2: bytes)
    requires ValidCrypto(c) && |h1| == |h2| == 16
    requires UpdateMAC(c, r.mac, h1).tag == UpdateMAC(c, r.mac, h2).tag
    ensures h1 == h2 || Collide(c, HeaderState(c, r, h1), HeaderState(c, r, h2))
  {
    hide UpdateMAC, Collide;
    TagBindsState(c, r.mac, h1, r.mac, h2);
    MacStateBindsSeed(c, r.mac, h1, h2);
    assert h1[..16] == h1 && h2[..16] == h2;
  }

  /** The state after absorbing a body and tagging it determines the body. */
  lemma BodyBound(c: Crypto, mac: bytes, b1: bytes, b2: bytes)
    requires ValidCrypto(c) && |b1| == |b2|
    requires var m1, m2 := mac + b1, mac + b2; UpdateMAC(c, m1, c.sum(m1)).mac == UpdateMAC(c, m2, c.sum(m2)).mac
    ensures b1 == b2
  {
    var m1, m2 := mac + b1, mac + b2;
    var t1, t2 := UpdateMAC(c, m1, c.sum(m1)), UpdateMAC(c, m2, c.sum(m2));
    assert t1.mac[..|m1|] == m1 && t2.mac[..|m2|] == m2;
    assert m1[|mac|..] == b1 && m2[|mac|..] == b2;
  }

  /** What a successful read took from the wire, and the two tags in it. */
  function Taken(wire: bytes, rest: bytes): bytes {
    if |rest| <= |wire| then wire[..|wire| - |rest|] else []
  }

  predicate SameTags(t1: bytes, t2: bytes) {
    |t1| >= 48 && |t2| >= 48 && t1[16..32] == t2[16..32] && t1[|t1| - 16..] == t2[|t2| - 16..]
  }

  /** How a frame that is read lies on the wire. */
  lemma ReadParts(c: Crypto, r: Lane, wire: bytes)
    requires ValidCrypto(c) && ReadFrame(c, r, wire).Received?
    ensures var got := ReadFrame(c, r, wire);
            && |wire| >= 48 + |got.rest|
            && var t := Taken(wire, got.rest);
               var fsize := ReadInt24(Cipher(c, r.pos, t[..16]));
               var rsize := fsize + Padding(fsize);
            && |t| == 48 + rsize && wire == t + got.rest
            && var t1 := UpdateMAC(c, r.mac, t[..16]);
               var mac2 := t1.mac + t[32..32 + rsize];
            && t[16..32] == t1.tag && t[|t| - 16..] == UpdateMAC(c, mac2, c.sum(mac2)).tag
            && got.value == Cipher(c, r.pos + 16, t[32..32 + rsize])[..fsize]
            && got.lane == Lane(r.pos + 16 + rsize, UpdateMAC(c, mac2, c.sum(mac2)).mac)
  {
    hide Cipher, UpdateMAC, ReadInt24, Padding;
    var got := ReadFrame(c, r, wire);
    var fsize := ReadInt24(Cipher(c, r.pos, wire[..16]));
    var rsize := fsize + Padding(fsize);
    var t := Taken(wire, got.rest);
    assert |t| == 48 + rsize;
    assert t[..16] == wire[..16] && t[16..32] == wire[16..32] && t[32..32 + rsize] == wire[32..32 + rsize];
    assert t[|t| - 16..] == wire[32 + rsize..32 + rsize + 16];
  }

  /** How many bytes of body follow a header that was read. */
  function BodySize(c: Crypto, r: Lane, head: bytes): nat
    requires |head| == 16
  {
    var fsize := ReadInt24(Cipher(c, r.pos, head));
    fsize + Padding(fsize)
  }

  /** When a read fails, and what it leaves: short of a header and its tag, short of the body or of its tag, everything
      has been read; a wrong tag is found after 32 bytes, or after the whole frame. */
  lemma ReadFailures(c: Crypto, r: Lane, wire: bytes)
    requires ValidCrypto(c)
    ensures var got := ReadFrame(c, r, wire);
            if |wire| <= 31 then got == Failed(UnexpectedEOF, [], r)
            else
              var t1 := UpdateMAC(c, r.mac, wire[..16]);
              var n := BodySize(c, r, wire[..16]);
              if wire[16..32] != t1.tag then got == Failed(BadHeaderMAC, wire[32..], Lane(r.pos, t1.mac))
              else if |wire| <= 31 + n then got == Failed(UnexpectedEOF, [], Lane(r.pos + 16, t1.mac))
              else
                var mac2 := t1.mac + wire[32..32 + n];
                if |wire| <= 47 + n then got == Failed(UnexpectedEOF, [], Lane(r.pos + 16, mac2))
                else
                  var t2 := UpdateMAC(c, mac2, c.sum(mac2));
                  if wire[32 + n..48 + n] != t2.tag
                  then got == Failed(BadFrameMAC, wire[48 + n..], Lane(r.pos + 16, t2.mac))
                  else got.Received? && got.rest == wire[48 + n..] && got.lane == Lane(r.pos + 16 + n, t2.mac)
  {
    hide Cipher, UpdateMAC, ReadInt24, Padding;
  }

  /** A frame that is cut off is not read, and all that came of it is used up. */
  lemma CutOffFails(c: Crypto, w: Lane, content: bytes, k: nat)
    requires ValidCrypto(c) && |content| <= MAX_UINT24 && k < |WriteFrame(c, w, |content|, content).wire|
    ensures var got := ReadFrame(c, w, WriteFrame(c, w, |content|, content).wire[..k]);
            got.Failed? && got.error == UnexpectedEOF && got.rest == []
  {
    hide Cipher, UpdateMAC, ReadInt24, Padding, PlainHeader;
    var fsize := |content|;
    var head := Cipher(c, w.pos, PlainHeader(fsize));
    var t1 := UpdateMAC(c, w.mac, head);
    var body := Cipher(c, w.pos + 16, content + Zeros(Padding(fsize)));
    var mac2 := t1.mac + body;
    var t2 := UpdateMAC(c, mac2, c.sum(mac2));
    var wire := WriteFrame(c, w, fsize, content).wire;
    WireParts(head, t1.tag, body, t2.tag, []);
    assert wire == head + t1.tag + body + t2.tag + [];
    HeaderRoundTrip(c, w.pos, fsize);
    if k >= 32 {
      assert wire[..k][..16] == head && wire[..k][16..32] == t1.tag;
    }
  }

  /** Two wires that a reader in the same state accepts with the same two tags begin with the same
      frame, bit by bit, or the sums of what was absorbed for them collide on 16 bytes, after the
      headers or after the frames. */
  lemma TagsBindFrame(c: Crypto, r: Lane, wire1: bytes, wire2: bytes)
    requires ValidCrypto(c) && ReadFrame(c, r, wire1).Received? && ReadFrame(c, r, wire2).Received?
    requires SameTags(Taken(wire1, ReadFrame(c, r, wire1).rest), Taken(wire2, ReadFrame(c, r, wire2).rest))
    ensures var got1, got2 := ReadFrame(c, r, wire1), ReadFrame(c, r, wire2);
            var t1, t2 := Taken(wire1, got1.rest), Taken(wire2, got2.rest);
            || t1 == t2
            || Collide(c, HeaderState(c, r, t1[..16]), HeaderState(c, r, t2[..16]))
            || Collide(c, got1.lane.mac, got2.lane.mac)
  {
    hide Cipher, UpdateMAC, ReadInt24, Padding, Collide, ReadFrame, HeaderState;
    ReadParts(c, r, wire1);
    ReadParts(c, r, wire2);
    var t1, t2 := Taken(wire1, ReadFrame(c, r, wire1).rest), Taken(wire2, ReadFrame(c, r, wire2).rest);
    TagBindsHeader(c, r, t1[..16], t2[..16]);
    if t1[..16] == t2[..16] {
      var n, mac := |t1| - 48, UpdateMAC(c, r.mac, t1[..16]).mac;
      var b1, b2 := t1[32..32 + n], t2[32..32 + n];
      TagBindsState(c, mac + b1, c.sum(mac + b1), mac + b2, c.sum(mac + b2));
      if ReadFrame(c, r, wire1).lane.mac == ReadFrame(c, r, wire2).lane.mac {
        BodyBound(c, mac, b1, b2);
        FourParts(t1);
        FourParts(t2);
      }
    }
  }

  lemma FourParts(t: bytes)
    requires |t| >= 48
    ensures t == t[..16] + t[16..32] + t[32..|t| - 16] + t[|t| - 16..]
  {
  }

  /** A header that the tag was not made for is refused, or the sums collide. */
  lemma ForgedHeaderFails(c: Crypto, r: Lane, wire: bytes, head: bytes)
    requires ValidCrypto(c) && ReadFrame(c, r, wire).Received? && |head| == 16 && head != wire[..16]
    ensures || ReadFrame(c, r, head + wire[16..]).Failed?
            || Collide(c, HeaderState(c, r, head), HeaderState(c, r, wire[..16]))
  {
    hide Cipher, ReadInt24, Padding, Collide, UpdateMAC, HeaderState;
    var forged := head + wire[16..];
    assert forged[..16] == head && forged[16..32] == wire[16..32];
    if ReadFrame(c, r, forged).Received? {
      TagBindsHeader(c, r, head, wire[..16]);
    }
  }

  // --------------------------------------------------------------- the wire format

  /** The padded body on the wire, xored with the keystream. */
  predicate BodyOnWire(c: Crypto, pos: nat, content: bytes, body: bytes) {
    && |content| <= |body|
    && forall i :: 0 <= i < |body| ==> body[i] == (if i < |content| then content[i] else 0) ^ c.stream(pos + i)
  }

  lemma BodyFormat(c: Crypto, pos: nat, content: bytes, n: nat)
    ensures BodyOnWire(c, pos, content, Cipher(c, pos, content + Zeros(n)))
  {
    var plain := content + Zeros(n);
    assert forall i :: 0 <= i < |plain| ==> plain[i] == if i < |content| then content[i] else 0;
  }

  lemma TagsFormat(c: Crypto, w: Lane, head: bytes, body: bytes)
    requires ValidCrypto(c) && |head| == 16
    ensures var t1 := UpdateMAC(c, w.mac, head);
            var mac2 := t1.mac + body;
            var t2 := UpdateMAC(c, mac2, c.sum(mac2));
            TagsOnWire(c, w, head + t1.tag + body + t2.tag, |body|, Lane(w.pos + 16 + |body|, t2.mac))
  {
    hide UpdateMAC, Masked;
    var t1 := UpdateMAC(c, w.mac, head);
    var mac2 := t1.mac + body;
    var t2 := UpdateMAC(c, mac2, c.sum(mac2));
    var wire := head + t1.tag + body + t2.tag;
    WireParts(head, t1.tag, body, t2.tag, []);
    assert wire == head + t1.tag + body + t2.tag + [];
    assert wire[32 + |body|..] == wire[32 + |body|..32 + |body| + 16];
    var x, y := XorBytes(c.block(c.sum(w.mac)[..16]), head), XorBytes(c.block(c.sum(mac2)[..16]), c.sum(mac2));
    TagMeans(c, w.mac, head, x);
    TagMeans(c, mac2, c.sum(mac2), y);
    assert Masks(c, w, wire, |body|, Lane(w.pos + 16 + |body|, t2.mac), x, y);
  }

  /** A frame on the wire, byte by byte, as section "Framing" of the RLPx specification lays it out: the
      header is the size in 24 bits, big-endian, and C2 80 80, and zeros; header and padded body are
      xored with the keystream; 16 bytes of MAC follow each. */
  lemma FrameFormat(c: Crypto, w: Lane, fsize: nat, content: bytes)
    requires ValidCrypto(c) && fsize <= MAX_UINT24
    ensures var sent := WriteFrame(c, w, fsize, content);
            var n := |content| + Padding(fsize);
            && |sent.wire| == 48 + n && sent.lane.pos == w.pos + 16 + n
            && HeaderOnWire(c, w, fsize, sent.wire[..16])
            && BodyOnWire(c, w.pos + 16, content, sent.wire[32..32 + n])
            && TagsOnWire(c, w, sent.wire, n, sent.lane)
  {
    hide UpdateMAC, Padding, PlainHeader, Cipher, HeaderOnWire, BodyOnWire, TagsOnWire;
    var head := Cipher(c, w.pos, PlainHeader(fsize));
    var t1 := UpdateMAC(c, w.mac, head);
    var body := Cipher(c, w.pos + 16, content + Zeros(Padding(fsize)));
    var mac2 := t1.mac + body;
    var t2 := UpdateMAC(c, mac2, c.sum(mac2));
    WireParts(head, t1.tag, body, t2.tag, []);
    assert head + t1.tag + body + t2.tag == head + t1.tag + body + t2.tag + [];
    HeaderFormat(c, w, fsize);
    BodyFormat(c, w.pos + 16, content, Padding(fsize));
    TagsFormat(c, w, head, body);
  }

  predicate HeaderOnWire(c: Crypto, w: Lane, fsize: nat, head: bytes) {
    && |head| == 16
    && (head[0] ^ c.stream(w.pos)) as nat == fsize / 65536
    && (head[1] ^ c.stream(w.pos + 1)) as nat == fsize / 256 % 256
    && (head[2] ^ c.stream(w.pos + 2)) as nat == fsize % 256
    && head[3] ^ c.stream(w.pos + 3) == 0xC2 && head[4] ^ c.stream(w.pos + 4) == 0x80
    && head[5] ^ c.stream(w.pos + 5) == 0x80
    && (forall i :: 6 <= i < 16 ==> head[i] ^ c.stream(w.pos + i) == 0)
  }

  /** The two tags: each is half the sum of what was absorbed before and the xor of a seed with the
      enciphered half sum; the seed is the header, and then the sum over header and body. */
  ghost predicate TagsOnWire(c: Crypto, w: Lane, wire: bytes, n: nat, next: Lane) {
    exists x, y :: Masks(c, w, wire, n, next, x, y)
  }

  predicate Masks(c: Crypto, w: Lane, wire: bytes, n: nat, next: Lane, x: bytes, y: bytes) {
    && |wire| == 48 + n
    && Masked(c, w.mac, wire[..16], x) && wire[16..32] == Half(c, w.mac + x)
    && var mac2 := w.mac + x + wire[32..32 + n];
    && Masked(c, mac2, c.sum(mac2), y) && wire[32 + n..] == Half(c, mac2 + y)
    && next.mac == mac2 + y
  }

  predicate Masked(c: Crypto, mac: bytes, seed: bytes, x: bytes) {
    var k := c.block(Half(c, mac));
    |k| == 16 && |seed| >= 16 && |x| == 16 && forall i :: 0 <= i < 16 ==> x[i] == k[i] ^ seed[i]
  }

  lemma TagMeans(c: Crypto, mac: bytes, seed: bytes, x: bytes)
    requires ValidCrypto(c) && |seed| >= 16 && x == XorBytes(c.block(c.sum(mac)[..16]), seed)
    ensures var t := UpdateMAC(c, mac, seed);
            Masked(c, mac, seed, x) && t.mac == mac + x && t.tag == Half(c, mac + x)
  {
  }

  lemma HeaderFormat(c: Crypto, w: Lane, fsize: nat)
    requires fsize <= MAX_UINT24
    ensures HeaderOnWire(c, w, fsize, Cipher(c, w.pos, PlainHeader(fsize)))
  {
    var plain := PlainHeader(fsize);
    var head := Cipher(c, w.pos, plain);
    forall i | 0 <= i < 16
      ensures head[i] ^ c.stream(w.pos + i) == plain[i]
    {
      XorTwice(plain[i], c.stream(w.pos + i));
    }
  }

  // -------------------------------------------------------------------- messages

  /** A message to send: its code, the size it claims and the bytes its payload yields. */
  datatype Msg = Msg(code: nat, size: nat, payload: bytes)

  predicate ValidMsg(m: Msg) { m.code < UINT64 && m.size < UINT32 }

  datatype Content = Content(payload: bytes, size: nat)

  /** The payload and size that go into the frame. */
  function Packed(c: Crypto, snappy: bool, m: Msg): Content {
    if snappy then Content(c.compress(m.payload), |c.compress(m.payload)| % UINT32)
    else Content(m.payload, m.size)
  }

  /** `fsize` as the source computes it: 32-bit unsigned arithmetic. */
  function FrameSize(c: Crypto, snappy: bool, m: Msg): nat
    requires ValidMsg(m)
  {
    (|EncodeUint(m.code)| + Packed(c, snappy, m).size) % UINT32
  }

  predicate Refused(c: Crypto, snappy: bool, m: Msg)
    requires ValidMsg(m)
  {
    (snappy && m.size > MAX_UINT24) || FrameSize(c, snappy, m) > MAX_UINT24
  }

  /** A message is refused exactly if the size of its frame, as a 32-bit sum, does not fit into 24 bits, or, with
      compression, the size it claims does not. */
  lemma RefusedIff(c: Crypto, snappy: bool, m: Msg)
    requires ValidMsg(m)
    ensures !snappy ==> (Refused(c, snappy, m) <==> (|EncodeUint(m.code)| + m.size) % 0x1_0000_0000 >= 0x100_0000)
    ensures snappy ==>
              (Refused(c, snappy, m) <==>
                || m.size >= 0x100_0000
                || (|EncodeUint(m.code)| + |c.compress(m.payload)| % 0x1_0000_0000) % 0x1_0000_0000 >= 0x100_0000)
  {
  }

  /** `WriteMsg`: a message refused for its size changes nothing and puts nothing on the wire. */
  function WriteMsg(c: Crypto, snappy: bool, w: Lane, m: Msg): Sent
    requires ValidCrypto(c) && ValidMsg(m)
  {
    if Refused(c, snappy, m) then Sent([], w)
    else WriteFrame(c, w, FrameSize(c, snappy, m), EncodeUint(m.code) + Packed(c, snappy, m).payload)
  }

  /** The end of `ReadMsg`, after the frame content has been authenticated. */
  function Unpack(c: Crypto, snappy: bool, content: bytes, rest: bytes, lane: Lane): Received<Msg> {
    match DecodeUint(content)
    case None => Failed(BadCode, rest, lane)
    case Some(d) =>
      if !snappy then Received(Msg(d.value, |d.rest|, d.rest), rest, lane)
      else
        match c.decompress(d.rest)
        case None => Failed(BadSnappy, rest, lane)
        case Some(p) =>
          if |p| > MAX_UINT24 then Failed(TooLarge, rest, lane)
          else Received(Msg(d.value, |p|, p), rest, lane)
  }

  function ReadMsg(c: Crypto, snappy: bool, r: Lane, wire: bytes): Received<Msg>
    requires ValidCrypto(c)
  {
    match ReadFrame(c, r, wire)
    case Failed(e, rest, lane) => Failed(e, rest, lane)
    case Received(content, rest, lane) => Unpack(c, snappy, content, rest, lane)
  }

  /** What a caller can check before writing: the payload is small enough to be read back, or,
      without compression, the size is true and the 32-bit sum with the code does not wrap. */
  predicate Sound(snappy: bool, m: Msg)
    requires ValidMsg(m)
  {
    if snappy then |m.payload| <= MAX_UINT24
    else m.size == |m.payload| && |EncodeUint(m.code)| + |m.payload| < UINT32
  }

  lemma SmallSize(x: nat)
    requires x < UINT32
    ensures x % UINT32 == x
  {
  }

  lemma CodeLength(code: nat)
    requires code < UINT64
    ensures |EncodeUint(code)| <= 9
  {
    UintFits(code);
  }

  /** The frame size of a sound message is the length of the frame's content. */
  lemma SoundSize(c: Crypto, snappy: bool, m: Msg)
    requires ValidCrypto(c) && ValidMsg(m) && Sound(snappy, m)
    ensures FrameSize(c, snappy, m) == |EncodeUint(m.code)| + |Packed(c, snappy, m).payload|
  {
    hide EncodeUint;
    CodeLength(m.code);
    if snappy {
      assert |c.compress(m.payload)| <= 32 + |m.payload| + |m.payload| / 6;
      SmallSize(|c.compress(m.payload)|);
    }
    SmallSize(|EncodeUint(m.code)| + |Packed(c, snappy, m).payload|);
  }

  /** A sound message that is not refused arrives with its code and payload, and both ends stay in
      step. */
  lemma MsgRoundTrip(c: Crypto, snappy: bool, w: Lane, m: Msg, rest: bytes)
    requires ValidCrypto(c) && ValidMsg(m) && Sound(snappy, m) && !Refused(c, snappy, m)
    ensures var sent := WriteMsg(c, snappy, w, m);
            ReadMsg(c, snappy, w, sent.wire + rest) == Received(Msg(m.code, |m.payload|, m.payload), rest, sent.lane)
  {
    hide ReadFrame, WriteFrame, EncodeUint, DecodeUint;
    var p := Packed(c, snappy, m);
    SoundSize(c, snappy, m);
    FrameRoundTrip(c, w, EncodeUint(m.code) + p.payload, rest);
    DecodeEncode(m.code, p.payload);
  }

  lemma WrappedSize(x: nat)
    requires UINT32 <= x < 2 * UINT32
    ensures x % UINT32 == x - UINT32
  {
  }

  /** A frame whose size wrapped around is never read as any message: if its MACs match at all,
      the content that the header announces is a cut-off message code. */
  lemma WrappedFails(c: Crypto, w: Lane, m: Msg, rest: bytes)
    requires ValidCrypto(c) && ValidMsg(m) && |EncodeUint(m.code)| + m.size >= UINT32
    ensures ReadMsg(c, false, w, WriteMsg(c, false, w, m).wire + rest).Failed?
  {
    hide ReadFrame, WriteFrame, EncodeUint, DecodeUint;
    var code := EncodeUint(m.code);
    CodeLength(m.code);
    WrappedSize(|code| + m.size);
    var fsize := FrameSize(c, false, m);
    assert fsize < |code|;
    var wire := WriteMsg(c, false, w, m).wire + rest;
    if ReadFrame(c, w, wire).Received? {
      AnnouncedContent(c, w, fsize, code + m.payload, rest);
      var value := ReadFrame(c, w, wire).value;
      assert value == value[..fsize] == (code + m.payload)[..fsize] == code[..fsize];
      TruncatedFails(m.code, fsize);
    }
  }

  /** A frame whose header announces another size than its content has is read, if at all, with a
      payload of the announced length. */
  lemma UntrueSizeShows(c: Crypto, w: Lane, m: Msg, rest: bytes)
    requires ValidCrypto(c) && ValidMsg(m) && |EncodeUint(m.code)| + m.size < UINT32
    requires !Refused(c, false, m) && m.size != |m.payload|
    ensures var got := ReadMsg(c, false, w, WriteMsg(c, false, w, m).wire + rest);
            got.Received? ==> |got.value.payload| == m.size
  {
    hide ReadFrame, WriteFrame, EncodeUint, DecodeUint;
    var code := EncodeUint(m.code);
    SmallSize(|code| + m.size);
    var fsize := FrameSize(c, false, m);
    var wire := WriteMsg(c, false, w, m).wire + rest;
    if ReadFrame(c, w, wire).Received? {
      var value := ReadFrame(c, w, wire).value;
      AnnouncedContent(c, w, fsize, code + m.payload, rest);
      assert value[..|code|] == (code + m.payload)[..|code|] == code;
      assert value == code + value[|code|..];
      DecodeEncode(m.code, value[|code|..]);
    }
  }

  /** The reader takes from a frame exactly as many bytes as its header announces, and as far as
      the content goes they are the content. */
  lemma AnnouncedContent(c: Crypto, w: Lane, fsize: nat, content: bytes, rest: bytes)
    requires ValidCrypto(c) && fsize <= MAX_UINT24
    requires ReadFrame(c, w, WriteFrame(c, w, fsize, content).wire + rest).Received?
    ensures var value := ReadFrame(c, w, WriteFrame(c, w, fsize, content).wire + rest).value;
            |value| == fsize && forall n :: 0 <= n <= fsize && n <= |content| ==> value[..n] == content[..n]
  {
    hide Cipher, UpdateMAC, ReadInt24, Padding, PlainHeader;
    var plain := content + Zeros(Padding(fsize));
    var wire := WriteFrame(c, w, fsize, content).wire + rest;
    var head := Cipher(c, w.pos, PlainHeader(fsize));
    assert wire[..16] == head;
    HeaderRoundTrip(c, w.pos, fsize);
    var rsize := fsize + Padding(fsize);
    var body := wire[32..32 + rsize];
    var value := Cipher(c, w.pos + 16, body)[..fsize];
    forall n | 0 <= n <= fsize && n <= |content|
      ensures value[..n] == content[..n]
    {
      assert wire[32..32 + n] == Cipher(c, w.pos + 16, plain)[..n];
      assert body[..n] == wire[32..32 + n];
      CipherPrefix(c, w.pos + 16, body, plain, n);
      assert value[..n] == Cipher(c, w.pos + 16, body)[..n];
      assert plain[..n] == content[..n];
    }
  }

  lemma HeaderRoundTrip(c: Crypto, pos: nat, fsize: nat)
    requires fsize <= MAX_UINT24
    ensures ReadInt24(Cipher(c, pos, Cipher(c, pos, PlainHeader(fsize)))) == fsize
  {
    CipherTwice(c, pos, PlainHeader(fsize));
    Int24RoundTrip(fsize, [0xC2, 0x80, 0x80] + Zeros(10));
    assert PlainHeader(fsize) == PutInt24(fsize) + ([0xC2, 0x80, 0x80] + Zeros(10));
  }

  /** Decryption works byte by byte. */
  lemma CipherPrefix(c: Crypto, pos: nat, e: bytes, plain: bytes, n: nat)
    requires n <= |e| && n <= |plain| && e[..n] == Cipher(c, pos, plain)[..n]
    ensures Cipher(c, pos, e)[..n] == plain[..n]
  {
    forall i | 0 <= i < n
      ensures Cipher(c, pos, e)[..n][i] == plain[..n][i]
    {
      assert e[..n][i] == e[i];
      XorTwice(plain[i], c.stream(pos + i));
    }
  }

  /** The reader gets the code and the payload, and both ends stay in step. */
  ghost predicate Delivered(c: Crypto, snappy: bool, w: Lane, m: Msg, rest: bytes)
    requires ValidCrypto(c) && ValidMsg(m)
  {
    var sent := WriteMsg(c, snappy, w, m);
    var got := ReadMsg(c, snappy, w, sent.wire + rest);
    && got.Received? && got.value.code == m.code && got.value.payload == m.payload
    && got.rest == rest && got.lane == sent.lane
  }

  /** A message that is written is delivered if and only if it is sound. */
  lemma DeliveredIff(c: Crypto, snappy: bool, w: Lane, m: Msg, rest: bytes)
    requires ValidCrypto(c) && ValidMsg(m) && !Refused(c, snappy, m)
    ensures Delivered(c, snappy, w, m, rest) <==> Sound(snappy, m)
  {
    hide WriteMsg, ReadFrame, EncodeUint, DecodeUint;
    if Sound(snappy, m) {
      MsgRoundTrip(c, snappy, w, m, rest);
    } else if !snappy {
      if |EncodeUint(m.code)| + m.size >= UINT32 {
        WrappedFails(c, w, m, rest);
      } else {
        UntrueSizeShows(c, w, m, rest);
      }
    }
  }

  /** Code 0 with a payload of 2^32 - 1 bytes, without compression: the message is accepted, its
      frame announces no content at all, and nobody can read it. */
  lemma WrappedExample(c: Crypto, w: Lane, rest: bytes)
    requires ValidCrypto(c)
    ensures var m := Msg(0, UINT32 - 1, Zeros(UINT32 - 1));
            && ValidMsg(m) && !Refused(c, false, m) && FrameSize(c, false, m) == 0
            && ReadMsg(c, false, w, WriteMsg(c, false, w, m).wire + rest).Failed?
  {
    hide WriteMsg, ReadMsg;
    var m := Msg(0, UINT32 - 1, Zeros(UINT32 - 1));
    assert EncodeUint(0) == [0x80];
    WrappedSize(UINT32);
    WrappedFails(c, w, m, rest);
  }

  // ------------------------------------------------------- one direction as a run

  lemma FrameExtends(c: Crypto, r: Lane, wire: bytes, more: bytes)
    requires ValidCrypto(c) && ReadFrame(c, r, wire).Received?
    ensures var got := ReadFrame(c, r, wire);
            ReadFrame(c, r, wire + more) == Received(got.value, got.rest + more, got.lane)
  {
    hide Cipher, UpdateMAC, ReadInt24, Padding;
    var fsize := ReadInt24(Cipher(c, r.pos, wire[..16]));
    var rsize := fsize + Padding(fsize);
    var longer := wire + more;
    assert longer[..16] == wire[..16];
    assert longer[16..32] == wire[16..32];
    assert longer[32..32 + rsize] == wire[32..32 + rsize];
    assert longer[32 + rsize..32 + rsize + 16] == wire[32 + rsize..32 + rsize + 16];
    assert longer[32 + rsize + 16..] == wire[32 + rsize + 16..] + more;
  }

  /** Later bytes do not change what has been read. */
  lemma ReadExtends(c: Crypto, snappy: bool, r: Lane, wire: bytes, more: bytes)
    requires ValidCrypto(c) && ReadMsg(c, snappy, r, wire).Received?
    ensures var got := ReadMsg(c, snappy, r, wire);
            ReadMsg(c, snappy, r, wire + more) == Received(got.value, got.rest + more, got.lane)
  {
    hide ReadFrame, DecodeUint;
    FrameExtends(c, r, wire, more);
  }

  /** What a reader gets of a message. */
  datatype Packet = Packet(code: nat, payload: bytes)

  function PacketOf(m: Msg): Packet { Packet(m.code, m.payload) }

  /** The unread bytes hold exactly the frames of `pending`, and reading each of them takes the
      reader from one of `lanes` to the next. */
  predicate InFlight(c: Crypto, snappy: bool, wire: bytes, pending: seq<Packet>, lanes: seq<Lane>)
    requires ValidCrypto(c) && |lanes| == |pending| + 1
    decreases |pending|
  {
    if pending == [] then wire == []
    else
      match ReadMsg(c, snappy, lanes[0], wire)
      case Failed(_, _, _) => false
      case Received(m, rest, lane) =>
        PacketOf(m) == pending[0] && lane == lanes[1] && InFlight(c, snappy, rest, pending[1..], lanes[1..])
  }

  /** A write puts its message at the end of what is in flight if and only if it is sound. */
  lemma {:induction false} WriteKeepsInFlight(c: Crypto, snappy: bool, wire: bytes, pending: seq<Packet>,
                                              lanes: seq<Lane>, m: Msg)
    requires ValidCrypto(c) && |lanes| == |pending| + 1 && InFlight(c, snappy, wire, pending, lanes)
    requires ValidMsg(m) && !Refused(c, snappy, m)
    ensures var sent := WriteMsg(c, snappy, lanes[|pending|], m);
            InFlight(c, snappy, wire + sent.wire, pending + [PacketOf(m)], lanes + [sent.lane])
            <==> Sound(snappy, m)
    decreases |pending|
  {
    hide WriteMsg, ReadMsg, Refused, Sound;
    var w := lanes[|pending|];
    var sent := WriteMsg(c, snappy, w, m);
    if pending == [] {
      assert wire + sent.wire == sent.wire + [];
      assert [PacketOf(m)][1..] == [];
      assert (lanes + [sent.lane])[1..] == [sent.lane];
      DeliveredIff(c, snappy, w, m, []);
    } else {
      ReadExtends(c, snappy, lanes[0], wire, sent.wire);
      var got := ReadMsg(c, snappy, lanes[0], wire);
      WriteKeepsInFlight(c, snappy, got.rest, pending[1..], lanes[1..], m);
      assert (pending + [PacketOf(m)])[1..] == pending[1..] + [PacketOf(m)];
      assert (lanes + [sent.lane])[1..] == lanes[1..] + [sent.lane];
    }
  }

  datatype Channel = Channel(w: Lane, r: Lane, wire: bytes)

  datatype Op = Write(m: Msg) | Read

  /** A channel and what has happened on it: the packets of accepted messages, the packets
      delivered, and the writer's state at the start and after each accepted message. */
  datatype Trace = Trace(ch: Channel, accepted: seq<Packet>, delivered: seq<Packet>, lanes: seq<Lane>)

  /** One write, or one read; a read that finds no whole frame waits. */
  function Apply(c: Crypto, snappy: bool, t: Trace, op: Op): Trace
    requires ValidCrypto(c) && (op.Write? ==> ValidMsg(op.m))
  {
    match op
    case Write(m) =>
      var sent := WriteMsg(c, snappy, t.ch.w, m);
      var ch := t.ch.(w := sent.lane, wire := t.ch.wire + sent.wire);
      if Refused(c, snappy, m) then t.(ch := ch)
      else Trace(ch, t.accepted + [PacketOf(m)], t.delivered, t.lanes + [sent.lane])
    case Read =>
      var got := ReadMsg(c, snappy, t.ch.r, t.ch.wire);
      if got.Failed? then t
      else t.(ch := t.ch.(r := got.lane, wire := got.rest), delivered := t.delivered + [PacketOf(got.value)])
  }

  predicate ValidOps(ops: seq<Op>) {
    forall i :: 0 <= i < |ops| && ops[i].Write? ==> ValidMsg(ops[i].m)
  }

  /** Every message that is not refused is sound. */
  predicate SoundOps(c: Crypto, snappy: bool, ops: seq<Op>)
    requires ValidOps(ops)
  {
    forall i :: 0 <= i < |ops| && ops[i].Write? && !Refused(c, snappy, ops[i].m) ==> Sound(snappy, ops[i].m)
  }

  function Run(c: Crypto, snappy: bool, t: Trace, ops: seq<Op>): Trace
    requires ValidCrypto(c) && ValidOps(ops)
  {
    if ops == [] then t else Apply(c, snappy, Run(c, snappy, t, ops[..|ops| - 1]), ops[|ops| - 1])
  }

  /** What was delivered, followed by what is in flight, is what was accepted; and after `n`
      deliveries the reader is in the state the writer had after its `n`-th accepted message. */
  ghost predicate Conserved(c: Crypto, snappy: bool, t: Trace)
    requires ValidCrypto(c)
  {
    var n := |t.delivered|;
    && n <= |t.accepted| && t.delivered == t.accepted[..n]
    && |t.lanes| == |t.accepted| + 1
    && t.ch.r == t.lanes[n] && t.ch.w == t.lanes[|t.accepted|]
    && InFlight(c, snappy, t.ch.wire, t.accepted[n..], t.lanes[n..])
  }

  lemma WriteConserves(c: Crypto, snappy: bool, t: Trace, m: Msg)
    requires ValidCrypto(c) && Conserved(c, snappy, t) && ValidMsg(m)
    ensures Conserved(c, snappy, Apply(c, snappy, t, Write(m))) <==> Refused(c, snappy, m) || Sound(snappy, m)
  {
    hide WriteMsg, ReadMsg, Refused, Sound;
    var n := |t.delivered|;
    var t' := Apply(c, snappy, t, Write(m));
    if Refused(c, snappy, m) {
      RefusedWritesNothing(c, snappy, t.ch.w, m);
      assert t.ch.wire + [] == t.ch.wire;
    } else {
      WriteKeepsInFlight(c, snappy, t.ch.wire, t.accepted[n..], t.lanes[n..], m);
      assert t'.accepted[n..] == t.accepted[n..] + [PacketOf(m)];
      assert t'.lanes[n..] == t.lanes[n..] + [t'.ch.w];
      assert t'.accepted[..n] == t.accepted[..n];
    }
  }

  /** A read delivers the next packet, if there is one. */
  lemma ReadConserves(c: Crypto, snappy: bool, t: Trace)
    requires ValidCrypto(c) && Conserved(c, snappy, t)
    ensures var t' := Apply(c, snappy, t, Read);
            && Conserved(c, snappy, t') && t'.accepted == t.accepted && t'.lanes == t.lanes
            && |t'.delivered| == |t.delivered| + if |t.delivered| < |t.accepted| then 1 else 0
  {
    hide WriteMsg, ReadMsg;
    var n := |t.delivered|;
    if n == |t.accepted| {
      EmptyWireReadsNothing(c, snappy, t.ch.r);
    } else {
      assert t.accepted[n + 1..] == t.accepted[n..][1..];
      assert t.lanes[n + 1..] == t.lanes[n..][1..];
    }
  }

  lemma RefusedWritesNothing(c: Crypto, snappy: bool, w: Lane, m: Msg)
    requires ValidCrypto(c) && ValidMsg(m) && Refused(c, snappy, m)
    ensures WriteMsg(c, snappy, w, m) == Sent([], w)
  {
  }

  lemma EmptyWireReadsNothing(c: Crypto, snappy: bool, r: Lane)
    requires ValidCrypto(c)
    ensures ReadMsg(c, snappy, r, []).Failed?
  {
  }

  /** Nothing is lost or reordered at any time of the run. */
  ghost predicate AlwaysConserved(c: Crypto, snappy: bool, t: Trace, ops: seq<Op>)
    requires ValidCrypto(c) && ValidOps(ops)
  {
    forall k :: 0 <= k <= |ops| ==> Conserved(c, snappy, Run(c, snappy, t, ops[..k]))
  }

  /** From a good start, messages are conserved throughout if and only if every accepted message
      is sound. */
  lemma {:induction false} ConservedIff(c: Crypto, snappy: bool, t: Trace, ops: seq<Op>)
    requires ValidCrypto(c) && Conserved(c, snappy, t) && ValidOps(ops)
    ensures AlwaysConserved(c, snappy, t, ops) <==> SoundOps(c, snappy, ops)
  {
    hide Apply, Conserved, Refused, Sound;
    if ops == [] {
      assert forall k :: 0 <= k <= |ops| ==> ops[..k] == [];
    } else {
      var n := |ops| - 1;
      var before, op := ops[..n], ops[n];
      ConservedIff(c, snappy, t, before);
      assert forall k :: 0 <= k <= n ==> before[..k] == ops[..k];
      assert ops[..|ops|] == ops;
      assert AlwaysConserved(c, snappy, t, ops)
        <==> AlwaysConserved(c, snappy, t, before) && Conserved(c, snappy, Run(c, snappy, t, ops));
      assert SoundOps(c, snappy, ops)
        <==> SoundOps(c, snappy, before)
             && (op.Write? && !Refused(c, snappy, op.m) ==> Sound(snappy, op.m));
      if SoundOps(c, snappy, before) {
        var x := Run(c, snappy, t, before);
        assert before[..n] == before;
        assert Conserved(c, snappy, x);
        if op.Write? {
          WriteConserves(c, snappy, x, op.m);
        } else {
          ReadConserves(c, snappy, x);
        }
      }
    }
  }

  function Reads(k: nat): seq<Op> { seq(k, _ => Read) }

  lemma {:induction false} ReadsDeliver(c: Crypto, snappy: bool, t: Trace, k: nat)
    requires ValidCrypto(c) && Conserved(c, snappy, t) && |t.delivered| + k <= |t.accepted|
    ensures var t' := Run(c, snappy, t, Reads(k));
            && Conserved(c, snappy, t') && t'.accepted == t.accepted && t'.lanes == t.lanes
            && |t'.delivered| == |t.delivered| + k
  {
    hide Apply, Conserved;
    if k > 0 {
      ReadsDeliver(c, snappy, t, k - 1);
      assert Reads(k)[..k - 1] == Reads(k - 1);
      ReadConserves(c, snappy, Run(c, snappy, t, Reads(k - 1)));
    }
  }

  /** Reading on until everything in flight is read delivers all that was accepted, and leaves
      reader and writer in the same state. */
  lemma DrainDeliversAll(c: Crypto, snappy: bool, t: Trace)
    requires ValidCrypto(c) && Conserved(c, snappy, t)
    ensures var t' := Run(c, snappy, t, Reads(|t.accepted| - |t.delivered|));
            t'.delivered == t.accepted && t'.ch.r == t'.ch.w && t'.ch.wire == []
  {
    hide Run, Apply, ReadMsg;
    ReadsDeliver(c, snappy, t, |t.accepted| - |t.delivered|);
  }

  /** Messages are conserved throughout exactly when they are sound, and then all of them can be
      read. */
  ghost predicate DeliversExactlySound(c: Crypto, snappy: bool, start: Trace, ops: seq<Op>)
    requires ValidCrypto(c) && ValidOps(ops)
  {
    var t := Run(c, snappy, start, ops);
    && (AlwaysConserved(c, snappy, start, ops) <==> SoundOps(c, snappy, ops))
    && (SoundOps(c, snappy, ops) ==>
         && |t.delivered| <= |t.accepted|
         && var t' := Run(c, snappy, t, Reads(|t.accepted| - |t.delivered|));
            t'.delivered == t.accepted && t'.ch.r == t'.ch.w && t'.ch.wire == [])
  }

  lemma EveryChannelDelivers(c: Crypto, snappy: bool, start: Trace, ops: seq<Op>)
    requires ValidCrypto(c) && ValidOps(ops) && Conserved(c, snappy, start)
    ensures DeliversExactlySound(c, snappy, start, ops)
  {
    hide SoundOps, Run, InFlight, Reads;
    ConservedIff(c, snappy, start, ops);
    if SoundOps(c, snappy, ops) {
      assert ops[..|ops|] == ops;
      DrainDeliversAll(c, snappy, Run(c, snappy, start, ops));
    }
  }

  // --------------------------------------------------------- handshake secrets

  /** What the encryption handshake leaves behind on one side. */
  datatype Handshake = Handshake(initiator: bool, randomPriv: nat, remoteRandomPub: nat,
                                 initNonce: bytes, respNonce: bytes)

  /** Key agreement, hashing, and the primitives keyed by the AES and MAC secrets. */
  datatype Suite = Suite(
    shared: (nat, nat) -> bytes,
    public: nat -> nat,
    keccak: bytes -> bytes,
    keyed: (bytes, bytes) -> Crypto)

  ghost predicate ValidSuite(u: Suite) {
    && (forall a, b :: u.shared(a, u.public(b)) == u.shared(b, u.public(a)))
    && (forall x :: |u.keccak(x)| == 32)
    && (forall a, m :: ValidCrypto(u.keyed(a, m)))
  }

  datatype Session = Session(crypto: Crypto, egress: Lane, ingress: Lane)

  /** `secrets`, and the frame reader-writer built from them. */
  function Secrets(u: Suite, h: Handshake, auth: bytes, authResp: bytes): (s: Session)
    requires ValidSuite(u) && |h.initNonce| == 32 && |h.respNonce| == 32
    ensures ValidCrypto(s.crypto)
  {
    var ecdhe := u.shared(h.randomPriv, h.remoteRandomPub);
    var sharedSecret := u.keccak(ecdhe + u.keccak(h.respNonce + h.initNonce));
    var aes := u.keccak(ecdhe + sharedSecret);
    var mac := u.keccak(ecdhe + aes);
    var mac1 := XorBytes(mac, h.respNonce) + auth;
    var mac2 := XorBytes(mac, h.initNonce) + authResp;
    if h.initiator then Session(u.keyed(aes, mac), Lane(0, mac1), Lane(0, mac2))
    else Session(u.keyed(aes, mac), Lane(0, mac2), Lane(0, mac1))
  }

  /** The two ends of one handshake: each holds the public half of the other's random key, and
      they agree on the nonces. */
  ghost predicate Mirrored(u: Suite, a: Handshake, b: Handshake) {
    && a.initiator && !b.initiator
    && a.remoteRandomPub == u.public(b.randomPriv) && b.remoteRandomPub == u.public(a.randomPriv)
    && a.initNonce == b.initNonce && a.respNonce == b.respNonce
    && |a.initNonce| == 32 && |a.respNonce| == 32
  }

  /** Each side sends with the keys and MAC state with which the other receives. */
  lemma MirroredSecrets(u: Suite, a: Handshake, b: Handshake, auth: bytes, authResp: bytes)
    requires ValidSuite(u) && Mirrored(u, a, b)
    ensures var sa, sb := Secrets(u, a, auth, authResp), Secrets(u, b, auth, authResp);
            sa.crypto == sb.crypto && sa.egress == sb.ingress && sb.egress == sa.ingress
  {
    assert u.shared(a.randomPriv, u.public(b.randomPriv)) == u.shared(b.randomPriv, u.public(a.randomPriv));
  }

  /** The key schedule of the RLPx specification: a shared secret from the agreed point and both nonces,
      the AES secret from it, and the MAC secret from that. */
  predicate KeySchedule(u: Suite, h: Handshake, aes: bytes, mac: bytes) {
    var agreed := u.shared(h.randomPriv, h.remoteRandomPub);
    && aes == u.keccak(agreed + u.keccak(agreed + u.keccak(h.respNonce + h.initNonce)))
    && mac == u.keccak(agreed + aes)
  }

  /** A MAC state starts with the MAC secret xored with a nonce, and a handshake message. */
  predicate StartsWith(state: bytes, mac: bytes, nonce: bytes, message: bytes) {
    && |state| == 32 + |message| && |mac| == 32 && |nonce| == 32
    && (forall i :: 0 <= i < 32 ==> state[i] == mac[i] ^ nonce[i])
    && state[32..] == message
  }

  /** What the initiator sends is authenticated over the responder's nonce and the initiator's message,
      and the other way round. */
  lemma SecretsFormat(u: Suite, h: Handshake, auth: bytes, authResp: bytes) returns (aes: bytes, mac: bytes)
    requires ValidSuite(u) && |h.initNonce| == 32 && |h.respNonce| == 32
    ensures var s := Secrets(u, h, auth, authResp);
            var sent, received := (if h.initiator then s.egress else s.ingress),
                                  (if h.initiator then s.ingress else s.egress);
            && KeySchedule(u, h, aes, mac) && s.crypto == u.keyed(aes, mac)
            && StartsWith(sent.mac, mac, h.respNonce, auth) && StartsWith(received.mac, mac, h.initNonce, authResp)
            && sent.pos == received.pos == 0
  {
    var agreed := u.shared(h.randomPriv, h.remoteRandomPub);
    aes := u.keccak(agreed + u.keccak(agreed + u.keccak(h.respNonce + h.initNonce)));
    mac := u.keccak(agreed + aes);
    assert (XorBytes(mac, h.respNonce) + auth)[32..] == auth;
    assert (XorBytes(mac, h.initNonce) + authResp)[32..] == authResp;
  }

  /** The channel from one end of a handshake to the other, before anything is written. */
  function Opened(sender: Session, receiver: Session): Trace {
    Trace(Channel(sender.egress, receiver.ingress, []), [], [], [sender.egress])
  }

  /** In every interleaving of writes and reads after a handshake, in either direction: at every
      time what the reader has returned is a prefix of what the writer accepted, the rest is in
      flight, and after n deliveries the reader has the cipher position and MAC that the writer had
      after its n-th accepted message, if and only if every accepted message is sound. And then
      reading on returns the rest and brings both ends together. */
  lemma EveryRunDelivers(u: Suite, a: Handshake, b: Handshake, auth: bytes, authResp: bytes,
                         toResponder: bool, snappy: bool, ops: seq<Op>)
    requires ValidSuite(u) && Mirrored(u, a, b) && ValidOps(ops)
    ensures var sa, sb := Secrets(u, a, auth, authResp), Secrets(u, b, auth, authResp);
            var start := if toResponder then Opened(sa, sb) else Opened(sb, sa);
            DeliversExactlySound(sa.crypto, snappy, start, ops)
  {
    hide Secrets, DeliversExactlySound;
    var sa, sb := Secrets(u, a, auth, authResp), Secrets(u, b, auth, authResp);
    MirroredSecrets(u, a, b, auth, authResp);
    var start := if toResponder then Opened(sa, sb) else Opened(sb, sa);
    assert Conserved(sa.crypto, snappy, start);
    EveryChannelDelivers(sa.crypto, snappy, start, ops);
  }
}
