/** The frame reader-writer as it works: cipher streams and MAC hashes that advance in place,
    and a payload that arrives in pieces of any size. */
module FrameConn {
  import opened Common
  import opened Bytes
  import opened Rlp
  import opened Frames

  datatype WriteResult = Written | MessageTooLarge

  datatype ReadResult = Got(m: Msg) | Error(error: ReadError)

  /** The bytes that a payload reader yields, piece after piece. */
  function Joined(chunks: seq<bytes>): bytes {
    if chunks == [] then [] else Joined(chunks[..|chunks| - 1]) + chunks[|chunks| - 1]
  }

  /** An RLP list of two empty strings. */
  const ZERO_HEADER: bytes := [0xC2, 0x80, 0x80]

  lemma HeaderBytes(fsize: nat)
    requires fsize <= MAX_UINT24
    ensures PlainHeader(fsize) == PutInt24(fsize) + ZERO_HEADER + Zeros(10)
  {
  }

  class FrameRW {
    const crypto: Crypto
    const snappy: bool
    var encPos: nat
    var egress: bytes
    var decPos: nat
    var ingress: bytes
    var sent: bytes
    var unread: bytes

    function Out(): Lane
      reads this
    {
      Lane(encPos, egress)
    }

    function In(): Lane
      reads this
    {
      Lane(decPos, ingress)
    }

    constructor (session: Session, compressed: bool)
      requires ValidCrypto(session.crypto)
      ensures crypto == session.crypto && snappy == compressed
      ensures Out() == session.egress && In() == session.ingress
      ensures sent == [] && unread == []
    {
      crypto, snappy := session.crypto, compressed;
      encPos, egress := session.egress.pos, session.egress.mac;
      decPos, ingress := session.ingress.pos, session.ingress.mac;
      sent, unread := [], [];
    }

    method XorEgress(data: bytes) returns (e: bytes)
      modifies this`encPos
      ensures e == Cipher(crypto, old(encPos), data) && encPos == old(encPos) + |data|
    {
      e := Cipher(crypto, encPos, data);
      encPos := encPos + |data|;
    }

    method TagEgress(seed: bytes) returns (tag: bytes)
      requires ValidCrypto(crypto) && |seed| >= 16
      modifies this`egress
      ensures Tagged(egress, tag) == UpdateMAC(crypto, old(egress), seed)
    {
      var aesbuf := crypto.block(crypto.sum(egress)[..16]);
      egress := egress + XorBytes(aesbuf, seed);
      tag := crypto.sum(egress)[..16];
    }

    /** One write through the stream writer: encrypt, put on the wire, absorb. */
    method Tee(data: bytes)
      modifies this`encPos, this`egress, this`sent
      ensures encPos == old(encPos) + |data|
      ensures egress == old(egress) + Cipher(crypto, old(encPos), data)
      ensures sent == old(sent) + Cipher(crypto, old(encPos), data)
    {
      var e := XorEgress(data);
      sent := sent + e;
      egress := egress + e;
    }

    /** Copy a payload piece by piece: the same as writing it in one piece. */
    method Copy(chunks: seq<bytes>)
      modifies this`encPos, this`egress, this`sent
      ensures encPos == old(encPos) + |Joined(chunks)|
      ensures egress == old(egress) + Cipher(crypto, old(encPos), Joined(chunks))
      ensures sent == old(sent) + Cipher(crypto, old(encPos), Joined(chunks))
    {
      var i := 0;
      hide Cipher;
      assert chunks[..0] == [];
      while i < |chunks|
        invariant 0 <= i <= |chunks|
        invariant encPos == old(encPos) + |Joined(chunks[..i])|
        invariant egress == old(egress) + Cipher(crypto, old(encPos), Joined(chunks[..i]))
        invariant sent == old(sent) + Cipher(crypto, old(encPos), Joined(chunks[..i]))
      {
        assert chunks[..i + 1][..i] == chunks[..i];
        CipherAppend(crypto, old(encPos), Joined(chunks[..i]), chunks[i]);
        Tee(chunks[i]);
        i := i + 1;
      }
      assert chunks[..i] == chunks;
    }

    /** Message code, payload and padding as one encrypted stretch. */
    method WriteBody(code: bytes, chunks: seq<bytes>, padding: nat)
      modifies this`encPos, this`egress, this`sent
      ensures var body := Cipher(crypto, old(encPos), code + Joined(chunks) + Zeros(padding));
              && encPos == old(encPos) + |body|
              && egress == old(egress) + body && sent == old(sent) + body
    {
      hide Cipher;
      ghost var start, payload := encPos, Joined(chunks);
      Tee(code);
      Copy(chunks);
      Tee(Zeros(padding));
      CipherAppend(crypto, start, code, payload);
      CipherAppend(crypto, start, code + payload, Zeros(padding));
    }

    /** Header, header MAC, content, padding and frame MAC, whatever the pieces are. */
    method WriteFrame(fsize: nat, code: bytes, chunks: seq<bytes>)
      requires ValidCrypto(crypto) && fsize <= MAX_UINT24
      modifies this`encPos, this`egress, this`sent
      ensures var w := Frames.WriteFrame(crypto, old(Out()), fsize, code + Joined(chunks));
              Out() == w.lane && sent == old(sent) + w.wire
    {
      hide Cipher, UpdateMAC, PlainHeader, Padding;
      ghost var sent0 := sent;
      var headbuf := PutInt24(fsize) + ZERO_HEADER + Zeros(10);
      HeaderBytes(fsize);
      var head := XorEgress(headbuf);
      var tag1 := TagEgress(head);
      sent := sent + head + tag1;
      ghost var body := Cipher(crypto, encPos, code + Joined(chunks) + Zeros(Padding(fsize)));
      WriteBody(code, chunks, Padding(fsize));
      var tag2 := TagEgress(crypto.sum(egress));
      sent := sent + tag2;
      assert sent == sent0 + (head + tag1 + body + tag2);
    }

    /** `WriteMsg` for a payload that arrives in pieces. */
    method WriteMsg(code: nat, size: nat, chunks: seq<bytes>) returns (r: WriteResult)
      requires ValidCrypto(crypto) && ValidMsg(Msg(code, size, Joined(chunks)))
      modifies this`encPos, this`egress, this`sent
      ensures var m := Msg(code, size, Joined(chunks));
              var w := Frames.WriteMsg(crypto, snappy, old(Out()), m);
              && Out() == w.lane && sent == old(sent) + w.wire
              && r == (if Refused(crypto, snappy, m) then MessageTooLarge else Written)
    {
      hide Frames.WriteFrame, EncodeUint;
      var ptype := EncodeUint(code);
      var payload, msize := chunks, size;
      if snappy {
        if size > MAX_UINT24 {
          return MessageTooLarge;
        }
        var packed := crypto.compress(Joined(chunks));
        payload, msize := [packed], |packed| % UINT32;
        assert [packed][..0] == [] && Joined([packed]) == packed;
      }
      var fsize := (|ptype| + msize) % UINT32;
      if fsize > MAX_UINT24 {
        return MessageTooLarge;
      }
      WriteFrame(fsize, ptype, payload);
      r := Written;
    }

    method TagIngress(seed: bytes) returns (tag: bytes)
      requires ValidCrypto(crypto) && |seed| >= 16
      modifies this`ingress
      ensures Tagged(ingress, tag) == UpdateMAC(crypto, old(ingress), seed)
    {
      var aesbuf := crypto.block(crypto.sum(ingress)[..16]);
      ingress := ingress + XorBytes(aesbuf, seed);
      tag := crypto.sum(ingress)[..16];
    }

    method XorIngress(data: bytes) returns (p: bytes)
      modifies this`decPos
      ensures p == Cipher(crypto, old(decPos), data) && decPos == old(decPos) + |data|
    {
      p := Cipher(crypto, decPos, data);
      decPos := decPos + |data|;
    }

    /** Read and check one frame. */
    method ReadFrame() returns (content: bytes, error: Option<ReadError>)
      requires ValidCrypto(crypto)
      modifies this`decPos, this`ingress, this`unread
      ensures var got := Frames.ReadFrame(crypto, old(In()), old(unread));
              && In() == got.lane && unread == got.rest
              && error == (if got.Failed? then Some(got.error) else None)
              && (got.Received? ==> content == got.value)
    {
      hide UpdateMAC, Cipher, ReadInt24, Padding;
      content := [];
      if |unread| < 32 {
        unread := [];
        return content, Some(UnexpectedEOF);
      }
      ghost var wire := unread;
      var head, tag := unread[..16], unread[16..32];
      unread := unread[32..];
      var should := TagIngress(head);
      if should != tag {
        return content, Some(BadHeaderMAC);
      }
      var plain := XorIngress(head);
      var fsize := ReadInt24(plain);
      var rsize := fsize + Padding(fsize);
      if |unread| < rsize {
        unread := [];
        return content, Some(UnexpectedEOF);
      }
      var framebuf := unread[..rsize];
      assert framebuf == wire[32..32 + rsize];
      ingress := ingress + framebuf;
      unread := unread[rsize..];
      assert unread == wire[32 + rsize..];
      var seed := crypto.sum(ingress);
      if |unread| < 16 {
        unread := [];
        return content, Some(UnexpectedEOF);
      }
      tag := unread[..16];
      assert tag == wire[32 + rsize..32 + rsize + 16];
      unread := unread[16..];
      assert unread == wire[32 + rsize + 16..];
      should := TagIngress(seed);
      if should != tag {
        return content, Some(BadFrameMAC);
      }
      framebuf := XorIngress(framebuf);
      return framebuf[..fsize], None;
    }

    method ReadMsg() returns (r: ReadResult)
      requires ValidCrypto(crypto)
      modifies this`decPos, this`ingress, this`unread
      ensures var got := Frames.ReadMsg(crypto, snappy, old(In()), old(unread));
              && In() == got.lane && unread == got.rest
              && r == (if got.Failed? then Error(got.error) else Got(got.value))
    {
      hide Frames.ReadFrame, DecodeUint;
      var content, error := ReadFrame();
      if error.Some? {
        return Error(error.value);
      }
      var decoded := DecodeUint(content);
      if decoded.None? {
        return Error(BadCode);
      }
      var m := Msg(decoded.value.value, |decoded.value.rest|, decoded.value.rest);
      if snappy {
        var plain := crypto.decompress(m.payload);
        if plain.None? {
          return Error(BadSnappy);
        }
        if |plain.value| > MAX_UINT24 {
          return Error(TooLarge);
        }
        m := Msg(m.code, |plain.value|, plain.value);
      }
      return Got(m);
    }
  }
}
