/** The 65-byte signature string: s brought into the lower half, then r, s and the recovery id as
    hex digits. */
module SignatureString {
  import opened Common
  import opened Bytes

  // ------------------------------------------------------------------------ low s

  datatype LowResult = LowResult(s: int, flipped: bool)

  /** The step of `SignEC3` that justifies s; it fails when the result is zero. */
  function LowS(s: int, n: int): Option<LowResult> {
    var r := if s > n / 2 then LowResult(n - s, true) else LowResult(s, false);
    if r.s == 0 then None else Some(r)
  }

  /** For s in 1..n-1 the step yields the one of s and n - s that lies in 1..n/2. */
  lemma LowSInLowerHalf(s: int, n: int)
    requires 1 <= s <= n - 1
    ensures LowS(s, n).Some? && 1 <= LowS(s, n).value.s <= n / 2
    ensures LowS(s, n).value.s == (if LowS(s, n).value.flipped then n - s else s)
    ensures LowS(n - s, n).value.s == LowS(s, n).value.s
  {
  }

  /** The step fails exactly for s congruent to zero. */
  lemma LowSFailsIff(s: int, n: int)
    requires n > 1
    ensures LowS(s, n) == None <==> s == 0 || s == n
  {
  }

  // --------------------------------------------------------------------- the bytes

  /** A number right-aligned in `len` bytes. */
  function Padded(n: nat, len: nat): (b: bytes)
    requires |ToBytes(n)| <= len
    ensures |b| == len
  {
    Zeros(len - |ToBytes(n)|) + ToBytes(n)
  }

  lemma PaddedValue(n: nat, len: nat)
    requires |ToBytes(n)| <= len
    ensures FromBytes(Padded(n, len)) == n
  {
    LeadingZeros(Zeros(len - |ToBytes(n)|), ToBytes(n));
    FromToBytes(n);
  }

  /** Go's conversion of an int to a byte. */
  function ToByte(v: int): byte { Byte(v % 256) }

  /** The bytes that `GetSignString` puts together: lengths 31 and 32 are aligned to 32. */
  function SignBytes(r: nat, s: nat, v: int): bytes {
    var rr, ss := ToBytes(r), ToBytes(s);
    if |rr| == 31 && |ss| == 32 then Zeros(1) + rr + ss + [ToByte(v)]
    else if |rr| == 31 && |ss| == 31 then Zeros(1) + rr + Zeros(1) + ss + [ToByte(v)]
    else if |rr| == 32 && |ss| == 31 then rr + Zeros(1) + ss + [ToByte(v)]
    else rr + ss + [ToByte(v)]
  }

  // ------------------------------------------------------------------------- hex

  function HexDigit(x: nat): char
    requires x < 16
  {
    "0123456789ABCDEF"[x]
  }

  function DigitValue(ch: char): nat {
    if '0' <= ch <= '9' then (ch as int) - ('0' as int)
    else if 'A' <= ch <= 'F' then (ch as int) - ('A' as int) + 10
    else 0
  }

  function HexPair(b: byte): (h: string)
    ensures |h| == 2
  {
    [HexDigit(b as nat / 16), HexDigit(b as nat % 16)]
  }

  function PairValue(hi: char, lo: char): byte {
    Byte((16 * DigitValue(hi) + DigitValue(lo)) % 256)
  }

  /** `ToolDecimalByteSlice2HexString`. */
  function Hex(b: bytes): (h: string)
    ensures |h| == 2 * |b|
  {
    if b == [] then [] else Hex(b[..|b| - 1]) + HexPair(b[|b| - 1])
  }

  function UnHex(h: string): (b: bytes)
    requires |h| % 2 == 0
    ensures 2 * |b| == |h|
  {
    if h == [] then []
    else
      var n := |h|;
      UnHex(h[..n - 2]) + [PairValue(h[n - 2], h[n - 1])]
  }

  lemma DigitRoundTrip(x: nat)
    requires x < 16
    ensures DigitValue(HexDigit(x)) == x
  {
  }

  lemma DigitsOfByte(x: nat)
    requires x < 256
    ensures (16 * DigitValue(HexDigit(x / 16)) + DigitValue(HexDigit(x % 16))) % 256 == x
  {
    hide HexDigit, DigitValue;
    DigitRoundTrip(x / 16);
    DigitRoundTrip(x % 16);
  }

  lemma PairAsInt(hi: char, lo: char)
    ensures PairValue(hi, lo) as int == (16 * DigitValue(hi) + DigitValue(lo)) % 256
  {
    hide DigitValue;
  }

  /** The digits of a byte, given as a number. */
  lemma DigitsOf(b: byte, x: nat)
    requires b as nat == x
    ensures HexPair(b)[0] == HexDigit(x / 16) && HexPair(b)[1] == HexDigit(x % 16)
  {
    hide HexDigit;
  }

  lemma PairOfDigits(x: nat)
    requires x < 256
    ensures PairValue(HexDigit(x / 16), HexDigit(x % 16)) as int == x
  {
    hide *;
    DigitsOfByte(x);
    PairAsInt(HexDigit(x / 16), HexDigit(x % 16));
  }

  lemma PairRoundTrip(b: byte)
    ensures PairValue(HexPair(b)[0], HexPair(b)[1]) == b
  {
    hide *;
    var x := b as nat;
    DigitsOf(b, x);
    PairOfDigits(x);
    ByteInjective(PairValue(HexDigit(x / 16), HexDigit(x % 16)), b);
  }

  lemma {:induction false} HexRoundTrip(b: bytes)
    ensures UnHex(Hex(b)) == b
  {
    hide HexPair, PairValue;
    if b != [] {
      var n := |b| - 1;
      HexRoundTrip(b[..n]);
      PairRoundTrip(b[n]);
      var h := Hex(b);
      assert h[..|h| - 2] == Hex(b[..n]);
      assert h[|h| - 2] == HexPair(b[n])[0] && h[|h| - 1] == HexPair(b[n])[1];
    }
  }

  /** `GetSignString`. */
  function SignString(r: nat, s: nat, v: int): string {
    Hex(SignBytes(r, s, v))
  }

  // -------------------------------------------------------------------- decoding

  datatype Signature = Signature(r: nat, s: nat, v: nat)

  /** How a 130-digit string is read: 32 bytes r, 32 bytes s, one byte v. */
  function Decode(h: string): Signature
    requires |h| == 130
  {
    var b := UnHex(h);
    Signature(FromBytes(b[..32]), FromBytes(b[32..64]), b[64] as nat)
  }

  /** A string has 130 digits exactly when r and s both have 31 or 32 bytes. */
  lemma RightSizeIff(r: nat, s: nat, v: int)
    requires r < Pow256(32) && s < Pow256(32)
    ensures |SignString(r, s, v)| == 130 <==> Pow256(30) <= r && Pow256(30) <= s
  {
    hide ToBytes, Pow256;
    ToBytesLength(r, 32);
    ToBytesLength(s, 32);
    ToBytesLength(r, 30);
    ToBytesLength(s, 30);
  }

  lemma PaddedTo32(n: nat)
    requires |ToBytes(n)| == 31 || |ToBytes(n)| == 32
    ensures Padded(n, 32) == if |ToBytes(n)| == 31 then Zeros(1) + ToBytes(n) else ToBytes(n)
  {
    hide ToBytes;
    assert Zeros(0) + ToBytes(n) == ToBytes(n);
  }

  lemma RightSizeLengths(r: nat, s: nat, v: int)
    requires r < Pow256(32) && s < Pow256(32) && |SignString(r, s, v)| == 130
    ensures 31 <= |ToBytes(r)| <= 32 && 31 <= |ToBytes(s)| <= 32
  {
    hide ToBytes, Pow256;
    ToBytesLength(r, 32);
    ToBytesLength(s, 32);
  }

  /** The bytes of a string of the right size are r and s, each in 32 bytes, and v. */
  lemma RightSizeBytes(r: nat, s: nat, v: int)
    requires r < Pow256(32) && s < Pow256(32) && |SignString(r, s, v)| == 130
    ensures |ToBytes(r)| <= 32 && |ToBytes(s)| <= 32
    ensures SignBytes(r, s, v) == Padded(r, 32) + Padded(s, 32) + [ToByte(v)]
  {
    hide ToBytes, Pow256, Padded, Zeros, SignString;
    RightSizeLengths(r, s, v);
    PaddedTo32(r);
    PaddedTo32(s);
  }

  /** Every signature string that passes the size check decodes to the r, s and v it was made
      from. */
  lemma SignStringRoundTrip(r: nat, s: nat, v: int)
    requires r < Pow256(32) && s < Pow256(32) && 0 <= v < 256
    requires |SignString(r, s, v)| == 130
    ensures Decode(SignString(r, s, v)) == Signature(r, s, v)
  {
    hide ToBytes, Pow256, FromBytes, Padded, UnHex, Hex;
    RightSizeBytes(r, s, v);
    HexRoundTrip(SignBytes(r, s, v));
    var b := SignBytes(r, s, v);
    assert b[..32] == Padded(r, 32);
    assert b[32..64] == Padded(s, 32);
    PaddedValue(r, 32);
    PaddedValue(s, 32);
  }

  /** From the sum s of the signature shares to what a verifier reads: a value in the lower half
      that is s or its negative modulo n. */
  lemma SignedValueIsLow(r: nat, s: int, v: int, n: int)
    requires r < Pow256(32) && 1 <= s <= n - 1 && n <= Pow256(32) && 0 <= v < 256
    requires var low := LowS(s, n); low.Some? && low.value.s >= 0 && |SignString(r, low.value.s, v)| == 130
    ensures var d := Decode(SignString(r, LowS(s, n).value.s, v));
            d.r == r && d.v == v && 1 <= d.s <= n / 2 && (d.s == s || d.s == n - s)
  {
    hide Pow256, Decode, SignString;
    LowSInLowerHalf(s, n);
    SignStringRoundTrip(r, LowS(s, n).value.s, v);
  }

  // ------------------------------------------------------------- the buffer in place

  /** One more leading byte. */
  lemma PrependByte(low: nat, d: nat, s: bytes)
    requires FromBytes(s) == low
    ensures FromBytes([ToByte(d)] + s) == low + d % 256 * Pow256(|s|)
  {
    FromBytesAppend([ToByte(d)], s);
    assert [ToByte(d)][..0] == [];
  }

  lemma ShiftByte(d: nat, p: nat)
    ensures d * p == d % 256 * p + d / 256 * (256 * p)
  {
    assert d == d % 256 + 256 * (d / 256);
    assert (256 * (d / 256)) * p == d / 256 * (256 * p);
  }

  /** The number without its last `k` bytes. */
  function Shift(n: nat, k: nat): nat {
    if k == 0 then n else Shift(n, k - 1) / 256
  }

  /** The last `k` bytes of the number. */
  function LowBytes(n: nat, k: nat): (b: bytes)
    ensures |b| == k
  {
    if k == 0 then [] else [ToByte(Shift(n, k - 1))] + LowBytes(n, k - 1)
  }

  /** They are the number modulo 256^k. */
  lemma {:induction false} LowBytesValue(n: nat, k: nat)
    ensures n == FromBytes(LowBytes(n, k)) + Times(Shift(n, k), Pow256(k))
  {
    hide FromBytes, Pow256, Times;
    if k == 0 {
      NothingWritten(n);
    } else {
      LowBytesValue(n, k - 1);
      WriteByte(n, Shift(n, k - 1), LowBytes(n, k - 1));
    }
  }

  lemma {:induction false} ShiftTwice(n: nat, a: nat, b: nat)
    ensures Shift(Shift(n, a), b) == Shift(n, a + b)
  {
    if b > 0 {
      ShiftTwice(n, a, b - 1);
    }
  }

  lemma {:induction false} ShiftSmaller(n: nat, k: nat)
    ensures Shift(n, k) <= n && (n > 0 && k > 0 ==> Shift(n, k) < n)
  {
    if k > 0 {
      ShiftSmaller(n, k - 1);
    }
  }

  /** The value of the last `k` bytes. */
  function Low(n: nat, k: nat): nat {
    if k == 0 then 0 else n % 256 + 256 * Low(n / 256, k - 1)
  }

  /** It is the number modulo 256^k. */
  lemma {:induction false} LowValue(n: nat, k: nat)
    ensures Low(n, k) < Pow256(k) && n == Low(n, k) + Times(Shift(n, k), Pow256(k))
  {
    if k > 0 {
      LowValue(n / 256, k - 1);
      ShiftTwice(n, 1, k - 1);
      assert Shift(n, 1) == n / 256;
      TimesShift(Shift(n, k), Pow256(k - 1));
    }
  }

  lemma TimesShift(a: nat, p: nat)
    ensures Times(a, 256 * p) == 256 * Times(a, p)
  {
  }

  /** The words of a `big.Int`, least significant first. */
  function Words(n: nat, wordBytes: nat): seq<nat>
    requires wordBytes > 0
    decreases n
  {
    ShiftSmaller(n, wordBytes);
    if n == 0 then [] else [Low(n, wordBytes)] + Words(Shift(n, wordBytes), wordBytes)
  }

  /** How many bytes `ReadBits` writes into a slice of the given length. */
  function Written(n: nat, wordBytes: nat, len: nat): (c: nat)
    requires wordBytes > 0
    ensures c <= len
  {
    var all := Times(wordBytes, |Words(n, wordBytes)|);
    if all < len then all else len
  }

  lemma WordSteps(wordBytes: nat, k: nat)
    ensures Times(wordBytes, 0) == 0 && Times(wordBytes, k + 1) == Times(wordBytes, k) + wordBytes
    ensures Times(wordBytes, k) >= 0
  {
  }

  lemma NextWord(words: seq<nat>, x: nat, wordBytes: nat)
    requires wordBytes > 0 && words != [] && words == Words(x, wordBytes)
    ensures words[0] == Low(x, wordBytes) && words[1..] == Words(Shift(x, wordBytes), wordBytes)
  {
  }

  lemma {:induction false} ShiftWord(x: nat, w: nat, k: nat)
    requires k <= w
    ensures Shift(Low(x, w), k) == Low(Shift(x, k), w - k)
  {
    if k > 0 {
      ShiftWord(x, w, k - 1);
    }
  }

  lemma LowByte(x: nat, w: nat)
    requires w > 0
    ensures ToByte(Low(x, w)) == ToByte(x)
  {
    assert Low(x, w) % 256 == x % 256;
  }

  /** The bytes of a word are bytes of the number. */
  lemma {:induction false} WordBytes(x: nat, w: nat, k: nat)
    requires k <= w
    ensures LowBytes(Low(x, w), k) == LowBytes(x, k)
  {
    hide Shift, Low, ToByte;
    if k > 0 {
      ShiftWord(x, w, k - 1);
      LowByte(Shift(x, k - 1), w - (k - 1));
      WordBytes(x, w, k - 1);
    }
  }

  lemma {:induction false} LowBytesAppend(n: nat, c: nat, k: nat)
    ensures LowBytes(Shift(n, c), k) + LowBytes(n, c) == LowBytes(n, c + k)
  {
    if k > 0 {
      LowBytesAppend(n, c, k - 1);
      ShiftTwice(n, c, k - 1);
    }
  }

  lemma {:induction false} WordsCover(n: nat, wordBytes: nat)
    requires wordBytes > 0
    ensures Shift(n, Times(wordBytes, |Words(n, wordBytes)|)) == 0
    decreases n
  {
    hide Times, Low;
    var words := Words(n, wordBytes);
    if n == 0 {
      WordSteps(wordBytes, 0);
    } else {
      var rest := Shift(n, wordBytes);
      ShiftSmaller(n, wordBytes);
      WordsCover(rest, wordBytes);
      WordSteps(wordBytes, |words| - 1);
      ShiftTwice(n, wordBytes, Times(wordBytes, |words| - 1));
    }
  }

  /** As many bytes as the fewest whole words have that hold the number, or as the slice has. */
  lemma {:induction false} WordsAreFewest(n: nat, wordBytes: nat)
    requires wordBytes > 0 && n > 0
    ensures |Words(n, wordBytes)| > 0 && Shift(n, Times(wordBytes, |Words(n, wordBytes)| - 1)) > 0
    decreases n
  {
    hide Times, Low;
    var words := Words(n, wordBytes);
    var rest := Shift(n, wordBytes);
    ShiftSmaller(n, wordBytes);
    WordSteps(wordBytes, 0);
    if rest > 0 {
      WordsAreFewest(rest, wordBytes);
      WordSteps(wordBytes, |words| - 2);
      ShiftTwice(n, wordBytes, Times(wordBytes, |words| - 2));
    } else {
      assert |words| == 1;
    }
  }

  lemma WrittenMeans(n: nat, wordBytes: nat, len: nat)
    requires wordBytes > 0
    ensures var c := Written(n, wordBytes, len);
            || c == len
            || (exists k :: c == Times(wordBytes, k) && Shift(n, c) == 0
                            && (k == 0 ==> n == 0) && (k > 0 ==> Shift(n, Times(wordBytes, k - 1)) > 0))
    ensures Written(n, wordBytes, len) <= Times(wordBytes, |Words(n, wordBytes)|)
  {
    hide Shift, Times;
    WordSteps(wordBytes, 0);
    WordsCover(n, wordBytes);
    if n > 0 {
      WordsAreFewest(n, wordBytes);
    }
  }

  /** In a zeroed slice that is long enough the number stands right-aligned. */
  lemma WrittenIsPadded(n: nat, wordBytes: nat, len: nat)
    requires wordBytes > 0 && |ToBytes(n)| <= len
    ensures var c := Written(n, wordBytes, len);
            Zeros(len - c) + LowBytes(n, c) == Padded(n, len)
  {
    hide ToBytes, Words, Shift, LowBytes, Padded, Times, FromBytes, Pow256;
    var c := Written(n, wordBytes, len);
    WordsCover(n, wordBytes);
    LowBytesValue(n, c);
    AllWritten(n, Shift(n, c), len - c, LowBytes(n, c));
  }

  /** The inner loop of `ReadBits`: the bytes of one word, right to left, down to `lo`. */
  method WriteWord(word: nat, wordBytes: nat, buf: array<byte>, lo: nat, hi: nat) returns (i: nat)
    requires lo <= hi <= buf.Length
    modifies buf
    ensures i == if wordBytes < hi - lo then hi - wordBytes else lo
    ensures buf[..] == old(buf[..i]) + LowBytes(word, hi - i) + old(buf[hi..])
  {
    hide Shift, LowBytes, ToByte;
    var d, j := word, 0;
    i := hi;
    NoBytes(word);
    while j < wordBytes && i > lo
      invariant 0 <= j <= wordBytes && lo <= i == hi - j
      invariant d == Shift(word, j)
      invariant buf[..] == old(buf[..i]) + LowBytes(word, j) + old(buf[hi..])
    {
      ghost var before := buf[..];
      i := i - 1;
      buf[i] := ToByte(d);
      assert buf[..] == before[..i] + [ToByte(d)] + before[i + 1..];
      Splice(old(buf[..]), before, LowBytes(word, j), [ToByte(d)], i, i + 1, hi);
      OneMoreByte(word, j);
      d := d / 256;
      j := j + 1;
    }
  }

  lemma OneMoreByte(n: nat, k: nat)
    ensures LowBytes(n, k + 1) == [ToByte(Shift(n, k))] + LowBytes(n, k) && Shift(n, k + 1) == Shift(n, k) / 256
  {
  }

  /** `ReadBits` into the slice from `lo` to `hi`: whole words from the right, as far as they fit;
      nothing else is touched. */
  method ReadBits(n: nat, wordBytes: nat, buf: array<byte>, lo: nat, hi: nat)
    requires lo <= hi <= buf.Length && wordBytes > 0
    modifies buf
    ensures var i := hi - Written(n, wordBytes, hi - lo);
            buf[..] == old(buf[..i]) + LowBytes(n, hi - i) + old(buf[hi..])
  {
    hide Shift, LowBytes, Low, Times, Words;
    var bits := Words(n, wordBytes);
    var i := hi;
    WordSteps(wordBytes, 0);
    NoBytes(n);
    for k := 0 to |bits|
      invariant lo <= i <= hi
      invariant buf[..] == old(buf[..i]) + LowBytes(n, hi - i) + old(buf[hi..])
      invariant hi - i == if Times(wordBytes, k) < hi - lo then Times(wordBytes, k) else hi - lo
      invariant i > lo ==> bits[k..] == Words(Shift(n, hi - i), wordBytes)
    {
      ghost var i0, x, before := i, Shift(n, hi - i), buf[..];
      if i > lo {
        NextWord(bits[k..], x, wordBytes);
      }
      i := WriteWord(bits[k], wordBytes, buf, lo, i);
      WordSteps(wordBytes, k);
      if i0 > lo {
        WordBytes(x, wordBytes, i0 - i);
        LowBytesAppend(n, hi - i0, i0 - i);
        ShiftTwice(n, hi - i0, wordBytes);
      } else {
        NoBytes(bits[k]);
      }
      Splice(old(buf[..]), before, LowBytes(n, hi - i0), LowBytes(bits[k], i0 - i), i, i0, hi);
    }
  }

  lemma NoBytes(n: nat)
    ensures LowBytes(n, 0) == [] && Shift(n, 0) == n
  {
  }

  lemma Splice(first: bytes, before: bytes, a: bytes, b: bytes, i: nat, i0: nat, hi: nat)
    requires i <= i0 <= hi <= |first| && |a| == hi - i0 && before == first[..i0] + a + first[hi..]
    ensures before[..i] + b + before[i0..] == first[..i] + (b + a) + first[hi..]
  {
    assert before[..i] == first[..i] && before[i0..] == a + first[hi..];
  }

  lemma NothingWritten(n: nat)
    ensures n == FromBytes([]) + Times(n, Pow256(0))
  {
  }

  lemma WriteByte(n: nat, d: nat, written: bytes)
    requires n == FromBytes(written) + Times(d, Pow256(|written|))
    ensures n == FromBytes([ToByte(d)] + written) + Times(d / 256, Pow256(|written| + 1))
  {
    PrependByte(FromBytes(written), d, written);
    ShiftByte(d, Pow256(|written|));
  }

  /** When the loop ends everything is written: what is left over would need more bytes. */
  lemma AllWritten(n: nat, d: nat, zeros: nat, written: bytes)
    requires n == FromBytes(written) + Times(d, Pow256(|written|))
    requires |ToBytes(n)| <= zeros + |written| && (zeros == 0 || d == 0)
    ensures Zeros(zeros) + written == Padded(n, zeros + |written|)
  {
    hide ToBytes, FromBytes, Pow256, Padded, Times, Zeros;
    var len := zeros + |written|;
    ToBytesLength(n, len);
    LeftOver(d, Pow256(|written|));
    assert d == 0;
    LeadingZeros(Zeros(zeros), written);
    PaddedValue(n, len);
    FromBytesInjective(Zeros(zeros) + written, Padded(n, len));
  }

  lemma LeftOver(d: nat, p: nat)
    ensures if d > 0 then Times(d, p) >= p else Times(d, p) == 0
  {
    assert d * p == (d - 1) * p + p;
  }

  method HexString(b: bytes) returns (h: string)
    ensures h == Hex(b)
  {
    h := [];
    assert b[..0] == [];
    var i := 0;
    while i < |b|
      invariant 0 <= i <= |b|
      invariant h == Hex(b[..i])
    {
      assert b[..i + 1][..i] == b[..i];
      h := h + HexPair(b[i]);
      i := i + 1;
    }
    assert b[..i] == b;
  }

  /** `ReadBits` into a zeroed slice that is long enough. */
  method ReadBitsInto(n: nat, wordBytes: nat, buf: array<byte>, lo: nat, hi: nat)
    requires lo <= hi <= buf.Length && wordBytes > 0 && |ToBytes(n)| <= hi - lo
    requires forall k :: lo <= k < hi ==> buf[k] == 0
    modifies buf
    ensures buf[..] == old(buf[..lo]) + Padded(n, hi - lo) + old(buf[hi..])
  {
    hide ToBytes, Padded, LowBytes, Written;
    ghost var front := buf[..lo];
    ghost var c := Written(n, wordBytes, hi - lo);
    assert buf[..hi - c] == front + Zeros(hi - lo - c);
    ReadBits(n, wordBytes, buf, lo, hi);
    WrittenIsPadded(n, wordBytes, hi - lo);
  }

  /** Fill a zeroed buffer: r from `r0` to `r1`, s from `s0` to `s1`, and v behind them. */
  method FillBuffer(r: nat, s: nat, v: int, wordBytes: nat, r0: nat, r1: nat, s0: nat, s1: nat) returns (b: bytes)
    requires r0 <= r1 <= s0 <= s1 && |ToBytes(r)| <= r1 - r0 && |ToBytes(s)| <= s1 - s0 && wordBytes > 0
    ensures b == Zeros(r0) + Padded(r, r1 - r0) + Zeros(s0 - r1) + Padded(s, s1 - s0) + [ToByte(v)]
  {
    hide ToBytes, Padded;
    var sigs := new byte[s1 + 1](_ => 0);
    assert sigs[..r0] == Zeros(r0) && sigs[r1..] == Zeros(s1 + 1 - r1);
    ReadBitsInto(r, wordBytes, sigs, r0, r1);
    ghost var front := Zeros(r0) + Padded(r, r1 - r0) + Zeros(s0 - r1);
    assert sigs[..s0] == front && sigs[s0..] == Zeros(s1 + 1 - s0);
    assert forall k :: s0 <= k < s1 ==> sigs[k] == sigs[s0..][k - s0] == 0;
    ReadBitsInto(s, wordBytes, sigs, s0, s1);
    sigs[s1] := ToByte(v);
    b := sigs[..];
    assert b == front + Padded(s, s1 - s0) + [ToByte(v)];
  }

  lemma ExactlyPadded(n: nat)
    ensures Padded(n, |ToBytes(n)|) == ToBytes(n)
  {
    assert Zeros(0) + ToBytes(n) == ToBytes(n);
  }

  lemma NoZeros(a: bytes, b: bytes)
    ensures Zeros(0) + a + Zeros(0) + b == a + b
    ensures forall z: bytes :: z + a + Zeros(0) + b == z + a + b
    ensures forall z: bytes :: Zeros(0) + a + z + b == a + z + b
  {
    assert Zeros(0) == [];
    assert forall z: bytes :: z + a + [] == z + a;
    assert [] + a == a;
  }

  /** `GetSignString`, case by case, for any size of a machine word. */
  method GetSignString(r: nat, s: nat, v: int, wordBytes: nat) returns (h: string)
    requires wordBytes > 0
    ensures h == SignString(r, s, v)
  {
    hide ToBytes, Padded, Hex, Zeros, ToByte;
    var rr, ss := |ToBytes(r)|, |ToBytes(s)|;
    ExactlyPadded(r);
    ExactlyPadded(s);
    NoZeros(ToBytes(r), ToBytes(s));
    var sigs;
    if rr == 31 && ss == 32 {
      sigs := FillBuffer(r, s, v, wordBytes, 1, 32, 32, 64);
    } else if rr == 31 && ss == 31 {
      sigs := FillBuffer(r, s, v, wordBytes, 1, 32, 33, 64);
    } else if rr == 32 && ss == 31 {
      sigs := FillBuffer(r, s, v, wordBytes, 0, 32, 33, 64);
    } else {
      sigs := FillBuffer(r, s, v, wordBytes, 0, rr, rr, rr + ss);
    }
    h := HexString(sigs);
  }
}
