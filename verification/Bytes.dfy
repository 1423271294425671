/** Bytes and the big-endian representation of natural numbers (`big.Int.Bytes`, `SetBytes`). */
module Bytes {

  type byte = bv8
  type bytes = seq<byte>

  function Byte(x: int): (b: byte)
    requires 0 <= x < 256
    ensures b as int == x
  {
    x as byte
  }

  lemma ByteInjective(a: byte, b: byte)
    requires a as int == b as int
    ensures a == b
  {
    assert (a as int) as byte == a;
    assert (b as int) as byte == b;
  }

  function Zeros(n: nat): (z: bytes)
    ensures |z| == n && forall i :: 0 <= i < n ==> z[i] == 0
  {
    seq(n, _ => 0 as byte)
  }

  /** The minimal big-endian representation; empty for zero. */
  function ToBytes(n: nat): (b: bytes)
    ensures b != [] ==> b[0] != 0
  {
    if n == 0 then [] else
      var hi := ToBytes(n / 256);
      if n / 256 == 0 then
        assert n % 256 == n;
        [Byte(n % 256)]
      else hi + [Byte(n % 256)]
  }

  function FromBytes(b: bytes): nat {
    if b == [] then 0 else 256 * FromBytes(b[..|b| - 1]) + b[|b| - 1] as nat
  }

  /** Reading back what was written. */
  lemma {:induction false} FromToBytes(n: nat)
    ensures FromBytes(ToBytes(n)) == n
  {
    if n != 0 {
      FromToBytes(n / 256);
      var hi, lo := ToBytes(n / 256), Byte(n % 256);
      assert ToBytes(n) == hi + [lo];
      assert (hi + [lo])[..|hi|] == hi;
    }
  }

  lemma {:induction false} FromBytesAppend(a: bytes, b: bytes)
    ensures FromBytes(a + b) == FromBytes(a) * Pow256(|b|) + FromBytes(b)
  {
    if b == [] {
      assert a + b == a;
    } else {
      var b', l := b[..|b| - 1], b[|b| - 1];
      FromBytesAppend(a, b');
      assert (a + b)[..|a + b| - 1] == a + b';
      MulStep(FromBytes(a), Pow256(|b'|), FromBytes(b'));
    }
  }

  lemma MulStep(x: nat, y: nat, z: nat)
    ensures 256 * (x * y + z) == x * (256 * y) + 256 * z
  {
  }

  function Pow256(n: nat): (p: nat)
    ensures p >= 1
  {
    if n == 0 then 1 else 256 * Pow256(n - 1)
  }

  lemma {:induction false} FromBytesBound(b: bytes)
    ensures FromBytes(b) < Pow256(|b|)
  {
    if b != [] {
      FromBytesBound(b[..|b| - 1]);
    }
  }

  /** A number has at most `k` bytes exactly when it is below 256^k. */
  lemma {:induction false} ToBytesLength(n: nat, k: nat)
    ensures |ToBytes(n)| <= k <==> n < Pow256(k)
    decreases k, n
  {
    if k == 0 {
    } else if n != 0 {
      ToBytesLength(n / 256, k - 1);
      assert n / 256 < Pow256(k - 1) <==> n < 256 * Pow256(k - 1);
    }
  }

  lemma {:induction false} LeadingByte(b: bytes)
    requires b != [] && b[0] != 0
    ensures FromBytes(b) >= Pow256(|b| - 1)
  {
    if |b| == 1 {
      assert b[0] as nat >= 1 by {
        if b[0] as int == 0 { ByteInjective(b[0], 0); }
      }
      assert b[..0] == [];
    } else {
      LeadingByte(b[..|b| - 1]);
    }
  }

  /** Different minimal representations of different lengths denote different numbers. */
  lemma ShorterIsSmaller(a: bytes, b: bytes)
    requires |a| < |b| && b[0] != 0
    ensures FromBytes(a) < FromBytes(b)
  {
    FromBytesBound(a);
    LeadingByte(b);
    Pow256Monotone(|a|, |b| - 1);
  }

  lemma {:induction false} Pow256Monotone(m: nat, n: nat)
    requires m <= n
    ensures Pow256(m) <= Pow256(n)
  {
    if m < n {
      Pow256Monotone(m, n - 1);
    }
  }

  /** Leading zeros do not change the number. */
  lemma {:induction false} LeadingZeros(z: bytes, b: bytes)
    requires forall i :: 0 <= i < |z| ==> z[i] == 0
    ensures FromBytes(z + b) == FromBytes(b)
  {
    FromBytesAppend(z, b);
    ZerosAreZero(z);
  }

  lemma {:induction false} ZerosAreZero(z: bytes)
    requires forall i :: 0 <= i < |z| ==> z[i] == 0
    ensures FromBytes(z) == 0
  {
    if z != [] {
      ZerosAreZero(z[..|z| - 1]);
    }
  }

  /** Sequences of the same length and the same value are the same. */
  lemma {:induction false} FromBytesInjective(a: bytes, b: bytes)
    requires |a| == |b| && FromBytes(a) == FromBytes(b)
    ensures a == b
  {
    if a != [] {
      var n := |a| - 1;
      LastByte(FromBytes(a[..n]), a[n], FromBytes(b[..n]), b[n]);
      FromBytesInjective(a[..n], b[..n]);
      assert a == a[..n] + [a[n]] && b == b[..n] + [b[n]];
    }
  }

  /** Bytes that do not start with a zero are the bytes of their number. */
  lemma ToFromBytes(b: bytes)
    requires b != [] && b[0] != 0
    ensures ToBytes(FromBytes(b)) == b
  {
    var c := ToBytes(FromBytes(b));
    FromToBytes(FromBytes(b));
    if |c| < |b| {
      ShorterIsSmaller(c, b);
    } else if |b| < |c| {
      ShorterIsSmaller(b, c);
    } else {
      FromBytesInjective(c, b);
    }
  }

  lemma LastByte(x: nat, a: byte, y: nat, b: byte)
    requires 256 * x + a as nat == 256 * y + b as nat
    ensures x == y && a == b
  {
    assert a as int == b as int;
    ByteInjective(a, b);
  }
}
