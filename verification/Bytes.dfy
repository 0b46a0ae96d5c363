/** Bytes, fixed-width integer codecs and byte-wise XOR shared by every wire format of the proxy. */
module ByteCodec {

  type byte = n: int | 0 <= n < 256
  type Bytes = seq<byte>

  datatype Option<+T> = None | Some(value: T)

  function Min(a: int, b: int): int {
    if a <= b then a else b
  }

  /** 256 to the power k: the number of values a k-byte integer can hold. */
  function Pow256(k: nat): (r: nat)
    ensures r > 0
  {
    if k == 0 then 1 else 256 * Pow256(k - 1)
  }

  lemma Pow256Values()
    ensures Pow256(1) == 256
    ensures Pow256(2) == 65536
    ensures Pow256(3) == 16777216
    ensures Pow256(4) == 4294967296
  {
    assert Pow256(1) == 256 * Pow256(0);
    assert Pow256(2) == 256 * Pow256(1);
    assert Pow256(3) == 256 * Pow256(2);
    assert Pow256(4) == 256 * Pow256(3);
  }

  /** Little-endian encoding of the low k bytes of n; higher bytes are cut off, as a Go conversion does. */
  function LE(n: nat, k: nat): (r: Bytes)
    ensures |r| == k
  {
    if k == 0 then [] else [n % 256] + LE(n / 256, k - 1)
  }

  function FromLE(b: Bytes): (n: nat)
    ensures n < Pow256(|b|)
  {
    if b == [] then 0 else b[0] + 256 * FromLE(b[1..])
  }

  lemma {:induction false} LERoundTrip(n: nat, k: nat)
    requires n < Pow256(k)
    ensures FromLE(LE(n, k)) == n
  {
    if k > 0 {
      LERoundTrip(n / 256, k - 1);
      assert LE(n, k)[1..] == LE(n / 256, k - 1);
    }
  }

  lemma {:induction false} LEInverse(b: Bytes)
    ensures LE(FromLE(b), |b|) == b
  {
    if b != [] {
      LEInverse(b[1..]);
      var t := FromLE(b[1..]);
      assert FromLE(b) == b[0] + 256 * t;
      assert FromLE(b) % 256 == b[0] && FromLE(b) / 256 == t;
      assert b == [b[0]] + b[1..];
    }
  }

  /** Big-endian encoding of the low k bytes of n. */
  function BE(n: nat, k: nat): (r: Bytes)
    ensures |r| == k
  {
    if k == 0 then [] else BE(n / 256, k - 1) + [n % 256]
  }

  function FromBE(b: Bytes): (n: nat)
    ensures n < Pow256(|b|)
  {
    if b == [] then 0 else 256 * FromBE(b[..|b| - 1]) + b[|b| - 1]
  }

  lemma {:induction false} BERoundTrip(n: nat, k: nat)
    requires n < Pow256(k)
    ensures FromBE(BE(n, k)) == n
  {
    if k > 0 {
      BERoundTrip(n / 256, k - 1);
      assert BE(n, k)[..k - 1] == BE(n / 256, k - 1);
    }
  }

  /** Two digits to base 256. */
  function Digits(high: int, low: int): int {
    256 * high + low
  }

  /** What the bytes of small integers are worth: the least significant byte comes first or, big-endian, last. */
  lemma LEValue(b: Bytes)
    ensures |b| == 2 ==> FromLE(b) == Digits(b[1], b[0])
    ensures |b| == 4 ==> FromLE(b) == Digits(Digits(Digits(b[3], b[2]), b[1]), b[0])
  {
    if |b| == 2 || |b| == 4 {
      var b1 := b[1..];
      assert FromLE(b) == b[0] + 256 * FromLE(b1);
      if |b| == 4 {
        var b2 := b1[1..];
        assert FromLE(b1) == b1[0] + 256 * FromLE(b2);
        LEPair(b2);
      } else {
        assert b1[1..] == [];
      }
    }
  }

  lemma LEPair(b: Bytes)
    requires |b| == 2
    ensures FromLE(b) == Digits(b[1], b[0])
  {
    assert b[1..][1..] == [] && FromLE(b[1..]) == b[1];
  }

  lemma BEValue(b: Bytes)
    ensures |b| == 2 ==> FromBE(b) == Digits(b[0], b[1])
    ensures |b| == 3 ==> FromBE(b) == Digits(Digits(b[0], b[1]), b[2])
  {
    if |b| == 2 {
      BEPair(b);
    } else if |b| == 3 {
      BEPair(b[..2]);
    }
  }

  lemma BEPair(b: Bytes)
    requires |b| == 2
    ensures FromBE(b) == Digits(b[0], b[1])
  {
    var first := b[..1];
    assert first[..0] == [] && FromBE(first) == first[0];
  }

  function Zeros(n: nat): (r: Bytes)
    ensures |r| == n
    ensures forall i :: 0 <= i < n ==> r[i] == 0
  {
    seq(n, i => 0)
  }

  function XorBit(a: nat, b: nat): nat {
    if a % 2 == b % 2 then 0 else 1
  }

  /** Bitwise XOR of the low k bits, one bit at a time. */
  function XorBits(a: nat, b: nat, k: nat): (r: nat) {
    if k == 0 then 0 else XorBit(a, b) + 2 * XorBits(a / 2, b / 2, k - 1)
  }

  lemma Halves(bit: nat, n: nat)
    requires bit < 2
    ensures (bit + 2 * n) / 2 == n && (bit + 2 * n) % 2 == bit
  {
  }

  function Pow2(k: nat): (r: nat)
    ensures r > 0
  {
    if k == 0 then 1 else 2 * Pow2(k - 1)
  }

  lemma {:induction false} XorBitsBound(a: nat, b: nat, k: nat)
    ensures XorBits(a, b, k) < Pow2(k)
  {
    if k > 0 {
      XorBitsBound(a / 2, b / 2, k - 1);
    }
  }

  lemma {:induction false} XorBitsCancels(a: nat, b: nat, k: nat)
    requires a < Pow2(k)
    ensures XorBits(XorBits(a, b, k), b, k) == a
  {
    if k > 0 {
      XorBitsCancels(a / 2, b / 2, k - 1);
      Halves(XorBit(a, b), XorBits(a / 2, b / 2, k - 1));
      assert XorBit(XorBits(a, b, k), b) == a % 2;
    }
  }

  lemma {:induction false} XorBitsSymmetric(a: nat, b: nat, k: nat)
    ensures XorBits(a, b, k) == XorBits(b, a, k)
  {
    if k > 0 {
      XorBitsSymmetric(a / 2, b / 2, k - 1);
    }
  }

  lemma {:induction false} XorBitsZero(a: nat, b: nat, k: nat)
    requires a < Pow2(k) && b < Pow2(k)
    ensures XorBits(a, b, k) == 0 <==> a == b
  {
    if k > 0 {
      XorBitsZero(a / 2, b / 2, k - 1);
    }
  }

  lemma Pow2Of8()
    ensures Pow2(8) == 256
  {
    assert Pow2(4) == 16;
    assert Pow2(6) == 4 * Pow2(4);
    assert Pow2(8) == 4 * Pow2(6);
  }

  function Xor(a: byte, b: byte): (r: byte) {
    Pow2Of8();
    XorBitsBound(a, b, 8);
    XorBits(a, b, 8)
  }

  /** XOR is its own inverse, symmetric, and zero exactly on equal bytes. */
  lemma XorCancels(a: byte, b: byte)
    ensures Xor(Xor(a, b), b) == a
    ensures Xor(a, b) == Xor(b, a)
    ensures Xor(a, b) == 0 <==> a == b
  {
    Pow2Of8();
    XorBitsCancels(a, b, 8);
    XorBitsSymmetric(a, b, 8);
    XorBitsZero(a, b, 8);
  }

  /** Bit i, counted from the least significant one. */
  predicate Bit(n: nat, i: nat) {
    if i == 0 then n % 2 == 1 else Bit(n / 2, i - 1)
  }

  lemma {:induction false} XorBitsAt(a: nat, b: nat, k: nat, i: nat)
    requires i < k
    ensures Bit(XorBits(a, b, k), i) <==> (Bit(a, i) <==> !Bit(b, i))
    decreases k
  {
    Halves(XorBit(a, b), XorBits(a / 2, b / 2, k - 1));
    if i > 0 {
      XorBitsAt(a / 2, b / 2, k - 1, i - 1);
    }
  }

  /** A bit is set exactly where one of the two bytes has it and the other has not. */
  lemma XorIsBitwise(a: byte, b: byte, i: nat)
    requires i < 8
    ensures Bit(Xor(a, b), i) <==> (Bit(a, i) <==> !Bit(b, i))
  {
    XorBitsAt(a, b, 8, i);
  }

  /** XOR of two equally long byte strings. */
  function XorBytes(a: Bytes, b: Bytes): (r: Bytes)
    requires |a| == |b|
    ensures |r| == |a|
    ensures forall i :: 0 <= i < |a| ==> r[i] == Xor(a[i], b[i])
  {
    seq(|a|, i requires 0 <= i < |a| => Xor(a[i], b[i]))
  }

  lemma XorBytesCancels(a: Bytes, b: Bytes)
    requires |a| == |b|
    ensures XorBytes(XorBytes(a, b), b) == a
  {
    forall i | 0 <= i < |a|
      ensures XorBytes(XorBytes(a, b), b)[i] == a[i]
    {
      XorCancels(a[i], b[i]);
    }
  }

  /** Cutting a concatenation of three parts where they meet. */
  lemma ThreeParts(a: Bytes, b: Bytes, c: Bytes)
    ensures (a + b + c)[..|a|] == a
    ensures (a + b + c)[|a|..|a| + |b|] == b
    ensures (a + b + c)[|a| + |b|..] == c
  {
  }

  function Concat(parts: seq<Bytes>): Bytes {
    if parts == [] then [] else parts[0] + Concat(parts[1..])
  }

  lemma {:induction false} ConcatAppend(a: seq<Bytes>, b: seq<Bytes>)
    ensures Concat(a + b) == Concat(a) + Concat(b)
  {
    if a == [] {
      assert a + b == b;
    } else {
      assert (a + b)[1..] == a[1..] + b;
      ConcatAppend(a[1..], b);
    }
  }

  lemma Regroup(a: Bytes, b: Bytes, c: Bytes)
    ensures (a + b) + c == a + (b + c)
  {
  }
}
