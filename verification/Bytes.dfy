/** Bytes as integers, and the exclusive-or the packet and cipher code uses. */
module Bytes {
  type byte = x: int | 0 <= x < 256

  datatype Option<+T> = None | Some(value: T)

  function Pow2(n: nat): (p: nat)
    ensures p > 0
  {
    if n == 0 then 1 else 2 * Pow2(n - 1)
  }

  /** Exclusive-or of the low n bits of a and b, bit by bit. */
  function XorBits(a: nat, b: nat, n: nat): (r: nat)
    ensures r < Pow2(n)
  {
    if n == 0 then 0 else (a % 2 + b % 2) % 2 + 2 * XorBits(a / 2, b / 2, n - 1)
  }

  function Xor(a: byte, b: byte): byte {
    assert Pow2(8) == 256;
    XorBits(a, b, 8)
  }

  lemma BitCancels(x: nat, y: nat, high: nat)
    requires x < 2 && y < 2
    ensures var r := (x + y) % 2 + 2 * high;
            r / 2 == high && (r % 2 + y) % 2 == x
  {
  }

  lemma {:induction false} XorBitsCancels(a: nat, b: nat, n: nat)
    requires a < Pow2(n)
    ensures XorBits(XorBits(a, b, n), b, n) == a
  {
    if n > 0 {
      BitCancels(a % 2, b % 2, XorBits(a / 2, b / 2, n - 1));
      XorBitsCancels(a / 2, b / 2, n - 1);
    }
  }

  lemma XorCancels(a: byte, b: byte)
    ensures Xor(Xor(a, b), b) == a
  {
    assert Pow2(8) == 256;
    XorBitsCancels(a, b, 8);
  }

  /** Bit i of a. */
  function Bit(a: nat, i: nat): nat {
    if i == 0 then a % 2 else Bit(a / 2, i - 1)
  }

  lemma {:induction false} XorBitsAt(a: nat, b: nat, n: nat, i: nat)
    requires i < n
    ensures Bit(XorBits(a, b, n), i) == (Bit(a, i) + Bit(b, i)) % 2
  {
    var x := XorBits(a, b, n);
    assert x % 2 == (a % 2 + b % 2) % 2 && x / 2 == XorBits(a / 2, b / 2, n - 1);
    if i > 0 {
      XorBitsAt(a / 2, b / 2, n - 1, i - 1);
    }
  }

  /** Each bit of the exclusive-or is set if and only if exactly one of the two is. */
  lemma XorAt(a: byte, b: byte, i: nat)
    requires i < 8
    ensures Bit(Xor(a, b), i) == 1 <==> (Bit(a, i) == 1) != (Bit(b, i) == 1)
  {
    XorBitsAt(a, b, 8, i);
    BitIsBit(a, i);
    BitIsBit(b, i);
  }

  lemma {:induction false} BitIsBit(a: nat, i: nat)
    ensures Bit(a, i) == 0 || Bit(a, i) == 1
  {
    if i > 0 {
      BitIsBit(a / 2, i - 1);
    }
  }

  /** With 0x20, bit 5 changes and nothing else. */
  lemma XorBit5(b: byte)
    ensures Xor(b, 0x20) == if (b / 32) % 2 == 0 then b + 32 else b - 32
  {
    XorWithZero(b / 64, 2);
    Halves(b);
    hide XorBits;
    var clear := (b / 32) % 2 == 0;
    XorHigher(b / 32, 1, 2, if clear then 1 else -1, b / 64);
    XorHalf(b / 16, 1, 3, if clear then 1 else -1);
    XorHalf(b / 8, 2, 4, if clear then 2 else -2);
    XorHalf(b / 4, 4, 5, if clear then 4 else -4);
    XorHalf(b / 2, 8, 6, if clear then 8 else -8);
    XorHalf(b, 16, 7, if clear then 16 else -16);
  }

  lemma Halves(b: byte)
    ensures b / 2 / 2 == b / 4 && b / 4 / 2 == b / 8 && b / 8 / 2 == b / 16 && b / 16 / 2 == b / 32
    ensures b / 32 / 2 == b / 64 && b / 64 < 4 && Pow2(2) == 4
  {
  }

  lemma XorHigher(a: nat, b: nat, n: nat, d: int, high: nat)
    requires b == 1 && a / 2 == high && XorBits(high, 0, n) == high && d == if a % 2 == 0 then 1 else -1
    ensures XorBits(a, b, n + 1) == a + d
  {
  }

  lemma XorHalf(a: nat, b: nat, n: nat, d: int)
    requires XorBits(a / 2, b, n) == a / 2 + d
    ensures XorBits(a, 2 * b, n + 1) == a + 2 * d
  {
    assert (2 * b) % 2 == 0 && (2 * b) / 2 == b;
  }

  lemma XorWithZero(a: nat, n: nat)
    requires a < Pow2(n)
    ensures XorBits(a, 0, n) == a
  {
    if n > 0 {
      XorWithZero(a / 2, n - 1);
    }
  }

  /** Exclusive-or of two strings of the same length. */
  function XorSeq(a: seq<byte>, b: seq<byte>): (r: seq<byte>)
    requires |a| <= |b|
    ensures |r| == |a|
  {
    seq(|a|, i requires 0 <= i < |a| => Xor(a[i], b[i]))
  }

  /** It works byte by byte and bit by bit. */
  lemma XorSeqAt(a: seq<byte>, b: seq<byte>, k: nat, i: nat)
    requires k < |a| <= |b| && i < 8
    ensures XorSeq(a, b)[k] == Xor(a[k], b[k])
    ensures Bit(XorSeq(a, b)[k], i) == 1 <==> (Bit(a[k], i) == 1) != (Bit(b[k], i) == 1)
  {
    XorAt(a[k], b[k], i);
  }

  lemma XorSeqCancels(a: seq<byte>, b: seq<byte>)
    requires |a| <= |b|
    ensures XorSeq(XorSeq(a, b), b) == a
  {
    forall i | 0 <= i < |a| ensures XorSeq(XorSeq(a, b), b)[i] == a[i] {
      XorCancels(a[i], b[i]);
    }
  }

  function Concat<T>(parts: seq<seq<T>>): seq<T> {
    if parts == [] then [] else parts[0] + Concat(parts[1..])
  }
}
