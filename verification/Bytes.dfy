/** Unsigned characters and the exclusive or on them. */
module Bytes {

  type byte = x: int | 0 <= x < 256

  /** Bitwise exclusive or of the n low bits, written on numbers. */
  function XorBits(a: nat, b: nat, n: nat): nat {
    if n == 0 then 0 else 2 * XorBits(a / 2, b / 2, n - 1) + (a + b) % 2
  }

  function Pow2(n: nat): nat { if n == 0 then 1 else 2 * Pow2(n - 1) }

  lemma {:induction false} XorBitsBound(a: nat, b: nat, n: nat)
    ensures XorBits(a, b, n) < Pow2(n)
  {
    if n > 0 { XorBitsBound(a / 2, b / 2, n - 1); }
  }

  lemma Halve(rest: nat, bit: nat, b: nat)
    requires bit < 2
    ensures (2 * rest + bit) / 2 == rest && (2 * rest + bit + b) % 2 == (bit + b) % 2
  {}

  lemma Parity(a: nat, b: nat)
    ensures ((a + b) % 2 + b) % 2 == a % 2
  {}

  lemma {:induction false} XorBitsTwice(a: nat, b: nat, n: nat)
    requires a < Pow2(n)
    ensures XorBits(XorBits(a, b, n), b, n) == a
  {
    if n > 0 {
      var rest, bit := XorBits(a / 2, b / 2, n - 1), (a + b) % 2;
      XorBitsTwice(a / 2, b / 2, n - 1);
      Halve(rest, bit, b);
      Parity(a, b);
      calc {
        XorBits(XorBits(a, b, n), b, n);
        XorBits(2 * rest + bit, b, n);
        2 * XorBits((2 * rest + bit) / 2, b / 2, n - 1) + (2 * rest + bit + b) % 2;
        2 * XorBits(rest, b / 2, n - 1) + (bit + b) % 2;
        2 * (a / 2) + a % 2;
      }
    }
  }

  lemma {:induction false} XorBitsZero(a: nat, b: nat, n: nat)
    requires a < Pow2(n) && b < Pow2(n)
    ensures XorBits(a, b, n) == a <==> b == 0
  {
    if n > 0 { XorBitsZero(a / 2, b / 2, n - 1); }
  }

  function Xor(a: byte, b: byte): byte {
    XorBitsBound(a, b, 8);
    assert Pow2(8) == 256;
    XorBits(a, b, 8)
  }

  lemma XorTwice(a: byte, b: byte)
    ensures Xor(Xor(a, b), b) == a
  {
    assert Pow2(8) == 256;
    XorBitsTwice(a, b, 8);
  }

  lemma XorZero(a: byte, b: byte)
    ensures Xor(a, b) == a <==> b == 0
  {
    assert Pow2(8) == 256;
    XorBitsZero(a, b, 8);
  }

  // ------------------------------------------------------------------- bit by bit

  /** Bit k, the least significant being bit 0. */
  function Bit(n: nat, k: nat): nat { if k == 0 then n % 2 else Bit(n / 2, k - 1) }

  lemma {:induction false} XorBitsBit(a: nat, b: nat, n: nat, k: nat)
    requires k < n
    ensures Bit(XorBits(a, b, n), k) == (Bit(a, k) + Bit(b, k)) % 2
  {
    Halve(XorBits(a / 2, b / 2, n - 1), (a + b) % 2, 0);
    if k > 0 { XorBitsBit(a / 2, b / 2, n - 1, k - 1); }
  }

  lemma {:induction false} SameBits(a: nat, b: nat, n: nat)
    requires a < Pow2(n) && b < Pow2(n) && forall k :: 0 <= k < n ==> Bit(a, k) == Bit(b, k)
    ensures a == b
  {
    if n > 0 {
      assert Bit(a, 0) == Bit(b, 0);
      forall k | 0 <= k < n - 1 ensures Bit(a / 2, k) == Bit(b / 2, k) { assert Bit(a, k + 1) == Bit(b, k + 1); }
      SameBits(a / 2, b / 2, n - 1);
    }
  }

  /** Each bit of x is the sum of those of a and b modulo 2. */
  predicate BitsAdd(x: byte, a: byte, b: byte) {
    forall k :: 0 <= k < 8 ==> Bit(x, k) == (Bit(a, k) + Bit(b, k)) % 2
  }

  /** That makes x the exclusive or of a and b, and no other byte. */
  lemma XorExactly(a: byte, b: byte, x: byte)
    ensures x == Xor(a, b) <==> BitsAdd(x, a, b)
  {
    assert Pow2(8) == 256;
    forall k | 0 <= k < 8 ensures Bit(Xor(a, b), k) == (Bit(a, k) + Bit(b, k)) % 2 { XorBitsBit(a, b, 8, k); }
    if BitsAdd(x, a, b) {
      forall k | 0 <= k < 8 ensures Bit(x, k) == Bit(Xor(a, b), k) {}
      SameBits(x, Xor(a, b), 8);
    }
  }
}
