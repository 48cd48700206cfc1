/**
 * Bytes as integers 0..255 and the C `^` operator on them, defined bit by
 * bit so that the checksum arithmetic stays in integer arithmetic.
 */
module Bytes {

  type byte = x: int | 0 <= x < 256

  /** Bitwise exclusive or of two naturals, lowest bit first. */
  function BitXor(a: nat, b: nat): nat
    decreases a + b
  {
    if a == 0 && b == 0 then 0 else 2 * BitXor(a / 2, b / 2) + (a % 2 + b % 2) % 2
  }

  function Pow2(n: nat): (p: nat)
    ensures p >= 1
  {
    if n == 0 then 1 else 2 * Pow2(n - 1)
  }

  /** Exclusive or of two `n`-bit numbers has `n` bits. */
  lemma {:induction false} BitXorBound(a: nat, b: nat, n: nat)
    requires a < Pow2(n) && b < Pow2(n)
    ensures BitXor(a, b) < Pow2(n)
  {
    if a == 0 && b == 0 {
    } else {
      assert n > 0;
      BitXorBound(a / 2, b / 2, n - 1);
    }
  }

  /** `a ^ b` on bytes. */
  function Xor8(a: byte, b: byte): byte
  {
    assert Pow2(8) == 256;
    BitXorBound(a, b, 8);
    BitXor(a, b)
  }

  /** The halves of an exclusive or are the exclusive or of the halves. */
  lemma BitXorSplit(a: nat, b: nat)
    ensures BitXor(a, b) / 2 == BitXor(a / 2, b / 2)
    ensures BitXor(a, b) % 2 == (a % 2 + b % 2) % 2
  {
  }

  lemma {:induction false} BitXorZero(a: nat)
    ensures BitXor(a, 0) == a
    decreases a
  {
    if a != 0 {
      BitXorZero(a / 2);
    }
  }

  lemma {:induction false} BitXorSelf(a: nat)
    ensures BitXor(a, a) == 0
    decreases a
  {
    if a != 0 {
      BitXorSelf(a / 2);
    }
  }

  lemma {:induction false} BitXorCommutes(a: nat, b: nat)
    ensures BitXor(a, b) == BitXor(b, a)
    decreases a + b
  {
    if a != 0 || b != 0 {
      BitXorCommutes(a / 2, b / 2);
    }
  }

  lemma {:induction false} BitXorAssociates(a: nat, b: nat, c: nat)
    ensures BitXor(BitXor(a, b), c) == BitXor(a, BitXor(b, c))
    decreases a + b + c
  {
    if a + b + c != 0 {
      BitXorAssociates(a / 2, b / 2, c / 2);
      var ab, bc := BitXor(a, b), BitXor(b, c);
      var l, r := BitXor(ab, c), BitXor(a, bc);
      BitXorSplit(a, b);
      BitXorSplit(b, c);
      BitXorSplit(ab, c);
      BitXorSplit(a, bc);
      // Both sides have the same upper bits and the same lowest bit.
      assert l / 2 == BitXor(BitXor(a / 2, b / 2), c / 2);
      assert r / 2 == BitXor(a / 2, BitXor(b / 2, c / 2));
      LowBitAssociates(a, b, c, ab, bc, l, r);
      HalvesDetermine(l, r);
    }
  }

  /** Parity of a three-way sum does not depend on grouping. */
  lemma LowBitAssociates(a: nat, b: nat, c: nat, ab: nat, bc: nat, l: nat, r: nat)
    requires ab % 2 == (a % 2 + b % 2) % 2 && bc % 2 == (b % 2 + c % 2) % 2
    requires l % 2 == (ab % 2 + c % 2) % 2 && r % 2 == (a % 2 + bc % 2) % 2
    ensures l % 2 == r % 2
  {
  }

  /** A natural is determined by its half and its lowest bit. */
  lemma HalvesDetermine(x: nat, y: nat)
    requires x / 2 == y / 2 && x % 2 == y % 2
    ensures x == y
  {
  }

  /** The properties of `^` the checksum relies on. */
  lemma Xor8Laws(a: byte, b: byte, c: byte)
    ensures Xor8(a, 0) == a && Xor8(0, a) == a
    ensures Xor8(a, a) == 0
    ensures Xor8(a, b) == Xor8(b, a)
    ensures Xor8(Xor8(a, b), c) == Xor8(a, Xor8(b, c))
  {
    BitXorZero(a);
    BitXorCommutes(0, a);
    BitXorSelf(a);
    BitXorCommutes(a, b);
    BitXorAssociates(a, b, c);
  }

  /** Exclusive or with `m` leaves a byte alone exactly when `m` is zero. */
  lemma Xor8Changes(a: byte, m: byte)
    ensures Xor8(a, m) == a <==> m == 0
  {
    Xor8Laws(a, a, m);
    Xor8Laws(m, 0, 0);
  }
}
