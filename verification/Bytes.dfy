/**
  The bytes that every component exchanges, and their xor.

  A byte is wrapped in a datatype so that proofs reason about named bytes and reach for the bits
  only in the lemmas of this module.
 */
module Bytes {
  datatype Byte = Byte(bits: bv8)

  const ZERO: Byte := Byte(0)
  const ONE: Byte := Byte(1)

  /** Bitwise exclusive or, which is also addition and subtraction in GF(256). */
  function Xor(a: Byte, b: Byte): Byte {
    Byte(a.bits ^ b.bits)
  }

  /** The value of a byte as an unsigned number. */
  function Value(b: Byte): (n: nat)
    ensures n < 256
  {
    b.bits as int
  }

  /** A number stored into a byte keeps its low eight bits. */
  function Low(n: nat): Byte {
    Byte((n % 256) as bv8)
  }

  lemma LowValue(n: nat)
    ensures Value(Low(n)) == n % 256
  {
    BitsOfNumber(n % 256);
  }

  lemma BitsOfNumber(n: int)
    requires 0 <= n < 256
    ensures (n as bv8) as int == n
  {
    if n < 16 {
    } else if n < 32 {
    } else if n < 64 {
    } else if n < 128 {
    } else {
    }
  }

  lemma ValueLow(b: Byte)
    ensures Low(Value(b)) == b
  {
    NumberOfBits(b.bits);
  }

  lemma NumberOfBits(b: bv8)
    ensures 0 <= b as int < 256 && (b as int) as bv8 == b
  {}

  lemma XorZero(a: Byte)
    ensures Xor(a, ZERO) == a == Xor(ZERO, a)
  {}

  lemma XorSelf(a: Byte)
    ensures Xor(a, a) == ZERO
  {}

  lemma XorComm(a: Byte, b: Byte)
    ensures Xor(a, b) == Xor(b, a)
  {}

  lemma XorAssoc(a: Byte, b: Byte, c: Byte)
    ensures Xor(Xor(a, b), c) == Xor(a, Xor(b, c))
  {}

  /** Exchange the middle two of four terms. */
  lemma XorSwap(a: Byte, b: Byte, c: Byte, d: Byte)
    ensures Xor(Xor(a, b), Xor(c, d)) == Xor(Xor(a, c), Xor(b, d))
  {}

  /** Adding the same byte twice cancels. */
  lemma XorCancel(a: Byte, b: Byte)
    ensures Xor(Xor(a, b), b) == a && Xor(b, Xor(b, a)) == a
  {}

  lemma XorEqual(a: Byte, b: Byte)
    ensures Xor(a, b) == ZERO <==> a == b
  {
    if a.bits ^ b.bits == 0 {
      assert (a.bits ^ b.bits) ^ b.bits == a.bits;
    }
  }
}
