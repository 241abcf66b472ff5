/**
  The arithmetic of GF(256) that the Reed-Solomon codec computes with.

  Symbols are bytes and addition is xor.  The shift register of init_rs is the only
  multiplication the hardware-like code ever performs, so everything is built from it: `Power`
  turns the register a number of times, `Scale(i, a)` is the product of a with the i-th power of
  alpha, and the general product `Mul` goes through the logarithm.
 */
module Galois {
  import opened Bytes

  //////////////////////////////////////////////////////////////////////////////
  //
  // The shift register, for any generator polynomial
  //
  //////////////////////////////////////////////////////////////////////////////

  /** One turn of the register: double, and fold bit 8 back with the low byte of the polynomial. */
  function Shift(g: Byte, a: Byte): Byte {
    if TopBit(a) then Xor(Double(a), g) else Double(a)
  }

  predicate TopBit(a: Byte) {
    a.bits & 0x80 != 0
  }

  function Double(a: Byte): Byte {
    Byte(a.bits << 1)
  }

  function Power(g: Byte, i: nat, a: Byte): Byte {
    if i == 0 then a else Shift(g, Power(g, i - 1, a))
  }

  lemma {:induction false} PowerAdd(g: Byte, i: nat, j: nat, a: Byte)
    ensures Power(g, i + j, a) == Power(g, i, Power(g, j, a))
  {
    if i > 0 {
      PowerAdd(g, i - 1, j, a);
    }
  }

  lemma ShiftXor(g: Byte, a: Byte, b: Byte)
    ensures Shift(g, Xor(a, b)) == Xor(Shift(g, a), Shift(g, b))
  {
    hide Xor, TopBit, Double;
    TopBitXor(a, b);
    DoubleXor(a, b);
    XorAssoc(Double(a), Double(b), g);
    XorMiddle(Double(a), Double(b), g);
  }

  lemma TopBitXor(a: Byte, b: Byte)
    ensures TopBit(Xor(a, b)) == (TopBit(a) != TopBit(b))
  {
    TopBitOfXor(a.bits, b.bits);
  }

  lemma TopBitOfXor(a: bv8, b: bv8)
    ensures (a ^ b) & 0x80 == (a & 0x80) ^ (b & 0x80)
    ensures a & 0x80 == 0 || a & 0x80 == 0x80
    ensures b & 0x80 == 0 || b & 0x80 == 0x80
  {}

  lemma DoubleXor(a: Byte, b: Byte)
    ensures Double(Xor(a, b)) == Xor(Double(a), Double(b))
  {}

  lemma XorMiddle(a: Byte, b: Byte, g: Byte)
    ensures Xor(Xor(a, b), g) == Xor(Xor(a, g), b)
    ensures Xor(Xor(a, g), Xor(b, g)) == Xor(a, b)
  {}

  lemma {:induction false} PowerXor(g: Byte, i: nat, a: Byte, b: Byte)
    ensures Power(g, i, Xor(a, b)) == Xor(Power(g, i, a), Power(g, i, b))
  {
    if i > 0 {
      PowerXor(g, i - 1, a, b);
      ShiftXor(g, Power(g, i - 1, a), Power(g, i - 1, b));
    }
  }

  lemma ShiftInjective(g: Byte, a: Byte, b: Byte)
    requires g.bits & 1 == 1
    requires Shift(g, a) == Shift(g, b)
    ensures a == b
  {
    ShiftXor(g, a, b);
    XorSelf(Shift(g, a));
    XorEqual(a, b);
  }

  lemma {:induction false} PowerInjective(g: Byte, i: nat, a: Byte, b: Byte)
    requires g.bits & 1 == 1
    requires Power(g, i, a) == Power(g, i, b)
    ensures a == b
  {
    if i > 0 {
      ShiftInjective(g, Power(g, i - 1, a), Power(g, i - 1, b));
      PowerInjective(g, i - 1, a, b);
    }
  }

  lemma {:induction false} PowerZero(g: Byte, i: nat)
    ensures Power(g, i, ZERO) == ZERO
  {
    if i > 0 {
      PowerZero(g, i - 1);
    }
  }

  /** An even polynomial can never bring the register back to 1, so the test of init_rs rejects it. */
  lemma ReturningIsOdd(g: Byte, n: nat)
    requires n > 0 && Power(g, n, ONE) == ONE
    ensures g.bits & 1 == 1
  {
    assert Shift(g, Power(g, n - 1, ONE)) == ONE;
  }

  //////////////////////////////////////////////////////////////////////////////
  //
  // Which polynomials are primitive
  //
  //////////////////////////////////////////////////////////////////////////////

  /** The register visits 255 different values before it returns. */
  ghost predicate AllDistinct(g: Byte) {
    forall i, j :: 0 <= i < j < 255 ==> Power(g, i, ONE) != Power(g, j, ONE)
  }

  lemma {:induction false} PowerCycle(g: Byte, d: nat, k: nat, a: Byte)
    requires forall b :: Power(g, d, b) == b
    ensures Power(g, k * d, a) == a
  {
    if k > 0 {
      PowerCycle(g, d, k - 1, a);
      PowerAdd(g, d, (k - 1) * d, a);
      assert d + (k - 1) * d == k * d;
    }
  }

  /** Powers of alpha commute, so a period seen at one power is a period at every power. */
  lemma PeriodAt(g: Byte, d: nat, k: nat)
    requires Power(g, d, ONE) == ONE
    ensures Power(g, d + k, ONE) == Power(g, k, ONE)
  {
    PowerAdd(g, k, d, ONE);
  }

  lemma {:induction false} PeriodMultiple(g: Byte, d: nat, k: nat)
    requires Power(g, d, ONE) == ONE
    ensures Power(g, k * d, ONE) == ONE
  {
    if k > 0 {
      PeriodMultiple(g, d, k - 1);
      PeriodAt(g, d, (k - 1) * d);
      assert d + (k - 1) * d == k * d;
    }
  }

  lemma PeriodOfMultiple(g: Byte, d: nat, n: nat)
    requires d > 0 && n % d == 0
    requires Power(g, d, ONE) == ONE
    ensures Power(g, n, ONE) == ONE
  {
    PeriodMultiple(g, d, n / d);
    assert (n / d) * d == n;
  }

  /** Two periods have their remainder as a period. */
  lemma PeriodRemainder(g: Byte, a: nat, d: nat)
    requires d > 0
    requires Power(g, a, ONE) == ONE && Power(g, d, ONE) == ONE
    ensures Power(g, a % d, ONE) == ONE
  {
    PeriodMultiple(g, d, a / d);
    PeriodAt(g, (a / d) * d, a % d);
    assert (a / d) * d + a % d == a;
  }

  /** Euclid's algorithm on the periods a >= d. */
  lemma {:induction false} PeriodDivisor(g: Byte, d: nat) returns (q: nat)
    requires 0 < d < 255
    requires Power(g, 255, ONE) == ONE && Power(g, d, ONE) == ONE
    ensures 0 < q <= d && 255 % q == 0
    ensures Power(g, q, ONE) == ONE
    decreases d
  {
    PeriodRemainder(g, 255, d);
    if 255 % d == 0 {
      q := d;
    } else {
      q := PeriodDivisor(g, 255 % d);
    }
  }

  lemma ProperDivisorsOf255(q: nat)
    requires 0 < q < 255 && 255 % q == 0
    ensures 85 % q == 0 || 51 % q == 0 || 15 % q == 0
  {
    var k := 255 / q;
    assert k * q == 255;
    if k >= 16 {
      assert q < 16;
      assert q == 1 || q == 2 || q == 3 || q == 4 || q == 5 || q == 6 || q == 7 || q == 8 || q == 9
             || q == 10 || q == 11 || q == 12 || q == 13 || q == 14 || q == 15;
    } else {
      assert k == 1 || k == 2 || k == 3 || k == 4 || k == 5 || k == 6 || k == 7 || k == 8 || k == 9
             || k == 10 || k == 11 || k == 12 || k == 13 || k == 14 || k == 15;
    }
  }

  /**
    The test `sr != 1` of init_rs lets through every polynomial whose register returns after 255
    turns.  Its error text speaks of primitivity; that needs exactly these three further tests.
   */
  lemma PrimitiveIff(g: Byte)
    requires Power(g, 255, ONE) == ONE
    ensures AllDistinct(g) <==> Power(g, 85, ONE) != ONE && Power(g, 51, ONE) != ONE && Power(g, 15, ONE) != ONE
  {
    assert Power(g, 0, ONE) == ONE;
    if Power(g, 85, ONE) != ONE && Power(g, 51, ONE) != ONE && Power(g, 15, ONE) != ONE {
      forall i: nat, j: nat | i < j < 255 ensures Power(g, i, ONE) != Power(g, j, ONE) {
        if Power(g, i, ONE) == Power(g, j, ONE) {
          RepeatGivesShortPeriod(g, i, j);
        }
      }
    }
  }

  lemma RepeatGivesShortPeriod(g: Byte, i: nat, j: nat)
    requires Power(g, 255, ONE) == ONE
    requires i < j < 255 && Power(g, i, ONE) == Power(g, j, ONE)
    ensures Power(g, 85, ONE) == ONE || Power(g, 51, ONE) == ONE || Power(g, 15, ONE) == ONE
  {
    hide *;
    ReturningIsOdd(g, 255);
    PowerAdd(g, i, j - i, ONE);
    PowerInjective(g, i, ONE, Power(g, j - i, ONE));
    var q := PeriodDivisor(g, j - i);
    ProperDivisorsOf255(q);
    if 85 % q == 0 {
      PeriodOfMultiple(g, q, 85);
    } else if 51 % q == 0 {
      PeriodOfMultiple(g, q, 51);
    } else {
      PeriodOfMultiple(g, q, 15);
    }
  }

  /** The polynomial x^8+x^4+x^3+x+1 passes the test of init_rs and is not primitive. */
  lemma NotEveryAcceptedPolynomialIsPrimitive()
    ensures Power(Byte(0x1b), 255, ONE) == ONE && !AllDistinct(Byte(0x1b))
  {
    AesPolynomialReturnsAfter51();
    hide Power;
    PeriodMultiple(Byte(0x1b), 51, 5);
    PrimitiveIff(Byte(0x1b));
  }

  lemma AesPolynomialReturnsAfter51()
    ensures Power(Byte(0x1b), 51, ONE) == Byte(0x01)
  {
    assert Power(Byte(0x1b), 0, ONE) == ONE;
    hide Power;
    assert Power(Byte(0x1b), 0, ONE) == Byte(0x01);
    PowerTurn17(Byte(0x1b), 0, ONE);
    assert Power(Byte(0x1b), 17, ONE) == Byte(0xbc);
    PowerTurn17(Byte(0x1b), 17, ONE);
    assert Power(Byte(0x1b), 34, ONE) == Byte(0xbd);
    PowerTurn17(Byte(0x1b), 34, ONE);
    assert Power(Byte(0x1b), 51, ONE) == Byte(0x01);
  }

  function Turn5(g: Byte, a: Byte): Byte {
    Shift(g, Shift(g, Shift(g, Shift(g, Shift(g, a)))))
  }

  function Turn17(g: Byte, a: Byte): Byte {
    Turn5(g, Turn5(g, Turn5(g, Shift(g, Shift(g, a)))))
  }

  lemma PowerTurn5(g: Byte, i: nat, a: Byte)
    ensures Power(g, i + 5, a) == Turn5(g, Power(g, i, a))
  {
    assert Power(g, i + 2, a) == Shift(g, Shift(g, Power(g, i, a)));
    assert Power(g, i + 4, a) == Shift(g, Shift(g, Power(g, i + 2, a)));
  }

  lemma PowerTurn17(g: Byte, i: nat, a: Byte)
    ensures Power(g, i + 17, a) == Turn17(g, Power(g, i, a))
  {
    assert Power(g, i + 2, a) == Shift(g, Shift(g, Power(g, i, a)));
    PowerTurn5(g, i + 2, a);
    PowerTurn5(g, i + 7, a);
    PowerTurn5(g, i + 12, a);
  }

  //////////////////////////////////////////////////////////////////////////////
  //
  // The field of the EDI code: x^8+x^4+x^3+x^2+1
  //
  //////////////////////////////////////////////////////////////////////////////

  const GFPOLY: Byte := Byte(0x1d)

  /** The product of a with alpha to the i-th power. */
  function Scale(i: nat, a: Byte): Byte {
    Power(GFPOLY, i, a)
  }

  lemma AlphaOrder()
    ensures Scale(255, ONE) == ONE
    ensures Scale(85, ONE) != ONE && Scale(51, ONE) != ONE && Scale(15, ONE) != ONE
  {
    AlphaTo15();
    AlphaTo85();
    AlphaTo170();
    AlphaTo255();
    hide Power;
  }

  lemma AlphaTo15()
    ensures Power(GFPOLY, 15, ONE) == Byte(0x26)
  {
    assert Power(GFPOLY, 0, ONE) == ONE;
    hide Power;
    PowerTurn5(GFPOLY, 0, ONE);
    PowerTurn5(GFPOLY, 5, ONE);
    PowerTurn5(GFPOLY, 10, ONE);
  }

  lemma AlphaTo85()
    ensures Power(GFPOLY, 51, ONE) == Byte(0x0a)
    ensures Power(GFPOLY, 85, ONE) == Byte(0xd6)
  {
    assert Power(GFPOLY, 0, ONE) == ONE;
    hide Power;
    assert Power(GFPOLY, 0, ONE) == Byte(0x01);
    PowerTurn17(GFPOLY, 0, ONE);
    assert Power(GFPOLY, 17, ONE) == Byte(0x98);
    PowerTurn17(GFPOLY, 17, ONE);
    assert Power(GFPOLY, 34, ONE) == Byte(0x4e);
    PowerTurn17(GFPOLY, 34, ONE);
    assert Power(GFPOLY, 51, ONE) == Byte(0x0a);
    PowerTurn17(GFPOLY, 51, ONE);
    assert Power(GFPOLY, 68, ONE) == Byte(0x99);
    PowerTurn17(GFPOLY, 68, ONE);
    assert Power(GFPOLY, 85, ONE) == Byte(0xd6);
  }

  lemma AlphaTo170()
    requires Power(GFPOLY, 85, ONE) == Byte(0xd6)
    ensures Power(GFPOLY, 170, ONE) == Byte(0xd7)
  {
    hide Power;
    PowerTurn17(GFPOLY, 85, ONE);
    assert Power(GFPOLY, 102, ONE) == Byte(0x44);
    PowerTurn17(GFPOLY, 102, ONE);
    assert Power(GFPOLY, 119, ONE) == Byte(0x93);
    PowerTurn17(GFPOLY, 119, ONE);
    assert Power(GFPOLY, 136, ONE) == Byte(0x4f);
    PowerTurn17(GFPOLY, 136, ONE);
    assert Power(GFPOLY, 153, ONE) == Byte(0x92);
    PowerTurn17(GFPOLY, 153, ONE);
    assert Power(GFPOLY, 170, ONE) == Byte(0xd7);
  }

  lemma AlphaTo255()
    requires Power(GFPOLY, 170, ONE) == Byte(0xd7)
    ensures Power(GFPOLY, 255, ONE) == Byte(0x01)
  {
    hide Power;
    PowerTurn17(GFPOLY, 170, ONE);
    assert Power(GFPOLY, 187, ONE) == Byte(0xdc);
    PowerTurn17(GFPOLY, 187, ONE);
    assert Power(GFPOLY, 204, ONE) == Byte(0xdd);
    PowerTurn17(GFPOLY, 204, ONE);
    assert Power(GFPOLY, 221, ONE) == Byte(0x45);
    PowerTurn17(GFPOLY, 221, ONE);
    assert Power(GFPOLY, 238, ONE) == Byte(0x0b);
    PowerTurn17(GFPOLY, 238, ONE);
    assert Power(GFPOLY, 255, ONE) == Byte(0x01);
  }
}
