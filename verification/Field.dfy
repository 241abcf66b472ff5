/**
  GF(256) as a field: alpha generates every nonzero element, so logarithms exist, and products and
  quotients are sums and differences of logarithms.
 */
module Field {
  import opened Bytes
  import opened Counting
  import opened Galois

  //////////////////////////////////////////////////////////////////////////////
  //
  // Powers of alpha
  //
  //////////////////////////////////////////////////////////////////////////////

  lemma ScaleZero(i: nat)
    ensures Scale(i, ZERO) == ZERO
  {
    PowerZero(GFPOLY, i);
  }

  lemma ScaleAdd(i: nat, j: nat, a: Byte)
    ensures Scale(i + j, a) == Scale(i, Scale(j, a)) == Scale(j, Scale(i, a))
  {
    PowerAdd(GFPOLY, i, j, a);
    PowerAdd(GFPOLY, j, i, a);
  }

  lemma ScaleXor(i: nat, a: Byte, b: Byte)
    ensures Scale(i, Xor(a, b)) == Xor(Scale(i, a), Scale(i, b))
  {
    PowerXor(GFPOLY, i, a, b);
  }

  lemma ScaleInjective(i: nat, a: Byte, b: Byte)
    requires Scale(i, a) == Scale(i, b)
    ensures a == b
  {
    PowerInjective(GFPOLY, i, a, b);
  }

  lemma ScaleNonzero(i: nat, a: Byte)
    ensures Scale(i, a) == ZERO <==> a == ZERO
  {
    ScaleZero(i);
    if Scale(i, a) == ZERO {
      ScaleInjective(i, a, ZERO);
    }
  }

  lemma AlphaDistinct(i: nat, j: nat)
    requires i < j < 255
    ensures Scale(i, ONE) != Scale(j, ONE)
  {
    hide Power;
    AlphaOrder();
    PrimitiveIff(GFPOLY);
  }

  //////////////////////////////////////////////////////////////////////////////
  //
  // Logarithms: 255 distinct nonzero bytes are all the nonzero bytes
  //
  //////////////////////////////////////////////////////////////////////////////

  ghost predicate IsLog(a: Byte, i: nat) {
    i < 255 && Scale(i, ONE) == a
  }

  lemma LogExists(a: Byte)
    requires a != ZERO
    ensures exists i :: IsLog(a, i)
  {
    hide Scale, Xor;
    var s := seq(255, i requires 0 <= i < 255 => Value(Scale(i, ONE)));
    forall i | 0 <= i < 255 ensures 1 <= s[i] <= 255 {
      ScaleNonzero(i, ONE);
      ValueZero(Scale(i, ONE));
    }
    forall i, j | 0 <= i < j < 255 ensures s[i] != s[j] {
      AlphaDistinct(i, j);
      ValueLow(Scale(i, ONE));
      ValueLow(Scale(j, ONE));
    }
    ValueZero(a);
    Pigeonhole(s, 255, Value(a));
    var i :| 0 <= i < 255 && s[i] == Value(a);
    ValueLow(Scale(i, ONE));
    ValueLow(a);
    assert IsLog(a, i);
  }

  lemma ValueZero(a: Byte)
    ensures Value(a) == 0 <==> a == ZERO
  {
    ValueLow(a);
    ValueLow(ZERO);
  }

  /** The logarithm of a nonzero element to the base alpha. */
  ghost function Log(a: Byte): (i: nat)
    requires a != ZERO
    ensures IsLog(a, i)
  {
    LogExists(a);
    var i :| IsLog(a, i);
    i
  }

  lemma LogUnique(i: nat)
    requires i < 255
    ensures Scale(i, ONE) != ZERO && Log(Scale(i, ONE)) == i
  {
    hide Scale;
    ScaleNonzero(i, ONE);
    var j := Log(Scale(i, ONE));
    if i < j {
      AlphaDistinct(i, j);
    } else if j < i {
      AlphaDistinct(j, i);
    }
  }

  //////////////////////////////////////////////////////////////////////////////
  //
  // Exponents count modulo 255
  //
  //////////////////////////////////////////////////////////////////////////////

  lemma Scale255(a: Byte)
    ensures Scale(255, a) == a
  {
    hide Scale;
    AlphaOrder();
    if a == ZERO {
      ScaleZero(255);
    } else {
      ScaleAdd(255, Log(a), ONE);
    }
  }

  lemma {:induction false} ScaleTurns(k: nat, i: nat, a: Byte)
    ensures Scale(k * 255 + i, a) == Scale(i, a)
  {
    hide Scale;
    if k > 0 {
      ScaleTurns(k - 1, i, a);
      ScaleAdd(255, (k - 1) * 255 + i, a);
      Scale255(Scale((k - 1) * 255 + i, a));
    }
  }

  lemma ScaleMod(i: nat, a: Byte)
    ensures Scale(i % 255, a) == Scale(i, a)
  {
    hide Scale;
    ScaleTurns(i / 255, i % 255, a);
  }

  /** Two powers of alpha agree exactly when their exponents are congruent. */
  lemma ScaleSame(i: nat, j: nat, a: Byte)
    requires a != ZERO
    ensures Scale(i, a) == Scale(j, a) <==> i % 255 == j % 255
  {
    hide Scale;
    ScaleMod(i, a);
    ScaleMod(j, a);
    var p, q := i % 255, j % 255;
    if Scale(p, a) == Scale(q, a) && p != q {
      ScaleAdd(p, Log(a), ONE);
      ScaleAdd(q, Log(a), ONE);
      ScaleInjective(Log(a), Scale(p, ONE), Scale(q, ONE));
      if p < q {
        AlphaDistinct(p, q);
      } else {
        AlphaDistinct(q, p);
      }
    }
  }

  /** Products of exponents, kept away from the solver's arithmetic. */
  function Times(i: nat, e: nat): nat {
    i * e
  }

  lemma TimesStep(i: nat, e: nat)
    ensures Times(0, e) == 0 && Times(i + 1, e) == Times(i, e) + e
  {}

  lemma TimesRight(i: nat, e: nat)
    ensures Times(i, 0) == 0 && Times(i, e + 1) == Times(i, e) + i
  {}

  //////////////////////////////////////////////////////////////////////////////
  //
  // Products
  //
  //////////////////////////////////////////////////////////////////////////////

  ghost function Mul(a: Byte, b: Byte): Byte {
    if b == ZERO then ZERO else Scale(Log(b), a)
  }

  lemma MulXor(a: Byte, b: Byte, c: Byte)
    ensures Mul(Xor(a, b), c) == Xor(Mul(a, c), Mul(b, c))
  {
    hide Scale, Xor;
    if c == ZERO {
      XorZero(ZERO);
    } else {
      ScaleXor(Log(c), a, b);
    }
  }

  lemma MulZero(a: Byte, b: Byte)
    ensures Mul(a, b) == ZERO <==> a == ZERO || b == ZERO
  {
    hide Scale;
    if b != ZERO {
      ScaleNonzero(Log(b), a);
    }
  }

  /** The product of nonzero elements adds their logarithms. */
  lemma MulLog(a: Byte, b: Byte)
    requires a != ZERO && b != ZERO
    ensures Mul(a, b) == Scale(Log(a) + Log(b), ONE)
  {
    hide Scale;
    ScaleAdd(Log(b), Log(a), ONE);
  }

  lemma MulComm(a: Byte, b: Byte)
    ensures Mul(a, b) == Mul(b, a)
  {
    MulZero(a, b);
    MulZero(b, a);
    if a != ZERO && b != ZERO {
      MulLog(a, b);
      MulLog(b, a);
    }
  }

  lemma MulScale(i: nat, a: Byte, b: Byte)
    ensures Mul(Scale(i, a), b) == Scale(i, Mul(a, b)) == Mul(a, Scale(i, b))
  {
    hide Scale;
    ScaleOutOfMul(i, a, b);
    ScaleOutOfMul(i, b, a);
    MulComm(a, b);
    MulComm(a, Scale(i, b));
  }

  lemma ScaleOutOfMul(i: nat, a: Byte, b: Byte)
    ensures Mul(Scale(i, a), b) == Scale(i, Mul(a, b))
  {
    hide Scale;
    if b == ZERO {
      ScaleZero(i);
    } else {
      ScaleAdd(i, Log(b), a);
    }
  }

  lemma ScaleIdentity(a: Byte)
    ensures Scale(0, a) == a
  {}
}
