/**
  An erasure that is listed twice makes the decoder fail: the erasure locator has a double root
  there, the loop keeps it, and a locator of positions has none.
 */
module RepeatedErasures {
  import opened Bytes
  import opened Galois
  import opened Field
  import opened Code
  import opened Erasures
  import opened Massey
  import opened ErrorWords

  ghost predicate DoubleRoot(p: seq<Byte>, e: nat) {
    Eval(p, e) == ZERO && Derivative(p, e) == ZERO
  }

  //////////////////////////////////////////////////////////////////////////////
  //
  // The derivative of the loop's combinations
  //
  //////////////////////////////////////////////////////////////////////////////

  lemma {:induction false} DerivativeAddWords(p: seq<Byte>, q: seq<Byte>, e: nat)
    requires |p| == |q|
    ensures Derivative(AddWords(p, q), e) == Xor(Derivative(p, e), Derivative(q, e))
  {
    hide Scale, Xor, Times;
    if p == [] {
      XorZero(ZERO);
    } else {
      var n := |p| - 1;
      assert AddWords(p, q)[..n] == AddWords(p[..n], q[..n]);
      DerivativeAddWords(p[..n], q[..n], e);
      if n > 0 {
        ScaleXor(Times(n - 1, e), p[n], q[n]);
        XorSwap(Derivative(p[..n], e), Derivative(q[..n], e),
                Scale(Times(n - 1, e), p[n]), Scale(Times(n - 1, e), q[n]));
      }
    }
  }

  lemma {:induction false} DerivativeScaleWord(p: seq<Byte>, k: nat, e: nat)
    ensures Derivative(ScaleWord(k, p), e) == Scale(k, Derivative(p, e))
  {
    hide Scale, Xor, Times;
    if p == [] {
      ScaleZero(k);
    } else {
      var n := |p| - 1;
      assert ScaleWord(k, p)[..n] == ScaleWord(k, p[..n]);
      DerivativeScaleWord(p[..n], k, e);
      if n > 0 {
        ScaleAdd(k, Times(n - 1, e), p[n]);
        ScaleXor(k, Derivative(p[..n], e), Scale(Times(n - 1, e), p[n]));
      }
    }
  }

  /** The derivative of z p is p + z p'. */
  lemma {:induction false} DerivativeShiftPrefix(p: seq<Byte>, e: nat, j: nat)
    requires j < |p|
    ensures Derivative(ShiftUp(p)[..j + 1], e) == Xor(Eval(p[..j], e), Scale(e, Derivative(p[..j], e)))
  {
    hide Scale, Xor, Times, Eval, Derivative, ShiftUp;
    DerivativePrefix(ShiftUp(p), e, j);
    if j == 0 {
      EvalPrefix(p, e, 0);
      ScaleZero(e);
      XorZero(ZERO);
    } else {
      DerivativeShiftPrefix(p, e, j - 1);
      EvalPrefix(p, e, j - 1);
      DerivativePrefix(p, e, j - 1);
      var v, d := Eval(p[..j - 1], e), Derivative(p[..j - 1], e);
      if j % 2 == 1 {
        XorMiddle(v, Scale(e, d), Scale(Times(j - 1, e), p[j - 1]));
      } else {
        ScaleXor(e, d, Scale(Times(j - 2, e), p[j - 1]));
        ScaleAdd(e, Times(j - 2, e), p[j - 1]);
        TimesStep(j - 2, e);
        XorTwice(v, Scale(e, d), Scale(Times(j - 1, e), p[j - 1]));
      }
    }
  }

  lemma ShiftedDouble(p: seq<Byte>, e: nat)
    requires p != [] && p[|p| - 1] == ZERO && DoubleRoot(p, e)
    ensures DoubleRoot(ShiftUp(p), e)
  {
    hide Scale, Xor, Times, Eval, Derivative, ShiftUp;
    var n := |p| - 1;
    EvalShiftUp(p, e);
    DerivativeShiftPrefix(p, e, n);
    EvalTrim(p, n, e);
    DerivativeTrim(p, n, e);
    assert ShiftUp(p)[..n + 1] == ShiftUp(p);
    ScaleZero(e);
    XorZero(ZERO);
  }

  lemma UpdatedDouble(lambda: seq<Byte>, b: seq<Byte>, k: nat, e: nat)
    requires |lambda| == |b| > 0 && b[|b| - 1] == ZERO && DoubleRoot(lambda, e) && DoubleRoot(b, e)
    ensures DoubleRoot(Updated(lambda, b, k), e)
  {
    hide Scale, Xor, Eval, Derivative, AddWords, ScaleWord, ShiftUp;
    ShiftedDouble(b, e);
    ScaledDouble(ShiftUp(b), k, e);
    EvalAddWords(lambda, ScaleWord(k, ShiftUp(b)), e);
    DerivativeAddWords(lambda, ScaleWord(k, ShiftUp(b)), e);
    XorZero(ZERO);
  }

  lemma ScaledDouble(p: seq<Byte>, k: nat, e: nat)
    requires DoubleRoot(p, e)
    ensures DoubleRoot(ScaleWord(k, p), e)
  {
    hide Scale, Eval, Derivative, ScaleWord;
    EvalScaleWord(p, k, e);
    DerivativeScaleWord(p, k, e);
    ScaleZero(k);
  }

  //////////////////////////////////////////////////////////////////////////////
  //
  // From the erasures to the end of the loop
  //
  //////////////////////////////////////////////////////////////////////////////

  lemma {:induction false} LocatorDouble(es: seq<nat>, n: nat, i: nat, j: nat)
    requires |es| < n && Exponents(es) && i < j < |es| && es[i] == es[j]
    ensures DoubleRoot(Locator(es, n), 255 - es[i])
  {
    hide Scale, Xor, Eval, Derivative, Locator, MulFactor, Inverse;
    var k, e := |es| - 1, 255 - es[i];
    var p := Locator(es[..k], n);
    LocatorFactor(es, n);
    LocatorDegree(es[..k], n);
    EvalMulFactor(p, es[k], e);
    DerivativeMulFactor(p, es[k], e);
    XorZero(ZERO);
    XorSelf(Derivative(p, e));
    if j < k {
      LocatorDouble(es[..k], n, i, j);
      ScaleZero(es[k] + e);
    } else {
      LocatorRoots(es[..k], n, e);
      OwnInverse(es[i]);
      assert Inverse(es[..k][i], e);
      Scale255(Derivative(p, e));
      Scale255(ZERO);
    }
    ScaleZero(es[k]);
    XorZero(Derivative(p, e));
  }

  lemma LocatorFactor(es: seq<nat>, n: nat)
    requires es != [] && n > 0
    ensures Locator(es, n) == MulFactor(Locator(es[..|es| - 1], n), es[|es| - 1])
  {
    hide MulFactor;
  }

  lemma {:induction false} LoopDouble(s: seq<Byte>, es: seq<nat>, fcr: nat, r: nat, el: int,
                                      lambda: seq<Byte>, b: seq<Byte>, e: nat)
    requires Invariant(s, es, fcr, r, el, lambda, b) && DoubleRoot(lambda, e) && DoubleRoot(b, e)
    ensures DoubleRoot(Loop(s, |es|, r, el, lambda, b).1, e)
    decreases |s| - r
  {
    hide Scale, Conv, ShiftUp, Updated, ScaleWord, Invariant, DoubleRoot;
    InvariantParts(s, es, fcr, r, el, lambda, b);
    if r < |s| {
      var d := Conv(s, lambda, r, r);
      LastOfB(s, es, fcr, r, el, lambda, b);
      ShiftedDouble(b, e);
      if d == ZERO {
        StepZero(s, es, fcr, r, el, lambda, b);
        LoopDouble(s, es, fcr, r + 1, el, lambda, ShiftUp(b), e);
      } else {
        var t := Updated(lambda, b, Log(d));
        UpdatedDouble(lambda, b, Log(d), e);
        if 2 * el <= r + |es| {
          StepNewLength(s, es, fcr, r, el, lambda, b, Log(d));
          ScaledDouble(lambda, 255 - Log(d), e);
          LoopDouble(s, es, fcr, r + 1, r + 1 + |es| - el, t, ScaleWord(255 - Log(d), lambda), e);
        } else {
          StepSameLength(s, es, fcr, r, el, lambda, b, Log(d));
          LoopDouble(s, es, fcr, r + 1, el, t, ShiftUp(b), e);
        }
      }
    }
  }

  /** The locator of positions has simple roots. */
  lemma SimpleRoots(p: seq<Byte>, pos: seq<nat>, e: nat)
    requires IsLocator(p, pos) && 1 <= e <= 255
    ensures !DoubleRoot(p, e)
  {
    hide Eval, Derivative, Locator, Evaluator, Times, Mul;
    PositionIsRoot(p, pos, e - 1);
    if Eval(p, e) == ZERO {
      var l :| 0 <= l < |pos| && pos[l] == e - 1;
      PositionsDistinct(pos);
      Forney(Locations(pos), Zeros(|pos|), 0, |p|, l);
    }
  }

  /** With a repeated erasure the loop never ends with the locator of positions. */
  lemma RepeatedErasureFails(s: seq<Byte>, eras: seq<nat>, pos: seq<nat>)
    requires |eras| <= |s| && (forall l :: 0 <= l < |eras| ==> eras[l] < 255) && !Positions(eras)
    ensures !IsLocator(FinalLocator(s, Locations(eras)), pos)
  {
    hide DoubleRoot, Locator, Loop, Invariant, IsLocator;
    var es := Locations(eras);
    var i, j :| 0 <= i < j < |eras| && eras[i] == eras[j];
    var p := Locator(es, |s| + 1);
    LocatorDouble(es, |s| + 1, i, j);
    LoopStart(s, es, 0);
    LoopDouble(s, es, 0, |es|, |es|, p, p, 255 - es[i]);
    if IsLocator(FinalLocator(s, es), pos) {
      SimpleRoots(FinalLocator(s, es), pos, 255 - es[i]);
    }
  }
}
