/**
  The algebra of erasure decoding: locator, syndrome and evaluator polynomials as sequences of
  coefficients, lowest power first, and Forney's formula.

  An erasure is a location exponent x (the symbol's power of alpha) and an error value y.
 */
module Erasures {
  import opened Bytes
  import opened Galois
  import opened Field
  import opened Code

  //////////////////////////////////////////////////////////////////////////////
  //
  // Polynomials: multiplication by one factor, evaluation, derivative
  //
  //////////////////////////////////////////////////////////////////////////////

  /** The product with 1 + alpha^x z, cut off at the length of p. */
  function MulFactor(p: seq<Byte>, x: nat): (r: seq<Byte>)
    ensures |r| == |p|
    ensures forall i :: 0 <= i < |p| ==> r[i] == if i == 0 then p[0] else Xor(p[i], Scale(x, p[i - 1]))
  {
    seq(|p|, i requires 0 <= i < |p| => if i == 0 then p[0] else Xor(p[i], Scale(x, p[i - 1])))
  }

  /** The value at alpha^e. */
  function Eval(p: seq<Byte>, e: nat): Byte {
    if p == [] then ZERO else Xor(Eval(p[..|p| - 1], e), Scale(Times(|p| - 1, e), p[|p| - 1]))
  }

  /** The formal derivative at alpha^e: over GF(256) only the odd powers contribute. */
  function Derivative(p: seq<Byte>, e: nat): Byte {
    if p == [] then ZERO
    else if |p| % 2 == 1 then Derivative(p[..|p| - 1], e)
    else Xor(Derivative(p[..|p| - 1], e), Scale(Times(|p| - 2, e), p[|p| - 1]))
  }

  lemma EvalPrefix(p: seq<Byte>, e: nat, j: nat)
    requires j < |p|
    ensures Eval(p[..0], e) == ZERO
    ensures Eval(p[..j + 1], e) == Xor(Eval(p[..j], e), Scale(Times(j, e), p[j]))
  {
    hide Scale, Xor, Times;
    assert p[..j + 1][..j] == p[..j];
  }

  lemma DerivativePrefix(p: seq<Byte>, e: nat, j: nat)
    requires j < |p|
    ensures Derivative(p[..0], e) == ZERO
    ensures Derivative(p[..j + 1], e)
         == if j % 2 == 0 then Derivative(p[..j], e) else Xor(Derivative(p[..j], e), Scale(Times(j - 1, e), p[j]))
  {
    hide Scale, Xor, Times;
    assert p[..j + 1][..j] == p[..j];
  }

  lemma {:induction false} EvalPrefixOfMulFactor(p: seq<Byte>, x: nat, e: nat, j: nat)
    requires j < |p|
    ensures Eval(MulFactor(p, x)[..j + 1], e) == Xor(Eval(p[..j + 1], e), Scale(x + e, Eval(p[..j], e)))
  {
    hide Scale, Xor, Times;
    var r := MulFactor(p, x);
    assert r[..j + 1][..j] == r[..j] && p[..j + 1][..j] == p[..j];
    if j == 0 {
      assert p[..0] == [] && r[..0] == [];
      ScaleZero(x + e);
      XorZero(Eval(p[..1], e));
    } else {
      EvalPrefixOfMulFactor(p, x, e, j - 1);
      assert r[..j] == r[..(j - 1) + 1] && p[..j] == p[..(j - 1) + 1];
      assert p[..j][..j - 1] == p[..j - 1];
      EvalStep(Eval(p[..j], e), Eval(p[..j - 1], e), p[j], p[j - 1], x, e, j);
    }
  }

  lemma EvalStep(a: Byte, b: Byte, c: Byte, d: Byte, x: nat, e: nat, j: nat)
    requires j > 0
    ensures Xor(Xor(a, Scale(x + e, b)), Scale(Times(j, e), Xor(c, Scale(x, d))))
         == Xor(Xor(a, Scale(Times(j, e), c)), Scale(x + e, Xor(b, Scale(Times(j - 1, e), d))))
  {
    hide Scale, Xor, Times;
    ScaleXor(Times(j, e), c, Scale(x, d));
    ScaleAdd(Times(j, e), x, d);
    ScaleXor(x + e, b, Scale(Times(j - 1, e), d));
    ScaleAdd(x + e, Times(j - 1, e), d);
    TimesStep(j - 1, e);
    XorSwap(a, Scale(x + e, b), Scale(Times(j, e), c), Scale(Times(j, e) + x, d));
  }

  /** Multiplying by a factor multiplies the value by 1 + alpha^(x + e). */
  lemma EvalMulFactor(p: seq<Byte>, x: nat, e: nat)
    requires p != [] && p[|p| - 1] == ZERO
    ensures Eval(MulFactor(p, x), e) == Xor(Eval(p, e), Scale(x + e, Eval(p, e)))
  {
    hide Scale, Xor, Times;
    var n := |p| - 1;
    EvalPrefixOfMulFactor(p, x, e, n);
    assert p[..n + 1] == p && MulFactor(p, x)[..n + 1] == MulFactor(p, x);
    ScaleZero(Times(n, e));
    XorZero(Eval(p[..n], e));
  }

  lemma {:induction false} DerivativePrefixOfMulFactor(p: seq<Byte>, x: nat, e: nat, j: nat)
    requires j < |p|
    ensures Derivative(MulFactor(p, x)[..j + 1], e)
         == Xor(Derivative(p[..j + 1], e), Xor(Scale(x + e, Derivative(p[..j], e)), Scale(x, Eval(p[..j], e))))
  {
    hide Scale, Xor, Times, Eval, Derivative, MulFactor;
    var r := MulFactor(p, x);
    DerivativePrefix(p, e, j);
    DerivativePrefix(r, e, j);
    if j == 0 {
      EvalPrefix(p, e, 0);
      ScaleZero(x + e);
      ScaleZero(x);
      XorZero(ZERO);
    } else {
      DerivativePrefixOfMulFactor(p, x, e, j - 1);
      DerivativePrefix(p, e, j - 1);
      EvalPrefix(p, e, j - 1);
      var a, b, v := Derivative(p[..j], e), Derivative(p[..j - 1], e), Eval(p[..j - 1], e);
      if j % 2 == 1 {
        DerivativeOddStep(a, b, v, p[j], p[j - 1], x, e, j);
      } else {
        DerivativeEvenStep(a, b, v, p[j - 1], x, e, j);
      }
    }
  }

  lemma DerivativeOddStep(a: Byte, b: Byte, v: Byte, c: Byte, d: Byte, x: nat, e: nat, j: nat)
    requires j > 0
    ensures Xor(Xor(a, Xor(Scale(x + e, b), Scale(x, v))), Scale(Times(j - 1, e), Xor(c, Scale(x, d))))
         == Xor(Xor(a, Scale(Times(j - 1, e), c)), Xor(Scale(x + e, b), Scale(x, Xor(v, Scale(Times(j - 1, e), d)))))
  {
    hide Scale, Xor, Times;
    var k := Times(j - 1, e);
    ScaleXor(k, c, Scale(x, d));
    ScaleAdd(k, x, d);
    ScaleXor(x, v, Scale(k, d));
    XorRegroup(a, Scale(x + e, b), Scale(x, v), Scale(k, c), Scale(x, Scale(k, d)));
  }

  lemma XorRegroup(a: Byte, b: Byte, v: Byte, c: Byte, d: Byte)
    ensures Xor(Xor(a, Xor(b, v)), Xor(c, d)) == Xor(Xor(a, c), Xor(b, Xor(v, d)))
  {}

  lemma DerivativeEvenStep(a: Byte, b: Byte, v: Byte, d: Byte, x: nat, e: nat, j: nat)
    requires j > 1
    ensures Xor(a, Xor(Scale(x + e, b), Scale(x, v)))
         == Xor(a, Xor(Scale(x + e, Xor(b, Scale(Times(j - 2, e), d))), Scale(x, Xor(v, Scale(Times(j - 1, e), d)))))
  {
    hide Scale, Xor, Times;
    ScaleXor(x + e, b, Scale(Times(j - 2, e), d));
    ScaleAdd(x + e, Times(j - 2, e), d);
    ScaleXor(x, v, Scale(Times(j - 1, e), d));
    ScaleAdd(x, Times(j - 1, e), d);
    TimesStep(j - 2, e);
    XorTwice(Scale(x + e, b), Scale(x, v), Scale(x + Times(j - 1, e), d));
  }

  lemma XorTwice(a: Byte, b: Byte, d: Byte)
    ensures Xor(Xor(a, d), Xor(b, d)) == Xor(a, b)
  {}

  /** The product rule. */
  lemma DerivativeMulFactor(p: seq<Byte>, x: nat, e: nat)
    requires p != [] && p[|p| - 1] == ZERO
    ensures Derivative(MulFactor(p, x), e)
         == Xor(Derivative(p, e), Xor(Scale(x + e, Derivative(p, e)), Scale(x, Eval(p, e))))
  {
    hide Scale, Xor, Times;
    var n := |p| - 1;
    DerivativePrefixOfMulFactor(p, x, e, n);
    assert p[..n + 1] == p && MulFactor(p, x)[..n + 1] == MulFactor(p, x);
    if n > 0 {
      ScaleZero(Times(n - 1, e));
    }
    ScaleZero(Times(n, e));
    XorZero(Derivative(p[..n], e));
    XorZero(Eval(p[..n], e));
  }

  /** Coefficients beyond the degree may be dropped. */
  lemma {:induction false} EvalTrim(p: seq<Byte>, k: nat, e: nat)
    requires k <= |p| && forall i :: k <= i < |p| ==> p[i] == ZERO
    ensures Eval(p, e) == Eval(p[..k], e)
  {
    hide Scale, Xor, Times;
    if k == |p| {
      assert p[..k] == p;
    } else {
      var n := |p| - 1;
      EvalTrim(p[..n], k, e);
      assert p[..n][..k] == p[..k];
      ScaleZero(Times(n, e));
      XorZero(Eval(p[..n], e));
    }
  }

  lemma {:induction false} DerivativeTrim(p: seq<Byte>, k: nat, e: nat)
    requires k <= |p| && forall i :: k <= i < |p| ==> p[i] == ZERO
    ensures Derivative(p, e) == Derivative(p[..k], e)
  {
    hide Scale, Xor, Times;
    if k == |p| {
      assert p[..k] == p;
    } else {
      var n := |p| - 1;
      DerivativeTrim(p[..n], k, e);
      assert p[..n][..k] == p[..k];
      if n > 0 {
        ScaleZero(Times(n - 1, e));
      }
      XorZero(Derivative(p[..n], e));
    }
  }

  //////////////////////////////////////////////////////////////////////////////
  //
  // The erasure locator: the product of 1 + alpha^x z over the locations
  //
  //////////////////////////////////////////////////////////////////////////////

  function Locator(xs: seq<nat>, n: nat): (p: seq<Byte>)
    requires n > 0
    ensures |p| == n
  {
    if xs == [] then [ONE] + Zeros(n - 1) else MulFactor(Locator(xs[..|xs| - 1], n), xs[|xs| - 1])
  }

  /** The locator has the constant term 1 and a degree of exactly the number of locations. */
  lemma {:induction false} LocatorDegree(xs: seq<nat>, n: nat)
    requires |xs| < n
    ensures Locator(xs, n)[0] == ONE
    ensures Locator(xs, n)[|xs|] != ZERO
    ensures forall i :: |xs| < i < n ==> Locator(xs, n)[i] == ZERO
  {
    hide Scale, Xor, Times;
    if xs != [] {
      var k, x := |xs| - 1, xs[|xs| - 1];
      LocatorDegree(xs[..k], n);
      ScaleZero(x);
      XorZero(ZERO);
      ScaleNonzero(x, Locator(xs[..k], n)[k]);
      XorZero(Scale(x, Locator(xs[..k], n)[k]));
    }
  }

  /** alpha^e cancels the location alpha^x. */
  predicate Inverse(x: nat, e: nat) {
    (x + e) % 255 == 0
  }

  ghost predicate SomeInverse(xs: seq<nat>, e: nat) {
    exists l :: 0 <= l < |xs| && Inverse(xs[l], e)
  }

  lemma SomeInverseSnoc(xs: seq<nat>, e: nat)
    requires xs != []
    ensures SomeInverse(xs, e) <==> SomeInverse(xs[..|xs| - 1], e) || Inverse(xs[|xs| - 1], e)
  {
    hide Inverse;
    var t := xs[..|xs| - 1];
    if l :| 0 <= l < |xs| && Inverse(xs[l], e) {
      if l < |t| {
        assert Inverse(t[l], e);
      }
    }
    if l :| 0 <= l < |t| && Inverse(t[l], e) {
      assert Inverse(xs[l], e);
    }
  }

  /** The roots of the locator are exactly the inverse locations. */
  lemma {:induction false} LocatorRoots(xs: seq<nat>, n: nat, e: nat)
    requires |xs| < n
    ensures Eval(Locator(xs, n), e) == ZERO <==> SomeInverse(xs, e)
  {
    hide Scale, Xor, Times, Inverse, SomeInverse;
    if xs == [] {
      EvalTrim(Locator(xs, n), 1, e);
      assert Locator(xs, n)[..1] == [ONE];
      EvalConstant(ONE, e);
      NoInverse(e);
    } else {
      var k, x := |xs| - 1, xs[|xs| - 1];
      var p := Locator(xs[..k], n);
      LocatorRoots(xs[..k], n, e);
      LocatorDegree(xs[..k], n);
      EvalMulFactor(p, x, e);
      FactorZero(Eval(p, e), x, e);
      SomeInverseSnoc(xs, e);
    }
  }

  lemma NoInverse(e: nat)
    ensures !SomeInverse([], e)
  {}

  lemma EvalConstant(a: Byte, e: nat)
    ensures Eval([a], e) == a
  {
    hide Scale, Xor, Times;
    assert [a][..0] == [];
    TimesStep(0, e);
    ScaleIdentity(a);
    XorZero(a);
  }

  lemma FactorZero(a: Byte, x: nat, e: nat)
    ensures Xor(a, Scale(x + e, a)) == ZERO <==> a == ZERO || Inverse(x, e)
  {
    hide Scale, Xor, Times;
    XorEqual(a, Scale(x + e, a));
    ScaleIdentity(a);
    if a == ZERO {
      ScaleZero(x + e);
    } else {
      ScaleSame(0, x + e, a);
    }
  }

  //////////////////////////////////////////////////////////////////////////////
  //
  // Syndromes of an error pattern and the key equation
  //
  //////////////////////////////////////////////////////////////////////////////

  /** The syndrome at root e of the errors ys at the locations xs. */
  function ErrorSyn(xs: seq<nat>, ys: seq<Byte>, e: nat): Byte
    requires |xs| == |ys|
  {
    if xs == [] then ZERO
    else var k := |xs| - 1; Xor(ErrorSyn(xs[..k], ys[..k], e), Scale(Times(xs[k], e), ys[k]))
  }

  function ErrorSyndromes(xs: seq<nat>, ys: seq<Byte>, fcr: nat, n: nat): (s: seq<Byte>)
    requires |xs| == |ys|
    ensures |s| == n && forall i :: 0 <= i < n ==> s[i] == ErrorSyn(xs, ys, fcr + i)
  {
    seq(n, i requires 0 <= i < n => ErrorSyn(xs, ys, fcr + i))
  }

  /** Part of coefficient i of the product of s and p: the terms p[0] .. p[j]. */
  ghost function Conv(s: seq<Byte>, p: seq<Byte>, i: nat, j: nat): Byte
    requires j <= i < |s| && j < |p|
  {
    var term := Mul(s[i - j], p[j]);
    if j == 0 then term else Xor(Conv(s, p, i, j - 1), term)
  }

  ghost function Constant(p: seq<Byte>, y: Byte): (r: seq<Byte>)
    ensures |r| == |p| && forall i :: 0 <= i < |p| ==> r[i] == Mul(p[i], y)
  {
    seq(|p|, i requires 0 <= i < |p| => Mul(p[i], y))
  }

  /** The evaluator: the sum over the errors of y x^fcr times the locator of the others. */
  ghost function Evaluator(xs: seq<nat>, ys: seq<Byte>, fcr: nat, n: nat): (p: seq<Byte>)
    requires |xs| == |ys| && n > 0
    ensures |p| == n
  {
    if xs == [] then Zeros(n)
    else
      var k := |xs| - 1;
      AddWords(MulFactor(Evaluator(xs[..k], ys[..k], fcr, n), xs[k]),
               Constant(Locator(xs[..k], n), Scale(Times(xs[k], fcr), ys[k])))
  }

  lemma {:induction false} EvaluatorDegree(xs: seq<nat>, ys: seq<Byte>, fcr: nat, n: nat)
    requires |xs| == |ys| < n
    ensures forall i :: |xs| <= i < n ==> Evaluator(xs, ys, fcr, n)[i] == ZERO
  {
    hide Scale, Xor, Mul, Times;
    if xs != [] {
      var k := |xs| - 1;
      EvaluatorDegree(xs[..k], ys[..k], fcr, n);
      LocatorDegree(xs[..k], n);
      ScaleZero(xs[k]);
      XorZero(ZERO);
      MulZero(ZERO, Scale(Times(xs[k], fcr), ys[k]));
    }
  }

  lemma {:induction false} ConvAddSyndromes(s: seq<Byte>, t: seq<Byte>, p: seq<Byte>, i: nat, j: nat)
    requires |s| == |t| && j <= i < |s| && j < |p|
    ensures Conv(AddWords(s, t), p, i, j) == Xor(Conv(s, p, i, j), Conv(t, p, i, j))
  {
    hide Scale, Xor, Mul, Times;
    MulXor(s[i - j], t[i - j], p[j]);
    if j > 0 {
      ConvAddSyndromes(s, t, p, i, j - 1);
      XorSwap(Conv(s, p, i, j - 1), Conv(t, p, i, j - 1), Mul(s[i - j], p[j]), Mul(t[i - j], p[j]));
    }
  }

  lemma {:induction false} ConvMulFactor(s: seq<Byte>, p: seq<Byte>, x: nat, i: nat, j: nat)
    requires j <= i < |s| && j < |p|
    ensures Conv(s, MulFactor(p, x), i, j)
         == if j == 0 then Conv(s, p, i, j) else Xor(Conv(s, p, i, j), Scale(x, Conv(s, p, i - 1, j - 1)))
  {
    hide Scale, Xor, Mul, Times;
    if j > 0 {
      ConvMulFactor(s, p, x, i, j - 1);
      MulXorRight(s[i - j], p[j], Scale(x, p[j - 1]));
      MulScale(x, s[i - j], p[j - 1]);
      if j > 1 {
        ScaleXor(x, Conv(s, p, i - 1, j - 2), Mul(s[i - j], p[j - 1]));
        XorSwap(Conv(s, p, i, j - 1), Scale(x, Conv(s, p, i - 1, j - 2)),
                Mul(s[i - j], p[j]), Scale(x, Mul(s[i - j], p[j - 1])));
      } else {
        XorAssoc(Conv(s, p, i, 0), Mul(s[i - 1], p[1]), Scale(x, Mul(s[i - 1], p[0])));
      }
    }
  }

  lemma MulXorRight(a: Byte, b: Byte, c: Byte)
    ensures Mul(a, Xor(b, c)) == Xor(Mul(a, b), Mul(a, c))
  {
    hide Scale, Xor, Mul, Times;
    MulXor(b, c, a);
    MulComm(a, b);
    MulComm(a, c);
    MulComm(a, Xor(b, c));
  }

  /** s is a geometric series with the ratio alpha^x. */
  ghost predicate Geometric(s: seq<Byte>, x: nat) {
    forall i :: 0 < i < |s| ==> s[i] == Scale(x, s[i - 1])
  }

  lemma {:induction false} ConvGeometric(s: seq<Byte>, p: seq<Byte>, x: nat, i: nat, j: nat)
    requires Geometric(s, x)
    requires j < i < |s| && j < |p|
    ensures Conv(s, p, i, j) == Scale(x, Conv(s, p, i - 1, j))
  {
    hide Scale, Xor, Mul, Times;
    MulScale(x, s[i - 1 - j], p[j]);
    if j > 0 {
      ConvGeometric(s, p, x, i, j - 1);
      ScaleXor(x, Conv(s, p, i - 1, j - 1), Mul(s[i - 1 - j], p[j]));
    }
  }

  /** The factor 1 + alpha^x z cancels the geometric series with the ratio alpha^x. */
  lemma ConvGeometricMulFactor(s: seq<Byte>, p: seq<Byte>, x: nat, i: nat)
    requires Geometric(s, x)
    requires i < |s| && i < |p|
    ensures Conv(s, MulFactor(p, x), i, i) == Mul(s[0], p[i])
  {
    hide Scale, Xor, Mul, Times;
    ConvMulFactor(s, p, x, i, i);
    if i > 0 {
      ConvGeometric(s, p, x, i, i - 1);
      XorCancel(Mul(s[0], p[i]), Scale(x, Conv(s, p, i - 1, i - 1)));
      XorComm(Conv(s, p, i, i - 1), Mul(s[0], p[i]));
    }
  }

  /** The part of the syndromes that one error contributes. */
  function ErrorSeries(x: nat, y: Byte, fcr: nat, n: nat): (s: seq<Byte>)
    ensures |s| == n && forall i :: 0 <= i < n ==> s[i] == Scale(Times(x, fcr + i), y)
  {
    seq(n, i requires 0 <= i < n => Scale(Times(x, fcr + i), y))
  }

  lemma ErrorSeriesGeometric(x: nat, y: Byte, fcr: nat, n: nat)
    ensures Geometric(ErrorSeries(x, y, fcr, n), x)
  {
    hide Scale;
    var s := ErrorSeries(x, y, fcr, n);
    forall i | 0 < i < n ensures s[i] == Scale(x, s[i - 1]) {
      TimesRight(x, fcr + (i - 1));
      ScaleAdd(x, Times(x, fcr + (i - 1)), y);
    }
  }

  /**
    The key equation: the product of the syndromes and the locator has the coefficients of the
    evaluator.  Beyond the number of erasures they vanish, so these are also the discrepancies.
   */
  lemma {:induction false} KeyEquation(xs: seq<nat>, ys: seq<Byte>, fcr: nat, n: nat, m: nat, i: nat)
    requires |xs| == |ys|
    requires i < n && i < m
    ensures Conv(ErrorSyndromes(xs, ys, fcr, n), Locator(xs, m), i, i) == Evaluator(xs, ys, fcr, m)[i]
  {
    hide Scale, Xor, Mul, Times;
    if xs == [] {
      ConvZero(ErrorSyndromes(xs, ys, fcr, n), Locator(xs, m), i, i);
    } else {
      var k := |xs| - 1;
      var x, y := xs[k], ys[k];
      var s, t, p := ErrorSyndromes(xs[..k], ys[..k], fcr, n), ErrorSeries(x, y, fcr, n), Locator(xs[..k], m);
      assert ErrorSyndromes(xs, ys, fcr, n) == AddWords(s, t);
      ConvAddSyndromes(s, t, MulFactor(p, x), i, i);
      ConvMulFactor(s, p, x, i, i);
      KeyEquation(xs[..k], ys[..k], fcr, n, m, i);
      if i > 0 {
        KeyEquation(xs[..k], ys[..k], fcr, n, m, i - 1);
      }
      ErrorSeriesGeometric(x, y, fcr, n);
      ConvGeometricMulFactor(t, p, x, i);
      MulComm(t[0], p[i]);
    }
  }

  /** When the erasures are all that is wrong, their locator leaves every discrepancy of the loop zero. */
  lemma ErasureDiscrepanciesVanish(xs: seq<nat>, ys: seq<Byte>, fcr: nat, n: nat, r: nat)
    requires |xs| == |ys| <= r < n
    ensures Conv(ErrorSyndromes(xs, ys, fcr, n), Locator(xs, n + 1), r, r) == ZERO
  {
    hide Conv, Locator, Evaluator, ErrorSyndromes;
    KeyEquation(xs, ys, fcr, n, n + 1, r);
    EvaluatorDegree(xs, ys, fcr, n + 1);
  }

  lemma {:induction false} ConvZero(s: seq<Byte>, p: seq<Byte>, i: nat, j: nat)
    requires j <= i < |s| && j < |p|
    requires forall m :: 0 <= m < |s| ==> s[m] == ZERO
    ensures Conv(s, p, i, j) == ZERO
  {
    hide Scale, Xor, Mul, Times;
    MulZero(s[i - j], p[j]);
    XorZero(ZERO);
    if j > 0 {
      ConvZero(s, p, i, j - 1);
    }
  }

  //////////////////////////////////////////////////////////////////////////////
  //
  // Forney's formula
  //
  //////////////////////////////////////////////////////////////////////////////

  lemma {:induction false} EvalAddWords(p: seq<Byte>, q: seq<Byte>, e: nat)
    requires |p| == |q|
    ensures Eval(AddWords(p, q), e) == Xor(Eval(p, e), Eval(q, e))
  {
    hide Scale, Xor, Times;
    if p == [] {
      XorZero(ZERO);
    } else {
      var n := |p| - 1;
      assert AddWords(p, q)[..n] == AddWords(p[..n], q[..n]);
      EvalAddWords(p[..n], q[..n], e);
      ScaleXor(Times(n, e), p[n], q[n]);
      XorSwap(Eval(p[..n], e), Eval(q[..n], e), Scale(Times(n, e), p[n]), Scale(Times(n, e), q[n]));
    }
  }

  lemma {:induction false} EvalConstantMultiple(p: seq<Byte>, y: Byte, e: nat)
    ensures Eval(Constant(p, y), e) == Mul(Eval(p, e), y)
  {
    hide Scale, Xor, Mul, Times;
    if p == [] {
      MulZero(ZERO, y);
    } else {
      var n := |p| - 1;
      assert Constant(p, y)[..n] == Constant(p[..n], y);
      EvalConstantMultiple(p[..n], y, e);
      MulScale(Times(n, e), p[n], y);
      MulXor(Eval(p[..n], e), Scale(Times(n, e), p[n]), y);
    }
  }

  ghost predicate DistinctLocations(xs: seq<nat>) {
    && (forall l :: 0 <= l < |xs| ==> xs[l] < 255)
    && (forall l, m :: 0 <= l < m < |xs| ==> xs[l] != xs[m])
  }

  /** How one more location changes the derivative of the locator. */
  lemma LocatorStep(xs: seq<nat>, n: nat, e: nat)
    requires 0 < |xs| < n
    ensures var k := |xs| - 1;
            var p := Locator(xs[..k], n);
            Derivative(Locator(xs, n), e)
            == Xor(Derivative(p, e), Xor(Scale(xs[k] + e, Derivative(p, e)), Scale(xs[k], Eval(p, e))))
  {
    hide Scale, Xor, Mul, Times, Eval, Derivative, MulFactor;
    var k := |xs| - 1;
    LocatorDegree(xs[..k], n);
    DerivativeMulFactor(Locator(xs[..k], n), xs[k], e);
  }

  /** How one more location changes the value of the evaluator. */
  lemma EvaluatorStep(xs: seq<nat>, ys: seq<Byte>, fcr: nat, n: nat, e: nat)
    requires 0 < |xs| == |ys| < n
    ensures var k := |xs| - 1;
            var o := Eval(Evaluator(xs[..k], ys[..k], fcr, n), e);
            Eval(Evaluator(xs, ys, fcr, n), e)
            == Xor(Xor(o, Scale(xs[k] + e, o)),
                   Mul(Eval(Locator(xs[..k], n), e), Scale(Times(xs[k], fcr), ys[k])))
  {
    hide Scale, Xor, Mul, Times, Eval, Derivative, MulFactor, AddWords, Constant, Locator;
    var k := |xs| - 1;
    var q := Evaluator(xs[..k], ys[..k], fcr, n);
    var c := Scale(Times(xs[k], fcr), ys[k]);
    EvaluatorDegree(xs[..k], ys[..k], fcr, n);
    EvalAddWords(MulFactor(q, xs[k]), Constant(Locator(xs[..k], n), c), e);
    EvalMulFactor(q, xs[k], e);
    EvalConstantMultiple(Locator(xs[..k], n), c, e);
  }

  /**
    At the inverse of location l the evaluator is the derivative of the locator times
    y x^(fcr - 1); the derivative is not zero there.
   */
  lemma {:induction false} Forney(xs: seq<nat>, ys: seq<Byte>, fcr: nat, n: nat, l: nat)
    requires |xs| == |ys| < n
    requires DistinctLocations(xs) && l < |xs|
    ensures Derivative(Locator(xs, n), 255 - xs[l]) != ZERO
    ensures Eval(Evaluator(xs, ys, fcr, n), 255 - xs[l])
         == Mul(Derivative(Locator(xs, n), 255 - xs[l]), Scale(Times(fcr + 254, xs[l]), ys[l]))
  {
    hide Scale, Xor, Mul, Times, Inverse, SomeInverse, Eval, Derivative, Locator, Evaluator;
    var k, e := |xs| - 1, 255 - xs[l];
    var p, q := Locator(xs[..k], n), Evaluator(xs[..k], ys[..k], fcr, n);
    LocatorStep(xs, n, e);
    EvaluatorStep(xs, ys, fcr, n, e);
    LocatorRoots(xs[..k], n, e);
    if l == k {
      OtherLocationsAreNoInverse(xs, k);
      ForneyLast(Eval(q, e), Derivative(p, e), Eval(p, e), xs[k], fcr, ys[k]);
    } else {
      EarlierLocationIsInverse(xs, l);
      Forney(xs[..k], ys[..k], fcr, n, l);
      ForneyEarlier(Eval(q, e), Derivative(p, e), Scale(Times(fcr + 254, xs[l]), ys[l]), xs[k], e,
                    Scale(Times(xs[k], fcr), ys[k]));
    }
  }

  lemma OtherLocationsAreNoInverse(xs: seq<nat>, k: nat)
    requires DistinctLocations(xs) && |xs| == k + 1
    ensures !SomeInverse(xs[..k], 255 - xs[k])
  {
    forall m | 0 <= m < k ensures !Inverse(xs[..k][m], 255 - xs[k]) {
      assert xs[m] != xs[k];
    }
  }

  lemma EarlierLocationIsInverse(xs: seq<nat>, l: nat)
    requires DistinctLocations(xs) && l + 1 < |xs|
    ensures SomeInverse(xs[..|xs| - 1], 255 - xs[l])
    ensures !Inverse(xs[|xs| - 1], 255 - xs[l])
  {
    assert Inverse(xs[..|xs| - 1][l], 255 - xs[l]);
  }

  lemma ForneyLast(o: Byte, d: Byte, v: Byte, x: nat, fcr: nat, y: Byte)
    requires x < 255 && v != ZERO
    ensures Xor(d, Xor(Scale(x + (255 - x), d), Scale(x, v))) == Scale(x, v) != ZERO
    ensures Xor(Xor(o, Scale(x + (255 - x), o)), Mul(v, Scale(Times(x, fcr), y)))
         == Mul(Scale(x, v), Scale(Times(fcr + 254, x), y))
  {
    hide Scale, Xor, Mul, Times;
    Scale255(d);
    Scale255(o);
    XorCancel(Scale(x, v), d);
    XorSelf(o);
    XorZero(Mul(v, Scale(Times(x, fcr), y)));
    ScaleNonzero(x, v);
    MulScale(x, v, Scale(Times(fcr + 254, x), y));
    ScaleAdd(x, Times(fcr + 254, x), y);
    TurnsOfForney(x, fcr);
    ScaleTurns(x, Times(x, fcr), y);
  }

  lemma TurnsOfForney(x: nat, fcr: nat)
    ensures x + Times(fcr + 254, x) == x * 255 + Times(x, fcr)
  {}

  lemma ForneyEarlier(o: Byte, d: Byte, w: Byte, x: nat, e: nat, c: Byte)
    requires o == Mul(d, w) && d != ZERO
    requires !Inverse(x, e)
    ensures Xor(d, Xor(Scale(x + e, d), Scale(x, ZERO))) != ZERO
    ensures Xor(Xor(o, Scale(x + e, o)), Mul(ZERO, c)) == Mul(Xor(d, Xor(Scale(x + e, d), Scale(x, ZERO))), w)
  {
    hide Scale, Xor, Mul, Times;
    ScaleZero(x);
    XorZero(Scale(x + e, d));
    FactorZero(d, x, e);
    MulZero(ZERO, c);
    XorZero(Xor(o, Scale(x + e, o)));
    MulXor(d, Scale(x + e, d), w);
    MulScale(x + e, d, w);
  }

  /** The exponent of num2 before reduction: root * (fcr - 1) + 255, never negative. */
  function Num2Exponent(x: nat, fcr: nat): (p: nat)
    requires x < 255
    ensures p + Times(fcr + 254, x) == 255 * (x + fcr)
  {
    assert (255 - x) * (fcr - 1) == 255 * fcr - 255 - x * fcr + x;
    assert (fcr + 254) * x == x * fcr + 254 * x;
    assert fcr == 0 || (255 - x) * (fcr - 1) >= 0;
    (255 - x) * (fcr - 1) + 255
  }

  /** The exponent arithmetic of the correction: num1, num2 and den recover y. */
  lemma ForneyValue(num1: Byte, den: Byte, y: Byte, x: nat, fcr: nat)
    requires x < 255 && den != ZERO
    requires num1 == Mul(den, Scale(Times(fcr + 254, x), y))
    ensures num1 == ZERO <==> y == ZERO
    ensures num1 != ZERO ==> Scale(Log(num1) + Num2Exponent(x, fcr) % 255 + 255 - Log(den), ONE) == y
  {
    hide Scale, Xor, Mul, Times, Num2Exponent;
    var q := Times(fcr + 254, x);
    ScaleNonzero(q, y);
    MulZero(den, Scale(q, y));
    if num1 != ZERO {
      MulScale(q, den, y);
      MulLog(den, y);
      ScaleAdd(q, Log(den) + Log(y), ONE);
      ScaleSame(Log(num1), q + (Log(den) + Log(y)), ONE);
      SumOfResidues(Log(num1), q, Log(den), Log(y), Num2Exponent(x, fcr), x + fcr);
      ScaleSame(Log(num1) + Num2Exponent(x, fcr) % 255 + 255 - Log(den), Log(y), ONE);
    }
  }

  lemma SumOfResidues(a: nat, q: nat, d: nat, y: nat, p: nat, k: nat)
    requires a % 255 == (q + d + y) % 255
    requires q + p == 255 * k
    requires d < 255
    ensures (a + p % 255 + 255 - d) % 255 == y % 255
  {
    var i := (q + d + y) / 255 - a / 255;
    assert q + d + y == a + 255 * i;
    var j := p / 255;
    assert p == 255 * j + p % 255;
    assert a + p % 255 + 255 - d == y + 255 * (k - i - j + 1);
  }
}
