/**
  Why the Berlekamp-Massey loop of the decoder finds the locator of all errors and erasures.

  Location exponents xs list the erasures first and the unknown errors after them; ys are the
  error values.  The argument needs one fact: a coefficient of syndromes times polynomial, at or
  above the degree of the polynomial, is itself a sum over the locations, with each error value
  weighted by the polynomial's value at the inverse location.  The BCH bound does the rest.
 */
module Massey {
  import opened Bytes
  import opened Counting
  import opened Galois
  import opened Field
  import opened Code
  import opened Erasures

  //////////////////////////////////////////////////////////////////////////////
  //
  // Error lists as words
  //
  //////////////////////////////////////////////////////////////////////////////

  lemma {:induction false} SynUpdate(c: seq<Byte>, p: nat, v: Byte, e: nat)
    requires p < |c| && c[p] == ZERO
    ensures Syn(c[p := v], e) == Xor(Syn(c, e), Scale(Times(|c| - 1 - p, e), v))
  {
    hide Scale, Xor, Times;
    var n := |c| - 1;
    if p == n {
      assert c[p := v][..n] == c[..n];
      TimesStep(0, e);
      ScaleIdentity(v);
      XorZero(Scale(e, Syn(c[..n], e)));
    } else {
      assert c[p := v][..n] == c[..n][p := v];
      SynUpdate(c[..n], p, v, e);
      UpdateStep(Syn(c[..n], e), v, c[n], n - 1 - p, e);
    }
  }

  lemma UpdateStep(a: Byte, v: Byte, d: Byte, k: nat, e: nat)
    ensures Xor(Scale(e, Xor(a, Scale(Times(k, e), v))), d) == Xor(Xor(Scale(e, a), d), Scale(Times(k + 1, e), v))
  {
    hide Scale, Xor, Times;
    ScaleXor(e, a, Scale(Times(k, e), v));
    ScaleAdd(e, Times(k, e), v);
    TimesStep(k, e);
    XorMiddle(Scale(e, a), Scale(Times(k + 1, e), v), d);
  }

  /** The full-length word with the errors ys at the locations xs. */
  function ErrorWord(xs: seq<nat>, ys: seq<Byte>): (w: seq<Byte>)
    requires |xs| == |ys| && forall l :: 0 <= l < |xs| ==> xs[l] < 255
    ensures |w| == 255
  {
    if xs == [] then Zeros(255)
    else var k := |xs| - 1; ErrorWord(xs[..k], ys[..k])[254 - xs[k] := ys[k]]
  }

  lemma {:induction false} ErrorWordAt(xs: seq<nat>, ys: seq<Byte>)
    requires |xs| == |ys| && DistinctLocations(xs)
    ensures forall l :: 0 <= l < |xs| ==> ErrorWord(xs, ys)[254 - xs[l]] == ys[l]
    ensures forall p :: 0 <= p < 255 && 254 - p !in xs ==> ErrorWord(xs, ys)[p] == ZERO
  {
    if xs != [] {
      var k := |xs| - 1;
      ErrorWordAt(xs[..k], ys[..k]);
      var w := ErrorWord(xs[..k], ys[..k]);
      assert ErrorWord(xs, ys) == w[254 - xs[k] := ys[k]];
      hide ErrorWord;
      forall l | 0 <= l < |xs| ensures ErrorWord(xs, ys)[254 - xs[l]] == ys[l] {
        if l < k {
          assert xs[..k][l] != xs[k];
          assert w[254 - xs[..k][l]] == ys[..k][l];
        }
      }
    }
  }

  lemma {:induction false} SynErrorWord(xs: seq<nat>, ys: seq<Byte>, e: nat)
    requires |xs| == |ys| && DistinctLocations(xs)
    ensures Syn(ErrorWord(xs, ys), e) == ErrorSyn(xs, ys, e)
  {
    hide Scale, Xor, Times, Syn;
    if xs == [] {
      SynOfZeros(Zeros(255), e);
    } else {
      var k := |xs| - 1;
      SynErrorWord(xs[..k], ys[..k], e);
      ErrorWordAt(xs[..k], ys[..k]);
      assert xs[k] !in xs[..k];
      SynUpdate(ErrorWord(xs[..k], ys[..k]), 254 - xs[k], ys[k], e);
    }
  }

  /** The BCH bound for error lists: errors beyond the first rho show in as many syndromes. */
  lemma NoHiddenErrors(xs: seq<nat>, ys: seq<Byte>, rho: nat, first: nat, t: nat)
    requires rho <= |xs| == |ys| && DistinctLocations(xs)
    requires forall l :: 0 <= l < rho ==> ys[l] == ZERO
    requires t >= |xs| - rho
    requires forall e :: first <= e < first + t ==> ErrorSyn(xs, ys, e) == ZERO
    ensures forall l :: 0 <= l < |xs| ==> ys[l] == ZERO
  {
    hide Syn, ErrorWord;
    var w := ErrorWord(xs, ys);
    var places := seq(|xs| - rho, i requires 0 <= i < |xs| - rho => (254 - xs[rho + i]) as nat);
    var s := Elements(places);
    ElementsCount(places);
    ErrorWordAt(xs, ys);
    forall p: nat | p < 255 && w[p] != ZERO ensures p in s {
      assert 254 - p in xs;
      var l :| 0 <= l < |xs| && xs[l] == 254 - p;
      assert w[254 - xs[l]] == ys[l];
      assert places[l - rho] == p;
    }
    forall e: nat | first <= e < first + t ensures Syn(w, e) == ZERO {
      SynErrorWord(xs, ys, e);
    }
    BchBound(w, first, t, s);
    forall l | 0 <= l < |xs| ensures ys[l] == ZERO {
      assert w[254 - xs[l]] == ys[l];
    }
  }

  lemma {:induction false} ElementsCount(s: seq<nat>)
    ensures |Elements(s)| <= |s|
  {
    if s == [] {
      assert Elements(s) == {};
    } else {
      var t := s[..|s| - 1];
      ElementsCount(t);
      assert Elements(s) == Elements(t) + {s[|s| - 1]};
    }
  }

  //////////////////////////////////////////////////////////////////////////////
  //
  // Coefficients of syndromes times polynomial
  //
  //////////////////////////////////////////////////////////////////////////////

  ghost function Weighted(xs: seq<nat>, ys: seq<Byte>, p: seq<Byte>): (ws: seq<Byte>)
    requires |xs| == |ys| && forall l :: 0 <= l < |xs| ==> xs[l] < 255
    ensures |ws| == |ys|
    ensures forall l :: 0 <= l < |xs| ==> ws[l] == Mul(ys[l], Eval(p, 255 - xs[l]))
  {
    seq(|xs|, l requires 0 <= l < |xs| => Mul(ys[l], Eval(p, 255 - xs[l])))
  }

  ghost predicate DegreeAtMost(p: seq<Byte>, d: int) {
    forall i :: 0 <= i < |p| && i > d ==> p[i] == ZERO
  }

  lemma {:induction false} ConvErrorSeries(x: nat, y: Byte, fcr: nat, n: nat, p: seq<Byte>, i: nat, j: nat)
    requires x < 255 && j <= i < n && j < |p|
    ensures Conv(ErrorSeries(x, y, fcr, n), p, i, j)
         == Scale(Times(x, fcr + i), Mul(y, Eval(p[..j + 1], 255 - x)))
  {
    hide Scale, Xor, Times, Mul, Eval;
    var s := ErrorSeries(x, y, fcr, n);
    var e := 255 - x;
    EvalPrefix(p, e, j);
    SeriesTerm(x, y, fcr, p[j], i, j);
    if j == 0 {
      XorZero(Scale(Times(0, e), p[0]));
    } else {
      ConvErrorSeries(x, y, fcr, n, p, i, j - 1);
      MulXorRight(y, Eval(p[..j], e), Scale(Times(j, e), p[j]));
      ScaleXor(Times(x, fcr + i), Mul(y, Eval(p[..j], e)), Mul(y, Scale(Times(j, e), p[j])));
    }
  }

  lemma SeriesTerm(x: nat, y: Byte, fcr: nat, c: Byte, i: nat, j: nat)
    requires x < 255 && j <= i
    ensures Mul(Scale(Times(x, fcr + (i - j)), y), c)
         == Scale(Times(x, fcr + i), Mul(y, Scale(Times(j, 255 - x), c)))
  {
    hide Scale, Xor, Times, Mul;
    MulScale(Times(x, fcr + (i - j)), y, c);
    MulScale(Times(j, 255 - x), y, c);
    ScaleAdd(Times(x, fcr + i), Times(j, 255 - x), Mul(y, c));
    SeriesExponent(x, fcr, i, j);
    ScaleTurns(j, Times(x, fcr + (i - j)), Mul(y, c));
  }

  lemma SeriesExponent(x: nat, fcr: nat, i: nat, j: nat)
    requires x < 255 && j <= i
    ensures Times(x, fcr + i) + Times(j, 255 - x) == j * 255 + Times(x, fcr + (i - j))
  {
    assert x * (fcr + i) == x * (fcr + (i - j)) + x * j;
    assert j * (255 - x) == j * 255 - x * j;
  }

  /** At or above its degree, the coefficient is a weighted sum over the locations. */
  lemma {:induction false} WeightedCoefficient(xs: seq<nat>, ys: seq<Byte>, fcr: nat, n: nat, p: seq<Byte>, i: nat)
    requires |xs| == |ys| && forall l :: 0 <= l < |xs| ==> xs[l] < 255
    requires i < n && i < |p| && DegreeAtMost(p, i)
    ensures Conv(ErrorSyndromes(xs, ys, fcr, n), p, i, i) == ErrorSyn(xs, Weighted(xs, ys, p), fcr + i)
  {
    hide Scale, Xor, Times, Mul, Eval, Conv, ErrorSeries, AddWords, Weighted;
    if xs == [] {
      ConvZero(ErrorSyndromes(xs, ys, fcr, n), p, i, i);
    } else {
      var k := |xs| - 1;
      SyndromesSplit(xs, ys, fcr, n);
      ConvAddSyndromes(ErrorSyndromes(xs[..k], ys[..k], fcr, n), ErrorSeries(xs[k], ys[k], fcr, n), p, i, i);
      WeightedCoefficient(xs[..k], ys[..k], fcr, n, p, i);
      assert Weighted(xs, ys, p)[..k] == Weighted(xs[..k], ys[..k], p);
      ConvErrorSeries(xs[k], ys[k], fcr, n, p, i, i);
      EvalTrim(p, i + 1, 255 - xs[k]);
    }
  }

  lemma SyndromesSplit(xs: seq<nat>, ys: seq<Byte>, fcr: nat, n: nat)
    requires |xs| == |ys| && xs != []
    ensures var k := |xs| - 1;
            ErrorSyndromes(xs, ys, fcr, n)
            == AddWords(ErrorSyndromes(xs[..k], ys[..k], fcr, n), ErrorSeries(xs[k], ys[k], fcr, n))
  {
    hide Scale, Xor, Times;
  }

  lemma {:induction false} ErrorSynOfZeros(xs: seq<nat>, ys: seq<Byte>, e: nat)
    requires |xs| == |ys| && forall l :: 0 <= l < |xs| ==> ys[l] == ZERO
    ensures ErrorSyn(xs, ys, e) == ZERO
  {
    hide Scale, Xor, Times;
    if xs != [] {
      var k := |xs| - 1;
      ErrorSynOfZeros(xs[..k], ys[..k], e);
      ScaleZero(Times(xs[k], e));
      XorZero(ZERO);
    }
  }

  //////////////////////////////////////////////////////////////////////////////
  //
  // The invariant of the loop
  //
  //////////////////////////////////////////////////////////////////////////////

  /** An error list that explains the syndromes s: distinct locations, the erasures es first, and their values. */
  ghost predicate Explains(xs: seq<nat>, ys: seq<Byte>, es: seq<nat>, s: seq<Byte>, fcr: nat) {
    && |es| <= |xs| == |ys| && xs[..|es|] == es && DistinctLocations(xs)
    && s == ErrorSyndromes(xs, ys, fcr, |s|)
  }

  /** The unknown errors of the list are errors, and few enough for n roots. */
  ghost predicate WithinReach(xs: seq<nat>, ys: seq<Byte>, rho: nat, n: nat) {
    && rho <= |xs| == |ys|
    && (forall l :: rho <= l < |xs| ==> ys[l] != ZERO)
    && 2 * (|xs| - rho) + rho <= n
  }

  /** No error list that explains the syndromes has fewer than el locations. */
  ghost predicate Shortest(s: seq<Byte>, es: seq<nat>, fcr: nat, el: int) {
    forall xs, ys :: Explains(xs, ys, es, s, fcr) ==> el <= |xs|
  }

  ghost predicate Exponents(xs: seq<nat>) {
    forall l :: 0 <= l < |xs| ==> xs[l] < 255
  }

  /** The polynomial vanishes at the inverse of every erasure. */
  ghost predicate VanishesAt(es: seq<nat>, p: seq<Byte>)
    requires Exponents(es)
  {
    forall l :: 0 <= l < |es| ==> Eval(p, 255 - es[l]) == ZERO
  }

  /** The product with the first power: shift by one place, drop the last coefficient. */
  function ShiftUp(p: seq<Byte>): (r: seq<Byte>)
    requires p != []
    ensures |r| == |p| && r[0] == ZERO && forall i :: 0 < i < |p| ==> r[i] == p[i - 1]
  {
    [ZERO] + p[..|p| - 1]
  }

  /** The coefficients from lo on, below hi, vanish. */
  ghost predicate Generates(s: seq<Byte>, p: seq<Byte>, lo: int, hi: int) {
    forall i: nat :: lo <= i < hi && i < |s| && i < |p| ==> Conv(s, p, i, i) == ZERO
  }

  /** After r steps lambda generates the first r syndromes with length el, and no error list is shorter. */
  ghost predicate Solves(s: seq<Byte>, es: seq<nat>, fcr: nat, r: nat, el: int, lambda: seq<Byte>) {
    && |es| <= el <= r <= |s| && Exponents(es)
    && |lambda| == |s| + 1 && lambda[0] == ONE && DegreeAtMost(lambda, el) && VanishesAt(es, lambda)
    && Generates(s, lambda, el, r)
    && Shortest(s, es, fcr, el)
  }

  /** b is the last polynomial of smaller length that failed, shifted and scaled to have discrepancy 1 now. */
  ghost predicate Invariant(s: seq<Byte>, es: seq<nat>, fcr: nat, r: nat, el: int, lambda: seq<Byte>, b: seq<Byte>) {
    && Solves(s, es, fcr, r, el, lambda)
    && |b| == |s| + 1 && DegreeAtMost(b, r + |es| - el) && VanishesAt(es, b)
    && (el == |es| || (r < |s| ==> Failed(s, b, r, r + 1 + |es| - el)))
  }

  ghost predicate Failed(s: seq<Byte>, b: seq<Byte>, r: nat, lo: int)
    requires b != []
  {
    && Generates(s, ShiftUp(b), lo, r)
    && (r < |s| && r < |b| ==> Conv(s, ShiftUp(b), r, r) == ONE)
  }

  /** A polynomial that generates as many syndromes as there are unknown errors vanishes at all of them. */
  lemma WeightsVanish(xs: seq<nat>, ys: seq<Byte>, es: seq<nat>, s: seq<Byte>, fcr: nat, r: nat, el: nat, p: seq<Byte>)
    requires Explains(xs, ys, es, s, fcr)
    requires |p| == |s| + 1 && r <= |s| && Exponents(es)
    requires DegreeAtMost(p, el) && VanishesAt(es, p) && Generates(s, p, el, r)
    requires r - el >= |xs| - |es|
    ensures forall l :: 0 <= l < |xs| ==> Weighted(xs, ys, p)[l] == ZERO
  {
    hide Scale, Xor, Times, Mul, Eval, Conv, ErrorSyn, Weighted;
    var ws := Weighted(xs, ys, p);
    forall l | 0 <= l < |es| ensures ws[l] == ZERO {
      assert xs[..|es|][l] == es[l];
      MulZero(ys[l], Eval(p, 255 - xs[l]));
    }
    forall e: nat | fcr + el <= e < fcr + el + (r - el) ensures ErrorSyn(xs, ws, e) == ZERO {
      var i := e - fcr;
      assert Conv(s, p, i, i) == ZERO;
      WeightedCoefficient(xs, ys, fcr, |s|, p, i);
    }
    NoHiddenErrors(xs, ws, |es|, fcr + el, r - el);
  }

  /** A nonzero discrepancy forces a length that still fits the number of locations of every error list. */
  lemma LengthBound(xs: seq<nat>, ys: seq<Byte>, es: seq<nat>, s: seq<Byte>, fcr: nat, r: nat, el: nat,
                    lambda: seq<Byte>)
    requires Explains(xs, ys, es, s, fcr)
    requires Solves(s, es, fcr, r, el, lambda) && r < |s|
    requires Conv(s, lambda, r, r) != ZERO
    ensures r + 1 + |es| - el <= |xs|
  {
    hide Scale, Xor, Times, Mul, Eval, Conv, ErrorSyn, Weighted;
    if r + 1 + |es| - el > |xs| {
      WeightsVanish(xs, ys, es, s, fcr, r, el, lambda);
      WeightedCoefficient(xs, ys, fcr, |s|, lambda, r);
      ErrorSynOfZeros(xs, Weighted(xs, ys, lambda), fcr + r);
    }
  }

  //////////////////////////////////////////////////////////////////////////////
  //
  // Linear combinations of polynomials
  //
  //////////////////////////////////////////////////////////////////////////////

  lemma {:induction false} EvalScaleWord(p: seq<Byte>, k: nat, e: nat)
    ensures Eval(ScaleWord(k, p), e) == Scale(k, Eval(p, e))
  {
    hide Scale, Xor, Times;
    if p == [] {
      ScaleZero(k);
    } else {
      var n := |p| - 1;
      assert ScaleWord(k, p)[..n] == ScaleWord(k, p[..n]);
      EvalScaleWord(p[..n], k, e);
      ScaleAdd(k, Times(n, e), p[n]);
      ScaleXor(k, Eval(p[..n], e), Scale(Times(n, e), p[n]));
    }
  }

  lemma {:induction false} EvalShiftPrefix(p: seq<Byte>, e: nat, j: nat)
    requires j < |p|
    ensures Eval(ShiftUp(p)[..j + 1], e) == Scale(e, Eval(p[..j], e))
  {
    hide Scale, Xor, Times, Eval, ShiftUp;
    EvalPrefix(ShiftUp(p), e, j);
    if j == 0 {
      EvalPrefix(p, e, 0);
      ScaleZero(Times(0, e));
      ScaleZero(e);
      XorZero(ZERO);
    } else {
      EvalShiftPrefix(p, e, j - 1);
      EvalPrefix(p, e, j - 1);
      ScaleXor(e, Eval(p[..j - 1], e), Scale(Times(j - 1, e), p[j - 1]));
      ScaleAdd(e, Times(j - 1, e), p[j - 1]);
      TimesStep(j - 1, e);
    }
  }

  lemma EvalShiftUp(p: seq<Byte>, e: nat)
    requires p != [] && p[|p| - 1] == ZERO
    ensures Eval(ShiftUp(p), e) == Scale(e, Eval(p, e))
  {
    hide Scale, Xor, Times, Eval, ShiftUp;
    var n := |p| - 1;
    EvalShiftPrefix(p, e, n);
    EvalTrim(p, n, e);
    assert ShiftUp(p)[..n + 1] == ShiftUp(p);
  }

  lemma {:induction false} ConvAddWords(s: seq<Byte>, p: seq<Byte>, q: seq<Byte>, i: nat, j: nat)
    requires |p| == |q| && j <= i < |s| && j < |p|
    ensures Conv(s, AddWords(p, q), i, j) == Xor(Conv(s, p, i, j), Conv(s, q, i, j))
  {
    hide Scale, Xor, Mul;
    MulXorRight(s[i - j], p[j], q[j]);
    if j > 0 {
      ConvAddWords(s, p, q, i, j - 1);
      XorSwap(Conv(s, p, i, j - 1), Conv(s, q, i, j - 1), Mul(s[i - j], p[j]), Mul(s[i - j], q[j]));
    }
  }

  lemma {:induction false} ConvScaleWord(s: seq<Byte>, p: seq<Byte>, k: nat, i: nat, j: nat)
    requires j <= i < |s| && j < |p|
    ensures Conv(s, ScaleWord(k, p), i, j) == Scale(k, Conv(s, p, i, j))
  {
    hide Scale, Xor, Mul;
    MulScale(k, s[i - j], p[j]);
    if j > 0 {
      ConvScaleWord(s, p, k, i, j - 1);
      ScaleXor(k, Conv(s, p, i, j - 1), Mul(s[i - j], p[j]));
    }
  }

  lemma {:induction false} ConvShiftUp(s: seq<Byte>, p: seq<Byte>, i: nat, j: nat)
    requires j <= i < |s| && j < |p|
    ensures Conv(s, ShiftUp(p), i, j) == if j == 0 then ZERO else Conv(s, p, i - 1, j - 1)
  {
    hide Scale, Xor, Mul, ShiftUp;
    if j == 0 {
      MulZero(s[i], ZERO);
    } else {
      ConvShiftUp(s, p, i, j - 1);
      XorZero(Mul(s[i - j], p[j - 1]));
    }
  }

  //////////////////////////////////////////////////////////////////////////////
  //
  // The three cases of a step
  //
  //////////////////////////////////////////////////////////////////////////////

  /** lambda - d x b, with d = alpha^k. */
  function Updated(lambda: seq<Byte>, b: seq<Byte>, k: nat): (t: seq<Byte>)
    requires |lambda| == |b| > 0
    ensures |t| == |lambda|
  {
    AddWords(lambda, ScaleWord(k, ShiftUp(b)))
  }

  lemma UpdatedVanishes(es: seq<nat>, lambda: seq<Byte>, b: seq<Byte>, k: nat)
    requires Exponents(es)
    requires |lambda| == |b| > 0 && b[|b| - 1] == ZERO
    requires VanishesAt(es, lambda) && VanishesAt(es, b)
    ensures VanishesAt(es, Updated(lambda, b, k))
    ensures VanishesAt(es, ShiftUp(b))
  {
    hide Scale, Xor, Eval, AddWords, ScaleWord, ShiftUp;
    forall l | 0 <= l < |es|
      ensures Eval(Updated(lambda, b, k), 255 - es[l]) == ZERO && Eval(ShiftUp(b), 255 - es[l]) == ZERO
    {
      var e := 255 - es[l];
      EvalAddWords(lambda, ScaleWord(k, ShiftUp(b)), e);
      EvalScaleWord(ShiftUp(b), k, e);
      EvalShiftUp(b, e);
      ScaleZero(e);
      ScaleZero(k);
      XorZero(ZERO);
    }
  }

  lemma UpdatedCoefficients(lambda: seq<Byte>, b: seq<Byte>, k: nat, dl: int, db: int)
    requires |lambda| == |b| > 0
    requires DegreeAtMost(lambda, dl) && DegreeAtMost(b, db)
    ensures DegreeAtMost(ShiftUp(b), db + 1)
    ensures DegreeAtMost(Updated(lambda, b, k), if dl >= db + 1 then dl else db + 1)
    ensures Updated(lambda, b, k)[0] == lambda[0]
  {
    hide Scale, Xor;
    ScaleZero(k);
    XorZero(ZERO);
    XorZero(lambda[0]);
  }

  lemma ConvUpdated(s: seq<Byte>, lambda: seq<Byte>, b: seq<Byte>, k: nat, i: nat)
    requires |lambda| == |b| && i < |s| && i < |lambda|
    ensures Conv(s, Updated(lambda, b, k), i, i) == Xor(Conv(s, lambda, i, i), Scale(k, Conv(s, ShiftUp(b), i, i)))
  {
    hide Scale, Xor, Conv, AddWords, ScaleWord, ShiftUp;
    ConvAddWords(s, lambda, ScaleWord(k, ShiftUp(b)), i, i);
    ConvScaleWord(s, ShiftUp(b), k, i, i);
  }

  /** Zero discrepancy: only b is shifted. */
  lemma StepZero(s: seq<Byte>, es: seq<nat>, fcr: nat, r: nat, el: int, lambda: seq<Byte>, b: seq<Byte>)
    requires Invariant(s, es, fcr, r, el, lambda, b) && r < |s|
    requires Conv(s, lambda, r, r) == ZERO
    ensures Invariant(s, es, fcr, r + 1, el, lambda, ShiftUp(b))
  {
    hide Scale, Xor, Eval, Conv, ShiftUp, Shortest;
    LastOfB(s, es, fcr, r, el, lambda, b);
    UpdatedVanishes(es, lambda, b, 0);
    UpdatedCoefficients(lambda, b, 0, el, r + |es| - el);
    if el > |es| && r + 1 < |s| {
      ShiftFailed(s, b, r, r + 1 + |es| - el);
    }
  }

  /** b has room for one more shift. */
  lemma LastOfB(s: seq<Byte>, es: seq<nat>, fcr: nat, r: nat, el: int, lambda: seq<Byte>, b: seq<Byte>)
    requires Invariant(s, es, fcr, r, el, lambda, b) && r < |s|
    ensures b[|s|] == ZERO
  {
    hide Scale, Xor, Eval, Conv, ShiftUp, Failed, Generates, Shortest;
  }

  /** Shifting keeps the failure at the next step. */
  lemma ShiftFailed(s: seq<Byte>, b: seq<Byte>, r: nat, lo: int)
    requires |b| == |s| + 1 && r + 1 < |s|
    requires Failed(s, b, r, lo)
    ensures Failed(s, ShiftUp(b), r + 1, lo + 1)
  {
    hide Conv, ShiftUp;
    var c := ShiftUp(b);
    ConvShiftUp(s, c, r + 1, r + 1);
    forall i: nat | lo + 1 <= i < r + 1 && i < |s| && i < |b| ensures Conv(s, ShiftUp(c), i, i) == ZERO {
      ConvShiftUp(s, c, i, i);
    }
  }

  /** Nonzero discrepancy without a change of length. */
  lemma StepSameLength(s: seq<Byte>, es: seq<nat>, fcr: nat, r: nat, el: int, lambda: seq<Byte>, b: seq<Byte>, k: nat)
    requires Invariant(s, es, fcr, r, el, lambda, b) && r < |s|
    requires Conv(s, lambda, r, r) == Scale(k, ONE)
    requires 2 * el > r + |es|
    ensures Invariant(s, es, fcr, r + 1, el, Updated(lambda, b, k), ShiftUp(b))
  {
    hide Scale, Xor, Eval, Conv, ShiftUp, Updated, Shortest;
    LastOfB(s, es, fcr, r, el, lambda, b);
    UpdatedVanishes(es, lambda, b, k);
    UpdatedCoefficients(lambda, b, k, el, r + |es| - el);
    UpdatedGenerates(s, lambda, b, r, el, r + 1 + |es| - el, el, k);
    if r + 1 < |s| {
      ShiftFailed(s, b, r, r + 1 + |es| - el);
    }
  }

  lemma UpdatedGenerates(s: seq<Byte>, lambda: seq<Byte>, b: seq<Byte>, r: nat, el: int, lo: int, from: int, k: nat)
    requires |lambda| == |b| == |s| + 1 && r < |s|
    requires Generates(s, lambda, el, r) && Failed(s, b, r, lo)
    requires Conv(s, lambda, r, r) == Scale(k, ONE)
    requires from >= el && from >= lo
    ensures Generates(s, Updated(lambda, b, k), from, r + 1)
  {
    hide Scale, Xor, Conv, ShiftUp, Updated;
    forall i: nat | from <= i < r + 1 ensures Conv(s, Updated(lambda, b, k), i, i) == ZERO {
      ConvUpdated(s, lambda, b, k, i);
      ScaleZero(k);
      XorZero(ZERO);
      XorSelf(Scale(k, ONE));
    }
  }

  /** Nonzero discrepancy with a change of length; the old lambda becomes the new b. */
  lemma StepNewLength(s: seq<Byte>, es: seq<nat>, fcr: nat, r: nat, el: int, lambda: seq<Byte>, b: seq<Byte>, k: nat)
    requires Invariant(s, es, fcr, r, el, lambda, b) && r < |s| && k <= 255
    requires Conv(s, lambda, r, r) == Scale(k, ONE)
    requires 2 * el <= r + |es|
    ensures Invariant(s, es, fcr, r + 1, r + 1 + |es| - el, Updated(lambda, b, k), ScaleWord(255 - k, lambda))
  {
    hide Scale, Xor, Eval, Conv, ShiftUp, Updated, ScaleWord, Explains;
    ScaleNonzero(k, ONE);
    forall xs, ys | Explains(xs, ys, es, s, fcr) ensures r + 1 + |es| - el <= |xs| {
      LengthBound(xs, ys, es, s, fcr, r, el, lambda);
    }
    LastOfB(s, es, fcr, r, el, lambda, b);
    UpdatedVanishes(es, lambda, b, k);
    UpdatedCoefficients(lambda, b, k, el, r + |es| - el);
    if el > |es| {
      UpdatedGenerates(s, lambda, b, r, el, r + 1 + |es| - el, r + 1 + |es| - el, k);
    }
    ScaledVanishes(es, lambda, 255 - k);
    ScaledDegree(lambda, 255 - k, el);
    if r + 1 < |s| {
      OldLambdaFailed(s, lambda, r, el, k);
    }
  }

  lemma ScaledVanishes(es: seq<nat>, p: seq<Byte>, k: nat)
    requires Exponents(es) && VanishesAt(es, p)
    ensures VanishesAt(es, ScaleWord(k, p))
  {
    hide Scale, Xor, Eval, ScaleWord;
    forall l | 0 <= l < |es| ensures Eval(ScaleWord(k, p), 255 - es[l]) == ZERO {
      EvalScaleWord(p, k, 255 - es[l]);
      ScaleZero(k);
    }
  }

  lemma ScaledDegree(p: seq<Byte>, k: nat, d: int)
    requires DegreeAtMost(p, d)
    ensures DegreeAtMost(ScaleWord(k, p), d)
  {
    hide Scale;
    ScaleZero(k);
  }

  lemma OldLambdaFailed(s: seq<Byte>, lambda: seq<Byte>, r: nat, el: int, k: nat)
    requires |lambda| == |s| + 1 && r + 1 < |s| && k <= 255
    requires Generates(s, lambda, el, r)
    requires Conv(s, lambda, r, r) == Scale(k, ONE)
    ensures Failed(s, ScaleWord(255 - k, lambda), r + 1, el + 1)
  {
    hide Scale, Xor, Conv, ShiftUp, ScaleWord;
    var b := ScaleWord(255 - k, lambda);
    forall i: nat | el + 1 <= i < r + 1 && 0 < i ensures Conv(s, ShiftUp(b), i, i) == ZERO {
      ConvShiftUp(s, b, i, i);
      ConvScaleWord(s, lambda, 255 - k, i - 1, i - 1);
      ScaleZero(255 - k);
    }
    ConvShiftUp(s, b, 0, 0);
    ConvShiftUp(s, b, r + 1, r + 1);
    ConvScaleWord(s, lambda, 255 - k, r, r);
    ScaleAdd(255 - k, k, ONE);
    Scale255(ONE);
  }

  //////////////////////////////////////////////////////////////////////////////
  //
  // The loop
  //
  //////////////////////////////////////////////////////////////////////////////

  /** The loop from step r + 1 on: the length and the polynomial it ends with. */
  ghost function Loop(s: seq<Byte>, rho: nat, r: nat, el: int, lambda: seq<Byte>, b: seq<Byte>)
      : (result: (int, seq<Byte>))
    requires r <= |s| && |lambda| == |b| == |s| + 1
    ensures |result.1| == |s| + 1
    decreases |s| - r
  {
    if r == |s| then (el, lambda)
    else
      var d := Conv(s, lambda, r, r);
      if d == ZERO then Loop(s, rho, r + 1, el, lambda, ShiftUp(b))
      else if 2 * el <= r + rho then
        Loop(s, rho, r + 1, r + 1 + rho - el, Updated(lambda, b, Log(d)), ScaleWord(255 - Log(d), lambda))
      else Loop(s, rho, r + 1, el, Updated(lambda, b, Log(d)), ShiftUp(b))
  }

  /** The length that the loop ends with when it starts from the locator of the erasures es. */
  ghost function FinalLength(s: seq<Byte>, es: seq<nat>): int
    requires |es| <= |s|
  {
    Loop(s, |es|, |es|, |es|, Locator(es, |s| + 1), Locator(es, |s| + 1)).0
  }

  /** And the polynomial. */
  ghost function FinalLocator(s: seq<Byte>, es: seq<nat>): (p: seq<Byte>)
    requires |es| <= |s|
    ensures |p| == |s| + 1
  {
    Loop(s, |es|, |es|, |es|, Locator(es, |s| + 1), Locator(es, |s| + 1)).1
  }

  lemma {:induction false} LoopSolves(s: seq<Byte>, es: seq<nat>, fcr: nat, r: nat, el: int,
                                      lambda: seq<Byte>, b: seq<Byte>)
    requires Invariant(s, es, fcr, r, el, lambda, b)
    ensures var (e, l) := Loop(s, |es|, r, el, lambda, b); Solves(s, es, fcr, |s|, e, l)
    decreases |s| - r
  {
    hide Scale, Conv, ShiftUp, Updated, ScaleWord, Invariant;
    InvariantParts(s, es, fcr, r, el, lambda, b);
    if r < |s| {
      var d := Conv(s, lambda, r, r);
      if d == ZERO {
        StepZero(s, es, fcr, r, el, lambda, b);
        LoopSolves(s, es, fcr, r + 1, el, lambda, ShiftUp(b));
      } else if 2 * el <= r + |es| {
        StepNewLength(s, es, fcr, r, el, lambda, b, Log(d));
        LoopSolves(s, es, fcr, r + 1, r + 1 + |es| - el, Updated(lambda, b, Log(d)), ScaleWord(255 - Log(d), lambda));
      } else {
        StepSameLength(s, es, fcr, r, el, lambda, b, Log(d));
        LoopSolves(s, es, fcr, r + 1, el, Updated(lambda, b, Log(d)), ShiftUp(b));
      }
    }
  }

  lemma InvariantParts(s: seq<Byte>, es: seq<nat>, fcr: nat, r: nat, el: int, lambda: seq<Byte>, b: seq<Byte>)
    requires Invariant(s, es, fcr, r, el, lambda, b)
    ensures Solves(s, es, fcr, r, el, lambda) && r <= |s| && |lambda| == |b| == |s| + 1
  {
    hide Conv, Generates, Shortest, DegreeAtMost;
  }

  /** The loop starts with the erasure locator in both polynomials. */
  lemma LoopStart(s: seq<Byte>, es: seq<nat>, fcr: nat)
    requires |es| <= |s| && Exponents(es)
    ensures var p := Locator(es, |s| + 1); Invariant(s, es, fcr, |es|, |es|, p, p)
  {
    hide Scale, Xor, Eval, Conv, Locator, Shortest, Failed, VanishesAt;
    var p := Locator(es, |s| + 1);
    ErasuresAtLeast(s, es, fcr);
    LocatorDegree(es, |s| + 1);
    LocatorVanishesAt(es, |s| + 1);
  }

  lemma LocatorVanishesAt(es: seq<nat>, n: nat)
    requires |es| < n && Exponents(es)
    ensures VanishesAt(es, Locator(es, n))
  {
    hide Eval, Inverse, Locator;
    forall l | 0 <= l < |es| ensures Eval(Locator(es, n), 255 - es[l]) == ZERO {
      LocatorRoots(es, n, 255 - es[l]);
      OwnInverse(es[l]);
      assert Inverse(es[l], 255 - es[l]);
    }
  }

  lemma ErasuresAtLeast(s: seq<Byte>, es: seq<nat>, fcr: nat)
    ensures Shortest(s, es, fcr, |es|)
  {
    hide ErrorSyndromes;
  }

  lemma OwnInverse(x: nat)
    requires x < 255
    ensures Inverse(x, 255 - x)
  {}

  /**
    What the loop computes, for all syndromes: a polynomial that vanishes at the erasures and
    generates the syndromes with the final length, which no error list with these erasures undercuts.
   */
  lemma FinalSolves(s: seq<Byte>, es: seq<nat>, fcr: nat)
    requires |es| <= |s| && Exponents(es)
    ensures Solves(s, es, fcr, |s|, FinalLength(s, es), FinalLocator(s, es))
  {
    hide Locator, Loop, Invariant, Solves;
    LoopStart(s, es, fcr);
    var p := Locator(es, |s| + 1);
    LoopSolves(s, es, fcr, |es|, |es|, p, p);
  }

  //////////////////////////////////////////////////////////////////////////////
  //
  // Syndromes that the loop gives up
  //
  //////////////////////////////////////////////////////////////////////////////

  /** Of two or more syndromes the first one alone is not zero. */
  ghost predicate OnlyFirst(s: seq<Byte>) {
    |s| >= 2 && s[0] != ZERO && forall i :: 0 < i < |s| ==> s[i] == ZERO
  }

  lemma MulOne(a: Byte)
    ensures Mul(a, ONE) == a
  {
    hide Scale;
    MulComm(a, ONE);
  }

  /** No term of the coefficient is left. */
  lemma {:induction false} ConvVanishes(s: seq<Byte>, p: seq<Byte>, i: nat, j: nat)
    requires j <= i < |s| && j < |p|
    requires forall m :: 0 <= m <= j ==> s[i - m] == ZERO || p[m] == ZERO
    ensures Conv(s, p, i, j) == ZERO
  {
    hide Scale, Xor, Mul;
    MulZero(s[i - j], p[j]);
    XorZero(ZERO);
    if j > 0 {
      ConvVanishes(s, p, i, j - 1);
    }
  }

  lemma {:induction false} LoopIdles(s: seq<Byte>, r: nat, lambda: seq<Byte>, b: seq<Byte>)
    requires 2 <= r <= |s| && |lambda| == |b| == |s| + 1
    requires forall i :: 0 < i < |s| ==> s[i] == ZERO
    requires forall i :: 0 < i <= |s| ==> lambda[i] == ZERO
    ensures Loop(s, 0, r, 1, lambda, b) == (1, lambda)
    decreases |s| - r
  {
    hide Conv, ShiftUp;
    if r < |s| {
      ConvVanishes(s, lambda, r, r);
      LoopIdles(s, r + 1, lambda, ShiftUp(b));
    }
  }

  lemma FirstStep(s: seq<Byte>, p: seq<Byte>) returns (q: seq<Byte>, b: seq<Byte>)
    requires OnlyFirst(s) && |p| == |s| + 1 && p[0] == ONE && forall i :: 0 < i <= |s| ==> p[i] == ZERO
    ensures Conv(s, p, 0, 0) == s[0]
    ensures q == Updated(p, p, Log(s[0])) && b == ScaleWord(255 - Log(s[0]), p) && |q| == |b| == |s| + 1
    ensures q[0] == ONE && q[1] == s[0] && b[0] == Scale(255 - Log(s[0]), ONE)
    ensures (forall i :: 1 < i <= |s| ==> q[i] == ZERO) && (forall i :: 0 < i <= |s| ==> b[i] == ZERO)
  {
    hide Scale, Xor, Mul;
    var k := Log(s[0]);
    q, b := Updated(p, p, k), ScaleWord(255 - k, p);
    MulOne(s[0]);
    ScaleZero(k);
    ScaleZero(255 - k);
    XorZero(ZERO);
    XorZero(ONE);
    XorZero(s[0]);
  }

  /** The second step takes back what the first one did. */
  lemma SecondStep(s: seq<Byte>, q: seq<Byte>, b: seq<Byte>)
    requires OnlyFirst(s) && |q| == |b| == |s| + 1
    requires q[0] == ONE && q[1] == s[0] && b[0] == Scale(255 - Log(s[0]), ONE)
    requires (forall i :: 1 < i <= |s| ==> q[i] == ZERO) && (forall i :: 0 < i <= |s| ==> b[i] == ZERO)
    ensures var d := Conv(s, q, 1, 1);
            && d != ZERO && Updated(q, b, Log(d))[0] == ONE
            && forall i :: 0 < i <= |s| ==> Updated(q, b, Log(d))[i] == ZERO
  {
    hide Scale, Xor, Mul;
    var d := Mul(s[0], s[0]);
    MulZero(s[1], q[0]);
    MulZero(s[0], s[0]);
    XorZero(d);
    assert Conv(s, q, 1, 0) == ZERO && Conv(s, q, 1, 1) == d;
    TakenBack(s[0], d);
    ScaleZero(Log(d));
    XorSelf(s[0]);
    XorZero(ZERO);
    XorZero(ONE);
  }

  lemma TakenBack(x: Byte, d: Byte)
    requires x != ZERO && d != ZERO && d == Mul(x, x)
    ensures Scale(Log(d), Scale(255 - Log(x), ONE)) == x
  {
    hide Scale;
    var k := Log(x);
    ScaleAdd(Log(d), 255 - k, ONE);
    ScaleAdd(255 - k, Log(d), ONE);
    ScaleAdd(255 - k, k, x);
    Scale255(x);
  }

  lemma LoopGrows(s: seq<Byte>, rho: nat, r: nat, el: int, lambda: seq<Byte>, b: seq<Byte>)
    requires r < |s| && |lambda| == |b| == |s| + 1 && Conv(s, lambda, r, r) != ZERO && 2 * el <= r + rho
    ensures var k := Log(Conv(s, lambda, r, r));
            Loop(s, rho, r, el, lambda, b)
            == Loop(s, rho, r + 1, r + 1 + rho - el, Updated(lambda, b, k), ScaleWord(255 - k, lambda))
  {
    hide Conv, Updated, ScaleWord, ShiftUp, Scale;
  }

  lemma LoopKeeps(s: seq<Byte>, rho: nat, r: nat, el: int, lambda: seq<Byte>, b: seq<Byte>)
    requires r < |s| && |lambda| == |b| == |s| + 1 && Conv(s, lambda, r, r) != ZERO && 2 * el > r + rho
    ensures var k := Log(Conv(s, lambda, r, r));
            Loop(s, rho, r, el, lambda, b) == Loop(s, rho, r + 1, el, Updated(lambda, b, k), ShiftUp(b))
  {
    hide Conv, Updated, ScaleWord, ShiftUp, Scale;
  }

  /** The loop ends with the constant polynomial, as if there were no error. */
  lemma GivenUp(s: seq<Byte>)
    requires OnlyFirst(s)
    ensures FinalLength(s, []) == 1 && FinalLocator(s, []) == Locator([], |s| + 1)
  {
    hide Conv, Updated, ScaleWord, ShiftUp, Scale, Loop, Locator;
    var p := Locator([], |s| + 1);
    LocatorDegree([], |s| + 1);
    var q, b := FirstStep(s, p);
    LoopGrows(s, 0, 0, 0, p, p);
    SecondStep(s, q, b);
    LoopKeeps(s, 0, 1, 1, q, b);
    SameConstant(Updated(q, b, Log(Conv(s, q, 1, 1))), p);
    LoopIdles(s, 2, p, ShiftUp(b));
  }

  lemma SameConstant(p: seq<Byte>, q: seq<Byte>)
    requires |p| == |q| > 0 && p[0] == q[0] && forall i :: 0 < i < |p| ==> p[i] == q[i] == ZERO
    ensures p == q
  {}

  //////////////////////////////////////////////////////////////////////////////
  //
  // The end of the loop
  //
  //////////////////////////////////////////////////////////////////////////////

  /** The quotient by 1 + alpha^x z, as a power series. */
  function Quotient(p: seq<Byte>, x: nat): (q: seq<Byte>)
    ensures |q| == |p|
  {
    if p == [] then []
    else
      var n := |p| - 1;
      var q := Quotient(p[..n], x);
      q + [if n == 0 then p[0] else Xor(p[n], Scale(x, q[n - 1]))]
  }

  lemma {:induction false} QuotientAt(p: seq<Byte>, x: nat, i: nat)
    requires i < |p|
    ensures Quotient(p, x)[i] == if i == 0 then p[0] else Xor(p[i], Scale(x, Quotient(p, x)[i - 1]))
  {
    hide Scale, Xor;
    if i < |p| - 1 {
      QuotientAt(p[..|p| - 1], x, i);
    }
  }

  lemma QuotientTimesFactor(p: seq<Byte>, x: nat)
    ensures MulFactor(Quotient(p, x), x) == p
  {
    hide Scale, Xor, Quotient;
    var q := Quotient(p, x);
    forall i | 0 <= i < |p| ensures MulFactor(q, x)[i] == p[i] {
      QuotientAt(p, x, i);
      if i > 0 {
        XorCancel(p[i], Scale(x, q[i - 1]));
        assert MulFactor(q, x)[i] == Xor(q[i], Scale(x, q[i - 1]));
      }
    }
  }

  lemma {:induction false} QuotientCoefficient(p: seq<Byte>, x: nat, i: nat)
    requires x < 255 && i < |p|
    ensures Quotient(p, x)[i] == Scale(Times(x, i), Eval(p[..i + 1], 255 - x))
  {
    hide Scale, Xor, Times, Eval, Quotient;
    var e := 255 - x;
    EvalPrefix(p, e, i);
    QuotientAt(p, x, i);
    if i == 0 {
      TimesStep(0, e);
      TimesRight(x, 0);
      ScaleIdentity(p[0]);
      XorZero(p[0]);
    } else {
      QuotientCoefficient(p, x, i - 1);
      ScaleXor(Times(x, i), Eval(p[..i], e), Scale(Times(i, e), p[i]));
      ScaleAdd(Times(x, i), Times(i, e), p[i]);
      FullTurns(x, i);
      ScaleTurns(i, 0, p[i]);
      ScaleIdentity(p[i]);
      TimesRight(x, i - 1);
      ScaleAdd(x, Times(x, i - 1), Eval(p[..i], e));
      XorComm(p[i], Scale(Times(x, i), Eval(p[..i], e)));
    }
  }

  lemma FullTurns(x: nat, i: nat)
    requires x < 255
    ensures Times(x, i) + Times(i, 255 - x) == i * 255 + 0
  {
    assert i * (255 - x) == i * 255 - x * i;
  }

  /** A root leaves a quotient of lower degree. */
  lemma QuotientDegree(p: seq<Byte>, x: nat, d: nat)
    requires x < 255 && d > 0 && DegreeAtMost(p, d)
    requires Eval(p, 255 - x) == ZERO
    ensures DegreeAtMost(Quotient(p, x), d - 1)
  {
    hide Scale, Xor, Times, Eval, Quotient;
    forall i: nat | i < |p| && i > d - 1 ensures Quotient(p, x)[i] == ZERO {
      QuotientCoefficient(p, x, i);
      EvalTrim(p, i + 1, 255 - x);
      ScaleZero(Times(x, i));
    }
  }

  /** Factor theorem: as many roots as the degree determine a polynomial with constant term 1. */
  lemma {:induction false} FactorTheorem(p: seq<Byte>, xs: seq<nat>)
    requires |xs| < |p| && p[0] == ONE && DegreeAtMost(p, |xs|)
    requires DistinctLocations(xs)
    requires forall l :: 0 <= l < |xs| ==> Eval(p, 255 - xs[l]) == ZERO
    ensures p == Locator(xs, |p|)
    decreases |xs|
  {
    hide Scale, Xor, Eval, Quotient, MulFactor;
    if xs == [] {
    } else {
      var k, x := |xs| - 1, xs[|xs| - 1];
      var q := Quotient(p, x);
      QuotientTimesFactor(p, x);
      QuotientDegree(p, x, |xs|);
      QuotientAt(p, x, 0);
      forall l | 0 <= l < k ensures Eval(q, 255 - xs[..k][l]) == ZERO {
        var e := 255 - xs[l];
        EvalMulFactor(q, x, e);
        FactorZero(Eval(q, e), x, e);
        assert xs[l] != x;
      }
      FactorTheorem(q, xs[..k]);
    }
  }

  /** If an error list within reach explains the syndromes, the loop ends with its locator. */
  lemma LoopResult(xs: seq<nat>, ys: seq<Byte>, es: seq<nat>, s: seq<Byte>, fcr: nat)
    requires Explains(xs, ys, es, s, fcr) && WithinReach(xs, ys, |es|, |s|)
    requires |es| <= |s| && Exponents(es)
    ensures FinalLocator(s, es) == Locator(xs, |s| + 1)
  {
    hide Scale, Xor, Times, Mul, Eval, Conv, ErrorSyn, Weighted, Locator, FinalLength, FinalLocator;
    var el, lambda := FinalLength(s, es), FinalLocator(s, es);
    FinalSolves(s, es, fcr);
    WeightsVanish(xs, ys, es, s, fcr, |s|, el, lambda);
    forall l | 0 <= l < |xs| ensures Eval(lambda, 255 - xs[l]) == ZERO {
      assert Weighted(xs, ys, lambda)[l] == ZERO;
      MulZero(ys[l], Eval(lambda, 255 - xs[l]));
      if l < |es| {
        assert xs[..|es|][l] == es[l];
      }
    }
    FactorTheorem(lambda, xs);
  }
}
