/**
  The control block of the Reed-Solomon codec, its construction and the encoder.

  The codec is used with eight-bit symbols and primitive element 1, so MM = 8, NN = A0 = 255,
  PRIM = IPRIM = 1.  Symbols in polynomial form are bytes; symbols in index form (logarithms, with
  A0 for the logarithm of zero) are numbers.
 */
module Codec {
  import opened Arithmetic
  import opened Bytes
  import opened Galois
  import opened Field
  import opened Generator

  const NN: nat := 255
  const A0: nat := 255

  /** Reduces modulo 2^mm - 1 without dividing: add the high part to the low part. */
  method ModNN(mm: nat, nn: nat, x: int) returns (r: int)
    requires mm >= 1 && nn == Pow2(mm) - 1
    ensures x >= 0 ==> r == x % nn
    ensures x < 0 ==> r == x
  {
    r := x;
    Pow2Positive(mm);
    hide Pow2;
    var p := Pow2(mm);
    hide Fold;
    while r >= nn
      invariant x < 0 ==> r == x
      invariant x >= 0 ==> r >= 0 && r % nn == x % nn
      decreases r
    {
      FoldHigh(p, nn, r);
      r := r - nn;
      r := Fold(r, p);
    }
    if x >= 0 {
      DivModUnique(r, nn, 0, r);
    }
  }

  /** (x >> mm) + (x & nn), for p = 2^mm. */
  function Fold(x: nat, p: nat): nat
    requires p > 0
  {
    x / p + x % p
  }

  function Pow2(n: nat): nat {
    if n == 0 then 1 else 2 * Pow2(n - 1)
  }

  lemma {:induction false} Pow2Positive(n: nat)
    ensures Pow2(n) >= n + 1
  {
    if n > 0 {
      Pow2Positive(n - 1);
    }
  }

  /** 2^mm is congruent to 1, so the high part counts as much as the low part. */
  lemma FoldHigh(p: nat, nn: nat, x: nat)
    requires x >= nn >= 1 && p == nn + 1
    ensures Fold(x - nn, p) < x
    ensures Fold(x - nn, p) % nn == x % nn
  {
    var y := x - nn;
    var q, low := y / p, y % p;
    assert y == q * p + low;
    assert q * p == q * nn + q;
    AddMultiple(q + low, q, nn);
    SubtractModulus(x, nn);
  }

  /** The reduction as the codec calls it, with nn = 255. */
  method Mod255(x: nat) returns (r: nat)
    ensures r == x % 255
  {
    assert Pow2(8) == 256;
    r := ModNN(8, NN, x);
  }

  /** The index form of a symbol. */
  ghost function Index(a: Byte): (i: nat)
    ensures i <= 255
  {
    if a == ZERO then A0 else Log(a)
  }

  class Rs {
    const pad: nat
    const nroots: nat
    const fcr: nat
    const alphaTo: array<Byte>
    const indexOf: array<nat>
    const genpoly: array<nat>

    ghost predicate Tables()
      reads alphaTo, indexOf
    {
      && alphaTo.Length == 256 && indexOf.Length == 256
      && (forall i :: 0 <= i < 255 ==> alphaTo[i] == Scale(i, ONE))
      && alphaTo[255] == ZERO
      && (forall a: Byte :: indexOf[Value(a)] == Index(a))
    }

    ghost predicate Valid()
      reads alphaTo, indexOf, genpoly
    {
      && nroots < 255 && pad < 255 - nroots && fcr < 256
      && Tables()
      && genpoly.Length == nroots + 1
      && (forall j :: 0 <= j <= nroots ==> genpoly[j] == Index(GenPoly(fcr, nroots)[nroots - j]))
    }

    constructor (pad: nat, nroots: nat, fcr: nat, alphaTo: array<Byte>, indexOf: array<nat>, genpoly: array<nat>)
      ensures this.pad == pad && this.nroots == nroots && this.fcr == fcr
      ensures this.alphaTo == alphaTo && this.indexOf == indexOf && this.genpoly == genpoly
    {
      this.pad, this.nroots, this.fcr := pad, nroots, fcr;
      this.alphaTo, this.indexOf, this.genpoly := alphaTo, indexOf, genpoly;
    }

    /** ALPHA_TO[MODNN(INDEX_OF[a] + e)] for a nonzero symbol: the product of a with alpha^e. */
    method TimesAlpha(a: Byte, e: nat) returns (r: Byte)
      requires Tables() && a != ZERO
      ensures r == Scale(e, a)
    {
      hide Scale;
      var k := Mod255(indexOf[Value(a)] + e);
      r := alphaTo[k];
      ScaleMod(Log(a) + e, ONE);
      ScaleAdd(e, Log(a), ONE);
    }

    /** ALPHA_TO[MODNN(i + j)] for two logarithms. */
    method Antilog(i: nat, j: nat) returns (r: Byte)
      requires Tables()
      ensures r == Scale(i + j, ONE)
    {
      hide Scale;
      var k := Mod255(i + j);
      r := alphaTo[k];
      ScaleMod(i + j, ONE);
    }
  }

  //////////////////////////////////////////////////////////////////////////////
  //
  // Construction
  //
  //////////////////////////////////////////////////////////////////////////////

  /**
    Runs the shift register through its 255 states and records them; the state after the last
    turn tells the caller whether the register has returned.
   */
  method FillTables(gfpoly: Byte, alphaTo: array<Byte>, indexOf: array<nat>) returns (sr: Byte)
    requires alphaTo.Length == 256 && indexOf.Length == 256
    modifies alphaTo, indexOf
    ensures sr == Power(gfpoly, 255, ONE)
    ensures forall i :: 0 <= i < 255 ==> alphaTo[i] == Power(gfpoly, i, ONE)
    ensures alphaTo[255] == ZERO
    ensures AllDistinct(gfpoly) ==>
              forall i :: 0 <= i < 255 ==> indexOf[Value(Power(gfpoly, i, ONE))] == i
    ensures AllDistinct(gfpoly) && Power(gfpoly, 255, ONE) == ONE ==> indexOf[0] == A0
  {
    hide Power, Shift;
    indexOf[0] := A0;
    alphaTo[A0] := ZERO;
    sr := ONE;
    PowerZeroTurns(gfpoly);
    for i := 0 to NN
      invariant sr == Power(gfpoly, i, ONE)
      invariant forall k :: 0 <= k < i ==> alphaTo[k] == Power(gfpoly, k, ONE)
      invariant alphaTo[255] == ZERO
      invariant AllDistinct(gfpoly) ==> forall k :: 0 <= k < i ==> indexOf[Value(Power(gfpoly, k, ONE))] == k
      invariant AllDistinct(gfpoly) && Power(gfpoly, 255, ONE) == ONE ==> indexOf[0] == A0
    {
      if AllDistinct(gfpoly) {
        forall k | 0 <= k < i ensures Value(Power(gfpoly, k, ONE)) != Value(sr) {
          ValueLow(sr);
          ValueLow(Power(gfpoly, k, ONE));
        }
        if Power(gfpoly, 255, ONE) == ONE {
          NeverZero(gfpoly, i);
        }
      }
      indexOf[Value(sr)] := i;
      alphaTo[i] := sr;
      sr := Shift(gfpoly, sr);
      PowerTurn(gfpoly, i);
    }
  }

  lemma PowerZeroTurns(g: Byte)
    ensures Power(g, 0, ONE) == ONE
  {}

  lemma PowerTurn(g: Byte, i: nat)
    ensures Power(g, i + 1, ONE) == Shift(g, Power(g, i, ONE))
  {}

  lemma NeverZero(g: Byte, i: nat)
    requires i < 255 && Power(g, 255, ONE) == ONE
    ensures Value(Power(g, i, ONE)) != 0
  {
    hide Power;
    ValueZero(Power(g, i, ONE));
    if Power(g, i, ONE) == ZERO {
      PowerAdd(g, 255 - i, i, ONE);
      PowerZero(g, 255 - i);
    }
  }

  /** Multiplies the polynomial in g[0..i], lowest power first, by x + alpha^root in place. */
  method MultiplyRoot(rs: Rs, g: array<Byte>, i: nat, root: nat)
    requires rs.Tables() && g != rs.alphaTo
    requires i + 1 < g.Length && g[0] != ZERO
    modifies g
    ensures g[0] == Scale(root, old(g[0])) && g[0] != ZERO
    ensures forall j :: 0 < j <= i ==> g[j] == Xor(old(g[j - 1]), Scale(root, old(g[j])))
    ensures g[i + 1] == ONE
    ensures forall j :: i + 1 < j < g.Length ==> g[j] == old(g[j])
  {
    hide Scale, Xor;
    g[i + 1] := ONE;
    var j := i;
    while j > 0
      invariant 0 <= j <= i
      invariant forall m :: 0 <= m <= j ==> g[m] == old(g[m])
      invariant forall m :: j < m <= i ==> g[m] == Xor(old(g[m - 1]), Scale(root, old(g[m])))
      invariant g[i + 1] == ONE
      invariant forall m :: i + 1 < m < g.Length ==> g[m] == old(g[m])
    {
      if g[j] != ZERO {
        var t := rs.TimesAlpha(g[j], root);
        g[j] := Xor(g[j - 1], t);
      } else {
        ScaleZero(root);
        XorZero(g[j - 1]);
        g[j] := g[j - 1];
      }
      j := j - 1;
    }
    var t := rs.TimesAlpha(g[0], root);
    ScaleNonzero(root, g[0]);
    g[0] := t;
  }

  /**
    init_rs_char with symsize 8, prim 1 and the polynomial of the field, for which the register
    always returns to 1.  A null result means that the parameters were refused.
   */
  method InitRs(fcr: int, nroots: int, pad: int) returns (rs: Rs?)
    ensures rs != null <==> 0 <= fcr < 256 && 0 <= nroots < 256 && 0 <= pad < 255 - nroots
    ensures rs != null ==> rs.fcr == fcr && rs.nroots == nroots && rs.pad == pad && rs.Valid()
    ensures rs != null ==> fresh(rs) && fresh(rs.alphaTo) && fresh(rs.indexOf) && fresh(rs.genpoly)
  {
    hide Scale, Power, Xor, GenPoly, MulRoot, Index;
    if fcr < 0 || fcr >= 256 {
      return null;
    }
    if nroots < 0 || nroots >= 256 {
      return null;
    }
    if pad < 0 || pad >= 255 - nroots {
      return null;
    }
    var alphaTo, indexOf := new Byte[NN + 1](_ => ZERO), new nat[NN + 1];
    var sr := FillTables(GFPOLY, alphaTo, indexOf);
    RegisterReturns();
    if sr != ONE {
      return null;
    }
    var genpoly := new nat[nroots + 1];
    rs := new Rs(pad, nroots, fcr, alphaTo, indexOf, genpoly);
    TablesFilled(alphaTo, indexOf);
    var g := BuildGenPoly(rs);
    for i := 0 to nroots + 1
      invariant forall j :: 0 <= j < i ==> genpoly[j] == Index(GenPoly(fcr, nroots)[nroots - j])
      invariant forall j :: 0 <= j <= nroots ==> g[j] == GenPoly(fcr, nroots)[nroots - j]
      invariant rs.Tables()
    {
      genpoly[i] := indexOf[Value(g[i])];
    }
  }

  lemma RegisterReturns()
    ensures Power(GFPOLY, 255, ONE) == ONE
  {
    AlphaOrder();
    hide Power;
  }

  /** What FillTables records for the field polynomial are the powers and the logarithms. */
  lemma TablesFilled(alphaTo: array<Byte>, indexOf: array<nat>)
    requires alphaTo.Length == 256 && indexOf.Length == 256
    requires forall i :: 0 <= i < 255 ==> alphaTo[i] == Power(GFPOLY, i, ONE)
    requires AllDistinct(GFPOLY) ==> forall i :: 0 <= i < 255 ==> indexOf[Value(Power(GFPOLY, i, ONE))] == i
    requires AllDistinct(GFPOLY) && Power(GFPOLY, 255, ONE) == ONE ==> indexOf[0] == A0
    ensures forall i :: 0 <= i < 255 ==> alphaTo[i] == Scale(i, ONE)
    ensures forall a: Byte :: indexOf[Value(a)] == Index(a)
  {
    hide Power;
    AlphaOrder();
    PrimitiveIff(GFPOLY);
    forall a: Byte ensures indexOf[Value(a)] == Index(a) {
      if a == ZERO {
        ValueZero(a);
      } else {
        assert Power(GFPOLY, Log(a), ONE) == a;
      }
    }
  }

  /** The generator polynomial in polynomial form, lowest power first. */
  method BuildGenPoly(rs: Rs) returns (g: array<Byte>)
    requires rs.Tables() && rs.nroots < 255
    ensures fresh(g) && g.Length == rs.nroots + 1
    ensures forall j :: 0 <= j <= rs.nroots ==> g[j] == GenPoly(rs.fcr, rs.nroots)[rs.nroots - j]
  {
    hide Scale, Xor, GenPoly, MulRoot;
    g := new Byte[rs.nroots + 1](_ => ZERO);
    g[0] := ONE;
    GenPolyZero(rs.fcr);
    var root := rs.fcr;
    for i := 0 to rs.nroots
      invariant root == rs.fcr + i
      invariant g[0] != ZERO
      invariant forall j :: 0 <= j <= i ==> g[j] == GenPoly(rs.fcr, i)[i - j]
    {
      ghost var before := g[..];
      MultiplyRoot(rs, g, i, root);
      GenPolyNext(rs.fcr, i, before, g[..]);
      root := root + 1;
    }
  }

  lemma GenPolyZero(fcr: nat)
    ensures GenPoly(fcr, 0) == [ONE]
  {}

  lemma GenPolyNext(fcr: nat, i: nat, before: seq<Byte>, after: seq<Byte>)
    requires |before| == |after| > i + 1
    requires forall j :: 0 <= j <= i ==> before[j] == GenPoly(fcr, i)[i - j]
    requires after[0] == Scale(fcr + i, before[0]) && after[i + 1] == ONE
    requires forall j :: 0 < j <= i ==> after[j] == Xor(before[j - 1], Scale(fcr + i, before[j]))
    ensures forall j :: 0 <= j <= i + 1 ==> after[j] == GenPoly(fcr, i + 1)[i + 1 - j]
  {
    hide Scale, Xor;
    var g := GenPoly(fcr, i);
    GenPolyRoots(fcr, i);
    assert GenPoly(fcr, i + 1) == MulRoot(g, fcr + i);
    forall j | 0 <= j <= i + 1 ensures after[j] == MulRoot(g, fcr + i)[i + 1 - j] {
      if j == 0 {
        XorZero(Scale(fcr + i, g[i]));
      } else if j == i + 1 {
        ScaleZero(fcr + i);
        XorZero(ONE);
      } else {
        assert before[j - 1] == g[i - (j - 1)] && before[j] == g[i - j];
      }
    }
  }

  //////////////////////////////////////////////////////////////////////////////
  //
  // The encoder
  //
  //////////////////////////////////////////////////////////////////////////////

  /**
    encode_rs_char: the parity of the first NN - NROOTS - PAD symbols of data.
   */
  method EncodeRs(rs: Rs, data: array<Byte>, parity: array<Byte>)
    requires rs.Valid() && rs.nroots > 0
    requires data.Length >= 255 - rs.nroots - rs.pad
    requires parity.Length == rs.nroots
    requires parity != data && parity != rs.alphaTo
    modifies parity
    ensures parity[..] == ParityOf(data[..255 - rs.nroots - rs.pad], rs.fcr, rs.nroots)
  {
    hide Scale, Xor, GenPoly, StepParity, ParityOf, Index;
    for i := 0 to rs.nroots
      invariant forall j :: 0 <= j < i ==> parity[j] == ZERO
    {
      parity[i] := ZERO;
    }
    ParityOfNothing(parity[..], rs.fcr);
    assert data[..0] == [];
    for i := 0 to NN - rs.nroots - rs.pad
      invariant parity[..] == ParityOf(data[..i], rs.fcr, rs.nroots)
    {
      ParityOfNext(data[..i + 1], rs.fcr, rs.nroots);
      assert data[..i + 1][..i] == data[..i];
      EncodeStep(rs, data[i], parity);
    }
  }

  lemma ParityOfNothing(parity: seq<Byte>, fcr: nat)
    requires parity != [] && forall j :: 0 <= j < |parity| ==> parity[j] == ZERO
    ensures parity == ParityOf([], fcr, |parity|)
  {}

  lemma ParityOfNext(data: seq<Byte>, fcr: nat, nroots: nat)
    requires data != [] && nroots > 0
    ensures ParityOf(data, fcr, nroots)
         == StepParity(ParityOf(data[..|data| - 1], fcr, nroots), data[|data| - 1], GenPoly(fcr, nroots))
  {}

  /** One round of the encoder's loop: feedback into every cell, shift, feedback into the last. */
  method EncodeStep(rs: Rs, d: Byte, parity: array<Byte>)
    requires rs.Valid() && rs.nroots > 0
    requires parity.Length == rs.nroots && parity != rs.alphaTo
    modifies parity
    ensures parity[..] == StepParity(old(parity[..]), d, GenPoly(rs.fcr, rs.nroots))
  {
    hide Scale, Xor, GenPoly, StepParity, Index;
    var n := rs.nroots;
    ghost var p, g := parity[..], GenPoly(rs.fcr, n);
    var feedback := rs.indexOf[Value(Xor(d, parity[0]))];
    IndexZero(Xor(d, p[0]));
    if feedback != A0 {
      for j := 1 to n
        invariant forall m :: 1 <= m < j ==> parity[m] == Xor(p[m], Scale(feedback, g[m]))
        invariant forall m :: j <= m < n ==> parity[m] == p[m]
      {
        var t := rs.Antilog(feedback, rs.genpoly[n - j]);
        GeneratorTerm(rs.fcr, n, j, feedback);
        parity[j] := Xor(parity[j], t);
      }
    }
    ghost var q := parity[..];
    for j := 0 to n - 1
      invariant forall m :: 0 <= m < j ==> parity[m] == q[m + 1]
      invariant forall m :: j <= m < n ==> parity[m] == q[m]
    {
      parity[j] := parity[j + 1];
    }
    if feedback != A0 {
      parity[n - 1] := rs.Antilog(feedback, rs.genpoly[0]);
      GeneratorTerm(rs.fcr, n, n, feedback);
    } else {
      parity[n - 1] := ZERO;
    }
    StepParityCells(p, d, g, feedback, parity[..]);
  }

  lemma IndexZero(a: Byte)
    ensures Index(a) == A0 <==> a == ZERO
    ensures a != ZERO ==> Index(a) == Log(a)
  {}

  /** No generator coefficient is zero, so its index form is a logarithm. */
  lemma GeneratorTerm(fcr: nat, n: nat, j: nat, i: nat)
    requires n < 255 && j <= n
    ensures Scale(i + Index(GenPoly(fcr, n)[j]), ONE) == Scale(i, GenPoly(fcr, n)[j])
  {
    hide Scale, GenPoly;
    GenPolyNonzero(fcr, n, j);
    ScaleAdd(i, Log(GenPoly(fcr, n)[j]), ONE);
  }

  lemma StepParityCells(p: seq<Byte>, d: Byte, g: seq<Byte>, feedback: nat, r: seq<Byte>)
    requires |p| + 1 == |g| && p != [] && |r| == |p|
    requires feedback == Index(Xor(d, p[0]))
    requires feedback == A0 ==> r == p[1..] + [ZERO]
    requires feedback != A0 ==> r[|p| - 1] == Scale(feedback, g[|p|])
    requires feedback != A0 ==> forall m :: 0 <= m < |p| - 1 ==> r[m] == Xor(p[m + 1], Scale(feedback, g[m + 1]))
    ensures r == StepParity(p, d, g)
  {
    hide Scale, Xor;
    if feedback != A0 {
      XorZero(Scale(feedback, g[|p|]));
    }
  }
}
