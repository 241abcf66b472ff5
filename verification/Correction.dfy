/**
  The second half of the decoder: Chien search for the roots of the locator, Forney's error
  values, and the whole of decode_rs_char with its main theorem.
 */
module Correction {
  import opened Bytes
  import opened Counting
  import opened Galois
  import opened Field
  import opened Code
  import opened Codec
  import opened Erasures
  import opened Massey
  import opened ErrorWords
  import opened Success
  import opened Decoder

  //////////////////////////////////////////////////////////////////////////////
  //
  // Chien search
  //
  //////////////////////////////////////////////////////////////////////////////

  method DegreeOf(lx: array<nat>, ghost p: seq<Byte>) returns (deg: nat)
    requires IsIndexOf(lx[..], p) && p != []
    ensures deg < |p| && forall i :: deg < i < |p| ==> p[i] == ZERO
    ensures deg > 0 ==> p[deg] != ZERO
  {
    hide Index;
    deg := 0;
    for i := 0 to lx.Length
      invariant deg == 0 || deg < i
      invariant deg > 0 ==> p[deg] != ZERO
      invariant forall k :: deg < k < i ==> p[k] == ZERO
    {
      assert lx[..][i] == lx[i];
      IndexZero(p[i]);
      if lx[i] != A0 {
        deg := i;
      }
    }
  }

  /** Register j holds the logarithm of the j-th term at alpha^i. */
  ghost predicate TermsAt(reg: seq<nat>, p: seq<Byte>, deg: nat, i: nat)
    requires deg < |reg| && deg < |p|
  {
    forall j :: 1 <= j <= deg ==> reg[j] == if p[j] == ZERO then A0 else (Log(p[j]) + Times(j, i)) % 255
  }

  /** Advances every register by one power and sums the terms. */
  method EvaluateAt(rs: Rs, reg: array<nat>, deg: nat, i: nat, ghost p: seq<Byte>) returns (q: Byte)
    requires rs.Tables() && reg != rs.indexOf
    requires i > 0 && deg < reg.Length && deg < |p| && p[0] == ONE
    requires TermsAt(reg[..], p, deg, i - 1)
    modifies reg
    ensures TermsAt(reg[..], p, deg, i)
    ensures q == Eval(p[..deg + 1], i)
  {
    hide Scale, Xor, Times, Eval;
    ghost var total := Eval(p[..deg + 1], i);
    q := ONE;
    XorSelf(total);
    XorZero(ONE);
    var j := deg;
    while j > 0
      invariant 0 <= j <= deg
      invariant rs.Tables()
      invariant forall k :: 1 <= k <= j ==> reg[k] == if p[k] == ZERO then A0 else (Log(p[k]) + Times(k, i - 1)) % 255
      invariant forall k :: j < k <= deg ==> reg[k] == if p[k] == ZERO then A0 else (Log(p[k]) + Times(k, i)) % 255
      invariant q == Xor(ONE, Xor(total, Eval(p[..j + 1], i)))
    {
      EvalPrefix(p, i, j);
      ghost var term := Scale(Times(j, i), p[j]);
      assert p[..(j - 1) + 1] == p[..j];
      if reg[j] != A0 {
        TimesRight(j, i - 1);
        AddModulo(Log(p[j]) + Times(j, i - 1), j);
        reg[j] := Mod255(reg[j] + j);
        TermValue(p[j], j, i);
        q := Xor(q, rs.alphaTo[reg[j]]);
        RemoveTerm(ONE, total, Eval(p[..j], i), term);
      } else {
        ScaleZero(Times(j, i));
        XorZero(Eval(p[..j], i));
      }
      j := j - 1;
    }
    EvalPrefix(p, i, 0);
    TimesStep(0, i);
    ScaleIdentity(ONE);
    XorZero(ONE);
    XorCancel(total, ONE);
    XorComm(total, ONE);
  }

  lemma AddModulo(a: nat, j: nat)
    ensures (a % 255 + j) % 255 == (a + j) % 255
  {}

  lemma TermValue(c: Byte, j: nat, i: nat)
    requires c != ZERO
    ensures Scale((Log(c) + Times(j, i)) % 255, ONE) == Scale(Times(j, i), c)
  {
    hide Scale, Times;
    ScaleMod(Log(c) + Times(j, i), ONE);
    ScaleAdd(Times(j, i), Log(c), ONE);
  }

  lemma RemoveTerm(o: Byte, total: Byte, a: Byte, t: Byte)
    ensures Xor(Xor(o, Xor(total, Xor(a, t))), t) == Xor(o, Xor(total, a))
  {}

  /** An increasing list of exponents at which p vanishes. */
  ghost predicate RootList(roots: seq<nat>, p: seq<Byte>) {
    && (forall k :: 0 <= k < |roots| ==> 1 <= roots[k] <= 255 && Eval(p, roots[k]) == ZERO)
    && (forall k, m :: 0 <= k < m < |roots| ==> roots[k] < roots[m])
  }

  /**
    Finds the roots of p among alpha^1 .. alpha^255 in order, and stops early only when it has as
    many as the degree allows.
   */
  method ChienSearch(rs: Rs, lx: array<nat>, deg: nat, ghost p: seq<Byte>)
      returns (count: nat, root: array<nat>, loc: array<nat>)
    requires rs.Tables() && IsIndexOf(lx[..], p) && |p| == rs.nroots + 1
    requires p[0] == ONE && deg < |p| && forall i :: deg < i < |p| ==> p[i] == ZERO
    ensures fresh(root) && fresh(loc) && root.Length == loc.Length == rs.nroots && count <= deg
    ensures RootList(root[..count], p)
    ensures forall k :: 0 <= k < count ==> loc[k] == root[k] - 1
    ensures count < deg || deg == 0 ==> forall e :: 1 <= e <= 255 && Eval(p, e) == ZERO ==> e in root[..count]
  {
    hide Scale, Xor, Times, Eval, Index;
    root, loc := new nat[rs.nroots], new nat[rs.nroots];
    var reg := InitialRegisters(lx, deg, p);
    count := 0;
    var i, k := 1, 0;
    while i <= NN
      invariant rs.Tables()
      invariant 1 <= i <= 256 && k == (i - 1) % 255
      invariant TermsAt(reg[..], p, deg, i - 1)
      invariant count <= deg && (deg > 0 ==> count < deg)
      invariant RootList(root[..count], p)
      invariant forall m :: 0 <= m < count ==> root[m] < i && loc[m] == root[m] - 1
      invariant forall e :: 1 <= e < i && Eval(p, e) == ZERO ==> e in root[..count]
    {
      var q := EvaluateAt(rs, reg, deg, i, p);
      EvalTrim(p, deg + 1, i);
      if q == ZERO {
        NoRootOfConstant(p, deg, i);
        Record(root, loc, count, i, k, p);
        count := count + 1;
        if count == deg {
          break;
        }
      }
      i := i + 1;
      k := Mod255(k + 1);
    }
  }

  /** Stores a root and its location behind those found so far. */
  method Record(root: array<nat>, loc: array<nat>, count: nat, i: nat, k: nat, ghost p: seq<Byte>)
    requires root != loc && root.Length == loc.Length && count < root.Length
    requires 1 <= i <= 255 && k == i - 1 && Eval(p, i) == ZERO
    requires RootList(root[..count], p)
    requires forall m :: 0 <= m < count ==> root[m] < i && loc[m] == root[m] - 1
    modifies root, loc
    ensures RootList(root[..count + 1], p)
    ensures root[..count + 1] == old(root[..count]) + [i]
    ensures forall m :: 0 <= m < count + 1 ==> root[m] < i + 1 && loc[m] == root[m] - 1
  {
    hide Eval;
    root[count] := i;
    loc[count] := k;
  }

  method InitialRegisters(lx: array<nat>, deg: nat, ghost p: seq<Byte>) returns (reg: array<nat>)
    requires IsIndexOf(lx[..], p) && deg < |p|
    ensures fresh(reg) && reg.Length == |p| && TermsAt(reg[..], p, deg, 0)
  {
    hide Index, Times;
    reg := new nat[lx.Length];
    for j := 1 to lx.Length
      invariant IsIndexOf(lx[..], p)
      invariant forall k :: 1 <= k < j ==> reg[k] == lx[k]
    {
      reg[j] := lx[j];
    }
    InitialTerms(reg[..], p, deg, lx[..]);
  }

  lemma InitialTerms(reg: seq<nat>, p: seq<Byte>, deg: nat, lx: seq<nat>)
    requires deg < |p| == |reg| && IsIndexOf(lx, p)
    requires forall k :: 1 <= k < |p| ==> reg[k] == lx[k]
    ensures TermsAt(reg, p, deg, 0)
  {
    hide Times;
    forall j | 1 <= j <= deg ensures reg[j] == if p[j] == ZERO then A0 else (Log(p[j]) + Times(j, 0)) % 255 {
      TimesRight(j, 0);
      IndexZero(p[j]);
    }
  }

  lemma NoRootOfConstant(p: seq<Byte>, deg: nat, e: nat)
    requires deg < |p| && p[0] == ONE && Eval(p[..deg + 1], e) == ZERO
    ensures deg > 0
  {
    hide Scale, Xor, Times;
    if deg == 0 {
      assert p[..1] == [ONE];
      EvalConstant(ONE, e);
    }
  }

  /** The roots of the locator of m distinct positions are the m successors of the positions. */
  lemma RootsAreInverses(roots: seq<nat>, pos: seq<nat>, n: nat)
    requires |pos| < n && Positions(pos)
    requires RootList(roots, Locator(Locations(pos), n)) && |roots| <= |pos|
    requires |roots| < |pos| || |pos| == 0 ==>
               forall e :: 1 <= e <= 255 && Eval(Locator(Locations(pos), n), e) == ZERO ==> e in roots
    ensures |roots| == |pos|
    ensures forall e: nat :: e in roots <==> e in Successors(pos)
  {
    hide Locator, Eval, Locations;
    var es := Successors(pos);
    forall e | e in roots ensures e in es {
      LocatorVanishes(pos, n, e);
    }
    DistinctCount(es);
    DistinctCount(roots);
    if |roots| < |pos| {
      forall e | e in es ensures e in roots {
        LocatorVanishes(pos, n, e);
      }
      SubsetSize(Elements(es), Elements(roots));
    }
    SubsetOfSameSize(Elements(roots), Elements(es));
    assert forall e: nat :: e in roots <==> e in Elements(roots);
  }

  //////////////////////////////////////////////////////////////////////////////
  //
  // Error values
  //
  //////////////////////////////////////////////////////////////////////////////

  /** Coefficient i of syndromes times locator, summed from the highest term down. */
  method Coefficient(rs: Rs, sx: array<nat>, lx: array<nat>, i: nat, ghost s: seq<Byte>, ghost p: seq<Byte>)
      returns (tmp: Byte)
    requires rs.Tables() && IsIndexOf(sx[..], s) && IsIndexOf(lx[..], p)
    requires i < |s| && i < |p|
    ensures tmp == Conv(s, p, i, i)
  {
    hide Scale, Xor, Mul, Index;
    tmp := ZERO;
    ghost var total := Conv(s, p, i, i);
    XorSelf(total);
    var j := i + 1;
    while j > 0
      invariant 0 <= j <= i + 1
      invariant tmp == if j == 0 then total else Xor(total, Conv(s, p, i, j - 1))
    {
      j := j - 1;
      assert sx[..][i - j] == sx[i - j] && lx[..][j] == lx[j];
      var t := Product(rs, sx[i - j], lx[j], s[i - j], p[j]);
      tmp := Xor(tmp, t);
      if j == 0 {
        XorCancel(total, t);
      } else {
        PeelTerm(total, Conv(s, p, i, j - 1), t);
      }
    }
  }

  /** The evaluator polynomial, modulo the degree of the locator. */
  method ComputeOmega(rs: Rs, sx: array<nat>, lx: array<nat>, deg: nat, ghost s: seq<Byte>, ghost p: seq<Byte>)
      returns (omega: array<nat>)
    requires rs.Tables() && IsIndexOf(sx[..], s) && IsIndexOf(lx[..], p)
    requires deg <= |s| && deg < |p|
    ensures fresh(omega) && omega.Length == deg
    ensures forall i :: 0 <= i < deg ==> omega[i] == Index(Conv(s, p, i, i))
  {
    hide Conv, Index;
    omega := new nat[deg];
    for i := 0 to deg
      invariant rs.Tables() && IsIndexOf(sx[..], s) && IsIndexOf(lx[..], p)
      invariant forall k :: 0 <= k < i ==> omega[k] == Index(Conv(s, p, k, k))
    {
      var tmp := Coefficient(rs, sx, lx, i, s, p);
      omega[i] := rs.indexOf[Value(tmp)];
    }
  }

  lemma PeelTerm(total: Byte, a: Byte, t: Byte)
    ensures Xor(Xor(total, Xor(a, t)), t) == Xor(total, a)
  {}

  /** num1: the evaluator at the root. */
  method Numerator(rs: Rs, omega: array<nat>, e: nat, ghost om: seq<Byte>) returns (num1: Byte)
    requires rs.Tables() && IsIndexOf(omega[..], om)
    ensures num1 == Eval(om, e)
  {
    hide Scale, Xor, Times, Eval, Index;
    ghost var total := Eval(om, e);
    num1 := ZERO;
    var i := omega.Length;
    assert om[..i] == om;
    XorSelf(total);
    while i > 0
      invariant 0 <= i <= omega.Length
      invariant num1 == Xor(total, Eval(om[..i], e))
    {
      i := i - 1;
      EvalPrefix(om, e, i);
      assert omega[..][i] == omega[i];
      IndexZero(om[i]);
      if omega[i] != A0 {
        var t := rs.Antilog(omega[i], Times(i, e));
        TermAt(om[i], i, e);
        num1 := Xor(num1, t);
        PeelTerm(total, Eval(om[..i], e), t);
      } else {
        ScaleZero(Times(i, e));
        XorZero(Eval(om[..i], e));
      }
    }
    EvalOfNothing(om, e);
    XorZero(total);
  }

  lemma EvalOfNothing(p: seq<Byte>, e: nat)
    ensures Eval(p[..0], e) == ZERO && Derivative(p[..0], e) == ZERO
  {}

  lemma TermAt(c: Byte, i: nat, e: nat)
    requires c != ZERO
    ensures Scale(Log(c) + Times(i, e), ONE) == Scale(Times(i, e), c)
  {
    hide Scale, Times;
    ScaleAdd(Times(i, e), Log(c), ONE);
  }

  /** den: the derivative of the locator at the root, over the even powers i of lambda[i + 1]. */
  method Denominator(rs: Rs, lx: array<nat>, deg: nat, e: nat, ghost p: seq<Byte>) returns (den: Byte)
    requires rs.Tables() && IsIndexOf(lx[..], p) && |p| == rs.nroots + 1 && rs.nroots > 0
    requires deg < |p| && forall i :: deg < i < |p| ==> p[i] == ZERO
    ensures den == Derivative(p, e)
  {
    hide Scale, Xor, Times, Derivative, Index;
    ghost var total := Derivative(p, e);
    den := ZERO;
    var top := if deg < rs.nroots - 1 then deg else rs.nroots - 1;
    var i: int := top - top % 2;
    TopOfDerivative(p, deg, i + 2, e);
    XorSelf(total);
    while i >= 0
      invariant i % 2 == 0 && -2 <= i && i + 2 <= |p|
      invariant den == Xor(total, Derivative(p[..i + 2], e))
    {
      DerivativePrefix(p, e, i + 1);
      DerivativePrefix(p, e, i);
      assert p[..(i + 1) + 1] == p[..i + 2];
      assert lx[..][i + 1] == lx[i + 1];
      IndexZero(p[i + 1]);
      if lx[i + 1] != A0 {
        var t := rs.Antilog(lx[i + 1], Times(i, e));
        TermAt(p[i + 1], i, e);
        den := Xor(den, t);
        PeelTerm(total, Derivative(p[..i], e), t);
      } else {
        ScaleZero(Times(i, e));
        XorZero(Derivative(p[..i], e));
      }
      i := i - 2;
    }
    EvalOfNothing(p, e);
    XorZero(total);
  }

  /** The loop over even powers starts high enough. */
  lemma TopOfDerivative(p: seq<Byte>, deg: nat, k: nat, e: nat)
    requires k <= |p| && forall i :: deg < i < |p| ==> p[i] == ZERO
    requires k > deg || (k + 1 == |p| && k % 2 == 0)
    ensures Derivative(p, e) == Derivative(p[..k], e)
  {
    hide Scale, Xor, Times, Derivative;
    if k > deg {
      DerivativeTrim(p, k, e);
    } else {
      DerivativePrefix(p, e, k);
      assert p[..k + 1] == p;
    }
  }

  //////////////////////////////////////////////////////////////////////////////
  //
  // Correcting the symbols
  //
  //////////////////////////////////////////////////////////////////////////////

  /** One round of the correction loop: the symbol at full-length position at gets its error value. */
  method CorrectSymbol(rs: Rs, data: array<Byte>, omega: array<nat>, lx: array<nat>, deg: nat, e: nat, at: nat,
                       ghost om: seq<Byte>, ghost p: seq<Byte>, ghost y: Byte)
    requires rs.Valid() && rs.nroots > 0 && data != rs.alphaTo && data.Length == 255 - rs.pad
    requires IsIndexOf(omega[..], om) && IsIndexOf(lx[..], p) && |p| == rs.nroots + 1
    requires deg < |p| && forall i :: deg < i < |p| ==> p[i] == ZERO
    requires 1 <= e <= 255 && at == e - 1
    modifies data
    ensures forall q :: 0 <= q < data.Length && q + rs.pad != at ==> data[q] == old(data[q])
    ensures ForneyAt(om, p, rs.fcr, e, y) && at >= rs.pad ==> data[at - rs.pad] == Xor(old(data[at - rs.pad]), y)
  {
    hide Scale, Xor, Mul, Times, Eval, Derivative, Index, Num2Exponent;
    var num1 := Numerator(rs, omega, e, om);
    var exponent := Num2Exponent(255 - e, rs.fcr);
    var k := Mod255(exponent);
    var num2 := rs.alphaTo[k];
    var den := Denominator(rs, lx, deg, e, p);
    LogUnique(k);
    IndexZero(num1);
    IndexZero(num2);
    IndexZero(den);
    if num1 != ZERO && at >= rs.pad {
      var i := Mod255(rs.indexOf[Value(num1)] + rs.indexOf[Value(num2)] + NN - rs.indexOf[Value(den)]);
      data[at - rs.pad] := Xor(data[at - rs.pad], rs.alphaTo[i]);
      if den != ZERO {
        ScaleMod(Log(num1) + k + 255 - Log(den), ONE);
      }
    }
    if ForneyAt(om, p, rs.fcr, e, y) {
      ForneyValue(num1, den, y, 255 - e, rs.fcr);
      if at >= rs.pad {
        XorZero(old(data[at - rs.pad]));
      }
    }
  }

  /** Every symbol listed in locs has been restored to c, every other one is still as in d. */
  ghost predicate Restored(data: seq<Byte>, c: seq<Byte>, d: seq<Byte>, pad: nat, locs: seq<nat>)
    requires |data| == |c| == |d|
  {
    forall q :: 0 <= q < |data| ==> data[q] == if q + pad in locs then c[q] else d[q]
  }

  /** Takes the error values w away from the data. */
  method CorrectAll(rs: Rs, data: array<Byte>, sx: array<nat>, lx: array<nat>, deg: nat,
                    root: array<nat>, loc: array<nat>, ghost s: seq<Byte>, ghost p: seq<Byte>, ghost w: seq<Byte>)
    requires rs.Valid() && rs.nroots > 0 && data != rs.alphaTo && data.Length == 255 - rs.pad
    requires IsIndexOf(sx[..], s) && |s| == rs.nroots
    requires IsIndexOf(lx[..], p) && |p| == rs.nroots + 1
    requires deg < |p| && forall i :: deg < i < |p| ==> p[i] == ZERO
    requires deg <= root.Length == loc.Length && RootList(root[..deg], p)
    requires forall k :: 0 <= k < deg ==> loc[k] == root[k] - 1
    requires IsLocator(p, loc[..deg]) && Matches(w, loc[..deg], s, rs.fcr)
    modifies data
    ensures data[..] == Without(old(data[..]), w, rs.pad)
  {
    hide Scale, Xor, Mul, Times, Eval, Derivative, Conv, Locator, Index, ForneyAt, Restored, RootList, IsLocator,
         Without, Matches;
    ghost var d, pos := data[..], loc[..deg];
    MatchLength(w, pos, s, rs.fcr);
    ghost var c := Without(d, w, rs.pad);
    var omega := ComputeOmega(rs, sx, lx, deg, s, p);
    ghost var om := seq(deg, i requires 0 <= i < deg => Conv(s, p, i, i));
    NothingRestored(d, c, rs.pad, pos[deg..]);
    var j := deg;
    while j > 0
      invariant 0 <= j <= deg
      invariant rs.Valid()
      invariant IsIndexOf(omega[..], om)
      invariant Restored(data[..], c, d, rs.pad, pos[j..])
    {
      j := j - 1;
      ghost var before := data[..];
      RootRange(root[..deg], p, j);
      assert root[..deg][j] == root[j] && pos[j] == loc[j];
      MatchForney(w, pos, s, rs.fcr, om, p, j);
      CorrectSymbol(rs, data, omega, lx, deg, root[j], loc[j], om, p, w[loc[j]]);
      NotLater(root[..deg], pos, p, j);
      OneMoreRestored(before, data[..], d, w, rs.pad, pos[j + 1..], loc[j]);
      assert pos[j..] == [loc[j]] + pos[j + 1..];
    }
    assert pos[0..] == pos;
    AllRestored(data[..], d, w, rs.pad, pos, s, rs.fcr);
  }

  lemma MatchLength(w: seq<Byte>, pos: seq<nat>, s: seq<Byte>, fcr: nat)
    requires Matches(w, pos, s, fcr)
    ensures |w| == 255
  {}

  lemma RootRange(roots: seq<nat>, p: seq<Byte>, j: nat)
    requires RootList(roots, p) && j < |roots|
    ensures 1 <= roots[j] <= 255
  {}

  lemma NotLater(roots: seq<nat>, locs: seq<nat>, p: seq<Byte>, j: nat)
    requires RootList(roots, p) && |locs| == |roots| && j < |roots|
    requires forall k :: 0 <= k < |roots| ==> locs[k] == roots[k] - 1
    ensures locs[j] !in locs[j + 1..]
  {}

  lemma OneMoreRestored(before: seq<Byte>, after: seq<Byte>, d: seq<Byte>, w: seq<Byte>, pad: nat, locs: seq<nat>,
                        at: nat)
    requires |before| == |after| == |d| && |w| == pad + |d|
    requires Restored(before, Without(d, w, pad), d, pad, locs) && at !in locs
    requires forall q :: 0 <= q < |after| && q + pad != at ==> after[q] == before[q]
    requires pad <= at < pad + |d| ==> after[at - pad] == Xor(before[at - pad], w[at])
    ensures Restored(after, Without(d, w, pad), d, pad, [at] + locs)
  {
    hide Xor;
  }

  lemma AllRestored(data: seq<Byte>, d: seq<Byte>, w: seq<Byte>, pad: nat, pos: seq<nat>, s: seq<Byte>, fcr: nat)
    requires |data| == |d| && |w| == pad + |d| && Matches(w, pos, s, fcr)
    requires Restored(data, Without(d, w, pad), d, pad, pos)
    ensures data == Without(d, w, pad)
  {
    hide Xor, Syn;
    forall q | 0 <= q < |d| ensures data[q] == Without(d, w, pad)[q] {
      XorZero(d[q]);
    }
  }

  lemma NothingRestored(d: seq<Byte>, c: seq<Byte>, pad: nat, locs: seq<nat>)
    requires |d| == |c| && locs == []
    ensures Restored(d, c, d, pad, locs)
  {}

  //////////////////////////////////////////////////////////////////////////////
  //
  // decode_rs_char
  //
  //////////////////////////////////////////////////////////////////////////////

  /** The erasure list of a call, which may come without one. */
  function ErasureList(erasPos: array?<nat>, noEras: nat): (eras: seq<nat>)
    requires erasPos == null ==> noEras == 0
    requires erasPos != null ==> noEras <= erasPos.Length
    reads erasPos
    ensures |eras| == noEras
  {
    if erasPos == null then [] else erasPos[..noEras]
  }

  method AllZero(s: array<Byte>) returns (clean: bool)
    ensures clean <==> forall i :: 0 <= i < s.Length ==> s[i] == ZERO
  {
    clean := true;
    for i := 0 to s.Length
      invariant clean <==> forall k :: 0 <= k < i ==> s[k] == ZERO
    {
      clean := clean && s[i] == ZERO;
    }
  }

  method StoreLocations(loc: array<nat>, count: nat, erasPos: array<nat>)
    requires count <= loc.Length && count <= erasPos.Length && loc != erasPos
    modifies erasPos
    ensures erasPos[..count] == loc[..count]
  {
    for i := 0 to count
      invariant forall k :: 0 <= k < i ==> erasPos[k] == loc[k]
    {
      erasPos[i] := loc[i];
    }
  }

  lemma SyndromesDecide(d: seq<Byte>, fcr: nat, n: nat)
    ensures (forall i :: 0 <= i < n ==> SyndromesOf(d, fcr, n)[i] == ZERO) <==> IsCodeword(d, fcr, n)
  {
    hide Syn;
    if forall i :: 0 <= i < n ==> SyndromesOf(d, fcr, n)[i] == ZERO {
      forall e: nat | fcr <= e < fcr + n ensures Syn(d, e) == ZERO {
        assert SyndromesOf(d, fcr, n)[e - fcr] == ZERO;
      }
    }
  }

  /** The locator of erasures and errors: first of the erasures, then completed from the syndromes. */
  method FindLocator(rs: Rs, sx: array<nat>, eras: seq<nat>, ghost s: seq<Byte>) returns (lambda: array<Byte>)
    requires rs.Tables() && IsIndexOf(sx[..], s) && |s| == rs.nroots
    requires |eras| <= rs.nroots && forall l :: 0 <= l < |eras| ==> eras[l] < 255
    ensures fresh(lambda) && lambda.Length == rs.nroots + 1
    ensures lambda[..] == FinalLocator(s, Locations(eras))
  {
    hide Index, Locator, FinalLocator;
    lambda := ErasureLocator(rs, eras);
    BerlekampMassey(rs, sx, lambda, |eras|, s, Locations(eras));
  }

  /** As many roots as the degree make a polynomial the locator of their positions. */
  lemma RootsMakeLocator(p: seq<Byte>, deg: nat, root: seq<nat>, loc: seq<nat>)
    requires deg < |p| && p[0] == ONE && forall i :: deg < i < |p| ==> p[i] == ZERO
    requires RootList(root, p) && |root| == deg == |loc|
    requires forall k :: 0 <= k < deg ==> loc[k] == root[k] - 1
    ensures IsLocator(p, loc)
  {
    hide Eval, Locator;
    PositionsDistinct(loc);
    forall l | 0 <= l < deg ensures Eval(p, 255 - Locations(loc)[l]) == ZERO {
      assert Eval(p, root[l]) == ZERO;
    }
    FactorTheorem(p, Locations(loc));
  }

  /** The locator of any positions has as many roots as its degree. */
  lemma LocatorHasRoots(p: seq<Byte>, deg: nat, pos: seq<nat>, root: seq<nat>)
    requires IsLocator(p, pos)
    requires deg < |p| && (forall i :: deg < i < |p| ==> p[i] == ZERO) && (deg > 0 ==> p[deg] != ZERO)
    requires RootList(root, p) && |root| <= deg
    requires |root| < deg || deg == 0 ==> forall e :: 1 <= e <= 255 && Eval(p, e) == ZERO ==> e in root
    ensures |root| == deg
  {
    hide Locator, Eval;
    LocatorDegree(Locations(pos), |p|);
    RootsAreInverses(root, pos, |p|);
  }

  /** Degree and roots of the polynomial: it has as many roots as the degree exactly if it is a locator. */
  method LocateErrors(rs: Rs, lambda: array<Byte>)
      returns (lx: array<nat>, deg: nat, count: nat, root: array<nat>, loc: array<nat>)
    requires rs.Tables() && lambda.Length == rs.nroots + 1 && lambda[0] == ONE
    ensures fresh(lx) && IsIndexOf(lx[..], lambda[..])
    ensures deg <= rs.nroots && forall i :: deg < i <= rs.nroots ==> lambda[i] == ZERO
    ensures fresh(root) && fresh(loc) && root.Length == loc.Length == rs.nroots && count <= deg
    ensures RootList(root[..count], lambda[..]) && forall k :: 0 <= k < count ==> loc[k] == root[k] - 1
    ensures deg == count ==> IsLocator(lambda[..], loc[..count])
    ensures deg == count <==> exists pos :: IsLocator(lambda[..], pos)
  {
    hide Index, Eval, Locator, RootList, IsLocator;
    ghost var p := lambda[..];
    lx := ToIndex(rs, lambda);
    deg := DegreeOf(lx, p);
    count, root, loc := ChienSearch(rs, lx, deg, p);
    if deg == count {
      RootsMakeLocator(p, deg, root[..count], loc[..count]);
    }
    if pos :| IsLocator(p, pos) {
      LocatorHasRoots(p, deg, pos, root[..count]);
    }
  }

  /** The decoder once the syndromes are known not to be all zero. */
  method DecodeErrors(rs: Rs, data: array<Byte>, erasPos: array?<nat>, noEras: nat, s: array<Byte>)
      returns (retval: int, ghost pos: seq<nat>, ghost w: seq<Byte>)
    requires rs.Valid() && rs.nroots > 0 && data != rs.alphaTo && data.Length == 255 - rs.pad
    requires noEras <= rs.nroots && (erasPos == null ==> noEras == 0)
    requires erasPos != null ==> erasPos.Length >= rs.nroots && erasPos != rs.indexOf && erasPos != rs.genpoly
    requires forall l :: 0 <= l < noEras ==> ErasureList(erasPos, noEras)[l] < 255
    requires s != data && s[..] == SyndromesOf(data[..], rs.fcr, rs.nroots)
    modifies data, erasPos
    ensures -1 <= retval <= rs.nroots
    ensures var es := Locations(old(ErasureList(erasPos, noEras)));
            retval >= 0 <==> exists qos :: IsLocator(FinalLocator(old(s[..]), es), qos)
    ensures retval == -1 ==> data[..] == old(data[..])
    ensures retval >= 0 ==>
              && Found(old(data[..]), rs.pad, old(ErasureList(erasPos, noEras)), rs.fcr, rs.nroots, pos, w)
              && retval == |pos| && data[..] == Without(old(data[..]), w, rs.pad)
              && (erasPos != null ==> erasPos[..retval] == pos)
  {
    hide Scale, Xor, Index, Eval, Locator, FinalLocator, RootList, IsLocator, Matches, Without;
    ghost var d, syn := data[..], s[..];
    ghost var es := Locations(ErasureList(erasPos, noEras));
    pos, w := [], [];
    var sx := ToIndex(rs, s);
    var lambda := FindLocator(rs, sx, ErasureList(erasPos, noEras), syn);
    FinalSolves(syn, es, rs.fcr);
    ghost var p := lambda[..];
    var lx, deg, count, root, loc := LocateErrors(rs, lambda);
    if deg != count {
      return -1, pos, w;
    }
    pos := loc[..count];
    LocatorPositions(p, pos);
    w := MatchExists(pos, syn, rs.fcr);
    CorrectAll(rs, data, sx, lx, deg, root, loc, syn, p, w);
    if erasPos != null {
      StoreLocations(loc, count, erasPos);
    }
    retval := count;
  }

  lemma LocatorPositions(p: seq<Byte>, pos: seq<nat>)
    requires IsLocator(p, pos)
    ensures Positions(pos) && |pos| < |p|
  {}

  /**
    decode_rs_char.  For every codeword c: if the received word differs from c in the listed erasures
    and in so few other places that two per error and one per erasure make at most nroots, then the
    data becomes c, the result counts erasures and errors, and erasPos lists their positions.

    For every other received word: the decoder fails exactly if the loop ends with a polynomial that
    is no locator.  Otherwise it leaves a codeword exactly if the degree is the length that the loop
    ended with and no error value lies in front of the word; and then no codeword is nearer.
   */
  method DecodeRs(rs: Rs, data: array<Byte>, erasPos: array?<nat>, noEras: nat)
      returns (retval: int, ghost pos: seq<nat>, ghost w: seq<Byte>)
    requires rs.Valid() && rs.nroots > 0 && data != rs.alphaTo && data.Length == 255 - rs.pad
    requires noEras <= rs.nroots && (erasPos == null ==> noEras == 0)
    requires erasPos != null ==> erasPos.Length >= rs.nroots && erasPos != rs.indexOf && erasPos != rs.genpoly
    requires forall l :: 0 <= l < noEras ==> ErasureList(erasPos, noEras)[l] < 255
    modifies data, erasPos
    ensures -1 <= retval <= rs.nroots
    ensures IsCodeword(old(data[..]), rs.fcr, rs.nroots) ==> retval == 0 && data[..] == old(data[..])
    ensures retval == -1 ==> data[..] == old(data[..])
    ensures retval >= 0 && erasPos != null && !IsCodeword(old(data[..]), rs.fcr, rs.nroots) ==> erasPos[..retval] == pos
    ensures Corrects(old(data[..]), rs.pad, old(ErasureList(erasPos, noEras)), rs.fcr, rs.nroots, data[..], retval, pos)
    ensures Accounts(old(data[..]), rs.pad, old(ErasureList(erasPos, noEras)), rs.fcr, rs.nroots, data[..], retval,
                     pos, w)
    ensures Nearest(old(data[..]), rs.pad, old(ErasureList(erasPos, noEras)), rs.fcr, rs.nroots, data[..])
    ensures noEras == 0 && OnlyFirst(SyndromesOf(old(data[..]), rs.fcr, rs.nroots)) ==>
              retval == 0 && data[..] == old(data[..])
  {
    hide Scale, Xor, Syn, Index, Eval, Locator, FinalLocator, FinalLength, Found, Corrects, Accounts, Nearest, Without,
         IsCodeword, IsLocator, OnlyFirst;
    pos, w := [], [];
    ghost var d, eras := data[..], ErasureList(erasPos, noEras);
    var s := Syndromes(rs, data);
    ghost var syn := s[..];
    assert syn == SyndromesOf(d, rs.fcr, rs.nroots);
    SyndromesDecide(d, rs.fcr, rs.nroots);
    var clean := AllZero(s);
    if clean {
      CodewordDecoded(d, rs.pad, eras, rs.fcr, rs.nroots, pos, w);
      return 0, pos, w;
    }
    retval, pos, w := DecodeErrors(rs, data, erasPos, noEras, s);
    assert retval >= 0 <==> exists qos :: IsLocator(FinalLocator(syn, Locations(eras)), qos);
    if retval >= 0 {
      SuccessDecoded(d, rs.pad, eras, rs.fcr, rs.nroots, pos, w);
    } else {
      FailureDecoded(d, rs.pad, eras, rs.fcr, rs.nroots, pos, w);
    }
    if noEras == 0 && OnlyFirst(SyndromesOf(d, rs.fcr, rs.nroots)) {
      GivenUpDecoded(d, rs.pad, eras, rs.fcr, rs.nroots, pos, w);
    }
  }
}
