/**
  The Reed-Solomon decoder: it corrects erasures at known positions together with errors at
  unknown ones, in place.

  Syndromes, locator and auxiliary polynomial are arrays of symbols; their index forms are arrays
  of their own.
 */
module Decoder {
  import opened Bytes
  import opened Galois
  import opened Field
  import opened Code
  import opened Codec
  import opened Erasures
  import opened ErrorWords
  import opened Massey

  //////////////////////////////////////////////////////////////////////////////
  //
  // Syndromes and index forms
  //
  //////////////////////////////////////////////////////////////////////////////

  method Syndromes(rs: Rs, data: array<Byte>) returns (s: array<Byte>)
    requires rs.Tables() && data.Length > 0
    ensures fresh(s) && s.Length == rs.nroots
    ensures forall i :: 0 <= i < rs.nroots ==> s[i] == Syn(data[..], rs.fcr + i)
  {
    hide Scale, Xor, Syn, Index;
    s := new Byte[rs.nroots](_ => ZERO);
    for i := 0 to rs.nroots
      invariant forall k :: 0 <= k < i ==> s[k] == Syn(data[..1], rs.fcr + k)
    {
      s[i] := data[0];
      assert data[..1] == [data[0]];
      SynSingle(data[0], rs.fcr + i);
    }
    for j := 1 to data.Length
      invariant rs.Tables()
      invariant forall k :: 0 <= k < rs.nroots ==> s[k] == Syn(data[..j], rs.fcr + k)
    {
      for i := 0 to rs.nroots
        invariant rs.Tables()
        invariant forall k :: 0 <= k < i ==> s[k] == Syn(data[..j + 1], rs.fcr + k)
        invariant forall k :: i <= k < rs.nroots ==> s[k] == Syn(data[..j], rs.fcr + k)
      {
        assert data[..j + 1] == data[..j] + [data[j]];
        SynSnoc(data[..j], data[j], rs.fcr + i);
        if s[i] == ZERO {
          ScaleZero(rs.fcr + i);
          XorZero(data[j]);
          s[i] := data[j];
        } else {
          var t := rs.TimesAlpha(s[i], rs.fcr + i);
          XorComm(data[j], t);
          s[i] := Xor(data[j], t);
        }
      }
    }
    assert data[..data.Length] == data[..];
  }

  /** ix holds the index form of p. */
  ghost predicate IsIndexOf(ix: seq<nat>, p: seq<Byte>) {
    |ix| == |p| && forall i :: 0 <= i < |p| ==> ix[i] == Index(p[i])
  }

  method ToIndex(rs: Rs, p: array<Byte>) returns (ix: array<nat>)
    requires rs.Tables()
    ensures fresh(ix) && IsIndexOf(ix[..], p[..])
  {
    hide Index;
    ix := new nat[p.Length];
    for i := 0 to p.Length
      invariant rs.Tables()
      invariant forall k :: 0 <= k < i ==> ix[k] == Index(p[k])
    {
      ix[i] := rs.indexOf[Value(p[i])];
    }
  }

  /** ALPHA_TO[MODNN(i + j)] guarded by the tests for A0: the product of the two symbols. */
  method Product(rs: Rs, i: nat, j: nat, ghost a: Byte, ghost b: Byte) returns (r: Byte)
    requires rs.Tables() && i == Index(a) && j == Index(b)
    ensures r == Mul(a, b)
  {
    hide Scale, Mul, Index;
    IndexZero(a);
    IndexZero(b);
    MulZero(a, b);
    if i != A0 && j != A0 {
      MulLog(a, b);
      r := rs.Antilog(i, j);
    } else {
      r := ZERO;
    }
  }

  //////////////////////////////////////////////////////////////////////////////
  //
  // The erasure locator
  //
  //////////////////////////////////////////////////////////////////////////////

  /** Multiplies the polynomial of degree at most i by 1 + alpha^u z in place. */
  method MultiplyFactor(rs: Rs, lambda: array<Byte>, i: nat, u: nat)
    requires rs.Tables() && lambda != rs.alphaTo
    requires i + 1 < lambda.Length && forall k :: i < k < lambda.Length ==> lambda[k] == ZERO
    modifies lambda
    ensures lambda[..] == MulFactor(old(lambda[..]), u)
  {
    hide Scale, Xor, Index;
    ghost var p := lambda[..];
    var j := i + 1;
    while j > 0
      invariant 0 <= j <= i + 1
      invariant forall k :: 0 <= k <= j ==> lambda[k] == p[k]
      invariant forall k :: j < k <= i + 1 ==> lambda[k] == Xor(p[k], Scale(u, p[k - 1]))
      invariant forall k :: i + 1 < k < lambda.Length ==> lambda[k] == p[k]
    {
      if rs.indexOf[Value(lambda[j - 1])] != A0 {
        IndexZero(lambda[j - 1]);
        var t := rs.TimesAlpha(lambda[j - 1], u);
        lambda[j] := Xor(lambda[j], t);
      } else {
        IndexZero(lambda[j - 1]);
        ScaleZero(u);
        XorZero(lambda[j]);
      }
      j := j - 1;
    }
    forall k | 0 <= k < lambda.Length ensures lambda[k] == MulFactor(p, u)[k] {
      if k > i + 1 {
        ScaleZero(u);
        XorZero(ZERO);
      }
    }
  }

  method ErasureLocator(rs: Rs, erasPos: seq<nat>) returns (lambda: array<Byte>)
    requires rs.Tables() && |erasPos| <= rs.nroots
    requires forall l :: 0 <= l < |erasPos| ==> erasPos[l] < 255
    ensures fresh(lambda) && lambda.Length == rs.nroots + 1
    ensures lambda[..] == Locator(Locations(erasPos), rs.nroots + 1)
  {
    hide Scale, Xor, Locator, MulFactor;
    ghost var xs := Locations(erasPos);
    var n := rs.nroots + 1;
    lambda := new Byte[n](_ => ZERO);
    lambda[0] := ONE;
    assert xs[..0] == [];
    LocatorStart(lambda[..]);
    if |erasPos| > 0 {
      var k := Mod255(254 - erasPos[0]);
      lambda[1] := rs.alphaTo[k];
      LocatorFirst(lambda[..], k);
      assert xs[..1] == [k];
      for i := 1 to |erasPos|
        invariant rs.Tables()
        invariant lambda[..] == Locator(xs[..i], n)
      {
        var u := Mod255(254 - erasPos[i]);
        LocatorDegree(xs[..i], n);
        LocatorNext(xs[..i + 1], n);
        assert xs[..i + 1][..i] == xs[..i];
        MultiplyFactor(rs, lambda, i, u);
      }
    }
    assert xs[..|erasPos|] == xs;
  }

  lemma LocatorStart(p: seq<Byte>)
    requires p != [] && p[0] == ONE && forall i :: 0 < i < |p| ==> p[i] == ZERO
    ensures p == Locator([], |p|)
  {}

  lemma LocatorNext(xs: seq<nat>, n: nat)
    requires xs != [] && n > 0
    ensures Locator(xs, n) == MulFactor(Locator(xs[..|xs| - 1], n), xs[|xs| - 1])
  {}

  lemma LocatorFirst(p: seq<Byte>, x: nat)
    requires |p| > 1 && p[0] == ONE && p[1] == Scale(x, ONE) && forall i :: 1 < i < |p| ==> p[i] == ZERO
    ensures p == Locator([x], |p|)
  {
    hide Scale, Xor;
    var q := Locator([], |p|);
    assert [x][..0] == [];
    forall i | 0 <= i < |p| ensures p[i] == MulFactor(q, x)[i] {
      ScaleZero(x);
      XorZero(ZERO);
      XorZero(Scale(x, ONE));
    }
  }

  //////////////////////////////////////////////////////////////////////////////
  //
  // The Berlekamp-Massey loop
  //
  //////////////////////////////////////////////////////////////////////////////

  method ComputeDiscrepancy(rs: Rs, sx: array<nat>, lambda: array<Byte>, r: nat, ghost s: seq<Byte>)
      returns (d: Byte)
    requires rs.Tables() && IsIndexOf(sx[..], s)
    requires 0 < r <= |s| && r <= lambda.Length
    ensures d == Conv(s, lambda[..], r - 1, r - 1)
  {
    hide Scale, Xor, Mul, Index;
    d := ZERO;
    for i := 0 to r
      invariant d == if i == 0 then ZERO else Conv(s, lambda[..], r - 1, i - 1)
    {
      assert sx[..][r - i - 1] == sx[r - i - 1];
      var t := Product(rs, sx[r - i - 1], rs.indexOf[Value(lambda[i])], s[r - i - 1], lambda[i]);
      XorZero(t);
      d := Xor(d, t);
    }
  }

  /** T(x) <- lambda(x) - discr x b(x). */
  method UpdateLambda(rs: Rs, lambda: array<Byte>, bx: array<nat>, discr: nat, ghost b: seq<Byte>)
      returns (t: array<Byte>)
    requires rs.Tables() && lambda.Length == rs.nroots + 1
    requires IsIndexOf(bx[..], b) && |b| == lambda.Length
    ensures fresh(t) && t[..] == Updated(lambda[..], b, discr)
  {
    hide Scale, Xor, Index;
    t := new Byte[rs.nroots + 1](_ => ZERO);
    t[0] := lambda[0];
    for i := 0 to rs.nroots
      invariant rs.Tables()
      invariant t[0] == lambda[0]
      invariant forall k :: 0 < k <= i ==> t[k] == Xor(lambda[k], Scale(discr, b[k - 1]))
    {
      assert bx[..][i] == bx[i];
      IndexZero(b[i]);
      if bx[i] != A0 {
        var p := rs.Antilog(discr, bx[i]);
        ScaleAdd(discr, Log(b[i]), ONE);
        t[i + 1] := Xor(lambda[i + 1], p);
      } else {
        ScaleZero(discr);
        XorZero(lambda[i + 1]);
        t[i + 1] := lambda[i + 1];
      }
    }
    ScaleZero(discr);
    XorZero(lambda[0]);
  }

  /** B(x) <- x B(x). */
  method ShiftB(bx: array<nat>, ghost b: seq<Byte>)
    requires IsIndexOf(bx[..], b) && b != []
    modifies bx
    ensures IsIndexOf(bx[..], ShiftUp(b))
  {
    hide Index;
    var j := bx.Length - 1;
    ghost var was := bx[..];
    while j > 0
      invariant 0 <= j < bx.Length
      invariant forall k :: 0 <= k <= j ==> bx[k] == was[k]
      invariant forall k :: j < k < bx.Length ==> bx[k] == was[k - 1]
    {
      bx[j] := bx[j - 1];
      j := j - 1;
    }
    bx[0] := A0;
    IndexZero(ZERO);
  }

  /** B(x) <- lambda(x) / discr. */
  method ScaleB(rs: Rs, lambda: array<Byte>, bx: array<nat>, discr: nat)
    requires rs.Tables() && bx != rs.indexOf && bx.Length == lambda.Length && discr < 255
    modifies bx
    ensures IsIndexOf(bx[..], ScaleWord(255 - discr, lambda[..]))
  {
    hide Scale, Index;
    for i := 0 to bx.Length
      invariant rs.Tables()
      invariant forall k :: 0 <= k < i ==> bx[k] == Index(Scale(255 - discr, lambda[k]))
    {
      ScaledIndex(lambda[i], 255 - discr);
      if lambda[i] == ZERO {
        bx[i] := A0;
      } else {
        IndexZero(lambda[i]);
        bx[i] := Mod255(rs.indexOf[Value(lambda[i])] - discr + NN);
      }
    }
  }

  lemma ScaledIndex(a: Byte, k: nat)
    ensures a == ZERO ==> Index(Scale(k, a)) == A0
    ensures a != ZERO ==> Index(Scale(k, a)) == (Log(a) + k) % 255
  {
    hide Scale;
    ScaleNonzero(k, a);
    if a != ZERO {
      ScaleAdd(k, Log(a), ONE);
      ScaleMod(Log(a) + k, ONE);
      LogUnique((Log(a) + k) % 255);
    }
  }

  /** Completes the locator of the erasures es in place. */
  method BerlekampMassey(rs: Rs, sx: array<nat>, lambda: array<Byte>, noEras: nat, ghost s: seq<Byte>,
                         ghost es: seq<nat>)
    requires rs.Tables() && lambda != rs.alphaTo
    requires IsIndexOf(sx[..], s) && |s| == rs.nroots
    requires noEras == |es| <= rs.nroots && lambda[..] == Locator(es, rs.nroots + 1)
    modifies lambda
    ensures lambda[..] == FinalLocator(s, es)
  {
    hide Scale, Xor, Index, Locator, Conv, Updated, ShiftUp, ScaleWord;
    var n := rs.nroots;
    var bx := ToIndex(rs, lambda);
    ghost var b := lambda[..];
    var r, el: int := noEras, noEras;
    while r < n
      invariant rs.Tables()
      invariant fresh(bx) && IsIndexOf(bx[..], b) && |b| == n + 1 == lambda.Length
      invariant noEras <= r <= n
      invariant Loop(s, noEras, r, el, lambda[..], b).1 == FinalLocator(s, es)
    {
      ghost var l := lambda[..];
      var d := ComputeDiscrepancy(rs, sx, lambda, r + 1, s);
      var discr := rs.indexOf[Value(d)];
      IndexZero(d);
      if discr == A0 {
        ShiftB(bx, b);
        b := ShiftUp(b);
      } else {
        var t := UpdateLambda(rs, lambda, bx, discr, b);
        if 2 * el <= r + 1 + noEras - 1 {
          el := r + 1 + noEras - el;
          ScaleB(rs, lambda, bx, discr);
          b := ScaleWord(255 - discr, l);
        } else {
          ShiftB(bx, b);
          b := ShiftUp(b);
        }
        CopyInto(t, lambda);
      }
      r := r + 1;
    }
  }

  method CopyInto(t: array<Byte>, lambda: array<Byte>)
    requires t.Length == lambda.Length && t != lambda
    modifies lambda
    ensures lambda[..] == t[..]
  {
    for i := 0 to t.Length
      invariant forall k :: 0 <= k < i ==> lambda[k] == t[k]
    {
      lambda[i] := t[i];
    }
  }
}
