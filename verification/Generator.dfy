/**
  What the encoder computes: the generator polynomial with its consecutive roots, and the parity
  symbols as the state of a feedback shift register.
 */
module Generator {
  import opened Bytes
  import opened Galois
  import opened Field
  import opened Code
  import opened Counting

  //////////////////////////////////////////////////////////////////////////////
  //
  // The generator polynomial, highest power first
  //
  //////////////////////////////////////////////////////////////////////////////

  /** The product with x + alpha^root. */
  function MulRoot(g: seq<Byte>, root: nat): (r: seq<Byte>)
    ensures |r| == |g| + 1
  {
    AddWords(g + [ZERO], ScaleWord(root, [ZERO] + g))
  }

  function GenPoly(fcr: nat, n: nat): (g: seq<Byte>)
    ensures |g| == n + 1
  {
    if n == 0 then [ONE] else MulRoot(GenPoly(fcr, n - 1), fcr + (n - 1))
  }

  lemma MulRootIs(g: seq<Byte>, root: nat)
    ensures MulRoot(g, root) == AddWords(g + [ZERO], ScaleWord(root, [ZERO] + g))
  {
    hide Scale, Xor;
  }

  lemma SynMulRoot(g: seq<Byte>, root: nat, e: nat)
    ensures Syn(MulRoot(g, root), e) == Xor(Scale(e, Syn(g, e)), Scale(root, Syn(g, e)))
  {
    hide *;
    MulRootIs(g, root);
    SynAddWords(g + [ZERO], ScaleWord(root, [ZERO] + g), e);
    SynScaleWord(root, [ZERO] + g, e);
    SynSnoc(g, ZERO, e);
    SynAppend([ZERO], g, e);
    SynSingle(ZERO, e);
    ScaleZero(e * |g|);
    XorZero(Syn(g, e));
    XorZero(Scale(e, Syn(g, e)));
  }

  lemma {:induction false} GenPolyRoots(fcr: nat, n: nat)
    ensures IsCodeword(GenPoly(fcr, n), fcr, n)
    ensures GenPoly(fcr, n)[0] == ONE
  {
    hide Scale, Xor, Syn;
    if n > 0 {
      var g, root := GenPoly(fcr, n - 1), fcr + (n - 1);
      GenPolyRoots(fcr, n - 1);
      forall e: nat | fcr <= e < fcr + n ensures Syn(MulRoot(g, root), e) == ZERO {
        SynMulRoot(g, root, e);
        if e == root {
          XorSelf(Scale(e, Syn(g, e)));
        } else {
          ScaleZero(e);
          ScaleZero(root);
          XorZero(ZERO);
        }
      }
      ScaleZero(root);
      XorZero(ONE);
    }
  }

  /**
    No coefficient of a generator polynomial is zero: it is a codeword of n + 1 symbols, and no
    nonzero codeword has fewer than n + 1 nonzero symbols.
   */
  lemma GenPolyNonzero(fcr: nat, n: nat, j: nat)
    requires n < 255 && j <= n
    ensures GenPoly(fcr, n)[j] != ZERO
  {
    var g := GenPoly(fcr, n);
    GenPolyRoots(fcr, n);
    MinimumWeight(g, fcr, n);
    assert 0 in Support(g);
    SubsetOfSameSize(Support(g), Range(0, n + 1));
    assert j in Range(0, n + 1);
  }

  //////////////////////////////////////////////////////////////////////////////
  //
  // The parity register
  //
  //////////////////////////////////////////////////////////////////////////////

  /** One data symbol enters the register: shift, and subtract the feedback times the generator. */
  ghost function StepParity(p: seq<Byte>, d: Byte, g: seq<Byte>): (r: seq<Byte>)
    requires |p| + 1 == |g| && p != []
    ensures |r| == |p|
  {
    var f := Xor(d, p[0]);
    if f == ZERO then p[1..] + [ZERO] else AddWords(p[1..] + [ZERO], ScaleWord(Log(f), g[1..]))
  }

  ghost function ParityOf(data: seq<Byte>, fcr: nat, nroots: nat): (p: seq<Byte>)
    requires nroots > 0
    ensures |p| == nroots
  {
    if data == [] then Zeros(nroots)
    else StepParity(ParityOf(data[..|data| - 1], fcr, nroots), data[|data| - 1], GenPoly(fcr, nroots))
  }

  /** The feedback times the generator without its leading term, at a root of the generator. */
  lemma SynFeedback(g: seq<Byte>, f: Byte, e: nat)
    requires |g| > 1 && g[0] == ONE && f != ZERO
    requires Syn(g, e) == ZERO
    ensures Syn(ScaleWord(Log(f), g[1..]), e) == Scale(e * (|g| - 1), f)
  {
    hide Scale, Xor, Syn, ScaleWord;
    var n := |g| - 1;
    SynCons(g, e);
    XorEqual(Scale(e * n, ONE), Syn(g[1..], e));
    SynScaleWord(Log(f), g[1..], e);
    ScaleAdd(Log(f), e * n, ONE);
  }

  /** The shifted register, at any point. */
  lemma SynShifted(p: seq<Byte>, e: nat)
    requires p != []
    ensures Syn(p[1..] + [ZERO], e) == Xor(Scale(e, Syn(p, e)), Scale(e * |p|, p[0]))
  {
    hide Scale, Xor, Syn;
    var n := |p| - 1;
    SynSnoc(p[1..], ZERO, e);
    SynCons(p, e);
    ScaleXor(e, Scale(e * n, p[0]), Syn(p[1..], e));
    ScaleAdd(e, e * n, p[0]);
    assert e + e * n == e * (n + 1);
    XorZero(Scale(e, Syn(p[1..], e)));
    XorComm(Scale(e * (n + 1), p[0]), Scale(e, Syn(p[1..], e)));
    XorCancel(Scale(e, Syn(p[1..], e)), Scale(e * (n + 1), p[0]));
  }

  lemma SynStepParity(p: seq<Byte>, d: Byte, g: seq<Byte>, e: nat)
    requires |p| + 1 == |g| && p != [] && g[0] == ONE
    requires Syn(g, e) == ZERO
    ensures Syn(StepParity(p, d, g), e) == Xor(Scale(e, Syn(p, e)), Scale(e * |p|, d))
  {
    hide Scale, Xor, Syn, AddWords, ScaleWord;
    var f := Xor(d, p[0]);
    SynShifted(p, e);
    var a, n := Scale(e, Syn(p, e)), e * |p|;
    if f == ZERO {
      XorEqual(d, p[0]);
    } else {
      SynFeedback(g, f, e);
      SynAddWords(p[1..] + [ZERO], ScaleWord(Log(f), g[1..]), e);
      ScaleXor(n, d, p[0]);
      FeedbackCancels(a, Scale(n, p[0]), Scale(n, d));
    }
  }

  lemma FeedbackCancels(a: Byte, b: Byte, c: Byte)
    ensures Xor(Xor(a, b), Xor(c, b)) == Xor(a, c)
  {}

  /** The data followed by its parity is a codeword, for every message. */
  lemma {:induction false} ParityCompletes(data: seq<Byte>, fcr: nat, nroots: nat)
    requires nroots > 0
    ensures IsCodeword(data + ParityOf(data, fcr, nroots), fcr, nroots)
  {
    hide Scale, Xor, Syn, ParityOf;
    forall e: nat | fcr <= e < fcr + nroots ensures Syn(data + ParityOf(data, fcr, nroots), e) == ZERO {
      SynAppend(data, ParityOf(data, fcr, nroots), e);
      ParityMatches(data, fcr, nroots, e);
      XorSelf(Syn(ParityOf(data, fcr, nroots), e));
    }
  }

  lemma {:induction false} ParityMatches(data: seq<Byte>, fcr: nat, nroots: nat, e: nat)
    requires nroots > 0 && fcr <= e < fcr + nroots
    ensures Scale(e * nroots, Syn(data, e)) == Syn(ParityOf(data, fcr, nroots), e)
  {
    hide Scale, Xor, Syn, StepParity;
    if data == [] {
      SynOfZeros(Zeros(nroots), e);
      SynOfZeros(data, e);
      ScaleZero(e * nroots);
    } else {
      var t, d := data[..|data| - 1], data[|data| - 1];
      var p := ParityOf(t, fcr, nroots);
      ParityMatches(t, fcr, nroots, e);
      GenPolyRoots(fcr, nroots);
      SynStepParity(p, d, GenPoly(fcr, nroots), e);
      assert data == t + [d];
      SynSnoc(t, d, e);
      ScaleXor(e * nroots, Scale(e, Syn(t, e)), d);
      ScaleAdd(e * nroots, e, Syn(t, e));
    }
  }

  /** Only one parity completes the data to a codeword, so being a codeword specifies the encoder. */
  lemma ParityUnique(data: seq<Byte>, parity: seq<Byte>, fcr: nat)
    requires parity != [] && |data| + |parity| <= 255
    requires IsCodeword(data + parity, fcr, |parity|)
    ensures parity == ParityOf(data, fcr, |parity|)
  {
    hide Syn, ParityOf;
    var n := |parity|;
    var p := ParityOf(data, fcr, n);
    ParityCompletes(data, fcr, n);
    MinimumDistance(data + parity, data + p, fcr, n, Range(|data|, n));
    assert parity == (data + parity)[|data|..] == (data + p)[|data|..] == p;
  }
}
