/**
  Reed-Solomon words: syndromes, codewords, and how far apart codewords are.

  A word lists its symbols from the highest power down, the order in which encoder and decoder
  receive them.
 */
module Code {
  import opened Bytes
  import opened Galois
  import opened Field

  //////////////////////////////////////////////////////////////////////////////
  //
  // Syndromes
  //
  //////////////////////////////////////////////////////////////////////////////

  /** The word as a polynomial, evaluated at the e-th power of alpha by Horner's rule. */
  function Syn(c: seq<Byte>, e: nat): Byte {
    if c == [] then ZERO else Xor(Scale(e, Syn(c[..|c| - 1], e)), c[|c| - 1])
  }

  /** All syndromes vanish: the word is a multiple of the generator polynomial. */
  ghost predicate IsCodeword(c: seq<Byte>, fcr: nat, nroots: nat) {
    forall e: nat :: fcr <= e < fcr + nroots ==> Syn(c, e) == ZERO
  }

  lemma SynSnoc(c: seq<Byte>, d: Byte, e: nat)
    ensures Syn(c + [d], e) == Xor(Scale(e, Syn(c, e)), d)
  {
    hide Scale, Xor;
    assert (c + [d])[..|c|] == c;
  }

  lemma {:induction false} SynAppend(a: seq<Byte>, b: seq<Byte>, e: nat)
    ensures Syn(a + b, e) == Xor(Scale(e * |b|, Syn(a, e)), Syn(b, e))
  {
    hide Scale, Xor;
    if b == [] {
      assert a + b == a;
      ScaleIdentity(Syn(a, e));
      XorZero(Syn(a, e));
    } else {
      var t, d := b[..|b| - 1], b[|b| - 1];
      assert a + b == (a + t) + [d] && b == t + [d];
      SynSnoc(a + t, d, e);
      SynSnoc(t, d, e);
      SynAppend(a, t, e);
      HornerStep(e, |t|, Syn(a, e), Syn(t, e), d);
    }
  }

  lemma HornerStep(e: nat, n: nat, a: Byte, t: Byte, d: Byte)
    ensures Xor(Scale(e, Xor(Scale(e * n, a), t)), d) == Xor(Scale(e * (n + 1), a), Xor(Scale(e, t), d))
  {
    hide Scale, Xor;
    ScaleXor(e, Scale(e * n, a), t);
    ScaleAdd(e, e * n, a);
    assert e + e * n == e * (n + 1);
    XorAssoc(Scale(e * (n + 1), a), Scale(e, t), d);
  }

  lemma SynSingle(d: Byte, e: nat)
    ensures Syn([d], e) == d
  {
    hide Scale, Xor;
    SynSnoc([], d, e);
    ScaleZero(e);
    XorZero(d);
    assert [] + [d] == [d];
  }

  /** Syndrome from the front: the first symbol carries the highest power. */
  lemma SynCons(c: seq<Byte>, e: nat)
    requires c != []
    ensures Syn(c, e) == Xor(Scale(e * (|c| - 1), c[0]), Syn(c[1..], e))
  {
    hide Scale, Xor;
    assert c == [c[0]] + c[1..];
    SynAppend([c[0]], c[1..], e);
    SynSingle(c[0], e);
  }

  function Zeros(n: nat): (z: seq<Byte>)
    ensures |z| == n && forall i :: 0 <= i < n ==> z[i] == ZERO
  {
    seq(n, _ => ZERO)
  }

  lemma {:induction false} SynOfZeros(c: seq<Byte>, e: nat)
    requires forall i :: 0 <= i < |c| ==> c[i] == ZERO
    ensures Syn(c, e) == ZERO
  {
    hide Scale, Xor;
    if c != [] {
      SynOfZeros(c[..|c| - 1], e);
      ScaleZero(e);
      XorZero(ZERO);
    }
  }

  //////////////////////////////////////////////////////////////////////////////
  //
  // Linearity
  //
  //////////////////////////////////////////////////////////////////////////////

  function AddWords(a: seq<Byte>, b: seq<Byte>): (c: seq<Byte>)
    requires |a| == |b|
    ensures |c| == |a|
  {
    seq(|a|, i requires 0 <= i < |a| => Xor(a[i], b[i]))
  }

  function ScaleWord(k: nat, a: seq<Byte>): (c: seq<Byte>)
    ensures |c| == |a|
  {
    seq(|a|, i requires 0 <= i < |a| => Scale(k, a[i]))
  }

  lemma {:induction false} SynAddWords(a: seq<Byte>, b: seq<Byte>, e: nat)
    requires |a| == |b|
    ensures Syn(AddWords(a, b), e) == Xor(Syn(a, e), Syn(b, e))
  {
    hide Scale, Xor;
    if a == [] {
      XorZero(ZERO);
    } else {
      var n := |a| - 1;
      assert AddWords(a, b)[..n] == AddWords(a[..n], b[..n]);
      SynAddWords(a[..n], b[..n], e);
      ScaleXor(e, Syn(a[..n], e), Syn(b[..n], e));
      XorSwap(Scale(e, Syn(a[..n], e)), Scale(e, Syn(b[..n], e)), a[n], b[n]);
    }
  }

  lemma {:induction false} SynScaleWord(k: nat, a: seq<Byte>, e: nat)
    ensures Syn(ScaleWord(k, a), e) == Scale(k, Syn(a, e))
  {
    hide Scale, Xor;
    if a == [] {
      ScaleZero(k);
    } else {
      var n := |a| - 1;
      assert ScaleWord(k, a)[..n] == ScaleWord(k, a[..n]);
      SynScaleWord(k, a[..n], e);
      ScaleXor(k, Scale(e, Syn(a[..n], e)), a[n]);
      ScaleAdd(k, e, Syn(a[..n], e));
    }
  }

  //////////////////////////////////////////////////////////////////////////////
  //
  // The minimum distance
  //
  //////////////////////////////////////////////////////////////////////////////

  /**
    Removes the symbol at degree e and one root: the polynomial p(alpha x) + alpha^e p(x).
   */
  function Fold(c: seq<Byte>, e: nat): (r: seq<Byte>)
    ensures |r| == |c|
    ensures forall j :: 0 <= j < |c| ==> r[j] == Xor(Scale(|c| - 1 - j, c[j]), Scale(e, c[j]))
  {
    if c == [] then [] else [Xor(Scale(|c| - 1, c[0]), Scale(e, c[0]))] + Fold(c[1..], e)
  }

  lemma {:induction false} SynFold(c: seq<Byte>, e: nat, m: nat)
    ensures Syn(Fold(c, e), m) == Xor(Syn(c, m + 1), Scale(e, Syn(c, m)))
  {
    hide Scale, Xor;
    if c == [] {
      ScaleZero(e);
      XorZero(ZERO);
    } else {
      var n := |c| - 1;
      SynCons(Fold(c, e), m);
      SynCons(c, m + 1);
      SynCons(c, m);
      assert Fold(c, e)[1..] == Fold(c[1..], e);
      SynFold(c[1..], e, m);
      FoldStep(e, m, n, c[0], Syn(c[1..], m + 1), Syn(c[1..], m));
    }
  }

  lemma FoldStep(e: nat, m: nat, n: nat, d: Byte, up: Byte, down: Byte)
    ensures Xor(Scale(m * n, Xor(Scale(n, d), Scale(e, d))), Xor(up, Scale(e, down)))
         == Xor(Xor(Scale((m + 1) * n, d), up), Scale(e, Xor(Scale(m * n, d), down)))
  {
    hide Scale, Xor;
    ScaleXor(m * n, Scale(n, d), Scale(e, d));
    ScaleAdd(m * n, n, d);
    assert m * n + n == (m + 1) * n;
    ScaleAdd(m * n, e, d);
    ScaleXor(e, Scale(m * n, d), down);
    XorSwap(Scale((m + 1) * n, d), Scale(e, Scale(m * n, d)), up, Scale(e, down));
  }

  /** The symbol at j survives folding unless it is zero or sits at the folded degree. */
  lemma FoldKeeps(d: Byte, i: nat, e: nat)
    requires i < 255 && e < 255
    ensures Xor(Scale(i, d), Scale(e, d)) == ZERO <==> d == ZERO || i == e
  {
    hide Scale, Xor;
    XorEqual(Scale(i, d), Scale(e, d));
    if d == ZERO {
      ScaleZero(i);
      ScaleZero(e);
    } else {
      ScaleSame(i, e, d);
    }
  }

  ghost predicate ZeroOutside(c: seq<Byte>, s: set<nat>) {
    forall j: nat :: j < |c| && j !in s ==> c[j] == ZERO
  }

  /**
    The BCH bound: a word of at most 255 symbols with t consecutive zero syndromes that is nonzero
    in at most t places is the zero word.
   */
  lemma {:induction false} BchBound(c: seq<Byte>, fcr: nat, t: nat, s: set<nat>)
    requires |c| <= 255
    requires ZeroOutside(c, s) && |s| <= t
    requires IsCodeword(c, fcr, t)
    ensures forall j :: 0 <= j < |c| ==> c[j] == ZERO
    decreases s
  {
    hide Scale, Xor, Syn;
    if exists p :: p in s && p < |c| {
      var p :| p in s && p < |c|;
      var e := |c| - 1 - p;
      var r := Fold(c, e);
      forall m: nat | fcr <= m < fcr + (t - 1) ensures Syn(r, m) == ZERO {
        SynFold(c, e, m);
        ScaleZero(e);
        XorZero(ZERO);
      }
      forall j | 0 <= j < |c| ensures r[j] == ZERO <==> c[j] == ZERO || j == p {
        FoldKeeps(c[j], |c| - 1 - j, e);
      }
      BchBound(r, fcr, t - 1, s - {p});
      assert fcr <= fcr < fcr + t;
      OneSymbol(c, p, fcr);
    }
  }

  /** A word with a single nonzero symbol has no zero syndrome. */
  lemma OneSymbol(c: seq<Byte>, p: nat, e: nat)
    requires p < |c| && forall j :: 0 <= j < |c| && j != p ==> c[j] == ZERO
    requires Syn(c, e) == ZERO
    ensures c[p] == ZERO
  {
    hide Scale, Xor, Syn;
    assert c == (c[..p] + [c[p]]) + c[p + 1..];
    SynAppend(c[..p] + [c[p]], c[p + 1..], e);
    SynSnoc(c[..p], c[p], e);
    SynOfZeros(c[..p], e);
    SynOfZeros(c[p + 1..], e);
    ScaleZero(e);
    XorZero(c[p]);
    XorZero(Scale(e * |c[p + 1..]|, c[p]));
    ScaleNonzero(e * |c[p + 1..]|, c[p]);
  }

  ghost function Support(c: seq<Byte>): (s: set<nat>)
    ensures forall j: nat :: j in s <==> j < |c| && c[j] != ZERO
  {
    set j: nat | j < |c| && c[j] != ZERO
  }

  /** Every nonzero codeword has more nonzero symbols than there are roots. */
  lemma MinimumWeight(c: seq<Byte>, fcr: nat, nroots: nat)
    requires |c| <= 255
    requires IsCodeword(c, fcr, nroots)
    ensures Support(c) == {} || |Support(c)| >= nroots + 1
  {
    if |Support(c)| <= nroots {
      BchBound(c, fcr, nroots, Support(c));
    }
  }

  /** Codewords that differ in no more places than there are roots are equal. */
  lemma MinimumDistance(a: seq<Byte>, b: seq<Byte>, fcr: nat, nroots: nat, s: set<nat>)
    requires |a| == |b| <= 255
    requires IsCodeword(a, fcr, nroots) && IsCodeword(b, fcr, nroots)
    requires |s| <= nroots && forall j: nat :: j < |a| && j !in s ==> a[j] == b[j]
    ensures a == b
  {
    hide Scale, Xor, Syn;
    var c := AddWords(a, b);
    forall e: nat | fcr <= e < fcr + nroots ensures Syn(c, e) == ZERO {
      SynAddWords(a, b, e);
      XorZero(ZERO);
    }
    forall j: nat | j < |a| ensures c[j] == ZERO <==> a[j] == b[j] {
      XorEqual(a[j], b[j]);
    }
    BchBound(c, fcr, nroots, s);
  }

  //////////////////////////////////////////////////////////////////////////////
  //
  // The bound is met: any nroots + 1 places carry a codeword
  //
  //////////////////////////////////////////////////////////////////////////////

  ghost predicate SupportedOn(w: seq<Byte>, s: set<nat>) {
    forall j: nat :: j < |w| ==> (w[j] == ZERO <==> j !in s)
  }

  lemma {:induction false} CodewordOn(n: nat, fcr: nat, t: nat, s: set<nat>) returns (w: seq<Byte>)
    requires n <= 255
    requires |s| == t + 1 && forall j :: j in s ==> j < n
    ensures |w| == n && IsCodeword(w, fcr, t) && SupportedOn(w, s)
    decreases t
  {
    hide Scale, Xor, Syn;
    var p :| p in s;
    if t == 0 {
      assert |s - {p}| == 0;
      assert s == {p};
      w := Zeros(n)[p := ONE];
    } else {
      assert |s - {p}| == t;
      var q :| q in s - {p};
      var u := CodewordOn(n, fcr, t - 1, s - {p});
      var v := CodewordOn(n, fcr, t - 1, s - {q});
      w := CancelLast(u, v, fcr, t, s, p, q);
      if exists j: nat :: j in s && w[j] == ZERO {
        var j: nat :| j in s && w[j] == ZERO;
        BchBound(w, fcr, t, s - {j});
      }
    }
  }

  /** Combines two words so that the next syndrome vanishes as well. */
  lemma CancelLast(u: seq<Byte>, v: seq<Byte>, fcr: nat, t: nat, s: set<nat>, p: nat, q: nat)
      returns (w: seq<Byte>)
    requires |u| == |v| <= 255
    requires t > 0 && |s| == t + 1 && forall j :: j in s ==> j < |u|
    requires p in s && q in s && p != q
    requires IsCodeword(u, fcr, t - 1) && SupportedOn(u, s - {p})
    requires IsCodeword(v, fcr, t - 1) && SupportedOn(v, s - {q})
    ensures |w| == |u| && IsCodeword(w, fcr, t)
    ensures ZeroOutside(w, s) && w[q] != ZERO
  {
    hide Scale, Xor, Syn;
    var last := fcr + (t - 1);
    LastSyndromeNonzero(u, fcr, t, s - {p}, q);
    LastSyndromeNonzero(v, fcr, t, s - {q}, p);
    var a, b := Log(Syn(v, last)), Log(Syn(u, last));
    var x, y := ScaleWord(a, u), ScaleWord(b, v);
    w := AddWords(x, y);
    forall e: nat | fcr <= e < fcr + t ensures Syn(w, e) == ZERO {
      SynAddWords(x, y, e);
      SynScaleWord(a, u, e);
      SynScaleWord(b, v, e);
      ScaleZero(a);
      ScaleZero(b);
      XorZero(ZERO);
      ScaleAdd(a, b, ONE);
      XorSelf(Scale(a, Scale(b, ONE)));
    }
    forall j: nat | j < |w| && j !in s ensures w[j] == ZERO {
      ScaleZero(a);
      ScaleZero(b);
      XorZero(ZERO);
    }
    ScaleNonzero(a, u[q]);
    ScaleZero(b);
    XorZero(Scale(a, u[q]));
  }

  lemma LastSyndromeNonzero(u: seq<Byte>, fcr: nat, t: nat, s: set<nat>, q: nat)
    requires t > 0 && |u| <= 255 && |s| <= t
    requires IsCodeword(u, fcr, t - 1) && SupportedOn(u, s)
    requires q in s && q < |u|
    ensures Syn(u, fcr + (t - 1)) != ZERO
  {
    hide Scale, Xor, Syn;
    if Syn(u, fcr + (t - 1)) == ZERO {
      BchBound(u, fcr, t, s);
    }
  }
}
