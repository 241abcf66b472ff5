/**
  What a success of the decoder is worth: for received words within the distance of the code, where
  it gives back the codeword, and for all others.
 */
module Success {
  import opened Bytes
  import opened Counting
  import opened Galois
  import opened Field
  import opened Code
  import opened Erasures
  import opened Massey
  import opened ErrorWords
  import RepeatedErasures

  //////////////////////////////////////////////////////////////////////////////
  //
  // Error values for given positions
  //
  //////////////////////////////////////////////////////////////////////////////

  /** On any places there is a word with as many prescribed syndromes. */
  lemma {:induction false} WordWithSyndromes(n: nat, fcr: nat, places: set<nat>, t: seq<Byte>) returns (w: seq<Byte>)
    requires n <= 255 && |places| == |t| && forall j :: j in places ==> j < n
    ensures |w| == n && ZeroOutside(w, places) && SyndromesOf(w, fcr, |t|) == t
    decreases |t|
  {
    hide Scale, Xor, Syn;
    if t == [] {
      w := Zeros(n);
    } else {
      var k := |t| - 1;
      var p :| p in places;
      var v := WordWithSyndromes(n, fcr, places - {p}, t[..k]);
      var u := CodewordOn(n, fcr, k, places);
      LastSyndromeNonzero(u, fcr, k + 1, places, p);
      var e := fcr + k;
      var rest := Xor(t[k], Syn(v, e));
      if rest == ZERO {
        XorEqual(t[k], Syn(v, e));
        w := v;
      } else {
        var a := Log(rest) + 255 - Log(Syn(u, e));
        w := AddWords(v, ScaleWord(a, u));
        ScaledTo(rest, Syn(u, e));
        XorZero(ZERO);
        ScaleZero(a);
        forall i | 0 <= i < |t| ensures Syn(w, fcr + i) == t[i] {
          SynAddWords(v, ScaleWord(a, u), fcr + i);
          SynScaleWord(a, u, fcr + i);
          if i < k {
            assert SyndromesOf(v, fcr, k)[i] == t[i];
            XorZero(t[i]);
          } else {
            XorCancel(t[k], Syn(v, e));
            XorComm(Syn(v, e), rest);
          }
        }
      }
      forall i | 0 <= i < |t| ensures Syn(w, fcr + i) == t[i] {
        if rest == ZERO && i < k {
          assert SyndromesOf(v, fcr, k)[i] == t[i];
        }
      }
    }
  }

  lemma ScaledTo(r: Byte, u: Byte)
    requires r != ZERO && u != ZERO
    ensures Scale(Log(r) + 255 - Log(u), u) == r
  {
    hide Scale;
    ScaleAdd(Log(r) + 255 - Log(u), Log(u), ONE);
    ScaleAdd(255, Log(r), ONE);
    Scale255(Scale(Log(r), ONE));
  }

  /** w is zero outside the positions and has the first |pos| of the syndromes s. */
  ghost predicate Matches(w: seq<Byte>, pos: seq<nat>, s: seq<Byte>, fcr: nat) {
    && Positions(pos) && WordOn(w, pos) && |pos| <= |s|
    && forall i :: 0 <= i < |pos| ==> Syn(w, fcr + i) == s[i]
  }

  lemma MatchExists(pos: seq<nat>, s: seq<Byte>, fcr: nat) returns (w: seq<Byte>)
    requires Positions(pos) && |pos| <= |s|
    ensures Matches(w, pos, s, fcr)
  {
    hide Syn;
    DistinctCount(pos);
    w := WordWithSyndromes(255, fcr, Elements(pos), s[..|pos|]);
    forall i | 0 <= i < |pos| ensures Syn(w, fcr + i) == s[i] {
      assert SyndromesOf(w, fcr, |pos|)[i] == s[..|pos|][i];
    }
  }

  /** And only one. */
  lemma MatchUnique(v: seq<Byte>, w: seq<Byte>, pos: seq<nat>, s: seq<Byte>, fcr: nat)
    requires Matches(w, pos, s, fcr)
    requires WordOn(v, pos) && forall i :: 0 <= i < |pos| ==> Syn(v, fcr + i) == s[i]
    ensures v == w
  {
    hide Scale, Xor, Syn;
    var x := AddWords(v, w);
    forall e: nat | fcr <= e < fcr + |pos| ensures Syn(x, e) == ZERO {
      SynAddWords(v, w, e);
      assert Syn(v, fcr + (e - fcr)) == s[e - fcr] == Syn(w, fcr + (e - fcr));
      XorSelf(s[e - fcr]);
    }
    XorZero(ZERO);
    ElementsCount(pos);
    BchBound(x, fcr, |pos|, Elements(pos));
    forall j | 0 <= j < 255 ensures v[j] == w[j] {
      assert x[j] == ZERO;
      XorEqual(v[j], w[j]);
    }
  }

  //////////////////////////////////////////////////////////////////////////////
  //
  // Forney's formula for these values
  //
  //////////////////////////////////////////////////////////////////////////////

  /** Forney's formula holds at the root alpha^e with the error value y. */
  ghost predicate ForneyAt(om: seq<Byte>, p: seq<Byte>, fcr: nat, e: nat, y: Byte)
    requires 1 <= e <= 255
  {
    && Derivative(p, e) != ZERO
    && Eval(om, e) == Mul(Derivative(p, e), Scale(Times(fcr + 254, 255 - e), y))
  }

  /** A coefficient depends on the syndromes up to its own. */
  lemma {:induction false} ConvPrefix(s: seq<Byte>, t: seq<Byte>, p: seq<Byte>, i: nat, j: nat)
    requires j <= i < |s| && i < |t| && j < |p|
    requires forall k :: 0 <= k <= i ==> s[k] == t[k]
    ensures Conv(s, p, i, j) == Conv(t, p, i, j)
  {
    hide Xor, Mul;
    if j > 0 {
      ConvPrefix(s, t, p, i, j - 1);
    }
  }

  /** The evaluator from the received syndromes is that of the matching word. */
  lemma MatchForney(w: seq<Byte>, pos: seq<nat>, s: seq<Byte>, fcr: nat, om: seq<Byte>, p: seq<Byte>, l: nat)
    requires Matches(w, pos, s, fcr) && |p| == |s| + 1 && IsLocator(p, pos)
    requires |om| == |pos| && forall i :: 0 <= i < |pos| ==> om[i] == Conv(s, p, i, i)
    requires l < |pos|
    ensures ForneyAt(om, p, fcr, pos[l] + 1, w[pos[l]])
  {
    hide Scale, Xor, Mul, Times, Eval, Derivative, Conv, Locator, Evaluator, Syn, ErrorSyn;
    var n := |s| + 1;
    var xs, ys := Locations(pos), Values(w, pos);
    var ev := Evaluator(xs, ys, fcr, n);
    PositionsDistinct(pos);
    Forney(xs, ys, fcr, n, l);
    EvaluatorDegree(xs, ys, fcr, n);
    EvalTrim(ev, |xs|, pos[l] + 1);
    var t := ErrorSyndromes(xs, ys, fcr, |s|);
    forall i | 0 <= i < |pos| ensures t[i] == s[i] {
      WordSyndrome(w, pos, fcr + i);
    }
    forall i | 0 <= i < |pos| ensures om[i] == ev[i] {
      ConvPrefix(s, t, p, i, i);
      KeyEquation(xs, ys, fcr, |s|, n, i);
    }
    assert om == ev[..|xs|];
  }

  //////////////////////////////////////////////////////////////////////////////
  //
  // The remaining syndromes
  //
  //////////////////////////////////////////////////////////////////////////////

  /** Syndromes that agree below i contribute the same to coefficient i, except for the i-th itself. */
  lemma {:induction false} ConvDifference(s: seq<Byte>, t: seq<Byte>, p: seq<Byte>, i: nat, j: nat)
    requires j <= i < |s| && i < |t| && j < |p| && p[0] == ONE
    requires forall k :: 0 <= k < i ==> s[k] == t[k]
    ensures Xor(Conv(s, p, i, j), s[i]) == Xor(Conv(t, p, i, j), t[i])
  {
    hide Xor, Mul;
    if j == 0 {
      MulOne(s[i]);
      MulOne(t[i]);
      XorSelf(s[i]);
      XorSelf(t[i]);
    } else {
      ConvDifference(s, t, p, i, j - 1);
      SameMiddle(Conv(s, p, i, j - 1), Conv(t, p, i, j - 1), Mul(s[i - j], p[j]), s[i], t[i]);
    }
  }

  lemma SameMiddle(a: Byte, b: Byte, m: Byte, x: Byte, y: Byte)
    requires Xor(a, x) == Xor(b, y)
    ensures Xor(Xor(a, m), x) == Xor(Xor(b, m), y)
  {
    XorMoved(a, m, x);
    XorMoved(b, m, y);
  }

  lemma XorMoved(a: Byte, m: Byte, x: Byte)
    ensures Xor(Xor(a, m), x) == Xor(Xor(a, x), m)
  {}

  /** What generates both from a place on where they agree so far makes them equal. */
  lemma {:induction false} SameContinuation(s: seq<Byte>, t: seq<Byte>, p: seq<Byte>, from: nat, i: nat)
    requires i <= |s| == |t| && |p| == |s| + 1 && p[0] == ONE
    requires Generates(s, p, from, |s|) && Generates(t, p, from, |s|)
    requires forall k :: 0 <= k < from && k < |s| ==> s[k] == t[k]
    ensures forall k :: 0 <= k < i ==> s[k] == t[k]
  {
    hide Conv;
    if i > 0 {
      SameContinuation(s, t, p, from, i - 1);
      if i - 1 >= from {
        ConvDifference(s, t, p, i - 1, i - 1);
        XorZero(s[i - 1]);
        XorZero(t[i - 1]);
        XorComm(ZERO, s[i - 1]);
        XorComm(ZERO, t[i - 1]);
      }
    }
  }

  /** A matching word has all the syndromes if their locator generates them from its degree on. */
  lemma AllSyndromesMatch(w: seq<Byte>, pos: seq<nat>, s: seq<Byte>, fcr: nat, p: seq<Byte>)
    requires Matches(w, pos, s, fcr) && |p| == |s| + 1 && IsLocator(p, pos)
    requires Generates(s, p, |pos|, |s|)
    ensures SyndromesOf(w, fcr, |s|) == s
  {
    hide Conv, Locator, Syn, ErrorSyn;
    var xs, ys := Locations(pos), Values(w, pos);
    var t := SyndromesOf(w, fcr, |s|);
    forall i | 0 <= i < |s| ensures t[i] == ErrorSyn(xs, ys, fcr + i) {
      WordSyndrome(w, pos, fcr + i);
    }
    assert t == ErrorSyndromes(xs, ys, fcr, |s|);
    forall i: nat | |pos| <= i < |s| ensures Conv(t, p, i, i) == ZERO {
      ErasureDiscrepanciesVanish(xs, ys, fcr, |s|, i);
    }
    LocatorDegree(xs, |p|);
    SameContinuation(s, t, p, |pos|, |s|);
  }

  //////////////////////////////////////////////////////////////////////////////
  //
  // The corrected word
  //
  //////////////////////////////////////////////////////////////////////////////

  /** The decoder succeeds with these positions: the loop ended with their locator, and w are the error values. */
  ghost predicate Found(d: seq<Byte>, pad: nat, eras: seq<nat>, fcr: nat, nroots: nat, pos: seq<nat>, w: seq<Byte>) {
    && pad < 255 && |d| == 255 - pad
    && |eras| <= nroots && (forall l :: 0 <= l < |eras| ==> eras[l] < 255)
    && var s := SyndromesOf(d, fcr, nroots);
       && IsLocator(FinalLocator(s, Locations(eras)), pos)
       && Matches(w, pos, s, fcr)
  }

  /** The received word with the error values taken away. */
  function Without(d: seq<Byte>, w: seq<Byte>, pad: nat): (f: seq<Byte>)
    requires pad <= |w| && |w| == pad + |d|
    ensures |f| == |d|
  {
    AddWords(d, w[pad..])
  }

  ghost predicate ZeroBelow(w: seq<Byte>, pad: nat)
    requires pad <= |w|
  {
    forall q :: 0 <= q < pad ==> w[q] == ZERO
  }

  /** Every codeword costs at least the length that the loop ends with: erasures and unknown errors together. */
  lemma LengthAtMostErrors(c: seq<Byte>, d: seq<Byte>, pad: nat, eras: seq<nat>, fcr: nat, nroots: nat)
    requires pad < 255 && |c| == |d| == 255 - pad && IsCodeword(c, fcr, nroots)
    requires Positions(eras) && |eras| <= nroots
    ensures FinalLength(SyndromesOf(d, fcr, nroots), Locations(eras)) <= |eras| + |Unknown(c, d, pad, eras)|
  {
    hide IsCodeword, Unknown, Difference, Explains, FinalLength, FinalLocator, Generates, VanishesAt, DegreeAtMost;
    var s := SyndromesOf(d, fcr, nroots);
    var pos := ErrorPattern(c, d, pad, eras, fcr, nroots);
    FinalSolves(s, Locations(eras), fcr);
    assert Explains(Locations(pos), Values(Difference(c, d, pad), pos), Locations(eras), s, fcr);
  }

  /** A success has no repeated erasures. */
  lemma ErasuresDistinct(d: seq<Byte>, pad: nat, eras: seq<nat>, fcr: nat, nroots: nat, pos: seq<nat>, w: seq<Byte>)
    requires Found(d, pad, eras, fcr, nroots, pos, w)
    ensures Positions(eras)
  {
    hide FinalLocator, Matches;
    if !Positions(eras) {
      RepeatedErasures.RepeatedErasureFails(SyndromesOf(d, fcr, nroots), eras, pos);
    }
  }

  lemma ErasuresFound(d: seq<Byte>, pad: nat, eras: seq<nat>, fcr: nat, nroots: nat, pos: seq<nat>, w: seq<Byte>)
    requires Found(d, pad, eras, fcr, nroots, pos, w)
    ensures forall q :: q in eras ==> q in pos
    ensures |pos| <= FinalLength(SyndromesOf(d, fcr, nroots), Locations(eras)) <= nroots
  {
    hide Eval, Locator, FinalLength, FinalLocator, Generates, Shortest, Matches;
    var s, es := SyndromesOf(d, fcr, nroots), Locations(eras);
    var p := FinalLocator(s, es);
    FinalSolves(s, es, fcr);
    LocatorDegree(Locations(pos), |p|);
    forall q | q in eras ensures q in pos {
      var l :| 0 <= l < |eras| && eras[l] == q;
      assert Eval(p, 255 - es[l]) == ZERO;
      PositionIsRoot(p, pos, q);
    }
  }

  /** What the corrections change, erasures included, is no more than the positions. */
  lemma ChangesFound(d: seq<Byte>, pad: nat, eras: seq<nat>, fcr: nat, nroots: nat, pos: seq<nat>, w: seq<Byte>)
    requires Found(d, pad, eras, fcr, nroots, pos, w)
    ensures |eras| + |Unknown(Without(d, w, pad), d, pad, eras)| <= |pos|
  {
    hide Xor, FinalLocator, IsLocator, FinalLength;
    ErasuresDistinct(d, pad, eras, fcr, nroots, pos, w);
    var f := Without(d, w, pad);
    var all := ErrorPositions(f, d, pad, eras);
    ErasuresFound(d, pad, eras, fcr, nroots, pos, w);
    forall q | q in all ensures q in pos {
      var l :| 0 <= l < |all| && all[l] == q;
      if l < |eras| {
        assert all[..|eras|][l] == q;
      } else {
        XorZero(d[q - pad]);
      }
    }
    DistinctCount(all);
    DistinctCount(pos);
    SubsetSize(Elements(all), Elements(pos));
  }

  /** The syndromes of the corrected word, when w has all syndromes of the received one. */
  lemma SynWithout(d: seq<Byte>, w: seq<Byte>, pad: nat, e: nat)
    requires pad <= |w| && |w| == pad + |d| && Syn(w, e) == Syn(d, e)
    ensures Syn(Without(d, w, pad), e) == Scale(e * |d|, Syn(w[..pad], e))
  {
    hide Scale, Xor, Syn;
    assert w == w[..pad] + w[pad..];
    SynAppend(w[..pad], w[pad..], e);
    SynAddWords(d, w[pad..], e);
    XorTaken(Scale(e * |d|, Syn(w[..pad], e)), Syn(w[pad..], e));
  }

  lemma XorTaken(a: Byte, b: Byte)
    ensures Xor(Xor(a, b), b) == a
  {}

  lemma NothingBelowIff(d: seq<Byte>, w: seq<Byte>, pad: nat, pos: seq<nat>, fcr: nat, nroots: nat)
    requires pad < 255 && |d| == 255 - pad && WordOn(w, pos) && |pos| <= nroots
    requires SyndromesOf(w, fcr, nroots) == SyndromesOf(d, fcr, nroots)
    ensures IsCodeword(Without(d, w, pad), fcr, nroots) <==> ZeroBelow(w, pad)
  {
    hide Scale, Xor, Syn, Without;
    var f := Without(d, w, pad);
    forall e: nat | fcr <= e < fcr + nroots ensures Syn(f, e) == ZERO <==> Syn(w[..pad], e) == ZERO {
      assert SyndromesOf(w, fcr, nroots)[e - fcr] == SyndromesOf(d, fcr, nroots)[e - fcr];
      SynWithout(d, w, pad, e);
      ScaleNonzero(e * |d|, Syn(w[..pad], e));
      ScaleZero(e * |d|);
    }
    if IsCodeword(f, fcr, nroots) {
      ElementsCount(pos);
      BchBound(w[..pad], fcr, nroots, Elements(pos));
    } else if ZeroBelow(w, pad) {
      forall e: nat | fcr <= e < fcr + nroots ensures Syn(f, e) == ZERO {
        SynOfZeros(w[..pad], e);
      }
    }
  }

  /**
    When a success is one, for every received word: the corrected word is a codeword if and only if
    the degree of the locator is the length that the loop ended with and no error value lies in
    front of the word.
   */
  lemma SuccessExactly(d: seq<Byte>, pad: nat, eras: seq<nat>, fcr: nat, nroots: nat, pos: seq<nat>, w: seq<Byte>)
    requires Found(d, pad, eras, fcr, nroots, pos, w)
    ensures IsCodeword(Without(d, w, pad), fcr, nroots)
            <==> |pos| == FinalLength(SyndromesOf(d, fcr, nroots), Locations(eras)) && ZeroBelow(w, pad)
  {
    hide Syn, IsCodeword, Without, ZeroBelow, Locator, FinalLength, FinalLocator, Unknown, VanishesAt, Shortest,
         Generates;
    var s, es := SyndromesOf(d, fcr, nroots), Locations(eras);
    var f := Without(d, w, pad);
    ErasuresDistinct(d, pad, eras, fcr, nroots, pos, w);
    ErasuresFound(d, pad, eras, fcr, nroots, pos, w);
    if IsCodeword(f, fcr, nroots) {
      LengthAtMostErrors(f, d, pad, eras, fcr, nroots);
      ChangesFound(d, pad, eras, fcr, nroots, pos, w);
    }
    if |pos| == FinalLength(s, es) {
      FinalSolves(s, es, fcr);
      AllSyndromesMatch(w, pos, s, fcr, FinalLocator(s, es));
      NothingBelowIff(d, w, pad, pos, fcr, nroots);
    }
  }

  /** And if it is one, no codeword is nearer to the received word, erased symbols not counted. */
  lemma NoNearerCodeword(d: seq<Byte>, pad: nat, eras: seq<nat>, fcr: nat, nroots: nat, pos: seq<nat>, w: seq<Byte>,
                         c: seq<Byte>)
    requires Found(d, pad, eras, fcr, nroots, pos, w)
    requires IsCodeword(Without(d, w, pad), fcr, nroots)
    requires |c| == |d| && IsCodeword(c, fcr, nroots)
    ensures |Unknown(Without(d, w, pad), d, pad, eras)| <= |Unknown(c, d, pad, eras)|
  {
    hide Syn, IsCodeword, Without, ZeroBelow, Locator, FinalLength, FinalLocator, Unknown, IsLocator, Matches;
    ErasuresDistinct(d, pad, eras, fcr, nroots, pos, w);
    SuccessExactly(d, pad, eras, fcr, nroots, pos, w);
    ChangesFound(d, pad, eras, fcr, nroots, pos, w);
    LengthAtMostErrors(c, d, pad, eras, fcr, nroots);
  }

  //////////////////////////////////////////////////////////////////////////////
  //
  // Within the distance
  //
  //////////////////////////////////////////////////////////////////////////////

  /** The decoder succeeds. */
  lemma DecodableSucceeds(c: seq<Byte>, d: seq<Byte>, pad: nat, eras: seq<nat>, fcr: nat, nroots: nat)
      returns (pos: seq<nat>)
    requires Decodable(c, d, pad, eras, fcr, nroots)
    ensures IsLocator(FinalLocator(SyndromesOf(d, fcr, nroots), Locations(eras)), pos)
    ensures |pos| == |eras| + |Unknown(c, d, pad, eras)| && pos[..|eras|] == eras
    ensures forall l :: |eras| <= l < |pos| ==> pos[l] >= pad && pos[l] - pad in Unknown(c, d, pad, eras)
    ensures WordOn(Difference(c, d, pad), pos)
  {
    hide IsCodeword, Unknown, Difference, Explains, FinalLocator, Locator;
    pos := ErrorPattern(c, d, pad, eras, fcr, nroots);
    LoopResult(Locations(pos), Values(Difference(c, d, pad), pos), Locations(eras), SyndromesOf(d, fcr, nroots), fcr);
  }

  /** All positions at which decoding changes the received word or was told an erasure. */
  ghost predicate IsCorrectedPosition(p: nat, c: seq<Byte>, d: seq<Byte>, pad: nat, eras: seq<nat>)
    requires |c| == |d|
  {
    p in eras || (p >= pad && p - pad in Unknown(c, d, pad, eras))
  }

  lemma PatternPositions(c: seq<Byte>, d: seq<Byte>, pad: nat, eras: seq<nat>, pos: seq<nat>)
    requires pad < 255 && |c| == |d| == 255 - pad
    requires |eras| <= |pos| && pos[..|eras|] == eras
    requires forall l :: |eras| <= l < |pos| ==> pos[l] >= pad && pos[l] - pad in Unknown(c, d, pad, eras)
    requires WordOn(Difference(c, d, pad), pos)
    ensures forall p: nat :: p in pos <==> IsCorrectedPosition(p, c, d, pad, eras)
  {
    hide Xor, Difference;
    assert pos == eras + pos[|eras|..];
    forall p: nat | p in pos ensures IsCorrectedPosition(p, c, d, pad, eras) {
      if p !in eras {
        var l :| 0 <= l < |pos| && pos[l] == p;
        assert |eras| <= l;
      }
    }
    forall p: nat | IsCorrectedPosition(p, c, d, pad, eras) ensures p in pos {
      if p !in eras {
        XorEqual(d[p - pad], c[p - pad]);
        assert Difference(c, d, pad)[p] != ZERO;
      }
    }
  }

  /** What it finds is the codeword, and the positions of all that was wrong. */
  lemma DecodableFound(c: seq<Byte>, d: seq<Byte>, pad: nat, eras: seq<nat>, fcr: nat, nroots: nat,
                       pos: seq<nat>, w: seq<Byte>)
    requires Decodable(c, d, pad, eras, fcr, nroots) && Found(d, pad, eras, fcr, nroots, pos, w)
    ensures Without(d, w, pad) == c && |pos| == |eras| + |Unknown(c, d, pad, eras)|
    ensures forall p: nat :: p in pos <==> IsCorrectedPosition(p, c, d, pad, eras)
  {
    hide Xor, Syn, Unknown, Difference, FinalLocator, Locator, IsLocator, IsCorrectedPosition;
    var s, v := SyndromesOf(d, fcr, nroots), Difference(c, d, pad);
    var qos := DecodableSucceeds(c, d, pad, eras, fcr, nroots);
    SameLocator(FinalLocator(s, Locations(eras)), pos, qos);
    PatternPositions(c, d, pad, eras, qos);
    forall i | 0 <= i < |pos| ensures Syn(v, fcr + i) == s[i] {
      SynDifference(c, d, pad, fcr + i);
    }
    MatchUnique(v, w, pos, s, fcr);
    forall j | 0 <= j < |d| ensures Without(d, v, pad)[j] == c[j] {
      XorCancel(c[j], d[j]);
    }
  }

  //////////////////////////////////////////////////////////////////////////////
  //
  // What a call of the decoder promises
  //
  //////////////////////////////////////////////////////////////////////////////

  /** What decoding does for the codeword c, when the received word d is within its reach. */
  ghost predicate Recovered(c: seq<Byte>, d: seq<Byte>, pad: nat, eras: seq<nat>, after: seq<Byte>, retval: int,
                            pos: seq<nat>)
  {
    && |c| == |d| && after == c
    && retval == (if d == c then 0 else |eras| + |Unknown(c, d, pad, eras)|)
    && (d != c ==> forall p: nat :: p in pos <==> IsCorrectedPosition(p, c, d, pad, eras))
  }

  /** Within the distance: every codeword that has the received word within its reach is recovered. */
  ghost predicate Corrects(d: seq<Byte>, pad: nat, eras: seq<nat>, fcr: nat, nroots: nat, after: seq<Byte>, retval: int,
                           pos: seq<nat>)
  {
    forall c :: Decodable(c, d, pad, eras, fcr, nroots) ==> Recovered(c, d, pad, eras, after, retval, pos)
  }

  /**
    For all other words: the decoder fails exactly if the loop ends with a polynomial that is no
    locator.  Otherwise it takes away the error values of the positions found, and leaves a codeword
    exactly if their number is the length that the loop ended with and none lies in front of the word.
   */
  ghost predicate Accounts(d: seq<Byte>, pad: nat, eras: seq<nat>, fcr: nat, nroots: nat, after: seq<Byte>, retval: int,
                           pos: seq<nat>, w: seq<Byte>)
    requires |eras| <= nroots && forall l :: 0 <= l < |eras| ==> eras[l] < 255
  {
    var s, es := SyndromesOf(d, fcr, nroots), Locations(eras);
    !IsCodeword(d, fcr, nroots) ==>
      && (retval >= 0 <==> exists qos :: IsLocator(FinalLocator(s, es), qos))
      && (retval >= 0 ==>
            && retval == |pos| && Found(d, pad, eras, fcr, nroots, pos, w) && after == Without(d, w, pad)
            && (IsCodeword(after, fcr, nroots) <==> retval == FinalLength(s, es) && ZeroBelow(w, pad)))
  }

  /** If the result is a codeword, none is nearer to the received word, erased symbols not counted. */
  ghost predicate Nearest(d: seq<Byte>, pad: nat, eras: seq<nat>, fcr: nat, nroots: nat, after: seq<Byte>)
    requires |after| == |d|
  {
    IsCodeword(after, fcr, nroots) ==>
      forall c :: |c| == |d| && IsCodeword(c, fcr, nroots) ==>
        |Unknown(after, d, pad, eras)| <= |Unknown(c, d, pad, eras)|
  }

  lemma CodewordDecoded(d: seq<Byte>, pad: nat, eras: seq<nat>, fcr: nat, nroots: nat, pos: seq<nat>, w: seq<Byte>)
    requires IsCodeword(d, fcr, nroots) && |eras| <= nroots && forall l :: 0 <= l < |eras| ==> eras[l] < 255
    ensures Corrects(d, pad, eras, fcr, nroots, d, 0, pos)
    ensures Accounts(d, pad, eras, fcr, nroots, d, 0, pos, w)
    ensures Nearest(d, pad, eras, fcr, nroots, d)
  {
    hide IsCodeword, Decodable;
    forall c | Decodable(c, d, pad, eras, fcr, nroots) ensures Recovered(c, d, pad, eras, d, 0, pos) {
      CodewordWithinReach(c, d, pad, eras, fcr, nroots);
    }
    assert Unknown(d, d, pad, eras) == {};
  }

  lemma FailureDecoded(d: seq<Byte>, pad: nat, eras: seq<nat>, fcr: nat, nroots: nat, pos: seq<nat>, w: seq<Byte>)
    requires !IsCodeword(d, fcr, nroots) && |eras| <= nroots && forall l :: 0 <= l < |eras| ==> eras[l] < 255
    requires !exists qos :: IsLocator(FinalLocator(SyndromesOf(d, fcr, nroots), Locations(eras)), qos)
    ensures Corrects(d, pad, eras, fcr, nroots, d, -1, pos)
    ensures Accounts(d, pad, eras, fcr, nroots, d, -1, pos, w)
    ensures Nearest(d, pad, eras, fcr, nroots, d)
  {
    hide IsCodeword, Decodable, IsLocator, FinalLocator, FinalLength, Recovered;
    forall c ensures !Decodable(c, d, pad, eras, fcr, nroots) {
      if Decodable(c, d, pad, eras, fcr, nroots) {
        var qos := DecodableSucceeds(c, d, pad, eras, fcr, nroots);
      }
    }
  }

  lemma SuccessDecoded(d: seq<Byte>, pad: nat, eras: seq<nat>, fcr: nat, nroots: nat, pos: seq<nat>, w: seq<Byte>)
    requires !IsCodeword(d, fcr, nroots) && Found(d, pad, eras, fcr, nroots, pos, w)
    ensures var f := Without(d, w, pad);
            && Corrects(d, pad, eras, fcr, nroots, f, |pos|, pos)
            && Accounts(d, pad, eras, fcr, nroots, f, |pos|, pos, w)
            && Nearest(d, pad, eras, fcr, nroots, f)
  {
    hide IsCodeword, Decodable, IsLocator, FinalLocator, FinalLength, Matches, Without, ZeroBelow, Unknown,
         IsCorrectedPosition;
    MatchLength(d, pad, eras, fcr, nroots, pos, w);
    var f := Without(d, w, pad);
    forall c | Decodable(c, d, pad, eras, fcr, nroots) ensures Recovered(c, d, pad, eras, f, |pos|, pos) {
      DecodableFound(c, d, pad, eras, fcr, nroots, pos, w);
      DecodableWord(c, d, pad, eras, fcr, nroots);
    }
    SuccessExactly(d, pad, eras, fcr, nroots, pos, w);
    if IsCodeword(f, fcr, nroots) {
      forall c | |c| == |d| && IsCodeword(c, fcr, nroots)
        ensures |Unknown(f, d, pad, eras)| <= |Unknown(c, d, pad, eras)|
      {
        NoNearerCodeword(d, pad, eras, fcr, nroots, pos, w, c);
      }
    }
  }

  lemma DecodableWord(c: seq<Byte>, d: seq<Byte>, pad: nat, eras: seq<nat>, fcr: nat, nroots: nat)
    requires Decodable(c, d, pad, eras, fcr, nroots)
    ensures |c| == |d| && IsCodeword(c, fcr, nroots)
  {}

  lemma MatchLength(d: seq<Byte>, pad: nat, eras: seq<nat>, fcr: nat, nroots: nat, pos: seq<nat>, w: seq<Byte>)
    requires Found(d, pad, eras, fcr, nroots, pos, w)
    ensures pad <= |w| == pad + |d|
  {}

  //////////////////////////////////////////////////////////////////////////////
  //
  // A success that is none
  //
  //////////////////////////////////////////////////////////////////////////////

  /** For every length that has room there are received words whose first syndrome alone is not zero. */
  lemma GivenUpWord(length: nat, fcr: nat, nroots: nat) returns (d: seq<Byte>)
    requires 2 <= nroots <= length <= 255
    ensures |d| == length && OnlyFirst(SyndromesOf(d, fcr, nroots)) && !IsCodeword(d, fcr, nroots)
  {
    hide Syn;
    d := WordWithSyndromes(length, fcr, Range(0, nroots), [ONE] + Zeros(nroots - 1));
    assert SyndromesOf(d, fcr, nroots)[0] == ONE;
    assert Syn(d, fcr) != ZERO;
  }

  /** Such a word is left as it is, and reported to be without errors. */
  lemma GivenUpDecoded(d: seq<Byte>, pad: nat, eras: seq<nat>, fcr: nat, nroots: nat, pos: seq<nat>, w: seq<Byte>)
    requires |eras| == 0 && OnlyFirst(SyndromesOf(d, fcr, nroots))
    ensures exists qos :: IsLocator(FinalLocator(SyndromesOf(d, fcr, nroots), Locations(eras)), qos)
    ensures Found(d, pad, eras, fcr, nroots, pos, w) ==> pos == [] && Without(d, w, pad) == d
  {
    hide Syn, OnlyFirst, FinalLocator, Locator, Xor, IsLocator;
    var s := SyndromesOf(d, fcr, nroots);
    assert Locations(eras) == [];
    GivenUp(s);
    EmptyLocator(nroots + 1);
    if Found(d, pad, eras, fcr, nroots, pos, w) {
      SameLocator(FinalLocator(s, []), pos, []);
      forall j | 0 <= j < |d| ensures Without(d, w, pad)[j] == d[j] {
        XorZero(d[j]);
      }
    }
  }

  lemma EmptyLocator(n: nat)
    requires n > 0
    ensures IsLocator(Locator([], n), [])
  {
    hide Locator;
    assert Locations([]) == [];
  }
}
