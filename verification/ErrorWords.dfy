/**
  Error lists and error words: what a received word and a codeword say about each other, and what the
  decoder makes of a received word, within the distance of the code and beyond it.
 */
module ErrorWords {
  import opened Bytes
  import opened Counting
  import opened Galois
  import opened Field
  import opened Code
  import opened Erasures
  import opened Massey

  //////////////////////////////////////////////////////////////////////////////
  //
  // Positions and their locator
  //
  //////////////////////////////////////////////////////////////////////////////

  /** The location exponents of positions in the full-length word. */
  function Locations(pos: seq<nat>): (xs: seq<nat>)
    requires forall l :: 0 <= l < |pos| ==> pos[l] < 255
    ensures |xs| == |pos| && forall l :: 0 <= l < |pos| ==> xs[l] == 254 - pos[l]
  {
    seq(|pos|, l requires 0 <= l < |pos| => 254 - pos[l])
  }

  /** Positions in the full-length word, without repetition. */
  ghost predicate Positions(pos: seq<nat>) {
    && (forall l :: 0 <= l < |pos| ==> pos[l] < 255)
    && (forall l, m :: 0 <= l < m < |pos| ==> pos[l] != pos[m])
  }

  lemma PositionsDistinct(pos: seq<nat>)
    requires Positions(pos)
    ensures DistinctLocations(Locations(pos))
  {}

  /** The exponents at which the locator of these positions vanishes. */
  function Successors(pos: seq<nat>): (es: seq<nat>)
    ensures |es| == |pos| && forall l :: 0 <= l < |pos| ==> es[l] == pos[l] + 1
  {
    seq(|pos|, l requires 0 <= l < |pos| => pos[l] + 1)
  }

  lemma LocatorVanishes(pos: seq<nat>, n: nat, e: nat)
    requires Positions(pos) && |pos| < n && 1 <= e <= 255
    ensures Eval(Locator(Locations(pos), n), e) == ZERO <==> e in Successors(pos)
  {
    hide Locator, Eval;
    var xs := Locations(pos);
    LocatorRoots(xs, n, e);
    if l :| 0 <= l < |xs| && Inverse(xs[l], e) {
      InverseIs(xs[l], e);
      assert Successors(pos)[l] == e;
    }
    if l :| 0 <= l < |pos| && Successors(pos)[l] == e {
      assert Inverse(xs[l], e);
    }
  }

  lemma InverseIs(x: nat, e: nat)
    requires x < 255 && 1 <= e <= 255 && Inverse(x, e)
    ensures e == 255 - x
  {}

  /** p is the locator of these positions. */
  ghost predicate IsLocator(p: seq<Byte>, pos: seq<nat>) {
    Positions(pos) && |pos| < |p| && p == Locator(Locations(pos), |p|)
  }

  /** A locator determines its positions, up to their order. */
  lemma SameLocator(p: seq<Byte>, pos: seq<nat>, qos: seq<nat>)
    requires IsLocator(p, pos) && IsLocator(p, qos)
    ensures |pos| == |qos| && forall q: nat :: q in pos <==> q in qos
  {
    hide Locator, Eval, Locations;
    LocatorDegree(Locations(pos), |p|);
    LocatorDegree(Locations(qos), |p|);
    forall q: nat ensures q in pos <==> q in qos {
      PositionIsRoot(p, pos, q);
      PositionIsRoot(p, qos, q);
    }
  }

  lemma PositionIsRoot(p: seq<Byte>, pos: seq<nat>, q: nat)
    requires IsLocator(p, pos)
    ensures q in pos <==> q < 255 && Eval(p, q + 1) == ZERO
  {
    hide Locator, Eval, Locations;
    if q < 255 {
      LocatorVanishes(pos, |p|, q + 1);
      InSuccessors(pos, q);
    }
  }

  lemma InSuccessors(pos: seq<nat>, q: nat)
    ensures q in pos <==> q + 1 in Successors(pos)
  {
    if l :| 0 <= l < |pos| && pos[l] == q {
      assert Successors(pos)[l] == q + 1;
    }
  }

  //////////////////////////////////////////////////////////////////////////////
  //
  // What the decoder can correct
  //
  //////////////////////////////////////////////////////////////////////////////

  /** The positions where the received word is wrong and no erasure says so. */
  ghost function Unknown(c: seq<Byte>, d: seq<Byte>, pad: nat, eras: seq<nat>): (s: set<nat>)
    requires |c| == |d|
    ensures forall j: nat :: j in s <==> j < |c| && c[j] != d[j] && j + pad !in eras
  {
    set j: nat | j < |c| && c[j] != d[j] && j + pad !in eras
  }

  /** Two per unknown error and one per erasure must not exceed the number of roots. */
  ghost predicate Decodable(c: seq<Byte>, d: seq<Byte>, pad: nat, eras: seq<nat>, fcr: nat, nroots: nat) {
    && pad < 255 && |c| == |d| == 255 - pad
    && IsCodeword(c, fcr, nroots)
    && Positions(eras)
    && 2 * |Unknown(c, d, pad, eras)| + |eras| <= nroots
  }

  lemma {:induction false} ListOf(s: set<nat>) returns (l: seq<nat>)
    ensures |l| == |s| && forall x :: x in l <==> x in s
    ensures forall i, j :: 0 <= i < j < |l| ==> l[i] != l[j]
    decreases s
  {
    if s == {} {
      l := [];
    } else {
      var x :| x in s;
      var t := ListOf(s - {x});
      l := t + [x];
    }
  }

  /** The word of all differences, in full length. */
  ghost function Difference(c: seq<Byte>, d: seq<Byte>, pad: nat): (w: seq<Byte>)
    requires |c| == |d|
    ensures |w| == pad + |c|
    ensures forall p :: 0 <= p < |w| ==> w[p] == if p < pad then ZERO else Xor(d[p - pad], c[p - pad])
  {
    Zeros(pad) + AddWords(d, c)
  }

  lemma SynDifference(c: seq<Byte>, d: seq<Byte>, pad: nat, e: nat)
    requires |c| == |d| && Syn(c, e) == ZERO
    ensures Syn(Difference(c, d, pad), e) == Syn(d, e)
  {
    hide Scale, Xor, Syn, AddWords;
    SynAppend(Zeros(pad), AddWords(d, c), e);
    SynOfZeros(Zeros(pad), e);
    ScaleZero(e * |AddWords(d, c)|);
    SynAddWords(d, c, e);
    XorZero(Syn(d, e));
  }

  function Shifted(list: seq<nat>, pad: nat): (r: seq<nat>)
    ensures |r| == |list| && forall i :: 0 <= i < |list| ==> r[i] == list[i] + pad
  {
    seq(|list|, i requires 0 <= i < |list| => list[i] + pad)
  }

  /** Lists the wrong positions of the full-length word: erasures first, unknown errors after them. */
  lemma ErrorPositions(c: seq<Byte>, d: seq<Byte>, pad: nat, eras: seq<nat>) returns (pos: seq<nat>)
    requires pad < 255 && |c| == |d| == 255 - pad && Positions(eras)
    ensures |pos| == |eras| + |Unknown(c, d, pad, eras)| && pos[..|eras|] == eras
    ensures Positions(pos)
    ensures forall l :: |eras| <= l < |pos| ==> pos[l] >= pad && pos[l] - pad in Unknown(c, d, pad, eras)
    ensures forall j :: 0 <= j < |c| && d[j] != c[j] ==> j + pad in pos
  {
    var list := ListOf(Unknown(c, d, pad, eras));
    pos := eras + Shifted(list, pad);
    forall i | 0 <= i < |list| ensures list[i] in Unknown(c, d, pad, eras) {
      assert list[i] in list;
    }
    ConcatPositions(eras, list, pad);
    forall j | 0 <= j < |c| && d[j] != c[j] ensures j + pad in pos {
      if j + pad !in eras {
        assert j in list;
        ShiftedIn(eras, list, pad, j);
      }
    }
  }

  lemma ConcatPositions(eras: seq<nat>, list: seq<nat>, pad: nat)
    requires Positions(eras)
    requires forall i :: 0 <= i < |list| ==> list[i] + pad < 255 && list[i] + pad !in eras
    requires forall i, j :: 0 <= i < j < |list| ==> list[i] != list[j]
    ensures Positions(eras + Shifted(list, pad))
  {
    var pos := eras + Shifted(list, pad);
    forall l, m | 0 <= l < m < |pos| ensures pos[l] != pos[m] {
      if l < |eras| <= m {
        assert list[m - |eras|] + pad != eras[l];
      }
    }
  }

  lemma ShiftedIn(eras: seq<nat>, list: seq<nat>, pad: nat, j: nat)
    requires j in list
    ensures j + pad in eras + Shifted(list, pad)
  {
    var l :| 0 <= l < |list| && list[l] == j;
    assert (eras + Shifted(list, pad))[|eras| + l] == j + pad;
  }

  function SyndromesOf(d: seq<Byte>, fcr: nat, n: nat): (s: seq<Byte>)
    ensures |s| == n && forall i :: 0 <= i < n ==> s[i] == Syn(d, fcr + i)
  {
    seq(n, i requires 0 <= i < n => Syn(d, fcr + i))
  }

  /** What the word w has at the positions pos. */
  function Values(w: seq<Byte>, pos: seq<nat>): (ys: seq<Byte>)
    requires forall l :: 0 <= l < |pos| ==> pos[l] < |w|
    ensures |ys| == |pos| && forall l :: 0 <= l < |pos| ==> ys[l] == w[pos[l]]
  {
    seq(|pos|, l requires 0 <= l < |pos| => w[pos[l]])
  }

  /** A full-length word that is zero outside these positions. */
  ghost predicate WordOn(w: seq<Byte>, pos: seq<nat>) {
    |w| == 255 && forall q :: 0 <= q < 255 && w[q] != ZERO ==> q in pos
  }

  lemma WordOfValues(w: seq<Byte>, pos: seq<nat>)
    requires Positions(pos) && WordOn(w, pos)
    ensures ErrorWord(Locations(pos), Values(w, pos)) == w
  {
    hide ErrorWord;
    var xs, ys := Locations(pos), Values(w, pos);
    PositionsDistinct(pos);
    ErrorWordAt(xs, ys);
    forall p | 0 <= p < 255 ensures ErrorWord(xs, ys)[p] == w[p] {
      if l :| 0 <= l < |pos| && pos[l] == p {
        assert ErrorWord(xs, ys)[254 - xs[l]] == ys[l];
      } else {
        assert 254 - p !in xs;
      }
    }
  }

  lemma WordSyndrome(w: seq<Byte>, pos: seq<nat>, e: nat)
    requires Positions(pos) && WordOn(w, pos)
    ensures ErrorSyn(Locations(pos), Values(w, pos), e) == Syn(w, e)
  {
    hide Syn, ErrorSyn, ErrorWord;
    PositionsDistinct(pos);
    WordOfValues(w, pos);
    SynErrorWord(Locations(pos), Values(w, pos), e);
  }

  /** A word with the syndromes of d explains them by its values at positions that cover it. */
  lemma WordExplains(w: seq<Byte>, pos: seq<nat>, eras: seq<nat>, d: seq<Byte>, fcr: nat, nroots: nat)
    requires Positions(pos) && WordOn(w, pos) && |eras| <= |pos| && pos[..|eras|] == eras
    requires SyndromesOf(w, fcr, nroots) == SyndromesOf(d, fcr, nroots)
    ensures forall l :: 0 <= l < |eras| ==> eras[l] < 255
    ensures Explains(Locations(pos), Values(w, pos), Locations(eras), SyndromesOf(d, fcr, nroots), fcr)
  {
    hide Syn, ErrorSyn;
    var s, xs, ys := SyndromesOf(w, fcr, nroots), Locations(pos), Values(w, pos);
    PositionsDistinct(pos);
    forall i | 0 <= i < nroots ensures s[i] == ErrorSyn(xs, ys, fcr + i) {
      WordSyndrome(w, pos, fcr + i);
    }
    assert s == ErrorSyndromes(xs, ys, fcr, nroots);
    forall l | 0 <= l < |eras| ensures eras[l] < 255 && xs[l] == 254 - eras[l] {
      assert pos[..|eras|][l] == pos[l];
    }
    assert xs[..|eras|] == Locations(eras);
  }

  /** The error list that the received word and any codeword determine explains the syndromes. */
  lemma ErrorPattern(c: seq<Byte>, d: seq<Byte>, pad: nat, eras: seq<nat>, fcr: nat, nroots: nat)
      returns (pos: seq<nat>)
    requires pad < 255 && |c| == |d| == 255 - pad && IsCodeword(c, fcr, nroots) && Positions(eras)
    ensures |pos| == |eras| + |Unknown(c, d, pad, eras)| && pos[..|eras|] == eras
    ensures Positions(pos) && WordOn(Difference(c, d, pad), pos)
    ensures forall l :: |eras| <= l < |pos| ==> pos[l] >= pad && pos[l] - pad in Unknown(c, d, pad, eras)
    ensures var ys := Values(Difference(c, d, pad), pos);
            && Explains(Locations(pos), ys, Locations(eras), SyndromesOf(d, fcr, nroots), fcr)
            && forall l :: |eras| <= l < |pos| ==> ys[l] != ZERO
  {
    hide Xor, Syn, Difference, Unknown, Explains;
    pos := ErrorPositions(c, d, pad, eras);
    var w := Difference(c, d, pad);
    DifferenceOn(c, d, pad, pos);
    forall i | 0 <= i < nroots ensures SyndromesOf(w, fcr, nroots)[i] == SyndromesOf(d, fcr, nroots)[i] {
      SynDifference(c, d, pad, fcr + i);
    }
    assert SyndromesOf(w, fcr, nroots) == SyndromesOf(d, fcr, nroots);
    WordExplains(w, pos, eras, d, fcr, nroots);
    forall l | |eras| <= l < |pos| ensures w[pos[l]] != ZERO {
      XorEqual(d[pos[l] - pad], c[pos[l] - pad]);
    }
  }

  lemma DifferenceOn(c: seq<Byte>, d: seq<Byte>, pad: nat, pos: seq<nat>)
    requires pad < 255 && |c| == |d| == 255 - pad
    requires forall j :: 0 <= j < |c| && d[j] != c[j] ==> j + pad in pos
    ensures WordOn(Difference(c, d, pad), pos)
  {
    hide Xor, Difference;
    forall q | 0 <= q < 255 && Difference(c, d, pad)[q] != ZERO ensures q in pos {
      XorEqual(d[q - pad], c[q - pad]);
    }
  }

  /** A codeword within reach of another one is that codeword. */
  lemma CodewordWithinReach(c: seq<Byte>, d: seq<Byte>, pad: nat, eras: seq<nat>, fcr: nat, nroots: nat)
    requires Decodable(c, d, pad, eras, fcr, nroots)
    requires IsCodeword(d, fcr, nroots)
    ensures d == c
  {
    hide Syn, Unknown;
    var pos := ErrorPositions(c, d, pad, eras);
    var places := seq(|pos|, l requires 0 <= l < |pos| => if pos[l] >= pad then pos[l] - pad else 0);
    ElementsCount(places);
    forall j: nat | j < |d| && d[j] != c[j] ensures j in Elements(places) {
      var l :| 0 <= l < |pos| && pos[l] == j + pad;
      assert places[l] == j;
    }
    MinimumDistance(d, c, fcr, nroots, Elements(places));
  }

}
