/** For which m the packets tell how long the AF packet was. */
module Ambiguity {
  import opened Arithmetic
  import opened Bytes
  import opened Code
  import opened PacketLayout
  import opened Pft
  import opened Recovery
  import opened Transport

  /** Both AF packets can be sent, and they travel in the same packets. */
  ghost predicate SameTraffic(a: seq<Byte>, b: seq<Byte>, k: nat, m: nat, pseq: nat) {
    && Transmissible(|a|, k, m) && Transmissible(|b|, k, m) && pseq < 0x10000
    && PacketsOf(a, k, m, pseq) == PacketsOf(b, k, m, pseq)
  }

  ghost predicate Unambiguous(m: nat) {
    forall a, b, k, pseq :: SameTraffic(a, b, k, m, pseq) ==> a == b
  }

  /** Nothing is lost, so the packets say everything but the length. */
  lemma SamePackets(a: seq<Byte>, b: seq<Byte>, k: nat, m: nat, pseq: nat)
    requires SameTraffic(a, b, k, m, pseq) && m > 0
    requires m < PARITYBYTES || |a| == |b|
    ensures a == b
  {
    hide MaxPayload, NumFragments, FragmentSize, NumChunks, ChunkLen, ZeroPad, PacketsOf;
    TransportTolerance(a, b, k, m, pseq, {});
  }

  //////////////////////////////////////////////////////////////////////////////
  //
  // Two lengths with the same sizes
  //
  //////////////////////////////////////////////////////////////////////////////

  /** With chunks of one byte: a number of fragments above 49 (m + 1) / 48. */
  function Fragments(m: nat): nat {
    49 * (m + 1) / 48 + 1
  }

  /** How many bytes of the AF packet every fragment stands for when all are full. */
  function Rounds(m: nat): nat {
    var t := 48 * Fragments(m) - 49 * (m + 1);
    if m == 95 then 3 else if t >= 24 then 2 else CeilDiv(48, t)
  }

  /** How many bytes may be missing at the end without a change of any size. */
  function Missing(m: nat): nat {
    if m == 95 then 2 else 1
  }

  function ShortLength(m: nat): nat {
    Rounds(m) * Fragments(m) - Missing(m)
  }

  lemma CeilDivUnique(x: nat, b: nat, q: nat)
    requires b > 0 && q > 0 && (q - 1) * b < x <= q * b
    ensures CeilDiv(x, b) == q
  {
    hide CeilDiv;
    CeilDivBounds(x, b);
    CeilDivLeast(x, b, q);
    if CeilDiv(x, b) < q {
      MulMonotone(CeilDiv(x, b), q - 1, b);
    }
  }

  /** The sizes for an AF packet of l bytes in chunks of one byte. */
  predicate Sizes(m: nat, l: nat, f: nat, size: nat) {
    && l > 0 && NumChunks(l, 1) == l && ChunkLen(l, 1) == 1 && ZeroPad(l, 1) == 0
    && MaxPayload(l, 1, m) > 0 && NumFragments(l, 1, m) == f && FragmentSize(l, 1, m) == size
  }

  /** When e bytes are missing to g full rounds over f fragments: the payload limit. */
  lemma RoundPayload(m1: nat, f: nat, g: nat, e: nat, a: nat, r: nat)
    requires r < m1 && g * (48 * f - 49 * m1) - 48 * e == a * m1 + r && g * f >= e
    ensures (g * f - e) * 48 / m1 == 49 * g + a
  {
    assert g * (48 * f - 49 * m1) == 48 * (g * f) - 49 * (g * m1);
    assert (49 * g + a) * m1 == 49 * (g * m1) + a * m1;
    DivModUnique((g * f - e) * 48, m1, 49 * g + a, r);
  }

  /** And the bounds on the number of fragments and their size. */
  lemma RoundBounds(f: nat, g: nat, e: nat, a: nat)
    requires f > 0 && e < g && 49 * e < f && a * (f - 1) < 49 * (g - e)
    ensures (f - 1) * (49 * g + a) < 49 * (g * f - e) <= f * (49 * g + a)
    ensures (49 * g - 1) * f < 49 * (g * f - e) <= 49 * g * f
  {
    assert f * (49 * g + a) == 49 * (g * f) + f * a;
    assert (f - 1) * (49 * g + a) == 49 * (g * f) - 49 * g + a * (f - 1);
    assert (49 * g - 1) * f == 49 * (g * f) - f;
  }

  lemma RoundSizes(m: nat, f: nat, g: nat, e: nat, a: nat, r: nat)
    requires f > 0 && e < g && 49 * e < f && r < m + 1
    requires g * (48 * f - 49 * (m + 1)) - 48 * e == a * (m + 1) + r
    requires a * (f - 1) < 49 * (g - e)
    ensures g * f > e && Sizes(m, g * f - e, f, 49 * g)
  {
    hide CeilDiv;
    MulMonotone(1, g, f);
    Swap(f, g);
    MulMonotone(1, f, g);
    RoundPayload(m + 1, f, g, e, a, r);
    RoundBounds(f, g, e, a);
    var l := g * f - e;
    ExactQuotient(l, 1);
    ExactQuotient(1, l);
    CeilDivUnique(l * 49, 49 * g + a, f);
    CeilDivUnique(l * 49, f, 49 * g);
  }

  lemma AmbiguousSizes(m: nat)
    requires m >= PARITYBYTES
    ensures 2 <= Rounds(m) <= 48 && 0 < Missing(m) < Rounds(m) * Fragments(m)
    ensures Sizes(m, ShortLength(m), Fragments(m), 49 * Rounds(m))
    ensures Sizes(m, ShortLength(m) + Missing(m), Fragments(m), 49 * Rounds(m))
  {
    hide Sizes, Rounds, Fragments;
    var f, g := Fragments(m), Rounds(m);
    var t := 48 * f - 49 * (m + 1);
    RoundsBounds(m, f, t, g);
    if m == 95 {
      RoundSizes(m, f, g, 0, 1, 48);
      RoundSizes(m, f, g, 2, 0, 48);
    } else {
      FullRounds(m, f, g, t);
      RoundSizes(m, f, g, 1, 0, g * t - 48);
    }
  }

  lemma FullRounds(m: nat, f: nat, g: nat, t: nat)
    requires m >= PARITYBYTES && t == 48 * f - 49 * (m + 1) && f > 0 && g >= 2 && g * t <= 96
    requires g * t >= m + 1 ==> f - 1 < 49 * g
    ensures Sizes(m, g * f, f, 49 * g)
  {
    hide Sizes;
    if g * t >= m + 1 {
      RoundSizes(m, f, g, 0, 1, g * t - (m + 1));
    } else {
      RoundSizes(m, f, g, 0, 0, g * t);
    }
  }

  lemma RoundsBounds(m: nat, f: nat, t: int, g: nat)
    requires m >= PARITYBYTES && f == Fragments(m) && g == Rounds(m) && t == 48 * f - 49 * (m + 1)
    ensures 1 <= t <= 48 && 51 <= f && 2 <= g <= 48
    ensures m == 95 ==> f == 99 && t == 48 && g == 3
    ensures m != 95 ==> 48 <= g * t <= 96
    ensures m != 95 && g * t >= m + 1 ==> f - 1 < 49 * g
  {
    hide CeilDiv;
    if m != 95 && t < 24 {
      CeilDivBounds(48, t);
      CeilDivLeast(48, t, 48);
      if g == 1 {}
      assert (g - 1) * t == g * t - t;
    }
  }

  //////////////////////////////////////////////////////////////////////////////
  //
  // Zero bytes at the end that do not show
  //
  //////////////////////////////////////////////////////////////////////////////

  /** The first i blocks depend on the first i bytes only. */
  lemma {:induction false} SameBlocks(a: seq<Byte>, d: nat, i: nat)
    requires i <= |a|
    ensures Blocks(a + Zeros(d), 1, |a| + d, i) == Blocks(a, 1, |a|, i)
  {
    hide ProtectedChunk;
    var b := a + Zeros(d);
    if i > 0 {
      SameBlocks(a, d, i - 1);
      assert ChunkAt(a, 1, |a|, i - 1) == ChunkAt(b, 1, |b|, i - 1);
    }
  }

  /** Zero bytes behind them make zero blocks. */
  lemma {:induction false} ZeroBlocks(a: seq<Byte>, d: nat, i: nat)
    requires i <= d
    ensures Blocks(a + Zeros(d), 1, |a| + d, |a| + i) == Blocks(a, 1, |a|, |a|) + Zeros(49 * i)
  {
    hide ProtectedChunk, Blocks;
    var b := a + Zeros(d);
    if i == 0 {
      SameBlocks(a, d, |a|);
    } else {
      ZeroBlocks(a, d, i - 1);
      ZeroChunk(1);
      LastBlock(b, |a| + i);
      assert ChunkAt(b, 1, |b|, |a| + (i - 1)) == Zeros(1);
      assert ProtectedChunk(Zeros(1)) == Zeros(49);
      MoreZeros(Blocks(a, 1, |a|, |a|), 49 * (i - 1), 49);
    }
  }

  lemma MoreZeros(x: seq<Byte>, m: nat, n: nat)
    ensures (x + Zeros(m)) + Zeros(n) == x + Zeros(m + n)
  {}

  lemma LastBlock(b: seq<Byte>, i: nat)
    requires 0 < i <= |b|
    ensures Blocks(b, 1, |b|, i) == Blocks(b, 1, |b|, i - 1) + ProtectedChunk(ChunkAt(b, 1, |b|, i - 1))
  {
    hide ProtectedChunk;
  }

  lemma SameInterleaving(x: seq<Byte>, z: nat, f: nat, size: nat)
    ensures Interleave(x, f, size) == Interleave(x + Zeros(z), f, size)
  {
    var y := x + Zeros(z);
    forall i: nat | i < f ensures Fragment(x, f, size, i) == Fragment(y, f, size, i) {
      forall j: nat | j < size ensures FragmentByte(x, f, i, j) == FragmentByte(y, f, i, j) {}
      assert Fragment(x, f, size, i) == Fragment(y, f, size, i);
    }
  }

  lemma BlockOfBytes(a: seq<Byte>, d: nat)
    requires a != [] && NumChunks(|a|, 1) == |a| && NumChunks(|a| + d, 1) == |a| + d
    requires ChunkLen(|a|, 1) == 1 == ChunkLen(|a| + d, 1)
    ensures RsBlock(a + Zeros(d), 1) == RsBlock(a, 1) + Zeros(49 * d)
  {
    hide ProtectedChunk, NumChunks, ChunkLen, Blocks;
    var b := a + Zeros(d);
    assert Padded(a, 1) == a && Padded(b, 1) == b;
    ZeroBlocks(a, d, d);
  }

  /**
    From m = 48 on the packets do not tell the length: with chunks of one byte, any AF packet of
    this length and the same packet with zero bytes behind it travel in the same packets.
   */
  lemma LengthNotDetermined(a: seq<Byte>, m: nat, pseq: nat)
    requires m >= PARITYBYTES && |a| == ShortLength(m)
    ensures a != [] && Missing(m) > 0 && MaxPayload(|a|, 1, m) > 0 && MaxPayload(|a| + Missing(m), 1, m) > 0
    ensures PacketsOf(a, 1, m, pseq) == PacketsOf(a + Zeros(Missing(m)), 1, m, pseq)
  {
    hide MaxPayload, NumFragments, FragmentSize, NumChunks, ChunkLen, ZeroPad, CeilDiv, RsBlock, Interleave,
         PftPacket.Header, PftPacket.Packet, Rounds, Fragments, Missing;
    AmbiguousSizes(m);
    var d := Missing(m);
    var b := a + Zeros(d);
    BlockOfBytes(a, d);
    SameInterleaving(RsBlock(a, 1), 49 * d, Fragments(m), 49 * Rounds(m));
    var fs := RsFragments(a, 1, m);
    assert RsFragments(b, 1, m) == fs;
    forall i | 0 <= i < |fs|
      ensures PacketOf(a, 1, m, pseq, |fs|, i, fs[i]) == PacketOf(b, 1, m, pseq, |fs|, i, fs[i]) {}
  }

  /** If anything can be sent with this m, so can packets of these two lengths. */
  lemma AmbiguousLengthsFit(m: nat, someL: nat, someK: nat)
    requires m >= PARITYBYTES && Transmissible(someL, someK, m)
    ensures ShortLength(m) > 0 && Transmissible(ShortLength(m), 1, m)
            && Transmissible(ShortLength(m) + Missing(m), 1, m)
  {
    hide MaxPayload, NumFragments, FragmentSize, NumChunks, ChunkLen, CeilDiv, Rounds, Missing;
    AmbiguousSizes(m);
    EnoughFragments(someL, someK, m);
    FirstChunkIsData(someL, someK);
    MulMonotone(49, ChunkLen(someL, someK) + PARITYBYTES, m + 1);
  }

  /** For every m with which anything can be sent: the packets determine the AF packet if and only if m < 48. */
  lemma UnambiguousExactly(m: nat, someL: nat, someK: nat)
    requires m > 0 && Transmissible(someL, someK, m)
    ensures Unambiguous(m) <==> m < PARITYBYTES
  {
    hide SameTraffic, ShortLength, Missing;
    if m < PARITYBYTES {
      forall a, b, k, pseq | SameTraffic(a, b, k, m, pseq) ensures a == b {
        SamePackets(a, b, k, m, pseq);
      }
    } else {
      AmbiguousLengthsFit(m, someL, someK);
      AmbiguousTraffic(Zeros(ShortLength(m)), m, 0);
    }
  }

  lemma AmbiguousTraffic(a: seq<Byte>, m: nat, pseq: nat)
    requires m >= PARITYBYTES && |a| == ShortLength(m) && pseq < 0x10000
    requires Transmissible(ShortLength(m), 1, m) && Transmissible(ShortLength(m) + Missing(m), 1, m)
    ensures a != a + Zeros(Missing(m)) && SameTraffic(a, a + Zeros(Missing(m)), 1, m, pseq)
  {
    hide Transmissible, PacketsOf, ShortLength;
    LengthNotDetermined(a, m, pseq);
    assert |a + Zeros(Missing(m))| == |a| + Missing(m);
  }
}
