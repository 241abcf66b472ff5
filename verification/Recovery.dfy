/**
  The promise of packet protection: how many fragments of an AF packet may be lost.
 */
module Recovery {
  import opened Arithmetic
  import opened Bytes
  import opened Counting
  import opened Code
  import opened Generator
  import opened Massey
  import opened ErrorWords
  import opened Loss
  import opened PacketLayout

  /** The two fragment lists agree except for the lost fragments. */
  ghost predicate SameOutside(fs: seq<seq<Byte>>, gs: seq<seq<Byte>>, lost: set<nat>) {
    |fs| == |gs| && forall i: nat :: i < |fs| && i !in lost ==> fs[i] == gs[i]
  }

  /**
    Whatever t fragments are lost, the others determine the AF packet: no two packets of the same
    length agree on all other fragments.
   */
  ghost predicate Recoverable(l: nat, kMax: nat, m: nat, t: nat)
    requires l > 0 && 0 < kMax <= 207 && MaxPayload(l, kMax, m) > 0
  {
    forall a: seq<Byte>, b: seq<Byte>, lost: set<nat> ::
      |a| == |b| == l && |lost| <= t && SameOutside(RsFragments(a, kMax, m), RsFragments(b, kMax, m), lost) ==> a == b
  }

  //////////////////////////////////////////////////////////////////////////////
  //
  // Bytes that arrive
  //
  //////////////////////////////////////////////////////////////////////////////

  lemma ArrivedByte(a: seq<Byte>, b: seq<Byte>, f: nat, size: nat, lost: set<nat>, ix: nat)
    requires f > 0 && |a| == |b| && ix < |a| <= f * size
    requires SameOutside(Interleave(a, f, size), Interleave(b, f, size), lost)
    requires !Gone(ix, f, lost)
    ensures a[ix] == b[ix]
  {
    PlaceOf(ix, f, size);
    var i, j := ix % f, ix / f;
    assert Interleave(a, f, size)[i] == Interleave(b, f, size)[i];
    assert Fragment(a, f, size, i)[j] == a[ix] && Fragment(b, f, size, i)[j] == b[ix];
  }

  lemma SameFragments(a: seq<Byte>, b: seq<Byte>, f: nat, size: nat, lost: set<nat>)
    requires f > 0 && |a| == |b|
    requires forall ix: nat :: ix < |a| && a[ix] != b[ix] ==> Gone(ix, f, lost)
    ensures SameOutside(Interleave(a, f, size), Interleave(b, f, size), lost)
  {
    forall i: nat | i < f && i !in lost ensures Fragment(a, f, size, i) == Fragment(b, f, size, i) {
      forall j | 0 <= j < size ensures FragmentByte(a, f, i, j) == FragmentByte(b, f, i, j) {
        GonePeriodic(i, j, f, lost);
        GoneInFirstRound(i, f, lost);
        assert i + j * f == j * f + i;
      }
    }
  }

  //////////////////////////////////////////////////////////////////////////////
  //
  // One chunk
  //
  //////////////////////////////////////////////////////////////////////////////

  /** Where byte q of a protected chunk of k data bytes stands in the RS(255,207) word. */
  function Spread(k: nat, q: nat): nat
    requires k <= 207
  {
    if q < k then q else q + (207 - k)
  }

  function SpreadAll(k: nat, qs: seq<nat>): (ps: seq<nat>)
    requires k <= 207
    ensures |ps| == |qs| && forall i :: 0 <= i < |qs| ==> ps[i] == Spread(k, qs[i])
  {
    seq(|qs|, i requires 0 <= i < |qs| => Spread(k, qs[i]))
  }

  ghost function FullWord(chunk: seq<Byte>): (w: seq<Byte>)
    requires |chunk| <= 207
    ensures |w| == 255
  {
    FullChunk(chunk) + ParityOf(FullChunk(chunk), FIRST_ROOT, PARITYBYTES)
  }

  lemma FullWordBytes(chunk: seq<Byte>, q: nat)
    requires |chunk| <= 207 && q < |chunk| + PARITYBYTES
    ensures Spread(|chunk|, q) < 255 && FullWord(chunk)[Spread(|chunk|, q)] == ProtectedChunk(chunk)[q]
  {
    hide ParityOf;
  }

  /** A chunk is determined when at most 48 of its protected bytes are missing. */
  lemma ChunkDetermined(a: seq<Byte>, b: seq<Byte>, missing: seq<nat>)
    requires |a| == |b| <= 207 && |missing| <= PARITYBYTES
    requires forall q: nat :: q < |a| + PARITYBYTES && q !in missing ==> ProtectedChunk(a)[q] == ProtectedChunk(b)[q]
    ensures a == b
  {
    hide ParityOf, IsCodeword, ProtectedChunk;
    var k := |a|;
    var v, w := FullWord(a), FullWord(b);
    var s := Elements(SpreadAll(k, missing));
    ElementsCount(SpreadAll(k, missing));
    forall j: nat | j < 255 && v[j] != w[j] ensures j in s {
      if j < k || j >= 207 {
        var q := if j < k then j else j - (207 - k);
        FullWordBytes(a, q);
        FullWordBytes(b, q);
        assert q in missing;
        var i :| 0 <= i < |missing| && missing[i] == q;
        assert SpreadAll(k, missing)[i] == j;
      }
    }
    ParityCompletes(FullChunk(a), FIRST_ROOT, PARITYBYTES);
    ParityCompletes(FullChunk(b), FIRST_ROOT, PARITYBYTES);
    MinimumDistance(v, w, FIRST_ROOT, PARITYBYTES, s);
    assert a == v[..k] && b == w[..k];
  }

  //////////////////////////////////////////////////////////////////////////////
  //
  // Few enough losses
  //
  //////////////////////////////////////////////////////////////////////////////

  lemma ChunkRecovered(p: seq<Byte>, r: seq<Byte>, k: nat, c: nat, i: nat, f: nat, size: nat, lost: set<nat>)
    requires k <= 207 && |p| == |r| == c * k && i < c && f > 0
    requires c * (k + PARITYBYTES) <= f * size
    requires SameOutside(Interleave(Blocks(p, k, c, c), f, size), Interleave(Blocks(r, k, c, c), f, size), lost)
    requires WorstLoss(k + PARITYBYTES, f, |lost|) <= PARITYBYTES
    ensures ChunkAt(p, k, c, i) == ChunkAt(r, k, c, i)
  {
    hide ProtectedChunk, ChunkAt, Blocks, Interleave, WorstLoss, Gone, SameOutside, At;
    var n := k + PARITYBYTES;
    var a := At(i, n, 0);
    var missing := Lost(a, n, f, lost);
    CountBound(a, n, f, lost);
    forall q: nat | q < n && q !in missing
      ensures ProtectedChunk(ChunkAt(p, k, c, i))[q] == ProtectedChunk(ChunkAt(r, k, c, i))[q]
    {
      LostIff(a, n, f, lost, q);
      AtStep(i, n, q);
      BlockInside(i, c, n, q);
      ArrivedByte(Blocks(p, k, c, c), Blocks(r, k, c, c), f, size, lost, At(i, n, q));
      BlocksAt(p, k, c, c, i, q);
      BlocksAt(r, k, c, c, i, q);
    }
    ChunkDetermined(ChunkAt(p, k, c, i), ChunkAt(r, k, c, i), missing);
  }

  lemma AtStep(i: nat, n: nat, q: nat)
    ensures At(i, n, 0) + q == At(i, n, q)
  {}

  /** Equal chunks make equal packets. */
  lemma ChunksMakePacket(p: seq<Byte>, r: seq<Byte>, k: nat, c: nat)
    requires |p| == |r| == c * k
    requires forall i: nat :: i < c ==> ChunkAt(p, k, c, i) == ChunkAt(r, k, c, i)
    ensures p == r
  {
    forall ix | 0 <= ix < |p| ensures p[ix] == r[ix] {
      var i, q := ChunkOfByte(ix, c, k);
      ByteInChunk(p, k, c, i, q);
      ByteInChunk(r, k, c, i, q);
    }
  }

  lemma ChunkOfByte(ix: nat, c: nat, k: nat) returns (i: nat, q: nat)
    requires ix < c * k
    ensures i < c && q < k && At(i, k, q) == ix
  {
    Swap(c, k);
    PlaceOf(ix, k, c);
    i, q := ix / k, ix % k;
  }

  lemma ByteInChunk(p: seq<Byte>, k: nat, c: nat, i: nat, q: nat)
    requires |p| == c * k && i < c && q < k
    ensures At(i, k, q) < |p| && ChunkAt(p, k, c, i)[q] == p[At(i, k, q)]
  {
    ChunkInside(i, c, k);
  }

  lemma FewLossesRecover(a: seq<Byte>, b: seq<Byte>, kMax: nat, m: nat, lost: set<nat>)
    requires |a| == |b| > 0 && 0 < kMax <= 207 && MaxPayload(|a|, kMax, m) > 0
    requires SameOutside(RsFragments(a, kMax, m), RsFragments(b, kMax, m), lost)
    requires NumFragments(|a|, kMax, m) > 0
    requires WorstLoss(ChunkLen(|a|, kMax) + PARITYBYTES, NumFragments(|a|, kMax, m), |lost|) <= PARITYBYTES
    ensures a == b
  {
    hide ProtectedChunk, ChunkAt, Blocks, Interleave, WorstLoss, SameOutside, NumChunks, ChunkLen, NumFragments,
         CeilDiv;
    var l := |a|;
    var c, k := NumChunks(l, kMax), ChunkLen(l, kMax);
    var f, size := NumFragments(l, kMax, m), FragmentSize(l, kMax, m);
    ChunkSizes(l, kMax);
    CeilDivBounds(c * (k + PARITYBYTES), f);
    Swap(size, f);
    forall i: nat | i < c ensures ChunkAt(Padded(a, kMax), k, c, i) == ChunkAt(Padded(b, kMax), k, c, i) {
      ChunkRecovered(Padded(a, kMax), Padded(b, kMax), k, c, i, f, size, lost);
    }
    ChunksMakePacket(Padded(a, kMax), Padded(b, kMax), k, c);
    assert a == Padded(a, kMax)[..l] && b == Padded(b, kMax)[..l];
  }

  //////////////////////////////////////////////////////////////////////////////
  //
  // Too many losses
  //
  //////////////////////////////////////////////////////////////////////////////

  /** The chunk of a codeword that is zero on the encoder's padding, and its protection. */
  lemma ChunkOfCodeword(w: seq<Byte>, k: nat)
    requires |w| == 255 && k <= 207 && IsCodeword(w, FIRST_ROOT, PARITYBYTES)
    requires forall j :: k <= j < 207 ==> w[j] == ZERO
    ensures FullWord(w[..k]) == w
  {
    hide ParityOf, IsCodeword;
    assert FullChunk(w[..k]) == w[..207];
    assert w[..207] + w[207..] == w;
    ParityUnique(w[..207], w[207..], FIRST_ROOT);
  }

  lemma ZeroChunk(k: nat)
    requires k <= 207
    ensures FullWord(Zeros(k)) == Zeros(255)
    ensures forall q :: 0 <= q < k + PARITYBYTES ==> ProtectedChunk(Zeros(k))[q] == ZERO
  {
    hide ParityOf, ProtectedChunk, FullWord;
    forall e: nat ensures Syn(Zeros(255), e) == ZERO {
      SynOfZeros(Zeros(255), e);
    }
    assert Zeros(255)[..k] == Zeros(k);
    ChunkOfCodeword(Zeros(255), k);
    forall q: nat | q < k + PARITYBYTES ensures ProtectedChunk(Zeros(k))[q] == ZERO {
      FullWordBytes(Zeros(k), q);
    }
  }

  lemma {:induction false} SpreadDistinct(k: nat, qs: seq<nat>)
    requires k <= 207
    requires forall i, j :: 0 <= i < j < |qs| ==> qs[i] != qs[j]
    ensures forall i, j :: 0 <= i < j < |qs| ==> SpreadAll(k, qs)[i] != SpreadAll(k, qs)[j]
  {}

  /** Any 49 missing bytes of a protected chunk can hide a chunk that is not zero. */
  lemma HiddenChunk(k: nat, missing: seq<nat>) returns (u: seq<Byte>)
    requires k <= 207 && |missing| == PARITYBYTES + 1
    requires forall i :: 0 <= i < |missing| ==> missing[i] < k + PARITYBYTES
    requires forall i, j :: 0 <= i < j < |missing| ==> missing[i] != missing[j]
    ensures |u| == k && u != Zeros(k)
    ensures forall q: nat :: q < k + PARITYBYTES && q !in missing ==> ProtectedChunk(u)[q] == ZERO
  {
    hide ParityOf, IsCodeword, ProtectedChunk, FullWord;
    var places := SpreadAll(k, missing);
    SpreadDistinct(k, missing);
    DistinctCount(places);
    var s := Elements(places);
    forall p | p in s ensures p < 255 && (p < k || p >= 207) {
      var i :| 0 <= i < |places| && places[i] == p;
    }
    var w := CodewordOn(255, FIRST_ROOT, PARITYBYTES, s);
    ChunkOfCodeword(w, k);
    u := w[..k];
    forall q: nat | q < k + PARITYBYTES && ProtectedChunk(u)[q] != ZERO ensures q in missing {
      FullWordBytes(u, q);
      assert Spread(k, q) in places;
      var i :| 0 <= i < |places| && places[i] == Spread(k, q);
      assert missing[i] == q;
    }
    SomeDataByte(s);
    var j :| j in s && j < 207;
    assert u[j] != ZERO;
  }

  lemma SomeDataByte(s: set<nat>)
    requires |s| == PARITYBYTES + 1 && forall p :: p in s ==> p < 255
    ensures exists j :: j in s && j < 207
  {
    if forall j :: j in s ==> j >= 207 {
      SubsetSize(s, Range(207, 48));
    }
  }

  /** The packet with chunk u in front and zeros behind it. */
  function Planted(u: seq<Byte>, l: nat): (b: seq<Byte>)
    requires |u| <= l
    ensures |b| == l
  {
    u + Zeros(l - |u|)
  }

  lemma PlantedChunks(u: seq<Byte>, l: nat, kMax: nat, i: nat)
    requires l > 0 && kMax > 0 && |u| == ChunkLen(l, kMax) <= l && i < NumChunks(l, kMax)
    ensures var c, k := NumChunks(l, kMax), ChunkLen(l, kMax);
            ChunkAt(Padded(Planted(u, l), kMax), k, c, i) == if i == 0 then u else Zeros(k)
  {
    hide NumChunks, ChunkLen;
    var c, k := NumChunks(l, kMax), ChunkLen(l, kMax);
    ChunkSizes(l, kMax);
    var p := Padded(Planted(u, l), kMax);
    forall q | 0 <= q < k ensures ChunkAt(p, k, c, i)[q] == if i == 0 then u[q] else ZERO {
      ByteInChunk(p, k, c, i, q);
      LaterChunk(i, k, q);
    }
  }

  lemma LaterChunk(i: nat, k: nat, q: nat)
    ensures if i == 0 then At(i, k, q) == q else At(i, k, q) >= k
  {
    if i > 0 {
      MulMonotone(1, i, k);
    }
  }

  lemma FirstChunkIsData(l: nat, kMax: nat)
    requires l > 0 && kMax > 0
    ensures 0 < ChunkLen(l, kMax) <= l
  {
    ChunkSizes(l, kMax);
    hide ChunkLen, CeilDiv;
    var c, k := NumChunks(l, kMax), ChunkLen(l, kMax);
    CeilDivBounds(l, c);
    MulMonotone(1, c, k - 1);
    Swap(c, k - 1);
    ChunkLenIs(l, kMax);
  }

  lemma ChunkLenIs(l: nat, kMax: nat)
    requires l > 0 && kMax > 0
    ensures NumChunks(l, kMax) > 0 && ChunkLen(l, kMax) == CeilDiv(l, NumChunks(l, kMax))
  {
    ChunkSizes(l, kMax);
  }

  /** Behind chunk 0 the block of a planted packet is zero. */
  lemma PlantedByte(u: seq<Byte>, l: nat, kMax: nat, x: seq<Byte>, i: nat, q: nat)
    requires l > 0 && 0 < kMax <= 207 && |u| == ChunkLen(l, kMax) <= l && |u| <= 207
    requires x == RsBlock(Planted(u, l), kMax)
    requires i < NumChunks(l, kMax) && q < |u| + PARITYBYTES && At(i, |u| + PARITYBYTES, q) < |x|
    ensures x[At(i, |u| + PARITYBYTES, q)] == if i == 0 then ProtectedChunk(u)[q] else ZERO
  {
    hide NumChunks, ChunkLen, ProtectedChunk, ChunkAt, Padded, Blocks, Planted, At;
    var c, k := NumChunks(l, kMax), |u|;
    BlocksAt(Padded(Planted(u, l), kMax), k, c, c, i, q);
    PlantedChunks(u, l, kMax, i);
    ZeroChunk(k);
  }

  /** The blocks of the planted packet and of the zero packet differ only in the lost bytes of chunk 0. */
  lemma PlantedBlocks(u: seq<Byte>, l: nat, kMax: nat, f: nat, lost: set<nat>, x: seq<Byte>, y: seq<Byte>, ix: nat)
    requires l > 0 && 0 < kMax <= 207 && |u| == ChunkLen(l, kMax) <= l && |u| <= 207 && f > 0
    requires forall q: nat :: q < |u| + PARITYBYTES && !Gone(q, f, lost) ==> ProtectedChunk(u)[q] == ZERO
    requires x == RsBlock(Planted(u, l), kMax) && y == RsBlock(Planted(Zeros(|u|), l), kMax)
    requires ix < |x| && ix < |y| && !Gone(ix, f, lost)
    ensures x[ix] == y[ix]
  {
    hide NumChunks, ChunkLen, ProtectedChunk, Gone, RsBlock, At, Planted;
    var n := |u| + PARITYBYTES;
    var i, q := ChunkOfByte(ix, NumChunks(l, kMax), n);
    PlantedByte(u, l, kMax, x, i, q);
    PlantedByte(Zeros(|u|), l, kMax, y, i, q);
    ZeroChunk(|u|);
    if i == 0 {
      AtZero(n, q);
    }
  }

  lemma AtZero(n: nat, q: nat)
    ensures At(0, n, q) == q
  {}

  /** Losing the first t fragments hides a whole packet once the bound of 48 bytes is passed. */
  lemma ManyLossesHide(l: nat, kMax: nat, m: nat, t: nat) returns (a: seq<Byte>, b: seq<Byte>)
    requires l > 0 && 0 < kMax <= 207 && MaxPayload(l, kMax, m) > 0 && 0 < NumFragments(l, kMax, m)
    requires t <= NumFragments(l, kMax, m)
    requires WorstLoss(ChunkLen(l, kMax) + PARITYBYTES, NumFragments(l, kMax, m), t) > PARITYBYTES
    ensures |a| == |b| == l && a != b
    ensures SameOutside(RsFragments(a, kMax, m), RsFragments(b, kMax, m), Range(0, t))
  {
    hide NumChunks, ChunkLen, NumFragments, MaxPayload, ProtectedChunk, ChunkAt, Blocks, Interleave, WorstLoss, Gone,
         SameOutside, Planted, RsBlock;
    var k, f := ChunkLen(l, kMax), NumFragments(l, kMax, m);
    var n, lost := k + PARITYBYTES, Range(0, t);
    ChunkSizes(l, kMax);
    FirstChunkIsData(l, kMax);
    WorstLossReached(n, f, t);
    var missing := Lost(0, n, f, lost)[..PARITYBYTES + 1];
    var u := HiddenChunk(k, missing);
    forall q: nat | q < n && !Gone(q, f, lost) ensures ProtectedChunk(u)[q] == ZERO {
      LostIff(0, n, f, lost, q);
    }
    a, b := Planted(u, l), Planted(Zeros(k), l);
    var x, y := RsBlock(a, kMax), RsBlock(b, kMax);
    forall ix: nat | ix < |x| && x[ix] != y[ix] ensures Gone(ix, f, lost) {
      if !Gone(ix, f, lost) {
        PlantedBlocks(u, l, kMax, f, lost, x, y, ix);
      }
    }
    SameFragments(x, y, f, FragmentSize(l, kMax, m), lost);
    PlantedDiffer(u, Zeros(k), l);
  }

  lemma PlantedDiffer(u: seq<Byte>, v: seq<Byte>, l: nat)
    requires |u| == |v| <= l && u != v
    ensures Planted(u, l) != Planted(v, l)
  {
    assert u == Planted(u, l)[..|u|] && v == Planted(v, l)[..|v|];
  }

  //////////////////////////////////////////////////////////////////////////////
  //
  // The theorem
  //
  //////////////////////////////////////////////////////////////////////////////

  lemma WorstLossMonotone(n: nat, f: nat, s: nat, t: nat)
    requires f > 0 && s <= t
    ensures WorstLoss(n, f, s) <= WorstLoss(n, f, t)
  {
    MulMonotone(s, t, n / f);
  }

  /** When every fragment is lost, every byte is. */
  lemma WorstLossOfAll(n: nat, f: nat, t: nat)
    requires f > 0 && t >= f
    ensures WorstLoss(n, f, t) >= n
  {
    assert n == (n / f) * f + n % f;
    Swap(n / f, f);
    MulMonotone(f, t, n / f);
  }

  /**
    Loss tolerance, exactly: any t lost fragments can be made good if and only if t fragments never
    hold more than 48 bytes of one protected chunk, a number that follows from the sizes alone.
   */
  lemma LossTolerance(l: nat, kMax: nat, m: nat, t: nat)
    requires l > 0 && 0 < kMax <= 207 && MaxPayload(l, kMax, m) > 0
    ensures NumFragments(l, kMax, m) > 0
    ensures Recoverable(l, kMax, m, t)
            <==> WorstLoss(ChunkLen(l, kMax) + PARITYBYTES, NumFragments(l, kMax, m), t) <= PARITYBYTES
  {
    hide NumChunks, ChunkLen, NumFragments, MaxPayload, WorstLoss, SameOutside, RsFragments;
    SomeFragments(l, kMax, m);
    var n, f := ChunkLen(l, kMax) + PARITYBYTES, NumFragments(l, kMax, m);
    if WorstLoss(n, f, t) <= PARITYBYTES {
      forall a: seq<Byte>, b: seq<Byte>, lost: set<nat>
        | |a| == |b| == l && |lost| <= t && SameOutside(RsFragments(a, kMax, m), RsFragments(b, kMax, m), lost)
        ensures a == b
      {
        WorstLossMonotone(n, f, |lost|, t);
        FewLossesRecover(a, b, kMax, m, lost);
      }
    } else {
      var s := if t <= f then t else f;
      if t > f {
        FirstChunkIsData(l, kMax);
        WorstLossOfAll(n, f, f);
      }
      var a, b := ManyLossesHide(l, kMax, m, s);
      assert |Range(0, s)| <= t;
    }
  }

  /** The fragment count grows with m: 48 f >= n (m + 1). */
  lemma EnoughFragments(l: nat, kMax: nat, m: nat)
    requires l > 0 && kMax > 0 && MaxPayload(l, kMax, m) > 0
    ensures PARITYBYTES * NumFragments(l, kMax, m) >= (ChunkLen(l, kMax) + PARITYBYTES) * (m + 1)
  {
    ChunkSizes(l, kMax);
    var c, n := NumChunks(l, kMax), ChunkLen(l, kMax) + PARITYBYTES;
    var s, f := MaxPayload(l, kMax, m), NumFragments(l, kMax, m);
    assert s * (m + 1) <= c * PARITYBYTES;
    CeilDivBounds(c * n, s);
    EnoughFragmentsArithmetic(c, n, s, f, m + 1);
  }

  lemma EnoughFragmentsArithmetic(c: nat, n: nat, s: nat, f: nat, m1: nat)
    requires c > 0 && s * m1 <= c * 48 && f * s >= c * n
    ensures 48 * f >= n * m1
  {
    MulMonotone(s * m1, c * 48, f);
    MulMonotone(c * n, f * s, m1);
    assert (s * m1) * f == (f * s) * m1;
    assert (c * 48) * f == c * (48 * f);
    assert (c * n) * m1 == c * (n * m1);
    CancelFactor(c, n * m1, 48 * f);
  }

  lemma CancelFactor(c: nat, x: nat, y: nat)
    requires c > 0 && c * x <= c * y
    ensures x <= y
  {
    assert (y + 1) * c == y * c + c;
    if x > y {
      MulMonotone(y + 1, x, c);
    }
  }

  lemma WorstLossByCeiling(n: nat, f: nat, t: nat, q: nat)
    requires f > 0 && q * f >= n
    ensures WorstLoss(n, f, t) <= t * q
  {
    CeilDivLeast(n, f, q);
    var d, r := n / f, n % f;
    if r == 0 {
      MulMonotone(d, q, t);
      Swap(d, t);
      Swap(q, t);
    } else {
      MulMonotone(d + 1, q, t);
      Swap(d + 1, t);
      Swap(q, t);
      assert t * (d + 1) == t * d + t;
    }
  }

  //////////////////////////////////////////////////////////////////////////////
  //
  // The promise of the configuration: m fragments may be lost
  //
  //////////////////////////////////////////////////////////////////////////////

  /** Whatever the packet and chunk length, any m lost fragments can be made good. */
  ghost predicate KeepsPromise(m: nat) {
    forall l: nat, kMax: nat :: l > 0 && 0 < kMax <= 207 && MaxPayload(l, kMax, m) > 0 ==> Recoverable(l, kMax, m, m)
  }

  /** As there are at least n (m + 1) / 48 fragments, none holds more than ceil(48 / (m + 1)) bytes of a chunk. */
  lemma PromiseKept(l: nat, kMax: nat, m: nat)
    requires l > 0 && 0 < kMax <= 207 && MaxPayload(l, kMax, m) > 0
    requires m * CeilDiv(PARITYBYTES, m + 1) <= PARITYBYTES
    ensures Recoverable(l, kMax, m, m)
  {
    hide NumChunks, ChunkLen, NumFragments, MaxPayload, WorstLoss, Recoverable, CeilDiv;
    LossTolerance(l, kMax, m, m);
    EnoughFragments(l, kMax, m);
    var n, f, q := ChunkLen(l, kMax) + PARITYBYTES, NumFragments(l, kMax, m), CeilDiv(PARITYBYTES, m + 1);
    CeilDivBounds(PARITYBYTES, m + 1);
    ShareOfFragment(n, f, q, m + 1);
    WorstLossByCeiling(n, f, m, q);
  }

  lemma ShareOfFragment(n: nat, f: nat, q: nat, m1: nat)
    requires 48 * f >= n * m1 && q * m1 >= 48
    ensures q * f >= n
  {
    MulMonotone(n * m1, 48 * f, q);
    MulMonotone(48, q * m1, n);
    assert (n * m1) * q == (q * m1) * n;
    assert (48 * f) * q == 48 * (q * f);
    CancelFactor(48, n, q * f);
  }

  /** An AF packet of 192 (m + 1) bytes travels in 5 (m + 1) fragments, with chunks of 240 bytes. */
  lemma WitnessSizes(m: nat)
    ensures NumChunks(192 * (m + 1), 192) == m + 1 && ChunkLen(192 * (m + 1), 192) == 192
    ensures MaxPayload(192 * (m + 1), 192, m) == 48
    ensures NumFragments(192 * (m + 1), 192, m) == 5 * (m + 1) && FragmentSize(192 * (m + 1), 192, m) == 48
  {
    ExactQuotient(192, m + 1);
    ExactQuotient(m + 1, 192);
    ExactQuotient(48, m + 1);
    ExactQuotient(5 * (m + 1), 48);
    ExactQuotient(48, 5 * (m + 1));
  }

  lemma ExactQuotient(q: nat, n: nat)
    requires n > 0
    ensures CeilDiv(q * n, n) == q && q * n / n == q
  {
    DivModUnique(q * n, n, q, 0);
  }

  /** What losing m of these fragments takes of a chunk. */
  lemma WitnessLoss(m: nat)
    ensures WorstLoss(240, 5 * (m + 1), m) <= PARITYBYTES <==> m * CeilDiv(PARITYBYTES, m + 1) <= PARITYBYTES
  {
    hide WorstLoss, CeilDiv;
    if m <= 9 {
      SmallDivisors(m);
    } else {
      var d, r := QuotientOf48(m + 1);
      WitnessRounds(m, d, r);
      WitnessCeiling(m, d, r);
    }
  }

  lemma WitnessCeiling(m: nat, d: nat, r: nat)
    requires 48 == d * (m + 1) + r && r < m + 1
    ensures m * CeilDiv(PARITYBYTES, m + 1) == 48 - r - d + if r == 0 then 0 else m
  {
    DivModUnique(48, m + 1, d, r);
    assert d * (m + 1) == m * d + d;
    assert m * (d + 1) == m * d + m;
  }

  lemma WitnessRounds(m: nat, d: nat, r: nat)
    requires 48 == d * (m + 1) + r && r < m + 1
    ensures WorstLoss(240, 5 * (m + 1), m) == 48 - r - d + Min(m, 5 * r)
  {
    assert d * (m + 1) == m * d + d;
    assert d * (5 * (m + 1)) == 5 * (d * (m + 1));
    DivModUnique(240, 5 * (m + 1), d, 5 * r);
  }

  /** From 11 on a divisor goes into 48 at most four times, and four times with no remainder or at least four. */
  lemma QuotientOf48(n: nat) returns (d: nat, r: nat)
    requires n >= 11
    ensures 48 == d * n + r && r < n && d <= 4 && (d == 4 ==> r >= 4 || r == 0)
  {
    d, r := 48 / n, 48 % n;
    assert 48 == d * n + r;
    if d >= 5 {
      MulMonotone(5, d, n);
    }
  }

  /** For m from 1 to 9 the rounded-up quotients are small enough. */
  lemma SmallDivisors(m: nat)
    requires m <= 9
    ensures m * CeilDiv(PARITYBYTES, m + 1) <= PARITYBYTES && WorstLoss(240, 5 * (m + 1), m) <= PARITYBYTES
  {
    if m == 0 {} else if m == 1 {} else if m == 2 {} else if m == 3 {} else if m == 4 {} else if m == 5 {}
    else if m == 6 {} else if m == 7 {} else if m == 8 {} else {}
  }

  /**
    The promise of the configuration, exactly: any m lost fragments can be made good for all packet
    and chunk lengths if and only if m ceil(48 / (m + 1)) <= 48.
   */
  lemma PromiseExactly(m: nat)
    ensures KeepsPromise(m) <==> m * CeilDiv(PARITYBYTES, m + 1) <= PARITYBYTES
  {
    hide Recoverable, CeilDiv, WorstLoss, NumFragments, ChunkLen, MaxPayload;
    if m * CeilDiv(PARITYBYTES, m + 1) <= PARITYBYTES {
      forall l: nat, kMax: nat | l > 0 && 0 < kMax <= 207 && MaxPayload(l, kMax, m) > 0
        ensures Recoverable(l, kMax, m, m)
      {
        PromiseKept(l, kMax, m);
      }
    } else {
      WitnessSizes(m);
      WitnessLoss(m);
      LossTolerance(192 * (m + 1), 192, m, m);
    }
  }

  /** The numbers of fragments for which that is so. */
  lemma PromisingNumbers(m: nat)
    ensures m * CeilDiv(PARITYBYTES, m + 1) <= PARITYBYTES <==> m <= 9 || m in {11, 12, 15, 16, 23, 24, 47, 48}
  {
    hide CeilDiv;
    var q := CeilDiv(PARITYBYTES, m + 1);
    CeilDivBounds(PARITYBYTES, m + 1);
    if m >= 47 {
      CeilDivLeast(PARITYBYTES, m + 1, 1);
    } else if m >= 23 {
      CeilDivLeast(PARITYBYTES, m + 1, 2);
    } else if m >= 15 {
      CeilDivLeast(PARITYBYTES, m + 1, 3);
    } else if m >= 11 {
      CeilDivLeast(PARITYBYTES, m + 1, 4);
    } else if m == 10 {
      CeilDivLeast(PARITYBYTES, m + 1, 5);
    } else {
      SmallDivisors(m);
    }
  }

  /** Beyond 48 no AF packet at all survives every loss of m fragments: each holds a byte of a chunk or none. */
  lemma BeyondParity(l: nat, kMax: nat, m: nat)
    requires l > 0 && 0 < kMax <= 207 && MaxPayload(l, kMax, m) > 0 && m > PARITYBYTES
    ensures !Recoverable(l, kMax, m, m)
  {
    hide NumChunks, ChunkLen, NumFragments, MaxPayload, Recoverable, CeilDiv;
    LossTolerance(l, kMax, m, m);
    EnoughFragments(l, kMax, m);
    FirstChunkIsData(l, kMax);
    var n, f := ChunkLen(l, kMax) + PARITYBYTES, NumFragments(l, kMax, m);
    MulMonotone(50, m + 1, n);
    Swap(n, m + 1);
    DivModUnique(n, f, 0, n);
  }

  /** With m = 10 an AF packet of 828 bytes is enough to make ten losses fatal. */
  lemma TenLossesCanBeFatal()
    ensures MaxPayload(828, 207, 10) == 17 && NumFragments(828, 207, 10) == 60
    ensures !Recoverable(828, 207, 10, 10)
  {
    assert NumChunks(828, 207) == 4 && ChunkLen(828, 207) == 207;
    LossTolerance(828, 207, 10, 10);
    assert WorstLoss(255, 60, 10) == 50;
  }

  //////////////////////////////////////////////////////////////////////////////
  //
  // Recovery by the decoder
  //
  //////////////////////////////////////////////////////////////////////////////

  /**
    A receiver that fills the missing bytes of a chunk with anything and lists them as erasures
    meets the decoder's condition, so that decode_rs_char gives back the chunk and its parity.
   */
  lemma MissingBytesAreDecodable(chunk: seq<Byte>, received: seq<Byte>, missing: seq<nat>)
    requires |chunk| <= 207 && |received| == 255
    requires |missing| <= PARITYBYTES
    requires forall i :: 0 <= i < |missing| ==> missing[i] < |chunk| + PARITYBYTES
    requires forall i, j :: 0 <= i < j < |missing| ==> missing[i] != missing[j]
    requires forall p: nat :: p < 255 && p !in SpreadAll(|chunk|, missing) ==> received[p] == FullWord(chunk)[p]
    ensures Decodable(FullWord(chunk), received, 0, SpreadAll(|chunk|, missing), FIRST_ROOT, PARITYBYTES)
  {
    hide ParityOf, IsCodeword;
    SpreadDistinct(|chunk|, missing);
    ParityCompletes(FullChunk(chunk), FIRST_ROOT, PARITYBYTES);
    assert Unknown(FullWord(chunk), received, 0, SpreadAll(|chunk|, missing)) == {};
  }
}
