/**
  How packet protection cuts an AF packet: the sizes of section 7.2.2 of ETSI TS 102 821 as the
  program computes them, the Reed-Solomon block and its fragments.
 */
module PacketLayout {
  import opened Arithmetic
  import opened Bytes
  import opened Code
  import opened Generator

  const PARITYBYTES: nat := 48
  const FIRST_ROOT: nat := 1

  /** An integer division that rounds up. */
  function CeilDiv(a: nat, b: nat): nat
    requires b > 0
  {
    if a % b == 0 then a / b else a / b + 1
  }

  lemma CeilDivBounds(a: nat, b: nat)
    requires b > 0
    ensures CeilDiv(a, b) * b >= a && (a > 0 ==> CeilDiv(a, b) > 0 && (CeilDiv(a, b) - 1) * b < a)
  {
    var q, r := a / b, a % b;
    assert a == q * b + r;
    if r == 0 {
      if a > 0 {
        assert q > 0;
        assert (q - 1) * b == q * b - b;
      }
    } else {
      assert (q + 1) * b == q * b + b;
    }
  }

  /** The rounded-up quotient is the least number of parts that hold a. */
  lemma CeilDivLeast(a: nat, b: nat, c: nat)
    requires b > 0 && c * b >= a
    ensures CeilDiv(a, b) <= c
  {
    CeilDivBounds(a, b);
    if CeilDiv(a, b) > c {
      MulMonotone(c, CeilDiv(a, b) - 1, b);
    }
  }

  lemma MulMonotone(x: nat, y: nat, b: nat)
    requires x <= y
    ensures x * b <= y * b
  {}

  //////////////////////////////////////////////////////////////////////////////
  //
  // Chunks
  //
  //////////////////////////////////////////////////////////////////////////////

  /** c = ceil(l / k_max). */
  function NumChunks(l: nat, kMax: nat): nat
    requires kMax > 0
  {
    CeilDiv(l, kMax)
  }

  /** k = ceil(l / c). */
  function ChunkLen(l: nat, kMax: nat): nat
    requires l > 0 && kMax > 0
  {
    CeilDivBounds(l, kMax);
    CeilDiv(l, NumChunks(l, kMax))
  }

  /**
    The sizes always work out: a chunk is no longer than the maximum, and all padding lies in the
    last chunk, which still holds data.
   */
  lemma ChunkSizes(l: nat, kMax: nat)
    requires l > 0 && kMax > 0
    ensures var c, k := NumChunks(l, kMax), ChunkLen(l, kMax);
            && 0 < c && 0 < k <= kMax
            && (c - 1) * k < l <= c * k
            && c * k - l < k
  {
    hide CeilDiv;
    var c := NumChunks(l, kMax);
    CeilDivBounds(l, kMax);
    CeilDivBounds(l, c);
    Swap(c, kMax);
    CeilDivLeast(l, c, kMax);
    PaddingInLastChunk(l, kMax, c, ChunkLen(l, kMax));
  }

  lemma PaddingInLastChunk(l: nat, kMax: nat, c: nat, k: nat)
    requires 0 < c && 0 < k <= kMax
    requires (c - 1) * kMax < l <= k * c
    ensures (c - 1) * k < l <= c * k && c * k - l < k
  {
    Swap(c, k);
    Swap(c - 1, k);
    Swap(c - 1, kMax);
    MulMonotone(k, kMax, c - 1);
    BlockLength(c, k);
  }

  lemma Swap(x: nat, y: nat)
    ensures x * y == y * x
  {}

  /** z = c k - l. */
  function ZeroPad(l: nat, kMax: nat): nat
    requires l > 0 && kMax > 0
  {
    ChunkSizes(l, kMax);
    NumChunks(l, kMax) * ChunkLen(l, kMax) - l
  }

  /** The AF packet with its zero padding. */
  function Padded(af: seq<Byte>, kMax: nat): (p: seq<Byte>)
    requires af != [] && kMax > 0
    ensures |p| == NumChunks(|af|, kMax) * ChunkLen(|af|, kMax)
  {
    ChunkSizes(|af|, kMax);
    af + Zeros(ZeroPad(|af|, kMax))
  }

  /** A chunk as the RS(255,207) encoder sees it. */
  function FullChunk(chunk: seq<Byte>): (w: seq<Byte>)
    requires |chunk| <= 207
    ensures |w| == 207
  {
    chunk + Zeros(207 - |chunk|)
  }

  /** The chunk and its protection; the encoder's padding is dropped. */
  ghost function ProtectedChunk(chunk: seq<Byte>): (b: seq<Byte>)
    requires |chunk| <= 207
    ensures |b| == |chunk| + PARITYBYTES
  {
    chunk + ParityOf(FullChunk(chunk), FIRST_ROOT, PARITYBYTES)
  }

  lemma ChunkInside(i: nat, c: nat, k: nat)
    requires i < c
    ensures 0 <= i * k <= i * k + k <= c * k
  {
    MulMonotone(i + 1, c, k);
    assert (i + 1) * k == i * k + k;
  }

  /** Chunk i of c chunks. */
  function ChunkAt(p: seq<Byte>, k: nat, c: nat, i: nat): (chunk: seq<Byte>)
    requires |p| == c * k && i < c
    ensures |chunk| == k
  {
    ChunkInside(i, c, k);
    p[i * k..i * k + k]
  }

  /** The first i protected chunks, one behind the other. */
  ghost function Blocks(p: seq<Byte>, k: nat, c: nat, i: nat): (b: seq<Byte>)
    requires k <= 207 && |p| == c * k && i <= c
    ensures |b| == i * (k + PARITYBYTES)
  {
    if i == 0 then []
    else
      BlockLength(i, k + PARITYBYTES);
      Blocks(p, k, c, i - 1) + ProtectedChunk(ChunkAt(p, k, c, i - 1))
  }

  lemma BlockLength(i: nat, n: nat)
    requires i > 0
    ensures (i - 1) * n + n == i * n
  {}

  /** The Reed-Solomon block of an AF packet. */
  ghost function RsBlock(af: seq<Byte>, kMax: nat): (b: seq<Byte>)
    requires af != [] && 0 < kMax <= 207
    ensures |b| == NumChunks(|af|, kMax) * (ChunkLen(|af|, kMax) + PARITYBYTES)
  {
    ChunkSizes(|af|, kMax);
    Blocks(Padded(af, kMax), ChunkLen(|af|, kMax), NumChunks(|af|, kMax), NumChunks(|af|, kMax))
  }

  /** Place q of part i, for parts of n. */
  function At(i: nat, n: nat, q: nat): nat {
    i * n + q
  }

  lemma BlockInside(i: nat, c: nat, n: nat, q: nat)
    requires i < c && q < n
    ensures At(i, n, q) < c * n
  {
    ChunkInside(i, c, n);
  }

  /** Byte q of protected chunk i within the block. */
  lemma {:induction false} BlocksAt(p: seq<Byte>, k: nat, c: nat, m: nat, i: nat, q: nat)
    requires k <= 207 && |p| == c * k && i < m <= c && q < k + PARITYBYTES
    requires At(i, k + PARITYBYTES, q) < m * (k + PARITYBYTES)
    ensures Blocks(p, k, c, m)[At(i, k + PARITYBYTES, q)] == ProtectedChunk(ChunkAt(p, k, c, i))[q]
    decreases m
  {
    hide ProtectedChunk, ChunkAt;
    var n := k + PARITYBYTES;
    BlockLength(m, n);
    if i < m - 1 {
      BlockInside(i, m - 1, n, q);
      BlocksAt(p, k, c, m - 1, i, q);
    }
  }

  //////////////////////////////////////////////////////////////////////////////
  //
  // Fragments
  //
  //////////////////////////////////////////////////////////////////////////////

  /** s_max = floor(c p / (m + 1)): the program leaves out the bound by the MTU. */
  function MaxPayload(l: nat, kMax: nat, m: nat): nat
    requires kMax > 0
  {
    NumChunks(l, kMax) * PARITYBYTES / (m + 1)
  }

  function BlockLen(l: nat, kMax: nat): nat
    requires l > 0 && kMax > 0
  {
    NumChunks(l, kMax) * (ChunkLen(l, kMax) + PARITYBYTES)
  }

  function NumFragments(l: nat, kMax: nat, m: nat): nat
    requires l > 0 && kMax > 0 && MaxPayload(l, kMax, m) > 0
  {
    CeilDiv(BlockLen(l, kMax), MaxPayload(l, kMax, m))
  }

  lemma SomeFragments(l: nat, kMax: nat, m: nat)
    requires l > 0 && kMax > 0 && MaxPayload(l, kMax, m) > 0
    ensures BlockLen(l, kMax) > 0 && NumFragments(l, kMax, m) > 0
  {
    ChunkSizes(l, kMax);
    CeilDivBounds(BlockLen(l, kMax), MaxPayload(l, kMax, m));
  }

  function FragmentSize(l: nat, kMax: nat, m: nat): nat
    requires l > 0 && kMax > 0 && MaxPayload(l, kMax, m) > 0
  {
    SomeFragments(l, kMax, m);
    CeilDiv(BlockLen(l, kMax), NumFragments(l, kMax, m))
  }

  /** Byte j of fragment i: the interleaved block, zero behind its end. */
  function FragmentByte(block: seq<Byte>, f: nat, i: nat, j: nat): Byte {
    if j * f + i < |block| then block[j * f + i] else ZERO
  }

  function Fragment(block: seq<Byte>, f: nat, size: nat, i: nat): (s: seq<Byte>)
    ensures |s| == size
  {
    seq(size, j requires 0 <= j < size => FragmentByte(block, f, i, j))
  }

  function Interleave(block: seq<Byte>, f: nat, size: nat): (fs: seq<seq<Byte>>)
    ensures |fs| == f && forall i :: 0 <= i < f ==> |fs[i]| == size
  {
    seq(f, i requires 0 <= i < f => Fragment(block, f, size, i))
  }

  /** What the receiver does: byte ix of the block is byte ix / f of fragment ix % f. */
  function Deinterleave(fs: seq<seq<Byte>>, size: nat): (b: seq<Byte>)
    requires forall i :: 0 <= i < |fs| ==> |fs[i]| == size
    ensures |b| == |fs| * size
  {
    seq(|fs| * size, ix requires 0 <= ix < |fs| * size => ByteOf(fs, size, ix))
  }

  function ByteOf(fs: seq<seq<Byte>>, size: nat, ix: nat): Byte
    requires forall i :: 0 <= i < |fs| ==> |fs[i]| == size
    requires ix < |fs| * size
  {
    PlaceOf(ix, |fs|, size);
    fs[ix % |fs|][ix / |fs|]
  }

  lemma PlaceOf(ix: nat, f: nat, size: nat)
    requires ix < f * size
    ensures f > 0 && 0 <= ix % f < f && 0 <= ix / f < size
    ensures (ix / f) * f + ix % f == ix
  {
    if ix / f >= size {
      MulMonotone(size, ix / f, f);
      Swap(size, f);
    }
  }

  lemma InterleavedByte(block: seq<Byte>, f: nat, size: nat, ix: nat)
    requires ix < f * size
    ensures f > 0 && ByteOf(Interleave(block, f, size), size, ix) == if ix < |block| then block[ix] else ZERO
  {
    PlaceOf(ix, f, size);
  }

  /** Interleaving is undone exactly; the only additions are zeros, fewer than one per fragment. */
  lemma DeinterleaveInterleave(block: seq<Byte>, f: nat, size: nat)
    requires f > 0 && size == CeilDiv(|block|, f)
    ensures |block| <= f * size < |block| + f
    ensures Deinterleave(Interleave(block, f, size), size) == block + Zeros(f * size - |block|)
  {
    CeilDivBounds(|block|, f);
    Swap(size, f);
    if size > 0 {
      assert (size - 1) * f == size * f - f;
    }
    var fs := Interleave(block, f, size);
    forall ix | 0 <= ix < f * size
      ensures ByteOf(fs, size, ix) == (block + Zeros(f * size - |block|))[ix]
    {
      InterleavedByte(block, f, size, ix);
    }
  }

  /** The fragments of an AF packet with Reed-Solomon protection. */
  ghost function RsFragments(af: seq<Byte>, kMax: nat, m: nat): (fs: seq<seq<Byte>>)
    requires af != [] && 0 < kMax <= 207 && MaxPayload(|af|, kMax, m) > 0
  {
    Interleave(RsBlock(af, kMax), NumFragments(|af|, kMax, m), FragmentSize(|af|, kMax, m))
  }

  //////////////////////////////////////////////////////////////////////////////
  //
  // What a receiver recovers from the header fields
  //
  //////////////////////////////////////////////////////////////////////////////

  /** With m + 1 <= 48 a fragment carries at least a byte of every chunk. */
  lemma PayloadAtLeastChunks(l: nat, kMax: nat, m: nat)
    requires l > 0 && kMax > 0 && m + 1 <= PARITYBYTES
    ensures MaxPayload(l, kMax, m) >= NumChunks(l, kMax) > 0
  {
    ChunkSizes(l, kMax);
    hide NumChunks;
    var c := NumChunks(l, kMax);
    MulMonotone(m + 1, PARITYBYTES, c);
    Swap(m + 1, c);
    DivideAtLeast(PARITYBYTES * c, m + 1, c);
    Swap(PARITYBYTES, c);
  }

  lemma DivideAtLeast(a: nat, b: nat, q: nat)
    requires b > 0 && a >= q * b
    ensures a / b >= q
  {
    assert a == (a / b) * b + a % b;
    assert (a / b + 1) * b == (a / b) * b + b;
    if a / b < q {
      MulMonotone(a / b + 1, q, b);
    }
  }

  /** There are never more fragments than bytes in a protected chunk. */
  lemma FragmentsAtMostChunk(l: nat, kMax: nat, m: nat)
    requires l > 0 && kMax > 0 && m + 1 <= PARITYBYTES
    ensures MaxPayload(l, kMax, m) > 0
    ensures 0 < NumFragments(l, kMax, m) <= ChunkLen(l, kMax) + PARITYBYTES
  {
    PayloadAtLeastChunks(l, kMax, m);
    SomeFragments(l, kMax, m);
    var c, n, s := NumChunks(l, kMax), ChunkLen(l, kMax) + PARITYBYTES, MaxPayload(l, kMax, m);
    MulMonotone(c, s, n);
    Swap(s, n);
    CeilDivLeast(c * n, s, n);
  }

  /** The receiver's chunk count: floor(Fcount Plen / (RSk + p)); and its packet length c RSk - RSz. */
  lemma ReceiverRecoversSizes(l: nat, kMax: nat, m: nat)
    requires l > 0 && kMax > 0 && m + 1 <= PARITYBYTES
    ensures MaxPayload(l, kMax, m) > 0
    ensures var f, size := NumFragments(l, kMax, m), FragmentSize(l, kMax, m);
            var k, z := ChunkLen(l, kMax), ZeroPad(l, kMax);
            && (f * size) / (k + PARITYBYTES) == NumChunks(l, kMax)
            && NumChunks(l, kMax) * k - z == l
  {
    FragmentsAtMostChunk(l, kMax, m);
    ChunkSizes(l, kMax);
    var c, n := NumChunks(l, kMax), ChunkLen(l, kMax) + PARITYBYTES;
    var f, size := NumFragments(l, kMax, m), FragmentSize(l, kMax, m);
    CeilDivBounds(c * n, f);
    hide NumChunks, ChunkLen, NumFragments, MaxPayload, CeilDiv;
    ChunkCount(c, n, f, size);
  }

  lemma ChunkCount(c: nat, n: nat, f: nat, size: nat)
    requires 0 < f <= n && size > 0
    requires (size - 1) * f < c * n <= size * f
    ensures (f * size) / n == c
  {
    Swap(f, size);
    BlockLength(size, f);
    DivModUnique(f * size, n, c, f * size - c * n);
  }

  //////////////////////////////////////////////////////////////////////////////
  //
  // The bound that is left out
  //
  //////////////////////////////////////////////////////////////////////////////

  /** The payload limit of the standard, s_max = MIN(floor(c p / (m + 1)), limit). */
  function LimitedPayload(l: nat, kMax: nat, m: nat, limit: nat): nat
    requires kMax > 0
  {
    if MaxPayload(l, kMax, m) <= limit then MaxPayload(l, kMax, m) else limit
  }

  /** No fragment exceeds the limit exactly when observing the limit gives the same number of fragments. */
  lemma LimitObserved(l: nat, kMax: nat, m: nat, limit: nat)
    requires l > 0 && kMax > 0 && MaxPayload(l, kMax, m) > 0 && limit > 0
    ensures FragmentSize(l, kMax, m) <= limit
            <==> CeilDiv(BlockLen(l, kMax), LimitedPayload(l, kMax, m, limit)) == NumFragments(l, kMax, m)
  {
    SomeFragments(l, kMax, m);
    hide CeilDiv, MaxPayload, BlockLen;
    SmallEnough(BlockLen(l, kMax), MaxPayload(l, kMax, m), limit);
  }

  lemma SmallEnough(b: nat, s: nat, limit: nat)
    requires b > 0 && s > 0 && limit > 0 && CeilDiv(b, s) > 0
    ensures CeilDiv(b, CeilDiv(b, s)) <= limit <==> CeilDiv(b, if s <= limit then s else limit) == CeilDiv(b, s)
  {
    hide CeilDiv;
    var f := CeilDiv(b, s);
    CeilDivBounds(b, s);
    CeilDivBounds(b, f);
    Swap(f, s);
    if s <= limit {
      CeilDivLeast(b, f, s);
    } else {
      CeilDivBounds(b, limit);
      Swap(CeilDiv(b, limit), limit);
      if CeilDiv(b, limit) == f {
        CeilDivLeast(b, f, limit);
      }
      MulMonotone(limit, s, CeilDiv(b, limit));
      Swap(CeilDiv(b, limit), s);
      CeilDivLeast(b, s, CeilDiv(b, limit));
      if CeilDiv(b, f) <= limit {
        MulMonotone(CeilDiv(b, f), limit, f);
        Swap(limit, f);
        CeilDivLeast(b, limit, f);
      }
    }
  }

  /** It is exceeded: an AF packet of 20700 bytes travels in fragments of 2319 bytes when m is 1. */
  lemma LimitExceeded()
    ensures MaxPayload(20700, 207, 1) == 2400 && NumFragments(20700, 207, 1) == 11
    ensures FragmentSize(20700, 207, 1) == 2319
  {
    assert NumChunks(20700, 207) == 100 && ChunkLen(20700, 207) == 207;
  }
}
