/**
  Protection, fragmentation and transport of AF packets: the object that turns one AF packet into
  the packets of a PFT sequence.
 */
module Pft {
  import opened Arithmetic
  import opened Bytes
  import opened Code
  import opened Generator
  import opened ReedSolomonCodec
  import opened PacketLayout
  import opened Crc
  import opened CrcTable
  import opened PftPacket
  import opened Wrappers

  //////////////////////////////////////////////////////////////////////////////
  //
  // Fragmentation without Reed-Solomon
  //
  //////////////////////////////////////////////////////////////////////////////

  const PLAIN_PAYLOAD: nat := 1400

  function PlainCount(l: nat): nat {
    CeilDiv(l, PLAIN_PAYLOAD)
  }

  function PlainSize(l: nat): nat
    requires l > 0
  {
    CeilDivBounds(l, PLAIN_PAYLOAD);
    CeilDiv(l, PlainCount(l))
  }

  /** Fragment i: the i-th stretch of the packet, shorter at the end. */
  function Stretch(af: seq<Byte>, size: nat, i: nat): seq<Byte> {
    if i * size >= |af| then [] else if i * size + size <= |af| then af[i * size..i * size + size] else af[i * size..]
  }

  function PlainFragments(af: seq<Byte>): (fs: seq<seq<Byte>>)
    requires af != []
    ensures |fs| == PlainCount(|af|)
  {
    seq(PlainCount(|af|), i requires 0 <= i < PlainCount(|af|) => Stretch(af, PlainSize(|af|), i))
  }

  function Concat(fs: seq<seq<Byte>>): seq<Byte> {
    if fs == [] then [] else Concat(fs[..|fs| - 1]) + fs[|fs| - 1]
  }

  lemma PlainSizes(l: nat)
    requires l > 0
    ensures 0 < PlainCount(l) && 0 < PlainSize(l) <= PLAIN_PAYLOAD
    ensures (PlainCount(l) - 1) * PlainSize(l) < l <= PlainCount(l) * PlainSize(l)
  {
    hide CeilDiv;
    CeilDivBounds(l, PLAIN_PAYLOAD);
    var f := PlainCount(l);
    CeilDivBounds(l, f);
    Swap(f, PLAIN_PAYLOAD);
    CeilDivLeast(l, f, PLAIN_PAYLOAD);
    Swap(f, PlainSize(l));
    Swap(f - 1, PlainSize(l));
    Swap(f - 1, PLAIN_PAYLOAD);
    MulMonotone(PlainSize(l), PLAIN_PAYLOAD, f - 1);
  }

  lemma NextStretch(af: seq<Byte>, size: nat, n: nat, end: nat)
    requires end == n * size + size
    ensures (if n * size <= |af| then af[..n * size] else af) + Stretch(af, size, n)
         == if end <= |af| then af[..end] else af
  {}

  lemma {:induction false} ConcatStretches(af: seq<Byte>, size: nat, fs: seq<seq<Byte>>)
    requires forall i :: 0 <= i < |fs| ==> fs[i] == Stretch(af, size, i)
    ensures Concat(fs) == if |fs| * size <= |af| then af[..|fs| * size] else af
  {
    hide Stretch;
    if fs != [] {
      var n := |fs| - 1;
      ConcatStretches(af, size, fs[..n]);
      BlockLength(|fs|, size);
      assert Concat(fs) == Concat(fs[..n]) + Stretch(af, size, n);
      NextStretch(af, size, n, |fs| * size);
    }
  }

  lemma StretchSize(af: seq<Byte>, size: nat, i: nat)
    requires size > 0 && i * size < |af|
    ensures 0 < |Stretch(af, size, i)| <= size
  {}

  /** Without protection, the fragments are not empty, fit their limit, and concatenate to the packet. */
  lemma PlainFragmentsJoin(af: seq<Byte>)
    requires af != []
    ensures Concat(PlainFragments(af)) == af
    ensures forall i :: 0 <= i < |PlainFragments(af)| ==> 0 < |PlainFragments(af)[i]| <= PLAIN_PAYLOAD
  {
    hide PlainCount, PlainSize, Stretch, Concat;
    var f, size := PlainCount(|af|), PlainSize(|af|);
    PlainSizes(|af|);
    ConcatStretches(af, size, PlainFragments(af));
    forall i | 0 <= i < f ensures 0 < |Stretch(af, size, i)| <= PLAIN_PAYLOAD {
      MulMonotone(i, f - 1, size);
      StretchSize(af, size, i);
    }
  }

  /**
    Without protection a packet is cut into the least number of fragments of at most 1400 bytes, and
    evenly: all but the last have the length ceil(l / f).
   */
  lemma PlainFragmentSizes(af: seq<Byte>) returns (s: nat)
    requires af != []
    ensures var fs, f, l := PlainFragments(af), |PlainFragments(af)|, |af|;
            && f > 0 && (f - 1) * 1400 < l <= f * 1400
            && (s - 1) * f < l <= s * f && forall i :: 0 <= i < f - 1 ==> |fs[i]| == s
  {
    hide CeilDiv, PlainSize, Stretch;
    var l := |af|;
    CeilDivBounds(l, PLAIN_PAYLOAD);
    PlainSizes(l);
    PlainSizeIs(l);
    var f := PlainCount(l);
    s := PlainSize(l);
    forall i | 0 <= i < f - 1 ensures |Stretch(af, s, i)| == s {
      MulMonotone(i + 1, f - 1, s);
      OneMore(i, s);
      WholeStretch(af, s, i);
    }
  }

  lemma PlainSizeIs(l: nat)
    requires l > 0
    ensures PlainCount(l) > 0 && (PlainSize(l) - 1) * PlainCount(l) < l <= PlainSize(l) * PlainCount(l)
  {
    hide CeilDiv;
    CeilDivBounds(l, PLAIN_PAYLOAD);
    CeilDivBounds(l, PlainCount(l));
  }

  lemma WholeStretch(af: seq<Byte>, size: nat, i: nat)
    requires i * size + size <= |af|
    ensures |Stretch(af, size, i)| == size
  {}

  //////////////////////////////////////////////////////////////////////////////
  //
  // The object
  //
  //////////////////////////////////////////////////////////////////////////////

  /** The fragments that a configuration makes of a packet. */
  ghost function FragmentsOf(af: seq<Byte>, k: nat, m: nat): seq<seq<Byte>>
    requires af != [] && k <= 207 && (m > 0 ==> k > 0 && MaxPayload(|af|, k, m) > 0)
  {
    if m > 0 then RsFragments(af, k, m) else PlainFragments(af)
  }

  /** The packets of one AF packet. */
  ghost function PacketsOf(af: seq<Byte>, k: nat, m: nat, pseq: nat): seq<seq<Byte>>
    requires af != [] && k <= 207 && (m > 0 ==> k > 0 && MaxPayload(|af|, k, m) > 0)
  {
    var fs := FragmentsOf(af, k, m);
    seq(|fs|, i requires 0 <= i < |fs| => PacketOf(af, k, m, pseq, |fs|, i, fs[i]))
  }

  ghost function PacketOf(af: seq<Byte>, k: nat, m: nat, pseq: nat, fcount: nat, i: nat, fragment: seq<Byte>): seq<Byte>
    requires af != [] && (m > 0 ==> k > 0)
  {
    var fec := m > 0;
    Packet(Header(pseq, i, fcount, |fragment|, fec,
                  if fec then ChunkLen(|af|, k) else 0, if fec then ZeroPad(|af|, k) else 0), fragment)
  }

  class PFT {
    const k: nat
    const m: nat
    var pseq: nat
    var numChunks: nat

    ghost predicate Valid()
      reads this
    {
      k <= 207 && (m > 0 ==> k > 0) && pseq < 0x10000
    }

    constructor (chunkLen: nat, fec: nat)
      ensures k == chunkLen && m == fec && pseq == 0 && numChunks == 0
    {
      k, m, pseq, numChunks := chunkLen, fec, 0, 0;
    }

    method OverridePSeq(n: nat)
      requires Valid() && n < 0x10000
      modifies this`pseq
      ensures Valid() && pseq == n
    {
      pseq := n;
    }

    /** Applies Reed-Solomon protection to an AF packet. */
    method Protect(af: seq<Byte>) returns (r: Result<seq<Byte>>)
      requires Valid() && k > 0 && af != []
      modifies this`numChunks
      ensures numChunks == NumChunks(|af|, k)
      ensures r.Err? <==> ChunkLen(|af|, k) > 207
      ensures r.Ok? ==> r.value == RsBlock(af, k)
    {
      hide CeilDiv, ParityOf, Blocks, RsBlock;
      CeilDivBounds(|af|, k);
      numChunks := CeilDiv(|af|, k);
      var chunkLen := CeilDiv(|af|, numChunks);
      if chunkLen > 207 {
        return Err;
      }
      ChunkSizes(|af|, k);
      var zeroPad := numChunks * chunkLen - |af|;
      var encoder := NewReedSolomon(255, 207, false, 1);
      var padded := af;
      for i := 0 to zeroPad
        invariant padded == af + Zeros(i)
      {
        padded := padded + [ZERO];
      }
      var block := ProtectChunks(encoder, padded, chunkLen, numChunks);
      BlockIs(af, k, padded);
      return Ok(block);
    }

    /** Cuts a packet into fragments, interleaved when it is protected. */
    method ProtectAndFragment(af: seq<Byte>) returns (r: Result<seq<seq<Byte>>>)
      requires Valid() && af != []
      requires m > 0 ==> MaxPayload(|af|, k, m) > 0
      modifies this`numChunks
      ensures numChunks == if m > 0 then NumChunks(|af|, k) else old(numChunks)
      ensures r.Err? <==> m > 0 && ChunkLen(|af|, k) > 207
      ensures r.Ok? ==> r.value == FragmentsOf(af, k, m)
    {
      hide CeilDiv, RsBlock;
      var enableRs := m > 0;
      if enableRs {
        var protection := Protect(af);
        if protection.Err? {
          return Err;
        }
        var block := protection.value;
        var maxPayload := numChunks * PARITYBYTES / (m + 1);
        var numFragments := CeilDiv(|block|, maxPayload);
        CeilDivBounds(|block|, maxPayload);
        ChunkSizes(|af|, k);
        SomeFragments(|af|, k, m);
        var fragmentSize := CeilDiv(|block|, numFragments);
        var fragments := InterleaveBlock(block, numFragments, fragmentSize);
        return Ok(fragments);
      } else {
        var numFragments := CeilDiv(|af|, PLAIN_PAYLOAD);
        CeilDivBounds(|af|, PLAIN_PAYLOAD);
        var fragmentSize := CeilDiv(|af|, numFragments);
        var fragments := CutPlain(af, numFragments, fragmentSize);
        return Ok(fragments);
      }
    }

    /** The packets of an AF packet; the sequence number advances modulo 2^16. */
    method Assemble(af: seq<Byte>) returns (r: Result<seq<seq<Byte>>>)
      requires Valid() && af != []
      requires m > 0 ==> MaxPayload(|af|, k, m) > 0
      modifies this
      ensures Valid()
      ensures r.Err? <==> m > 0 && ChunkLen(|af|, k) > 207
      ensures r.Ok? ==> r.value == PacketsOf(af, k, m, old(pseq)) && pseq == (old(pseq) + 1) % 0x10000
      ensures r.Err? ==> pseq == old(pseq)
    {
      hide CeilDiv, FragmentsOf, Header, Packet;
      var fragments := ProtectAndFragment(af);
      if fragments.Err? {
        return Err;
      }
      var enableRs := m > 0;
      var chunkLen, zeroPad := 0, 0;
      if enableRs {
        ChunkSizes(|af|, k);
        chunkLen := CeilDiv(|af|, numChunks);
        zeroPad := numChunks * chunkLen - |af|;
      }
      var packets := [];
      var fcount := |fragments.value|;
      for findex := 0 to fcount
        invariant pseq == old(pseq) && |packets| == findex
        invariant forall i :: 0 <= i < findex ==> packets[i] == PacketOf(af, k, m, pseq, fcount, i, fragments.value[i])
      {
        var packet := AssembleOne(pseq, findex, fcount, fragments.value[findex], enableRs, chunkLen, zeroPad);
        packets := packets + [packet];
      }
      pseq := (pseq + 1) % 0x10000;
      return Ok(packets);
    }
  }

  /** The constructor of the source throws for a chunk length above 207. */
  method NewPft(chunkLen: nat, fec: nat) returns (r: Result<PFT>)
    ensures r.Err? <==> chunkLen > 207
    ensures r.Ok? ==> fresh(r.value) && r.value.k == chunkLen && r.value.m == fec && r.value.pseq == 0
    ensures r.Ok? && (fec > 0 ==> chunkLen > 0) ==> r.value.Valid()
  {
    if chunkLen > 207 {
      return Err;
    }
    var pft := new PFT(chunkLen, fec);
    return Ok(pft);
  }

  /** Header, CRC over the header, payload. */
  method AssembleOne(pseq: nat, findex: nat, fcount: nat, fragment: seq<Byte>, fec: bool, chunkLen: nat, zeroPad: nat)
      returns (packet: seq<Byte>)
    ensures packet == Packet(Header(pseq, findex, fcount, |fragment|, fec, chunkLen, zeroPad), fragment)
  {
    hide Low, Turn, Word, StaticTable;
    packet := [Low(0x50), Low(0x46)];
    packet := packet + [Low(pseq / 0x100), Low(pseq)];
    packet := packet + [Low(findex / 0x10000), Low(findex / 0x100), Low(findex)];
    packet := packet + [Low(fcount / 0x10000), Low(fcount / 0x100), Low(fcount)];
    var plen := |fragment|;
    if fec {
      plen := WithFecBit(plen);
    }
    packet := packet + [Low(plen / 0x100), Low(plen)];
    if fec {
      packet := packet + [Low(chunkLen), Low(zeroPad)];
    }
    assert packet == Header(pseq, findex, fcount, |fragment|, fec, chunkLen, zeroPad);
    StaticTableCorrect();
    var crc := TableCrc(StaticTable(), Trues(16), packet, CCITT);
    packet := packet + RegBytes(Complement(crc));
    packet := packet + fragment;
  }

  method InterleaveBlock(block: seq<Byte>, f: nat, size: nat) returns (fragments: seq<seq<Byte>>)
    ensures fragments == Interleave(block, f, size)
  {
    hide FragmentByte;
    fragments := [];
    for i := 0 to f
      invariant |fragments| == i && forall n :: 0 <= n < i ==> fragments[n] == Fragment(block, f, size, n)
    {
      var fragment: seq<Byte> := [];
      for j := 0 to size
        invariant |fragment| == j && forall n :: 0 <= n < j ==> fragment[n] == FragmentByte(block, f, i, n)
      {
        fragment := fragment + [FragmentByte(block, f, i, j)];
      }
      fragments := fragments + [fragment];
    }
  }

  method CutPlain(af: seq<Byte>, f: nat, size: nat) returns (fragments: seq<seq<Byte>>)
    ensures |fragments| == f && forall i :: 0 <= i < f ==> fragments[i] == Stretch(af, size, i)
  {
    hide Stretch;
    fragments := [];
    for i := 0 to f
      invariant |fragments| == i && forall n :: 0 <= n < i ==> fragments[n] == Stretch(af, size, n)
    {
      var fragment: seq<Byte> := [];
      var j := 0;
      while j < size
        invariant j <= size
        invariant fragment
               == if i * size >= |af| then [] else if i * size + j <= |af| then af[i * size..i * size + j] else []
        invariant j == 0 || i * size + j <= |af|
      {
        var ix := i * size + j;
        if ix < |af| {
          fragment := fragment + [af[ix]];
        } else {
          break;
        }
        j := j + 1;
      }
      StretchIs(af, size, i, j, fragment);
      fragments := fragments + [fragment];
    }
  }

  lemma StretchIs(af: seq<Byte>, size: nat, i: nat, j: nat, fragment: seq<Byte>)
    requires j <= size && (j == 0 || i * size + j <= |af|)
    requires fragment == if i * size >= |af| then []
                         else if i * size + j <= |af| then af[i * size..i * size + j] else []
    requires j < size ==> i * size + j >= |af|
    ensures fragment == Stretch(af, size, i)
  {}

  /** The exception for overlong chunks is never thrown. */
  lemma ChunkNeverTooLong(l: nat, k: nat)
    requires l > 0 && 0 < k <= 207
    ensures ChunkLen(l, k) <= 207 && ZeroPad(l, k) < ChunkLen(l, k)
  {
    ChunkSizes(l, k);
  }

  lemma BlockIs(af: seq<Byte>, k: nat, padded: seq<Byte>)
    requires af != [] && 0 < k <= 207
    requires NumChunks(|af|, k) * ChunkLen(|af|, k) >= |af|
    requires padded == af + Zeros(NumChunks(|af|, k) * ChunkLen(|af|, k) - |af|)
    ensures ChunkLen(|af|, k) <= 207
    ensures RsBlock(af, k) == Blocks(padded, ChunkLen(|af|, k), NumChunks(|af|, k), NumChunks(|af|, k))
  {
    hide CeilDiv, Blocks;
    ChunkSizes(|af|, k);
  }

  /** The loop over the chunks: pad to 207 bytes, encode, drop the padding, append chunk and parity. */
  method ProtectChunks(encoder: ReedSolomon, padded: seq<Byte>, chunkLen: nat, ghost c: nat)
      returns (block: seq<Byte>)
    requires encoder.Valid() && encoder.n == 255 && encoder.k == 207 && !encoder.reverse && encoder.rs.fcr == 1
    requires 0 < chunkLen <= 207 && |padded| == c * chunkLen
    ensures block == Blocks(padded, chunkLen, c, c)
  {
    hide ParityOf, Blocks;
    block := [];
    var i := 0;
    ghost var done := 0;
    NoBlocks(padded, chunkLen, c);
    while i < |padded|
      invariant done <= c && i == done * chunkLen
      invariant block == Blocks(padded, chunkLen, c, done)
      decreases |padded| - i
    {
      NextChunk(done, c, chunkLen, |padded|);
      NextBlock(padded, chunkLen, c, done + 1);
      var chunk, parity := EncodeChunk(encoder, padded[i..i + chunkLen]);
      block := block + chunk + parity;
      i := i + chunkLen;
      done := done + 1;
    }
    AllChunks(done, c, chunkLen);
  }

  lemma NoBlocks(p: seq<Byte>, k: nat, c: nat)
    requires k <= 207 && |p| == c * k
    ensures Blocks(p, k, c, 0) == []
  {}

  lemma NextBlock(p: seq<Byte>, k: nat, c: nat, i: nat)
    requires k <= 207 && |p| == c * k && 0 < i <= c && (i - 1) * k + k <= |p|
    ensures Blocks(p, k, c, i) == Blocks(p, k, c, i - 1) + ProtectedChunk(p[(i - 1) * k..(i - 1) * k + k])
  {
    hide ProtectedChunk;
  }

  lemma NextChunk(done: nat, c: nat, k: nat, l: nat)
    requires k > 0 && done <= c && l == c * k && done * k < l
    ensures done < c && done * k + k <= l && (done + 1) * k == done * k + k
  {
    ChunkInside(if done < c then done else 0, if c > 0 then c else 1, k);
  }

  lemma AllChunks(done: nat, c: nat, k: nat)
    requires k > 0 && done <= c && done * k >= c * k
    ensures done == c
  {
    if done < c {
      ChunkInside(done, c, k);
    }
  }

  method EncodeChunk(encoder: ReedSolomon, part: seq<Byte>) returns (chunk: seq<Byte>, parity: seq<Byte>)
    requires encoder.Valid() && encoder.n == 255 && encoder.k == 207 && !encoder.reverse && encoder.rs.fcr == 1
    requires |part| <= 207
    ensures chunk + parity == ProtectedChunk(part)
  {
    hide ParityOf;
    var buffer, protection := new Byte[207](_ => ZERO), new Byte[PARITYBYTES](_ => ZERO);
    for j := 0 to |part|
      invariant forall n :: 0 <= n < j ==> buffer[n] == part[n]
      invariant forall n :: j <= n < 207 ==> buffer[n] == ZERO
    {
      buffer[j] := part[j];
    }
    assert buffer[..] == FullChunk(part);
    var ret := encoder.Encode(buffer, protection);
    chunk, parity := buffer[..|part|], protection[..];
  }
}
