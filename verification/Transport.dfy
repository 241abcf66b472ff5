/** The whole way of an AF packet: what the PFT packets that arrive say about it. */
module Transport {
  import opened Bytes
  import opened Counting
  import opened Loss
  import opened PacketLayout
  import opened Recovery
  import opened Pft
  import opened Wrappers

  /** The sizes that fit the header fields Plen and Fcount. */
  predicate Transmissible(l: nat, k: nat, m: nat) {
    && l > 0 && k <= 207
    && (m > 0 ==> k > 0 && MaxPayload(l, k, m) > 0)
    && (m > 0 ==> FragmentSize(l, k, m) < 0x4000 && NumFragments(l, k, m) < 0x100_0000)
    && (m == 0 ==> PlainCount(l) < 0x100_0000)
  }

  /** What a receiver reads from packet i. */
  lemma PacketRead(af: seq<Byte>, k: nat, m: nat, pseq: nat, i: nat)
    requires Transmissible(|af|, k, m) && pseq < 0x10000 && i < |PacketsOf(af, k, m, pseq)|
    ensures var fs, fec := FragmentsOf(af, k, m), m > 0;
            && |PacketsOf(af, k, m, pseq)| == |fs| && |fs[i]| < 0x4000
            && PftPacket.ParsePacket(PacketsOf(af, k, m, pseq)[i])
               == Some(PftPacket.Fields(pseq, i, |fs|, fec, if fec then ChunkLen(|af|, k) else 0,
                                                  if fec then ZeroPad(|af|, k) else 0, fs[i]))
  {
    hide PftPacket.ParsePacket, PftPacket.Packet, PftPacket.Header, MaxPayload, NumFragments, FragmentSize, ChunkLen,
         ZeroPad, RsBlock, Stretch;
    var fs := FragmentsOf(af, k, m);
    if m == 0 {
      PlainFragmentsJoin(af);
    } else {
      ChunkSizes(|af|, k);
      ChunkNeverTooLong(|af|, k);
    }
    PftPacket.ParsePacketRoundTrip(pseq, i, |fs|, m > 0, if m > 0 then ChunkLen(|af|, k) else 0,
                                   if m > 0 then ZeroPad(|af|, k) else 0, fs[i]);
  }

  ghost predicate SameReceived(p: seq<seq<Byte>>, q: seq<seq<Byte>>, lost: set<nat>) {
    forall i: nat :: (i < |p| || i < |q|) && i !in lost ==> i < |p| && i < |q| && p[i] == q[i]
  }

  /** Whichever of the two AF packets was sent, the packets at the positions that are not lost are the same. */
  ghost predicate Indistinguishable(a: seq<Byte>, b: seq<Byte>, k: nat, m: nat, pseq: nat, lost: set<nat>)
    requires Transmissible(|a|, k, m) && Transmissible(|b|, k, m) && m > 0 && pseq < 0x10000
  {
    SameReceived(PacketsOf(a, k, m, pseq), PacketsOf(b, k, m, pseq), lost)
  }

  /** t lost packets never take more than 48 bytes of a chunk. */
  predicate Bearable(l: nat, k: nat, m: nat, t: nat)
    requires Transmissible(l, k, m) && m > 0
  {
    SomeFragments(l, k, m);
    WorstLoss(ChunkLen(l, k) + PARITYBYTES, NumFragments(l, k, m), t) <= PARITYBYTES
  }

  /** After a bearable loss some packet is left. */
  lemma SomethingArrives(l: nat, k: nat, m: nat, lost: set<nat>) returns (i: nat)
    requires Transmissible(l, k, m) && m > 0 && Bearable(l, k, m, |lost|)
    ensures i < NumFragments(l, k, m) && i !in lost
  {
    hide MaxPayload, NumFragments, FragmentSize, ChunkLen, WorstLoss;
    var f := NumFragments(l, k, m);
    ChunkSizes(l, k);
    SomeFragments(l, k, m);
    if Range(0, f) <= lost {
      SubsetSize(Range(0, f), lost);
      WorstLossOfAll(ChunkLen(l, k) + PARITYBYTES, f, |lost|);
    }
    i :| i in Range(0, f) && i !in lost;
  }

  /** One packet that both would send gives away the length of the AF packet. */
  lemma SameLength(a: seq<Byte>, b: seq<Byte>, k: nat, m: nat, pseq: nat, i: nat)
    requires Transmissible(|a|, k, m) && Transmissible(|b|, k, m) && 0 < m < PARITYBYTES && pseq < 0x10000
    requires i < |PacketsOf(a, k, m, pseq)| && i < |PacketsOf(b, k, m, pseq)|
    requires PacketsOf(a, k, m, pseq)[i] == PacketsOf(b, k, m, pseq)[i]
    ensures |a| == |b|
  {
    hide MaxPayload, NumFragments, FragmentSize, NumChunks, ChunkLen, ZeroPad, RsBlock, PftPacket.ParsePacket,
         PacketsOf;
    PacketRead(a, k, m, pseq, i);
    PacketRead(b, k, m, pseq, i);
    ReceiverRecoversSizes(|a|, k, m);
    ReceiverRecoversSizes(|b|, k, m);
  }

  /**
    The promise of the transport: any packets of a PFT sequence whose loss is bearable determine the
    AF packet that was sent, and for m < 48 its length as well.
   */
  lemma TransportTolerance(a: seq<Byte>, b: seq<Byte>, k: nat, m: nat, pseq: nat, lost: set<nat>)
    requires Transmissible(|a|, k, m) && Transmissible(|b|, k, m) && m > 0 && pseq < 0x10000
    requires m < PARITYBYTES || |a| == |b|
    requires Bearable(|a|, k, m, |lost|) && Indistinguishable(a, b, k, m, pseq, lost)
    ensures a == b
  {
    hide MaxPayload, NumFragments, FragmentSize, NumChunks, ChunkLen, ZeroPad, RsBlock, PftPacket.ParsePacket,
         WorstLoss, PacketOf, SameOutside;
    var i := SomethingArrives(|a|, k, m, lost);
    if |a| != |b| {
      SameLength(a, b, k, m, pseq, i);
    }
    FragmentsAgree(a, b, k, m, pseq, lost);
    SomeFragments(|a|, k, m);
    FewLossesRecover(a, b, k, m, lost);
  }

  lemma FragmentsAgree(a: seq<Byte>, b: seq<Byte>, k: nat, m: nat, pseq: nat, lost: set<nat>)
    requires |a| == |b| && Transmissible(|a|, k, m) && m > 0 && pseq < 0x10000
    requires Indistinguishable(a, b, k, m, pseq, lost)
    ensures SameOutside(RsFragments(a, k, m), RsFragments(b, k, m), lost)
  {
    hide MaxPayload, NumFragments, FragmentSize, NumChunks, ChunkLen, ZeroPad, RsBlock, PftPacket.ParsePacket, PacketOf;
    var fs, gs := RsFragments(a, k, m), RsFragments(b, k, m);
    forall n: nat | n < |fs| && n !in lost ensures fs[n] == gs[n] {
      PacketRead(a, k, m, pseq, n);
      PacketRead(b, k, m, pseq, n);
    }
  }

  /** For these m every loss of up to m packets is bearable, whatever the packet length. */
  lemma AnyLostPackets(l: nat, k: nat, m: nat, t: nat)
    requires Transmissible(l, k, m) && m > 0 && t <= m
    requires m * CeilDiv(PARITYBYTES, m + 1) <= PARITYBYTES
    ensures Bearable(l, k, m, t)
  {
    hide MaxPayload, NumFragments, FragmentSize, ChunkLen, WorstLoss, Recoverable, CeilDiv;
    PromiseKept(l, k, m);
    LossTolerance(l, k, m, m);
    WorstLossMonotone(ChunkLen(l, k) + PARITYBYTES, NumFragments(l, k, m), t, m);
  }

  /** The promise of the configuration, exactly, for every m with which anything can be sent at all. */
  lemma PacketPromiseExactly(m: nat, someL: nat, someK: nat)
    requires m > 0 && Transmissible(someL, someK, m)
    ensures (forall l, k :: Transmissible(l, k, m) ==> Bearable(l, k, m, m))
            <==> m * CeilDiv(PARITYBYTES, m + 1) <= PARITYBYTES
  {
    hide MaxPayload, NumFragments, FragmentSize, ChunkLen, WorstLoss, Recoverable, CeilDiv, Transmissible, Bearable;
    if m * CeilDiv(PARITYBYTES, m + 1) <= PARITYBYTES {
      forall l, k | Transmissible(l, k, m) ensures Bearable(l, k, m, m) {
        AnyLostPackets(l, k, m, m);
      }
    } else if m <= PARITYBYTES {
      WitnessIsUnbearable(m);
    } else {
      TooManyLost(someL, someK, m);
    }
  }

  lemma WitnessIsUnbearable(m: nat)
    requires 0 < m <= PARITYBYTES < m * CeilDiv(PARITYBYTES, m + 1)
    ensures Transmissible(192 * (m + 1), 192, m) && !Bearable(192 * (m + 1), 192, m, m)
  {
    hide MaxPayload, NumFragments, FragmentSize, ChunkLen, WorstLoss, CeilDiv;
    WitnessSizes(m);
    WitnessLoss(m);
  }

  lemma TooManyLost(l: nat, k: nat, m: nat)
    requires Transmissible(l, k, m) && m > PARITYBYTES
    ensures !Bearable(l, k, m, m)
  {
    hide MaxPayload, NumFragments, FragmentSize, ChunkLen, WorstLoss, Recoverable;
    BeyondParity(l, k, m);
    LossTolerance(l, k, m, m);
  }

  /** Beyond a bearable loss, two AF packets of that length exist that the receiver cannot tell apart. */
  lemma UnbearableLoss(l: nat, k: nat, m: nat, t: nat, pseq: nat) returns (a: seq<Byte>, b: seq<Byte>, lost: set<nat>)
    requires Transmissible(l, k, m) && m > 0 && pseq < 0x10000 && !Bearable(l, k, m, t)
    ensures |a| == |b| == l && a != b && |lost| <= t && Indistinguishable(a, b, k, m, pseq, lost)
  {
    hide MaxPayload, NumFragments, FragmentSize, NumChunks, ChunkLen, ZeroPad, RsBlock, WorstLoss, RsFragments;
    SomeFragments(l, k, m);
    var n, f := ChunkLen(l, k) + PARITYBYTES, NumFragments(l, k, m);
    var s := if t <= f then t else f;
    if t > f {
      FirstChunkIsData(l, k);
      WorstLossOfAll(n, f, f);
    }
    a, b := ManyLossesHide(l, k, m, s);
    lost := Range(0, s);
    PacketsAgree(a, b, k, m, pseq, lost);
  }

  lemma PacketsAgree(a: seq<Byte>, b: seq<Byte>, k: nat, m: nat, pseq: nat, lost: set<nat>)
    requires |a| == |b| && Transmissible(|a|, k, m) && m > 0 && pseq < 0x10000
    requires SameOutside(RsFragments(a, k, m), RsFragments(b, k, m), lost)
    ensures Indistinguishable(a, b, k, m, pseq, lost)
  {
    hide MaxPayload, NumFragments, FragmentSize, NumChunks, ChunkLen, ZeroPad, RsFragments, PftPacket.Packet,
         PftPacket.Header;
  }

  //////////////////////////////////////////////////////////////////////////////
  //
  // The receiver without losses
  //
  //////////////////////////////////////////////////////////////////////////////

  /** The data of the first i protected chunks of a block. */
  function DataParts(block: seq<Byte>, k: nat, i: nat): seq<Byte>
    requires At(i, k + PARITYBYTES, 0) <= |block|
  {
    if i == 0 then []
    else
      BlockLength(i, k + PARITYBYTES);
      var at := At(i - 1, k + PARITYBYTES, 0);
      DataParts(block, k, i - 1) + block[at..at + k]
  }

  /** De-interleave, strip the parity of as many chunks as fit, and drop the padding. */
  function Receive(fs: seq<seq<Byte>>, size: nat, rsk: nat, rsz: nat): seq<Byte>
    requires forall i :: 0 <= i < |fs| ==> |fs[i]| == size
  {
    var block := Deinterleave(fs, size);
    var c := |block| / (rsk + PARITYBYTES);
    WholeChunks(|block|, rsk + PARITYBYTES);
    var data := DataParts(block, rsk, c);
    if rsz <= |data| then data[..|data| - rsz] else []
  }

  lemma WholeChunks(l: nat, n: nat)
    requires n > 0
    ensures l / n * n <= l
  {}

  lemma {:induction false} DataOfBlocks(p: seq<Byte>, k: nat, c: nat, i: nat, block: seq<Byte>)
    requires k <= 207 && |p| == c * k && i <= c && Blocks(p, k, c, i) <= block
    ensures At(i, k + PARITYBYTES, 0) <= |block| && At(i, k, 0) <= |p|
    ensures DataParts(block, k, i) == p[..At(i, k, 0)]
  {
    hide ProtectedChunk, Blocks, DataParts;
    if i == 0 {
      NoData(block, k);
    } else {
      var from, until := At(i - 1, k, 0), At(i, k, 0);
      ChunkInside(i - 1, c, k);
      BlockLength(i, k);
      BlockLength(i, k + PARITYBYTES);
      NextBlock(p, k, c, i);
      DataOfBlocks(p, k, c, i - 1, block);
      var before, chunk := Blocks(p, k, c, i - 1), p[from..until];
      ChunkFirst(chunk);
      NextData(before, chunk, ProtectedChunk(chunk), block, At(i - 1, k + PARITYBYTES, 0));
      DataPartsNext(block, k, i);
      assert p[..until] == p[..from] + chunk;
    }
  }

  lemma NoData(block: seq<Byte>, k: nat)
    ensures DataParts(block, k, 0) == []
  {}

  lemma DataPartsNext(block: seq<Byte>, k: nat, i: nat)
    requires i > 0 && At(i, k + PARITYBYTES, 0) <= |block|
    ensures var at := At(i - 1, k + PARITYBYTES, 0);
            at + k <= |block| && DataParts(block, k, i) == DataParts(block, k, i - 1) + block[at..at + k]
  {
    BlockLength(i, k + PARITYBYTES);
  }

  lemma NextData(before: seq<Byte>, chunk: seq<Byte>, protected: seq<Byte>, block: seq<Byte>, at: nat)
    requires at == |before| && before + protected <= block && chunk <= protected
    ensures at + |chunk| <= |block| && block[at..at + |chunk|] == chunk
  {
    assert block[at..at + |chunk|] == (before + protected)[at..at + |chunk|];
  }

  lemma ChunkFirst(chunk: seq<Byte>)
    requires |chunk| <= 207
    ensures chunk <= ProtectedChunk(chunk)
  {}

  /** From all fragments of a protected packet the receiver gets the AF packet back. */
  lemma ReceiveAll(af: seq<Byte>, k: nat, m: nat)
    requires af != [] && 0 < k <= 207 && m < PARITYBYTES
    ensures MaxPayload(|af|, k, m) > 0
    ensures Receive(RsFragments(af, k, m), FragmentSize(|af|, k, m), ChunkLen(|af|, k), ZeroPad(|af|, k)) == af
  {
    hide MaxPayload, NumFragments, CeilDiv, Blocks, Interleave, Deinterleave, DataParts;
    var l := |af|;
    ReceiverRecoversSizes(l, k, m);
    SomeFragments(l, k, m);
    ChunkSizes(l, k);
    var c, rsk := NumChunks(l, k), ChunkLen(l, k);
    var block := RsBlock(af, k);
    var whole := Deinterleave(RsFragments(af, k, m), FragmentSize(l, k, m));
    DeinterleaveInterleave(block, NumFragments(l, k, m), FragmentSize(l, k, m));
    DataOfBlocks(Padded(af, k), rsk, c, c, whole);
  }

  /** Without protection all packets are needed, and they suffice. */
  lemma PlainTransport(a: seq<Byte>, b: seq<Byte>, k: nat, pseq: nat)
    requires Transmissible(|a|, k, 0) && Transmissible(|b|, k, 0) && pseq < 0x10000
    requires PacketsOf(a, k, 0, pseq) == PacketsOf(b, k, 0, pseq)
    ensures a == b
  {
    hide Stretch, PlainCount, PlainSize, PftPacket.ParsePacket, PacketOf;
    var fs, gs := PlainFragments(a), PlainFragments(b);
    assert |PacketsOf(a, k, 0, pseq)| == |fs| && |PacketsOf(b, k, 0, pseq)| == |gs|;
    forall n: nat | n < |fs| ensures fs[n] == gs[n] {
      PacketRead(a, k, 0, pseq, n);
      PacketRead(b, k, 0, pseq, n);
    }
    PlainFragmentsJoin(a);
    PlainFragmentsJoin(b);
    assert fs == gs;
  }
}
