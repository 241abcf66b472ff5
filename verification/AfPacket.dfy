/** AF packets: section 6 of ETSI TS 102 821. */
module AfPackets {
  import opened BigEndian
  import opened Bytes
  import opened Crc
  import opened CrcTable
  import opened TagItems
  import opened TagPackets
  import opened Wrappers

  /** "AF", the payload length, the sequence number, the version with the CRC flag, and 'T'. */
  function AfHeader(size: nat, seqNo: nat): (h: seq<Byte>)
    ensures |h| == 10
  {
    [Byte(0x41), Byte(0x46)] + Word32(size) + Word16(seqNo) + [Byte(0x80 | 0x10), Byte(0x54)]
  }

  function AfPacket(payload: seq<Byte>, seqNo: nat): seq<Byte> {
    var body := AfHeader(|payload|, seqNo) + payload;
    body + RegBytes(Complement(Serial(CCITT, Trues(16), body)))
  }

  datatype Fields = Fields(seqNo: nat, payload: seq<Byte>)

  /** What a receiver reads: sync word, length, CRC flag and protocol are checked, and so is the CRC. */
  function ReadAf(p: seq<Byte>): Option<Fields> {
    if |p| < 12 || p[..2] != [Byte(0x41), Byte(0x46)] || p[8..10] != [Byte(0x90), Byte(0x54)] then None
    else if |p| != 12 + Number(p[2..6]) || Serial(CCITT, Trues(16), p) != Word(0x1d0f) then None
    else Some(Fields(Number(p[6..8]), p[10..|p| - 2]))
  }

  lemma HeaderParts(size: nat, seqNo: nat, p: seq<Byte>)
    requires AfHeader(size, seqNo) <= p
    ensures p[..2] == [Byte(0x41), Byte(0x46)] && p[2..6] == Word32(size) && p[6..8] == Word16(seqNo)
    ensures p[8..10] == [Byte(0x90), Byte(0x54)]
  {
    hide Word32, Word16;
    var h := AfHeader(size, seqNo);
    assert h[..2] == p[..2] && h[2..6] == p[2..6] && h[6..8] == p[6..8] && h[8..10] == p[8..10];
  }

  /** Reading an AF packet gives back its sequence number and payload, for every payload. */
  lemma ReadAfBack(payload: seq<Byte>, seqNo: nat)
    requires |payload| < 0x1_0000_0000 && seqNo < 0x10000
    ensures ReadAf(AfPacket(payload, seqNo)) == Some(Fields(seqNo, payload))
  {
    hide Serial, Turn, RegBytes, Complement, Word, Number, Word32, Word16, AfHeader;
    var h, p := AfHeader(|payload|, seqNo), AfPacket(payload, seqNo);
    Residue(CCITT, Trues(16), h + payload);
    EdiResidue();
    HeaderParts(|payload|, seqNo, p);
    FourBytes(|payload|);
    SixteenBits(seqNo);
    assert p[10..|p| - 2] == payload;
  }

  lemma CcittOdd()
    ensures CCITT[15]
  {}

  /**
    A packet in which two adjacent bytes have been changed is never accepted: its CRC does not end at
    the constant.
   */
  lemma CorruptionDetected(before: seq<Byte>, x: seq<Byte>, y: seq<Byte>, after: seq<Byte>)
    requires |x| == |y| == 2 && x != y && ReadAf(before + x + after).Some?
    ensures ReadAf(before + y + after) == None
  {
    hide Serial, Word, Number;
    assert CCITT[15] by {
      CcittOdd();
    }
    BurstDetected(CCITT, Trues(16), before, x, y, after);
  }

  class AFPacketiser {
    var seqNo: nat

    predicate Valid()
      reads this
    {
      seqNo < 0x10000
    }

    constructor ()
      ensures Valid() && seqNo == 0
    {
      seqNo := 0;
    }

    method OverrideSeq(n: nat)
      requires n < 0x10000
      modifies this
      ensures Valid() && seqNo == n
    {
      seqNo := n;
    }

    /** An item that throws leaves the sequence number as it is. */
    method Assemble(tagPacket: TagPacket) returns (r: Result<seq<Byte>>, ghost payload: seq<Byte>)
      requires Valid() && Proper(tagPacket.tagItems)
      modifies this, Counters(tagPacket.tagItems)
      ensures Valid() && seqNo == if r.Ok? then (old(seqNo) + 1) % 0x10000 else old(seqNo)
      ensures r.Err? <==>
                tagPacket.tagItems != []
                && (tagPacket.rawTagpacket != [] || exists t :: t in tagPacket.tagItems && Throws(t))
      ensures r.Ok? ==> r.value == AfPacket(payload, old(seqNo))
      ensures r.Ok? && tagPacket.rawTagpacket == [] ==>
                payload == PacketOf(old(Written(tagPacket.tagItems, |tagPacket.tagItems|)), tagPacket.alignment)
      ensures r.Ok? && tagPacket.rawTagpacket != [] ==> payload == tagPacket.rawTagpacket
      ensures r.Ok? ==> forall d :: d in Counters(tagPacket.tagItems) ==>
                d.fields == old(d.fields) && d.Valid() && old(d.Valid())
                && d.dlfc == Advanced(old(d.dlfc), Occurrences(tagPacket.tagItems, d), 5000)
    {
      hide Turn, Word, StaticTable, RegBytes, Complement, Word16, Word32, PacketOf, Written, Throws, Advanced,
           Occurrences;
      var tagged, done := tagPacket.Assemble();
      payload := [];
      if tagged.Err? {
        return Err, payload;
      }
      assert tagPacket.tagItems[..|tagPacket.tagItems|] == tagPacket.tagItems;
      payload := tagged.value;
      var packet := [Byte(0x41), Byte(0x46)];
      packet := packet + Word32(|tagged.value|);
      packet := packet + Word16(seqNo);
      packet := packet + [Byte(0x80 | 0x10)];
      packet := packet + [Byte(0x54)];
      assert packet == AfHeader(|payload|, seqNo);
      seqNo := (seqNo + 1) % 0x10000;
      packet := packet + tagged.value;
      StaticTableCorrect();
      var crc := TableCrc(StaticTable(), Trues(16), packet, CCITT);
      packet := packet + RegBytes(Complement(crc));
      return Ok(packet), payload;
    }
  }

  /**
    From the items to the receiver: sequence number, every field that is transmitted, and frame
    counters that count on from assembly to assembly.
   */
  lemma ReceiverReadsItems(list: seq<Item>, alignment: nat, seqNo: nat)
    requires Sendable(list) && alignment < 0x1000_0000 && seqNo < 0x10000
    requires |PacketOf(list, alignment)| < 0x1_0000_0000
    ensures var af := ReadAf(AfPacket(PacketOf(list, alignment), seqNo));
            && af.Some? && af.value.seqNo == seqNo
            && var tags := ReadTags(af.value.payload);
               && tags.Some? && (forall t :: t in tags.value ==> |t.name| == 4)
               && ReadItems(tags.value) == Some(TransmittedAll(list + Trailer(alignment)))
  {
    hide PacketOf, AfPacket, ReadAf, ReadTags, ReadItems, TransmittedAll, TagsOf;
    ReadAfBack(PacketOf(list, alignment), seqNo);
    PacketReadBack(list, alignment);
  }
}
