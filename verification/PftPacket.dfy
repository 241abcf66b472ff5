/** The packets of a PFT sequence: section 7.1 of ETSI TS 102 821. */
module PftPacket {
  import opened BigEndian
  import opened Bytes
  import opened Crc
  import opened Wrappers

  /** Plen with the FEC bit set. */
  function WithFecBit(plen: nat): nat {
    if plen / 0x8000 % 2 == 1 then plen else plen + 0x8000
  }

  /** The fields of the header that vary; RSk and RSz are present with FEC only. */
  function Header(pseq: nat, findex: nat, fcount: nat, size: nat, fec: bool, k: nat, z: nat): seq<Byte> {
    var plen := if fec then WithFecBit(size) else size;
    [Low(0x50), Low(0x46)] + Word16(pseq) + Word24(findex) + Word24(fcount) + Word16(plen)
    + (if fec then [Low(k), Low(z)] else [])
  }

  /** Header, its complemented CRC, and the fragment. */
  function Packet(h: seq<Byte>, fragment: seq<Byte>): seq<Byte> {
    h + RegBytes(Complement(Serial(CCITT, Trues(16), h))) + fragment
  }

  datatype Fields = Fields(pseq: nat, findex: nat, fcount: nat, fec: bool, rsk: nat, rsz: nat, payload: seq<Byte>)

  /** The length of the header that the flags announce. */
  function HeaderLen(fec: bool, addr: bool): nat {
    12 + (if fec then 2 else 0) + (if addr then 4 else 0)
  }

  /** What a receiver of section 7 of ETSI TS 102 821 reads from a packet. */
  function ParsePacket(p: seq<Byte>): Option<Fields> {
    if |p| < 14 || p[..2] != [Low(0x50), Low(0x46)] then None
    else
      var word := Number(p[10..12]);
      var fec, addr, plen := word / 0x8000 % 2 == 1, word / 0x4000 % 2 == 1, word % 0x4000;
      var n := HeaderLen(fec, addr);
      if |p| < n + 2 || Serial(CCITT, Trues(16), p[..n + 2]) != Word(0x1d0f) then None
      else if |p| != n + 2 + plen then None
      else
        Some(Fields(Number(p[2..4]), Number(p[4..7]), Number(p[7..10]), fec,
                    if fec then Value(p[12]) else 0, if fec then Value(p[13]) else 0, p[n + 2..]))
  }

  /** The check bytes drive the CRC to its constant; behind them is the fragment. */
  lemma PacketParts(h: seq<Byte>, fragment: seq<Byte>)
    ensures var p := Packet(h, fragment);
            && |p| == |h| + 2 + |fragment| && h <= p && p[|h| + 2..] == fragment
            && Serial(CCITT, Trues(16), p[..|h| + 2]) == Word(0x1d0f)
  {
    hide Serial, Turn, RegBytes, Complement, Word;
    var check := RegBytes(Complement(Serial(CCITT, Trues(16), h)));
    assert Packet(h, fragment)[..|h| + 2] == h + check;
    Residue(CCITT, Trues(16), h);
    EdiResidue();
  }

  /** Where the header fields stand in a packet. */
  lemma HeaderParts(pseq: nat, findex: nat, fcount: nat, size: nat, fec: bool, k: nat, z: nat, p: seq<Byte>)
    requires size < 0x4000
    requires Header(pseq, findex, fcount, size, fec, k, z) <= p
    ensures |Header(pseq, findex, fcount, size, fec, k, z)| == HeaderLen(fec, false) <= |p|
    ensures p[..2] == [Low(0x50), Low(0x46)]
    ensures p[2..4] == [Low(pseq / 0x100), Low(pseq)]
    ensures p[4..7] == [Low(findex / 0x10000), Low(findex / 0x100), Low(findex)]
    ensures p[7..10] == [Low(fcount / 0x10000), Low(fcount / 0x100), Low(fcount)]
    ensures Number(p[10..12]) == if fec then size + 0x8000 else size
    ensures fec ==> p[12] == Low(k) && p[13] == Low(z)
  {
    hide Low, Number;
    var plen := if fec then WithFecBit(size) else size;
    TwoBytes(plen);
    assert p[10..12] == [Low(plen / 0x100), Low(plen)];
  }

  /** Reading a packet gives back what went into it. */
  lemma ParsePacketRoundTrip(pseq: nat, findex: nat, fcount: nat, fec: bool, k: nat, z: nat, fragment: seq<Byte>)
    requires pseq < 0x10000 && findex < 0x1000000 && fcount < 0x1000000 && |fragment| < 0x4000
    requires k < 0x100 && z < 0x100
    ensures ParsePacket(Packet(Header(pseq, findex, fcount, |fragment|, fec, k, z), fragment))
         == Some(Fields(pseq, findex, fcount, fec, if fec then k else 0, if fec then z else 0, fragment))
  {
    hide Low, Value, Number, Header, Packet, Serial, Word, Trues;
    var h := Header(pseq, findex, fcount, |fragment|, fec, k, z);
    var p := Packet(h, fragment);
    PacketParts(h, fragment);
    HeaderParts(pseq, findex, fcount, |fragment|, fec, k, z, p);
    TwoBytes(pseq);
    ThreeBytes(findex);
    ThreeBytes(fcount);
    LowValue(k);
    LowValue(z);
  }
}
