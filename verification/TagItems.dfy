/** TAG items and TAG packets: section 5 of ETSI TS 102 821 and ETSI TS 102 693. */
module TagItems {
  import opened BigEndian
  import opened Bytes
  import opened Wrappers

  //////////////////////////////////////////////////////////////////////////////
  //
  // Tags on the wire
  //
  //////////////////////////////////////////////////////////////////////////////

  /** A name of four bytes and a value; the length field counts bits. */
  datatype Tag = Tag(name: seq<Byte>, value: seq<Byte>)

  function WriteTag(t: Tag): seq<Byte> {
    t.name + Word32(|t.value| * 8) + t.value
  }

  function WriteTags(ts: seq<Tag>): seq<Byte> {
    if ts == [] then [] else WriteTags(ts[..|ts| - 1]) + WriteTag(ts[|ts| - 1])
  }

  /** A receiver walks from length to length; fewer than eight bytes at the end are padding. */
  function ReadTags(p: seq<Byte>): Option<seq<Tag>>
    decreases |p|
  {
    if |p| < 8 then Some([])
    else
      var bits := Number(p[4..8]);
      var n := bits / 8;
      if bits % 8 != 0 || |p| < 8 + n then None
      else
        match ReadTags(p[8 + n..])
        case None => None
        case Some(ts) => Some([Tag(p[..4], p[8..8 + n])] + ts)
  }

  predicate Writable(t: Tag) {
    |t.name| == 4 && |t.value| < 0x2000_0000
  }

  lemma {:induction false} WriteTagsCons(t: Tag, ts: seq<Tag>)
    ensures WriteTags([t] + ts) == WriteTag(t) + WriteTags(ts)
  {
    hide WriteTag;
    if ts == [] {
      assert [t] + ts == [t] && [t][..0] == [];
    } else {
      var n := |ts| - 1;
      assert ([t] + ts)[..|[t] + ts| - 1] == [t] + ts[..n];
      WriteTagsCons(t, ts[..n]);
    }
  }

  lemma ReadFirst(t: Tag, rest: seq<Byte>)
    requires Writable(t)
    ensures ReadTags(WriteTag(t) + rest)
         == match ReadTags(rest) case None => None case Some(ts) => Some([t] + ts)
  {
    hide Number, Word32;
    var p, n := WriteTag(t) + rest, |t.value|;
    FourBytes(n * 8);
    assert p[..4] == t.name && p[4..8] == Word32(n * 8);
    assert p[8..8 + n] == t.value && p[8 + n..] == rest;
  }

  /** Walking over the bytes of any list of tags, padded or not, gives back the list. */
  lemma {:induction false} ReadTagsWriteTags(ts: seq<Tag>, padding: seq<Byte>)
    requires (forall t :: t in ts ==> Writable(t)) && |padding| < 8
    ensures ReadTags(WriteTags(ts) + padding) == Some(ts)
  {
    hide WriteTag;
    if ts == [] {
      assert WriteTags(ts) + padding == padding;
    } else {
      var t, rest := ts[0], ts[1..];
      assert ts == [t] + rest;
      WriteTagsCons(t, rest);
      assert WriteTags(ts) + padding == WriteTag(t) + (WriteTags(rest) + padding);
      ReadTagsWriteTags(rest, padding);
      ReadFirst(t, WriteTags(rest) + padding);
    }
  }

  //////////////////////////////////////////////////////////////////////////////
  //
  // The items
  //
  //////////////////////////////////////////////////////////////////////////////

  /** The fields of a DSTI item except its frame counter. */
  datatype DstiFields = DstiFields(
    stihf: bool, atstf: bool, rfadf: bool, stat: Byte, spid: nat, utco: Byte, seconds: nat, tsta: nat, rfad: seq<Byte>)

  /** The kinds of item that the companion sends; a DSTI item carries the counter it is written with. */
  datatype Item =
    | StarPtr(protocol: seq<Byte>)
    | Dsti(fields: DstiFields, dlfc: nat)
    | Ssm(id: nat, rfa: nat, tid: nat, tidext: nat, crcstf: bool, stid: nat, istd: seq<Byte>)
    | OdrVersion(version: seq<Byte>, uptime: nat)
    | OdrAudioLevels(left: int, right: int)
    | StarDmy(length: nat)

  /** The ranges of the C++ fields, and the bounds that the constructors check. */
  predicate Typed(i: Item) {
    match i
    case StarPtr(protocol) => |protocol| == 4
    case Dsti(f, dlfc) =>
      f.spid < 0x10000 && f.seconds < 0x1_0000_0000 && f.tsta < 0x1_0000_0000 && |f.rfad| == 9 && dlfc < 0x10000
    case Ssm(id, rfa, tid, tidext, _, stid, istd) =>
      id < 0x10000 && rfa < 0x100 && tid < 0x100 && tidext < 0x100 && stid < 0x10000 && |istd| < 0x1000_0000
    case OdrVersion(version, uptime) => |version| < 0x1000_0000 && uptime < 0x1_0000_0000
    case OdrAudioLevels(left, right) => -0x8000 <= left < 0x8000 && -0x8000 <= right < 0x8000
    case StarDmy(length) => length < 0x1000_0000
  }

  /** The bounds that TagSSm checks when it is assembled. */
  predicate InRange(i: Item) {
    i.Ssm? ==> i.rfa <= 0x1F && i.tid <= 0x7 && i.tidext <= 0x7 && i.stid <= 0xFFF
  }

  /** Counters that the five bits of DFCTH can carry; the program's own stay below 5000. */
  predicate Legible(i: Item) {
    i.Dsti? ==> i.dlfc < 8000
  }

  // the names "*ptr", "dsti", "ss", "ODRv", "ODRa" and "*dmy"
  const PTR := [Byte(0x2A), Byte(0x70), Byte(0x74), Byte(0x72)]
  const DSTI := [Byte(0x64), Byte(0x73), Byte(0x74), Byte(0x69)]
  const SS := [Byte(0x73), Byte(0x73)]
  const ODR_V := [Byte(0x4F), Byte(0x44), Byte(0x52), Byte(0x76)]
  const ODR_A := [Byte(0x4F), Byte(0x44), Byte(0x52), Byte(0x61)]
  const DMY := [Byte(0x2A), Byte(0x64), Byte(0x6D), Byte(0x79)]

  function Bit(b: bool): (n: nat)
    ensures n < 2 && (n == 1 <==> b)
  {
    if b then 1 else 0
  }

  /** The counter's high part as eight bits, as wide as the variable that holds it. */
  function Dfcth(dlfc: nat): (h: nat)
    ensures h < 0x100
  {
    dlfc / 250 % 0x100
  }

  /** The flags RFADF, ATSTF and STIHF are ored onto the upper three bits of DFCTH. */
  function DstiHighByte(f: DstiFields, dlfc: nat): nat {
    var h := Dfcth(dlfc);
    h % 0x20 + Bit(f.rfadf || h / 0x20 % 2 == 1) * 0x20 + Bit(f.atstf || h / 0x40 % 2 == 1) * 0x40
    + Bit(f.stihf || h / 0x80 % 2 == 1) * 0x80
  }

  function DstiHeader(f: DstiFields, dlfc: nat): (s: seq<Byte>)
    ensures |s| == 2
  {
    [Low(DstiHighByte(f, dlfc)), Low(dlfc % 250)]
  }

  function StiPart(f: DstiFields): seq<Byte> {
    if f.stihf then [f.stat] + Word16(f.spid) else []
  }

  function AtstPart(f: DstiFields): seq<Byte> {
    if f.atstf then [f.utco] + Word32(f.seconds) + Word24(f.tsta) else []
  }

  function RfadPart(f: DstiFields): seq<Byte> {
    if f.rfadf then f.rfad else []
  }

  /** ISTC, for fields in their ranges: five bits of RFA, TID, TIDEXT and CRCSTF, and twelve bits of STID. */
  function SsmHeader(rfa: nat, tid: nat, tidext: nat, crcstf: bool, stid: nat): (s: seq<Byte>)
    ensures |s| == 3
  {
    [Low(rfa * 8 + tid), Low(tidext * 0x20 + Bit(crcstf) * 0x10 + stid / 0x100), Low(stid)]
  }

  function SpareBytes(n: nat): (s: seq<Byte>)
    ensures |s| == n
  {
    seq(n, _ => ZERO)
  }

  function NameOf(i: Item): (s: seq<Byte>)
    ensures |s| == 4
  {
    match i
    case StarPtr(_) => PTR
    case Dsti(_, _) => DSTI
    case Ssm(id, _, _, _, _, _, _) => SS + Word16(id)
    case OdrVersion(_, _) => ODR_V
    case OdrAudioLevels(_, _) => ODR_A
    case StarDmy(_) => DMY
  }

  function ValueOf(i: Item): seq<Byte> {
    match i
    case StarPtr(protocol) => protocol + Word16(0) + Word16(0)
    case Dsti(f, dlfc) =>
      DstiHeader(f, dlfc) + StiPart(f) + AtstPart(f) + RfadPart(f)
    case Ssm(_, rfa, tid, tidext, crcstf, stid, istd) =>
      SsmHeader(rfa, tid, tidext, crcstf, stid) + istd
    case OdrVersion(version, uptime) => version + Word32(uptime)
    case OdrAudioLevels(left, right) => Word16(left % 0x10000) + Word16(right % 0x10000)
    case StarDmy(length) => SpareBytes(length)
  }

  function TagOf(i: Item): Tag {
    Tag(NameOf(i), ValueOf(i))
  }

  //////////////////////////////////////////////////////////////////////////////
  //
  // Reading items
  //
  //////////////////////////////////////////////////////////////////////////////

  function Signed(x: nat): int {
    if x < 0x8000 then x else x - 0x10000
  }

  /** The optional fields of a DSTI value; what is absent reads as zero. */
  function ReadDsti(v: seq<Byte>): Option<Item> {
    if |v| < 2 then None
    else
      var rfadf, atstf, stihf := Flag(v[0], 0x20), Flag(v[0], 0x40), Flag(v[0], 0x80);
      var a := if stihf then 5 else 2;
      var b := if atstf then a + 8 else a;
      if |v| != if rfadf then b + 9 else b then None
      else
        Some(Dsti(ReadFields(stihf, atstf, rfadf, v[2..a], v[a..b], v[b..]), Value(v[0]) % 0x20 * 250 + Value(v[1])))
  }

  function Flag(b: Byte, weight: nat): bool
    requires weight > 0
  {
    Value(b) / weight % 2 == 1
  }

  function ReadFields(stihf: bool, atstf: bool, rfadf: bool, sti: seq<Byte>, atst: seq<Byte>,
                      rfad: seq<Byte>): DstiFields
    requires (stihf ==> |sti| == 3) && (atstf ==> |atst| == 8)
  {
    DstiFields(stihf, atstf, rfadf,
               if stihf then sti[0] else ZERO, if stihf then Number(sti[1..]) else 0,
               if atstf then atst[0] else ZERO, if atstf then Number(atst[1..5]) else 0,
               if atstf then Number(atst[5..]) else 0,
               if rfadf then rfad else SpareBytes(9))
  }

  function ReadSsm(id: nat, v: seq<Byte>): Option<Item> {
    if |v| < 3 then None
    else
      var x, y := Value(v[0]), Value(v[1]);
      Some(Ssm(id, x / 8, x % 8, y / 0x20, y / 0x10 % 2 == 1, y % 0x10 * 0x100 + Value(v[2]), v[3..]))
  }

  /** The item that a tag carries, by the names "*ptr", "dsti", "ODRv", "ODRa", "*dmy" and "ss" of the standards. */
  function ReadItem(t: Tag): Option<Item>
    requires |t.name| == 4
  {
    var v := t.value;
    if t.name == [Byte(0x2A), Byte(0x70), Byte(0x74), Byte(0x72)] then
      if |v| == 8 && v[4..] == Word16(0) + Word16(0) then Some(StarPtr(v[..4])) else None
    else if t.name == [Byte(0x64), Byte(0x73), Byte(0x74), Byte(0x69)] then ReadDsti(v)
    else if t.name == [Byte(0x4F), Byte(0x44), Byte(0x52), Byte(0x76)] then
      if |v| >= 4 then Some(OdrVersion(v[..|v| - 4], Number(v[|v| - 4..]))) else None
    else if t.name == [Byte(0x4F), Byte(0x44), Byte(0x52), Byte(0x61)] then
      if |v| == 4 then Some(OdrAudioLevels(Signed(Number(v[..2])), Signed(Number(v[2..])))) else None
    else if t.name == [Byte(0x2A), Byte(0x64), Byte(0x6D), Byte(0x79)] then Some(StarDmy(|v|))
    else if t.name[..2] == [Byte(0x73), Byte(0x73)] then ReadSsm(Number(t.name[2..]), v)
    else None
  }

  /** What of an item is on the wire: absent optional fields and the upper bits of TSTA are not. */
  function Transmitted(i: Item): Item {
    if !i.Dsti? then i
    else
      var f := i.fields;
      i.(fields := DstiFields(f.stihf, f.atstf, f.rfadf,
                              if f.stihf then f.stat else ZERO, if f.stihf then f.spid else 0,
                              if f.atstf then f.utco else ZERO, if f.atstf then f.seconds else 0,
                              if f.atstf then f.tsta % 0x1000000 else 0,
                              if f.rfadf then f.rfad else SpareBytes(9)))
  }

  /** Three flags above five bits. */
  lemma HeaderBits(c: nat, r: nat, a: nat, s: nat)
    requires c < 32 && r < 2 && a < 2 && s < 2
    ensures var h := c + r * 0x20 + a * 0x40 + s * 0x80;
            h < 256 && h % 0x20 == c && h / 0x20 % 2 == r && h / 0x40 % 2 == a && h / 0x80 % 2 == s
  {
    var h := c + r * 0x20 + a * 0x40 + s * 0x80;
    assert h / 0x20 == r + a * 2 + s * 4 && h / 0x40 == a + s * 2 && h / 0x80 == s;
  }

  lemma HighByteBits(f: DstiFields, dlfc: nat)
    ensures var v, h := DstiHighByte(f, dlfc), Dfcth(dlfc);
            && v < 256 && v % 0x20 == h % 0x20
            && (v / 0x20 % 2 == 1 <==> f.rfadf || h / 0x20 % 2 == 1)
            && (v / 0x40 % 2 == 1 <==> f.atstf || h / 0x40 % 2 == 1)
            && (v / 0x80 % 2 == 1 <==> f.stihf || h / 0x80 % 2 == 1)
  {
    hide Bit, Dfcth;
    var h := Dfcth(dlfc);
    HeaderBits(h % 0x20, Bit(f.rfadf || h / 0x20 % 2 == 1), Bit(f.atstf || h / 0x40 % 2 == 1),
               Bit(f.stihf || h / 0x80 % 2 == 1));
  }

  lemma HeaderBack(f: DstiFields, dlfc: nat)
    requires dlfc < 0x10000
    ensures var h := DstiHeader(f, dlfc);
            && Value(h[0]) % 0x20 * 250 + Value(h[1]) < 8000
            && (dlfc < 8000 ==>
                  && Value(h[0]) % 0x20 * 250 + Value(h[1]) == dlfc
                  && Flag(h[0], 0x20) == f.rfadf && Flag(h[0], 0x40) == f.atstf && Flag(h[0], 0x80) == f.stihf)
  {
    hide Low, Value, DstiHighByte, Dfcth;
    HighByteBits(f, dlfc);
    LowValue(DstiHighByte(f, dlfc));
    LowValue(dlfc % 250);
    if dlfc < 8000 {
      HighPart(dlfc);
    }
  }

  lemma HighPart(dlfc: nat)
    requires dlfc < 8000
    ensures Dfcth(dlfc) == dlfc / 250 < 0x20 && Dfcth(dlfc) * 250 + dlfc % 250 == dlfc
  {}

  lemma FieldsBack(f: DstiFields, dlfc: nat)
    requires Typed(Dsti(f, dlfc))
    ensures ReadFields(f.stihf, f.atstf, f.rfadf, StiPart(f), AtstPart(f), RfadPart(f))
            == Transmitted(Dsti(f, dlfc)).fields
  {
    hide Low, Number, Word24, Word32;
    var sti, atst := [f.stat] + Word16(f.spid), [f.utco] + Word32(f.seconds) + Word24(f.tsta);
    assert sti[1..] == Word16(f.spid) && atst[1..5] == Word32(f.seconds) && atst[5..] == Word24(f.tsta);
    SixteenBits(f.spid);
    FourBytes(f.seconds);
    ThreeLowBytes(f.tsta);
  }

  lemma SixteenBits(x: nat)
    requires x < 0x10000
    ensures Number(Word16(x)) == x
  {
    hide Low, Number;
    TwoBytes(x);
  }

  /** A receiver reads back the counter and all transmitted fields exactly for counters below 8000. */
  lemma ReadDstiBack(f: DstiFields, dlfc: nat)
    requires Typed(Dsti(f, dlfc))
    ensures ReadDsti(ValueOf(Dsti(f, dlfc))) == Some(Transmitted(Dsti(f, dlfc))) <==> Legible(Dsti(f, dlfc))
  {
    hide Flag, Value, DstiHeader, ReadFields, Word16, Word24, Word32;
    var h := DstiHeader(f, dlfc);
    HeaderBack(f, dlfc);
    FieldsBack(f, dlfc);
    Cuts(h, StiPart(f), AtstPart(f), RfadPart(f));
  }

  lemma Cuts(h: seq<Byte>, a: seq<Byte>, b: seq<Byte>, c: seq<Byte>)
    requires |h| == 2
    ensures var v := h + a + b + c;
            && v[0] == h[0] && v[1] == h[1]
            && v[2..2 + |a|] == a && v[2 + |a|..2 + |a| + |b|] == b && v[2 + |a| + |b|..] == c
  {}

  lemma LowSame(x: nat, y: nat)
    requires x % 256 == y % 256
    ensures Low(x) == Low(y)
  {}

  lemma LowParts(q: nat, y: nat)
    ensures var x := q * 0x1000000 + y;
            x % 256 == y % 256 && x / 0x100 % 256 == y / 0x100 % 256 && x / 0x10000 % 256 == y / 0x10000 % 256
  {
    ShiftOut(q * 0x10000, y);
    ShiftOut(q * 0x100, y / 0x100);
    ShiftOut(q, y / 0x10000);
    assert (q * 0x1000000 + y) / 0x10000 == (q * 0x10000 + y / 0x100) / 0x100 && y / 0x10000 == y / 0x100 / 0x100;
  }

  lemma ShiftOut(q: nat, y: nat)
    ensures (q * 0x100 + y) / 0x100 == q + y / 0x100 && (q * 0x100 + y) % 0x100 == y % 0x100
  {}

  lemma ThreeLowBytes(x: nat)
    ensures Number(Word24(x)) == x % 0x1000000
  {
    var y := x % 0x1000000;
    LowParts(x / 0x1000000, y);
    assert Word24(x) == Word24(y) by {
      hide Low;
      LowSame(x, y);
      LowSame(x / 0x100, y / 0x100);
      LowSame(x / 0x10000, y / 0x10000);
    }
    assert Number(Word24(y)) == y by {
      hide *;
      WordThree(y);
    }
  }

  lemma WordThree(y: nat)
    requires y < 0x1000000
    ensures Number(Word24(y)) == y
  {
    hide Low, Number;
    ThreeBytes(y);
  }

  lemma SsmBits(t: nat, c: nat, s: nat)
    requires t < 8 && c < 2 && s < 16
    ensures var y := t * 0x20 + c * 0x10 + s; y < 256 && y / 0x20 == t && y / 0x10 % 2 == c && y % 0x10 == s
  {
    var y := t * 0x20 + c * 0x10 + s;
    assert y / 0x10 == t * 2 + c;
  }

  lemma TypeBits(r: nat, t: nat)
    requires r < 32 && t < 8
    ensures r * 8 + t < 256 && (r * 8 + t) / 8 == r && (r * 8 + t) % 8 == t
  {}

  lemma StreamBits(s: nat)
    requires s < 0x1000
    ensures s / 0x100 < 16 && s / 0x100 * 0x100 + s % 0x100 == s
  {}

  lemma ReadSsmBack(i: Item)
    requires i.Ssm? && Typed(i) && InRange(i)
    ensures ReadSsm(i.id, ValueOf(i)) == Some(i)
  {
    hide Low, Value, Bit;
    TypeBits(i.rfa, i.tid);
    LowValue(i.rfa * 8 + i.tid);
    StreamBits(i.stid);
    SsmBits(i.tidext, Bit(i.crcstf), i.stid / 0x100);
    LowValue(i.tidext * 0x20 + Bit(i.crcstf) * 0x10 + i.stid / 0x100);
    LowValue(i.stid);
    assert ValueOf(i)[3..] == i.istd;
  }

  /** Two's complement. */
  lemma LevelBack(x: int)
    requires -0x8000 <= x < 0x8000
    ensures Signed(Number(Word16(x % 0x10000))) == x
  {
    hide Number, Word16;
    SixteenBits(x % 0x10000);
  }

  /** Reading the tag of an item gives the item, up to what is not on the wire. */
  lemma ReadItemBack(i: Item)
    requires Typed(i) && InRange(i) && Legible(i)
    ensures ReadItem(TagOf(i)) == Some(Transmitted(i))
  {
    hide Number, ReadDsti, ReadSsm, Word16, Word32, Low, Transmitted, Signed, SsmHeader, DstiHeader;
    if !i.Dsti? {
      TransmittedWhole(i);
    }
    match i
    case StarPtr(protocol) =>
      assert ValueOf(i)[4..] == Word16(0) + Word16(0) && ValueOf(i)[..4] == protocol;
    case Dsti(f, dlfc) =>
      ReadDstiBack(f, dlfc);
    case Ssm(id, _, _, _, _, _, _) =>
      assert NameOf(i)[..2] == SS && NameOf(i)[2..] == Word16(id);
      assert NameOf(i)[0] == Byte(0x73);
      SixteenBits(id);
      ReadSsmBack(i);
    case OdrVersion(version, uptime) =>
      assert ValueOf(i)[|version|..] == Word32(uptime) && ValueOf(i)[..|version|] == version;
      FourBytes(uptime);
    case OdrAudioLevels(left, right) =>
      assert ValueOf(i)[..2] == Word16(left % 0x10000) && ValueOf(i)[2..] == Word16(right % 0x10000);
      LevelBack(left);
      LevelBack(right);
    case StarDmy(length) =>
  }

  lemma TransmittedWhole(i: Item)
    requires !i.Dsti?
    ensures Transmitted(i) == i
  {}
}
