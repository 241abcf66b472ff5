/** Assembling TAG items and TAG packets. */
module TagPackets {
  import opened Arithmetic
  import opened BigEndian
  import opened Bytes
  import opened TagItems
  import opened Wrappers

  /** A counter after n assemblies: modulo 5000 for frames, 65536 for AF packets. */
  function Advanced(start: nat, n: nat, modulus: nat): (c: nat)
    requires modulus > 0
    ensures start < 0x10000 && modulus <= 0x10000 ==> c < 0x10000
  {
    if n == 0 then start else Residue(Advanced(start, n - 1, modulus) + 1, modulus)
  }

  /** From the first assembly on it stands at its start plus n, wherever it started. */
  lemma {:induction false} AdvancedIs(start: nat, n: nat, modulus: nat)
    requires modulus > 0
    ensures Advanced(start, n, modulus) == if n == 0 then start else Residue(start + n, modulus)
  {
    hide Residue;
    if n > 0 {
      AdvancedIs(start, n - 1, modulus);
      ResidueOnwards(start + n - 1, modulus);
    }
  }

  lemma ResidueOnwards(x: nat, modulus: nat)
    requires modulus > 0
    ensures Residue(Residue(x, modulus) + 1, modulus) == Residue(x + 1, modulus)
  {
    hide Residue;
    NextResidue(x, modulus);
    NextResidue(Residue(x, modulus), modulus);
    ResidueOfSmall(Residue(x, modulus), modulus);
  }

  //////////////////////////////////////////////////////////////////////////////
  //
  // Single items
  //
  //////////////////////////////////////////////////////////////////////////////

  const PLACEHOLDER := [ZERO, ZERO, ZERO, ZERO]

  /** Overwrites the placeholder between the name and the value by the length in bits. */
  method PatchLength(packet: seq<Byte>, ghost t: Tag) returns (patched: seq<Byte>)
    requires |t.name| == 4 && packet == t.name + PLACEHOLDER + t.value
    ensures patched == WriteTag(t)
  {
    hide Low;
    var taglength := (|packet| - 8) * 8;
    patched := packet;
    patched := patched[4 := Low(taglength / 0x1000000)];
    patched := patched[5 := Low(taglength / 0x10000)];
    patched := patched[6 := Low(taglength / 0x100)];
    patched := patched[7 := Low(taglength)];
  }

  lemma Join(a: seq<Byte>, b: seq<Byte>, c: seq<Byte>)
    ensures a + b + c == a + (b + c)
  {}

  lemma Regroup(a: seq<Byte>, b: seq<Byte>, c: seq<Byte>, d: seq<Byte>, e: seq<Byte>)
    ensures a + b + c + d + e == a + (b + c + d + e)
  {}

  /** The frame counter is kept modulo 5000. */
  function NextCount(dlfc: nat): (n: nat)
    ensures n < 5000
  {
    (dlfc + 1) % 5000
  }

  class TagDSTI {
    var fields: DstiFields
    var dlfc: nat

    predicate Valid()
      reads this
    {
      dlfc < 0x10000 && |fields.rfad| == 9
    }

    function Now(): Item
      reads this
    {
      Dsti(fields, dlfc)
    }

    constructor (f: DstiFields, start: nat)
      requires start < 0x10000 && |f.rfad| == 9
      ensures Valid() && fields == f && dlfc == start
    {
      fields, dlfc := f, start;
    }

    method Assemble() returns (packet: seq<Byte>)
      requires Valid()
      modifies this`dlfc
      ensures Valid() && dlfc == NextCount(old(dlfc))
      ensures packet == WriteTag(TagOf(old(Now())))
    {
      hide Low, Word16, Word24, Word32, DstiHeader, StiPart, AtstPart, RfadPart;
      packet := DSTI + PLACEHOLDER;
      packet := packet + DstiHeader(fields, dlfc);
      packet := AppendOptions(packet);
      Regroup(DSTI + PLACEHOLDER, DstiHeader(fields, dlfc), StiPart(fields), AtstPart(fields), RfadPart(fields));
      packet := PatchLength(packet, TagOf(Now()));
      dlfc := (dlfc + 1) % 5000;
    }

    /** The fields whose flags are set. */
    method AppendOptions(start: seq<Byte>) returns (packet: seq<Byte>)
      requires Valid()
      ensures packet == start + StiPart(fields) + AtstPart(fields) + RfadPart(fields)
    {
      hide Low, Word16, Word24, Word32;
      packet := start;
      if fields.stihf {
        packet := packet + [fields.stat];
        packet := packet + Word16(fields.spid);
      }
      assert packet == start + StiPart(fields);
      if fields.atstf {
        packet := packet + [fields.utco];
        packet := packet + Word32(fields.seconds);
        packet := packet + Word24(fields.tsta);
      }
      ghost var before := packet;
      assert before == start + StiPart(fields) + AtstPart(fields);
      if fields.rfadf {
        for i := 0 to 9
          invariant packet == before + fields.rfad[..i]
        {
          packet := packet + [fields.rfad[i]];
        }
      }
    }
  }

  /** TagSSm: out of range values make it throw. */
  method AssembleSsm(i: Item) returns (r: Result<seq<Byte>>)
    requires i.Ssm? && Typed(i)
    ensures r == if InRange(i) then Ok(WriteTag(TagOf(i))) else Err
    ensures r.Ok? <==> i.rfa < 32 && i.tid < 8 && i.tidext < 8 && i.stid < 4096
  {
    hide Low, WriteTag, Word16, SsmHeader;
    var packet := SS;
    packet := packet + Word16(i.id);
    packet := packet + PLACEHOLDER;
    if i.rfa > 0x1F {
      return Err;
    }
    if i.tid > 0x7 {
      return Err;
    }
    if i.tidext > 0x7 {
      return Err;
    }
    if i.stid > 0xFFF {
      return Err;
    }
    packet := packet + SsmHeader(i.rfa, i.tid, i.tidext, i.crcstf, i.stid);
    ghost var head := packet;
    for n := 0 to |i.istd|
      invariant packet == head + i.istd[..n]
    {
      packet := packet + [i.istd[n]];
    }
    assert i.istd[..|i.istd|] == i.istd;
    Join(SS + Word16(i.id) + PLACEHOLDER, SsmHeader(i.rfa, i.tid, i.tidext, i.crcstf, i.stid), i.istd);
    packet := PatchLength(packet, TagOf(i));
    return Ok(packet);
  }

  /** TagStarPTR, whose constructor has checked the length of the protocol name. */
  method AssembleStarPtr(i: Item) returns (packet: seq<Byte>)
    requires i.StarPtr? && Typed(i)
    ensures packet == WriteTag(TagOf(i))
  {
    packet := PTR;
    packet := packet + [Low(0), Low(0), Low(0), Low(0x40)];
    packet := packet + i.protocol;
    packet := packet + [Low(0), Low(0)];
    packet := packet + [Low(0), Low(0)];
  }

  /** TagODRVersion. */
  method AssembleOdrVersion(i: Item) returns (packet: seq<Byte>)
    requires i.OdrVersion? && Typed(i)
    ensures packet == WriteTag(TagOf(i))
  {
    hide Low;
    var lengthBits := (|i.version| + 4) * 8;
    packet := ODR_V;
    packet := packet + Word32(lengthBits);
    packet := packet + i.version;
    packet := packet + Word32(i.uptime);
  }

  /** TagODRAudioLevels: the levels as 16-bit two's complement. */
  method AssembleOdrAudioLevels(i: Item) returns (packet: seq<Byte>)
    requires i.OdrAudioLevels? && Typed(i)
    ensures packet == WriteTag(TagOf(i))
  {
    hide Low;
    packet := ODR_A;
    packet := packet + Word32(32);
    packet := packet + Word16(i.left % 0x10000);
    packet := packet + Word16(i.right % 0x10000);
  }

  /** TagStarDMY. */
  method AssembleStarDmy(i: Item) returns (packet: seq<Byte>)
    requires i.StarDmy?
    ensures packet == WriteTag(TagOf(i))
  {
    hide Low;
    packet := DMY;
    packet := packet + Word32(i.length * 8);
    packet := packet + SpareBytes(i.length);
  }

  //////////////////////////////////////////////////////////////////////////////
  //
  // TAG packets
  //
  //////////////////////////////////////////////////////////////////////////////

  /** A packet refers to items; DSTI items are objects whose counter advances. */
  datatype TagItem = Fixed(i: Item) | Counted(dsti: TagDSTI)

  ghost function Counters(items: seq<TagItem>): set<TagDSTI> {
    set t | t in items && t.Counted? :: t.dsti
  }

  function Occurrences(items: seq<TagItem>, d: TagDSTI): nat {
    if items == [] then 0
    else Occurrences(items[..|items| - 1], d) + if items[|items| - 1] == Counted(d) then 1 else 0
  }

  ghost predicate Proper(items: seq<TagItem>)
    reads Counters(items)
  {
    forall t :: t in items ==>
      if t.Counted? then t.dsti in Counters(items) && t.dsti.Valid() else Typed(t.i) && !t.i.Dsti?
  }

  predicate Throws(t: TagItem) {
    t.Fixed? && !InRange(t.i)
  }

  /** The item at position j as it will be written: a counter has advanced once for every earlier occurrence. */
  ghost function WrittenAt(items: seq<TagItem>, j: nat): Item
    requires j < |items| && Proper(items)
    reads Counters(items)
  {
    match items[j]
    case Fixed(i) => i
    case Counted(d) => Dsti(d.fields, Advanced(d.dlfc, Occurrences(items[..j], d), 5000))
  }

  /** The first n items as they will be written. */
  ghost function Written(items: seq<TagItem>, n: nat): (list: seq<Item>)
    requires n <= |items| && Proper(items)
    reads Counters(items)
    ensures |list| == n
  {
    if n == 0 then [] else Written(items, n - 1) + [WrittenAt(items, n - 1)]
  }

  function TagsOf(list: seq<Item>): (ts: seq<Tag>)
    ensures |ts| == |list| && forall j :: 0 <= j < |list| ==> ts[j] == TagOf(list[j])
  {
    if list == [] then [] else TagsOf(list[..|list| - 1]) + [TagOf(list[|list| - 1])]
  }

  ghost function Touched(t: TagItem): set<TagDSTI> {
    if t.Counted? then {t.dsti} else {}
  }

  ghost function ItemNow(t: TagItem): Item
    reads Touched(t)
  {
    if t.Counted? then t.dsti.Now() else t.i
  }

  /** The Assemble of an item. */
  method AssembleItem(t: TagItem) returns (r: Result<seq<Byte>>)
    requires if t.Counted? then t.dsti.Valid() else Typed(t.i) && !t.i.Dsti?
    modifies Touched(t)
    ensures r == if Throws(t) then Err else Ok(WriteTag(TagOf(old(ItemNow(t)))))
    ensures t.Counted? ==>
              t.dsti.Valid() && t.dsti.fields == old(t.dsti.fields) && t.dsti.dlfc == NextCount(old(t.dsti.dlfc))
  {
    hide WriteTag, TagOf;
    var packet;
    match t
    case Counted(d) =>
      packet := d.Assemble();
      return Ok(packet);
    case Fixed(i) =>
      if i.Ssm? {
        r := AssembleSsm(i);
        return;
      } else if i.StarPtr? {
        packet := AssembleStarPtr(i);
      } else if i.OdrVersion? {
        packet := AssembleOdrVersion(i);
      } else if i.OdrAudioLevels? {
        packet := AssembleOdrAudioLevels(i);
      } else {
        packet := AssembleStarDmy(i);
      }
      return Ok(packet);
  }

  /** The padding bytes of alignment 8. */
  function Padding(alignment: nat, size: nat): (p: seq<Byte>)
    ensures |p| < 8 && (alignment == 8 ==> (size + |p|) % 8 == 0)
  {
    if alignment == 8 then SpareBytes((8 - size % 8) % 8) else []
  }

  /** Larger alignments append a dummy item. */
  function Trailer(alignment: nat): seq<Item> {
    if alignment > 8 then [StarDmy(alignment - 8)] else []
  }

  function PacketOf(list: seq<Item>, alignment: nat): seq<Byte> {
    var bytes := WriteTags(TagsOf(list + Trailer(alignment)));
    bytes + Padding(alignment, |bytes|)
  }

  lemma OneMoreItem(list: seq<Item>, i: Item)
    ensures WriteTags(TagsOf(list + [i])) == WriteTags(TagsOf(list)) + WriteTag(TagOf(i))
  {
    hide WriteTag, TagOf;
    assert (list + [i])[..|list|] == list;
    var ts := TagsOf(list);
    assert (ts + [TagOf(i)])[..|ts|] == ts;
  }

  lemma OneMoreOccurrence(items: seq<TagItem>, j: nat, d: TagDSTI)
    requires j < |items|
    ensures Occurrences(items[..j + 1], d) == Occurrences(items[..j], d) + if items[j] == Counted(d) then 1 else 0
  {
    assert items[..j + 1][..j] == items[..j];
  }

  lemma AdvancedStep(start: nat, n: nat)
    ensures Advanced(start, n + 1, 5000) == NextCount(Advanced(start, n, 5000)) && Advanced(start, 0, 5000) == start
  {}

  lemma NoOccurrence(items: seq<TagItem>, d: TagDSTI)
    ensures Occurrences(items[..0], d) == 0
  {}

  class TagPacket {
    const alignment: nat
    var tagItems: seq<TagItem>
    var rawTagpacket: seq<Byte>

    constructor (m: nat)
      ensures alignment == m && tagItems == [] && rawTagpacket == []
    {
      alignment, tagItems, rawTagpacket := m, [], [];
    }

    /** The loop over the items, up to the first that throws. */
    method AssembleItems() returns (packet: seq<Byte>, done: nat)
      requires Proper(tagItems)
      modifies Counters(tagItems)
      ensures done <= |tagItems| && packet == WriteTags(TagsOf(old(Written(tagItems, done))))
      ensures (forall j :: 0 <= j < done ==> !Throws(tagItems[j])) && (done < |tagItems| ==> Throws(tagItems[done]))
      ensures forall d :: d in Counters(tagItems) ==>
                d.fields == old(d.fields) && d.Valid() && old(d.Valid())
                && d.dlfc == Advanced(old(d.dlfc), Occurrences(tagItems[..done], d), 5000)
    {
      hide WriteTags, WriteTag, TagOf, TagsOf, Advanced, Occurrences, NextCount, Typed;
      packet, done := [], 0;
      assert WriteTags(TagsOf([])) == [] by {
        NothingWritten();
      }
      forall d | d in Counters(tagItems) ensures Advanced(d.dlfc, Occurrences(tagItems[..0], d), 5000) == d.dlfc {
        NoOccurrence(tagItems, d);
        AdvancedStep(d.dlfc, 0);
      }
      while done < |tagItems|
        invariant done <= |tagItems| && packet == WriteTags(TagsOf(old(Written(tagItems, done))))
        invariant forall j :: 0 <= j < done ==> !Throws(tagItems[j])
        invariant forall d :: d in Counters(tagItems) ==>
                    d.fields == old(d.fields) && d.Valid() && old(d.Valid())
                    && d.dlfc == Advanced(old(d.dlfc), Occurrences(tagItems[..done], d), 5000)
      {
        var t := tagItems[done];
        assert t in tagItems;
        if t.Counted? {
          assert t.dsti in Counters(tagItems);
        }
        ghost var now := ItemNow(t);
        assert now == old(WrittenAt(tagItems, done));
        var tagData := AssembleItem(t);
        if tagData.Err? {
          return;
        }
        OneMoreItem(old(Written(tagItems, done)), now);
        forall d | d in Counters(tagItems)
          ensures d.fields == old(d.fields)
                  && d.dlfc == Advanced(old(d.dlfc), Occurrences(tagItems[..done + 1], d), 5000)
        {
          OneMoreOccurrence(tagItems, done, d);
          AdvancedStep(old(d.dlfc), Occurrences(tagItems[..done], d));
        }
        packet := packet + tagData.value;
        done := done + 1;
      }
    }

    /**
      Raw bytes as they are, or the items one after the other and then the alignment. A counter
      advances with every item written, also when a later item throws.
     */
    method Assemble() returns (r: Result<seq<Byte>>, ghost done: nat)
      requires Proper(tagItems)
      modifies Counters(tagItems)
      ensures r.Err? <==> tagItems != [] && (rawTagpacket != [] || exists t :: t in tagItems && Throws(t))
      ensures r.Ok? ==>
                r.value == if rawTagpacket != [] then rawTagpacket
                           else PacketOf(old(Written(tagItems, |tagItems|)), alignment)
      ensures done <= |tagItems| && (r.Ok? ==> done == |tagItems|)
      ensures r.Err? && rawTagpacket == [] ==> done < |tagItems| && Throws(tagItems[done])
      ensures r.Err? && rawTagpacket != [] ==> done == 0
      ensures forall j :: 0 <= j < done ==> !Throws(tagItems[j])
      ensures forall d :: d in Counters(tagItems) ==>
                d.fields == old(d.fields) && d.Valid() && old(d.Valid())
                && d.dlfc == Advanced(old(d.dlfc), Occurrences(tagItems[..done], d), 5000)
    {
      hide WriteTags, WriteTag, TagOf, TagsOf, Throws, Advanced, Occurrences, Written, Typed;
      done := 0;
      forall d | d in Counters(tagItems) ensures Advanced(d.dlfc, Occurrences(tagItems[..0], d), 5000) == d.dlfc {
        NoOccurrence(tagItems, d);
        AdvancedStep(d.dlfc, 0);
      }
      if |rawTagpacket| > 0 && |tagItems| > 0 {
        return Err, 0;
      }
      if |rawTagpacket| > 0 {
        return Ok(rawTagpacket), 0;
      }
      var packet, n := AssembleItems();
      done := n;
      if n < |tagItems| {
        assert tagItems[n] in tagItems;
        return Err, n;
      }
      packet := Align(packet, old(Written(tagItems, |tagItems|)));
      return Ok(packet), n;
    }

    method Align(start: seq<Byte>, ghost list: seq<Item>) returns (packet: seq<Byte>)
      requires start == WriteTags(TagsOf(list))
      ensures packet == PacketOf(list, alignment)
    {
      hide WriteTags, WriteTag, TagOf, TagsOf;
      packet := start;
      if alignment == 0 {
        assert list + Trailer(alignment) == list;
      } else if alignment == 8 {
        assert list + Trailer(alignment) == list;
        ghost var pad := 0;
        while |packet| % 8 > 0
          invariant packet == start + SpareBytes(pad) && pad <= (8 - |start| % 8) % 8
          decreases (8 - |start| % 8) % 8 - pad
        {
          packet := packet + [ZERO];
          pad := pad + 1;
        }
      } else if alignment > 8 {
        var dmyData := AssembleStarDmy(StarDmy(alignment - 8));
        packet := packet + dmyData;
        OneMoreItem(list, StarDmy(alignment - 8));
      } else {
        assert list + Trailer(alignment) == list;
      }
    }
  }

  lemma NothingWritten()
    ensures WriteTags(TagsOf([])) == []
  {}

  //////////////////////////////////////////////////////////////////////////////
  //
  // Reading packets
  //
  //////////////////////////////////////////////////////////////////////////////

  /** The items that tags carry; a tag that carries none makes it fail. */
  function ReadItems(ts: seq<Tag>): Option<seq<Item>>
    requires forall t :: t in ts ==> |t.name| == 4
  {
    if ts == [] then Some([])
    else
      match ReadItems(ts[..|ts| - 1])
      case None => None
      case Some(list) =>
        match ReadItem(ts[|ts| - 1])
        case None => None
        case Some(i) => Some(list + [i])
  }

  function TransmittedAll(list: seq<Item>): seq<Item> {
    if list == [] then [] else TransmittedAll(list[..|list| - 1]) + [Transmitted(list[|list| - 1])]
  }

  predicate Sendable(list: seq<Item>) {
    forall i :: i in list ==> Typed(i) && InRange(i) && Legible(i)
  }

  lemma ItemsAreWritable(i: Item)
    requires Typed(i)
    ensures Writable(TagOf(i))
  {}

  lemma {:induction false} ReadItemsBack(list: seq<Item>)
    requires Sendable(list)
    ensures (forall t :: t in TagsOf(list) ==> Writable(t)) && ReadItems(TagsOf(list)) == Some(TransmittedAll(list))
  {
    hide TagOf, Typed, InRange, Legible, ReadItem, Transmitted;
    if list != [] {
      var n := |list| - 1;
      ReadItemsBack(list[..n]);
      ItemsAreWritable(list[n]);
      ReadItemBack(list[n]);
      var ts := TagsOf(list);
      assert ts[..n] == TagsOf(list[..n]) && ts[n] == TagOf(list[n]);
    }
  }

  /** After n > 0 assemblies the DSTI header decodes to the start plus n, modulo 5000, wherever the counter started. */
  lemma CounterOnTheWire(f: DstiFields, start: nat, n: nat)
    requires Typed(Dsti(f, start)) && n > 0
    ensures ReadDsti(ValueOf(Dsti(f, Advanced(start, n, 5000)))) == Some(Transmitted(Dsti(f, (start + n) % 5000)))
  {
    hide ReadDsti, ValueOf, Transmitted, Advanced;
    AdvancedIs(start, n, 5000);
    ReadDstiBack(f, Advanced(start, n, 5000));
  }

  /** A receiver that walks over a TAG packet reads the items that were written, and the dummy of the alignment. */
  lemma PacketReadBack(list: seq<Item>, alignment: nat)
    requires Sendable(list) && alignment < 0x1000_0000
    ensures var tags := TagsOf(list + Trailer(alignment));
            && ReadTags(PacketOf(list, alignment)) == Some(tags)
            && (forall t :: t in tags ==> |t.name| == 4)
            && ReadItems(tags) == Some(TransmittedAll(list + Trailer(alignment)))
  {
    hide TagsOf, WriteTags, ReadTags, ReadItems, TransmittedAll;
    var all := list + Trailer(alignment);
    ReadItemsBack(all);
    ReadTagsWriteTags(TagsOf(all), Padding(alignment, |WriteTags(TagsOf(all))|));
  }

  //////////////////////////////////////////////////////////////////////////////
  //
  // The length of a packet
  //
  //////////////////////////////////////////////////////////////////////////////

  /** The bytes of an item, name and length field included, from its fields. */
  function ItemLength(i: Item): nat {
    8 + match i
        case StarPtr(_) => 8
        case Dsti(f, _) => 2 + 3 * Bit(f.stihf) + 8 * Bit(f.atstf) + 9 * Bit(f.rfadf)
        case Ssm(_, _, _, _, _, _, istd) => 3 + |istd|
        case OdrVersion(version, _) => |version| + 4
        case OdrAudioLevels(_, _) => 4
        case StarDmy(length) => length
  }

  function TotalLength(list: seq<Item>): nat {
    if list == [] then 0 else TotalLength(list[..|list| - 1]) + ItemLength(list[|list| - 1])
  }

  lemma TagLength(i: Item)
    requires Typed(i)
    ensures |WriteTag(TagOf(i))| == ItemLength(i)
  {
    hide Low;
  }

  lemma {:induction false} WrittenLength(list: seq<Item>)
    requires forall i :: i in list ==> Typed(i)
    ensures |WriteTags(TagsOf(list))| == TotalLength(list)
  {
    hide WriteTag, TagOf, Typed, ItemLength;
    if list != [] {
      var n := |list| - 1;
      WrittenLength(list[..n]);
      TagLength(list[n]);
      assert list == list[..n] + [list[n]];
      OneMoreItem(list[..n], list[n]);
    }
  }

  lemma DummyIsZero(length: nat)
    ensures var t := WriteTag(TagOf(StarDmy(length)));
            |t| == 8 + length && forall i :: 8 <= i < |t| ==> t[i] == Byte(0)
  {
    hide Low;
  }

  /** The length of a packet: alignment 8 rounds up, larger ones add as many bytes, smaller ones none. */
  lemma PacketLength(list: seq<Item>, alignment: nat)
    requires forall i :: i in list ==> Typed(i)
    ensures var n := TotalLength(list);
            |PacketOf(list, alignment)|
            == if alignment == 8 then n + (8 - n % 8) % 8 else if alignment > 8 then n + alignment else n
  {
    hide WriteTags, TagsOf, TotalLength, Typed;
    WrittenLength(list);
    if alignment > 8 {
      OneMoreItem(list, StarDmy(alignment - 8));
      DummyIsZero(alignment - 8);
    } else {
      assert list + Trailer(alignment) == list;
    }
  }

  /** What alignment adds behind the items is zero, except for the name and the length of a dummy item. */
  lemma FillIsZero(list: seq<Item>, alignment: nat)
    ensures var items, p := WriteTags(TagsOf(list)), PacketOf(list, alignment);
            && items <= p
            && forall i :: |items| + (if alignment > 8 then 8 else 0) <= i < |p| ==> p[i] == Byte(0)
  {
    hide WriteTags, TagsOf;
    if alignment > 8 {
      OneMoreItem(list, StarDmy(alignment - 8));
      DummyIsZero(alignment - 8);
    } else {
      assert list + Trailer(alignment) == list;
    }
  }

  /** Whether the length is a multiple of 8, from the fields of the items. */
  lemma PacketAligned(list: seq<Item>, alignment: nat)
    requires forall i :: i in list ==> Typed(i)
    ensures |PacketOf(list, alignment)| % 8 == 0 <==>
            alignment == 8 || (TotalLength(list) + if alignment > 8 then alignment else 0) % 8 == 0
  {
    hide PacketOf, TotalLength, Typed;
    PacketLength(list, alignment);
  }

  /** The length is a multiple of 8 for every list of items exactly when the alignment is 8. */
  lemma OnlyAlignment8(alignment: nat)
    ensures (forall list :: Sendable(list) ==> |PacketOf(list, alignment)| % 8 == 0) <==> alignment == 8
  {
    hide PacketOf;
    if alignment == 8 {
      forall list | Sendable(list) ensures |PacketOf(list, alignment)| % 8 == 0 {
        PacketLength(list, alignment);
      }
    } else {
      var none, levels := Misaligned(alignment);
      assert Sendable(none) && Sendable(levels);
    }
  }

  /** Of no item and a single ODRa item, one is misaligned. */
  lemma Misaligned(alignment: nat) returns (none: seq<Item>, levels: seq<Item>)
    requires alignment != 8
    ensures none == [] && levels == [OdrAudioLevels(0, 0)]
    ensures |PacketOf(none, alignment)| % 8 != 0 || |PacketOf(levels, alignment)| % 8 != 0
  {
    hide PacketOf;
    none, levels := [], [OdrAudioLevels(0, 0)];
    assert [] + levels == levels;
    TotalSnoc([], OdrAudioLevels(0, 0));
    PacketLength(none, alignment);
    PacketLength(levels, alignment);
  }

  /**
    The program's own traffic, with the default alignment 0: *ptr, dsti, ss with whole units of eight
    bytes, and ODRa leave the packet one byte beyond a multiple of 8.  With the version it is a multiple
    of 8 exactly if the version string is three bytes beyond one.
   */
  lemma CompanionTraffic(f: DstiFields, dlfc: nat, ss: Item, levels: Item, protocol: seq<Byte>, version: Item)
    requires Typed(StarPtr(protocol)) && Typed(Dsti(f, dlfc)) && Typed(ss) && Typed(levels) && Typed(version)
    requires !f.stihf && !f.rfadf && ss.Ssm? && |ss.istd| % 8 == 0 && levels.OdrAudioLevels? && version.OdrVersion?
    ensures var list := [StarPtr(protocol), Dsti(f, dlfc), ss, levels];
            && |PacketOf(list, 0)| % 8 == 1
            && (|PacketOf(list + [version], 0)| % 8 == 0 <==> |version.version| % 8 == 3)
  {
    hide PacketOf, TotalLength, Typed;
    var a, b := StarPtr(protocol), Dsti(f, dlfc);
    var list := [a, b, ss, levels];
    PacketLength(list, 0);
    PacketLength(list + [version], 0);
    FourItems(a, b, ss, levels);
    TotalSnoc(list, version);
  }

  lemma TotalSnoc(list: seq<Item>, i: Item)
    ensures TotalLength(list + [i]) == TotalLength(list) + ItemLength(i)
  {
    assert (list + [i])[..|list|] == list;
  }

  lemma FourItems(a: Item, b: Item, c: Item, d: Item)
    ensures TotalLength([a, b, c, d]) == ItemLength(a) + ItemLength(b) + ItemLength(c) + ItemLength(d)
  {
    hide ItemLength;
    assert [a, b, c, d] == [] + [a] + [b] + [c] + [d];
    TotalSnoc([], a);
    TotalSnoc([] + [a], b);
    TotalSnoc([] + [a] + [b], c);
    TotalSnoc([] + [a] + [b] + [c], d);
  }
}
