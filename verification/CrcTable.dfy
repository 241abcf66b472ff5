/** The 16-bit table that the program carries as a constant is the one for the EDI polynomial. */
module CrcTable {
  import opened Bytes
  import opened Crc

  /** The register after a byte has entered the cleared register, on numbers. */
  function ByteNumber(b: bv8): bv16 {
    NumberOf(b & 0x80 != 0, b & 0x40 != 0, b & 0x20 != 0, b & 0x10 != 0,
             b & 0x08 != 0, b & 0x04 != 0, b & 0x02 != 0, b & 0x01 != 0)
  }

  function NumberOf(b7: bool, b6: bool, b5: bool, b4: bool, b3: bool, b2: bool, b1: bool, b0: bool): bv16 {
    var high := StepNumber(StepNumber(StepNumber(StepNumber(0, b7), b6), b5), b4);
    StepNumber(StepNumber(StepNumber(StepNumber(high, b3), b2), b1), b0)
  }

  /** The same, bit by bit. */
  function Fold(bits: Bits, n: nat): bv16
    requires n <= |bits|
  {
    if n == 0 then 0 else StepNumber(Fold(bits, n - 1), bits[n - 1])
  }

  lemma {:induction false} FoldIsTurn(bits: Bits, n: nat)
    requires n <= |bits|
    ensures Word(Fold(bits, n)) == Turn(CCITT, Falses(16), bits[..n])
  {
    hide Turn, StepNumber, Step;
    if n == 0 {
      assert Falses(16) == Word(0);
      TurnStart(CCITT, Falses(16));
    } else {
      hide Word;
      FoldIsTurn(bits, n - 1);
      assert bits[..n] == bits[..n - 1] + [bits[n - 1]];
      TurnSnoc(CCITT, Falses(16), bits[..n - 1], bits[n - 1]);
      StepWord(Fold(bits, n - 1), bits[n - 1]);
    }
  }

  lemma FoldEight(s: Bits)
    requires |s| == 8
    ensures Fold(s, 8) == NumberOf(s[0], s[1], s[2], s[3], s[4], s[5], s[6], s[7])
  {
    hide StepNumber;
    assert Fold(s, 0) == 0 && Fold(s, 1) == StepNumber(0, s[0]);
    assert Fold(s, 2) == StepNumber(StepNumber(0, s[0]), s[1]);
    assert Fold(s, 4) == StepNumber(StepNumber(Fold(s, 2), s[2]), s[3]);
    assert Fold(s, 6) == StepNumber(StepNumber(Fold(s, 4), s[4]), s[5]);
  }

  lemma ByteNumberIsTurn(b: Byte)
    ensures Word(ByteNumber(b.bits)) == Turn(CCITT, Falses(16), ByteBits(b))
  {
    BitsListed(b);
    hide *;
    FoldEight(ByteBits(b));
    FoldIsTurn(ByteBits(b), 8);
    assert ByteBits(b)[..8] == ByteBits(b);
  }

  lemma BitsListed(b: Byte)
    ensures var s := ByteBits(b);
            ByteNumber(b.bits) == NumberOf(s[0], s[1], s[2], s[3], s[4], s[5], s[6], s[7])
  {
    hide NumberOf;
  }

  //////////////////////////////////////////////////////////////////////////////
  //
  // The constants, sixteen to a row
  //
  //////////////////////////////////////////////////////////////////////////////

  const ROW0: seq<bv16> := [
    0x0000, 0x1021, 0x2042, 0x3063, 0x4084, 0x50a5, 0x60c6, 0x70e7,
    0x8108, 0x9129, 0xa14a, 0xb16b, 0xc18c, 0xd1ad, 0xe1ce, 0xf1ef]

  const ROW1: seq<bv16> := [
    0x1231, 0x0210, 0x3273, 0x2252, 0x52b5, 0x4294, 0x72f7, 0x62d6,
    0x9339, 0x8318, 0xb37b, 0xa35a, 0xd3bd, 0xc39c, 0xf3ff, 0xe3de]

  const ROW2: seq<bv16> := [
    0x2462, 0x3443, 0x0420, 0x1401, 0x64e6, 0x74c7, 0x44a4, 0x5485,
    0xa56a, 0xb54b, 0x8528, 0x9509, 0xe5ee, 0xf5cf, 0xc5ac, 0xd58d]

  const ROW3: seq<bv16> := [
    0x3653, 0x2672, 0x1611, 0x0630, 0x76d7, 0x66f6, 0x5695, 0x46b4,
    0xb75b, 0xa77a, 0x9719, 0x8738, 0xf7df, 0xe7fe, 0xd79d, 0xc7bc]

  const ROW4: seq<bv16> := [
    0x48c4, 0x58e5, 0x6886, 0x78a7, 0x0840, 0x1861, 0x2802, 0x3823,
    0xc9cc, 0xd9ed, 0xe98e, 0xf9af, 0x8948, 0x9969, 0xa90a, 0xb92b]

  const ROW5: seq<bv16> := [
    0x5af5, 0x4ad4, 0x7ab7, 0x6a96, 0x1a71, 0x0a50, 0x3a33, 0x2a12,
    0xdbfd, 0xcbdc, 0xfbbf, 0xeb9e, 0x9b79, 0x8b58, 0xbb3b, 0xab1a]

  const ROW6: seq<bv16> := [
    0x6ca6, 0x7c87, 0x4ce4, 0x5cc5, 0x2c22, 0x3c03, 0x0c60, 0x1c41,
    0xedae, 0xfd8f, 0xcdec, 0xddcd, 0xad2a, 0xbd0b, 0x8d68, 0x9d49]

  const ROW7: seq<bv16> := [
    0x7e97, 0x6eb6, 0x5ed5, 0x4ef4, 0x3e13, 0x2e32, 0x1e51, 0x0e70,
    0xff9f, 0xefbe, 0xdfdd, 0xcffc, 0xbf1b, 0xaf3a, 0x9f59, 0x8f78]

  const ROW8: seq<bv16> := [
    0x9188, 0x81a9, 0xb1ca, 0xa1eb, 0xd10c, 0xc12d, 0xf14e, 0xe16f,
    0x1080, 0x00a1, 0x30c2, 0x20e3, 0x5004, 0x4025, 0x7046, 0x6067]

  const ROW9: seq<bv16> := [
    0x83b9, 0x9398, 0xa3fb, 0xb3da, 0xc33d, 0xd31c, 0xe37f, 0xf35e,
    0x02b1, 0x1290, 0x22f3, 0x32d2, 0x4235, 0x5214, 0x6277, 0x7256]

  const ROW10: seq<bv16> := [
    0xb5ea, 0xa5cb, 0x95a8, 0x8589, 0xf56e, 0xe54f, 0xd52c, 0xc50d,
    0x34e2, 0x24c3, 0x14a0, 0x0481, 0x7466, 0x6447, 0x5424, 0x4405]

  const ROW11: seq<bv16> := [
    0xa7db, 0xb7fa, 0x8799, 0x97b8, 0xe75f, 0xf77e, 0xc71d, 0xd73c,
    0x26d3, 0x36f2, 0x0691, 0x16b0, 0x6657, 0x7676, 0x4615, 0x5634]

  const ROW12: seq<bv16> := [
    0xd94c, 0xc96d, 0xf90e, 0xe92f, 0x99c8, 0x89e9, 0xb98a, 0xa9ab,
    0x5844, 0x4865, 0x7806, 0x6827, 0x18c0, 0x08e1, 0x3882, 0x28a3]

  const ROW13: seq<bv16> := [
    0xcb7d, 0xdb5c, 0xeb3f, 0xfb1e, 0x8bf9, 0x9bd8, 0xabbb, 0xbb9a,
    0x4a75, 0x5a54, 0x6a37, 0x7a16, 0x0af1, 0x1ad0, 0x2ab3, 0x3a92]

  const ROW14: seq<bv16> := [
    0xfd2e, 0xed0f, 0xdd6c, 0xcd4d, 0xbdaa, 0xad8b, 0x9de8, 0x8dc9,
    0x7c26, 0x6c07, 0x5c64, 0x4c45, 0x3ca2, 0x2c83, 0x1ce0, 0x0cc1]

  const ROW15: seq<bv16> := [
    0xef1f, 0xff3e, 0xcf5d, 0xdf7c, 0xaf9b, 0xbfba, 0x8fd9, 0x9ff8,
    0x6e17, 0x7e36, 0x4e55, 0x5e74, 0x2e93, 0x3eb2, 0x0ed1, 0x1ef0]

  const CRC16TAB: seq<seq<bv16>> := [
    ROW0, ROW1, ROW2, ROW3, ROW4, ROW5, ROW6, ROW7, ROW8, ROW9, ROW10, ROW11, ROW12, ROW13, ROW14, ROW15]

  /** The table as the CRC function uses it. */
  function StaticTable(): (tab: seq<Bits>)
    ensures |tab| == 256
  {
    seq(256, i requires 0 <= i < 256 => StaticEntry(i / 16, i % 16))
  }

  function StaticEntry(r: nat, j: nat): Bits
    requires r < 16
  {
    if j < |CRC16TAB[r]| then Word(CRC16TAB[r][j]) else []
  }

  function RowFrom(b: bv8): (row: seq<bv16>)
    ensures |row| == 16
  {
    [ByteNumber(b), ByteNumber(b + 1), ByteNumber(b + 2), ByteNumber(b + 3),
     ByteNumber(b + 4), ByteNumber(b + 5), ByteNumber(b + 6), ByteNumber(b + 7),
     ByteNumber(b + 8), ByteNumber(b + 9), ByteNumber(b + 10), ByteNumber(b + 11),
     ByteNumber(b + 12), ByteNumber(b + 13), ByteNumber(b + 14), ByteNumber(b + 15)]
  }

  lemma Rows0To3()
    ensures ROW0 == RowFrom(0x00)
    ensures ROW1 == RowFrom(0x10)
    ensures ROW2 == RowFrom(0x20)
    ensures ROW3 == RowFrom(0x30)
  {}

  lemma Rows4To7()
    ensures ROW4 == RowFrom(0x40)
    ensures ROW5 == RowFrom(0x50)
    ensures ROW6 == RowFrom(0x60)
    ensures ROW7 == RowFrom(0x70)
  {}

  lemma Rows8To11()
    ensures ROW8 == RowFrom(0x80)
    ensures ROW9 == RowFrom(0x90)
    ensures ROW10 == RowFrom(0xa0)
    ensures ROW11 == RowFrom(0xb0)
  {}

  lemma Rows12To15()
    ensures ROW12 == RowFrom(0xc0)
    ensures ROW13 == RowFrom(0xd0)
    ensures ROW14 == RowFrom(0xe0)
    ensures ROW15 == RowFrom(0xf0)
  {}

  lemma RowAt(r: bv8)
    requires r < 16
    ensures CRC16TAB[r as int] == RowFrom(r << 4)
  {
    hide RowFrom;
    Rows0To3();
    Rows4To7();
    Rows8To11();
    Rows12To15();
    if r < 8 {
      if r < 4 { if r < 2 { if r == 0 {} else {} } else if r == 2 {} else {} }
      else if r < 6 { if r == 4 {} else {} } else if r == 6 {} else {}
    } else {
      if r < 12 { if r < 10 { if r == 8 {} else {} } else if r == 10 {} else {} }
      else if r < 14 { if r == 12 {} else {} } else if r == 14 {} else {}
    }
  }

  lemma RowEntry(b: bv8, j: bv8)
    requires j < 16
    ensures RowFrom(b)[j as int] == ByteNumber(b + j)
  {
    hide ByteNumber;
    if j < 8 {
      if j < 4 { if j < 2 { if j == 0 {} else {} } else if j == 2 {} else {} }
      else if j < 6 { if j == 4 {} else {} } else if j == 6 {} else {}
    } else {
      if j < 12 { if j < 10 { if j == 8 {} else {} } else if j == 10 {} else {} }
      else if j < 14 { if j == 12 {} else {} } else if j == 14 {} else {}
    }
  }

  /** The index of a byte: its high four bits choose the row, its low four bits the column. */
  lemma Nibbles(b: bv8)
    ensures b >> 4 < 16 && b & 0xf < 16
    ensures b as int == 16 * ((b >> 4) as int) + ((b & 0xf) as int)
    ensures ((b >> 4) << 4) + (b & 0xf) == b
  {}

  /** Every constant of the table is the bit-serial CRC of its index. */
  lemma StaticTableCorrect()
    ensures IsTable(StaticTable(), CCITT)
  {
    hide RowFrom, ByteNumber, Turn, Word, CRC16TAB;
    forall b: Byte ensures StaticTable()[Value(b)] == Turn(CCITT, Falses(16), ByteBits(b)) {
      var r, j := b.bits >> 4, b.bits & 0xf;
      Nibbles(b.bits);
      RowAt(r);
      RowEntry(r << 4, j);
      ByteNumberIsTurn(b);
      EntryOf(b);
    }
  }

  lemma EntryOf(b: Byte)
    ensures (b.bits >> 4) as int < 16
    ensures StaticTable()[Value(b)] == StaticEntry((b.bits >> 4) as int, (b.bits & 0xf) as int)
  {
    hide StaticEntry;
    Nibbles(b.bits);
  }
}
