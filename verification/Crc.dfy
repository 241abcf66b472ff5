/**
  Cyclic redundancy checks: the table-driven functions against the bit-serial shift register.

  A register of 8, 16 or 32 bits is the sequence of its bits, most significant first, so that a
  shift drops the first bit and appends a zero.
 */
module Crc {
  import opened Bytes

  type Bits = seq<bool>

  function Falses(n: nat): (b: Bits)
    ensures |b| == n && forall i :: 0 <= i < n ==> !b[i]
  {
    seq(n, _ => false)
  }

  function Trues(n: nat): (b: Bits)
    ensures |b| == n && forall i :: 0 <= i < n ==> b[i]
  {
    seq(n, _ => true)
  }

  function XorBits(a: Bits, b: Bits): (c: Bits)
    requires |a| == |b|
    ensures |c| == |a| && forall i :: 0 <= i < |a| ==> c[i] == (a[i] != b[i])
  {
    seq(|a|, i requires 0 <= i < |a| => a[i] != b[i])
  }

  //////////////////////////////////////////////////////////////////////////////
  //
  // The bits of a byte
  //
  //////////////////////////////////////////////////////////////////////////////

  function ByteBits(b: Byte): (s: Bits)
    ensures |s| == 8
  {
    var v := b.bits;
    [v & 0x80 != 0, v & 0x40 != 0, v & 0x20 != 0, v & 0x10 != 0, v & 0x08 != 0, v & 0x04 != 0, v & 0x02 != 0,
     v & 0x01 != 0]
  }

  function Weight(bit: bool, w: bv8): bv8 {
    if bit then w else 0
  }

  function FromBits(s: Bits): Byte
    requires |s| == 8
  {
    Byte(Weight(s[0], 0x80) | Weight(s[1], 0x40) | Weight(s[2], 0x20) | Weight(s[3], 0x10) | Weight(s[4], 0x08)
         | Weight(s[5], 0x04) | Weight(s[6], 0x02) | Weight(s[7], 0x01))
  }

  lemma BitsOfByte(b: Byte)
    ensures FromBits(ByteBits(b)) == b
  {}

  lemma ByteOfBits(s: Bits)
    requires |s| == 8
    ensures ByteBits(FromBits(s)) == s
  {}

  function MsgBits(msg: seq<Byte>): (s: Bits)
    ensures |s| == 8 * |msg|
  {
    if msg == [] then [] else MsgBits(msg[..|msg| - 1]) + ByteBits(msg[|msg| - 1])
  }

  lemma {:induction false} MsgBitsAppend(a: seq<Byte>, b: seq<Byte>)
    ensures MsgBits(a + b) == MsgBits(a) + MsgBits(b)
  {
    hide ByteBits;
    if b == [] {
      assert a + b == a;
    } else {
      var n := |b| - 1;
      assert (a + b)[..|a + b| - 1] == a + b[..n];
      MsgBitsAppend(a, b[..n]);
    }
  }

  //////////////////////////////////////////////////////////////////////////////
  //
  // The shift register
  //
  //////////////////////////////////////////////////////////////////////////////

  /** One message bit enters: shift, and subtract the polynomial when the bits leaving differ. */
  function Step(code: Bits, r: Bits, bit: bool): (s: Bits)
    requires |code| == |r| > 0
    ensures |s| == |r|
  {
    var shifted := r[1..] + [false];
    if r[0] != bit then XorBits(shifted, code) else shifted
  }

  /** The bit-serial CRC of a string of bits, from the start value r. */
  function Turn(code: Bits, r: Bits, bits: Bits): (s: Bits)
    requires |code| == |r| > 0
    ensures |s| == |r|
  {
    if bits == [] then r else Step(code, Turn(code, r, bits[..|bits| - 1]), bits[|bits| - 1])
  }

  function Serial(code: Bits, r: Bits, msg: seq<Byte>): (s: Bits)
    requires |code| == |r| > 0
    ensures |s| == |r|
  {
    Turn(code, r, MsgBits(msg))
  }

  lemma TurnSnoc(code: Bits, r: Bits, bits: Bits, bit: bool)
    requires |code| == |r| > 0
    ensures Turn(code, r, bits + [bit]) == Step(code, Turn(code, r, bits), bit)
  {
    assert (bits + [bit])[..|bits|] == bits;
  }

  lemma {:induction false} TurnAppend(code: Bits, r: Bits, a: Bits, b: Bits)
    requires |code| == |r| > 0
    ensures Turn(code, r, a + b) == Turn(code, Turn(code, r, a), b)
  {
    hide Step;
    if b == [] {
      assert a + b == a;
    } else {
      var n := |b| - 1;
      assert (a + b)[..|a + b| - 1] == a + b[..n];
      TurnAppend(code, r, a, b[..n]);
    }
  }

  lemma StepXor(code: Bits, r: Bits, s: Bits, p: bool, q: bool)
    requires |code| == |r| == |s| > 0
    ensures Step(code, XorBits(r, s), p != q) == XorBits(Step(code, r, p), Step(code, s, q))
  {}

  /** The register is linear in its start value and the message together. */
  lemma {:induction false} TurnXor(code: Bits, r: Bits, s: Bits, a: Bits, b: Bits)
    requires |code| == |r| == |s| > 0 && |a| == |b|
    ensures Turn(code, XorBits(r, s), XorBits(a, b)) == XorBits(Turn(code, r, a), Turn(code, s, b))
  {
    hide Step;
    if a != [] {
      var n := |a| - 1;
      assert XorBits(a, b)[..n] == XorBits(a[..n], b[..n]);
      TurnXor(code, r, s, a[..n], b[..n]);
      StepXor(code, Turn(code, r, a[..n]), Turn(code, s, b[..n]), a[n], b[n]);
    }
  }

  /** While the message repeats the register, nothing is fed back. */
  lemma {:induction false} TurnRepeats(code: Bits, r: Bits, bits: Bits)
    requires |code| == |r| > 0 && |bits| <= |r| && bits == r[..|bits|]
    ensures Turn(code, r, bits) == r[|bits|..] + Falses(|bits|)
  {
    if bits != [] {
      var n := |bits| - 1;
      assert bits[..n] == r[..n];
      TurnRepeats(code, r, bits[..n]);
      assert r[n..][1..] == r[n + 1..];
      assert bits[n] == r[n];
    }
  }

  /** What the table lookup exploits: the leading byte meets the message byte, the rest shifts. */
  lemma TurnByTable(code: Bits, r: Bits, d: Bits)
    requires |code| == |r| >= 8 && |d| == 8
    ensures Turn(code, r, d) == XorBits(r[8..] + Falses(8), Turn(code, Falses(|r|), XorBits(r[..8], d)))
  {
    hide Turn;
    var x := XorBits(r[..8], d);
    assert XorBits(r, Falses(|r|)) == r;
    assert XorBits(r[..8], x) == d;
    TurnXor(code, r, Falses(|r|), r[..8], x);
    TurnRepeats(code, r, r[..8]);
  }

  //////////////////////////////////////////////////////////////////////////////
  //
  // The table
  //
  //////////////////////////////////////////////////////////////////////////////

  /** The entry of a byte is the register after that byte has entered the cleared register. */
  ghost predicate IsTable(tab: seq<Bits>, code: Bits)
    requires |code| > 0
  {
    |tab| == 256 && forall b: Byte :: tab[Value(b)] == Turn(code, Falses(|code|), ByteBits(b))
  }

  /**
    init_crc8tab, init_crc16tab and init_crc32tab, for registers of w = |code| bits: the entry is
    computed from the start value init and the complemented index, and then corrected by the
    constant `fix` (none for 8 bits, 0xff00, 0xffffff00).
   */
  method InitTable(code: Bits, init: Bits, fix: Bits) returns (tab: seq<Bits>)
    requires |code| == |init| == |fix| >= 8
    ensures init == Trues(|code|) && fix == Trues(|code| - 8) + Falses(8) ==> IsTable(tab, code)
  {
    hide Turn, ByteBits, Low, Step;
    tab := [];
    for i := 0 to 256
      invariant |tab| == i
      invariant init == Trues(|code|) && fix == Trues(|code| - 8) + Falses(8) ==>
                  forall k :: 0 <= k < i ==> tab[k] == Turn(code, Falses(|code|), ByteBits(Low(k)))
    {
      var crc := init;
      var nb := XorBits(ByteBits(Low(i)), Trues(8));
      assert nb[..0] == [];
      TurnStart(code, init);
      for j := 0 to 8
        invariant crc == Turn(code, init, nb[..j]) && |crc| == |code|
      {
        assert nb[..j + 1] == nb[..j] + [nb[j]];
        TurnSnoc(code, init, nb[..j], nb[j]);
        crc := Step(code, crc, nb[j]);
      }
      assert nb[..8] == nb;
      if init == Trues(|code|) && fix == Trues(|code| - 8) + Falses(8) {
        TableEntry(code, ByteBits(Low(i)));
      }
      tab := tab + [XorBits(crc, fix)];
    }
    forall b: Byte ensures Low(Value(b)) == b {
      ValueLow(b);
    }
  }

  lemma TurnStart(code: Bits, r: Bits)
    requires |code| == |r| > 0
    ensures Turn(code, r, []) == r
  {}

  /** Start value and complement cancel up to the correction. */
  lemma TableEntry(code: Bits, b: Bits)
    requires |code| >= 8 && |b| == 8
    ensures var w := |code|;
            XorBits(Turn(code, Trues(w), XorBits(b, Trues(8))), Trues(w - 8) + Falses(8)) == Turn(code, Falses(w), b)
  {
    hide *;
    var w := |code|;
    XorFalses(Trues(w));
    XorBitsComm(Trues(8), b);
    TurnXor(code, Trues(w), Falses(w), Trues(8), b);
    SplitTrues(w);
    TurnRepeats(code, Trues(w), Trues(8));
    XorTwiceBits(Trues(w - 8) + Falses(8), Turn(code, Falses(w), b));
  }

  lemma XorFalses(r: Bits)
    ensures XorBits(r, Falses(|r|)) == r == XorBits(Falses(|r|), r)
    ensures XorBits(r, r) == Falses(|r|)
  {}

  lemma XorBitsComm(a: Bits, b: Bits)
    requires |a| == |b|
    ensures XorBits(a, b) == XorBits(b, a)
  {}

  lemma SplitTrues(w: nat)
    requires w >= 8
    ensures Trues(w)[..8] == Trues(8) && Trues(w)[8..] == Trues(w - 8)
  {}

  lemma XorTwiceBits(p: Bits, t: Bits)
    requires |p| == |t|
    ensures XorBits(XorBits(p, t), p) == t
  {}

  /**
    crc8, crc16 and crc32: one table lookup a byte.  It equals the bit-serial CRC for every
    generator polynomial, start value and message.
   */
  method TableCrc(tab: seq<Bits>, start: Bits, data: seq<Byte>, ghost code: Bits) returns (crc: Bits)
    requires |code| == |start| >= 8 && IsTable(tab, code)
    ensures crc == Serial(code, start, data)
  {
    hide Turn, ByteBits, FromBits;
    crc := start;
    assert data[..0] == [];
    SerialStart(code, start);
    for i := 0 to |data|
      invariant |crc| == |start|
      invariant crc == Serial(code, start, data[..i])
    {
      var index := XorBits(crc[..8], ByteBits(data[i]));
      SerialSnoc(code, start, data[..i], data[i]);
      assert data[..i + 1] == data[..i] + [data[i]];
      TurnByTable(code, crc, ByteBits(data[i]));
      ByteOfBits(index);
      ValueLow(FromBits(index));
      crc := XorBits(crc[8..] + Falses(8), tab[Value(FromBits(index))]);
    }
    assert data[..|data|] == data;
  }

  lemma SerialStart(code: Bits, r: Bits)
    requires |code| == |r| > 0
    ensures Serial(code, r, []) == r
  {}

  lemma SerialSnoc(code: Bits, r: Bits, msg: seq<Byte>, d: Byte)
    requires |code| == |r| > 0
    ensures Serial(code, r, msg + [d]) == Turn(code, Serial(code, r, msg), ByteBits(d))
  {
    hide Turn, ByteBits;
    assert (msg + [d])[..|msg|] == msg;
    TurnAppend(code, r, MsgBits(msg), ByteBits(d));
  }

  lemma SerialAppend(code: Bits, r: Bits, a: seq<Byte>, b: seq<Byte>)
    requires |code| == |r| > 0
    ensures Serial(code, r, a + b) == Serial(code, Serial(code, r, a), b)
  {
    hide Turn, MsgBits;
    MsgBitsAppend(a, b);
    TurnAppend(code, r, MsgBits(a), MsgBits(b));
  }

  //////////////////////////////////////////////////////////////////////////////
  //
  // The residue of a checked message
  //
  //////////////////////////////////////////////////////////////////////////////

  /** The two bytes of a 16-bit register, as packets carry it. */
  function RegBytes(r: Bits): (s: seq<Byte>)
    requires |r| == 16
    ensures |s| == 2
  {
    [FromBits(r[..8]), FromBits(r[8..])]
  }

  lemma MsgBitsOfReg(r: Bits)
    requires |r| == 16
    ensures MsgBits(RegBytes(r)) == r
  {
    hide FromBits, ByteBits;
    ByteOfBits(r[..8]);
    ByteOfBits(r[8..]);
    var s := RegBytes(r);
    assert s[..1] == [s[0]] && s[..1][..0] == [];
    assert MsgBits(s[..1]) == MsgBits([]) + ByteBits(s[0]);
    assert r == r[..8] + r[8..];
  }

  function Complement(r: Bits): (s: Bits)
    ensures |s| == |r|
  {
    XorBits(r, Trues(|r|))
  }

  /** A message followed by its complemented CRC drives every register to one constant. */
  lemma Residue(code: Bits, start: Bits, msg: seq<Byte>)
    requires |code| == |start| == 16
    ensures Serial(code, start, msg + RegBytes(Complement(Serial(code, start, msg))))
            == Turn(code, Falses(16), Trues(16))
  {
    hide Turn, MsgBits, RegBytes;
    var r := Serial(code, start, msg);
    SerialAppend(code, start, msg, RegBytes(Complement(r)));
    MsgBitsOfReg(Complement(r));
    assert XorBits(r, Falses(16)) == r;
    TurnXor(code, r, Falses(16), r, Trues(16));
    TurnRepeats(code, r, r);
    assert r[16..] + Falses(16) == Falses(16);
    var t := Turn(code, Falses(16), Trues(16));
    assert XorBits(Falses(16), t) == t;
  }

  /** A message whose check bytes are not the complemented CRC misses the constant. */
  lemma ResidueOnlyIf(code: Bits, start: Bits, msg: seq<Byte>, check: Bits)
    requires |code| == |start| == |check| == 16 && code[15]
    requires Serial(code, start, msg + RegBytes(check)) == Turn(code, Falses(16), Trues(16))
    ensures check == Complement(Serial(code, start, msg))
  {
    hide Turn, MsgBits, RegBytes;
    var r := Serial(code, start, msg);
    SerialAppend(code, start, msg, RegBytes(check));
    MsgBitsOfReg(check);
    Residue(code, start, msg);
    SerialAppend(code, start, msg, RegBytes(Complement(r)));
    MsgBitsOfReg(Complement(r));
    TurnInjective(code, r, r, check, Complement(r));
  }

  //////////////////////////////////////////////////////////////////////////////
  //
  // Burst errors
  //
  //////////////////////////////////////////////////////////////////////////////

  lemma StepInjective(code: Bits, r: Bits, s: Bits, bit: bool)
    requires |code| == |r| == |s| > 0 && code[|code| - 1]
    requires Step(code, r, bit) == Step(code, s, bit)
    ensures r == s
  {
    var n := |r| - 1;
    assert Step(code, r, bit)[n] == (r[0] != bit) && Step(code, s, bit)[n] == (s[0] != bit);
    forall i | 1 <= i <= n ensures r[i] == s[i] {
      assert Step(code, r, bit)[i - 1] == Step(code, s, bit)[i - 1];
    }
  }

  /** With constant term 1, equal continuations never bring two different registers together. */
  lemma {:induction false} TurnSeparates(code: Bits, r: Bits, s: Bits, bits: Bits)
    requires |code| == |r| == |s| > 0 && code[|code| - 1]
    requires Turn(code, r, bits) == Turn(code, s, bits)
    ensures r == s
  {
    hide Step;
    if bits != [] {
      var n := |bits| - 1;
      StepInjective(code, Turn(code, r, bits[..n]), Turn(code, s, bits[..n]), bits[n]);
      TurnSeparates(code, r, s, bits[..n]);
    }
  }

  /** From equal registers, different strings of at most the register's width lead apart. */
  lemma TurnInjective(code: Bits, r: Bits, s: Bits, a: Bits, b: Bits)
    requires |code| == |r| == |s| == |a| == |b| > 0 && code[|code| - 1]
    requires r == s && Turn(code, r, a) == Turn(code, s, b)
    ensures a == b
  {
    hide Turn;
    var w := |code|;
    var d := XorBits(a, b);
    assert XorBits(r, s) == Falses(w);
    TurnXor(code, r, s, a, b);
    assert Turn(code, Falses(w), d) == Falses(w);
    DifferenceVanishes(code, d);
    forall i | 0 <= i < w ensures a[i] == b[i] {
      assert d[i] == Falses(w)[i];
    }
  }

  /** A difference that leaves the cleared register clear is no difference. */
  lemma DifferenceVanishes(code: Bits, d: Bits)
    requires |code| == |d| > 0 && code[|code| - 1]
    requires Turn(code, Falses(|code|), d) == Falses(|code|)
    ensures d == Falses(|code|)
  {
    hide Turn, XorBits, Falses;
    var w := |code|;
    XorFalses(d);
    // d entering the register that holds d leaves it clear, and so does nothing entering d
    TurnXor(code, d, Falses(w), Falses(w), d);
    TurnRepeats(code, d, d);
    TurnRepeats(code, Falses(w), Falses(w));
    assert d[w..] == [] && Falses(w)[w..] == [];
    XorFalses(Turn(code, d, Falses(w)));
    TurnSeparates(code, d, Falses(w), Falses(w));
  }

  /**
    Two messages of equal length that differ only within sixteen consecutive bits starting at a
    byte boundary (two adjacent bytes) have different 16-bit CRCs.
   */
  lemma BurstDetected(code: Bits, start: Bits, before: seq<Byte>, x: seq<Byte>, y: seq<Byte>, after: seq<Byte>)
    requires |code| == |start| == 16 && code[15]
    requires |x| == |y| == 2 && x != y
    ensures Serial(code, start, before + x + after) != Serial(code, start, before + y + after)
  {
    hide Turn, MsgBits;
    SerialAppend(code, start, before + x, after);
    SerialAppend(code, start, before + y, after);
    SerialAppend(code, start, before, x);
    SerialAppend(code, start, before, y);
    var r := Serial(code, start, before);
    if Serial(code, start, before + x + after) == Serial(code, start, before + y + after) {
      TurnSeparates(code, Serial(code, r, x), Serial(code, r, y), MsgBits(after));
      TurnInjective(code, r, r, MsgBits(x), MsgBits(y));
      MsgBitsInjective(x, y);
    }
  }

  lemma MsgBitsInjective(x: seq<Byte>, y: seq<Byte>)
    requires |x| == |y| == 2 && MsgBits(x) == MsgBits(y)
    ensures x == y
  {
    hide ByteBits, FromBits;
    assert x == [x[0]] + [x[1]] && y == [y[0]] + [y[1]];
    OneByteBits(x[0]);
    OneByteBits(x[1]);
    OneByteBits(y[0]);
    OneByteBits(y[1]);
    MsgBitsAppend([x[0]], [x[1]]);
    MsgBitsAppend([y[0]], [y[1]]);
    assert ByteBits(x[0]) == MsgBits(x)[..8] && ByteBits(x[1]) == MsgBits(x)[8..];
    assert ByteBits(y[0]) == MsgBits(y)[..8] && ByteBits(y[1]) == MsgBits(y)[8..];
    BitsOfByte(x[0]);
    BitsOfByte(x[1]);
    BitsOfByte(y[0]);
    BitsOfByte(y[1]);
  }

  lemma OneByteBits(b: Byte)
    ensures MsgBits([b]) == ByteBits(b)
  {
    assert [b][..0] == [];
    assert MsgBits([b]) == MsgBits([]) + ByteBits(b);
  }

  //////////////////////////////////////////////////////////////////////////////
  //
  // The polynomial of EDI packets
  //
  //////////////////////////////////////////////////////////////////////////////

  /** The bits of a 16-bit number. */
  function Word(v: bv16): (s: Bits)
    ensures |s| == 16
  {
    [v & 0x8000 != 0, v & 0x4000 != 0, v & 0x2000 != 0, v & 0x1000 != 0,
     v & 0x0800 != 0, v & 0x0400 != 0, v & 0x0200 != 0, v & 0x0100 != 0,
     v & 0x0080 != 0, v & 0x0040 != 0, v & 0x0020 != 0, v & 0x0010 != 0,
     v & 0x0008 != 0, v & 0x0004 != 0, v & 0x0002 != 0, v & 0x0001 != 0]
  }

  /** x^16 + x^12 + x^5 + 1. */
  const CCITT: Bits := Word(0x1021)

  /** A step on 16-bit numbers, as the C functions shift and xor them. */
  function StepNumber(v: bv16, bit: bool): bv16 {
    if (v & 0x8000 != 0) != bit then (v << 1) ^ 0x1021 else v << 1
  }

  /** The step spelled out for this polynomial: feedback enters at the powers 12, 5 and 0. */
  function NextBits(a: Bits, bit: bool): (s: Bits)
    requires |a| == 16
    ensures |s| == 16
  {
    var f := a[0] != bit;
    [a[1], a[2], a[3], a[4] != f, a[5], a[6], a[7], a[8], a[9], a[10], a[11] != f, a[12], a[13], a[14], a[15], f]
  }

  lemma StepCcitt(a: Bits, bit: bool)
    requires |a| == 16
    ensures Step(CCITT, a, bit) == NextBits(a, bit)
  {}

  lemma NumberWithoutFeedback(v: bv16, bit: bool)
    requires (v & 0x8000 != 0) == bit
    ensures Word(StepNumber(v, bit)) == NextBits(Word(v), bit)
  {}

  lemma NumberWithFeedback(v: bv16, bit: bool)
    requires (v & 0x8000 != 0) != bit
    ensures Word(StepNumber(v, bit)) == NextBits(Word(v), bit)
  {}

  /** Steps on numbers and steps on their bits agree. */
  lemma StepWord(v: bv16, bit: bool)
    ensures Step(CCITT, Word(v), bit) == Word(StepNumber(v, bit))
  {
    hide *;
    StepCcitt(Word(v), bit);
    if (v & 0x8000 != 0) == bit {
      NumberWithoutFeedback(v, bit);
    } else {
      NumberWithFeedback(v, bit);
    }
  }

  function Ones(n: nat): bv16 {
    if n == 0 then 0 else StepNumber(Ones(n - 1), true)
  }

  lemma {:induction false} RunOfOnes(n: nat)
    ensures Turn(CCITT, Falses(16), Trues(n)) == Word(Ones(n))
  {
    hide Step, StepNumber, Turn;
    if n == 0 {
      assert Trues(0) == [] && Falses(16) == Word(0);
      TurnStart(CCITT, Falses(16));
    } else {
      RunOfOnes(n - 1);
      assert Trues(n - 1) + [true] == Trues(n);
      hide Word;
      TurnSnoc(CCITT, Falses(16), Trues(n - 1), true);
      StepWord(Ones(n - 1), true);
    }
  }

  /** The constant that a receiver compares with. */
  lemma EdiResidue()
    ensures Turn(CCITT, Falses(16), Trues(16)) == Word(0x1d0f)
  {
    RunOfOnes(16);
    SixteenOnes();
  }

  lemma SixteenOnes()
    ensures Ones(16) == 0x1d0f
  {
    assert Ones(2) == 0x3063;
    assert Ones(4) == 0xf1ef;
    assert Ones(6) == 0xc7bc;
    assert Ones(8) == 0x1ef0;
    assert Ones(10) == 0x4ba3;
    assert Ones(12) == 0x0ece;
    assert Ones(14) == 0x0b5b;
  }
}
