/** Numbers as big-endian bytes. */
module BigEndian {
  import opened Bytes

  function Number(bytes: seq<Byte>): nat {
    if bytes == [] then 0 else Number(bytes[..|bytes| - 1]) * 0x100 + Value(bytes[|bytes| - 1])
  }

  lemma NumberOne(a: Byte)
    ensures Number([a]) == Value(a)
  {
    assert [a][..0] == [];
  }

  lemma NumberTwo(a: Byte, b: Byte)
    ensures Number([a, b]) == Value(a) * 0x100 + Value(b)
  {
    NumberOne(a);
    assert [a, b][..1] == [a];
  }

  lemma NumberThree(a: Byte, b: Byte, c: Byte)
    ensures Number([a, b, c]) == Value(a) * 0x10000 + Value(b) * 0x100 + Value(c)
  {
    NumberTwo(a, b);
    assert [a, b, c][..2] == [a, b];
  }

  lemma TwoBytes(x: nat)
    requires x < 0x10000
    ensures Number([Low(x / 0x100), Low(x)]) == x
  {
    hide Low, Value;
    NumberTwo(Low(x / 0x100), Low(x));
    LowValue(x / 0x100);
    LowValue(x);
  }

  lemma ThreeBytes(x: nat)
    requires x < 0x1000000
    ensures Number([Low(x / 0x10000), Low(x / 0x100), Low(x)]) == x
  {
    hide Low, Value;
    NumberThree(Low(x / 0x10000), Low(x / 0x100), Low(x));
    LowValue(x / 0x10000);
    LowValue(x / 0x100);
    LowValue(x);
    assert x == x / 0x10000 * 0x10000 + x / 0x100 % 0x100 * 0x100 + x % 0x100;
  }

  function Word16(x: nat): (s: seq<Byte>)
    ensures |s| == 2
  {
    [Low(x / 0x100), Low(x)]
  }

  function Word24(x: nat): (s: seq<Byte>)
    ensures |s| == 3
  {
    [Low(x / 0x10000), Low(x / 0x100), Low(x)]
  }

  function Word32(x: nat): (s: seq<Byte>)
    ensures |s| == 4
  {
    [Low(x / 0x1000000), Low(x / 0x10000), Low(x / 0x100), Low(x)]
  }

  /** Reading a word gives the number back if it fits. */
  lemma FourBytes(x: nat)
    requires x < 0x1_0000_0000
    ensures Number(Word32(x)) == x
  {
    hide Low, Value;
    var y := x / 0x100;
    ThreeBytes(y);
    assert y / 0x10000 == x / 0x1000000 && y / 0x100 == x / 0x10000;
    assert Word32(x)[..3] == [Low(y / 0x10000), Low(y / 0x100), Low(y)];
    LowValue(x);
  }
}
