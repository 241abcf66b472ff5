/** The codec object that packet protection uses, and the round trip through it. */
module ReedSolomonCodec {
  import opened Bytes
  import opened Code
  import opened Codec
  import opened Generator
  import opened Massey
  import opened ErrorWords
  import opened Success
  import opened Correction

  class ReedSolomon {
    const n: nat
    const k: nat
    const rs: Rs
    var reverse: bool

    ghost predicate Valid()
      reads this, rs.alphaTo, rs.indexOf, rs.genpoly
    {
      && rs.Valid() && 0 < k < n <= 255
      && rs.nroots == n - k && rs.pad == 255 - n
    }

    constructor (n: nat, k: nat, reverse: bool, rs: Rs)
      ensures this.n == n && this.k == k && this.reverse == reverse && this.rs == rs
    {
      this.n, this.k, this.reverse, this.rs := n, k, reverse, rs;
    }

    method SetReverse(state: bool)
      requires Valid()
      modifies this
      ensures Valid() && reverse == state
    {
      reverse := state;
    }

    /**
      Encodes data into fec, or, in reverse, decodes both together without erasures.
     */
    method Encode(data: array<Byte>, fec: array<Byte>) returns (ret: int)
      requires Valid()
      requires data.Length == k && fec.Length == n - k && data != fec && fec != rs.alphaTo && data != rs.alphaTo
      modifies data, fec
      ensures Valid()
      ensures !reverse ==> ret == 0 && data[..] == old(data[..])
      ensures !reverse ==> fec[..] == ParityOf(old(data[..]), rs.fcr, rs.nroots)
      ensures reverse && (ret == 0 || ret == -1) ==> data[..] == old(data[..]) && fec[..] == old(fec[..])
      ensures reverse && IsCodeword(old(data[..] + fec[..]), rs.fcr, rs.nroots) ==> ret == 0
      ensures reverse ==> forall c :: Decodable(c, old(data[..] + fec[..]), rs.pad, [], rs.fcr, rs.nroots) ==>
                data[..] + fec[..] == c && ret == |Unknown(c, old(data[..] + fec[..]), rs.pad, [])|
      ensures reverse ==> Nearest(old(data[..] + fec[..]), rs.pad, [], rs.fcr, rs.nroots, data[..] + fec[..])
      ensures reverse && OnlyFirst(SyndromesOf(old(data[..] + fec[..]), rs.fcr, rs.nroots)) ==> ret == 0
    {
      hide ParityOf, Decodable, Unknown, IsCodeword, Nearest, OnlyFirst;
      if reverse {
        ret := DecodePair(rs, data, fec);
      } else {
        EncodeRs(rs, data, fec);
        assert data[..k] == data[..];
        ret := 0;
      }
    }
  }

  /** Joins data and parity in one buffer, decodes it, and copies it back if anything was corrected. */
  method DecodePair(rs: Rs, data: array<Byte>, fec: array<Byte>) returns (ret: int)
    requires rs.Valid() && rs.nroots > 0
    requires data.Length + fec.Length == 255 - rs.pad
    requires data != fec && fec != rs.alphaTo && data != rs.alphaTo
    modifies data, fec
    ensures ret == 0 || ret == -1 ==> data[..] == old(data[..]) && fec[..] == old(fec[..])
    ensures IsCodeword(old(data[..] + fec[..]), rs.fcr, rs.nroots) ==> ret == 0
    ensures forall c :: Decodable(c, old(data[..] + fec[..]), rs.pad, [], rs.fcr, rs.nroots) ==>
              data[..] + fec[..] == c && ret == |Unknown(c, old(data[..] + fec[..]), rs.pad, [])|
    ensures Nearest(old(data[..] + fec[..]), rs.pad, [], rs.fcr, rs.nroots, data[..] + fec[..])
    ensures OnlyFirst(SyndromesOf(old(data[..] + fec[..]), rs.fcr, rs.nroots)) ==> ret == 0
  {
    hide Decodable, Unknown, IsCodeword, Nearest, Corrects, Accounts, OnlyFirst;
    ghost var d := data[..] + fec[..];
    var buffer := Join(data, fec);
    ghost var pos, w;
    ret, pos, w := DecodeRs(rs, buffer, null, 0);
    forall c | Decodable(c, d, rs.pad, [], rs.fcr, rs.nroots)
      ensures buffer[..] == c && ret == |Unknown(c, d, rs.pad, [])|
    {
      DecodedPair(c, d, rs.pad, rs.fcr, rs.nroots, buffer[..], ret, pos);
    }
    if ret != 0 && ret != -1 {
      CopyFrom(buffer, 0, data);
      CopyFrom(buffer, data.Length, fec);
    }
    UnchangedBuffer(d, rs.pad, rs.fcr, rs.nroots, buffer[..], ret, pos, w);
    assert data[..] + fec[..] == buffer[..];
  }

  /** Without erasures the result counts the errors. */
  lemma DecodedPair(c: seq<Byte>, d: seq<Byte>, pad: nat, fcr: nat, nroots: nat, after: seq<Byte>, ret: int,
                    pos: seq<nat>)
    requires Decodable(c, d, pad, [], fcr, nroots) && Corrects(d, pad, [], fcr, nroots, after, ret, pos)
    ensures after == c && ret == |Unknown(c, d, pad, [])|
  {
    hide Decodable, Unknown;
    assert Recovered(c, d, pad, [], after, ret, pos);
    SameWordNoUnknown(c, d, pad);
  }

  /** Where the result is 0 or -1 the buffer holds what was received. */
  lemma UnchangedBuffer(d: seq<Byte>, pad: nat, fcr: nat, nroots: nat, after: seq<Byte>, ret: int, pos: seq<nat>,
                        w: seq<Byte>)
    requires Accounts(d, pad, [], fcr, nroots, after, ret, pos, w)
    requires ret == -1 || IsCodeword(d, fcr, nroots) ==> after == d
    ensures ret == 0 ==> after == d
  {
    hide IsCodeword, FinalLocator, FinalLength, IsLocator, Xor, Syn;
    if ret == 0 && !IsCodeword(d, fcr, nroots) {
      assert |w| == 255;
      forall j | 0 <= j < |d| ensures Without(d, w, pad)[j] == d[j] {
        XorZero(d[j]);
      }
    }
  }

  method Join(data: array<Byte>, fec: array<Byte>) returns (buffer: array<Byte>)
    ensures fresh(buffer) && buffer[..] == data[..] + fec[..]
  {
    buffer := new Byte[data.Length + fec.Length](_ => ZERO);
    CopyTo(data, buffer, 0);
    CopyTo(fec, buffer, data.Length);
  }

  method CopyTo(src: array<Byte>, dst: array<Byte>, at: nat)
    requires src != dst && at + src.Length <= dst.Length
    modifies dst
    ensures dst[at..at + src.Length] == src[..]
    ensures forall i :: 0 <= i < at || at + src.Length <= i < dst.Length ==> dst[i] == old(dst[i])
  {
    for i := 0 to src.Length
      invariant forall m :: 0 <= m < i ==> dst[at + m] == src[m]
      invariant forall m :: 0 <= m < at || at + i <= m < dst.Length ==> dst[m] == old(dst[m])
    {
      dst[at + i] := src[i];
    }
  }

  method CopyFrom(src: array<Byte>, at: nat, dst: array<Byte>)
    requires src != dst && at + dst.Length <= src.Length
    modifies dst
    ensures dst[..] == src[at..at + dst.Length]
  {
    for i := 0 to dst.Length
      invariant forall m :: 0 <= m < i ==> dst[m] == src[at + m]
    {
      dst[i] := src[at + i];
    }
  }

  lemma SameWordNoUnknown(c: seq<Byte>, d: seq<Byte>, pad: nat)
    requires |c| == |d|
    ensures c == d ==> |Unknown(c, d, pad, [])| == 0
    ensures c != d ==> |Unknown(c, d, pad, [])| > 0
  {
    if c == d {
      assert Unknown(c, d, pad, []) == {};
    } else {
      var j :| 0 <= j < |c| && c[j] != d[j];
      assert j in Unknown(c, d, pad, []);
    }
  }

  /** The constructor; null stands for the exception on invalid parameters. */
  method NewReedSolomon(n: int, k: int, reverse: bool, firstRoot: int) returns (r: ReedSolomon?)
    ensures r != null <==> 0 <= firstRoot < 256 && 0 < k <= n <= 255
    ensures r != null && n != k ==> r.Valid()
    ensures r != null ==> fresh(r) && fresh(r.rs.alphaTo) && fresh(r.rs.indexOf) && fresh(r.rs.genpoly)
    ensures r != null ==> r.n == n && r.k == k && r.reverse == reverse && r.rs.fcr == firstRoot
  {
    var nroots, pad := n - k, 255 - n;
    var rs := InitRs(firstRoot, nroots, pad);
    if rs == null {
      return null;
    }
    r := new ReedSolomon(n, k, reverse, rs);
  }

  /**
    The promise of the code: whatever is encoded can be decoded again after any change to at most
    half as many symbols as there are parity symbols.
   */
  lemma EncodedIsDecodable(data: seq<Byte>, received: seq<Byte>, fcr: nat, nroots: nat)
    requires nroots > 0 && 0 < |data| + nroots == |received| <= 255
    requires var c := data + ParityOf(data, fcr, nroots);
             2 * |set j: nat | j < |c| && c[j] != received[j]| <= nroots
    ensures Decodable(data + ParityOf(data, fcr, nroots), received, 255 - |received|, [], fcr, nroots)
  {
    hide ParityOf, IsCodeword;
    var c := data + ParityOf(data, fcr, nroots);
    ParityCompletes(data, fcr, nroots);
    assert Unknown(c, received, 255 - |received|, []) == set j: nat | j < |c| && c[j] != received[j];
  }
}
