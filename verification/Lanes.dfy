/** SIMD registers and machine words as short byte sequences. */
module Lanes {
  import opened Gf256
  import opened Bytes
  import opened Context
  import opened LinAlg

  function XorLanes(a: seq<byte>, b: seq<byte>): (r: seq<byte>)
    requires |a| == |b|
    ensures |r| == |a| && forall i :: 0 <= i < |a| ==> r[i] == Add(a[i], b[i])
  {
    seq(|a|, i requires 0 <= i < |a| => Add(a[i], b[i]))
  }

  function Low(x: byte): byte { x & 0x0f }

  function High(x: byte): byte { x >> 4 }

  function Joined(x: byte, above: byte): byte { High(x) | Raised(above) }

  function MaskLow(x: seq<byte>): (r: seq<byte>)
    ensures |r| == |x| && forall i :: 0 <= i < |x| ==> r[i] == Low(x[i])
  {
    seq(|x|, i requires 0 <= i < |x| => Low(x[i]))
  }

  /** The byte that supplies the top bits of byte i when its 64-bit element is shifted right. */
  function Above(x: seq<byte>, i: nat): byte
    requires |x| % 8 == 0 && i < |x|
  {
    if i % 8 == 7 then 0 else x[i + 1]
  }

  /** Right shift by four of every little-endian 64-bit element: bits cross byte borders. */
  function ShiftRight4(x: seq<byte>): (r: seq<byte>)
    requires |x| % 8 == 0
    ensures |r| == |x| && forall i :: 0 <= i < |x| ==> r[i] == Joined(x[i], Above(x, i))
  {
    seq(|x|, i requires 0 <= i < |x| => Joined(x[i], Above(x, i)))
  }

  /** Byte shuffle of one 128-bit lane: a set top bit clears, else the low four bits select. */
  function Shuffle(table: seq<byte>, index: seq<byte>): (r: seq<byte>)
    requires |table| == |index| == 16
    ensures |r| == 16
    ensures forall i :: 0 <= i < 16 ==> r[i] == ShuffleByte(table, index[i])
  {
    seq(16, i requires 0 <= i < 16 => ShuffleByte(table, index[i]))
  }

  function ShuffleByte(table: seq<byte>, index: byte): byte
    requires |table| == 16
  {
    LowBound(index);
    if index & 0x80 != 0 then 0 else table[Num(Low(index))]
  }

  lemma LowBound(b: byte)
    ensures Num(Low(b)) < 16
  {
  }

  /** The 256-bit shuffle works on its two 128-bit halves separately. */
  function Shuffle256(table: seq<byte>, index: seq<byte>): (r: seq<byte>)
    requires |table| == |index| == 32
    ensures |r| == 32
  {
    Shuffle(table[..16], index[..16]) + Shuffle(table[16..], index[16..])
  }

  /** Sixteen products by one constant. */
  function Product128(lo: seq<byte>, hi: seq<byte>, x: seq<byte>): (r: seq<byte>)
    requires |lo| == |hi| == |x| == 16
    ensures |r| == 16
  {
    XorLanes(Shuffle(lo, MaskLow(x)), Shuffle(hi, MaskLow(ShiftRight4(x))))
  }

  /** Thirty-two products, the tables broadcast to both halves. */
  function Product256(lo: seq<byte>, hi: seq<byte>, x: seq<byte>): (r: seq<byte>)
    requires |lo| == |hi| == 16 && |x| == 32
    ensures |r| == 32
  {
    XorLanes(Shuffle256(lo + lo, MaskLow(x)), Shuffle256(hi + hi, MaskLow(ShiftRight4(x))))
  }

  lemma MaskedBits(x: byte, above: byte)
    ensures Low(x) & 0x80 == 0 && Low(Low(x)) == Low(x)
    ensures Low(Joined(x, above)) == High(x) && High(x) & 0x80 == 0 && Low(High(x)) == High(x)
    ensures x == Add(Low(x), Raised(High(x)))
  {
  }

  /** The low and high nibble products of one byte add up to its product. */
  lemma SplitNibble(lo: seq<byte>, hi: seq<byte>, x: byte, above: byte, y: byte)
    requires NibbleLanes(lo, hi, y)
    ensures Add(ShuffleByte(lo, Low(x)), ShuffleByte(hi, Low(Joined(x, above)))) == Mul(y, x)
  {
    MaskedBits(x, above);
    var l, h := Low(x), High(x);
    LowBound(x);
    LowBound(h);
    hide Mul, Add, Low, High, Joined, Raised;
    ByteNum(l);
    ByteNum(h);
    assert ShuffleByte(lo, l) == Mul(l, y) && ShuffleByte(hi, h) == Mul(Raised(h), y);
    MulAddLeft(l, Raised(h), y);
    MulCommutes(x, y);
  }

  lemma Product128IsScale(lo: seq<byte>, hi: seq<byte>, x: seq<byte>, y: byte)
    requires NibbleLanes(lo, hi, y) && |x| == 16
    ensures Product128(lo, hi, x) == Scale(y, x)
  {
    assert |lo| == |hi| == 16;
    hide Mul, Add, Low, Joined, Above, ShuffleByte, NibbleLanes;
    forall i | 0 <= i < 16
      ensures Product128(lo, hi, x)[i] == Mul(y, x[i])
    {
      SplitNibble(lo, hi, x[i], Above(x, i), y);
    }
  }

  lemma Product256IsScale(lo: seq<byte>, hi: seq<byte>, x: seq<byte>, y: byte)
    requires NibbleLanes(lo, hi, y) && |x| == 32
    ensures Product256(lo, hi, x) == Scale(y, x)
  {
    hide Mul, Add, Low, Joined, Above, ShuffleByte;
    assert (lo + lo)[..16] == lo && (lo + lo)[16..] == lo && (hi + hi)[..16] == hi && (hi + hi)[16..] == hi;
    hide NibbleLanes;
    forall i | 0 <= i < 32
      ensures Product256(lo, hi, x)[i] == Mul(y, x[i])
    {
      SplitNibble(lo, hi, x[i], Above(x, i), y);
    }
  }

  // ---------- machine words ----------

  function Pack64(s: seq<byte>): bv64
    requires |s| == 8
  {
    (s[0] as bv64) | ((s[1] as bv64) << 8) | ((s[2] as bv64) << 16) | ((s[3] as bv64) << 24) |
    ((s[4] as bv64) << 32) | ((s[5] as bv64) << 40) | ((s[6] as bv64) << 48) | ((s[7] as bv64) << 56)
  }

  function Unpack64(w: bv64): (s: seq<byte>)
    ensures |s| == 8
  {
    [(w & 0xff) as byte, ((w >> 8) & 0xff) as byte, ((w >> 16) & 0xff) as byte, ((w >> 24) & 0xff) as byte,
     ((w >> 32) & 0xff) as byte, ((w >> 40) & 0xff) as byte, ((w >> 48) & 0xff) as byte, ((w >> 56) & 0xff) as byte]
  }

  lemma UnpackPack64(s: seq<byte>)
    requires |s| == 8
    ensures Unpack64(Pack64(s)) == s
  {
  }

  lemma UnpackXor64(s: seq<byte>, t: seq<byte>)
    requires |s| == |t| == 8
    ensures Unpack64(Pack64(s) ^ Pack64(t)) == XorLanes(s, t)
  {
  }

  function Pack32(s: seq<byte>): bv32
    requires |s| == 4
  {
    (s[0] as bv32) | ((s[1] as bv32) << 8) | ((s[2] as bv32) << 16) | ((s[3] as bv32) << 24)
  }

  function Unpack32(w: bv32): (s: seq<byte>)
    ensures |s| == 4
  {
    [(w & 0xff) as byte, ((w >> 8) & 0xff) as byte, ((w >> 16) & 0xff) as byte, ((w >> 24) & 0xff) as byte]
  }

  lemma UnpackPack32(s: seq<byte>)
    requires |s| == 4
    ensures Unpack32(Pack32(s)) == s
  {
  }

  lemma UnpackXor32(s: seq<byte>, t: seq<byte>)
    requires |s| == |t| == 4
    ensures Unpack32(Pack32(s) ^ Pack32(t)) == XorLanes(s, t)
  {
  }
}
