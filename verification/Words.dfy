/** Little-endian 32-bit fields in packet bytes. */
module Words {
  import opened Gf256
  import opened Bytes

  const TWO32: nat := 0x1_0000_0000

  function Le32(b: seq<byte>): (n: nat)
    requires |b| >= 4
    ensures n < TWO32
  {
    Num(b[0]) + 0x100 * Num(b[1]) + 0x1_0000 * Num(b[2]) + 0x100_0000 * Num(b[3])
  }

  function ToLe32(n: nat): (b: seq<byte>)
    requires n < TWO32
    ensures |b| == 4
  {
    [Byte(n % 0x100), Byte(n / 0x100 % 0x100), Byte(n / 0x1_0000 % 0x100), Byte(n / 0x100_0000)]
  }

  lemma Le32RoundTrip(n: nat, rest: seq<byte>)
    requires n < TWO32
    ensures Le32(ToLe32(n) + rest) == n
  {
    hide Byte;
    NumByte(n % 0x100);
    NumByte(n / 0x100 % 0x100);
    NumByte(n / 0x1_0000 % 0x100);
    NumByte(n / 0x100_0000);
    Digits(n);
  }

  lemma Digits(n: nat)
    requires n < TWO32
    ensures n == n % 0x100 + 0x100 * (n / 0x100 % 0x100) + 0x1_0000 * (n / 0x1_0000 % 0x100) + 0x100_0000 * (n / 0x100_0000)
  {
    assert n / 0x1_0000 == n / 0x100 / 0x100;
    assert n / 0x100_0000 == n / 0x1_0000 / 0x100;
  }

  /** An unsigned difference, wrapping below zero. */
  function Wrap32(n: int): (r: nat)
    ensures r < TWO32
  {
    n % TWO32
  }

  function Le16(lo: byte, hi: byte): (n: nat)
    ensures n < 0x1_0000
  {
    Num(lo) + 0x100 * Num(hi)
  }

  function ToLe16(n: nat): (b: seq<byte>)
    requires n < 0x1_0000
    ensures |b| == 2
  {
    [Byte(n % 0x100), Byte(n / 0x100)]
  }

  lemma Le16RoundTrip(n: nat)
    requires n < 0x1_0000
    ensures Le16(ToLe16(n)[0], ToLe16(n)[1]) == n
  {
    hide Byte;
    NumByte(n % 0x100);
    NumByte(n / 0x100);
  }

  lemma ToLe16RoundTrip(lo: byte, hi: byte)
    ensures ToLe16(Le16(lo, hi)) == [lo, hi]
  {
    hide Byte, Num;
    ByteNum(lo);
    ByteNum(hi);
    assert Le16(lo, hi) % 0x100 == Num(lo);
  }

  /** The low byte comes first. */
  lemma ByteOrder()
    ensures Le16(0x34, 0x12) == 0x1234 && Le32([0x78, 0x56, 0x34, 0x12]) == 0x1234_5678
  {
  }
}
