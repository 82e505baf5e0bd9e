/** The 8-bit CRCs: bit by bit, by table, and what they detect. */
module Crc {
  import opened Gf256
  import opened Bytes
  import opened LinAlg

  /** Polynomial of CRC-8/DVB-S2 (section 5.1.4 of ETSI EN 302 307). */
  const DVB_S2: byte := 0xd5

  /** Polynomial of the RC channel messages. */
  const DB_RC: byte := 0xa6

  predicate Top(c: byte) { c & 0x80 != 0 }
  function Up(c: byte): byte { c << 1 }

  function Shift(poly: byte, c: byte): byte
  {
    if c & 0x80 != 0 then (c << 1) ^ poly else c << 1
  }

  /** Eight shifts: what one message byte does to the register. */
  function Bits(poly: byte, c: byte): byte
  {
    Shift(poly, Shift(poly, Shift(poly, Shift(poly, Shift(poly, Shift(poly, Shift(poly, Shift(poly, c))))))))
  }

  /** The n shifts of a partial byte. */
  function Shifts(poly: byte, c: byte, n: nat): byte
  {
    if n == 0 then c else Shift(poly, Shifts(poly, c, n - 1))
  }

  /** The CRC register after a message, starting from c. */
  function Fold(poly: byte, c: byte, m: seq<byte>): byte
  {
    if |m| == 0 then c else Bits(poly, Add(Fold(poly, c, m[..|m| - 1]), m[|m| - 1]))
  }

  /** crc8_dvb_s2. */
  method Crc8DvbS2(crc: byte, a: byte) returns (r: byte)
    ensures r == Bits(DVB_S2, Add(crc, a))
  {
    hide Shift;
    r := crc ^ a;
    for i := 0 to 8
      invariant r == Shifts(DVB_S2, Add(crc, a), i)
    {
      r := ShiftOnce(r);
    }
    EightShifts(DVB_S2, Add(crc, a));
  }

  method ShiftOnce(crc: byte) returns (r: byte)
    ensures r == Shift(DVB_S2, crc)
  {
    if crc & 0x80 != 0 {
      r := (crc << 1) ^ 0xd5;
    } else {
      r := crc << 1;
    }
  }

  lemma EightShifts(poly: byte, c: byte)
    ensures Shifts(poly, c, 8) == Bits(poly, c)
  {
    hide Shift;
    assert Shifts(poly, c, 1) == Shift(poly, c);
    assert Shifts(poly, c, 2) == Shift(poly, Shifts(poly, c, 1));
    assert Shifts(poly, c, 3) == Shift(poly, Shifts(poly, c, 2));
    assert Shifts(poly, c, 4) == Shift(poly, Shifts(poly, c, 3));
    assert Shifts(poly, c, 5) == Shift(poly, Shifts(poly, c, 4));
    assert Shifts(poly, c, 6) == Shift(poly, Shifts(poly, c, 5));
    assert Shifts(poly, c, 7) == Shift(poly, Shifts(poly, c, 6));
  }

  lemma ShiftParts(poly: byte, c: byte)
    ensures Shift(poly, c) == if Top(c) then Add(Up(c), poly) else Up(c)
  {
  }

  lemma TopAdd(a: byte, b: byte)
    ensures Top(Add(a, b)) == (Top(a) != Top(b))
  {
  }

  lemma UpAdd(a: byte, b: byte)
    ensures Up(Add(a, b)) == Add(Up(a), Up(b))
  {
  }

  lemma ShiftAdd(poly: byte, a: byte, b: byte)
    ensures Shift(poly, Add(a, b)) == Add(Shift(poly, a), Shift(poly, b))
  {
    hide Shift, Top, Up, Add;
    ShiftParts(poly, a);
    ShiftParts(poly, b);
    ShiftParts(poly, Add(a, b));
    TopAdd(a, b);
    UpAdd(a, b);
    var x, y := Up(a), Up(b);
    AddInterchange(x, poly, y, poly);
    AddSelf(poly);
    AddZero(Add(x, y));
    AddAssociates(x, y, poly);
    AddInterchange(x, poly, y, 0);
    AddZero(poly);
    AddZero(y);
  }

  lemma {:induction false} ShiftsAdd(poly: byte, a: byte, b: byte, n: nat)
    ensures Shifts(poly, Add(a, b), n) == Add(Shifts(poly, a, n), Shifts(poly, b, n))
  {
    hide Shift, Add;
    if n > 0 {
      ShiftsAdd(poly, a, b, n - 1);
      ShiftAdd(poly, Shifts(poly, a, n - 1), Shifts(poly, b, n - 1));
    }
  }

  lemma BitsAdd(poly: byte, a: byte, b: byte)
    ensures Bits(poly, Add(a, b)) == Add(Bits(poly, a), Bits(poly, b))
  {
    hide Shift, Add;
    EightShifts(poly, a);
    EightShifts(poly, b);
    EightShifts(poly, Add(a, b));
    ShiftsAdd(poly, a, b, 8);
  }

  lemma BitsOfZero(poly: byte)
    ensures Bits(poly, 0) == 0
  {
    hide Bits, Add;
    BitsAdd(poly, 0, 0);
    AddSelf(0);
    AddSelf(Bits(poly, 0));
  }

  /** CRCs are additive: the register of a bytewise sum is the sum of the registers. */
  lemma {:induction false} FoldAdds(poly: byte, a: byte, b: byte, s: seq<byte>, t: seq<byte>)
    requires |s| == |t|
    ensures Fold(poly, Add(a, b), Plus(s, t)) == Add(Fold(poly, a, s), Fold(poly, b, t))
  {
    hide Bits, Add;
    if |s| > 0 {
      var n := |s| - 1;
      FoldAdds(poly, a, b, s[..n], t[..n]);
      assert Plus(s, t)[..n] == Plus(s[..n], t[..n]);
      var x, y := Fold(poly, a, s[..n]), Fold(poly, b, t[..n]);
      AddInterchange(x, y, s[n], t[n]);
      BitsAdd(poly, Add(x, s[n]), Add(y, t[n]));
    }
  }

  lemma {:induction false} FoldOfZeros(poly: byte, n: nat)
    ensures Fold(poly, 0, Zeros(n)) == 0
  {
    hide Bits, Add;
    if n > 0 {
      FoldOfZeros(poly, n - 1);
      assert Zeros(n)[..n - 1] == Zeros(n - 1);
      AddSelf(0);
      BitsOfZero(poly);
    }
  }

  // ---------- tables ----------

  /** crc_dvb_s2_table, sixteen entries a row. */
  const DVB_S2_TABLE: seq<seq<byte>> := [
    [0x00, 0xd5, 0x7f, 0xaa, 0xfe, 0x2b, 0x81, 0x54, 0x29, 0xfc, 0x56, 0x83, 0xd7, 0x02, 0xa8, 0x7d],
    [0x52, 0x87, 0x2d, 0xf8, 0xac, 0x79, 0xd3, 0x06, 0x7b, 0xae, 0x04, 0xd1, 0x85, 0x50, 0xfa, 0x2f],
    [0xa4, 0x71, 0xdb, 0x0e, 0x5a, 0x8f, 0x25, 0xf0, 0x8d, 0x58, 0xf2, 0x27, 0x73, 0xa6, 0x0c, 0xd9],
    [0xf6, 0x23, 0x89, 0x5c, 0x08, 0xdd, 0x77, 0xa2, 0xdf, 0x0a, 0xa0, 0x75, 0x21, 0xf4, 0x5e, 0x8b],
    [0x9d, 0x48, 0xe2, 0x37, 0x63, 0xb6, 0x1c, 0xc9, 0xb4, 0x61, 0xcb, 0x1e, 0x4a, 0x9f, 0x35, 0xe0],
    [0xcf, 0x1a, 0xb0, 0x65, 0x31, 0xe4, 0x4e, 0x9b, 0xe6, 0x33, 0x99, 0x4c, 0x18, 0xcd, 0x67, 0xb2],
    [0x39, 0xec, 0x46, 0x93, 0xc7, 0x12, 0xb8, 0x6d, 0x10, 0xc5, 0x6f, 0xba, 0xee, 0x3b, 0x91, 0x44],
    [0x6b, 0xbe, 0x14, 0xc1, 0x95, 0x40, 0xea, 0x3f, 0x42, 0x97, 0x3d, 0xe8, 0xbc, 0x69, 0xc3, 0x16],
    [0xef, 0x3a, 0x90, 0x45, 0x11, 0xc4, 0x6e, 0xbb, 0xc6, 0x13, 0xb9, 0x6c, 0x38, 0xed, 0x47, 0x92],
    [0xbd, 0x68, 0xc2, 0x17, 0x43, 0x96, 0x3c, 0xe9, 0x94, 0x41, 0xeb, 0x3e, 0x6a, 0xbf, 0x15, 0xc0],
    [0x4b, 0x9e, 0x34, 0xe1, 0xb5, 0x60, 0xca, 0x1f, 0x62, 0xb7, 0x1d, 0xc8, 0x9c, 0x49, 0xe3, 0x36],
    [0x19, 0xcc, 0x66, 0xb3, 0xe7, 0x32, 0x98, 0x4d, 0x30, 0xe5, 0x4f, 0x9a, 0xce, 0x1b, 0xb1, 0x64],
    [0x72, 0xa7, 0x0d, 0xd8, 0x8c, 0x59, 0xf3, 0x26, 0x5b, 0x8e, 0x24, 0xf1, 0xa5, 0x70, 0xda, 0x0f],
    [0x20, 0xf5, 0x5f, 0x8a, 0xde, 0x0b, 0xa1, 0x74, 0x09, 0xdc, 0x76, 0xa3, 0xf7, 0x22, 0x88, 0x5d],
    [0xd6, 0x03, 0xa9, 0x7c, 0x28, 0xfd, 0x57, 0x82, 0xff, 0x2a, 0x80, 0x55, 0x01, 0xd4, 0x7e, 0xab],
    [0x84, 0x51, 0xfb, 0x2e, 0x7a, 0xaf, 0x05, 0xd0, 0xad, 0x78, 0xd2, 0x07, 0x53, 0x86, 0x2c, 0xf9]
  ]

  /** crc_table_db_rc. */
  const DB_RC_TABLE: seq<seq<byte>> := [
    [0x00, 0xa6, 0xea, 0x4c, 0x72, 0xd4, 0x98, 0x3e, 0xe4, 0x42, 0x0e, 0xa8, 0x96, 0x30, 0x7c, 0xda],
    [0x6e, 0xc8, 0x84, 0x22, 0x1c, 0xba, 0xf6, 0x50, 0x8a, 0x2c, 0x60, 0xc6, 0xf8, 0x5e, 0x12, 0xb4],
    [0xdc, 0x7a, 0x36, 0x90, 0xae, 0x08, 0x44, 0xe2, 0x38, 0x9e, 0xd2, 0x74, 0x4a, 0xec, 0xa0, 0x06],
    [0xb2, 0x14, 0x58, 0xfe, 0xc0, 0x66, 0x2a, 0x8c, 0x56, 0xf0, 0xbc, 0x1a, 0x24, 0x82, 0xce, 0x68],
    [0x1e, 0xb8, 0xf4, 0x52, 0x6c, 0xca, 0x86, 0x20, 0xfa, 0x5c, 0x10, 0xb6, 0x88, 0x2e, 0x62, 0xc4],
    [0x70, 0xd6, 0x9a, 0x3c, 0x02, 0xa4, 0xe8, 0x4e, 0x94, 0x32, 0x7e, 0xd8, 0xe6, 0x40, 0x0c, 0xaa],
    [0xc2, 0x64, 0x28, 0x8e, 0xb0, 0x16, 0x5a, 0xfc, 0x26, 0x80, 0xcc, 0x6a, 0x54, 0xf2, 0xbe, 0x18],
    [0xac, 0x0a, 0x46, 0xe0, 0xde, 0x78, 0x34, 0x92, 0x48, 0xee, 0xa2, 0x04, 0x3a, 0x9c, 0xd0, 0x76],
    [0x3c, 0x9a, 0xd6, 0x70, 0x4e, 0xe8, 0xa4, 0x02, 0xd8, 0x7e, 0x32, 0x94, 0xaa, 0x0c, 0x40, 0xe6],
    [0x52, 0xf4, 0xb8, 0x1e, 0x20, 0x86, 0xca, 0x6c, 0xb6, 0x10, 0x5c, 0xfa, 0xc4, 0x62, 0x2e, 0x88],
    [0xe0, 0x46, 0x0a, 0xac, 0x92, 0x34, 0x78, 0xde, 0x04, 0xa2, 0xee, 0x48, 0x76, 0xd0, 0x9c, 0x3a],
    [0x8e, 0x28, 0x64, 0xc2, 0xfc, 0x5a, 0x16, 0xb0, 0x6a, 0xcc, 0x80, 0x26, 0x18, 0xbe, 0xf2, 0x54],
    [0x22, 0x84, 0xc8, 0x6e, 0x50, 0xf6, 0xba, 0x1c, 0xc6, 0x60, 0x2c, 0x8a, 0xb4, 0x12, 0x5e, 0xf8],
    [0x4c, 0xea, 0xa6, 0x00, 0x3e, 0x98, 0xd4, 0x72, 0xa8, 0x0e, 0x42, 0xe4, 0xda, 0x7c, 0x30, 0x96],
    [0xfe, 0x58, 0x14, 0xb2, 0x8c, 0x2a, 0x66, 0xc0, 0x1a, 0xbc, 0xf0, 0x56, 0x68, 0xce, 0x82, 0x24],
    [0x90, 0x36, 0x7a, 0xdc, 0xe2, 0x44, 0x08, 0xae, 0x74, 0xd2, 0x9e, 0x38, 0x06, 0xa0, 0xec, 0x4a]
  ]

  ghost predicate Rows(t: seq<seq<byte>>)
  {
    |t| == 16 && forall h :: 0 <= h < 16 ==> |t[h]| == 16
  }

  /** table[i] */
  function Entry(t: seq<seq<byte>>, i: byte): byte
    requires Rows(t)
  {
    t[Num(i) / 16][Num(i) % 16]
  }

  /** The CRCs of sixteen consecutive bytes. */
  function RowOf(poly: byte, h: byte): (r: seq<byte>)
    ensures |r| == 16
  {
    [Bits(poly, After(h, 0)), Bits(poly, After(h, 1)), Bits(poly, After(h, 2)), Bits(poly, After(h, 3)), Bits(poly, After(h, 4)), Bits(poly, After(h, 5)), Bits(poly, After(h, 6)), Bits(poly, After(h, 7)),
     Bits(poly, After(h, 8)), Bits(poly, After(h, 9)), Bits(poly, After(h, 10)), Bits(poly, After(h, 11)), Bits(poly, After(h, 12)), Bits(poly, After(h, 13)), Bits(poly, After(h, 14)), Bits(poly, After(h, 15))]
  }

  function After(h: byte, l: byte): byte { h + l }

  lemma AfterNext(h: byte, l: byte)
    ensures After(h, l + 1) == After(h, l) + 1
  {
  }

  lemma SmallBytes()
    ensures Byte(0) == 0 && Byte(1) == 1 && Byte(2) == 2 && Byte(3) == 3 && Byte(4) == 4 && Byte(5) == 5 && Byte(6) == 6 && Byte(7) == 7
    ensures Byte(8) == 8 && Byte(9) == 9 && Byte(10) == 10 && Byte(11) == 11 && Byte(12) == 12 && Byte(13) == 13 && Byte(14) == 14 && Byte(15) == 15
  {
  }

  lemma InRow(poly: byte, h: byte, l: nat)
    requires l < 16
    ensures RowOf(poly, h)[l] == Bits(poly, After(h, Byte(l)))
  {
    hide Bits, Byte, After;
    SmallBytes();
  }

  lemma {:induction false} LaterByte(h: byte, l: nat)
    requires Num(h) + l < 256
    ensures Num(After(h, Byte(l))) == Num(h) + l
  {
    hide Num, Byte, After;
    if l == 0 {
      AfterNone(h);
    } else {
      LaterByte(h, l - 1);
      NumByte(l - 1);
      var b := After(h, Byte(l - 1));
      Small(b);
      Small(Byte(l - 1));
      NumSuccessor(b);
      NumSuccessor(Byte(l - 1));
      ByteNum(Byte(l - 1) + 1);
      AfterNext(h, Byte(l - 1));
    }
  }

  lemma AfterNone(h: byte)
    ensures After(h, Byte(0)) == h
  {
  }

  lemma Small(b: byte)
    ensures Num(b) < 255 ==> b != 255
  {
  }

  lemma DvbRows0()
    ensures |DVB_S2_TABLE| == 16
    ensures DVB_S2_TABLE[0] == RowOf(DVB_S2, 0x00)
    ensures DVB_S2_TABLE[1] == RowOf(DVB_S2, 0x10)
  {
  }

  lemma DvbRows2()
    ensures |DVB_S2_TABLE| == 16
    ensures DVB_S2_TABLE[2] == RowOf(DVB_S2, 0x20)
  {
  }

  lemma DvbRows3()
    ensures |DVB_S2_TABLE| == 16
    ensures DVB_S2_TABLE[3] == RowOf(DVB_S2, 0x30)
  {
  }

  lemma DvbRows4()
    ensures |DVB_S2_TABLE| == 16
    ensures DVB_S2_TABLE[4] == RowOf(DVB_S2, 0x40)
    ensures DVB_S2_TABLE[5] == RowOf(DVB_S2, 0x50)
  {
  }

  lemma DvbRows6()
    ensures |DVB_S2_TABLE| == 16
    ensures DVB_S2_TABLE[6] == RowOf(DVB_S2, 0x60)
    ensures DVB_S2_TABLE[7] == RowOf(DVB_S2, 0x70)
  {
  }

  lemma DvbRows8()
    ensures |DVB_S2_TABLE| == 16
    ensures DVB_S2_TABLE[8] == RowOf(DVB_S2, 0x80)
    ensures DVB_S2_TABLE[9] == RowOf(DVB_S2, 0x90)
  {
  }

  lemma DvbRows10()
    ensures |DVB_S2_TABLE| == 16
    ensures DVB_S2_TABLE[10] == RowOf(DVB_S2, 0xa0)
    ensures DVB_S2_TABLE[11] == RowOf(DVB_S2, 0xb0)
    ensures DVB_S2_TABLE[12] == RowOf(DVB_S2, 0xc0)
  {
  }

  lemma DvbRows13()
    ensures |DVB_S2_TABLE| == 16
    ensures DVB_S2_TABLE[13] == RowOf(DVB_S2, 0xd0)
    ensures DVB_S2_TABLE[14] == RowOf(DVB_S2, 0xe0)
    ensures DVB_S2_TABLE[15] == RowOf(DVB_S2, 0xf0)
  {
  }

  lemma DvbTabulates()
    ensures Tabulates(DVB_S2_TABLE, DVB_S2)
  {
    hide DVB_S2_TABLE, RowOf, Byte, After;
    DvbRows0();
    DvbRows2();
    DvbRows3();
    DvbRows4();
    DvbRows6();
    DvbRows8();
    DvbRows10();
    DvbRows13();
    HighBytes();
  }

  lemma RcRows0()
    ensures |DB_RC_TABLE| == 16
    ensures DB_RC_TABLE[0] == RowOf(DB_RC, 0x00)
    ensures DB_RC_TABLE[1] == RowOf(DB_RC, 0x10)
  {
  }

  lemma RcRows2()
    ensures |DB_RC_TABLE| == 16
    ensures DB_RC_TABLE[2] == RowOf(DB_RC, 0x20)
  {
  }

  lemma RcRows3()
    ensures |DB_RC_TABLE| == 16
    ensures DB_RC_TABLE[3] == RowOf(DB_RC, 0x30)
  {
  }

  lemma RcRows4()
    ensures |DB_RC_TABLE| == 16
    ensures DB_RC_TABLE[4] == RowOf(DB_RC, 0x40)
    ensures DB_RC_TABLE[5] == RowOf(DB_RC, 0x50)
  {
  }

  lemma RcRows6()
    ensures |DB_RC_TABLE| == 16
    ensures DB_RC_TABLE[6] == RowOf(DB_RC, 0x60)
    ensures DB_RC_TABLE[7] == RowOf(DB_RC, 0x70)
  {
  }

  lemma RcRows8()
    ensures |DB_RC_TABLE| == 16
    ensures DB_RC_TABLE[8] == RowOf(DB_RC, 0x80)
    ensures DB_RC_TABLE[9] == RowOf(DB_RC, 0x90)
  {
  }

  lemma RcRows10()
    ensures |DB_RC_TABLE| == 16
    ensures DB_RC_TABLE[10] == RowOf(DB_RC, 0xa0)
    ensures DB_RC_TABLE[11] == RowOf(DB_RC, 0xb0)
    ensures DB_RC_TABLE[12] == RowOf(DB_RC, 0xc0)
  {
  }

  lemma RcRows13()
    ensures |DB_RC_TABLE| == 16
    ensures DB_RC_TABLE[13] == RowOf(DB_RC, 0xd0)
    ensures DB_RC_TABLE[14] == RowOf(DB_RC, 0xe0)
    ensures DB_RC_TABLE[15] == RowOf(DB_RC, 0xf0)
  {
  }

  lemma RcTabulates()
    ensures Tabulates(DB_RC_TABLE, DB_RC)
  {
    hide DB_RC_TABLE, RowOf, Byte, After;
    RcRows0();
    RcRows2();
    RcRows3();
    RcRows4();
    RcRows6();
    RcRows8();
    RcRows10();
    RcRows13();
    HighBytes();
  }

  lemma HighBytes()
    ensures Byte(0) == 0x00 && Byte(16) == 0x10 && Byte(32) == 0x20 && Byte(48) == 0x30 && Byte(64) == 0x40 && Byte(80) == 0x50 && Byte(96) == 0x60 && Byte(112) == 0x70
    ensures Byte(128) == 0x80 && Byte(144) == 0x90 && Byte(160) == 0xa0 && Byte(176) == 0xb0 && Byte(192) == 0xc0 && Byte(208) == 0xd0 && Byte(224) == 0xe0 && Byte(240) == 0xf0
  {
  }

  ghost predicate Tabulates(t: seq<seq<byte>>, poly: byte)
  {
    |t| == 16 && forall h :: 0 <= h < 16 ==> t[h] == RowOf(poly, Byte(16 * h))
  }

  lemma TabulatedEntry(t: seq<seq<byte>>, poly: byte, i: byte)
    requires Tabulates(t, poly)
    ensures Rows(t) && Entry(t, i) == Bits(poly, i)
  {
    hide RowOf, Byte, After, Bits, Num;
    var h, l := Num(i) / 16, Num(i) % 16;
    InRow(poly, Byte(16 * h), l);
    NumByte(16 * h);
    LaterByte(Byte(16 * h), l);
    NumInjective(After(Byte(16 * h), Byte(l)), i);
  }

  /** crc8_dvb_s2_table. */
  function Crc8DvbS2Table(crc: byte, a: byte): (r: byte)
    ensures r == Bits(DVB_S2, Add(crc, a))
  {
    hide Tabulates, Bits, DVB_S2_TABLE, Add;
    DvbTabulates();
    TabulatedEntry(DVB_S2_TABLE, DVB_S2, Add(crc, a));
    Entry(DVB_S2_TABLE, Add(crc, a)) & 0xff
  }

  /** One table step of the RC checksum. */
  function DbRcTable(crc: byte, a: byte): (r: byte)
    ensures r == Bits(DB_RC, Add(crc, a))
  {
    hide Tabulates, Bits, DB_RC_TABLE, Add;
    RcTabulates();
    TabulatedEntry(DB_RC_TABLE, DB_RC, Add(crc, a));
    Entry(DB_RC_TABLE, Add(crc, a)) & 0xff
  }

  // ---------- detection ----------

  lemma DvbShiftInjective(a: byte, b: byte)
    ensures Shift(DVB_S2, a) == Shift(DVB_S2, b) ==> a == b
  {
  }

  lemma {:induction false} DvbInjective(a: byte, b: byte, n: nat)
    requires Shifts(DVB_S2, a, n) == Shifts(DVB_S2, b, n)
    ensures a == b
  {
    hide Shift;
    if n > 0 {
      DvbShiftInjective(Shifts(DVB_S2, a, n - 1), Shifts(DVB_S2, b, n - 1));
      DvbInjective(a, b, n - 1);
    }
  }

  lemma DvbBitsInjective(a: byte, b: byte)
    ensures Bits(DVB_S2, a) == Bits(DVB_S2, b) ==> a == b
  {
    hide Bits, Shifts;
    EightShifts(DVB_S2, a);
    EightShifts(DVB_S2, b);
    if Bits(DVB_S2, a) == Bits(DVB_S2, b) {
      DvbInjective(a, b, 8);
    }
  }

  /** CRC-8/DVB-S2 sees every change of one byte. */
  lemma {:induction false} DvbDetects(c: byte, m: seq<byte>, i: nat, b: byte)
    requires i < |m|
    ensures Fold(DVB_S2, c, m[i := b]) == Fold(DVB_S2, c, m) <==> b == m[i]
  {
    hide Bits, Add;
    var n := |m| - 1;
    var m' := m[i := b];
    var x, x' := Fold(DVB_S2, c, m[..n]), Fold(DVB_S2, c, m'[..n]);
    DvbBitsInjective(Add(x, m[n]), Add(x', m'[n]));
    if i == n {
      assert m'[..n] == m[..n];
      AddInjective(x, m[n], b);
    } else {
      assert m'[..n] == m[..n][i := b];
      DvbDetects(c, m[..n], i, b);
      AddInjective(m[n], x, x');
      AddCommutes(m[n], x);
      AddCommutes(m[n], x');
    }
  }

  lemma AddInjective(a: byte, b: byte, c: byte)
    ensures Add(a, b) == Add(a, c) ==> b == c
  {
  }

  /** The one nonzero byte the polynomial of the RC messages does not see. */
  const BLIND: byte := 0xd3

  lemma RcKernel(x: byte)
    ensures Bits(DB_RC, x) == 0 <==> x == 0 || x == BLIND
  {
  }

  predicate Even(x: byte) { x & 1 == 0 }

  lemma RcEven(x: byte)
    ensures Even(Bits(DB_RC, x))
  {
  }

  lemma RcCollides(a: byte, b: byte)
    ensures Bits(DB_RC, a) == Bits(DB_RC, b) <==> a == b || Add(a, b) == BLIND
  {
    hide Bits, Even;
    BitsAdd(DB_RC, a, b);
    RcKernel(Add(a, b));
    AddIsZero(a, b);
    AddIsZero(Bits(DB_RC, a), Bits(DB_RC, b));
  }

  lemma AddIsZero(a: byte, b: byte)
    ensures Add(a, b) == 0 <==> a == b
  {
  }

  lemma EvenAdd(a: byte, b: byte)
    requires Even(a) && Even(b)
    ensures Add(a, b) != BLIND
  {
  }

  lemma AddSame(a: byte, b: byte, c: byte)
    ensures Add(Add(a, c), Add(b, c)) == Add(a, b)
  {
  }

  /** The RC checksum misses a change of one byte exactly when it is the blind one. */
  lemma {:induction false} RcDetects(c: byte, m: seq<byte>, i: nat, b: byte)
    requires i < |m|
    ensures Fold(DB_RC, c, m[i := b]) == Fold(DB_RC, c, m) <==> b == m[i] || Add(b, m[i]) == BLIND
  {
    hide Bits, Add, Even;
    var n := |m| - 1;
    var m' := m[i := b];
    var x, x' := Fold(DB_RC, c, m[..n]), Fold(DB_RC, c, m'[..n]);
    RcCollides(Add(x, m[n]), Add(x', m'[n]));
    if i == n {
      assert m'[..n] == m[..n];
      AddInjective(x, m[n], b);
      AddSame(b, m[n], x);
      AddCommutes(x, b);
      AddCommutes(x, m[n]);
      AddCommutes(Add(b, x), Add(m[n], x));
    } else {
      assert m'[..n] == m[..n][i := b];
      RcDetects(c, m[..n], i, b);
      AddSame(x, x', m[n]);
      RcFoldEven(c, m[..n]);
      RcFoldEven(c, m'[..n]);
      EvenAdd(x, x');
      AddInjective(m[n], x, x');
      AddCommutes(m[n], x);
      AddCommutes(m[n], x');
    }
  }

  lemma RcFoldEven(c: byte, m: seq<byte>)
    requires |m| > 0
    ensures Even(Fold(DB_RC, c, m))
  {
    hide Bits, Add, Even;
    RcEven(Add(Fold(DB_RC, c, m[..|m| - 1]), m[|m| - 1]));
  }

  lemma FoldMore(poly: byte, c: byte, m: seq<byte>, b: byte)
    ensures Fold(poly, c, m + [b]) == Bits(poly, Add(Fold(poly, c, m), b))
  {
    hide Bits, Add;
    assert (m + [b])[..|m|] == m;
  }

  /** One byte of a message whose register so far is known. */
  lemma Register(m: seq<byte>, r: byte, b: byte, next: byte)
    requires Fold(DVB_S2, 0, m) == r && Bits(DVB_S2, Add(r, b)) == next
    ensures Fold(DVB_S2, 0, m + [b]) == next
  {
    hide Bits, Add;
    FoldMore(DVB_S2, 0, m, b);
  }

  /** The check value of CRC-8/DVB-S2: the register after the digits 1 to 9. */
  lemma CheckValue()
    ensures Fold(DVB_S2, 0, [0x31, 0x32, 0x33, 0x34, 0x35, 0x36, 0x37, 0x38, 0x39]) == 0xbc
  {
    hide Fold;
    NothingFolded();
    var m: seq<byte> := [];
    Register(m, 0x00, 0x31, 0x23);
    m := m + [0x31];
    Register(m, 0x23, 0x32, 0x87);
    m := m + [0x32];
    Register(m, 0x87, 0x33, 0xe7);
    m := m + [0x33];
    Register(m, 0xe7, 0x34, 0x8a);
    m := m + [0x34];
    Register(m, 0x8a, 0x35, 0x64);
    m := m + [0x35];
    Register(m, 0x64, 0x36, 0xb0);
    m := m + [0x36];
    Register(m, 0xb0, 0x37, 0xbb);
    m := m + [0x37];
    Register(m, 0xbb, 0x38, 0x45);
    m := m + [0x38];
    Register(m, 0x45, 0x39, 0xbc);
    m := m + [0x39];
    assert m == [0x31, 0x32, 0x33, 0x34, 0x35, 0x36, 0x37, 0x38, 0x39];
  }

  lemma NothingFolded()
    ensures Fold(DVB_S2, 0, []) == 0
  {
  }
}
