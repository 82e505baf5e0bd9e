/** The lookup tables of the two finite-field libraries. fec.c and gf256.cpp build
    theirs independently; both turn out to hold the one multiplication of Gf256. */
module Tables {
  import opened Gf256
  import opened Bytes
  import opened Powers

  /** The tables of fec.c once fec_init has run; nothing writes them afterwards. */
  datatype FecTables = FecTables(inverse: seq<byte>, mul: seq<byte>)
  {
    ghost predicate Valid()
    {
      && |inverse| == 256 && |mul| == 0x10000
      && (forall x: byte {:trigger Inv(x)} :: inverse[Num(x)] == Inv(x))
      && (forall x: byte, y: byte {:trigger Mul(x, y)} :: mul[Cell(Num(x), Num(y))] == Mul(x, y))
    }
  }

  // ---------- fec.c ----------

  /** modnn: reduction modulo 255 without a division; the shift and mask by 8 bits are / and % 256. */
  method ModNn(x0: nat) returns (x: nat)
    ensures x == x0 % 255
  {
    x := x0;
    while x >= 255
      invariant x % 255 == x0 % 255
    {
      ghost var before := x;
      x := x - 255;
      ghost var high, low := x / 256, x % 256;
      assert x == 255 * high + (high + low);
      FoldMod(high, high + low);
      x := x / 256 + x % 256;
      assert before % 255 == (before - 255) % 255;
    }
  }

  lemma FoldMod(q: nat, r: nat)
    ensures (255 * q + r) % 255 == r % 255
  {
  }

  /** gf_log after generate_gf: discrete logarithms, with 255 standing for log 0. */
  ghost predicate FecLog(log: seq<nat>)
  {
    |log| == 256 && log[0] == 255 && forall x: byte :: x != 0 ==> log[Num(x)] == Log(x)
  }

  ghost predicate ExpUpTo(e: seq<byte>, n: nat)
  {
    n <= |e| && forall i :: 0 <= i < n ==> e[i] == Alpha(i)
  }

  ghost predicate LogUpTo(log: seq<nat>, n: nat)
    requires |log| == 256 && n <= 255
  {
    forall i :: 0 <= i < n ==> log[Num(Alpha(i))] == i
  }

  lemma LogExtends(log: seq<nat>, n: nat)
    requires |log| == 256 && n < 255 && LogUpTo(log, n)
    ensures LogUpTo(log[Num(Alpha(n)) := n], n + 1)
  {
    forall i | 0 <= i < n
      ensures Num(Alpha(i)) != Num(Alpha(n))
    {
      AlphaInjective(i, n);
      NumInjective(Alpha(i), Alpha(n));
    }
  }

  lemma LogComplete(log: seq<nat>, x: byte)
    requires |log| == 256 && LogUpTo(log, 255) && x != 0
    ensures log[Num(x)] == Log(x)
  {
    assert log[Num(Alpha(Log(x)))] == Log(x);
  }

  /** The polynomial 1 + x^2 + x^3 + x^4 + x^8, lowest coefficient first. */
  const POLYNOMIAL := "101110001"

  /** What the first loop accumulates for alpha^8: the low terms of the polynomial. */
  ghost function LowTerms(n: nat): byte
    requires n <= 8
  {
    if n == 0 then 0
    else if POLYNOMIAL[n - 1] == '1' then LowTerms(n - 1) ^ Alpha(n - 1)
    else LowTerms(n - 1)
  }

  lemma FirstPowers()
    ensures Alpha(0) == 1 && Alpha(1) == 2 && Alpha(2) == 4 && Alpha(3) == 8
    ensures Alpha(4) == 16 && Alpha(5) == 32 && Alpha(6) == 64 && Alpha(7) == 128
    ensures Alpha(8) == 0x1d
  {
    assert Double(128) == 0x1d;
  }

  lemma EighthPower()
    ensures LowTerms(8) == Alpha(8)
  {
    FirstPowers();
    hide Alpha;
    assert LowTerms(1) == 1;
    assert LowTerms(3) == 5;
    assert LowTerms(4) == 13;
    assert LowTerms(5) == 29;
    assert LowTerms(7) == 29;
  }

  /** The mask of the first loop: alpha^n, and zero once it is shifted out. */
  ghost function Mask(n: nat): byte
  {
    if n < 8 then Alpha(n) else 0
  }

  lemma MaskShifts(n: nat)
    requires n < 8
    ensures Mask(n) << 1 == Mask(n + 1)
  {
    FirstPowers();
    hide Alpha;
  }

  /** Shift left by one bit, replacing a shifted-out x^8 by its reduction. */
  function ShiftReduce(x: byte, reduction: byte, mask: byte): byte
  {
    if x >= mask then reduction ^ ((x ^ mask) << 1) else x << 1
  }

  lemma ShiftReduceDoubles(x: byte)
    ensures ShiftReduce(x, 0x1d, 128) == Double(x)
  {
  }

  /** The first eight powers, and alpha^8 from the polynomial. */
  method GenerateLowPowers(e: array<byte>, log: array<nat>)
    requires e.Length == 510 && log.Length == 256
    modifies e, log
    ensures ExpUpTo(e[..], 9) && LogUpTo(log[..], 9)
  {
    FirstPowers();
    EighthPower();
    hide Alpha, Double;
    var mask: byte := 1;
    e[8] := 0;
    for i := 0 to 8
      invariant mask == Mask(i) && e[8] == LowTerms(i)
      invariant ExpUpTo(e[..], i) && LogUpTo(log[..], i)
    {
      MaskShifts(i);
      LogExtends(log[..], i);
      e[i] := mask;
      log[e[i] as int] := i;
      if POLYNOMIAL[i] == '1' {
        e[8] := e[8] ^ mask;
      }
      mask := mask << 1;
    }
    LogExtends(log[..], 8);
    log[e[8] as int] := 8;
  }

  /** The remaining powers by shifting and reducing. */
  method GenerateHighPowers(e: array<byte>, log: array<nat>)
    requires e.Length == 510 && log.Length == 256
    requires ExpUpTo(e[..], 9) && LogUpTo(log[..], 9)
    modifies e, log
    ensures ExpUpTo(e[..], 255) && LogUpTo(log[..], 255)
  {
    FirstPowers();
    hide Double, ShiftReduce;
    var mask: byte := 128;
    for i := 9 to 255
      invariant ExpUpTo(e[..], i) && LogUpTo(log[..], i)
    {
      assert e[8] == 0x1d;
      ShiftReduceDoubles(e[i - 1]);
      LogExtends(log[..], i);
      e[i] := ShiftReduce(e[i - 1], e[8], mask);
      log[e[i] as int] := i;
    }
  }

  lemma LogWithZero(log: seq<nat>)
    requires |log| == 256 && LogUpTo(log, 255)
    ensures FecLog(log[0 := 255])
  {
    hide Alpha;
    forall x: byte | x != 0
      ensures log[0 := 255][Num(x)] == Log(x)
    {
      NumInjective(x, 0);
      LogComplete(log, x);
    }
  }

  /** The second copy of the powers, so that a sum of two logarithms needs no reduction. */
  method DuplicatePowers(e: array<byte>)
    requires e.Length == 510 && ExpUpTo(e[..], 255)
    modifies e
    ensures forall i :: 0 <= i < 510 ==> e[i] == Alpha(i % 255)
  {
    hide Alpha;
    for i := 0 to 255
      invariant forall h :: 0 <= h < 255 ==> e[h] == Alpha(h)
      invariant forall h :: 255 <= h < 255 + i ==> e[h] == Alpha(h - 255)
    {
      e[i + 255] := e[i];
    }
  }

  method GenerateGf() returns (e: array<byte>, log: array<nat>)
    ensures e.Length == 510 && forall i :: 0 <= i < 510 ==> e[i] == Alpha(i % 255)
    ensures log.Length == 256 && FecLog(log[..])
  {
    hide Alpha, FecLog;
    e := new byte[510];
    log := new nat[256];
    GenerateLowPowers(e, log);
    GenerateHighPowers(e, log);
    LogWithZero(log[..]);
    ghost var before := log[..];
    log[0] := 255;
    assert log[..] == before[0 := 255];
    DuplicatePowers(e);
  }

  lemma AlphaPeriodic(n: nat)
    ensures Alpha(n) == Alpha(n % 255)
  {
    hide Add, Mul, Alpha;
    AlphaValues();
    AlphaMultiple(255, n / 255);
    AlphaAdd(255 * (n / 255), n % 255);
    MulOne(Alpha(n % 255));
  }

  lemma ProductByLogs(x: byte, y: byte)
    requires x != 0 && y != 0
    ensures Mul(x, y) == Alpha((Log(x) + Log(y)) % 255)
  {
    hide Add, Mul, Alpha;
    AlphaAdd(Log(x), Log(y));
    AlphaPeriodic(Log(x) + Log(y));
  }

  ghost predicate FecExp(e: seq<byte>)
  {
    |e| == 510 && forall i :: 0 <= i < 510 ==> e[i] == Alpha(i % 255)
  }

  ghost function Product(i: nat, j: nat): byte
    requires i < 256 && j < 256
  {
    Mul(Byte(i), Byte(j))
  }

  ghost function FecProduct(log: seq<nat>, i: nat, j: nat): byte
    requires |log| == 256 && i < 256 && j < 256
  {
    Alpha((log[i] + log[j]) % 255)
  }

  lemma FecProductIsProduct(log: seq<nat>, i: nat, j: nat)
    requires FecLog(log) && 0 < i < 256 && 0 < j < 256
    ensures FecProduct(log, i, j) == Product(i, j)
  {
    hide Mul, Alpha;
    NumByte(i);
    NumByte(j);
    ByteZero(i);
    ByteZero(j);
    ProductByLogs(Byte(i), Byte(j));
  }

  /** Every cell before (i, j) in row-major order holds the logarithm formula. */
  ghost predicate FilledTo(mul: seq<byte>, log: seq<nat>, i: nat, j: nat)
    requires |mul| == 0x10000 && |log| == 256
  {
    forall p, q :: 0 <= p < 256 && 0 <= q < 256 && (p < i || (p == i && q < j)) ==>
      mul[Cell(p, q)] == FecProduct(log, p, q)
  }

  ghost predicate ProductTable(mul: seq<byte>)
  {
    |mul| == 0x10000 && forall p, q :: 0 <= p < 256 && 0 <= q < 256 ==> mul[Cell(p, q)] == Product(p, q)
  }

  lemma FilledStep(mul: seq<byte>, log: seq<nat>, i: nat, j: nat)
    requires |mul| == 0x10000 && |log| == 256 && i < 256 && j < 256
    requires FilledTo(mul, log, i, j)
    ensures FilledTo(mul[Cell(i, j) := FecProduct(log, i, j)], log, i, j + 1)
  {
    hide FecProduct;
    forall p, q | 0 <= p < 256 && 0 <= q < 256 && (p < i || (p == i && q < j))
      ensures Cell(p, q) != Cell(i, j)
    {
    }
  }

  method FillByLogs(e: array<byte>, log: array<nat>, mul: array<byte>)
    requires FecExp(e[..]) && FecLog(log[..]) && mul.Length == 0x10000 && mul != e
    requires log.Length == 256 && e.Length == 510
    modifies mul
    ensures FilledTo(mul[..], log[..], 256, 0)
  {
    hide FilledTo, FecLog, Alpha;
    assert FilledTo(mul[..], log[..], 0, 0) by { FilledAtStart(mul[..], log[..]); }
    for i := 0 to 256
      invariant FecExp(e[..]) && FilledTo(mul[..], log[..], i, 0)
    {
      for j := 0 to 256
        invariant FecExp(e[..]) && FilledTo(mul[..], log[..], i, j)
      {
        var n := ModNn(log[i] + log[j]);
        FilledStep(mul[..], log[..], i, j);
        ghost var before := mul[..];
        mul[Cell(i, j)] := e[n];
        assert mul[..] == before[Cell(i, j) := e[n]];
      }
      FilledRow(mul[..], log[..], i);
    }
  }

  lemma FilledAtStart(mul: seq<byte>, log: seq<nat>)
    requires |mul| == 0x10000 && |log| == 256
    ensures FilledTo(mul, log, 0, 0)
  {
  }

  lemma FilledRow(mul: seq<byte>, log: seq<nat>, i: nat)
    requires |mul| == 0x10000 && |log| == 256 && FilledTo(mul, log, i, 256)
    ensures FilledTo(mul, log, i + 1, 0)
  {
  }

  method InitMulTable(e: array<byte>, log: array<nat>) returns (mul: array<byte>)
    requires log.Length == 256 && e.Length == 510
    requires FecExp(e[..]) && FecLog(log[..])
    ensures fresh(mul) && ProductTable(mul[..])
  {
    hide FecLog, Alpha, FecProduct, FecExp;
    mul := new byte[0x10000];
    FillByLogs(e, log, mul);
    ghost var filled := mul[..];
    for j := 0 to 256
      invariant forall p, q :: 0 < p < 256 && 0 < q < 256 ==> mul[Cell(p, q)] == filled[Cell(p, q)]
      invariant forall q :: 0 <= q < j ==> mul[Cell(0, q)] == 0 && mul[Cell(q, 0)] == 0
    {
      mul[Cell(j, 0)] := 0;
      mul[Cell(0, j)] := 0;
    }
    forall p, q | 0 <= p < 256 && 0 <= q < 256
      ensures mul[..][Cell(p, q)] == Product(p, q)
    {
      if p == 0 || q == 0 {
        ByteZero(0);
        MulZero(Byte(p));
        MulZero(Byte(q));
      } else {
        FecProductIsProduct(log[..], p, q);
      }
    }
  }

  ghost predicate InverseTable(inverse: seq<byte>)
  {
    |inverse| == 256 && forall x: byte :: inverse[Num(x)] == Inv(x)
  }

  lemma InverseByLog(e: seq<byte>, log: seq<nat>, i: nat)
    requires FecExp(e) && FecLog(log) && 2 <= i < 256
    ensures log[i] < 255 && e[255 - log[i]] == Inv(Byte(i))
  {
    hide Alpha;
    NumByte(i);
    ByteZero(i);
    AlphaValues();
    AlphaPeriodic(255 - Log(Byte(i)));
  }

  method InitInverse(e: array<byte>, log: array<nat>) returns (inverse: array<byte>)
    requires FecExp(e[..]) && FecLog(log[..])
    ensures fresh(inverse) && InverseTable(inverse[..])
  {
    hide Alpha, Inv;
    inverse := new byte[256];
    inverse[0] := 0;
    inverse[1] := 1;
    for i := 2 to 256
      invariant FecExp(e[..]) && FecLog(log[..])
      invariant inverse[0] == 0 && inverse[1] == 1
      invariant forall h :: 2 <= h < i ==> inverse[h] == Inv(Byte(h))
    {
      InverseByLog(e[..], log[..], i);
      inverse[i] := e[255 - log[i]];
    }
    forall x: byte
      ensures inverse[..][Num(x)] == Inv(x)
    {
      ByteNum(x);
      InverseOfZeroAndOne();
      NumInjective(x, 0);
      NumInjective(x, 1);
    }
  }

  lemma InverseOfZeroAndOne()
    ensures Inv(0) == 0 && Inv(1) == 1
  {
    MulOne(1);
    hide Mul, Inv;
    InvUnique(1, 1);
    assert Inv(0) == 0 by { InverseOfZero(); }
  }

  lemma InverseOfZero()
    ensures Inv(0) == 0
  {
  }

  /** fec_init: the tables are frozen once they are built. */
  method FecInit() returns (t: FecTables)
    ensures t.Valid()
  {
    var e, log := GenerateGf();
    hide Alpha, Mul, Inv, FecLog;
    var inverse := InitInverse(e, log);
    var mul := InitMulTable(e, log);
    t := FecTables(inverse[..], mul[..]);
    forall x: byte, y: byte
      ensures t.mul[Cell(Num(x), Num(y))] == Mul(x, y)
    {
      ByteNum(x);
      ByteNum(y);
      assert mul[..][Cell(Num(x), Num(y))] == Product(Num(x), Num(y));
    }
  }
}
