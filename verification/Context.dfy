/** The tables of gf256.cpp. Here the logarithm of one is 255, not 0, and sums of
    logarithms index a longer exponential table instead of being reduced. */
module Context {
  import opened Gf256
  import opened Bytes
  import opened Powers
  import opened Tables

  /** The read-only context once gf256_init has run. */
  datatype GfContext = GfContext(mul: seq<byte>, div: seq<byte>, inv: seq<byte>, lo: seq<seq<byte>>, hi: seq<seq<byte>>)
  {
    ghost predicate Valid()
    {
      && QuotientTables(mul, div)
      && InverseTable(inv)
      && NibbleTables(lo, hi)
    }
  }

  /** mul[y][x] == x * y and div[y][x] == x / y, with division by zero giving zero. */
  ghost predicate QuotientTables(mul: seq<byte>, div: seq<byte>)
  {
    && |mul| == |div| == 0x10000
    && (forall x: byte, y: byte {:trigger Mul(x, y)} :: mul[Cell(Num(y), Num(x))] == Mul(x, y))
    && (forall x: byte, y: byte {:trigger Mul(x, Inv(y))} :: div[Cell(Num(y), Num(x))] == Mul(x, Inv(y)))
  }

  /** The sixteen partial products of each half of a byte. */
  ghost predicate NibbleTables(lo: seq<seq<byte>>, hi: seq<seq<byte>>)
  {
    && |lo| == |hi| == 256
    && forall y: byte {:trigger Num(y)} :: NibbleLanes(lo[Num(y)], hi[Num(y)], y)
  }

  /** A nibble moved to the high half of a byte. */
  function Raised(x: byte): byte { x << 4 }

  ghost predicate NibbleLanes(lo: seq<byte>, hi: seq<byte>, y: byte)
  {
    && |lo| == |hi| == 16
    && forall x :: 0 <= x < 16 ==> lo[x] == Mul(Byte(x), y) && hi[x] == Mul(Raised(Byte(x)), y)
  }

  // ---------- gf256_explog_init ----------

  const GENERATOR: bv16 := 0x8e
  const POLYNOMIAL_256: bv16 := (GENERATOR << 1) | 1

  function NextPower(x: byte): byte
  {
    var next := (x as bv16) << 1;
    var reduced := if next >= 256 then next ^ POLYNOMIAL_256 else next;
    (reduced & 0xff) as byte
  }

  lemma NextPowerDoubles(x: byte)
    ensures NextPower(x) == Double(x)
  {
  }

  ghost predicate ContextExp(e: seq<byte>)
  {
    |e| == 1025 && forall i :: 0 <= i <= 510 ==> e[i] == Alpha(i)
  }

  ghost predicate ContextLog(log: seq<nat>)
  {
    |log| == 256 && forall x: byte :: x != 0 ==> 1 <= log[Num(x)] <= 255 && Alpha(log[Num(x)]) == x
  }

  /** The powers 1..n-1 have their logarithm recorded. */
  ghost predicate LogFrom1(log: seq<nat>, n: nat)
    requires |log| == 256
  {
    forall i :: 1 <= i < n && i < 255 ==> log[Num(Alpha(i))] == i
  }

  lemma LogFrom1Extends(log: seq<nat>, n: nat)
    requires |log| == 256 && 1 <= n <= 255 && LogFrom1(log, n)
    ensures LogFrom1(log[Num(Alpha(n)) := n], n + 1)
  {
    hide Alpha;
    if n == 255 {
      AlphaValues();
      assert Alpha(0) == 1 by { AlphaZero(); }
    }
    forall i | 1 <= i < n
      ensures Num(Alpha(i)) != Num(Alpha(n))
    {
      if n == 255 {
        AlphaInjective(0, i);
      } else {
        AlphaInjective(i, n);
      }
      NumInjective(Alpha(i), Alpha(n));
    }
  }

  lemma AlphaZero()
    ensures Alpha(0) == 1
  {
  }

  lemma LogFrom1Complete(log: seq<nat>)
    requires |log| == 256 && LogFrom1(log, 256) && log[1] == 255
    ensures ContextLog(log)
  {
    hide Alpha;
    AlphaZero();
    AlphaValues();
    forall x: byte | x != 0
      ensures 1 <= log[Num(x)] <= 255 && Alpha(log[Num(x)]) == x
    {
      var i := Log(x);
      if i == 0 {
        assert Num(1) == 1;
      } else {
        assert log[Num(Alpha(i))] == i;
      }
    }
  }

  /** The 255 distinct powers with their logarithms; one gets logarithm 255. */
  method FillPowers(e: array<byte>, log: array<nat>)
    requires e.Length == 1025 && log.Length == 256
    modifies e, log
    ensures forall i :: 0 <= i <= 255 ==> e[i] == Alpha(i)
    ensures ContextLog(log[..])
  {
    AlphaZero();
    AlphaValues();
    hide Double, NextPower, Alpha;
    log[0] := 512;
    e[0] := 1;
    for jj := 1 to 255
      invariant forall i :: 0 <= i < jj ==> e[i] == Alpha(i)
      invariant LogFrom1(log[..], jj)
    {
      NextPowerDoubles(e[jj - 1]);
      AlphaNext(jj);
      LogFrom1Extends(log[..], jj);
      e[jj] := NextPower(e[jj - 1]);
      log[e[jj] as int] := jj;
    }
    e[255] := e[0];
    LogFrom1Extends(log[..], 255);
    log[e[255] as int] := 255;
    assert log[1] == 255;
    LogFrom1Complete(log[..]);
  }

  lemma AlphaNext(n: nat)
    requires n > 0
    ensures Alpha(n) == Double(Alpha(n - 1))
  {
  }

  method ExpLogInit() returns (e: array<byte>, log: array<nat>)
    ensures e.Length == 1025 && log.Length == 256 && ContextExp(e[..]) && ContextLog(log[..])
  {
    hide Alpha, ContextLog;
    e := new byte[1025];
    log := new nat[256];
    FillPowers(e, log);
    for jj := 256 to 510
      invariant ContextLog(log[..])
      invariant forall i :: 0 <= i < jj ==> e[i] == Alpha(i)
    {
      AlphaPeriodic(jj);
      e[jj] := e[jj % 255];
    }
    AlphaPeriodic(510);
    AlphaZero();
    e[510] := 1;
    for jj := 511 to 1020
      invariant ContextLog(log[..])
      invariant forall i :: 0 <= i <= 510 ==> e[i] == Alpha(i)
    {
      e[jj] := 0;
    }
  }

  // ---------- gf256_muldiv_init ----------

  lemma QuotientEntries(e: seq<byte>, log: seq<nat>, x: nat, y: nat)
    requires ContextExp(e) && ContextLog(log) && 0 < x < 256 && 0 < y < 256
    ensures log[x] <= 255 && 1 <= log[y] <= 255
    ensures e[log[x] + log[y]] == Mul(Byte(x), Byte(y))
    ensures e[log[x] + (255 - log[y])] == Mul(Byte(x), Inv(Byte(y)))
  {
    hide Alpha, Mul, Inv;
    NumByte(x);
    NumByte(y);
    ByteZero(x);
    ByteZero(y);
    var i, j := log[x], log[y];
    AlphaAdd(i, j);
    AlphaAdd(j, 255 - j);
    AlphaValues();
    InvUnique(Byte(y), Alpha(255 - j));
    AlphaAdd(i, 255 - j);
  }

  ghost predicate QuotientRow(mul: seq<byte>, div: seq<byte>, y: nat, n: nat)
    requires |mul| == |div| == 0x10000 && y < 256 && n <= 256
  {
    forall x :: 0 <= x < n ==>
      mul[Cell(y, x)] == Mul(Byte(x), Byte(y)) && div[Cell(y, x)] == Mul(Byte(x), Inv(Byte(y)))
  }

  lemma QuotientRowKept(mul: seq<byte>, div: seq<byte>, mul': seq<byte>, div': seq<byte>, y: nat, n: nat)
    requires |mul| == |div| == |mul'| == |div'| == 0x10000 && y < 256 && n <= 256
    requires QuotientRow(mul, div, y, n)
    requires forall x :: 0 <= x < n ==> mul'[Cell(y, x)] == mul[Cell(y, x)] && div'[Cell(y, x)] == div[Cell(y, x)]
    ensures QuotientRow(mul', div', y, n)
  {
  }

  lemma ZeroProducts(x: nat)
    requires x < 256
    ensures Mul(Byte(x), Byte(0)) == 0 && Mul(Byte(x), Inv(Byte(0))) == 0
    ensures Mul(Byte(0), Byte(x)) == 0 && Mul(Byte(0), Inv(Byte(x))) == 0
  {
    ByteZero(0);
    InverseOfZero();
    MulZero(Byte(x));
    MulZero(Inv(Byte(x)));
  }

  /** One subtable: all products and quotients with a fixed second factor. */
  method FillQuotientRow(e: array<byte>, log: array<nat>, m: array<byte>, d: array<byte>, y: nat)
    requires e.Length == 1025 && log.Length == 256 && ContextExp(e[..]) && ContextLog(log[..])
    requires m.Length == d.Length == 0x10000 && m != d && m != e && d != e && 0 < y < 256
    modifies m, d
    ensures QuotientRow(m[..], d[..], y, 256)
    ensures forall p, q :: 0 <= p < 256 && 0 <= q < 256 && p != y ==>
      m[Cell(p, q)] == old(m[Cell(p, q)]) && d[Cell(p, q)] == old(d[Cell(p, q)])
  {
    hide ContextExp, ContextLog, Mul, Inv, Alpha, Byte;
    ghost var es, logs := e[..], log[..];
    assert log[y] <= 255 by { QuotientEntries(es, logs, 1, y); }
    var logY := log[y];
    var logYn := 255 - logY;
    m[Cell(y, 0)] := 0;
    d[Cell(y, 0)] := 0;
    ZeroProducts(y);
    for x := 1 to 256
      invariant e[..] == es && log[..] == logs
      invariant QuotientRow(m[..], d[..], y, x)
      invariant forall p, q :: 0 <= p < 256 && 0 <= q < 256 && p != y ==>
        m[Cell(p, q)] == old(m[Cell(p, q)]) && d[Cell(p, q)] == old(d[Cell(p, q)])
    {
      QuotientEntries(es, logs, x, y);
      var logX := log[x];
      m[Cell(y, x)] := e[logX + logY];
      d[Cell(y, x)] := e[logX + logYn];
    }
  }

  method MulDivInit(e: array<byte>, log: array<nat>) returns (m: array<byte>, d: array<byte>)
    requires e.Length == 1025 && log.Length == 256 && ContextExp(e[..]) && ContextLog(log[..])
    ensures fresh(m) && fresh(d) && QuotientTables(m[..], d[..])
  {
    hide ContextExp, ContextLog, Mul, Inv, Alpha, Byte;
    ghost var es, logs := e[..], log[..];
    m := new byte[0x10000];
    d := new byte[0x10000];
    for x := 0 to 256
      invariant e[..] == es && log[..] == logs
      invariant forall q :: 0 <= q < x ==> m[Cell(0, q)] == 0 && d[Cell(0, q)] == 0
    {
      m[Cell(0, x)] := 0;
      d[Cell(0, x)] := 0;
    }
    forall x | 0 <= x < 256
      ensures Mul(Byte(x), Byte(0)) == 0 && Mul(Byte(x), Inv(Byte(0))) == 0
    {
      ZeroProducts(x);
    }
    for y := 1 to 256
      invariant e[..] == es && log[..] == logs
      invariant forall p :: 0 <= p < y ==> QuotientRow(m[..], d[..], p, 256)
    {
      ghost var m0, d0 := m[..], d[..];
      FillQuotientRow(e, log, m, d, y);
      forall p | 0 <= p < y
        ensures QuotientRow(m[..], d[..], p, 256)
      {
        QuotientRowKept(m0, d0, m[..], d[..], p, 256);
      }
    }
    QuotientRowsComplete(m[..], d[..]);
  }

  lemma QuotientRowsComplete(mul: seq<byte>, div: seq<byte>)
    requires |mul| == |div| == 0x10000 && forall p :: 0 <= p < 256 ==> QuotientRow(mul, div, p, 256)
    ensures QuotientTables(mul, div)
  {
    hide Mul, Inv;
    forall x: byte, y: byte
      ensures mul[Cell(Num(y), Num(x))] == Mul(x, y) && div[Cell(Num(y), Num(x))] == Mul(x, Inv(y))
    {
      ByteNum(x);
      ByteNum(y);
      assert QuotientRow(mul, div, Num(y), 256);
    }
  }

  // ---------- gf256_inv_init ----------

  method InvInit(m: seq<byte>, d: seq<byte>) returns (inv: array<byte>)
    requires QuotientTables(m, d)
    ensures fresh(inv) && InverseTable(inv[..])
  {
    hide QuotientTables, Mul, Inv;
    assert |d| == 0x10000 by { TableSizes(m, d); }
    inv := new byte[256];
    for x := 0 to 256
      invariant forall h :: 0 <= h < x ==> inv[h] == Inv(Byte(h))
    {
      inv[x] := d[Cell(x, 1)];
      InverseEntry(m, d, x);
    }
    forall x: byte
      ensures inv[..][Num(x)] == Inv(x)
    {
      ByteNum(x);
    }
  }

  lemma TableSizes(m: seq<byte>, d: seq<byte>)
    requires QuotientTables(m, d)
    ensures |m| == |d| == 0x10000
  {
  }

  lemma InverseEntry(m: seq<byte>, d: seq<byte>, x: nat)
    requires QuotientTables(m, d) && x < 256
    ensures d[Cell(x, 1)] == Inv(Byte(x))
  {
    hide Mul, Inv;
    NumByte(x);
    assert Num(1) == 1;
    assert d[Cell(Num(Byte(x)), Num(1))] == Mul(1, Inv(Byte(x)));
    MulOne(Inv(Byte(x)));
  }

  // ---------- gf256_mul_mem_init ----------

  method MulMemInit(m: seq<byte>, d: seq<byte>) returns (lo: array<seq<byte>>, hi: array<seq<byte>>)
    requires QuotientTables(m, d)
    ensures fresh(lo) && fresh(hi) && NibbleTables(lo[..], hi[..])
  {
    hide QuotientTables, Mul, Inv, Byte, NibbleLanes;
    TableSizes(m, d);
    lo := new seq<byte>[256];
    hi := new seq<byte>[256];
    for y := 0 to 256
      invariant forall h :: 0 <= h < y ==> NibbleLanes(lo[h], hi[h], Byte(h))
    {
      var l, h := FillNibbles(m, d, y);
      lo[y], hi[y] := l, h;
    }
    forall y: byte
      ensures NibbleLanes(lo[..][Num(y)], hi[..][Num(y)], y)
    {
      ByteNum(y);
    }
  }

  method FillNibbles(m: seq<byte>, ghost d: seq<byte>, y: nat) returns (lo: seq<byte>, hi: seq<byte>)
    requires QuotientTables(m, d) && y < 256
    ensures NibbleLanes(lo, hi, Byte(y))
  {
    hide QuotientTables, Mul, Inv, Byte;
    TableSizes(m, d);
    lo, hi := [], [];
    for x := 0 to 16
      invariant |lo| == |hi| == x
      invariant forall h :: 0 <= h < x ==> lo[h] == Mul(Byte(h), Byte(y)) && hi[h] == Mul(Raised(Byte(h)), Byte(y))
    {
      NibbleEntry(m, d, x, y);
      lo := lo + [m[Cell(y, x)]];
      hi := hi + [m[Cell(y, Num(Raised(Byte(x))))]];
    }
  }

  lemma NibbleEntry(m: seq<byte>, d: seq<byte>, x: nat, y: nat)
    requires QuotientTables(m, d) && x < 16 && y < 256
    ensures m[Cell(y, x)] == Mul(Byte(x), Byte(y))
    ensures m[Cell(y, Num(Raised(Byte(x))))] == Mul(Raised(Byte(x)), Byte(y))
  {
    hide Mul, Inv;
    NumByte(x);
    NumByte(y);
    assert m[Cell(Num(Byte(y)), Num(Byte(x)))] == Mul(Byte(x), Byte(y));
    assert m[Cell(Num(Byte(y)), Num(Raised(Byte(x))))] == Mul(Raised(Byte(x)), Byte(y));
  }

  method GfInit() returns (ctx: GfContext)
    ensures ctx.Valid()
  {
    hide ContextExp, ContextLog, QuotientTables, InverseTable, NibbleTables;
    var e, log := ExpLogInit();
    var m, d := MulDivInit(e, log);
    var inv := InvInit(m[..], d[..]);
    var lo, hi := MulMemInit(m[..], d[..]);
    ctx := GfContext(m[..], d[..], inv[..], lo[..], hi[..]);
  }

  /** The two multiplications that elimination mixes are the same operation. */
  lemma MultiplicationsAgree(t: FecTables, ctx: GfContext, x: byte, y: byte)
    requires t.Valid() && ctx.Valid()
    ensures t.mul[Cell(Num(x), Num(y))] == ctx.mul[Cell(Num(x), Num(y))] == ctx.mul[Cell(Num(y), Num(x))] == Mul(x, y)
    ensures t.inverse[Num(x)] == ctx.inv[Num(x)] == Inv(x)
  {
    hide Mul, Inv, NibbleTables;
    MulCommutes(x, y);
    assert t.mul[Cell(Num(x), Num(y))] == Mul(x, y);
    assert ctx.mul[Cell(Num(x), Num(y))] == Mul(y, x);
    assert ctx.mul[Cell(Num(y), Num(x))] == Mul(x, y);
  }
}
