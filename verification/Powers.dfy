module Powers {
  import opened Gf256
  import opened Bytes

  /** The powers of alpha = 2, the generator both table builders use. */
  function Alpha(n: nat): byte
  {
    if n == 0 then 1 else Double(Alpha(n - 1))
  }

  lemma {:induction false} AlphaAdd(m: nat, n: nat)
    ensures Mul(Alpha(m), Alpha(n)) == Alpha(m + n)
  {
    hide Add, Double, Half, Odd, Mul;
    if m == 0 {
      MulOne(Alpha(n));
    } else {
      AlphaAdd(m - 1, n);
      MulDouble(Alpha(m - 1), Alpha(n));
    }
  }

  /** The product written out as its eight partial products. */
  function Unrolled(a: byte, b: byte): byte
  {
    var a1, b1 := Double(a), Half(b);
    var a2, b2 := Double(a1), Half(b1);
    var a3, b3 := Double(a2), Half(b2);
    var a4, b4 := Double(a3), Half(b3);
    var a5, b5 := Double(a4), Half(b4);
    var a6, b6 := Double(a5), Half(b5);
    var a7, b7 := Double(a6), Half(b6);
    Add(Part(a, b), Add(Part(a1, b1), Add(Part(a2, b2), Add(Part(a3, b3),
    Add(Part(a4, b4), Add(Part(a5, b5), Add(Part(a6, b6), Part(a7, b7))))))))
  }

  function Part(a: byte, b: byte): byte { if Odd(b) then a else 0 }

  lemma MulUnrolled(a: byte, b: byte)
    ensures Mul(a, b) == Unrolled(a, b)
  {
    var a1, b1 := Double(a), Half(b);
    var a2, b2 := Double(a1), Half(b1);
    var a3, b3 := Double(a2), Half(b2);
    var a4, b4 := Double(a3), Half(b3);
    var a5, b5 := Double(a4), Half(b4);
    var a6, b6 := Double(a5), Half(b5);
    var a7, b7 := Double(a6), Half(b6);
    assert Half(b7) == 0;
    hide Add, Double, Half, Odd, Mul;
    MulStep(a, b);
    MulStep(a1, b1);
    MulStep(a2, b2);
    MulStep(a3, b3);
    MulStep(a4, b4);
    MulStep(a5, b5);
    MulStep(a6, b6);
    MulStep(a7, b7);
    MulZero(Double(a7));
    AddZero(Part(a7, b7));
  }

  lemma Products()
    ensures Mul(0x10, 0x10) == 0x1d && Mul(0x1d, 0x40) == 0x13 && Mul(0x13, 0x02) == 0x26
    ensures Mul(0x26, 0x04) == 0x98
    ensures Mul(0x98, 0x98) == 0x4e && Mul(0x4e, 0x98) == 0x0a && Mul(0x0a, 0x4e) == 0xd6
    ensures Mul(0xd6, 0xd6) == 0xd7 && Mul(0xd7, 0xd6) == 1
  {
    hide Mul;
    MulUnrolled(0x10, 0x10);
    MulUnrolled(0x1d, 0x40);
    MulUnrolled(0x13, 0x02);
    MulUnrolled(0x26, 0x04);
    MulUnrolled(0x98, 0x98);
    MulUnrolled(0x4e, 0x98);
    MulUnrolled(0x0a, 0x4e);
    MulUnrolled(0xd6, 0xd6);
    MulUnrolled(0xd7, 0xd6);
  }

  lemma AlphaValues()
    ensures Alpha(15) != 1 && Alpha(51) != 1 && Alpha(85) != 1 && Alpha(255) == 1
  {
    assert Alpha(1) == 2;
    assert Alpha(2) == 4;
    assert Alpha(4) == 0x10;
    assert Alpha(6) == 0x40;
    Products();
    hide Mul, Double, Alpha;
    AlphaAdd(4, 4);
    AlphaAdd(8, 6);
    AlphaAdd(14, 1);
    AlphaAdd(15, 2);
    AlphaAdd(17, 17);
    AlphaAdd(34, 17);
    AlphaAdd(51, 34);
    AlphaAdd(85, 85);
    AlphaAdd(170, 85);
  }

  lemma {:induction false} AlphaMultiple(m: nat, q: nat)
    requires Alpha(m) == 1
    ensures Alpha(m * q) == 1
  {
    hide Add, Double, Half, Odd, Mul;
    if q != 0 {
      AlphaMultiple(m, q - 1);
      assert m * q == m * (q - 1) + m;
      AlphaAdd(m * (q - 1), m);
      MulOne(1);
    }
  }

  /** If e * p == 255 and m is a unit modulo p, then alpha^m == 1 would force alpha^e == 1. */
  lemma AlphaNotOne(m: nat, e: nat, p: nat, q: nat, t: nat)
    requires e * p == 255 && m * q == p * t + 1 && Alpha(e) != 1
    ensures Alpha(m) != 1
  {
    hide Add, Double, Half, Odd, Mul, Alpha;
    AlphaValues();
    if Alpha(m) == 1 {
      ScaleUnit(m, e, p, q, t);
      AlphaMultiple(m, q * e);
      AlphaMultiple(255, t);
      AlphaAdd(255 * t, e);
      MulOne(Alpha(e));
    }
  }

  lemma ScaleUnit(m: nat, e: nat, p: nat, q: nat, t: nat)
    requires e * p == 255 && m * q == p * t + 1
    ensures m * (q * e) == 255 * t + e
  {
    calc {
      m * (q * e);
      (m * q) * e;
      (p * t + 1) * e;
      (p * t) * e + e;
      (e * p) * t + e;
    }
  }

  lemma Unit3(r: nat) returns (q: nat, s: nat)
    requires 0 < r < 3
    ensures r * q == 3 * s + 1
  {
    if r == 1 { q, s := 1, 0; } else { q, s := 2, 1; }
  }

  lemma Unit5(r: nat) returns (q: nat, s: nat)
    requires 0 < r < 5
    ensures r * q == 5 * s + 1
  {
    if r == 1 { q, s := 1, 0; } else if r == 2 { q, s := 3, 1; } else if r == 3 { q, s := 2, 1; }
    else { q, s := 4, 3; }
  }

  lemma Unit17(r: nat) returns (q: nat, s: nat)
    requires 0 < r < 17
    ensures r * q == 17 * s + 1
  {
    if r == 1 { q, s := 1, 0; } else if r == 2 { q, s := 9, 1; } else if r == 3 { q, s := 6, 1; }
    else if r == 4 { q, s := 13, 3; } else if r == 5 { q, s := 7, 2; } else if r == 6 { q, s := 3, 1; }
    else if r == 7 { q, s := 5, 2; } else if r == 8 { q, s := 15, 7; } else if r == 9 { q, s := 2, 1; }
    else if r == 10 { q, s := 12, 7; } else if r == 11 { q, s := 14, 9; } else if r == 12 { q, s := 10, 7; }
    else if r == 13 { q, s := 4, 3; } else if r == 14 { q, s := 11, 9; } else if r == 15 { q, s := 8, 7; }
    else { q, s := 16, 15; }
  }

  lemma LiftUnit(m: nat, p: nat, q: nat, s: nat) returns (t: nat)
    requires p > 0 && (m % p) * q == p * s + 1
    ensures m * q == p * t + 1
  {
    t := (m / p) * q + s;
    var u, r := m / p, m % p;
    calc {
      m * q;
      (p * u + r) * q;
      (p * u) * q + r * q;
      p * (u * q) + p * s + 1;
      p * (u * q + s) + 1;
    }
  }

  lemma SomeFactorMisses(m: nat)
    requires 0 < m < 255
    ensures m % 17 != 0 || m % 5 != 0 || m % 3 != 0
  {
    if m % 17 == 0 {
      var u := m / 17;
      assert m == 17 * u && 0 < u < 15;
    }
  }

  lemma NotOneByFactor(m: nat, e: nat, p: nat, q: nat, s: nat)
    requires p > 0 && e * p == 255 && (m % p) * q == p * s + 1 && Alpha(e) != 1
    ensures Alpha(m) != 1
  {
    hide Alpha;
    var t := LiftUnit(m, p, q, s);
    AlphaNotOne(m, e, p, q, t);
  }

  /** alpha has order 255: it is a generator of the multiplicative group. */
  lemma AlphaOrder(m: nat)
    requires 0 < m < 255
    ensures Alpha(m) != 1
  {
    hide Alpha;
    AlphaValues();
    SomeFactorMisses(m);
    if m % 17 != 0 {
      var q, s := Unit17(m % 17);
      NotOneByFactor(m, 15, 17, q, s);
    } else if m % 5 != 0 {
      var q, s := Unit5(m % 5);
      NotOneByFactor(m, 51, 5, q, s);
    } else {
      var q, s := Unit3(m % 3);
      NotOneByFactor(m, 85, 3, q, s);
    }
  }

  lemma AlphaInjective(i: nat, j: nat)
    requires i < j < 255
    ensures Alpha(i) != Alpha(j)
  {
    hide Add, Double, Half, Odd, Mul, Alpha;
    if Alpha(i) == Alpha(j) {
      AlphaValues();
      AlphaAdd(255 - i, i);
      AlphaAdd(255 - i, j);
      AlphaAdd(j - i, 255);
      MulCommutes(Alpha(j - i), 1);
      MulOne(Alpha(j - i));
      AlphaOrder(j - i);
    }
  }

  lemma AlphaNonzero(n: nat)
    ensures Alpha(n) != 0
  {
  }

  /** The values of the first n powers, as numbers. */
  ghost function Range(n: nat): (s: set<int>)
    requires n <= 255
  {
    set i | 0 <= i < n :: Num(Alpha(i))
  }

  lemma {:induction false} RangeSize(n: nat)
    requires n <= 255
    ensures |Range(n)| == n
  {
    if n > 0 {
      RangeSize(n - 1);
      assert Range(n) == Range(n - 1) + {Num(Alpha(n - 1))};
      forall i | 0 <= i < n - 1
        ensures Num(Alpha(i)) != Num(Alpha(n - 1))
      {
        AlphaInjective(i, n - 1);
        NumInjective(Alpha(i), Alpha(n - 1));
      }
    }
  }

  /** A set of integers drawn from lo..hi has at most hi - lo members. */
  lemma {:induction false} BoundedSetSize(s: set<int>, lo: int, hi: int)
    requires lo <= hi && forall v :: v in s ==> lo <= v < hi
    ensures |s| <= hi - lo
    decreases hi - lo
  {
    if lo < hi {
      BoundedSetSize(s - {hi - 1}, lo, hi - 1);
    } else {
      assert s == {};
    }
  }

  /** Every nonzero byte is a power of alpha. */
  lemma AlphaOnto(a: byte) returns (i: nat)
    requires a != 0
    ensures i < 255 && Alpha(i) == a
  {
    RangeSize(255);
    var s := Range(255) + {Num(a)};
    NumInjective(a, 0);
    forall v | v in s
      ensures 1 <= v < 256
    {
      if v in Range(255) {
        var j: nat :| j < 255 && v == Num(Alpha(j));
        AlphaNonzero(j);
        NumInjective(Alpha(j), 0);
      }
    }
    BoundedSetSize(s, 1, 256);
    assert Num(a) in Range(255);
    i :| i < 255 && Num(a) == Num(Alpha(i));
    NumInjective(a, Alpha(i));
  }

  /** The discrete logarithm to the base alpha. */
  ghost function Log(a: byte): (i: nat)
    requires a != 0
    ensures i < 255 && Alpha(i) == a
  {
    LogExists(a);
    var i: nat :| i < 255 && Alpha(i) == a;
    i
  }

  lemma LogExists(a: byte)
    requires a != 0
    ensures exists i: nat :: i < 255 && Alpha(i) == a
  {
    var i := AlphaOnto(a);
  }

  /** The multiplicative inverse; zero, which has none, maps to zero as in both source tables. */
  ghost function Inv(a: byte): byte
  {
    if a == 0 then 0 else Alpha(255 - Log(a))
  }

  lemma MulInv(a: byte)
    requires a != 0
    ensures Mul(a, Inv(a)) == 1 && Mul(Inv(a), a) == 1 && Inv(a) != 0
  {
    hide Add, Double, Half, Odd, Mul;
    AlphaValues();
    AlphaAdd(Log(a), 255 - Log(a));
    MulCommutes(a, Inv(a));
    MulZero(a);
  }

  lemma MulNonzero(a: byte, b: byte)
    requires a != 0 && b != 0
    ensures Mul(a, b) != 0
  {
    hide Add, Double, Half, Odd, Mul, Inv;
    if Mul(a, b) == 0 {
      MulInv(a);
      MulAssociates(Inv(a), a, b);
      MulZero(Inv(a));
      MulOne(b);
    }
  }

  lemma InvUnique(a: byte, b: byte)
    requires Mul(a, b) == 1
    ensures a != 0 && b == Inv(a)
  {
    hide Add, Double, Half, Odd, Mul, Inv;
    MulZero(b);
    MulInv(a);
    MulAssociates(Inv(a), a, b);
    MulOne(b);
    MulCommutes(Inv(a), 1);
    MulOne(Inv(a));
  }
}
