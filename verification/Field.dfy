module Gf256 {
  type byte = bv8

  function Add(a: byte, b: byte): byte { a ^ b }
  function Double(a: byte): byte {
    var h := a >> 7;
    (a << 1) ^ h ^ (h << 2) ^ (h << 3) ^ (h << 4)
  }
  predicate Odd(b: byte) { b & 1 == 1 }
  function Half(b: byte): byte { b >> 1 }

  function Mul(a: byte, b: byte): byte
    decreases b
  {
    if b == 0 then 0 else Add(if Odd(b) then a else 0, Mul(Double(a), Half(b)))
  }

  lemma AddCommutes(a: byte, b: byte) ensures Add(a, b) == Add(b, a) {}
  lemma AddAssociates(a: byte, b: byte, c: byte) ensures Add(a, Add(b, c)) == Add(Add(a, b), c) {}
  lemma AddZero(a: byte) ensures Add(a, 0) == a && Add(0, a) == a {}
  lemma AddSelf(a: byte) ensures Add(a, a) == 0 {}
  lemma AddCancels(a: byte, b: byte) ensures Add(a, Add(a, b)) == b && Add(Add(a, b), b) == a {}
  lemma AddInterchange(a: byte, b: byte, c: byte, d: byte)
    ensures Add(Add(a, b), Add(c, d)) == Add(Add(a, c), Add(b, d))
  {
    hide Add;
    AddAssociates(a, b, Add(c, d));
    AddAssociates(b, c, d);
    AddCommutes(b, c);
    AddAssociates(c, b, d);
    AddAssociates(a, c, Add(b, d));
  }
  lemma DoubleAdd(a: byte, b: byte) ensures Double(Add(a, b)) == Add(Double(a), Double(b)) {}
  lemma HalfAdd(a: byte, b: byte) ensures Half(Add(a, b)) == Add(Half(a), Half(b)) {}
  lemma OddAdd(a: byte, b: byte) ensures Odd(Add(a, b)) == (Odd(a) != Odd(b)) {}
  lemma HalfLess(b: byte) requires b != 0 ensures Half(b) < b {}
  lemma HalfDouble(b: byte) ensures b == Add(if Odd(b) then 1 else 0, Double(Half(b))) {}
  lemma DoubleTable(a: byte) ensures Double(a) == if a & 0x80 != 0 then (a << 1) ^ 0x1d else a << 1 {}

  lemma {:induction false} MulAddLeft(a: byte, c: byte, b: byte)
    ensures Mul(Add(a, c), b) == Add(Mul(a, b), Mul(c, b))
    decreases b
  {
    AddZero(0);
    if b != 0 {
      HalfLess(b);
      hide Add, Double, Half, Odd;
      MulAddLeft(Double(a), Double(c), Half(b));
      DoubleAdd(a, c);
      AddInterchange(if Odd(b) then a else 0, Mul(Double(a), Half(b)), if Odd(b) then c else 0, Mul(Double(c), Half(b)));
    }
  }

  lemma {:induction false} MulDouble(a: byte, b: byte)
    ensures Mul(Double(a), b) == Double(Mul(a, b))
    decreases b
  {
    if b != 0 {
      HalfLess(b);
      assert Double(0) == 0;
      hide Add, Double, Half, Odd;
      MulDouble(Double(a), Half(b));
      DoubleAdd(if Odd(b) then a else 0, Mul(Double(a), Half(b)));
    }
  }
  lemma {:induction false} MulAddRight(a: byte, b: byte, c: byte)
    ensures Mul(a, Add(b, c)) == Add(Mul(a, b), Mul(a, c))
    decreases b as int + c as int
  {
    AddZero(0); 
    if b == 0 { AddZero(c); AddZero(Mul(a, c)); }
    else if c == 0 { AddZero(b); AddZero(Mul(a, b)); }
    else {
      OddAdd(b, c);
      HalfAdd(b, c);
      HalfInt(b); HalfInt(c);
      MulStep(a, Add(b, c)); MulStep(a, b); MulStep(a, c);
      hide Add, Double, Half, Odd, Mul;
      MulAddRight(Double(a), Half(b), Half(c));
      assert (if Odd(Add(b, c)) then a else 0) == Add(if Odd(b) then a else 0, if Odd(c) then a else 0)
        by { AddSelf(a); AddZero(a); }
      AddInterchange(if Odd(b) then a else 0, Mul(Double(a), Half(b)), if Odd(c) then a else 0, Mul(Double(a), Half(c)));
    }
  }
  lemma HalfInt(b: byte) requires b != 0 ensures (Half(b) as int) < b as int {}
  lemma MulStep(a: byte, b: byte) ensures Mul(a, b) == Add(if Odd(b) then a else 0, Mul(Double(a), Half(b))) {
  }
  lemma {:induction false} MulZero(a: byte) ensures Mul(0, a) == 0 && Mul(a, 0) == 0
    decreases a
  {
    AddZero(0); assert Double(0) == 0;
    if a != 0 { HalfLess(a); hide Add, Double, Half, Odd; MulZero(Half(a)); }
  }
  lemma {:induction false} MulOne(a: byte) ensures Mul(1, a) == a
    decreases a
  {
    if a != 0 {
      HalfLess(a); HalfDouble(a);
      hide Add, Double, Half, Odd;
      MulDouble(1, Half(a)); MulOne(Half(a));
    }
  }
  lemma {:induction false} MulCommutes(a: byte, b: byte)
    ensures Mul(a, b) == Mul(b, a)
    decreases b
  {
    MulZero(a);
    if b != 0 {
      HalfLess(b); HalfDouble(b);
      hide Add, Double, Half, Odd;
      MulCommutes(a, Half(b));
      MulDouble(a, Half(b));
      MulDouble(Half(b), a);
      MulOne(a);
      MulAddLeft(if Odd(b) then 1 else 0, Double(Half(b)), a);
    }
  }
  lemma {:induction false} MulAssociates(a: byte, b: byte, c: byte)
    ensures Mul(a, Mul(b, c)) == Mul(Mul(a, b), c)
    decreases c
  {
    MulZero(a);
    if c != 0 {
      HalfLess(c);
      hide Add, Double, Half, Odd;
      MulAssociates(a, Double(b), Half(c));
      MulCommutes(a, b); MulCommutes(a, Double(b)); MulDouble(b, a);
      MulAddRight(a, if Odd(c) then b else 0, Mul(Double(b), Half(c)));
    }
  }
}
