/** Bytes as table indices. */
module Bytes {
  import opened Gf256

  function Num(b: byte): (n: nat)
    ensures n < 256
  {
    b as int
  }

  function Byte(n: nat): byte
    requires n < 256
  {
    n as bv8
  }

  lemma NumInjective(a: byte, b: byte)
    ensures Num(a) == Num(b) ==> a == b
  {
  }

  lemma NumSuccessor(b: byte)
    requires b != 255
    ensures Num(b + 1) == Num(b) + 1
  {
  }

  lemma ByteNum(b: byte)
    ensures Byte(Num(b)) == b
  {
  }

  lemma {:induction false} SomeByte(n: nat) returns (b: byte)
    requires n < 256
    ensures Num(b) == n
  {
    if n == 0 {
      b := 0;
    } else {
      b := SomeByte(n - 1);
      NumSuccessor(b);
      b := b + 1;
    }
  }

  lemma NumByte(n: nat)
    requires n < 256
    ensures Num(Byte(n)) == n
  {
    var b := SomeByte(n);
    ByteNum(b);
  }

  lemma ByteZero(n: nat)
    requires n < 256
    ensures Byte(n) == 0 <==> n == 0
  {
    NumByte(n);
  }

  lemma ByteInjective(m: nat, n: nat)
    requires m < 256 && n < 256
    ensures Byte(m) == Byte(n) ==> m == n
  {
    NumByte(m);
    NumByte(n);
  }

  /** Row-major index into a 256 x 256 table. */
  function Cell(x: nat, y: nat): (n: nat)
    requires x < 256 && y < 256
    ensures n < 0x10000
  {
    x * 256 + y
  }

}
