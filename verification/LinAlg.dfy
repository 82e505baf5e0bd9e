/** Vectors and matrices over GF(2^8): products, inverses and singular matrices. */
module LinAlg {
  import opened Gf256

  type Vector = seq<byte>
  type Matrix = seq<seq<byte>>

  ghost predicate Square(m: Matrix, k: nat)
  {
    |m| == k && forall i :: 0 <= i < k ==> |m[i]| == k
  }

  // ---------- vectors ----------

  ghost function Zeros(k: nat): (z: Vector)
    ensures |z| == k && forall i :: 0 <= i < k ==> z[i] == 0
  {
    seq(k, i => 0)
  }

  ghost function Unit(k: nat, p: nat): (z: Vector)
    requires p < k
    ensures |z| == k && forall i :: 0 <= i < k ==> z[i] == if i == p then 1 else 0
  {
    Zeros(k)[p := 1]
  }

  ghost function Plus(r: Vector, s: Vector): (z: Vector)
    requires |r| == |s|
    ensures |z| == |r|
    ensures forall i :: 0 <= i < |r| ==> z[i] == Add(r[i], s[i])
  {
    seq(|r|, i requires 0 <= i < |r| => Add(r[i], s[i]))
  }

  ghost function Scale(c: byte, r: Vector): (z: Vector)
    ensures |z| == |r|
    ensures forall i :: 0 <= i < |r| ==> z[i] == Mul(c, r[i])
  {
    seq(|r|, i requires 0 <= i < |r| => Mul(c, r[i]))
  }

  ghost function Dot(r: Vector, x: Vector): byte
    requires |r| == |x|
  {
    if |r| == 0 then 0 else Add(Mul(r[0], x[0]), Dot(r[1..], x[1..]))
  }

  lemma {:induction false} DotPlus(r: Vector, s: Vector, x: Vector)
    requires |r| == |s| == |x|
    ensures Dot(Plus(r, s), x) == Add(Dot(r, x), Dot(s, x))
  {
    hide Add, Mul;
    if |r| > 0 {
      DotPlus(r[1..], s[1..], x[1..]);
      assert Plus(r, s)[1..] == Plus(r[1..], s[1..]);
      MulAddLeft(r[0], s[0], x[0]);
      AddInterchange(Mul(r[0], x[0]), Dot(r[1..], x[1..]), Mul(s[0], x[0]), Dot(s[1..], x[1..]));
    } else {
      AddZero(0);
    }
  }

  lemma {:induction false} DotScale(c: byte, r: Vector, x: Vector)
    requires |r| == |x|
    ensures Dot(Scale(c, r), x) == Mul(c, Dot(r, x))
  {
    hide Add, Mul;
    if |r| > 0 {
      DotScale(c, r[1..], x[1..]);
      assert Scale(c, r)[1..] == Scale(c, r[1..]);
      MulAssociates(c, r[0], x[0]);
      MulAddRight(c, Mul(r[0], x[0]), Dot(r[1..], x[1..]));
    } else {
      MulZero(c);
    }
  }

  lemma {:induction false} DotCommutes(r: Vector, x: Vector)
    requires |r| == |x|
    ensures Dot(r, x) == Dot(x, r)
  {
    hide Add, Mul;
    if |r| > 0 {
      DotCommutes(r[1..], x[1..]);
      MulCommutes(r[0], x[0]);
    }
  }

  lemma {:induction false} DotZeros(r: Vector, x: Vector)
    requires |r| == |x| && forall i :: 0 <= i < |x| ==> x[i] == 0
    ensures Dot(r, x) == 0
  {
    hide Add, Mul;
    if |r| > 0 {
      DotZeros(r[1..], x[1..]);
      MulZero(r[0]);
      AddZero(0);
    }
  }

  /** Overwriting position p on both sides replaces exactly the p-th term. */
  lemma {:induction false} DotUpdate(r: Vector, x: Vector, p: nat, a: byte, w: byte)
    requires |r| == |x| && p < |r|
    ensures Dot(r[p := a], x[p := w]) == Add(Mul(a, w), Dot(r[p := 0], x))
  {
    hide Add, Mul;
    var r', x' := r[p := a], x[p := w];
    if p == 0 {
      assert r'[1..] == r[1..] && x'[1..] == x[1..] && r[0 := 0][1..] == r[1..];
      MulZero(x[0]);
      AddZero(Dot(r[1..], x[1..]));
    } else {
      DotUpdate(r[1..], x[1..], p - 1, a, w);
      assert r'[1..] == r[1..][p - 1 := a] && x'[1..] == x[1..][p - 1 := w];
      assert r[p := 0][1..] == r[1..][p - 1 := 0];
      var t, d := Mul(r[0], x[0]), Dot(r[1..][p - 1 := 0], x[1..]);
      AddAssociates(t, Mul(a, w), d);
      AddCommutes(t, Mul(a, w));
      AddAssociates(Mul(a, w), t, d);
    }
  }

  lemma DotSplit(r: Vector, x: Vector, p: nat)
    requires |r| == |x| && p < |r|
    ensures Dot(r, x) == Add(Mul(r[p], x[p]), Dot(r[p := 0], x))
  {
    hide Add, Mul, Dot;
    DotUpdate(r, x, p, r[p], x[p]);
    assert r[p := r[p]] == r && x[p := x[p]] == x;
  }

  lemma DotUnit(r: Vector, p: nat)
    requires p < |r|
    ensures Dot(r, Unit(|r|, p)) == r[p]
  {
    hide Add, Mul, Dot;
    DotUpdate(r, Zeros(|r|), p, r[p], 1);
    assert r[p := r[p]] == r;
    DotZeros(r[p := 0], Zeros(|r|));
    MulCommutes(r[p], 1);
    MulOne(r[p]);
    AddZero(r[p]);
  }

  ghost function Swapped<T>(s: seq<T>, i: nat, j: nat): (t: seq<T>)
    requires i < |s| && j < |s|
    ensures |t| == |s| && t[i] == s[j] && t[j] == s[i]
    ensures forall h :: 0 <= h < |s| && h != i && h != j ==> t[h] == s[h]
  {
    s[i := s[j]][j := s[i]]
  }

  lemma DotSwapped(r: Vector, x: Vector, i: nat, j: nat)
    requires |r| == |x| && i < |r| && j < |r|
    ensures Dot(Swapped(r, i, j), Swapped(x, i, j)) == Dot(r, x)
  {
    hide Add, Mul, Dot;
    if i == j {
      assert Swapped(r, i, j) == r && Swapped(x, i, j) == x;
    } else {
      var r', x' := Swapped(r, i, j), Swapped(x, i, j);
      DotSplit(r, x, i);
      DotSplit(r[i := 0], x, j);
      DotSplit(r', x', i);
      DotSplit(r'[i := 0], x', j);
      var z := r[i := 0][j := 0];
      assert r'[i := 0][j := 0] == z;
      DotUpdate(z, x, i, 0, x[j]);
      DotUpdate(z, x[i := x[j]], j, 0, x[i]);
      assert z[i := 0] == z && z[j := 0] == z;
      assert x' == x[i := x[j]][j := x[i]];
      MulZero(x[j]);
      MulZero(x[i]);
      AddZero(Dot(z, x));
      var p, q := Mul(r[i], x[i]), Mul(r[j], x[j]);
      AddAssociates(p, q, Dot(z, x));
      AddCommutes(p, q);
      AddAssociates(q, p, Dot(z, x));
    }
  }

  lemma SwappedTwice<T>(s: seq<T>, i: nat, j: nat)
    requires i < |s| && j < |s|
    ensures Swapped(Swapped(s, i, j), i, j) == s
  {
  }

  // ---------- matrices as linear maps ----------

  ghost function Apply(m: Matrix, x: Vector): (y: Vector)
    requires Square(m, |x|)
    ensures |y| == |x| && forall i :: 0 <= i < |x| ==> y[i] == Dot(m[i], x)
  {
    seq(|x|, i requires 0 <= i < |x| => Dot(m[i], x))
  }

  /** b undoes a and a undoes b, as linear maps on vectors of length k. */
  ghost predicate Inverts(a: Matrix, b: Matrix, k: nat)
    requires Square(a, k) && Square(b, k)
  {
    forall x: Vector, y: Vector :: |x| == k && |y| == k ==> (Apply(a, x) == y <==> Apply(b, y) == x)
  }

  ghost predicate InKernel(a: Matrix, x: Vector)
    requires Square(a, |x|)
  {
    x != Zeros(|x|) && Apply(a, x) == Zeros(|x|)
  }

  ghost predicate Singular(a: Matrix, k: nat)
    requires Square(a, k)
  {
    exists x: Vector :: |x| == k && InKernel(a, x)
  }

  lemma InvertibleNotSingular(a: Matrix, b: Matrix, k: nat)
    requires Square(a, k) && Square(b, k) && Inverts(a, b, k)
    ensures !Singular(a, k)
  {
    hide Add, Mul, Dot;
    if Singular(a, k) {
      var x: Vector :| |x| == k && InKernel(a, x);
      var z := Zeros(k);
      assert Apply(b, z) == x;
      forall i | 0 <= i < k
        ensures x[i] == 0
      {
        DotZeros(b[i], z);
      }
    }
  }

  ghost function Column(m: Matrix, j: nat): (c: Vector)
    requires Square(m, |m|) && j < |m|
    ensures |c| == |m| && forall i :: 0 <= i < |m| ==> c[i] == m[i][j]
  {
    seq(|m|, i requires 0 <= i < |m| => m[i][j])
  }

  /** Spelled out as matrix products: a * b == b * a == identity. */
  lemma InvertsIsTwoSided(a: Matrix, b: Matrix, k: nat, i: nat, j: nat)
    requires Square(a, k) && Square(b, k) && Inverts(a, b, k) && i < k && j < k
    ensures Dot(a[i], Column(b, j)) == (if i == j then 1 else 0)
    ensures Dot(b[i], Column(a, j)) == (if i == j then 1 else 0)
  {
    hide Add, Mul, Dot;
    var e := Unit(k, j);
    forall m: Matrix, h | Square(m, k) && 0 <= h < k
      ensures Dot(m[h], e) == m[h][j]
    {
      DotUnit(m[h], j);
    }
    assert Apply(b, e) == Column(b, j);
    assert Apply(a, e) == Column(a, j);
    assert Apply(a, Column(b, j)) == e;
    assert Apply(b, Column(a, j)) == e;
  }
}
