/** Cauchy systems: row i has the coefficients 1 / (a[i] + b[j]). One elimination step
    leaves a Cauchy system in one unknown fewer, which settles both uniqueness and
    existence of the solution. */
module Cauchy {
  import opened Gf256
  import opened Powers
  import opened LinAlg
  import opened Exchange

  ghost predicate Distinct<T>(s: seq<T>)
  {
    forall i, j :: 0 <= i < j < |s| ==> s[i] != s[j]
  }

  /** No row label meets a column label, so every coefficient exists. */
  ghost predicate Apart(a: Vector, b: Vector)
  {
    forall i, j :: 0 <= i < |a| && 0 <= j < |b| ==> a[i] != b[j]
  }

  ghost predicate Labels(a: Vector, b: Vector)
  {
    |a| == |b| && Distinct(a) && Distinct(b) && Apart(a, b)
  }

  ghost function Row(ai: byte, b: Vector): (r: Vector)
    ensures |r| == |b| && forall j :: 0 <= j < |b| ==> r[j] == Inv(Add(ai, b[j]))
  {
    seq(|b|, j requires 0 <= j < |b| => Inv(Add(ai, b[j])))
  }

  /** x satisfies the Cauchy system with right-hand side y. */
  ghost predicate Solves(a: Vector, b: Vector, x: Vector, y: Vector)
    requires |a| == |y| && |b| == |x|
  {
    forall i :: 0 <= i < |a| ==> Dot(Row(a[i], b), x) == y[i]
  }

  ghost function Sum(x: Vector): byte
  {
    if |x| == 0 then 0 else Add(x[0], Sum(x[1..]))
  }

  lemma AddDiffers(p: byte, q: byte)
    ensures p != q <==> Add(p, q) != 0
  {
  }

  lemma AddBoth(p: byte, q: byte, r: byte)
    ensures Add(p, q) == Add(Add(p, r), Add(q, r))
  {
    hide Add;
    AddInterchange(p, r, q, r);
    AddSelf(r);
    AddZero(Add(p, q));
  }

  /** The unknowns scaled by the difference of column labels. */
  ghost function Weighted(b0: byte, b: Vector, x: Vector): (w: Vector)
    requires |b| == |x|
    ensures |w| == |x| && forall j :: 0 <= j < |x| ==> w[j] == Mul(x[j], Add(b0, b[j]))
  {
    seq(|x|, j requires 0 <= j < |x| => Mul(x[j], Add(b0, b[j])))
  }

  /** The unknowns divided by the row-zero denominators. */
  ghost function Divided(a0: byte, b: Vector, w: Vector): (z: Vector)
    requires |b| == |w|
    ensures |z| == |w| && forall j :: 0 <= j < |w| ==> z[j] == Mul(w[j], Inv(Add(a0, b[j])))
  {
    seq(|w|, j requires 0 <= j < |w| => Mul(w[j], Inv(Add(a0, b[j]))))
  }

  /** (ai + b0) / (ai + bj) == 1 + (b0 + bj) / (ai + bj), term by term. */
  lemma ClearedTerm(ai: byte, b0: byte, bj: byte, xj: byte)
    requires ai != bj
    ensures Mul(Add(ai, b0), Mul(Inv(Add(ai, bj)), xj)) == Add(xj, Mul(Inv(Add(ai, bj)), Mul(xj, Add(b0, bj))))
  {
    var d := Add(ai, bj);
    AddDiffers(ai, bj);
    AddBoth(ai, b0, bj);
    hide Add, Mul, Inv;
    var g, e := Inv(d), Add(b0, bj);
    MulInv(d);
    MulAssociates(Add(ai, b0), g, xj);
    MulAddLeft(d, e, g);
    MulAddLeft(1, Mul(e, g), xj);
    MulOne(xj);
    MulCommutes(e, g);
    MulAssociates(g, e, xj);
    MulCommutes(e, xj);
  }

  lemma {:induction false} Cleared(ai: byte, b0: byte, b: Vector, x: Vector)
    requires |b| == |x| && forall j :: 0 <= j < |b| ==> ai != b[j]
    ensures Mul(Add(ai, b0), Dot(Row(ai, b), x)) == Add(Sum(x), Dot(Row(ai, b), Weighted(b0, b, x)))
  {
    hide Add, Mul, Inv;
    var e := Add(ai, b0);
    if |x| == 0 {
      MulZero(e);
      AddZero(0);
    } else {
      var b', x' := b[1..], x[1..];
      Cleared(ai, b0, b', x');
      assert Row(ai, b)[1..] == Row(ai, b');
      assert Weighted(b0, b, x)[1..] == Weighted(b0, b', x');
      var h, t := Mul(Row(ai, b)[0], x[0]), Dot(Row(ai, b'), x');
      MulAddRight(e, h, t);
      ClearedTerm(ai, b0, b[0], x[0]);
      AddInterchange(x[0], Mul(Row(ai, b)[0], Weighted(b0, b, x)[0]), Sum(x'), Dot(Row(ai, b'), Weighted(b0, b', x')));
    }
  }

  /** E1: multiplying row i by its first denominator. */
  lemma FirstCleared(ai: byte, b: Vector, x: Vector)
    requires |b| == |x| > 0 && forall j :: 0 <= j < |b| ==> ai != b[j]
    ensures Mul(Add(ai, b[0]), Dot(Row(ai, b), x)) ==
            Add(Sum(x), Dot(Row(ai, b[1..]), Weighted(b[0], b[1..], x[1..])))
  {
    hide Add, Mul, Inv;
    Cleared(ai, b[0], b, x);
    assert Row(ai, b)[1..] == Row(ai, b[1..]);
    assert Weighted(b[0], b, x)[1..] == Weighted(b[0], b[1..], x[1..]);
    AddSelf(b[0]);
    MulZero(x[0]);
    MulZero(Row(ai, b)[0]);
    AddZero(Dot(Row(ai, b[1..]), Weighted(b[0], b[1..], x[1..])));
  }

  /** 1 / (ai + bj) + 1 / (a0 + bj) == (ai + a0) / ((ai + bj) (a0 + bj)). */
  lemma CombinedTerm(ai: byte, a0: byte, bj: byte, wj: byte)
    requires ai != bj && a0 != bj
    ensures Add(Mul(Inv(Add(ai, bj)), wj), Mul(Inv(Add(a0, bj)), wj)) ==
            Mul(Add(ai, a0), Mul(Inv(Add(ai, bj)), Mul(wj, Inv(Add(a0, bj)))))
  {
    var di, d0 := Add(ai, bj), Add(a0, bj);
    AddDiffers(ai, bj);
    AddDiffers(a0, bj);
    AddBoth(ai, a0, bj);
    hide Add, Mul, Inv;
    var gi, g0 := Inv(di), Inv(d0);
    MulInv(di);
    MulInv(d0);
    // (di + d0) * (gi * g0) == g0 + gi
    MulAddLeft(di, d0, Mul(gi, g0));
    MulAssociates(di, gi, g0);
    MulOne(g0);
    MulCommutes(gi, g0);
    MulAssociates(d0, g0, gi);
    MulOne(gi);
    AddCommutes(g0, gi);
    assert Mul(Add(ai, a0), Mul(gi, g0)) == Add(gi, g0);
    MulAddLeft(gi, g0, wj);
    MulCommutes(wj, g0);
    MulAssociates(gi, g0, wj);
    MulAssociates(Add(ai, a0), Mul(gi, g0), wj);
  }

  /** E2: the difference of rows i and zero is again a Cauchy row. */
  lemma {:induction false} Combined(ai: byte, a0: byte, b: Vector, w: Vector)
    requires |b| == |w| && forall j :: 0 <= j < |b| ==> ai != b[j] && a0 != b[j]
    ensures Add(Dot(Row(ai, b), w), Dot(Row(a0, b), w)) == Mul(Add(ai, a0), Dot(Row(ai, b), Divided(a0, b, w)))
  {
    hide Add, Mul, Inv;
    var e := Add(ai, a0);
    if |w| == 0 {
      MulZero(e);
      AddZero(0);
    } else {
      var b', w' := b[1..], w[1..];
      Combined(ai, a0, b', w');
      assert Row(ai, b)[1..] == Row(ai, b') && Row(a0, b)[1..] == Row(a0, b');
      assert Divided(a0, b, w)[1..] == Divided(a0, b', w');
      CombinedTerm(ai, a0, b[0], w[0]);
      MulAddRight(e, Mul(Row(ai, b)[0], Divided(a0, b, w)[0]), Dot(Row(ai, b'), Divided(a0, b', w')));
      AddInterchange(Mul(Row(ai, b)[0], w[0]), Dot(Row(ai, b'), w'), Mul(Row(a0, b)[0], w[0]), Dot(Row(a0, b'), w'));
    }
  }

  /** The unknowns of the reduced system. */
  ghost function Reduced(a0: byte, b: Vector, x: Vector): (z: Vector)
    requires |b| == |x| > 0
    ensures |z| == |x| - 1
  {
    Divided(a0, b[1..], Weighted(b[0], b[1..], x[1..]))
  }

  /** One elimination step: rows 0 and i of the system give row i of the reduced one. */
  lemma Step(a0: byte, ai: byte, b: Vector, x: Vector)
    requires |b| == |x| > 0 && forall j :: 0 <= j < |b| ==> ai != b[j] && a0 != b[j]
    ensures Add(Mul(Add(ai, b[0]), Dot(Row(ai, b), x)), Mul(Add(a0, b[0]), Dot(Row(a0, b), x))) ==
            Mul(Add(ai, a0), Dot(Row(ai, b[1..]), Reduced(a0, b, x)))
  {
    hide Add, Mul, Inv, Dot, Sum;
    FirstCleared(ai, b, x);
    FirstCleared(a0, b, x);
    var w := Weighted(b[0], b[1..], x[1..]);
    var s, wi, w0 := Sum(x), Dot(Row(ai, b[1..]), w), Dot(Row(a0, b[1..]), w);
    AddCommutes(s, wi);
    AddCommutes(s, w0);
    AddBoth(wi, w0, s);
    Combined(ai, a0, b[1..], w);
  }

  lemma ReducedRowVanishes(a0: byte, ai: byte, b: Vector, x: Vector)
    requires |b| == |x| > 0 && ai != a0 && forall j :: 0 <= j < |b| ==> ai != b[j] && a0 != b[j]
    requires Dot(Row(ai, b), x) == 0 && Dot(Row(a0, b), x) == 0
    ensures Dot(Row(ai, b[1..]), Reduced(a0, b, x)) == 0
  {
    AddDiffers(ai, a0);
    hide Add, Mul, Inv, Dot, Reduced;
    Step(a0, ai, b, x);
    MulZero(Add(ai, b[0]));
    MulZero(Add(a0, b[0]));
    AddZero(0);
    var d := Dot(Row(ai, b[1..]), Reduced(a0, b, x));
    if d != 0 {
      MulNonzero(Add(ai, a0), d);
    }
  }

  lemma ReducedZeroMeansZero(a0: byte, b: Vector, x: Vector, j: nat)
    requires |b| == |x| && 1 <= j < |x| && b[0] != b[j] && a0 != b[j]
    requires Reduced(a0, b, x)[j - 1] == 0
    ensures x[j] == 0
  {
    AddDiffers(b[0], b[j]);
    AddDiffers(a0, b[j]);
    hide Add, Mul, Inv, Dot;
    var e, g := Add(b[0], b[j]), Inv(Add(a0, b[j]));
    assert Reduced(a0, b, x)[j - 1] == Mul(Mul(x[j], e), g);
    MulInv(Add(a0, b[j]));
    if x[j] != 0 {
      MulNonzero(x[j], e);
      MulNonzero(Mul(x[j], e), g);
    }
  }

  /** Only the zero vector is mapped to zero. */
  lemma {:induction false} TrivialKernel(a: Vector, b: Vector, x: Vector)
    requires Labels(a, b) && |x| == |b| && Solves(a, b, x, Zeros(|a|))
    ensures x == Zeros(|x|)
  {
    if |x| > 0 {
      hide Add, Mul, Inv, Dot, Reduced;
      var a', b', z := a[1..], b[1..], Reduced(a[0], b, x);
      assert Labels(a', b');
      forall i | 0 <= i < |a'|
        ensures Dot(Row(a'[i], b'), z) == 0
      {
        assert a'[i] == a[i + 1];
        ReducedRowVanishes(a[0], a[i + 1], b, x);
      }
      TrivialKernel(a', b', z);
      forall j | 1 <= j < |x|
        ensures x[j] == 0
      {
        ReducedZeroMeansZero(a[0], b, x, j);
      }
      FirstUnknownZero(a[0], b, x);
    }
  }

  lemma FirstUnknownZero(a0: byte, b: Vector, x: Vector)
    requires |x| == |b| > 0 && a0 != b[0] && forall j :: 1 <= j < |x| ==> x[j] == 0
    requires Dot(Row(a0, b), x) == 0
    ensures x[0] == 0
  {
    AddDiffers(a0, b[0]);
    hide Add, Mul, Inv;
    var r := Row(a0, b);
    DotZeros(r[1..], x[1..]);
    AddZero(Mul(r[0], x[0]));
    MulInv(Add(a0, b[0]));
    if x[0] != 0 {
      MulNonzero(r[0], x[0]);
    }
  }

  // ---------- solving ----------

  ghost function ReducedRhs(a: Vector, b0: byte, y: Vector): (r: Vector)
    requires |a| == |y| > 0
    ensures |r| == |a| - 1
    ensures forall i :: 1 <= i < |a| ==>
      r[i - 1] == Mul(Inv(Add(a[i], a[0])), Add(Mul(Add(a[i], b0), y[i]), Mul(Add(a[0], b0), y[0])))
  {
    seq(|a| - 1, i requires 0 <= i < |a| - 1 =>
      Mul(Inv(Add(a[i + 1], a[0])), Add(Mul(Add(a[i + 1], b0), y[i + 1]), Mul(Add(a[0], b0), y[0]))))
  }

  /** Undo Reduced on the unknowns after the first. */
  ghost function Restored(a0: byte, b0: byte, b: Vector, z: Vector): (x: Vector)
    requires |b| == |z|
    ensures |x| == |z|
    ensures forall j :: 0 <= j < |z| ==> x[j] == Mul(Mul(z[j], Add(a0, b[j])), Inv(Add(b0, b[j])))
  {
    seq(|z|, j requires 0 <= j < |z| => Mul(Mul(z[j], Add(a0, b[j])), Inv(Add(b0, b[j]))))
  }

  ghost function Solution(a: Vector, b: Vector, y: Vector): (x: Vector)
    requires |a| == |b| == |y|
    ensures |x| == |y|
  {
    if |a| == 0 then []
    else
      var z := Solution(a[1..], b[1..], ReducedRhs(a, b[0], y));
      var rest := Restored(a[0], b[0], b[1..], z);
      [Mul(Add(a[0], b[0]), Add(y[0], Dot(Row(a[0], b[1..]), rest)))] + rest
  }

  lemma RestoredReduces(a0: byte, b0: byte, bj: byte, zj: byte)
    requires b0 != bj && a0 != bj
    ensures Mul(Mul(Mul(Mul(zj, Add(a0, bj)), Inv(Add(b0, bj))), Add(b0, bj)), Inv(Add(a0, bj))) == zj
  {
    var e, d := Add(b0, bj), Add(a0, bj);
    AddDiffers(b0, bj);
    AddDiffers(a0, bj);
    hide Add, Mul, Inv;
    MulInv(e);
    MulInv(d);
    MulAssociates(Mul(zj, d), Inv(e), e);
    MulCommutes(Mul(zj, d), 1);
    MulOne(Mul(zj, d));
    MulAssociates(zj, d, Inv(d));
    MulCommutes(zj, 1);
    MulOne(zj);
  }

  lemma FirstRowHolds(a0: byte, b: Vector, y0: byte, rest: Vector)
    requires |b| == |rest| + 1 && a0 != b[0]
    ensures var x := [Mul(Add(a0, b[0]), Add(y0, Dot(Row(a0, b[1..]), rest)))] + rest;
            Dot(Row(a0, b), x) == y0
  {
    AddDiffers(a0, b[0]);
    hide Add, Mul, Inv;
    var d := Add(a0, b[0]);
    var t := Dot(Row(a0, b[1..]), rest);
    var x := [Mul(d, Add(y0, t))] + rest;
    assert x[1..] == rest;
    assert Row(a0, b)[1..] == Row(a0, b[1..]);
    MulInv(d);
    MulAssociates(Inv(d), d, Add(y0, t));
    MulOne(Add(y0, t));
    AddCancels(y0, t);
  }

  /** c * p + r == c * q + r forces p == q when c is nonzero. */
  lemma CancelScaled(c: byte, p: byte, q: byte, r: byte)
    requires c != 0 && Add(Mul(c, p), r) == Add(Mul(c, q), r)
    ensures p == q
  {
    hide Add, Mul, Inv;
    AddCancels(Mul(c, p), r);
    AddCancels(Mul(c, q), r);
    MulInv(c);
    MulAssociates(Inv(c), c, p);
    MulAssociates(Inv(c), c, q);
    MulOne(p);
    MulOne(q);
  }

  lemma ReducedOfRestored(a0: byte, b: Vector, x0: byte, z: Vector)
    requires |b| == |z| + 1 && forall j :: 1 <= j < |b| ==> b[0] != b[j] && a0 != b[j]
    ensures Reduced(a0, b, [x0] + Restored(a0, b[0], b[1..], z)) == z
  {
    hide Add, Mul, Inv;
    var x := [x0] + Restored(a0, b[0], b[1..], z);
    assert x[1..] == Restored(a0, b[0], b[1..], z);
    forall j | 0 <= j < |z|
      ensures Reduced(a0, b, x)[j] == z[j]
    {
      RestoredReduces(a0, b[0], b[1..][j], z[j]);
    }
  }

  lemma {:induction false} SolutionSolves(a: Vector, b: Vector, y: Vector)
    requires Labels(a, b) && |y| == |a|
    ensures Solves(a, b, Solution(a, b, y), y)
  {
    if |a| > 0 {
      hide Add, Mul, Inv, Dot;
      var a', b', y' := a[1..], b[1..], ReducedRhs(a, b[0], y);
      SolutionSolves(a', b', y');
      var z := Solution(a', b', y');
      var rest := Restored(a[0], b[0], b', z);
      var x0 := Mul(Add(a[0], b[0]), Add(y[0], Dot(Row(a[0], b'), rest)));
      assert Solution(a, b, y) == [x0] + rest;
      FirstRowHolds(a[0], b, y[0], rest);
      ReducedOfRestored(a[0], b, x0, z);
      hide Solution, Restored, Reduced;
      ExtendSolution(a, b, y, [x0] + rest);
    }
  }

  /** A vector solving row zero whose reduction solves the reduced system solves them all. */
  lemma ExtendSolution(a: Vector, b: Vector, y: Vector, x: Vector)
    requires Labels(a, b) && |x| == |y| == |a| > 0
    requires Dot(Row(a[0], b), x) == y[0]
    requires Solves(a[1..], b[1..], Reduced(a[0], b, x), ReducedRhs(a, b[0], y))
    ensures Solves(a, b, x, y)
  {
    hide Add, Mul, Inv, Dot, Reduced;
    forall i | 1 <= i < |a|
      ensures Dot(Row(a[i], b), x) == y[i]
    {
      assert a[1..][i - 1] == a[i];
      Step(a[0], a[i], b, x);
      LaterRowHolds(a[0], a[i], b[0], y[0], y[i], ReducedRhs(a, b[0], y)[i - 1], Dot(Row(a[i], b), x));
    }
  }

  lemma LaterRowHolds(a0: byte, ai: byte, b0: byte, y0: byte, yi: byte, ri: byte, value: byte)
    requires ai != a0 && ai != b0
    requires ri == Mul(Inv(Add(ai, a0)), Add(Mul(Add(ai, b0), yi), Mul(Add(a0, b0), y0)))
    requires Add(Mul(Add(ai, b0), value), Mul(Add(a0, b0), y0)) == Mul(Add(ai, a0), ri)
    ensures value == yi
  {
    AddDiffers(ai, a0);
    AddDiffers(ai, b0);
    hide Add, Mul, Inv;
    var e := Add(ai, a0);
    var rhs := Add(Mul(Add(ai, b0), yi), Mul(Add(a0, b0), y0));
    MulInv(e);
    MulAssociates(e, Inv(e), rhs);
    MulOne(rhs);
    CancelScaled(Add(ai, b0), value, yi, Mul(Add(a0, b0), y0));
  }

  /** Two solutions of one Cauchy system are equal. */
  lemma SolutionUnique(a: Vector, b: Vector, x: Vector, x': Vector, y: Vector)
    requires Labels(a, b) && |x| == |x'| == |b| && |y| == |a|
    requires Solves(a, b, x, y) && Solves(a, b, x', y)
    ensures x == x'
  {
    hide Add, Mul, Inv, Dot;
    var d := Plus(x, x');
    forall i | 0 <= i < |a|
      ensures Dot(Row(a[i], b), d) == 0
    {
      var r := Row(a[i], b);
      DotCommutes(r, d);
      DotPlus(x, x', r);
      DotCommutes(x, r);
      DotCommutes(x', r);
      AddSelf(y[i]);
    }
    TrivialKernel(a, b, d);
    forall j | 0 <= j < |x|
      ensures x[j] == x'[j]
    {
      AddDiffers(x[j], x'[j]);
    }
  }

  // ---------- the matrix ----------

  ghost function CauchyMatrix(a: Vector, b: Vector): (m: Matrix)
    requires |a| == |b|
    ensures Square(m, |a|) && forall i :: 0 <= i < |a| ==> m[i] == Row(a[i], b)
  {
    seq(|a|, i requires 0 <= i < |a| => Row(a[i], b))
  }

  lemma {:induction false} DotZeroTail(r: Vector, x: Vector, n: nat)
    requires |r| == |x| && n <= |x| && forall j :: n <= j < |x| ==> x[j] == 0
    ensures Dot(r, x) == Dot(r[..n], x[..n])
  {
    hide Add, Mul;
    if n == 0 {
      DotZeros(r, x);
    } else {
      DotZeroTail(r[1..], x[1..], n - 1);
      assert r[..n][1..] == r[1..][..n - 1] && x[..n][1..] == x[1..][..n - 1];
    }
  }

  /** Every leading block of a Cauchy matrix is regular, so elimination never swaps. */
  lemma CauchyLeadingRegular(a: Vector, b: Vector)
    requires Labels(a, b)
    ensures LeadingRegular(CauchyMatrix(a, b))
  {
    hide Add, Mul, Inv, Dot;
    var m := CauchyMatrix(a, b);
    forall c: nat, x: Vector | c < |m| && |x| == |m| && EndsAt(x, c)
      ensures !VanishesUpTo(m, x, c)
    {
      if VanishesUpTo(m, x, c) {
        var n := c + 1;
        forall i | 0 <= i < n
          ensures Dot(Row(a[..n][i], b[..n]), x[..n]) == 0
        {
          DotZeroTail(m[i], x, n);
          assert Row(a[i], b)[..n] == Row(a[i], b[..n]);
        }
        TrivialKernel(a[..n], b[..n], x[..n]);
      }
    }
  }
}
