/** What in-place Gauss-Jordan keeps. After pivoting on a set of positions the
    working matrix maps "inputs, with the pivoted positions replaced by outputs" to
    "outputs, with the pivoted positions replaced by inputs". Over a field of
    characteristic two no sign appears. */
module Exchange {
  import opened Gf256
  import opened Powers
  import opened LinAlg

  /** Take y where the flag is set and x elsewhere. */
  ghost function Mix(done: seq<bool>, x: Vector, y: Vector): (z: Vector)
    requires |done| == |x| == |y|
    ensures |z| == |x| && forall i :: 0 <= i < |x| ==> z[i] == if done[i] then y[i] else x[i]
  {
    seq(|x|, i requires 0 <= i < |x| => if done[i] then y[i] else x[i])
  }

  datatype Swap = Swap(r: nat, c: nat)

  ghost predicate SwapsIn(swaps: seq<Swap>, k: nat)
  {
    forall h :: 0 <= h < |swaps| ==> swaps[h].r < k && swaps[h].c < k
  }

  /** The output vector after the recorded row swaps, oldest first. */
  ghost function Permuted(swaps: seq<Swap>, y: Vector): (z: Vector)
    requires SwapsIn(swaps, |y|)
    ensures |z| == |y|
  {
    if |swaps| == 0 then y
    else
      var last := swaps[|swaps| - 1];
      Swapped(Permuted(swaps[..|swaps| - 1], y), last.r, last.c)
  }

  ghost predicate Linked(a: Matrix, b: Matrix, done: seq<bool>, swaps: seq<Swap>, x: Vector, y: Vector)
    requires |done| == |x| == |y| && Square(a, |x|) && Square(b, |x|) && SwapsIn(swaps, |x|)
  {
    var y' := Permuted(swaps, y);
    Apply(a, x) == y <==> Apply(b, Mix(done, x, y')) == Mix(done, y', x)
  }

  /** The loop invariant of the elimination. */
  ghost predicate Tracks(a: Matrix, b: Matrix, done: seq<bool>, swaps: seq<Swap>)
  {
    && Square(a, |done|) && Square(b, |done|) && SwapsIn(swaps, |done|)
    && forall x: Vector, y: Vector :: |x| == |y| == |done| ==> Linked(a, b, done, swaps, x, y)
  }

  lemma TracksInitially(a: Matrix, done: seq<bool>)
    requires Square(a, |done|) && forall i :: 0 <= i < |done| ==> !done[i]
    ensures Tracks(a, a, done, [])
  {
    forall x: Vector, y: Vector | |x| == |y| == |done|
      ensures Linked(a, a, done, [], x, y)
    {
      assert Mix(done, x, y) == x && Mix(done, y, x) == y;
    }
  }

  // ---------- row swap ----------

  lemma SwapKeepsTracks(a: Matrix, b: Matrix, done: seq<bool>, swaps: seq<Swap>, s: Swap)
    requires Tracks(a, b, done, swaps) && s.r < |done| && s.c < |done| && !done[s.r] && !done[s.c]
    ensures Tracks(a, Swapped(b, s.r, s.c), done, swaps + [s])
  {
    hide Add, Mul, Dot;
    var b' := Swapped(b, s.r, s.c);
    forall x: Vector, y: Vector | |x| == |y| == |done|
      ensures Linked(a, b', done, swaps + [s], x, y)
    {
      assert (swaps + [s])[..|swaps|] == swaps;
      var y' := Permuted(swaps, y);
      var y'' := Swapped(y', s.r, s.c);
      assert Permuted(swaps + [s], y) == y'';
      var u, v := Mix(done, x, y'), Mix(done, y', x);
      assert Mix(done, x, y'') == u;
      assert Mix(done, y'', x) == Swapped(v, s.r, s.c);
      assert Apply(b', u) == Swapped(Apply(b, u), s.r, s.c);
      assert Linked(a, b, done, swaps, x, y);
      SwappedTwice(v, s.r, s.c);
      SwappedTwice(Apply(b, u), s.r, s.c);
    }
  }

  // ---------- pivot ----------

  ghost function PivotRow(r: Vector, p: nat): (z: Vector)
    requires p < |r|
    ensures |z| == |r|
  {
    Scale(Inv(r[p]), r[p := 1])
  }

  ghost function Eliminated(r: Vector, pivot: Vector, p: nat): (z: Vector)
    requires p < |r| == |pivot|
    ensures |z| == |r|
  {
    Plus(r[p := 0], Scale(r[p], pivot))
  }

  ghost function Pivoted(b: Matrix, p: nat): (z: Matrix)
    requires Square(b, |b|) && p < |b|
    ensures Square(z, |b|) && z[p] == PivotRow(b[p], p)
    ensures forall i :: 0 <= i < |b| && i != p ==> z[i] == Eliminated(b[i], PivotRow(b[p], p), p)
  {
    seq(|b|, i requires 0 <= i < |b| =>
      if i == p then PivotRow(b[p], p) else Eliminated(b[i], PivotRow(b[p], p), p))
  }

  /** Solving the pivot row for its own input. */
  lemma PivotRowSolves(r: Vector, u: Vector, p: nat, vp: byte)
    requires |r| == |u| && p < |r| && r[p] != 0
    ensures Dot(PivotRow(r, p), u[p := vp]) == u[p] <==> Dot(r, u) == vp
  {
    hide Add, Mul, Dot, Inv;
    var c, rest := r[p], Dot(r[p := 0], u);
    DotScale(Inv(c), r[p := 1], u[p := vp]);
    DotUpdate(r, u, p, 1, vp);
    MulOne(vp);
    DotSplit(r, u, p);
    MulInv(c);
    var s := Add(vp, rest);
    assert Dot(PivotRow(r, p), u[p := vp]) == Mul(Inv(c), s);
    if Dot(r, u) == vp {
      assert vp == Add(Mul(c, u[p]), rest);
      AddCancels(Mul(c, u[p]), rest);
      MulAssociates(Inv(c), c, u[p]);
      MulOne(u[p]);
    }
    if Mul(Inv(c), s) == u[p] {
      MulAssociates(c, Inv(c), s);
      MulOne(s);
      AddCancels(vp, rest);
    }
  }

  lemma EliminatedAgrees(r: Vector, pivot: Vector, u: Vector, p: nat, vp: byte)
    requires |r| == |u| == |pivot| && p < |r| && Dot(pivot, u[p := vp]) == u[p]
    ensures Dot(Eliminated(r, pivot, p), u[p := vp]) == Dot(r, u)
  {
    hide Add, Mul, Dot;
    var u' := u[p := vp];
    DotPlus(r[p := 0], Scale(r[p], pivot), u');
    DotScale(r[p], pivot, u');
    DotUpdate(r, u, p, 0, vp);
    MulZero(vp);
    DotSplit(r, u, p);
    AddZero(Dot(r[p := 0], u));
    AddCommutes(Dot(r[p := 0], u), Mul(r[p], u[p]));
  }

  lemma PivotExchanges(b: Matrix, u: Vector, v: Vector, p: nat)
    requires Square(b, |u|) && |u| == |v| && p < |u| && b[p][p] != 0
    ensures Apply(b, u) == v <==> Apply(Pivoted(b, p), u[p := v[p]]) == v[p := u[p]]
  {
    hide Add, Mul, Dot, Inv, PivotRow, Eliminated;
    var b', u', v' := Pivoted(b, p), u[p := v[p]], v[p := u[p]];
    var piv := PivotRow(b[p], p);
    PivotRowSolves(b[p], u, p, v[p]);
    if Dot(piv, u') == u[p] {
      forall i | 0 <= i < |u| && i != p
        ensures Dot(b'[i], u') == Dot(b[i], u)
      {
        EliminatedAgrees(b[i], piv, u, p, v[p]);
      }
      if Apply(b, u) == v {
        assert Apply(b', u') == v';
      }
      if Apply(b', u') == v' {
        forall i | 0 <= i < |u|
          ensures Apply(b, u)[i] == v[i]
        {
          assert Apply(b', u')[i] == v'[i];
        }
      }
    } else {
      assert Apply(b', u')[p] != v'[p];
      assert Apply(b, u)[p] != v[p];
    }
  }

  lemma PivotKeepsTracks(a: Matrix, b: Matrix, done: seq<bool>, swaps: seq<Swap>, p: nat)
    requires Tracks(a, b, done, swaps) && p < |done| && !done[p] && b[p][p] != 0
    ensures Tracks(a, Pivoted(b, p), done[p := true], swaps)
  {
    hide Add, Mul, Dot, Pivoted;
    forall x: Vector, y: Vector | |x| == |y| == |done|
      ensures Linked(a, Pivoted(b, p), done[p := true], swaps, x, y)
    {
      var y' := Permuted(swaps, y);
      var u, v := Mix(done, x, y'), Mix(done, y', x);
      assert Linked(a, b, done, swaps, x, y);
      PivotExchanges(b, u, v, p);
      assert Mix(done[p := true], x, y') == u[p := v[p]];
      assert Mix(done[p := true], y', x) == v[p := u[p]];
    }
  }

  /** With an identity pivot row the elimination changes nothing, so it may be skipped. */
  lemma IdentityPivotIsNop(b: Matrix, p: nat)
    requires Square(b, |b|) && p < |b| && PivotRow(b[p], p) == Unit(|b|, p)
    ensures Pivoted(b, p) == b[p := Unit(|b|, p)]
  {
    hide Add, Mul, Dot, PivotRow;
    var e := Unit(|b|, p);
    forall i | 0 <= i < |b| && i != p
      ensures Eliminated(b[i], e, p) == b[i]
    {
      forall j | 0 <= j < |b|
        ensures Eliminated(b[i], e, p)[j] == b[i][j]
      {
        MulZero(b[i][p]);
        MulCommutes(b[i][p], 1);
        MulOne(b[i][p]);
        AddZero(b[i][j]);
      }
    }
  }

  // ---------- no pivot left ----------

  lemma {:induction false} PermutedZeros(swaps: seq<Swap>, k: nat)
    requires SwapsIn(swaps, k)
    ensures Permuted(swaps, Zeros(k)) == Zeros(k)
  {
    if |swaps| > 0 {
      PermutedZeros(swaps[..|swaps| - 1], k);
    }
  }

  /** When every remaining entry is zero, an unpivoted position yields a kernel vector. */
  lemma NoPivotIsSingular(a: Matrix, b: Matrix, done: seq<bool>, swaps: seq<Swap>, q: nat)
    requires Tracks(a, b, done, swaps) && q < |done| && !done[q]
    requires forall i, j :: 0 <= i < |done| && 0 <= j < |done| && !done[i] && !done[j] ==> b[i][j] == 0
    ensures Singular(a, |done|)
  {
    hide Add, Mul, Dot;
    var k := |done|;
    var u := Unit(k, q);
    var v := Apply(b, u);
    forall i | 0 <= i < k
      ensures v[i] == b[i][q]
    {
      DotUnit(b[i], q);
    }
    var x, z := Mix(done, u, v), Zeros(k);
    PermutedZeros(swaps, k);
    assert Mix(done, x, z) == u;
    assert Mix(done, z, x) == v;
    assert Linked(a, b, done, swaps, x, z);
    assert x[q] == 1;
    assert InKernel(a, x);
  }

  // ---------- the diagonal pivot of a matrix with regular leading blocks ----------

  /** No leading principal block of a has a kernel vector ending in one. */
  ghost predicate LeadingRegular(a: Matrix)
    requires Square(a, |a|)
  {
    forall c: nat, x: Vector :: c < |a| && |x| == |a| && EndsAt(x, c) ==> !VanishesUpTo(a, x, c)
  }

  ghost predicate EndsAt(x: Vector, c: nat)
    requires c < |x|
  {
    x[c] == 1 && forall j :: c < j < |x| ==> x[j] == 0
  }

  ghost predicate VanishesUpTo(a: Matrix, x: Vector, c: nat)
    requires c < |x| && Square(a, |x|)
  {
    forall i :: 0 <= i <= c ==> Dot(a[i], x) == 0
  }

  ghost predicate Trivial(swaps: seq<Swap>)
  {
    forall h :: 0 <= h < |swaps| ==> swaps[h] == Swap(h, h)
  }

  lemma {:induction false} TrivialPermutesNothing(swaps: seq<Swap>, y: Vector)
    requires SwapsIn(swaps, |y|) && Trivial(swaps)
    ensures Permuted(swaps, y) == y
  {
    if |swaps| > 0 {
      TrivialPermutesNothing(swaps[..|swaps| - 1], y);
    }
  }

  lemma DiagonalPivotFound(a: Matrix, b: Matrix, done: seq<bool>, swaps: seq<Swap>, c: nat)
    requires Tracks(a, b, done, swaps) && LeadingRegular(a) && Trivial(swaps)
    requires c < |done| && forall i :: 0 <= i < |done| ==> done[i] == (i < c)
    ensures b[c][c] != 0
  {
    hide Add, Mul, Dot;
    if b[c][c] == 0 {
      var k := |done|;
      var u := Unit(k, c);
      var v := Apply(b, u);
      DotUnit(b[c], c);
      var x, y := Mix(done, u, v), Mix(done, v, u);
      TrivialPermutesNothing(swaps, y);
      assert Mix(done, x, y) == u && Mix(done, y, x) == v;
      assert Linked(a, b, done, swaps, x, y);
      assert EndsAt(x, c);
      forall i | 0 <= i <= c
        ensures Dot(a[i], x) == 0
      {
        assert y[i] == Apply(a, x)[i];
      }
    }
  }

  // ---------- unscrambling ----------

  ghost function ColumnsSwapped(b: Matrix, i: nat, j: nat): (z: Matrix)
    requires Square(b, |b|) && i < |b| && j < |b|
    ensures Square(z, |b|) && forall h :: 0 <= h < |b| ==> z[h] == Swapped(b[h], i, j)
  {
    seq(|b|, h requires 0 <= h < |b| => Swapped(b[h], i, j))
  }

  /** Undoing the newest row swap on the columns. */
  lemma UnscrambleKeepsTracks(a: Matrix, b: Matrix, done: seq<bool>, swaps: seq<Swap>)
    requires Tracks(a, b, done, swaps) && |swaps| > 0 && forall i :: 0 <= i < |done| ==> done[i]
    ensures var s := swaps[|swaps| - 1];
            Tracks(a, ColumnsSwapped(b, s.r, s.c), done, swaps[..|swaps| - 1])
  {
    var s, rest := swaps[|swaps| - 1], swaps[..|swaps| - 1];
    var b' := ColumnsSwapped(b, s.r, s.c);
    forall x: Vector, y: Vector | |x| == |y| == |done|
      ensures Linked(a, b', done, rest, x, y)
    {
      hide Add, Mul, Dot;
      var y' := Permuted(rest, y);
      var y'' := Permuted(swaps, y);
      assert Linked(a, b, done, swaps, x, y);
      assert Mix(done, x, y') == y' && Mix(done, y', x) == x;
      assert Mix(done, x, y'') == y'' && Mix(done, y'', x) == x;
      forall h | 0 <= h < |done|
        ensures Apply(b', y')[h] == Apply(b, y'')[h]
      {
        DotSwapped(b[h], y'', s.r, s.c);
        SwappedTwice(y', s.r, s.c);
      }
      assert Apply(b', y') == Apply(b, y'');
    }
  }

  lemma TracksAllInverts(a: Matrix, b: Matrix, done: seq<bool>)
    requires Tracks(a, b, done, []) && forall i :: 0 <= i < |done| ==> done[i]
    ensures Inverts(a, b, |done|)
  {
    forall x: Vector, y: Vector | |x| == |done| && |y| == |done|
      ensures Apply(a, x) == y <==> Apply(b, y) == x
    {
      assert Linked(a, b, done, [], x, y);
      assert Mix(done, x, y) == y && Mix(done, y, x) == x;
    }
  }
}
