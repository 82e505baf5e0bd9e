/** invert_mat of fec.c: in-place Gauss-Jordan elimination on a row-major matrix. */
module Invert {
  import opened Memory
  import opened Arithmetic
  import opened Gf256
  import opened Bytes
  import opened Powers
  import opened Tables
  import opened Context
  import opened LinAlg
  import opened Exchange
  import opened Kernels

  // ---------- row-major layout ----------

  /** src[row * k + col]. */
  function At(k: nat, i: nat, j: nat): (n: nat)
    requires i < k && j < k
  {
    i * k + j
  }

  function Area(k: nat): nat { k * k }

  /** Where a row starts. */
  function Start(k: nat, i: nat): nat { i * k }

  ghost function RowOf(k: nat, n: nat): nat
    requires k > 0
  {
    n / k
  }

  ghost function ColOf(k: nat, n: nat): nat
    requires k > 0
  {
    n % k
  }

  lemma RowFits(k: nat, i: nat)
    requires i < k
    ensures Start(k, i) + k <= Area(k)
  {
    calc {
      k * k;
      ((k - 1 - i) + i + 1) * k;
      (k - 1 - i) * k + i * k + k;
    }
    assert (k - 1 - i) * k >= 0;
  }

  lemma AtBounds(k: nat, i: nat, j: nat)
    requires i < k && j < k
    ensures At(k, i, j) < Area(k) && Start(k, i) + k <= Area(k)
    ensures RowOf(k, At(k, i, j)) == i && ColOf(k, At(k, i, j)) == j
  {
    RowFits(k, i);
    DivUnique(i * k + j, k, i, j);
  }

  lemma AtAll(k: nat)
    ensures forall i, j {:trigger At(k, i, j)} :: 0 <= i < k && 0 <= j < k ==>
      At(k, i, j) < Area(k) && RowOf(k, At(k, i, j)) == i && ColOf(k, At(k, i, j)) == j
  {
    forall i, j | 0 <= i < k && 0 <= j < k
      ensures At(k, i, j) < Area(k) && RowOf(k, At(k, i, j)) == i && ColOf(k, At(k, i, j)) == j
    {
      AtBounds(k, i, j);
    }
  }

  ghost function Rows(s: seq<byte>, k: nat): (m: Matrix)
    requires |s| == Area(k)
    ensures Square(m, k) && |m| == k && forall i :: 0 <= i < k ==> |m[i]| == k
  {
    AtAll(k);
    seq(k, i requires 0 <= i < k => seq(k, j requires 0 <= j < k => s[At(k, i, j)]))
  }

  lemma RowsAt(s: seq<byte>, k: nat)
    requires |s| == Area(k)
    ensures forall i, j {:trigger At(k, i, j)} {:trigger Rows(s, k)[i][j]} :: 0 <= i < k && 0 <= j < k ==>
      At(k, i, j) < |s| && Rows(s, k)[i][j] == s[At(k, i, j)]
  {
    AtAll(k);
  }

  lemma RowSlice(s: seq<byte>, k: nat, i: nat)
    requires |s| == Area(k) && i < k
    ensures Start(k, i) + k <= |s| && Rows(s, k)[i] == s[Start(k, i)..Start(k, i) + k]
  {
    AtBounds(k, i, 0);
    RowsAt(s, k);
    forall j | 0 <= j < k
      ensures Rows(s, k)[i][j] == s[Start(k, i)..Start(k, i) + k][j]
    {
      assert At(k, i, j) == i * k + j;
    }
  }

  lemma RowsApart(k: nat, i: nat, j: nat)
    requires i < j < k
    ensures Start(k, i) + k <= Start(k, j)
  {
    assert (j - i - 1) * k >= 0;
  }

  /** Overwriting one row in memory replaces one row of the matrix. */
  lemma PatchRow(s: seq<byte>, k: nat, i: nat, r: seq<byte>)
    requires |s| == Area(k) && i < k && |r| == k
    ensures Start(k, i) + k <= |s| && Rows(Patch(s, Start(k, i), r), k) == Rows(s, k)[i := r]
  {
    AtBounds(k, i, 0);
    var s' := Patch(s, Start(k, i), r);
    forall h | 0 <= h < k
      ensures Rows(s', k)[h] == Rows(s, k)[i := r][h]
    {
      RowSlice(s, k, h);
      RowSlice(s', k, h);
      if h < i {
        RowsApart(k, h, i);
      } else if i < h {
        RowsApart(k, i, h);
      }
    }
  }

  lemma SameEntries(m: Matrix, m': Matrix, k: nat)
    requires Square(m, k) && Square(m', k)
    requires forall i, j :: 0 <= i < k && 0 <= j < k ==> m[i][j] == m'[i][j]
    ensures m == m'
  {
    forall i | 0 <= i < k
      ensures m[i] == m'[i]
    {
    }
  }

  // ---------- row operations ----------

  method SwapRows(src: array<byte>, k: nat, r: nat, c: nat)
    requires src.Length == Area(k) && r < k && c < k
    modifies src
    ensures Rows(src[..], k) == Swapped(Rows(old(src[..]), k), r, c)
  {
    hide At, Area, Start, RowOf, ColOf, Rows;
    ghost var m := Rows(src[..], k);
    AtAll(k);
    RowsAt(src[..], k);
    for ix := 0 to k
      invariant forall i, j {:trigger At(k, i, j)} :: 0 <= i < k && 0 <= j < k ==>
        src[At(k, i, j)] == if j < ix then Swapped(m, r, c)[i][j] else m[i][j]
    {
      var tmp := src[At(k, r, ix)];
      src[At(k, r, ix)] := src[At(k, c, ix)];
      src[At(k, c, ix)] := tmp;
    }
    RowsAt(src[..], k);
    SameEntries(Rows(src[..], k), Swapped(m, r, c), k);
  }

  method SwapColumns(src: array<byte>, k: nat, r: nat, c: nat)
    requires src.Length == Area(k) && r < k && c < k
    modifies src
    ensures Rows(src[..], k) == ColumnsSwapped(Rows(old(src[..]), k), r, c)
  {
    hide At, Area, Start, RowOf, ColOf, Rows;
    ghost var m := Rows(src[..], k);
    AtAll(k);
    RowsAt(src[..], k);
    for row := 0 to k
      invariant forall i, j {:trigger At(k, i, j)} :: 0 <= i < k && 0 <= j < k ==>
        src[At(k, i, j)] == if i < row then Swapped(m[i], r, c)[j] else m[i][j]
    {
      var tmp := src[At(k, row, r)];
      src[At(k, row, r)] := src[At(k, row, c)];
      src[At(k, row, c)] := tmp;
    }
    RowsAt(src[..], k);
    SameEntries(Rows(src[..], k), ColumnsSwapped(m, r, c), k);
  }

  /** gf_mul: one lookup in the multiplication table of fec.c. */
  method GfMul(t: FecTables, x: byte, y: byte) returns (z: byte)
    requires t.Valid()
    ensures z == Mul(x, y)
  {
    hide Mul, Inv;
    z := t.mul[Cell(Num(x), Num(y))];
    assert t.mul[Cell(Num(x), Num(y))] == Mul(x, y);
  }

  method GfInverse(t: FecTables, x: byte) returns (z: byte)
    requires t.Valid()
    ensures z == Inv(x)
  {
    hide Mul, Inv;
    z := t.inverse[Num(x)];
    assert t.inverse[Num(x)] == Inv(x);
  }

  lemma UnitPivotRow(r: Vector, p: nat)
    requires p < |r| && r[p] == 1
    ensures PivotRow(r, p) == r
  {
    hide Mul, Inv;
    InverseOfZeroAndOne();
    ScaleByOne(r);
    assert r[p := 1] == r;
  }

  /** Scale the pivot row so that the pivot becomes one; nothing to do when it already is. */
  method Normalize(t: FecTables, src: array<byte>, k: nat, icol: nat)
    requires t.Valid() && src.Length == Area(k) && icol < k
    modifies src
    ensures Rows(src[..], k) == Rows(old(src[..]), k)[icol := PivotRow(Rows(old(src[..]), k)[icol], icol)]
  {
    hide At, Area, Start, RowOf, ColOf, Rows, Mul, Inv, Patch;
    ghost var s0 := src[..];
    ghost var row := Rows(s0, k)[icol];
    AtBounds(k, icol, icol);
    RowsAt(s0, k);
    var c := src[At(k, icol, icol)];
    if c == 1 {
      UnitPivotRow(row, icol);
      assert Rows(s0, k)[icol := row] == Rows(s0, k);
    } else {
      c := GfInverse(t, c);
      ScaleRow(t, src, k, icol, c);
      PatchRow(s0, k, icol, PivotRow(row, icol));
    }
  }

  method ScaleRow(t: FecTables, src: array<byte>, k: nat, icol: nat, c: byte)
    requires t.Valid() && src.Length == Area(k) && icol < k
    modifies src
    ensures Start(k, icol) + k <= Area(k)
    ensures src[..] == Patch(old(src[..]), Start(k, icol), Scale(c, Rows(old(src[..]), k)[icol][icol := 1]))
  {
    hide Area, Start, RowOf, ColOf, Rows, Mul, Inv, FecTables.Valid, Patch;
    ghost var s0 := src[..];
    ghost var row := Rows(s0, k)[icol];
    AtBounds(k, icol, icol);
    RowSlice(s0, k, icol);
    var base := Start(k, icol);
    src[base + icol] := 1;
    for ix := 0 to k
      invariant forall h :: 0 <= h < src.Length && !(base <= h < base + k) ==> src[h] == s0[h]
      invariant forall h :: base <= h < base + k ==>
        src[h] == if h < base + ix then Mul(c, row[icol := 1][h - base]) else row[icol := 1][h - base]
    {
      src[base + ix] := GfMul(t, c, src[base + ix]);
    }
    PatchedRow(s0, src[..], base, Scale(c, row[icol := 1]));
  }

  lemma PatchedRow(s0: seq<byte>, s1: seq<byte>, base: nat, row: seq<byte>)
    requires |s0| == |s1| && base + |row| <= |s0|
    requires forall h :: 0 <= h < |s0| && !(base <= h < base + |row|) ==> s1[h] == s0[h]
    requires forall h :: base <= h < base + |row| ==> s1[h] == row[h - base]
    ensures s1 == Patch(s0, base, row)
  {
  }

  /** One row of the elimination: take out the pivot column, add the multiple of the pivot row. */
  method EliminateRow(ctx: GfContext, cpu: Cpu, src: array<byte>, k: nat, ix: nat, icol: nat)
    requires ctx.Valid() && src.Length == Area(k) && icol < k && ix < k && ix != icol
    modifies src
    ensures Rows(src[..], k) ==
      Rows(old(src[..]), k)[ix := Eliminated(Rows(old(src[..]), k)[ix], Rows(old(src[..]), k)[icol], icol)]
  {
    hide *;
    ghost var s0 := src[..];
    ghost var m := Rows(s0, k);
    RowFits(k, ix);
    RowFits(k, icol);
    DisjointRows(src, k, ix, icol);
    var p, pivot := Start(k, ix), Start(k, icol);
    var c := src[p + icol];
    src[p + icol] := 0;
    ghost var s1 := src[..];
    ClearedEntry(s0, s1, k, ix, icol);
    assert src[p..p + k] == s1[p..p + k];
    assert src[pivot..pivot + k] == s1[pivot..pivot + k];
    MulAddMem(ctx, cpu, src, p, c, src, pivot, k);
    ghost var row := Eliminated(m[ix], m[icol], icol);
    EliminatedIsMulAdd(m[ix], m[icol], icol);
    PatchOver(s0, s1, p, row);
    PatchRow(s0, k, ix, row);
  }

  lemma DisjointRows(src: array<byte>, k: nat, ix: nat, icol: nat)
    requires ix < k && icol < k && ix != icol
    ensures Disjoint(src, Start(k, ix), src, Start(k, icol), k)
  {
    hide Start;
    if ix < icol {
      RowsApart(k, ix, icol);
    } else {
      RowsApart(k, icol, ix);
    }
  }

  lemma EliminatedIsMulAdd(r: Vector, pivot: Vector, p: nat)
    requires p < |r| == |pivot|
    ensures Eliminated(r, pivot, p) == MulAdd(r[p := 0], r[p], pivot)
  {
  }

  lemma ClearedEntry(s0: seq<byte>, s1: seq<byte>, k: nat, ix: nat, icol: nat)
    requires |s0| == Area(k) && ix < k && icol < k && ix != icol
    requires Start(k, ix) + icol < |s0| && s1 == s0[Start(k, ix) + icol := 0]
    ensures Start(k, ix) + k <= |s0| && Start(k, icol) + k <= |s0|
    ensures s0[Start(k, ix) + icol] == Rows(s0, k)[ix][icol]
    ensures s1[Start(k, ix)..Start(k, ix) + k] == Rows(s0, k)[ix][icol := 0]
    ensures s1[Start(k, icol)..Start(k, icol) + k] == Rows(s0, k)[icol]
  {
    hide Rows, Start, Area;
    RowSlice(s0, k, ix);
    RowSlice(s0, k, icol);
    if ix < icol {
      RowsApart(k, ix, icol);
    } else {
      RowsApart(k, icol, ix);
    }
  }

  lemma PatchOver(s: seq<byte>, s': seq<byte>, p: nat, row: seq<byte>)
    requires |s| == |s'| && p + |row| <= |s|
    requires forall h :: 0 <= h < |s| && !(p <= h < p + |row|) ==> s'[h] == s[h]
    ensures Patch(s', p, row) == Patch(s, p, row)
  {
  }

  method EliminateRows(ctx: GfContext, cpu: Cpu, src: array<byte>, k: nat, icol: nat)
    requires ctx.Valid() && src.Length == Area(k) && icol < k
    modifies src
    ensures var m := Rows(old(src[..]), k); var m' := Rows(src[..], k);
            m'[icol] == m[icol] && forall i :: 0 <= i < k && i != icol ==> m'[i] == Eliminated(m[i], m[icol], icol)
  {
    hide At, Area, Start, RowOf, ColOf, Rows, Mul, Add, Eliminated, GfContext.Valid;
    ghost var m := Rows(src[..], k);
    for ix := 0 to k
      invariant forall i :: 0 <= i < k ==>
        Rows(src[..], k)[i] == if i < ix && i != icol then Eliminated(m[i], m[icol], icol) else m[i]
    {
      if ix != icol {
        EliminateRow(ctx, cpu, src, k, ix, icol);
      }
    }
  }

  method IsUnitRow(src: array<byte>, k: nat, icol: nat) returns (same: bool)
    requires src.Length == Area(k) && icol < k
    ensures same <==> Rows(src[..], k)[icol] == Unit(k, icol)
  {
    AtBounds(k, icol, icol);
    RowSlice(src[..], k, icol);
    var idRow := seq(k, i => if i == icol then 1 else 0);
    assert src[Start(k, icol)..Start(k, icol) + k] == src[..][Start(k, icol)..Start(k, icol) + k];
    assert idRow == Unit(k, icol);
    same := src[Start(k, icol)..Start(k, icol) + k] == idRow;
  }

  /** Normalize and eliminate, skipping the elimination when the pivot row is a unit row. */
  method PivotOn(t: FecTables, ctx: GfContext, cpu: Cpu, src: array<byte>, k: nat, icol: nat)
    requires t.Valid() && ctx.Valid() && src.Length == Area(k) && icol < k
    modifies src
    ensures Rows(src[..], k) == Pivoted(Rows(old(src[..]), k), icol)
  {
    hide At, Area, Start, RowOf, ColOf, Rows, Mul, Add, Inv, Eliminated, PivotRow, GfContext.Valid, FecTables.Valid;
    ghost var m := Rows(src[..], k);
    Normalize(t, src, k, icol);
    var unit := IsUnitRow(src, k, icol);
    if unit {
      IdentityPivotIsNop(m, icol);
    } else {
      EliminateRows(ctx, cpu, src, k, icol);
      ghost var m' := Rows(src[..], k);
      assert forall i :: 0 <= i < k ==> m'[i] == Pivoted(m, icol)[i];
    }
  }
}
