/** The pivoting loop of invert_mat. */
module Elimination {
  import opened Gf256
  import opened Tables
  import opened Context
  import opened LinAlg
  import opened Exchange
  import opened Kernels
  import opened Invert

  ghost function CountTrue(s: seq<bool>): (n: nat)
    ensures n <= |s|
  {
    if |s| == 0 then 0 else (if s[0] then 1 else 0) + CountTrue(s[1..])
  }

  lemma {:induction false} CountSet(s: seq<bool>, i: nat)
    requires i < |s| && !s[i]
    ensures CountTrue(s[i := true]) == CountTrue(s) + 1
  {
    if i > 0 {
      CountSet(s[1..], i - 1);
      assert s[i := true][1..] == s[1..][i - 1 := true];
    } else {
      assert s[i := true][1..] == s[1..];
    }
  }

  lemma {:induction false} CountNone(s: seq<bool>)
    requires forall i :: 0 <= i < |s| ==> !s[i]
    ensures CountTrue(s) == 0
  {
    if |s| > 0 {
      CountNone(s[1..]);
    }
  }

  lemma {:induction false} CountAll(s: seq<bool>)
    requires CountTrue(s) == |s|
    ensures forall i :: 0 <= i < |s| ==> s[i]
  {
    if |s| > 0 {
      CountAll(s[1..]);
      assert s == [s[0]] + s[1..];
    }
  }

  lemma {:induction false} CountSome(s: seq<bool>) returns (i: nat)
    requires CountTrue(s) < |s|
    ensures i < |s| && !s[i]
  {
    if s[0] {
      i := CountSome(s[1..]);
      i := i + 1;
    } else {
      i := 0;
    }
  }

  /** Which columns have served as pivot. */
  ghost function Done(ipiv: seq<int>): (d: seq<bool>)
    ensures |d| == |ipiv| && forall i :: 0 <= i < |ipiv| ==> d[i] == (ipiv[i] == 1)
  {
    seq(|ipiv|, i requires 0 <= i < |ipiv| => ipiv[i] == 1)
  }

  ghost predicate Flags(ipiv: seq<int>)
  {
    forall i :: 0 <= i < |ipiv| ==> ipiv[i] == 0 || ipiv[i] == 1
  }

  /** The state between two columns: the exchange relation, 0/1 flags, and one pivot per recorded swap. */
  ghost predicate Between(a: Matrix, b: Matrix, ipiv: seq<int>, swaps: seq<Swap>)
  {
    && Flags(ipiv)
    && Tracks(a, b, Done(ipiv), swaps)
    && CountTrue(Done(ipiv)) == |swaps|
  }

  /** With regular leading blocks the pivots run down the diagonal. */
  ghost predicate OnDiagonal(ipiv: seq<int>, swaps: seq<Swap>)
  {
    Trivial(swaps) && forall i :: 0 <= i < |ipiv| ==> ipiv[i] == if i < |swaps| then 1 else 0
  }

  lemma BetweenInitially(a: Matrix, ipiv: seq<int>)
    requires Square(a, |ipiv|) && forall i :: 0 <= i < |ipiv| ==> ipiv[i] == 0
    ensures Between(a, a, ipiv, []) && OnDiagonal(ipiv, [])
  {
    CountNone(Done(ipiv));
    TracksInitially(a, Done(ipiv));
  }

  lemma SomeUnpivoted(a: Matrix, b: Matrix, ipiv: seq<int>, swaps: seq<Swap>) returns (q: nat)
    requires Between(a, b, ipiv, swaps) && |swaps| < |ipiv|
    ensures q < |ipiv| && ipiv[q] == 0
  {
    q := CountSome(Done(ipiv));
  }

  lemma NoPivotFails(a: Matrix, b: Matrix, ipiv: seq<int>, swaps: seq<Swap>)
    requires Between(a, b, ipiv, swaps) && |swaps| < |ipiv|
    requires forall i, j :: 0 <= i < |ipiv| && 0 <= j < |ipiv| && ipiv[i] == 0 && ipiv[j] == 0 ==>
      i < |b| && j < |b[i]| && b[i][j] == 0
    ensures Square(a, |ipiv|) && Singular(a, |ipiv|)
  {
    var q := SomeUnpivoted(a, b, ipiv, swaps);
    NoPivotIsSingular(a, b, Done(ipiv), swaps, q);
  }

  /** One column: record the row swap, then pivot. */
  lemma ColumnKeepsBetween(a: Matrix, b: Matrix, ipiv: seq<int>, swaps: seq<Swap>, s: Swap)
    requires Between(a, b, ipiv, swaps) && s.r < |ipiv| && s.c < |ipiv| && ipiv[s.r] == 0 && ipiv[s.c] == 0
    requires Square(b, |ipiv|) && b[s.r][s.c] != 0
    ensures Between(a, Pivoted(Swapped(b, s.r, s.c), s.c), ipiv[s.c := 1], swaps + [s])
  {
    hide Tracks, Pivoted;
    var done := Done(ipiv);
    SwapKeepsTracks(a, b, done, swaps, s);
    PivotKeepsTracks(a, Swapped(b, s.r, s.c), done, swaps + [s], s.c);
    CountSet(done, s.c);
    assert Done(ipiv[s.c := 1]) == done[s.c := true];
  }

  lemma DiagonalPivot(a: Matrix, b: Matrix, ipiv: seq<int>, swaps: seq<Swap>)
    requires Between(a, b, ipiv, swaps) && OnDiagonal(ipiv, swaps) && |swaps| < |ipiv|
    requires Square(a, |a|) && LeadingRegular(a) && Square(b, |ipiv|)
    ensures b[|swaps|][|swaps|] != 0
  {
    DiagonalPivotFound(a, b, Done(ipiv), swaps, |swaps|);
  }

  /** First the diagonal, then every unused row and column; -1 never escapes the search. */
  method FindPivot(src: array<byte>, k: nat, ipiv: array<int>, col: nat)
    returns (found: bool, irow: nat, icol: nat)
    requires src.Length == Area(k) && ipiv.Length == k && col < k && Flags(ipiv[..])
    ensures found ==> irow < k && icol < k && ipiv[irow] == 0 && ipiv[icol] == 0 && Rows(src[..], k)[irow][icol] != 0
    ensures !found ==> forall r, c :: 0 <= r < k && 0 <= c < k && ipiv[r] == 0 && ipiv[c] == 0 ==>
      Rows(src[..], k)[r][c] == 0
    ensures ipiv[col] != 1 && Rows(src[..], k)[col][col] != 0 ==> found && irow == col && icol == col
  {
    hide At, Area, Rows;
    ghost var m := Rows(src[..], k);
    AtAll(k);
    RowsAt(src[..], k);
    if ipiv[col] != 1 && src[At(k, col, col)] != 0 {
      return true, col, col;
    }
    for row := 0 to k
      invariant forall r, c :: 0 <= r < row && 0 <= c < k && ipiv[r] == 0 && ipiv[c] == 0 ==> m[r][c] == 0
    {
      if ipiv[row] != 1 {
        for ix := 0 to k
          invariant forall c :: 0 <= c < ix && ipiv[c] == 0 ==> m[row][c] == 0
        {
          if ipiv[ix] == 0 {
            if src[At(k, row, ix)] != 0 {
              return true, row, ix;
            }
          } else if ipiv[ix] > 1 {
            assert false; // "singular matrix": a flag is never counted twice
          }
        }
      }
    }
    return false, 0, 0;
  }

  method InvertMat(t: FecTables, ctx: GfContext, cpu: Cpu, src: array<byte>, k: nat)
    returns (error: int, ghost swaps: seq<Swap>)
    requires t.Valid() && ctx.Valid() && src.Length == Area(k)
    modifies src
    ensures error == 0 || error == 1
    ensures error == 0 ==> Inverts(Rows(old(src[..]), k), Rows(src[..], k), k)
    ensures error == 1 ==> Singular(Rows(old(src[..]), k), k)
    ensures LeadingRegular(Rows(old(src[..]), k)) ==> error == 0 && Trivial(swaps)
  {
    hide *;
    var done: bool;
    ghost var a := Rows(src[..], k);
    var indxr, indxc;
    done, indxr, indxc, swaps := PivotAll(t, ctx, cpu, src, k);
    if !done {
      error := 1;
      return;
    }
    Unscramble(src, k, indxr, indxc, a, swaps);
    error := 0;
  }

  ghost predicate Recorded(indxr: seq<int>, indxc: seq<int>, swaps: seq<Swap>)
  {
    |swaps| <= |indxr| && |swaps| <= |indxc| &&
    forall h :: 0 <= h < |swaps| ==> indxr[h] == swaps[h].r && indxc[h] == swaps[h].c
  }

  /** Everything pivoted: what is left is to undo the row swaps. */
  ghost predicate Finished(a: Matrix, b: Matrix, k: nat, swaps: seq<Swap>)
  {
    |swaps| <= k && Tracks(a, b, seq(k, i => true), swaps)
  }

  lemma BetweenFinished(a: Matrix, b: Matrix, ipiv: seq<int>, swaps: seq<Swap>)
    requires Between(a, b, ipiv, swaps) && |swaps| == |ipiv|
    ensures Finished(a, b, |ipiv|, swaps)
  {
    CountAll(Done(ipiv));
    assert Done(ipiv) == seq(|ipiv|, i => true);
  }

  method PivotAll(t: FecTables, ctx: GfContext, cpu: Cpu, src: array<byte>, k: nat)
    returns (done: bool, indxr: array<int>, indxc: array<int>, ghost swaps: seq<Swap>)
    requires t.Valid() && ctx.Valid() && src.Length == Area(k)
    modifies src
    ensures indxr.Length == indxc.Length == k && fresh(indxr) && fresh(indxc) && Recorded(indxr[..], indxc[..], swaps)
    ensures done ==> Finished(Rows(old(src[..]), k), Rows(src[..], k), k, swaps) && |swaps| == k
    ensures !done ==> Singular(Rows(old(src[..]), k), k)
    ensures LeadingRegular(Rows(old(src[..]), k)) ==> done && Trivial(swaps)
  {
    hide At, Area, Rows, Tracks, Between, Pivoted, LeadingRegular, Singular, Finished, Recorded, OnDiagonal,
      FecTables.Valid, GfContext.Valid;
    ghost var a := Rows(src[..], k);
    indxr := new int[k];
    indxc := new int[k];
    var ipiv := new int[k];
    swaps := [];
    for i := 0 to k
      invariant forall h :: 0 <= h < i ==> ipiv[h] == 0
      invariant Rows(src[..], k) == a
    {
      ipiv[i] := 0;
    }
    BetweenInitially(a, ipiv[..]);
    NothingRecorded(indxr[..], indxc[..]);
    for col := 0 to k
      invariant |swaps| == col && Between(a, Rows(src[..], k), ipiv[..], swaps)
      invariant Recorded(indxr[..], indxc[..], swaps)
      invariant LeadingRegular(a) ==> OnDiagonal(ipiv[..], swaps)
    {
      done, swaps := PivotColumn(t, ctx, cpu, src, k, ipiv, indxr, indxc, col, a, swaps);
      if !done {
        return;
      }
    }
    BetweenFinished(a, Rows(src[..], k), ipiv[..], swaps);
    if LeadingRegular(a) {
      OnDiagonalTrivial(ipiv[..], swaps);
    }
    done := true;
  }

  lemma OnDiagonalTrivial(ipiv: seq<int>, swaps: seq<Swap>)
    requires OnDiagonal(ipiv, swaps)
    ensures Trivial(swaps)
  {
  }

  lemma OnDiagonalStep(ipiv: seq<int>, swaps: seq<Swap>)
    requires OnDiagonal(ipiv, swaps) && |swaps| < |ipiv|
    ensures ipiv[|swaps|] == 0
    ensures OnDiagonal(ipiv[|swaps| := 1], swaps + [Swap(|swaps|, |swaps|)])
  {
  }

  /** One round of the loop over the columns. */
  method PivotColumn(t: FecTables, ctx: GfContext, cpu: Cpu, src: array<byte>, k: nat, ipiv: array<int>,
                     indxr: array<int>, indxc: array<int>, col: nat, ghost a: Matrix, ghost swaps: seq<Swap>)
    returns (found: bool, ghost swaps': seq<Swap>)
    requires t.Valid() && ctx.Valid() && src.Length == Area(k) && ipiv.Length == indxr.Length == indxc.Length == k
    requires indxr != indxc && indxr != ipiv && indxc != ipiv
    requires src as object !in {indxr as object, indxc as object, ipiv as object}
    requires |swaps| == col < k && Between(a, Rows(src[..], k), ipiv[..], swaps)
    requires Square(a, |a|) && Recorded(indxr[..], indxc[..], swaps)
    requires LeadingRegular(a) ==> OnDiagonal(ipiv[..], swaps)
    modifies src, ipiv, indxr, indxc
    ensures found ==> |swaps'| == col + 1 && Between(a, Rows(src[..], k), ipiv[..], swaps')
    ensures Recorded(indxr[..], indxc[..], swaps')
    ensures found && LeadingRegular(a) ==> OnDiagonal(ipiv[..], swaps')
    ensures !found ==> Square(a, k) && Singular(a, k) && !LeadingRegular(a)
  {
    hide At, Area, Rows, Tracks, Between, Pivoted, LeadingRegular, Singular, Recorded, OnDiagonal,
      FecTables.Valid, GfContext.Valid;
    ghost var b := Rows(src[..], k);
    ghost var piv := ipiv[..];
    swaps' := swaps;
    BetweenFlags(a, b, piv, swaps);
    if LeadingRegular(a) {
      DiagonalPivot(a, b, piv, swaps);
      OnDiagonalStep(piv, swaps);
    }
    var irow, icol;
    found, irow, icol := FindPivot(src, k, ipiv, col);
    if !found {
      NoPivotFails(a, b, piv, swaps);
      return;
    }
    ghost var s := Swap(irow, icol);
    ipiv[icol] := ipiv[icol] + 1;
    assert ipiv[..] == piv[icol := 1];
    if irow != icol {
      SwapRows(src, k, irow, icol);
    }
    RecordedStep(indxr[..], indxc[..], swaps, s);
    ghost var r0, c0 := indxr[..], indxc[..];
    indxr[col] := irow;
    indxc[col] := icol;
    assert indxr[..] == r0[col := irow] && indxc[..] == c0[col := icol];
    PivotOnNonzero(t, ctx, cpu, src, k, irow, icol, b);
    ColumnKeepsBetween(a, b, piv, swaps, s);
    swaps' := swaps + [s];
  }

  /** The pivot is nonzero after the swap, so the second singularity exit is dead. */
  method PivotOnNonzero(t: FecTables, ctx: GfContext, cpu: Cpu, src: array<byte>, k: nat, irow: nat, icol: nat, ghost b: Matrix)
    requires t.Valid() && ctx.Valid() && src.Length == Area(k) && irow < k && icol < k && Square(b, k)
    requires b[irow][icol] != 0
    requires Rows(src[..], k) == if irow != icol then Swapped(b, irow, icol) else b
    modifies src
    ensures Rows(src[..], k) == Pivoted(Swapped(b, irow, icol), icol)
  {
    hide At, Area, Rows, Pivoted, FecTables.Valid, GfContext.Valid;
    AtAll(k);
    RowsAt(src[..], k);
    assert Rows(src[..], k) == Swapped(b, irow, icol);
    if src[At(k, icol, icol)] == 0 {
      assert false; // "singular matrix 2"
    }
    PivotOn(t, ctx, cpu, src, k, icol);
  }

  lemma NothingRecorded(indxr: seq<int>, indxc: seq<int>)
    ensures Recorded(indxr, indxc, [])
  {
  }

  lemma RecordedStep(indxr: seq<int>, indxc: seq<int>, swaps: seq<Swap>, s: Swap)
    requires Recorded(indxr, indxc, swaps) && |swaps| < |indxr| && |swaps| < |indxc|
    ensures Recorded(indxr[|swaps| := s.r], indxc[|swaps| := s.c], swaps + [s])
  {
  }

  lemma BetweenFlags(a: Matrix, b: Matrix, ipiv: seq<int>, swaps: seq<Swap>)
    requires Between(a, b, ipiv, swaps)
    ensures Flags(ipiv) && Square(a, |ipiv|) && Square(b, |ipiv|)
  {
  }

  /** The final loop: undo the row swaps on the columns, newest first. */
  method Unscramble(src: array<byte>, k: nat, indxr: array<int>, indxc: array<int>, ghost a: Matrix, ghost swaps: seq<Swap>)
    requires src.Length == Area(k) && indxr.Length == indxc.Length == k && |swaps| == k
    requires Recorded(indxr[..], indxc[..], swaps)
    requires Square(a, k) && Finished(a, Rows(src[..], k), k, swaps)
    requires src as object !in {indxr as object, indxc as object}
    modifies src
    ensures Inverts(a, Rows(src[..], k), k)
  {
    hide At, Area, Rows, Finished, Inverts;
    ghost var r0, c0 := indxr[..], indxc[..];
    assert swaps[..k] == swaps;
    var col := k;
    while col > 0
      invariant 0 <= col <= k && Finished(a, Rows(src[..], k), k, swaps[..col])
      invariant indxr[..] == r0 && indxc[..] == c0
    {
      col := col - 1;
      ghost var b := Rows(src[..], k);
      FinishedStep(a, b, k, swaps, col);
      if indxr[col] < 0 || indxr[col] >= k {
        assert false;
      } else if indxc[col] < 0 || indxc[col] >= k {
        assert false;
      } else if indxr[col] != indxc[col] {
        SwapColumns(src, k, indxr[col], indxc[col]);
      } else {
        SameColumnsSwapped(b, indxr[col]);
      }
    }
    assert swaps[..0] == [];
    FinishedInverts(a, Rows(src[..], k), k);
  }

  lemma SameColumnsSwapped(b: Matrix, i: nat)
    requires Square(b, |b|) && i < |b|
    ensures ColumnsSwapped(b, i, i) == b
  {
    forall h | 0 <= h < |b|
      ensures ColumnsSwapped(b, i, i)[h] == b[h]
    {
      assert Swapped(b[h], i, i) == b[h];
    }
  }

  lemma FinishedStep(a: Matrix, b: Matrix, k: nat, swaps: seq<Swap>, col: nat)
    requires Square(b, k) && col < |swaps| && Finished(a, b, k, swaps[..col + 1])
    ensures swaps[col].r < k && swaps[col].c < k
    ensures Finished(a, ColumnsSwapped(b, swaps[col].r, swaps[col].c), k, swaps[..col])
  {
    var part := swaps[..col + 1];
    assert part[col] == swaps[col];
    assert part[|part| - 1] == swaps[col] && part[..|part| - 1] == swaps[..col];
    UnscrambleKeepsTracks(a, b, seq(k, i => true), part);
  }

  lemma FinishedInverts(a: Matrix, b: Matrix, k: nat)
    requires Square(a, k) && Square(b, k) && Finished(a, b, k, [])
    ensures Inverts(a, b, k)
  {
    TracksAllInverts(a, b, seq(k, i => true));
  }
}
