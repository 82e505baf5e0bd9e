/** reduce, resolve and fec_decode of fec.c. */
module Decoder {
  import opened Gf256
  import opened Bytes
  import opened Powers
  import opened Tables
  import opened Context
  import opened LinAlg
  import opened Exchange
  import opened Cauchy
  import opened Invert
  import opened Elimination
  import opened Code
  import opened Codec

  // ---------- reduce ----------

  /** A parity block minus the known blocks among the first m. */
  ghost function Reducing(data: Blocks, p: seq<byte>, r: nat, erased: seq<nat>, m: nat): (s: seq<byte>)
    requires m <= |data| <= 128 && r < 128 && Sized(data, |p|)
    ensures |s| == |p|
  {
    Plus(p, Partial(Known(data, erased, |p|), m, r, |p|))
  }

  lemma ReducingStart(data: Blocks, p: seq<byte>, r: nat, erased: seq<nat>)
    requires |data| <= 128 && r < 128 && Sized(data, |p|)
    ensures Reducing(data, p, r, erased, 0) == p
  {
    hide Plus, Parity;
    ParityEmpty(r, |p|);
    assert Known(data, erased, |p|)[..0] == [];
    PlusZeros(p);
  }

  lemma ReducingEnd(data: Blocks, p: seq<byte>, r: nat, erased: seq<nat>)
    requires |data| <= 128 && r < 128 && Sized(data, |p|)
    ensures Reducing(data, p, r, erased, |data|) == Syndrome(data, p, r, erased)
  {
    hide Plus, Parity;
    PartialAll(Known(data, erased, |p|), r, |p|);
  }

  lemma PlusAssociates(a: Vector, b: Vector, c: Vector)
    requires |a| == |b| == |c|
    ensures Plus(a, Plus(b, c)) == Plus(Plus(a, b), c)
  {
    hide Add;
    forall i | 0 <= i < |a|
      ensures Add(a[i], Add(b[i], c[i])) == Add(Add(a[i], b[i]), c[i])
    {
      AddAssociates(a[i], b[i], c[i]);
    }
  }

  lemma ScaleZeros(c: byte, n: nat)
    ensures Scale(c, Zeros(n)) == Zeros(n)
  {
    hide Mul;
    MulZero(c);
  }

  lemma ReducingStep(data: Blocks, p: seq<byte>, r: nat, erased: seq<nat>, m: nat)
    requires m < |data| <= 128 && r < 128 && Sized(data, |p|)
    ensures m in erased ==> Reducing(data, p, r, erased, m + 1) == Reducing(data, p, r, erased, m)
    ensures m !in erased ==>
      Reducing(data, p, r, erased, m + 1) == Plus(Reducing(data, p, r, erased, m), Scale(Coef(r, m), data[m]))
  {
    hide Plus, Partial, Parity, Scale, Coef;
    var n := |p|;
    var k := Known(data, erased, n);
    PartialStep(k, m, r, n);
    var part := Partial(k, m, r, n);
    PlusAssociates(p, part, Scale(Coef(r, m), k[m]));
    ScaleZeros(Coef(r, m), n);
    PlusZeros(Plus(p, part));
  }

  /** Every parity block has been reduced by the first m data blocks. */
  ghost predicate ReducedTo(v: Blocks, d0: Blocks, f0: Blocks, rows: seq<nat>, erased: seq<nat>, n: nat, m: nat, j: nat)
    requires |v| == |f0| == |rows| && Sized(v, n) && Sized(f0, n) && Sized(d0, n) && |d0| <= 128
    requires forall i :: 0 <= i < |rows| ==> rows[i] < 128
    requires m <= |d0| && (j > 0 ==> m < |d0|)
  {
    forall i :: 0 <= i < |rows| ==> v[i] == Reducing(d0, f0[i], rows[i], erased, if i < j then m + 1 else m)
  }

  method ReduceColumn(lib: Library, n: nat, data: seq<array<byte>>, fec: seq<array<byte>>, rows: seq<nat>,
                      ghost erased: seq<nat>, col: nat, ghost d0: Blocks, ghost f0: Blocks)
    requires lib.Valid() && |data| <= 128 && |fec| == |rows| == |f0|
    requires Buffers(data, n) && Buffers(fec, n) && Separate(data, fec) && View(data, n) == d0 && Sized(f0, n)
    requires forall i :: 0 <= i < |rows| ==> rows[i] < 128
    requires col < |data| && col !in erased
    requires ReducedTo(View(fec, n), d0, f0, rows, erased, n, col, 0)
    modifies fec
    ensures View(data, n) == d0 && Tails(fec, n) == old(Tails(fec, n))
    ensures ReducedTo(View(fec, n), d0, f0, rows, erased, n, col + 1, 0)
  {
    hide Reducing, Coef, Scale, Plus, Library.Valid, Byte, RowLabel, Add;
    var j := 0;
    while j < |rows|
      invariant 0 <= j <= |rows|
      invariant View(data, n) == d0 && Tails(fec, n) == old(Tails(fec, n))
      invariant ReducedTo(View(fec, n), d0, f0, rows, erased, n, col, j)
    {
      var blno := rows[j];
      CoefIndex(blno, col);
      var c := CoefAt(lib, Add(Add(Byte(blno), Byte(col)), 0x80), blno, col);
      ReducingStep(d0, f0[j], blno, erased, col);
      assert data[col][..n] == d0[col];
      MulAddBlock(lib, fec, j, c, data[col], n);
      assert View(data, n) == d0;
      j := j + 1;
    }
  }

  /** erasedIdx counts the erased columns below col. */
  ghost predicate Passed(erased: seq<nat>, erasedIdx: nat, col: nat)
  {
    && erasedIdx <= |erased|
    && (forall i :: 0 <= i < erasedIdx ==> erased[i] < col)
    && (forall i :: erasedIdx <= i < |erased| ==> erased[i] >= col)
  }

  lemma NothingReduced(d0: Blocks, f0: Blocks, rows: seq<nat>, erased: seq<nat>, n: nat)
    requires |f0| == |rows| && Sized(f0, n) && Sized(d0, n) && |d0| <= 128
    requires forall i :: 0 <= i < |rows| ==> rows[i] < 128
    ensures ReducedTo(f0, d0, f0, rows, erased, n, 0, 0)
  {
    forall i | 0 <= i < |rows|
      ensures Reducing(d0, f0[i], rows[i], erased, 0) == f0[i]
    {
      ReducingStart(d0, f0[i], rows[i], erased);
    }
  }

  lemma SkipErased(v: Blocks, d0: Blocks, f0: Blocks, rows: seq<nat>, erased: seq<nat>, n: nat, col: nat)
    requires |v| == |f0| == |rows| && Sized(v, n) && Sized(f0, n) && Sized(d0, n) && col < |d0| <= 128
    requires forall i :: 0 <= i < |rows| ==> rows[i] < 128
    requires col in erased && ReducedTo(v, d0, f0, rows, erased, n, col, 0)
    ensures ReducedTo(v, d0, f0, rows, erased, n, col + 1, 0)
  {
    forall i | 0 <= i < |rows|
      ensures Reducing(d0, f0[i], rows[i], erased, col + 1) == Reducing(d0, f0[i], rows[i], erased, col)
    {
      ReducingStep(d0, f0[i], rows[i], erased, col);
    }
  }

  lemma AllPassed(erased: seq<nat>, erasedIdx: nat, d: nat)
    requires Passed(erased, erasedIdx, d) && forall i :: 0 <= i < |erased| ==> erased[i] < d
    ensures erasedIdx == |erased|
  {
    if |erased| > 0 {
      assert erased[|erased| - 1] < d;
    }
  }

  method Reduce(lib: Library, n: nat, data: seq<array<byte>>, fec: seq<array<byte>>, rows: seq<nat>, erased: seq<nat>)
    requires lib.Valid() && RepairPlan(|data|, rows, erased) && |fec| == |rows|
    requires Buffers(data, n) && Buffers(fec, n) && Separate(data, fec)
    modifies fec
    ensures View(data, n) == old(View(data, n)) && Tails(fec, n) == old(Tails(fec, n))
    ensures View(fec, n) == Syndromes(old(View(data, n)), old(View(fec, n)), rows, erased, n)
  {
    hide Reducing, Syndrome, Library.Valid, Distinct, View, Tails, Buffers, Separate;
    ghost var d0, f0 := View(data, n), View(fec, n);
    var erasedIdx := 0;
    NothingReduced(d0, f0, rows, erased, n);
    var col := 0;
    while col < |data|
      invariant 0 <= col <= |data| && Passed(erased, erasedIdx, col)
      invariant View(data, n) == d0 && Tails(fec, n) == old(Tails(fec, n))
      invariant ReducedTo(View(fec, n), d0, f0, rows, erased, n, col, 0)
    {
      if erasedIdx < |erased| && erased[erasedIdx] == col {
        SkipErased(View(fec, n), d0, f0, rows, erased, n, col);
        erasedIdx := erasedIdx + 1;
      } else {
        assert col !in erased;
        ReduceColumn(lib, n, data, fec, rows, erased, col, d0, f0);
      }
      col := col + 1;
    }
    AllPassed(erased, erasedIdx, |data|);
    assert erasedIdx == |erased|; // assert(nr_fec_blocks == erasedIdx)
    forall i | 0 <= i < |rows|
      ensures View(fec, n)[i] == Syndrome(d0, f0[i], rows[i], erased)
    {
      ReducingEnd(d0, f0[i], rows[i], erased);
    }
  }

  // ---------- resolve ----------

  /** The first entries of the mini encoding matrix, in row-major order, are in place. */
  ghost predicate Filled(src: seq<byte>, k: nat, m: Matrix, row: nat, col: nat)
    requires |src| == Area(k) && Square(m, k)
  {
    AtAll(k);
    forall i, j {:trigger At(k, i, j)} :: 0 <= i < k && 0 <= j < k && (i < row || (i == row && j < col)) ==>
      src[At(k, i, j)] == m[i][j]
  }

  lemma FilledStep(src: seq<byte>, k: nat, m: Matrix, row: nat, col: nat)
    requires |src| == Area(k) && Square(m, k) && row < k && col < k && Filled(src, k, m, row, col)
    ensures At(k, row, col) < Area(k)
    ensures Filled(src[At(k, row, col) := m[row][col]], k, m, row, col + 1)
  {
    hide At, Area, RowOf, ColOf;
    AtAll(k);
  }

  lemma FilledRow(src: seq<byte>, k: nat, m: Matrix, row: nat)
    requires |src| == Area(k) && Square(m, k)
    ensures Filled(src, k, m, 0, 0)
    ensures Filled(src, k, m, row, k) ==> Filled(src, k, m, row + 1, 0)
    ensures Filled(src, k, m, k, 0) ==> Rows(src, k) == m
  {
    hide At, Area, RowOf, ColOf, Rows;
    RowsAt(src, k);
    if Filled(src, k, m, k, 0) {
      SameEntries(Rows(src, k), m, k);
    }
  }

  /** The mini encoding matrix. */
  method BuildMatrix(lib: Library, rows: seq<nat>, erased: seq<nat>) returns (matrix: array<byte>)
    requires lib.Valid() && |rows| == |erased|
    requires forall i :: 0 <= i < |rows| ==> rows[i] < 128 && erased[i] < 128
    ensures fresh(matrix) && matrix.Length == Area(|rows|)
    ensures Rows(matrix[..], |rows|) == CauchyMatrix(RowLabels(rows), ColLabels(erased))
  {
    hide At, Area, Rows, RowOf, ColOf, Byte, RowLabel, Inv, Add, Library.Valid, Coef, CauchyMatrix, RowLabels, ColLabels, Filled;
    var k := |rows|;
    matrix := new byte[Area(k)];
    ghost var m := CauchyMatrix(RowLabels(rows), ColLabels(erased));
    FilledRow(matrix[..], k, m, 0);
    for row := 0 to k
      invariant Filled(matrix[..], k, m, row, 0)
    {
      for col := 0 to k
        invariant Filled(matrix[..], k, m, row, col)
      {
        CoefIndex(rows[row], erased[col]);
        var c := CoefAt(lib, Add(Byte(128 + rows[row]), Byte(erased[col])), rows[row], erased[col]);
        CoefIsEntry(rows, erased, row, col);
        FilledStep(matrix[..], k, m, row, col);
        ghost var before := matrix[..];
        matrix[At(k, row, col)] := c;
        assert matrix[..] == before[At(k, row, col) := c];
      }
      FilledRow(matrix[..], k, m, row);
    }
    FilledRow(matrix[..], k, m, k);
  }

  lemma CoefIsEntry(rows: seq<nat>, erased: seq<nat>, i: nat, j: nat)
    requires |rows| == |erased| && i < |rows| && j < |rows|
    requires forall h :: 0 <= h < |rows| ==> rows[h] < 128 && erased[h] < 128
    ensures CauchyMatrix(RowLabels(rows), ColLabels(erased))[i][j] == Coef(rows[i], erased[j])
  {
  }

  /** Combination of the first m syndromes with one row of the inverse. */
  ghost function Combined(b: Vector, s: Blocks, n: nat, m: nat): (x: seq<byte>)
    requires m <= |b| == |s| && Sized(s, n)
    ensures |x| == n
  {
    seq(n, t requires 0 <= t < n => Dot(b[..m], Slice(s[..m], t)))
  }

  lemma CombinedStep(b: Vector, s: Blocks, n: nat, m: nat)
    requires m < |b| == |s| && Sized(s, n)
    ensures Combined(b, s, n, m + 1) == Plus(Combined(b, s, n, m), Scale(b[m], s[m]))
    ensures m == 0 ==> Combined(b, s, n, 1) == Scale(b[0], s[0])
  {
    hide Add, Mul, Dot;
    forall t | 0 <= t < n
      ensures Dot(b[..m + 1], Slice(s[..m + 1], t)) == Add(Dot(b[..m], Slice(s[..m], t)), Mul(b[m], s[m][t]))
    {
      assert b[..m + 1] == b[..m] + [b[m]];
      assert Slice(s[..m + 1], t) == Slice(s[..m], t) + [s[m][t]];
      DotAppend(b[..m], Slice(s[..m], t), b[m], s[m][t]);
    }
    if m == 0 {
      forall t | 0 <= t < n
        ensures Dot(b[..0], Slice(s[..0], t)) == 0
      {
        DotEmpty(b[..0], Slice(s[..0], t));
      }
      assert Combined(b, s, n, 0) == Zeros(n);
      PlusZeros(Scale(b[0], s[0]));
    }
  }

  /** The rows of the inverse applied to the syndromes give the missing bytes. */
  lemma InverseSolves(data: Blocks, fec: Blocks, rows: seq<nat>, erased: seq<nat>, n: nat, b: Matrix, i: nat)
    requires RepairPlan(|data|, rows, erased) && |fec| == |rows| && Sized(data, n) && Sized(fec, n) && i < |rows|
    requires Square(b, |rows|) && Inverts(CauchyMatrix(RowLabels(rows), ColLabels(erased)), b, |rows|)
    ensures Combined(b[i], Syndromes(data, fec, rows, erased, n), n, |rows|) ==
            Repaired(data, fec, rows, erased, n)[erased[i]]
  {
    hide Add, Mul, Inv, Byte, RowLabel, Dot, Solution, Syndrome;
    var s := Syndromes(data, fec, rows, erased, n);
    var la, lb := RowLabels(rows), ColLabels(erased);
    PlanLabels(|data|, rows, erased);
    PositionUnique(erased, i);
    forall t | 0 <= t < n
      ensures Dot(b[i][..|rows|], Slice(s[..|rows|], t)) == Repaired(data, fec, rows, erased, n)[erased[i]][t]
    {
      var y := Slice(s, t);
      var x := Apply(b, y);
      assert s[..|rows|] == s && b[i][..|rows|] == b[i];
      var m := CauchyMatrix(la, lb);
      assert Apply(m, x) == y;
      forall h | 0 <= h < |rows|
        ensures Dot(Row(la[h], lb), x) == y[h]
      {
        assert Apply(m, x)[h] == y[h];
      }
      SolutionSolves(la, lb, y);
      SolutionUnique(la, lb, x, MissingBytes(data, fec, rows, erased, n, t), y);
    }
  }

  /** One missing block: the inverse row times the reduced parity blocks. */
  method ResolveRow(lib: Library, n: nat, data: seq<array<byte>>, fec: seq<array<byte>>, target: nat,
                    matrix: array<byte>, k: nat, row: nat, ghost s: Blocks)
    requires lib.Valid() && Buffers(data, n) && Buffers(fec, n) && Separate(data, fec)
    requires target < |data| && |fec| == k && row < k && matrix.Length == Area(k)
    requires matrix !in data && View(fec, n) == s
    modifies data[target]
    ensures View(fec, n) == s && Tails(data, n) == old(Tails(data, n))
    ensures View(data, n) == old(View(data, n))[target := Combined(Rows(matrix[..], k)[row], s, n, k)]
  {
    hide At, Area, Rows, RowOf, ColOf, Combined, Scale, Plus, Library.Valid;
    ghost var b := Rows(matrix[..], k)[row];
    ghost var v0 := View(data, n);
    AtAll(k);
    RowsAt(matrix[..], k);
    CombinedStep(b, s, n, 0);
    assert fec[0][..n] == s[0];
    MulBlock(lib, data, target, fec[0], matrix[At(k, row, 0)], n);
    assert View(fec, n) == s;
    for col := 1 to k
      invariant Rows(matrix[..], k)[row] == b
      invariant View(fec, n) == s && Tails(data, n) == old(Tails(data, n))
      invariant View(data, n) == v0[target := Combined(b, s, n, col)]
    {
      RowsAt(matrix[..], k);
      CombinedStep(b, s, n, col);
      assert fec[col][..n] == s[col];
      MulAddBlock(lib, data, target, matrix[At(k, row, col)], fec[col], n);
      assert View(fec, n) == s;
    }
  }

  /** The matrix is always invertible without a row swap, so assert(0) is dead. */
  method InvertedMatrix(lib: Library, rows: seq<nat>, erased: seq<nat>, ghost d: nat) returns (matrix: array<byte>)
    requires lib.Valid() && RepairPlan(d, rows, erased)
    ensures fresh(matrix) && matrix.Length == Area(|rows|)
    ensures Inverts(CauchyMatrix(RowLabels(rows), ColLabels(erased)), Rows(matrix[..], |rows|), |rows|)
  {
    hide At, Area, Rows, RowOf, ColOf, Inverts, Library.Valid, GfContext.Valid, FecTables.Valid, Byte, RowLabel,
      LeadingRegular, Singular, Trivial, CauchyMatrix;
    var k := |rows|;
    matrix := BuildMatrix(lib, rows, erased);
    PlanLabels(d, rows, erased);
    CauchyLeadingRegular(RowLabels(rows), ColLabels(erased));
    LibraryValid(lib);
    ghost var swaps;
    var r: int;
    r, swaps := InvertMat(lib.tables, lib.ctx, lib.cpu, matrix, k);
    assert Trivial(swaps); // every pivot was found on the diagonal
    if r != 0 {
      assert false; // assert(0)
    }
  }

  method Resolve(lib: Library, n: nat, data: seq<array<byte>>, fec: seq<array<byte>>, rows: seq<nat>, erased: seq<nat>,
                 ghost d0: Blocks, ghost f0: Blocks)
    requires lib.Valid() && RepairPlan(|data|, rows, erased) && |fec| == |rows|
    requires Buffers(data, n) && Buffers(fec, n) && Separate(data, fec)
    requires View(data, n) == d0 && |f0| == |rows| && Sized(f0, n)
    requires View(fec, n) == Syndromes(d0, f0, rows, erased, n)
    modifies data
    ensures View(fec, n) == old(View(fec, n)) && Tails(data, n) == old(Tails(data, n))
    ensures View(data, n) == Repaired(d0, f0, rows, erased, n)
  {
    hide At, Area, Rows, RowOf, ColOf, Combined, Repaired, Syndromes, Inverts, Library.Valid, CauchyMatrix, RowLabels,
      ColLabels, Distinct, View, Tails, RepairedTo;
    var k := |rows|;
    ghost var s := View(fec, n);
    var matrix := InvertedMatrix(lib, rows, erased, |data|);
    assert View(data, n) == d0 && View(fec, n) == s;
    ghost var m := matrix[..];
    ghost var full := Repaired(d0, f0, rows, erased, n);
    RepairedStart(d0, full, erased);
    var row := 0;
    while row < k
      invariant 0 <= row <= k && matrix[..] == m
      invariant View(fec, n) == s && Tails(data, n) == old(Tails(data, n))
      invariant RepairedTo(View(data, n), d0, full, erased, row)
    {
      InverseSolves(d0, f0, rows, erased, n, Rows(m, k), row);
      RepairedStep(View(data, n), d0, full, erased, row);
      ResolveRow(lib, n, data, fec, erased[row], matrix, k, row, s);
      row := row + 1;
    }
    RepairedAll(View(data, n), d0, f0, rows, erased, n);
  }

  /** The first row erased blocks are repaired, everything else is as before. */
  ghost predicate RepairedTo(v: Blocks, d0: Blocks, full: Blocks, erased: seq<nat>, row: nat)
  {
    && |v| == |d0| == |full| && row <= |erased|
    && forall c :: 0 <= c < |d0| ==> v[c] == if c in erased[..row] then full[c] else d0[c]
  }

  lemma RepairedStart(d0: Blocks, full: Blocks, erased: seq<nat>)
    requires |full| == |d0|
    ensures RepairedTo(d0, d0, full, erased, 0)
  {
  }

  lemma RepairedStep(v: Blocks, d0: Blocks, full: Blocks, erased: seq<nat>, row: nat)
    requires RepairedTo(v, d0, full, erased, row) && row < |erased| && erased[row] < |d0|
    ensures RepairedTo(v[erased[row] := full[erased[row]]], d0, full, erased, row + 1)
  {
    assert erased[..row + 1] == erased[..row] + [erased[row]];
  }

  lemma RepairedAll(v: Blocks, data: Blocks, fec: Blocks, rows: seq<nat>, erased: seq<nat>, n: nat)
    requires RepairPlan(|data|, rows, erased) && |fec| == |rows| && Sized(data, n) && Sized(fec, n)
    requires RepairedTo(v, data, Repaired(data, fec, rows, erased, n), erased, |erased|)
    ensures v == Repaired(data, fec, rows, erased, n)
  {
    assert erased[..|erased|] == erased;
  }

  /** fec_decode: the data buffers hold the repaired blocks, the used parity buffers their syndromes. */
  method FecDecode(lib: Library, n: nat, data: seq<array<byte>>, fec: seq<array<byte>>, rows: seq<nat>, erased: seq<nat>)
    requires lib.Valid() && RepairPlan(|data|, rows, erased) && |fec| == |rows|
    requires Buffers(data, n) && Buffers(fec, n) && Separate(data, fec)
    modifies data, fec
    ensures Tails(data, n) == old(Tails(data, n)) && Tails(fec, n) == old(Tails(fec, n))
    ensures View(data, n) == Repaired(old(View(data, n)), old(View(fec, n)), rows, erased, n)
    ensures View(fec, n) == Syndromes(old(View(data, n)), old(View(fec, n)), rows, erased, n)
  {
    hide Repaired, Syndromes, Library.Valid;
    ghost var d0, f0, t0 := View(data, n), View(fec, n), Tails(data, n);
    Reduce(lib, n, data, fec, rows, erased);
    assert Tails(data, n) == t0;
    ghost var u0 := Tails(fec, n);
    Resolve(lib, n, data, fec, rows, erased, d0, f0);
    assert Tails(fec, n) == u0;
  }
}
