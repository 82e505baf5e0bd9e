/** The erasure code as mathematics: systematic data blocks, parity blocks with Cauchy
    coefficients 1 / (128 ^ row ^ col), and repair by solving for the erased blocks. */
module Code {
  import opened Gf256
  import opened Bytes
  import opened Powers
  import opened LinAlg
  import opened Cauchy

  type Blocks = seq<seq<byte>>

  ghost predicate Sized(bs: Blocks, n: nat)
  {
    forall i :: 0 <= i < |bs| ==> |bs[i]| == n
  }

  /** The field element that labels parity row r; data columns are labelled by themselves. */
  function RowLabel(r: nat): byte
    requires r < 128
  {
    Byte(128 + r)
  }

  ghost function RowLabels(rows: seq<nat>): (a: Vector)
    requires forall i :: 0 <= i < |rows| ==> rows[i] < 128
    ensures |a| == |rows| && forall i :: 0 <= i < |rows| ==> a[i] == RowLabel(rows[i])
  {
    seq(|rows|, i requires 0 <= i < |rows| => RowLabel(rows[i]))
  }

  ghost function ColLabels(cols: seq<nat>): (b: Vector)
    requires forall i :: 0 <= i < |cols| ==> cols[i] < 128
    ensures |b| == |cols| && forall i :: 0 <= i < |cols| ==> b[i] == Byte(cols[i])
  {
    seq(|cols|, i requires 0 <= i < |cols| => Byte(cols[i]))
  }

  ghost function FirstCols(d: nat): (b: Vector)
    requires d <= 128
    ensures |b| == d && forall i :: 0 <= i < d ==> b[i] == Byte(i)
  {
    seq(d, i requires 0 <= i < d => Byte(i))
  }

  ghost function Coef(r: nat, c: nat): byte
    requires r < 128 && c < 128
  {
    Inv(Add(RowLabel(r), Byte(c)))
  }

  /** The t-th byte of every block. */
  ghost function Slice(bs: Blocks, t: nat): (x: Vector)
    requires forall i :: 0 <= i < |bs| ==> t < |bs[i]|
    ensures |x| == |bs| && forall i :: 0 <= i < |bs| ==> x[i] == bs[i][t]
  {
    seq(|bs|, i requires 0 <= i < |bs| => bs[i][t])
  }

  ghost function ParityByte(data: Blocks, r: nat, t: nat): byte
    requires r < 128 && |data| <= 128 && forall i :: 0 <= i < |data| ==> t < |data[i]|
  {
    Dot(Row(RowLabel(r), FirstCols(|data|)), Slice(data, t))
  }

  ghost function Parity(data: Blocks, r: nat, n: nat): (p: seq<byte>)
    requires r < 128 && |data| <= 128 && Sized(data, n)
    ensures |p| == n && forall t :: 0 <= t < n ==> p[t] == ParityByte(data, r, t)
  {
    seq(n, t requires 0 <= t < n => ParityByte(data, r, t))
  }

  // ---------- adding one column ----------

  lemma {:induction false} DotAppend(r: Vector, x: Vector, a: byte, b: byte)
    requires |r| == |x|
    ensures Dot(r + [a], x + [b]) == Add(Dot(r, x), Mul(a, b))
  {
    hide Add, Mul;
    if |r| == 0 {
      assert (r + [a])[1..] == [] && (x + [b])[1..] == [];
      AddCommutes(Mul(a, b), 0);
    } else {
      assert (r + [a])[1..] == r[1..] + [a] && (x + [b])[1..] == x[1..] + [b];
      DotAppend(r[1..], x[1..], a, b);
      AddAssociates(Mul(r[0], x[0]), Dot(r[1..], x[1..]), Mul(a, b));
    }
  }

  lemma ParityEmpty(r: nat, n: nat)
    requires r < 128
    ensures Parity([], r, n) == Zeros(n)
  {
  }

  lemma ParityExtends(data: Blocks, r: nat, n: nat, b: seq<byte>)
    requires r < 128 && |data| < 128 && Sized(data, n) && |b| == n
    ensures Sized(data + [b], n)
    ensures Parity(data + [b], r, n) == Plus(Parity(data, r, n), Scale(Coef(r, |data|), b))
  {
    hide Add, Mul, Inv, Dot, Byte, RowLabel;
    var d, c := |data|, Coef(r, |data|);
    assert Row(RowLabel(r), FirstCols(d + 1)) == Row(RowLabel(r), FirstCols(d)) + [c];
    forall t | 0 <= t < n
      ensures ParityByte(data + [b], r, t) == Add(ParityByte(data, r, t), Mul(c, b[t]))
    {
      assert Slice(data + [b], t) == Slice(data, t) + [b[t]];
      DotAppend(Row(RowLabel(r), FirstCols(d)), Slice(data, t), c, b[t]);
    }
  }

  // ---------- repair ----------

  /** What the decoder demands: ascending erased columns, as many distinct parity rows. */
  ghost predicate RepairPlan(d: nat, rows: seq<nat>, erased: seq<nat>)
  {
    && d <= 128 && |rows| == |erased|
    && Distinct(rows) && (forall j :: 0 <= j < |rows| ==> rows[j] < 128)
    && Ascending(erased) && (forall i :: 0 <= i < |erased| ==> erased[i] < d)
  }

  ghost predicate Ascending(s: seq<nat>)
  {
    forall i, j :: 0 <= i < j < |s| ==> s[i] < s[j]
  }

  lemma PlanLabels(d: nat, rows: seq<nat>, erased: seq<nat>)
    requires RepairPlan(d, rows, erased)
    ensures Labels(RowLabels(rows), ColLabels(erased))
  {
    var a, b := RowLabels(rows), ColLabels(erased);
    forall i, j | 0 <= i < j < |rows|
      ensures a[i] != a[j] && b[i] != b[j]
    {
      ByteInjective(128 + rows[i], 128 + rows[j]);
      ByteInjective(erased[i], erased[j]);
    }
    forall i, j | 0 <= i < |a| && 0 <= j < |b|
      ensures a[i] != b[j]
    {
      ByteInjective(128 + rows[i], erased[j]);
    }
  }

  /** The blocks that are not erased, erased ones blanked. */
  ghost function Known(data: Blocks, erased: seq<nat>, n: nat): (k: Blocks)
    requires Sized(data, n)
    ensures |k| == |data| && Sized(k, n)
    ensures forall c :: 0 <= c < |data| ==> k[c] == if c in erased then Zeros(n) else data[c]
  {
    seq(|data|, c requires 0 <= c < |data| => if c in erased then Zeros(n) else data[c])
  }

  /** A parity block minus the contribution of the known blocks. */
  ghost function Syndrome(data: Blocks, p: seq<byte>, r: nat, erased: seq<nat>): (s: seq<byte>)
    requires r < 128 && |data| <= 128 && Sized(data, |p|)
    ensures |s| == |p|
  {
    Plus(p, Parity(Known(data, erased, |p|), r, |p|))
  }

  ghost function Syndromes(data: Blocks, fec: Blocks, rows: seq<nat>, erased: seq<nat>, n: nat): (s: Blocks)
    requires |fec| == |rows| && |data| <= 128 && Sized(data, n) && Sized(fec, n)
    requires forall j :: 0 <= j < |rows| ==> rows[j] < 128
    ensures |s| == |fec| && Sized(s, n)
    ensures forall j :: 0 <= j < |fec| ==> s[j] == Syndrome(data, fec[j], rows[j], erased)
  {
    seq(|fec|, j requires 0 <= j < |fec| => Syndrome(data, fec[j], rows[j], erased))
  }

  /** The erased bytes at offset t, by solving the Cauchy system. */
  ghost function MissingBytes(data: Blocks, fec: Blocks, rows: seq<nat>, erased: seq<nat>, n: nat, t: nat): (x: Vector)
    requires RepairPlan(|data|, rows, erased) && |fec| == |rows| && Sized(data, n) && Sized(fec, n) && t < n
    ensures |x| == |erased|
  {
    Solution(RowLabels(rows), ColLabels(erased), Slice(Syndromes(data, fec, rows, erased, n), t))
  }

  ghost function Position(s: seq<nat>, c: nat): (i: nat)
    requires c in s
    ensures i < |s| && s[i] == c
  {
    var i: nat :| i < |s| && s[i] == c;
    i
  }

  /** Erased blocks replaced by the solution, every other block as it was. */
  ghost function Repaired(data: Blocks, fec: Blocks, rows: seq<nat>, erased: seq<nat>, n: nat): (r: Blocks)
    requires RepairPlan(|data|, rows, erased) && |fec| == |rows| && Sized(data, n) && Sized(fec, n)
    ensures |r| == |data| && Sized(r, n)
    ensures forall c :: 0 <= c < |data| && c !in erased ==> r[c] == data[c]
  {
    seq(|data|, c requires 0 <= c < |data| =>
      if c in erased
      then seq(n, t requires 0 <= t < n => MissingBytes(data, fec, rows, erased, n, t)[Position(erased, c)])
      else data[c])
  }

  lemma PositionUnique(s: seq<nat>, i: nat)
    requires Ascending(s) && i < |s|
    ensures Position(s, s[i]) == i
  {
    var j := Position(s, s[i]);
  }

  /** A vector holding x at the erased positions and zero elsewhere. */
  ghost function Spread(erased: seq<nat>, x: Vector, d: nat): (z: Vector)
    requires |x| == |erased| && forall i :: 0 <= i < |erased| ==> erased[i] < d
    ensures |z| == d
  {
    var m := |erased|;
    if m == 0 then Zeros(d)
    else Spread(erased[..m - 1], x[..m - 1], d)[erased[m - 1] := x[m - 1]]
  }

  lemma {:induction false} SpreadAt(erased: seq<nat>, x: Vector, d: nat, c: nat)
    requires |x| == |erased| && Ascending(erased) && c < d && forall i :: 0 <= i < |erased| ==> erased[i] < d
    ensures c !in erased ==> Spread(erased, x, d)[c] == 0
    ensures c in erased ==> Spread(erased, x, d)[c] == x[Position(erased, c)]
  {
    var m := |erased|;
    if m > 0 {
      var head, xs := erased[..m - 1], x[..m - 1];
      SpreadAt(head, xs, d, c);
      if c == erased[m - 1] {
        PositionUnique(erased, m - 1);
      } else if c in erased {
        var i := Position(erased, c);
        assert head[i] == c;
        PositionUnique(head, i);
      } else {
        assert c !in head;
      }
    }
  }

  /** A dot product with a sparse vector gathers the coefficients at its support. */
  lemma {:induction false} DotSpread(ai: byte, erased: seq<nat>, x: Vector, d: nat)
    requires |x| == |erased| && Ascending(erased) && d <= 128 && forall i :: 0 <= i < |erased| ==> erased[i] < d
    ensures Dot(Row(ai, FirstCols(d)), Spread(erased, x, d)) == Dot(Row(ai, ColLabels(erased)), x)
  {
    hide Add, Mul, Inv, Byte, Dot;
    var r := Row(ai, FirstCols(d));
    var m := |erased|;
    if m == 0 {
      DotZeros(r, Zeros(d));
      DotEmpty(Row(ai, ColLabels(erased)), x);
    } else {
      var head, xs, e, w := erased[..m - 1], x[..m - 1], erased[m - 1], x[m - 1];
      DotSpread(ai, head, xs, d);
      var s := Spread(head, xs, d);
      assert e !in head;
      SpreadAt(head, xs, d, e);
      DotUpdate(r, s, e, r[e], w);
      DotSplit(r, s, e);
      assert r[e := r[e]] == r;
      MulZero(r[e]);
      AddZero(Dot(r[e := 0], s));
      var g := Row(ai, ColLabels(head));
      assert Row(ai, ColLabels(erased)) == g + [r[e]];
      assert x == xs + [w];
      DotAppend(g, xs, r[e], w);
      AddCommutes(Mul(r[e], w), Dot(r, s));
    }
  }

  lemma DotEmpty(r: Vector, x: Vector)
    requires |r| == |x| == 0
    ensures Dot(r, x) == 0
  {
  }

  /** Splitting a parity byte into known and erased contributions. */
  lemma ParitySplits(data: Blocks, erased: seq<nat>, n: nat, r: nat, t: nat, x: Vector)
    requires |data| <= 128 && Sized(data, n) && t < n && r < 128 && |x| == |erased|
    requires Ascending(erased) && forall i :: 0 <= i < |erased| ==> erased[i] < |data|
    requires forall i :: 0 <= i < |erased| ==> x[i] == data[erased[i]][t]
    ensures ParityByte(data, r, t) ==
            Add(ParityByte(Known(data, erased, n), r, t), Dot(Row(RowLabel(r), ColLabels(erased)), x))
  {
    hide Add, Mul, Inv, Byte, Dot, RowLabel;
    var d := |data|;
    var row := Row(RowLabel(r), FirstCols(d));
    var k, s := Slice(Known(data, erased, n), t), Spread(erased, x, d);
    forall c | 0 <= c < d
      ensures Plus(k, s)[c] == Slice(data, t)[c]
    {
      SpreadAt(erased, x, d, c);
      AddZero(data[c][t]);
    }
    assert Plus(k, s) == Slice(data, t);
    DotCommutes(row, Plus(k, s));
    DotPlus(k, s, row);
    DotCommutes(k, row);
    DotCommutes(s, row);
    DotSpread(RowLabel(r), erased, x, d);
  }

  /** x solves the decoder's system at offset t exactly when blocks carrying x satisfy the parity equations. */
  lemma SolvesIffParity(data: Blocks, fec: Blocks, rows: seq<nat>, erased: seq<nat>, n: nat, t: nat, full: Blocks, x: Vector)
    requires RepairPlan(|data|, rows, erased) && |fec| == |rows| && Sized(data, n) && Sized(fec, n) && t < n
    requires |full| == |data| && Sized(full, n) && |x| == |erased|
    requires forall c :: 0 <= c < |data| && c !in erased ==> full[c] == data[c]
    requires forall i :: 0 <= i < |erased| ==> x[i] == full[erased[i]][t]
    ensures Solves(RowLabels(rows), ColLabels(erased), x, Slice(Syndromes(data, fec, rows, erased, n), t)) <==>
            forall j :: 0 <= j < |rows| ==> ParityByte(full, rows[j], t) == fec[j][t]
  {
    hide Add, Mul, Inv, Byte, Dot, RowLabel, ParityByte;
    var known := Known(data, erased, n);
    assert Known(full, erased, n) == known;
    forall j | 0 <= j < |rows|
      ensures Dot(Row(RowLabels(rows)[j], ColLabels(erased)), x) == Slice(Syndromes(data, fec, rows, erased, n), t)[j] <==>
              ParityByte(full, rows[j], t) == fec[j][t]
    {
      ParitySplits(full, erased, n, rows[j], t, x);
      SyndromeByte(data, fec[j], rows[j], erased, t);
      MoveTerm(ParityByte(known, rows[j], t), Dot(Row(RowLabel(rows[j]), ColLabels(erased)), x), fec[j][t]);
    }
  }

  lemma SyndromeByte(data: Blocks, p: seq<byte>, r: nat, erased: seq<nat>, t: nat)
    requires r < 128 && |data| <= 128 && Sized(data, |p|) && t < |p|
    ensures Syndrome(data, p, r, erased)[t] == Add(p[t], ParityByte(Known(data, erased, |p|), r, t))
  {
  }

  lemma MoveTerm(k: byte, d: byte, f: byte)
    ensures d == Add(f, k) <==> Add(k, d) == f
  {
    hide Add;
    AddCommutes(k, d);
    AddCommutes(f, k);
    AddCancels(d, k);
    AddCancels(f, k);
  }

  /** The repaired blocks satisfy every parity equation used. */
  lemma RepairedParity(data: Blocks, fec: Blocks, rows: seq<nat>, erased: seq<nat>, n: nat, j: nat)
    requires RepairPlan(|data|, rows, erased) && |fec| == |rows| && Sized(data, n) && Sized(fec, n) && j < |rows|
    ensures Parity(Repaired(data, fec, rows, erased, n), rows[j], n) == fec[j]
  {
    hide Add, Mul, Inv, Byte, Dot, RowLabel, ParityByte, Solution;
    var full := Repaired(data, fec, rows, erased, n);
    forall t | 0 <= t < n
      ensures ParityByte(full, rows[j], t) == fec[j][t]
    {
      var x := MissingBytes(data, fec, rows, erased, n, t);
      forall i | 0 <= i < |erased|
        ensures x[i] == full[erased[i]][t]
      {
        PositionUnique(erased, i);
      }
      PlanLabels(|data|, rows, erased);
      SolutionSolves(RowLabels(rows), ColLabels(erased), Slice(Syndromes(data, fec, rows, erased, n), t));
      SolvesIffParity(data, fec, rows, erased, n, t, full, x);
    }
  }

  /** Blocks that agree outside the erasures and satisfy the parity equations are the repaired ones. */
  lemma RepairUnique(data: Blocks, fec: Blocks, rows: seq<nat>, erased: seq<nat>, n: nat, full: Blocks)
    requires RepairPlan(|data|, rows, erased) && |fec| == |rows| && Sized(data, n) && Sized(fec, n)
    requires |full| == |data| && Sized(full, n)
    requires forall c :: 0 <= c < |data| && c !in erased ==> full[c] == data[c]
    requires forall j :: 0 <= j < |rows| ==> Parity(full, rows[j], n) == fec[j]
    ensures full == Repaired(data, fec, rows, erased, n)
  {
    hide Add, Mul, Inv, Byte, Dot, RowLabel, ParityByte, Solution;
    var r := Repaired(data, fec, rows, erased, n);
    PlanLabels(|data|, rows, erased);
    forall t | 0 <= t < n
      ensures forall i :: 0 <= i < |erased| ==> full[erased[i]][t] == MissingBytes(data, fec, rows, erased, n, t)[i]
    {
      var x := seq(|erased|, i requires 0 <= i < |erased| => full[erased[i]][t]);
      var y := Slice(Syndromes(data, fec, rows, erased, n), t);
      SolvesIffParity(data, fec, rows, erased, n, t, full, x);
      SolutionSolves(RowLabels(rows), ColLabels(erased), y);
      SolutionUnique(RowLabels(rows), ColLabels(erased), x, MissingBytes(data, fec, rows, erased, n, t), y);
    }
    forall c | 0 <= c < |data|
      ensures full[c] == r[c]
    {
      if c in erased {
        var i := Position(erased, c);
        forall t | 0 <= t < n
          ensures full[c][t] == r[c][t]
        {
          assert full[erased[i]][t] == MissingBytes(data, fec, rows, erased, n, t)[i];
        }
      }
    }
  }

  /** Erasure recovery: encode, lose any blocks, repair from as many parity blocks: the
      original comes back whatever the erased blocks held meanwhile. */
  lemma RepairRecovers(original: Blocks, stale: Blocks, fec: Blocks, rows: seq<nat>, erased: seq<nat>, n: nat)
    requires RepairPlan(|original|, rows, erased) && Sized(original, n) && |fec| == |rows| && Sized(fec, n)
    requires |stale| == |original| && Sized(stale, n)
    requires forall c :: 0 <= c < |original| && c !in erased ==> stale[c] == original[c]
    requires forall j :: 0 <= j < |rows| ==> fec[j] == Parity(original, rows[j], n)
    ensures Repaired(stale, fec, rows, erased, n) == original
  {
    RepairUnique(stale, fec, rows, erased, n, original);
  }
}
