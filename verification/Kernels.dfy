/** The bulk routines of gf256.cpp, and the scalar ones kept in fec_old.c.
    A place in memory is an array with an offset. */
module Kernels {
  import opened Memory
  import opened Gf256
  import opened Bytes
  import opened Powers
  import opened Tables
  import opened Context
  import opened LinAlg
  import opened Lanes

  /** Which instruction sets the running processor offers. */
  datatype Cpu = Cpu(avx2: bool, ssse3: bool)

  /** The first done bytes of the target have been written at off. */
  ghost predicate Progress(z: seq<byte>, z0: seq<byte>, off: nat, target: seq<byte>, done: nat)
  {
    done <= |target| && off + |target| <= |z0| && z == Patch(z0, off, target[..done])
  }

  lemma ProgressStep(z: seq<byte>, z': seq<byte>, z0: seq<byte>, off: nat, target: seq<byte>, done: nat, w: nat)
    requires Progress(z, z0, off, target, done) && done + w <= |target|
    requires z' == Patch(z, off + done, target[done..done + w])
    ensures Progress(z', z0, off, target, done + w)
  {
    PatchTwice(z0, off, target[..done], target[done..done + w]);
    assert target[..done] + target[done..done + w] == target[..done + w];
  }

  /** What has not been written yet is still the old content. */
  lemma ProgressAhead(z: seq<byte>, z0: seq<byte>, off: nat, target: seq<byte>, done: nat, w: nat)
    requires Progress(z, z0, off, target, done) && done + w <= |target|
    ensures z[off + done..off + done + w] == z0[off + done..off + done + w]
  {
  }

  ghost predicate Disjoint(z: array<byte>, zo: nat, x: array<byte>, xo: nat, n: nat)
  {
    z != x || zo + n <= xo || xo + n <= zo
  }

  /** A bulk routine under way: done bytes of the target are stored, the source bytes xs
      are still in place. */
  ghost predicate Running(z: array<byte>, zo: nat, x: array<byte>, xo: nat, z0: seq<byte>, xs: seq<byte>,
                          target: seq<byte>, done: nat)
    reads z, x
  {
    && |target| == |xs| && xo + |xs| <= x.Length && Disjoint(z, zo, x, xo, |xs|)
    && x[xo..xo + |xs|] == xs
    && Progress(z[..], z0, zo, target, done)
  }

  lemma StartRunning(z: array<byte>, zo: nat, x: array<byte>, xo: nat, target: seq<byte>)
    requires zo + |target| <= z.Length && xo + |target| <= x.Length && Disjoint(z, zo, x, xo, |target|)
    ensures Running(z, zo, x, xo, z[..], x[xo..xo + |target|], target, 0)
  {
  }

  lemma EndRunning(z: array<byte>, zo: nat, x: array<byte>, xo: nat, z0: seq<byte>, xs: seq<byte>, target: seq<byte>)
    requires Running(z, zo, x, xo, z0, xs, target, |target|)
    ensures zo + |target| <= |z0| && z[..] == Patch(z0, zo, target)
  {
    assert target[..|target|] == target;
  }

  /** Store the next bytes of the target; the source range is not touched. */
  method StoreNext(z: array<byte>, zo: nat, x: array<byte>, xo: nat, done: nat, lane: seq<byte>,
                   ghost z0: seq<byte>, ghost xs: seq<byte>, ghost target: seq<byte>)
    requires Running(z, zo, x, xo, z0, xs, target, done) && done + |lane| <= |target|
    requires lane == target[done..done + |lane|]
    modifies z
    ensures Running(z, zo, x, xo, z0, xs, target, done + |lane|)
  {
    hide Patch;
    Copy(z, zo + done, lane);
    ProgressStep(old(z[..]), z[..], z0, zo, target, done, |lane|);
    assert x[xo..xo + |xs|] == old(x[xo..xo + |xs|]);
  }

  lemma SliceOfSlice<T>(s: seq<T>, off: nat, n: nat, i: nat, w: nat)
    requires off + n <= |s| && i + w <= n
    ensures s[off..off + n][i..i + w] == s[off + i..off + i + w]
  {
    var part := s[off..off + n];
    var l, r := part[i..i + w], s[off + i..off + i + w];
    forall k | 0 <= k < w
      ensures l[k] == r[k]
    {
      assert part[i + k] == s[off + i + k];
    }
  }

  /** Load the next w source bytes. */
  method Load(z: array<byte>, zo: nat, x: array<byte>, xo: nat, done: nat, w: nat,
              ghost z0: seq<byte>, ghost xs: seq<byte>, ghost target: seq<byte>) returns (lane: seq<byte>)
    requires Running(z, zo, x, xo, z0, xs, target, done) && done + w <= |target|
    ensures |target| == |xs| && lane == xs[done..done + w]
  {
    lane := x[..][xo + done..xo + done + w];
    SliceOfSlice(x[..], xo, |xs|, done, w);
    assert x[xo..xo + |xs|] == x[..][xo..xo + |xs|];
  }

  /** Load the bytes of the destination about to be overwritten. */
  method LoadOld(z: array<byte>, zo: nat, x: array<byte>, xo: nat, done: nat, w: nat,
                 ghost z0: seq<byte>, ghost xs: seq<byte>, ghost target: seq<byte>) returns (lane: seq<byte>)
    requires Running(z, zo, x, xo, z0, xs, target, done) && done + w <= |target|
    ensures zo + |target| <= |z0| && lane == z0[zo..zo + |target|][done..done + w]
  {
    lane := z[..][zo + done..zo + done + w];
    ProgressAhead(z[..], z0, zo, target, done, w);
    SliceOfSlice(z0, zo, |target|, done, w);
  }

  // ---------- z[] = x[] * y ----------

  /** Byte products by table lookup. */
  function LookUp(table: seq<byte>, y: byte, x: seq<byte>): (r: seq<byte>)
    requires |table| == 0x10000
    ensures |r| == |x| && forall i :: 0 <= i < |x| ==> r[i] == table[Cell(Num(y), Num(x[i]))]
  {
    seq(|x|, i requires 0 <= i < |x| => table[Cell(Num(y), Num(x[i]))])
  }

  lemma LookUpIsScale(mul: seq<byte>, div: seq<byte>, y: byte, x: seq<byte>)
    requires QuotientTables(mul, div)
    ensures LookUp(mul, y, x) == Scale(y, x)
  {
    hide Mul, Add, Inv;
    forall i | 0 <= i < |x|
      ensures LookUp(mul, y, x)[i] == Mul(y, x[i])
    {
      MulCommutes(x[i], y);
      assert mul[Cell(Num(y), Num(x[i]))] == Mul(x[i], y);
    }
  }

  lemma ScaleSlice(y: byte, x: seq<byte>, i: nat, j: nat)
    requires i <= j <= |x|
    ensures Scale(y, x)[i..j] == Scale(y, x[i..j])
  {
    hide Mul;
  }

  lemma ScaleByZero(x: seq<byte>)
    ensures Scale(0, x) == Zeros(|x|) == seq(|x|, _ => 0)
  {
    hide Mul;
    forall i | 0 <= i < |x|
      ensures Mul(0, x[i]) == 0
    {
      MulZero(x[i]);
    }
  }

  lemma ScaleByOne(x: seq<byte>)
    ensures Scale(1, x) == x
  {
    hide Mul;
    forall i | 0 <= i < |x|
      ensures Mul(1, x[i]) == x[i]
    {
      MulOne(x[i]);
    }
  }

  /** The products of one register or word of source bytes. The width picks the code path. */
  method Multiply(ctx: GfContext, y: byte, x: seq<byte>) returns (p: seq<byte>)
    requires ctx.Valid()
    ensures p == Scale(y, x)
  {
    hide Mul, QuotientTables, InverseTable, Product128, Product256, Scale;
    if |x| == 32 || |x| == 16 {
      var lo, hi := ctx.lo[Num(y)], ctx.hi[Num(y)];
      assert NibbleLanes(lo, hi, y);
      if |x| == 32 {
        Product256IsScale(lo, hi, x, y);
        p := Product256(lo, hi, x);
      } else {
        Product128IsScale(lo, hi, x, y);
        p := Product128(lo, hi, x);
      }
    } else {
      TableSizes(ctx.mul, ctx.div);
      LookUpIsScale(ctx.mul, ctx.div, y, x);
      p := LookUp(ctx.mul, y, x);
    }
  }

  method MulMem(ctx: GfContext, cpu: Cpu, z: array<byte>, zo: nat, x: array<byte>, xo: nat, y: byte, n: nat)
    requires ctx.Valid() && zo + n <= z.Length && xo + n <= x.Length && Disjoint(z, zo, x, xo, n)
    modifies z
    ensures z[..] == Patch(old(z[..]), zo, Scale(y, old(x[xo..xo + n])))
  {
    hide *;
    ghost var z0, xs := z[..], x[xo..xo + n];
    if y <= 1 {
      ScaleByZero(xs);
      ScaleByOne(xs);
      Copy(z, zo, if y == 0 then seq(n, _ => 0) else x[xo..xo + n]);
      return;
    }
    ghost var target := Scale(y, xs);
    StartRunning(z, zo, x, xo, target);
    var done := 0;
    if n >= 32 && cpu.avx2 {
      while n - done >= 32
        invariant done <= n && Running(z, zo, x, xo, z0, xs, target, done)
      {
        done := MulNext(ctx, z, zo, x, xo, y, done, 32, z0, xs);
      }
    }
    if n - done >= 16 && cpu.ssse3 {
      while n - done >= 16
        invariant done <= n && Running(z, zo, x, xo, z0, xs, target, done)
      {
        done := MulNext(ctx, z, zo, x, xo, y, done, 16, z0, xs);
      }
    }
    while n - done >= 8
      invariant done <= n && Running(z, zo, x, xo, z0, xs, target, done)
    {
      done := MulNext(ctx, z, zo, x, xo, y, done, 8, z0, xs);
    }
    if n - done >= 4 {
      done := MulNext(ctx, z, zo, x, xo, y, done, 4, z0, xs);
    }
    done := MulNext(ctx, z, zo, x, xo, y, done, n - done, z0, xs);
    EndRunning(z, zo, x, xo, z0, xs, target);
  }

  /** One step of MulMem: w bytes through a register, a word or byte by byte. */
  method MulNext(ctx: GfContext, z: array<byte>, zo: nat, x: array<byte>, xo: nat, y: byte, done: nat, w: nat,
                 ghost z0: seq<byte>, ghost xs: seq<byte>) returns (done': nat)
    requires ctx.Valid() && done + w <= |xs| && Running(z, zo, x, xo, z0, xs, Scale(y, xs), done)
    modifies z
    ensures done' == done + w && Running(z, zo, x, xo, z0, xs, Scale(y, xs), done')
  {
    hide *;
    ghost var target := Scale(y, xs);
    ScaleSlice(y, xs, done, done + w);
    var x0 := Load(z, zo, x, xo, done, w, z0, xs, target);
    var p := Multiply(ctx, y, x0);
    if w == 8 {
      UnpackPack64(p);
      p := Unpack64(Pack64(p));
    } else if w == 4 {
      UnpackPack32(p);
      p := Unpack32(Pack32(p));
    }
    StoreNext(z, zo, x, xo, done, p, z0, xs, target);
    done' := done + w;
  }

  // ---------- z[] += x[] * y ----------

  lemma PlusSlice(a: seq<byte>, b: seq<byte>, i: nat, j: nat)
    requires |a| == |b| && i <= j <= |a|
    ensures Plus(a, b)[i..j] == Plus(a[i..j], b[i..j])
  {
    hide Add;
  }

  lemma XorLanesIsPlus(p: seq<byte>, q: seq<byte>)
    requires |p| == |q|
    ensures XorLanes(p, q) == Plus(q, p)
  {
    hide Add;
    forall i | 0 <= i < |p|
      ensures XorLanes(p, q)[i] == Plus(q, p)[i]
    {
      AddCommutes(p[i], q[i]);
    }
  }

  /** Add p to q the way a register, a word or a byte loop does. */
  method Accumulate(q: seq<byte>, p: seq<byte>) returns (r: seq<byte>)
    requires |p| == |q|
    ensures r == Plus(q, p)
  {
    hide Add;
    XorLanesIsPlus(p, q);
    r := XorLanes(p, q);
    if |p| == 8 {
      UnpackXor64(q, p);
      XorLanesIsPlus(q, p);
      PlusCommutes(q, p);
      r := Unpack64(Pack64(q) ^ Pack64(p));
    } else if |p| == 4 {
      UnpackXor32(q, p);
      XorLanesIsPlus(q, p);
      PlusCommutes(q, p);
      r := Unpack32(Pack32(q) ^ Pack32(p));
    }
  }

  lemma PlusCommutes(p: seq<byte>, q: seq<byte>)
    requires |p| == |q|
    ensures Plus(p, q) == Plus(q, p)
  {
    hide Add;
    forall i | 0 <= i < |p|
      ensures Plus(p, q)[i] == Plus(q, p)[i]
    {
      AddCommutes(p[i], q[i]);
    }
  }

  /** z + y * x, the meaning of muladd. */
  ghost function MulAdd(zs: seq<byte>, y: byte, xs: seq<byte>): (r: seq<byte>)
    requires |zs| == |xs|
    ensures |r| == |zs|
  {
    Plus(zs, Scale(y, xs))
  }

  lemma MulAddSlice(zs: seq<byte>, y: byte, xs: seq<byte>, i: nat, j: nat)
    requires |zs| == |xs| && i <= j <= |xs|
    ensures MulAdd(zs, y, xs)[i..j] == Plus(zs[i..j], Scale(y, xs[i..j]))
  {
    hide Add, Mul, Plus, Scale;
    ScaleSlice(y, xs, i, j);
    PlusSlice(zs, Scale(y, xs), i, j);
  }

  method MulAddNext(ctx: GfContext, z: array<byte>, zo: nat, x: array<byte>, xo: nat, y: byte, done: nat, w: nat,
                    ghost z0: seq<byte>, ghost zs: seq<byte>, ghost xs: seq<byte>) returns (done': nat)
    requires ctx.Valid() && |zs| == |xs| && zo + |xs| <= |z0| && zs == z0[zo..zo + |xs|] && done + w <= |xs|
    requires Running(z, zo, x, xo, z0, xs, MulAdd(zs, y, xs), done)
    modifies z
    ensures done' == done + w && Running(z, zo, x, xo, z0, xs, MulAdd(zs, y, xs), done')
  {
    hide *;
    ghost var target := MulAdd(zs, y, xs);
    MulAddSlice(zs, y, xs, done, done + w);
    var x0 := Load(z, zo, x, xo, done, w, z0, xs, target);
    var p := Multiply(ctx, y, x0);
    var z1 := LoadOld(z, zo, x, xo, done, w, z0, xs, target);
    assert z1 == zs[done..done + w];
    var r := Accumulate(z1, p);
    StoreNext(z, zo, x, xo, done, r, z0, xs, target);
    done' := done + w;
  }

  method MulAddMem(ctx: GfContext, cpu: Cpu, z: array<byte>, zo: nat, y: byte, x: array<byte>, xo: nat, n: nat)
    requires ctx.Valid() && zo + n <= z.Length && xo + n <= x.Length && Disjoint(z, zo, x, xo, n)
    modifies z
    ensures z[..] == Patch(old(z[..]), zo, MulAdd(old(z[zo..zo + n]), y, old(x[xo..xo + n])))
  {
    hide *;
    ghost var z0, zs, xs := z[..], z[zo..zo + n], x[xo..xo + n];
    if y <= 1 {
      MulAddByBit(zs, y, xs);
      PatchSame(z0, zo, n);
      assert z0[zo..zo + n] == zs;
      if y == 1 {
        AddMem(cpu, z, zo, x, xo, n);
      }
      return;
    }
    ghost var target := MulAdd(zs, y, xs);
    StartRunning(z, zo, x, xo, target);
    var done := 0;
    if n >= 32 && cpu.avx2 {
      var count := n / 64;
      for i := 0 to count
        invariant done == 64 * i && Running(z, zo, x, xo, z0, xs, target, done)
      {
        done := MulAddNext(ctx, z, zo, x, xo, y, done, 32, z0, zs, xs);
        done := MulAddNext(ctx, z, zo, x, xo, y, done, 32, z0, zs, xs);
      }
      if n - done >= 32 {
        done := MulAddNext(ctx, z, zo, x, xo, y, done, 32, z0, zs, xs);
      }
    }
    if n - done >= 16 && cpu.ssse3 {
      while n - done >= 32
        invariant done <= n && Running(z, zo, x, xo, z0, xs, target, done)
      {
        done := MulAddNext(ctx, z, zo, x, xo, y, done, 16, z0, zs, xs);
        done := MulAddNext(ctx, z, zo, x, xo, y, done, 16, z0, zs, xs);
      }
      while n - done >= 16
        invariant done <= n && Running(z, zo, x, xo, z0, xs, target, done)
      {
        done := MulAddNext(ctx, z, zo, x, xo, y, done, 16, z0, zs, xs);
      }
    }
    while n - done >= 8
      invariant done <= n && Running(z, zo, x, xo, z0, xs, target, done)
    {
      done := MulAddNext(ctx, z, zo, x, xo, y, done, 8, z0, zs, xs);
    }
    if n - done >= 4 {
      done := MulAddNext(ctx, z, zo, x, xo, y, done, 4, z0, zs, xs);
    }
    done := MulAddNext(ctx, z, zo, x, xo, y, done, n - done, z0, zs, xs);
    EndRunning(z, zo, x, xo, z0, xs, target);
  }

  lemma MulAddByBit(zs: seq<byte>, y: byte, xs: seq<byte>)
    requires |zs| == |xs| && y <= 1
    ensures y == 0 ==> MulAdd(zs, y, xs) == zs
    ensures y == 1 ==> MulAdd(zs, y, xs) == Plus(zs, xs)
  {
    hide Mul, Add;
    ScaleByZero(xs);
    ScaleByOne(xs);
    if y == 0 {
      forall i | 0 <= i < |zs|
        ensures Plus(zs, Zeros(|xs|))[i] == zs[i]
      {
        AddZero(zs[i]);
      }
    }
  }

  // ---------- x[] += y[] ----------

  method AddNext(z: array<byte>, zo: nat, x: array<byte>, xo: nat, done: nat, w: nat,
                 ghost z0: seq<byte>, ghost zs: seq<byte>, ghost xs: seq<byte>) returns (done': nat)
    requires |zs| == |xs| && zo + |xs| <= |z0| && zs == z0[zo..zo + |xs|] && done + w <= |xs|
    requires Running(z, zo, x, xo, z0, xs, Plus(zs, xs), done)
    modifies z
    ensures done' == done + w && Running(z, zo, x, xo, z0, xs, Plus(zs, xs), done')
  {
    hide *;
    ghost var target := Plus(zs, xs);
    PlusSlice(zs, xs, done, done + w);
    var x0 := Load(z, zo, x, xo, done, w, z0, xs, target);
    var z1 := LoadOld(z, zo, x, xo, done, w, z0, xs, target);
    var r := Accumulate(z1, x0);
    StoreNext(z, zo, x, xo, done, r, z0, xs, target);
    done' := done + w;
  }

  method AddMem(cpu: Cpu, z: array<byte>, zo: nat, x: array<byte>, xo: nat, n: nat)
    requires zo + n <= z.Length && xo + n <= x.Length && Disjoint(z, zo, x, xo, n)
    modifies z
    ensures z[..] == Patch(old(z[..]), zo, Plus(old(z[zo..zo + n]), old(x[xo..xo + n])))
  {
    hide *;
    ghost var z0, zs, xs := z[..], z[zo..zo + n], x[xo..xo + n];
    ghost var target := Plus(zs, xs);
    StartRunning(z, zo, x, xo, target);
    var done := 0;
    var unit := if cpu.avx2 then 32 else 16;
    while n - done >= 4 * unit
      decreases n - done
      invariant done <= n && Running(z, zo, x, xo, z0, xs, target, done)
    {
      done := AddNext(z, zo, x, xo, done, unit, z0, zs, xs);
      done := AddNext(z, zo, x, xo, done, unit, z0, zs, xs);
      done := AddNext(z, zo, x, xo, done, unit, z0, zs, xs);
      done := AddNext(z, zo, x, xo, done, unit, z0, zs, xs);
    }
    while cpu.avx2 && n - done >= 32
      invariant done <= n && Running(z, zo, x, xo, z0, xs, target, done)
      decreases n - done
    {
      done := AddNext(z, zo, x, xo, done, 32, z0, zs, xs);
    }
    while n - done >= 16
      invariant done <= n && Running(z, zo, x, xo, z0, xs, target, done)
    {
      done := AddNext(z, zo, x, xo, done, 16, z0, zs, xs);
    }
    if n - done >= 8 {
      done := AddNext(z, zo, x, xo, done, 8, z0, zs, xs);
    }
    if n - done >= 4 {
      done := AddNext(z, zo, x, xo, done, 4, z0, zs, xs);
    }
    done := AddNext(z, zo, x, xo, done, n - done, z0, zs, xs);
    EndRunning(z, zo, x, xo, z0, xs, target);
  }

  // ---------- fec_old.c ----------

  lemma FecLookUpIsScale(t: FecTables, c: byte, x: seq<byte>)
    requires t.Valid()
    ensures |t.mul| == 0x10000 && LookUp(t.mul, c, x) == Scale(c, x)
  {
    hide Mul, Inv;
    forall i | 0 <= i < |x|
      ensures LookUp(t.mul, c, x)[i] == Mul(c, x[i])
    {
      assert t.mul[Cell(Num(c), Num(x[i]))] == Mul(c, x[i]);
    }
  }

  method SlowNext(t: FecTables, z: array<byte>, zo: nat, x: array<byte>, xo: nat, c: byte, done: nat, w: nat,
                  ghost z0: seq<byte>, ghost zs: seq<byte>, ghost xs: seq<byte>) returns (done': nat)
    requires t.Valid() && |zs| == |xs| && zo + |xs| <= |z0| && zs == z0[zo..zo + |xs|] && done + w <= |xs|
    requires Running(z, zo, x, xo, z0, xs, MulAdd(zs, c, xs), done)
    modifies z
    ensures done' == done + w && Running(z, zo, x, xo, z0, xs, MulAdd(zs, c, xs), done')
  {
    hide *;
    ghost var target := MulAdd(zs, c, xs);
    done' := done;
    while done' < done + w
      invariant done <= done' <= done + w && Running(z, zo, x, xo, z0, xs, target, done')
    {
      MulAddSlice(zs, c, xs, done', done' + 1);
      var x0 := Load(z, zo, x, xo, done', 1, z0, xs, target);
      FecLookUpIsScale(t, c, x0);
      var z1 := LoadOld(z, zo, x, xo, done', 1, z0, xs, target);
      assert z1 == zs[done'..done' + 1];
      XorLanesIsPlus(LookUp(t.mul, c, x0), z1);
      StoreNext(z, zo, x, xo, done', XorLanes(LookUp(t.mul, c, x0), z1), z0, xs, target);
      done' := done' + 1;
    }
  }

  /** The unrolled scalar loop has the same meaning as the SIMD routine. */
  method SlowAddMul1(t: FecTables, z: array<byte>, zo: nat, x: array<byte>, xo: nat, c: byte, n: nat)
    requires t.Valid() && zo + n <= z.Length && xo + n <= x.Length && Disjoint(z, zo, x, xo, n)
    modifies z
    ensures z[..] == Patch(old(z[..]), zo, MulAdd(old(z[zo..zo + n]), c, old(x[xo..xo + n])))
  {
    hide *;
    ghost var z0, zs, xs := z[..], z[zo..zo + n], x[xo..xo + n];
    ghost var target := MulAdd(zs, c, xs);
    StartRunning(z, zo, x, xo, target);
    var done := 0;
    while n - done >= 16
      invariant done <= n && Running(z, zo, x, xo, z0, xs, target, done)
    {
      done := SlowNext(t, z, zo, x, xo, c, done, 16, z0, zs, xs);
    }
    while done < n
      invariant done <= n && Running(z, zo, x, xo, z0, xs, target, done)
    {
      done := SlowNext(t, z, zo, x, xo, c, done, 1, z0, zs, xs);
    }
    EndRunning(z, zo, x, xo, z0, xs, target);
  }

  method SlowMulNext(t: FecTables, z: array<byte>, zo: nat, x: array<byte>, xo: nat, c: byte, done: nat, w: nat,
                     ghost z0: seq<byte>, ghost xs: seq<byte>) returns (done': nat)
    requires t.Valid() && done + w <= |xs|
    requires Running(z, zo, x, xo, z0, xs, Scale(c, xs), done)
    modifies z
    ensures done' == done + w && Running(z, zo, x, xo, z0, xs, Scale(c, xs), done')
  {
    hide *;
    ghost var target := Scale(c, xs);
    done' := done;
    while done' < done + w
      invariant done <= done' <= done + w && Running(z, zo, x, xo, z0, xs, target, done')
    {
      ScaleSlice(c, xs, done', done' + 1);
      var x0 := Load(z, zo, x, xo, done', 1, z0, xs, target);
      FecLookUpIsScale(t, c, x0);
      StoreNext(z, zo, x, xo, done', LookUp(t.mul, c, x0), z0, xs, target);
      done' := done' + 1;
    }
  }

  /** The unrolled scalar product has the same meaning as the SIMD routine. */
  method SlowMul1(t: FecTables, z: array<byte>, zo: nat, x: array<byte>, xo: nat, c: byte, n: nat)
    requires t.Valid() && zo + n <= z.Length && xo + n <= x.Length && Disjoint(z, zo, x, xo, n)
    modifies z
    ensures z[..] == Patch(old(z[..]), zo, Scale(c, old(x[xo..xo + n])))
  {
    hide *;
    ghost var z0, xs := z[..], x[xo..xo + n];
    ghost var target := Scale(c, xs);
    StartRunning(z, zo, x, xo, target);
    var done := 0;
    while n - done >= 16
      invariant done <= n && Running(z, zo, x, xo, z0, xs, target, done)
    {
      done := SlowMulNext(t, z, zo, x, xo, c, done, 16, z0, xs);
    }
    while done < n
      invariant done <= n && Running(z, zo, x, xo, z0, xs, target, done)
    {
      done := SlowMulNext(t, z, zo, x, xo, c, done, 1, z0, xs);
    }
    EndRunning(z, zo, x, xo, z0, xs, target);
  }
}
