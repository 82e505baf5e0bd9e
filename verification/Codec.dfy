/** fec_encode and fec_decode of fec.c, on packet buffers in memory. */
module Codec {
  import opened Memory
  import opened Gf256
  import opened Bytes
  import opened Powers
  import opened Tables
  import opened Context
  import opened LinAlg
  import opened Kernels
  import opened Invert
  import opened Code

  /** The library state after fec_init. */
  datatype Library = Library(tables: FecTables, ctx: GfContext, cpu: Cpu)
  {
    ghost predicate Valid()
    {
      tables.Valid() && ctx.Valid()
    }
  }

  method InitLibrary(cpu: Cpu) returns (lib: Library)
    ensures lib.Valid()
  {
    hide *;
    var ctx := GfInit();
    var t := FecInit();
    lib := Library(t, ctx, cpu);
    LibraryValid(lib);
  }

  lemma LibraryValid(lib: Library)
    ensures lib.tables.Valid() && lib.ctx.Valid() <==> lib.Valid()
  {
  }

  // ---------- buffers ----------

  /** Distinct buffers of at least n bytes each. */
  ghost predicate Buffers(bs: seq<array<byte>>, n: nat)
  {
    && (forall i :: 0 <= i < |bs| ==> n <= bs[i].Length)
    && forall i, j :: 0 <= i < j < |bs| ==> bs[i] != bs[j]
  }

  ghost predicate Separate(a: seq<array<byte>>, b: seq<array<byte>>)
  {
    forall i, j :: 0 <= i < |a| && 0 <= j < |b| ==> a[i] != b[j]
  }

  /** The first n bytes of every buffer. */
  ghost function View(bs: seq<array<byte>>, n: nat): (v: Blocks)
    requires Buffers(bs, n)
    reads bs
    ensures |v| == |bs| && Sized(v, n) && forall i :: 0 <= i < |bs| ==> v[i] == bs[i][..n]
  {
    seq(|bs|, i requires 0 <= i < |bs| reads bs => bs[i][..n])
  }

  /** What lies behind the first n bytes. */
  ghost function Tails(bs: seq<array<byte>>, n: nat): (v: Blocks)
    requires Buffers(bs, n)
    reads bs
    ensures |v| == |bs| && forall i :: 0 <= i < |bs| ==> v[i] == bs[i][n..]
  {
    seq(|bs|, i requires 0 <= i < |bs| reads bs => bs[i][n..])
  }

  /** dst := c * src on the first n bytes. */
  method MulBlock(lib: Library, bs: seq<array<byte>>, i: nat, src: array<byte>, c: byte, n: nat)
    requires lib.Valid() && Buffers(bs, n) && i < |bs| && n <= src.Length && src !in bs
    modifies bs[i]
    ensures View(bs, n) == old(View(bs, n))[i := Scale(c, old(src[..n]))]
    ensures Tails(bs, n) == old(Tails(bs, n))
  {
    hide Patch, Scale, Library.Valid, GfContext.Valid, FecTables.Valid;
    LibraryValid(lib);
    ghost var s0, x := bs[i][..], src[0..0 + n];
    assert x == src[..n];
    MulMem(lib.ctx, lib.cpu, bs[i], 0, src, 0, c, n);
    Patched(s0, 0, Scale(c, x));
    assert bs[i][..n] == bs[i][..][..n] && bs[i][n..] == bs[i][..][n..];
    assert s0[n..] == old(bs[i][n..]);
  }

  /** dst += c * src on the first n bytes. */
  method MulAddBlock(lib: Library, bs: seq<array<byte>>, i: nat, c: byte, src: array<byte>, n: nat)
    requires lib.Valid() && Buffers(bs, n) && i < |bs| && n <= src.Length && src !in bs
    modifies bs[i]
    ensures View(bs, n) == old(View(bs, n))[i := Plus(old(View(bs, n))[i], Scale(c, old(src[..n])))]
    ensures Tails(bs, n) == old(Tails(bs, n))
  {
    hide Patch, Scale, Plus, Library.Valid, GfContext.Valid, FecTables.Valid;
    LibraryValid(lib);
    ghost var s0, z, x := bs[i][..], bs[i][0..0 + n], src[0..0 + n];
    assert x == src[..n] && z == bs[i][..n];
    MulAddMem(lib.ctx, lib.cpu, bs[i], 0, c, src, 0, n);
    Patched(s0, 0, MulAdd(z, c, x));
    assert bs[i][..n] == bs[i][..][..n] && bs[i][n..] == bs[i][..][n..];
    assert s0[n..] == old(bs[i][n..]);
  }

  // ---------- coefficients ----------

  lemma HighLabel(n: nat)
    requires n < 128
    ensures Byte(128 + n) == Add(Byte(n), 0x80) && Byte(128) == 0x80
  {
    NumByte(n);
    NumByte(128 + n);
    NumByte(128);
    hide Byte, Add;
    NumSetTop(Byte(n));
    NumInjective(Byte(128 + n), Add(Byte(n), 0x80));
    NumInjective(Byte(128), 0x80);
  }

  lemma NumSetTop(b: byte)
    requires Num(b) < 128
    ensures Num(Add(b, 0x80)) == Num(b) + 128
  {
  }

  /** The ways the source writes the index of a coefficient: row ^ (128 + col),
      row ^ col ^ 128 and (128 + row) ^ col. */
  lemma CoefIndex(r: nat, c: nat)
    requires r < 128 && c < 128
    ensures Add(Byte(r), Byte(128 + c)) == Add(RowLabel(r), Byte(c))
    ensures Add(Add(Byte(r), Byte(c)), 0x80) == Add(RowLabel(r), Byte(c))
    ensures Add(Byte(128 + r), Byte(c)) == Add(RowLabel(r), Byte(c))
  {
    hide Byte, Add;
    HighLabel(r);
    HighLabel(c);
    var a, b := Byte(r), Byte(c);
    AddAssociates(a, b, 0x80);
    AddCommutes(b, 0x80);
    AddAssociates(a, 0x80, b);
  }

  /** inverse[index], the coefficient of parity row r and data column c. */
  method CoefAt(lib: Library, index: byte, ghost r: nat, ghost c: nat) returns (v: byte)
    requires lib.Valid() && r < 128 && c < 128 && index == Add(RowLabel(r), Byte(c))
    ensures v == Coef(r, c)
  {
    hide Inv, Add, RowLabel, Byte, GfContext.Valid, FecTables.Valid;
    v := GfInverse(lib.tables, index);
  }

  // ---------- fec_encode ----------

  /** Parity over the first m data blocks. */
  ghost function Partial(data: Blocks, m: nat, r: nat, n: nat): (p: seq<byte>)
    requires m <= |data| <= 128 && r < 128 && Sized(data, n)
    ensures |p| == n
  {
    Parity(data[..m], r, n)
  }

  lemma PartialStep(data: Blocks, m: nat, r: nat, n: nat)
    requires m < |data| <= 128 && r < 128 && Sized(data, n)
    ensures Partial(data, m + 1, r, n) == Plus(Partial(data, m, r, n), Scale(Coef(r, m), data[m]))
    ensures m == 0 ==> Partial(data, 1, r, n) == Scale(Coef(r, 0), data[0])
  {
    hide Parity, Coef;
    assert data[..m + 1] == data[..m] + [data[m]];
    ParityExtends(data[..m], r, n, data[m]);
    if m == 0 {
      ParityEmpty(r, n);
      assert data[..0] == [];
      PlusZeros(Scale(Coef(r, 0), data[0]));
    }
  }

  lemma PlusZeros(x: Vector)
    ensures Plus(Zeros(|x|), x) == x && Plus(x, Zeros(|x|)) == x
  {
    hide Add;
    forall i | 0 <= i < |x|
      ensures Add(0, x[i]) == x[i] && Add(x[i], 0) == x[i]
    {
      AddZero(x[i]);
    }
  }

  lemma PartialAll(data: Blocks, r: nat, n: nat)
    requires |data| <= 128 && r < 128 && Sized(data, n)
    ensures Partial(data, |data|, r, n) == Parity(data, r, n)
  {
    assert data[..|data|] == data;
  }

  method FecEncode(lib: Library, n: nat, data: seq<array<byte>>, fec: seq<array<byte>>)
    requires lib.Valid() && |data| <= 128 && |fec| <= 128
    requires Buffers(data, n) && Buffers(fec, n) && Separate(data, fec)
    modifies fec
    ensures View(data, n) == old(View(data, n)) && Tails(fec, n) == old(Tails(fec, n))
    ensures |data| > 0 ==> forall r :: 0 <= r < |fec| ==> View(fec, n)[r] == Parity(old(View(data, n)), r, n)
    ensures |data| == 0 ==> View(fec, n) == old(View(fec, n))
  {
    hide Partial, Parity, Coef, Scale, Plus, Library.Valid, Byte, RowLabel, Add, Buffers, Separate, View, Tails, Sized;
    ghost var d0 := View(data, n);
    if |data| == 0 {
      return;
    }
    EncodeFirst(lib, n, data, fec, d0);
    var blockNo := 1;
    var col := 129;
    while blockNo < |data|
      invariant 1 <= blockNo <= |data| && col == 128 + blockNo
      invariant View(data, n) == d0 && Tails(fec, n) == old(Tails(fec, n))
      invariant forall r :: 0 <= r < |fec| ==> View(fec, n)[r] == Partial(d0, blockNo, r, n)
    {
      EncodeColumn(lib, n, data, fec, blockNo, col, d0);
      col := col + 1;
      blockNo := blockNo + 1;
    }
    forall r | 0 <= r < |fec|
      ensures View(fec, n)[r] == Parity(d0, r, n)
    {
      PartialAll(d0, r, n);
    }
  }

  lemma FirstIndex(r: nat)
    requires r < 128
    ensures Add(Byte(128), Byte(r)) == Add(RowLabel(r), Byte(0))
  {
    hide Byte, Add;
    CoefIndex(r, 0);
    AddCommutes(Byte(128), Byte(r));
  }

  method EncodeFirst(lib: Library, n: nat, data: seq<array<byte>>, fec: seq<array<byte>>, ghost d0: Blocks)
    requires lib.Valid() && 0 < |data| <= 128 && |fec| <= 128
    requires Buffers(data, n) && Buffers(fec, n) && Separate(data, fec) && View(data, n) == d0
    modifies fec
    ensures View(data, n) == d0 && Tails(fec, n) == old(Tails(fec, n))
    ensures forall r :: 0 <= r < |fec| ==> View(fec, n)[r] == Partial(d0, 1, r, n)
  {
    hide Partial, Parity, Coef, Scale, Plus, Library.Valid, Byte, RowLabel, Add;
    var row := 0;
    while row < |fec|
      invariant 0 <= row <= |fec|
      invariant View(data, n) == d0 && Tails(fec, n) == old(Tails(fec, n))
      invariant forall r :: 0 <= r < row ==> View(fec, n)[r] == Partial(d0, 1, r, n)
    {
      FirstIndex(row);
      var c := CoefAt(lib, Add(Byte(128), Byte(row)), row, 0);
      PartialStep(d0, 0, row, n);
      assert data[0][..n] == d0[0];
      MulBlock(lib, fec, row, data[0], c, n);
      assert View(data, n) == d0;
      row := row + 1;
    }
  }

  method EncodeColumn(lib: Library, n: nat, data: seq<array<byte>>, fec: seq<array<byte>>, blockNo: nat, col: nat,
                      ghost d0: Blocks)
    requires lib.Valid() && |data| <= 128 && |fec| <= 128 && blockNo < |data| && col == 128 + blockNo
    requires Buffers(data, n) && Buffers(fec, n) && Separate(data, fec) && View(data, n) == d0
    requires forall r :: 0 <= r < |fec| ==> View(fec, n)[r] == Partial(d0, blockNo, r, n)
    modifies fec
    ensures View(data, n) == d0 && Tails(fec, n) == old(Tails(fec, n))
    ensures forall r :: 0 <= r < |fec| ==> View(fec, n)[r] == Partial(d0, blockNo + 1, r, n)
  {
    hide Partial, Parity, Coef, Scale, Plus, Library.Valid, Byte, RowLabel, Add;
    var row := 0;
    while row < |fec|
      invariant 0 <= row <= |fec|
      invariant View(data, n) == d0 && Tails(fec, n) == old(Tails(fec, n))
      invariant forall r :: 0 <= r < |fec| ==>
        View(fec, n)[r] == Partial(d0, if r < row then blockNo + 1 else blockNo, r, n)
    {
      CoefIndex(row, blockNo);
      var c := CoefAt(lib, Add(Byte(row), Byte(col)), row, blockNo);
      PartialStep(d0, blockNo, row, n);
      assert data[blockNo][..n] == d0[blockNo];
      MulAddBlock(lib, fec, row, c, data[blockNo], n);
      assert View(data, n) == d0;
      row := row + 1;
    }
  }

  /** The coefficient of data block c in parity block r is the inverse of 128 ^ r ^ c, and nothing else. */
  lemma CoefInverts(r: nat, c: nat, x: byte)
    requires r < 128 && c < 128
    ensures Mul(x, Add(Add(Byte(r), Byte(c)), 0x80)) == 1 <==> x == Coef(r, c)
  {
    hide Mul, Inv, Add, Byte;
    CoefIndex(r, c);
    var d := Add(RowLabel(r), Byte(c));
    LabelsDiffer(r, c);
    MulInv(d);
    MulCommutes(d, Inv(d));
    MulCommutes(x, d);
    if Mul(x, d) == 1 {
      InvUnique(d, x);
    }
  }

  lemma LabelsDiffer(r: nat, c: nat)
    requires r < 128 && c < 128
    ensures Add(RowLabel(r), Byte(c)) != 0
  {
    hide Byte, Add;
    ByteInjective(128 + r, c);
    AddIsZero(RowLabel(r), Byte(c));
  }

  lemma AddIsZero(a: byte, b: byte)
    ensures Add(a, b) == 0 <==> a == b
  {
  }
}
