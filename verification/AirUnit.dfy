/** transmit_block and the packet-filling loop on mutable state, refining Sender.Feed. */
module AirUnits {
  import opened Memory
  import opened Gf256
  import opened Words
  import opened Code
  import opened Codec
  import opened Slots
  import opened Receiver
  import opened Sender

  /** Size of a packet buffer on this side (its MAX_PACKET_LENGTH). */
  const FILL_BUFFER := 2071

  /** Size of a parity buffer (MAX_USER_PACKET_LENGTH). */
  const POOL := 1450

  class AirUnit {
    const cfg: Config
    const lib: Library
    const buffers: seq<array<byte>>
    const pool: seq<array<byte>>
    var lens: seq<nat>
    var seqNr: nat
    var curr: nat
    var sent: seq<VideoPacket>

    ghost predicate Valid()
      reads this
    {
      && cfg.Valid() && lib.Valid()
      && |buffers| == |lens| == cfg.d && |pool| == cfg.f && curr < cfg.d && seqNr < TWO32
      && Buffers(buffers, cfg.packSize) && Buffers(pool, cfg.packSize) && Separate(buffers, pool)
    }

    /** The abstract sender state. */
    ghost function State(): (a: Air)
      requires Valid()
      reads this, buffers
      ensures a.Shaped(cfg)
    {
      hide Library.Valid, Config.Valid, Buffers, Separate, Air.Shaped;
      AirOf(cfg, seqNr, curr, lens, buffers, sent)
    }

    constructor (cfg: Config, lib: Library)
      requires cfg.Valid() && lib.Valid()
      ensures Valid() && Fresh(cfg, State()) && this.cfg == cfg && fresh(buffers) && fresh(pool)
    {
      hide Library.Valid, Fillings;
      this.cfg := cfg;
      this.lib := lib;
      var bs := Allocate(cfg.d, FILL_BUFFER);
      var ps := Allocate(cfg.f, POOL);
      buffers := bs;
      pool := ps;
      lens := seq(cfg.d, _ => 0);
      seqNr, curr := 0, 0;
      sent := [];
    }

    /** Fill the parity buffers; without parity packets nothing is encoded. */
    method Encode()
      requires Valid()
      modifies pool
      ensures State() == old(State())
      ensures Encoded(cfg, buffers, pool)
    {
      hide Library.Valid, Fillings, View, Parity, Config.Valid;
      Limits(cfg);
      ghost var fs := Fillings(lens, buffers);
      if cfg.f > 0 {
        FecEncode(lib, cfg.packSize, buffers, pool);
      }
      assert Fillings(lens, buffers) == fs;
    }

    /** transmit_block: encode, send everything interleaved, reset the lengths. */
    method TransmitBlock()
      requires Valid()
      modifies this, pool
      ensures Valid() && State() == Sender.TransmitBlock(cfg, old(State()))
      ensures curr == old(curr)
    {
      hide Library.Valid, Config.Valid, Fillings, View, BlockPackets, Parity, Sender.Emptied, Buffers, Separate, Wrap32, Contents, Sized, Encoded;
      ghost var a := State();
      ghost var data := Contents(cfg, a.bufs);
      ViewIsContents(cfg, lens, buffers);
      Encode();
      ViewIsContents(cfg, lens, buffers);
      var out := Interleave(cfg, seqNr, buffers, pool);
      sent := sent + out;
      seqNr := Wrap32(seqNr + cfg.N());
      lens := seq(cfg.d, _ => 0);
      assert Fillings(lens, buffers) == Sender.Emptied(a.bufs);
    }

    /** Write into the current packet and set its length. */
    method Put(off: nat, bytes: seq<byte>, len: nat)
      requires Valid() && off + |bytes| <= cfg.packSize
      modifies this`lens, buffers
      ensures Valid() && off + |bytes| <= |old(State()).bufs[curr].data|
      ensures State() == WithPacket(cfg, old(State()), Filling(len, Patch(old(State()).bufs[curr].data, off, bytes)))
    {
      hide Library.Valid, Patch, Fillings;
      ghost var fs := Fillings(lens, buffers);
      var b := buffers[curr];
      Copy(b, off, bytes);
      lens := lens[curr := len];
      assert Fillings(lens, buffers) == fs[curr := Filling(len, b[..])];
    }

    /** One turn of the main loop: the bytes a read delivered into the current packet. */
    method Feed(chunk: seq<byte>)
      requires Valid() && ReadFits(cfg, State(), chunk)
      modifies this, buffers, pool
      ensures Valid() && State() == Sender.Feed(cfg, old(State()), chunk)
    {
      hide Library.Valid, Fillings, Sender.TransmitBlock, Buffers, Separate, Le32, ToLe32, Config.Valid, Patch,
        WithPacket, NextAir, Sender.Feed;
      ghost var a := State();
      FeedInParts(cfg, a, chunk);
      var used := if lens[curr] == 0 then 4 else lens[curr];
      var len := used + |chunk|;
      Put(used, chunk, len);
      if chunk != [] && len >= MIN_PACKET {
        Limits(cfg);
        Put(0, ToLe32(len), len);
        NextPacket();
      }
    }

    /** Move to the next packet of the block, sending a full block first. */
    method NextPacket()
      requires Valid()
      modifies this, pool
      ensures Valid()
      ensures State() == NextAir(cfg, old(State()))
    {
      hide Library.Valid, Fillings, Sender.TransmitBlock, Buffers, Separate, Config.Valid;
      if curr == cfg.d - 1 {
        TransmitBlock();
        curr := 0;
      } else {
        curr := curr + 1;
      }
    }
  }

  lemma Limits(cfg: Config)
    requires cfg.Valid()
    ensures MIN_PACKET <= cfg.packSize < TWO32 && 0 < cfg.d <= 128 && cfg.f <= 128
  {
  }

  /** The first n bytes of one buffer. */
  lemma FrontOf(bs: seq<array<byte>>, n: nat, i: nat)
    requires Buffers(bs, n) && i < |bs|
    ensures n <= bs[i].Length && bs[i][..n] == View(bs, n)[i]
  {
  }

  lemma NextNumber(n: nat)
    ensures Wrap32(Wrap32(n) + 1) == Wrap32(n + 1)
  {
  }

  /** The packet at a given slot of a block. */
  lemma PacketInSlot(cfg: Config, seqNr: nat, data: Blocks, s: nat)
    requires cfg.Valid() && |data| == cfg.d && Sized(data, cfg.packSize) && s < cfg.N()
    ensures BlockPackets(cfg, seqNr, data)[s].seqNr == Wrap32(seqNr + s)
    ensures match KindAt(s, cfg.d, cfg.f)
            case Data(i) => i < cfg.d && BlockPackets(cfg, seqNr, data)[s].bytes == data[i]
            case Fec(j) => j < cfg.f && BlockPackets(cfg, seqNr, data)[s].bytes == Parity(data, j, cfg.packSize)
  {
    hide Parity, DataSlot, FecSlot, KindAt;
    SlotsExact(s, cfg.d, cfg.f);
  }

  /** The state with another packet under construction. */
  ghost function WithPacket(cfg: Config, a: Air, p: Filling): (r: Air)
    requires a.Shaped(cfg) && |p.data| >= cfg.packSize
    ensures r.Shaped(cfg) && r.curr == a.curr && r.bufs[r.curr] == p
  {
    a.(bufs := a.bufs[a.curr := p])
  }

  /** The state after a packet was closed. */
  ghost function NextAir(cfg: Config, a: Air): (r: Air)
    requires cfg.Valid() && a.Shaped(cfg)
  {
    if a.curr == cfg.d - 1 then Sender.TransmitBlock(cfg, a).(curr := 0) else a.(curr := a.curr + 1)
  }

  /** A turn writes what was read, and if that fills the packet its length field, then moves on. */
  lemma FeedInParts(cfg: Config, a: Air, chunk: seq<byte>)
    requires cfg.Valid() && a.Shaped(cfg) && ReadFits(cfg, a, chunk)
    ensures var p := a.bufs[a.curr];
            var len := Used(p) + |chunk|;
            var a1 := WithPacket(cfg, a, Filling(len, Patch(p.data, Used(p), chunk)));
            Sender.Feed(cfg, a, chunk) ==
              if chunk == [] || len < MIN_PACKET then a1
              else NextAir(cfg, WithPacket(cfg, a1, Filling(len, Patch(a1.bufs[a1.curr].data, 0, ToLe32(len)))))
  {
    hide Sender.TransmitBlock, Patch, ToLe32;
    var p := a.bufs[a.curr];
    PatchNothing(p.data, Used(p));
    var data := Patch(p.data, Used(p), chunk);
    var len := Used(p) + |chunk|;
    if len >= MIN_PACKET {
      assert a.bufs[a.curr := Filling(len, data)][a.curr := Filling(len, Patch(data, 0, ToLe32(len)))]
          == a.bufs[a.curr := Filling(len, Patch(data, 0, ToLe32(len)))];
    }
  }

  ghost function Fillings(lens: seq<nat>, bs: seq<array<byte>>): (fs: seq<Filling>)
    requires |lens| == |bs|
    reads bs
    ensures |fs| == |bs| && forall i :: 0 <= i < |bs| ==> fs[i] == Filling(lens[i], bs[i][..])
  {
    seq(|bs|, i requires 0 <= i < |bs| reads bs => Filling(lens[i], bs[i][..]))
  }

  /** The sender state held by these lengths and buffers. */
  ghost function AirOf(cfg: Config, seqNr: nat, curr: nat, lens: seq<nat>, bs: seq<array<byte>>, sent: seq<VideoPacket>): (a: Air)
    requires |lens| == |bs| == cfg.d && curr < cfg.d && Buffers(bs, cfg.packSize)
    reads bs
    ensures a.Shaped(cfg)
  {
    Shape(cfg, lens, bs);
    Air(seqNr, curr, Fillings(lens, bs), sent)
  }

  lemma Shape(cfg: Config, lens: seq<nat>, bs: seq<array<byte>>)
    requires |lens| == |bs| && Buffers(bs, cfg.packSize)
    ensures forall i :: 0 <= i < |bs| ==> |Fillings(lens, bs)[i].data| >= cfg.packSize
  {
  }

  lemma ViewIsContents(cfg: Config, lens: seq<nat>, bs: seq<array<byte>>)
    requires |lens| == |bs| && Buffers(bs, cfg.packSize)
    requires forall i :: 0 <= i < |bs| ==> |Fillings(lens, bs)[i].data| >= cfg.packSize
    ensures View(bs, cfg.packSize) == Contents(cfg, Fillings(lens, bs))
  {
  }

  method Allocate(n: nat, size: nat) returns (bs: seq<array<byte>>)
    ensures |bs| == n && fresh(bs) && Buffers(bs, size)
  {
    bs := [];
    for i := 0 to n
      invariant |bs| == i && fresh(bs) && Buffers(bs, size)
    {
      var b := new byte[size];
      bs := bs + [b];
    }
  }

  /** Where the sending loop stands: the kinds alternate until one runs out. */
  ghost predicate Alternating(cfg: Config, di: nat, fi: nat)
  {
    di <= cfg.d && fi <= cfg.f && (di == fi || (fi == cfg.f && di > fi) || (di == cfg.d && fi > di))
  }

  lemma Turn(cfg: Config, di: nat, fi: nat)
    requires Alternating(cfg, di, fi)
    ensures var di' := if di < cfg.d then di + 1 else di;
            && (fi < cfg.f ==> FecSlot(fi, cfg.d) == di' + fi < cfg.N())
            && Alternating(cfg, di', if fi < cfg.f then fi + 1 else fi)
  {
  }

  ghost predicate Encoded(cfg: Config, data: seq<array<byte>>, fec: seq<array<byte>>)
    reads data, fec
  {
    && cfg.Valid() && |data| == cfg.d && |fec| == cfg.f
    && Buffers(data, cfg.packSize) && Buffers(fec, cfg.packSize)
    && forall r :: 0 <= r < |fec| ==> View(fec, cfg.packSize)[r] == Parity(View(data, cfg.packSize), r, cfg.packSize)
  }

  /** The whole block as it should go out. */
  ghost function Block(cfg: Config, seqNr: nat, data: seq<array<byte>>, fec: seq<array<byte>>): (all: seq<VideoPacket>)
    requires Encoded(cfg, data, fec)
    reads data, fec
    ensures |all| == cfg.N()
  {
    BlockPackets(cfg, seqNr, View(data, cfg.packSize))
  }

  lemma DataSent(cfg: Config, seqNr: nat, data: seq<array<byte>>, fec: seq<array<byte>>, di: nat, fi: nat)
    requires Encoded(cfg, data, fec) && Alternating(cfg, di, fi) && di < cfg.d
    ensures di + fi < cfg.N() && cfg.packSize <= data[di].Length
    ensures var p := VideoPacket(Wrap32(seqNr + di + fi), data[di][..cfg.packSize]);
            Block(cfg, seqNr, data, fec)[..di + fi] + [p] == Block(cfg, seqNr, data, fec)[..di + fi + 1]
    ensures Wrap32(Wrap32(seqNr + di + fi) + 1) == Wrap32(seqNr + di + fi + 1)
  {
    hide View, Parity, DataSlot, FecSlot, KindAt, Buffers, BlockPackets, Wrap32, Sized, Config.Valid;
    RunningSlot(di, fi, cfg.d, cfg.f);
    DataSlotExact(di, cfg.d, cfg.f);
    PacketInSlot(cfg, seqNr, View(data, cfg.packSize), di + fi);
    FrontOf(data, cfg.packSize, di);
    NextNumber(seqNr + di + fi);
    NextSent(Block(cfg, seqNr, data, fec), di + fi, VideoPacket(Wrap32(seqNr + di + fi), data[di][..cfg.packSize]));
  }

  lemma FecSent(cfg: Config, seqNr: nat, data: seq<array<byte>>, fec: seq<array<byte>>, di: nat, fi: nat)
    requires Encoded(cfg, data, fec) && di + fi < cfg.N() && fi < cfg.f && di + fi == FecSlot(fi, cfg.d)
    ensures cfg.packSize <= fec[fi].Length
    ensures var p := VideoPacket(Wrap32(seqNr + di + fi), fec[fi][..cfg.packSize]);
            Block(cfg, seqNr, data, fec)[..di + fi] + [p] == Block(cfg, seqNr, data, fec)[..di + fi + 1]
    ensures Wrap32(Wrap32(seqNr + di + fi) + 1) == Wrap32(seqNr + di + fi + 1)
  {
    hide View, Parity, DataSlot, FecSlot, KindAt, Buffers, BlockPackets, Wrap32, Sized, Config.Valid;
    FecSlotExact(fi, cfg.d, cfg.f);
    PacketInSlot(cfg, seqNr, View(data, cfg.packSize), di + fi);
    FrontOf(fec, cfg.packSize, fi);
    NextNumber(seqNr + di + fi);
    NextSent(Block(cfg, seqNr, data, fec), di + fi, VideoPacket(Wrap32(seqNr + di + fi), fec[fi][..cfg.packSize]));
  }

  /** The sending loop: data and parity packets alternate under consecutive numbers. */
  method Interleave(cfg: Config, seqNr: nat, data: seq<array<byte>>, fec: seq<array<byte>>) returns (out: seq<VideoPacket>)
    requires Encoded(cfg, data, fec) && seqNr < TWO32
    ensures out == BlockPackets(cfg, seqNr, View(data, cfg.packSize))
  {
    hide View, DataSlot, FecSlot, Encoded, Alternating, BlockPackets, Wrap32, Block, Config.Valid, Buffers, Sized;
    BlockIs(cfg, seqNr, data, fec);
    ghost var all := Block(cfg, seqNr, data, fec);
    out := [];
    var di, fi, seqTmp := 0, 0, seqNr;
    while di < cfg.d || fi < cfg.f
      invariant di <= cfg.d && fi <= cfg.f && Alternating(cfg, di, fi)
      invariant seqTmp == Wrap32(seqNr + di + fi) && out == all[..di + fi]
      decreases cfg.d + cfg.f - di - fi
    {
      Turn(cfg, di, fi);
      if di < cfg.d {
        DataSent(cfg, seqNr, data, fec, di, fi);
        out := TransmitPacket(out, seqTmp, data[di], cfg.packSize);
        seqTmp := Wrap32(seqTmp + 1);
        di := di + 1;
      }
      if fi < cfg.f {
        FecSent(cfg, seqNr, data, fec, di, fi);
        out := TransmitPacket(out, seqTmp, fec[fi], cfg.packSize);
        seqTmp := Wrap32(seqTmp + 1);
        fi := fi + 1;
      }
    }
    assert all[..cfg.N()] == all;
  }

  /** transmit_packet: one more packet in the air. */
  method TransmitPacket(sent: seq<VideoPacket>, seqNr: nat, packet: array<byte>, length: nat) returns (out: seq<VideoPacket>)
    requires length <= packet.Length
    ensures out == sent + [VideoPacket(seqNr, packet[..length])]
  {
    out := sent + [VideoPacket(seqNr, packet[..length])];
  }

  lemma BlockIs(cfg: Config, seqNr: nat, data: seq<array<byte>>, fec: seq<array<byte>>)
    requires Encoded(cfg, data, fec) && seqNr < TWO32
    ensures |data| == cfg.d && |fec| == cfg.f && Wrap32(seqNr) == seqNr && Alternating(cfg, 0, 0)
    ensures cfg.Valid() && Buffers(data, cfg.packSize) && Sized(View(data, cfg.packSize), cfg.packSize)
    ensures Block(cfg, seqNr, data, fec) == BlockPackets(cfg, seqNr, View(data, cfg.packSize))
  {
  }

  lemma NextSent(all: seq<VideoPacket>, s: nat, p: VideoPacket)
    requires s < |all| && all[s] == p
    ensures all[..s] + [p] == all[..s + 1]
  {
  }

}
