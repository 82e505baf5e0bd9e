/** The UAV side of the video link: filling packets from reads, and transmitting blocks. */
module Sender {
  import opened Memory
  import opened Gf256
  import opened Words
  import opened Code
  import opened Slots
  import opened Receiver
  import opened ReceiverLaws

  /** A packet is closed once it holds this much (param_min_packet_length). */
  const MIN_PACKET := 24

  /** A packet buffer being filled: bytes used, and the whole buffer. */
  datatype Filling = Filling(len: nat, data: seq<byte>)

  /** What goes over the air: header sequence number and packSize bytes. */
  datatype VideoPacket = VideoPacket(seqNr: nat, bytes: seq<byte>)

  /** input_t plus what has been transmitted. */
  datatype Air = Air(seqNr: nat, curr: nat, bufs: seq<Filling>, sent: seq<VideoPacket>)
  {
    ghost predicate Shaped(cfg: Config)
    {
      |bufs| == cfg.d && curr < cfg.d && forall i :: 0 <= i < |bufs| ==> |bufs[i].data| >= cfg.packSize
    }
  }

  // ---------- transmitting ----------

  ghost function SlotBytes(cfg: Config, data: Blocks, s: nat): seq<byte>
    requires cfg.Valid() && |data| == cfg.d && Sized(data, cfg.packSize) && s < cfg.N()
  {
    SlotsExact(s, cfg.d, cfg.f);
    match KindAt(s, cfg.d, cfg.f)
    case Data(i) => data[i]
    case Fec(j) => Parity(data, j, cfg.packSize)
  }

  ghost function BlockPackets(cfg: Config, seqNr: nat, data: Blocks): (ps: seq<VideoPacket>)
    requires cfg.Valid() && |data| == cfg.d && Sized(data, cfg.packSize)
    ensures |ps| == cfg.N() && forall s :: 0 <= s < cfg.N() ==>
      ps[s] == VideoPacket(Wrap32(seqNr + s), SlotBytes(cfg, data, s))
  {
    seq(cfg.N(), s requires 0 <= s < cfg.N() => VideoPacket(Wrap32(seqNr + s), SlotBytes(cfg, data, s)))
  }

  ghost function Contents(cfg: Config, bufs: seq<Filling>): (bs: Blocks)
    requires forall i :: 0 <= i < |bufs| ==> |bufs[i].data| >= cfg.packSize
    ensures |bs| == |bufs| && Sized(bs, cfg.packSize)
    ensures forall i :: 0 <= i < |bufs| ==> bs[i] == bufs[i].data[..cfg.packSize]
  {
    seq(|bufs|, i requires 0 <= i < |bufs| => bufs[i].data[..cfg.packSize])
  }

  ghost function Emptied(bufs: seq<Filling>): (r: seq<Filling>)
    ensures |r| == |bufs| && forall i :: 0 <= i < |bufs| ==> r[i] == Filling(0, bufs[i].data)
  {
    seq(|bufs|, i requires 0 <= i < |bufs| => Filling(0, bufs[i].data))
  }

  ghost function TransmitBlock(cfg: Config, a: Air): (r: Air)
    requires cfg.Valid() && a.Shaped(cfg)
    ensures r.Shaped(cfg)
  {
    a.(sent := a.sent + BlockPackets(cfg, a.seqNr, Contents(cfg, a.bufs)),
       seqNr := Wrap32(a.seqNr + cfg.N()),
       bufs := Emptied(a.bufs))
  }

  // ---------- filling ----------

  /** Room for the length field in a fresh packet. */
  function Used(p: Filling): nat { if p.len == 0 then 4 else p.len }

  /** A read returns at most what still fits into the current packet. */
  ghost predicate ReadFits(cfg: Config, a: Air, chunk: seq<byte>)
    requires a.Shaped(cfg)
  {
    Used(a.bufs[a.curr]) + |chunk| <= cfg.packSize
  }

  /** One turn of the main loop: read, and close the packet and the block when full enough. */
  ghost function Feed(cfg: Config, a: Air, chunk: seq<byte>): (r: Air)
    requires cfg.Valid() && a.Shaped(cfg) && ReadFits(cfg, a, chunk)
    ensures r.Shaped(cfg)
  {
    var p := a.bufs[a.curr];
    var used := Used(p);
    if |chunk| == 0 then a.(bufs := a.bufs[a.curr := Filling(used, p.data)])
    else
      var len := used + |chunk|;
      var data := Patch(p.data, used, chunk);
      if len < MIN_PACKET then a.(bufs := a.bufs[a.curr := Filling(len, data)])
      else
        var closed := a.(bufs := a.bufs[a.curr := Filling(len, Patch(data, 0, ToLe32(len)))]);
        if a.curr == cfg.d - 1 then TransmitBlock(cfg, closed).(curr := 0)
        else closed.(curr := a.curr + 1)
  }

  ghost predicate Fresh(cfg: Config, a: Air)
  {
    a.Shaped(cfg) && a.seqNr == 0 && a.curr == 0 && a.sent == [] && forall i :: 0 <= i < |a.bufs| ==> a.bufs[i].len == 0
  }

  // ---------- what the sender keeps ----------

  ghost function FramedAll(cfg: Config, data: Blocks): bool
  {
    forall i :: 0 <= i < |data| ==> Framed(data[i], cfg.packSize)
  }

  /** The payload bytes of the first n packets of a block. */
  ghost function Payloads(data: Blocks, n: nat, size: nat): seq<byte>
    requires n <= |data| && forall i :: 0 <= i < n ==> Framed(data[i], size)
  {
    if n == 0 then []
    else
      assert Framed(data[n - 1], size);
      Payloads(data, n - 1, size) + PacketPayload(data[n - 1])
  }

  ghost predicate GoodBlock(cfg: Config, data: Blocks)
  {
    |data| == cfg.d && Sized(data, cfg.packSize) && FramedAll(cfg, data)
  }

  ghost predicate GoodBlocks(cfg: Config, blocks: seq<Blocks>)
  {
    forall b :: 0 <= b < |blocks| ==> GoodBlock(cfg, blocks[b])
  }

  /** The stream carried by a sequence of blocks. */
  ghost function Stream(cfg: Config, blocks: seq<Blocks>): seq<byte>
    requires GoodBlocks(cfg, blocks)
  {
    if |blocks| == 0 then []
    else Stream(cfg, blocks[..|blocks| - 1]) + Payloads(blocks[|blocks| - 1], cfg.d, cfg.packSize)
  }

  /** Everything sent for a sequence of blocks. */
  ghost function Transmission(cfg: Config, blocks: seq<Blocks>): seq<VideoPacket>
    requires cfg.Valid() && GoodBlocks(cfg, blocks)
  {
    if |blocks| == 0 then []
    else
      var n := |blocks| - 1;
      Transmission(cfg, blocks[..n]) + BlockPackets(cfg, Wrap32(n * cfg.N()), blocks[n])
  }

  /** The bytes read into the packet under construction. */
  ghost function Partial(p: Filling): seq<byte>
    requires p.len <= |p.data|
  {
    if p.len < 4 then [] else p.data[4..p.len]
  }

  /** What was sent belongs to the given blocks; they and the buffers hold the whole input. */
  ghost predicate Carries(cfg: Config, a: Air, blocks: seq<Blocks>, input: seq<byte>)
    requires cfg.Valid()
  {
    && a.Shaped(cfg) && GoodBlocks(cfg, blocks)
    && a.sent == Transmission(cfg, blocks)
    && a.seqNr == Wrap32(|blocks| * cfg.N())
    && ClosedFramed(cfg, a)
    && (forall i :: a.curr < i < cfg.d ==> a.bufs[i].len == 0)
    && Open(a.bufs[a.curr])
    && input == Stream(cfg, blocks) + Payloads(Contents(cfg, a.bufs), a.curr, cfg.packSize) + Partial(a.bufs[a.curr])
  }

  /** A packet still open: untouched, or past its length field and below the minimum. */
  ghost predicate Open(p: Filling)
  {
    (p.len == 0 || 4 <= p.len < MIN_PACKET) && |p.data| >= MIN_PACKET
  }

  ghost predicate ClosedFramed(cfg: Config, a: Air)
    requires a.Shaped(cfg)
  {
    forall i :: 0 <= i < a.curr ==> Framed(Contents(cfg, a.bufs)[i], cfg.packSize)
  }

  lemma FreshCarriesNothing(cfg: Config, a: Air)
    requires cfg.Valid() && Fresh(cfg, a)
    ensures Carries(cfg, a, [], [])
  {
  }

  lemma {:induction false} PayloadsAgree(data: Blocks, other: Blocks, n: nat, size: nat)
    requires n <= |data| && n <= |other| && forall i :: 0 <= i < n ==> Framed(data[i], size) && data[i] == other[i]
    ensures Payloads(data, n, size) == Payloads(other, n, size)
  {
    if n > 0 {
      PayloadsAgree(data, other, n - 1, size);
    }
  }

  /** A closed packet frames exactly the bytes read into it. */
  lemma ClosedPacket(cfg: Config, p: Filling, chunk: seq<byte>)
    requires cfg.Valid() && |p.data| >= cfg.packSize
    requires Open(p) && Used(p) + |chunk| <= cfg.packSize && MIN_PACKET <= Used(p) + |chunk|
    ensures var len := Used(p) + |chunk|;
            var o := Patch(Patch(p.data, Used(p), chunk), 0, ToLe32(len))[..cfg.packSize];
            Framed(o, cfg.packSize) && PacketPayload(o) == Partial(p) + chunk
  {
    hide Le32, ToLe32;
    var used, len, n := Used(p), Used(p) + |chunk|, cfg.packSize;
    var data := Patch(p.data, used, chunk);
    var head := ToLe32(len);
    HeadWritten(data, head, n, len);
    Le32RoundTrip(len, data[4..n]);
    PatchKeeps(p.data, used, chunk, 4);
    assert Partial(p) == p.data[4..used];
  }

  lemma HeadWritten(data: seq<byte>, head: seq<byte>, n: nat, len: nat)
    requires |head| == 4 <= len <= n <= |data|
    ensures Patch(data, 0, head)[..n] == head + data[4..n]
    ensures Patch(data, 0, head)[..n][4..len] == data[4..len]
  {
    var d := head + data[4..];
    assert Patch(data, 0, head) == d;
    assert d[..n] == head + data[4..n];
    assert (head + data[4..n])[4..len] == data[4..n][..len - 4] == data[4..len];
  }

  lemma OpenPacket(p: Filling, chunk: seq<byte>)
    requires Open(p) && Used(p) + |chunk| <= |p.data|
    ensures Partial(Filling(Used(p) + |chunk|, Patch(p.data, Used(p), chunk))) == Partial(p) + chunk
  {
    PatchKeeps(p.data, Used(p), chunk, 4);
    assert Partial(p) == p.data[4..Used(p)];
  }
}
