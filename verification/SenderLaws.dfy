/** For every chunking of the input, the packets sent and the buffers together hold the
    input stream. */
module SenderLaws {
  import opened Memory
  import opened Gf256
  import opened Words
  import opened Code
  import opened Receiver
  import opened ReceiverLaws
  import opened Sender

  /** A packet whose buffer was changed while the closed ones before it were not. */
  lemma SameClosed(cfg: Config, a: Air, p: Filling)
    requires cfg.Valid() && a.Shaped(cfg) && ClosedFramed(cfg, a) && |p.data| >= cfg.packSize
    ensures var r := a.(bufs := a.bufs[a.curr := p]);
            r.Shaped(cfg) && ClosedFramed(cfg, r) &&
            Payloads(Contents(cfg, r.bufs), a.curr, cfg.packSize) == Payloads(Contents(cfg, a.bufs), a.curr, cfg.packSize)
  {
    hide Framed;
    var r := a.(bufs := a.bufs[a.curr := p]);
    PayloadsAgree(Contents(cfg, r.bufs), Contents(cfg, a.bufs), a.curr, cfg.packSize);
  }

  lemma StillOpenCarries(cfg: Config, a: Air, blocks: seq<Blocks>, input: seq<byte>, chunk: seq<byte>)
    requires cfg.Valid() && Carries(cfg, a, blocks, input) && ReadFits(cfg, a, chunk)
    requires Used(a.bufs[a.curr]) + |chunk| < MIN_PACKET
    ensures var p := a.bufs[a.curr];
            var p' := Filling(Used(p) + |chunk|, Patch(p.data, Used(p), chunk));
            Carries(cfg, a.(bufs := a.bufs[a.curr := p']), blocks, input + chunk)
  {
    hide Framed, Payloads, Stream, Transmission, Patch;
    var p := a.bufs[a.curr];
    var p' := Filling(Used(p) + |chunk|, Patch(p.data, Used(p), chunk));
    OpenPacket(p, chunk);
    SameClosed(cfg, a, p');
    var s, q := Stream(cfg, blocks), Payloads(Contents(cfg, a.bufs), a.curr, cfg.packSize);
    assert s + q + Partial(p) + chunk == s + q + (Partial(p) + chunk);
  }

  /** The current packet after it is closed. */
  ghost function ClosedWith(p: Filling, chunk: seq<byte>): (r: Filling)
    requires Used(p) + |chunk| <= |p.data| && 4 <= |p.data| && Used(p) + |chunk| < TWO32
    ensures |r.data| == |p.data|
  {
    var len := Used(p) + |chunk|;
    Filling(len, Patch(Patch(p.data, Used(p), chunk), 0, ToLe32(len)))
  }

  lemma PayloadsStep(data: Blocks, n: nat, size: nat)
    requires n < |data| && forall i :: 0 <= i <= n ==> Framed(data[i], size)
    ensures Framed(data[n], size)
    ensures Payloads(data, n + 1, size) == Payloads(data, n, size) + PacketPayload(data[n])
  {
  }

  /** All of a block's packets once the current one is closed. */
  lemma ClosingFrames(cfg: Config, a: Air, s: seq<byte>, chunk: seq<byte>)
    requires cfg.Valid() && a.Shaped(cfg) && ClosedFramed(cfg, a) && Open(a.bufs[a.curr]) && ReadFits(cfg, a, chunk)
    requires MIN_PACKET <= Used(a.bufs[a.curr]) + |chunk|
    ensures var p' := ClosedWith(a.bufs[a.curr], chunk);
            var data := Contents(cfg, a.bufs[a.curr := p']);
            && (forall i :: 0 <= i <= a.curr ==> Framed(data[i], cfg.packSize))
            && s + Payloads(Contents(cfg, a.bufs), a.curr, cfg.packSize) + Partial(a.bufs[a.curr]) + chunk
               == s + Payloads(data, a.curr + 1, cfg.packSize)
  {
    hide Framed, Patch, PacketPayload, Payloads, Partial, Le32, ToLe32;
    var p := a.bufs[a.curr];
    var p' := ClosedWith(p, chunk);
    ClosedPacket(cfg, p, chunk);
    SameClosed(cfg, a, p');
    var data := Contents(cfg, a.bufs[a.curr := p']);
    var r := a.(bufs := a.bufs[a.curr := p']);
    assert Contents(cfg, r.bufs) == data;
    assert forall i :: 0 <= i < a.curr ==> Framed(data[i], cfg.packSize);
    assert Framed(data[a.curr], cfg.packSize);
    PayloadsStep(data, a.curr, cfg.packSize);
    var q := Payloads(data, a.curr, cfg.packSize);
    assert s + q + Partial(p) + chunk == s + (q + (Partial(p) + chunk));
  }

  lemma ClosedPacketCarries(cfg: Config, a: Air, blocks: seq<Blocks>, input: seq<byte>, chunk: seq<byte>)
    requires cfg.Valid() && Carries(cfg, a, blocks, input) && ReadFits(cfg, a, chunk)
    requires MIN_PACKET <= Used(a.bufs[a.curr]) + |chunk| && a.curr < cfg.d - 1
    ensures Carries(cfg, a.(bufs := a.bufs[a.curr := ClosedWith(a.bufs[a.curr], chunk)], curr := a.curr + 1),
                    blocks, input + chunk)
  {
    hide Framed, Payloads, Stream, Transmission, ClosedWith;
    ClosingFrames(cfg, a, Stream(cfg, blocks), chunk);
    var r := a.(bufs := a.bufs[a.curr := ClosedWith(a.bufs[a.curr], chunk)], curr := a.curr + 1);
    assert r.bufs[r.curr] == a.bufs[r.curr];
    var t := Stream(cfg, blocks) + Payloads(Contents(cfg, r.bufs), r.curr, cfg.packSize);
    assert t + [] == t;
  }

  lemma StreamExtends(cfg: Config, blocks: seq<Blocks>, data: Blocks)
    requires GoodBlocks(cfg, blocks) && GoodBlock(cfg, data)
    ensures GoodBlocks(cfg, blocks + [data])
    ensures Stream(cfg, blocks + [data]) == Stream(cfg, blocks) + Payloads(data, cfg.d, cfg.packSize)
  {
    assert (blocks + [data])[..|blocks|] == blocks;
  }

  lemma TransmissionExtends(cfg: Config, blocks: seq<Blocks>, data: Blocks)
    requires cfg.Valid() && GoodBlocks(cfg, blocks) && GoodBlock(cfg, data)
    ensures GoodBlocks(cfg, blocks + [data])
    ensures Transmission(cfg, blocks + [data]) ==
            Transmission(cfg, blocks) + BlockPackets(cfg, Wrap32(|blocks| * cfg.N()), data)
  {
    assert (blocks + [data])[..|blocks|] == blocks;
  }

  lemma WrapAdds(n: nat, k: nat)
    ensures Wrap32(Wrap32(n * k) + k) == Wrap32((n + 1) * k)
  {
    assert (n + 1) * k == n * k + k;
    WrapSum(n * k, k);
  }

  lemma WrapSum(x: nat, y: nat)
    ensures Wrap32(Wrap32(x) + y) == Wrap32(x + y)
  {
  }

  lemma ClosedBlockCarries(cfg: Config, a: Air, blocks: seq<Blocks>, input: seq<byte>, chunk: seq<byte>)
    requires cfg.Valid() && Carries(cfg, a, blocks, input) && ReadFits(cfg, a, chunk)
    requires MIN_PACKET <= Used(a.bufs[a.curr]) + |chunk| && a.curr == cfg.d - 1
    ensures var closed := a.(bufs := a.bufs[a.curr := ClosedWith(a.bufs[a.curr], chunk)]);
            var data := Contents(cfg, closed.bufs);
            && GoodBlock(cfg, data)
            && Carries(cfg, TransmitBlock(cfg, closed).(curr := 0), blocks + [data], input + chunk)
  {
    hide Framed, Stream, Transmission, ClosedWith, BlockPackets, Wrap32, Payloads, Partial, Open;
    ClosingFrames(cfg, a, Stream(cfg, blocks), chunk);
    var closed := a.(bufs := a.bufs[a.curr := ClosedWith(a.bufs[a.curr], chunk)]);
    var data := Contents(cfg, closed.bufs);
    assert GoodBlock(cfg, data);
    StreamExtends(cfg, blocks, data);
    TransmissionExtends(cfg, blocks, data);
    WrapAdds(|blocks|, cfg.N());
    var r := TransmitBlock(cfg, closed).(curr := 0);
    NothingPending(cfg, r, Stream(cfg, blocks + [data]));
  }

  lemma NothingPending(cfg: Config, r: Air, s: seq<byte>)
    requires cfg.Valid() && r.Shaped(cfg) && r.curr == 0 && r.bufs[0].len == 0
    ensures Open(r.bufs[0]) && s + Payloads(Contents(cfg, r.bufs), 0, cfg.packSize) + Partial(r.bufs[0]) == s
  {
    EmptyPacketOpen(cfg, r.bufs[0]);
  }

  lemma EmptyPacketOpen(cfg: Config, p: Filling)
    requires cfg.Valid() && p.len == 0 && |p.data| >= cfg.packSize
    ensures Open(p) && Partial(p) == []
  {
  }

  /** The blocks sent after one more read. */
  ghost function NextBlocks(cfg: Config, a: Air, blocks: seq<Blocks>, chunk: seq<byte>): seq<Blocks>
    requires cfg.Valid() && a.Shaped(cfg) && ReadFits(cfg, a, chunk)
  {
    if MIN_PACKET <= Used(a.bufs[a.curr]) + |chunk| && a.curr == cfg.d - 1
    then blocks + [Contents(cfg, a.bufs[a.curr := ClosedWith(a.bufs[a.curr], chunk)])]
    else blocks
  }

  /** The four outcomes of one turn of the main loop. */
  lemma FeedOutcomes(cfg: Config, a: Air, chunk: seq<byte>)
    requires cfg.Valid() && a.Shaped(cfg) && ReadFits(cfg, a, chunk) && Open(a.bufs[a.curr])
    ensures var p := a.bufs[a.curr];
            var len := Used(p) + |chunk|;
            var closed := a.(bufs := a.bufs[a.curr := ClosedWith(p, chunk)]);
            Feed(cfg, a, chunk) ==
              if len < MIN_PACKET then a.(bufs := a.bufs[a.curr := Filling(len, Patch(p.data, Used(p), chunk))])
              else if a.curr == cfg.d - 1 then TransmitBlock(cfg, closed).(curr := 0)
              else closed.(curr := a.curr + 1)
  {
    hide TransmitBlock, ToLe32;
    var p := a.bufs[a.curr];
    if |chunk| == 0 {
      assert Patch(p.data, Used(p), chunk) == p.data;
    }
  }

  lemma FeedCarries(cfg: Config, a: Air, blocks: seq<Blocks>, input: seq<byte>, chunk: seq<byte>)
    requires cfg.Valid() && Carries(cfg, a, blocks, input) && ReadFits(cfg, a, chunk)
    ensures Carries(cfg, Feed(cfg, a, chunk), NextBlocks(cfg, a, blocks, chunk), input + chunk)
  {
    hide Carries, TransmitBlock, Feed, ClosedWith, Patch, Open;
    CurrentOpen(cfg, a, blocks, input);
    FeedOutcomes(cfg, a, chunk);
    var p := a.bufs[a.curr];
    if Used(p) + |chunk| < MIN_PACKET {
      StillOpenCarries(cfg, a, blocks, input, chunk);
    } else if a.curr == cfg.d - 1 {
      ClosedBlockCarries(cfg, a, blocks, input, chunk);
    } else {
      ClosedPacketCarries(cfg, a, blocks, input, chunk);
    }
  }

  lemma CurrentOpen(cfg: Config, a: Air, blocks: seq<Blocks>, input: seq<byte>)
    requires cfg.Valid() && Carries(cfg, a, blocks, input)
    ensures a.Shaped(cfg) && Open(a.bufs[a.curr]) && Used(a.bufs[a.curr]) < MIN_PACKET
  {
  }

  // ---------- whole runs ----------

  ghost function Joined(chunks: seq<seq<byte>>): seq<byte>
  {
    if |chunks| == 0 then [] else Joined(chunks[..|chunks| - 1]) + chunks[|chunks| - 1]
  }

  /** Every read returns no more than was asked for. */
  ghost predicate ReadsFit(cfg: Config, a: Air, chunks: seq<seq<byte>>)
    requires cfg.Valid() && a.Shaped(cfg)
    decreases |chunks|, 0
  {
    |chunks| > 0 ==>
      var prev := chunks[..|chunks| - 1];
      ReadsFit(cfg, a, prev) && ReadFits(cfg, FeedAll(cfg, a, prev), chunks[|chunks| - 1])
  }

  ghost function FeedAll(cfg: Config, a: Air, chunks: seq<seq<byte>>): (r: Air)
    requires cfg.Valid() && a.Shaped(cfg) && ReadsFit(cfg, a, chunks)
    ensures r.Shaped(cfg)
    decreases |chunks|, 1
  {
    if |chunks| == 0 then a
    else Feed(cfg, FeedAll(cfg, a, chunks[..|chunks| - 1]), chunks[|chunks| - 1])
  }

  /** However the input is cut into reads, the sender carries all of it. */
  lemma {:induction false} SenderCarriesInput(cfg: Config, a: Air, chunks: seq<seq<byte>>) returns (blocks: seq<Blocks>)
    requires cfg.Valid() && Fresh(cfg, a) && ReadsFit(cfg, a, chunks)
    ensures Carries(cfg, FeedAll(cfg, a, chunks), blocks, Joined(chunks))
  {
    hide Carries, Feed;
    if |chunks| == 0 {
      blocks := [];
      FreshCarriesNothing(cfg, a);
    } else {
      var prev, chunk := chunks[..|chunks| - 1], chunks[|chunks| - 1];
      var before := SenderCarriesInput(cfg, a, prev);
      var s := FeedAll(cfg, a, prev);
      FeedCarries(cfg, s, before, Joined(prev), chunk);
      blocks := NextBlocks(cfg, s, before, chunk);
    }
  }
}
