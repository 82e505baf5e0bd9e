/** Where the sender cuts: which reads share a packet. */
module Grouping {
  import opened Memory
  import opened Gf256
  import opened Words
  import opened Code
  import opened Receiver
  import opened ReceiverLaws
  import opened Sender
  import opened SenderLaws

  /** Payloads of finished packets, and the bytes of the one still open. */
  datatype Groups = Groups(closed: seq<seq<byte>>, open: seq<byte>)

  /** Reads are collected until packet and length field take at least 24 bytes together. */
  ghost function Grouped(chunks: seq<seq<byte>>): Groups
  {
    if |chunks| == 0 then Groups([], [])
    else
      var before := Grouped(chunks[..|chunks| - 1]);
      var g := before.open + chunks[|chunks| - 1];
      if 4 + |g| < 24 then Groups(before.closed, g) else Groups(before.closed + [g], [])
  }

  /** A payload that came from a read which filled a packet that was below 24 bytes before. */
  ghost predicate FilledBy(g: seq<byte>, read: seq<byte>)
  {
    |read| <= |g| && g[|g| - |read|..] == read && 4 + |g| - |read| < 24 && 4 + |g| >= 24
  }

  ghost predicate EachFilled(closed: seq<seq<byte>>, chunks: seq<seq<byte>>)
  {
    forall i :: 0 <= i < |closed| ==> exists k :: 0 <= k < |chunks| && FilledBy(closed[i], chunks[k])
  }

  /** Every packet takes at least 24 bytes, and took fewer before its last read. */
  lemma {:induction false} GroupsFilled(chunks: seq<seq<byte>>)
    ensures EachFilled(Grouped(chunks).closed, chunks) && 4 + |Grouped(chunks).open| < 24
  {
    if |chunks| > 0 {
      var n := |chunks| - 1;
      var prev, read := chunks[..n], chunks[n];
      GroupsFilled(prev);
      var before := Grouped(prev);
      var g := before.open + read;
      var closed := Grouped(chunks).closed;
      forall i | 0 <= i < |closed|
        ensures exists k :: 0 <= k < |chunks| && FilledBy(closed[i], chunks[k])
      {
        if i < |before.closed| {
          var k :| 0 <= k < |prev| && FilledBy(before.closed[i], prev[k]);
          assert FilledBy(closed[i], chunks[k]);
        } else {
          assert FilledBy(closed[i], chunks[n]);
        }
      }
    }
  }

  // ---------- the payloads in the sender's blocks ----------

  ghost function PacketList(data: Blocks, n: nat, size: nat): (ps: seq<seq<byte>>)
    requires n <= |data| && forall i :: 0 <= i < n ==> Framed(data[i], size)
    ensures |ps| == n
  {
    if n == 0 then []
    else
      assert Framed(data[n - 1], size);
      PacketList(data, n - 1, size) + [PacketPayload(data[n - 1])]
  }

  ghost function BlockList(cfg: Config, blocks: seq<Blocks>): seq<seq<byte>>
    requires GoodBlocks(cfg, blocks)
  {
    if |blocks| == 0 then []
    else BlockList(cfg, blocks[..|blocks| - 1]) + PacketList(blocks[|blocks| - 1], cfg.d, cfg.packSize)
  }

  lemma {:induction false} ListsAgree(data: Blocks, other: Blocks, n: nat, size: nat)
    requires n <= |data| && n <= |other| && forall i :: 0 <= i < n ==> Framed(data[i], size) && data[i] == other[i]
    ensures PacketList(data, n, size) == PacketList(other, n, size)
  {
    hide Framed;
    if n > 0 {
      ListsAgree(data, other, n - 1, size);
    }
  }

  lemma BlockListExtends(cfg: Config, blocks: seq<Blocks>, data: Blocks)
    requires GoodBlocks(cfg, blocks) && GoodBlock(cfg, data)
    ensures GoodBlocks(cfg, blocks + [data])
    ensures BlockList(cfg, blocks + [data]) == BlockList(cfg, blocks) + PacketList(data, cfg.d, cfg.packSize)
  {
    hide PacketList;
    assert (blocks + [data])[..|blocks|] == blocks;
  }

  /** The sender has cut its input into these groups. */
  ghost predicate Holds(cfg: Config, a: Air, blocks: seq<Blocks>, g: Groups)
    requires cfg.Valid() && a.Shaped(cfg) && GoodBlocks(cfg, blocks) && ClosedFramed(cfg, a)
  {
    && g.closed == BlockList(cfg, blocks) + PacketList(Contents(cfg, a.bufs), a.curr, cfg.packSize)
    && a.bufs[a.curr].len <= |a.bufs[a.curr].data| && g.open == Partial(a.bufs[a.curr])
  }

  lemma CarriesParts(cfg: Config, a: Air, blocks: seq<Blocks>, input: seq<byte>)
    requires cfg.Valid() && Carries(cfg, a, blocks, input)
    ensures a.Shaped(cfg) && GoodBlocks(cfg, blocks) && ClosedFramed(cfg, a) && Open(a.bufs[a.curr])
    ensures forall i :: a.curr < i < cfg.d ==> a.bufs[i].len == 0
    ensures Used(a.bufs[a.curr]) == 4 + |Partial(a.bufs[a.curr])|
  {
  }

  lemma OpenHolds(cfg: Config, a: Air, blocks: seq<Blocks>, g: Groups, chunk: seq<byte>)
    requires cfg.Valid() && a.Shaped(cfg) && GoodBlocks(cfg, blocks) && ClosedFramed(cfg, a) && Open(a.bufs[a.curr])
    requires Holds(cfg, a, blocks, g) && ReadFits(cfg, a, chunk)
    ensures var p := a.bufs[a.curr];
            var p' := Filling(Used(p) + |chunk|, Patch(p.data, Used(p), chunk));
            var r := a.(bufs := a.bufs[a.curr := p']);
            r.Shaped(cfg) && ClosedFramed(cfg, r) && Holds(cfg, r, blocks, Groups(g.closed, g.open + chunk))
  {
    hide Framed, PacketList, BlockList, Partial, Patch;
    var p := a.bufs[a.curr];
    var p' := Filling(Used(p) + |chunk|, Patch(p.data, Used(p), chunk));
    var r := a.(bufs := a.bufs[a.curr := p']);
    OpenPacket(p, chunk);
    SameClosed(cfg, a, p');
    ListsAgree(Contents(cfg, r.bufs), Contents(cfg, a.bufs), a.curr, cfg.packSize);
  }

  /** Closing the current packet adds one group. */
  lemma ClosingAdds(cfg: Config, a: Air, blocks: seq<Blocks>, g: Groups, chunk: seq<byte>)
    requires cfg.Valid() && a.Shaped(cfg) && GoodBlocks(cfg, blocks) && ClosedFramed(cfg, a) && Open(a.bufs[a.curr])
    requires Holds(cfg, a, blocks, g) && ReadFits(cfg, a, chunk) && 24 <= Used(a.bufs[a.curr]) + |chunk|
    ensures var data := Contents(cfg, a.bufs[a.curr := ClosedWith(a.bufs[a.curr], chunk)]);
            && (forall i :: 0 <= i <= a.curr ==> Framed(data[i], cfg.packSize))
            && BlockList(cfg, blocks) + PacketList(data, a.curr + 1, cfg.packSize) == g.closed + [g.open + chunk]
  {
    hide Framed, BlockList, Patch, PacketPayload, Partial, Le32, ToLe32;
    var p := a.bufs[a.curr];
    var p' := ClosedWith(p, chunk);
    ClosedPacket(cfg, p, chunk);
    SameClosed(cfg, a, p');
    var data := Contents(cfg, a.bufs[a.curr := p']);
    var r := a.(bufs := a.bufs[a.curr := p']);
    assert Contents(cfg, r.bufs) == data;
    assert forall i :: 0 <= i < a.curr ==> Framed(data[i], cfg.packSize);
    assert Framed(data[a.curr], cfg.packSize);
    ListsAgree(data, Contents(cfg, a.bufs), a.curr, cfg.packSize);
  }

  lemma NothingOpen(cfg: Config, r: Air, blocks: seq<Blocks>, closed: seq<seq<byte>>)
    requires cfg.Valid() && r.Shaped(cfg) && GoodBlocks(cfg, blocks) && ClosedFramed(cfg, r) && r.bufs[r.curr].len == 0
    requires closed == BlockList(cfg, blocks) + PacketList(Contents(cfg, r.bufs), r.curr, cfg.packSize)
    ensures Holds(cfg, r, blocks, Groups(closed, []))
  {
  }

  lemma FeedHolds(cfg: Config, a: Air, blocks: seq<Blocks>, input: seq<byte>, chunks: seq<seq<byte>>, chunk: seq<byte>)
    requires cfg.Valid() && Carries(cfg, a, blocks, input) && ReadFits(cfg, a, chunk)
    requires a.Shaped(cfg) && GoodBlocks(cfg, blocks) && ClosedFramed(cfg, a) && Holds(cfg, a, blocks, Grouped(chunks))
    ensures var r, next := Feed(cfg, a, chunk), NextBlocks(cfg, a, blocks, chunk);
            GoodBlocks(cfg, next) && ClosedFramed(cfg, r) && Holds(cfg, r, next, Grouped(chunks + [chunk]))
  {
    hide Carries, TransmitBlock, Feed, ClosedWith, Patch, Framed, Holds, BlockList, PacketList, Partial, Open;
    CarriesParts(cfg, a, blocks, input);
    FeedOutcomes(cfg, a, chunk);
    FeedCarries(cfg, a, blocks, input, chunk);
    CarriesParts(cfg, Feed(cfg, a, chunk), NextBlocks(cfg, a, blocks, chunk), input + chunk);
    assert (chunks + [chunk])[..|chunks|] == chunks;
    var g := Grouped(chunks);
    OpenIs(cfg, a, blocks, g);
    if Used(a.bufs[a.curr]) + |chunk| < 24 {
      OpenHolds(cfg, a, blocks, g, chunk);
    } else {
      ClosedHolds(cfg, a, blocks, g, chunk);
    }
  }

  lemma OpenIs(cfg: Config, a: Air, blocks: seq<Blocks>, g: Groups)
    requires cfg.Valid() && a.Shaped(cfg) && GoodBlocks(cfg, blocks) && ClosedFramed(cfg, a) && Holds(cfg, a, blocks, g)
    ensures a.bufs[a.curr].len <= |a.bufs[a.curr].data| && g.open == Partial(a.bufs[a.curr])
  {
  }

  lemma ClosedHolds(cfg: Config, a: Air, blocks: seq<Blocks>, g: Groups, chunk: seq<byte>)
    requires cfg.Valid() && a.Shaped(cfg) && GoodBlocks(cfg, blocks) && ClosedFramed(cfg, a) && Open(a.bufs[a.curr])
    requires forall i :: a.curr < i < cfg.d ==> a.bufs[i].len == 0
    requires Holds(cfg, a, blocks, g) && ReadFits(cfg, a, chunk) && 24 <= Used(a.bufs[a.curr]) + |chunk|
    ensures var r, next := Feed(cfg, a, chunk), NextBlocks(cfg, a, blocks, chunk);
            GoodBlocks(cfg, next) && ClosedFramed(cfg, r) && Holds(cfg, r, next, Groups(g.closed + [g.open + chunk], []))
  {
    hide Patch, Feed, ClosedWith, Framed, BlockList, BlockPackets, Wrap32, PacketList, Open, Holds;
    FeedOutcomes(cfg, a, chunk);
    ClosingAdds(cfg, a, blocks, g, chunk);
    var closed := a.(bufs := a.bufs[a.curr := ClosedWith(a.bufs[a.curr], chunk)]);
    var data := Contents(cfg, closed.bufs);
    var r, next := Feed(cfg, a, chunk), NextBlocks(cfg, a, blocks, chunk);
    var all := g.closed + [g.open + chunk];
    if a.curr == cfg.d - 1 {
      assert GoodBlock(cfg, data);
      BlockListExtends(cfg, blocks, data);
      NoPackets(Contents(cfg, r.bufs), cfg.packSize);
      assert all + [] == all;
    }
    NothingOpen(cfg, r, next, all);
  }

  lemma NoPackets(data: Blocks, size: nat)
    ensures PacketList(data, 0, size) == []
  {
  }

  /** For every input and every cutting into reads: the packets carry the reads grouped as specified. */
  lemma {:induction false} SenderGroups(cfg: Config, a: Air, chunks: seq<seq<byte>>) returns (blocks: seq<Blocks>)
    requires cfg.Valid() && Fresh(cfg, a) && ReadsFit(cfg, a, chunks)
    ensures var r := FeedAll(cfg, a, chunks);
            && Carries(cfg, r, blocks, Joined(chunks))
            && GoodBlocks(cfg, blocks) && ClosedFramed(cfg, r) && Holds(cfg, r, blocks, Grouped(chunks))
  {
    hide Carries, Feed, Holds;
    if |chunks| == 0 {
      blocks := [];
      FreshCarriesNothing(cfg, a);
      CarriesParts(cfg, a, [], []);
      FreshHoldsNothing(cfg, a);
    } else {
      var n := |chunks| - 1;
      var prev, chunk := chunks[..n], chunks[n];
      var before := SenderGroups(cfg, a, prev);
      var s := FeedAll(cfg, a, prev);
      FeedCarries(cfg, s, before, Joined(prev), chunk);
      FeedHolds(cfg, s, before, Joined(prev), prev, chunk);
      assert prev + [chunk] == chunks;
      blocks := NextBlocks(cfg, s, before, chunk);
    }
  }

  lemma FreshHoldsNothing(cfg: Config, a: Air)
    requires cfg.Valid() && Fresh(cfg, a) && ClosedFramed(cfg, a) && GoodBlocks(cfg, [])
    ensures Holds(cfg, a, [], Grouped([]))
  {
  }
}
