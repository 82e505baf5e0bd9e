/** The video link end to end: what the ground station publishes is the input of the UAV. */
module Link {
  import opened Memory
  import opened Arithmetic
  import opened Gf256
  import opened Words
  import opened Elimination
  import opened Code
  import opened Slots
  import opened Selection
  import opened Receiver
  import opened ReceiverLaws
  import opened Sender
  import opened SenderLaws

  // ---------- addresses ----------

  /** Index of slot s of block b among all transmitted packets. */
  function Address(cfg: Config, b: nat, s: nat): nat { b * cfg.N() + s }

  lemma AddressParts(cfg: Config, b: nat, s: nat)
    requires cfg.Valid() && s < cfg.N()
    ensures BlockOf(cfg, Address(cfg, b, s)) == b && SlotOf(cfg, Address(cfg, b, s)) == s
  {
    var n, a := cfg.N(), Address(cfg, b, s);
    DivUnique(a, n, b, s);
  }

  lemma AddressOf(cfg: Config, x: nat)
    requires cfg.Valid()
    ensures x == Address(cfg, BlockOf(cfg, x), SlotOf(cfg, x))
  {
  }

  lemma BlockOrder(cfg: Config, x: nat, y: nat)
    requires cfg.Valid() && x <= y
    ensures BlockOf(cfg, x) <= BlockOf(cfg, y)
  {
    var n := cfg.N();
    var p, q := x / n, y / n;
    assert x == p * n + x % n && y == q * n + y % n;
    assert (q - p) * n == q * n - p * n;
    Multiple(q - p, n);
  }

  // ---------- what was received ----------

  ghost function DataGot(cfg: Config, idxs: seq<nat>, b: nat): (g: seq<bool>)
    ensures |g| == cfg.d && forall i :: 0 <= i < cfg.d ==> g[i] == (Address(cfg, b, DataSlot(i, cfg.f)) in idxs)
  {
    seq(cfg.d, i requires 0 <= i < cfg.d => Address(cfg, b, DataSlot(i, cfg.f)) in idxs)
  }

  ghost function FecGot(cfg: Config, idxs: seq<nat>, b: nat): (g: seq<bool>)
    ensures |g| == cfg.f && forall j :: 0 <= j < cfg.f ==> g[j] == (Address(cfg, b, FecSlot(j, cfg.d)) in idxs)
  {
    seq(cfg.f, j requires 0 <= j < cfg.f => Address(cfg, b, FecSlot(j, cfg.d)) in idxs)
  }

  /** The block lost no more data packets than parity packets of it arrived. */
  ghost predicate Enough(cfg: Config, idxs: seq<nat>, b: nat)
  {
    cfg.d - CountTrue(DataGot(cfg, idxs, b)) <= CountTrue(FecGot(cfg, idxs, b))
  }

  ghost predicate InSequence(idxs: seq<nat>)
  {
    forall i, j :: 0 <= i < j < |idxs| ==> idxs[i] <= idxs[j]
  }

  lemma {:induction false} CountZero(s: seq<bool>)
    requires CountTrue(s) > 0
    ensures exists i :: 0 <= i < |s| && s[i]
  {
    if forall i :: 0 <= i < |s| ==> !s[i] {
      CountNone(s);
    }
  }

  /** Nothing of a block received means it was not enough. */
  lemma EnoughMeansSome(cfg: Config, idxs: seq<nat>, b: nat) returns (x: nat)
    requires cfg.Valid() && Enough(cfg, idxs, b)
    ensures x in idxs && BlockOf(cfg, x) == b
  {
    var dg, fg := DataGot(cfg, idxs, b), FecGot(cfg, idxs, b);
    if CountTrue(dg) > 0 {
      CountZero(dg);
      var i :| 0 <= i < |dg| && dg[i];
      DataSlotExact(i, cfg.d, cfg.f);
      x := Address(cfg, b, DataSlot(i, cfg.f));
      AddressParts(cfg, b, DataSlot(i, cfg.f));
    } else {
      CountZero(fg);
      var j :| 0 <= j < |fg| && fg[j];
      FecSlotExact(j, cfg.d, cfg.f);
      x := Address(cfg, b, FecSlot(j, cfg.d));
      AddressParts(cfg, b, FecSlot(j, cfg.d));
    }
  }

  /** Only receptions of the block itself matter. */
  lemma EnoughLocal(cfg: Config, idxs: seq<nat>, other: seq<nat>, b: nat)
    requires cfg.Valid() && Enough(cfg, idxs, b)
    requires forall x :: BlockOf(cfg, x) == b && x in idxs ==> x in other
    requires forall x :: BlockOf(cfg, x) == b && x in other ==> x in idxs
    ensures Enough(cfg, other, b)
  {
    forall i | 0 <= i < cfg.d
      ensures DataGot(cfg, idxs, b)[i] == DataGot(cfg, other, b)[i]
    {
      DataSlotExact(i, cfg.d, cfg.f);
      AddressParts(cfg, b, DataSlot(i, cfg.f));
    }
    forall j | 0 <= j < cfg.f
      ensures FecGot(cfg, idxs, b)[j] == FecGot(cfg, other, b)[j]
    {
      FecSlotExact(j, cfg.d, cfg.f);
      AddressParts(cfg, b, FecSlot(j, cfg.d));
    }
    assert DataGot(cfg, idxs, b) == DataGot(cfg, other, b);
    assert FecGot(cfg, idxs, b) == FecGot(cfg, other, b);
  }

  // ---------- what was sent ----------

  /** The packet with a given index. */
  ghost function PacketAt(cfg: Config, blocks: seq<Blocks>, x: nat): VideoPacket
    requires cfg.Valid() && GoodBlocks(cfg, blocks) && BlockOf(cfg, x) < |blocks|
  {
    VideoPacket(Wrap32(x), SlotBytes(cfg, blocks[BlockOf(cfg, x)], SlotOf(cfg, x)))
  }

  lemma TransmissionStep(cfg: Config, blocks: seq<Blocks>)
    requires cfg.Valid() && GoodBlocks(cfg, blocks) && |blocks| > 0
    ensures var m := |blocks| - 1;
            && GoodBlocks(cfg, blocks[..m]) && GoodBlock(cfg, blocks[m])
            && |BlockPackets(cfg, Wrap32(m * cfg.N()), blocks[m])| == cfg.N()
            && Transmission(cfg, blocks) == Transmission(cfg, blocks[..m]) + BlockPackets(cfg, Wrap32(m * cfg.N()), blocks[m])
  {
  }

  lemma BlockPacketAt(cfg: Config, blocks: seq<Blocks>, m: nat, x: nat)
    requires cfg.Valid() && GoodBlocks(cfg, blocks) && m < |blocks| && m * cfg.N() <= x < m * cfg.N() + cfg.N()
    ensures BlockOf(cfg, x) == m
    ensures BlockPackets(cfg, Wrap32(m * cfg.N()), blocks[m])[x - m * cfg.N()] == PacketAt(cfg, blocks, x)
  {
    hide SlotBytes, Wrap32, Config.N;
    var n := cfg.N();
    DivUnique(x, n, m, x - m * n);
    WrapSum(m * n, x - m * n);
  }

  lemma {:induction false} TransmissionAt(cfg: Config, blocks: seq<Blocks>, x: nat)
    requires cfg.Valid() && GoodBlocks(cfg, blocks)
    ensures |Transmission(cfg, blocks)| == |blocks| * cfg.N()
    ensures x < |blocks| * cfg.N() ==> BlockOf(cfg, x) < |blocks| && Transmission(cfg, blocks)[x] == PacketAt(cfg, blocks, x)
  {
    hide Wrap32, SlotBytes, BlockPackets, Transmission, Config.N;
    if |blocks| == 0 {
      NothingSent(cfg, blocks);
    } else {
      var m, n := |blocks| - 1, cfg.N();
      TransmissionStep(cfg, blocks);
      TransmissionAt(cfg, blocks[..m], x);
      assert |blocks| * n == m * n + n;
      if m * n <= x < m * n + n {
        BlockPacketAt(cfg, blocks, m, x);
      }
    }
  }

  lemma NothingSent(cfg: Config, blocks: seq<Blocks>)
    requires cfg.Valid() && |blocks| == 0
    ensures Transmission(cfg, blocks) == []
  {
  }

  // ---------- the receiver's buffer ----------

  ghost predicate SlotHolds(cfg: Config, blocks: seq<Blocks>, idxs: seq<nat>, p: Packet, m: nat, s: nat)
    requires cfg.Valid() && GoodBlocks(cfg, blocks) && s < cfg.N()
  {
    && |p.data| == BUFFER && p.crc == p.valid
    && (p.valid <==> Address(cfg, m, s) in idxs)
    && (p.valid ==> m < |blocks| && p.data[..cfg.packSize] == SlotBytes(cfg, blocks[m], s))
  }

  /** The buffer holds exactly the packets received of block m. */
  ghost predicate SlotsMatch(cfg: Config, blocks: seq<Blocks>, idxs: seq<nat>, ps: seq<Packet>, m: nat)
    requires cfg.Valid() && GoodBlocks(cfg, blocks)
  {
    |ps| == cfg.N() && forall s :: 0 <= s < cfg.N() ==> SlotHolds(cfg, blocks, idxs, ps[s], m, s)
  }

  ghost function Flags(ps: seq<Packet>): (f: seq<bool>)
    ensures |f| == |ps| && forall i :: 0 <= i < |ps| ==> f[i] == ps[i].valid
  {
    seq(|ps|, i requires 0 <= i < |ps| => ps[i].valid)
  }

  lemma {:induction false} CountsOfFlags(ps: seq<Packet>, got: seq<bool>)
    requires |ps| == |got| && forall i :: 0 <= i < |ps| ==> ps[i].valid == got[i] && ps[i].crc == ps[i].valid
    ensures Missing(ps) == |ps| - CountTrue(got) && Corrupted(ps) == 0 && GoodCount(ps) == CountTrue(got)
  {
    if |ps| > 0 {
      CountsOfFlags(ps[1..], got[1..]);
    }
  }

  lemma SlotsAreSamples(cfg: Config, blocks: seq<Blocks>, idxs: seq<nat>, ps: seq<Packet>, m: nat)
    requires cfg.Valid() && GoodBlocks(cfg, blocks) && m < |blocks| && SlotsMatch(cfg, blocks, idxs, ps, m)
    ensures Samples(DataPackets(cfg, ps), FecPackets(cfg, ps), blocks[m], cfg.packSize)
  {
    hide Parity;
    var ds, fs := DataPackets(cfg, ps), FecPackets(cfg, ps);
    forall i | 0 <= i < cfg.d
      ensures |ds[i].data| == BUFFER && (ds[i].Good() ==> ds[i].data[..cfg.packSize] == blocks[m][i])
    {
      DataSlotExact(i, cfg.d, cfg.f);
      assert SlotHolds(cfg, blocks, idxs, ps[DataSlot(i, cfg.f)], m, DataSlot(i, cfg.f));
    }
    forall j | 0 <= j < cfg.f
      ensures |fs[j].data| == BUFFER &&
        (fs[j].valid ==> fs[j].crc && fs[j].data[..cfg.packSize] == Parity(blocks[m], j, cfg.packSize))
    {
      FecSlotExact(j, cfg.d, cfg.f);
      assert SlotHolds(cfg, blocks, idxs, ps[FecSlot(j, cfg.d)], m, FecSlot(j, cfg.d));
    }
  }

  lemma EnoughDoesNotFail(cfg: Config, blocks: seq<Blocks>, idxs: seq<nat>, ps: seq<Packet>, m: nat)
    requires cfg.Valid() && GoodBlocks(cfg, blocks) && SlotsMatch(cfg, blocks, idxs, ps, m) && Enough(cfg, idxs, m)
    ensures !Failed(DataPackets(cfg, ps), FecPackets(cfg, ps))
  {
    var ds, fs := DataPackets(cfg, ps), FecPackets(cfg, ps);
    forall i | 0 <= i < cfg.d
      ensures ds[i].valid == DataGot(cfg, idxs, m)[i] && ds[i].crc == ds[i].valid
    {
      DataSlotExact(i, cfg.d, cfg.f);
      assert SlotHolds(cfg, blocks, idxs, ps[DataSlot(i, cfg.f)], m, DataSlot(i, cfg.f));
    }
    forall j | 0 <= j < cfg.f
      ensures fs[j].valid == FecGot(cfg, idxs, m)[j] && fs[j].crc == fs[j].valid
    {
      FecSlotExact(j, cfg.d, cfg.f);
      assert SlotHolds(cfg, blocks, idxs, ps[FecSlot(j, cfg.d)], m, FecSlot(j, cfg.d));
    }
    CountsOfFlags(ds, DataGot(cfg, idxs, m));
    CountsOfFlags(fs, FecGot(cfg, idxs, m));
  }

  /** The flush of a sufficiently received block publishes its payloads. */
  lemma FlushPublishes(cfg: Config, blocks: seq<Blocks>, idxs: seq<nat>, ps: seq<Packet>, m: nat)
    requires cfg.Valid() && GoodBlocks(cfg, blocks) && m < |blocks|
    requires SlotsMatch(cfg, blocks, idxs, ps, m) && Enough(cfg, idxs, m)
    ensures GoodBlock(cfg, blocks[m])
    ensures FullBuffers(DataPackets(cfg, ps)) && FullBuffers(FecPackets(cfg, ps))
    ensures BlockChunks(cfg, DataPackets(cfg, ps), FecPackets(cfg, ps)) == Expected(blocks[m], cfg.packSize)
  {
    hide Expected, BlockChunks, SlotsMatch, Enough;
    SlotAt(cfg, blocks, idxs, ps, m, 0);
    SlotsAreSamples(cfg, blocks, idxs, ps, m);
    EnoughDoesNotFail(cfg, blocks, idxs, ps, m);
    RecoveredBlockPublishes(cfg, DataPackets(cfg, ps), FecPackets(cfg, ps), blocks[m]);
  }

  // ---------- the log ----------

  /** Block b was flushed, with the payloads of the original. */
  ghost predicate Flushed(cfg: Config, blocks: seq<Blocks>, e: Event, b: nat)
    requires cfg.Valid() && GoodBlocks(cfg, blocks) && b < |blocks|
  {
    GoodBlock(cfg, blocks[b]) && e.Flush? && e.block == b && e.chunks == Expected(blocks[b], cfg.packSize)
  }

  /** One restart (the first packet always looks like one), then blocks 0 .. m-1 in order. */
  ghost predicate LogIs(cfg: Config, blocks: seq<Blocks>, log: seq<Event>, m: nat)
    requires cfg.Valid() && GoodBlocks(cfg, blocks)
  {
    && m <= |blocks| && |log| == m + 1 && log[0] == Restart
    && forall i :: 1 <= i <= m ==> Flushed(cfg, blocks, log[i], i - 1)
  }

  /** The receiver after the packets with indices idxs. */
  ghost predicate Tracking(cfg: Config, blocks: seq<Blocks>, idxs: seq<nat>, g: Ground, m: nat)
    requires cfg.Valid() && GoodBlocks(cfg, blocks)
  {
    && g.Shaped(cfg) && g.maxBlock == g.blockNum == m
    && SlotsMatch(cfg, blocks, idxs, g.packets, m)
    && g.bufLen == CountTrue(Flags(g.packets))
    && LogIs(cfg, blocks, g.log, m)
  }

  lemma LogExtends(cfg: Config, blocks: seq<Blocks>, log: seq<Event>, m: nat, good: nat, chunks: seq<Chunk>)
    requires cfg.Valid() && GoodBlocks(cfg, blocks) && LogIs(cfg, blocks, log, m) && m < |blocks|
    requires GoodBlock(cfg, blocks[m]) && chunks == Expected(blocks[m], cfg.packSize)
    ensures LogIs(cfg, blocks, log + [Flush(m, good, chunks)], m + 1)
  {
    hide Expected, GoodBlock;
  }

  lemma EmptySlots(cfg: Config, blocks: seq<Blocks>, idxs: seq<nat>, ps: seq<Packet>, m: nat)
    requires cfg.Valid() && GoodBlocks(cfg, blocks) && |ps| == cfg.N()
    requires forall s :: 0 <= s < |ps| ==> !ps[s].valid && !ps[s].crc && |ps[s].data| == BUFFER
    requires forall x :: x in idxs ==> BlockOf(cfg, x) != m
    ensures SlotsMatch(cfg, blocks, idxs, ps, m) && CountTrue(Flags(ps)) == 0
  {
    forall s | 0 <= s < cfg.N()
      ensures SlotHolds(cfg, blocks, idxs, ps[s], m, s)
    {
      AddressParts(cfg, m, s);
    }
    CountNone(Flags(ps));
  }

  /** Flushing block m moves the receiver on to block m + 1. */
  lemma AdvanceTracks(cfg: Config, blocks: seq<Blocks>, idxs: seq<nat>, g: Ground, m: nat, residue: Blocks)
    requires cfg.Valid() && GoodBlocks(cfg, blocks) && Tracking(cfg, blocks, idxs, g, m) && ResidueFor(cfg, residue)
    requires m < |blocks| && m != NONE && Enough(cfg, idxs, m)
    requires forall x :: x in idxs ==> BlockOf(cfg, x) <= m
    ensures Tracking(cfg, blocks, idxs, Advance(cfg, g, false, m + 1, residue), m + 1)
    ensures Advance(cfg, g, false, m + 1, residue).bufLen == 0
  {
    hide BlockChunks, SlotsMatch, LogIs, Expected, Enough, GoodBlock;
    FlushPublishes(cfg, blocks, idxs, g.packets, m);
    var ds, fs := DataPackets(cfg, g.packets), FecPackets(cfg, g.packets);
    LogExtends(cfg, blocks, g.log, m, GoodCount(ds) + GoodCount(fs), BlockChunks(cfg, ds, fs));
    EmptySlots(cfg, blocks, idxs, Receiver.Emptied(residue), m + 1);
  }

  // ---------- storing ----------

  lemma SlotsAfterStore(cfg: Config, blocks: seq<Blocks>, idxs: seq<nat>, ps: seq<Packet>, m: nat, x: nat, p: Packet)
    requires cfg.Valid() && GoodBlocks(cfg, blocks) && SlotsMatch(cfg, blocks, idxs, ps, m)
    requires BlockOf(cfg, x) == m < |blocks|
    requires p.valid && p.crc && |p.data| == BUFFER && p.data[..cfg.packSize] == SlotBytes(cfg, blocks[m], SlotOf(cfg, x))
    ensures SlotsMatch(cfg, blocks, idxs + [x], ps[SlotOf(cfg, x) := p], m)
  {
    hide SlotBytes;
    AddressOf(cfg, x);
    var ps' := ps[SlotOf(cfg, x) := p];
    forall s | 0 <= s < cfg.N()
      ensures SlotHolds(cfg, blocks, idxs + [x], ps'[s], m, s)
    {
      AddressParts(cfg, m, s);
      assert SlotHolds(cfg, blocks, idxs, ps[s], m, s);
    }
  }

  lemma SlotsAfterOther(cfg: Config, blocks: seq<Blocks>, idxs: seq<nat>, ps: seq<Packet>, m: nat, x: nat)
    requires cfg.Valid() && GoodBlocks(cfg, blocks) && SlotsMatch(cfg, blocks, idxs, ps, m)
    requires BlockOf(cfg, x) != m || x in idxs
    ensures SlotsMatch(cfg, blocks, idxs + [x], ps, m)
  {
    hide SlotBytes;
    forall s | 0 <= s < cfg.N()
      ensures SlotHolds(cfg, blocks, idxs + [x], ps[s], m, s)
    {
      AddressParts(cfg, m, s);
      assert SlotHolds(cfg, blocks, idxs, ps[s], m, s);
    }
  }

  /** The message made of the packet with index x. */
  ghost function MessageAt(cfg: Config, blocks: seq<Blocks>, x: nat): Message
    requires cfg.Valid() && GoodBlocks(cfg, blocks) && BlockOf(cfg, x) < |blocks|
  {
    Message(Wrap32(x), SlotBytes(cfg, blocks[BlockOf(cfg, x)], SlotOf(cfg, x)), true)
  }

  lemma SlotBytesSize(cfg: Config, data: Blocks, s: nat)
    requires cfg.Valid() && |data| == cfg.d && Sized(data, cfg.packSize) && s < cfg.N()
    ensures |SlotBytes(cfg, data, s)| == cfg.packSize
  {
    SlotsExact(s, cfg.d, cfg.f);
  }

  lemma StoreTracks(cfg: Config, blocks: seq<Blocks>, idxs: seq<nat>, g: Ground, m: nat, x: nat)
    requires cfg.Valid() && GoodBlocks(cfg, blocks) && Tracking(cfg, blocks, idxs, g, m)
    requires BlockOf(cfg, x) == m < |blocks| && x < TWO32
    ensures MessageAt(cfg, blocks, x).Valid()
    ensures Tracking(cfg, blocks, idxs + [x], Store(cfg, g, MessageAt(cfg, blocks, x)), m)
    ensures g.bufLen <= Store(cfg, g, MessageAt(cfg, blocks, x)).bufLen <= g.bufLen + 1
  {
    hide SlotBytes, LogIs, SlotsMatch, Store, BlockOf, SlotOf;
    var msg := MessageAt(cfg, blocks, x);
    var slot := SlotOf(cfg, x);
    SlotBytesSize(cfg, blocks[m], slot);
    SmallNumber(x);
    AddressOf(cfg, x);
    SlotAt(cfg, blocks, idxs, g.packets, m, slot);
    var q := StoredPacket(cfg, g, msg);
    if g.packets[slot].crc {
      SlotsAfterOther(cfg, blocks, idxs, g.packets, m, x);
    } else {
      SlotsAfterStore(cfg, blocks, idxs, g.packets, m, x, q);
      FlagSet(g.packets, slot, q);
    }
  }

  lemma SmallNumber(x: nat)
    requires x < TWO32
    ensures Wrap32(x) == x
  {
  }

  lemma FlagSet(ps: seq<Packet>, s: nat, q: Packet)
    requires s < |ps| && q.valid && !ps[s].valid
    ensures CountTrue(Flags(ps[s := q])) == CountTrue(Flags(ps)) + 1
  {
    CountSet(Flags(ps), s);
    assert Flags(ps[s := q]) == Flags(ps)[s := true];
  }

  /** What storing an intact packet leaves behind. */
  lemma StoredPacket(cfg: Config, g: Ground, msg: Message) returns (q: Packet)
    requires cfg.Valid() && g.Shaped(cfg) && msg.Valid() && msg.crc
    ensures q.valid && q.crc && |q.data| == BUFFER && q.data[..|msg.payload|] == msg.payload
    ensures var slot := SlotOf(cfg, msg.seqNr);
            Store(cfg, g, msg) == if g.packets[slot].crc then g
                                  else g.(packets := g.packets[slot := q], bufLen := g.bufLen + 1)
  {
    hide Patch;
    var p := g.packets[SlotOf(cfg, msg.seqNr)];
    Patched(p.data, 0, msg.payload);
    q := Packet(true, true, |msg.payload|, Patch(p.data, 0, msg.payload));
  }

  lemma SlotAt(cfg: Config, blocks: seq<Blocks>, idxs: seq<nat>, ps: seq<Packet>, m: nat, s: nat)
    requires cfg.Valid() && GoodBlocks(cfg, blocks) && SlotsMatch(cfg, blocks, idxs, ps, m) && s < cfg.N()
    ensures |ps| == cfg.N() && SlotHolds(cfg, blocks, idxs, ps[s], m, s)
  {
  }

  /** A full buffer means every packet of the block arrived. */
  lemma FullIsEnough(cfg: Config, blocks: seq<Blocks>, idxs: seq<nat>, ps: seq<Packet>, m: nat)
    requires cfg.Valid() && GoodBlocks(cfg, blocks) && SlotsMatch(cfg, blocks, idxs, ps, m)
    requires CountTrue(Flags(ps)) == cfg.N()
    ensures Enough(cfg, idxs, m)
  {
    CountAll(Flags(ps));
    var dg := DataGot(cfg, idxs, m);
    forall i | 0 <= i < cfg.d
      ensures dg[i]
    {
      DataSlotExact(i, cfg.d, cfg.f);
      SlotAt(cfg, blocks, idxs, ps, m, DataSlot(i, cfg.f));
    }
    CountFull(dg);
  }

  lemma {:induction false} CountFull(s: seq<bool>)
    requires forall i :: 0 <= i < |s| ==> s[i]
    ensures CountTrue(s) == |s|
  {
    if |s| > 0 {
      CountFull(s[1..]);
    }
  }

  // ---------- one packet ----------

  /** Every block that is over when the run ends was sufficiently received. */
  ghost predicate EnoughBefore(cfg: Config, idxs: seq<nat>)
    requires cfg.Valid()
  {
    |idxs| > 0 ==> forall b :: 0 <= b < BlockOf(cfg, idxs[|idxs| - 1]) ==> Enough(cfg, idxs, b)
  }

  /** A finished block was sufficiently received already by the packets before the next block. */
  lemma EnoughInPrefix(cfg: Config, idxs: seq<nat>, k: nat, b: nat)
    requires cfg.Valid() && InSequence(idxs) && EnoughBefore(cfg, idxs) && k < |idxs| && b < BlockOf(cfg, idxs[k])
    ensures Enough(cfg, idxs[..k], b)
  {
    hide Enough, BlockOf;
    BlockOrder(cfg, idxs[k], idxs[|idxs| - 1]);
    forall x | BlockOf(cfg, x) == b && x in idxs
      ensures x in idxs[..k]
    {
      var i :| 0 <= i < |idxs| && idxs[i] == x;
      if i >= k {
        BlockOrder(cfg, idxs[k], x);
      }
      assert idxs[..k][i] == x;
    }
    EnoughLocal(cfg, idxs, idxs[..k], b);
  }

  /** So no block is skipped: the next packet belongs to the current block or its neighbour. */
  lemma NoBlockSkipped(cfg: Config, idxs: seq<nat>, k: nat, m: nat)
    requires cfg.Valid() && InSequence(idxs) && EnoughBefore(cfg, idxs) && k < |idxs|
    requires forall x :: x in idxs[..k] ==> BlockOf(cfg, x) <= m
    ensures BlockOf(cfg, idxs[k]) <= m + 1
  {
    hide Enough, BlockOf;
    if BlockOf(cfg, idxs[k]) > m + 1 {
      EnoughInPrefix(cfg, idxs, k, m + 1);
      var x := EnoughMeansSome(cfg, idxs[..k], m + 1);
    }
  }

  /** The current block is the one of the last packet, or the one after it when that was full. */
  ghost predicate AtBlock(cfg: Config, idxs: seq<nat>, k: nat, m: nat)
    requires cfg.Valid() && k <= |idxs|
  {
    k > 0 && (BlockOf(cfg, idxs[k - 1]) == m || BlockOf(cfg, idxs[k - 1]) + 1 == m)
  }

  lemma PrefixBelow(cfg: Config, idxs: seq<nat>, k: nat, m: nat)
    requires cfg.Valid() && InSequence(idxs) && k <= |idxs| && AtBlock(cfg, idxs, k, m)
    ensures forall x :: x in idxs[..k] ==> BlockOf(cfg, x) <= m
  {
    hide BlockOf;
    forall x | x in idxs[..k]
      ensures BlockOf(cfg, x) <= m
    {
      var i :| 0 <= i < k && idxs[..k][i] == x;
      BlockOrder(cfg, idxs[i], idxs[k - 1]);
    }
  }

  /** Receiving into the current block, and flushing it when it is full. */
  lemma StoreAndFlush(cfg: Config, blocks: seq<Blocks>, idxs: seq<nat>, g: Ground, m: nat, x: nat, restart: bool, residue: Blocks)
    returns (m': nat)
    requires cfg.Valid() && GoodBlocks(cfg, blocks) && Tracking(cfg, blocks, idxs, g, m) && ResidueFor(cfg, residue)
    requires BlockOf(cfg, x) == m < |blocks| && x < TWO32 && m < NONE
    requires forall h :: h in idxs ==> BlockOf(cfg, h) <= m
    requires restart ==> g.bufLen == 0
    ensures MessageAt(cfg, blocks, x).Valid() && (m' == m || m' == m + 1)
    ensures var g2 := Store(cfg, g, MessageAt(cfg, blocks, x));
            Tracking(cfg, blocks, idxs + [x],
                     if g2.bufLen == cfg.N() then Advance(cfg, g2, restart, m + 1, residue) else g2, m')
  {
    hide SlotBytes, LogIs, SlotsMatch, Enough, BlockOf, SlotOf, Advance, MessageAt, GoodBlock;
    StoreTracks(cfg, blocks, idxs, g, m, x);
    var g2 := Store(cfg, g, MessageAt(cfg, blocks, x));
    m' := m;
    if g2.bufLen == cfg.N() {
      FullIsEnough(cfg, blocks, idxs + [x], g2.packets, m);
      AdvanceTracks(cfg, blocks, idxs + [x], g2, m, residue);
      m' := m + 1;
    }
  }

  /** The first packet: it looks like a transmitter restart and belongs to block zero. */
  lemma FirstPacket(cfg: Config, blocks: seq<Blocks>, idxs: seq<nat>, g: Ground, residue: Blocks)
    returns (m: nat)
    requires cfg.Valid() && GoodBlocks(cfg, blocks) && Initial(cfg, g) && ResidueFor(cfg, residue)
    requires InSequence(idxs) && EnoughBefore(cfg, idxs) && |idxs| > 0
    requires BlockOf(cfg, idxs[0]) < |blocks| && idxs[0] < TWO32
    ensures MessageAt(cfg, blocks, idxs[0]).Valid()
    ensures AtBlock(cfg, idxs, 1, m)
    ensures Tracking(cfg, blocks, idxs[..1], Step(cfg, g, MessageAt(cfg, blocks, idxs[0]), residue), m)
  {
    hide SlotBytes, LogIs, SlotsMatch, Enough, BlockOf, SlotOf, Store, GoodBlock, Address;
    var x := idxs[0];
    if BlockOf(cfg, x) > 0 {
      EnoughInPrefix(cfg, idxs, 0, 0);
      var h := EnoughMeansSome(cfg, idxs[..0], 0);
    }
    var g1 := Advance(cfg, g, true, 0, residue);
    EmptySlots(cfg, blocks, [], g1.packets, 0);
    LogStarts(cfg, blocks);
    assert g1.log == [Restart];
    m := StoreAndFlush(cfg, blocks, [], g1, 0, x, true, residue);
    assert [] + [x] == idxs[..1];
  }

  lemma LogStarts(cfg: Config, blocks: seq<Blocks>)
    requires cfg.Valid() && GoodBlocks(cfg, blocks)
    ensures LogIs(cfg, blocks, [Restart], 0)
  {
  }

  /** Any later packet. */
  lemma NextPacket(cfg: Config, blocks: seq<Blocks>, idxs: seq<nat>, k: nat, g: Ground, m: nat, residue: Blocks)
    returns (m': nat)
    requires cfg.Valid() && GoodBlocks(cfg, blocks) && ResidueFor(cfg, residue)
    requires InSequence(idxs) && EnoughBefore(cfg, idxs) && k < |idxs| && AtBlock(cfg, idxs, k, m)
    requires Tracking(cfg, blocks, idxs[..k], g, m) && m < NONE - 1
    requires BlockOf(cfg, idxs[k]) < |blocks| && idxs[k] < TWO32
    ensures MessageAt(cfg, blocks, idxs[k]).Valid()
    ensures AtBlock(cfg, idxs, k + 1, m')
    ensures Tracking(cfg, blocks, idxs[..k + 1], Step(cfg, g, MessageAt(cfg, blocks, idxs[k]), residue), m')
  {
    hide SlotBytes, LogIs, SlotsMatch, Enough, BlockOf, SlotOf, Store, GoodBlock, Address, Advance, EnoughBefore;
    var x, prefix := idxs[k], idxs[..k];
    var b := BlockOf(cfg, x);
    MessageBlock(cfg, blocks, x);
    PrefixBelow(cfg, idxs, k, m);
    NoBlockSkipped(cfg, idxs, k, m);
    BlockOrder(cfg, idxs[k - 1], x);
    assert prefix + [x] == idxs[..k + 1];
    if b == m {
      m' := StoreAndFlush(cfg, blocks, prefix, g, m, x, false, residue);
    } else if b == m + 1 {
      EnoughInPrefix(cfg, idxs, k, m);
      AdvanceTracks(cfg, blocks, prefix, g, m, residue);
      m' := StoreAndFlush(cfg, blocks, prefix, Advance(cfg, g, false, b, residue), b, x, false, residue);
    } else {
      m' := m;
      SlotsAfterOther(cfg, blocks, prefix, g.packets, m, x);
    }
  }

  lemma MessageBlock(cfg: Config, blocks: seq<Blocks>, x: nat)
    requires cfg.Valid() && GoodBlocks(cfg, blocks) && BlockOf(cfg, x) < |blocks| && x < TWO32
    ensures MessageAt(cfg, blocks, x).Valid() && MessageAt(cfg, blocks, x).seqNr == x && MessageAt(cfg, blocks, x).crc
  {
    SlotBytesSize(cfg, blocks[BlockOf(cfg, x)], SlotOf(cfg, x));
  }

  // ---------- whole runs ----------

  /** The arrivals are an in-order selection of the transmitted packets, with losses and
      duplicates but no corruption. */
  ghost predicate Delivered(sent: seq<VideoPacket>, idxs: seq<nat>, xs: seq<Arrival>)
  {
    && |xs| == |idxs| && InSequence(idxs)
    && forall k :: 0 <= k < |idxs| ==>
         idxs[k] < |sent| && xs[k].m == Message(sent[idxs[k]].seqNr, sent[idxs[k]].bytes, true)
  }

  lemma DeliveredMessage(cfg: Config, blocks: seq<Blocks>, idxs: seq<nat>, xs: seq<Arrival>, k: nat)
    requires cfg.Valid() && GoodBlocks(cfg, blocks) && Delivered(Transmission(cfg, blocks), idxs, xs) && k < |idxs|
    requires |Transmission(cfg, blocks)| <= TWO32
    ensures idxs[k] < TWO32 && BlockOf(cfg, idxs[k]) < |blocks| && xs[k].m == MessageAt(cfg, blocks, idxs[k])
  {
    TransmissionAt(cfg, blocks, idxs[k]);
  }

  lemma BlocksSmall(cfg: Config, blocks: seq<Blocks>, x: nat)
    requires cfg.Valid() && x < TWO32
    ensures BlockOf(cfg, x) < 0x8000_0000
  {
    BlockNumberSmall(x, cfg.N());
  }

  lemma {:induction false} RunTracks(cfg: Config, blocks: seq<Blocks>, idxs: seq<nat>, xs: seq<Arrival>, g: Ground, k: nat)
    returns (m: nat)
    requires cfg.Valid() && GoodBlocks(cfg, blocks) && Initial(cfg, g) && Arrivals(cfg, xs)
    requires Delivered(Transmission(cfg, blocks), idxs, xs) && EnoughBefore(cfg, idxs)
    requires |Transmission(cfg, blocks)| <= TWO32 && 0 < k <= |idxs|
    ensures AtBlock(cfg, idxs, k, m) && Tracking(cfg, blocks, idxs[..k], Run(cfg, g, xs[..k]), m)
  {
    hide Tracking, Step, EnoughBefore, MessageAt, BlockOf, Transmission;
    DeliveredMessage(cfg, blocks, idxs, xs, k - 1);
    assert xs[..k][..k - 1] == xs[..k - 1];
    var residue := xs[k - 1].residue;
    if k == 1 {
      m := FirstPacket(cfg, blocks, idxs, g, residue);
      assert xs[..0] == [];
    } else {
      var before := RunTracks(cfg, blocks, idxs, xs, g, k - 1);
      DeliveredMessage(cfg, blocks, idxs, xs, k - 2);
      BlocksSmall(cfg, blocks, idxs[k - 2]);
      m := NextPacket(cfg, blocks, idxs, k - 1, Run(cfg, g, xs[..k - 1]), before, residue);
    }
  }

  ghost function ChunkBytes(cs: seq<Chunk>): seq<byte>
  {
    if |cs| == 0 then [] else ChunkBytes(cs[..|cs| - 1]) + cs[|cs| - 1].bytes
  }

  /** All bytes handed to publish_data. */
  ghost function Published(log: seq<Event>): seq<byte>
  {
    if |log| == 0 then []
    else
      var e := log[|log| - 1];
      Published(log[..|log| - 1]) + if e.Flush? then ChunkBytes(e.chunks) else []
  }

  lemma {:induction false} ExpectedBytes(data: Blocks, n: nat, i: nat)
    requires i <= |data| && forall h :: 0 <= h < |data| ==> Framed(data[h], n)
    ensures ChunkBytes(Expected(data, n)[..i]) == Payloads(data, i, n)
  {
    hide PacketPayload, Framed;
    if i > 0 {
      ExpectedBytes(data, n, i - 1);
      var cs := Expected(data, n)[..i];
      assert cs[..i - 1] == Expected(data, n)[..i - 1];
      assert cs[i - 1] == FramedChunk(data[i - 1], n);
    }
  }

  lemma LogLast(cfg: Config, blocks: seq<Blocks>, log: seq<Event>, m: nat)
    requires cfg.Valid() && GoodBlocks(cfg, blocks) && LogIs(cfg, blocks, log, m) && m > 0
    ensures LogIs(cfg, blocks, log[..m], m - 1) && |log| == m + 1 && m <= |blocks|
    ensures GoodBlock(cfg, blocks[m - 1]) && log[m].Flush? && log[m].chunks == Expected(blocks[m - 1], cfg.packSize)
  {
    hide Flushed;
    LogPrefix(cfg, blocks, log, m);
    FlushedParts(cfg, blocks, log[m], m - 1);
  }

  lemma LogPrefix(cfg: Config, blocks: seq<Blocks>, log: seq<Event>, m: nat)
    requires cfg.Valid() && GoodBlocks(cfg, blocks) && LogIs(cfg, blocks, log, m) && m > 0
    ensures LogIs(cfg, blocks, log[..m], m - 1)
  {
    hide Flushed, GoodBlocks;
    var part := log[..m];
    assert part[0] == log[0];
    forall i | 1 <= i <= m - 1
      ensures Flushed(cfg, blocks, part[i], i - 1)
    {
      assert part[i] == log[i];
    }
  }

  lemma FlushedParts(cfg: Config, blocks: seq<Blocks>, e: Event, b: nat)
    requires cfg.Valid() && GoodBlocks(cfg, blocks) && b < |blocks| && Flushed(cfg, blocks, e, b)
    ensures GoodBlock(cfg, blocks[b]) && e.Flush? && e.chunks == Expected(blocks[b], cfg.packSize)
  {
  }

  lemma StreamStep(cfg: Config, blocks: seq<Blocks>, m: nat)
    requires GoodBlocks(cfg, blocks) && 0 < m <= |blocks|
    ensures GoodBlocks(cfg, blocks[..m]) && GoodBlocks(cfg, blocks[..m - 1]) && GoodBlock(cfg, blocks[m - 1])
    ensures Stream(cfg, blocks[..m]) == Stream(cfg, blocks[..m - 1]) + Payloads(blocks[m - 1], cfg.d, cfg.packSize)
  {
    assert blocks[..m][..m - 1] == blocks[..m - 1];
  }

  lemma PublishedStep(log: seq<Event>, m: nat)
    requires |log| == m + 1 && log[m].Flush?
    ensures Published(log) == Published(log[..m]) + ChunkBytes(log[m].chunks)
  {
  }

  lemma BlockPublishes(cfg: Config, data: Blocks)
    requires GoodBlock(cfg, data)
    ensures ChunkBytes(Expected(data, cfg.packSize)) == Payloads(data, cfg.d, cfg.packSize)
  {
    ExpectedBytes(data, cfg.packSize, cfg.d);
    assert Expected(data, cfg.packSize)[..cfg.d] == Expected(data, cfg.packSize);
  }

  lemma {:induction false} LogPublishesStream(cfg: Config, blocks: seq<Blocks>, log: seq<Event>, m: nat)
    requires cfg.Valid() && GoodBlocks(cfg, blocks) && LogIs(cfg, blocks, log, m)
    ensures m <= |blocks| && GoodBlocks(cfg, blocks[..m]) && Published(log) == Stream(cfg, blocks[..m])
  {
    hide Expected, LogIs, Stream, Published, GoodBlock, GoodBlocks, ChunkBytes, Payloads;
    if m == 0 {
      NothingPublished(cfg, blocks, log);
    } else {
      LogLast(cfg, blocks, log, m);
      LogPublishesStream(cfg, blocks, log[..m], m - 1);
      StreamStep(cfg, blocks, m);
      PublishedStep(log, m);
      BlockPublishes(cfg, blocks[m - 1]);
    }
  }

  lemma NothingPublished(cfg: Config, blocks: seq<Blocks>, log: seq<Event>)
    requires cfg.Valid() && GoodBlocks(cfg, blocks) && LogIs(cfg, blocks, log, 0)
    ensures GoodBlocks(cfg, blocks[..0]) && Published(log) == Stream(cfg, blocks[..0]) == []
  {
    assert Published(log[..0]) == [];
  }

  lemma {:induction false} StreamPrefix(cfg: Config, blocks: seq<Blocks>, m: nat)
    requires GoodBlocks(cfg, blocks) && m <= |blocks|
    ensures GoodBlocks(cfg, blocks[..m]) && Stream(cfg, blocks[..m]) <= Stream(cfg, blocks)
  {
    if m < |blocks| {
      var n := |blocks| - 1;
      StreamPrefix(cfg, blocks[..n], m);
      assert blocks[..n][..m] == blocks[..m];
    } else {
      assert blocks[..m] == blocks;
    }
  }

  /** End to end. For every input, every cutting of it into reads, and every in-order pattern
      of losses and duplicates that leaves each finished block at least as many parity packets
      as it lost data packets, the published bytes are exactly the input up to the last flushed
      block - and every block before that of the last received packet has been flushed. */
  lemma EndToEnd(cfg: Config, a: Air, chunks: seq<seq<byte>>, g: Ground, idxs: seq<nat>, xs: seq<Arrival>)
    returns (blocks: seq<Blocks>, m: nat)
    requires cfg.Valid() && Fresh(cfg, a) && ReadsFit(cfg, a, chunks) && Initial(cfg, g) && Arrivals(cfg, xs)
    requires Delivered(FeedAll(cfg, a, chunks).sent, idxs, xs) && |FeedAll(cfg, a, chunks).sent| <= TWO32
    requires EnoughBefore(cfg, idxs)
    ensures Carries(cfg, FeedAll(cfg, a, chunks), blocks, Joined(chunks)) && m <= |blocks|
    ensures Published(Run(cfg, g, xs).log) == Stream(cfg, blocks[..m])
    ensures Published(Run(cfg, g, xs).log) <= Joined(chunks)
    ensures |idxs| == 0 ==> m == 0
    ensures |idxs| > 0 ==> m == Run(cfg, g, xs).maxBlock && AtBlock(cfg, idxs, |idxs|, m)
  {
    hide Tracking, Step, EnoughBefore, Transmission, AtBlock;
    blocks := SenderCarriesInput(cfg, a, chunks);
    if |idxs| == 0 {
      m := 0;
    } else {
      m := RunTracks(cfg, blocks, idxs, xs, g, |idxs|);
      assert xs[..|idxs|] == xs && idxs[..|idxs|] == idxs;
      TrackingLog(cfg, blocks, idxs, Run(cfg, g, xs), m);
      LogPublishesStream(cfg, blocks, Run(cfg, g, xs).log, m);
    }
    StreamPrefix(cfg, blocks, m);
  }

  lemma TrackingLog(cfg: Config, blocks: seq<Blocks>, idxs: seq<nat>, g: Ground, m: nat)
    requires cfg.Valid() && GoodBlocks(cfg, blocks) && Tracking(cfg, blocks, idxs, g, m)
    ensures g.maxBlock == m <= |blocks| && LogIs(cfg, blocks, g.log, m)
  {
  }
}
