/** What every flush and every run of the receiver keeps. */
module ReceiverLaws {
  import opened Gf256
  import opened Words
  import opened Code
  import opened Selection
  import opened Receiver

  // ---------- one block ----------

  /** A data packet that arrived intact leaves the decoder byte for byte as it entered. */
  lemma GoodDataKept(ds: seq<Packet>, fs: seq<Packet>, n: nat, i: nat)
    requires FullBuffers(ds) && FullBuffers(fs) && |ds| <= 128 && |fs| <= 128 && n <= BUFFER
    requires i < |ds| && ds[i].Good()
    ensures Decoded(ds, fs, n)[i] == ds[i].data
  {
    hide Repaired, RepairPlan, Picks;
    PicksAreAPlan(ds, fs);
    PlanLengths(ds, fs);
    assert ds[i].data[..n] + ds[i].data[n..] == ds[i].data;
  }

  lemma PlanLengths(ds: seq<Packet>, fs: seq<Packet>)
    requires |ds| <= 128 && |fs| <= 128
    ensures |FecNos(Picks(ds, fs))| == |Erased(Picks(ds, fs))| == |Picks(ds, fs)|
  {
  }

  /** The packets of a block as the sender made them, seen through losses and corrupt data packets. */
  ghost predicate Samples(ds: seq<Packet>, fs: seq<Packet>, original: Blocks, n: nat)
  {
    && |original| == |ds| <= 128 && |fs| <= 128 && n <= BUFFER && Sized(original, n)
    && FullBuffers(ds) && FullBuffers(fs)
    && (forall i :: 0 <= i < |ds| && ds[i].Good() ==> ds[i].data[..n] == original[i])
    && (forall j :: 0 <= j < |fs| && fs[j].valid ==> fs[j].crc && fs[j].data[..n] == Parity(original, j, n))
  }

  /** As Samples, with corrupt parity packets of any content. */
  ghost predicate GoodSamples(ds: seq<Packet>, fs: seq<Packet>, original: Blocks, n: nat)
  {
    && |original| == |ds| <= 128 && |fs| <= 128 && n <= BUFFER && Sized(original, n)
    && FullBuffers(ds) && FullBuffers(fs)
    && (forall i :: 0 <= i < |ds| && ds[i].Good() ==> ds[i].data[..n] == original[i])
    && (forall j :: 0 <= j < |fs| && fs[j].Good() ==> fs[j].data[..n] == Parity(original, j, n))
  }

  ghost predicate TrueParity(fs: seq<Packet>, j: nat, original: Blocks, n: nat)
    requires j < |fs| <= 128 && FullBuffers(fs) && n <= BUFFER && |original| <= 128 && Sized(original, n)
  {
    fs[j].data[..n] == Parity(original, j, n)
  }

  /** Corrupt parity packets included: a block with enough good parity packets comes back exactly
      when every parity packet that was chosen carries its true bytes. */
  lemma RecoveredExactly(ds: seq<Packet>, fs: seq<Packet>, original: Blocks, n: nat)
    requires GoodSamples(ds, fs, original, n) && !Failed(ds, fs)
    ensures forall j :: 0 <= j < |Picks(ds, fs)| ==> Picks(ds, fs)[j].fi < |fs|
    ensures (forall i :: 0 <= i < |ds| ==> Decoded(ds, fs, n)[i][..n] == original[i])
       <==> (forall j :: 0 <= j < |Picks(ds, fs)| ==> TrueParity(fs, Picks(ds, fs)[j].fi, original, n))
  {
    hide Repaired, Parity, Picks, Failed;
    PicksAreAPlan(ds, fs);
    SelectedValid(ds, fs);
    var p := Picks(ds, fs);
    var stale, fec := Fronts(ds, n), Fronts(ChosenFrom(ds, fs), n);
    DecodedFronts(ds, fs, original, n);
    if forall j :: 0 <= j < |p| ==> TrueParity(fs, p[j].fi, original, n) {
      GoodUntouched(ds, fs, original, n);
      RepairRecovers(original, stale, fec, FecNos(p), Erased(p), n);
    }
    if Repaired(stale, fec, FecNos(p), Erased(p), n) == original {
      forall j | 0 <= j < |p|
        ensures TrueParity(fs, p[j].fi, original, n)
      {
        RepairedParity(stale, fec, FecNos(p), Erased(p), n, j);
      }
    }
  }

  /** The decoded fronts are the original exactly when the repaired blocks are. */
  lemma DecodedFronts(ds: seq<Packet>, fs: seq<Packet>, original: Blocks, n: nat)
    requires GoodSamples(ds, fs, original, n)
    ensures var p := Picks(ds, fs);
            && RepairPlan(|ds|, FecNos(p), Erased(p))
            && ((forall i :: 0 <= i < |ds| ==> Decoded(ds, fs, n)[i][..n] == original[i])
                <==> Repaired(Fronts(ds, n), Fronts(ChosenFrom(ds, fs), n), FecNos(p), Erased(p), n) == original)
  {
    hide Repaired, Parity, Picks;
    PicksAreAPlan(ds, fs);
    var p := Picks(ds, fs);
    var fixed := Repaired(Fronts(ds, n), Fronts(ChosenFrom(ds, fs), n), FecNos(p), Erased(p), n);
    forall i | 0 <= i < |ds|
      ensures Decoded(ds, fs, n)[i][..n] == fixed[i]
    {
      assert Decoded(ds, fs, n)[i] == fixed[i] + ds[i].data[n..];
    }
  }

  lemma GoodUntouched(ds: seq<Packet>, fs: seq<Packet>, original: Blocks, n: nat)
    requires GoodSamples(ds, fs, original, n) && !Failed(ds, fs)
    ensures forall c :: 0 <= c < |ds| && c !in Erased(Picks(ds, fs)) ==> Fronts(ds, n)[c] == original[c]
  {
    hide Parity, Picks;
    forall c | 0 <= c < |ds| && c !in Erased(Picks(ds, fs))
      ensures ds[c].data[..n] == original[c]
    {
      if !ds[c].Good() {
        PicksCover(ds, fs, c);
      }
    }
  }

  /** With enough parity packets, none of them corrupt, the whole block comes back. */
  lemma BlockRecovered(ds: seq<Packet>, fs: seq<Packet>, original: Blocks, n: nat)
    requires Samples(ds, fs, original, n) && !Failed(ds, fs)
    ensures forall i :: 0 <= i < |ds| ==> Decoded(ds, fs, n)[i][..n] == original[i]
  {
    hide Repaired, Parity, Picks, Failed;
    SelectedValid(ds, fs);
    RecoveredExactly(ds, fs, original, n);
  }

  lemma SelectedValid(ds: seq<Packet>, fs: seq<Packet>)
    requires FullBuffers(fs)
    ensures forall i :: 0 <= i < |Picks(ds, fs)| ==> Picks(ds, fs)[i].fi < |fs| && fs[Picks(ds, fs)[i].fi].valid
    ensures forall i :: 0 <= i < |Picks(ds, fs)| ==> ChosenFrom(ds, fs)[i] == fs[Picks(ds, fs)[i].fi]
  {
    SelectWellFormed(ds, fs, 0, 0, GoodCount(fs), Missing(ds));
  }

  /** A packet as the sender fills it: a length field counting itself, then that many bytes. */
  ghost predicate Framed(o: seq<byte>, n: nat)
  {
    |o| == n && n >= 4 && 4 <= Le32(o) <= n
  }

  ghost function PacketPayload(o: seq<byte>): (p: seq<byte>)
    requires |o| >= 4 && 4 <= Le32(o) <= |o|
    ensures |p| == Le32(o) - 4
  {
    o[4..Le32(o)]
  }

  /** The chunks an undamaged block publishes. */
  ghost function Expected(original: Blocks, n: nat): (cs: seq<Chunk>)
    requires forall i :: 0 <= i < |original| ==> Framed(original[i], n)
    ensures |cs| == |original|
    ensures forall i :: 0 <= i < |original| ==> Framed(original[i], n) && cs[i] == FramedChunk(original[i], n)
  {
    seq(|original|, i requires 0 <= i < |original| && Framed(original[i], n) => FramedChunk(original[i], n))
  }

  ghost function FramedChunk(o: seq<byte>, n: nat): Chunk
    requires Framed(o, n)
  {
    Chunk(Le32(o) - 4, PacketPayload(o))
  }

  lemma PublishFramed(buffer: seq<byte>, o: seq<byte>, n: nat)
    requires |buffer| == BUFFER && n <= BUFFER && Framed(o, n) && buffer[..n] == o
    ensures Publish(buffer, Le32(buffer)) == FramedChunk(o, n)
    ensures PublishDecoded(buffer, n) == Publish(buffer, Le32(buffer))
  {
    hide Le32;
    Le32Front(buffer, n);
    SliceOfFront(buffer, n, 4, Le32(o));
  }

  lemma Le32Front(buffer: seq<byte>, n: nat)
    requires 4 <= n <= |buffer|
    ensures Le32(buffer[..n]) == Le32(buffer)
  {
  }

  lemma SliceOfFront(buffer: seq<byte>, n: nat, i: nat, j: nat)
    requires i <= j <= n <= |buffer|
    ensures buffer[..n][i..j] == buffer[i..j]
  {
  }

  lemma {:induction false} ChunksOfIntactBlock(ds: seq<Packet>, bs: Blocks, original: Blocks, n: nat, i: nat)
    requires |bs| == |ds| == |original| && Sized(bs, BUFFER) && i <= |ds| && n <= BUFFER
    requires forall h :: 0 <= h < |ds| ==> Framed(original[h], n) && bs[h][..n] == original[h]
    ensures ChunksFrom(ds, bs, false, n, i) == Expected(original, n)[i..]
    decreases |ds| - i
  {
    hide Publish, PublishDecoded, PacketPayload, Framed;
    if i < |ds| {
      ChunksOfIntactBlock(ds, bs, original, n, i + 1);
      PublishFramed(bs[i], original[i], n);
      assert Expected(original, n)[i..] == [Expected(original, n)[i]] + Expected(original, n)[i + 1..];
    }
  }

  /** A recoverable block publishes exactly its original payloads, in order. */
  lemma RecoveredBlockPublishes(cfg: Config, ds: seq<Packet>, fs: seq<Packet>, original: Blocks)
    requires cfg.Valid() && |ds| == cfg.d && |fs| == cfg.f
    requires Samples(ds, fs, original, cfg.packSize) && !Failed(ds, fs)
    requires forall i :: 0 <= i < |original| ==> Framed(original[i], cfg.packSize)
    ensures BlockChunks(cfg, ds, fs) == Expected(original, cfg.packSize)
  {
    hide Publish, PublishDecoded, PacketPayload, Framed, Parity, Decoded;
    var n := cfg.packSize;
    if Missing(ds) + Corrupted(ds) > 0 {
      BlockRecovered(ds, fs, original, n);
      ChunksOfIntactBlock(ds, Decoded(ds, fs, n), original, n, 0);
      assert Expected(original, n)[0..] == Expected(original, n);
    } else {
      forall i | 0 <= i < |ds|
        ensures PlainChunks(ds)[i] == Expected(original, n)[i]
      {
        if !ds[i].Good() {
          BadCounted(ds, i);
        }
        PublishFramed(ds[i].data, original[i], n);
      }
    }
  }

  /** How many of the first i data packets were received at all. */
  ghost function Received(ds: seq<Packet>, i: nat): (n: nat)
    requires i <= |ds|
    ensures n <= i
  {
    if i == 0 then 0 else Received(ds, i - 1) + if ds[i - 1].valid then 1 else 0
  }

  lemma {:induction false} FailedChunks(ds: seq<Packet>, bs: Blocks, packSize: nat, from: nat)
    requires |bs| == |ds| && Sized(bs, BUFFER) && from <= |ds|
    ensures var cs := ChunksFrom(ds, bs, true, packSize, from);
            && |cs| + Received(ds, from) == Received(ds, |ds|)
            && forall i :: from <= i < |ds| && ds[i].valid ==>
                 0 <= Received(ds, i) - Received(ds, from) < |cs| &&
                 cs[Received(ds, i) - Received(ds, from)] == PublishDecoded(bs[i], packSize)
    decreases |ds| - from
  {
    hide PublishDecoded;
    if from < |ds| {
      FailedChunks(ds, bs, packSize, from + 1);
      ReceivedGrows(ds, from);
    }
  }

  lemma {:induction false} ReceivedGrows(ds: seq<Packet>, from: nat)
    requires from < |ds|
    ensures Received(ds, from + 1) == Received(ds, from) + if ds[from].valid then 1 else 0
  {
  }

  /** Chunk c stems from one of the first n data packets, a received one. */
  ghost predicate FromReceived(ds: seq<Packet>, n: nat, c: nat)
    requires n <= |ds|
  {
    exists i :: 0 <= i < n && ds[i].valid && Received(ds, i) == c
  }

  lemma {:induction false} EveryChunkReceived(ds: seq<Packet>, n: nat, c: nat)
    requires n <= |ds| && c < Received(ds, n)
    ensures FromReceived(ds, n, c)
  {
    if c < Received(ds, n - 1) {
      EveryChunkReceived(ds, n - 1, c);
    } else {
      assert ds[n - 1].valid && Received(ds, n - 1) == c;
    }
  }

  /** A block that could not be repaired publishes, in order, one chunk for each received data packet
      and none for a missing one: what the decoder left in its buffer, and for an intact packet what
      was sent. */
  lemma FailedBlockPublishes(cfg: Config, ds: seq<Packet>, fs: seq<Packet>)
    requires cfg.Valid() && |ds| == cfg.d && |fs| == cfg.f && FullBuffers(ds) && FullBuffers(fs)
    requires Failed(ds, fs)
    ensures |BlockChunks(cfg, ds, fs)| == Received(ds, |ds|)
    ensures forall c :: 0 <= c < |BlockChunks(cfg, ds, fs)| ==> FromReceived(ds, |ds|, c)
    ensures forall i :: 0 <= i < |ds| && ds[i].valid ==>
      Received(ds, i) < Received(ds, |ds|) &&
      BlockChunks(cfg, ds, fs)[Received(ds, i)] == PublishDecoded(Decoded(ds, fs, cfg.packSize)[i], cfg.packSize)
    ensures forall i :: 0 <= i < |ds| && ds[i].Good() && Le32(ds[i].data) <= cfg.packSize ==>
      BlockChunks(cfg, ds, fs)[Received(ds, i)] == Publish(ds[i].data, Le32(ds[i].data))
  {
    hide Publish, Decoded, Received, FromReceived, Le32;
    FailedChunks(ds, Decoded(ds, fs, cfg.packSize), cfg.packSize, 0);
    ReceivedNone(ds);
    forall c | 0 <= c < |BlockChunks(cfg, ds, fs)|
      ensures FromReceived(ds, |ds|, c)
    {
      EveryChunkReceived(ds, |ds|, c);
    }
    forall i | 0 <= i < |ds| && ds[i].Good() && Le32(ds[i].data) <= cfg.packSize
      ensures BlockChunks(cfg, ds, fs)[Received(ds, i)] == Publish(ds[i].data, Le32(ds[i].data))
    {
      GoodDataKept(ds, fs, cfg.packSize, i);
    }
  }

  lemma ReceivedNone(ds: seq<Packet>)
    ensures Received(ds, 0) == 0
  {
  }

  // ---------- order of publication ----------

  /** Between restarts the flushed block numbers strictly increase. */
  ghost predicate Increasing(log: seq<Event>)
  {
    forall i, j :: 0 <= i < j < |log| && SameEpoch(log, i, j) && log[i].Flush? && log[j].Flush? ==>
      log[i].block < log[j].block
  }

  ghost predicate SameEpoch(log: seq<Event>, i: nat, j: nat)
    requires j <= |log|
  {
    forall k :: i < k < j ==> log[k].Flush?
  }

  /** What was flushed since the last restart lies below the current block. */
  ghost predicate Below(log: seq<Event>, block: nat)
  {
    forall i :: 0 <= i < |log| && SameEpoch(log, i, |log|) && log[i].Flush? ==> log[i].block < block
  }

  /** The order invariant of the receiver. */
  ghost predicate InOrder(g: Ground)
  {
    && g.blockNum == g.maxBlock
    && Increasing(g.log)
    && if g.maxBlock == NONE then g.log == [] else Below(g.log, g.maxBlock)
  }

  lemma AppendFlush(log: seq<Event>, block: nat, good: nat, chunks: seq<Chunk>, next: nat)
    requires Increasing(log) && Below(log, block) && block < next
    ensures Increasing(log + [Flush(block, good, chunks)]) && Below(log + [Flush(block, good, chunks)], next)
  {
    var log' := log + [Flush(block, good, chunks)];
    forall i, j | 0 <= i < j < |log'| && SameEpoch(log', i, j) && log'[i].Flush? && log'[j].Flush?
      ensures log'[i].block < log'[j].block
    {
      EpochPrefix(log, log'[|log|], i, j);
    }
    forall i | 0 <= i < |log'| && SameEpoch(log', i, |log'|) && log'[i].Flush?
      ensures log'[i].block < next
    {
      if i < |log| {
        assert SameEpoch(log', i, |log|);
        EpochPrefix(log, log'[|log|], i, |log|);
      }
    }
  }

  lemma EpochPrefix(log: seq<Event>, e: Event, i: nat, j: nat)
    requires i < j <= |log| && SameEpoch(log + [e], i, j)
    ensures SameEpoch(log, i, j)
  {
    forall k | i < k < j
      ensures log[k].Flush?
    {
      assert (log + [e])[k].Flush?;
    }
  }

  lemma AppendRestart(log: seq<Event>, next: nat)
    requires Increasing(log)
    ensures Increasing(log + [Restart]) && Below(log + [Restart], next)
  {
    var log' := log + [Restart];
    forall i, j | 0 <= i < j < |log'| && SameEpoch(log', i, j) && log'[i].Flush? && log'[j].Flush?
      ensures log'[i].block < log'[j].block
    {
      EpochPrefix(log, Restart, i, j);
    }
    assert !log'[|log|].Flush?;
  }

  lemma AdvanceInOrder(cfg: Config, g: Ground, restart: bool, block: nat, residue: Blocks)
    requires cfg.Valid() && g.Shaped(cfg) && ResidueFor(cfg, residue) && InOrder(g) && block < NONE
    requires restart || (g.maxBlock != NONE && g.maxBlock < block)
    ensures InOrder(Advance(cfg, g, restart, block, residue))
    ensures Advance(cfg, g, restart, block, residue).maxBlock == block
  {
    hide BlockChunks, Increasing, Below;
    if restart {
      AppendRestart(g.log, block);
    } else {
      var ds, fs := DataPackets(cfg, g.packets), FecPackets(cfg, g.packets);
      AppendFlush(g.log, g.blockNum, GoodCount(ds) + GoodCount(fs), BlockChunks(cfg, ds, fs), block);
    }
  }

  lemma BlockNumberSmall(seqNr: nat, n: nat)
    requires seqNr < TWO32 && n >= 2
    ensures seqNr / n < 0x8000_0000
  {
    var q := seqNr / n;
    assert q * n <= seqNr;
    assert q * n == q * 2 + q * (n - 2);
  }

  /** Every packet keeps the order invariant. */
  lemma StepInOrder(cfg: Config, g: Ground, m: Message, residue: Blocks)
    requires cfg.Valid() && g.Shaped(cfg) && m.Valid() && ResidueFor(cfg, residue) && InOrder(g)
    ensures InOrder(Step(cfg, g, m, residue))
  {
    hide InOrder, Advance;
    var block := BlockOf(cfg, m.seqNr);
    var restart := RestartSeen(block, g.maxBlock);
    BlockNumberSmall(m.seqNr, cfg.N());
    SameBlock(g);
    var g1 := g;
    if (block > g.maxBlock || restart) && m.crc {
      AdvanceInOrder(cfg, g, restart, block, residue);
      g1 := Advance(cfg, g, restart, block, residue);
    }
    SameBlock(g1);
    if g1.blockNum == block {
      var g2 := Store(cfg, g1, m);
      StoreInOrder(cfg, g1, m);
      if g2.bufLen == cfg.N() && m.crc {
        AdvanceInOrder(cfg, g2, restart, block + 1, residue);
      }
    }
  }

  lemma SameBlock(g: Ground)
    requires InOrder(g)
    ensures g.blockNum == g.maxBlock
  {
  }

  lemma StoreInOrder(cfg: Config, g: Ground, m: Message)
    requires cfg.Valid() && g.Shaped(cfg) && m.Valid() && InOrder(g)
    ensures InOrder(Store(cfg, g, m)) && Store(cfg, g, m).maxBlock == g.maxBlock
  {
  }

  /** In every run, between detected restarts, blocks are published at most once and in
      increasing order, and the buffered block is the highest one seen. */
  lemma {:induction false} RunInOrder(cfg: Config, g: Ground, xs: seq<Arrival>)
    requires cfg.Valid() && Initial(cfg, g) && Arrivals(cfg, xs)
    ensures InOrder(Run(cfg, g, xs))
  {
    hide Step;
    if |xs| > 0 {
      var last := xs[|xs| - 1];
      RunInOrder(cfg, g, xs[..|xs| - 1]);
      StepInOrder(cfg, Run(cfg, g, xs[..|xs| - 1]), last.m, last.residue);
    }
  }

  // ---------- conservation ----------

  ghost function GoodFlushed(log: seq<Event>): nat
  {
    if |log| == 0 then 0
    else GoodFlushed(log[..|log| - 1]) + if log[|log| - 1].Flush? then log[|log| - 1].good else 0
  }

  ghost function Flushes(log: seq<Event>): nat
  {
    if |log| == 0 then 0 else Flushes(log[..|log| - 1]) + if log[|log| - 1].Flush? then 1 else 0
  }

  /** Flushed blocks with fewer good packets than data packets. */
  ghost function Damaged(cfg: Config, log: seq<Event>): nat
  {
    if |log| == 0 then 0
    else
      var e := log[|log| - 1];
      Damaged(cfg, log[..|log| - 1]) + if e.Flush? && e.good < cfg.d then 1 else 0
  }

  /** Packets missing or corrupt in the block flushed last. */
  ghost function LastLost(cfg: Config, log: seq<Event>): int
  {
    if |log| == 0 then 0
    else if log[|log| - 1].Flush? then cfg.d + cfg.f - log[|log| - 1].good
    else LastLost(cfg, log[..|log| - 1])
  }

  /** Every packet slot of a flushed block is accounted for, good or lost, and a block is damaged exactly
      if it holds fewer good packets than data packets were sent. */
  ghost predicate Balanced(cfg: Config, g: Ground)
  {
    && g.status.receivedBlocks == Flushes(g.log)
    && g.status.txRestart + Flushes(g.log) == |g.log|
    && g.status.lostPackets + GoodFlushed(g.log) == cfg.N() * g.status.receivedBlocks
    && g.status.damagedBlocks == Damaged(cfg, g.log)
    && g.status.lostPerBlock == LastLost(cfg, g.log)
  }

  lemma {:induction false} DamagedAreFlushed(cfg: Config, log: seq<Event>)
    ensures Damaged(cfg, log) <= Flushes(log)
  {
    if |log| > 0 {
      DamagedAreFlushed(cfg, log[..|log| - 1]);
    }
  }

  lemma FlushBalanced(cfg: Config, g: Ground, residue: Blocks)
    requires cfg.Valid() && g.Shaped(cfg) && ResidueFor(cfg, residue) && Balanced(cfg, g)
    ensures Balanced(cfg, FlushBlock(cfg, g, residue))
  {
    hide BlockChunks, Missing, Corrupted, GoodCount;
    var ds, fs := DataPackets(cfg, g.packets), FecPackets(cfg, g.packets);
    CountsAddUp(ds);
    CountsAddUp(fs);
    var e := Flush(g.blockNum, GoodCount(ds) + GoodCount(fs), BlockChunks(cfg, ds, fs));
    assert (g.log + [e])[..|g.log|] == g.log;
    assert cfg.N() * (g.status.receivedBlocks + 1) == cfg.N() * g.status.receivedBlocks + cfg.N();
  }

  lemma AdvanceBalanced(cfg: Config, g: Ground, restart: bool, block: nat, residue: Blocks)
    requires cfg.Valid() && g.Shaped(cfg) && ResidueFor(cfg, residue) && Balanced(cfg, g)
    ensures Balanced(cfg, Advance(cfg, g, restart, block, residue))
  {
    hide FlushBlock;
    if restart {
      assert (g.log + [Restart])[..|g.log|] == g.log;
    } else if g.blockNum != NONE {
      FlushBalanced(cfg, g, residue);
    }
  }

  lemma StoreBalanced(cfg: Config, g: Ground, m: Message)
    requires cfg.Valid() && g.Shaped(cfg) && m.Valid() && Balanced(cfg, g)
    ensures Balanced(cfg, Store(cfg, g, m))
  {
    hide Flushes, GoodFlushed, Damaged, LastLost;
  }

  lemma StepBalanced(cfg: Config, g: Ground, m: Message, residue: Blocks)
    requires cfg.Valid() && g.Shaped(cfg) && m.Valid() && ResidueFor(cfg, residue) && Balanced(cfg, g)
    ensures Balanced(cfg, Step(cfg, g, m, residue))
  {
    hide Advance, Balanced, Store;
    var block := BlockOf(cfg, m.seqNr);
    var restart := RestartSeen(block, g.maxBlock);
    AdvanceBalanced(cfg, g, restart, block, residue);
    var g1 := if (block > g.maxBlock || restart) && m.crc then Advance(cfg, g, restart, block, residue) else g;
    StoreBalanced(cfg, g1, m);
    AdvanceBalanced(cfg, Store(cfg, g1, m), restart, block + 1, residue);
  }

  /** Conservation in every run, corrupt packets and restarts included. */
  lemma {:induction false} RunBalanced(cfg: Config, g: Ground, xs: seq<Arrival>)
    requires cfg.Valid() && Initial(cfg, g) && Arrivals(cfg, xs)
    ensures Balanced(cfg, Run(cfg, g, xs))
    ensures Run(cfg, g, xs).status.damagedBlocks <= Run(cfg, g, xs).status.receivedBlocks
  {
    hide Step;
    DamagedAreFlushed(cfg, Run(cfg, g, xs).log);
    if |xs| > 0 {
      var last := xs[|xs| - 1];
      RunBalanced(cfg, g, xs[..|xs| - 1]);
      StepBalanced(cfg, Run(cfg, g, xs[..|xs| - 1]), last.m, last.residue);
    }
  }
}
