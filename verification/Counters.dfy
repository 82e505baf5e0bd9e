/** What the counters say about the slots of a flushed block. */
module Counters {
  import opened Code
  import opened Slots
  import opened Selection
  import opened Receiver

  /** Slots whose packet arrived with a correct checksum. */
  ghost function GoodSlots(ps: seq<Packet>): set<nat>
  {
    set s: nat | s < |ps| && ps[s].valid && ps[s].crc
  }

  /** The good ones among some slots. */
  ghost function GoodAmong(ps: seq<Packet>, idx: seq<nat>): set<nat>
  {
    set s: nat | s in GoodSlots(ps) && s in idx
  }

  ghost predicate Positions(ps: seq<Packet>, idx: seq<nat>, qs: seq<Packet>)
  {
    && |idx| == |qs| && (forall i :: 0 <= i < |idx| ==> idx[i] < |ps| && qs[i] == ps[idx[i]])
    && forall i, j :: 0 <= i < j < |idx| ==> idx[i] != idx[j]
  }

  lemma {:induction false} CountGoodAmong(ps: seq<Packet>, idx: seq<nat>, qs: seq<Packet>)
    requires Positions(ps, idx, qs)
    ensures |GoodAmong(ps, idx)| == GoodCount(qs)
  {
    hide GoodCount, GoodAmong, Positions, GoodSlots;
    if |qs| == 0 {
      NoneGood(ps, idx, qs);
    } else {
      var n := |qs| - 1;
      LastPosition(ps, idx, qs, n);
      CountGoodAmong(ps, idx[..n], qs[..n]);
      CountAppend(qs[..n], qs[n]);
      assert qs == qs[..n] + [qs[n]];
    }
  }

  lemma LastPosition(ps: seq<Packet>, idx: seq<nat>, qs: seq<Packet>, n: nat)
    requires Positions(ps, idx, qs) && |qs| == n + 1
    ensures |idx| == n + 1 && Positions(ps, idx[..n], qs[..n])
    ensures |GoodAmong(ps, idx)| == |GoodAmong(ps, idx[..n])| + if qs[n].Good() then 1 else 0
  {
    hide GoodAmong;
    assert idx == idx[..n] + [idx[n]];
    OneMore(ps, idx[..n], idx[n]);
  }

  lemma OneMore(ps: seq<Packet>, idx: seq<nat>, s: nat)
    requires s !in idx
    ensures |GoodAmong(ps, idx + [s])| == |GoodAmong(ps, idx)| + if s in GoodSlots(ps) then 1 else 0
  {
    hide GoodSlots;
    assert GoodAmong(ps, idx + [s]) == GoodAmong(ps, idx) + if s in GoodSlots(ps) then {s} else {};
  }

  lemma NoneGood(ps: seq<Packet>, idx: seq<nat>, qs: seq<Packet>)
    requires Positions(ps, idx, qs) && |qs| == 0
    ensures |GoodAmong(ps, idx)| == 0 && GoodCount(qs) == 0
  {
    assert GoodAmong(ps, idx) == {};
  }

  ghost function DataSlots(cfg: Config): (idx: seq<nat>)
    ensures |idx| == cfg.d && forall i :: 0 <= i < cfg.d ==> idx[i] == DataSlot(i, cfg.f)
  {
    seq(cfg.d, i requires 0 <= i < cfg.d => DataSlot(i, cfg.f))
  }

  ghost function FecSlots(cfg: Config): (idx: seq<nat>)
    ensures |idx| == cfg.f && forall j :: 0 <= j < cfg.f ==> idx[j] == FecSlot(j, cfg.d)
  {
    seq(cfg.f, j requires 0 <= j < cfg.f => FecSlot(j, cfg.d))
  }

  lemma DataPositions(cfg: Config, ps: seq<Packet>)
    requires |ps| == cfg.N()
    ensures Positions(ps, DataSlots(cfg), DataPackets(cfg, ps))
    ensures forall s :: s in DataSlots(cfg) ==> s < cfg.N() && KindAt(s, cfg.d, cfg.f).Data?
  {
    hide DataSlot, FecSlot, KindAt;
    forall i | 0 <= i < cfg.d
      ensures DataSlot(i, cfg.f) < cfg.N() && KindAt(DataSlot(i, cfg.f), cfg.d, cfg.f) == Data(i)
    {
      DataSlotExact(i, cfg.d, cfg.f);
    }
  }

  lemma FecPositions(cfg: Config, ps: seq<Packet>)
    requires |ps| == cfg.N()
    ensures Positions(ps, FecSlots(cfg), FecPackets(cfg, ps))
    ensures forall s :: s in FecSlots(cfg) ==> s < cfg.N() && KindAt(s, cfg.d, cfg.f).Fec?
  {
    hide DataSlot, FecSlot, KindAt;
    forall j | 0 <= j < cfg.f
      ensures FecSlot(j, cfg.d) < cfg.N() && KindAt(FecSlot(j, cfg.d), cfg.d, cfg.f) == Fec(j)
    {
      FecSlotExact(j, cfg.d, cfg.f);
    }
  }

  /** The good slots are those of data packets and those of parity packets. */
  lemma KindsShareSlots(cfg: Config, ps: seq<Packet>)
    requires |ps| == cfg.N()
    ensures GoodAmong(ps, DataSlots(cfg)) !! GoodAmong(ps, FecSlots(cfg))
    ensures GoodAmong(ps, DataSlots(cfg)) + GoodAmong(ps, FecSlots(cfg)) == GoodSlots(ps)
  {
    hide DataSlot, FecSlot, KindAt;
    DataPositions(cfg, ps);
    FecPositions(cfg, ps);
    forall s: nat | s in GoodSlots(ps)
      ensures s in DataSlots(cfg) || s in FecSlots(cfg)
    {
      SlotsExact(s, cfg.d, cfg.f);
      match KindAt(s, cfg.d, cfg.f)
      case Data(i) => assert DataSlots(cfg)[i] == s;
      case Fec(j) => assert FecSlots(cfg)[j] == s;
    }
  }

  /** A flush counts one block, as lost every slot without a good packet, and the block as damaged exactly
      if it has fewer good slots than data packets. */
  lemma FlushCounts(cfg: Config, g: Ground, residue: Blocks)
    requires cfg.Valid() && g.Shaped(cfg) && ResidueFor(cfg, residue)
    ensures var good := |GoodSlots(g.packets)|;
            var st := FlushBlock(cfg, g, residue).status;
            && good <= cfg.d + cfg.f
            && st.txRestart == g.status.txRestart && st.receivedBlocks == g.status.receivedBlocks + 1
            && st.lostPerBlock == cfg.d + cfg.f - good && st.lostPackets == g.status.lostPackets + cfg.d + cfg.f - good
            && st.damagedBlocks == g.status.damagedBlocks + if good < cfg.d then 1 else 0
    ensures var log := FlushBlock(cfg, g, residue).log;
            && |log| == |g.log| + 1 && log[..|g.log|] == g.log
            && log[|g.log|].Flush? && log[|g.log|].block == g.blockNum && log[|g.log|].good == |GoodSlots(g.packets)|
  {
    hide BlockChunks, Missing, Corrupted, GoodCount, DataPackets, FecPackets, GoodSlots, GoodAmong, Positions;
    var ds, fs := DataPackets(cfg, g.packets), FecPackets(cfg, g.packets);
    DataPositions(cfg, g.packets);
    FecPositions(cfg, g.packets);
    CountGoodAmong(g.packets, DataSlots(cfg), ds);
    CountGoodAmong(g.packets, FecSlots(cfg), fs);
    KindsShareSlots(cfg, g.packets);
    CountsAddUp(ds);
    CountsAddUp(fs);
  }
}
