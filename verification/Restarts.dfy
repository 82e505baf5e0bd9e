/** What one packet does to the receiver, in terms of the block it belongs to. */
module Restarts {
  import opened Memory
  import opened Code
  import opened Selection
  import opened Receiver
  import opened Shortcut

  /** Slots other than s hold nothing. */
  ghost predicate OnlyIn(ps: seq<Packet>, s: nat)
  {
    forall i :: 0 <= i < |ps| && i != s ==> !ps[i].valid && !ps[i].crc
  }

  /** What a slot holds after a packet was stored in it. */
  ghost predicate HoldsMessage(p: Packet, was: Packet, m: Message)
    requires |was.data| == |p.data| == BUFFER && m.Valid()
  {
    && p.valid && p.crc == m.crc && p.len == |m.payload|
    && p.data[..|m.payload|] == m.payload && p.data[|m.payload|..] == was.data[|m.payload|..]
  }

  lemma StoreHolds(cfg: Config, g: Ground, m: Message)
    requires cfg.Valid() && g.Shaped(cfg) && m.Valid()
    ensures var s := m.seqNr % (cfg.d + cfg.f);
            var r := Store(cfg, g, m);
            && (g.packets[s].crc ==> r == g)
            && (!g.packets[s].crc ==>
                && HoldsMessage(r.packets[s], g.packets[s], m) && r.bufLen == g.bufLen + 1
                && r == g.(packets := g.packets[s := r.packets[s]], bufLen := g.bufLen + 1))
  {
    hide Patch;
    var s := SlotOf(cfg, m.seqNr);
    Patched(g.packets[s].data, 0, m.payload);
  }

  /** An intact packet whose block lies more than 128 below the highest one seen: the transmitter was
      restarted. That is counted, whatever was buffered is dropped unpublished, and the packet is the first one of its block. */
  lemma RestartDetected(cfg: Config, g: Ground, m: Message, residue: Blocks)
    requires cfg.Valid() && g.Shaped(cfg) && m.Valid() && ResidueFor(cfg, residue) && m.crc
    requires m.seqNr / (cfg.d + cfg.f) + 128 < g.maxBlock
    ensures var block, s := m.seqNr / (cfg.d + cfg.f), m.seqNr % (cfg.d + cfg.f);
            var r := Step(cfg, g, m, residue);
            && r.maxBlock == block && r.blockNum == block && r.bufLen == 1
            && r.status == g.status.(txRestart := g.status.txRestart + 1) && r.log == g.log + [Restart]
            && OnlyIn(r.packets, s) && HoldsMessage(r.packets[s], g.packets[s], m)
  {
    hide FlushBlock, Patch;
    var block := m.seqNr / (cfg.d + cfg.f);
    StepCases(cfg, g, m, residue);
    var a := Advance(cfg, g, true, block, residue);
    StoreHolds(cfg, a, m);
  }

  /** Any other packet leaves the restart counter alone and adds no restart to the log. */
  lemma NoRestart(cfg: Config, g: Ground, m: Message, residue: Blocks)
    requires cfg.Valid() && g.Shaped(cfg) && m.Valid() && ResidueFor(cfg, residue)
    requires !m.crc || g.maxBlock <= m.seqNr / (cfg.d + cfg.f) + 128
    ensures var r := Step(cfg, g, m, residue);
            && r.status.txRestart == g.status.txRestart
            && (r.log == g.log || (|r.log| == |g.log| + 1 && r.log[..|g.log|] == g.log && r.log[|g.log|].Flush?))
  {
    hide BlockChunks, Patch, Emptied;
    StepCases(cfg, g, m, residue);
  }

  /** An intact packet of a later block flushes what is buffered and opens its block. */
  lemma LaterBlockOpens(cfg: Config, g: Ground, m: Message, residue: Blocks)
    requires cfg.Valid() && g.Shaped(cfg) && m.Valid() && ResidueFor(cfg, residue) && m.crc
    requires m.seqNr / (cfg.d + cfg.f) > g.maxBlock && g.blockNum == g.maxBlock
    ensures var block, s := m.seqNr / (cfg.d + cfg.f), m.seqNr % (cfg.d + cfg.f);
            var r := Step(cfg, g, m, residue);
            && r.maxBlock == block && r.blockNum == block && r.bufLen == 1
            && OnlyIn(r.packets, s) && r.packets[s].valid && r.packets[s].crc
            && |r.log| == |g.log| + 1 && r.log[..|g.log|] == g.log
            && r.log[|g.log|].Flush? && r.log[|g.log|].block == g.maxBlock
            && r.status.receivedBlocks == g.status.receivedBlocks + 1
  {
    hide BlockChunks, Patch;
    var block := m.seqNr / (cfg.d + cfg.f);
    StepCases(cfg, g, m, residue);
    StoreHolds(cfg, Advance(cfg, g, false, block, residue), m);
  }

  /** A late packet, at most 128 blocks back, changes nothing. */
  lemma LatePacketIgnored(cfg: Config, g: Ground, m: Message, residue: Blocks)
    requires cfg.Valid() && g.Shaped(cfg) && m.Valid() && ResidueFor(cfg, residue)
    requires var block := m.seqNr / (cfg.d + cfg.f); block < g.maxBlock == g.blockNum && g.maxBlock <= block + 128
    ensures Step(cfg, g, m, residue) == g
  {
    hide FlushBlock, Patch;
    StepCases(cfg, g, m, residue);
  }

  /** A corrupt packet never opens, flushes or counts anything: at most it fills a slot of the block in the buffer. */
  lemma CorruptPacketContained(cfg: Config, g: Ground, m: Message, residue: Blocks)
    requires cfg.Valid() && g.Shaped(cfg) && m.Valid() && ResidueFor(cfg, residue) && !m.crc
    ensures var s := m.seqNr % (cfg.d + cfg.f);
            var r := Step(cfg, g, m, residue);
            if g.blockNum != m.seqNr / (cfg.d + cfg.f) || g.packets[s].crc then r == g
            else HoldsMessage(r.packets[s], g.packets[s], m) &&
                 r == g.(packets := g.packets[s := r.packets[s]], bufLen := g.bufLen + 1)
  {
    hide FlushBlock, Patch;
    StepCases(cfg, g, m, residue);
    StoreHolds(cfg, g, m);
  }

  /** The first intact packet of all counts as a restart. */
  lemma FirstPacketRestarts(cfg: Config, g: Ground, m: Message, residue: Blocks)
    requires cfg.Valid() && Initial(cfg, g) && m.Valid() && ResidueFor(cfg, residue) && m.crc
    ensures g.maxBlock == 0xFFFF_FFFF
    ensures Step(cfg, g, m, residue).status.txRestart == 1 && Step(cfg, g, m, residue).log == [Restart]
  {
    hide FlushBlock, Patch, Step;
    StepCases(cfg, g, m, residue);
    RestartDetected(cfg, g, m, residue);
  }
}
