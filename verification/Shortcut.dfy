/** The shortcut that flushes a block as soon as its buffer counts a full set of packets:
    when it is right, and a run in which it is not. */
module Shortcut {
  import opened Memory
  import opened Code
  import opened Selection
  import opened Receiver
  import opened ReceiverLaws

  /** Slots that hold a packet. */
  function Filled(ps: seq<Packet>): nat { |ps| - Missing(ps) }

  lemma {:induction false} MissingUpdate(ps: seq<Packet>, s: nat, p: Packet)
    requires s < |ps|
    ensures Missing(ps[s := p]) + (if ps[s].valid then 0 else 1) == Missing(ps) + (if p.valid then 0 else 1)
  {
    if s > 0 {
      MissingUpdate(ps[1..], s - 1, p);
      assert ps[s := p][1..] == ps[1..][s - 1 := p];
    } else {
      assert ps[s := p][1..] == ps[1..];
    }
  }

  lemma {:induction false} AllFilled(ps: seq<Packet>)
    ensures Filled(ps) == |ps| <==> forall s :: 0 <= s < |ps| ==> ps[s].valid
  {
    if |ps| > 0 {
      AllFilled(ps[1..]);
      assert forall s :: 0 <= s < |ps| - 1 ==> ps[1..][s] == ps[s + 1];
      assert (forall s :: 0 <= s < |ps| ==> ps[s].valid) <==>
             ps[0].valid && forall s :: 0 <= s < |ps| - 1 ==> ps[1..][s].valid
      by {
        if ps[0].valid && forall s :: 0 <= s < |ps| - 1 ==> ps[1..][s].valid {
          forall s | 0 <= s < |ps|
            ensures ps[s].valid
          {
            assert s > 0 ==> ps[s] == ps[1..][s - 1];
          }
        }
      }
    }
  }

  lemma {:induction false} NoneFilled(ps: seq<Packet>)
    requires forall s :: 0 <= s < |ps| ==> !ps[s].valid
    ensures Filled(ps) == 0
  {
    if |ps| > 0 {
      NoneFilled(ps[1..]);
    }
  }

  /** The packet opens a new block. */
  ghost predicate Moves(cfg: Config, g: Ground, m: Message)
    requires cfg.Valid()
  {
    var block := BlockOf(cfg, m.seqNr);
    (block > g.maxBlock || RestartSeen(block, g.maxBlock)) && m.crc
  }

  /** The packet is for the block in the buffer. */
  ghost predicate Belongs(cfg: Config, g: Ground, m: Message)
    requires cfg.Valid()
  {
    !Moves(cfg, g, m) && g.blockNum == BlockOf(cfg, m.seqNr)
  }

  /** The packet replaces a corrupt one in its slot. */
  ghost predicate Overwrites(cfg: Config, g: Ground, m: Message)
    requires cfg.Valid() && g.Shaped(cfg)
  {
    Belongs(cfg, g, m) && g.packets[SlotOf(cfg, m.seqNr)].Corrupt()
  }

  /** The packet makes the buffer count a full block, which is flushed at once. */
  ghost predicate Shortcuts(cfg: Config, g: Ground, m: Message)
    requires cfg.Valid() && g.Shaped(cfg) && m.Valid()
  {
    Belongs(cfg, g, m) && Store(cfg, g, m).bufLen == cfg.N() && m.crc
  }

  /** Corrupt packets of the block in the buffer that were replaced so far. */
  ghost function Overwritten(cfg: Config, g: Ground, xs: seq<Arrival>): nat
    requires cfg.Valid() && g.Shaped(cfg) && Arrivals(cfg, xs)
  {
    if |xs| == 0 then 0
    else
      var before, m := Run(cfg, g, xs[..|xs| - 1]), xs[|xs| - 1].m;
      if Moves(cfg, before, m) || Shortcuts(cfg, before, m) then 0
      else Overwritten(cfg, g, xs[..|xs| - 1]) + if Overwrites(cfg, before, m) then 1 else 0
  }

  /** The buffer counts what its slots hold, and every replacement once more. */
  ghost predicate Counted(cfg: Config, g: Ground, n: nat)
  {
    && g.Shaped(cfg) && g.bufLen == Filled(g.packets) + n
    && (g.blockNum == NONE ==> Filled(g.packets) == 0)
    && forall s :: 0 <= s < |g.packets| ==> g.packets[s].crc ==> g.packets[s].valid
  }

  lemma StoreCounted(cfg: Config, g: Ground, m: Message, n: nat)
    requires cfg.Valid() && Counted(cfg, g, n) && m.Valid() && g.blockNum != NONE
    ensures Counted(cfg, Store(cfg, g, m), n + if g.packets[SlotOf(cfg, m.seqNr)].Corrupt() then 1 else 0)
  {
    var slot := SlotOf(cfg, m.seqNr);
    var q := Store(cfg, g, m).packets[slot];
    MissingUpdate(g.packets, slot, q);
  }

  lemma AdvanceEmpties(cfg: Config, g: Ground, restart: bool, block: nat, residue: Blocks, n: nat)
    requires cfg.Valid() && Counted(cfg, g, n) && ResidueFor(cfg, residue) && block != NONE
    ensures Counted(cfg, Advance(cfg, g, restart, block, residue), 0)
    ensures var r := Advance(cfg, g, restart, block, residue);
            && r.blockNum == block && r.bufLen == 0
            && forall s :: 0 <= s < |r.packets| ==> !r.packets[s].valid && !r.packets[s].crc
  {
    hide BlockChunks, FlushStatus, Patch, Missing;
    var r := Advance(cfg, g, restart, block, residue);
    if restart || g.blockNum != NONE {
      NoneFilled(r.packets);
    } else {
      AllMissing(g.packets);
    }
  }

  lemma {:induction false} AllMissing(ps: seq<Packet>)
    requires Filled(ps) == 0
    ensures forall s :: 0 <= s < |ps| ==> !ps[s].valid
  {
    if |ps| > 0 {
      AllMissing(ps[1..]);
      assert forall s :: 1 <= s < |ps| ==> ps[s] == ps[1..][s - 1];
    }
  }

  /** What one packet does, as one of four cases. */
  lemma StepCases(cfg: Config, g: Ground, m: Message, residue: Blocks)
    requires cfg.Valid() && g.Shaped(cfg) && m.Valid() && ResidueFor(cfg, residue)
    ensures BlockOf(cfg, m.seqNr) < 0x8000_0000
    ensures var block := BlockOf(cfg, m.seqNr);
            Step(cfg, g, m, residue) ==
              if Moves(cfg, g, m) then
                Store(cfg, Advance(cfg, g, RestartSeen(block, g.maxBlock), block, residue), m)
              else if Shortcuts(cfg, g, m) then Advance(cfg, Store(cfg, g, m), false, block + 1, residue)
              else if Belongs(cfg, g, m) then Store(cfg, g, m)
              else g
  {
    hide FlushBlock, Patch, Reset;
    BlockNumberSmall(m.seqNr, cfg.N());
  }

  lemma StepCounted(cfg: Config, g: Ground, m: Message, residue: Blocks, n: nat)
    requires cfg.Valid() && Counted(cfg, g, n) && m.Valid() && ResidueFor(cfg, residue)
    ensures Counted(cfg, Step(cfg, g, m, residue),
                    if Moves(cfg, g, m) || Shortcuts(cfg, g, m) then 0
                    else n + if Overwrites(cfg, g, m) then 1 else 0)
  {
    hide Advance, Store, Filled, RestartSeen, BlockOf, SlotOf, Step;
    StepCases(cfg, g, m, residue);
    var block := BlockOf(cfg, m.seqNr);
    if Moves(cfg, g, m) {
      AdvanceEmpties(cfg, g, RestartSeen(block, g.maxBlock), block, residue, n);
      StoreCounted(cfg, Advance(cfg, g, RestartSeen(block, g.maxBlock), block, residue), m, 0);
    } else if Belongs(cfg, g, m) {
      StoreCounted(cfg, g, m, n);
      if Shortcuts(cfg, g, m) {
        AdvanceEmpties(cfg, Store(cfg, g, m), false, block + 1, residue, n + if Overwrites(cfg, g, m) then 1 else 0);
      }
    }
  }

  /** In every run the packet count exceeds the filled slots by the replaced corrupt packets. */
  lemma {:induction false} RunCounted(cfg: Config, g: Ground, xs: seq<Arrival>)
    requires cfg.Valid() && Initial(cfg, g) && Arrivals(cfg, xs)
    ensures Counted(cfg, Run(cfg, g, xs), Overwritten(cfg, g, xs))
  {
    hide Step, Moves, Shortcuts, Overwrites, Filled;
    if |xs| == 0 {
      NoneFilled(g.packets);
    } else {
      var last := xs[|xs| - 1];
      RunCounted(cfg, g, xs[..|xs| - 1]);
      StepCounted(cfg, Run(cfg, g, xs[..|xs| - 1]), last.m, last.residue, Overwritten(cfg, g, xs[..|xs| - 1]));
    }
  }

  /** In every run, when the shortcut flushes a block, all its slots are filled exactly if
      none of its corrupt packets was replaced. */
  lemma ShortcutExact(cfg: Config, g: Ground, xs: seq<Arrival>, m: Message, residue: Blocks)
    requires cfg.Valid() && Initial(cfg, g) && Arrivals(cfg, xs) && m.Valid() && ResidueFor(cfg, residue)
    requires Shortcuts(cfg, Run(cfg, g, xs), m)
    ensures var before := Run(cfg, g, xs);
            var full := Store(cfg, before, m);
            && Step(cfg, before, m, residue) == Advance(cfg, full, false, BlockOf(cfg, m.seqNr) + 1, residue)
            && ((forall s :: 0 <= s < cfg.N() ==> full.packets[s].valid)
                <==> Overwritten(cfg, g, xs) == 0 && !Overwrites(cfg, before, m))
  {
    hide Advance, Store, Filled, RestartSeen, SlotOf, BlockOf, Step, Run, Overwritten;
    var before := Run(cfg, g, xs);
    RunCounted(cfg, g, xs);
    StepCases(cfg, before, m, residue);
    StoreCounted(cfg, before, m, Overwritten(cfg, g, xs));
    AllFilled(Store(cfg, before, m).packets);
  }

  // ---------- a run in which it is wrong ----------

  /** Block 1 of two data packets and no parity, empty in the buffer. */
  ghost predicate AwaitingBlock1(cfg: Config, g: Ground)
  {
    && cfg.Valid() && cfg.d == 2 && cfg.f == 0 && g.Shaped(cfg)
    && g.maxBlock == 1 && g.blockNum == 1 && g.bufLen == 0
    && forall s :: 0 <= s < 2 ==> !g.packets[s].valid && !g.packets[s].crc
  }

  ghost predicate Receivable(cfg: Config, a: Arrival)
  {
    a.m.Valid() && ResidueFor(cfg, a.residue)
  }

  /** The first two packets, received intact, publish block 0 and leave block 1 awaited. */
  lemma FirstBlock(cfg: Config, g: Ground, a: Arrival, b: Arrival)
    requires Initial(cfg, g) && cfg.Valid() && cfg.d == 2 && cfg.f == 0 && Receivable(cfg, a) && Receivable(cfg, b)
    requires a.m.seqNr == 0 && b.m.seqNr == 1 && a.m.crc && b.m.crc
    ensures AwaitingBlock1(cfg, Step(cfg, Step(cfg, g, a.m, a.residue), b.m, b.residue))
  {
    hide FlushBlock, Patch, Advance, Missing;
    NoneFilled(g.packets);
    var g1 := Advance(cfg, g, true, 0, a.residue);
    AdvanceEmpties(cfg, g, true, 0, a.residue, 0);
    AdvanceMax(cfg, g, true, 0, a.residue);
    StoreCounted(cfg, g1, a.m, 0);
    var g2 := Store(cfg, g1, a.m);
    StepCases(cfg, g, a.m, a.residue);
    StoreCounted(cfg, g2, b.m, 0);
    var g3 := Store(cfg, g2, b.m);
    StepCases(cfg, g2, b.m, b.residue);
    AdvanceEmpties(cfg, g3, false, 1, b.residue, 0);
    AdvanceMax(cfg, g3, false, 1, b.residue);
  }

  lemma AdvanceMax(cfg: Config, g: Ground, restart: bool, block: nat, residue: Blocks)
    requires cfg.Valid() && g.Shaped(cfg) && ResidueFor(cfg, residue)
    ensures Advance(cfg, g, restart, block, residue).maxBlock == block
  {
    hide FlushBlock;
  }

  /** Packet 2 arrives corrupt and then intact: the buffer counts two, block 1 is flushed with slot 1
      empty, and packet 3 is dropped although it arrives intact. */
  lemma ShortcutTooEarly(cfg: Config, g: Ground, a: Arrival, b: Arrival, c: Arrival)
    requires AwaitingBlock1(cfg, g) && Receivable(cfg, a) && Receivable(cfg, b) && Receivable(cfg, c)
    requires a.m.seqNr == 2 && !a.m.crc && b.m.seqNr == 2 && b.m.crc && c.m.seqNr == 3 && c.m.crc
    ensures var g1 := Step(cfg, g, a.m, a.residue);
            var g2 := Store(cfg, g1, b.m);
            var g3 := Step(cfg, g1, b.m, b.residue);
            && Shortcuts(cfg, g1, b.m) && g2.bufLen == 2 && !g2.packets[1].valid
            && g3 == Advance(cfg, g2, false, 2, b.residue)
            && LastFlush(g3.log, 1, 1)
            && Step(cfg, g3, c.m, c.residue) == g3
  {
    hide FlushBlock, Patch, Advance;
    StepCases(cfg, g, a.m, a.residue);
    var g1 := Store(cfg, g, a.m);
    StepCases(cfg, g1, b.m, b.residue);
    var g2 := Store(cfg, g1, b.m);
    AdvanceMax(cfg, g2, false, 2, b.residue);
    AdvanceBlock(cfg, g2, false, 2, b.residue);
    OneGood(cfg, g2, b.residue);
    StepCases(cfg, Advance(cfg, g2, false, 2, b.residue), c.m, c.residue);
  }

  lemma AdvanceBlock(cfg: Config, g: Ground, restart: bool, block: nat, residue: Blocks)
    requires cfg.Valid() && g.Shaped(cfg) && ResidueFor(cfg, residue)
    ensures Advance(cfg, g, restart, block, residue).blockNum == block
  {
    hide FlushBlock;
  }

  ghost predicate LastFlush(log: seq<Event>, block: nat, good: nat)
  {
    |log| > 0 && log[|log| - 1].Flush? && log[|log| - 1].block == block && log[|log| - 1].good == good
  }

  lemma OneGood(cfg: Config, g: Ground, residue: Blocks)
    requires cfg.Valid() && cfg.d == 2 && cfg.f == 0 && g.Shaped(cfg) && ResidueFor(cfg, residue) && g.blockNum == 1
    requires g.packets[0].Good() && !g.packets[1].valid
    ensures LastFlush(Advance(cfg, g, false, 2, residue).log, 1, 1)
  {
    hide BlockChunks, FlushStatus;
    var ds := DataPackets(cfg, g.packets);
    assert ds == [g.packets[0], g.packets[1]];
    assert ds[1..] == [g.packets[1]] && ds[1..][1..] == [];
    assert GoodCount(ds[1..]) == 0;
    assert FecPackets(cfg, g.packets) == [];
  }

  /** Packets 0, 1, 2 corrupt, 2, 3: every packet has arrived intact, in order, and still block 1 is
      flushed with one good packet of two, and nothing is left in the buffer. */
  lemma LostThoughIntact(cfg: Config, g: Ground, xs: seq<Arrival>)
    requires cfg.Valid() && cfg.d == 2 && cfg.f == 0 && Initial(cfg, g) && Arrivals(cfg, xs) && |xs| == 5
    requires xs[0].m.seqNr == 0 && xs[1].m.seqNr == 1 && xs[2].m.seqNr == 2 && xs[3].m.seqNr == 2 && xs[4].m.seqNr == 3
    requires xs[0].m.crc && xs[1].m.crc && !xs[2].m.crc && xs[3].m.crc && xs[4].m.crc
    ensures var r := Run(cfg, g, xs);
            LastFlush(r.log, 1, 1) && r.maxBlock == 2 && r.bufLen == 0
  {
    hide Step, Store, Advance, AwaitingBlock1, LastFlush, Shortcuts;
    RunLast(cfg, g, xs, 0);
    RunLast(cfg, g, xs, 1);
    RunLast(cfg, g, xs, 2);
    RunLast(cfg, g, xs, 3);
    RunLast(cfg, g, xs, 4);
    assert xs[..5] == xs;
    FirstBlock(cfg, g, xs[0], xs[1]);
    ShortcutTooEarly(cfg, Run(cfg, g, xs[..2]), xs[2], xs[3], xs[4]);
    AdvanceFacts(cfg, Store(cfg, Run(cfg, g, xs[..3]), xs[3].m), xs[3].residue);
  }

  lemma AdvanceFacts(cfg: Config, g: Ground, residue: Blocks)
    requires cfg.Valid() && g.Shaped(cfg) && ResidueFor(cfg, residue)
    ensures Advance(cfg, g, false, 2, residue).maxBlock == 2 && Advance(cfg, g, false, 2, residue).bufLen == 0
  {
    hide FlushBlock;
  }

  lemma RunLast(cfg: Config, g: Ground, xs: seq<Arrival>, k: nat)
    requires cfg.Valid() && g.Shaped(cfg) && Arrivals(cfg, xs) && k < |xs|
    ensures Run(cfg, g, xs[..k + 1]) == Step(cfg, Run(cfg, g, xs[..k]), xs[k].m, xs[k].residue)
    ensures Run(cfg, g, xs[..0]) == g
  {
    hide Step;
    assert xs[..k + 1][..k] == xs[..k];
  }
}
