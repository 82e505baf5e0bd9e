/** process_video_payload on mutable state, refining Receiver.Step. */
module GroundUnits {
  import opened Memory
  import opened Gf256
  import opened Words
  import opened Cauchy
  import opened Code
  import opened Codec
  import opened Decoder
  import opened Slots
  import opened Selection
  import opened Receiver
  import opened ReceiverLaws

  /** The flags of a packet_buffer_t; its bytes live in a separate buffer. */
  datatype Slot = Slot(valid: bool, crc: bool, len: nat)

  const EMPTY := Slot(false, false, 0)

  class GroundUnit {
    const cfg: Config
    const lib: Library
    const buffers: seq<array<byte>>
    var slots: seq<Slot>
    var maxBlockNum: nat
    var blockNum: nat
    var packetBufferLen: nat
    var status: Status
    var log: seq<Event>

    ghost predicate Valid()
      reads this
    {
      && cfg.Valid() && lib.Valid()
      && |buffers| == |slots| == cfg.N()
      && (forall i :: 0 <= i < |buffers| ==> buffers[i].Length == BUFFER)
      && AllDistinct(buffers)
    }

    ghost function Packets(): (ps: seq<Packet>)
      requires |slots| == |buffers|
      reads this`slots, buffers
    {
      PacketsOf(slots, buffers)
    }

    /** The abstract receiver state. */
    ghost function State(): (g: Ground)
      requires Valid()
      reads this, buffers
      ensures g.Shaped(cfg)
    {
      hide Library.Valid, Config.Valid, PacketsOf, AllDistinct;
      Ground(maxBlockNum, blockNum, packetBufferLen, Packets(), status, log)
    }

    constructor (cfg: Config, lib: Library)
      requires cfg.Valid() && lib.Valid()
      ensures Valid() && Initial(cfg, State()) && this.cfg == cfg && fresh(buffers)
    {
      hide Library.Valid, PacketsOf;
      this.cfg := cfg;
      this.lib := lib;
      var bs := NewBuffers(cfg.N());
      buffers := bs;
      slots := seq(cfg.N(), _ => EMPTY);
      maxBlockNum := NONE;
      blockNum := NONE;
      packetBufferLen := 0;
      status := Status(0, 0, 0, 0, 0);
      log := [];
    }

    /** block_buffer_list_reset: every packet buffer becomes empty, its bytes stay. */
    method ResetBuffers()
      requires Valid()
      modifies this
      ensures Valid() && State() == Reset(old(State()))
    {
      hide Library.Valid, PacketsOf, Config.Valid;
      blockNum := NONE;
      packetBufferLen := 0;
      slots := seq(cfg.N(), _ => EMPTY);
      assert Packets() == Reset(old(State())).packets;
    }

    /** Find the slot of this packet and store it, unless a correct one is there already. */
    method StorePacket(m: Message)
      requires Valid() && m.Valid()
      modifies this, buffers
      ensures Valid() && State() == Store(cfg, old(State()), m)
    {
      hide Library.Valid, PacketsOf, Config.Valid, SlotOf, Patch;
      var slot := SlotOf(cfg, m.seqNr);
      if slots[slot].crc {
        return;
      }
      ghost var old' := buffers[slot][..];
      Copy(buffers[slot], 0, m.payload);
      slots := slots[slot := Slot(true, m.crc, |m.payload|)];
      packetBufferLen := packetBufferLen + 1;
      assert Packets() == Store(cfg, old(State()), m).packets;
    }

    // ---------- flushing ----------

    /** The buffers and flags at the given slots. */
    method Snapshot(idx: seq<nat>) returns (ps: seq<Packet>, bs: seq<array<byte>>)
      requires Valid() && forall i :: 0 <= i < |idx| ==> idx[i] < cfg.N()
      ensures |ps| == |bs| == |idx|
      ensures forall i :: 0 <= i < |idx| ==> ps[i] == Packets()[idx[i]] && bs[i] == buffers[idx[i]]
    {
      hide Library.Valid, PacketsOf, Config.Valid;
      ps, bs := [], [];
      for i := 0 to |idx|
        invariant |ps| == |bs| == i
        invariant forall h :: 0 <= h < i ==> ps[h] == Packets()[idx[h]] && bs[h] == buffers[idx[h]]
      {
        var s := slots[idx[i]];
        ps := ps + [Packet(s.valid, s.crc, s.len, buffers[idx[i]][..])];
        bs := bs + [buffers[idx[i]]];
      }
    }

    /** Flags and buffers of the data and parity packets, and how many are good. */
    method Collect() returns (ds: seq<Packet>, db: seq<array<byte>>, fs: seq<Packet>, fb: seq<array<byte>>,
                              datasBad: nat, fecsBad: nat)
      requires Valid()
      ensures ds == DataPackets(cfg, Packets()) && fs == FecPackets(cfg, Packets())
      ensures Snapshots(ds, db) && Snapshots(fs, fb) && AllDistinct(db) && AllDistinct(fb) && Separate(db, fb)
      ensures datasBad == Missing(ds) + Corrupted(ds) && fecsBad == Missing(fs) + Corrupted(fs)
      ensures Among(db, buffers) && Among(fb, buffers)
    {
      hide Library.Valid, PacketsOf, DataPackets, FecPackets, Missing, Corrupted, DataSlot, FecSlot,
        AllDistinct, Separate, Snapshots, SplitIdx, Among;
      var ps, bs := Snapshot(seq(cfg.N(), i requires 0 <= i < cfg.N() => i as nat));
      assert ps == Packets();
      var data, fec, datasMissing, datasCorrupt, fecsMissing, fecsCorrupt := Split(cfg, ps);
      SlotsApart(cfg, data, fec);
      ds, db := Snapshot(data);
      fs, fb := Snapshot(fec);
      SplitPackets(cfg, data, fec, ps, ds, fs);
      SplitBuffers(cfg, data, fec, buffers, db, fb);
      TakeSnapshots(data, ds, db);
      TakeSnapshots(fec, fs, fb);
      datasBad := datasMissing + datasCorrupt;
      fecsBad := fecsMissing + fecsCorrupt;
    }

    lemma TakeSnapshots(idx: seq<nat>, ds: seq<Packet>, db: seq<array<byte>>)
      requires Valid() && |ds| == |db| == |idx| && forall i :: 0 <= i < |idx| ==> idx[i] < cfg.N()
      requires forall i :: 0 <= i < |idx| ==> ds[i] == Packets()[idx[i]] && db[i] == buffers[idx[i]]
      ensures Snapshots(ds, db)
    {
      hide Library.Valid, Config.Valid, PacketsOf;
    }

    /** Split the buffered packets, decode them if a data packet is bad, and publish. */
    method FlushBuffered() returns (ghost residue: Blocks)
      requires Valid()
      modifies this, buffers
      ensures Valid() && ResidueFor(cfg, residue)
      ensures State() == FlushBlock(cfg, old(State()), residue)
    {
      hide Library.Valid, PacketsOf, DataPackets, FecPackets, Missing, Corrupted, GoodCount, Failed, FlushStatus,
        BlockChunks, Snapshots, AllDistinct, Separate, Receiver.Emptied, ResidueFor;
      var ds, db, fs, fb, datasBad, fecsBad := Collect();
      var failed := datasBad > cfg.f - fecsBad;
      FailedIs(cfg, ds, fs, datasBad, fecsBad);
      SnapshotSizes(ds, db);
      SnapshotSizes(fs, fb);
      var chunks := PublishBlock(cfg, lib, ds, db, fs, fb, datasBad > 0, failed);
      Account(ds, fs, datasBad, fecsBad, failed, chunks);
      residue := ClearSlots();
    }

    /** The counters of a flushed block, and what it published. */
    method Account(ghost ds: seq<Packet>, ghost fs: seq<Packet>, datasBad: nat, fecsBad: nat, failed: bool, chunks: seq<Chunk>)
      requires datasBad + fecsBad <= cfg.N() && |ds| == cfg.d && |fs| == cfg.f
      requires datasBad == Missing(ds) + Corrupted(ds) && fecsBad == Missing(fs) + Corrupted(fs) && failed == Failed(ds, fs)
      modifies this`status, this`log
      ensures status == FlushStatus(old(status), ds, fs)
      ensures log == old(log) + [Flush(blockNum, GoodCount(ds) + GoodCount(fs), chunks)]
    {
      hide Missing, Corrupted, GoodCount, Failed;
      CountsAddUp(ds);
      CountsAddUp(fs);
      var lost := datasBad + fecsBad;
      status := Status(status.txRestart, status.receivedBlocks + 1, lost, status.lostPackets + lost,
                       status.damagedBlocks + if failed then 1 else 0);
      log := log + [Flush(blockNum, cfg.N() - lost, chunks)];
    }

    /** Mark every packet buffer empty; its bytes stay. */
    method ClearSlots() returns (ghost residue: Blocks)
      requires Valid()
      modifies this`slots
      ensures Valid() && ResidueFor(cfg, residue) && Packets() == Receiver.Emptied(residue)
    {
      hide Library.Valid, PacketsOf, Config.Valid;
      slots := seq(cfg.N(), _ => EMPTY);
      residue := Contents(buffers);
      assert Packets() == Receiver.Emptied(residue);
    }

    /** Make room for a block: restart handling, then flush what is buffered. */
    method Advance(restart: bool, block: nat) returns (ghost residue: Blocks)
      requires Valid()
      modifies this, buffers
      ensures Valid() && ResidueFor(cfg, residue)
      ensures State() == Receiver.Advance(cfg, old(State()), restart, block, residue)
    {
      hide Library.Valid, PacketsOf, FlushBlock, Config.Valid, AllDistinct;
      if restart {
        ResetBuffers();
        status := status.(txRestart := status.txRestart + 1);
        log := log + [Restart];
      }
      residue := Contents(buffers);
      if blockNum != NONE {
        residue := FlushBuffered();
      }
      packetBufferLen := 0;
      blockNum := block;
      maxBlockNum := block;
    }

    lemma OwnResidue()
      requires Valid()
      ensures ResidueFor(cfg, Contents(buffers))
    {
      hide Library.Valid, Config.Valid, PacketsOf;
    }

    /** process_video_payload. */
    method ProcessVideoPayload(m: Message) returns (ghost residue: Blocks)
      requires Valid() && m.Valid()
      modifies this, buffers
      ensures Valid() && ResidueFor(cfg, residue)
      ensures State() == Receiver.Step(cfg, old(State()), m, residue)
    {
      hide Library.Valid, PacketsOf, Config.Valid, AllDistinct, Receiver.Advance, Store, Patch,
        BlockOf, SlotOf, RestartSeen, ResidueFor;
      ghost var g := State();
      var block := BlockOf(cfg, m.seqNr);
      var restart := RestartSeen(block, maxBlockNum);
      var moved := (block > maxBlockNum || restart) && m.crc;
      residue := Contents(buffers);
      OwnResidue();
      if moved {
        residue := Advance(restart, block);
      }
      ghost var g1 := State();
      if blockNum == block {
        if moved {
          FlushesOnce(cfg, g, Store(cfg, g1, m), m, residue);
        }
        residue := StoreAndCheck(m, restart, block, residue);
      }
    }

    /** The second part: store the packet, and flush the block if its buffer is full. */
    method StoreAndCheck(m: Message, restart: bool, block: nat, ghost before: Blocks) returns (ghost residue: Blocks)
      requires Valid() && m.Valid() && ResidueFor(cfg, before)
      modifies this, buffers
      ensures Valid() && ResidueFor(cfg, residue)
      ensures var g2 := Store(cfg, old(State()), m);
              if g2.bufLen == cfg.N() && m.crc
              then State() == Receiver.Advance(cfg, g2, restart, block + 1, residue)
              else State() == g2 && residue == before
    {
      hide Library.Valid, PacketsOf, Config.Valid, AllDistinct, Receiver.Advance, Store, Patch, ResidueFor;
      residue := before;
      StorePacket(m);
      if packetBufferLen == cfg.N() && m.crc {
        residue := Advance(restart, block + 1);
      }
    }
  }

  /** A step flushes at most once: a block that was just begun holds one packet, and a block has two or more. */
  lemma FlushesOnce(cfg: Config, g: Ground, g2: Ground, m: Message, first: Blocks)
    requires cfg.Valid() && g.Shaped(cfg) && m.Valid() && ResidueFor(cfg, first)
    requires var block := BlockOf(cfg, m.seqNr);
             g2 == Store(cfg, Receiver.Advance(cfg, g, RestartSeen(block, g.maxBlock), block, first), m)
    ensures g2.bufLen < cfg.N()
  {
    hide FlushBlock, Reset, Patch, BlockOf, SlotOf, RestartSeen, ResidueFor;
  }

  ghost function PacketAt(slot: Slot, buffer: array<byte>): Packet
    reads buffer
  {
    Packet(slot.valid, slot.crc, slot.len, buffer[..])
  }

  ghost function PacketsOf(slots: seq<Slot>, buffers: seq<array<byte>>): (ps: seq<Packet>)
    requires |slots| == |buffers|
    reads buffers
    ensures |ps| == |buffers| && forall i :: 0 <= i < |buffers| ==> ps[i] == PacketAt(slots[i], buffers[i])
  {
    seq(|buffers|, i requires 0 <= i < |buffers| reads buffers => PacketAt(slots[i], buffers[i]))
  }

  ghost function Contents(bs: seq<array<byte>>): (r: Blocks)
    reads bs
    ensures |r| == |bs| && forall i :: 0 <= i < |bs| ==> r[i] == bs[i][..]
  {
    seq(|bs|, i requires 0 <= i < |bs| reads bs => bs[i][..])
  }

  lemma FailedIs(cfg: Config, ds: seq<Packet>, fs: seq<Packet>, datasBad: nat, fecsBad: nat)
    requires |ds| == cfg.d && |fs| == cfg.f
    requires datasBad == Missing(ds) + Corrupted(ds) && fecsBad == Missing(fs) + Corrupted(fs)
    ensures Failed(ds, fs) == (datasBad > cfg.f - fecsBad) && datasBad + fecsBad <= cfg.N()
  {
    hide Missing, Corrupted, GoodCount;
    CountsAddUp(ds);
    CountsAddUp(fs);
  }

  ghost predicate Among(bs: seq<array<byte>>, all: seq<array<byte>>)
  {
    forall i :: 0 <= i < |bs| ==> bs[i] in all
  }

  ghost predicate SplitIdx(cfg: Config, data: seq<nat>, fec: seq<nat>)
  {
    && |data| == cfg.d && |fec| == cfg.f
    && (forall i :: 0 <= i < cfg.d ==> data[i] == DataSlot(i, cfg.f) < cfg.N())
    && (forall j :: 0 <= j < cfg.f ==> fec[j] == FecSlot(j, cfg.d) < cfg.N())
  }

  lemma SplitPackets(cfg: Config, data: seq<nat>, fec: seq<nat>, ps: seq<Packet>, ds: seq<Packet>, fs: seq<Packet>)
    requires SplitIdx(cfg, data, fec) && |ps| == cfg.N() && |ds| == |data| && |fs| == |fec|
    requires forall i :: 0 <= i < |ds| ==> data[i] < |ps| && ds[i] == ps[data[i]]
    requires forall j :: 0 <= j < |fs| ==> fec[j] < |ps| && fs[j] == ps[fec[j]]
    ensures ds == DataPackets(cfg, ps) && fs == FecPackets(cfg, ps)
  {
    hide DataSlot, FecSlot;
  }

  lemma SlotsApart(cfg: Config, data: seq<nat>, fec: seq<nat>)
    requires SplitIdx(cfg, data, fec)
    ensures |data| == cfg.d && |fec| == cfg.f
    ensures forall i :: 0 <= i < |data| ==> data[i] < cfg.N()
    ensures forall j :: 0 <= j < |fec| ==> fec[j] < cfg.N()
    ensures forall i, j :: 0 <= i < j < |data| ==> data[i] != data[j]
    ensures forall i, j :: 0 <= i < j < |fec| ==> fec[i] != fec[j]
    ensures forall i, j :: 0 <= i < |data| && 0 <= j < |fec| ==> data[i] != fec[j]
  {
    hide KindAt, DataSlot, FecSlot;
    forall i | 0 <= i < |data|
      ensures data[i] < cfg.N() && KindAt(data[i], cfg.d, cfg.f) == Data(i)
    {
      DataSlotExact(i, cfg.d, cfg.f);
    }
    forall j | 0 <= j < |fec|
      ensures fec[j] < cfg.N() && KindAt(fec[j], cfg.d, cfg.f) == Fec(j)
    {
      FecSlotExact(j, cfg.d, cfg.f);
    }
  }

  /** The buffers of the two kinds of packets do not overlap. */
  lemma SplitBuffers(cfg: Config, data: seq<nat>, fec: seq<nat>, all: seq<array<byte>>, db: seq<array<byte>>, fb: seq<array<byte>>)
    requires SplitIdx(cfg, data, fec) && AllDistinct(all) && |all| == cfg.N() && |db| == |data| && |fb| == |fec|
    requires forall i :: 0 <= i < |db| ==> data[i] < |all| && db[i] == all[data[i]]
    requires forall j :: 0 <= j < |fb| ==> fec[j] < |all| && fb[j] == all[fec[j]]
    ensures AllDistinct(db) && AllDistinct(fb) && Separate(db, fb) && Among(db, all) && Among(fb, all)
  {
    hide SplitIdx, DataSlot, FecSlot, Distinct, Config.Valid;
    SlotsApart(cfg, data, fec);
    assert forall i, j :: 0 <= i < |all| && 0 <= j < |all| && i != j ==> all[i] != all[j];
  }

  method NewBuffers(n: nat) returns (bs: seq<array<byte>>)
    ensures |bs| == n && fresh(bs) && forall h :: 0 <= h < n ==> bs[h].Length == BUFFER
    ensures forall h, j :: 0 <= h < j < n ==> bs[h] != bs[j]
  {
    bs := [];
    for i := 0 to n
      invariant |bs| == i && fresh(bs) && forall h :: 0 <= h < i ==> bs[h].Length == BUFFER
      invariant forall h, j :: 0 <= h < j < i ==> bs[h] != bs[j]
    {
      var b := new byte[BUFFER];
      bs := bs + [b];
    }
  }

  /** The split loop: slots of data and parity packets, counting missing and corrupt ones. */
  method Split(cfg: Config, ps: seq<Packet>)
    returns (data: seq<nat>, fec: seq<nat>, datasMissing: nat, datasCorrupt: nat, fecsMissing: nat, fecsCorrupt: nat)
    requires cfg.Valid() && |ps| == cfg.N()
    ensures SplitIdx(cfg, data, fec)
    ensures datasMissing == Missing(DataPackets(cfg, ps)) && datasCorrupt == Corrupted(DataPackets(cfg, ps))
    ensures fecsMissing == Missing(FecPackets(cfg, ps)) && fecsCorrupt == Corrupted(FecPackets(cfg, ps))
  {
    hide Missing, Corrupted, DataSlot, FecSlot;
    ghost var ds, fs := DataPackets(cfg, ps), FecPackets(cfg, ps);
    data, fec := [], [];
    datasMissing, datasCorrupt, fecsMissing, fecsCorrupt := 0, 0, 0, 0;
    var di, fi, i := 0, 0, 0;
    CountNothing(ds);
    CountNothing(fs);
    while di < cfg.d || fi < cfg.f
      invariant di <= cfg.d && fi <= cfg.f && i == di + fi
      invariant di == fi || (fi == cfg.f && di > fi) || (di == cfg.d && fi > di)
      invariant |data| == di && forall h :: 0 <= h < di ==> data[h] == DataSlot(h, cfg.f) < cfg.N()
      invariant |fec| == fi && forall h :: 0 <= h < fi ==> fec[h] == FecSlot(h, cfg.d) < cfg.N()
      invariant datasMissing == Missing(ds[..di]) && datasCorrupt == Corrupted(ds[..di])
      invariant fecsMissing == Missing(fs[..fi]) && fecsCorrupt == Corrupted(fs[..fi])
      decreases cfg.d + cfg.f - di - fi
    {
      RunningSlot(di, fi, cfg.d, cfg.f);
      if di < cfg.d {
        data := data + [i];
        CountNext(ds, di);
        if !ps[i].valid { datasMissing := datasMissing + 1; }
        if ps[i].valid && !ps[i].crc { datasCorrupt := datasCorrupt + 1; }
        i := i + 1;
        di := di + 1;
      }
      if fi < cfg.f {
        fec := fec + [i];
        CountNext(fs, fi);
        if !ps[i].valid { fecsMissing := fecsMissing + 1; }
        if ps[i].valid && !ps[i].crc { fecsCorrupt := fecsCorrupt + 1; }
        i := i + 1;
        fi := fi + 1;
      }
    }
    assert ds[..cfg.d] == ds && fs[..cfg.f] == fs;
  }

  lemma CountNothing(ps: seq<Packet>)
    ensures Missing(ps[..0]) == 0 && Corrupted(ps[..0]) == 0
  {
  }

  lemma CountNext(ps: seq<Packet>, i: nat)
    requires i < |ps|
    ensures Missing(ps[..i + 1]) == Missing(ps[..i]) + if ps[i].valid then 0 else 1
    ensures Corrupted(ps[..i + 1]) == Corrupted(ps[..i]) + if ps[i].Corrupt() then 1 else 0
  {
    assert ps[..i + 1] == ps[..i] + [ps[i]];
    CountAppend(ps[..i], ps[i]);
  }

  /** Data and parity buffers, with the packets they held before the decode. */
  ghost predicate Snapshots(ds: seq<Packet>, db: seq<array<byte>>)
    reads db
  {
    |ds| == |db| && forall i :: 0 <= i < |ds| ==> db[i].Length == BUFFER && ds[i].data == db[i][..]
  }

  ghost predicate AllDistinct(bs: seq<array<byte>>)
  {
    forall i, j :: 0 <= i < j < |bs| ==> bs[i] != bs[j]
  }

  method ChooseBuffers(fb: seq<array<byte>>, fecNos: seq<nat>) returns (cb: seq<array<byte>>)
    requires forall j :: 0 <= j < |fecNos| ==> fecNos[j] < |fb|
    ensures |cb| == |fecNos| && forall j :: 0 <= j < |fecNos| ==> cb[j] == fb[fecNos[j]]
  {
    cb := [];
    for j := 0 to |fecNos|
      invariant |cb| == j && forall h :: 0 <= h < j ==> cb[h] == fb[fecNos[h]]
    {
      cb := cb + [fb[fecNos[j]]];
    }
  }

  lemma ChosenDistinct(fb: seq<array<byte>>, fecNos: seq<nat>, cb: seq<array<byte>>)
    requires AllDistinct(fb) && (forall j :: 0 <= j < |fecNos| ==> fecNos[j] < |fb|) && Distinct(fecNos)
    requires |cb| == |fecNos| && forall j :: 0 <= j < |fecNos| ==> cb[j] == fb[fecNos[j]]
    ensures AllDistinct(cb)
  {
    forall i, j | 0 <= i < j < |cb|
      ensures cb[i] != cb[j]
    {
      if fecNos[i] < fecNos[j] {
        assert fb[fecNos[i]] != fb[fecNos[j]];
      } else {
        assert fb[fecNos[j]] != fb[fecNos[i]];
      }
    }
  }

  /** fec_decode on the chosen packets: every data buffer holds its decoded bytes. */
  method DecodeBlock(lib: Library, n: nat, ds: seq<Packet>, db: seq<array<byte>>, fs: seq<Packet>, fb: seq<array<byte>>,
                     erased: seq<nat>, fecNos: seq<nat>)
    requires lib.Valid() && n <= BUFFER && |ds| <= 128 && |fs| <= 128
    requires Snapshots(ds, db) && Snapshots(fs, fb) && AllDistinct(db) && AllDistinct(fb) && Separate(db, fb)
    requires erased == Erased(Picks(ds, fs)) && fecNos == FecNos(Picks(ds, fs))
    modifies db, fb
    ensures FullBuffers(ds) && FullBuffers(fs)
    ensures forall i :: 0 <= i < |ds| ==> db[i][..] == Decoded(ds, fs, n)[i]
  {
    hide Library.Valid, Repaired, Picks, View, Tails, RepairPlan, Syndromes, Decoded, Distinct, AllDistinct, Buffers,
      Separate, Snapshots, Fronts, ChosenFrom;
    SnapshotSizes(ds, db);
    SnapshotSizes(fs, fb);
    PicksAreAPlan(ds, fs);
    SelectedValid(ds, fs);
    PlanParts(|ds|, fecNos, erased);
    var cb := ChooseBuffers(fb, fecNos);
    ChosenDistinct(fb, fecNos, cb);
    DecodeReady(db, fb, fecNos, cb, n);
    SnapshotViews(ds, db, n);
    ChosenViews(ds, fs, fb, cb, n);
    FecDecode(lib, n, db, cb, fecNos, erased);
    forall i | 0 <= i < |ds|
      ensures db[i][..] == Decoded(ds, fs, n)[i]
    {
      DecodedIs(ds, fs, n, i);
      BufferParts(db, n, i);
    }
  }

  lemma BufferParts(bs: seq<array<byte>>, n: nat, i: nat)
    requires Buffers(bs, n) && i < |bs|
    ensures bs[i][..] == View(bs, n)[i] + Tails(bs, n)[i]
  {
  }

  lemma DecodedIs(ds: seq<Packet>, fs: seq<Packet>, n: nat, i: nat)
    requires FullBuffers(ds) && FullBuffers(fs) && |ds| <= 128 && |fs| <= 128 && n <= BUFFER && i < |ds|
    ensures var p := Picks(ds, fs);
            && RepairPlan(|ds|, FecNos(p), Erased(p))
            && Decoded(ds, fs, n)[i] ==
               Repaired(Fronts(ds, n), Fronts(ChosenFrom(ds, fs), n), FecNos(p), Erased(p), n)[i] + ds[i].data[n..]
  {
    hide Picks, Repaired, RepairPlan;
    PicksAreAPlan(ds, fs);
  }

  lemma SnapshotSizes(ds: seq<Packet>, db: seq<array<byte>>)
    requires Snapshots(ds, db)
    ensures |ds| == |db| && FullBuffers(ds) && forall i :: 0 <= i < |db| ==> db[i].Length == BUFFER
  {
  }

  lemma SnapshotViews(ds: seq<Packet>, db: seq<array<byte>>, n: nat)
    requires Snapshots(ds, db) && n <= BUFFER && Buffers(db, n)
    ensures FullBuffers(ds) && View(db, n) == Fronts(ds, n)
    ensures |Tails(db, n)| == |ds| && forall i :: 0 <= i < |ds| ==> Tails(db, n)[i] == ds[i].data[n..]
  {
  }

  lemma ChosenViews(ds: seq<Packet>, fs: seq<Packet>, fb: seq<array<byte>>, cb: seq<array<byte>>, n: nat)
    requires Snapshots(fs, fb) && n <= BUFFER && Buffers(cb, n) && |cb| == |Picks(ds, fs)|
    requires forall j :: 0 <= j < |cb| ==> Picks(ds, fs)[j].fi < |fb| && cb[j] == fb[Picks(ds, fs)[j].fi]
    ensures FullBuffers(fs) && View(cb, n) == Fronts(ChosenFrom(ds, fs), n)
  {
    hide Picks;
    SnapshotSizes(fs, fb);
    SelectedValid(ds, fs);
  }

  lemma DecodeReady(db: seq<array<byte>>, fb: seq<array<byte>>, fecNos: seq<nat>, cb: seq<array<byte>>, n: nat)
    requires AllDistinct(db) && AllDistinct(cb) && Separate(db, fb) && n <= BUFFER
    requires forall i :: 0 <= i < |db| ==> db[i].Length == BUFFER
    requires forall i :: 0 <= i < |fb| ==> fb[i].Length == BUFFER
    requires |cb| == |fecNos| && forall j :: 0 <= j < |fecNos| ==> fecNos[j] < |fb| && cb[j] == fb[fecNos[j]]
    ensures Buffers(db, n) && Buffers(cb, n) && Separate(db, cb)
  {
  }

  lemma PlanParts(d: nat, rows: seq<nat>, erased: seq<nat>)
    requires RepairPlan(d, rows, erased)
    ensures Distinct(rows) && |rows| == |erased|
  {
  }

  /** Publish the decoded data packets, limiting each length field to the packet size. */
  method PublishAll(ds: seq<Packet>, db: seq<array<byte>>, ghost bs: Blocks, failed: bool, packSize: nat)
    returns (chunks: seq<Chunk>)
    requires |ds| == |db| == |bs| && Sized(bs, BUFFER) && AllDistinct(db) && packSize < TWO32
    requires forall i :: 0 <= i < |db| ==> db[i].Length == BUFFER && db[i][..] == bs[i]
    modifies db
    ensures chunks == ChunksFrom(ds, bs, failed, packSize, 0)
  {
    hide PublishDecoded, Publish, Le32, ToLe32, ChunksFrom;
    chunks := [];
    ghost var all := ChunksFrom(ds, bs, failed, packSize, 0);
    var i := 0;
    while i < |ds|
      invariant i <= |ds| && all == chunks + ChunksFrom(ds, bs, failed, packSize, i)
      invariant forall h :: i <= h < |db| ==> db[h][..] == bs[h]
    {
      NextChunk(ds, bs, failed, packSize, i);
      if !failed || ds[i].valid {
        var c := PublishOne(db[i], packSize);
        chunks := chunks + [c];
      }
      i := i + 1;
    }
    NoMoreChunks(ds, bs, failed, packSize);
    assert chunks + [] == chunks;
  }

  lemma NextChunk(ds: seq<Packet>, bs: Blocks, failed: bool, packSize: nat, i: nat)
    requires |bs| == |ds| && Sized(bs, BUFFER) && i < |ds|
    ensures ChunksFrom(ds, bs, failed, packSize, i) ==
            (if !failed || ds[i].valid then [PublishDecoded(bs[i], packSize)] else [])
            + ChunksFrom(ds, bs, failed, packSize, i + 1)
  {
  }

  lemma NoMoreChunks(ds: seq<Packet>, bs: Blocks, failed: bool, packSize: nat)
    requires |bs| == |ds| && Sized(bs, BUFFER)
    ensures ChunksFrom(ds, bs, failed, packSize, |ds|) == []
  {
  }

  method PublishOne(buffer: array<byte>, packSize: nat) returns (c: Chunk)
    requires buffer.Length == BUFFER && packSize < TWO32
    modifies buffer
    ensures c == PublishDecoded(old(buffer[..]), packSize)
  {
    hide Le32, ToLe32, Wrap32;
    ghost var b0 := buffer[..];
    var dataLength := Le32(buffer[..]);
    if dataLength > packSize {
      Copy(buffer, 0, ToLe32(packSize));
      dataLength := packSize;
    }
    c := Publish(buffer[..], dataLength);
    SameTail(b0, buffer[..], dataLength);
  }

  lemma SameTail(b: seq<byte>, b': seq<byte>, dataLength: nat)
    requires |b| == |b'| == BUFFER && b[4..] == b'[4..]
    ensures Publish(b, dataLength) == Publish(b', dataLength)
  {
    hide Wrap32;
    var n := Min(Wrap32(dataLength - 4), BUFFER - 4);
    assert b[4..][..n] == b[4..4 + n] && b'[4..][..n] == b'[4..4 + n];
  }

  /** Decode if a data packet is bad, and publish the block. */
  method PublishBlock(cfg: Config, lib: Library, ds: seq<Packet>, db: seq<array<byte>>, fs: seq<Packet>, fb: seq<array<byte>>,
                      bad: bool, failed: bool)
    returns (chunks: seq<Chunk>)
    requires cfg.Valid() && lib.Valid() && |ds| == cfg.d && |fs| == cfg.f
    requires Snapshots(ds, db) && Snapshots(fs, fb) && AllDistinct(db) && AllDistinct(fb) && Separate(db, fb)
    requires bad == (Missing(ds) + Corrupted(ds) > 0) && failed == Failed(ds, fs)
    modifies db, fb
    ensures FullBuffers(ds) && FullBuffers(fs) && chunks == BlockChunks(cfg, ds, fs)
  {
    hide Library.Valid, Missing, Corrupted, GoodCount, Decoded, ChunksFrom, PlainChunks, Picks, AllDistinct, Separate,
      Snapshots, Failed;
    SnapshotSizes(ds, db);
    SnapshotSizes(fs, fb);
    if bad {
      var erased, fecNos := SelectLoop(ds, fs);
      DecodeBlock(lib, cfg.packSize, ds, db, fs, fb, erased, fecNos);
      chunks := PublishAll(ds, db, Decoded(ds, fs, cfg.packSize), failed, cfg.packSize);
    } else {
      chunks := PublishPlain(ds, db);
    }
  }

  method PublishPlain(ds: seq<Packet>, db: seq<array<byte>>) returns (chunks: seq<Chunk>)
    requires Snapshots(ds, db)
    ensures FullBuffers(ds) && chunks == PlainChunks(ds)
  {
    hide Publish, Le32;
    chunks := [];
    for i := 0 to |ds|
      invariant |chunks| == i && forall h :: 0 <= h < i ==> chunks[h] == Publish(ds[h].data, Le32(ds[h].data))
    {
      chunks := chunks + [Publish(db[i][..], Le32(db[i][..]))];
    }
  }

}
