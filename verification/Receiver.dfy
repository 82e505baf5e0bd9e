/** The ground side of the video link (process_video_payload) as a state machine.
    The program runs with one block buffer (param_block_buffers == 1). */
module Receiver {
  import opened Memory
  import opened Gf256
  import opened Words
  import opened Code
  import opened Slots
  import opened Selection

  /** Size of a packet buffer (MAX_PACKET_LENGTH). */
  const BUFFER := 4192

  /** Block number -1 read as unsigned. */
  const NONE: nat := 0xFFFF_FFFF

  datatype Config = Config(d: nat, f: nat, packSize: nat)
  {
    predicate Valid()
    {
      1 <= d <= 32 && f <= 32 && d + f >= 2 && 24 <= packSize <= 1450
    }

    function N(): nat { d + f }
  }

  /** One call of publish_data: the announced length, and the bytes inside the buffer. */
  datatype Chunk = Chunk(length: nat, bytes: seq<byte>)

  datatype Event =
    | Restart
    | Flush(block: nat, good: nat, chunks: seq<Chunk>)

  datatype Status = Status(txRestart: nat, receivedBlocks: nat, lostPerBlock: nat, lostPackets: nat, damagedBlocks: nat)

  datatype Ground = Ground(maxBlock: nat, blockNum: nat, bufLen: nat, packets: seq<Packet>, status: Status, log: seq<Event>)
  {
    ghost predicate Shaped(cfg: Config)
    {
      |packets| == cfg.N() && forall i :: 0 <= i < |packets| ==> |packets[i].data| == BUFFER
    }
  }

  /** A received video packet: header sequence number and what follows it. */
  datatype Message = Message(seqNr: nat, payload: seq<byte>, crc: bool)
  {
    ghost predicate Valid() { seqNr < TWO32 && |payload| <= BUFFER }
  }

  // ---------- flushing a block ----------

  ghost function DataPackets(cfg: Config, ps: seq<Packet>): (ds: seq<Packet>)
    requires |ps| == cfg.N()
    ensures |ds| == cfg.d && forall i :: 0 <= i < cfg.d ==> DataSlot(i, cfg.f) < |ps| && ds[i] == ps[DataSlot(i, cfg.f)]
  {
    seq(cfg.d, i requires 0 <= i < cfg.d => DataSlotExact(i, cfg.d, cfg.f); ps[DataSlot(i, cfg.f)])
  }

  ghost function FecPackets(cfg: Config, ps: seq<Packet>): (fs: seq<Packet>)
    requires |ps| == cfg.N()
    ensures |fs| == cfg.f && forall j :: 0 <= j < cfg.f ==> FecSlot(j, cfg.d) < |ps| && fs[j] == ps[FecSlot(j, cfg.d)]
  {
    seq(cfg.f, j requires 0 <= j < cfg.f => FecSlotExact(j, cfg.d, cfg.f); ps[FecSlot(j, cfg.d)])
  }

  /** The part of every buffer that the code works on. */
  ghost function Fronts(ps: seq<Packet>, n: nat): (bs: Blocks)
    requires forall i :: 0 <= i < |ps| ==> n <= |ps[i].data|
    ensures |bs| == |ps| && Sized(bs, n) && forall i :: 0 <= i < |ps| ==> bs[i] == ps[i].data[..n]
  {
    seq(|ps|, i requires 0 <= i < |ps| => ps[i].data[..n])
  }

  ghost function Chosen(fs: seq<Packet>, picks: seq<Pick>): (cs: seq<Packet>)
    requires forall i :: 0 <= i < |picks| ==> picks[i].fi < |fs|
    ensures |cs| == |picks| && forall i :: 0 <= i < |picks| ==> cs[i] == fs[picks[i].fi]
  {
    seq(|picks|, i requires 0 <= i < |picks| => fs[picks[i].fi])
  }

  ghost predicate FullBuffers(ps: seq<Packet>)
  {
    forall i :: 0 <= i < |ps| ==> |ps[i].data| == BUFFER
  }

  /** The data buffers after fec_decode. */
  ghost function Decoded(ds: seq<Packet>, fs: seq<Packet>, n: nat): (bs: Blocks)
    requires FullBuffers(ds) && FullBuffers(fs) && |ds| <= 128 && |fs| <= 128 && n <= BUFFER
    ensures |bs| == |ds| && Sized(bs, BUFFER)
  {
    PicksAreAPlan(ds, fs);
    var p := Picks(ds, fs);
    var fixed := Repaired(Fronts(ds, n), Fronts(ChosenFrom(ds, fs), n), FecNos(p), Erased(p), n);
    seq(|ds|, i requires 0 <= i < |ds| => fixed[i] + ds[i].data[n..])
  }

  ghost function ChosenFrom(ds: seq<Packet>, fs: seq<Packet>): (cs: seq<Packet>)
    requires FullBuffers(fs)
    ensures |cs| == |Picks(ds, fs)| && FullBuffers(cs)
  {
    SelectWellFormed(ds, fs, 0, 0, GoodCount(fs), Missing(ds));
    Chosen(fs, Picks(ds, fs))
  }

  /** publish_data(buffer + 4, data_length - 4). */
  function Publish(buffer: seq<byte>, dataLength: nat): Chunk
    requires |buffer| == BUFFER
  {
    var n := Wrap32(dataLength - 4);
    Chunk(n, buffer[4..4 + Min(n, BUFFER - 4)])
  }

  /** Publishing after a decode limits the length to the packet size. */
  function PublishDecoded(buffer: seq<byte>, packSize: nat): Chunk
    requires |buffer| == BUFFER
  {
    Publish(buffer, Min(Le32(buffer), packSize))
  }

  /** The chunks of data packets i and later; a missing packet of a failed block is skipped. */
  ghost function ChunksFrom(ds: seq<Packet>, bs: Blocks, failed: bool, packSize: nat, i: nat): seq<Chunk>
    requires |bs| == |ds| && Sized(bs, BUFFER) && i <= |ds|
    decreases |ds| - i
  {
    if i == |ds| then []
    else (if !failed || ds[i].valid then [PublishDecoded(bs[i], packSize)] else [])
         + ChunksFrom(ds, bs, failed, packSize, i + 1)
  }

  ghost function PlainChunks(ds: seq<Packet>): (cs: seq<Chunk>)
    requires FullBuffers(ds)
    ensures |cs| == |ds| && forall i :: 0 <= i < |ds| ==> cs[i] == Publish(ds[i].data, Le32(ds[i].data))
  {
    seq(|ds|, i requires 0 <= i < |ds| => Publish(ds[i].data, Le32(ds[i].data)))
  }

  predicate Failed(ds: seq<Packet>, fs: seq<Packet>)
  {
    Missing(ds) + Corrupted(ds) > GoodCount(fs)
  }

  /** What a block in the buffer publishes. */
  ghost function BlockChunks(cfg: Config, ds: seq<Packet>, fs: seq<Packet>): seq<Chunk>
    requires cfg.Valid() && FullBuffers(ds) && FullBuffers(fs) && |ds| == cfg.d && |fs| == cfg.f
  {
    if Missing(ds) + Corrupted(ds) > 0
    then ChunksFrom(ds, Decoded(ds, fs, cfg.packSize), Failed(ds, fs), cfg.packSize, 0)
    else PlainChunks(ds)
  }

  ghost function FlushStatus(st: Status, ds: seq<Packet>, fs: seq<Packet>): Status
  {
    var lost := Missing(ds) + Corrupted(ds) + Missing(fs) + Corrupted(fs);
    Status(st.txRestart, st.receivedBlocks + 1, lost, st.lostPackets + lost,
           st.damagedBlocks + if Failed(ds, fs) then 1 else 0)
  }

  /** Buffers marked empty; their bytes are whatever the decode left behind. */
  ghost function Emptied(residue: Blocks): (ps: seq<Packet>)
    ensures |ps| == |residue| && forall i :: 0 <= i < |ps| ==> ps[i] == Packet(false, false, 0, residue[i])
  {
    seq(|residue|, i requires 0 <= i < |residue| => Packet(false, false, 0, residue[i]))
  }

  /** block_buffer_list_reset. */
  ghost function Reset(g: Ground): (r: Ground)
  {
    g.(blockNum := NONE, bufLen := 0,
       packets := seq(|g.packets|, i requires 0 <= i < |g.packets| => Packet(false, false, 0, g.packets[i].data)))
  }

  ghost predicate ResidueFor(cfg: Config, residue: Blocks)
  {
    |residue| == cfg.N() && Sized(residue, BUFFER)
  }

  ghost function FlushBlock(cfg: Config, g: Ground, residue: Blocks): (r: Ground)
    requires cfg.Valid() && g.Shaped(cfg) && ResidueFor(cfg, residue)
    ensures r.Shaped(cfg)
  {
    var ds, fs := DataPackets(cfg, g.packets), FecPackets(cfg, g.packets);
    g.(status := FlushStatus(g.status, ds, fs),
       log := g.log + [Flush(g.blockNum, GoodCount(ds) + GoodCount(fs), BlockChunks(cfg, ds, fs))],
       packets := Emptied(residue))
  }

  /** Make room for a block: restart handling, then flush what is buffered. */
  ghost function Advance(cfg: Config, g: Ground, restart: bool, block: nat, residue: Blocks): (r: Ground)
    requires cfg.Valid() && g.Shaped(cfg) && ResidueFor(cfg, residue)
    ensures r.Shaped(cfg)
  {
    var g1 := if restart
      then Reset(g).(status := g.status.(txRestart := g.status.txRestart + 1), log := g.log + [Restart])
      else g;
    var g2 := if g1.blockNum != NONE then FlushBlock(cfg, g1, residue) else g1;
    g2.(bufLen := 0, blockNum := block, maxBlock := block)
  }

  /** Store a packet unless its slot already holds a correct one. */
  ghost function Store(cfg: Config, g: Ground, m: Message): (r: Ground)
    requires cfg.Valid() && g.Shaped(cfg) && m.Valid()
    ensures r.Shaped(cfg)
  {
    var slot := SlotOf(cfg, m.seqNr);
    var p := g.packets[slot];
    if p.crc then g
    else g.(packets := g.packets[slot := Packet(true, m.crc, |m.payload|, Patch(p.data, 0, m.payload))],
            bufLen := g.bufLen + 1)
  }

  function BlockOf(cfg: Config, seqNr: nat): nat
    requires cfg.Valid()
  {
    seqNr / cfg.N()
  }

  function SlotOf(cfg: Config, seqNr: nat): (s: nat)
    requires cfg.Valid()
    ensures s < cfg.N()
  {
    seqNr % cfg.N()
  }

  predicate RestartSeen(block: nat, maxBlock: nat) { block + 128 < maxBlock }

  ghost function Step(cfg: Config, g: Ground, m: Message, residue: Blocks): (r: Ground)
    requires cfg.Valid() && g.Shaped(cfg) && m.Valid() && ResidueFor(cfg, residue)
    ensures r.Shaped(cfg)
  {
    var block := BlockOf(cfg, m.seqNr);
    var restart := RestartSeen(block, g.maxBlock);
    var g1 := if (block > g.maxBlock || restart) && m.crc then Advance(cfg, g, restart, block, residue) else g;
    if g1.blockNum != block then g1
    else
      var g2 := Store(cfg, g1, m);
      if g2.bufLen == cfg.N() && m.crc then Advance(cfg, g2, restart, block + 1, residue) else g2
  }

  ghost predicate Initial(cfg: Config, g: Ground)
  {
    && g.Shaped(cfg)
    && g.maxBlock == NONE && g.blockNum == NONE && g.bufLen == 0
    && (forall i :: 0 <= i < |g.packets| ==> !g.packets[i].valid && !g.packets[i].crc)
    && g.status == Status(0, 0, 0, 0, 0) && g.log == []
  }

  /** One received message together with the bytes its flush leaves in the buffers. */
  datatype Arrival = Arrival(m: Message, residue: Blocks)

  ghost predicate Arrivals(cfg: Config, xs: seq<Arrival>)
  {
    forall i :: 0 <= i < |xs| ==> xs[i].m.Valid() && ResidueFor(cfg, xs[i].residue)
  }

  ghost function Run(cfg: Config, g: Ground, xs: seq<Arrival>): (r: Ground)
    requires cfg.Valid() && g.Shaped(cfg) && Arrivals(cfg, xs)
    ensures r.Shaped(cfg)
  {
    if |xs| == 0 then g
    else
      var last := xs[|xs| - 1];
      Step(cfg, Run(cfg, g, xs[..|xs| - 1]), last.m, last.residue)
  }
}
