/** Which bytes of a packet are published, whatever its length field says. */
module Publishing {
  import opened Gf256
  import opened Words
  import opened Code
  import opened Selection
  import opened Receiver
  import opened ReceiverLaws

  /** A packet published after decoding: its length field counts itself and is limited to the packet size;
      one below 4 wraps below zero. */
  ghost predicate LimitedChunk(c: Chunk, b: seq<byte>, packSize: nat)
    requires |b| == 4192 && 24 <= packSize <= 1450
  {
    var l := Le32(b);
    if l < 4 then c.length == 0x1_0000_0000 + l - 4 && c.bytes == b[4..]
    else if l <= packSize then c == Chunk(l - 4, b[4..l])
    else c == Chunk(packSize - 4, b[4..packSize])
  }

  /** A packet published without decoding: its length field is taken as it is. */
  ghost predicate PlainChunk(c: Chunk, b: seq<byte>)
    requires |b| == 4192
  {
    var l := Le32(b);
    if l < 4 then c.length == 0x1_0000_0000 + l - 4 && c.bytes == b[4..]
    else if l <= 4192 then c == Chunk(l - 4, b[4..l])
    else c.length == l - 4 && c.bytes == b[4..]
  }

  lemma PlainIs(b: seq<byte>)
    requires |b| == 4192
    ensures PlainChunk(Publish(b, Le32(b)), b)
  {
    hide Le32;
    assert b[4..4192] == b[4..];
  }

  lemma LimitedIs(b: seq<byte>, packSize: nat)
    requires |b| == 4192 && 24 <= packSize <= 1450
    ensures LimitedChunk(PublishDecoded(b, packSize), b, packSize)
  {
    hide Le32;
    assert b[4..4192] == b[4..];
  }

  lemma {:induction false} EveryChunk(ds: seq<Packet>, bs: Blocks, packSize: nat, from: nat)
    requires |bs| == |ds| && Sized(bs, BUFFER) && from <= |ds|
    ensures var cs := ChunksFrom(ds, bs, false, packSize, from);
            |cs| == |ds| - from && forall i :: from <= i < |ds| ==> cs[i - from] == PublishDecoded(bs[i], packSize)
    decreases |ds| - from
  {
    hide PublishDecoded;
    if from < |ds| {
      EveryChunk(ds, bs, packSize, from + 1);
    }
  }

  /** Where packet i of a block is found among the published chunks. */
  ghost function Position(ds: seq<Packet>, failed: bool, i: nat): nat
    requires i <= |ds|
  {
    if failed then Received(ds, i) else i
  }

  /** A block with a missing or corrupt data packet publishes every packet - if it failed, every received
      one - as decoded, and never beyond the packet size. */
  lemma DecodedBlockPublishes(cfg: Config, ds: seq<Packet>, fs: seq<Packet>, i: nat)
    requires cfg.Valid() && |ds| == cfg.d && |fs| == cfg.f && FullBuffers(ds) && FullBuffers(fs) && i < |ds|
    requires Missing(ds) + Corrupted(ds) > 0 && (Failed(ds, fs) ==> ds[i].valid)
    ensures var p := Position(ds, Failed(ds, fs), i);
            && p < |BlockChunks(cfg, ds, fs)|
            && LimitedChunk(BlockChunks(cfg, ds, fs)[p], Decoded(ds, fs, cfg.packSize)[i], cfg.packSize)
  {
    hide Decoded, Missing, Corrupted, GoodCount, Failed, PublishDecoded, LimitedChunk, ChunksFrom, Position;
    var bs := Decoded(ds, fs, cfg.packSize);
    LimitedIs(bs[i], cfg.packSize);
    ChunkAt(ds, bs, Failed(ds, fs), cfg.packSize, i);
  }

  lemma ChunkAt(ds: seq<Packet>, bs: Blocks, failed: bool, packSize: nat, i: nat)
    requires |bs| == |ds| && Sized(bs, BUFFER) && i < |ds| && (failed ==> ds[i].valid)
    ensures var cs, p := ChunksFrom(ds, bs, failed, packSize, 0), Position(ds, failed, i);
            p < |cs| && cs[p] == PublishDecoded(bs[i], packSize)
  {
    hide PublishDecoded, ChunksFrom, Received;
    ReceivedNone(ds);
    if failed {
      FailedChunks(ds, bs, packSize, 0);
    } else {
      EveryChunk(ds, bs, packSize, 0);
    }
  }

  /** A block whose data packets are all intact publishes every packet as received. */
  lemma IntactBlockPublishes(cfg: Config, ds: seq<Packet>, fs: seq<Packet>, i: nat)
    requires cfg.Valid() && |ds| == cfg.d && |fs| == cfg.f && FullBuffers(ds) && FullBuffers(fs) && i < |ds|
    requires Missing(ds) + Corrupted(ds) == 0
    ensures |BlockChunks(cfg, ds, fs)| == cfg.d && PlainChunk(BlockChunks(cfg, ds, fs)[i], ds[i].data)
  {
    hide Missing, Corrupted, Publish, PlainChunk;
    PlainIs(ds[i].data);
  }
}
