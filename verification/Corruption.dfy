/** What corrupt packets can do to a block that has enough good ones. */
module Corruption {
  import opened Gf256
  import opened Code
  import opened Selection
  import opened Receiver
  import opened ReceiverLaws

  /** The same receptions, with other bytes in the corrupt packets. */
  ghost predicate Variant(fs: seq<Packet>, other: seq<Packet>)
  {
    && |other| == |fs| && FullBuffers(other)
    && forall j :: 0 <= j < |fs| ==>
         other[j].valid == fs[j].valid && other[j].crc == fs[j].crc && (fs[j].Good() ==> other[j] == fs[j])
  }

  lemma {:induction false} SameCount(fs: seq<Packet>, other: seq<Packet>)
    requires |other| == |fs|
    requires forall j :: 0 <= j < |fs| ==> other[j].valid == fs[j].valid && other[j].crc == fs[j].crc
    ensures GoodCount(other) == GoodCount(fs)
  {
    if |fs| > 0 {
      SameCount(fs[1..], other[1..]);
    }
  }

  lemma {:induction false} SameFirstReceived(fs: seq<Packet>, other: seq<Packet>, from: nat, n: nat)
    requires |other| == |fs| && forall j :: 0 <= j < |fs| ==> other[j].valid == fs[j].valid
    ensures FirstReceived(other, from, n) == FirstReceived(fs, from, n)
    decreases |fs| - from
  {
    if n > 0 && from < |fs| {
      SameFirstReceived(fs, other, from + 1, if fs[from].valid then n - 1 else n);
    }
  }

  ghost predicate Restored(ds: seq<Packet>, fs: seq<Packet>, original: Blocks, n: nat)
    requires FullBuffers(ds) && FullBuffers(fs) && |ds| <= 128 && |fs| <= 128 && n <= BUFFER && |original| == |ds|
  {
    forall i :: 0 <= i < |ds| ==> Decoded(ds, fs, n)[i][..n] == original[i]
  }

  /** The parity packets a block that is not failed will use. */
  function Used(ds: seq<Packet>, fs: seq<Packet>): seq<nat>
  {
    FirstReceived(fs, 0, Missing(ds) + Corrupted(ds))
  }

  /** Recovery in terms of the parity packets in use. */
  lemma RestoredIffTrue(ds: seq<Packet>, fs: seq<Packet>, original: Blocks, n: nat)
    requires GoodSamples(ds, fs, original, n) && !Failed(ds, fs)
    ensures Restored(ds, fs, original, n) <==>
            forall i :: 0 <= i < |Used(ds, fs)| ==> TrueParity(fs, Used(ds, fs)[i], original, n)
  {
    hide Picks, Missing, Corrupted, GoodCount, FirstReceived, TrueParity, Decoded;
    FirstReceivedUsed(ds, fs);
    RecoveredExactly(ds, fs, original, n);
    var p, used := Picks(ds, fs), Used(ds, fs);
    assert |used| == |p| && forall i :: 0 <= i < |p| ==> used[i] == p[i].fi;
    if forall i :: 0 <= i < |used| ==> TrueParity(fs, used[i], original, n) {
      forall j | 0 <= j < |p|
        ensures TrueParity(fs, p[j].fi, original, n)
      {
        assert TrueParity(fs, used[j], original, n);
      }
    }
  }

  lemma VariantKeeps(ds: seq<Packet>, fs: seq<Packet>, other: seq<Packet>, original: Blocks, n: nat)
    requires GoodSamples(ds, fs, original, n) && Variant(fs, other)
    ensures GoodSamples(ds, other, original, n)
    ensures Failed(ds, other) == Failed(ds, fs) && Used(ds, other) == Used(ds, fs)
  {
    hide Missing, Corrupted, GoodCount, FirstReceived, Parity;
    SameCount(fs, other);
    SameFirstReceived(fs, other, 0, Missing(ds) + Corrupted(ds));
  }

  /** The packets with a wrong first byte in one of them. */
  ghost function Spoilt(fs: seq<Packet>, j: nat, original: Blocks, n: nat): (other: seq<Packet>)
    requires j < |fs| <= 128 && fs[j].Corrupt() && FullBuffers(fs) && 0 < n <= BUFFER
    requires |original| <= 128 && Sized(original, n)
    ensures Variant(fs, other) && !TrueParity(other, j, original, n)
  {
    hide Parity;
    var wrong := Parity(original, j, n)[0] ^ 1;
    var other := fs[j := fs[j].(data := fs[j].data[0 := wrong])];
    assert other[j].data[..n][0] == wrong;
    other
  }

  /** A block with enough good parity packets is recovered whatever its corrupt parity packets carry
      exactly if the first received parity packets, one for each missing or corrupt data packet,
      all have a correct checksum. */
  lemma RecoveredRegardless(ds: seq<Packet>, fs: seq<Packet>, original: Blocks, n: nat)
    requires GoodSamples(ds, fs, original, n) && !Failed(ds, fs) && n > 0
    ensures (forall other :: Variant(fs, other) ==> Restored(ds, other, original, n))
       <==> (forall i :: 0 <= i < |Used(ds, fs)| ==> fs[Used(ds, fs)[i]].crc)
  {
    hide Missing, Corrupted, GoodCount, FirstReceived, Parity, Restored, TrueParity, Failed, Used;
    UsedReceived(ds, fs);
    var used := Used(ds, fs);
    if forall i :: 0 <= i < |used| ==> fs[used[i]].crc {
      forall other | Variant(fs, other)
        ensures Restored(ds, other, original, n)
      {
        VariantKeeps(ds, fs, other, original, n);
        forall i | 0 <= i < |used|
          ensures TrueParity(other, used[i], original, n)
        {
          GoodIsTrue(ds, other, original, n, used[i]);
        }
        RestoredIffTrue(ds, other, original, n);
      }
    } else {
      var i :| 0 <= i < |used| && !fs[used[i]].crc;
      var other := Spoilt(fs, used[i], original, n);
      VariantKeeps(ds, fs, other, original, n);
      RestoredIffTrue(ds, other, original, n);
      assert !Restored(ds, other, original, n);
    }
  }

  lemma GoodIsTrue(ds: seq<Packet>, fs: seq<Packet>, original: Blocks, n: nat, j: nat)
    requires GoodSamples(ds, fs, original, n) && j < |fs| && fs[j].Good()
    ensures TrueParity(fs, j, original, n)
  {
  }

  lemma {:induction false} ReceivedOnly(fs: seq<Packet>, from: nat, n: nat)
    ensures forall i :: 0 <= i < |FirstReceived(fs, from, n)| ==> fs[FirstReceived(fs, from, n)[i]].valid
    decreases |fs| - from
  {
    if n > 0 && from < |fs| {
      ReceivedOnly(fs, from + 1, if fs[from].valid then n - 1 else n);
    }
  }

  lemma UsedReceived(ds: seq<Packet>, fs: seq<Packet>)
    ensures forall i :: 0 <= i < |Used(ds, fs)| ==> Used(ds, fs)[i] < |fs| && fs[Used(ds, fs)[i]].valid
  {
    ReceivedOnly(fs, 0, Missing(ds) + Corrupted(ds));
  }

  /** One missing data packet, a corrupt parity packet and a good one behind it: the corrupt one is
      used, and if its bytes are wrong so is a byte of the decoded packet. */
  lemma CorruptParityChosen(missing: Packet, corrupt: Packet, good: Packet, o: seq<byte>) returns (t: nat)
    requires !missing.valid && corrupt.Corrupt() && good.Good() && |o| <= BUFFER
    requires |missing.data| == |corrupt.data| == |good.data| == BUFFER
    requires good.data[..|o|] == Parity([o], 1, |o|) && corrupt.data[..|o|] != Parity([o], 0, |o|)
    ensures !Failed([missing], [corrupt, good]) && Picks([missing], [corrupt, good]) == [Pick(0, 0)]
    ensures t < |o| && Decoded([missing], [corrupt, good], |o|)[0][t] != o[t]
  {
    hide Parity, Decoded;
    var ds, fs, n := [missing], [corrupt, good], |o|;
    assert fs[1..] == [good] && ds[1..] == [] && [good][1..] == [];
    assert GoodCount(fs) == 1 && Missing(ds) == 1 && Corrupted(ds) == 0;
    assert Select(ds, fs, 1, 1, 1, 0) == [];
    RecoveredExactly(ds, fs, [o], n);
    assert !TrueParity(fs, Picks(ds, fs)[0].fi, [o], n);
    var d := Decoded(ds, fs, n)[0];
    assert d[..n] != o;
    t :| 0 <= t < n && d[..n][t] != o[t];
  }
}
