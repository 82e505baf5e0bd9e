/** Which packets are repaired when the good parity packets may not suffice. */
module Priorities {
  import opened Selection

  /** The first n missing data packets from index `from` on. */
  function FirstMissing(ds: seq<Packet>, from: nat, n: nat): (s: seq<nat>)
    decreases |ds| - from
  {
    if n == 0 || from >= |ds| then []
    else if ds[from].valid then FirstMissing(ds, from + 1, n)
    else [from] + FirstMissing(ds, from + 1, n - 1)
  }

  /** The parity packets with a correct checksum from index `from` on. */
  function GoodFrom(fs: seq<Packet>, from: nat): (s: seq<nat>)
    decreases |fs| - from
  {
    if from >= |fs| then []
    else if fs[from].Good() then [from] + GoodFrom(fs, from + 1)
    else GoodFrom(fs, from + 1)
  }

  lemma PickedBoth(p: Pick, rest: seq<Pick>)
    ensures Erased([p] + rest) == [p.di] + Erased(rest) && FecNos([p] + rest) == [p.fi] + FecNos(rest)
  {
  }

  lemma MissingOnce(ds: seq<Packet>, from: nat, n: nat)
    ensures FirstMissing(ds, from, n) ==
      if n == 0 || from >= |ds| then []
      else if ds[from].valid then FirstMissing(ds, from + 1, n)
      else [from] + FirstMissing(ds, from + 1, n - 1)
  {
  }

  lemma GoodOnce(fs: seq<Packet>, from: nat)
    ensures GoodFrom(fs, from) ==
      if from >= |fs| then []
      else if fs[from].Good() then [from] + GoodFrom(fs, from + 1)
      else GoodFrom(fs, from + 1)
  {
  }

  /** One round of the selection while more packets are missing than good parity packets are left. */
  lemma ScarceOnce(ds: seq<Packet>, fs: seq<Packet>, di: nat, fi: nat, good: int, missing: int)
    requires missing > good
    ensures Select(ds, fs, di, fi, good, missing) ==
      if di >= |ds| || fi >= |fs| then []
      else if ds[di].valid then Select(ds, fs, di + 1, fi, good, missing)
      else if !fs[fi].Good() then Select(ds, fs, di, fi + 1, good, missing)
      else [Pick(di, fi)] + Select(ds, fs, di + 1, fi + 1, good - 1, missing - 1)
  {
  }

  lemma {:induction false} SelectScarce(ds: seq<Packet>, fs: seq<Packet>, di: nat, fi: nat, good: int, missing: int)
    requires di <= |ds| && fi <= |fs|
    requires good == GoodCount(fs[fi..]) && missing == Missing(ds[di..]) && missing > good
    ensures Erased(Select(ds, fs, di, fi, good, missing)) == FirstMissing(ds, di, good)
    ensures FecNos(Select(ds, fs, di, fi, good, missing)) == GoodFrom(fs, fi)
    decreases |ds| + |fs| - di - fi
  {
    hide Missing, Corrupted, GoodCount, Select, FecNos, Erased, FirstMissing, GoodFrom;
    CountsFrom(ds, di);
    CountsFrom(fs, fi);
    ScarceOnce(ds, fs, di, fi, good, missing);
    MissingOnce(ds, di, good);
    GoodOnce(fs, fi);
    if fi < |fs| {
      if ds[di].valid {
        MissingOnce(ds, di + 1, good);
        SelectScarce(ds, fs, di + 1, fi, good, missing);
      } else if !fs[fi].Good() {
        SelectScarce(ds, fs, di, fi + 1, good, missing);
      } else {
        SelectScarce(ds, fs, di + 1, fi + 1, good - 1, missing - 1);
        PickedBoth(Pick(di, fi), Select(ds, fs, di + 1, fi + 1, good - 1, missing - 1));
      }
    }
  }

  /** With more missing data packets than good parity packets, exactly the good parity packets are used,
      for the first missing packets; corrupt packets are left as they are. */
  lemma ScarceParity(ds: seq<Packet>, fs: seq<Packet>)
    requires Missing(ds) > GoodCount(fs)
    ensures Erased(Picks(ds, fs)) == FirstMissing(ds, 0, GoodCount(fs))
    ensures FecNos(Picks(ds, fs)) == GoodFrom(fs, 0)
  {
    assert ds[0..] == ds && fs[0..] == fs;
    SelectScarce(ds, fs, 0, 0, GoodCount(fs), Missing(ds));
  }

  // ---------- enough parity for what is missing ----------

  /** One round of the selection while the good parity packets suffice for the missing packets. */
  lemma AmpleOnce(ds: seq<Packet>, fs: seq<Packet>, di: nat, fi: nat, good: int, missing: int)
    requires missing <= good
    ensures Select(ds, fs, di, fi, good, missing) ==
      if di >= |ds| || fi >= |fs| then []
      else if ds[di].Good() || (ds[di].Corrupt() && good == missing) then Select(ds, fs, di + 1, fi, good, missing)
      else if !fs[fi].valid then Select(ds, fs, di, fi + 1, good, missing)
      else [Pick(di, fi)] + Select(ds, fs, di + 1, fi + 1, if fs[fi].crc then good - 1 else good,
                                   if ds[di].valid then missing else missing - 1)
  {
  }

  lemma {:induction false} MissingCounted(ds: seq<Packet>, from: nat, c: nat)
    requires from <= c < |ds| && !ds[c].valid
    ensures Missing(ds[from..]) > 0
    decreases c - from
  {
    hide Missing;
    CountsFrom(ds, from);
    if from < c {
      MissingCounted(ds, from + 1, c);
    }
  }

  lemma {:induction false} SelectMissing(ds: seq<Packet>, fs: seq<Packet>, di: nat, fi: nat, good: int, missing: int, c: nat)
    requires di <= |ds| && fi <= |fs|
    requires good == GoodCount(fs[fi..]) && missing == Missing(ds[di..]) && missing <= good
    requires di <= c < |ds| && !ds[c].valid
    ensures c in Erased(Select(ds, fs, di, fi, good, missing))
    decreases |ds| + |fs| - di - fi
  {
    hide Missing, Corrupted, GoodCount, Select, FecNos, Erased;
    CountsFrom(ds, di);
    CountsFrom(fs, fi);
    MissingCounted(ds, di, c);
    AmpleOnce(ds, fs, di, fi, good, missing);
    if ds[di].Good() || (ds[di].Corrupt() && good == missing) {
      SelectMissing(ds, fs, di + 1, fi, good, missing, c);
    } else if !fs[fi].valid {
      SelectMissing(ds, fs, di, fi + 1, good, missing, c);
    } else {
      var good' := if fs[fi].crc then good - 1 else good;
      var missing' := if ds[di].valid then missing else missing - 1;
      PickedBoth(Pick(di, fi), Select(ds, fs, di + 1, fi + 1, good', missing'));
      if c > di {
        SelectMissing(ds, fs, di + 1, fi + 1, good', missing', c);
      }
    }
  }

  lemma CorruptedBetween(ds: seq<Packet>, from: nat, c: nat)
    requires from < c <= |ds|
    ensures Corrupted(ds[from..c]) == (if ds[from].Corrupt() then 1 else 0) + Corrupted(ds[from + 1..c])
  {
    assert ds[from..c][1..] == ds[from + 1..c] && ds[from..c][0] == ds[from];
  }

  lemma {:induction false} SelectSpare(ds: seq<Packet>, fs: seq<Packet>, di: nat, fi: nat, good: int, missing: int, c: nat)
    requires di <= |ds| && fi <= |fs|
    requires good == GoodCount(fs[fi..]) && missing == Missing(ds[di..])
    requires di <= c < |ds| && ds[c].Corrupt() && Corrupted(ds[di..c]) < good - missing
    ensures c in Erased(Select(ds, fs, di, fi, good, missing))
    decreases |ds| + |fs| - di - fi
  {
    hide Missing, Corrupted, GoodCount, Select, FecNos, Erased;
    CountsFrom(ds, di);
    CountsFrom(fs, fi);
    AmpleOnce(ds, fs, di, fi, good, missing);
    if di < c {
      CorruptedBetween(ds, di, c);
    }
    if ds[di].Good() {
      SelectSpare(ds, fs, di + 1, fi, good, missing, c);
    } else if !fs[fi].valid {
      SelectSpare(ds, fs, di, fi + 1, good, missing, c);
    } else {
      var good' := if fs[fi].crc then good - 1 else good;
      var missing' := if ds[di].valid then missing else missing - 1;
      PickedBoth(Pick(di, fi), Select(ds, fs, di + 1, fi + 1, good', missing'));
      if c > di {
        SelectSpare(ds, fs, di + 1, fi + 1, good', missing', c);
      }
    }
  }

  lemma {:induction false} SelectInOrder(ds: seq<Packet>, fs: seq<Packet>, di: nat, fi: nat, good: int, missing: int)
    requires di <= |ds| && fi <= |fs|
    requires good == GoodCount(fs[fi..]) && missing == Missing(ds[di..]) && missing <= good
    ensures var s := Select(ds, fs, di, fi, good, missing); FecNos(s) == FirstReceived(fs, fi, |s|)
    decreases |ds| + |fs| - di - fi
  {
    hide Missing, Corrupted, GoodCount, Select, FecNos, Erased, FirstReceived;
    CountsFrom(ds, di);
    CountsFrom(fs, fi);
    AmpleOnce(ds, fs, di, fi, good, missing);
    var s := Select(ds, fs, di, fi, good, missing);
    FirstOnce(fs, fi, |s|);
    if di < |ds| && fi < |fs| {
      if ds[di].Good() || (ds[di].Corrupt() && good == missing) {
        SelectInOrder(ds, fs, di + 1, fi, good, missing);
      } else if !fs[fi].valid {
        SelectInOrder(ds, fs, di, fi + 1, good, missing);
        NothingFirst(fs, fi + 1);
      } else {
        var good' := if fs[fi].crc then good - 1 else good;
        var missing' := if ds[di].valid then missing else missing - 1;
        SelectInOrder(ds, fs, di + 1, fi + 1, good', missing');
        PickedBoth(Pick(di, fi), Select(ds, fs, di + 1, fi + 1, good', missing'));
      }
    }
  }

  lemma NothingFirst(fs: seq<Packet>, from: nat)
    ensures FirstReceived(fs, from, 0) == []
  {
  }

  /** With good parity packets for all missing data packets, no received parity packet is passed over,
      every missing packet is repaired, and the good parity packets to spare go to the first corrupt ones. */
  lemma AmpleParity(ds: seq<Packet>, fs: seq<Packet>)
    requires Missing(ds) <= GoodCount(fs)
    ensures FecNos(Picks(ds, fs)) == FirstReceived(fs, 0, |Picks(ds, fs)|)
    ensures forall c :: 0 <= c < |ds| && !ds[c].valid ==> c in Erased(Picks(ds, fs))
    ensures forall c :: 0 <= c < |ds| && ds[c].Corrupt() && Corrupted(ds[..c]) < GoodCount(fs) - Missing(ds) ==>
      c in Erased(Picks(ds, fs))
  {
    hide Missing, Corrupted, GoodCount, Select, FecNos, Erased, FirstReceived;
    assert ds[0..] == ds && fs[0..] == fs;
    SelectInOrder(ds, fs, 0, 0, GoodCount(fs), Missing(ds));
    forall c | 0 <= c < |ds| && !ds[c].valid
      ensures c in Erased(Picks(ds, fs))
    {
      SelectMissing(ds, fs, 0, 0, GoodCount(fs), Missing(ds), c);
    }
    forall c | 0 <= c < |ds| && ds[c].Corrupt() && Corrupted(ds[..c]) < GoodCount(fs) - Missing(ds)
      ensures c in Erased(Picks(ds, fs))
    {
      assert ds[0..c] == ds[..c];
      SelectSpare(ds, fs, 0, 0, GoodCount(fs), Missing(ds), c);
    }
  }
}
