/** Which parity packets stand in for which data packets (process_video_payload). */
module Selection {
  import opened Gf256
  import opened Code

  /** One packet buffer of the receiver. */
  datatype Packet = Packet(valid: bool, crc: bool, len: nat, data: seq<byte>)
  {
    predicate Good() { valid && crc }
    predicate Corrupt() { valid && !crc }
  }

  function Missing(ps: seq<Packet>): (n: nat)
    ensures n <= |ps|
  {
    if |ps| == 0 then 0 else (if ps[0].valid then 0 else 1) + Missing(ps[1..])
  }

  function Corrupted(ps: seq<Packet>): (n: nat)
    ensures n <= |ps|
  {
    if |ps| == 0 then 0 else (if ps[0].Corrupt() then 1 else 0) + Corrupted(ps[1..])
  }

  function GoodCount(ps: seq<Packet>): (n: nat)
    ensures n <= |ps|
  {
    if |ps| == 0 then 0 else (if ps[0].Good() then 1 else 0) + GoodCount(ps[1..])
  }

  lemma {:induction false} CountsAddUp(ps: seq<Packet>)
    ensures Missing(ps) + Corrupted(ps) + GoodCount(ps) == |ps|
  {
    if |ps| > 0 {
      CountsAddUp(ps[1..]);
    }
  }

  lemma {:induction false} CountAppend(ps: seq<Packet>, p: Packet)
    ensures Missing(ps + [p]) == Missing(ps) + if p.valid then 0 else 1
    ensures Corrupted(ps + [p]) == Corrupted(ps) + if p.Corrupt() then 1 else 0
    ensures GoodCount(ps + [p]) == GoodCount(ps) + if p.Good() then 1 else 0
  {
    if |ps| > 0 {
      CountAppend(ps[1..], p);
      assert (ps + [p])[1..] == ps[1..] + [p];
    } else {
      assert ps + [p] == [p];
      assert [p][1..] == [];
    }
  }

  lemma {:induction false} BadCounted(ps: seq<Packet>, c: nat)
    requires c < |ps| && !ps[c].Good()
    ensures Missing(ps) + Corrupted(ps) > 0
  {
    if c > 0 {
      BadCounted(ps[1..], c - 1);
    }
  }

  /** A parity packet chosen for a data packet. */
  datatype Pick = Pick(di: nat, fi: nat)

  /** The selection loop, from data index di and parity index fi onwards, with the running
      counts of unused good parity packets and of missing data packets. */
  function Select(ds: seq<Packet>, fs: seq<Packet>, di: nat, fi: nat, good: int, missing: int): seq<Pick>
    decreases |ds| + |fs| - di - fi
  {
    if di >= |ds| || fi >= |fs| then []
    else if ds[di].Good() then Select(ds, fs, di + 1, fi, good, missing)
    else if ds[di].Corrupt() && good <= missing then Select(ds, fs, di + 1, fi, good, missing)
    else if !fs[fi].valid then Select(ds, fs, di, fi + 1, good, missing)
    else if !fs[fi].crc && missing > good then Select(ds, fs, di, fi + 1, good, missing)
    else [Pick(di, fi)] + Select(ds, fs, di + 1, fi + 1,
                                 if fs[fi].crc then good - 1 else good,
                                 if ds[di].valid then missing else missing - 1)
  }

  function Picks(ds: seq<Packet>, fs: seq<Packet>): seq<Pick>
  {
    Select(ds, fs, 0, 0, GoodCount(fs), Missing(ds))
  }

  function Erased(picks: seq<Pick>): (s: seq<nat>)
    ensures |s| == |picks| && forall i :: 0 <= i < |picks| ==> s[i] == picks[i].di
  {
    seq(|picks|, i requires 0 <= i < |picks| => picks[i].di)
  }

  function FecNos(picks: seq<Pick>): (s: seq<nat>)
    ensures |s| == |picks| && forall i :: 0 <= i < |picks| ==> s[i] == picks[i].fi
  {
    seq(|picks|, i requires 0 <= i < |picks| => picks[i].fi)
  }

  /** Both index lists ascend, only bad data packets are erased, only received parity packets are used. */
  ghost predicate PicksFrom(picks: seq<Pick>, ds: seq<Packet>, fs: seq<Packet>, di: nat, fi: nat)
  {
    && (forall i :: 0 <= i < |picks| ==> di <= picks[i].di < |ds| && fi <= picks[i].fi < |fs|)
    && (forall i :: 0 <= i < |picks| ==> !ds[picks[i].di].Good() && fs[picks[i].fi].valid)
    && (forall i, j :: 0 <= i < j < |picks| ==> picks[i].di < picks[j].di && picks[i].fi < picks[j].fi)
  }

  lemma PicksExtend(picks: seq<Pick>, ds: seq<Packet>, fs: seq<Packet>, di: nat, fi: nat)
    requires PicksFrom(picks, ds, fs, di + 1, fi + 1)
    requires di < |ds| && fi < |fs| && !ds[di].Good() && fs[fi].valid
    ensures PicksFrom([Pick(di, fi)] + picks, ds, fs, di, fi)
  {
  }

  lemma PicksWeaken(picks: seq<Pick>, ds: seq<Packet>, fs: seq<Packet>, di: nat, fi: nat, di': nat, fi': nat)
    requires PicksFrom(picks, ds, fs, di', fi') && di <= di' && fi <= fi'
    ensures PicksFrom(picks, ds, fs, di, fi)
  {
  }

  lemma {:induction false} SelectWellFormed(ds: seq<Packet>, fs: seq<Packet>, di: nat, fi: nat, good: int, missing: int)
    ensures PicksFrom(Select(ds, fs, di, fi, good, missing), ds, fs, di, fi)
    decreases |ds| + |fs| - di - fi
  {
    hide PicksFrom;
    if di >= |ds| || fi >= |fs| {
      NoPicks(ds, fs, di, fi);
    } else if ds[di].Good() || (ds[di].Corrupt() && good <= missing) {
      SelectWellFormed(ds, fs, di + 1, fi, good, missing);
      PicksWeaken(Select(ds, fs, di, fi, good, missing), ds, fs, di, fi, di + 1, fi);
    } else if !fs[fi].valid || (!fs[fi].crc && missing > good) {
      SelectWellFormed(ds, fs, di, fi + 1, good, missing);
      PicksWeaken(Select(ds, fs, di, fi, good, missing), ds, fs, di, fi, di, fi + 1);
    } else {
      var good' := if fs[fi].crc then good - 1 else good;
      var missing' := if ds[di].valid then missing else missing - 1;
      SelectWellFormed(ds, fs, di + 1, fi + 1, good', missing');
      PicksExtend(Select(ds, fs, di + 1, fi + 1, good', missing'), ds, fs, di, fi);
    }
  }

  lemma NoPicks(ds: seq<Packet>, fs: seq<Packet>, di: nat, fi: nat)
    ensures PicksFrom([], ds, fs, di, fi)
  {
  }

  lemma PicksAreAPlan(ds: seq<Packet>, fs: seq<Packet>)
    requires |ds| <= 128 && |fs| <= 128
    ensures var p := Picks(ds, fs); RepairPlan(|ds|, FecNos(p), Erased(p))
    ensures forall i :: 0 <= i < |ds| && ds[i].Good() ==> i !in Erased(Picks(ds, fs))
  {
    SelectWellFormed(ds, fs, 0, 0, GoodCount(fs), Missing(ds));
  }

  lemma {:induction false} CountSplit(ps: seq<Packet>, i: nat)
    requires i < |ps|
    ensures ps[i..][1..] == ps[i + 1..] && ps[i..][0] == ps[i]
  {
  }

  /** If the good parity packets suffice, no bad data packet is passed over. */
  lemma {:induction false} SelectCovers(ds: seq<Packet>, fs: seq<Packet>, di: nat, fi: nat, good: int, missing: int, c: nat)
    requires di <= |ds| && fi <= |fs|
    requires good == GoodCount(fs[fi..]) && missing == Missing(ds[di..])
    requires Missing(ds[di..]) + Corrupted(ds[di..]) <= good
    requires di <= c < |ds| && !ds[c].Good()
    ensures exists i :: 0 <= i < |Select(ds, fs, di, fi, good, missing)| && Select(ds, fs, di, fi, good, missing)[i].di == c
    decreases |ds| + |fs| - di - fi
  {
    var picks := Select(ds, fs, di, fi, good, missing);
    CountSplit(ds, di);
    BadCounted(ds[di..], c - di);
    if fi < |fs| {
      CountSplit(fs, fi);
      if ds[di].Good() {
        SelectCovers(ds, fs, di + 1, fi, good, missing, c);
      } else if !fs[fi].valid {
        SelectCovers(ds, fs, di, fi + 1, good, missing, c);
      } else {
        var good' := if fs[fi].crc then good - 1 else good;
        var missing' := if ds[di].valid then missing else missing - 1;
        var rest := Select(ds, fs, di + 1, fi + 1, good', missing');
        assert picks == [Pick(di, fi)] + rest;
        if c == di {
          assert picks[0].di == c;
        } else {
          SelectCovers(ds, fs, di + 1, fi + 1, good', missing', c);
          var i :| 0 <= i < |rest| && rest[i].di == c;
          assert picks[i + 1].di == c;
        }
      }
    }
  }

  /** With enough good parity packets every missing or corrupt data packet is erased. */
  lemma PicksCover(ds: seq<Packet>, fs: seq<Packet>, c: nat)
    requires Missing(ds) + Corrupted(ds) <= GoodCount(fs) && c < |ds| && !ds[c].Good()
    ensures c in Erased(Picks(ds, fs))
  {
    assert ds[0..] == ds && fs[0..] == fs;
    SelectCovers(ds, fs, 0, 0, GoodCount(fs), Missing(ds), c);
    var p := Picks(ds, fs);
    var i :| 0 <= i < |p| && p[i].di == c;
    assert Erased(p)[i] == c;
  }

  /** The first n received parity packets from index `from` on, whatever their checksums. */
  function FirstReceived(fs: seq<Packet>, from: nat, n: nat): (s: seq<nat>)
    ensures |s| <= n && forall i :: 0 <= i < |s| ==> from <= s[i] < |fs|
    decreases |fs| - from
  {
    if n == 0 || from >= |fs| then []
    else if fs[from].valid then [from] + FirstReceived(fs, from + 1, n - 1)
    else FirstReceived(fs, from + 1, n)
  }

  /** If the good parity packets suffice, no received parity packet is passed over either. */
  lemma {:induction false} SelectTakesFirst(ds: seq<Packet>, fs: seq<Packet>, di: nat, fi: nat, good: int, missing: int)
    requires di <= |ds| && fi <= |fs|
    requires good == GoodCount(fs[fi..]) && missing == Missing(ds[di..])
    requires Missing(ds[di..]) + Corrupted(ds[di..]) <= good
    ensures FecNos(Select(ds, fs, di, fi, good, missing)) ==
            FirstReceived(fs, fi, Missing(ds[di..]) + Corrupted(ds[di..]))
    decreases |ds| + |fs| - di - fi
  {
    hide Missing, Corrupted, GoodCount, FecNos, Select, FirstReceived;
    CountsFrom(ds, di);
    CountsFrom(fs, fi);
    SelectOnce(ds, fs, di, fi, good, missing);
    FirstOnce(fs, fi, Missing(ds[di..]) + Corrupted(ds[di..]));
    if di < |ds| && fi < |fs| {
      if ds[di].Good() {
        SelectTakesFirst(ds, fs, di + 1, fi, good, missing);
      } else if !fs[fi].valid {
        SelectTakesFirst(ds, fs, di, fi + 1, good, missing);
      } else {
        var good' := if fs[fi].crc then good - 1 else good;
        var missing' := if ds[di].valid then missing else missing - 1;
        SelectTakesFirst(ds, fs, di + 1, fi + 1, good', missing');
        PickFirst(Pick(di, fi), Select(ds, fs, di + 1, fi + 1, good', missing'));
      }
    }
  }

  /** The counts of what is left, one packet at a time. */
  lemma CountsFrom(ps: seq<Packet>, i: nat)
    requires i <= |ps|
    ensures i == |ps| ==> Missing(ps[i..]) == Corrupted(ps[i..]) == GoodCount(ps[i..]) == 0
    ensures i < |ps| ==>
      && Missing(ps[i..]) == (if ps[i].valid then 0 else 1) + Missing(ps[i + 1..])
      && Corrupted(ps[i..]) == (if ps[i].Corrupt() then 1 else 0) + Corrupted(ps[i + 1..])
      && GoodCount(ps[i..]) == (if ps[i].Good() then 1 else 0) + GoodCount(ps[i + 1..])
  {
    if i < |ps| {
      CountSplit(ps, i);
    }
  }

  /** One round of the selection when the good parity packets suffice. */
  lemma SelectOnce(ds: seq<Packet>, fs: seq<Packet>, di: nat, fi: nat, good: int, missing: int)
    requires di < |ds| && ds[di].Corrupt() ==> good > missing
    requires di < |ds| && !ds[di].valid ==> good >= missing
    ensures Select(ds, fs, di, fi, good, missing) ==
      if di >= |ds| || fi >= |fs| then []
      else if ds[di].Good() then Select(ds, fs, di + 1, fi, good, missing)
      else if !fs[fi].valid then Select(ds, fs, di, fi + 1, good, missing)
      else [Pick(di, fi)] + Select(ds, fs, di + 1, fi + 1, if fs[fi].crc then good - 1 else good,
                                   if ds[di].valid then missing else missing - 1)
  {
  }

  lemma FirstOnce(fs: seq<Packet>, from: nat, n: nat)
    ensures FirstReceived(fs, from, n) ==
      if n == 0 || from >= |fs| then []
      else if fs[from].valid then [from] + FirstReceived(fs, from + 1, n - 1)
      else FirstReceived(fs, from + 1, n)
  {
  }

  lemma PickFirst(p: Pick, rest: seq<Pick>)
    ensures FecNos([p] + rest) == [p.fi] + FecNos(rest)
  {
  }

  /** A block that is not failed uses its first received parity packets, one for each bad data packet. */
  lemma FirstReceivedUsed(ds: seq<Packet>, fs: seq<Packet>)
    requires Missing(ds) + Corrupted(ds) <= GoodCount(fs)
    ensures FecNos(Picks(ds, fs)) == FirstReceived(fs, 0, Missing(ds) + Corrupted(ds))
  {
    assert ds[0..] == ds && fs[0..] == fs;
    SelectTakesFirst(ds, fs, 0, 0, GoodCount(fs), Missing(ds));
  }

  lemma PickAppended(done: seq<Pick>, p: Pick)
    ensures Erased(done + [p]) == Erased(done) + [p.di] && FecNos(done + [p]) == FecNos(done) + [p.fi]
  {
  }

  /** done followed by what the loop would still pick is the whole result. */
  ghost predicate Selecting(ds: seq<Packet>, fs: seq<Packet>, done: seq<Pick>, di: nat, fi: nat, good: int, missing: int)
  {
    Picks(ds, fs) == done + Select(ds, fs, di, fi, good, missing)
  }

  lemma SelectingStep(ds: seq<Packet>, fs: seq<Packet>, done: seq<Pick>, di: nat, fi: nat, good: int, missing: int)
    requires Selecting(ds, fs, done, di, fi, good, missing) && di < |ds| && fi < |fs|
    ensures ds[di].Good() || (ds[di].Corrupt() && good <= missing) ==> Selecting(ds, fs, done, di + 1, fi, good, missing)
    ensures !(ds[di].Good() || (ds[di].Corrupt() && good <= missing)) ==>
      if !fs[fi].valid || (!fs[fi].crc && missing > good) then Selecting(ds, fs, done, di, fi + 1, good, missing)
      else Selecting(ds, fs, done + [Pick(di, fi)], di + 1, fi + 1,
                     if fs[fi].crc then good - 1 else good,
                     if ds[di].valid then missing else missing - 1)
  {
    hide Picks;
    var rest := Select(ds, fs, di + 1, fi + 1,
                       if fs[fi].crc then good - 1 else good,
                       if ds[di].valid then missing else missing - 1);
    assert done + ([Pick(di, fi)] + rest) == done + [Pick(di, fi)] + rest;
  }

  lemma SelectingEnds(ds: seq<Packet>, fs: seq<Packet>, done: seq<Pick>, di: nat, fi: nat, good: int, missing: int)
    requires Selecting(ds, fs, done, di, fi, good, missing) && (di >= |ds| || fi >= |fs|)
    ensures done == Picks(ds, fs)
  {
    hide Picks;
    assert done + [] == done;
  }

  lemma SelectingStarts(ds: seq<Packet>, fs: seq<Packet>)
    ensures Selecting(ds, fs, [], 0, 0, GoodCount(fs), Missing(ds))
  {
  }

  /** The loop as written: it ends, and it computes the specified picks. */
  method SelectLoop(ds: seq<Packet>, fs: seq<Packet>) returns (erased: seq<nat>, fecNos: seq<nat>)
    ensures erased == Erased(Picks(ds, fs)) && fecNos == FecNos(Picks(ds, fs))
  {
    hide Selecting, Picks, Select, Missing, GoodCount;
    var di, fi := 0, 0;
    var goodFecs: int, datasMissing: int := GoodCount(fs), Missing(ds);
    erased, fecNos := [], [];
    ghost var done: seq<Pick> := [];
    SelectingStarts(ds, fs);
    while di < |ds| && fi < |fs|
      invariant di <= |ds| && fi <= |fs|
      invariant Selecting(ds, fs, done, di, fi, goodFecs, datasMissing)
      invariant erased == Erased(done) && fecNos == FecNos(done)
      decreases |ds| + |fs| - di - fi
    {
      SelectingStep(ds, fs, done, di, fi, goodFecs, datasMissing);
      if ds[di].valid && ds[di].crc {
        di := di + 1;
        continue;
      }
      if ds[di].valid && !ds[di].crc && goodFecs <= datasMissing {
        di := di + 1;
        continue;
      }
      if !fs[fi].valid {
        fi := fi + 1;
        continue;
      }
      if !fs[fi].crc && datasMissing > goodFecs {
        fi := fi + 1;
        continue;
      }
      if !ds[di].valid {
        datasMissing := datasMissing - 1;
      }
      if fs[fi].crc {
        goodFecs := goodFecs - 1;
      }
      PickAppended(done, Pick(di, fi));
      erased := erased + [di];
      fecNos := fecNos + [fi];
      done := done + [Pick(di, fi)];
      di := di + 1;
      fi := fi + 1;
    }
    SelectingEnds(ds, fs, done, di, fi, goodFecs, datasMissing);
  }
}
