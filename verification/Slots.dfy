/** How the data and parity packets of a block are interleaved under consecutive
    sequence numbers: D0 F0 D1 F1 ..., then whatever is left of the longer kind. */
module Slots {

  function Min(a: nat, b: nat): nat { if a <= b then a else b }

  /** Position of data packet i in a block with f parity packets. */
  function DataSlot(i: nat, f: nat): nat { i + Min(i, f) }

  /** Position of parity packet j in a block with d data packets. */
  function FecSlot(j: nat, d: nat): nat { j + Min(j + 1, d) }

  datatype Kind = Data(index: nat) | Fec(index: nat)

  /** Which packet travels in a given slot. */
  function KindAt(s: nat, d: nat, f: nat): Kind
    requires s < d + f
  {
    if s < 2 * Min(d, f) then (if s % 2 == 0 then Data(s / 2) else Fec(s / 2))
    else if d > f then Data(s - f)
    else Fec(s - d)
  }

  /** The slots of a block are shared out exactly: every slot carries one packet and
      every packet travels in one slot. */
  lemma SlotsExact(s: nat, d: nat, f: nat)
    requires s < d + f
    ensures match KindAt(s, d, f)
            case Data(i) => i < d && DataSlot(i, f) == s
            case Fec(j) => j < f && FecSlot(j, d) == s
  {
  }

  lemma DataSlotExact(i: nat, d: nat, f: nat)
    requires i < d
    ensures DataSlot(i, f) < d + f && KindAt(DataSlot(i, f), d, f) == Data(i)
  {
  }

  lemma FecSlotExact(j: nat, d: nat, f: nat)
    requires j < f
    ensures FecSlot(j, d) < d + f && KindAt(FecSlot(j, d), d, f) == Fec(j)
  {
  }

  /** A loop that alternates the two kinds and then finishes the longer one counts through the slots. */
  lemma RunningSlot(di: nat, fi: nat, d: nat, f: nat)
    requires di <= d && fi <= f
    requires di == fi || (fi == f && di > fi) || (di == d && fi > di)
    ensures di < d ==> DataSlot(di, f) == di + fi < d + f
    ensures fi < f ==> FecSlot(fi, d) == fi + (if di < d then di + 1 else di) < d + f
  {
  }

  /** D0 F0 D1 F1 ... and then the rest of the longer kind. */
  lemma SlotOrder(s: nat, d: nat, f: nat)
    requires s < d + f
    ensures s < 2 * d && s < 2 * f && s % 2 == 0 ==> KindAt(s, d, f) == Data(s / 2)
    ensures s < 2 * d && s < 2 * f && s % 2 == 1 ==> KindAt(s, d, f) == Fec(s / 2)
    ensures s >= 2 * f ==> KindAt(s, d, f) == Data(s - f)
    ensures s >= 2 * d ==> KindAt(s, d, f) == Fec(s - d)
  {
  }
}
