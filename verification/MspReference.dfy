/** MSP frames on bytes alone, without the parser's states: the parser does exactly this. */
module MspReference {
  import opened Gf256
  import opened Bytes
  import opened Words
  import opened Crc
  import opened Msp

  // ---------- what may still become a frame ----------

  ghost predicate ViableV1(v: seq<byte>)
    requires |v| >= 5
  {
    var n := Num(v[3]);
    n <= 192 && (|v| >= 6 + n ==> v[5 + n] == Xor(v[3..5 + n]))
  }

  ghost predicate ViableV2OverV1(v: seq<byte>)
    requires |v| >= 5
  {
    && 6 <= Num(v[3]) <= 192
    && (|v| >= 10 ==>
          var n := Le16(v[8], v[9]);
          && n <= 192
          && (|v| >= 11 + n ==> v[10 + n] == Crc8(v[5..10 + n]))
          && (|v| >= 12 + n ==> v[11 + n] == Xor(v[3..11 + n])))
  }

  ghost predicate ViableV2(v: seq<byte>)
    requires |v| >= 3
  {
    |v| >= 8 ==>
      var n := Le16(v[6], v[7]);
      n <= 192 && (|v| >= 9 + n ==> v[8 + n] == Crc8(v[3..8 + n]))
  }

  /** '$', 'M' or 'X', '>', and then what the lengths and checksums allow. */
  ghost predicate Viable(v: seq<byte>)
  {
    && (|v| >= 1 ==> v[0] == 0x24)
    && (|v| >= 2 ==> v[1] == 0x4d || v[1] == 0x58)
    && (|v| >= 3 ==> v[2] == 0x3e)
    && (|v| >= 3 && v[1] == 0x58 ==> ViableV2(v))
    && (|v| >= 5 && v[1] == 0x4d ==> if v[4] == 255 then ViableV2OverV1(v) else ViableV1(v))
  }

  /** The last byte of a frame has been reached. */
  ghost predicate Whole(v: seq<byte>)
  {
    && Viable(v)
    && (|| (|v| >= 8 && v[1] == 0x58 && |v| == 9 + Le16(v[6], v[7]))
        || (|v| >= 5 && v[1] == 0x4d && v[4] != 255 && |v| == 6 + Num(v[3]))
        || (|v| >= 10 && v[1] == 0x4d && v[4] == 255 && |v| == 12 + Le16(v[8], v[9])))
  }

  /** What a whole frame says. */
  ghost function Meaning(v: seq<byte>): Command
    requires Whole(v)
  {
    if v[1] == 0x58 then Command(V2Native, v[3], Le16(v[4], v[5]), v[8..|v| - 1])
    else if v[4] == 255 then Command(V2OverV1, v[5], Le16(v[6], v[7]), v[10..|v| - 2])
    else Command(V1, 0, Num(v[4]), v[5..|v| - 1])
  }

  // ---------- reading a stream ----------

  /** One byte more, or nothing if that can no longer become a frame. */
  ghost function Next(w: seq<byte>, c: byte): seq<byte>
  {
    if Viable(w + [c]) then w + [c] else []
  }

  /** The bytes of a stream that are still waiting for the rest of their frame. */
  ghost function Pending(s: seq<byte>): seq<byte>
  {
    if |s| == 0 then []
    else
      var w := Next(Pending(s[..|s| - 1]), s[|s| - 1]);
      if Whole(w) then [] else w
  }

  /** The commands of a stream. */
  ghost function Commands(s: seq<byte>): seq<Command>
  {
    if |s| == 0 then []
    else
      var w := Next(Pending(s[..|s| - 1]), s[|s| - 1]);
      Commands(s[..|s| - 1]) + if Whole(w) then [Meaning(w)] else []
  }

  // ---------- the parser against it ----------

  lemma EncodedIsWhole(f: Frame)
    requires f.WellFormed()
    ensures Whole(Encode(f)) && Meaning(Encode(f)) == f.body
  {
    hide Le16, Xor, Crc8, Num, Encode;
    LayoutHolds(f);
    var e := Encode(f);
    assert e[0] == e[..3][0] && e[1] == e[..3][1] && e[2] == e[..3][2];
  }

  /** Everything the parser tracks may still become a frame, and is none yet. */
  lemma TrackedIsPending(p: Port, w: seq<byte>)
    requires Tracks(p, w) && p.state !in {Idle, CommandReceived}
    ensures Viable(w) && !Whole(w)
  {
    hide Le16, Xor, Crc8, Num;
    if |w| >= 3 {
      assert w[0] == w[..3][0] && w[1] == w[..3][1] && w[2] == w[..3][2];
    }
  }

  lemma DroppedMark(p: Port, w: seq<byte>, c: byte)
    requires Tracks(p, w) && (p.state == HeaderStart || p.state == HeaderM || p.state == HeaderX)
    ensures Step(p, c).state == Idle ==> !Viable(w + [c])
  {
    hide Le16, Xor, Crc8, Num, HeadV1, OuterV1, HeadV2, Filled, Marked, ViableV1, ViableV2OverV1, ViableV2, Add,
      StepHeaderV1, StepPayload, StepHeaderV2OverV1, StepHeaderV2Native, Crc8DvbS2Table, TakeV2Header, Bits, Fold;
  }

  lemma DroppedHeaderV1(p: Port, w: seq<byte>, c: byte)
    requires Tracks(p, w) && p.state == HeaderV1
    ensures Step(p, c).state == Idle ==> !Viable(w + [c])
  {
    hide Le16, Xor, Crc8, Num, Add;
    Grow(p, w, c, 3);
    FilledAt(Put(p, c), w + [c], 3);
    assert w[1] == w[..3][1];
  }

  lemma DroppedHeaderV2(p: Port, w: seq<byte>, c: byte)
    requires Tracks(p, w) && p.state in {HeaderV2OverV1, HeaderV2Native}
    ensures Step(p, c).state == Idle ==> !Viable(w + [c])
  {
    hide Le16, Xor, Crc8, Num, Add, Crc8DvbS2Table;
    Grow(p, w, c, 3);
    FilledAt(Put(p, c), w + [c], 3);
    assert w[1] == w[..3][1];
  }

  lemma PayloadNeverDrops(p: Port, w: seq<byte>, c: byte)
    requires Tracks(p, w) && p.state in {PayloadV1, PayloadV2OverV1, PayloadV2Native}
    ensures Step(p, c).state != Idle
  {
    hide Le16, Xor, Crc8, Num, Add, Crc8DvbS2Table;
  }

  lemma WrongXorV1(w: seq<byte>, c: byte)
    requires |w| >= 5 && Marked(w, MARK_M) && w[4] != 255 && |w| == 5 + Num(w[3]) && c != Xor(w[3..])
    ensures !Viable(w + [c])
  {
    hide Le16, Xor, Crc8, Num;
    assert w[1] == w[..3][1] && (w + [c])[3..|w|] == w[3..];
  }

  lemma WrongXorV2(w: seq<byte>, c: byte)
    requires |w| >= 11 && Marked(w, MARK_M) && w[4] == 255 && |w| == 11 + Le16(w[8], w[9]) && c != Xor(w[3..])
    ensures !Viable(w + [c])
  {
    hide Le16, Xor, Crc8, Num;
    assert w[1] == w[..3][1] && (w + [c])[3..|w|] == w[3..];
  }

  lemma DroppedChecksumV1(p: Port, w: seq<byte>, c: byte)
    requires Tracks(p, w) && p.state == ChecksumV1
    ensures Step(p, c).state == Idle ==> !Viable(w + [c])
  {
    hide Le16, Xor, Crc8, Num, Add, Viable, Marked,
      StepHeaderV1, StepPayload, StepHeaderV2OverV1, StepHeaderV2Native, Crc8DvbS2Table, TakeV2Header, Bits, Fold;
    if p.checksum1 != c {
      if HeadV1(p, w) {
        WrongXorV1(w, c);
      } else {
        WrongXorV2(w, c);
      }
    }
  }

  lemma WrongCrcV2(w: seq<byte>, c: byte)
    requires |w| >= 8 && Marked(w, MARK_X) && |w| == 8 + Le16(w[6], w[7]) && c != Crc8(w[3..])
    ensures !Viable(w + [c])
  {
    hide Le16, Xor, Crc8, Num;
    assert w[1] == w[..3][1] && (w + [c])[3..|w|] == w[3..];
  }

  lemma WrongCrcV2OverV1(w: seq<byte>, c: byte)
    requires |w| >= 10 && Marked(w, MARK_M) && w[4] == 255 && |w| == 10 + Le16(w[8], w[9]) && c != Crc8(w[5..])
    ensures !Viable(w + [c])
  {
    hide Le16, Xor, Crc8, Num;
    assert w[1] == w[..3][1] && (w + [c])[5..|w|] == w[5..];
  }

  lemma DroppedChecksumV2(p: Port, w: seq<byte>, c: byte)
    requires Tracks(p, w) && (p.state == ChecksumV2OverV1 || p.state == ChecksumV2Native)
    ensures Step(p, c).state == Idle ==> !Viable(w + [c])
  {
    hide Le16, Xor, Crc8, Num, Add, Viable, Marked,
      StepHeaderV1, StepPayload, StepHeaderV2OverV1, StepHeaderV2Native, Crc8DvbS2Table, TakeV2Header, Bits, Fold;
    if p.checksum2 != c {
      if p.state == ChecksumV2Native {
        WrongCrcV2(w, c);
      } else {
        WrongCrcV2OverV1(w, c);
      }
    }
  }

  lemma StepMatches(p: Port, w: seq<byte>, c: byte)
    requires Tracks(p, w) && p.state !in {Idle, CommandReceived}
    ensures Safe(p) &&
            var q, v := Step(p, c), w + [c];
            && Safe(q)
            && (q.state == Idle <==> !Viable(v)) && (q.state == CommandReceived <==> Whole(v))
            && (q.state == CommandReceived ==> Meaning(v) == Taken(q))
            && (q.state != Idle && q.state != CommandReceived ==> Tracks(q, v))
  {
    hide Step, Tracks, Viable, Whole, Meaning, Encode, Taken;
    TrackedSafe(p, w);
    StepExplained(p, w, c);
    var q, v := Step(p, c), w + [c];
    Outcome(q, v);
    if q.state == CommandReceived {
      EncodedIsWhole(FrameIn(q, v));
      WholeIsViable(v);
    } else if q.state != Idle {
      TrackedIsPending(q, v);
    } else {
      WholeIsViable(v);
      match p.state
      case HeaderStart => DroppedMark(p, w, c);
      case HeaderM => DroppedMark(p, w, c);
      case HeaderX => DroppedMark(p, w, c);
      case HeaderV1 => DroppedHeaderV1(p, w, c);
      case ChecksumV1 => DroppedChecksumV1(p, w, c);
      case HeaderV2OverV1 => DroppedHeaderV2(p, w, c);
      case ChecksumV2OverV1 => DroppedChecksumV2(p, w, c);
      case HeaderV2Native => DroppedHeaderV2(p, w, c);
      case ChecksumV2Native => DroppedChecksumV2(p, w, c);
      case PayloadV1 => PayloadNeverDrops(p, w, c);
      case PayloadV2OverV1 => PayloadNeverDrops(p, w, c);
      case PayloadV2Native => PayloadNeverDrops(p, w, c);
    }
  }

  lemma TrackedSafe(p: Port, w: seq<byte>)
    requires Tracks(p, w)
    ensures Safe(p)
  {
  }

  lemma WholeIsViable(v: seq<byte>)
    ensures Whole(v) ==> Viable(v)
  {
  }

  lemma OneByte(c: byte)
    ensures Viable([c]) <==> c == 0x24
    ensures !Whole([c])
  {
  }

  lemma NothingWhole()
    ensures !Whole([])
  {
  }

  /** For every stream: the parser receives exactly the commands of the stream. */
  lemma {:induction false} ParserIsReference(p: Port, s: seq<byte>)
    requires Safe(p) && p.state == Idle
    ensures Received(p, s) == Commands(s) && Tracks(Run(p, s), Pending(s))
  {
    hide Step, Tracks, Viable, Whole, Meaning, Safe, Taken;
    if |s| == 0 {
      NothingYet(p);
    } else {
      var c, before := s[|s| - 1], Run(p, s[..|s| - 1]);
      ParserIsReference(p, s[..|s| - 1]);
      var w := Pending(s[..|s| - 1]);
      NothingWhole();
      if before.state in {Idle, CommandReceived} {
        NoFrameYet(before, w);
        StartStep(before, c);
        OneByte(c);
        assert w + [c] == [c];
      } else {
        StepMatches(before, w, c);
        Rests(Step(before, c));
      }
    }
  }

  lemma Rests(q: Port)
    ensures Safe(q) && q.state in {Idle, CommandReceived} ==> Tracks(q, [])
  {
  }
}
