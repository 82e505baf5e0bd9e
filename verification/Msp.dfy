/** The MSP parser of the air unit: v1, v2 and v2 inside v1. */
module Msp {
  import opened Gf256
  import opened Bytes
  import opened Words
  import opened Crc

  /** MSP_PORT_INBUF_SIZE */
  const INBUF := 192

  const DOLLAR: byte := 0x24
  const LETTER_M: byte := 0x4d
  const LETTER_X: byte := 0x58
  const ARROW: byte := 0x3e

  /** MSP_V2_FRAME_ID */
  const FRAME_ID: byte := 255

  datatype State =
    | Idle | HeaderStart | HeaderM | HeaderX
    | HeaderV1 | PayloadV1 | ChecksumV1
    | HeaderV2OverV1 | PayloadV2OverV1 | ChecksumV2OverV1
    | HeaderV2Native | PayloadV2Native | ChecksumV2Native
    | CommandReceived

  datatype Version = V1 | V2OverV1 | V2Native

  /** The fields of mspPort_t. */
  datatype Port = Port(state: State, inBuf: seq<byte>, offset: nat, dataSize: nat, version: Version,
                       cmdFlags: byte, cmd: nat, checksum1: byte, checksum2: byte)

  /** inBuf[offset++] = c; a write past the end would have no meaning here. */
  function Put(p: Port, c: byte): Port
    requires p.offset < |p.inBuf|
  {
    p.(inBuf := p.inBuf[p.offset := c], offset := p.offset + 1)
  }

  /** Every write of the next byte would stay inside the buffer. */
  predicate Safe(p: Port)
  {
    && |p.inBuf| == INBUF
    && (p.state == HeaderV1 ==> p.offset < 2)
    && (p.state == HeaderV2OverV1 ==> 2 <= p.offset < 7)
    && (p.state == HeaderV2Native ==> p.offset < 5)
    && (p.state in {PayloadV1, PayloadV2OverV1, PayloadV2Native} ==> p.offset < p.dataSize <= INBUF)
  }

  /** The v2 header at inBuf[at..at + 5], once it is complete. */
  function TakeV2Header(p: Port, at: nat, payload: State, checksum: State): (r: Port)
    requires at + 5 <= |p.inBuf| == INBUF
    requires payload in {PayloadV2OverV1, PayloadV2Native} && checksum in {ChecksumV2OverV1, ChecksumV2Native}
    ensures Safe(r)
  {
    hide Add, Crc8DvbS2Table, Bits, Fold, Num, Le16;
    var size := Le16(p.inBuf[at + 3], p.inBuf[at + 4]);
    if size > INBUF then p.(state := Idle)
    else p.(dataSize := size, cmd := Le16(p.inBuf[at + 1], p.inBuf[at + 2]), cmdFlags := p.inBuf[at], offset := 0,
            state := if size > 0 then payload else checksum)
  }

  function StepHeaderV1(p: Port, c: byte): (r: Port)
    requires Safe(p) && p.state == HeaderV1
    ensures Safe(r)
  {
    hide Add, Crc8DvbS2Table, Bits, Fold, Num, Le16;
    var q := Put(p, c).(checksum1 := Add(p.checksum1, c));
    if q.offset != 2 then q
    else if Num(q.inBuf[0]) > INBUF then q.(state := Idle)
    else if q.inBuf[1] == FRAME_ID then
      if Num(q.inBuf[0]) >= 6 then q.(version := V2OverV1, state := HeaderV2OverV1) else q.(state := Idle)
    else q.(dataSize := Num(q.inBuf[0]), cmd := Num(q.inBuf[1]), cmdFlags := 0, offset := 0,
            state := if Num(q.inBuf[0]) > 0 then PayloadV1 else ChecksumV1)
  }

  function StepPayload(p: Port, c: byte, checksum1: byte, checksum2: byte, next: State): (r: Port)
    requires Safe(p) && p.state in {PayloadV1, PayloadV2OverV1, PayloadV2Native}
    requires next in {ChecksumV1, ChecksumV2OverV1, ChecksumV2Native}
    ensures Safe(r)
  {
    hide Add, Crc8DvbS2Table, Bits, Fold, Num, Le16;
    var q := Put(p, c).(checksum1 := checksum1, checksum2 := checksum2);
    if q.offset == q.dataSize then q.(state := next) else q
  }

  function StepHeaderV2OverV1(p: Port, c: byte): (r: Port)
    requires Safe(p) && p.state == HeaderV2OverV1
    ensures Safe(r)
  {
    hide Add, Crc8DvbS2Table, Bits, Fold, Num, Le16;
    var q := Put(p, c).(checksum1 := Add(p.checksum1, c), checksum2 := Crc8DvbS2Table(p.checksum2, c));
    if q.offset != 7 then q
    else TakeV2Header(q.(dataSize := Le16(q.inBuf[5], q.inBuf[6])), 2, PayloadV2OverV1, ChecksumV2OverV1)
  }

  function StepHeaderV2Native(p: Port, c: byte): (r: Port)
    requires Safe(p) && p.state == HeaderV2Native
    ensures Safe(r)
  {
    hide Add, Crc8DvbS2Table, Bits, Fold, Num, Le16;
    var q := Put(p, c).(checksum2 := Crc8DvbS2Table(p.checksum2, c));
    if q.offset != 5 then q else TakeV2Header(q, 0, PayloadV2Native, ChecksumV2Native)
  }

  /** mspSerialProcessReceivedData. */
  function Step(p: Port, c: byte): (r: Port)
    requires Safe(p)
    ensures Safe(r)
  {
    hide Add, Crc8DvbS2Table, Bits, Fold, Num, Le16, StepHeaderV1, StepPayload, StepHeaderV2OverV1, StepHeaderV2Native;
    match p.state
    case Idle => Start(p, c)
    case CommandReceived => Start(p, c)
    case HeaderStart =>
      p.(state := if c == LETTER_M then HeaderM else if c == LETTER_X then HeaderX else Idle)
    case HeaderM =>
      if c == ARROW then p.(offset := 0, checksum1 := 0, checksum2 := 0, state := HeaderV1) else p.(state := Idle)
    case HeaderX =>
      if c == ARROW then p.(offset := 0, checksum2 := 0, version := V2Native, state := HeaderV2Native)
      else p.(state := Idle)
    case HeaderV1 => StepHeaderV1(p, c)
    case PayloadV1 => StepPayload(p, c, Add(p.checksum1, c), p.checksum2, ChecksumV1)
    case ChecksumV1 => p.(state := if p.checksum1 == c then CommandReceived else Idle)
    case HeaderV2OverV1 => StepHeaderV2OverV1(p, c)
    case PayloadV2OverV1 =>
      StepPayload(p, c, Add(p.checksum1, c), Crc8DvbS2Table(p.checksum2, c), ChecksumV2OverV1)
    case ChecksumV2OverV1 =>
      p.(checksum1 := Add(p.checksum1, c), state := if p.checksum2 == c then ChecksumV1 else Idle)
    case HeaderV2Native => StepHeaderV2Native(p, c)
    case PayloadV2Native => StepPayload(p, c, p.checksum1, Crc8DvbS2Table(p.checksum2, c), ChecksumV2Native)
    case ChecksumV2Native => p.(state := if p.checksum2 == c then CommandReceived else Idle)
  }

  function Start(p: Port, c: byte): Port
  {
    if c == DOLLAR then p.(version := V1, state := HeaderStart) else p
  }

  // ---------- frames ----------

  /** A received command. */
  datatype Command = Command(version: Version, flags: byte, cmd: nat, payload: seq<byte>)

  /** A frame on the wire; outer is the v1 size byte around a v2 frame. */
  datatype Frame = Frame(outer: byte, body: Command)
  {
    predicate WellFormed()
    {
      && |body.payload| <= INBUF
      && match body.version
         case V1 => body.flags == 0 && body.cmd < 255
         case V2OverV1 => body.cmd < 0x1_0000 && 6 <= Num(outer) <= INBUF
         case V2Native => body.cmd < 0x1_0000
    }
  }

  /** XOR of all bytes. */
  function Xor(s: seq<byte>): byte
  {
    if |s| == 0 then 0 else Add(Xor(s[..|s| - 1]), s[|s| - 1])
  }

  /** The XOR of a concatenation is the sum of the parts, so the checksum starts at zero. */
  lemma {:induction false} XorAdds(s: seq<byte>, t: seq<byte>)
    ensures Xor(s + t) == Add(Xor(s), Xor(t))
    ensures |t| == 1 ==> Xor(t) == t[0]
  {
    hide Add;
    if |t| == 0 {
      assert s + t == s;
      AddZero(Xor(s));
    } else {
      var n := |t| - 1;
      assert (s + t)[..|s| + n] == s + t[..n] && (s + t)[|s| + n] == t[n];
      XorAdds(s, t[..n]);
      AddAssociates(Xor(s), Xor(t[..n]), t[n]);
      AddZero(t[n]);
    }
  }

  function Crc8(s: seq<byte>): byte { Fold(DVB_S2, 0, s) }

  const MARK_M: seq<byte> := [DOLLAR, LETTER_M, ARROW]
  const MARK_X: seq<byte> := [DOLLAR, LETTER_X, ARROW]

  /** The v2 part: header and payload. */
  function V2Part(c: Command): (s: seq<byte>)
    requires c.cmd < 0x1_0000 && |c.payload| <= INBUF
    ensures |s| == 5 + |c.payload|
  {
    [c.flags] + ToLe16(c.cmd) + ToLe16(|c.payload|) + c.payload
  }

  function Encode(f: Frame): seq<byte>
    requires f.WellFormed()
  {
    match f.body.version
    case V1 =>
      var s := [Byte(|f.body.payload|), Byte(f.body.cmd)] + f.body.payload;
      MARK_M + s + [Xor(s)]
    case V2OverV1 =>
      var s := [f.outer, FRAME_ID] + V2Part(f.body) + [Crc8(V2Part(f.body))];
      MARK_M + s + [Xor(s)]
    case V2Native => MARK_X + V2Part(f.body) + [Crc8(V2Part(f.body))]
  }

  // ---------- what the parser knows about the bytes since the last '$' ----------

  ghost predicate Filled(p: Port, w: seq<byte>, at: nat)
  {
    |p.inBuf| == INBUF && |w| == at + p.offset && p.offset <= INBUF && p.inBuf[..p.offset] == w[at..]
  }

  ghost predicate Marked(w: seq<byte>, mark: seq<byte>)
  {
    |w| >= 3 && |mark| == 3 && w[..3] == mark
  }

  /** w starts with a complete v1 header of the command being received. */
  ghost predicate HeadV1(p: Port, w: seq<byte>)
  {
    && |w| >= 5 && Marked(w, MARK_M) && p.version == V1 && p.cmdFlags == 0
    && p.dataSize == Num(w[3]) <= INBUF && p.cmd == Num(w[4]) && w[4] != FRAME_ID
    && p.checksum1 == Xor(w[3..])
  }

  /** w starts with the v1 header that announces a v2 frame. */
  ghost predicate OuterV1(p: Port, w: seq<byte>)
  {
    && |w| >= 5 && Marked(w, MARK_M) && p.version == V2OverV1
    && 6 <= Num(w[3]) <= INBUF && w[4] == FRAME_ID && p.checksum1 == Xor(w[3..])
  }

  /** w holds the v2 header of the command being received at the given place. */
  ghost predicate HeadV2(p: Port, w: seq<byte>, at: nat)
  {
    && |w| >= at + 5 && p.cmdFlags == w[at] && p.cmd == Le16(w[at + 1], w[at + 2])
    && p.dataSize == Le16(w[at + 3], w[at + 4]) <= INBUF
  }

  ghost predicate Tracks(p: Port, w: seq<byte>)
  {
    && Safe(p)
    && match p.state
       case Idle => w == []
       case CommandReceived => w == []
       case HeaderStart => w == [DOLLAR] && p.version == V1
       case HeaderM => w == [DOLLAR, LETTER_M] && p.version == V1
       case HeaderX => w == [DOLLAR, LETTER_X] && p.version == V1
       case HeaderV1 =>
         Marked(w, MARK_M) && p.version == V1 && Filled(p, w, 3) && p.checksum1 == Xor(w[3..]) && p.checksum2 == 0
       case PayloadV1 => HeadV1(p, w) && Filled(p, w, 5)
       case ChecksumV1 =>
         || (HeadV1(p, w) && Filled(p, w, 5) && p.offset == p.dataSize)
         || (OuterV1(p, w) && HeadV2(p, w, 5) && p.offset == p.dataSize && |w| == 11 + p.dataSize
             && p.inBuf[..p.dataSize] == w[10..10 + p.dataSize] && w[10 + p.dataSize] == Crc8(w[5..10 + p.dataSize]))
       case HeaderV2OverV1 => OuterV1(p, w) && Filled(p, w, 3) && p.checksum2 == Crc8(w[5..])
       case PayloadV2OverV1 => OuterV1(p, w) && HeadV2(p, w, 5) && Filled(p, w, 10) && p.checksum2 == Crc8(w[5..])
       case ChecksumV2OverV1 =>
         OuterV1(p, w) && HeadV2(p, w, 5) && Filled(p, w, 10) && p.offset == p.dataSize && p.checksum2 == Crc8(w[5..])
       case HeaderV2Native =>
         Marked(w, MARK_X) && p.version == V2Native && Filled(p, w, 3) && p.checksum2 == Crc8(w[3..])
       case PayloadV2Native =>
         Marked(w, MARK_X) && p.version == V2Native && HeadV2(p, w, 3) && Filled(p, w, 8) && p.checksum2 == Crc8(w[3..])
       case ChecksumV2Native =>
         && Marked(w, MARK_X) && p.version == V2Native && HeadV2(p, w, 3) && Filled(p, w, 8) && p.offset == p.dataSize
         && p.checksum2 == Crc8(w[3..])
  }

  // ---------- one more byte ----------

  lemma Grow(p: Port, w: seq<byte>, c: byte, at: nat)
    requires Filled(p, w, at) && p.offset < INBUF
    ensures Filled(Put(p, c), w + [c], at)
  {
    assert (w + [c])[at..] == w[at..] + [c];
  }

  lemma XorGrow(w: seq<byte>, c: byte, at: nat)
    requires at <= |w|
    ensures Xor((w + [c])[at..]) == Add(Xor(w[at..]), c)
  {
    hide Add;
    var s := (w + [c])[at..];
    assert s[..|s| - 1] == w[at..] && s[|s| - 1] == c;
  }

  lemma CrcGrow(w: seq<byte>, c: byte, at: nat)
    requires at <= |w|
    ensures Crc8((w + [c])[at..]) == Crc8DvbS2Table(Crc8(w[at..]), c)
  {
    hide Add, Bits, Crc8DvbS2Table;
    var s := (w + [c])[at..];
    assert s[..|s| - 1] == w[at..] && s[|s| - 1] == c;
  }

  lemma EmptySums(w: seq<byte>)
    ensures Xor(w[|w|..]) == 0 && Crc8(w[|w|..]) == 0
  {
  }

  /** The command a port has just received. */
  function Taken(q: Port): Command
    requires |q.inBuf| == INBUF
  {
    Command(q.version, q.cmdFlags, q.cmd, if q.dataSize <= INBUF then q.inBuf[..q.dataSize] else [])
  }

  /** The frame it came in; w is its bytes. */
  function FrameIn(q: Port, w: seq<byte>): Frame
    requires |q.inBuf| == INBUF
  {
    Frame(if q.version == V2OverV1 && |w| > 3 then w[3] else 0, Taken(q))
  }

  /** Dropped, in progress, or the end of a well-formed frame. */
  ghost predicate Explained(q: Port, w: seq<byte>)
  {
    && Safe(q)
    && if q.state == Idle then true
       else if q.state == CommandReceived then FrameIn(q, w).WellFormed() && w == Encode(FrameIn(q, w))
       else Tracks(q, w)
  }

  lemma V1Ends(q: Port, w: seq<byte>)
    requires Safe(q) && |w| >= 6
    requires var v := w[..|w| - 1]; HeadV1(q, v) && Filled(q, v, 5) && q.offset == q.dataSize
    requires w[|w| - 1] == q.checksum1
    ensures FrameIn(q, w).WellFormed() && w == Encode(FrameIn(q, w))
  {
    hide Add, Num, Byte, Xor;
    var v := w[..|w| - 1];
    ByteNum(w[3]);
    ByteNum(w[4]);
    NumFrameId(w[4]);
    assert v[3..] == [w[3], w[4]] + v[5..];
    assert w == v[..3] + v[3..] + [w[|w| - 1]];
  }

  lemma NumFrameId(b: byte)
    requires b != FRAME_ID
    ensures Num(b) < 255
  {
    ByteNum(b);
  }

  lemma V2PartIs(q: Port, w: seq<byte>, at: nat)
    requires HeadV2(q, w, at) && |q.inBuf| == INBUF && |w| >= at + 5 + q.dataSize
    requires q.inBuf[..q.dataSize] == w[at + 5..at + 5 + q.dataSize]
    ensures Taken(q).cmd < 0x1_0000 && |Taken(q).payload| <= INBUF
    ensures V2Part(Taken(q)) == w[at..at + 5 + q.dataSize]
  {
    hide Le16, ToLe16;
    ToLe16RoundTrip(w[at + 1], w[at + 2]);
    ToLe16RoundTrip(w[at + 3], w[at + 4]);
    assert w[at..at + 5 + q.dataSize] == [w[at]] + [w[at + 1], w[at + 2]] + [w[at + 3], w[at + 4]] + q.inBuf[..q.dataSize];
  }

  lemma V2NativeEnds(q: Port, w: seq<byte>)
    requires Safe(q) && |w| >= 9 && q.version == V2Native
    requires var v := w[..|w| - 1]; Marked(v, MARK_X) && HeadV2(q, v, 3) && Filled(q, v, 8) && q.offset == q.dataSize
    requires w[|w| - 1] == Crc8(w[3..|w| - 1])
    ensures FrameIn(q, w).WellFormed() && w == Encode(FrameIn(q, w))
  {
    hide Le16, ToLe16, Crc8, V2Part, Num;
    var v := w[..|w| - 1];
    assert v[8..] == v[8..8 + q.dataSize];
    V2PartIs(q, v, 3);
    assert v[3..] == v[3..8 + q.dataSize] == w[3..|w| - 1];
    assert w == v[..3] + v[3..] + [w[|w| - 1]];
  }

  lemma V2OverV1Ends(q: Port, w: seq<byte>)
    requires Safe(q) && |w| == 12 + q.dataSize
    requires var v := w[..|w| - 1];
             && OuterV1(q, v) && HeadV2(q, v, 5)
             && q.inBuf[..q.dataSize] == v[10..10 + q.dataSize] && v[10 + q.dataSize] == Crc8(v[5..10 + q.dataSize])
    requires w[|w| - 1] == q.checksum1
    ensures FrameIn(q, w).WellFormed() && w == Encode(FrameIn(q, w))
  {
    hide Le16, ToLe16, Crc8, V2Part, Num, Xor;
    var v := w[..|w| - 1];
    V2PartIs(q, v, 5);
    assert v[3..] == [v[3], v[4]] + v[5..10 + q.dataSize] + [v[10 + q.dataSize]];
    assert w == v[..3] + v[3..] + [w[|w| - 1]];
  }
  // ---------- every byte is explained ----------

  lemma MarkStep(p: Port, w: seq<byte>, c: byte)
    requires Tracks(p, w) && (p.state == HeaderStart || p.state == HeaderM || p.state == HeaderX)
    ensures Explained(Step(p, c), w + [c])
  {
    hide Add, Num, Le16, Xor, Crc8, Crc8DvbS2Table, Bits, Fold, Encode, FrameIn;
    EmptySums(w + [c]);
  }

  lemma HeaderV1Step(p: Port, w: seq<byte>, c: byte)
    requires Tracks(p, w) && (p.state == HeaderV1)
    ensures Explained(Step(p, c), w + [c])
  {
    hide Add, Num, Le16, Xor, Crc8, Crc8DvbS2Table, Bits, Fold, Encode, FrameIn;
    Grow(p, w, c, 3);
    XorGrow(w, c, 3);
    EmptySums(w + [c]);
  }

  lemma PayloadV1Step(p: Port, w: seq<byte>, c: byte)
    requires Tracks(p, w) && (p.state == PayloadV1)
    ensures Explained(Step(p, c), w + [c])
  {
    hide Add, Num, Le16, Xor, Crc8, Crc8DvbS2Table, Bits, Fold, Encode, FrameIn;
    Grow(p, w, c, 5);
    XorGrow(w, c, 3);
  }

  lemma ChecksumV1Step(p: Port, w: seq<byte>, c: byte)
    requires Tracks(p, w) && (p.state == ChecksumV1)
    ensures Explained(Step(p, c), w + [c])
  {
    hide Add, Num, Le16, Xor, Crc8, Crc8DvbS2Table, Bits, Fold, Encode, FrameIn;
    var q := Step(p, c);
    assert (w + [c])[..|w|] == w;
    if q.state == CommandReceived {
      if HeadV1(p, w) {
        V1Ends(q, w + [c]);
      } else {
        V2OverV1Ends(q, w + [c]);
      }
    }
  }

  lemma HeaderV2OverV1Step(p: Port, w: seq<byte>, c: byte)
    requires Tracks(p, w) && (p.state == HeaderV2OverV1)
    ensures Explained(Step(p, c), w + [c])
  {
    hide Add, Num, Le16, Xor, Crc8, Crc8DvbS2Table, Bits, Fold, Encode, FrameIn;
    Grow(p, w, c, 3);
    XorGrow(w, c, 3);
    CrcGrow(w, c, 5);
  }

  lemma PayloadV2OverV1Step(p: Port, w: seq<byte>, c: byte)
    requires Tracks(p, w) && (p.state == PayloadV2OverV1)
    ensures Explained(Step(p, c), w + [c])
  {
    hide Add, Num, Le16, Xor, Crc8, Crc8DvbS2Table, Bits, Fold, Encode, FrameIn;
    Grow(p, w, c, 10);
    XorGrow(w, c, 3);
    CrcGrow(w, c, 5);
  }

  lemma ChecksumV2OverV1Step(p: Port, w: seq<byte>, c: byte)
    requires Tracks(p, w) && (p.state == ChecksumV2OverV1)
    ensures Explained(Step(p, c), w + [c])
  {
    hide Add, Num, Le16, Xor, Crc8, Crc8DvbS2Table, Bits, Fold, Encode, FrameIn;
    XorGrow(w, c, 3);
  }

  lemma HeaderV2NativeStep(p: Port, w: seq<byte>, c: byte)
    requires Tracks(p, w) && (p.state == HeaderV2Native)
    ensures Explained(Step(p, c), w + [c])
  {
    hide Add, Num, Le16, Xor, Crc8, Crc8DvbS2Table, Bits, Fold, Encode, FrameIn;
    Grow(p, w, c, 3);
    CrcGrow(w, c, 3);
  }

  lemma PayloadV2NativeStep(p: Port, w: seq<byte>, c: byte)
    requires Tracks(p, w) && (p.state == PayloadV2Native)
    ensures Explained(Step(p, c), w + [c])
  {
    hide Add, Num, Le16, Xor, Crc8, Crc8DvbS2Table, Bits, Fold, Encode, FrameIn;
    Grow(p, w, c, 8);
    CrcGrow(w, c, 3);
  }

  lemma ChecksumV2NativeStep(p: Port, w: seq<byte>, c: byte)
    requires Tracks(p, w) && (p.state == ChecksumV2Native)
    ensures Explained(Step(p, c), w + [c])
  {
    hide Add, Num, Le16, Xor, Crc8, Crc8DvbS2Table, Bits, Fold, Encode, FrameIn;
    var q := Step(p, c);
    assert (w + [c])[..|w|] == w;
    if q.state == CommandReceived {
      V2NativeEnds(q, w + [c]);
    }
  }

  lemma StartStep(p: Port, c: byte)
    requires Safe(p) && p.state in {Idle, CommandReceived}
    ensures c == DOLLAR ==> Step(p, c).state == HeaderStart && Tracks(Step(p, c), [c])
    ensures c != DOLLAR ==> Step(p, c) == p
  {
    hide Xor, Crc8, Add, Num;
  }

  lemma StepExplained(p: Port, w: seq<byte>, c: byte)
    requires Tracks(p, w) && p.state !in {Idle, CommandReceived}
    ensures Explained(Step(p, c), w + [c])
  {
    hide *;
    match p.state
    case HeaderStart => MarkStep(p, w, c);
    case HeaderM => MarkStep(p, w, c);
    case HeaderX => MarkStep(p, w, c);
    case HeaderV1 => HeaderV1Step(p, w, c);
    case PayloadV1 => PayloadV1Step(p, w, c);
    case ChecksumV1 => ChecksumV1Step(p, w, c);
    case HeaderV2OverV1 => HeaderV2OverV1Step(p, w, c);
    case PayloadV2OverV1 => PayloadV2OverV1Step(p, w, c);
    case ChecksumV2OverV1 => ChecksumV2OverV1Step(p, w, c);
    case HeaderV2Native => HeaderV2NativeStep(p, w, c);
    case PayloadV2Native => PayloadV2NativeStep(p, w, c);
    case ChecksumV2Native => ChecksumV2NativeStep(p, w, c);
  }

  // ---------- whole streams ----------

  function Run(p: Port, s: seq<byte>): (r: Port)
    requires Safe(p)
    ensures Safe(r)
  {
    if |s| == 0 then p else Step(Run(p, s[..|s| - 1]), s[|s| - 1])
  }

  /** The return value was true and the command is complete. */
  predicate Completes(p: Port, c: byte)
    requires Safe(p)
  {
    p.state !in {Idle, CommandReceived} && Step(p, c).state == CommandReceived
  }

  /** The commands received during a stream. */
  function Received(p: Port, s: seq<byte>): seq<Command>
    requires Safe(p)
  {
    if |s| == 0 then []
    else
      var before := Run(p, s[..|s| - 1]);
      Received(p, s[..|s| - 1]) + if Completes(before, s[|s| - 1]) then [Taken(Step(before, s[|s| - 1]))] else []
  }

  /** Gaps and frames alternating. */
  ghost function Weave(gaps: seq<seq<byte>>, fs: seq<Frame>): seq<byte>
    requires |gaps| == |fs| && AllWellFormed(fs)
  {
    if |fs| == 0 then []
    else Weave(gaps[..|fs| - 1], fs[..|fs| - 1]) + gaps[|fs| - 1] + Encode(fs[|fs| - 1])
  }

  ghost predicate AllWellFormed(fs: seq<Frame>)
  {
    forall i :: 0 <= i < |fs| ==> fs[i].WellFormed()
  }

  ghost function Bodies(fs: seq<Frame>): seq<Command>
  {
    seq(|fs|, i requires 0 <= i < |fs| => fs[i].body)
  }

  lemma WeaveMore(gaps: seq<seq<byte>>, fs: seq<Frame>, gap: seq<byte>, f: Frame)
    requires |gaps| == |fs| && AllWellFormed(fs) && f.WellFormed()
    ensures AllWellFormed(fs + [f]) && Weave(gaps + [gap], fs + [f]) == Weave(gaps, fs) + gap + Encode(f)
    ensures Bodies(fs + [f]) == Bodies(fs) + [f.body]
  {
    hide Encode;
    assert (gaps + [gap])[..|fs|] == gaps && (fs + [f])[..|fs|] == fs;
  }

  /** Soundness: every stream splits into well-formed frames with bytes between them, and
      the commands received are those of the frames. */
  lemma {:induction false} Sound(p: Port, s: seq<byte>)
    returns (gaps: seq<seq<byte>>, fs: seq<Frame>, gap: seq<byte>, w: seq<byte>)
    requires Safe(p) && p.state == Idle
    ensures |gaps| == |fs| && AllWellFormed(fs)
    ensures s == Weave(gaps, fs) + gap + w
    ensures Received(p, s) == Bodies(fs)
    ensures Tracks(Run(p, s), w)
  {
    hide Step, Tracks, Encode, Weave, Bodies, AllWellFormed, Safe, Taken;
    if |s| == 0 {
      gaps, fs, gap, w := [], [], [], [];
      NothingYet(p);
    } else {
      var c := s[|s| - 1];
      var before := Run(p, s[..|s| - 1]);
      gaps, fs, gap, w := Sound(p, s[..|s| - 1]);
      assert s == s[..|s| - 1] + [c];
      if before.state in {Idle, CommandReceived} {
        StartStep(before, c);
        NoFrameYet(before, w);
        if c == DOLLAR {
          w := [c];
        } else {
          gap := gap + [c];
        }
      } else {
        StepExplained(before, w, c);
        var q := Step(before, c);
        Outcome(q, w + [c]);
        if q.state == Idle {
          gap, w := gap + w + [c], [];
        } else if q.state == CommandReceived {
          WeaveMore(gaps, fs, gap, FrameIn(q, w + [c]));
          gaps, fs := gaps + [gap], fs + [FrameIn(q, w + [c])];
          gap, w := [], [];
        } else {
          w := w + [c];
        }
      }
    }
  }

  lemma NothingYet(p: Port)
    requires Safe(p) && p.state == Idle
    ensures AllWellFormed([]) && Weave([], []) == [] && Bodies([]) == [] && Tracks(p, [])
  {
  }

  lemma NoFrameYet(p: Port, w: seq<byte>)
    requires Tracks(p, w) && p.state in {Idle, CommandReceived}
    ensures w == [] && Safe(p)
  {
  }

  lemma Outcome(q: Port, w: seq<byte>)
    requires Explained(q, w)
    ensures Safe(q) && |q.inBuf| == INBUF
    ensures q.state == Idle || q.state == CommandReceived ==> Tracks(q, [])
    ensures q.state == CommandReceived ==> FrameIn(q, w).WellFormed() && w == Encode(FrameIn(q, w))
    ensures q.state == CommandReceived ==> FrameIn(q, w).body == Taken(q)
    ensures q.state != Idle && q.state != CommandReceived ==> Tracks(q, w)
  {
    hide Encode;
  }

  // ---------- completeness ----------

  /** Where everything is in an encoded frame. */
  ghost predicate Layout(f: Frame, e: seq<byte>)
  {
    var n := |f.body.payload|;
    match f.body.version
    case V1 =>
      && |e| == 6 + n && Marked(e, MARK_M) && Num(e[3]) == n && Num(e[4]) == f.body.cmd && e[4] != FRAME_ID
      && e[5..5 + n] == f.body.payload && e[5 + n] == Xor(e[3..5 + n])
    case V2OverV1 =>
      && |e| == 12 + n && Marked(e, MARK_M) && e[3] == f.outer && e[4] == FRAME_ID
      && V2At(f, e, 5) && e[10 + n] == Crc8(e[5..10 + n]) && e[11 + n] == Xor(e[3..11 + n])
    case V2Native =>
      |e| == 9 + n && Marked(e, MARK_X) && V2At(f, e, 3) && e[8 + n] == Crc8(e[3..8 + n])
  }

  ghost predicate V2At(f: Frame, e: seq<byte>, at: nat)
  {
    && |e| >= at + 5 + |f.body.payload| && e[at] == f.body.flags && Le16(e[at + 1], e[at + 2]) == f.body.cmd
    && Le16(e[at + 3], e[at + 4]) == |f.body.payload|
    && e[at + 5..at + 5 + |f.body.payload|] == f.body.payload
  }

  lemma V2AtHolds(f: Frame, e: seq<byte>, at: nat)
    requires f.body.cmd < 0x1_0000 && |f.body.payload| <= INBUF && |e| >= at + 5 + |f.body.payload|
    requires e[at..at + 5 + |f.body.payload|] == V2Part(f.body)
    ensures V2At(f, e, at)
  {
    hide Le16, ToLe16;
    Le16RoundTrip(f.body.cmd);
    Le16RoundTrip(|f.body.payload|);
    var v := e[at..at + 5 + |f.body.payload|];
    assert v[0] == e[at] && v[1] == e[at + 1] && v[2] == e[at + 2] && v[3] == e[at + 3] && v[4] == e[at + 4];
    assert v[5..] == f.body.payload;
  }

  lemma LayoutHolds(f: Frame)
    requires f.WellFormed()
    ensures Layout(f, Encode(f))
  {
    hide Le16, ToLe16, Xor, Crc8, Num, Byte, V2Part, V2At;
    var e, n := Encode(f), |f.body.payload|;
    match f.body.version
    case V1 =>
      NumByte(n);
      NumByte(f.body.cmd);
      FrameIdNum(e[4]);
      assert e[3..5 + n] == [Byte(n), Byte(f.body.cmd)] + f.body.payload;
    case V2OverV1 =>
      assert e[5..10 + n] == V2Part(f.body);
      assert e[3..11 + n] == [f.outer, FRAME_ID] + V2Part(f.body) + [Crc8(V2Part(f.body))];
      V2AtHolds(f, e, 5);
    case V2Native =>
      assert e[3..8 + n] == V2Part(f.body);
      V2AtHolds(f, e, 3);
  }

  lemma FrameIdNum(b: byte)
    requires Num(b) < 255
    ensures b != FRAME_ID
  {
  }

  /** No two commands share an encoding. */
  lemma EncodeInjective(f: Frame, g: Frame)
    requires f.WellFormed() && g.WellFormed() && Encode(f) == Encode(g)
    ensures f.body == g.body
  {
    hide Le16, Xor, Crc8, Num, Encode;
    LayoutHolds(f);
    LayoutHolds(g);
    var e := Encode(f);
    assert e[1] == e[..3][1];
  }

  /** The parser has read w, the beginning of the encoding e of f. */
  ghost predicate AtFrame(f: Frame, e: seq<byte>, p: Port, w: seq<byte>)
  {
    f.WellFormed() && Layout(f, e) && |w| < |e| && w == e[..|w|] && Tracks(p, w)
  }

  /** The next byte does not derail the parser, and the command completes with the last byte. */
  ghost predicate Kept(e: seq<byte>, q: Port, w: seq<byte>)
  {
    q.state != Idle && (q.state == CommandReceived <==> |w| + 1 == |e|)
  }

  lemma WhichMark(f: Frame, e: seq<byte>, w: seq<byte>)
    requires Layout(f, e) && |w| < |e| && w == e[..|w|]
    ensures Marked(w, MARK_M) ==> f.body.version != V2Native
    ensures Marked(w, MARK_X) ==> f.body.version == V2Native
    ensures |w| >= 5 && Marked(w, MARK_M) ==> (w[4] == FRAME_ID <==> f.body.version == V2OverV1)
  {
    hide Le16, Xor, Crc8, Num, V2At;
    if |w| >= 3 {
      assert w[..3] == e[..3];
      assert w[..3][1] == e[1];
    }
  }

  lemma FilledAt(p: Port, w: seq<byte>, at: nat)
    requires Filled(p, w, at)
    ensures forall i :: 0 <= i < p.offset ==> p.inBuf[i] == w[at + i]
  {
    assert forall i :: 0 <= i < p.offset ==> p.inBuf[..p.offset][i] == p.inBuf[i] && w[at..][i] == w[at + i];
  }

  lemma KeptMark(f: Frame, e: seq<byte>, p: Port, w: seq<byte>)
    requires AtFrame(f, e, p, w) && (p.state == HeaderStart || p.state == HeaderM || p.state == HeaderX)
    ensures Kept(e, Step(p, e[|w|]), w)
  {
    hide Add, Num, Le16, Xor, Crc8, Crc8DvbS2Table, Bits, Fold, FrameIn, Taken;
    assert e[1] == e[..3][1] && e[2] == e[..3][2];
  }

  lemma KeptHeaderV1(f: Frame, e: seq<byte>, p: Port, w: seq<byte>)
    requires AtFrame(f, e, p, w) && (p.state == HeaderV1)
    ensures Kept(e, Step(p, e[|w|]), w)
  {
    hide Add, Num, Le16, Xor, Crc8, Crc8DvbS2Table, Bits, Fold, FrameIn, Taken;
    WhichMark(f, e, w);
    Grow(p, w, e[|w|], 3);
    FilledAt(Put(p, e[|w|]), w + [e[|w|]], 3);
  }

  lemma KeptPayloadV1(f: Frame, e: seq<byte>, p: Port, w: seq<byte>)
    requires AtFrame(f, e, p, w) && p.state == PayloadV1
    ensures Kept(e, Step(p, e[|w|]), w)
  {
    hide Add, Num, Le16, Xor, Crc8, Crc8DvbS2Table, Bits, Fold, FrameIn, Taken;
    WhichMark(f, e, w);
  }

  lemma KeptPayloadV2OverV1(f: Frame, e: seq<byte>, p: Port, w: seq<byte>)
    requires AtFrame(f, e, p, w) && p.state == PayloadV2OverV1
    ensures Kept(e, Step(p, e[|w|]), w)
  {
    hide Add, Num, Le16, Xor, Crc8, Crc8DvbS2Table, Bits, Fold, FrameIn, Taken;
    WhichMark(f, e, w);
  }

  lemma KeptPayloadV2Native(f: Frame, e: seq<byte>, p: Port, w: seq<byte>)
    requires AtFrame(f, e, p, w) && p.state == PayloadV2Native
    ensures Kept(e, Step(p, e[|w|]), w)
  {
    hide Add, Num, Le16, Xor, Crc8, Crc8DvbS2Table, Bits, Fold, FrameIn, Taken;
    WhichMark(f, e, w);
  }

  lemma KeptChecksumV1(f: Frame, e: seq<byte>, p: Port, w: seq<byte>)
    requires AtFrame(f, e, p, w) && (p.state == ChecksumV1)
    ensures Kept(e, Step(p, e[|w|]), w)
  {
    hide Add, Num, Le16, Xor, Crc8, Crc8DvbS2Table, Bits, Fold, FrameIn, Taken;
    WhichMark(f, e, w);
    assert w[3..] == e[3..|w|];
  }

  lemma KeptHeaderV2OverV1(f: Frame, e: seq<byte>, p: Port, w: seq<byte>)
    requires AtFrame(f, e, p, w) && (p.state == HeaderV2OverV1)
    ensures Kept(e, Step(p, e[|w|]), w)
  {
    hide Add, Num, Le16, Xor, Crc8, Crc8DvbS2Table, Bits, Fold, FrameIn, Taken;
    WhichMark(f, e, w);
    Grow(p, w, e[|w|], 3);
    FilledAt(Put(p, e[|w|]), w + [e[|w|]], 3);
  }

  lemma KeptChecksumV2OverV1(f: Frame, e: seq<byte>, p: Port, w: seq<byte>)
    requires AtFrame(f, e, p, w) && (p.state == ChecksumV2OverV1)
    ensures Kept(e, Step(p, e[|w|]), w)
  {
    hide Add, Num, Le16, Xor, Crc8, Crc8DvbS2Table, Bits, Fold, FrameIn, Taken;
    WhichMark(f, e, w);
    assert w[5..] == e[5..|w|];
  }

  lemma KeptHeaderV2Native(f: Frame, e: seq<byte>, p: Port, w: seq<byte>)
    requires AtFrame(f, e, p, w) && (p.state == HeaderV2Native)
    ensures Kept(e, Step(p, e[|w|]), w)
  {
    hide Add, Num, Le16, Xor, Crc8, Crc8DvbS2Table, Bits, Fold, FrameIn, Taken;
    WhichMark(f, e, w);
    Grow(p, w, e[|w|], 3);
    FilledAt(Put(p, e[|w|]), w + [e[|w|]], 3);
  }

  lemma KeptChecksumV2Native(f: Frame, e: seq<byte>, p: Port, w: seq<byte>)
    requires AtFrame(f, e, p, w) && (p.state == ChecksumV2Native)
    ensures Kept(e, Step(p, e[|w|]), w)
  {
    hide Add, Num, Le16, Xor, Crc8, Crc8DvbS2Table, Bits, Fold, FrameIn, Taken;
    WhichMark(f, e, w);
    assert w[3..] == e[3..|w|];
  }

  lemma StepKept(f: Frame, e: seq<byte>, p: Port, w: seq<byte>)
    requires AtFrame(f, e, p, w) && p.state !in {Idle, CommandReceived}
    ensures Safe(p) && Kept(e, Step(p, e[|w|]), w)
  {
    hide Step, Kept, Tracks, Layout;
    FrameSafe(f, e, p, w);
    match p.state
    case HeaderStart => KeptMark(f, e, p, w);
    case HeaderM => KeptMark(f, e, p, w);
    case HeaderX => KeptMark(f, e, p, w);
    case HeaderV1 => KeptHeaderV1(f, e, p, w);
    case PayloadV1 => KeptPayloadV1(f, e, p, w);
    case ChecksumV1 => KeptChecksumV1(f, e, p, w);
    case HeaderV2OverV1 => KeptHeaderV2OverV1(f, e, p, w);
    case PayloadV2OverV1 => KeptPayloadV2OverV1(f, e, p, w);
    case ChecksumV2OverV1 => KeptChecksumV2OverV1(f, e, p, w);
    case HeaderV2Native => KeptHeaderV2Native(f, e, p, w);
    case PayloadV2Native => KeptPayloadV2Native(f, e, p, w);
    case ChecksumV2Native => KeptChecksumV2Native(f, e, p, w);
  }

  lemma FrameSafe(f: Frame, e: seq<byte>, p: Port, w: seq<byte>)
    requires AtFrame(f, e, p, w)
    ensures Safe(p) && Tracks(p, w)
  {
  }

  /** What the parser has done with the first n bytes of a frame. */
  ghost predicate ReadSoFar(f: Frame, p: Port, n: nat)
    requires Safe(p) && f.WellFormed() && n <= |Encode(f)|
  {
    var e := Encode(f);
    var q := Run(p, e[..n]);
    if n == 0 then q == p && Received(p, e[..n]) == []
    else if n < |e| then
      q.state !in {Idle, CommandReceived} && Tracks(q, e[..n]) && Received(p, e[..n]) == []
    else q.state == CommandReceived && Received(p, e[..n]) == [f.body]
  }

  lemma {:induction false} ReadPrefix(f: Frame, p: Port, n: nat)
    requires Safe(p) && p.state in {Idle, CommandReceived} && f.WellFormed() && n <= |Encode(f)|
    ensures ReadSoFar(f, p, n)
  {
    hide Step, Tracks, Encode, Safe, Layout, Kept;
    if n > 0 {
      var e := Encode(f);
      ReadPrefix(f, p, n - 1);
      LayoutHolds(f);
      FrameStart(f);
      var before := Run(p, e[..n - 1]);
      assert e[..n][..n - 1] == e[..n - 1] && e[..n][n - 1] == e[n - 1] && e[..n] == e[..n - 1] + [e[n - 1]];
      if n == 1 {
        StartStep(p, e[0]);
        assert e[..1] == [e[0]];
      } else {
        InsideFrame(f, before, n);
      }
    }
  }

  lemma FrameStart(f: Frame)
    requires f.WellFormed()
    ensures |Encode(f)| >= 6 && Encode(f)[0] == DOLLAR
  {
    hide Xor, Crc8, V2Part, Byte;
  }

  lemma InsideFrame(f: Frame, before: Port, n: nat)
    requires f.WellFormed() && 1 < n <= |Encode(f)| && Layout(f, Encode(f))
    requires before.state !in {Idle, CommandReceived} && Tracks(before, Encode(f)[..n - 1])
    ensures Safe(before) &&
            var q := Step(before, Encode(f)[n - 1]);
            && q.state != Idle && (q.state == CommandReceived <==> n == |Encode(f)|)
            && (n < |Encode(f)| ==> Tracks(q, Encode(f)[..n]))
            && (n == |Encode(f)| ==> Safe(q) && Taken(q) == f.body)
  {
    hide Step, Encode, Safe, Layout;
    var e := Encode(f);
    var w := e[..n - 1];
    var q := Step(before, e[n - 1]);
    StepKept(f, e, before, w);
    StepExplained(before, w, e[n - 1]);
    Outcome(q, w + [e[n - 1]]);
    assert w + [e[n - 1]] == e[..n];
    if n == |e| {
      assert e[..n] == e;
      EncodeInjective(f, FrameIn(q, e));
    }
  }

  lemma {:induction false} RunConcat(p: Port, a: seq<byte>, b: seq<byte>)
    requires Safe(p)
    ensures Run(p, a + b) == Run(Run(p, a), b)
    ensures Received(p, a + b) == Received(p, a) + Received(Run(p, a), b)
  {
    hide Step, Safe, Completes;
    if |b| == 0 {
      assert a + b == a;
    } else {
      var b' := b[..|b| - 1];
      assert (a + b)[..|a + b| - 1] == a + b' && (a + b)[|a + b| - 1] == b[|b| - 1];
      RunConcat(p, a, b');
    }
  }

  ghost predicate Quiet(s: seq<byte>)
  {
    forall i :: 0 <= i < |s| ==> s[i] != DOLLAR
  }

  lemma {:induction false} SkipGap(p: Port, s: seq<byte>)
    requires Safe(p) && p.state in {Idle, CommandReceived} && Quiet(s)
    ensures Run(p, s) == p && Received(p, s) == []
  {
    hide Step, Safe;
    if |s| > 0 {
      SkipGap(p, s[..|s| - 1]);
      StartStep(p, s[|s| - 1]);
    }
  }

  /** Completeness: well-formed frames, with any bytes but '$' between them, are received one for one. */
  lemma {:induction false} Complete(p: Port, gaps: seq<seq<byte>>, fs: seq<Frame>)
    requires Safe(p) && p.state in {Idle, CommandReceived}
    requires |gaps| == |fs| && AllWellFormed(fs) && forall i :: 0 <= i < |gaps| ==> Quiet(gaps[i])
    ensures Received(p, Weave(gaps, fs)) == Bodies(fs)
    ensures Run(p, Weave(gaps, fs)).state in {Idle, CommandReceived}
  {
    hide Step, Encode, Safe, Run, Received, Quiet;
    if |fs| == 0 {
      EmptyRun(p);
    } else {
      var n := |fs| - 1;
      var gaps', fs' := gaps[..n], fs[..n];
      Complete(p, gaps', fs');
      var p1 := Run(p, Weave(gaps', fs'));
      RunConcat(p, Weave(gaps', fs'), gaps[n]);
      SkipGap(p1, gaps[n]);
      RunConcat(p, Weave(gaps', fs') + gaps[n], Encode(fs[n]));
      ReadPrefix(fs[n], p1, |Encode(fs[n])|);
      WholeFrame(fs[n], p1);
      assert Bodies(fs) == Bodies(fs') + [fs[n].body];
    }
  }

  lemma EmptyRun(p: Port)
    requires Safe(p)
    ensures Run(p, []) == p && Received(p, []) == []
  {
  }

  lemma WholeFrame(f: Frame, p: Port)
    requires Safe(p) && f.WellFormed() && ReadSoFar(f, p, |Encode(f)|)
    ensures Run(p, Encode(f)).state == CommandReceived && Received(p, Encode(f)) == [f.body]
  {
    hide Encode, Run, Received;
    FrameStart(f);
    assert Encode(f)[..|Encode(f)|] == Encode(f);
  }

  /** The v1 size around a v2 frame is only checked for its bounds: any such value, whatever the
      length of what follows, leads to the same command. */
  lemma OuterSizeIgnored(p: Port, f: Frame, outer: byte)
    requires Safe(p) && p.state in {Idle, CommandReceived}
    requires f.WellFormed() && f.body.version == V2OverV1 && 6 <= Num(outer) <= INBUF
    ensures f.(outer := outer).WellFormed() && Received(p, Encode(f.(outer := outer))) == [f.body]
  {
    hide Encode, Received, Run;
    var g := f.(outer := outer);
    ReadPrefix(g, p, |Encode(g)|);
    WholeFrame(g, p);
  }

  /** mspPort_t. */
  class MspPort {
    const inBuf: array<byte>
    var cState: State
    var offset: nat
    var dataSize: nat
    var mspVersion: Version
    var cmdFlags: byte
    var cmdMSP: nat
    var checksum1: byte
    var checksum2: byte

    ghost function Value(): Port
      reads this, inBuf
    {
      Port(cState, inBuf[..], offset, dataSize, mspVersion, cmdFlags, cmdMSP, checksum1, checksum2)
    }

    ghost predicate Valid()
      reads this, inBuf
    {
      Safe(Value())
    }

    constructor ()
      ensures Valid() && cState == Idle && fresh(inBuf)
    {
      inBuf := new byte[INBUF];
      cState, offset, dataSize, mspVersion := Idle, 0, 0, V1;
      cmdFlags, cmdMSP, checksum1, checksum2 := 0, 0, 0, 0;
    }

    /** inBuf[offset++] = c */
    method Store(c: byte)
      requires offset < inBuf.Length
      modifies this`offset, inBuf
      ensures Value() == Put(old(Value()), c)
    {
      inBuf[offset] := c;
      offset := offset + 1;
    }

    method V2Header(at: nat, payload: State, checksum: State)
      requires at + 5 <= inBuf.Length == INBUF
      requires payload in {PayloadV2OverV1, PayloadV2Native} && checksum in {ChecksumV2OverV1, ChecksumV2Native}
      modifies this
      ensures Value() == TakeV2Header(old(Value()), at, payload, checksum)
    {
      hide Le16, Num;
      var size := Le16(inBuf[at + 3], inBuf[at + 4]);
      if size > INBUF {
        cState := Idle;
      } else {
        dataSize := size;
        cmdMSP := Le16(inBuf[at + 1], inBuf[at + 2]);
        cmdFlags := inBuf[at];
        offset := 0;
        cState := if dataSize > 0 then payload else checksum;
      }
    }

    /** One byte of the v1 header. */
    method V1Header(c: byte)
      requires Valid() && cState == HeaderV1
      modifies this, inBuf
      ensures Value() == StepHeaderV1(old(Value()), c)
    {
      hide Num, Add;
      Store(c);
      checksum1 := Add(checksum1, c);
      if offset == 2 {
        var size := Num(inBuf[0]);
        if size > INBUF {
          cState := Idle;
        } else if inBuf[1] == FRAME_ID {
          if size >= 6 {
            mspVersion := V2OverV1;
            cState := HeaderV2OverV1;
          } else {
            cState := Idle;
          }
        } else {
          dataSize := size;
          cmdMSP := Num(inBuf[1]);
          cmdFlags := 0;
          offset := 0;
          cState := if dataSize > 0 then PayloadV1 else ChecksumV1;
        }
      }
    }

    /** One byte of a v2 header carried as v1 payload. */
    method V2OverV1Header(c: byte)
      requires Valid() && cState == HeaderV2OverV1
      modifies this, inBuf
      ensures Value() == StepHeaderV2OverV1(old(Value()), c)
    {
      hide Add, Num, Le16, Bits, Fold, Crc8DvbS2Table, TakeV2Header;
      Store(c);
      checksum1 := Add(checksum1, c);
      checksum2 := Crc8DvbS2Table(checksum2, c);
      if offset == 7 {
        dataSize := Le16(inBuf[5], inBuf[6]);
        V2Header(2, PayloadV2OverV1, ChecksumV2OverV1);
      }
    }

    /** One byte of a native v2 header. */
    method V2NativeHeader(c: byte)
      requires Valid() && cState == HeaderV2Native
      modifies this, inBuf
      ensures Value() == StepHeaderV2Native(old(Value()), c)
    {
      hide Add, Num, Le16, Bits, Fold, Crc8DvbS2Table, TakeV2Header;
      Store(c);
      checksum2 := Crc8DvbS2Table(checksum2, c);
      if offset == 5 {
        V2Header(0, PayloadV2Native, ChecksumV2Native);
      }
    }

    /** One payload byte, with the checksums it leads to. */
    method PayloadByte(c: byte, sum1: byte, sum2: byte, next: State)
      requires Valid() && cState in {PayloadV1, PayloadV2OverV1, PayloadV2Native}
      requires next in {ChecksumV1, ChecksumV2OverV1, ChecksumV2Native}
      modifies this, inBuf
      ensures Value() == StepPayload(old(Value()), c, sum1, sum2, next)
    {
      hide Add, Bits, Fold, Crc8DvbS2Table;
      checksum1, checksum2 := sum1, sum2;
      Store(c);
      if offset == dataSize {
        cState := next;
      }
    }

    /** A byte outside any frame. */
    method StartByte(c: byte) returns (taken: bool)
      modifies this`mspVersion, this`cState
      ensures Value() == Start(old(Value()), c) && (taken <==> c == DOLLAR)
    {
      taken := c == DOLLAR;
      if taken {
        mspVersion := V1;
        cState := HeaderStart;
      }
    }

    /** mspSerialProcessReceivedData. */
    method ProcessReceivedData(c: byte) returns (taken: bool)
      requires Valid()
      modifies this, inBuf
      ensures Value() == Step(old(Value()), c) && Valid()
      ensures taken <==> !(old(cState) in {Idle, CommandReceived} && c != DOLLAR)
    {
      hide Add, Num, Le16, Bits, Fold, Crc8DvbS2Table, StepPayload, StepHeaderV1, StepHeaderV2OverV1,
        StepHeaderV2Native, Safe, Start;
      taken := true;
      match cState {
        case HeaderStart =>
          cState := if c == LETTER_M then HeaderM else if c == LETTER_X then HeaderX else Idle;
        case HeaderM =>
          if c == ARROW {
            offset, checksum1, checksum2 := 0, 0, 0;
            cState := HeaderV1;
          } else {
            cState := Idle;
          }
        case HeaderX =>
          if c == ARROW {
            offset, checksum2 := 0, 0;
            mspVersion := V2Native;
            cState := HeaderV2Native;
          } else {
            cState := Idle;
          }
        case HeaderV1 =>
          V1Header(c);
        case PayloadV1 =>
          PayloadByte(c, Add(checksum1, c), checksum2, ChecksumV1);
        case ChecksumV1 =>
          cState := if checksum1 == c then CommandReceived else Idle;
        case HeaderV2OverV1 =>
          V2OverV1Header(c);
        case PayloadV2OverV1 =>
          PayloadByte(c, Add(checksum1, c), Crc8DvbS2Table(checksum2, c), ChecksumV2OverV1);
        case ChecksumV2OverV1 =>
          checksum1 := Add(checksum1, c);
          cState := if checksum2 == c then ChecksumV1 else Idle;
        case HeaderV2Native =>
          V2NativeHeader(c);
        case PayloadV2Native =>
          PayloadByte(c, checksum1, Crc8DvbS2Table(checksum2, c), ChecksumV2Native);
        case ChecksumV2Native =>
          cState := if checksum2 == c then CommandReceived else Idle;
        case Idle =>
          taken := StartByte(c);
        case CommandReceived =>
          taken := StartByte(c);
      }
    }
  }
}
