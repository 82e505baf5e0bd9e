/** DroneBridge raw frames: building them, and finding the payload in a received one. */
module Raw {
  import opened Memory
  import opened Gf256
  import opened Bytes
  import opened Words

  /** RADIOTAP_LENGTH, DB_RAW_V2_HEADER_LENGTH, DATA_UNI_LENGTH, DB_RAW_OFFSET */
  const RADIOTAP := 13
  const HEADER := 10
  const DATA := 2048
  const OFFSET := 14

  /** Length of monitor_framebuffer. */
  const FRAME := 2071

  function Place(adhere: bool): nat { RADIOTAP + HEADER + if adhere then OFFSET else 0 }

  /** db_raw_offset is set by the first offset frame, and stays. */
  function NextOffset(offset: nat, adhere: bool): nat { if adhere then OFFSET else offset }

  /** Port, payload length and sequence number in the header. */
  function WithHeader(f: seq<byte>, port: byte, n: nat, seqNum: byte): (r: seq<byte>)
    requires |f| == FRAME && n < 0x1_0000
    ensures |r| == FRAME
  {
    Patch(f, RADIOTAP + 6, [port] + ToLe16(n) + [seqNum])
  }

  predicate Fits(offset: nat, n: nat, adhere: bool)
  {
    n + NextOffset(offset, adhere) <= DATA
  }

  /** What db_send_div hands to the socket, and the frame buffer after it. */
  function Framed(f: seq<byte>, payload: seq<byte>, port: byte, seqNum: byte, adhere: bool): (r: seq<byte>)
    requires |f| == FRAME && |payload| + (if adhere then OFFSET else 0) <= DATA
    ensures |r| == FRAME
  {
    Patch(WithHeader(f, port, |payload|, seqNum), Place(adhere), payload)
  }

  function Sent(f: seq<byte>, offset: nat, payload: seq<byte>, port: byte, seqNum: byte, adhere: bool): (s: seq<byte>)
    requires |f| == FRAME && Fits(offset, |payload|, adhere)
    ensures |s| == RADIOTAP + HEADER + |payload| + NextOffset(offset, adhere)
  {
    Framed(f, payload, port, seqNum, adhere)[..RADIOTAP + HEADER + |payload| + NextOffset(offset, adhere)]
  }

  // ---------- receiving ----------

  datatype Got = Got(length: nat, seqNum: byte, radiotap: nat, payload: seq<byte>)

  /** The 4 bytes of a frame check sequence may or may not end a frame; more than that means an offset. */
  predicate LooksPlain(received: int, r: nat, n: nat) { received - r - HEADER <= n + 4 }

  /** What get_db_payload reads lies inside the buffer. */
  predicate Readable(buf: seq<byte>, received: int)
  {
    && |buf| >= 4
    && var r := Le16(buf[2], buf[3]);
       && |buf| >= r + HEADER
       && var n := Le16(buf[r + 7], buf[r + 8]);
          if LooksPlain(received, r, n) then |buf| >= r + HEADER + n
          else n <= DATA ==> |buf| >= r + HEADER + OFFSET + n
  }

  /** The radiotap length, payload length and sequence number fields. */
  function Fields(buf: seq<byte>, ghost received: int): (t: (nat, nat, byte))
    requires Readable(buf, received)
    ensures if LooksPlain(received, t.0, t.1) then |buf| >= t.0 + HEADER + t.1
            else t.1 <= DATA ==> |buf| >= t.0 + HEADER + OFFSET + t.1
  {
    hide Le16, LooksPlain;
    var r := Le16(buf[2], buf[3]);
    (r, Le16(buf[r + 7], buf[r + 8]), buf[r + 9])
  }

  /** get_db_payload. */
  function GetPayload(buf: seq<byte>, received: int): (g: Got)
    requires Readable(buf, received)
    ensures |g.payload| <= g.length
  {
    hide Le16, Readable, Fields, LooksPlain;
    var (r, n, seqNum) := Fields(buf, received);
    var at := r + HEADER;
    Got(n, seqNum, r,
        if LooksPlain(received, r, n) then buf[at..at + n]
        else if n <= DATA then buf[at + OFFSET..at + OFFSET + n]
        else [])
  }

  /** A radiotap header as a receiving driver puts in front of a frame. */
  predicate IsRadiotap(rt: seq<byte>)
  {
    4 <= |rt| && Le16(rt[2], rt[3]) == |rt|
  }

  /** The frame in the air: without the sender's radiotap header, and with the 802.11
      sequence control field as some drivers overwrite it. */
  function InAir(sent: seq<byte>, sqn: seq<byte>): (a: seq<byte>)
    requires |sent| >= RADIOTAP + HEADER && |sqn| <= 2 && (|sqn| > 0 ==> |sent| >= RADIOTAP + 24)
    ensures |a| == |sent| - RADIOTAP
  {
    var a := sent[RADIOTAP..];
    if |sqn| == 0 then a else Patch(a, 22, sqn)
  }

  lemma HeaderFields(f: seq<byte>, offset: nat, payload: seq<byte>, port: byte, seqNum: byte, adhere: bool)
    requires |f| == FRAME && Fits(offset, |payload|, adhere)
    ensures var a := Sent(f, offset, payload, port, seqNum, adhere)[RADIOTAP..];
            && a[6] == port && Le16(a[7], a[8]) == |payload| && a[9] == seqNum
  {
    hide Le16, ToLe16, Patch;
    var n := |payload|;
    var g := WithHeader(f, port, n, seqNum);
    var h := [port] + ToLe16(n) + [seqNum];
    var r := Framed(f, payload, port, seqNum, adhere);
    Le16RoundTrip(n);
    Patched(f, RADIOTAP + 6, h);
    Patched(g, Place(adhere), payload);
    var sent := Sent(f, offset, payload, port, seqNum, adhere);
    PrefixOf(sent, r, RADIOTAP + HEADER, |sent|);
    PrefixOf(r[..Place(adhere)], r, RADIOTAP + HEADER, Place(adhere));
    PrefixOf(g[..Place(adhere)], g, RADIOTAP + HEADER, Place(adhere));
    assert sent[..RADIOTAP + HEADER] == g[..RADIOTAP + HEADER];
    assert sent[RADIOTAP..][6..10] == sent[..RADIOTAP + HEADER][RADIOTAP + 6..];
    assert g[..RADIOTAP + HEADER][RADIOTAP + 6..] == g[RADIOTAP + 6..RADIOTAP + 10];
    FourBytes(sent[RADIOTAP..], 6, h);
    assert ToLe16(n) == [h[1], h[2]];
  }

  lemma PrefixOf(p: seq<byte>, s: seq<byte>, m: nat, n: nat)
    requires m <= n <= |s| && p == s[..n]
    ensures p[..m] == s[..m]
  {
  }

  lemma FourBytes(a: seq<byte>, at: nat, h: seq<byte>)
    requires at + 4 <= |a| && a[at..at + 4] == h
    ensures |h| == 4 && a[at] == h[0] && a[at + 1] == h[1] && a[at + 2] == h[2] && a[at + 3] == h[3]
  {
    assert h[0] == a[at..at + 4][0] && h[1] == a[at..at + 4][1] && h[2] == a[at..at + 4][2] && h[3] == a[at..at + 4][3];
  }

  /** Where a receiver looks for the payload. */
  function Looked(offset: nat, adhere: bool): nat { HEADER + NextOffset(offset, adhere) }

  /** What is taken from a received frame, whatever radiotap header, frame check sequence and
      stale bytes surround it. */
  lemma Taken(f: seq<byte>, offset: nat, payload: seq<byte>, port: byte, seqNum: byte, adhere: bool, sqn: seq<byte>,
              rt: seq<byte>, fcs: seq<byte>, rest: seq<byte>)
    requires |f| == FRAME && offset in {0, OFFSET} && Fits(offset, |payload|, adhere)
    requires |sqn| == 0 || (|sqn| == 2 && adhere)
    requires IsRadiotap(rt) && |fcs| in {0, 4}
    ensures var air := InAir(Sent(f, offset, payload, port, seqNum, adhere), sqn);
            var n := |payload|;
            && Readable(rt + air + fcs + rest, |rt + air + fcs|)
            && GetPayload(rt + air + fcs + rest, |rt + air + fcs|) ==
               Got(n, seqNum, |rt|, air[Looked(offset, adhere)..Looked(offset, adhere) + n])
  {
    hide Le16, Sent, Patch, Readable, GetPayload, IsRadiotap;
    var sent := Sent(f, offset, payload, port, seqNum, adhere);
    HeaderFields(f, offset, payload, port, seqNum, adhere);
    KeepsHead(sent[RADIOTAP..], sqn);
    TakenFrom(rt, InAir(sent, sqn), fcs, rest, |payload|, NextOffset(offset, adhere));
  }

  lemma TakenFrom(rt: seq<byte>, air: seq<byte>, fcs: seq<byte>, rest: seq<byte>, n: nat, extra: nat)
    requires IsRadiotap(rt) && |fcs| in {0, 4} && extra in {0, OFFSET} && n <= DATA
    requires |air| == HEADER + extra + n && Le16(air[7], air[8]) == n
    ensures Readable(rt + air + fcs + rest, |rt + air + fcs|)
    ensures GetPayload(rt + air + fcs + rest, |rt + air + fcs|) ==
            Got(n, air[9], |rt|, air[HEADER + extra..HEADER + extra + n])
  {
    hide Le16;
    var buf := rt + air + fcs + rest;
    assert buf == rt + air + (fcs + rest);
    BytesOf(rt, air, fcs + rest, HEADER + extra, n);
    assert LooksPlain(|rt + air + fcs|, |rt|, n) <==> extra == 0;
  }

  lemma BytesOf(rt: seq<byte>, air: seq<byte>, tail: seq<byte>, at: nat, n: nat)
    requires |rt| >= 4 && |air| >= HEADER && at + n <= |air|
    ensures var buf := rt + air + tail;
            && buf[2] == rt[2] && buf[3] == rt[3]
            && buf[|rt| + 7] == air[7] && buf[|rt| + 8] == air[8] && buf[|rt| + 9] == air[9]
            && buf[|rt| + at..|rt| + at + n] == air[at..at + n]
  {
  }

  lemma KeepsHead(a: seq<byte>, sqn: seq<byte>)
    requires |sqn| == 0 || (|sqn| == 2 && |a| >= 24)
    ensures |sqn| > 0 ==> forall i :: 0 <= i < |a| && !(22 <= i < 24) ==> Patch(a, 22, sqn)[i] == a[i]
  {
  }

  /** The bytes at the looked-for place are the payload when the sender keeps to one mode. */
  lemma PayloadInPlace(f: seq<byte>, offset: nat, payload: seq<byte>, port: byte, seqNum: byte, adhere: bool, sqn: seq<byte>)
    requires |f| == FRAME && Fits(offset, |payload|, adhere)
    requires |sqn| == 0 || (|sqn| == 2 && adhere)
    requires offset == 0 || adhere
    ensures var l := Looked(offset, adhere);
            InAir(Sent(f, offset, payload, port, seqNum, adhere), sqn)[l..l + |payload|] == payload
  {
    hide WithHeader;
    var sent := Sent(f, offset, payload, port, seqNum, adhere);
    var l := Looked(offset, adhere);
    assert sent[Place(adhere)..Place(adhere) + |payload|] == payload;
    assert sent[RADIOTAP..][l..l + |payload|] == payload;
    KeepsHead(sent[RADIOTAP..], sqn);
  }

  /** Round trip for a sender that keeps one mode, even if a driver overwrites the sequence control
      field of an offset frame. */
  lemma RoundTrip(f: seq<byte>, offset: nat, payload: seq<byte>, port: byte, seqNum: byte, adhere: bool, sqn: seq<byte>,
                  rt: seq<byte>, fcs: seq<byte>, rest: seq<byte>)
    requires |f| == FRAME && offset in {0, OFFSET} && Fits(offset, |payload|, adhere)
    requires offset == 0 || adhere
    requires |sqn| == 0 || (|sqn| == 2 && adhere)
    requires IsRadiotap(rt) && |fcs| in {0, 4}
    ensures var received := rt + InAir(Sent(f, offset, payload, port, seqNum, adhere), sqn) + fcs;
            && Readable(received + rest, |received|)
            && GetPayload(received + rest, |received|) == Got(|payload|, seqNum, |rt|, payload)
  {
    hide Sent, InAir, Readable, GetPayload, IsRadiotap;
    Taken(f, offset, payload, port, seqNum, adhere, sqn, rt, fcs, rest);
    PayloadInPlace(f, offset, payload, port, seqNum, adhere, sqn);
  }

  /** A frame as it arrives: behind a radiotap header, with or without a frame check sequence. */
  function Arriving(f: seq<byte>, offset: nat, payload: seq<byte>, port: byte, seqNum: byte, adhere: bool, rt: seq<byte>,
                    fcs: seq<byte>): seq<byte>
    requires |f| == FRAME && Fits(offset, |payload|, adhere)
  {
    rt + InAir(Sent(f, offset, payload, port, seqNum, adhere), []) + fcs
  }

  ghost predicate Delivers(received: seq<byte>, payload: seq<byte>)
  {
    Readable(received, |received|) && GetPayload(received, |received|).payload == payload
  }

  /** The receiver gets this payload out of every frame that carries it. */
  ghost predicate Recovered(offset: nat, payload: seq<byte>, adhere: bool)
    requires Fits(offset, |payload|, adhere)
  {
    forall f: seq<byte>, port: byte, seqNum: byte, rt: seq<byte>, fcs: seq<byte> |
      |f| == FRAME && IsRadiotap(rt) && |fcs| in {0, 4} ::
      Delivers(Arriving(f, offset, payload, port, seqNum, adhere, rt, fcs), payload)
  }

  /** A payload is recovered exactly when the sender has not gone back from offset to plain frames. */
  lemma ModesMatter(offset: nat, payload: seq<byte>, adhere: bool)
    requires Fits(offset, |payload|, adhere) && offset in {0, OFFSET} && |payload| > 0
    ensures Recovered(offset, payload, adhere) <==> offset == 0 || adhere
  {
    hide Arriving, Delivers, IsRadiotap, Fits;
    if offset == 0 || adhere {
      forall f: seq<byte>, port: byte, seqNum: byte, rt: seq<byte>, fcs: seq<byte> |
        |f| == FRAME && IsRadiotap(rt) && |fcs| in {0, 4}
        ensures Delivers(Arriving(f, offset, payload, port, seqNum, adhere, rt, fcs), payload)
      {
        ArrivesWhole(f, offset, payload, port, seqNum, adhere, rt, fcs);
      }
    } else {
      var f, rt := StaleFrame(payload);
    }
  }

  lemma ArrivesWhole(f: seq<byte>, offset: nat, payload: seq<byte>, port: byte, seqNum: byte, adhere: bool, rt: seq<byte>,
                     fcs: seq<byte>)
    requires |f| == FRAME && offset in {0, OFFSET} && Fits(offset, |payload|, adhere) && (offset == 0 || adhere)
    requires IsRadiotap(rt) && |fcs| in {0, 4}
    ensures Delivers(Arriving(f, offset, payload, port, seqNum, adhere, rt, fcs), payload)
  {
    hide Sent, InAir, Readable, GetPayload, IsRadiotap, Fits;
    RoundTrip(f, offset, payload, port, seqNum, adhere, [], rt, fcs, []);
    var received := Arriving(f, offset, payload, port, seqNum, adhere, rt, fcs);
    assert received + [] == received;
  }

  /** Going back to plain frames, the receiver reads stale bytes behind the payload. */
  lemma StaleFrame(payload: seq<byte>) returns (f: seq<byte>, rt: seq<byte>)
    requires |payload| > 0 && Fits(OFFSET, |payload|, false)
    ensures |f| == FRAME && IsRadiotap(rt)
    ensures !Delivers(Arriving(f, OFFSET, payload, 0, 0, false, rt, []), payload)
  {
    hide Sent, GetPayload, Readable, IsRadiotap, Patch, Le16;
    f, rt := StaleBytes(payload), [0, 0, 4, 0];
    FourByteRadiotap(rt);
    Taken(f, OFFSET, payload, 0, 0, false, [], rt, [], []);
    LastByteStale(payload);
    var received := Arriving(f, OFFSET, payload, 0, 0, false, rt, []);
    assert received + [] == received;
  }

  lemma FourByteRadiotap(rt: seq<byte>)
    requires rt == [0, 0, 4, 0]
    ensures IsRadiotap(rt)
  {
    Four();
  }

  lemma Four()
    ensures Num(4) == 4 && Num(0) == 0
  {
  }

  function StaleByte(payload: seq<byte>): byte
    requires |payload| > 0
  {
    payload[|payload| - 1] ^ 1
  }

  function StaleBytes(payload: seq<byte>): (f: seq<byte>)
    requires |payload| > 0
    ensures |f| == FRAME
  {
    seq(FRAME, _ => StaleByte(payload))
  }

  lemma LastByteStale(payload: seq<byte>)
    requires |payload| > 0 && Fits(OFFSET, |payload|, false)
    ensures var air := Sent(StaleBytes(payload), OFFSET, payload, 0, 0, false)[RADIOTAP..];
            var l := Looked(OFFSET, false);
            air[l..l + |payload|] != payload
  {
    hide ToLe16, Patch;
    var n, f := |payload|, StaleBytes(payload);
    Patched(f, RADIOTAP + 6, [0] + ToLe16(n) + [0]);
    Patched(WithHeader(f, 0, n, 0), Place(false), payload);
    var sent := Sent(f, OFFSET, payload, 0, 0, false);
    assert sent[RADIOTAP + HEADER + OFFSET + n - 1] == StaleByte(payload);
    assert sent[RADIOTAP..][HEADER + OFFSET..HEADER + OFFSET + n][n - 1] == StaleByte(payload);
  }

  // ---------- the layout in numbers ----------

  /** A sent frame byte by byte: port, length and sequence number at 19..22, then the payload at 23, or at 37
      behind an offset; everything else is what the frame buffer held. */
  lemma SentLayout(f: seq<byte>, offset: nat, payload: seq<byte>, port: byte, seqNum: byte, adhere: bool)
    requires |f| == FRAME && Fits(offset, |payload|, adhere)
    ensures var s, n, at := Sent(f, offset, payload, port, seqNum, adhere), |payload|, if adhere then 37 else 23;
            && |s| == 23 + n + (if adhere then 14 else offset)
            && s[..19] == f[..19] && s[19] == port && Le16(s[20], s[21]) == n && s[22] == seqNum
            && s[23..at] == f[23..at] && s[at..at + n] == payload
  {
    hide Le16, ToLe16, Patch;
    var n, h := |payload|, [port] + ToLe16(|payload|) + [seqNum];
    var g := WithHeader(f, port, n, seqNum);
    Patched(f, 19, h);
    Patched(g, Place(adhere), payload);
    var r, s := Framed(f, payload, port, seqNum, adhere), Sent(f, offset, payload, port, seqNum, adhere);
    HeaderFields(f, offset, payload, port, seqNum, adhere);
    Prefixes(f, g, r, s, Place(adhere));
  }

  lemma Prefixes(f: seq<byte>, g: seq<byte>, r: seq<byte>, s: seq<byte>, at: nat)
    requires |f| == |g| == |r| && 23 <= at <= |s| <= |r| && s == r[..|s|]
    requires r[..at] == g[..at] && g[..19] == f[..19] && forall i :: 23 <= i < |f| ==> g[i] == f[i]
    ensures s[..19] == f[..19] && s[23..at] == f[23..at]
    ensures forall i, j :: 0 <= i <= j <= |s| ==> s[i..j] == r[i..j]
  {
    assert s[..at] == r[..at];
    assert s[..19] == s[..at][..19] == g[..at][..19] == g[..19];
    assert s[23..at] == s[..at][23..] == g[..at][23..] == g[23..at] == f[23..at];
  }

  /** A received frame byte by byte, with or without 14 bytes before the payload and 4 after it. */
  lemma ReceivedLayout(rt: seq<byte>, head: seq<byte>, port: byte, lo: byte, hi: byte, seqNum: byte, gap: seq<byte>,
                       payload: seq<byte>, fcs: seq<byte>, rest: seq<byte>)
    requires 4 <= |rt| == Le16(rt[2], rt[3]) && |head| == 6 && |gap| in {0, 14} && |fcs| in {0, 4}
    requires Le16(lo, hi) == |payload| <= 2048
    ensures var received := rt + (head + [port, lo, hi, seqNum] + gap + payload) + fcs;
            && Readable(received + rest, |received|)
            && GetPayload(received + rest, |received|) == Got(|payload|, seqNum, |rt|, payload)
  {
    hide Le16, Readable, GetPayload;
    var air := head + [port, lo, hi, seqNum] + gap + payload;
    assert air[6] == port && air[7] == lo && air[8] == hi && air[9] == seqNum;
    assert air[10 + |gap|..] == payload;
    TakenFrom(rt, air, fcs, rest, |payload|, |gap|);
  }

  /** How the place of the payload is told: behind the radiotap header of r bytes and the header, a plain payload
      is read exactly if at most 4 bytes follow it; with more, the receiver reads 14 bytes further on. */
  lemma TrailingBytes(front: seq<byte>, r: nat, payload: seq<byte>, tail: seq<byte>, rest: seq<byte>)
    requires r >= 4 && |front| == r + 10 && Le16(front[2], front[3]) == r
    requires Le16(front[r + 7], front[r + 8]) == |payload| <= 2048 && |tail| + |rest| >= 14
    ensures var buf, received := front + payload + (tail + rest), |front| + |payload| + |tail|;
            && Readable(buf, received)
            && GetPayload(buf, received).payload ==
               if |tail| <= 4 then payload else (payload + (tail + rest))[14..14 + |payload|]
  {
    hide Le16, Readable, GetPayload;
    var buf := front + payload + (tail + rest);
    Behind(front, buf, payload, tail + rest);
    ReadAt(buf, |front| + |payload| + |tail|, r, |payload|);
  }

  /** Which bytes are read from a buffer with these fields. */
  lemma ReadAt(buf: seq<byte>, received: nat, r: nat, n: nat)
    requires |buf| >= 4 && Le16(buf[2], buf[3]) == r && |buf| >= r + 24 + n
    requires Le16(buf[r + 7], buf[r + 8]) == n <= 2048
    ensures Readable(buf, received)
    ensures GetPayload(buf, received) ==
            Got(n, buf[r + 9], r, if received - r - 10 <= n + 4 then buf[r + 10..r + 10 + n] else buf[r + 24..r + 24 + n])
  {
    hide Le16;
  }

  lemma Behind(before: seq<byte>, buf: seq<byte>, payload: seq<byte>, tail: seq<byte>)
    requires buf == before + payload + tail && |tail| >= 14
    ensures forall i :: 0 <= i < |before| ==> buf[i] == before[i]
    ensures buf[|before|..|before| + |payload|] == payload
    ensures buf[|before| + 14..|before| + 14 + |payload|] == (payload + tail)[14..14 + |payload|]
  {
    assert buf == before + (payload + tail);
    assert buf[|before|..] == payload + tail;
  }

  // ---------- the code on its buffers ----------

  /** The sender's global frame buffer and offset. */
  class RawSender {
    const frame: array<byte>
    var offset: nat

    ghost predicate Valid()
      reads this
    {
      frame.Length == FRAME && offset in {0, OFFSET}
    }

    constructor ()
      ensures Valid() && offset == 0 && fresh(frame)
    {
      frame := new byte[FRAME];
      offset := 0;
    }

    /** get_hp_raw_buffer: the place of the payload in the frame buffer. */
    method GetBuffer(adhere: bool) returns (at: nat)
      requires Valid()
      modifies this
      ensures Valid() && offset == NextOffset(old(offset), adhere) && at == Place(adhere)
    {
      if adhere {
        offset := OFFSET;
        at := RADIOTAP + HEADER + OFFSET;
      } else {
        at := RADIOTAP + HEADER;
      }
    }

    /** db_send_div: returns the frame given to the socket. */
    method SendDiv(payload: seq<byte>, port: byte, seqNum: byte, adhere: bool) returns (sent: seq<byte>)
      requires Valid() && Fits(offset, |payload|, adhere)
      modifies this, frame
      ensures Valid() && offset == NextOffset(old(offset), adhere)
      ensures frame[..] == Framed(old(frame[..]), payload, port, seqNum, adhere)
      ensures sent == Sent(old(frame[..]), old(offset), payload, port, seqNum, adhere)
    {
      hide Patch, ToLe16;
      Copy(frame, RADIOTAP + 6, [port] + ToLe16(|payload|) + [seqNum]);
      var at := GetBuffer(adhere);
      Copy(frame, at, payload);
      sent := frame[..RADIOTAP + HEADER + |payload| + offset];
      assert sent == frame[..][..RADIOTAP + HEADER + |payload| + offset];
    }

    /** db_send_hp_div: the payload is already in the frame buffer. */
    method SendHpDiv(payloadLength: nat, port: byte, seqNum: byte) returns (sent: seq<byte>)
      requires Valid() && payloadLength + offset <= DATA
      modifies frame
      ensures frame[..] == WithHeader(old(frame[..]), port, payloadLength, seqNum)
      ensures sent == frame[..RADIOTAP + HEADER + payloadLength + offset]
    {
      hide Patch, ToLe16;
      Copy(frame, RADIOTAP + 6, [port] + ToLe16(payloadLength) + [seqNum]);
      sent := frame[..RADIOTAP + HEADER + payloadLength + offset];
    }
  }

  /** update_seq_num. */
  method UpdateSeqNum(last: byte) returns (r: byte)
    ensures Num(r) == (Num(last) + 1) % 256
  {
    hide Num;
    ByteEdge(last);
    r := if last == 255 then 0 else last + 1;
  }

  lemma ByteEdge(b: byte)
    ensures Num(0) == 0 && Num(255) == 255 && (b != 255 ==> Num(b + 1) == Num(b) + 1)
  {
    if b != 255 {
      NumSuccessor(b);
    }
  }

  /** get_db_payload on buffers. */
  method GetDbPayload(receive: array<byte>, received: int, payload: array<byte>)
    returns (length: nat, seqNum: byte, radiotap: nat)
    requires Readable(receive[..], received) && payload.Length >= |GetPayload(receive[..], received).payload|
    requires receive != payload
    modifies payload
    ensures var g := GetPayload(receive[..], received);
            && length == g.length && seqNum == g.seqNum && radiotap == g.radiotap
            && payload[..] == Patch(old(payload[..]), 0, g.payload)
  {
    hide Readable, Fields, Patch, LooksPlain;
    radiotap, length, seqNum := ReadFields(receive, received);
    var at := radiotap + HEADER;
    if LooksPlain(received, radiotap, length) {
      Copy(payload, 0, receive[..][at..at + length]);
    } else if length <= DATA {
      Copy(payload, 0, receive[..][at + OFFSET..at + OFFSET + length]);
    } else {
      PatchNothing(payload[..], 0);
    }
  }

  method ReadFields(receive: array<byte>, ghost received: int) returns (radiotap: nat, length: nat, seqNum: byte)
    requires Readable(receive[..], received)
    ensures (radiotap, length, seqNum) == Fields(receive[..], received)
  {
    hide Le16, LooksPlain;
    radiotap := Le16(receive[2], receive[3]);
    seqNum := receive[radiotap + 9];
    length := Le16(receive[radiotap + 7], receive[radiotap + 8]);
  }
}
