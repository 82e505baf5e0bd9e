/** The USB bridge: messages cut into transfers and put together again. */
module Usb {
  import opened Memory
  import opened Gf256
  import opened Bytes
  import opened Words

  /** DB_AOA_HEADER_LENGTH */
  const HEADER := 6

  /** DB_AOA_MAX_MSG_LENGTH */
  const MAX_MSG := 1536

  /** DB_AOA_MAX_PAY_LENGTH */
  const MAX_PAY := 1530

  /** 'D', 'B', DB_USB_PROTO_VERSION */
  const IDENT: seq<byte> := [0x44, 0x42, 1]

  datatype Message = Message(port: byte, payload: seq<byte>)
  {
    predicate Valid() { |payload| <= 1530 }
  }

  type Chunk = seq<byte>

  // ---------- sending ----------

  function Wire(m: Message): (w: seq<byte>)
    requires m.Valid()
    ensures |w| == 6 + |m.payload|
  {
    [0x44, 0x42, 1] + [m.port] + ToLe16(|m.payload|) + m.payload
  }

  /** Cut into transfers of at most max bytes. */
  function Split(w: seq<byte>, max: nat): seq<Chunk>
    requires max > 0
  {
    if |w| <= max then [w] else [w[..max]] + Split(w[max..], max)
  }

  /** A payload that fits is sent in one transfer together with its header. */
  function Transfers(m: Message, max: nat): seq<Chunk>
    requires m.Valid() && max > 0
  {
    if |m.payload| <= max then [Wire(m)] else Split(Wire(m), max)
  }

  /** db_usb_write_async_zc: fill in the header, then submit the transfers. */
  method WriteAsync(raw: array<byte>, dataLength: nat, port: byte, maxPackSize: nat) returns (transfers: seq<Chunk>)
    requires raw.Length == MAX_MSG && dataLength <= MAX_PAY && maxPackSize > 0
    requires raw[..3] == IDENT
    modifies raw
    ensures transfers == Transfers(Message(port, old(raw[HEADER..HEADER + dataLength])), maxPackSize)
    ensures raw[..HEADER] == IDENT + [port] + ToLe16(dataLength) && raw[HEADER..] == old(raw[HEADER..])
  {
    hide Byte, Wire, Split;
    ghost var m := Message(port, raw[HEADER..HEADER + dataLength]);
    raw[3] := port;
    raw[4], raw[5] := Byte(dataLength % 0x100), Byte(dataLength / 0x100);
    var total := dataLength + HEADER;
    assert raw[..total][HEADER..] == m.payload && raw[..total][..HEADER] == raw[..HEADER] && raw[..total][4..6] == raw[4..6];
    assert raw[..total][..3] == raw[..3] == IDENT;
    HeaderWritten(raw[..total], m);
    if dataLength <= maxPackSize {
      transfers := [raw[..total]];
    } else {
      transfers := SubmitSplit(raw, total, maxPackSize);
    }
  }

  /** Several transfers; only the first one contains the header. */
  method SubmitSplit(raw: array<byte>, total: nat, maxPackSize: nat) returns (transfers: seq<Chunk>)
    requires 0 < maxPackSize < total <= raw.Length
    ensures transfers == Split(raw[..total], maxPackSize)
  {
    hide Split, Rest;
    ghost var w := raw[..total];
    SplitFirst(w, maxPackSize);
    transfers := [raw[0..maxPackSize]];
    SliceOf(raw, total, 0, maxPackSize);
    var sent := maxPackSize;
    while sent < total
      invariant maxPackSize <= sent <= total
      invariant Split(w, maxPackSize) == transfers + Rest(w, sent, maxPackSize)
    {
      var chunkSize := if total - sent <= maxPackSize then total - sent else maxPackSize;
      RestSplit(w, sent, chunkSize, maxPackSize);
      SliceOf(raw, total, sent, sent + chunkSize);
      var chunk := raw[sent..sent + chunkSize];
      assert (transfers + [chunk]) + Rest(w, sent + chunkSize, maxPackSize)
          == transfers + ([chunk] + Rest(w, sent + chunkSize, maxPackSize));
      transfers := transfers + [chunk];
      sent := sent + chunkSize;
    }
  }

  lemma SliceOf(raw: array<byte>, total: nat, from: nat, to: nat)
    requires from <= to <= total <= raw.Length
    ensures raw[from..to] == raw[..total][from..to]
  {
  }

  lemma HeaderWritten(raw: seq<byte>, m: Message)
    requires m.Valid() && |raw| == HEADER + |m.payload|
    requires raw[..3] == IDENT && raw[3] == m.port && raw[4..6] == ToLe16(|m.payload|) && raw[HEADER..] == m.payload
    ensures raw == Wire(m) && raw[..HEADER] == IDENT + [m.port] + ToLe16(|m.payload|)
  {
    hide ToLe16;
    assert raw == raw[..3] + [raw[3]] + raw[4..6] + raw[6..];
  }

  /** The transfers still to be submitted. */
  ghost function Rest(w: seq<byte>, sent: nat, max: nat): seq<Chunk>
    requires sent <= |w| && max > 0
  {
    if sent < |w| then Split(w[sent..], max) else []
  }

  lemma RestSplit(w: seq<byte>, sent: nat, size: nat, max: nat)
    requires 0 < max && sent < |w| && size == if |w| - sent <= max then |w| - sent else max
    ensures Rest(w, sent, max) == [w[sent..sent + size]] + Rest(w, sent + size, max)
  {
    assert w[sent..][..size] == w[sent..sent + size];
    assert w[sent..][size..] == w[sent + size..];
    if sent + size == |w| {
      assert w[sent..sent + size] == w[sent..];
    }
  }

  // ---------- receiving ----------

  /** The statics of process_db_usb_proto, and what was routed. */
  datatype Parser = Parser(awaiting: bool, buffer: seq<byte>, port: byte, size: nat, fill: nat, routed: seq<Message>)

  /** No copy of a transfer of up to MAX_MSG bytes can pass the end of the buffer. */
  predicate Safe(p: Parser)
  {
    |p.buffer| == MAX_PAY && p.fill <= MAX_PAY && (if p.awaiting then p.size <= MAX_PAY else p.fill == 0)
  }

  /** process_db_usb_proto. */
  function Step(p: Parser, c: Chunk): (r: Parser)
    requires Safe(p) && |c| <= MAX_MSG
    ensures Safe(r)
  {
    if !p.awaiting then
      if |c| < HEADER || c[..3] != IDENT then p
      else
        var q := p.(port := c[3], size := Le16(c[4], c[5]));
        if q.size > MAX_PAY then q
        else if |c| - HEADER == q.size then q.(routed := q.routed + [Message(q.port, c[HEADER..])])
        else q.(awaiting := true, fill := |c| - HEADER, buffer := Patch(q.buffer, 0, c[HEADER..]))
    else if p.fill + |c| == p.size then
      var b := Patch(p.buffer, p.fill, c);
      p.(buffer := b, fill := 0, awaiting := false, routed := p.routed + [Message(p.port, b[..p.size])])
    else if p.fill + |c| < p.size then p.(buffer := Patch(p.buffer, p.fill, c), fill := p.fill + |c|)
    else p.(awaiting := false, fill := 0)
  }

  function Feed(p: Parser, cs: seq<Chunk>): (r: Parser)
    requires Safe(p) && Sized(cs)
    ensures Safe(r)
    decreases |cs|
  {
    if |cs| == 0 then p else Feed(Step(p, cs[0]), cs[1..])
  }

  ghost predicate Sized(cs: seq<Chunk>)
  {
    forall i :: 0 <= i < |cs| ==> |cs[i]| <= MAX_MSG
  }

  lemma {:induction false} FeedConcat(p: Parser, a: seq<Chunk>, b: seq<Chunk>)
    requires Safe(p) && Sized(a) && Sized(b)
    ensures Sized(a + b) && Feed(p, a + b) == Feed(Feed(p, a), b)
    decreases |a|
  {
    hide Step, Safe;
    if |a| == 0 {
      assert a + b == b;
    } else {
      assert (a + b)[1..] == a[1..] + b && (a + b)[0] == a[0];
      FeedConcat(Step(p, a[0]), a[1..], b);
    }
  }

  /** The first `fill` bytes of the payload of m are in the buffer, and more are to come. */
  ghost predicate Collecting(p: Parser, m: Message, done: seq<Message>)
  {
    && Safe(p) && p.awaiting && m.Valid() && p.port == m.port && p.size == |m.payload| && p.fill < p.size
    && p.buffer[..p.fill] == m.payload[..p.fill] && p.routed == done
  }

  /** Ready for a header. */
  ghost predicate Ready(p: Parser, done: seq<Message>)
  {
    Safe(p) && !p.awaiting && p.routed == done
  }

  lemma CollectMore(p: Parser, m: Message, done: seq<Message>, c: Chunk)
    requires Collecting(p, m, done) && p.fill + |c| <= p.size && c == m.payload[p.fill..p.fill + |c|] && |c| <= MAX_MSG
    ensures if p.fill + |c| == p.size then Ready(Step(p, c), done + [m])
            else Collecting(Step(p, c), m, done) && Step(p, c).fill == p.fill + |c|
  {
    var b := Patch(p.buffer, p.fill, c);
    assert b[..p.fill + |c|] == p.buffer[..p.fill] + c;
    assert m.payload[..p.fill + |c|] == m.payload[..p.fill] + c;
    assert p.fill + |c| == p.size ==> m.payload[..p.size] == m.payload;
  }

  lemma {:induction false} RestDelivers(p: Parser, m: Message, done: seq<Message>, max: nat)
    requires Collecting(p, m, done) && max > 0
    ensures var cs := Split(m.payload[p.fill..], max); Sized(cs) && Ready(Feed(p, cs), done + [m])
    decreases |m.payload| - p.fill
  {
    hide Step, Safe, Ready, Patch;
    var rest := m.payload[p.fill..];
    CollectingFacts(p, m, done);
    var n := if |rest| <= max then |rest| else max;
    var c := rest[..n];
    assert c == m.payload[p.fill..p.fill + n];
    CollectMore(p, m, done, c);
    var cs := Split(rest, max);
    if |rest| <= max {
      assert c == rest && cs == [c] && cs[1..] == [];
    } else {
      var q := Step(p, c);
      assert rest[max..] == m.payload[q.fill..];
      RestDelivers(q, m, done, max);
      assert cs[0] == c && cs[1..] == Split(m.payload[q.fill..], max);
    }
  }

  lemma CollectingFacts(p: Parser, m: Message, done: seq<Message>)
    requires Collecting(p, m, done)
    ensures Safe(p) && p.fill < p.size == |m.payload| <= MAX_PAY
  {
  }

  lemma HeaderArrives(p: Parser, m: Message, done: seq<Message>, n: nat)
    requires Ready(p, done) && m.Valid() && HEADER <= n <= |Wire(m)|
    ensures var q := Step(p, Wire(m)[..n]);
            if n == |Wire(m)| then Ready(q, done + [m])
            else Collecting(q, m, done) && q.fill == n - HEADER
  {
    hide ToLe16, Le16;
    var c := Wire(m)[..n];
    Le16RoundTrip(|m.payload|);
    assert Wire(m)[..3] == IDENT && c[3] == m.port && [c[4], c[5]] == ToLe16(|m.payload|);
    assert c[..3] == IDENT && c[HEADER..] == m.payload[..n - HEADER];
    assert m.payload[..|m.payload|] == m.payload;
    if n < |Wire(m)| {
      assert Patch(p.buffer, 0, c[HEADER..])[..n - HEADER] == c[HEADER..];
    }
  }

  lemma {:induction false} ShortSplit(p: Parser, w: seq<byte>, max: nat)
    requires Safe(p) && !p.awaiting && 0 < max < HEADER
    ensures Sized(Split(w, max)) && Feed(p, Split(w, max)) == p
    decreases |w|
  {
    var cs := Split(w, max);
    if |w| <= max {
      assert cs[1..] == [];
    } else {
      ShortSplit(p, w[max..], max);
      assert cs[0] == w[..max] && cs[1..] == Split(w[max..], max);
    }
  }

  /** A message comes through exactly when it is not split, or its first transfer holds the whole header;
      otherwise the parser ignores all its transfers. */
  lemma MessageArrives(p: Parser, m: Message, done: seq<Message>, max: nat)
    requires Ready(p, done) && m.Valid() && max > 0
    ensures Sized(Transfers(m, max))
    ensures var arrives := |m.payload| <= max || max >= HEADER;
            Ready(Feed(p, Transfers(m, max)), if arrives then done + [m] else done)
  {
    hide Step, Wire, Split;
    var w, cs := Wire(m), Transfers(m, max);
    if |m.payload| <= max {
      HeaderArrives(p, m, done, |w|);
      assert w[..|w|] == w && cs == [w] && cs[1..] == [];
      FeedOne(p, w);
    } else if max < HEADER {
      ShortSplit(p, w, max);
    } else {
      HeaderArrives(p, m, done, max);
      var q := Step(p, w[..max]);
      RestDelivers(q, m, done, max);
      WireTail(m, max);
      SplitFirst(w, max);
      assert cs[0] == w[..max] && cs[1..] == Split(w[max..], max);
    }
  }

  lemma FeedOne(p: Parser, c: Chunk)
    requires Safe(p) && |c| <= MAX_MSG
    ensures Sized([c]) && Feed(p, [c]) == Step(p, c)
  {
    hide Step;
    assert [c][1..] == [];
  }

  lemma WireTail(m: Message, n: nat)
    requires m.Valid() && HEADER <= n <= |Wire(m)|
    ensures Wire(m)[n..] == m.payload[n - HEADER..]
  {
    hide ToLe16;
  }

  lemma SplitFirst(w: seq<byte>, max: nat)
    requires 0 < max < |w|
    ensures Split(w, max) == [w[..max]] + Split(w[max..], max)
    ensures Rest(w, max, max) == Split(w[max..], max) && Rest(w, |w|, max) == []
  {
  }

  // ---------- whole conversations ----------

  ghost predicate AllValid(ms: seq<Message>)
  {
    forall i :: 0 <= i < |ms| ==> ms[i].Valid()
  }

  function AllTransfers(ms: seq<Message>, max: nat): seq<Chunk>
    requires AllValid(ms) && max > 0
  {
    if |ms| == 0 then [] else AllTransfers(ms[..|ms| - 1], max) + Transfers(ms[|ms| - 1], max)
  }

  /** The messages that fit the transfer size. */
  function Arriving(ms: seq<Message>, max: nat): seq<Message>
  {
    if |ms| == 0 then []
    else
      var m := ms[|ms| - 1];
      Arriving(ms[..|ms| - 1], max) + if |m.payload| <= max || max >= HEADER then [m] else []
  }

  lemma {:induction false} Conversation(p: Parser, done: seq<Message>, ms: seq<Message>, max: nat)
    requires Ready(p, done) && AllValid(ms) && max > 0
    ensures Sized(AllTransfers(ms, max)) && Ready(Feed(p, AllTransfers(ms, max)), done + Arriving(ms, max))
  {
    hide Step, Transfers, Feed, Ready, Message.Valid;
    if |ms| == 0 {
      EmptyFeed(p, done);
      assert done + [] == done;
    } else {
      var n := |ms| - 1;
      Conversation(p, done, ms[..n], max);
      var before := done + Arriving(ms[..n], max);
      ReadySafe(p, done);
      var q := Feed(p, AllTransfers(ms[..n], max));
      MessageArrives(q, ms[n], before, max);
      FeedConcat(p, AllTransfers(ms[..n], max), Transfers(ms[n], max));
      assert before + [ms[n]] == done + (Arriving(ms[..n], max) + [ms[n]]);
      assert Arriving(ms[..n], max) + [] == Arriving(ms[..n], max);
    }
  }

  lemma EmptyFeed(p: Parser, done: seq<Message>)
    requires Ready(p, done)
    ensures Safe(p) && Feed(p, []) == p
  {
  }

  lemma ReadySafe(p: Parser, done: seq<Message>)
    requires Ready(p, done)
    ensures Safe(p)
  {
  }

  lemma {:induction false} AllArrive(ms: seq<Message>, max: nat)
    requires max >= HEADER
    ensures Arriving(ms, max) == ms
  {
    if |ms| > 0 {
      var n := |ms| - 1;
      AllArrive(ms[..n], max);
      assert ms == ms[..n] + [ms[n]];
    }
  }

  /** With transfers of at least the header size, everything arrives once, in order. */
  lemma RoundTrip(p: Parser, done: seq<Message>, ms: seq<Message>, max: nat)
    requires Ready(p, done) && AllValid(ms) && max >= 6
    ensures Sized(AllTransfers(ms, max)) && Ready(Feed(p, AllTransfers(ms, max)), done + ms)
  {
    hide Ready, Feed, Arriving, AllTransfers;
    Conversation(p, done, ms, max);
    AllArrive(ms, max);
  }

  // ---------- lost and foreign transfers ----------

  /** A transfer that does not start a message of at most 1530 bytes is ignored. */
  lemma ForeignIgnored(p: Parser, done: seq<Message>, c: Chunk)
    requires Ready(p, done) && |c| <= 1536
    requires |c| < 6 || c[..3] != [0x44, 0x42, 1] || Le16(c[4], c[5]) > 1530
    ensures Ready(Step(p, c), done)
  {
    hide Le16;
  }

  /** A transfer that brings more than the payload still lacks ends the message: it is dropped, and the
      next transfer is taken for a header. */
  lemma OverflowResynchronises(p: Parser, c: Chunk)
    requires Safe(p) && |c| <= 1536 && p.awaiting && p.fill + |c| > p.size
    ensures Ready(Step(p, c), p.routed)
  {
  }

  /** After such a transfer everything that is sent arrives again. */
  lemma RecoversAfterLoss(p: Parser, c: Chunk, ms: seq<Message>, max: nat)
    requires Safe(p) && |c| <= 1536 && p.awaiting && p.fill + |c| > p.size
    requires AllValid(ms) && max >= 6
    ensures Sized(AllTransfers(ms, max)) && Sized([c] + AllTransfers(ms, max))
    ensures Ready(Feed(p, [c] + AllTransfers(ms, max)), p.routed + ms)
  {
    hide Ready, Feed, Step, Safe, AllTransfers;
    OverflowResynchronises(p, c);
    FeedOne(p, c);
    RoundTrip(Step(p, c), p.routed, ms, max);
    FeedConcat(p, [c], AllTransfers(ms, max));
  }

  // ---------- any transfers at all ----------

  function Joined(cs: seq<Chunk>): seq<byte>
  {
    if |cs| == 0 then [] else Joined(cs[..|cs| - 1]) + cs[|cs| - 1]
  }

  lemma JoinedMore(cs: seq<Chunk>, c: Chunk)
    ensures Joined(cs + [c]) == Joined(cs) + c
  {
    assert (cs + [c])[..|cs|] == cs;
  }

  /** The transfers received since a header, and what the parser kept of them. */
  ghost predicate Within(p: Parser, run: seq<Chunk>)
  {
    && Safe(p)
    && if !p.awaiting then run == []
       else
         && |run| > 0 && |run[0]| >= 6
         && HeldOf(p, Joined(run))
  }

  ghost predicate HeldOf(p: Parser, w: seq<byte>)
  {
    && |p.buffer| == 1530 && |w| == 6 + p.fill && p.fill <= 1530 && w[..3] == [0x44, 0x42, 1]
    && w[3] == p.port && Le16(w[4], w[5]) == p.size && p.buffer[..p.fill] == w[6..]
  }

  /** A message delivered from consecutive transfers, the first one with the whole header. */
  ghost predicate Carries(run: seq<Chunk>, m: Message)
  {
    |run| > 0 && |run[0]| >= 6 && m.Valid() && Joined(run) == Wire(m)
  }

  lemma WireOf(w: seq<byte>, m: Message)
    requires |w| >= 6 && w[..3] == [0x44, 0x42, 1] && w[3] == m.port && Le16(w[4], w[5]) == |m.payload| && w[6..] == m.payload
    requires |m.payload| <= 1530
    ensures w == Wire(m)
  {
    hide Le16, ToLe16;
    ToLe16RoundTrip(w[4], w[5]);
    assert w == w[..3] + [w[3]] + [w[4], w[5]] + w[6..];
  }

  /** A transfer starts a message, continues it, completes it or drops it. */
  ghost predicate Explained(p: Parser, q: Parser, run: seq<Chunk>, c: Chunk)
  {
    || (q.routed == p.routed && Within(q, []))
    || (q.routed == p.routed && Within(q, run + [c]))
    || (|q.routed| == |p.routed| + 1 && q.routed[..|p.routed|] == p.routed && Within(q, []) && Carries(run + [c], q.routed[|p.routed|]))
  }

  lemma HeaderExplained(p: Parser, c: Chunk)
    requires Within(p, []) && !p.awaiting && |c| <= 1536
    ensures Explained(p, Step(p, c), [], c)
  {
    hide Le16, Wire;
    assert [] + [c] == [c];
    JoinedMore([], c);
    assert [] + c == c;
    if |c| >= 6 && c[..3] == [0x44, 0x42, 1] && Le16(c[4], c[5]) == |c| - 6 <= 1530 {
      WireOf(c, Message(c[3], c[6..]));
    }
  }

  lemma PayloadExplained(p: Parser, run: seq<Chunk>, c: Chunk)
    requires Within(p, run) && p.awaiting && |c| <= 1536
    ensures Explained(p, Step(p, c), run, c)
  {
    hide Le16, Wire, Joined, Patch;
    JoinedMore(run, c);
    var w := Joined(run);
    if p.fill + |c| <= p.size {
      Patched(p.buffer, p.fill, c);
      var b := Patch(p.buffer, p.fill, c);
      assert b[..p.fill + |c|] == b[..p.fill] + b[p.fill..p.fill + |c|];
      assert (w + c)[6..] == w[6..] + c;
      if p.fill + |c| == p.size {
        WireOf(w + c, Message(p.port, b[..p.size]));
      }
    }
  }

  /** Runs of transfers that carry messages, with others between them. */
  ghost function Weave(gaps: seq<seq<Chunk>>, runs: seq<seq<Chunk>>): seq<Chunk>
    requires |gaps| == |runs|
  {
    if |runs| == 0 then []
    else Weave(gaps[..|runs| - 1], runs[..|runs| - 1]) + gaps[|runs| - 1] + runs[|runs| - 1]
  }

  ghost predicate AllCarry(runs: seq<seq<Chunk>>, ms: seq<Message>)
  {
    |runs| == |ms| && forall i :: 0 <= i < |runs| ==> Carries(runs[i], ms[i])
  }

  lemma WeaveMore(gaps: seq<seq<Chunk>>, runs: seq<seq<Chunk>>, gap: seq<Chunk>, run: seq<Chunk>)
    requires |gaps| == |runs|
    ensures Weave(gaps + [gap], runs + [run]) == Weave(gaps, runs) + gap + run
  {
    assert (gaps + [gap])[..|runs|] == gaps && (runs + [run])[..|runs|] == runs;
  }

  /** Soundness: whatever transfers arrive, every message routed was carried by consecutive transfers
      of its own, in order; nothing is made up. */
  lemma {:induction false} Sound(p: Parser, cs: seq<Chunk>)
    returns (gaps: seq<seq<Chunk>>, runs: seq<seq<Chunk>>, gap: seq<Chunk>, run: seq<Chunk>)
    requires Ready(p, []) && Sized(cs)
    ensures |gaps| == |runs| && cs == Weave(gaps, runs) + gap + run
    ensures AllCarry(runs, Feed(p, cs).routed) && Within(Feed(p, cs), run)
    decreases |cs|
  {
    hide Step, Safe, Carries, Within, Weave;
    if |cs| == 0 {
      gaps, runs, gap, run := [], [], [], [];
      NothingYet(p);
    } else {
      var n, c := |cs| - 1, cs[|cs| - 1];
      gaps, runs, gap, run := Sound(p, cs[..n]);
      ReadySafe(p, []);
      var q := Feed(p, cs[..n]);
      FeedMore(p, cs[..n], c);
      StepExplained(q, run, c);
      assert cs == cs[..n] + [c];
      var r := Step(q, c);
      if r.routed == q.routed {
        if Within(r, []) {
          gap, run := gap + run + [c], [];
        } else {
          run := run + [c];
        }
      } else {
        WeaveMore(gaps, runs, gap, run + [c]);
        gaps, runs := gaps + [gap], runs + [run + [c]];
        gap, run := [], [];
      }
    }
  }

  lemma StepExplained(p: Parser, run: seq<Chunk>, c: Chunk)
    requires Within(p, run) && |c| <= 1536
    ensures Safe(p) && Explained(p, Step(p, c), run, c)
  {
    hide Step, HeldOf, Explained;
    if p.awaiting {
      PayloadExplained(p, run, c);
    } else {
      HeaderExplained(p, c);
    }
  }

  lemma NothingYet(p: Parser)
    requires Ready(p, [])
    ensures Safe(p) && Within(p, []) && Feed(p, []) == p && Weave([], []) == []
  {
  }

  lemma FeedMore(p: Parser, cs: seq<Chunk>, c: Chunk)
    requires Safe(p) && Sized(cs) && |c| <= MAX_MSG
    ensures Sized(cs + [c]) && Feed(p, cs + [c]) == Step(Feed(p, cs), c)
  {
    hide Step, Safe, Feed;
    FeedOne(Feed(p, cs), c);
    FeedConcat(p, cs, [c]);
  }

  /** The receiving side on its static variables. */
  class UsbParser {
    const buffer: array<byte>
    var awaiting: bool
    var port: byte
    var payloadSize: nat
    var buffSize: nat
    var routed: seq<Message>

    ghost function Value(): Parser
      reads this, buffer
    {
      Parser(awaiting, buffer[..], port, payloadSize, buffSize, routed)
    }

    constructor ()
      ensures Ready(Value(), []) && fresh(buffer)
    {
      buffer := new byte[MAX_PAY];
      awaiting, port, payloadSize, buffSize, routed := false, 0, 0, 0, [];
    }

    /** process_db_usb_proto. */
    method Process(c: Chunk)
      requires Safe(Value()) && |c| <= MAX_MSG
      modifies this, buffer
      ensures Value() == Step(old(Value()), c) && Safe(Value())
    {
      hide Le16, Patch;
      if !awaiting && |c| >= HEADER {
        if c[0] == 0x44 && c[1] == 0x42 && c[2] == 1 {
          assert c[..3] == IDENT;
          port := c[3];
          payloadSize := Le16(c[4], c[5]);
          if payloadSize > MAX_PAY {
            return;
          }
          if |c| - HEADER == payloadSize {
            routed := routed + [Message(port, c[HEADER..])];
          } else {
            buffSize := buffSize + (|c| - HEADER);
            Copy(buffer, 0, c[HEADER..]);
            awaiting := true;
          }
        }
      } else if awaiting {
        if buffSize + |c| == payloadSize {
          Copy(buffer, buffSize, c);
          routed := routed + [Message(port, buffer[..payloadSize])];
          buffSize := 0;
          awaiting := false;
        } else if buffSize + |c| < payloadSize {
          Copy(buffer, buffSize, c);
          buffSize := buffSize + |c|;
        } else {
          awaiting := false;
          buffSize := 0;
        }
      }
    }
  }
}
