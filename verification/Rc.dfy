/** The DroneBridge RC message: twelve 10-bit channels in fifteen bytes, and a CRC. */
module Rc {
  import opened Gf256
  import opened Crc
  import opened LinAlg

  type word = bv16

  /** DB_RC_NUM_CHANNELS of the NUM_CHANNELS joystick channels are sent. */
  const CHANNELS := 12

  const PACKED := 15

  /** What the ground side makes of a channel: limited to 1000..2000, then moved to 0..1000. */
  function Clamped(c: word): (r: word)
    ensures r <= 1000
  {
    if c < 1000 then 0 else if c > 2000 then 1000 else c - 1000
  }

  // ---------- packing four channels ----------

  function Pack4(a: word, b: word, c: word, d: word): (s: seq<byte>)
    ensures |s| == 5
  {
    [(a & 0xFF) as byte,
     (((a & 0x0300) >> 8) | ((b & 0x3F) << 2)) as byte,
     (((b & 0x03C0) >> 6) | ((c & 0x0F) << 4)) as byte,
     (((c & 0x03F0) >> 4) | ((d & 0x03) << 6)) as byte,
     ((d & 0x03FC) >> 2) as byte]
  }

  function Unpack4(s: seq<byte>): (r: seq<word>)
    requires |s| == 5
    ensures |r| == 4
  {
    [(s[0] as word) | (((s[1] & 0x03) as word) << 8),
     (((s[1] & 0xFC) >> 2) as word) | (((s[2] & 0x0F) as word) << 6),
     (((s[2] & 0xF0) >> 4) as word) | (((s[3] & 0x3F) as word) << 4),
     (((s[3] & 0xC0) >> 6) as word) | ((s[4] as word) << 2)]
  }

  lemma UnpackPack(a: word, b: word, c: word, d: word)
    requires a < 1024 && b < 1024 && c < 1024 && d < 1024
    ensures Unpack4(Pack4(a, b, c, d)) == [a, b, c, d]
  {
  }

  /** Read as one number, low byte first, the five bytes hold the channels in ten bits each, the first one lowest. */
  lemma PackedBits(a: word, b: word, c: word, d: word)
    requires a < 1024 && b < 1024 && c < 1024 && d < 1024
    ensures var s := Pack4(a, b, c, d);
            (s[0] as bv40) | ((s[1] as bv40) << 8) | ((s[2] as bv40) << 16) | ((s[3] as bv40) << 24) | ((s[4] as bv40) << 32)
            == (a as bv40) | ((b as bv40) << 10) | ((c as bv40) << 20) | ((d as bv40) << 30)
  {
  }

  lemma PackUnpack(s: seq<byte>)
    requires |s| == 5
    ensures var u := Unpack4(s); Pack4(u[0], u[1], u[2], u[3]) == s
  {
  }

  // ---------- the whole message ----------

  function Packed(ch: seq<word>): (s: seq<byte>)
    requires |ch| == CHANNELS
    ensures |s| == PACKED
  {
    Pack4(ch[0], ch[1], ch[2], ch[3]) + Pack4(ch[4], ch[5], ch[6], ch[7]) + Pack4(ch[8], ch[9], ch[10], ch[11])
  }

  function Unpacked(s: seq<byte>): (ch: seq<word>)
    requires |s| == PACKED
    ensures |ch| == CHANNELS
  {
    Unpack4(s[..5]) + Unpack4(s[5..10]) + Unpack4(s[10..])
  }

  lemma PackedRoundTrip(ch: seq<word>)
    requires |ch| == CHANNELS && forall i :: 0 <= i < CHANNELS ==> ch[i] < 1024
    ensures Unpacked(Packed(ch)) == ch
  {
    hide Pack4, Unpack4;
    UnpackPack(ch[0], ch[1], ch[2], ch[3]);
    UnpackPack(ch[4], ch[5], ch[6], ch[7]);
    UnpackPack(ch[8], ch[9], ch[10], ch[11]);
    var s := Packed(ch);
    assert s[..5] == Pack4(ch[0], ch[1], ch[2], ch[3]);
    assert s[5..10] == Pack4(ch[4], ch[5], ch[6], ch[7]);
    assert s[10..] == Pack4(ch[8], ch[9], ch[10], ch[11]);
    assert ch == [ch[0], ch[1], ch[2], ch[3]] + [ch[4], ch[5], ch[6], ch[7]] + [ch[8], ch[9], ch[10], ch[11]];
  }

  lemma UnpackedInjective(s: seq<byte>, t: seq<byte>)
    requires |s| == |t| == PACKED && Unpacked(s) == Unpacked(t)
    ensures s == t
  {
    hide Pack4, Unpack4;
    PackUnpack(s[..5]);
    PackUnpack(s[5..10]);
    PackUnpack(s[10..]);
    PackUnpack(t[..5]);
    PackUnpack(t[5..10]);
    PackUnpack(t[10..]);
    var u, v := Unpacked(s), Unpacked(t);
    assert u[..4] == Unpack4(s[..5]) && u[4..8] == Unpack4(s[5..10]) && u[8..] == Unpack4(s[10..]);
    assert v[..4] == Unpack4(t[..5]) && v[4..8] == Unpack4(t[5..10]) && v[8..] == Unpack4(t[10..]);
    assert s == s[..5] + s[5..10] + s[10..] && t == t[..5] + t[5..10] + t[10..];
  }

  function Checksum(s: seq<byte>): byte { Fold(DB_RC, 0, s) }

  /** The checksum of a bytewise sum is the sum of the checksums, so the register starts at zero. */
  lemma ChecksumAdds(s: seq<byte>, t: seq<byte>)
    requires |s| == |t|
    ensures Checksum(Plus(s, t)) == Add(Checksum(s), Checksum(t))
  {
    hide Fold, Add;
    AddSelf(0);
    FoldAdds(DB_RC, 0, 0, s, t);
  }

  lemma ChecksumOfZeros(n: nat)
    ensures Checksum(Zeros(n)) == 0
  {
    hide Fold;
    FoldOfZeros(DB_RC, n);
  }

  /** With all channels at their lowest value every byte of the message is zero. */
  lemma LowestMessage()
    ensures Message(Lowest()) == Zeros(16)
  {
    hide Fold, Checksum;
    assert Packed(Lowest()) == Zeros(15);
    ChecksumOfZeros(15);
  }

  function Lowest(): seq<word> { [0, 0, 0, 0, 0, 0, 0, 0, 0, 0, 0, 0] }

  /** The sixteen bytes of a message. */
  function Message(ch: seq<word>): (m: seq<byte>)
    requires |ch| == CHANNELS
    ensures |m| == PACKED + 1
  {
    Packed(ch) + [Checksum(Packed(ch))]
  }

  predicate Accepted(m: seq<byte>)
    requires |m| == PACKED + 1
  {
    Checksum(m[..PACKED]) == m[PACKED]
  }

  /** Every channel the ground side was given, limited to 1000..2000. */
  function Limited(c: word): word
  {
    if c < 1000 then 1000 else if c > 2000 then 2000 else c
  }

  ghost function Prepared(ch: seq<word>): (r: seq<word>)
    requires |ch| >= CHANNELS
    ensures |r| == CHANNELS && forall i :: 0 <= i < CHANNELS ==> r[i] == Clamped(ch[i])
  {
    seq(CHANNELS, i requires 0 <= i < CHANNELS => Clamped(ch[i]))
  }

  ghost function Raised(ch: seq<word>): (r: seq<word>)
    ensures |r| == |ch| && forall i :: 0 <= i < |ch| ==> r[i] == ch[i] + 1000
  {
    seq(|ch|, i requires 0 <= i < |ch| => ch[i] + 1000)
  }

  lemma ClampedRaised(c: word)
    ensures Clamped(c) + 1000 == Limited(c) && Clamped(c) < 1024
  {
  }

  /** Round trip: a message is accepted, and unpacks to every channel limited to 1000..2000. */
  lemma RoundTrip(ch: seq<word>)
    requires |ch| >= CHANNELS
    ensures var m := Message(Prepared(ch));
            && Accepted(m)
            && forall i :: 0 <= i < CHANNELS ==> Raised(Unpacked(m[..PACKED]))[i] == Limited(ch[i])
  {
    hide Packed, Unpacked, Clamped, Limited;
    var p := Prepared(ch);
    forall i | 0 <= i < CHANNELS
      ensures p[i] < 1024 && p[i] + 1000 == Limited(ch[i])
    {
      ClampedRaised(ch[i]);
    }
    PackedRoundTrip(p);
    assert Message(p)[..PACKED] == Packed(p);
  }

  /** A message in which one byte was changed is accepted exactly when it is one of the
      packed bytes and the difference is the blind one. */
  lemma OneByteChanged(m: seq<byte>, i: nat, b: byte)
    requires |m| == PACKED + 1 && Accepted(m) && i <= PACKED && b != m[i]
    ensures Accepted(m[i := b]) <==> i < PACKED && Add(b, m[i]) == BLIND
  {
    hide Fold, Add;
    var p := m[..PACKED];
    if i < PACKED {
      RcDetects(0, p, i, b);
      assert m[i := b][..PACKED] == p[i := b];
    } else {
      assert m[i := b][..PACKED] == p;
    }
  }

  /** An accepted change is not harmless: some channel differs. */
  lemma BlindChange(m: seq<byte>, i: nat)
    requires |m| == PACKED + 1 && Accepted(m) && i < PACKED
    ensures var n := m[i := Add(m[i], BLIND)];
            Accepted(n) && Unpacked(n[..PACKED]) != Unpacked(m[..PACKED])
  {
    hide Fold, Unpacked;
    var b := Add(m[i], BLIND);
    BlindDiffers(m[i]);
    OneByteChanged(m, i, b);
    var n := m[i := b];
    assert n[..PACKED][i] != m[..PACKED][i];
    if Unpacked(n[..PACKED]) == Unpacked(m[..PACKED]) {
      UnpackedInjective(n[..PACKED], m[..PACKED]);
    }
  }

  lemma BlindDiffers(x: byte)
    ensures Add(x, BLIND) != x && Add(Add(x, BLIND), x) == BLIND
  {
  }

  // ---------- ground side ----------

  /** generate_db_rc_message: limits the channels in place and fills the frame. */
  method GenerateDbRcMessage(channels: array<word>, bytes: array<byte>)
    requires channels.Length >= CHANNELS && bytes.Length > PACKED
    requires channels as object != bytes as object
    modifies channels, bytes
    ensures channels[..CHANNELS] == Prepared(old(channels[..]))
    ensures channels[CHANNELS..] == old(channels[CHANNELS..])
    ensures bytes[..PACKED + 1] == Message(Prepared(old(channels[..])))
    ensures bytes[PACKED + 1..] == old(bytes[PACKED + 1..])
  {
    hide Packed, Pack4, Fold, DbRcTable, Add, Bits;
    LimitChannels(channels);
    var ch := channels[..CHANNELS];
    Fill4(bytes, 0, ch[0], ch[1], ch[2], ch[3]);
    Fill4(bytes, 5, ch[4], ch[5], ch[6], ch[7]);
    Fill4(bytes, 10, ch[8], ch[9], ch[10], ch[11]);
    ThreeGroups(bytes[..PACKED], ch);
    var crc := CrcOf(bytes);
    bytes[PACKED] := crc;
    assert bytes[..PACKED + 1] == bytes[..PACKED] + [bytes[PACKED]];
  }

  lemma ThreeGroups(s: seq<byte>, ch: seq<word>)
    requires |s| == PACKED && |ch| == CHANNELS
    requires s[..5] == Pack4(ch[0], ch[1], ch[2], ch[3]) && s[5..10] == Pack4(ch[4], ch[5], ch[6], ch[7])
    requires s[10..] == Pack4(ch[8], ch[9], ch[10], ch[11])
    ensures s == Packed(ch)
  {
    hide Pack4;
    assert s == s[..5] + s[5..10] + s[10..];
  }

  method LimitChannels(channels: array<word>)
    requires channels.Length >= CHANNELS
    modifies channels
    ensures channels[..CHANNELS] == Prepared(old(channels[..]))
    ensures channels[CHANNELS..] == old(channels[CHANNELS..])
  {
    for i := 0 to CHANNELS
      invariant forall h :: 0 <= h < i ==> channels[h] == Clamped(old(channels[h]))
      invariant forall h :: i <= h < channels.Length ==> channels[h] == old(channels[h])
    {
      if channels[i] < 1000 {
        channels[i] := 1000;
      } else if channels[i] > 2000 {
        channels[i] := 2000;
      }
      channels[i] := channels[i] - 1000;
    }
  }

  /** Four channels into five bytes. */
  method Fill4(bytes: array<byte>, at: nat, a: word, b: word, c: word, d: word)
    requires at + 5 <= bytes.Length
    modifies bytes
    ensures bytes[at..at + 5] == Pack4(a, b, c, d)
    ensures forall h :: 0 <= h < bytes.Length && !(at <= h < at + 5) ==> bytes[h] == old(bytes[h])
  {
    hide Pack4;
    var s := Pack4(a, b, c, d);
    bytes[at], bytes[at + 1], bytes[at + 2], bytes[at + 3], bytes[at + 4] := s[0], s[1], s[2], s[3], s[4];
  }

  /** The checksum loop of both sides. */
  method CrcOf(bytes: array<byte>) returns (crc: byte)
    requires bytes.Length >= PACKED
    ensures crc == Checksum(bytes[..PACKED])
  {
    hide DbRcTable, Bits, Add;
    crc := 0;
    for i := 0 to PACKED
      invariant crc == Checksum(bytes[..i])
    {
      assert bytes[..i + 1][..i] == bytes[..i];
      crc := DbRcTable(crc, bytes[i]) & 0xff;
    }
  }

  // ---------- air side ----------

  class RcAir {
    const rcChannels: array<word>

    constructor ()
      ensures rcChannels.Length == CHANNELS && fresh(rcChannels)
    {
      rcChannels := new word[CHANNELS];
    }

    /** deserialize_db_rc_protocol: the channels change only if the checksum is right. */
    method Deserialize(message: array<byte>) returns (r: int)
      requires message.Length > PACKED && rcChannels.Length == CHANNELS
      modifies rcChannels
      ensures r == if Accepted(message[..PACKED + 1]) then 1 else -1
      ensures rcChannels[..] == if r == 1 then Unpacked(message[..PACKED]) else old(rcChannels[..])
    {
      hide Fold, Unpacked, Unpack4;
      var crc := CrcOf(message);
      assert message[..PACKED + 1][..PACKED] == message[..PACKED];
      if crc != message[PACKED] {
        return -1;
      }
      Load4(0, message[..5]);
      Load4(4, message[5..10]);
      Load4(8, message[10..PACKED]);
      GroupsUnpacked(message[..PACKED], message[..5], message[5..10], message[10..PACKED]);
      assert rcChannels[..] == rcChannels[..4] + rcChannels[4..8] + rcChannels[8..12];
      return 1;
    }

    /** Four channels out of five bytes. */
    method Load4(at: nat, s: seq<byte>)
      requires at + 4 <= rcChannels.Length && |s| == 5
      modifies rcChannels
      ensures rcChannels[at..at + 4] == Unpack4(s)
      ensures forall h :: 0 <= h < rcChannels.Length && !(at <= h < at + 4) ==> rcChannels[h] == old(rcChannels[h])
    {
      hide Unpack4;
      var ch := Unpack4(s);
      rcChannels[at], rcChannels[at + 1], rcChannels[at + 2], rcChannels[at + 3] := ch[0], ch[1], ch[2], ch[3];
    }

    /** The first part of generate_rc_serial_message: add 1000 to every channel. */
    method Receive(message: array<byte>) returns (ok: bool)
      requires message.Length > PACKED && rcChannels.Length == CHANNELS
      modifies rcChannels
      ensures ok <==> Accepted(message[..PACKED + 1])
      ensures rcChannels[..] == if ok then Raised(Unpacked(message[..PACKED])) else old(rcChannels[..])
    {
      hide Fold, Unpacked;
      var r := Deserialize(message);
      ok := r == 1;
      if ok {
        ghost var u := rcChannels[..];
        for i := 0 to CHANNELS
          invariant forall h :: 0 <= h < i ==> rcChannels[h] == u[h] + 1000
          invariant forall h :: i <= h < CHANNELS ==> rcChannels[h] == u[h]
        {
          rcChannels[i] := rcChannels[i] + 1000;
        }
        assert rcChannels[..] == Raised(u);
      }
    }
  }

  lemma GroupsUnpacked(s: seq<byte>, a: seq<byte>, b: seq<byte>, c: seq<byte>)
    requires |s| == PACKED && a == s[..5] && b == s[5..10] && c == s[10..]
    ensures Unpacked(s) == Unpack4(a) + Unpack4(b) + Unpack4(c)
  {
  }
}
