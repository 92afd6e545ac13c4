/** The bytes of action frames, field by field at their offsets: what the packed structures of the sources lay out, and
    what a reader takes from bytes of any origin. */
module FrameLayout {
  import opened Machine
  import opened Wrappers
  import opened Wire
  import opened Sync
  import opened Schedule
  import opened FrameFormat
  import opened FrameTx
  import opened FrameRx
  import FrameRoundTrip

  // ---- Fields ----

  /** A little-endian field of two bytes. */
  predicate Short(b: Bytes, o: nat, n: int) { o + 2 <= |b| && n == b[o] as int + 0x100 * b[o + 1] as int }

  /** One of four. */
  predicate Long(b: Bytes, o: nat, n: int) {
    && o + 4 <= |b|
    && n == b[o] as int + 0x100 * b[o + 1] as int + 0x1_0000 * b[o + 2] as int + 0x100_0000 * b[o + 3] as int
  }

  /** An address, its first byte the most significant. */
  predicate Address(b: Bytes, o: nat, a: int) {
    && o + 6 <= |b|
    && a == 0x100_0000_0000 * b[o] as int + 0x1_0000_0000 * b[o + 1] as int + 0x100_0000 * b[o + 2] as int
            + 0x1_0000 * b[o + 3] as int + 0x100 * b[o + 4] as int + b[o + 5] as int
  }

  lemma WritesShort(b: Bytes, o: nat, n: U16)
    requires o + 2 <= |b| && b[o..o + 2] == Le(n, 2)
    ensures Short(b, o, n)
  {
    assert Le(n, 2) == [n % 256] + ([n / 256 % 256] + []);
    assert b[o] == b[o..o + 2][0] && b[o + 1] == b[o..o + 2][1];
  }

  lemma WritesLong(b: Bytes, o: nat, n: U32)
    requires o + 4 <= |b| && b[o..o + 4] == Le(n, 4)
    ensures Long(b, o, n)
  {
    var f := b[o..o + 4];
    Widths();
    LeInverse(n, 4);
    FromLe4(f);
    assert b[o] == f[0] && b[o + 1] == f[1] && b[o + 2] == f[2] && b[o + 3] == f[3];
  }

  lemma {:induction false} FromBe6(f: Bytes)
    requires |f| == 6
    ensures Address(f, 0, FromBe(f))
  {
    assert f[..5][..4] == f[..4] && f[..4][..3] == f[..3] && f[..3][..2] == f[..2] && f[..2][..1] == f[..1];
    assert FromBe(f[..1]) == f[0] by { assert f[..1][..0] == []; }
    assert FromBe(f[..2]) == 256 * FromBe(f[..1]) + f[1];
    assert FromBe(f[..3]) == 256 * FromBe(f[..2]) + f[2];
    assert FromBe(f[..4]) == 256 * FromBe(f[..3]) + f[3];
    assert FromBe(f[..5]) == 256 * FromBe(f[..4]) + f[4];
  }

  lemma WritesAddress(b: Bytes, o: nat, a: Addr)
    requires o + 6 <= |b| && b[o..o + 6] == Be(a, 6)
    ensures Address(b, o, a)
  {
    var f := b[o..o + 6];
    Widths();
    BeInverse(a, 6);
    FromBe6(f);
    assert forall i | 0 <= i < 6 :: b[o + i] == f[i];
    assert b[o] == f[0] && b[o + 1] == f[1] && b[o + 2] == f[2] && b[o + 3] == f[3] && b[o + 4] == f[4];
  }

  // ---- What is written ----

  /** A channel's number, by the number of the encoding. */
  function Channel(c: Chan, enc: U8): int {
    if enc == 0 || enc == 3 then c.b0 else if enc == 1 then c.b1 else 0
  }

  /** The bytes of a channel. */
  function Width(enc: U8): nat { if enc == 0 then 1 else if enc == 1 || enc == 3 then 2 else 0 }

  /** A list of 16 channels from an offset on. */
  predicate Channels(b: Bytes, o: nat, enc: U8, s: Sequence) {
    && o + 6 + 16 * Width(enc) <= |b|
    && b[o] == 15 && b[o + 1] == enc && b[o + 2] == 0 && b[o + 3] == 3 && Short(b, o + 4, 0xffff)
    && forall i | 0 <= i < 16 :: ChannelAt(b, o + 6, i, enc, s[i])
  }

  predicate ChannelAt(b: Bytes, o: nat, i: nat, enc: U8, c: Chan)
    requires o + 16 * Width(enc) <= |b| && i < 16
  {
    && (enc == 0 ==> b[o + i] == c.b0)
    && (enc == 1 || enc == 3 ==> b[o + 2 * i] == c.b0 && b[o + 2 * i + 1] == c.b1)
  }

  lemma WritesChannels(b: Bytes, o: nat, s: Sender)
    requires o + |Chanseq(s)| <= |b| && b[o..o + |Chanseq(s)|] == Chanseq(s)
    ensures |Chanseq(s)| == 6 + 16 * Width(s.enc) && Channels(b, o, s.enc, s.sequence)
  {
    var c, list, n := Chanseq(s), SequenceBytes(s.sequence, s.enc), Width(s.enc);
    SequenceWidth(s.sequence, s.enc);
    hide SequenceBytes;
    assert c[6..] == list;
    var slice := b[o..o + |c|];
    assert forall i | 0 <= i < |slice| :: slice[i] == b[o + i];
    assert b[o + 0] == c[0] && b[o + 1] == c[1] && b[o + 2] == c[2] && b[o + 3] == c[3];
    assert b[o + 4] == c[4] && b[o + 5] == c[5];
    assert b[o + 6..][..16 * n] == list by { assert b[o + 6..][..16 * n] == slice[6..]; }
    forall i | 0 <= i < 16
      ensures ChannelAt(b, o + 6, i, s.enc, s.sequence[i])
    {
      WritesChannel(b[o + 6..], s, i);
    }
  }

  lemma WritesChannel(b: Bytes, s: Sender, i: nat)
    requires |SequenceBytes(s.sequence, s.enc)| == 16 * Width(s.enc) <= |b| && i < 16
    requires b[..16 * Width(s.enc)] == SequenceBytes(s.sequence, s.enc)
    ensures ChannelAt(b, 0, i, s.enc, s.sequence[i])
  {
    var list, n := SequenceBytes(s.sequence, s.enc), Width(s.enc);
    if n > 0 { FrameRoundTrip.SequenceAt(s.sequence, s.enc, n, i); }
    hide SequenceBytes;
    if n == 1 {
      assert b[i] == list[i] == list[1 * i..1 * i + 1][0];
    } else if n == 2 {
      var two := list[2 * i..2 * i + 2];
      assert b[2 * i] == list[2 * i] == two[0] && b[2 * i + 1] == list[2 * i + 1] == two[1];
    }
  }

  lemma {:induction false} SequenceWidth(s: seq<Chan>, enc: U8)
    ensures |SequenceBytes(s, enc)| == Width(enc) * |s|
    decreases |s|
  {
    if s != [] { SequenceWidth(s[..|s| - 1], enc); }
  }

  /** The synchronisation parameters, `tu` time units into a window: 33 bytes of fields, among them the time to the
      next window, what is left of the first 16 units, and the window counter twice; the sequence; and two zeros. */
  lemma SyncParamsLayout(s: Sender, now: U64)
    ensures var v, tu := SyncParams(s, now), s.sync.Phase(now) / 1024;
            var counter := (s.sync.awCounter + (now - s.sync.lastUpdate) / 16384) % 65536;
            && |v| == 33 + 6 + 16 * Width(s.enc) + 2
            && v[0] == Channel(s.current, s.enc) && Short(v, 1, 64 - tu)
            && v[3] == Channel(s.master, s.enc) && v[4] == 0
            && Short(v, 5, 16) && Short(v, 7, s.psfInterval) && Short(v, 9, 0x1800)
            && Short(v, 11, 16) && Short(v, 13, 16) && Short(v, 15, if tu < 16 then 16 - tu else 0)
            && v[17] == v[18] == v[19] == v[20] == 3 && Address(v, 21, s.election.masterAddr)
            && v[27] == 4 && v[28] == 0 && Short(v, 29, counter) && Short(v, 31, counter)
            && Channels(v, 33, s.enc, s.sequence) && v[|v| - 2] == v[|v| - 1] == 0
  {
    var v, t, m, c := SyncParams(s, now), SyncTiming(s, now), Middle(s, now), Chanseq(s);
    SyncParts(s, now);
    RemainingIs(s, now);
    TimingLayout(s, now);
    MiddleLayout(s, now);
    WrapSmall(now);
    NextAwExact(s.sync, now);
    hide *;
    Shorts(t, v, 0);
    assert v[0] == v[0..17][0] && v[3] == v[0..17][3] && v[4] == v[0..17][4];
    Shorts(m, v, 17);
    AddressInside(m, v, 17, 4, s.election.masterAddr);
    assert v[17] == m[0] && v[18] == m[1] && v[19] == m[2] && v[20] == m[3];
    assert v[27] == m[10] && v[28] == m[11];
    WritesChannels(v, 33, s);
    assert v[|v| - 2] == v[33 + |c|..][0] && v[|v| - 1] == v[33 + |c|..][1];
  }

  function Middle(s: Sender, now: U64): Bytes {
    [3, 3, 3, 3] + Be(s.election.masterAddr, 6) + [4, 0] + Le(s.sync.CurrentAw(now), 2) + Le(s.sync.CurrentAw(now), 2)
  }

  lemma SyncParts(s: Sender, now: U64)
    ensures var v, c := SyncParams(s, now), Chanseq(s);
            && |v| == 33 + |c| + 2 && v[0..17] == SyncTiming(s, now) && |Middle(s, now)| == 16
            && v[17..33] == Middle(s, now) && v[33..33 + |c|] == c && v[33 + |c|..] == [0, 0]
  {
    hide SyncTiming, Chanseq, Le, Be, Clock.CurrentAw;
  }

  lemma MiddleLayout(s: Sender, now: U64)
    ensures var m, counter := Middle(s, now), (s.sync.awCounter + (now - s.sync.lastUpdate) / 16384) % 65536;
            && |m| == 16 && m[0] == m[1] == m[2] == m[3] == 3 && Address(m, 4, s.election.masterAddr)
            && m[10] == 4 && m[11] == 0 && Short(m, 12, counter) && Short(m, 14, counter)
  {
    var m := Middle(s, now);
    WrapSmall(now);
    CurrentAwExact(s.sync, now);
    hide Le, Be, Clock.CurrentAw, Short, Address;
    assert m[4..10] == Be(s.election.masterAddr, 6) && m[12..14] == Le(s.sync.CurrentAw(now), 2) == m[14..16];
    WritesAddress(m, 4, s.election.masterAddr);
    WritesShort(m, 12, s.sync.CurrentAw(now));
    WritesShort(m, 14, s.sync.CurrentAw(now));
  }

  lemma Shorts(t: Bytes, v: Bytes, at: nat)
    requires at + |t| <= |v| && v[at..at + |t|] == t
    ensures forall o: nat, n | Short(t, o, n) :: Short(v, at + o, n)
  {
    forall o: nat, n | Short(t, o, n)
      ensures Short(v, at + o, n)
    {
      assert v[at + o] == v[at..at + |t|][o] && v[at + o + 1] == v[at..at + |t|][o + 1];
    }
  }

  lemma AddressInside(t: Bytes, v: Bytes, at: nat, o: nat, a: Addr)
    requires at + |t| <= |v| && v[at..at + |t|] == t && Address(t, o, a)
    ensures Address(v, at + o, a)
  {
    assert forall i | 0 <= i < |t| :: t[i] == v[at + i];
  }

  lemma RemainingIs(s: Sender, now: U64)
    ensures var tu := s.sync.Phase(now) / 1024; Remaining(s, now) == if tu < 16 then 16 - tu else 0
  {
    hide Clock.Phase, Clock.NextAwTu, Wrap64;
    WrapSmall(now);
    NextAwExact(s.sync, now);
  }

  lemma TimingParts(s: Sender, now: U64)
    ensures var t := SyncTiming(s, now);
            && t[0] == Channel(s.current, s.enc) && t[3] == Channel(s.master, s.enc) && t[4] == 0
            && t[1..3] == Le(s.sync.NextAwTu(now), 2) && t[5..7] == Le(16, 2) && t[7..9] == Le(s.psfInterval, 2)
            && t[9..11] == Le(0x1800, 2) && t[11..13] == Le(16, 2) && t[13..15] == Le(16, 2)
            && t[15..17] == Le(Remaining(s, now), 2)
  {
    hide Le, Clock.NextAwTu, Remaining;
  }

  lemma TimingLayout(s: Sender, now: U64)
    ensures var t := SyncTiming(s, now);
            && t[0] == Channel(s.current, s.enc) && Short(t, 1, s.sync.NextAwTu(now))
            && t[3] == Channel(s.master, s.enc) && t[4] == 0
            && Short(t, 5, 16) && Short(t, 7, s.psfInterval) && Short(t, 9, 0x1800)
            && Short(t, 11, 16) && Short(t, 13, 16) && Short(t, 15, Remaining(s, now))
  {
    var t := SyncTiming(s, now);
    TimingParts(s, now);
    hide *;
    WritesShort(t, 1, s.sync.NextAwTu(now));
    WritesShort(t, 5, 16);
    WritesShort(t, 7, s.psfInterval);
    WritesShort(t, 9, 0x1800);
    WritesShort(t, 11, 16);
    WritesShort(t, 13, 16);
    WritesShort(t, 15, Remaining(s, now));
  }

  lemma ChanseqLayout(s: Sender)
    ensures var v := ChanseqPadded(s);
            |v| == 6 + 16 * Width(s.enc) + 3 && Channels(v, 0, s.enc, s.sequence)
            && v[|v| - 3] == v[|v| - 2] == v[|v| - 1] == 0
  {
    hide Chanseq, Channels;
    var v, c := ChanseqPadded(s), Chanseq(s);
    assert v[0..0 + |c|] == c && v[|c|..] == [0, 0, 0];
    WritesChannels(v, 0, s);
    assert v[|v| - 3] == v[|c|..][0] && v[|v| - 2] == v[|c|..][1] && v[|v| - 1] == v[|c|..][2];
  }

  lemma ElectionLayout(s: Sender)
    ensures var v, e := ElectionParams(s), s.election;
            && |v| == 21 && v[0] == 0 && Short(v, 1, 0) && v[3] == e.height % 256 && v[4] == 0
            && Address(v, 5, e.masterAddr) && Long(v, 11, e.masterMetric) && Long(v, 15, e.selfMetric)
            && v[19] == v[20] == 0
  {
    hide Le, Be, Short, Long, Address;
    var v, e := ElectionParams(s), s.election;
    assert v[1..3] == Le(0, 2) && v[5..11] == Be(e.masterAddr, 6);
    assert v[11..15] == Le(e.masterMetric, 4) && v[15..19] == Le(e.selfMetric, 4);
    WritesShort(v, 1, 0);
    WritesAddress(v, 5, e.masterAddr);
    WritesLong(v, 11, e.masterMetric);
    WritesLong(v, 15, e.selfMetric);
  }

  lemma ElectionV2Layout(s: Sender)
    ensures var v, e := ElectionParamsV2(s), s.election;
            && |v| == 40 && Address(v, 0, e.masterAddr) && Address(v, 6, e.syncAddr) && Long(v, 12, e.masterCounter)
            && Long(v, 16, e.height) && Long(v, 20, e.masterMetric) && Long(v, 24, e.selfMetric)
            && Long(v, 28, 0) && Long(v, 32, 0) && Long(v, 36, e.selfCounter)
  {
    ElectionV2Slices(s);
    hide *;
    var v, e := ElectionParamsV2(s), s.election;
    WritesAddress(v, 0, e.masterAddr);
    WritesAddress(v, 6, e.syncAddr);
    WritesLong(v, 12, e.masterCounter);
    WritesLong(v, 16, e.height);
    WritesLong(v, 20, e.masterMetric);
    WritesLong(v, 24, e.selfMetric);
    WritesLong(v, 28, 0);
    WritesLong(v, 32, 0);
    WritesLong(v, 36, e.selfCounter);
  }

  lemma ElectionV2Slices(s: Sender)
    ensures var v, e := ElectionParamsV2(s), s.election;
            && v[0..6] == Be(e.masterAddr, 6) && v[6..12] == Be(e.syncAddr, 6) && v[12..16] == Le(e.masterCounter, 4)
            && v[16..20] == Le(e.height, 4) && v[20..24] == Le(e.masterMetric, 4) && v[24..28] == Le(e.selfMetric, 4)
            && v[28..32] == Le(0, 4) == v[32..36] && v[36..40] == Le(e.selfCounter, 4)
  {
    hide Le, Be;
  }

  lemma FixedLayout(s: Sender)
    ensures var v, w := ServiceParams(s), HtCapabilities();
            && |v| == 9 && v[0] == v[1] == v[2] == 0 && Short(v, 3, s.sui) && Long(v, 5, 0)
            && |w| == 8 && Short(w, 0, 0) && Short(w, 2, 0x11ce) && w[4] == 0x1b && w[5] == 0xff && Short(w, 6, 0)
  {
    hide Le, Short, Long;
    var v, w := ServiceParams(s), HtCapabilities();
    assert v[3..5] == Le(s.sui, 2) && v[5..9] == Le(0, 4);
    WritesShort(v, 3, s.sui);
    WritesLong(v, 5, 0);
    assert w[0..2] == Le(0, 2) == w[6..8] && w[2..4] == Le(0x11ce, 2);
    WritesShort(w, 0, 0);
    WritesShort(w, 2, 0x11ce);
    WritesShort(w, 6, 0);
  }

  /** The name, with its length before it and the suffix 0xc00c behind it, most significant byte first. */
  lemma NameLayout(s: Sender)
    ensures var v, n := Arpa(s), |s.name|;
            |v| == n + 4 && v[0] == 3 && v[1] == n && v[2..2 + n] == s.name && v[2 + n] == 0xc0 && v[3 + n] == 0x0c
  {
    var v, n := Arpa(s), |s.name|;
    assert Be(0xc00c, 2) == ([] + [0xc0]) + [0x0c];
    assert v[2 + n..] == [0xc0, 0x0c];
    assert v[2 + n] == v[2 + n..][0] && v[3 + n] == v[2 + n..][1];
  }

  /** The data path state, with one bit for the social channel that the master channel is: 6, 44, or 149 for any
      other. */
  lemma PathLayout(s: Sender)
    ensures var v := DataPathState(s);
            && |v| == 15 && Short(v, 0, 0x8f24) && v[2] == 'X' as int && v[3] == '0' as int && v[4] == 0
            && Short(v, 5, if s.master.b0 == 6 then 0x1 else if s.master.b0 == 44 then 0x2 else 0x4)
            && Address(v, 7, s.self) && Short(v, 13, 0)
  {
    hide Le, Be, Short, Address;
    var v := DataPathState(s);
    assert v[0..2] == Le(0x8f24, 2) && v[5..7] == Le(SocialBit(s), 2) && v[7..13] == Be(s.self, 6);
    assert v[13..15] == Le(0, 2);
    WritesShort(v, 0, 0x8f24);
    WritesShort(v, 5, SocialBit(s));
    WritesAddress(v, 7, s.self);
    WritesShort(v, 13, 0);
  }

  lemma HeaderLayout(mif: bool, steady: U32)
    ensures var h := ActionHeader(mif, steady);
            && |h| == 16 && h[..6] == [127, 0x00, 0x17, 0xf2, 8, 0x10] && h[6] == (if mif then 3 else 0) && h[7] == 0
            && Long(h, 8, steady) && Long(h, 12, steady)
  {
    hide Le;
    var h := ActionHeader(mif, steady);
    assert h[8..12] == Le(steady, 4) == h[12..16];
    WritesLong(h, 8, steady);
    WritesLong(h, 12, steady);
  }

  /** An element at an offset: type, length, value. */
  predicate ElementAt(b: Bytes, o: nat, typ: int, v: Bytes) {
    && o + 3 + |v| <= |b|
    && b[o] == typ && Short(b, o + 1, |v|) && b[o + 3..o + 3 + |v|] == v
  }

  /** The elements from an offset on, one right after the other, up to the last byte. */
  predicate ElementsFrom(b: Bytes, o: nat, ts: seq<(int, Bytes)>)
    decreases |ts|
  {
    if ts == [] then o == |b|
    else ElementAt(b, o, ts[0].0, ts[0].1) && ElementsFrom(b, o + 3 + |ts[0].1|, ts[1..])
  }

  /** The types of the elements of a frame and their order. */
  function Numbered(s: Sender, now: U64, mif: bool): seq<(int, Bytes)> {
    [ (4, SyncParams(s, now)), (5, ElectionParams(s)), (18, ChanseqPadded(s)), (24, ElectionParamsV2(s)),
      (6, ServiceParams(s)) ]
    + (if mif then [(7, HtCapabilities()), (16, Arpa(s))] else [])
    + [(12, DataPathState(s)), (21, [s.version, s.devclass])]
  }

  /** What stands between two parts of a slice. */
  lemma Between(b: Bytes, o: nat, before: Bytes, f: Bytes, after: Bytes)
    requires o + |before + f + after| <= |b| && b[o..o + |before + f + after|] == before + f + after
    ensures b[o + |before|..o + |before| + |f|] == f
  {
    var slice := b[o..o + |before + f + after|];
    assert slice[|before|..|before| + |f|] == f;
    assert forall i | 0 <= i < |slice| :: slice[i] == b[o + i];
  }

  lemma WritesElement(b: Bytes, o: nat, t: Tlv)
    requires o + |Encode(t)| <= |b| && b[o..o + |Encode(t)|] == Encode(t) && |t.value| < 0x1_0000
    ensures ElementAt(b, o, t.typ, t.value)
  {
    var n := Le(|t.value|, 2);
    hide Le, Short;
    var e := Encode(t);
    Between(b, o, [t.typ], n, t.value);
    Between(b, o, [t.typ] + n, t.value, []);
    assert e == [t.typ] + n + t.value + [];
    assert b[o] == b[o..o + |e|][0];
    WritesShort(b, o + 1, |t.value|);
  }

  lemma OneElement(before: Bytes, t: Tlv, more: Bytes)
    requires |t.value| < 0x1_0000
    ensures ElementAt(before + Encode(t) + more, |before|, t.typ, t.value) && |Encode(t)| == 3 + |t.value|
  {
    assert |Encode(t)| == 3 + |t.value|;
    hide Encode, ElementAt;
    assert (before + Encode(t) + more)[|before|..|before| + |Encode(t)|] == Encode(t);
    WritesElement(before + Encode(t) + more, |before|, t);
  }

  predicate SameElements(ts: seq<Tlv>, ns: seq<(int, Bytes)>)
    decreases |ts|
  {
    if ts == [] then ns == []
    else
      && ns != [] && ns[0] == (ts[0].typ, ts[0].value) && |ts[0].value| < 0x1_0000
      && SameElements(ts[1..], ns[1..])
  }

  lemma {:induction false} SerializedAt(before: Bytes, ts: seq<Tlv>, ns: seq<(int, Bytes)>)
    requires SameElements(ts, ns)
    ensures ElementsFrom(before + Serialize(ts), |before|, ns)
    decreases |ts|
  {
    hide ElementAt, Encode;
    if ts == [] {
      assert before + [] == before;
    } else {
      var e, more := Encode(ts[0]), Serialize(ts[1..]);
      SerializedAt(before + e, ts[1..], ns[1..]);
      OneElement(before, ts[0], more);
      assert before + (e + more) == before + e + more;
    }
  }

  lemma ElementsNumbered(s: Sender, now: U64, mif: bool)
    ensures SameElements(Elements(s, now, mif), Numbered(s, now, mif))
  {
    hide SyncParams, ElectionParams, ElectionParamsV2, ChanseqPadded, ServiceParams, Arpa, DataPathState;
    hide HtCapabilities, SameElements;
    TrailingNumbered(s, mif);
    var t, n := Leading(s, now), Numbered(s, now, mif)[..5];
    FiveSame(t[0], t[1], t[2], t[3], t[4]);
    assert t == [t[0], t[1], t[2], t[3], t[4]];
    assert n == [(t[0].typ, t[0].value), (t[1].typ, t[1].value), (t[2].typ, t[2].value), (t[3].typ, t[3].value),
                 (t[4].typ, t[4].value)];
    SameConcat(t, n, Trailing(s, mif), TrailingPairs(s, mif));
    assert Numbered(s, now, mif) == n + TrailingPairs(s, mif);
  }

  lemma FiveSame(a: Tlv, b: Tlv, c: Tlv, d: Tlv, e: Tlv)
    requires |a.value| < 0x1_0000 && |b.value| < 0x1_0000 && |c.value| < 0x1_0000 && |d.value| < 0x1_0000
    requires |e.value| < 0x1_0000
    ensures SameElements([a, b, c, d, e], [(a.typ, a.value), (b.typ, b.value), (c.typ, c.value), (d.typ, d.value),
                                           (e.typ, e.value)])
  {
    var m, n, o, p, q := (a.typ, a.value), (b.typ, b.value), (c.typ, c.value), (d.typ, d.value), (e.typ, e.value);
    ThreeSame(c, d, e);
    hide SameElements;
    Longer(b, n, [c, d, e], [o, p, q]);
    assert [b] + [c, d, e] == [b, c, d, e] && [n] + [o, p, q] == [n, o, p, q];
    Longer(a, m, [b, c, d, e], [n, o, p, q]);
    assert [a] + [b, c, d, e] == [a, b, c, d, e] && [m] + [n, o, p, q] == [m, n, o, p, q];
  }

  lemma ThreeSame(c: Tlv, d: Tlv, e: Tlv)
    requires |c.value| < 0x1_0000 && |d.value| < 0x1_0000 && |e.value| < 0x1_0000
    ensures SameElements([c, d, e], [(c.typ, c.value), (d.typ, d.value), (e.typ, e.value)])
  {
    var o, p, q := (c.typ, c.value), (d.typ, d.value), (e.typ, e.value);
    assert SameElements([], []);
    hide SameElements;
    Longer(e, q, [], []);
    assert [e] + [] == [e] && [q] + [] == [q];
    Longer(d, p, [e], [q]);
    assert [d] + [e] == [d, e] && [p] + [q] == [p, q];
    Longer(c, o, [d, e], [p, q]);
    assert [c] + [d, e] == [c, d, e] && [o] + [p, q] == [o, p, q];
  }

  lemma {:induction false} SameConcat(xs: seq<Tlv>, ms: seq<(int, Bytes)>, ts: seq<Tlv>, ns: seq<(int, Bytes)>)
    requires SameElements(xs, ms) && SameElements(ts, ns)
    ensures SameElements(xs + ts, ms + ns)
    decreases |xs|
  {
    if xs == [] {
      assert xs + ts == ts && ms + ns == ns;
    } else {
      assert (xs + ts)[1..] == xs[1..] + ts && (ms + ns)[1..] == ms[1..] + ns;
      SameConcat(xs[1..], ms[1..], ts, ns);
    }
  }

  function TrailingPairs(s: Sender, mif: bool): seq<(int, Bytes)> {
    (if mif then [(7, HtCapabilities()), (16, Arpa(s))] else [])
    + [(12, DataPathState(s)), (21, [s.version, s.devclass])]
  }

  lemma TrailingNumbered(s: Sender, mif: bool)
    ensures SameElements(Trailing(s, mif), TrailingPairs(s, mif))
  {
    hide Arpa, DataPathState, HtCapabilities;
    var path, version := DataPathState(s), [s.version, s.devclass];
    assert SameElements([], []);
    hide SameElements;
    Longer(Tlv(21, version), (21, version), [], []);
    var t, n: (int, Bytes) := Tlv(12, path), (12, path);
    Longer(t, n, [Tlv(21, version)] + [], [(21, version)] + []);
    var ts, ns := [t] + ([Tlv(21, version)] + []), [n] + ([(21, version)] + []);
    assert ts == [t, Tlv(21, version)] && ns == [n, (21, version)];
    if mif {
      var caps, name := HtCapabilities(), Arpa(s);
      Longer(Tlv(16, name), (16, name), ts, ns);
      Longer(Tlv(7, caps), (7, caps), [Tlv(16, name)] + ts, [(16, name)] + ns);
      assert [Tlv(7, caps)] + ([Tlv(16, name)] + ts) == Trailing(s, mif);
      assert [(7, caps)] + ([(16, name)] + ns) == TrailingPairs(s, mif);
    } else {
      assert ts == Trailing(s, mif) && ns == TrailingPairs(s, mif);
    }
  }

  lemma Longer(t: Tlv, n: (int, Bytes), ts: seq<Tlv>, ns: seq<(int, Bytes)>)
    requires n == (t.typ, t.value) && |t.value| < 0x1_0000 && SameElements(ts, ns)
    ensures SameElements([t] + ts, [n] + ns)
  {
    assert ([t] + ts)[1..] == ts && ([n] + ns)[1..] == ns;
  }

  /** A whole frame: the header, and these elements and nothing else behind it. */
  lemma FrameIs(s: Sender, steady: U32, now: U64, mif: bool)
    ensures var b := ActionFrame(s, steady, now, mif);
            && |b| >= 16 && b[..16] == ActionHeader(mif, steady) && ElementsFrom(b, 16, Numbered(s, now, mif))
  {
    hide SyncParams, ElectionParams, ElectionParamsV2, ChanseqPadded, ServiceParams, Arpa, DataPathState;
    hide HtCapabilities, Serialize, ActionHeader, Elements, Numbered, ElementsFrom, SameElements;
    var b, ts := ActionFrame(s, steady, now, mif), Elements(s, now, mif);
    ElementsNumbered(s, now, mif);
    SerializedAt(ActionHeader(mif, steady), ts, Numbered(s, now, mif));
  }

  // ---- What is read ----

  lemma ReadsShort(b: Bytes, o: nat)
    ensures Le16At(b, o).Some? <==> o + 2 <= |b|
    ensures o + 2 <= |b| ==> Short(b, o, Le16At(b, o).value)
  {
    if o + 2 <= |b| {
      FromLe2(b[o..o + 2]);
      assert b[o..o + 2][0] == b[o] && b[o..o + 2][1] == b[o + 1];
    }
  }

  lemma ReadsLong(b: Bytes, o: nat)
    ensures Le32At(b, o).Some? <==> o + 4 <= |b|
    ensures o + 4 <= |b| ==> Long(b, o, Le32At(b, o).value)
  {
    if o + 4 <= |b| {
      var f := b[o..o + 4];
      FromLe4(f);
      assert f[0] == b[o] && f[1] == b[o + 1] && f[2] == b[o + 2] && f[3] == b[o + 3];
    }
  }

  lemma ReadsAddress(b: Bytes, o: nat)
    ensures AddrAt(b, o).Some? <==> o + 6 <= |b|
    ensures o + 6 <= |b| ==> Address(b, o, AddrAt(b, o).value)
  {
    if o + 6 <= |b| {
      var f := b[o..o + 6];
      FromBe6(f);
      assert forall i | 0 <= i < 6 :: f[i] == b[o + i];
      assert f[0] == b[o] && f[1] == b[o + 1] && f[2] == b[o + 2] && f[3] == b[o + 3] && f[4] == b[o + 4];
    }
  }

  /** Of version 1 parameters, from a peer that is not known to support version 2, each field counts whose last byte is
      there, and no other changes. */
  lemma ElectionRead(p: PeerInfo, b: Bytes)
    ensures var (p', r) := HearElectionParams(p, b);
            if p.supportsV2 then p' == p && r == Ok
            else var e, d, n := p'.election, p.election, |b|;
                 && (r == Ok <==> n >= 19) && (r == TooShort <==> n < 19)
                 && p' == p.(election := e) && e == d.(height := e.height, masterAddr := e.masterAddr,
                                                       masterMetric := e.masterMetric, selfMetric := e.selfMetric)
                 && (if n >= 4 then e.height == b[3] else e.height == d.height)
                 && (if n >= 11 then Address(b, 5, e.masterAddr) else e.masterAddr == d.masterAddr)
                 && (if n >= 15 then Long(b, 11, e.masterMetric) else e.masterMetric == d.masterMetric)
                 && (if n >= 19 then Long(b, 15, e.selfMetric) else e.selfMetric == d.selfMetric)
  {
    hide Le32At, AddrAt, Address, Long;
    ReadsAddress(b, 5);
    ReadsLong(b, 11);
    ReadsLong(b, 15);
  }

  /** Of version 2 parameters nothing counts unless the first 20 bytes are there, and the peer counts as supporting
      version 2 once all 40 were. */
  lemma ElectionV2Read(p: PeerInfo, b: Bytes)
    ensures var (p', r) := HearElectionParamsV2(p, b);
            var e, d, n := p'.election, p.election, |b|;
            && (r == Ok <==> n >= 40) && (r == TooShort <==> n < 40)
            && p' == p.(election := e, supportsV2 := p.supportsV2 || n >= 40) && e.selfAddr == d.selfAddr
            && (if n < 20 then e == d
                else && Address(b, 0, e.masterAddr) && Address(b, 6, e.syncAddr)
                     && Long(b, 12, e.masterCounter) && Long(b, 16, e.height))
            && (if n >= 24 then Long(b, 20, e.masterMetric) else e.masterMetric == d.masterMetric)
            && (if n >= 28 then Long(b, 24, e.selfMetric) else e.selfMetric == d.selfMetric)
            && (if n >= 40 then Long(b, 36, e.selfCounter) else e.selfCounter == d.selfCounter)
  {
    hide Le32At, AddrAt, Address, Long;
    ReadsAddress(b, 0);
    ReadsAddress(b, 6);
    ReadsLong(b, 12);
    ReadsLong(b, 16);
    ReadsLong(b, 20);
    ReadsLong(b, 24);
    ReadsLong(b, 36);
  }

  /** A channel sequence is taken over, whole, if and only if it announces 16 channels without duplicates in steps of 4
      with fill 0xffff, in a known encoding, and all 16 are there. The second byte of a channel that has one byte is
      what the local list held. */
  lemma ChanseqRead(p: PeerInfo, stack: Sequence, b: Bytes)
    ensures var (p', r) := HearChanseq(p, stack, b);
            var ok := && |b| >= 6 && b[0] == 15 && b[2] == 0 && b[3] == 3 && b[4] == b[5] == 0xff
                      && b[1] in {0, 1, 3} && |b| >= (if b[1] == 0 then 22 else 38);
            && (r == Ok <==> ok) && (!ok ==> r.Failed() && p' == p)
            && (ok ==> && p' == p.(sequence := p'.sequence) && Channels(b, 0, b[1], p'.sequence)
                       && (b[1] == 0 ==> forall i | 0 <= i < 16 :: p'.sequence[i].b1 == stack[i].b1))
  {
    hide Short;
    if |b| >= 6 {
      assert b[4..6] == [b[4], b[5]];
      assert b[4..6] == [0xff, 0xff] ==> Short(b, 4, 0xffff) by { ShortIs(b, 4); }
    }
  }

  lemma ShortIs(b: Bytes, o: nat)
    requires o + 2 <= |b|
    ensures b[o] == b[o + 1] == 0xff ==> Short(b, o, 0xffff)
  {
  }

  /** The sync parent's time to the next window and its counter are the fields at 1 and 29, if all up to there is
      there. */
  lemma SyncParamsRead(st: Station, src: Addr, now: U64, b: Bytes)
    ensures var (st', r) := HearSyncParams(st, src, now, b);
            if st.syncAddr != src then r == Ignore && st' == st
            else if |b| < 31 then r == TooShort && st' == st
            else && r == Ok && st'.syncAddr == st.syncAddr
                 && exists tu: U16, counter: U16 :: Short(b, 1, tu) && Short(b, 29, counter)
                                                    && st'.clock == st.clock.UpdateLast(now, tu, counter)
  {
    hide Short, Le16At, Clock.UpdateLast, Clock.ErrorTu;
    ReadsShort(b, 1);
    ReadsShort(b, 29);
  }

  /** A name is what stands before the first zero of the bytes its length announces, of which 64 count at most. */
  lemma NameRead(p: PeerInfo, b: Bytes)
    ensures var (p', r) := HearArpa(p, b);
            if |b| < 2 || |b| < 2 + (if b[1] < 64 then b[1] else 64) then r == TooShort && p' == p
            else var n, k := (if b[1] < 64 then b[1] else 64), |p'.name|;
                 && r == Ok && p' == p.(name := p'.name)
                 && k <= n && p'.name == b[2..2 + k] && 0 !in p'.name && (k < n ==> b[2 + k] == 0)
  {
    hide UpToNul;
    if |b| >= 2 {
      var n: nat := if b[1] < 64 then b[1] else 64;
      if |b| >= 2 + n {
        var t := b[2..2 + n];
        FirstNul(t);
        var k := |UpToNul(t)|;
        assert t[..k] == b[2..2 + k];
        if k < n { assert t[k] == b[2 + k]; }
      }
    }
  }

  lemma {:induction false} FirstNul(t: Bytes)
    ensures var k := |UpToNul(t)|;
            k <= |t| && UpToNul(t) == t[..k] && 0 !in UpToNul(t) && (k < |t| ==> t[k] == 0)
    decreases |t|
  {
    if t != [] && t[0] != 0 {
      assert UpToNul(t) == [t[0]] + UpToNul(t[1..]);
      FirstNul(t[1..]);
      var k := |UpToNul(t[1..])|;
      assert t[..k + 1] == [t[0]] + t[1..][..k];
    }
  }

  /** The fields of the data path state that its flags announce, in this order. */
  datatype Path = Path(country: Option<Bytes>, social: Option<U16>, network: Option<(Addr, U16)>, infra: Option<Addr>,
                       awdl: Option<Addr>)

  /** The flag of each field. */
  predicate Announces(flags: U16, f: Path) {
    && (flags / 0x100 % 2 == 1 <==> f.country.Some?) && (flags / 0x200 % 2 == 1 <==> f.social.Some?)
    && (flags / 0x1 % 2 == 1 <==> f.network.Some?) && (flags / 0x2 % 2 == 1 <==> f.infra.Some?)
    && (flags / 0x4 % 2 == 1 <==> f.awdl.Some?) && (f.country.Some? ==> |f.country.value| == 3)
  }

  function UpToInfra(flags: U16, f: Path): Bytes {
    Le(flags, 2) + (if f.country.Some? then f.country.value else [])
    + (if f.social.Some? then Le(f.social.value, 2) else [])
    + (if f.network.Some? then Be(f.network.value.0, 6) + Le(f.network.value.1, 2) else [])
  }

  function AddressBytes(a: Option<Addr>): Bytes { if a.Some? then Be(a.value, 6) else [] }

  function PathBytes(flags: U16, f: Path): Bytes {
    UpToInfra(flags, f) + AddressBytes(f.infra) + AddressBytes(f.awdl)
  }

  /** With any of the fields there or not, and cut anywhere or followed by anything: the country and the infrastructure
      address come over if all their bytes are there, and the element is too short if any announced byte is missing. */
  lemma PathRead(p: PeerInfo, flags: U16, f: Path, n: nat, rest: Bytes)
    requires Announces(flags, f) && n <= |PathBytes(flags, f) + rest|
    ensures var (p', r) := HearDataPathState(p, (PathBytes(flags, f) + rest)[..n]);
            && r == (if n < |PathBytes(flags, f)| then TooShort else Ok)
            && p' == p.(country := if f.country.Some? && n >= 5 then f.country.value else p.country,
                        infra := if f.infra.Some? && n >= |UpToInfra(flags, f)| + 6 then f.infra else p.infra)
  {
    PathFlags(flags, f, n, rest);
    PathInfra(flags, f, n, rest);
    PathLength(flags, f);
    hide *;
    PathMeaning(p, (PathBytes(flags, f) + rest)[..n], flags, f, |UpToInfra(flags, f)|, |PathBytes(flags, f)|);
  }

  lemma PathMeaning(p: PeerInfo, b: Bytes, flags: U16, f: Path, infra: nat, end: nat)
    requires Announces(flags, f)
    requires end == infra + (if f.infra.Some? then 6 else 0) + (if f.awdl.Some? then 6 else 0)
    requires infra == 2 + (if f.country.Some? then 3 else 0) + (if f.social.Some? then 2 else 0)
                      + (if f.network.Some? then 8 else 0)
    requires Le16At(b, 0) == if |b| < 2 then None else Some(flags)
    requires |b| >= 5 && f.country.Some? ==> BytesAt(b, 2, 3) == f.country
    requires f.infra.Some? && |b| >= infra + 6 ==> AddrAt(b, infra) == f.infra
    ensures var (p', r) := HearDataPathState(p, b);
            && r == (if |b| < end then TooShort else Ok)
            && p' == p.(country := if f.country.Some? && |b| >= 5 then f.country.value else p.country,
                        infra := if f.infra.Some? && |b| >= infra + 6 then f.infra else p.infra)
  {
    hide Le16At, AddrAt, BytesAt;
  }

  lemma PathLength(flags: U16, f: Path)
    requires Announces(flags, f)
    ensures |PathBytes(flags, f)| ==
            |UpToInfra(flags, f)| + (if f.infra.Some? then 6 else 0) + (if f.awdl.Some? then 6 else 0)
    ensures |UpToInfra(flags, f)| == 2 + (if f.country.Some? then 3 else 0) + (if f.social.Some? then 2 else 0)
                                     + (if f.network.Some? then 8 else 0)
  {
    hide Le, Be;
  }

  lemma PathFlags(flags: U16, f: Path, n: nat, rest: Bytes)
    requires Announces(flags, f) && n <= |PathBytes(flags, f) + rest|
    ensures var b := (PathBytes(flags, f) + rest)[..n];
            && Le16At(b, 0) == (if n < 2 then None else Some(flags))
            && (n >= 5 && f.country.Some? ==> BytesAt(b, 2, 3) == f.country)
  {
    hide Le, Be, Le16At;
    var b, whole := (PathBytes(flags, f) + rest)[..n], PathBytes(flags, f) + rest;
    ReadsShort(b, 0);
    var country := if f.country.Some? then f.country.value else [];
    PathStarts(flags, f, rest, country);
    if n >= 2 {
      Cut(whole, n, 0, 2);
      FrameRoundTrip.Le16Is(b, 0, flags);
    }
    if n >= 5 && f.country.Some? { Cut(whole, n, 2, 5); }
  }

  lemma PathStarts(flags: U16, f: Path, rest: Bytes, country: Bytes)
    requires country == if f.country.Some? then f.country.value else []
    ensures var whole := PathBytes(flags, f) + rest;
            |whole| >= 2 + |country| && whole[0..2] == Le(flags, 2) && whole[2..2 + |country|] == country
  {
    hide Le, Be, AddressBytes;
    var more := (if f.social.Some? then Le(f.social.value, 2) else [])
      + (if f.network.Some? then Be(f.network.value.0, 6) + Le(f.network.value.1, 2) else []);
    assert UpToInfra(flags, f) == Le(flags, 2) + country + more;
    hide UpToInfra;
    var tail := AddressBytes(f.infra) + AddressBytes(f.awdl) + rest;
    assert PathBytes(flags, f) + rest == Le(flags, 2) + country + (more + tail);
  }

  lemma Cut(whole: Bytes, n: nat, from: nat, to: nat)
    requires from <= to <= n <= |whole|
    ensures whole[..n][from..to] == whole[from..to]
  {
  }

  lemma PathInfra(flags: U16, f: Path, n: nat, rest: Bytes)
    requires Announces(flags, f) && n <= |PathBytes(flags, f) + rest|
    ensures var b, u := (PathBytes(flags, f) + rest)[..n], |UpToInfra(flags, f)|;
            f.infra.Some? && n >= u + 6 ==> AddrAt(b, u) == f.infra
  {
    hide Le, Be, AddrAt, UpToInfra;
    var u, whole := UpToInfra(flags, f), PathBytes(flags, f) + rest;
    if f.infra.Some? && n >= |u| + 6 {
      var a := Be(f.infra.value, 6);
      assert whole == u + a + (AddressBytes(f.awdl) + rest);
      Cut(whole, n, |u|, |u| + 6);
      FrameRoundTrip.AddrIs(whole[..n], |u|, f.infra.value);
    }
  }

  /** A header is accepted if and only if it is that of a vendor-specific action frame with this OUI, type 8, version
      1.0, and subtype 0 or 3, which is a MIF. */
  lemma HeaderRead(b: Bytes)
    ensures ParseActionHeader(b).Some? <==>
              && |b| >= 16 && b[0] == 127 && b[1] == 0 && b[2] == 0x17 && b[3] == 0xf2 && b[4] == 8 && b[5] == 0x10
              && b[6] in {0, 3}
    ensures ParseActionHeader(b) == Some(true) ==> b[6] == 3
    ensures ParseActionHeader(b) == Some(false) ==> b[6] == 0
  {
    if |b| >= 16 { assert b[..6] == [b[0], b[1], b[2], b[3], b[4], b[5]]; }
  }

  // ---- Frames that end badly ----

  /** Bytes behind the last element that are no element make the frame one of unexpected format, though its elements
      have been taken in. */
  lemma {:induction false} LeftoverRejected(w: World, now: U64, stack: Sequence, ts: seq<Tlv>, rest: Bytes)
    requires FrameRoundTrip.Fit(ts) && rest != []
    requires |rest| < 3 || |rest| < 3 + rest[1] as int + 0x100 * rest[2] as int
    ensures var w' := FrameRoundTrip.HearAll(w, now, stack, ts).0;
            Listen(w, now, stack, Serialize(ts) + rest) == (w', UnexpectedFormat)
    decreases |ts|
  {
    hide Hear, Encode, TlvAt, Listen;
    if ts == [] {
      assert Serialize(ts) + rest == rest;
      NoElement(rest);
      ListenEnd(w, now, stack, rest);
    } else {
      var t, more := ts[0], Serialize(ts[1..]) + rest;
      TlvRoundTrip(t, more);
      assert Serialize(ts) + rest == Encode(t) + more;
      ListenStep(w, now, stack, Encode(t) + more, t);
      var (w', r) := Hear(w, now, stack, t);
      if !r.Failed() { LeftoverRejected(w', now, stack, ts[1..], rest); }
    }
  }

  lemma NoElement(b: Bytes)
    requires |b| < 3 || |b| < 3 + b[1] as int + 0x100 * b[2] as int
    ensures TlvAt(b, 0) == None
  {
    hide Le16At;
    ReadsShort(b, 1);
  }

  /** An element that its handler refuses ends the frame, whatever follows it. */
  lemma RefusalEnds(w: World, now: U64, stack: Sequence, xs: seq<Tlv>, t: Tlv, ys: seq<Tlv>)
    requires FrameRoundTrip.Fit(xs + [t] + ys)
    requires var (w', r) := FrameRoundTrip.HearAll(w, now, stack, xs); r == Ok && Hear(w', now, stack, t).1.Failed()
    ensures Listen(w, now, stack, Serialize(xs + [t] + ys)) ==
            (Hear(FrameRoundTrip.HearAll(w, now, stack, xs).0, now, stack, t).0, UnexpectedFormat)
  {
    hide Listen, Serialize, Hear, FrameRoundTrip.HearAll;
    FrameRoundTrip.ListenHearsAll(w, now, stack, xs + [t] + ys);
    FrameRoundTrip.HearAppend(w, now, stack, xs, [t] + ys);
    assert xs + [t] + ys == xs + ([t] + ys);
    FrameRoundTrip.HearCons(FrameRoundTrip.HearAll(w, now, stack, xs).0, now, stack, t, ys);
  }
}
