/** What a receiver learns from an action frame is what its sender put in. */
module FrameRoundTrip {
  import opened Machine
  import opened Wrappers
  import opened Wire
  import opened Sync
  import opened Schedule
  import opened FrameFormat
  import opened FrameTx
  import opened FrameRx
  import Election
  import Peers

  // ---- Elements in sequence ----

  /** The elements in order, up to the first that cannot be parsed. */
  function HearAll(w: World, now: U64, stack: Sequence, ts: seq<Tlv>): (World, Rx)
    decreases |ts|
  {
    if ts == [] then (w, Ok)
    else
      var (w', r) := Hear(w, now, stack, ts[0]);
      if r.Failed() then (w', UnexpectedFormat) else HearAll(w', now, stack, ts[1..])
  }

  ghost predicate Fit(ts: seq<Tlv>) { forall t <- ts :: |t.value| < 0x1_0000 }

  /** Reading bytes is hearing the elements they were written from. */
  lemma {:induction false} ListenHearsAll(w: World, now: U64, stack: Sequence, ts: seq<Tlv>)
    requires Fit(ts)
    ensures Listen(w, now, stack, Serialize(ts)) == HearAll(w, now, stack, ts)
    decreases |ts|
  {
    hide Hear, Encode, TlvAt, Listen;
    if ts == [] {
      ListenEmpty(w, now, stack);
    } else {
      var t, rest := ts[0], Serialize(ts[1..]);
      TlvRoundTrip(t, rest);
      ListenStep(w, now, stack, Encode(t) + rest, t);
      var (w', r) := Hear(w, now, stack, t);
      if !r.Failed() { ListenHearsAll(w', now, stack, ts[1..]); }
    }
  }

  lemma ListenEmpty(w: World, now: U64, stack: Sequence)
    ensures Listen(w, now, stack, []) == (w, Ok)
  {
  }

  lemma {:induction false} HearAppend(w: World, now: U64, stack: Sequence, xs: seq<Tlv>, ys: seq<Tlv>)
    ensures var (w', r) := HearAll(w, now, stack, xs);
            HearAll(w, now, stack, xs + ys) == if r == Ok then HearAll(w', now, stack, ys) else (w', r)
    decreases |xs|
  {
    hide Hear;
    if xs == [] {
      assert xs + ys == ys;
    } else {
      var (w', r) := Hear(w, now, stack, xs[0]);
      assert (xs + ys)[1..] == xs[1..] + ys;
      if !r.Failed() { HearAppend(w', now, stack, xs[1..], ys); }
    }
  }

  lemma FitWithout(xs: seq<Tlv>, t: Tlv, ys: seq<Tlv>)
    requires Fit(xs + [t] + ys)
    ensures Fit(xs + ys)
  {
    forall e <- xs + ys
      ensures e in xs + [t] + ys
    {
    }
  }

  lemma HearSkips(w: World, now: U64, stack: Sequence, t: Tlv, ys: seq<Tlv>)
    requires t.typ !in {SYNC_PARAMS, CHAN_SEQ, ELECTION, ELECTION_V2, ARPA, DATA_PATH_STATE, VERSION}
    ensures HearAll(w, now, stack, [t] + ys) == HearAll(w, now, stack, ys)
  {
    assert ([t] + ys)[1..] == ys;
    assert Hear(w, now, stack, t) == (w, Ignore);
  }

  /** Elements of types the receiver does not know, anywhere in a frame, make no difference. */
  lemma UnknownElementsIgnored(w: World, now: U64, stack: Sequence, xs: seq<Tlv>, t: Tlv, ys: seq<Tlv>)
    requires Fit(xs + [t] + ys)
    requires t.typ !in {SYNC_PARAMS, CHAN_SEQ, ELECTION, ELECTION_V2, ARPA, DATA_PATH_STATE, VERSION}
    ensures Listen(w, now, stack, Serialize(xs + [t] + ys)) == Listen(w, now, stack, Serialize(xs + ys))
  {
    hide HearAll, Listen, Serialize, Fit;
    FitWithout(xs, t, ys);
    ListenHearsAll(w, now, stack, xs + [t] + ys);
    ListenHearsAll(w, now, stack, xs + ys);
    assert xs + [t] + ys == xs + ([t] + ys);
    HearAppend(w, now, stack, xs, [t] + ys);
    HearAppend(w, now, stack, xs, ys);
    var (w', r) := HearAll(w, now, stack, xs);
    HearSkips(w', now, stack, t, ys);
  }

  // ---- Fields ----

  lemma Le16Is(v: Bytes, offset: nat, n: U16)
    requires offset + 2 <= |v| && v[offset..offset + 2] == Le(n, 2)
    ensures Le16At(v, offset) == Some(n)
  {
    Widths();
    LeInverse(n, 2);
  }

  lemma Le32Is(v: Bytes, offset: nat, n: U32)
    requires offset + 4 <= |v| && v[offset..offset + 4] == Le(n, 4)
    ensures Le32At(v, offset) == Some(n)
  {
    Widths();
    LeInverse(n, 4);
  }

  lemma AddrIs(v: Bytes, offset: nat, a: Addr)
    requires offset + 6 <= |v| && v[offset..offset + 6] == Be(a, 6)
    ensures AddrAt(v, offset) == Some(a)
  {
    Widths();
    BeInverse(a, 6);
  }

  // ---- Each element ----

  /** Version 2 replaces the whole record but the peer's own address, which no element carries. */
  lemma HearsV2(p: PeerInfo, s: Sender)
    ensures HearElectionParamsV2(p, ElectionParamsV2(s)) ==
            (p.(election := s.election.(selfAddr := p.election.selfAddr), supportsV2 := true), Ok)
  {
    hide Le, Be, Le32At, AddrAt;
    var v, e := ElectionParamsV2(s), s.election;
    assert v[0..6] == Be(e.masterAddr, 6);
    assert v[6..12] == Be(e.syncAddr, 6);
    assert v[12..16] == Le(e.masterCounter, 4);
    assert v[16..20] == Le(e.height, 4);
    assert v[20..24] == Le(e.masterMetric, 4);
    assert v[24..28] == Le(e.selfMetric, 4);
    assert v[36..40] == Le(e.selfCounter, 4);
    AddrIs(v, 0, e.masterAddr);
    AddrIs(v, 6, e.syncAddr);
    Le32Is(v, 12, e.masterCounter);
    Le32Is(v, 16, e.height);
    Le32Is(v, 20, e.masterMetric);
    Le32Is(v, 24, e.selfMetric);
    Le32Is(v, 36, e.selfCounter);
  }

  /** Version 1, for a peer that has not been heard with version 2: no counters, no parent, and the height modulo
      256. */
  lemma HearsV1(p: PeerInfo, s: Sender)
    ensures var (p', r) := HearElectionParams(p, ElectionParams(s));
            && r == Ok
            && p' == if p.supportsV2 then p else
                 p.(election := p.election.(
                      height := s.election.height % 256, masterAddr := s.election.masterAddr,
                      masterMetric := s.election.masterMetric, selfMetric := s.election.selfMetric))
  {
    hide Le, Be, Le32At, AddrAt;
    var v, e := ElectionParams(s), s.election;
    assert v[3] == e.height % 256;
    assert v[5..11] == Be(e.masterAddr, 6);
    assert v[11..15] == Le(e.masterMetric, 4);
    assert v[15..19] == Le(e.selfMetric, 4);
    AddrIs(v, 5, e.masterAddr);
    Le32Is(v, 11, e.masterMetric);
    Le32Is(v, 15, e.selfMetric);
  }

  lemma {:induction false} NoNul(name: Bytes)
    requires forall c <- name :: c != 0
    ensures UpToNul(name) == name
    decreases |name|
  {
    if name != [] {
      assert name[0] in name && forall c <- name[1..] :: c in name;
      NoNul(name[1..]);
      assert name == [name[0]] + name[1..];
    }
  }

  lemma HearsName(p: PeerInfo, s: Sender)
    ensures HearArpa(p, Arpa(s)) == (p.(name := s.name), Ok)
  {
    hide Be;
    var v := Arpa(s);
    assert v[1] == |s.name| && v[2..2 + |s.name|] == s.name;
    NoNul(s.name);
  }

  lemma HearsDataPathState(p: PeerInfo, s: Sender)
    ensures HearDataPathState(p, DataPathState(s)) == (p.(country := [0x58, 0x30, 0]), Ok)
  {
    hide Le, Be, Le16At, AddrAt;
    var v := DataPathState(s);
    assert v[0..2] == Le(0x8f24, 2);
    assert v[2..5] == [0x58, 0x30, 0];
    Le16Is(v, 0, 0x8f24);
  }

  /** A channel comes over with the bytes its encoding has. */
  function ChanHeard(c: Chan, enc: U8, before: Chan): Chan {
    if EncodingOf(enc) == Simple then Chan(c.b0, before.b1) else c
  }

  function SequenceHeard(s: Sender, stack: Sequence): Sequence {
    seq(16, i requires 0 <= i < 16 => ChanHeard(s.sequence[i], s.enc, stack[i]))
  }

  lemma {:induction false} SequenceLength(s: seq<Chan>, enc: U8, size: nat)
    requires size == ChanSize(EncodingOf(enc))
    ensures |SequenceBytes(s, enc)| == size * |s|
    decreases |s|
  {
    if s != [] {
      SequenceLength(s[..|s| - 1], enc, size);
      assert size * |s| == size * (|s| - 1) + size;
    }
  }

  lemma {:induction false} SequenceAt(s: seq<Chan>, enc: U8, size: nat, i: nat)
    requires size == ChanSize(EncodingOf(enc)) && i < |s|
    ensures |SequenceBytes(s, enc)| == size * |s| && 0 <= size * i && size * i + size <= size * |s|
    ensures SequenceBytes(s, enc)[size * i..size * i + size] == ChanBytes(s[i], enc)
    decreases |s|
  {
    hide ChanBytes;
    var front := s[..|s| - 1];
    SequenceLength(s, enc, size);
    SequenceLength(front, enc, size);
    Multiples(size, i, |s|);
    if i < |s| - 1 {
      SequenceAt(front, enc, size, i);
      assert SequenceBytes(s, enc)[size * i..size * i + size] == SequenceBytes(front, enc)[size * i..size * i + size];
    } else {
      ChanLength(s[i], enc);
    }
  }

  lemma Multiples(size: nat, i: nat, n: nat)
    requires i < n
    ensures 0 <= size * i && size * i + size == size * (i + 1) <= size * n
  {
    assert size * n == size * (i + 1) + size * (n - i - 1);
  }

  lemma ChanLength(c: Chan, enc: U8)
    requires ChanSize(EncodingOf(enc)) > 0
    ensures |ChanBytes(c, enc)| == ChanSize(EncodingOf(enc))
  {
  }

  lemma ChanComesOver(s: Sender, stack: Sequence, v: Bytes, size: nat, i: nat)
    requires size == ChanSize(EncodingOf(s.enc)) && i < 16 && 6 + 16 * size <= |v|
    requires v[6..6 + 16 * size] == SequenceBytes(s.sequence, s.enc)
    ensures ChanRead(v, ChanOffset(i, size), size, stack[i]) == ChanHeard(s.sequence[i], s.enc, stack[i])
  {
    var b, o := SequenceBytes(s.sequence, s.enc), size * i;
    SequenceAt(s.sequence, s.enc, size, i);
    assert ChanOffset(i, size) == 6 + o && o + size <= 16 * size;
    hide SequenceBytes;
    assert b[o..o + size] == ChanBytes(s.sequence[i], s.enc);
    assert v[6 + o] == b[o] == b[o..o + size][0];
    if size == 2 { assert v[6 + o + 1] == b[o + 1] == b[o..o + size][1]; }
  }

  /** The sequence comes over unless its encoding is unknown, and then nothing is taken over. */
  lemma HearsChanseq(p: PeerInfo, stack: Sequence, s: Sender)
    ensures HearChanseq(p, stack, ChanseqPadded(s)) ==
            if EncodingOf(s.enc) == Unknown then (p, UnexpectedValue) else (p.(sequence := SequenceHeard(s, stack)), Ok)
  {
    hide SequenceBytes, ChanRead, ChanHeard;
    var v := ChanseqPadded(s);
    assert v[4..6] == [0xff, 0xff];
    var size := ChanSize(EncodingOf(s.enc));
    if size > 0 {
      SequenceLength(s.sequence, s.enc, size);
      assert v[6..6 + 16 * size] == SequenceBytes(s.sequence, s.enc);
      forall i | 0 <= i < 16
        ensures ChansRead(v, size, stack)[i] == SequenceHeard(s, stack)[i]
      {
        ChanComesOver(s, stack, v, size, i);
      }
      assert ChansRead(v, size, stack) == SequenceHeard(s, stack);
    }
  }

  /** The sync parent's counter and time to the next window set the receiver's clock, and are counted as an error
      if they are more than 3 time units from it. Other nodes' are ignored. */
  lemma HearsSyncParams(st: Station, src: Addr, s: Sender, txNow: U64, rxNow: U64)
    ensures var (st', r) := HearSyncParams(st, src, rxNow, SyncParams(s, txNow));
            var tu, aw := s.sync.NextAwTu(txNow), s.sync.CurrentAw(txNow);
            if st.syncAddr != src then r == Ignore && st' == st
            else && r == Ok && st'.syncAddr == st.syncAddr && st'.clock == st.clock.UpdateLast(rxNow, tu, aw)
                 && st'.measTotal == Wrap64(st.measTotal + 1)
                 && st'.measErr == if -3 <= st.clock.ErrorTu(rxNow, tu, aw) <= 3 then st.measErr
                   else Wrap64(st.measErr + 1)
  {
    hide Le, Be, Le16At, Chanseq, ChanNum, Remaining, Clock.UpdateLast, Clock.ErrorTu, Clock.NextAwTu, Clock.CurrentAw;
    var v, tu, aw := SyncParams(s, txNow), s.sync.NextAwTu(txNow), s.sync.CurrentAw(txNow);
    assert SyncTiming(s, txNow)[1..3] == Le(tu, 2);
    assert v[1..3] == SyncTiming(s, txNow)[1..3];
    assert v[29..31] == Le(aw, 2);
    Le16Is(v, 1, tu);
    Le16Is(v, 29, aw);
  }

  // ---- Whole frames ----

  /** The peer's record after a frame of the sender. */
  function Learned(p: PeerInfo, s: Sender, mif: bool, stack: Sequence): PeerInfo {
    PeerInfo(s.election.(selfAddr := p.election.selfAddr), SequenceHeard(s, stack), if mif then s.name else p.name,
             [0x58, 0x30, 0], p.infra, s.version, s.devclass, true, p.sentMif || mif)
  }

  lemma ElementsFit(s: Sender, now: U64, mif: bool)
    ensures Fit(Elements(s, now, mif))
  {
    hide SyncParams, ElectionParams, ElectionParamsV2, ChanseqPadded, ServiceParams, Arpa, DataPathState,
         HtCapabilities;
    assert Fit(Leading(s, now));
    assert Fit(Trailing(s, mif));
  }

  lemma HearCons(w: World, now: U64, stack: Sequence, t: Tlv, rest: seq<Tlv>)
    ensures var (w', r) := Hear(w, now, stack, t);
            HearAll(w, now, stack, [t] + rest) ==
              if r.Failed() then (w', UnexpectedFormat) else HearAll(w', now, stack, rest)
  {
    assert ([t] + rest)[1..] == rest;
  }

  lemma HearsLeading(w: World, s: Sender, txNow: U64, rxNow: U64, stack: Sequence)
    ensures var (w', r) := HearAll(w, rxNow, stack, Leading(s, txNow));
            var st := HearSyncParams(w.station, w.src, rxNow, SyncParams(s, txNow)).0;
            var e := s.election.(selfAddr := w.peer.election.selfAddr);
            if EncodingOf(s.enc) == Unknown then r == UnexpectedFormat
            else r == Ok && w' == World(
              w.src, w.peer.(election := e, sequence := SequenceHeard(s, stack), supportsV2 := true), st)
  {
    hide HearSyncParams, HearChanseq, HearElectionParams, HearElectionParamsV2, HearAll, SequenceHeard, EncodingOf;
    hide SyncParams, ElectionParams, ElectionParamsV2, ChanseqPadded, ServiceParams;
    var p0 := w.peer;
    var st := HearSyncParams(w.station, w.src, rxNow, SyncParams(s, txNow)).0;
    HearsSyncParams(w.station, w.src, s, txNow, rxNow);
    HearsV1(p0, s);
    var p1 := HearElectionParams(p0, ElectionParams(s)).0;
    HearsChanseq(p1, stack, s);
    var p2 := p1.(sequence := SequenceHeard(s, stack));
    HearsV2(p2, s);
    var t0, t1 := Tlv(SYNC_PARAMS, SyncParams(s, txNow)), Tlv(ELECTION, ElectionParams(s));
    var t2, t3 := Tlv(CHAN_SEQ, ChanseqPadded(s)), Tlv(ELECTION_V2, ElectionParamsV2(s));
    var t4 := Tlv(SERVICE_PARAMS, ServiceParams(s));
    HearCons(w, rxNow, stack, t0, [t1, t2, t3, t4]);
    HearCons(w.(station := st), rxNow, stack, t1, [t2, t3, t4]);
    HearCons(World(w.src, p1, st), rxNow, stack, t2, [t3, t4]);
    HearCons(World(w.src, p2, st), rxNow, stack, t3, [t4]);
    var w3 := World(w.src, HearElectionParamsV2(p2, ElectionParamsV2(s)).0, st);
    HearCons(w3, rxNow, stack, t4, []);
    HearNothing(w3, rxNow, stack);
    assert [t0, t1, t2, t3, t4] == [t0] + [t1, t2, t3, t4] && [t1, t2, t3, t4] == [t1] + [t2, t3, t4];
    assert [t2, t3, t4] == [t2] + [t3, t4] && [t3, t4] == [t3] + [t4] && [t4] == [t4] + [];
  }

  lemma HearNothing(w: World, now: U64, stack: Sequence)
    ensures HearAll(w, now, stack, []) == (w, Ok)
  {
  }

  lemma HearsTrailing(w: World, s: Sender, now: U64, stack: Sequence, mif: bool)
    ensures HearAll(w, now, stack, Trailing(s, mif)) ==
            (w.(peer := w.peer.(name := if mif then s.name else w.peer.name, country := [0x58, 0x30, 0],
                                version := s.version, devclass := s.devclass)), Ok)
  {
    hide HearArpa, HearDataPathState, HearAll, Arpa, DataPathState, HtCapabilities;
    var named := w.(peer := w.peer.(name := s.name));
    var t0, t1 := Tlv(HT_CAPABILITIES, HtCapabilities()), Tlv(ARPA, Arpa(s));
    var t2, t3 := Tlv(DATA_PATH_STATE, DataPathState(s)), Tlv(VERSION, [s.version, s.devclass]);
    HearsName(w.peer, s);
    HearCons(w, now, stack, t0, [t1, t2, t3]);
    HearCons(w, now, stack, t1, [t2, t3]);
    assert [t0, t1] + [t2, t3] == [t0] + [t1, t2, t3] && [t1, t2, t3] == [t1] + [t2, t3];
    var before := if mif then named else w;
    var placed := before.(peer := before.peer.(country := [0x58, 0x30, 0]));
    var after := placed.(peer := placed.peer.(version := s.version, devclass := s.devclass));
    HearsDataPathState(before.peer, s);
    HearCons(before, now, stack, t2, [t3]);
    HearCons(placed, now, stack, t3, []);
    HearNothing(after, now, stack);
    assert [] + [t2, t3] == [t2, t3] == [t2] + [t3] && [t3] == [t3] + [];
  }

  lemma HeaderIsParsed(mif: bool, steady: U32, rest: Bytes)
    ensures var b := ActionHeader(mif, steady) + rest; ParseActionHeader(b) == Some(mif) && b[16..] == rest
  {
    var h := ActionHeader(mif, steady);
    assert h[..6] == [127, 0x00, 0x17, 0xf2, 8, 0x10];
    assert (h + rest)[..6] == h[..6] && (h + rest)[6] == h[6];
  }

  /** A frame is accepted, down to its last byte, exactly when the sender's channel encoding is a known one. Then the
      peer's record is the sender's: all fields of its election state, with version 2 overriding version 1, its
      channel sequence, version and device class, and its name if the frame is a MIF; and the receiver's clock
      follows if the sender is its sync parent. */
  lemma ActionRoundTrip(w: World, s: Sender, steady: U32, txNow: U64, rxNow: U64, mif: bool, stack: Sequence)
    ensures var (w', r) := HearAction(w, rxNow, stack, ActionFrame(s, steady, txNow, mif));
            && (r == Ok <==> EncodingOf(s.enc) != Unknown)
            && (r == Ok ==> && w'.src == w.src && w'.peer == Learned(w.peer, s, mif, stack)
                            && w'.station == HearSyncParams(w.station, w.src, rxNow, SyncParams(s, txNow)).0)
  {
    hide Hear, HearAll, Listen, Leading, Trailing, Serialize, ActionHeader, HearSyncParams, SequenceHeard, EncodingOf,
         ParseActionHeader, Fit;
    var ts := Elements(s, txNow, mif);
    HeaderIsParsed(mif, steady, Serialize(ts));
    ElementsFit(s, txNow, mif);
    ListenHearsAll(w, rxNow, stack, ts);
    HearAppend(w, rxNow, stack, Leading(s, txNow), Trailing(s, mif));
    HearsLeading(w, s, txNow, rxNow, stack);
    HearsTrailing(HearAll(w, rxNow, stack, Leading(s, txNow)).0, s, rxNow, stack, mif);
  }

  /** With two-byte channels, a peer filed under the sender's own address has exactly the sender's election state
      and channel sequence, so that election and schedule see the neighbour as it is. */
  lemma ViewIsAccurate(w: World, s: Sender, steady: U32, txNow: U64, rxNow: U64, mif: bool, stack: Sequence)
    requires EncodingOf(s.enc) in {Legacy, OpClass} && w.peer.election.selfAddr == s.election.selfAddr
    ensures var (w', r) := HearAction(w, rxNow, stack, ActionFrame(s, steady, txNow, mif));
            && r == Ok && w'.peer.election == s.election && w'.peer.sequence == s.sequence
            && (mif ==> w'.peer.name == s.name && w'.peer.sentMif)
  {
    hide HearAction, ActionFrame, EncodingOf, HearSyncParams, SyncParams;
    ActionRoundTrip(w, s, steady, txNow, rxNow, mif, stack);
    assert SequenceHeard(s, stack) == s.sequence;
  }

  /** A frame heard from the sync parent the moment it was sent: at every instant before or after, the receiver is in
      the slot of its parent, except in the first `lag` < 1024 microseconds of the parent's windows. */
  lemma FrameLocksFollower(w: World, s: Sender, steady: U32, now: U64, mif: bool, stack: Sequence, t: int)
    requires EncodingOf(s.enc) != Unknown && s.sync.Valid() && w.station.syncAddr == w.src
    ensures var (w', r) := HearAction(w, now, stack, ActionFrame(s, steady, now, mif));
            var lag := s.sync.Phase(now) % 1024;
            && r == Ok
            && w'.station.clock.CurrentEaw(Wrap64(t)) ==
               if s.sync.Phase(t) >= lag then s.sync.CurrentEaw(Wrap64(t)) else (s.sync.Eaw(t) - 1) % 16384
  {
    hide HearAction, ActionFrame, EncodingOf, HearSyncParams, SyncParams, Clock.UpdateLast, Clock.CurrentEaw,
         Clock.Eaw, Clock.Phase;
    ActionRoundTrip(w, s, steady, now, now, mif, stack);
    HearsSyncParams(w.station, w.src, s, now, now);
    FollowerSlots(s.sync, now, t);
    NothingKept(w.station.clock, s.sync, now, s.sync.NextAwTu(now), s.sync.CurrentAw(now));
  }

  /** Following takes nothing over from the clock before. */
  lemma NothingKept(c: Clock, d: Clock, now: U64, timeToNext: U16, counter: U16)
    ensures c.UpdateLast(now, timeToNext, counter) == d.UpdateLast(now, timeToNext, counter)
  {
  }

  /** Version 1 and version 2 parameters may come in either order. */
  lemma ElectionOrderIrrelevant(w: World, now: U64, stack: Sequence, v1: Bytes, v2: Bytes)
    requires |v1| >= 19 && |v2| >= 40
    ensures var a, b := Tlv(ELECTION, v1), Tlv(ELECTION_V2, v2);
            HearAll(w, now, stack, [a, b]) == HearAll(w, now, stack, [b, a]) && HearAll(w, now, stack, [a, b]).1 == Ok
  {
    hide HearAll, Le32At, AddrAt, U8At;
    var a, b := Tlv(ELECTION, v1), Tlv(ELECTION_V2, v2);
    var wa, wb := Hear(w, now, stack, a).0, Hear(w, now, stack, b).0;
    var w' := Hear(wa, now, stack, b).0;
    assert wb == w' && Hear(wb, now, stack, a) == (w', Ok);
    HearCons(w, now, stack, a, [b]);
    HearCons(wa, now, stack, b, []);
    HearCons(w, now, stack, b, [a]);
    HearCons(wb, now, stack, a, []);
    HearNothing(w', now, stack);
    assert [a, b] == [a] + [b] && [b, a] == [b] + [a] && [b] == [b] + [] && [a] == [a] + [];
  }

  /** The receiver's record of the sender after its frame: made or refreshed, filled from the frame, and refreshed. */
  function Taken(b: Peers.Book, s: Sender, mif: bool, now: U64, stack: Sequence): Peers.Book {
    var known := Peers.Touched(b, s.self, now);
    Peers.Touched(known[s.self := known[s.self].(info := Learned(known[s.self].info, s, mif, stack))], s.self, now)
  }

  lemma TakenIsHeard(b: Peers.Book, st: Station, f: Peers.Filter, rssi: int, s: Sender, steady: U32,
                     txNow: U64, rxNow: U64, mif: bool, stack: Sequence)
    ensures var frame := ActionFrame(s, steady, txNow, mif);
            var (b', st', r) := Peers.HearFrom(b, st, f, rssi, s.self, rxNow, stack, frame);
            if !f.Admits(rssi, s.self in b) then r == IgnoreRssi && b' == b && st' == st
            else && (r == Ok <==> EncodingOf(s.enc) != Unknown)
                 && (r == Ok ==> && b' == Taken(b, s, mif, rxNow, stack)
                                 && st' == HearSyncParams(st, s.self, rxNow, SyncParams(s, txNow)).0)
  {
    hide HearBody, EncodingOf, Learned, HearSyncParams, SyncParams, Peers.Touched, ActionHeader, ParseActionHeader,
         Elements, Serialize;
    var known := Peers.Touched(b, s.self, rxNow);
    ActionRoundTrip(World(s.self, known[s.self].info, st), s, steady, txNow, rxNow, mif, stack);
    HeaderIsParsed(mif, steady, Serialize(Elements(s, txNow, mif)));
  }

  /** A node writes an action frame, and hands it over as a buffer to read from. */
  method Send(s: Sender, steady: U32, now: U64, mif: bool) returns (sent: Buf)
    ensures fresh(sent) && fresh(sent.data) && sent.Valid() && sent.Contents() == ActionFrame(s, steady, now, mif)
  {
    hide ActionFrame, Frame.Value, Frame.Header;
    ghost var bytes := ActionFrame(s, steady, now, mif);
    var frame := new Frame(65535);
    frame.InitFullActionFrame(s, steady, now, mif);
    assert [] + bytes == bytes;
    sent := new Buf(frame.data, 0, frame.ptr);
    assert sent.Contents() == bytes;
  }

  /** A frame written by one node into a buffer and read from it by another, into its peer table. If it is strong
      enough and memory does not run out, it is accepted exactly when the sender's channel encoding is known, the
      sender's record is then what the frame says, refreshed, the neighbour is announced exactly if that record has
      turned valid, and the receiver's clock is set if the sender is its sync parent. */
  method Deliver(s: Sender, steady: U32, txNow: U64, mif: bool, peers: Peers.PeerTable, f: Peers.Filter, rssi: int,
                 receiver: Receiver, rxNow: U64, stack: Sequence)
      returns (r: Rx, lasted: bool)
    requires peers.Valid()
    modifies receiver.sync, peers`log, peers`objs, peers.table, peers.table.data, peers.objs
    ensures lasted ==> && peers.Valid()
                       && peers.log == old(peers.log) + Peers.Turned(old(peers.Book()), peers.Book(), s.self)
    ensures lasted && f.Admits(rssi, s.self in old(peers.Book())) ==>
              && (r == Ok <==> EncodingOf(s.enc) != Unknown)
              && (r == Ok ==> && peers.Book() == Taken(old(peers.Book()), s, mif, rxNow, stack)
                              && receiver.Value() ==
                                 HearSyncParams(old(receiver.Value()), s.self, rxNow, SyncParams(s, txNow)).0)
    ensures lasted && !f.Admits(rssi, s.self in old(peers.Book())) ==>
              r == IgnoreRssi && peers.Book() == old(peers.Book())
  {
    hide ActionFrame, EncodingOf, Taken, HearSyncParams, SyncParams, Peers.HearFrom, Peers.Turned;
    hide Peers.PeerTable.Valid, Peers.PeerTable.Book, Receiver.Value, Buf.Contents;
    TakenIsHeard(peers.Book(), receiver.Value(), f, rssi, s, steady, txNow, rxNow, mif, stack);
    var buf := Send(s, steady, txNow, mif);
    r, lasted := peers.Receive(buf, rssi, f, s.self, rxNow, receiver, stack);
  }

  /** A first MIF makes the sender a valid neighbour at once, with exactly its election state and channel sequence,
      if it has a version and a device class and two-byte channels. */
  lemma FirstMifMakesNeighbour(b: Peers.Book, s: Sender, now: U64, stack: Sequence)
    requires s.self !in b && s.version != 0 && s.devclass != 0 && EncodingOf(s.enc) in {Legacy, OpClass}
    requires s.election.selfAddr == s.self
    ensures var r := Taken(b, s, true, now, stack)[s.self];
            && r.isValid && r.lastUpdate == now
            && r.info.election == s.election && r.info.sequence == s.sequence && r.info.name == s.name
  {
    assert SequenceHeard(s, stack) == s.sequence;
  }

  /** After a frame of the sender that was taken in: valid if and only if it was valid, or could be used by what it
      had sent before, or has a version and a device class, and this frame or one before it is a MIF. */
  lemma SenderBecomesNeighbour(b: Peers.Book, s: Sender, mif: bool, now: U64, stack: Sequence)
    ensures var i, r := Peers.Known(b, s.self), Taken(b, s, mif, now, stack)[s.self];
            && r.lastUpdate == now && (r.info.sentMif <==> i.sentMif || mif)
            && (r.isValid <==>
                || (s.self in b && b[s.self].isValid)
                || (i.sentMif && i.devclass != 0 && i.version != 0)
                || ((mif || i.sentMif) && s.version != 0 && s.devclass != 0))
  {
    hide SequenceHeard;
  }
}
