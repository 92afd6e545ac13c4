/** Channel schedules: when a node may transmit, and that a waiting unicast frame goes out. */
module Schedule {
  import opened Machine
  import opened Sync
  import opened Wrappers

  // ---- Channels ----

  /** The two bytes of an advertised channel. */
  datatype Chan = Chan(b0: U8, b1: U8)

  datatype Encoding = Simple | Legacy | OpClass | Unknown

  function ChanNum(c: Chan, enc: Encoding): U8 {
    match enc
    case Simple => c.b0
    case Legacy => c.b1
    case OpClass => c.b0
    case Unknown => 0
  }

  /** One channel for each of 16 slots. */
  type Sequence = s: seq<Chan> | |s| == 16 witness seq(16, i => Chan(0, 0))

  /** What the schedule functions read of a node's state. */
  datatype Radio = Radio(sync: Clock, enc: Encoding, sequence: Sequence, current: Chan) {
    predicate Valid() { sync.Valid() }
  }

  /** What they read of a peer's. */
  datatype Partner = Partner(sequence: Sequence, syncOffset: U64)

  const UNICAST_GUARD_TU: nat := 3
  const MULTICAST_GUARD_TU: nat := 16

  // ---- The decisions of the code; delays are in microseconds ----

  function Slot(r: Radio, now: U64): nat { r.sync.CurrentEaw(now) % 16 }

  predicate OnScheduledChannel(r: Radio, now: U64) {
    var planned := ChanNum(r.sequence[Slot(r, now)], r.enc);
    planned != 0 && planned == ChanNum(r.current, r.enc)
  }

  predicate SameChannelAsPeer(r: Radio, now: U64, p: Partner) {
    var own := ChanNum(r.sequence[Slot(r, now)], r.enc);
    var theirs := ChanNum(p.sequence[Slot(r, Wrap64(now + p.syncOffset))], r.enc);
    own != 0 && own == theirs
  }

  predicate IsMulticastSlot(slot: nat) { slot == 0 || slot == 8 || slot == 10 }

  /** Zero outside the guard intervals at both ends of a slot; else negative at the end, positive at the start. */
  function CanSendIn(r: Radio, now: U64, guardTu: nat): int {
    var nextAw, guard := r.sync.NextAwUs(now), guardTu * 1024;
    if nextAw < guard then -(guard - nextAw)
    else if 65536 - nextAw < guard then guard - (65536 - nextAw)
    else 0
  }

  function CanSendMulticastIn(r: Radio, now: U64, guardTu: nat): int {
    if !IsMulticastSlot(Slot(r, now)) then r.sync.NextAwUs(now)
    else if !OnScheduledChannel(r, now) then 1000
    else CanSendIn(r, now, guardTu)
  }

  function CanSendUnicastIn(r: Radio, p: Partner, now: U64, guardTu: nat): int {
    var nextAw, guard := r.sync.NextAwUs(now), guardTu * 1024;
    if !SameChannelAsPeer(r, now, p) then nextAw
    else if !OnScheduledChannel(r, now) then 1000
    else if nextAw < guard then
      var next := Wrap64(now + 65536);
      if OnScheduledChannel(r, next) && SameChannelAsPeer(r, next, p) then 0 else -(guard - nextAw)
    else if 65536 - nextAw < guard then
      var prev := Wrap64(now - 65536);
      if OnScheduledChannel(r, prev) && SameChannelAsPeer(r, prev, p) then 0 else guard - (65536 - nextAw)
    else 0
  }

  // ---- What the decisions mean ----

  /** Our planned channel in EAW number `e`. */
  ghost function Own(r: Radio, e: int): U8 { ChanNum(r.sequence[e % 16], r.enc) }

  /** The channel the peer is on at instant `t`, by its schedule and its offset from our clock. */
  ghost function TheirsAt(r: Radio, p: Partner, t: int): U8 {
    ChanNum(p.sequence[r.sync.Eaw(t + p.syncOffset) % 16], r.enc)
  }

  /** At instant `t` our schedule, the peer's, and the radio are all on the same channel, not the null channel. */
  ghost predicate Together(r: Radio, p: Partner, t: int) {
    var own := Own(r, r.sync.Eaw(t));
    own != 0 && own == TheirsAt(r, p, t) && own == ChanNum(r.current, r.enc)
  }

  /** Everyone stays together from `guard` before `t` until `guard` after. */
  ghost predicate SafeAround(r: Radio, p: Partner, t: int, guard: nat) {
    && Together(r, p, t)
    && forall u | t - guard <= u < t + guard :: Together(r, p, u)
  }

  /** The peer's windows start when ours do. */
  predicate Aligned(p: Partner) { p.syncOffset % 65536 == 0 }

  /** In EAW `e` both schedules name the same channel, and not the null channel. */
  ghost predicate Meets(r: Radio, p: Partner, e: int) {
    Own(r, e) != 0 && Own(r, e) == ChanNum(p.sequence[(e + p.syncOffset / 65536) % 16], r.enc)
  }

  lemma OnScheduledMeans(r: Radio, t: int)
    requires r.Valid()
    ensures Slot(r, Wrap64(t)) == r.sync.Eaw(t) % 16
    ensures OnScheduledChannel(r, Wrap64(t)) <==>
            Own(r, r.sync.Eaw(t)) != 0 && Own(r, r.sync.Eaw(t)) == ChanNum(r.current, r.enc)
  {
    CurrentEawExact(r.sync, t);
    SlotOf(r.sync.Eaw(t));
  }

  lemma SameChannelMeans(r: Radio, p: Partner, t: int)
    requires r.Valid()
    ensures SameChannelAsPeer(r, Wrap64(t), p) <==>
            Own(r, r.sync.Eaw(t)) != 0 && Own(r, r.sync.Eaw(t)) == TheirsAt(r, p, t)
  {
    OnScheduledMeans(r, t);
    OnScheduledMeans(r, t + p.syncOffset);
    WrapAdd(t, p.syncOffset);
  }

  lemma AlignedMeans(r: Radio, p: Partner, t: int)
    requires Aligned(p)
    ensures Own(r, r.sync.Eaw(t)) != 0 && Own(r, r.sync.Eaw(t)) == TheirsAt(r, p, t) <==> Meets(r, p, r.sync.Eaw(t))
  {
    var off := p.syncOffset / 65536;
    assert p.syncOffset == off * 65536;
    ShiftEaw(r.sync, t, off);
  }

  lemma WrapAdd(t: int, d: int)
    ensures Wrap64(Wrap64(t) + d) == Wrap64(t + d)
  {
    var q := WrapIs(t);
    WrapShift(t + d, q);
  }

  lemma ShiftEaw(c: Clock, t: int, k: int)
    ensures c.Eaw(t + k * 65536) == c.Eaw(t) + k && c.Phase(t + k * 65536) == c.Phase(t)
  {
    EawAndPhase(c, t);
    InEaw(c, t + k * 65536, c.Eaw(t) + k, c.Phase(t));
  }

  lemma TogetherMeans(r: Radio, p: Partner, t: int)
    requires r.Valid() && Aligned(p)
    ensures OnScheduledChannel(r, Wrap64(t)) && SameChannelAsPeer(r, Wrap64(t), p) <==> Together(r, p, t)
    ensures Together(r, p, t) <==> Meets(r, p, r.sync.Eaw(t)) && Own(r, r.sync.Eaw(t)) == ChanNum(r.current, r.enc)
  {
    OnScheduledMeans(r, t);
    SameChannelMeans(r, p, t);
    AlignedMeans(r, p, t);
  }

  /** An instant within half a window of `t` lies in the same EAW or in the one before or after. */
  lemma NearbyEaw(c: Clock, t: int, u: int)
    requires -32768 <= u - t <= 32768
    ensures c.Eaw(u) == if u - t + c.Phase(t) < 0 then c.Eaw(t) - 1
                        else if u - t + c.Phase(t) >= 65536 then c.Eaw(t) + 1 else c.Eaw(t)
  {
    EawAndPhase(c, t);
    var d := u - t + c.Phase(t);
    if d < 0 {
      InEaw(c, u, c.Eaw(t) - 1, d + 65536);
    } else if d >= 65536 {
      InEaw(c, u, c.Eaw(t) + 1, d - 65536);
    } else {
      InEaw(c, u, c.Eaw(t), d);
    }
  }

  /** A unicast frame is sent now exactly when it is safe: for the whole guard time before and after, our
      schedule, the peer's and the radio stay on one channel. Both waivers of the guard are covered. */
  lemma UnicastExactlyWhenSafe(r: Radio, p: Partner, t: int, guardTu: nat)
    requires r.Valid() && Aligned(p) && guardTu <= 32
    ensures CanSendUnicastIn(r, p, Wrap64(t), guardTu) == 0 <==> SafeAround(r, p, t, guardTu * 1024)
  {
    var guard, c := guardTu * 1024, r.sync;
    var phase, e := c.Phase(t), c.Eaw(t);
    NextAwExact(c, t);
    TogetherMeans(r, p, t);
    TogetherMeans(r, p, t + 65536);
    TogetherMeans(r, p, t - 65536);
    ShiftEaw(c, t, 1);
    ShiftEaw(c, t, -1);
    WrapAdd(t, 65536);
    WrapAdd(t, -65536);
    if SafeAround(r, p, t, guard) {
      var u := if 65536 - phase < guard then t + 65536 - phase else t - phase - 1;
      if 65536 - phase < guard || phase < guard {
        NearbyEaw(c, t, u);
        TogetherMeans(r, p, u);
        assert Together(r, p, u);
      }
    }
    if CanSendUnicastIn(r, p, Wrap64(t), guardTu) == 0 {
      forall u | t - guard <= u < t + guard
        ensures Together(r, p, u)
      {
        NearbyEaw(c, t, u);
        TogetherMeans(r, p, u);
      }
    }
  }

  /** Alignment is needed: for every other offset there are schedules on which a frame is sent although the peer
      leaves the channel, or has just arrived on it, within the guard time. The code sets every offset to 0. */
  lemma AlignmentIsNeeded(offset: U64)
    requires offset % 65536 != 0
    ensures exists r: Radio, p: Partner, t: int ::
              && r.Valid() && p.syncOffset == offset
              && CanSendUnicastIn(r, p, Wrap64(t), UNICAST_GUARD_TU) == 0 && !SafeAround(r, p, t, 3072)
  {
    var c, k, x := Clock(0, 0), offset / 65536, offset % 65536;
    // The peer's window changes x before ours does: stand just before that, or just after it.
    if x <= 32768 {
      var t := 65536 - x - 3071;
      InEaw(c, t + offset, k, 62465);
      InEaw(c, t + 3071 + offset, k + 1, 0);
      UnsafeMisaligned(offset, k, t, 3071, k + 1);
    } else {
      var t := 65536 - x + 3071;
      InEaw(c, t + offset, k + 1, 3071);
      InEaw(c, t - 3072 + offset, k, 65535);
      UnsafeMisaligned(offset, k + 1, t, -3072, k);
    }
  }

  lemma UnsafeMisaligned(offset: U64, e: nat, t: nat, d: int, e': nat)
    requires 3072 <= t <= 62464 && -3072 <= d < 3072 && (e' == e + 1 || e == e' + 1)
    requires Clock(0, 0).Eaw(t + offset) == e && Clock(0, 0).Eaw(t + d + offset) == e'
    ensures exists r: Radio, p: Partner, t: int ::
              && r.Valid() && p.syncOffset == offset
              && CanSendUnicastIn(r, p, Wrap64(t), UNICAST_GUARD_TU) == 0 && !SafeAround(r, p, t, 3072)
  {
    var r, p := TwoChannels(offset, e, e');
    SentMidWindow(r, p, t);
    assert !Together(r, p, t + d);
    assert !SafeAround(r, p, t, 3072);
  }

  lemma SentMidWindow(r: Radio, p: Partner, t: nat)
    requires r.sync == Clock(0, 0) && 3072 <= t <= 62464
    requires Own(r, 0) == 6 == TheirsAt(r, p, t) && ChanNum(r.current, r.enc) == 6
    ensures CanSendUnicastIn(r, p, Wrap64(t), UNICAST_GUARD_TU) == 0
  {
    hide Wrap64, Clock.Eaw, Clock.Phase, Clock.NextAwUs, SameChannelAsPeer, OnScheduledChannel, Clock.CurrentEaw,
         Clock.StartOf;
    FirstWindow(t);
    SameChannelMeans(r, p, t);
    OnScheduledMeans(r, t);
    NextAwExact(r.sync, t);
  }

  lemma FirstWindow(t: nat)
    requires t < 65536
    ensures Clock(0, 0).Eaw(t) == 0 && Clock(0, 0).Phase(t) == t
  {
    InEaw(Clock(0, 0), t, 0, t);
  }

  /** A node always on channel 6, and a peer that is there in one slot and elsewhere in another. */
  lemma TwoChannels(offset: U64, e: nat, e': nat) returns (r: Radio, p: Partner)
    requires e' == e + 1 || e == e' + 1
    ensures r.sync == Clock(0, 0) && r.enc == OpClass && r.current == Chan(6, 0x51) && p.syncOffset == offset
    ensures Own(r, 0) == 6 && p.sequence[e % 16] == Chan(6, 0x51) && p.sequence[e' % 16] == Chan(44, 0x80)
  {
    var six := Chan(6, 0x51);
    var i, j := e % 16, e' % 16;
    assert i != j;
    var theirs := seq(16, k requires 0 <= k < 16 => if k == i then six else Chan(44, 0x80));
    r := Radio(Clock(0, 0), OpClass, seq(16, _ => six), six);
    p := Partner(theirs, offset);
  }

  /** A multicast frame is sent now exactly when the radio is on our channel of slot 0, 8 or 10 for the whole
      guard time before and after. */
  lemma MulticastExactlyWhenTuned(r: Radio, t: int, guardTu: nat)
    requires r.Valid() && 0 < guardTu <= 32
    ensures CanSendMulticastIn(r, Wrap64(t), guardTu) == 0 <==>
            forall u | t - guardTu * 1024 <= u < t + guardTu * 1024 ::
              && r.sync.Eaw(u) == r.sync.Eaw(t) && IsMulticastSlot(r.sync.Eaw(u) % 16)
              && Own(r, r.sync.Eaw(u)) != 0 && Own(r, r.sync.Eaw(u)) == ChanNum(r.current, r.enc)
  {
    var guard, c := guardTu * 1024, r.sync;
    var phase := c.Phase(t);
    NextAwExact(c, t);
    OnScheduledMeans(r, t);
    if CanSendMulticastIn(r, Wrap64(t), guardTu) == 0 {
      forall u | t - guard <= u < t + guard
        ensures c.Eaw(u) == c.Eaw(t)
      {
        NearbyEaw(c, t, u);
      }
    } else if IsMulticastSlot(Slot(r, Wrap64(t))) && OnScheduledChannel(r, Wrap64(t)) {
      var u := if 65536 - phase < guard then t + 65536 - phase else t - phase - 1;
      NearbyEaw(c, t, u);
      assert t - guard <= u < t + guard && c.Eaw(u) != c.Eaw(t);
    }
  }

  /** The radio is on our channel of EAW `e`, which is not the null channel. */
  ghost predicate Tuned(r: Radio, e: int) { Own(r, e) != 0 && Own(r, e) == ChanNum(r.current, r.enc) }

  /** Every answer for a multicast frame: outside slots 0, 8 and 10 the distance to the next change of slot; inside,
      with the radio elsewhere, a millisecond; within the guard of the end minus what is missing to it, within that of
      the start what is missing, and else 0. */
  lemma MulticastByPhase(r: Radio, t: int, guardTu: nat)
    requires r.Valid() && guardTu <= 32
    ensures var d, guard := CanSendMulticastIn(r, Wrap64(t), guardTu), guardTu * 1024;
            var phase, e := r.sync.Phase(t), r.sync.Eaw(t);
            if e % 16 !in {0, 8, 10}
            then && d == 65536 - phase && r.sync.Eaw(t + d) == e + 1
                 && forall u | t <= u < t + d :: r.sync.Eaw(u) == e
            else if !Tuned(r, e) then d == 1000
            else if 65536 - phase < guard then -d == guard - (65536 - phase)
            else if phase < guard then d == guard - phase
            else d == 0
  {
    NextAwExact(r.sync, t);
    NextAwIsNextChange(r.sync, t);
    OnScheduledMeans(r, t);
  }

  // ---- Waiting multicast frames ----

  /** One firing of the multicast timer while a frame waits. */
  function MulticastAttempt(r: Radio, now: U64): Outcome {
    var d := CanSendMulticastIn(r, now, MULTICAST_GUARD_TU);
    if IsMulticastSlot(Slot(r, now)) && d == 0 then SendNow
    else if d < 0 then RetryIn(-d + MULTICAST_GUARD_TU * 1024)
    else RetryIn(if d == 0 then 65536 else d)
  }

  lemma MulticastAttemptByPhase(r: Radio, t: int)
    requires r.Valid()
    ensures var phase, e := r.sync.Phase(t), r.sync.Eaw(t);
            MulticastAttempt(r, Wrap64(t)) ==
              if e % 16 !in {0, 8, 10} then RetryIn(65536 - phase)
              else if !Tuned(r, e) then RetryIn(1000)
              else if phase > 49152 then RetryIn(phase - 32768)
              else if phase < 16384 then RetryIn(16384 - phase)
              else SendNow
  {
    MulticastByPhase(r, t, MULTICAST_GUARD_TU);
    OnScheduledMeans(r, t);
    hide Tuned, CanSendMulticastIn, Wrap64, Clock.Eaw;
  }

  /** How late a timer may fire, and how long after the start of a slot the radio may still be elsewhere, if that slot
      has a channel: 16 time units. */
  const SETTLED: nat := 16384

  /** At instant `t` the radio is on channel `cur`, and on the planned one if the slot has begun long enough ago. */
  ghost predicate FoundOn(r: Radio, cur: Chan, t: int) {
    r.sync.Phase(t) >= SETTLED && Own(r, r.sync.Eaw(t)) != 0 ==> Tuned(r.(current := cur), r.sync.Eaw(t))
  }

  /** Starting with a firing at `t`, the frame goes out before `deadline`. */
  ghost predicate MulticastBy(r: Radio, t: int, deadline: int)
    decreases deadline - t, 1
  {
    t < deadline && forall cur: Chan | FoundOn(r, cur, t) :: MulticastLeads(r, t, cur, deadline)
  }

  ghost predicate MulticastLeads(r: Radio, t: int, cur: Chan, deadline: int)
    requires t < deadline
    decreases deadline - t, 0
  {
    match MulticastAttempt(r.(current := cur), Wrap64(t))
    case SendNow => true
    case RetryIn(us) =>
      us > 0 && forall next: int | t + us <= next <= t + us + SETTLED :: MulticastBy(r, next, deadline)
  }

  /** If window `e` has a multicast slot with a channel, and has not begun too long ago, the frame goes out in it at the
      latest. */
  lemma {:induction false} MulticastGoesOut(r: Radio, t: int, e: int)
    requires r.Valid() && e % 16 in {0, 8, 10} && Own(r, e) != 0
    requires r.sync.Eaw(t) <= e && (r.sync.Eaw(t) == e ==> r.sync.Phase(t) <= 49152)
    ensures MulticastBy(r, t, r.sync.StartOf(e + 1))
    decreases r.sync.StartOf(e + 1) - t
  {
    var deadline := r.sync.StartOf(e + 1);
    EawAndPhase(r.sync, t);
    forall cur: Chan | FoundOn(r, cur, t)
      ensures MulticastLeads(r, t, cur, deadline)
    {
      var found := r.(current := cur);
      MulticastAttemptByPhase(found, t);
      var o := MulticastAttempt(found, Wrap64(t));
      if o.RetryIn? {
        forall next: int | t + o.us <= next <= t + o.us + SETTLED
          ensures MulticastBy(r, next, deadline)
        {
          MulticastRetry(r, t, e, o.us, next);
          MulticastGoesOut(r, next, e);
        }
      }
    }
  }

  lemma MulticastRetry(r: Radio, t: int, e: int, us: nat, next: int)
    requires 0 < us && t + us <= next <= t + us + SETTLED && r.sync.Eaw(t) <= e
    requires var phase := r.sync.Phase(t);
             || us == 65536 - phase || us == 1000 || (phase > 49152 && us == phase - 32768)
             || (phase < 16384 && us == 16384 - phase)
    requires r.sync.Eaw(t) == e ==> r.sync.Phase(t) < 16384 && us <= 16384
    ensures r.sync.Eaw(next) <= e && (r.sync.Eaw(next) == e ==> r.sync.Phase(next) <= 49152)
    ensures next < r.sync.StartOf(e + 1)
  {
    EawAndPhase(r.sync, t);
    var k := r.sync.Phase(t) + (next - t);
    InEaw(r.sync, next, r.sync.Eaw(t) + k / 65536, k % 65536);
  }

  /** If slot 0, 8 or 10 has a channel at all, a waiting multicast frame goes out within 17 windows of any instant. */
  lemma MulticastProgress(r: Radio, t: int, slot: nat)
    requires r.Valid() && slot in {0, 8, 10} && ChanNum(r.sequence[slot], r.enc) != 0
    ensures MulticastBy(r, t, t + 17 * 65536)
  {
    var e := r.sync.Eaw(t);
    var m := (slot - e) % 16;
    var ahead := if m == 0 && r.sync.Phase(t) > 49152 then 16 else m;
    Mod16(slot, -((slot - e) / 16));
    Mod16(e + m, 1);
    assert e + m == slot + 16 * -((slot - e) / 16);
    assert (e + ahead) % 16 == slot;
    MulticastGoesOut(r, t, e + ahead);
    EawAndPhase(r.sync, t);
    StartAfter(r.sync, e, ahead + 1);
    MulticastLater(r, t, r.sync.StartOf(e + ahead + 1), t + 17 * 65536);
  }

  lemma {:induction false} MulticastLater(r: Radio, t: int, deadline: int, later: int)
    requires MulticastBy(r, t, deadline) && deadline <= later
    ensures MulticastBy(r, t, later)
    decreases deadline - t
  {
    hide MulticastAttempt, FoundOn, Wrap64;
    forall cur: Chan | FoundOn(r, cur, t)
      ensures MulticastLeads(r, t, cur, later)
    {
      assert MulticastLeads(r, t, cur, deadline);
      var o := MulticastAttempt(r.(current := cur), Wrap64(t));
      if o.RetryIn? {
        forall next: int | t + o.us <= next <= t + o.us + SETTLED
          ensures MulticastBy(r, next, later)
        {
          assert MulticastBy(r, next, deadline);
          MulticastLater(r, next, deadline, later);
        }
      }
    }
  }

  // ---- Waiting unicast frames ----

  /** `awdl_switch_channel` when the card can be retuned. */
  function Retune(r: Radio, now: U64): Radio {
    var planned := r.sequence[Slot(r, now)];
    if ChanNum(planned, r.enc) != 0 && ChanNum(planned, r.enc) != ChanNum(r.current, r.enc)
    then r.(current := planned) else r
  }

  datatype Outcome = SendNow | RetryIn(us: nat)

  /** Sends, or rearms the timer. */
  function Decide(r: Radio, p: Partner, now: U64): Outcome {
    var d := CanSendUnicastIn(r, p, now, UNICAST_GUARD_TU);
    if d == 0 then SendNow
    else if d < 0 then RetryIn(-d + UNICAST_GUARD_TU * 1024)
    else RetryIn(d)
  }

  /** The schedules meet, and the radio is elsewhere. */
  predicate MustRetune(r: Radio, p: Partner, now: U64) {
    SameChannelAsPeer(r, now, p) && !OnScheduledChannel(r, now)
  }

  /** One firing of the unicast timer at `now` while a frame for the peer waits. If retuning is all that is missing,
      that reads the clock itself, at `switched`, and the decision is made at `after`; else it is made at once. */
  function Attempt(r: Radio, p: Partner, now: U64, switched: U64, after: U64): Outcome {
    if MustRetune(r, p, now) then Decide(Retune(r, switched), p, after) else Decide(r, p, now)
  }

  /** When the decision is made. */
  ghost function DecidedAt(r: Radio, p: Partner, t: int, u: int): int { if MustRetune(r, p, Wrap64(t)) then u else t }

  /** How late a timer may fire, and how long retuning may take: 20 time units. */
  const LATE: nat := 20480

  /** Starting with a firing at `t`, the frame goes out in at most `tries` firings and before `deadline`, on whatever
      channel the radio is found at each firing, however long retuning takes and however late each timer fires, up to
      `LATE`. */
  ghost predicate SendsWithin(r: Radio, p: Partner, t: int, tries: nat, deadline: int)
    decreases tries, 0
  {
    tries > 0 && AllLead(r, p, t, tries - 1, deadline)
  }

  ghost predicate AllLead(r: Radio, p: Partner, t: int, left: nat, deadline: int)
    decreases left, 2
  {
    forall cur: Chan, s: int, u: int | t <= s <= u <= t + LATE :: Leads(r, p, t, cur, s, u, left, deadline)
  }

  /** The same of one firing, with `left` more after it. */
  ghost predicate Leads(r: Radio, p: Partner, t: int, cur: Chan, s: int, u: int, left: nat, deadline: int)
    decreases left, 1
  {
    var found := r.(current := cur);
    var at := DecidedAt(found, p, t, u);
    match Attempt(found, p, Wrap64(t), Wrap64(s), Wrap64(u))
    case SendNow => at < deadline
    case RetryIn(us) => forall next: int | at + us <= next <= at + us + LATE :: SendsWithin(r, p, next, left, deadline)
  }

  /** The schedules meet in EAW `e` on the channel of EAW `d`. */
  ghost predicate MeetsLike(r: Radio, p: Partner, e: int, d: int) { Meets(r, p, e) && Own(r, e) == Own(r, d) }

  /** What is decided at instant `t` with the radio on channel number `on`: by whether the schedules meet in this
      window, whether the radio is there, and at the edges of the window by whether they meet on the same channel in the
      window beyond. */
  ghost function ByPhase(r: Radio, on: U8, p: Partner, t: int): Outcome {
    var phase, e := r.sync.Phase(t), r.sync.Eaw(t);
    if !Meets(r, p, e) then RetryIn(65536 - phase)
    else if on != Own(r, e) then RetryIn(1000)
    else if phase < 3072 && !MeetsLike(r, p, e - 1, e) then RetryIn(3072 - phase)
    else if phase > 62464 && !MeetsLike(r, p, e + 1, e) then RetryIn(phase - 59392)
    else SendNow
  }

  /** The decision on a channel that is right now, by the microseconds to the next window and by whether it is right
      in the window after and in the one before. */
  function AtEdges(nextAw: nat, after: bool, before: bool): Outcome {
    if nextAw < 3072 && !after then RetryIn(6144 - nextAw)
    else if nextAw > 62464 && !before then RetryIn(nextAw - 62464)
    else SendNow
  }

  lemma DecideIs(r: Radio, p: Partner, now: U64)
    requires 0 < r.sync.NextAwUs(now) <= 65536
    ensures var nextAw, next, prev := r.sync.NextAwUs(now), Wrap64(now + 65536), Wrap64(now - 65536);
            Decide(r, p, now) ==
              if !SameChannelAsPeer(r, now, p) then RetryIn(nextAw)
              else if !OnScheduledChannel(r, now) then RetryIn(1000)
              else AtEdges(nextAw, OnScheduledChannel(r, next) && SameChannelAsPeer(r, next, p),
                           OnScheduledChannel(r, prev) && SameChannelAsPeer(r, prev, p))
  {
    hide SameChannelAsPeer, OnScheduledChannel, Clock.NextAwUs, Wrap64;
  }

  lemma DecideByPhase(r: Radio, p: Partner, t: int)
    requires r.Valid() && Aligned(p)
    ensures Decide(r, p, Wrap64(t)) == ByPhase(r, ChanNum(r.current, r.enc), p, t)
  {
    NextAwExact(r.sync, t);
    PhaseInWindow(r.sync, t);
    HereMeans(r, p, t);
    hide *;
    DecideIs(r, p, Wrap64(t));
    var e, on := r.sync.Eaw(t), ChanNum(r.current, r.enc);
    if Meets(r, p, e) && on == Own(r, e) {
      BeyondMeans(r, p, t);
      EdgesByPhase(r, on, p, t);
    } else {
      ElseByPhase(r, on, p, t);
    }
  }

  lemma PhaseInWindow(c: Clock, t: int)
    ensures 0 <= c.Phase(t) < 65536
  {
  }

  lemma HereMeans(r: Radio, p: Partner, t: int)
    requires r.Valid() && Aligned(p)
    ensures var now, e := Wrap64(t), r.sync.Eaw(t);
            && (SameChannelAsPeer(r, now, p) <==> Meets(r, p, e))
            && (Meets(r, p, e) ==> (OnScheduledChannel(r, now) <==> ChanNum(r.current, r.enc) == Own(r, e)))
  {
    SameChannelMeans(r, p, t);
    AlignedMeans(r, p, t);
    OnScheduledMeans(r, t);
    MeetsOn(r, p, r.sync.Eaw(t));
    hide Meets, Own, SameChannelAsPeer, OnScheduledChannel, Wrap64, Clock.Eaw;
  }

  lemma BeyondMeans(r: Radio, p: Partner, t: int)
    requires r.Valid() && Aligned(p) && ChanNum(r.current, r.enc) == Own(r, r.sync.Eaw(t))
    ensures var next, prev, e := Wrap64(Wrap64(t) + 65536), Wrap64(Wrap64(t) - 65536), r.sync.Eaw(t);
            && (OnScheduledChannel(r, next) && SameChannelAsPeer(r, next, p) <==> MeetsLike(r, p, e + 1, e))
            && (OnScheduledChannel(r, prev) && SameChannelAsPeer(r, prev, p) <==> MeetsLike(r, p, e - 1, e))
  {
    hide MeetsLike, SameChannelAsPeer, OnScheduledChannel, Own, Clock.Eaw, Wrap64;
    TunedBeyond(r, p, t, 1);
    TunedBeyond(r, p, t, -1);
  }

  lemma EdgesByPhase(r: Radio, on: U8, p: Partner, t: int)
    requires var e := r.sync.Eaw(t); Meets(r, p, e) && on == Own(r, e)
    ensures var phase, e := r.sync.Phase(t), r.sync.Eaw(t);
            phase < 65536 && ByPhase(r, on, p, t) ==
                             AtEdges(65536 - phase, MeetsLike(r, p, e + 1, e), MeetsLike(r, p, e - 1, e))
  {
    hide Meets, MeetsLike, Own, Clock.Eaw;
  }

  lemma ElseByPhase(r: Radio, on: U8, p: Partner, t: int)
    requires var e := r.sync.Eaw(t); !(Meets(r, p, e) && on == Own(r, e))
    ensures ByPhase(r, on, p, t) == RetryIn(if Meets(r, p, r.sync.Eaw(t)) then 1000 else 65536 - r.sync.Phase(t))
  {
    hide Meets, MeetsLike, Own, Clock.Eaw;
  }

  lemma MeetsOn(r: Radio, p: Partner, e: int)
    ensures Meets(r, p, e) ==> Own(r, e) != 0
  {
  }

  /** With the radio on the channel of the window of `t`, it can be used `k` windows later if they meet there on that
      channel too. */
  lemma TunedBeyond(r: Radio, p: Partner, t: int, k: int)
    requires r.Valid() && Aligned(p) && ChanNum(r.current, r.enc) == Own(r, r.sync.Eaw(t))
    ensures var now, e := Wrap64(Wrap64(t) + k * 65536), r.sync.Eaw(t);
            OnScheduledChannel(r, now) && SameChannelAsPeer(r, now, p) <==> MeetsLike(r, p, e + k, e)
  {
    WrapAdd(t, k * 65536);
    ShiftEaw(r.sync, t, k);
    OnScheduledMeans(r, t + k * 65536);
    SameChannelMeans(r, p, t + k * 65536);
    AlignedMeans(r, p, t + k * 65536);
  }

  /** The channel number after retuning at instant `s`. */
  ghost function TunedTo(r: Radio, on: U8, s: int): U8 {
    if Own(r, r.sync.Eaw(s)) != 0 then Own(r, r.sync.Eaw(s)) else on
  }

  lemma RetuneMeans(r: Radio, s: int)
    requires r.Valid()
    ensures var tuned := Retune(r, Wrap64(s));
            && tuned == r.(current := tuned.current)
            && ChanNum(tuned.current, r.enc) == TunedTo(r, ChanNum(r.current, r.enc), s)
  {
    OnScheduledMeans(r, s);
  }

  /** What a firing does and when it decides, exactly. */
  lemma AttemptByPhase(r: Radio, cur: Chan, p: Partner, t: int, s: int, u: int)
    requires r.Valid() && Aligned(p)
    ensures var found, on, e := r.(current := cur), ChanNum(cur, r.enc), r.sync.Eaw(t);
            var o, at := Attempt(found, p, Wrap64(t), Wrap64(s), Wrap64(u)), DecidedAt(found, p, t, u);
            if Meets(r, p, e) && on != Own(r, e)
            then at == u && o == ByPhase(r, TunedTo(r, on, s), p, u)
            else at == t && o == ByPhase(r, on, p, t)
  {
    var found, on, e := r.(current := cur), ChanNum(cur, r.enc), r.sync.Eaw(t);
    SameChannelMeans(found, p, t);
    AlignedMeans(found, p, t);
    OnScheduledMeans(found, t);
    assert Meets(found, p, e) == Meets(r, p, e) && Own(found, e) == Own(r, e);
    hide Decide, SameChannelAsPeer, OnScheduledChannel, Meets, Own, TunedTo;
    if MustRetune(found, p, Wrap64(t)) {
      RetuneMeans(found, s);
      DecideByPhase(Retune(found, Wrap64(s)), p, u);
      SameButTuned(r, cur, p, s, u);
      SameButTuned(r, Retune(found, Wrap64(s)).current, p, s, u);
    } else {
      DecideByPhase(found, p, t);
      SameButTuned(r, cur, p, s, t);
    }
  }

  /** The channel of the radio matters to none of these. */
  lemma SameButTuned(r: Radio, cur: Chan, p: Partner, s: int, u: int)
    ensures var found := r.(current := cur);
            && (forall on :: TunedTo(found, on, s) == TunedTo(r, on, s))
            && (forall on :: ByPhase(found, on, p, u) == ByPhase(r, on, p, u))
  {
    var found, e := r.(current := cur), r.sync.Eaw(u);
    assert Own(found, e) == Own(r, e) && Own(found, e - 1) == Own(r, e - 1) && Own(found, e + 1) == Own(r, e + 1);
    assert Meets(found, p, e) == Meets(r, p, e);
    assert Meets(found, p, e - 1) == Meets(r, p, e - 1) && Meets(found, p, e + 1) == Meets(r, p, e + 1);
  }

  /** Where a firing decides, and on what channel: in the window of `t` on the channel met there, or in the next one on
      either's. */
  lemma Decides(r: Radio, cur: Chan, p: Partner, t: int, s: int, u: int) returns (on: U8)
    requires r.Valid() && Aligned(p) && t <= s <= u <= t + LATE
    ensures var found, e := r.(current := cur), r.sync.Eaw(t);
            var at := DecidedAt(found, p, t, u);
            && t <= at <= u && Attempt(found, p, Wrap64(t), Wrap64(s), Wrap64(u)) == ByPhase(r, on, p, at)
            && (r.sync.Eaw(at) == e || (r.sync.Eaw(at) == e + 1 && Meets(r, p, e) && r.sync.Phase(at) < LATE))
            && (r.sync.Eaw(at) == e <==> r.sync.Phase(t) + (at - t) < 65536)
            && (r.sync.Eaw(at) == e ==> r.sync.Phase(at) == r.sync.Phase(t) + (at - t))
            && (r.sync.Eaw(at) == e && Meets(r, p, e) ==> on == Own(r, e))
  {
    AttemptByPhase(r, cur, p, t, s, u);
    var e, n := r.sync.Eaw(t), ChanNum(cur, r.enc);
    on := if Meets(r, p, e) && n != Own(r, e) then TunedTo(r, n, s) else n;
    hide Attempt, DecidedAt, Wrap64, ByPhase, Clock.Eaw, Clock.Phase;
    Later(r.sync, t, s);
    Later(r.sync, t, u);
  }

  lemma Later(c: Clock, t: int, u: int)
    requires t <= u <= t + LATE
    ensures var phase := c.Phase(t) + (u - t);
            if phase < 65536 then c.Eaw(u) == c.Eaw(t) && c.Phase(u) == phase
            else c.Eaw(u) == c.Eaw(t) + 1 && c.Phase(u) == phase - 65536
  {
    EawAndPhase(c, t);
    var phase := c.Phase(t) + (u - t);
    InEaw(c, u, c.Eaw(t) + phase / 65536, phase % 65536);
  }

  lemma EachFiring(r: Radio, p: Partner, t: int, left: nat, deadline: int)
    requires forall cur: Chan, s: int, u: int | t <= s <= u <= t + LATE :: Leads(r, p, t, cur, s, u, left, deadline)
    ensures SendsWithin(r, p, t, left + 1, deadline)
  {
  }

  /** Well inside a window in which the schedules meet, the frame goes out at once. */
  lemma SendsAtOnce(r: Radio, p: Partner, t: int, tries: nat, deadline: int)
    requires r.Valid() && Aligned(p) && Meets(r, p, r.sync.Eaw(t)) && 3072 <= r.sync.Phase(t) <= 62464 - LATE
    requires tries > 0 && t + LATE < deadline
    ensures SendsWithin(r, p, t, tries, deadline)
  {
    var left := tries - 1;
    forall cur: Chan, s: int, u: int | t <= s <= u <= t + LATE
      ensures Leads(r, p, t, cur, s, u, left, deadline)
    {
      var on := Decides(r, cur, p, t, s, u);
    }
  }

  /** Early enough in such a window, it goes out before the window ends. */
  lemma SendsHere(r: Radio, p: Partner, t: int, tries: nat, deadline: int)
    requires r.Valid() && Aligned(p) && Meets(r, p, r.sync.Eaw(t)) && r.sync.Phase(t) <= 62464 - LATE
    requires tries > 1 && r.sync.StartOf(r.sync.Eaw(t) + 1) <= deadline
    ensures SendsWithin(r, p, t, tries, deadline)
  {
    hide Attempt, DecidedAt, Wrap64, Meets, Clock.Eaw, Clock.Phase, Aligned;
    var e, left := r.sync.Eaw(t), tries - 1;
    forall cur: Chan, s: int, u: int | t <= s <= u <= t + LATE
      ensures Leads(r, p, t, cur, s, u, left, deadline)
    {
      var on := Decides(r, cur, p, t, s, u);
      var at := DecidedAt(r.(current := cur), p, t, u);
      EawAndPhase(r.sync, at);
      var phase := r.sync.Phase(at);
      if phase < 3072 && !MeetsLike(r, p, e - 1, e) {
        forall next: int | at + (3072 - phase) <= next <= at + (3072 - phase) + LATE
          ensures SendsWithin(r, p, next, left, deadline)
        {
          InEaw(r.sync, next, e, next - r.sync.StartOf(e));
          SendsAtOnce(r, p, next, left, deadline);
        }
      }
    }
    EachFiring(r, p, t, left, deadline);
  }

  /** If the schedules meet `m` windows ahead, the frame goes out by the end of that window. */
  lemma {:induction false} SendsBy(r: Radio, p: Partner, t: int, m: nat, tries: nat, deadline: int)
    requires r.Valid() && Aligned(p) && Meets(r, p, r.sync.Eaw(t) + m)
    requires m == 0 ==> r.sync.Phase(t) <= 62464 - LATE
    requires tries >= m + 2 && r.sync.StartOf(r.sync.Eaw(t) + m + 1) <= deadline
    ensures SendsWithin(r, p, t, tries, deadline)
    decreases m, 2
  {
    if m == 0 {
      SendsHere(r, p, t, tries, deadline);
    } else {
      hide *;
      var left := tries - 1;
      forall cur: Chan, s: int, u: int | t <= s <= u <= t + LATE
        ensures Leads(r, p, t, cur, s, u, left, deadline)
      {
        Firing(r, p, t, m, cur, s, u, left, deadline);
      }
      EachFiring(r, p, t, left, deadline);
    }
  }

  lemma {:induction false} Firing(r: Radio, p: Partner, t: int, m: nat, cur: Chan, s: int, u: int,
                                  left: nat, deadline: int)
    requires r.Valid() && Aligned(p) && m > 0 && Meets(r, p, r.sync.Eaw(t) + m)
    requires left >= m + 1 && r.sync.StartOf(r.sync.Eaw(t) + m + 1) <= deadline
    requires t <= s <= u <= t + LATE
    ensures Leads(r, p, t, cur, s, u, left, deadline)
    decreases m, 1
  {
    var on := Decides(r, cur, p, t, s, u);
    hide Attempt, DecidedAt, Wrap64, Meets, Clock.Eaw, Clock.Phase, Aligned, ByPhase;
    var found, e := r.(current := cur), r.sync.Eaw(t);
    var at, o := DecidedAt(found, p, t, u), Attempt(found, p, Wrap64(t), Wrap64(s), Wrap64(u));
    EawAndPhase(r.sync, at);
    match o
    case SendNow =>
    case RetryIn(us) =>
      forall next: int | at + us <= next <= at + us + LATE
        ensures SendsWithin(r, p, next, left, deadline)
      {
        Retry(r, p, on, at, r.sync.Eaw(at), e + m - r.sync.Eaw(at), next, left, deadline);
      }
  }

  /** After a decision in window `e` to ask again, with the meeting `m` windows after it. */
  lemma {:induction false} Retry(r: Radio, p: Partner, on: U8, at: int, e: int, m: nat, next: int,
                                 tries: nat, deadline: int)
    requires r.Valid() && Aligned(p) && r.sync.Eaw(at) == e && Meets(r, p, e + m)
    requires ByPhase(r, on, p, at).RetryIn? && 0 <= next - at - ByPhase(r, on, p, at).us <= LATE
    requires r.sync.Phase(at) < LATE || (m > 0 && (Meets(r, p, e) ==> on == Own(r, e)))
    requires tries >= m + 1 && tries >= 2 && r.sync.StartOf(e + m + 1) <= deadline
    ensures SendsWithin(r, p, next, tries, deadline)
    decreases m, 0
  {
    EawAndPhase(r.sync, at);
    var phase := r.sync.Phase(at);
    hide Meets, Clock.Eaw, Clock.Phase, Aligned, SendsWithin;
    if !Meets(r, p, e) {
      InEaw(r.sync, next, e + 1, next - r.sync.StartOf(e + 1));
      SendsBy(r, p, next, m - 1, tries, deadline);
    } else if on != Own(r, e) || phase < 3072 {
      InEaw(r.sync, next, e, next - r.sync.StartOf(e));
      SendsHere(r, p, next, tries, deadline);
    } else {
      InEaw(r.sync, next, e + 1, next - r.sync.StartOf(e + 1));
      SendsBy(r, p, next, m - 1, tries, deadline);
    }
  }

  /** If the schedules meet in any window at all, a waiting frame goes out within 18 firings and 17 windows of any
      instant: re-asking after each computed delay cannot miss the meeting window forever, even if every timer fires up
      to 20 time units late and retuning takes as long. */
  lemma UnicastProgress(r: Radio, p: Partner, t: int, meeting: int)
    requires r.Valid() && Aligned(p) && Meets(r, p, meeting)
    ensures SendsWithin(r, p, t, 18, t + 17 * 65536)
  {
    hide *;
    var m := NextMeeting(r, p, t, meeting);
    EawAndPhase(r.sync, t);
    StartAfter(r.sync, r.sync.Eaw(t), m + 1);
    SendsBy(r, p, t, m, 18, t + 17 * 65536);
  }

  lemma StartAfter(c: Clock, e: int, k: nat)
    ensures c.StartOf(e + k) == c.StartOf(e) + k * 65536
  {
  }

  lemma NextMeeting(r: Radio, p: Partner, t: int, meeting: int) returns (m: nat)
    requires Meets(r, p, meeting)
    ensures m <= 16 && Meets(r, p, r.sync.Eaw(t) + m) && (m == 0 ==> r.sync.Phase(t) <= 62464 - LATE)
  {
    hide Meets, Clock.Eaw, Clock.Phase;
    var e := r.sync.Eaw(t);
    m := (meeting - e) % 16;
    var k := (meeting - e) / 16;
    assert meeting == e + m + 16 * k;
    MeetsPeriodic(r, p, e + m, k);
    if m == 0 && r.sync.Phase(t) > 62464 - LATE {
      MeetsPeriodic(r, p, e, 1);
      m := 16;
    }
  }

  lemma MeetsPeriodic(r: Radio, p: Partner, e: int, k: int)
    ensures Meets(r, p, e + 16 * k) <==> Meets(r, p, e)
  {
    Mod16(e, k);
    Mod16(e + p.syncOffset / 65536, k);
  }

  lemma Mod16(n: int, k: int)
    ensures (n + 16 * k) % 16 == n % 16
  {
  }

  // ---- Following a master's sequence ----

  /** The choices that decide which channel sequence a node runs. */
  datatype Following = Following(follow: bool, preferred: Option<Addr>, self: Addr, syncAddr: Addr)

  /** A sequence that is not all null channels. */
  predicate Active(s: Sequence, enc: Encoding) {
    exists i | 0 <= i < 16 :: ChanNum(s[i], enc) != 0
  }

  /** The node's channel sequences, updated in place. */
  class Channels {
    var enc: Encoding
    var sequence: Sequence
    const configured: Sequence

    constructor (enc: Encoding, configured: Sequence)
      ensures this.enc == enc && sequence == configured && this.configured == configured
    {
      this.enc := enc;
      this.sequence := configured;
      this.configured := configured;
    }

    method CountActive(s: Sequence) returns (n: nat)
      ensures n > 0 <==> Active(s, enc)
    {
      n := 0;
      for i := 0 to 16
        invariant n > 0 <==> exists k | 0 <= k < i :: ChanNum(s[k], enc) != 0
      {
        if ChanNum(s[i], enc) != 0 {
          n := n + 1;
        }
      }
    }

    method RestoreConfigured()
      modifies this`sequence
      ensures sequence == configured
    {
      if sequence == configured {
        return;
      }
      sequence := configured;
    }

    /** After each received action frame and each clean-up: follow the preferred peer if it is present, else the
        sync master; as master, or when the master is gone, run the configured sequence. An all-null sequence is
        never adopted. */
    method AdoptMasterChanseq(f: Following, peers: map<Addr, Sequence>)
      modifies this`sequence
      ensures !f.follow ==> sequence == old(sequence)
      ensures f.follow && f.preferred.Some? && f.preferred.value in peers ==>
                sequence == if Active(peers[f.preferred.value], enc) then peers[f.preferred.value] else old(sequence)
      ensures f.follow && (f.preferred.None? || f.preferred.value !in peers) ==>
                sequence == if f.syncAddr == f.self || f.syncAddr !in peers then configured
                            else if Active(peers[f.syncAddr], enc) then peers[f.syncAddr] else old(sequence)
      ensures Active(old(sequence), enc) && Active(configured, enc) ==> Active(sequence, enc)
    {
      if !f.follow {
        return;
      }
      if f.preferred.Some? {
        if f.preferred.value in peers {
          var preferred := peers[f.preferred.value];
          var n := CountActive(preferred);
          if n > 0 && sequence != preferred {
            sequence := preferred;
          }
          return;
        }
      }
      if f.syncAddr == f.self {
        RestoreConfigured();
        return;
      }
      if f.syncAddr !in peers {
        RestoreConfigured();
        return;
      }
      var master := peers[f.syncAddr];
      var active := CountActive(master);
      if active == 0 {
        return;
      }
      if sequence == master {
        return;
      }
      sequence := master;
    }
  }

  /** A node that runs the sequence of the peer it sends to, aligned with it, never waits longer than that. */
  lemma FollowerProgress(r: Radio, p: Partner, t: int)
    requires r.Valid() && p.syncOffset == 0 && r.sequence == p.sequence && Active(p.sequence, r.enc)
    ensures SendsWithin(r, p, t, 18, t + 17 * 65536)
  {
    var i :| 0 <= i < 16 && ChanNum(p.sequence[i], r.enc) != 0;
    assert Meets(r, p, i);
    UnicastProgress(r, p, t, i);
  }
}
