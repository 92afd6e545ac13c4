/** AWDL slot arithmetic on machine integers, and following a master's clock. */
module Sync {
  import opened Machine

  // An extended availability window (EAW) is 4 windows (the presence mode) of 16 time units (TU) of 1024
  // microseconds: 64 TU, or 65536 microseconds. These are set when a node starts and never change.

  /** The counter and start time of some EAW of the past. */
  datatype Clock = Clock(awCounter: U16, lastUpdate: U64) {
    /** Counters are kept at the start of an EAW. */
    predicate Valid() { awCounter % 4 == 0 }

    function TimeSince(now: U64): U64 { Wrap64(now - lastUpdate) }

    /** Time units to the next EAW. */
    function NextAwTu(now: U64): U16 { Wrap16(64 - (TimeSince(now) / 1024) % 64) }

    /** Microseconds to the next EAW. */
    function NextAwUs(now: U64): U64 { 65536 - TimeSince(now) % 65536 }

    function CurrentAw(now: U64): U16 {
      var tu := TimeSince(now) / 1024;
      Wrap16(awCounter + (tu % 64) / 16 + 4 * (tu / 64))
    }

    function CurrentEaw(now: U64): U16 { CurrentAw(now) / 4 }

    /** How far a master's announcement is from our own clock, in time units. */
    function ErrorTu(now: U64, timeToNext: U16, counter: U16): int {
      (counter / 4 - CurrentEaw(now)) * 4 * 16 - (timeToNext - NextAwTu(now))
    }

    /** Our clock once a master has announced its counter and its time to the next EAW. */
    function UpdateLast(now: U64, timeToNext: U16, counter: U16): Clock {
      Clock(counter / 4 * 4, Wrap64(now - (64 - timeToNext) * 1024))
    }

    // ---- The same clock on the integers ----

    /** The number of the EAW at instant `t`, before or after the last update, without any wrap-around. */
    ghost function Eaw(t: int): int { awCounter / 4 + (t - lastUpdate) / 65536 }

    /** Where in its EAW the instant `t` lies. */
    ghost function Phase(t: int): (p: nat)
      ensures p < 65536
    {
      (t - lastUpdate) % 65536
    }

    /** When EAW number `e` starts. */
    ghost function StartOf(e: int): int { lastUpdate + (e - awCounter / 4) * 65536 }
  }

  /** The sync state of a node, updated in place. */
  class SyncState {
    var awCounter: U16
    var lastUpdate: U64
    var measErr: U64
    var measTotal: U64

    function Value(): Clock
      reads this
    {
      Clock(awCounter, lastUpdate)
    }

    constructor (now: U64)
      ensures Value() == Clock(0, now) && Value().Valid() && measErr == measTotal == 0
    {
      lastUpdate := now;
      awCounter := 0;
      measErr := 0;
      measTotal := 0;
    }

    method UpdateLast(now: U64, timeToNext: U16, counter: U16)
      modifies this`awCounter, this`lastUpdate
      ensures Value() == old(Value()).UpdateLast(now, timeToNext, counter) && Value().Valid()
    {
      lastUpdate := Wrap64(now - Wrap64(Wrap64(64 - timeToNext) * 1024));
      awCounter := counter - counter % 4;
      LastUpdateWraps(now, timeToNext);
    }
  }

  /** Computing the start of the window in 64-bit steps only wraps the final result. */
  lemma LastUpdateWraps(now: U64, timeToNext: U16)
    ensures Wrap64(now - Wrap64(Wrap64(64 - timeToNext) * 1024)) == Wrap64(now - (64 - timeToNext) * 1024)
  {
    var d := 64 - timeToNext;
    var q := (d - Wrap64(d)) / 0x1_0000_0000_0000_0000;
    assert Wrap64(d) * 1024 == d * 1024 - q * 1024 * 0x1_0000_0000_0000_0000;
    WrapShift(d * 1024, -q * 1024);
    var e := d * 1024;
    var r := (e - Wrap64(e)) / 0x1_0000_0000_0000_0000;
    assert now - Wrap64(e) == now - e + r * 0x1_0000_0000_0000_0000;
    WrapShift(now - e, r);
  }

  lemma WrapShift(n: int, q: int)
    ensures Wrap64(n + q * 0x1_0000_0000_0000_0000) == Wrap64(n)
  {
  }

  // ---- Division by the constants of the schedule ----

  lemma Div65536(n: int, q: int, r: int)
    requires n == q * 65536 + r && 0 <= r < 65536
    ensures n / 65536 == q && n % 65536 == r
  {
  }

  lemma Div16384(n: int, q: int, r: int)
    requires n == q * 16384 + r && 0 <= r < 16384
    ensures n / 16384 == q && n % 16384 == r
  {
  }

  lemma Div1024(n: int, q: int, r: int)
    requires n == q * 1024 + r && 0 <= r < 1024
    ensures n / 1024 == q && n % 1024 == r
  {
  }

  lemma Div64(n: int, q: int, r: int)
    requires n == q * 64 + r && 0 <= r < 64
    ensures n / 64 == q && n % 64 == r
  {
  }

  lemma Mod16384(n: int, k: int)
    ensures (n + k * 16384) % 16384 == n % 16384
  {
    Div16384(n + k * 16384, n / 16384 + k, n % 16384);
  }

  // ---- Machine arithmetic equals integer arithmetic ----

  /** The time since the last update, as the code computes it, is off by a multiple of 2^64. */
  lemma TimeSinceExact(c: Clock, t: int) returns (q: int)
    ensures c.TimeSince(Wrap64(t)) == t - c.lastUpdate + q * 0x1_0000_0000_0000_0000
  {
    var w := c.TimeSince(Wrap64(t));
    q := (Wrap64(t) - t) / 0x1_0000_0000_0000_0000 + (w - (Wrap64(t) - c.lastUpdate)) / 0x1_0000_0000_0000_0000;
  }

  /** Windows and position within the window since the last update, as the code computes them. */
  lemma Windows(c: Clock, t: int) returns (windows: int)
    ensures c.TimeSince(Wrap64(t)) == windows * 65536 + c.Phase(t) && windows >= 0
    ensures windows % 16384 == ((t - c.lastUpdate) / 65536) % 16384
    ensures c.TimeSince(Wrap64(t)) / 1024 == windows * 64 + c.Phase(t) / 1024
    ensures c.TimeSince(Wrap64(t)) % 65536 == c.Phase(t)
  {
    var q := TimeSinceExact(c, t);
    var w, y := c.TimeSince(Wrap64(t)), t - c.lastUpdate;
    var p := c.Phase(t);
    windows := y / 65536 + q * 0x1_0000_0000_0000;
    assert y == (y / 65536) * 65536 + p;
    assert w == windows * 65536 + p;
    Div65536(w, windows, p);
    Mod16384(y / 65536, q * 0x4_0000_0000);
    assert p == (p / 1024) * 1024 + p % 1024;
    Div1024(w, windows * 64 + p / 1024, p % 1024);
  }

  /** The EAW the code computes is the true one modulo 2^14, although the subtraction may underflow 64 bits and
      the counter truncates to 16: also for an instant given as `now - eaw` before the last update. */
  lemma CurrentEawExact(c: Clock, t: int)
    requires c.Valid()
    ensures c.CurrentEaw(Wrap64(t)) == c.Eaw(t) % 16384
  {
    var windows := Windows(c, t);
    var p := c.Phase(t);
    var tu := c.TimeSince(Wrap64(t)) / 1024;
    Div64(tu, windows, p / 1024);
    var r := (p / 1024) / 16;
    QuarterOfWrapped(c.awCounter / 4 + windows, r);
    var m, y := c.awCounter / 4, (t - c.lastUpdate) / 65536;
    Mod16384(m + y, (windows - y) / 16384);
    assert windows - y == (windows - y) / 16384 * 16384 by { SameRemainder(windows, y); }
  }

  lemma SameRemainder(a: int, b: int)
    requires a % 16384 == b % 16384
    ensures a - b == (a - b) / 16384 * 16384
  {
    Div16384(a - b, a / 16384 - b / 16384, 0);
  }

  lemma QuarterOfWrapped(m: int, r: nat)
    requires r < 4
    ensures Wrap16(4 * m + r) / 4 == m % 16384
  {
    Div65536(4 * m + r, m / 16384, 4 * (m % 16384) + r);
  }

  /** The window counter counts windows of 16 time units, of which an EAW has four, from the last update on, before
      or after it, and wraps at 16 bits. */
  lemma CurrentAwExact(c: Clock, t: int)
    ensures c.CurrentAw(Wrap64(t)) == (c.awCounter + (t - c.lastUpdate) / 16384) % 65536
  {
    var windows := Windows(c, t);
    var p, y := c.Phase(t), (t - c.lastUpdate) / 65536;
    Div64(c.TimeSince(Wrap64(t)) / 1024, windows, p / 1024);
    Quarters(t - c.lastUpdate, y, p);
    SameRemainder(windows, y);
    var k := (windows - y) / 16384;
    var n := c.awCounter + 4 * y + p / 16384;
    assert c.awCounter + p / 1024 / 16 + 4 * windows == n + k * 65536;
    Div65536(n + k * 65536, n / 65536 + k, n % 65536);
  }

  lemma Quarters(n: int, q: int, p: nat)
    requires n == q * 65536 + p && p < 65536
    ensures n / 16384 == 4 * q + p / 16384 && p / 1024 / 16 == p / 16384
  {
    Div16384(n, 4 * q + p / 16384, p % 16384);
  }

  lemma SlotOf(e: int)
    ensures (e % 16384) % 16 == e % 16
  {
  }

  lemma NextAwExact(c: Clock, t: int)
    ensures c.NextAwUs(Wrap64(t)) == 65536 - c.Phase(t)
    ensures c.NextAwTu(Wrap64(t)) == 64 - c.Phase(t) / 1024
  {
    var windows := Windows(c, t);
    Div64(c.TimeSince(Wrap64(t)) / 1024, windows, c.Phase(t) / 1024);
  }

  /** The EAW of an instant is the one whose start it follows by its phase. */
  lemma EawAndPhase(c: Clock, t: int)
    ensures t == c.StartOf(c.Eaw(t)) + c.Phase(t)
  {
  }

  /** An instant that lies `phase` after the start of EAW `e` is in that EAW. */
  lemma InEaw(c: Clock, t: int, e: int, phase: nat)
    requires phase < 65536 && t == c.StartOf(e) + phase
    ensures c.Eaw(t) == e && c.Phase(t) == phase
  {
    Div65536(t - c.lastUpdate, e - c.awCounter / 4, phase);
  }

  /** The time to the next EAW lies in 1..65536 and is exactly the distance to the next change of EAW. */
  lemma NextAwIsNextChange(c: Clock, t: int)
    ensures var d := c.NextAwUs(Wrap64(t));
            && 1 <= d <= 65536
            && c.Eaw(t + d) == c.Eaw(t) + 1
            && forall u | t <= u < t + d :: c.Eaw(u) == c.Eaw(t)
  {
    NextAwExact(c, t);
    EawAndPhase(c, t);
    var d := c.NextAwUs(Wrap64(t));
    InEaw(c, t + d, c.Eaw(t) + 1, 0);
    forall u | t <= u < t + d
      ensures c.Eaw(u) == c.Eaw(t)
    {
      InEaw(c, u, c.Eaw(t), c.Phase(t) + (u - t));
    }
  }

  lemma WrapSmall(n: U64)
    ensures Wrap64(n) == n
  {
  }

  /** One EAW earlier or later, in wrapping 64-bit arithmetic, is the previous or next EAW at the same phase. */
  lemma NeighbourEaw(c: Clock, now: U64)
    requires c.Valid()
    ensures c.CurrentEaw(Wrap64(now + 65536)) == (c.Eaw(now) + 1) % 16384
    ensures c.CurrentEaw(Wrap64(now - 65536)) == (c.Eaw(now) - 1) % 16384
    ensures c.CurrentEaw(now) == c.Eaw(now) % 16384
  {
    hide Wrap64, Clock.Eaw, Clock.Phase, Clock.CurrentEaw;
    WrapSmall(now);
    CurrentEawExact(c, now);
    CurrentEawExact(c, now + 65536);
    CurrentEawExact(c, now - 65536);
    EawAndPhase(c, now);
    InEaw(c, now + 65536, c.Eaw(now) + 1, c.Phase(now));
    InEaw(c, now - 65536, c.Eaw(now) - 1, c.Phase(now));
  }

  // ---- Following a master ----

  /** A follower's clock, seen from its master: it starts its windows `lag` later, up to multiples of 2^14 windows. */
  ghost predicate Lags(f: Clock, m: Clock, lag: nat, k: int) {
    f.StartOf(0) == m.StartOf(16384 * k) + lag
  }

  lemma WrapIs(n: int) returns (q: int)
    ensures Wrap64(n) == n + q * 0x1_0000_0000_0000_0000
  {
    q := -(n / 0x1_0000_0000_0000_0000);
  }

  /** What one announcement makes of a follower: the announced time unit count loses less than one unit. */
  lemma UpdateLags(m: Clock, now: U64) returns (k: int)
    requires m.Valid()
    ensures var f := m.UpdateLast(now, m.NextAwTu(now), m.CurrentAw(now));
            && f.Valid() && Lags(f, m, m.Phase(now) % 1024, k)
  {
    var f := m.UpdateLast(now, m.NextAwTu(now), m.CurrentAw(now));
    var p, e := m.Phase(now), m.Eaw(now);
    UpdateFields(m, now);
    EawAndPhase(m, now);
    var q := WrapIs(now - p / 1024 * 1024);
    hide Wrap64, Clock.Eaw, Clock.Phase, Clock.UpdateLast, Clock.NextAwTu, Clock.CurrentAw;
    StartAfterUpdate(f, m, now, p, p / 1024, p % 1024, e, e / 16384, e % 16384, q);
    k := e / 16384 + q * 0x4_0000_0000;
  }

  lemma UpdateFields(m: Clock, now: U64)
    requires m.Valid()
    ensures var f := m.UpdateLast(now, m.NextAwTu(now), m.CurrentAw(now));
            && f.Valid() && f.awCounter / 4 == m.Eaw(now) % 16384
            && f.lastUpdate == Wrap64(now - m.Phase(now) / 1024 * 1024)
  {
    hide Wrap64, Clock.Eaw, Clock.Phase, Clock.NextAwTu, Clock.CurrentAw;
    WrapSmall(now);
    NextAwExact(m, now);
    CurrentEawExact(m, now);
    var aw := m.CurrentAw(now);
    assert aw / 4 == m.Eaw(now) % 16384;
    FloorToFour(aw);
  }

  lemma FloorToFour(n: nat)
    ensures (n / 4 * 4) % 4 == 0 && (n / 4 * 4) / 4 == n / 4 && n / 4 * 4 <= n
  {
  }

  lemma StartAfterUpdate(f: Clock, m: Clock, now: int, p: nat, units: nat, lag: nat,
                         e: int, high: int, low: nat, q: int)
    requires now == m.StartOf(e) + p && p == units * 1024 + lag && e == high * 16384 + low
    requires f.awCounter / 4 == low && f.lastUpdate == now - units * 1024 + q * 0x1_0000_0000_0000_0000
    ensures Lags(f, m, lag, high + q * 0x4_0000_0000)
  {
  }

  lemma LaggingEaw(f: Clock, m: Clock, lag: nat, k: int, t: int)
    requires Lags(f, m, lag, k)
    ensures f.Eaw(t) == m.Eaw(t - lag) - 16384 * k && f.Phase(t) == m.Phase(t - lag)
  {
    EawAndPhase(m, t - lag);
    InEaw(f, t, m.Eaw(t - lag) - 16384 * k, m.Phase(t - lag));
  }

  /** The error a node sees in an announcement, whatever the two clocks: how many time units the announcing clock is
      ahead of its own, counted within the 2^14 windows. */
  lemma ErrorIsDistance(f: Clock, m: Clock, t: int)
    requires f.Valid() && m.Valid()
    ensures f.ErrorTu(Wrap64(t), m.NextAwTu(Wrap64(t)), m.CurrentAw(Wrap64(t))) ==
            64 * (m.Eaw(t) % 16384) + m.Phase(t) / 1024 - (64 * (f.Eaw(t) % 16384) + f.Phase(t) / 1024)
  {
    hide Wrap64, Clock.Eaw, Clock.Phase, Clock.NextAwTu, Clock.CurrentAw;
    NextAwExact(m, t);
    NextAwExact(f, t);
    CurrentEawExact(m, t);
    CurrentEawExact(f, t);
    assert m.CurrentEaw(Wrap64(t)) == m.CurrentAw(Wrap64(t)) / 4;
  }

  /** A follower that applies what its master computed at the instant `now` then sees no error, and at every
      instant its EAW is the one its master was in `lag` < 1024 microseconds before, across counter wrap. */
  lemma FollowerLocks(m: Clock, now: U64, t: int)
    requires m.Valid()
    ensures var f := m.UpdateLast(now, m.NextAwTu(now), m.CurrentAw(now));
            var lag := m.Phase(now) % 1024;
            && lag < 1024 && f.Valid()
            && f.ErrorTu(now, m.NextAwTu(now), m.CurrentAw(now)) == 0
            && f.Eaw(t) % 16384 == m.Eaw(t - lag) % 16384
  {
    var f := m.UpdateLast(now, m.NextAwTu(now), m.CurrentAw(now));
    var lag := m.Phase(now) % 1024;
    var k := UpdateLags(m, now);
    LaggingEaw(f, m, lag, k, t);
    Mod16384(m.Eaw(t - lag), -k);
    NoErrorAtUpdate(f, m, now, lag, k);
  }

  lemma NoErrorAtUpdate(f: Clock, m: Clock, now: U64, lag: nat, k: int)
    requires f.Valid() && m.Valid() && lag == m.Phase(now) % 1024 && Lags(f, m, lag, k)
    ensures f.ErrorTu(now, m.NextAwTu(now), m.CurrentAw(now)) == 0
  {
    hide Wrap64, Clock.Eaw, Clock.Phase, Clock.NextAwTu, Clock.CurrentAw, Clock.StartOf, Lags;
    SameAtUpdate(f, m, now, lag, k);
    WrapSmall(now);
    NextAwExact(m, now);
    NextAwExact(f, now);
    CurrentEawExact(m, now);
    CurrentEawExact(f, now);
    var p := m.Phase(now);
    Div1024(p - lag, p / 1024, 0);
    assert f.CurrentEaw(now) == m.CurrentAw(now) / 4;
    assert f.NextAwTu(now) == m.NextAwTu(now);
  }

  lemma SameAtUpdate(f: Clock, m: Clock, now: U64, lag: nat, k: int)
    requires lag == m.Phase(now) % 1024 && Lags(f, m, lag, k)
    ensures f.Eaw(now) % 16384 == m.Eaw(now) % 16384 && f.Phase(now) == m.Phase(now) - lag
  {
    hide Clock.Eaw, Clock.Phase, Lags;
    LaggingEaw(f, m, lag, k, now);
    EawAndPhase(m, now);
    InEaw(m, now - lag, m.Eaw(now), m.Phase(now) - lag);
    Mod16384(m.Eaw(now), -k);
  }

  /** So the slots agree at every instant, before or after, except in the first `lag` < 1024 microseconds of each
      of the master's windows, where the follower is still in the window before. */
  lemma FollowerSlots(m: Clock, now: U64, t: int)
    requires m.Valid()
    ensures var f := m.UpdateLast(now, m.NextAwTu(now), m.CurrentAw(now));
            var lag := m.Phase(now) % 1024;
            && f.CurrentEaw(Wrap64(t)) ==
               if m.Phase(t) >= lag then m.CurrentEaw(Wrap64(t)) else (m.Eaw(t) - 1) % 16384
  {
    var f := m.UpdateLast(now, m.NextAwTu(now), m.CurrentAw(now));
    var lag := m.Phase(now) % 1024;
    FollowerLocks(m, now, t);
    CurrentEawExact(m, t);
    CurrentEawExact(f, t);
    EawAndPhase(m, t);
    if m.Phase(t) >= lag {
      InEaw(m, t - lag, m.Eaw(t), m.Phase(t) - lag);
    } else {
      InEaw(m, t - lag, m.Eaw(t) - 1, m.Phase(t) - lag + 65536);
    }
  }
}
