/** Mapping radio receive timestamps to host time, over whole sequences of samples. */
module RxClock {
  import opened Machine
  import opened Modular

  const INT64_MAX: nat := 0x7fff_ffff_ffff_ffff

  /** The estimator: the host time that corresponds to hardware time 0, and the latest hardware time. */
  datatype State = State(initialized: bool, offset: int, lastHardware: U64)

  /** A frame with its radio timestamp and its delivery time on the host, in microseconds. */
  datatype Sample = Sample(hardware: U64, host: U64) {
    /** The timestamps can be used at all. */
    predicate Usable() { 0 < hardware <= INT64_MAX && host <= INT64_MAX }

    function Observed(): int { host - hardware }
  }

  function Max(a: U64, b: U64): U64 { if a > b then a else b }

  function Least(a: U64, b: U64): U64 { if a < b then a else b }

  /** The estimator (re)starts on this sample: it is the first, or the radio clock went back by over 0.1 s. */
  predicate Restarts(c: State, s: Sample) {
    !c.initialized || (s.hardware < c.lastHardware && c.lastHardware - s.hardware > 100_000)
  }

  /** The sample was delivered between 0.1 s and 1 s late: its mapped time is used, but nothing is learnt. */
  predicate Delayed(c: State, s: Sample) {
    s.Usable() && !Restarts(c, s) && 100_000 < s.Observed() - c.offset <= 1_000_000
  }

  function Step(c: State, s: Sample): State {
    if !s.Usable() then c
    else if Restarts(c, s) then State(true, s.Observed(), s.hardware)
    else
      var change := s.Observed() - c.offset;
      if change > 100_000 || change < -100_000 then
        if Delayed(c, s) then c.(lastHardware := Max(c.lastHardware, s.hardware)) else c
      else
        c.(offset := c.offset + (if change < 0 then TruncDiv(change, 4) else change / 1024),
           lastHardware := Max(c.lastHardware, s.hardware))
  }

  /** The time returned for a sample. */
  function Time(c: State, s: Sample): U64 {
    if !s.Usable() || Restarts(c, s) then s.host
    else
      var change := s.Observed() - c.offset;
      if change > 100_000 || change < -100_000 then
        if Delayed(c, s) then Wrap64(s.hardware + c.offset) else s.host
      else
        var corrected := Wrap64(s.hardware + Step(c, s).offset);
        if corrected < s.host then corrected else s.host
  }

  /** An offset of `o` becomes `o'` on a sample whose own offset is `x`: a sample that is late by d raises it by the
      whole part of d / 1024, and one that is early by d lowers it by the whole part of d / 4. */
  predicate Filtered(o: int, x: int, o': int) {
    if x >= o then 1024 * (o' - o) <= x - o < 1024 * (o' - o + 1) else 4 * (o - o') <= o - x < 4 * (o - o' + 1)
  }

  /** The estimator as the daemon keeps it. */
  class Clock {
    var initialized: bool
    var offset: int
    var lastHardware: U64

    function Value(): State
      reads this
    {
      State(initialized, offset, lastHardware)
    }

    constructor ()
      ensures Value() == State(false, 0, 0)
    {
      initialized, offset, lastHardware := false, 0, 0;
    }

    method TimeOf(hardware: U64, host: U64) returns (time: U64)
      modifies this
      ensures Value() == Step(old(Value()), Sample(hardware, host))
      ensures time == Time(old(Value()), Sample(hardware, host))
      // The same by cases, on the offset and the sample alone.
      ensures !(0 < hardware <= INT64_MAX && host <= INT64_MAX) ==> unchanged(this) && time == host
      ensures 0 < hardware <= INT64_MAX && host <= INT64_MAX ==>
                var late := host - hardware - old(offset);
                if !old(initialized) || old(lastHardware) - hardware > 100_000
                then initialized && offset == host - hardware && lastHardware == hardware && time == host
                else if late > 1_000_000 || late < -100_000 then unchanged(this) && time == host
                else && initialized
                     && lastHardware == (if hardware > old(lastHardware) then hardware else old(lastHardware))
                     && (if late > 100_000 then offset == old(offset) && time == Wrap64(hardware + offset)
                         else && Filtered(old(offset), host - hardware, offset)
                              && time == Least(Wrap64(hardware + offset), host))
    {
      if hardware == 0 || hardware > INT64_MAX || host > INT64_MAX {
        return host;
      }
      var observed := host - hardware;
      if !initialized || (hardware < lastHardware && lastHardware - hardware > 100_000) {
        initialized := true;
        offset := observed;
        lastHardware := hardware;
        return host;
      }
      var distance := if observed >= offset then observed - offset else offset - observed;
      if distance > 100_000 {
        if observed > offset && distance <= 1_000_000 {
          if hardware > lastHardware {
            lastHardware := hardware;
          }
          return Wrap64(hardware + offset);
        }
        return host;
      }
      var change := observed - offset;
      offset := offset + if change < 0 then TruncDiv(change, 4) else change / 1024;
      if hardware > lastHardware {
        lastHardware := hardware;
      }
      var corrected := Wrap64(hardware + offset);
      time := if corrected < host then corrected else host;
    }
  }

  // ---- One sample ----

  /** The returned time is at most the host time, except exactly when a delayed sample maps to before the host's
      clock started: the sum is then negative and wraps to a huge unsigned time. */
  lemma TimeAtMostHost(c: State, s: Sample)
    ensures Time(c, s) <= s.host <==> !(Delayed(c, s) && s.hardware + c.offset < 0)
  {
  }

  /** Once the host has been up for a second, the returned time is the host time or less, by one second at most. */
  lemma TimeWithinSecond(c: State, s: Sample)
    requires s.host >= 1_000_000
    ensures 0 <= s.host - Time(c, s) <= 1_000_000
  {
  }

  /** The offset moves toward the observed one, and never past it. */
  lemma OffsetMovesTowardObserved(c: State, s: Sample)
    ensures var o := Step(c, s).offset;
            || o == c.offset
            || c.offset <= o <= s.Observed()
            || s.Observed() <= o <= c.offset
            || (Restarts(c, s) && o == s.Observed())
  {
  }

  /** One usable sample that does not restart the estimator, by how late it is under the mapping in force. */
  lemma FilterGains(c: State, s: Sample)
    requires s.Usable() && c.initialized && c.lastHardware - s.hardware <= 100_000
    ensures var n, late := Step(c, s), s.Observed() - c.offset;
            && n.initialized && n.lastHardware in {c.lastHardware, s.hardware}
            && if -100_000 <= late <= 100_000 then Filtered(c.offset, s.Observed(), n.offset) else n.offset == c.offset
  {
  }

  // ---- Whole sequences ----

  ghost function Run(c: State, samples: seq<Sample>): State
    decreases |samples|
  {
    if samples == [] then c else Run(Step(c, samples[0]), samples[1..])
  }

  ghost function Times(c: State, samples: seq<Sample>): (ts: seq<U64>)
    ensures |ts| == |samples|
    decreases |samples|
  {
    if samples == [] then [] else [Time(c, samples[0])] + Times(Step(c, samples[0]), samples[1..])
  }

  /** Over any sequence, however often the radio clock restarts, the offset stays between any bounds on the
      observed offsets: in particular between the least and the greatest. It always fits in 64 bits. */
  lemma {:induction false} OffsetBounded(c: State, samples: seq<Sample>, lo: int, hi: int)
    requires c.initialized ==> lo <= c.offset <= hi
    requires forall s <- samples :: s.Usable() ==> lo <= s.Observed() <= hi
    ensures Run(c, samples).initialized ==> lo <= Run(c, samples).offset <= hi
    decreases |samples|
  {
    if samples != [] {
      OffsetMovesTowardObserved(c, samples[0]);
      assert forall s <- samples[1..] :: s in samples;
      OffsetBounded(Step(c, samples[0]), samples[1..], lo, hi);
    }
  }

  lemma OffsetFits(samples: seq<Sample>)
    ensures -0x8000_0000_0000_0000 <= Run(State(false, 0, 0), samples).offset <= INT64_MAX
  {
    OffsetBounded(State(false, 0, 0), samples, -0x7fff_ffff_ffff_ffff, 0x7fff_ffff_ffff_ffff);
    UninitializedIsZero(State(false, 0, 0), samples);
  }

  lemma {:induction false} UninitializedIsZero(c: State, samples: seq<Sample>)
    requires !c.initialized ==> c.offset == 0
    ensures !Run(c, samples).initialized ==> Run(c, samples).offset == 0
    decreases |samples|
  {
    if samples != [] { UninitializedIsZero(Step(c, samples[0]), samples[1..]); }
  }

  /** What every estimator the code can reach satisfies: the latest hardware time does not map to before time 0. */
  predicate Grounded(c: State) { c.initialized ==> c.lastHardware + c.offset >= 0 }

  lemma {:induction false} ReachableIsGrounded(c: State, samples: seq<Sample>)
    requires Grounded(c)
    ensures Grounded(Run(c, samples))
    decreases |samples|
  {
    if samples != [] { ReachableIsGrounded(Step(c, samples[0]), samples[1..]); }
  }

  /** After any samples on a fresh estimator, a time beyond the host's takes a sample whose hardware time is behind
      the latest one, as a caller can check: without that the sum cannot be negative. */
  lemma OnlyBackwardSamplesExceed(samples: seq<Sample>, s: Sample)
    ensures var c := Run(State(false, 0, 0), samples);
            && (c.initialized && s.hardware >= c.lastHardware ==> Time(c, s) <= s.host)
            && (Time(c, s) <= s.host <==> !(Delayed(c, s) && s.hardware + c.offset < 0))
  {
    ReachableIsGrounded(State(false, 0, 0), samples);
    TimeAtMostHost(Run(State(false, 0, 0), samples), s);
  }

  /** Such a run: the first sample is taken when the host clock reads 0, and the second, 0.05 s older by the radio's
      clock, is delivered 0.1 s later. */
  lemma TimeCanExceedHost()
    ensures var first, second := Sample(100_000, 0), Sample(50_000, 100_000);
            var ts := Times(State(false, 0, 0), [first, second]);
            ts[0] == 0 && ts[1] > second.host
  {
    var c, first, second := State(false, 0, 0), Sample(100_000, 0), Sample(50_000, 100_000);
    assert [first, second][1..] == [second];
    assert Times(c, [first, second])[1] == Times(Step(c, first), [second])[0];
  }

  /** Both clocks advance, from hardware time `hw` and host time `host` on, and no sample exceeds the mapping in
      force by more than a second. */
  ghost predicate Steady(c: State, samples: seq<Sample>, hw: U64, host: U64)
    decreases |samples|
  {
    samples == [] ||
    (var s := samples[0];
     && s.Usable() && hw <= s.hardware && host <= s.host
     && (c.initialized ==> s.Observed() - c.offset <= 1_000_000)
     && Steady(Step(c, s), samples[1..], s.hardware, s.host))
  }

  /** What one steady sample returns: the lesser of its host time and its hardware time under the new mapping. */
  lemma SteadyTime(c: State, s: Sample)
    requires Grounded(c) && s.Usable() && (c.initialized ==> c.lastHardware <= s.hardware)
    requires c.initialized ==> s.Observed() - c.offset <= 1_000_000
    ensures var n, t := Step(c, s), Time(c, s);
            && n.initialized && n.lastHardware <= s.hardware && Grounded(n)
            && t == (if s.hardware + n.offset < s.host then s.hardware + n.offset else s.host)
            && (c.initialized && n.offset < c.offset ==> t == s.host)
  {
    if c.initialized {
      var change := s.Observed() - c.offset;
      assert !Restarts(c, s) && Max(c.lastHardware, s.hardware) == s.hardware;
      if change > 100_000 {
        assert Delayed(c, s) && Step(c, s) == c.(lastHardware := s.hardware);
      } else if change < -100_000 {
        assert !Delayed(c, s) && Step(c, s) == c && Time(c, s) == s.host;
      } else {
        SmallStep(change);
        var t := s.hardware + Step(c, s).offset;
        assert 0 <= t <= INT64_MAX + 100_000 && Wrap64(t) == t;
      }
    }
  }

  /** A small correction goes part of the way. */
  lemma SmallStep(change: int)
    requires -100_000 <= change <= 100_000
    ensures var d := if change < 0 then TruncDiv(change, 4) else change / 1024;
            if change < 0 then change <= d <= 0 else 0 <= d <= change
  {
  }

  /** The last time returned, `t`, came from a mapping that is still in force. */
  ghost predicate Anchored(c: State, hw: U64, host: U64, t: U64) {
    && t <= host
    && (c.initialized ==> c.lastHardware <= hw && t <= hw + c.offset)
  }

  lemma {:induction false} TimesFrom(c: State, samples: seq<Sample>, hw: U64, host: U64, t: U64)
    requires Grounded(c) && Steady(c, samples, hw, host) && Anchored(c, hw, host, t)
    ensures forall i | 0 <= i < |samples| :: t <= Times(c, samples)[i]
    ensures forall i, j | 0 <= i <= j < |samples| :: Times(c, samples)[i] <= Times(c, samples)[j]
    decreases |samples|
  {
    if samples != [] {
      var s := samples[0];
      SteadyTime(c, s);
      var t' := Time(c, s);
      assert t <= t';
      TimesFrom(Step(c, s), samples[1..], s.hardware, s.host, t');
      forall i, j | 0 <= i <= j < |samples|
        ensures t <= Times(c, samples)[i] && Times(c, samples)[i] <= Times(c, samples)[j]
      {
        if i > 0 {
          assert Times(c, samples)[i] == Times(Step(c, s), samples[1..])[i - 1];
        }
        if j > 0 {
          assert Times(c, samples)[j] == Times(Step(c, s), samples[1..])[j - 1];
        }
      }
      forall i | 0 <= i < |samples|
        ensures t <= Times(c, samples)[i]
      {
        assert i <= i;
      }
    }
  }

  /** On steady samples from a fresh estimator the returned times never go back and never exceed the host's, whatever
      delays, stalls and drops occur on the way. */
  lemma TimesNeverGoBack(samples: seq<Sample>)
    requires Steady(State(false, 0, 0), samples, 0, 0)
    ensures var ts := Times(State(false, 0, 0), samples);
            forall i, j | 0 <= i <= j < |samples| :: ts[i] <= ts[j]
    ensures forall i | 0 <= i < |samples| :: Times(State(false, 0, 0), samples)[i] <= samples[i].host
  {
    TimesFrom(State(false, 0, 0), samples, 0, 0, 0);
    TimesWithinHost(State(false, 0, 0), samples, 0, 0);
  }

  lemma {:induction false} TimesWithinHost(c: State, samples: seq<Sample>, hw: U64, host: U64)
    requires Grounded(c) && Steady(c, samples, hw, host) && (c.initialized ==> c.lastHardware <= hw)
    ensures forall i | 0 <= i < |samples| :: Times(c, samples)[i] <= samples[i].host
    decreases |samples|
  {
    if samples != [] {
      var s := samples[0];
      SteadyTime(c, s);
      TimesWithinHost(Step(c, s), samples[1..], s.hardware, s.host);
      forall i | 0 <= i < |samples|
        ensures Times(c, samples)[i] <= samples[i].host
      {
        if i > 0 { assert Times(c, samples)[i] == Times(Step(c, s), samples[1..])[i - 1]; }
      }
    }
  }

  /** A fresh estimator on any samples. */
  method TimeAll(samples: seq<Sample>) returns (clock: Clock, times: seq<U64>)
    ensures fresh(clock) && clock.Value() == Run(State(false, 0, 0), samples)
    ensures times == Times(State(false, 0, 0), samples)
  {
    hide Step, Time;
    clock := new Clock();
    times := [];
    var i := 0;
    while i < |samples|
      invariant 0 <= i <= |samples| && fresh(clock)
      invariant Run(clock.Value(), samples[i..]) == Run(State(false, 0, 0), samples)
      invariant times + Times(clock.Value(), samples[i..]) == Times(State(false, 0, 0), samples)
    {
      assert samples[i..][0] == samples[i] && samples[i..][1..] == samples[i + 1..];
      var time := clock.TimeOf(samples[i].hardware, samples[i].host);
      times := times + [time];
      i := i + 1;
    }
  }

  // ---- The filter over whole sequences ----

  /** The estimator is running, and no usable sample is more than 0.1 s, by the radio's clock, behind an earlier one. */
  ghost predicate Onward(c: State, samples: seq<Sample>) {
    && c.initialized
    && (forall i | 0 <= i < |samples| && samples[i].Usable() :: c.lastHardware - samples[i].hardware <= 100_000)
    && (forall i, j | 0 <= i < j < |samples| && samples[i].Usable() && samples[j].Usable() ::
          samples[i].hardware - samples[j].hardware <= 100_000)
  }

  lemma OnwardRest(c: State, samples: seq<Sample>)
    requires Onward(c, samples) && samples != []
    ensures Onward(Step(c, samples[0]), samples[1..])
  {
    if samples[0].Usable() { FilterGains(c, samples[0]); }
    hide Step;
    var rest := samples[1..];
    forall i | 0 <= i < |rest|
      ensures rest[i] == samples[i + 1]
    {
    }
  }

  /** Delivery that stalls hardly moves the mapping: `n` samples, none of them more than `late` behind it as it was at
      first, raise it by at most n late / 1024, whatever else they are. */
  lemma RisesSlowly(c: State, samples: seq<Sample>, late: nat)
    requires Onward(c, samples) && forall s <- samples :: s.Usable() ==> s.Observed() <= c.offset + late
    ensures 1024 * (Run(c, samples).offset - c.offset) <= |samples| * late
  {
    RisesFrom(c, samples, c.offset, late, 0);
  }

  lemma {:induction false} RisesFrom(c: State, samples: seq<Sample>, start: int, late: nat, k: nat)
    requires Onward(c, samples) && forall s <- samples :: s.Usable() ==> s.Observed() <= start + late
    requires 1024 * (c.offset - start) <= k * late
    ensures 1024 * (Run(c, samples).offset - start) <= (k + |samples|) * late
    decreases |samples|
  {
    if samples != [] {
      var s, rest := samples[0], samples[1..];
      OnwardRest(c, samples);
      RisesOnce(c, s, start, late, k);
      assert forall x <- rest :: x in samples;
      hide Step, Onward;
      RisesFrom(Step(c, s), rest, start, late, k + 1);
    }
  }

  lemma RisesOnce(c: State, s: Sample, start: int, late: nat, k: nat)
    requires s.Usable() ==> s.Observed() <= start + late && c.initialized && c.lastHardware - s.hardware <= 100_000
    requires 1024 * (c.offset - start) <= k * late
    ensures 1024 * (Step(c, s).offset - start) <= (k + 1) * late
  {
    assert (k + 1) * late == k * late + late && k * late >= 0;
    if s.Usable() { FilterGains(c, s); }
  }

  /** The mapping approaches one that all samples agree on and lies below it by a quarter of what is left with each
      sample, and one above it by a 1024th, up to rounding; no faster, and no slower. */
  lemma Approaches(c: State, samples: seq<Sample>, x: int)
    requires Onward(c, samples) && -100_000 <= x - c.offset <= 100_000
    requires forall s <- samples :: s.Usable() && s.Observed() == x
    ensures var n, before, after := |samples|, c.offset - x, Run(c, samples).offset - x;
            && (x < c.offset ==> 0 <= after && Pow(3, n) * before <= Pow(4, n) * after
                                 && Pow(4, n) * (after - 3) <= Pow(3, n) * (before - 3))
            && (x >= c.offset ==> 0 <= -after && Pow(1023, n) * -before <= Pow(1024, n) * -after
                                  && Pow(1024, n) * (-after - 1023) <= Pow(1023, n) * (-before - 1023))
  {
    var above, o := x < c.offset, Run(c, samples).offset;
    Decays(c, samples, x, above, if above then 4 else 1024, Gap(above, c.offset, x), Gap(above, o, x));
  }

  /** `g` is what `n` losses of one `m`th each, rounded down, leave of `g0`, up to rounding. */
  ghost predicate Decayed(m: nat, n: nat, g0: int, g: int)
    requires m > 0
  {
    && 0 <= g <= g0 && Pow(m - 1, n) * g0 <= Pow(m, n) * g
    && Pow(m, n) * (g - (m - 1)) <= Pow(m - 1, n) * (g0 - (m - 1))
  }

  /** How far the mapping is above `x`, or below it. */
  function Gap(above: bool, o: int, x: int): int { if above then o - x else x - o }

  lemma {:induction false} Decays(c: State, samples: seq<Sample>, x: int, above: bool, m: nat, g0: int, g: int)
    requires Onward(c, samples) && m == (if above then 4 else 1024) && g0 == Gap(above, c.offset, x)
    requires g == Gap(above, Run(c, samples).offset, x) && 0 <= g0 <= 100_000
    requires forall s <- samples :: s.Usable() && s.Observed() == x
    ensures Decayed(m, |samples|, g0, g)
    decreases |samples|
  {
    if samples == [] {
      assert Pow(m, 0) == Pow(m - 1, 0) == 1;
    } else {
      var s, rest := samples[0], samples[1..];
      var g1 := Gap(above, Step(c, s).offset, x);
      OnwardRest(c, samples);
      OneGap(c, s, x, above, m);
      assert forall y <- rest :: y in samples;
      hide Step, Onward, Decayed, Gap, Pow;
      Decays(Step(c, s), rest, x, above, m, g1, g);
      DecaysOnce(m, |rest|, g0, g1, g);
    }
  }

  lemma OneGap(c: State, s: Sample, x: int, above: bool, m: nat)
    requires s.Usable() && c.initialized && c.lastHardware - s.hardware <= 100_000 && s.Observed() == x
    requires m == (if above then 4 else 1024) && 0 <= Gap(above, c.offset, x) <= 100_000
    ensures var g0, g1 := Gap(above, c.offset, x), Gap(above, Step(c, s).offset, x);
            0 <= g1 <= g0 && m * (g0 - g1) <= g0 < m * (g0 - g1 + 1)
  {
    FilterGains(c, s);
    hide Step;
  }

  lemma DecaysOnce(m: nat, n: nat, g0: int, g1: int, g: int)
    requires m > 1 && 0 <= g1 <= g0 && m * (g0 - g1) <= g0 < m * (g0 - g1 + 1) && Decayed(m, n, g1, g)
    ensures Decayed(m, n + 1, g0, g)
  {
    var p, q := Pow(m, n), Pow(m - 1, n);
    PowNat(m - 1, n);
    OneLoss(m, g0, g1);
    assert p * -g <= q * -g1;
    Chain(m, p, q, -g, -g1, -g0);
    Chain(m, p, q, g - (m - 1), g1 - (m - 1), g0 - (m - 1));
    Negated(m * p, g);
    Negated((m - 1) * q, g0);
  }

  lemma Negated(a: int, b: int)
    ensures a * -b == -(a * b)
  {
  }

  lemma {:induction false} PowNat(b: nat, e: nat)
    ensures Pow(b, e) >= 0
  {
    if e > 0 { PowNat(b, e - 1); }
  }

  lemma OneLoss(m: nat, g0: int, g1: int)
    requires m > 1 && m * (g0 - g1) <= g0 < m * (g0 - g1 + 1)
    ensures m * -g1 <= (m - 1) * -g0 && m * (g1 - (m - 1)) <= (m - 1) * (g0 - (m - 1))
  {
  }

  lemma Chain(m: nat, p: int, q: nat, a: int, b: int, c: int)
    requires m > 0 && p * a <= q * b && m * b <= (m - 1) * c
    ensures (m * p) * a <= ((m - 1) * q) * c
  {
    calc {
      (m * p) * a;
      m * (p * a);
    <=
      m * (q * b);
      q * (m * b);
    <=
      q * ((m - 1) * c);
      ((m - 1) * q) * c;
    }
  }
}
