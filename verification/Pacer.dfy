/** The rate pacer: an accumulator of time deviations that amounts to an absolute schedule. Times are
    nanoseconds; the accumulator and the interval are microseconds, as in the program. */
module Pacer {
  import opened Prelude
  import opened Runtime

  // ---------- one wait

  datatype PacerState = PacerState(lastSnd: int, timedev: int)

  function InterSend(st: PacerState, interval: int): int {
    if st.timedev > interval then 0 else interval - st.timedev
  }

  /** The deadline of the next wait. */
  function NextTime(st: PacerState, interval: int): int {
    st.lastSnd + 1000 * InterSend(st, interval)
  }

  /** The state after a wait that sampled the clock at `now`. */
  function AfterWait(st: PacerState, interval: int, now: int): PacerState {
    PacerState(now, st.timedev + TruncDiv(now - st.lastSnd, 1000) - interval)
  }

  /** A pacer, its clock and its break flag after a wait. */
  datatype Waiting = Waiting(st: PacerState, time: Time, quietReads: Option<nat>)

  function Waited(st: PacerState, spin: bool, interval: int, time: Time, quietReads: Option<nat>): Waiting {
    var next := NextTime(st, interval);
    if spin then
      var spun := Spin(time, next, quietReads);
      Waiting(AfterWait(st, interval, spun.time.now), spun.time, spun.quietReads)
    else
      var t := Tick(time);
      Waiting(AfterWait(st, interval, t.now), if t.now >= next then t else Slept(t, next), quietReads)
  }

  class RatePacer {
    const spinWait: bool
    const interval: int
    var lastSnd: nat
    var timedev: int

    constructor (sendrate: nat, messageSize: nat, spinWait: bool, clock: Clock)
      requires messageSize > 0
      modifies clock
      ensures this.spinWait == spinWait && interval == MsgInterval(sendrate, messageSize)
      ensures clock.time == Tick(old(clock.time)) && lastSnd == clock.time.now && timedev == 0
    {
      this.spinWait := spinWait;
      interval := MsgInterval(sendrate, messageSize);
      var t := clock.Now();
      lastSnd, timedev := t, 0;
    }

    function View(): PacerState
      reads this
    {
      PacerState(lastSnd, timedev)
    }

    /** Waits for the next release. The clock reading that the accumulator uses is the release itself
        when spinning; otherwise it is the reading taken before going to sleep, which happens only when
        the deadline is still ahead, and the break flag is not looked at. */
    method Wait(clock: Clock, forceBreak: BreakToken)
      requires lastSnd <= clock.time.now && interval >= 0
      modifies this, clock, forceBreak
      ensures Waiting(View(), clock.time, forceBreak.quietReads)
           == Waited(old(View()), spinWait, interval, old(clock.time), old(forceBreak.quietReads))
      ensures View() == AfterWait(old(View()), interval, lastSnd)
      ensures old(lastSnd) <= old(clock.time.now) <= lastSnd <= clock.time.now
      ensures spinWait ==>
        var spun := Spin(old(clock.time), NextTime(old(View()), interval), old(forceBreak.quietReads));
        clock.time == spun.time && forceBreak.quietReads == spun.quietReads && lastSnd == clock.time.now
      ensures !spinWait ==>
        && lastSnd == Tick(old(clock.time)).now && forceBreak.quietReads == old(forceBreak.quietReads)
        && clock.time == if lastSnd >= NextTime(old(View()), interval) then Tick(old(clock.time))
                         else Slept(Tick(old(clock.time)), NextTime(old(View()), interval))
      ensures old(forceBreak.quietReads) == None ==> forceBreak.quietReads == None
      ensures !spinWait || forceBreak.quietReads != Some(0) ==> clock.time.now >= NextTime(old(View()), interval)
    {
      var interSend := if timedev > interval then 0 else interval - timedev;
      var nextTime := lastSnd + 1000 * interSend;
      var timeNow: nat := lastSnd;
      if !spinWait {
        timeNow := clock.Now();
        if timeNow < nextTime {
          clock.SleepUntil(nextTime);
        }
      } else {
        SpinFacts(clock.time, nextTime, forceBreak.quietReads);
        while true
          invariant unchanged(this)
          invariant Spin(clock.time, nextTime, forceBreak.quietReads) == Spin(old(clock.time), nextTime, old(forceBreak.quietReads))
          decreases |clock.time.delays|, nextTime - clock.time.now
        {
          timeNow := clock.Now();
          if timeNow >= nextTime {
            break;
          }
          var broken := forceBreak.Read();
          if broken {
            break;
          }
        }
      }
      timedev := timedev + TruncDiv(timeNow - lastSnd, 1000) - interval;
      lastSnd := timeNow;
    }
  }

  // ---------- spinning

  datatype Spun = Spun(time: Time, quietReads: Option<nat>, broken: bool)

  /** Reading the clock and the break flag in turn, until the clock has reached the deadline or the
      flag is found raised. */
  function Spin(time: Time, next: int, quietReads: Option<nat>): Spun
    decreases |time.delays|, next - time.now
  {
    var t := Tick(time);
    if t.now >= next then Spun(t, quietReads, false)
    else if quietReads == Some(0) then Spun(t, quietReads, true)
    else Spin(t, next, OneReadLess(quietReads))
  }

  lemma {:induction false} SpinFacts(time: Time, next: int, quietReads: Option<nat>)
    ensures var spun := Spin(time, next, quietReads);
      && spun.time.now >= time.now
      && (spun.broken ==> spun.quietReads == Some(0))
      && (spun.broken <==> spun.time.now < next)
      && (quietReads == None ==> spun.quietReads == None)
    decreases |time.delays|, next - time.now
  {
    var t := Tick(time);
    if t.now < next && quietReads != Some(0) {
      SpinFacts(t, next, OneReadLess(quietReads));
    }
  }

  /** The time at the end of `n` readings. */
  function Ticks(time: Time, n: nat): Time
    decreases n
  {
    if n == 0 then time else Ticks(Tick(time), n - 1)
  }

  /** A spinning wait ends at the first reading at or after the deadline, unless the flag is raised
      first: it is broken off if and only if the reading before the first look that finds the flag
      raised is still ahead of the deadline, and then it ends at that reading. */
  lemma {:induction false} SpinExactly(time: Time, next: int, quietReads: Option<nat>) returns (n: nat)
    ensures var spun := Spin(time, next, quietReads);
      && spun.time == Ticks(time, n + 1)
      && (forall j :: 1 <= j <= n ==> Ticks(time, j).now < next)
      && (spun.broken <==> Ticks(time, n + 1).now < next)
      && (spun.broken ==> quietReads == Some(n))
      && (spun.broken <==> quietReads.Some? && Ticks(time, quietReads.value + 1).now < next)
      && (quietReads.Some? ==> n <= quietReads.value && spun.quietReads == Some(quietReads.value - n))
    decreases |time.delays|, next - time.now
  {
    var t := Tick(time);
    assert Ticks(time, 1) == t by { assert Ticks(t, 0) == t; }
    if t.now >= next {
      n := 0;
      if quietReads.Some? {
        LaterTicks(t, quietReads.value);
      }
    } else if quietReads == Some(0) {
      n := 0;
    } else {
      var m := SpinExactly(t, next, OneReadLess(quietReads));
      n := m + 1;
      forall j | 1 <= j <= n ensures Ticks(time, j).now < next {
        if j > 1 {
          assert Ticks(t, j - 1).now < next;
        }
      }
    }
  }

  lemma {:induction false} LaterTicks(time: Time, n: nat)
    ensures Ticks(time, n).now >= time.now
    decreases n
  {
    if n > 0 {
      LaterTicks(Tick(time), n - 1);
    }
  }

  /** Microseconds between messages: whole messages in ten seconds, then ten seconds over that. */
  function MsgInterval(sendrate: nat, messageSize: nat): nat
    requires messageSize > 0
  {
    var msgsPer10s := TruncDiv(TruncDiv(sendrate, 8) * 10, messageSize);
    if msgsPer10s != 0 then TruncDiv(10_000_000, msgsPer10s) else 0
  }

  // ---------- whole runs

  /** The state after waits that sampled the clock at `samples`. */
  function Run(start: int, interval: int, samples: seq<int>): PacerState {
    if samples == [] then PacerState(start, 0)
    else AfterWait(Run(start, interval, samples[..|samples| - 1]), interval, samples[|samples| - 1])
  }

  function Last(start: int, samples: seq<int>): int {
    if samples == [] then start else samples[|samples| - 1]
  }

  predicate Monotone(start: int, samples: seq<int>) {
    && (forall i :: 0 <= i < |samples| ==> start <= samples[i])
    && (forall i, j :: 0 <= i < j < |samples| ==> samples[i] <= samples[j])
  }

  /** The nanoseconds that truncating every step to microseconds has dropped. */
  function Dropped(start: int, samples: seq<int>): int {
    if samples == [] then 0
    else
      var before := samples[..|samples| - 1];
      Dropped(start, before) + (Last(start, samples) - Last(start, before)) % 1000
  }

  /** The absolute schedule: release `n`, counted from 1, is due at this time. */
  function Due(start: int, interval: int, n: nat): int {
    start + 1000 * (n * interval)
  }

  lemma DueStep(start: int, interval: int, n: nat)
    ensures Due(start, interval, n + 1) == Due(start, interval, n) + 1000 * interval
  {
    assert (n + 1) * interval == n * interval + interval;
  }

  /** The accumulator always measures the distance from the absolute schedule. */
  lemma {:induction false} DeviationIsAbsolute(start: int, interval: int, samples: seq<int>)
    requires Monotone(start, samples)
    ensures var st := Run(start, interval, samples);
      && st.lastSnd == Last(start, samples)
      && 1000 * st.timedev == Last(start, samples) - Due(start, interval, |samples|) - Dropped(start, samples)
    ensures 0 <= Dropped(start, samples) <= 999 * |samples|
    decreases |samples|
  {
    if samples != [] {
      var n := |samples| - 1;
      var before := samples[..n];
      DeviationIsAbsolute(start, interval, before);
      DueStep(start, interval, n);
    }
  }

  /** The incremental pacer refines the absolute schedule: the next deadline is the scheduled time plus
      what truncation dropped, less than a microsecond per wait, but not before the last release. How
      late or bursty earlier callers were leaves no other trace. */
  lemma NextDeadline(start: int, interval: int, samples: seq<int>)
    requires Monotone(start, samples) && interval >= 0
    ensures NextTime(Run(start, interval, samples), interval)
         == Max(Last(start, samples), Due(start, interval, |samples| + 1) + Dropped(start, samples))
    ensures 0 <= Dropped(start, samples) <= 999 * |samples|
  {
    DeviationIsAbsolute(start, interval, samples);
    DueStep(start, interval, |samples|);
  }

  /** With a clock that ticks in microseconds nothing is dropped, and the schedule is exact. */
  lemma {:induction false} MicrosecondClock(start: int, samples: seq<int>)
    requires forall i :: 0 <= i < |samples| ==> (samples[i] - start) % 1000 == 0
    ensures Dropped(start, samples) == 0
    decreases |samples|
  {
    if samples != [] {
      var n := |samples| - 1;
      MicrosecondClock(start, samples[..n]);
      assert samples[n] == samples[|samples| - 1];
      if n > 0 {
        assert (samples[n - 1] - start) % 1000 == 0;
      }
    }
  }

  /** When wait `k` of a run lets its message go. */
  function Release(spin: bool, start: int, interval: int, samples: seq<int>, k: nat): int
    requires k < |samples|
  {
    if spin then samples[k] else Max(samples[k], NextTime(Run(start, interval, samples[..k]), interval))
  }

  /** No wait was cut short: a spinning one saw its deadline pass. */
  predicate Unbroken(spin: bool, start: int, interval: int, samples: seq<int>) {
    spin ==> forall k :: 0 <= k < |samples| ==> samples[k] >= NextTime(Run(start, interval, samples[..k]), interval)
  }

  /** No message is ever released before its scheduled time. */
  lemma NeverEarly(spin: bool, start: int, interval: int, samples: seq<int>, k: nat)
    requires Monotone(start, samples) && interval >= 0 && Unbroken(spin, start, interval, samples) && k < |samples|
    ensures Release(spin, start, interval, samples, k) >= Due(start, interval, k + 1)
  {
    NextDeadline(start, interval, samples[..k]);
  }

  /** A caller who was not released too late last time gets the schedule, in both modes: the deadline
      is the scheduled time plus what truncation dropped if and only if the last sample is not past
      that. A sleeping one who is back before it is then released exactly there. */
  lemma OnSchedule(start: int, interval: int, samples: seq<int>, k: nat)
    requires Monotone(start, samples) && interval >= 0 && k < |samples|
    ensures var due, next := Due(start, interval, k + 1) + Dropped(start, samples[..k]), NextTime(Run(start, interval, samples[..k]), interval);
      && (next == due <==> Last(start, samples[..k]) <= due)
      && (Release(false, start, interval, samples, k) == due <==> samples[k] <= due)
  {
    NextDeadline(start, interval, samples[..k]);
    if k > 0 {
      assert samples[..k][k - 1] == samples[k - 1];
    }
  }

  // ---------- the rate

  /** The interval is never more than a microsecond too short for the rate, and too long only by the
      rounding of the message count. */
  lemma IntervalBounds(sendrate: nat, messageSize: nat)
    requires messageSize > 0 && MsgInterval(sendrate, messageSize) > 0
    ensures var i := MsgInterval(sendrate, messageSize);
      && (i + 1) * (sendrate / 8) > 1_000_000 * messageSize
      && i * (sendrate / 8 * 10 - messageSize) < 10_000_000 * messageSize
  {
    var rate, i := sendrate / 8, MsgInterval(sendrate, messageSize);
    var msgs := TruncDiv(rate * 10, messageSize);
    assert msgs * messageSize <= rate * 10 < (msgs + 1) * messageSize;
    assert i * msgs <= 10_000_000 < (i + 1) * msgs;
    Scale(10_000_000, (i + 1) * msgs, messageSize);
    assert (i + 1) * msgs * messageSize == (i + 1) * (msgs * messageSize);
    ScaleWeak(msgs * messageSize, rate * 10, i + 1);
    assert (i + 1) * (rate * 10) == 10 * ((i + 1) * rate);
    Scale(rate * 10 - messageSize, msgs * messageSize, i);
    assert i * (msgs * messageSize) == (i * msgs) * messageSize;
    ScaleWeak(i * msgs, 10_000_000, messageSize);
  }

  /** The interval, exactly: ten seconds over the whole messages that the rate makes in ten seconds, both
      rounded down, and 0 if there are none. */
  lemma IntervalExactly(sendrate: nat, messageSize: nat, i: nat)
    requires messageSize > 0
    ensures i == MsgInterval(sendrate, messageSize)
       <==> exists m: nat :: IsMsgsPer10s(sendrate, messageSize, m)
                             && if m == 0 then i == 0 else i * m <= 10_000_000 < (i + 1) * m
  {
    var msgs := TruncDiv(TruncDiv(sendrate, 8) * 10, messageSize);
    assert IsMsgsPer10s(sendrate, messageSize, msgs);
    if m: nat :| IsMsgsPer10s(sendrate, messageSize, m) && if m == 0 then i == 0 else i * m <= 10_000_000 < (i + 1) * m {
      QuotientOf(sendrate / 8 * 10, messageSize, m, msgs);
      if m > 0 {
        QuotientOf(10_000_000, m, i, TruncDiv(10_000_000, m));
      }
    }
  }

  /** `m` is how many whole messages the rate makes in ten seconds. */
  predicate IsMsgsPer10s(sendrate: nat, messageSize: nat, m: nat) {
    m * messageSize <= sendrate / 8 * 10 < (m + 1) * messageSize
  }

  lemma QuotientOf(n: nat, d: nat, p: nat, q: nat)
    requires d > 0 && p * d <= n < (p + 1) * d && q * d <= n < (q + 1) * d
    ensures p == q
  {
    QuotientUnique(p, n - p * d, q, n - q * d, d);
  }

  lemma Scale(a: int, b: int, c: int)
    requires a < b && c > 0
    ensures a * c < b * c && c * a < c * b
  {
  }

  lemma ScaleWeak(a: int, b: int, c: int)
    requires a <= b && c >= 0
    ensures a * c <= b * c && c * a <= c * b
  {
  }

  /** Pacing is off (the interval is 0) exactly for rates below a tenth of a message per second, and
      for more than ten million messages in ten seconds. */
  lemma PacingOff(sendrate: nat, messageSize: nat)
    requires messageSize > 0
    ensures MsgInterval(sendrate, messageSize) == 0
       <==> sendrate / 8 * 10 < messageSize || sendrate / 8 * 10 >= 10_000_001 * messageSize
  {
    var r := sendrate / 8 * 10;
    var msgs := TruncDiv(r, messageSize);
    assert msgs * messageSize <= r < (msgs + 1) * messageSize;
    if msgs != 0 {
      ScaleWeak(1, msgs, messageSize);
      if msgs > 10_000_000 {
        ScaleWeak(10_000_001, msgs, messageSize);
      } else {
        ScaleWeak(msgs + 1, 10_000_001, messageSize);
      }
    }
  }

  /** `n` messages in `t` microseconds stay below what the configured rate allows, enlarged by one part
      in the interval. */
  predicate WithinRate(sendrate: nat, messageSize: nat, n: nat, t: nat)
    requires messageSize > 0
  {
    var i := MsgInterval(sendrate, messageSize);
    n * messageSize * 1_000_000 * i < (sendrate / 8) * t * (i + 1)
  }

  /** Bandwidth cap: whatever the callers do, the bytes released in the first `t` microseconds stay
      below what the configured rate allows, enlarged by one part in the interval. */
  lemma BandwidthCap(spin: bool, start: int, sendrate: nat, messageSize: nat, samples: seq<int>, k: nat, t: nat)
    requires messageSize > 0 && MsgInterval(sendrate, messageSize) > 0
    requires var i := MsgInterval(sendrate, messageSize);
      && Monotone(start, samples) && Unbroken(spin, start, i, samples) && k < |samples|
      && Release(spin, start, i, samples, k) <= start + 1000 * t
    ensures WithinRate(sendrate, messageSize, k + 1, t)
  {
    NeverEarly(spin, start, MsgInterval(sendrate, messageSize), samples, k);
    DueWithinRate(start, sendrate, messageSize, k, t);
  }

  lemma DueWithinRate(start: int, sendrate: nat, messageSize: nat, k: nat, t: nat)
    requires messageSize > 0 && MsgInterval(sendrate, messageSize) > 0
    requires Due(start, MsgInterval(sendrate, messageSize), k + 1) <= start + 1000 * t
    ensures WithinRate(sendrate, messageSize, k + 1, t)
  {
    hide MsgInterval;
    IntervalBounds(sendrate, messageSize);
    CapArithmetic(k + 1, MsgInterval(sendrate, messageSize), t, messageSize, sendrate / 8);
  }

  lemma CapArithmetic(n: nat, i: nat, t: nat, size: nat, rate: nat)
    requires n > 0 && i > 0 && n * i <= t && 1_000_000 * size < (i + 1) * rate
    ensures n * size * 1_000_000 * i < rate * t * (i + 1)
  {
    var a, b := 1_000_000 * size, (i + 1) * rate;
    Scale(0, n, i);
    ScaleWeak(n * i, t, a);
    Scale(a, b, t);
    Commute(n, i, size);
    Commute(t, i + 1, rate);
  }

  lemma Commute(x: int, y: int, z: int)
    ensures x * z * 1_000_000 * y == (x * y) * (1_000_000 * z)
    ensures z * x * y == x * (y * z)
  {
  }

  // ---------- the sending loop

  /** How many of `n` waits are known to be whole: a flag that is raised may have cut the last one
      short if it was spinning. */
  function Whole(spin: bool, n: nat, quietReads: Option<nat>): (r: nat)
    ensures r <= n <= r + 1
  {
    if spin && n > 0 && quietReads == Some(0) then n - 1 else n
  }

  /** The first `n` releases wait for their deadlines and keep the schedule. */
  ghost predicate Timely(spin: bool, start: int, interval: int, samples: seq<int>, released: seq<int>, n: nat) {
    && n <= |samples| == |released|
    && Unbroken(spin, start, interval, samples[..n])
    && (forall k :: 0 <= k < n ==>
          released[k] >= Release(spin, start, interval, samples, k) && released[k] >= Due(start, interval, k + 1))
  }

  /** One more wait. */
  lemma NextSample(spin: bool, start: int, interval: int, samples: seq<int>, released: seq<int>, sample: int, now: int)
    requires Monotone(start, samples) && interval >= 0 && Last(start, samples) <= sample <= now
    requires Timely(spin, start, interval, samples, released, |samples|)
    ensures var samples', released' := samples + [sample], released + [now];
      && Monotone(start, samples') && Last(start, samples') == sample
      && Run(start, interval, samples') == AfterWait(Run(start, interval, samples), interval, sample)
      && Timely(spin, start, interval, samples', released', |samples|)
      && ((spin ==> sample == now) && now >= NextTime(Run(start, interval, samples), interval) ==>
            Timely(spin, start, interval, samples', released', |samples'|))
  {
    hide Due, Run, NextTime, AfterWait, Timely, Monotone, Last;
    RunStep(start, interval, samples, sample);
    MonotoneStep(start, samples, sample);
    TimelyKept(spin, start, interval, samples, released, sample, now);
    if (spin ==> sample == now) && now >= NextTime(Run(start, interval, samples), interval) {
      TimelyNext(spin, start, interval, samples, released, sample, now);
    }
  }

  lemma TimelyKept(spin: bool, start: int, interval: int, samples: seq<int>, released: seq<int>, sample: int, now: int)
    requires Timely(spin, start, interval, samples, released, |samples|)
    ensures Timely(spin, start, interval, samples + [sample], released + [now], |samples|)
  {
    hide Due, Run, NextTime, Unbroken;
    var samples' := samples + [sample];
    assert samples'[..|samples|] == samples[..|samples|];
    forall k | 0 <= k < |samples| ensures Release(spin, start, interval, samples', k) == Release(spin, start, interval, samples, k) {
      assert samples'[..k] == samples[..k];
    }
  }

  lemma TimelyNext(spin: bool, start: int, interval: int, samples: seq<int>, released: seq<int>, sample: int, now: int)
    requires Monotone(start, samples) && interval >= 0 && sample <= now && (spin ==> sample == now)
    requires now >= NextTime(Run(start, interval, samples), interval)
    requires Timely(spin, start, interval, samples, released, |samples|)
    requires Timely(spin, start, interval, samples + [sample], released + [now], |samples|)
    ensures Timely(spin, start, interval, samples + [sample], released + [now], |samples| + 1)
  {
    hide Due, Run, NextTime, Monotone, Last, Dropped;
    var samples', n := samples + [sample], |samples|;
    assert samples'[..n] == samples && samples'[..n + 1] == samples';
    NextDeadline(start, interval, samples);
    assert Release(spin, start, interval, samples', n) <= now;
    UnbrokenStep(spin, start, interval, samples, sample);
  }

  lemma UnbrokenStep(spin: bool, start: int, interval: int, samples: seq<int>, sample: int)
    requires Unbroken(spin, start, interval, samples[..|samples|])
    requires spin ==> sample >= NextTime(Run(start, interval, samples), interval)
    ensures Unbroken(spin, start, interval, (samples + [sample])[..|samples| + 1])
  {
    hide Run, NextTime;
    var samples' := samples + [sample];
    assert samples'[..|samples| + 1] == samples' && samples[..|samples|] == samples;
    forall k | 0 <= k <= |samples| ensures samples'[..k] == samples[..k] {
    }
  }

  lemma RunStep(start: int, interval: int, samples: seq<int>, sample: int)
    ensures Run(start, interval, samples + [sample]) == AfterWait(Run(start, interval, samples), interval, sample)
  {
    hide AfterWait;
    assert (samples + [sample])[..|samples|] == samples;
  }

  lemma MonotoneStep(start: int, samples: seq<int>, sample: int)
    requires Monotone(start, samples) && Last(start, samples) <= sample
    ensures Monotone(start, samples + [sample]) && Last(start, samples + [sample]) == sample
  {
  }

  /** What a sending loop makes of clock, flag and work: when it lets the messages go, the pacer's samples,
      and the clock and flag behind it. */
  datatype Pace = Pace(released: seq<int>, samples: seq<int>, time: Time, quietReads: Option<nat>)

  function Onward(released: seq<int>, samples: seq<int>, p: Pace): Pace {
    p.(released := released + p.released, samples := samples + p.samples)
  }

  /** Each turn looks at the flag, waits, lets its message go and works on. */
  function Paced(st: PacerState, spin: bool, interval: int, time: Time, quietReads: Option<nat>, work: seq<nat>): Pace
    decreases |work|
  {
    if work == [] || quietReads == Some(0) then Pace([], [], time, quietReads)
    else
      var w := Waited(st, spin, interval, time, OneReadLess(quietReads));
      Onward([w.time.now], [w.st.lastSnd],
             Paced(w.st, spin, interval, After(w.time, work[0]), w.quietReads, work[1..]))
  }

  function After(time: Time, duration: nat): Time {
    time.(now := time.now + duration)
  }

  lemma OnwardTwice(r: seq<int>, s: seq<int>, r': seq<int>, s': seq<int>, p: Pace)
    ensures Onward(r, s, Onward(r', s', p)) == Onward(r + r', s + s', p)
    ensures Onward([], [], p) == p
  {
    assert r + (r' + p.released) == r + r' + p.released && s + (s' + p.samples) == s + s' + p.samples;
  }

  /** The loop that sends messages at the pace of a new pacer; turn `i` then spends `work[i]` on making
      and writing its message. It is the run `Paced`, on the clock and the flag, and `released` are the
      times when the messages are let go.
      None of them is early or above the rate, whatever clock and work do, but possibly the last one
      when a spinning wait was broken off; and a flag that nobody raises stops nothing. */
  method SendPaced(sendrate: nat, messageSize: nat, spinWait: bool, clock: Clock, forceBreak: BreakToken, work: seq<nat>)
    returns (released: seq<int>, ghost start: int, ghost samples: seq<int>)
    requires messageSize > 0
    modifies clock, forceBreak
    ensures start == Tick(old(clock.time)).now
    ensures Pace(released, samples, clock.time, forceBreak.quietReads)
         == Paced(PacerState(start, 0), spinWait, MsgInterval(sendrate, messageSize), Tick(old(clock.time)),
                  old(forceBreak.quietReads), work)
    ensures |samples| == |released| <= |work|
    ensures forceBreak.quietReads != Some(0) ==> |released| == |work|
    ensures old(forceBreak.quietReads) == None ==> forceBreak.quietReads == None
    ensures Monotone(start, samples)
    ensures var interval, whole := MsgInterval(sendrate, messageSize), Whole(spinWait, |samples|, forceBreak.quietReads);
      && Unbroken(spinWait, start, interval, samples[..whole])
      && (forall k :: 0 <= k < whole ==> released[k] >= Release(spinWait, start, interval, samples, k))
      && (forall k :: 0 <= k < whole ==> released[k] >= Due(start, interval, k + 1))
      && (forall n, t: nat :: 1 <= n <= whole && interval > 0 && released[n - 1] <= start + 1000 * t ==>
            WithinRate(sendrate, messageSize, n, t))
  {
    hide Due, Run, NextTime, AfterWait, Spin, Release, Unbroken, WithinRate, Timely, Waited, Paced, Onward, After, Monotone;
    var pacer := new RatePacer(sendrate, messageSize, spinWait, clock);
    start, samples, released := pacer.lastSnd, [], [];
    ghost var interval := pacer.interval;
    ghost var total := Paced(pacer.View(), spinWait, interval, clock.time, forceBreak.quietReads, work);
    Beginning(spinWait, start, interval);
    PacedTimely(spinWait, start, interval, [], [], clock.time, forceBreak.quietReads, work);
    OnwardTwice([], [], [], [], total);
    assert work[0..] == work;
    var i := 0;
    while i < |work|
      invariant i <= |work|
      invariant pacer.spinWait == spinWait && pacer.interval == interval && pacer.lastSnd <= clock.time.now
      invariant Onward(released, samples,
                       Paced(pacer.View(), spinWait, interval, clock.time, forceBreak.quietReads, work[i..])) == total
    {
      ghost var st, time, quietReads := pacer.View(), clock.time, forceBreak.quietReads;
      var broken := forceBreak.Read();
      if broken {
        break;
      }
      pacer.Wait(clock, forceBreak);
      PacedTurn(st, spinWait, interval, time, quietReads, work[i..]);
      Passed(clock.time, work[i]);
      OnwardTwice(released, samples, [clock.time.now], [pacer.lastSnd],
                  Paced(pacer.View(), spinWait, interval, After(clock.time, work[i]), forceBreak.quietReads, work[i + 1..]));
      released := released + [clock.time.now];
      samples := samples + [pacer.lastSnd];
      clock.Pass(work[i]);
      i := i + 1;
    }
    NoTurn(pacer.View(), spinWait, interval, clock.time, forceBreak.quietReads, work[i..]);
    OnwardNothing(released, samples, clock.time, forceBreak.quietReads);
    AllWithinRate(spinWait, start, sendrate, messageSize, samples, released, Whole(spinWait, |samples|, forceBreak.quietReads));
  }

  /** Every continuation of a run on schedule keeps the schedule, as far as its waits are whole. */
  lemma {:induction false} PacedTimely(spin: bool, start: int, interval: int, samples: seq<int>, released: seq<int>,
                                       time: Time, quietReads: Option<nat>, work: seq<nat>)
    requires interval >= 0 && |samples| == |released|
    requires Monotone(start, samples) && Last(start, samples) <= time.now
    requires Timely(spin, start, interval, samples, released, Whole(spin, |samples|, quietReads))
    ensures var p := Onward(released, samples, Paced(Run(start, interval, samples), spin, interval, time, quietReads, work));
      && |p.samples| == |p.released| <= |released| + |work|
      && (p.quietReads != Some(0) ==> |p.released| == |released| + |work|)
      && (quietReads == None ==> p.quietReads == None)
      && Monotone(start, p.samples)
      && Timely(spin, start, interval, p.samples, p.released, Whole(spin, |p.samples|, p.quietReads))
    decreases |work|
  {
    hide Due, Run, NextTime, AfterWait, Timely, Waited, Paced, Onward, After, Monotone, Last;
    var st := Run(start, interval, samples);
    if work == [] || quietReads == Some(0) {
      NoTurn(st, spin, interval, time, quietReads, work);
      OnwardNothing(released, samples, time, quietReads);
    } else {
      var w := Waited(st, spin, interval, time, OneReadLess(quietReads));
      WaitedFacts(st, spin, interval, time, OneReadLess(quietReads));
      NextSample(spin, start, interval, samples, released, w.st.lastSnd, w.time.now);
      Passed(w.time, work[0]);
      PacedTurn(st, spin, interval, time, quietReads, work);
      PacedTimely(spin, start, interval, samples + [w.st.lastSnd], released + [w.time.now], After(w.time, work[0]),
                  w.quietReads, work[1..]);
      OnwardTwice(released, samples, [w.time.now], [w.st.lastSnd],
                  Paced(w.st, spin, interval, After(w.time, work[0]), w.quietReads, work[1..]));
    }
  }

  lemma WaitedFacts(st: PacerState, spin: bool, interval: int, time: Time, quietReads: Option<nat>)
    ensures var w := Waited(st, spin, interval, time, quietReads);
      && w.st == AfterWait(st, interval, w.st.lastSnd)
      && time.now <= w.st.lastSnd <= w.time.now && (spin ==> w.st.lastSnd == w.time.now)
      && (!spin || w.quietReads != Some(0) ==> w.time.now >= NextTime(st, interval))
      && (quietReads == None ==> w.quietReads == None)
  {
    hide NextTime;
    SpinFacts(time, NextTime(st, interval), quietReads);
  }

  lemma AllWithinRate(spin: bool, start: int, sendrate: nat, messageSize: nat, samples: seq<int>, released: seq<int>, whole: nat)
    requires messageSize > 0 && Timely(spin, start, MsgInterval(sendrate, messageSize), samples, released, whole)
    ensures var interval := MsgInterval(sendrate, messageSize);
      && Unbroken(spin, start, interval, samples[..whole])
      && (forall k :: 0 <= k < whole ==>
            released[k] >= Release(spin, start, interval, samples, k) && released[k] >= Due(start, interval, k + 1))
      && (forall n, t: nat :: 1 <= n <= whole && interval > 0 && released[n - 1] <= start + 1000 * t ==>
            WithinRate(sendrate, messageSize, n, t))
  {
    hide Due, Release, Unbroken, WithinRate, MsgInterval;
    forall n, t: nat | 1 <= n <= whole && MsgInterval(sendrate, messageSize) > 0 && released[n - 1] <= start + 1000 * t
      ensures WithinRate(sendrate, messageSize, n, t)
    {
      DueWithinRate(start, sendrate, messageSize, n - 1, t);
    }
  }

  lemma Beginning(spin: bool, start: int, interval: int)
    ensures Run(start, interval, []) == PacerState(start, 0) && Monotone(start, [])
    ensures Timely(spin, start, interval, [], [], 0)
  {
  }

  lemma PacedTurn(st: PacerState, spin: bool, interval: int, time: Time, quietReads: Option<nat>, work: seq<nat>)
    requires work != [] && quietReads != Some(0)
    ensures var w := Waited(st, spin, interval, time, OneReadLess(quietReads));
      Paced(st, spin, interval, time, quietReads, work)
      == Onward([w.time.now], [w.st.lastSnd],
                Paced(w.st, spin, interval, After(w.time, work[0]), w.quietReads, work[1..]))
  {
    hide Waited, Onward, After;
  }

  lemma NoTurn(st: PacerState, spin: bool, interval: int, time: Time, quietReads: Option<nat>, work: seq<nat>)
    requires work == [] || quietReads == Some(0)
    ensures Paced(st, spin, interval, time, quietReads, work) == Pace([], [], time, quietReads)
  {
  }

  lemma OnwardNothing(released: seq<int>, samples: seq<int>, time: Time, quietReads: Option<nat>)
    ensures Onward(released, samples, Pace([], [], time, quietReads)) == Pace(released, samples, time, quietReads)
  {
  }

  lemma Passed(time: Time, duration: nat)
    ensures After(time, duration) == time.(now := time.now + duration)
  {
  }

  // ---------- what a break stops

  /** How many readings a spinning wait that nobody breaks off takes ahead of its deadline. */
  function EarlyReadings(time: Time, next: int): nat
    decreases |time.delays|, next - time.now
  {
    if Tick(time).now >= next then 0 else 1 + EarlyReadings(Tick(time), next)
  }

  /** How often a sending loop that nobody breaks off looks at the flag: before each message, and while
      spinning after each reading ahead of the deadline. */
  function Looks(st: PacerState, spin: bool, interval: int, time: Time, work: seq<nat>): nat
    decreases |work|
  {
    if work == [] then 0
    else
      var w := Waited(st, spin, interval, time, None);
      1 + (if spin then EarlyReadings(time, NextTime(st, interval)) else 0)
        + Looks(w.st, spin, interval, After(w.time, work[0]), work[1..])
  }

  /** A break that comes later than the wait's looks changes nothing but the count; an earlier one
      breaks it off. */
  lemma {:induction false} SpinLooks(time: Time, next: int, n: nat)
    ensures var m, spun := EarlyReadings(time, next), Spin(time, next, Some(n));
      && (m <= n ==> spun == Spun(Spin(time, next, None).time, Some(n - m), false))
      && (m > n ==> spun.broken && spun.quietReads == Some(0))
    decreases |time.delays|, next - time.now
  {
    if Tick(time).now < next && n > 0 {
      SpinLooks(Tick(time), next, n - 1);
    }
  }

  lemma WaitLooks(st: PacerState, spin: bool, interval: int, time: Time, n: nat)
    ensures var m := if spin then EarlyReadings(time, NextTime(st, interval)) else 0;
      var w, undisturbed := Waited(st, spin, interval, time, Some(n)), Waited(st, spin, interval, time, None);
      && (m <= n ==> w == undisturbed.(quietReads := Some(n - m)))
      && (m > n ==> w.quietReads == Some(0))
      && undisturbed.quietReads == None
  {
    hide NextTime, AfterWait;
    if spin {
      SpinLooks(time, NextTime(st, interval), n);
      SpinFacts(time, NextTime(st, interval), None);
    }
  }

  /** What a flag raised after `n` looks stops, exactly: message `k` goes out if and only if the looks of
      the turns before it are fewer than `n`, and it goes out when it would have gone out anyway unless
      its own wait is broken off. Without a break all messages go out. */
  lemma {:induction false} PacedUntil(st: PacerState, spin: bool, interval: int, time: Time, n: nat, work: seq<nat>, k: nat)
    requires k < |work|
    ensures var p := Paced(st, spin, interval, time, Some(n), work);
      var undisturbed := Paced(st, spin, interval, time, None, work);
      && k < |undisturbed.released|
      && (k < |p.released| <==> Looks(st, spin, interval, time, work[..k]) < n)
      && (Looks(st, spin, interval, time, work[..k + 1]) <= n ==>
            k < |p.released| && p.released[k] == undisturbed.released[k])
    decreases k
  {
    hide Waited, NextTime, EarlyReadings, After, Paced, Looks;
    var w := Waited(st, spin, interval, time, None);
    LooksStep(st, spin, interval, time, work, k + 1);
    PacedTurn(st, spin, interval, time, None, work);
    WaitLooks(st, spin, interval, time, n);
    if n == 0 {
      NoTurn(st, spin, interval, time, Some(0), work);
    } else {
      PacedTurn(st, spin, interval, time, Some(n), work);
      WaitLooks(st, spin, interval, time, n - 1);
    }
    if k == 0 {
      assert work[..0] == [];
      NoLooks(st, spin, interval, time);
    } else {
      LooksStep(st, spin, interval, time, work, k);
      var m := if spin then EarlyReadings(time, NextTime(st, interval)) else 0;
      PacedUntil(w.st, spin, interval, After(w.time, work[0]), if m < n then n - 1 - m else 0, work[1..], k - 1);
      assert work[1..][..k] == work[1..][..k - 1 + 1];
      if m >= n > 0 {
        var v := Waited(st, spin, interval, time, Some(n - 1));
        NoTurn(v.st, spin, interval, After(v.time, work[0]), Some(0), work[1..]);
      }
    }
  }

  lemma NoLooks(st: PacerState, spin: bool, interval: int, time: Time)
    ensures Looks(st, spin, interval, time, []) == 0
  {
  }

  lemma LooksStep(st: PacerState, spin: bool, interval: int, time: Time, work: seq<nat>, k: nat)
    requires 0 < k <= |work|
    ensures var w := Waited(st, spin, interval, time, None);
      Looks(st, spin, interval, time, work[..k])
      == 1 + (if spin then EarlyReadings(time, NextTime(st, interval)) else 0)
           + Looks(w.st, spin, interval, After(w.time, work[0]), work[1..][..k - 1])
  {
    hide Waited, NextTime, EarlyReadings, After;
    assert work[..k][1..] == work[1..][..k - 1];
  }
}
