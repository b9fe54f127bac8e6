/** Transmission delay: minimum and maximum of a measurement period, and an integer average smoothed
    by 1/16 over all periods. */
module Latency {
  import opened Prelude

  const LLONG_MAX := 0x7FFF_FFFF_FFFF_FFFF
  const LLONG_MIN := -0x8000_0000_0000_0000

  /** The value that stands for "no average yet". */
  const NO_AVG := -1

  datatype LatencyState = LatencyState(min: int, max: int, avg: int)

  const INITIAL := LatencyState(LLONG_MAX, LLONG_MIN, NO_AVG)

  function Smooth(avg: int, delay: int): int {
    if avg != NO_AVG then TruncDiv(avg * 15 + delay, 16) else delay
  }

  function SubmitDelay(st: LatencyState, delay: int): LatencyState {
    LatencyState(Min(st.min, delay), Max(st.max, delay), Smooth(st.avg, delay))
  }

  function ResetPeriod(st: LatencyState): LatencyState {
    st.(min := LLONG_MAX, max := LLONG_MIN)
  }

  class LatencyMetric {
    var min: int
    var max: int
    var avg: int

    function View(): LatencyState
      reads this
    {
      LatencyState(min, max, avg)
    }

    constructor ()
      ensures View() == INITIAL
    {
      min, max, avg := LLONG_MAX, LLONG_MIN, NO_AVG;
    }

    /** Both times are nanoseconds of the system clock. */
    method SubmitSample(timestamp: int, arrivalTime: int)
      modifies this
      ensures View() == SubmitDelay(old(View()), TruncDiv(arrivalTime - timestamp, 1000))
    {
      var delay := TruncDiv(arrivalTime - timestamp, 1000);
      max := Max(max, delay);
      min := Min(min, delay);
      avg := if avg != NO_AVG then TruncDiv(avg * 15 + delay, 16) else delay;
    }

    method Reset()
      modifies this
      ensures View() == ResetPeriod(old(View()))
    {
      min, max := LLONG_MAX, LLONG_MIN;
    }
  }

  // ---------- against the history

  datatype Event = Delay(us: int) | PeriodEnd

  function Online(events: seq<Event>): LatencyState {
    if events == [] then INITIAL
    else
      var before := Online(events[..|events| - 1]);
      match events[|events| - 1]
      case Delay(us) => SubmitDelay(before, us)
      case PeriodEnd => ResetPeriod(before)
  }

  lemma OnlineAppend(events: seq<Event>, e: Event)
    ensures Online(events + [e])
         == match e case Delay(us) => SubmitDelay(Online(events), us) case PeriodEnd => ResetPeriod(Online(events))
  {
    assert (events + [e])[..|events|] == events;
  }

  predicate Within(events: seq<Event>, lo: int, hi: int) {
    forall e :: e in events && e.Delay? ==> lo <= e.us <= hi
  }

  lemma SmoothBounded(avg: int, delay: int, lo: int, hi: int)
    requires lo <= delay <= hi && (avg == NO_AVG || lo <= avg <= hi)
    ensures lo <= Smooth(avg, delay) <= hi
  {
    var n := avg * 15 + delay;
    var q := TruncDiv(n, 16);
  }

  /** The average always lies between the smallest and the largest delay ever submitted, whatever
      their signs, although it truncates toward zero and starts over whenever it happens to be -1. */
  lemma {:induction false} AverageBounded(events: seq<Event>, lo: int, hi: int)
    requires Within(events, lo, hi)
    ensures Online(events).avg == NO_AVG || lo <= Online(events).avg <= hi
    ensures (exists e :: e in events && e.Delay?) ==> lo <= Online(events).avg <= hi
    decreases |events|
  {
    if events != [] {
      var n := |events| - 1;
      var before := events[..n];
      assert events == before + [events[n]];
      AverageBounded(before, lo, hi);
      if events[n].Delay? {
        SmoothBounded(Online(before).avg, events[n].us, lo, hi);
      } else if e :| e in events && e.Delay? {
        assert e in before;
      }
    }
  }

  /** All delays, whatever period ends are between them. */
  function Delays(events: seq<Event>): seq<int> {
    if events == [] then []
    else Delays(events[..|events| - 1]) + if events[|events| - 1].Delay? then [events[|events| - 1].us] else []
  }

  /** The average of a sequence of delays, from its first to its last. */
  function Average(delays: seq<int>): int {
    if delays == [] then NO_AVG else Smooth(Average(delays[..|delays| - 1]), delays[|delays| - 1])
  }

  /** The average does not notice the period ends: it is that of all delays since the beginning. */
  lemma {:induction false} AverageOfAll(events: seq<Event>)
    ensures Online(events).avg == Average(Delays(events))
    decreases |events|
  {
    hide Smooth;
    if events != [] {
      var before := events[..|events| - 1];
      AverageOfAll(before);
      if events[|events| - 1].Delay? {
        assert Delays(events)[..|Delays(before)|] == Delays(before);
      } else {
        assert Delays(events) == Delays(before);
      }
    }
  }

  /** The delays of the current period: those behind the last period end. */
  function Period(events: seq<Event>): seq<int> {
    if events == [] || events[|events| - 1].PeriodEnd? then []
    else Period(events[..|events| - 1]) + [events[|events| - 1].us]
  }

  /** Minimum and maximum are those of the current period. */
  lemma {:induction false} ExtremaOfPeriod(events: seq<Event>)
    requires Within(events, -9_223_372_036_854_775_808, 9_223_372_036_854_775_807)
    ensures var st, p := Online(events), Period(events);
      && (forall d :: d in p ==> st.min <= d <= st.max)
      && (p != [] ==> st.min in p && st.max in p)
      && (p == [] ==> st.min == 9_223_372_036_854_775_807 && st.max == -9_223_372_036_854_775_808)
    decreases |events|
  {
    if events != [] && events[|events| - 1].Delay? {
      var n := |events| - 1;
      var before := events[..n];
      assert events == before + [events[n]];
      ExtremaOfPeriod(before);
      var p, d := Period(before), events[n].us;
      assert events[n] in events;
      assert Period(events) == p + [d] && Period(events)[|p|] == d;
      assert forall x :: x in p + [d] <==> x in p || x == d;
    }
  }

  /** The average after `n` more samples of one delay. */
  function Settle(avg: int, delay: int, n: nat): int
    decreases n
  {
    if n == 0 then avg else Settle(Smooth(avg, delay), delay, n - 1)
  }

  /** An average on which a constant delay has no effect: the delay is at most 15 microseconds further
      away from zero. */
  predicate Stuck(avg: int, delay: int) {
    if avg > 0 then delay - 15 <= avg <= delay
    else if avg < 0 then delay <= avg <= delay + 15
    else -15 <= delay <= 15
  }

  /** One step toward a constant delay, for any signs: never away from it or past it. It stands still
      exactly in the last 15 microseconds on the side of zero, with the exception of an average of -1,
      from which it jumps to the delay. */
  lemma SmoothStep(avg: int, delay: int)
    ensures var next := Smooth(avg, delay);
      && (avg >= delay ==> delay <= next <= avg)
      && (avg <= delay ==> avg <= next <= delay)
      && (avg == NO_AVG ==> next == delay)
      && (avg != NO_AVG ==> (next == avg <==> Stuck(avg, delay)))
  {
    var n := avg * 15 + delay;
    var q := TruncDiv(n, 16);
  }

  /** Under a constant delay the average comes to rest after at most as many samples as it was off: within
      15 microseconds of the delay on the side of zero, and at the delay itself when it started at it
      or beyond it, or at -1. A resting average stays. */
  lemma {:induction false} Settles(avg: int, delay: int, n: nat)
    requires n >= (if avg > delay then avg - delay else delay - avg)
    ensures var r := Settle(avg, delay, n);
      && Smooth(r, delay) == r
      && (delay >= 0 ==> delay - 15 <= r <= delay)
      && (delay <= 0 ==> delay <= r <= delay + 15)
      && ((avg >= delay >= 0 || avg <= delay <= 0 || avg == NO_AVG) ==> r == delay)
      && (Stuck(avg, delay) && avg != NO_AVG ==> r == avg)
    decreases n
  {
    hide Smooth;
    SmoothStep(avg, delay);
    if n > 0 {
      var next := Smooth(avg, delay);
      if next == avg {
        Stays(avg, delay, n);
      } else {
        Settles(next, delay, n - 1);
      }
    }
  }

  lemma {:induction false} Stays(avg: int, delay: int, n: nat)
    requires Smooth(avg, delay) == avg
    ensures Settle(avg, delay, n) == avg
    decreases n
  {
    if n > 0 {
      Stays(avg, delay, n - 1);
    }
  }

  /** An average of exactly -1 microsecond is taken for none: the next delay replaces the history. The
      update is the smoothing formula exactly when the average is not -1, or the delay is -1 or 0. */
  lemma SentinelForgets(avg: int, delay: int)
    ensures Smooth(avg, delay) == TruncDiv(avg * 15 + delay, 16)
       <==> avg != NO_AVG || -1 <= delay <= 0
  {
    var q := TruncDiv(avg * 15 + delay, 16);
  }
}
