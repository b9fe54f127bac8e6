/** Interarrival jitter, by the recurrence of section 6.4.1 of RFC 3550, over the reals. */
module Jitter {
  import opened Prelude

  /** Delays are nanoseconds; a previous delay of zero stands for "none". */
  datatype JitterState = JitterState(prevDelay: int, jitter: real)

  const INITIAL := JitterState(0, 0.0)

  function Abs(n: int): nat {
    if n < 0 then -n else n
  }

  /** How far two delays are apart, in whole microseconds. */
  function MicrosApart(a: int, b: int): (r: nat)
    ensures var d := if b < a then a - b else b - a; 1000 * r <= d < 1000 * (r + 1)
  {
    (if b < a then a - b else b - a) / 1000
  }

  /** The relative transit time of two packets, in microseconds: the difference truncated toward zero,
      and then without its sign. */
  function RelativeTransit(prev: int, delay: int): (r: nat)
    ensures r == MicrosApart(prev, delay)
  {
    Abs(TruncDiv(delay - prev, 1000))
  }

  function SubmitDelay(st: JitterState, delay: int): JitterState {
    JitterState(delay,
                if st.prevDelay != 0 then (st.jitter * 15.0 + RelativeTransit(st.prevDelay, delay) as real) / 16.0
                else st.jitter)
  }

  class JitterMetric {
    var prevDelay: int
    var jitter: real

    function View(): JitterState
      reads this
    {
      JitterState(prevDelay, jitter)
    }

    constructor ()
      ensures View() == INITIAL
    {
      prevDelay, jitter := 0, 0.0;
    }

    method SubmitSample(timestamp: int, arrivalTime: int)
      modifies this
      ensures View() == SubmitDelay(old(View()), arrivalTime - timestamp)
    {
      var delay := arrivalTime - timestamp;
      if prevDelay != 0 {
        var relative := Abs(TruncDiv(delay - prevDelay, 1000));
        jitter := (jitter * 15.0 + relative as real) / 16.0;
      }
      prevDelay := delay;
    }
  }

  function Online(delays: seq<int>): JitterState {
    if delays == [] then INITIAL else SubmitDelay(Online(delays[..|delays| - 1]), delays[|delays| - 1])
  }

  lemma OnlineAppend(delays: seq<int>, delay: int)
    ensures Online(delays + [delay]) == SubmitDelay(Online(delays), delay)
  {
    assert (delays + [delay])[..|delays|] == delays;
  }

  /** The differences that the recurrence uses: those behind a delay that is not zero. */
  function Used(delays: seq<int>): seq<nat> {
    if |delays| <= 1 then []
    else
      var n := |delays| - 1;
      Used(delays[..n]) + if delays[n - 1] != 0 then [MicrosApart(delays[n - 1], delays[n])] else []
  }

  /** (15/16) to the power of k. */
  function Weight(k: nat): real {
    if k == 0 then 1.0 else Weight(k - 1) * 15.0 / 16.0
  }

  /** The sum of the differences, each weighted by its age. */
  function WeightedSum(ds: seq<nat>): real {
    if ds == [] then 0.0 else Weight(|ds| - 1) * ds[0] as real + WeightedSum(ds[1..])
  }

  lemma {:induction false} WeightedSumStep(ds: seq<nat>, d: nat)
    ensures WeightedSum(ds + [d]) == WeightedSum(ds) * 15.0 / 16.0 + d as real
    decreases |ds|
  {
    if ds == [] {
      assert ds + [d] == [d] && [d][1..] == [];
      assert Weight(0) == 1.0;
      assert WeightedSum([d]) == Weight(0) * d as real + WeightedSum([d][1..]);
    } else {
      assert (ds + [d])[1..] == ds[1..] + [d] && (ds + [d])[0] == ds[0];
      WeightedSumStep(ds[1..], d);
      var w, x := Weight(|ds| - 1), ds[0] as real;
      assert Weight(|ds|) == w * 15.0 / 16.0;
      assert (w * 15.0 / 16.0) * x == (w * x) * 15.0 / 16.0;
    }
  }

  /** The online state in closed form: a sixteenth of the used differences, weighted by age. This is the
      recurrence of section 6.4.1 of RFC 3550, as `StandardRecurrence` says, solved. */
  lemma {:induction false} ClosedForm(delays: seq<int>)
    ensures Online(delays).jitter == WeightedSum(Used(delays)) / 16.0
    ensures Online(delays).prevDelay == if delays == [] then 0 else delays[|delays| - 1]
    decreases |delays|
  {
    hide RelativeTransit, MicrosApart, Weight;
    if delays != [] {
      var n := |delays| - 1;
      ClosedForm(delays[..n]);
      if n > 0 && delays[n - 1] != 0 {
        var before, d := Used(delays[..n]), MicrosApart(delays[n - 1], delays[n]);
        WeightedSumStep(before, d);
        assert Used(delays) == before + [d];
        assert Online(delays).jitter == (WeightedSum(before) / 16.0 * 15.0 + d as real) / 16.0;
      } else {
        assert Used(delays) == Used(delays[..n]);
      }
    }
  }

  /** The update is the one of the standard: J + (|D| - J) / 16. */
  lemma StandardRecurrence(st: JitterState, delay: int)
    requires st.prevDelay != 0
    ensures SubmitDelay(st, delay).jitter
         == st.jitter + (MicrosApart(st.prevDelay, delay) as real - st.jitter) / 16.0
  {
  }

  function Differences(delays: seq<int>): seq<nat> {
    if |delays| <= 1 then []
    else
      var n := |delays| - 1;
      Differences(delays[..n]) + [MicrosApart(delays[n - 1], delays[n])]
  }

  lemma {:induction false} UsedLength(delays: seq<int>)
    ensures |Differences(delays)| == Max(0, |delays| - 1)
    ensures |Used(delays)| == Max(0, |delays| - 1) - |ZeroDelays(delays)|
    decreases |delays|
  {
    if |delays| > 1 {
      var n := |delays| - 1;
      UsedLength(delays[..n]);
      ZeroDelaysStep(delays);
    } else {
      assert ZeroDelays(delays) == {};
    }
  }

  lemma ZeroDelaysStep(delays: seq<int>)
    requires |delays| > 1
    ensures var n := |delays| - 1;
      |ZeroDelays(delays)| == |ZeroDelays(delays[..n])| + if delays[n - 1] == 0 then 1 else 0
  {
    var n := |delays| - 1;
    assert ZeroDelays(delays) == ZeroDelays(delays[..n]) + if delays[n - 1] == 0 then {n - 1} else {};
    assert n - 1 !in ZeroDelays(delays[..n]);
  }

  /** The packets, other than the last, whose delay is exactly zero. */
  function ZeroDelays(delays: seq<int>): set<int> {
    set i | 0 <= i < |delays| - 1 && delays[i] == 0
  }

  /** The standard's sum over all consecutive differences is used exactly when no delay but possibly
      the last is zero. */
  lemma {:induction false} AllUsed(delays: seq<int>)
    ensures Used(delays) == Differences(delays) <==> ZeroDelays(delays) == {}
    decreases |delays|
  {
    UsedLength(delays);
    if ZeroDelays(delays) == {} {
      if |delays| > 1 {
        var n := |delays| - 1;
        assert n - 1 !in ZeroDelays(delays);
        forall i ensures i !in ZeroDelays(delays[..n]) {
          assert i in ZeroDelays(delays[..n]) ==> i in ZeroDelays(delays);
        }
        AllUsed(delays[..n]);
      }
    } else {
      assert |ZeroDelays(delays)| > 0;
    }
  }

  lemma {:induction false} WeightPositive(k: nat)
    ensures 0.0 < Weight(k) <= 1.0
  {
    if k > 0 {
      WeightPositive(k - 1);
    }
  }

  /** The jitter is never negative and never above the largest difference; after few packets it is
      still well below. */
  lemma {:induction false} JitterBounded(delays: seq<int>, bound: nat)
    requires forall d :: d in Used(delays) ==> d <= bound
    ensures 0.0 <= Online(delays).jitter <= bound as real * (1.0 - Weight(|Used(delays)|))
    ensures Online(delays).jitter <= bound as real
    decreases |delays|
  {
    hide Online, Weight, RelativeTransit, MicrosApart;
    if |delays| <= 1 {
      NoJitter(delays);
    } else {
      var before := Used(delays[..|delays| - 1]);
      forall d | d in before ensures d <= bound {
        assert d in Used(delays);
      }
      JitterBounded(delays[..|delays| - 1], bound);
      JitterBoundedStep(delays, bound);
    }
    WeightPositive(|Used(delays)|);
    BelowBound(bound as real, Weight(|Used(delays)|));
  }

  lemma JitterBoundedStep(delays: seq<int>, bound: nat)
    requires |delays| > 1 && forall d :: d in Used(delays) ==> d <= bound
    requires var before := delays[..|delays| - 1];
      0.0 <= Online(before).jitter <= bound as real * (1.0 - Weight(|Used(before)|))
    ensures 0.0 <= Online(delays).jitter <= bound as real * (1.0 - Weight(|Used(delays)|))
  {
    hide Online, Weight, RelativeTransit, MicrosApart;
    var n := |delays| - 1;
    var before := Used(delays[..n]);
    JitterStep(delays);
    if delays[n - 1] != 0 {
      var d := MicrosApart(delays[n - 1], delays[n]);
      assert Used(delays) == before + [d] && d in Used(delays);
      WeightStep(|before|);
      BoundStep(Online(delays[..n]).jitter, bound as real, Weight(|before|), d as real);
    }
  }

  lemma NoJitter(delays: seq<int>)
    requires |delays| <= 1
    ensures Online(delays).jitter == 0.0 && Weight(0) == 1.0
  {
  }

  lemma WeightStep(k: nat)
    ensures Weight(k + 1) == Weight(k) * 15.0 / 16.0
  {
  }

  lemma JitterStep(delays: seq<int>)
    requires |delays| > 1
    ensures var n := |delays| - 1;
      Online(delays).jitter
      == if delays[n - 1] != 0 then (Online(delays[..n]).jitter * 15.0 + MicrosApart(delays[n - 1], delays[n]) as real) / 16.0
         else Online(delays[..n]).jitter
  {
    ClosedForm(delays[..|delays| - 1]);
  }

  lemma BoundStep(j: real, b: real, w: real, d: real)
    requires 0.0 <= j <= b * (1.0 - w) && 0.0 <= d <= b
    ensures 0.0 <= (j * 15.0 + d) / 16.0 <= b * (1.0 - w * 15.0 / 16.0)
  {
    assert b * (1.0 - w * 15.0 / 16.0) == (b * (1.0 - w) * 15.0 + b) / 16.0;
  }

  lemma BelowBound(b: real, w: real)
    requires b >= 0.0 && 0.0 < w <= 1.0
    ensures 0.0 <= b * (1.0 - w) <= b
  {
  }

  lemma {:induction false} DifferencesShifted(delays: seq<int>, offset: int)
    ensures Differences(Shifted(delays, offset)) == Differences(delays)
    decreases |delays|
  {
    if |delays| > 1 {
      var n := |delays| - 1;
      assert Shifted(delays, offset)[..n] == Shifted(delays[..n], offset);
      DifferencesShifted(delays[..n], offset);
    }
  }

  /** Two clocks that differ by a constant report the same jitter as long as neither makes a delay
      other than the last zero. */
  lemma OffsetIrrelevant(delays: seq<int>, offset: int)
    requires ZeroDelays(delays) == {} && ZeroDelays(Shifted(delays, offset)) == {}
    ensures Online(Shifted(delays, offset)).jitter == Online(delays).jitter
  {
    AllUsed(delays);
    AllUsed(Shifted(delays, offset));
    DifferencesShifted(delays, offset);
    ClosedForm(delays);
    ClosedForm(Shifted(delays, offset));
  }

  /** Without that condition it fails, for every pair of delays: the offset that makes the first one zero
      hides the step behind it, so that the two clocks differ if and only if there is a step. */
  lemma OffsetMatters(a: int, b: int)
    requires a != 0
    ensures Online([a, b]).jitter == MicrosApart(a, b) as real / 16.0
    ensures Online(Shifted([a, b], -a)).jitter == 0.0
    ensures Online(Shifted([a, b], -a)).jitter == Online([a, b]).jitter <==> MicrosApart(a, b) == 0
  {
    hide RelativeTransit, MicrosApart;
    OnlinePair(a, b);
    OnlinePair(0, b - a);
    assert Shifted([a, b], -a) == [0, b - a];
  }

  lemma OnlinePair(a: int, b: int)
    ensures Online([a, b]).jitter == if a == 0 then 0.0 else MicrosApart(a, b) as real / 16.0
  {
    hide RelativeTransit, MicrosApart;
    assert [a, b] == [a] + [b] && [a] == [] + [a];
    OnlineAppend([a], b);
    OnlineAppend([], a);
  }
}
