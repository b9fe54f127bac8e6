/** Time-stamped delay factor: the spread of the transit times of one measurement period, relative to
    its first packet. */
module DelayFactor {
  import opened Prelude

  const INT64_MAX := 0x7FFF_FFFF_FFFF_FFFF
  const INT64_MIN := -0x8000_0000_0000_0000

  /** Delays are nanoseconds, relative transit times microseconds. */
  datatype SpreadState = SpreadState(isReference: bool, referenceDelay: int, min: int, max: int)

  const FRESH := SpreadState(true, 0, INT64_MAX, INT64_MIN)

  function SubmitDelay(st: SpreadState, delay: int): SpreadState {
    if st.isReference then st.(referenceDelay := delay, isReference := false)
    else
      var relative := TruncDiv(delay - st.referenceDelay, 1000);
      st.(max := Max(st.max, relative), min := Min(st.min, relative))
  }

  class DelayFactorMetric {
    var isReferencePacket: bool
    var referenceDelay: int
    var relativeMin: int
    var relativeMax: int

    function View(): SpreadState
      reads this
    {
      SpreadState(isReferencePacket, referenceDelay, relativeMin, relativeMax)
    }

    constructor ()
      ensures View() == FRESH
    {
      isReferencePacket, referenceDelay, relativeMin, relativeMax := true, 0, INT64_MAX, INT64_MIN;
    }

    method SubmitSample(timestamp: int, arrivalTime: int)
      modifies this
      ensures View() == SubmitDelay(old(View()), arrivalTime - timestamp)
    {
      var delay := arrivalTime - timestamp;
      if !isReferencePacket {
        var relative := TruncDiv(delay - referenceDelay, 1000);
        relativeMax := Max(relativeMax, relative);
        relativeMin := Min(relativeMin, relative);
      } else {
        referenceDelay := delay;
        isReferencePacket := false;
      }
    }

    method Reset()
      modifies this
      ensures View() == FRESH
    {
      isReferencePacket, referenceDelay, relativeMin, relativeMax := true, 0, INT64_MAX, INT64_MIN;
    }
  }

  /** The reported value; before two samples it is not meaningful. */
  function DelayFactorOf(st: SpreadState): int {
    st.max - st.min
  }

  /** The state after a period with these delays. */
  function Online(delays: seq<int>): SpreadState {
    if delays == [] then FRESH else SubmitDelay(Online(delays[..|delays| - 1]), delays[|delays| - 1])
  }

  lemma OnlineAppend(delays: seq<int>, delay: int)
    ensures Online(delays + [delay]) == SubmitDelay(Online(delays), delay)
  {
    assert (delays + [delay])[..|delays|] == delays;
  }

  /** `lo` and `hi` are the smallest and the largest delay behind the reference packet. */
  predicate IsSpan(delays: seq<int>, lo: int, hi: int) {
    && |delays| >= 2
    && (forall i :: 1 <= i < |delays| ==> lo <= delays[i] <= hi)
    && lo in delays[1..] && hi in delays[1..]
  }

  predicate Representable(delays: seq<int>) {
    forall d :: d in delays && delays != [] ==>
      -9_223_372_036_854_775_808 <= TruncDiv(d - delays[0], 1000) <= 9_223_372_036_854_775_807
  }

  /** The smallest and largest delay behind the reference packet. */
  function Lowest(delays: seq<int>): int
    requires |delays| >= 2
  {
    if |delays| == 2 then delays[1] else Min(Lowest(delays[..|delays| - 1]), delays[|delays| - 1])
  }

  function Highest(delays: seq<int>): int
    requires |delays| >= 2
  {
    if |delays| == 2 then delays[1] else Max(Highest(delays[..|delays| - 1]), delays[|delays| - 1])
  }

  lemma SpanUnique(delays: seq<int>, lo: int, hi: int)
    requires IsSpan(delays, lo, hi)
    ensures lo == Lowest(delays) && hi == Highest(delays)
  {
    LowestHighest(delays);
  }

  lemma {:induction false} LowestHighest(delays: seq<int>)
    requires |delays| >= 2
    ensures IsSpan(delays, Lowest(delays), Highest(delays))
    decreases |delays|
  {
    var n := |delays| - 1;
    if n == 1 {
      assert delays[1..][0] == delays[1];
    } else {
      LowestHighest(delays[..n]);
      assert delays[1..] == delays[..n][1..] + [delays[n]];
    }
  }

  /** The online state is the truncated relative delay of the extremes, because truncation keeps the order. */
  lemma {:induction false} OnlineExtremes(delays: seq<int>)
    requires |delays| >= 2 && Representable(delays)
    ensures Online(delays)
         == SpreadState(false, delays[0], TruncDiv(Lowest(delays) - delays[0], 1000), TruncDiv(Highest(delays) - delays[0], 1000))
    decreases |delays|
  {
    hide TruncDiv, Online, Representable, Lowest, Highest;
    var n := |delays| - 1;
    var before := delays[..n];
    if n == 1 {
      OnlineTwo(delays);
    } else {
      RepresentablePrefix(delays);
      OnlineExtremes(before);
      assert before[0] == delays[0];
      OnlineStep(delays);
      ExtremesStep(delays);
      MinTrunc(Lowest(before) - delays[0], delays[n] - delays[0]);
      MinTrunc(Highest(before) - delays[0], delays[n] - delays[0]);
    }
  }

  lemma ExtremesStep(delays: seq<int>)
    requires |delays| > 2
    ensures var before, d := delays[..|delays| - 1], delays[|delays| - 1];
      Lowest(delays) == Min(Lowest(before), d) && Highest(delays) == Max(Highest(before), d)
  {
  }

  lemma OnlineStep(delays: seq<int>)
    requires delays != []
    ensures Online(delays) == SubmitDelay(Online(delays[..|delays| - 1]), delays[|delays| - 1])
  {
  }

  lemma RepresentablePrefix(delays: seq<int>)
    requires Representable(delays) && |delays| > 1
    ensures Representable(delays[..|delays| - 1])
  {
    hide TruncDiv;
    var before := delays[..|delays| - 1];
    assert before[0] == delays[0];
    assert forall d :: d in before ==> d in delays;
  }

  lemma OnlineTwo(delays: seq<int>)
    requires |delays| == 2 && Representable(delays)
    ensures var t := TruncDiv(delays[1] - delays[0], 1000);
      Online(delays) == SpreadState(false, delays[0], t, t) && Lowest(delays) == Highest(delays) == delays[1]
  {
    hide TruncDiv;
    assert delays[1] in delays;
    assert Lowest(delays) == Highest(delays) == delays[1];
    assert delays[..1][..0] == [];
    OnlineStep(delays);
    OnlineStep(delays[..1]);
  }

  lemma MinTrunc(a: int, b: int)
    ensures TruncDiv(Min(a, b), 1000) == Min(TruncDiv(a, 1000), TruncDiv(b, 1000))
    ensures TruncDiv(Max(a, b), 1000) == Max(TruncDiv(a, 1000), TruncDiv(b, 1000))
  {
    TruncDivMonotone(Min(a, b), Max(a, b), 1000);
  }

  /** After a reset and at least two samples the delay factor is the span of the delays behind the
      reference packet, to within two microseconds. */
  lemma DelayFactorIsSpan(delays: seq<int>, lo: int, hi: int)
    requires IsSpan(delays, lo, hi) && Representable(delays)
    ensures hi - lo - 2000 < 1000 * DelayFactorOf(Online(delays)) < hi - lo + 2000
  {
    hide Online, Lowest, Highest, TruncDiv;
    OnlineExtremes(delays);
    SpanUnique(delays, lo, hi);
    TruncSpan(lo - delays[0], hi - delays[0]);
  }

  lemma TruncSpan(a: int, b: int)
    ensures b - a - 2000 < 1000 * (TruncDiv(b, 1000) - TruncDiv(a, 1000)) < b - a + 2000
  {
  }

  predicate MicrosecondTicks(delays: seq<int>) {
    forall d :: d in delays ==> d % 1000 == 0
  }

  /** With microsecond clocks it is exactly the span. */
  lemma DelayFactorExact(delays: seq<int>, lo: int, hi: int)
    requires IsSpan(delays, lo, hi) && Representable(delays) && MicrosecondTicks(delays)
    ensures 1000 * DelayFactorOf(Online(delays)) == hi - lo
  {
    hide Online, Lowest, Highest, TruncDiv;
    OnlineExtremes(delays);
    SpanUnique(delays, lo, hi);
    assert lo in delays && hi in delays && delays[0] in delays;
    ExactTrunc(lo, delays[0]);
    ExactTrunc(hi, delays[0]);
  }

  lemma ExactTrunc(a: int, b: int)
    requires a % 1000 == 0 && b % 1000 == 0
    ensures 1000 * TruncDiv(a - b, 1000) == a - b
  {
  }

  /** With microsecond clocks the delay of the reference packet does not matter. */
  lemma ReferenceIrrelevant(a: seq<int>, b: seq<int>)
    requires |a| >= 2 && |a| == |b| && a[1..] == b[1..] && Representable(a) && Representable(b)
    requires MicrosecondTicks(a) && MicrosecondTicks(b)
    ensures DelayFactorOf(Online(a)) == DelayFactorOf(Online(b))
  {
    hide MicrosecondTicks, Representable, Online;
    LowestHighest(a);
    forall i | 1 <= i < |b| ensures b[i] == a[i] {
      assert b[i] == b[1..][i - 1] && a[i] == a[1..][i - 1];
    }
    assert IsSpan(b, Lowest(a), Highest(a));
    DelayFactorExact(a, Lowest(a), Highest(a));
    DelayFactorExact(b, Lowest(a), Highest(a));
  }

  /** Two clocks that differ by a constant report the same delay factor, to the nanosecond. */
  lemma {:induction false} OffsetIrrelevant(delays: seq<int>, offset: int)
    ensures var a, b := Online(delays), Online(Shifted(delays, offset));
      && a.min == b.min && a.max == b.max && a.isReference == b.isReference
      && (!a.isReference ==> b.referenceDelay == a.referenceDelay + offset)
      && DelayFactorOf(a) == DelayFactorOf(b)
    decreases |delays|
  {
    if delays != [] {
      var n := |delays| - 1;
      OffsetIrrelevant(delays[..n], offset);
      assert Shifted(delays, offset)[..n] == Shifted(delays[..n], offset);
    }
  }
}
