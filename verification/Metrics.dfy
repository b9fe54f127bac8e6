/** The validator: one online state for all the metrics of a connection, fed packet by packet. */
module Metrics {
  import opened Prelude
  import opened Payload
  import Reorder
  import Latency
  import DelayFactor
  import Jitter

  /** Counters of damaged packets. */
  datatype IntegrityStats = IntegrityStats(pktsWrongLen: nat, pktsWrongChecksum: nat)

  datatype MetricsState = MetricsState(
    latency: Latency.LatencyState,
    jitter: Jitter.JitterState,
    delayFactor: DelayFactor.SpreadState,
    reorder: Reorder.Stats,
    integrity: IntegrityStats)

  const INITIAL := MetricsState(Latency.INITIAL, Jitter.INITIAL, DelayFactor.FRESH, Reorder.NO_PACKETS, IntegrityStats(0, 0))

  function CheckIntegrity(st: IntegrityStats, expectedLen: nat, actualLen: nat, valid: bool): IntegrityStats {
    IntegrityStats(st.pktsWrongLen + (if expectedLen != actualLen then 1 else 0),
                   st.pktsWrongChecksum + (if valid then 0 else 1))
  }

  /** One packet. A wrong checksum leaves every metric but the packet counters alone. */
  function Validate(st: MetricsState, p: Bytes, sysNow: int, stdNow: int, md5: Bytes -> Digest): MetricsState
    requires |p| >= HEADER_LEN
  {
    var valid := ValidatePacketChecksum(p, md5);
    var checked := st.(integrity := CheckIntegrity(st.integrity, ReadPacketLength(p), |p|, valid));
    if !valid then
      checked.(reorder := st.reorder.(pktsProcessed := st.reorder.pktsProcessed + 1))
    else
      var delay := stdNow - ReadStdclockTimestamp(p);
      checked.(latency := Latency.SubmitDelay(st.latency, TruncDiv(sysNow - ReadSysclockTimestamp(p), 1000)),
               jitter := Jitter.SubmitDelay(st.jitter, delay),
               delayFactor := DelayFactor.SubmitDelay(st.delayFactor, delay),
               reorder := Reorder.Submit(st.reorder, ReadPacketSeqno(p)))
  }

  /** A report ends the measurement period of latency and delay factor. */
  function Report(st: MetricsState): MetricsState {
    st.(latency := Latency.ResetPeriod(st.latency), delayFactor := DelayFactor.FRESH)
  }

  class Validator {
    const md5: Bytes -> Digest
    const latency: Latency.LatencyMetric
    const jitter: Jitter.JitterMetric
    const delayFactor: DelayFactor.DelayFactorMetric
    const reorder: Reorder.ReorderMetric
    var pktsWrongLen: nat
    var pktsWrongChecksum: nat

    ghost function Repr(): set<object> {
      {this, latency, jitter, delayFactor, reorder}
    }

    function View(): MetricsState
      reads Repr()
    {
      MetricsState(latency.View(), jitter.View(), delayFactor.View(), reorder.View(),
                   IntegrityStats(pktsWrongLen, pktsWrongChecksum))
    }

    constructor (md5: Bytes -> Digest)
      ensures this.md5 == md5 && View() == INITIAL && fresh(Repr())
      ensures Reorder.InRange(reorder.View())
    {
      this.md5 := md5;
      latency := new Latency.LatencyMetric();
      jitter := new Jitter.JitterMetric();
      delayFactor := new DelayFactor.DelayFactorMetric();
      reorder := new Reorder.ReorderMetric();
      pktsWrongLen, pktsWrongChecksum := 0, 0;
    }

    /** The clocks are read, in nanoseconds, when the packet has arrived. */
    method ValidatePacket(payload: Bytes, sysTimeNow: int, stdTimeNow: int)
      requires |payload| >= HEADER_LEN
      requires Reorder.InRange(reorder.View()) && reorder.pktsProcessed < Reorder.UINT64_MAX
      requires ValidatePacketChecksum(payload, md5) ==> ReadPacketSeqno(payload) < Reorder.UINT64_MAX
      modifies Repr()
      ensures View() == Validate(old(View()), payload, sysTimeNow, stdTimeNow, md5)
      ensures Reorder.InRange(reorder.View())
    {
      hide ReadPacketSeqno, ReadStdclockTimestamp, ReadSysclockTimestamp, ReadPacketLength, ValidatePacketChecksum, DigestMatches, TruncDiv;
      hide Jitter.SubmitDelay, Latency.SubmitDelay, DelayFactor.SubmitDelay, Reorder.Submit;
      var pktSeqno := ReadPacketSeqno(payload);
      var stdTimestamp := ReadStdclockTimestamp(payload);
      var sysTimestamp := ReadSysclockTimestamp(payload);
      var pktLength := ReadPacketLength(payload);
      var checksumMatch := ValidatePacketChecksum(payload, md5);

      if pktLength != |payload| {
        pktsWrongLen := pktsWrongLen + 1;
      }
      if !checksumMatch {
        pktsWrongChecksum := pktsWrongChecksum + 1;
        reorder.IncPktsReceived();
        return;
      }
      latency.SubmitSample(sysTimestamp, sysTimeNow);
      jitter.SubmitSample(stdTimestamp, stdTimeNow);
      delayFactor.SubmitSample(stdTimestamp, stdTimeNow);
      reorder.SubmitSample(pktSeqno);
    }

    /** The state that is reported, and the start of a new period. */
    method Stats() returns (reported: MetricsState)
      modifies Repr()
      ensures reported == old(View()) && View() == Report(old(View()))
    {
      reported := View();
      latency.Reset();
      delayFactor.Reset();
    }
  }

  // ---------- whole runs

  /** What happens to a validator: packets arrive, reports are asked for. */
  datatype Event = Packet(payload: Bytes, sysNow: int, stdNow: int) | Reported

  ghost predicate LongEnough(events: seq<Event>) {
    forall e :: e in events && e.Packet? ==> |e.payload| >= HEADER_LEN
  }

  function Step(st: MetricsState, e: Event, md5: Bytes -> Digest): MetricsState
    requires e.Packet? ==> |e.payload| >= HEADER_LEN
  {
    match e
    case Packet(payload, sysNow, stdNow) => Validate(st, payload, sysNow, stdNow, md5)
    case Reported => Report(st)
  }

  ghost function Online(events: seq<Event>, md5: Bytes -> Digest): MetricsState
    requires LongEnough(events)
  {
    if events == [] then INITIAL
    else
      var n := |events| - 1;
      assert events[n] in events;
      Step(Online(events[..n], md5), events[n], md5)
  }

  predicate IsIntact(e: Event, md5: Bytes -> Digest)
    requires e.Packet? ==> |e.payload| >= HEADER_LEN
  {
    e.Packet? && DigestMatches(e.payload, md5)
  }

  /** The sequence numbers of the intact packets, in order of arrival. */
  ghost function Seqnos(events: seq<Event>, md5: Bytes -> Digest): seq<nat>
    requires LongEnough(events)
  {
    if events == [] then []
    else
      var n := |events| - 1;
      assert events[n] in events;
      Seqnos(events[..n], md5) + if IsIntact(events[n], md5) then [ReadPacketSeqno(events[n].payload)] else []
  }

  /** The number of packets with a wrong checksum. */
  ghost function Corrupted(events: seq<Event>, md5: Bytes -> Digest): nat
    requires LongEnough(events)
  {
    if events == [] then 0
    else
      var n := |events| - 1;
      assert events[n] in events;
      Corrupted(events[..n], md5) + if events[n].Packet? && !IsIntact(events[n], md5) then 1 else 0
  }

  /** The number of packets whose length field is not their length. */
  ghost function WrongLengths(events: seq<Event>): nat
    requires LongEnough(events)
  {
    if events == [] then 0
    else
      var n := |events| - 1;
      assert events[n] in events;
      WrongLengths(events[..n])
      + if events[n].Packet? && ReadPacketLength(events[n].payload) != |events[n].payload| then 1 else 0
  }

  /** The steady-clock delays of the intact packets, and those of the current period. */
  ghost function StdDelays(events: seq<Event>, md5: Bytes -> Digest): seq<int>
    requires LongEnough(events)
  {
    if events == [] then []
    else
      var n := |events| - 1;
      assert events[n] in events;
      StdDelays(events[..n], md5)
      + if IsIntact(events[n], md5) then [events[n].stdNow - ReadStdclockTimestamp(events[n].payload)] else []
  }

  ghost function PeriodDelays(events: seq<Event>, md5: Bytes -> Digest): seq<int>
    requires LongEnough(events)
  {
    if events == [] then []
    else
      var n := |events| - 1;
      assert events[n] in events;
      if events[n].Reported? then []
      else
        PeriodDelays(events[..n], md5)
        + if IsIntact(events[n], md5) then [events[n].stdNow - ReadStdclockTimestamp(events[n].payload)] else []
  }

  /** The system-clock delays of the intact packets in microseconds, and the period ends between them. */
  ghost function LatencyEvents(events: seq<Event>, md5: Bytes -> Digest): seq<Latency.Event>
    requires LongEnough(events)
  {
    if events == [] then []
    else
      var n := |events| - 1;
      assert events[n] in events;
      LatencyEvents(events[..n], md5)
      + if events[n].Reported? then [Latency.PeriodEnd]
        else if IsIntact(events[n], md5) then
          [Latency.Delay(TruncDiv(events[n].sysNow - ReadSysclockTimestamp(events[n].payload), 1000))]
        else []
  }

  /** Each metric of a run is that metric's own history of the intact packets: damaged packets only
      count, and reports end the periods of latency and delay factor and nothing else. */
  lemma {:induction false} ReorderOfRun(events: seq<Event>, md5: Bytes -> Digest)
    requires LongEnough(events)
    ensures var st, seqnos := Online(events, md5), Seqnos(events, md5);
      && st.reorder == Reorder.Online(seqnos).(pktsProcessed := |seqnos| + Corrupted(events, md5))
      && st.integrity.pktsWrongChecksum == Corrupted(events, md5)
    decreases |events|
  {
    hide ValidatePacketChecksum, DigestMatches, ReadPacketSeqno, ReadPacketLength, ReadStdclockTimestamp, ReadSysclockTimestamp;
    if events != [] {
      var n := |events| - 1;
      var before := Seqnos(events[..n], md5);
      assert events[n] in events;
      ReorderOfRun(events[..n], md5);
      if IsIntact(events[n], md5) {
        Reorder.OnlineStep(before, ReadPacketSeqno(events[n].payload));
      } else {
        assert Seqnos(events, md5) == before;
      }
    }
  }

  lemma {:induction false} LengthsOfRun(events: seq<Event>, md5: Bytes -> Digest)
    requires LongEnough(events)
    ensures Online(events, md5).integrity.pktsWrongLen == WrongLengths(events)
    decreases |events|
  {
    hide ValidatePacketChecksum, DigestMatches, ReadPacketSeqno, ReadPacketLength, ReadStdclockTimestamp, ReadSysclockTimestamp;
    if events != [] {
      var n := |events| - 1;
      assert events[n] in events;
      LengthsOfRun(events[..n], md5);
    }
  }

  lemma {:induction false} JitterOfRun(events: seq<Event>, md5: Bytes -> Digest)
    requires LongEnough(events)
    ensures Online(events, md5).jitter == Jitter.Online(StdDelays(events, md5))
    decreases |events|
  {
    hide ValidatePacketChecksum, DigestMatches, ReadPacketSeqno, ReadPacketLength, ReadStdclockTimestamp, ReadSysclockTimestamp;
    if events != [] {
      var n := |events| - 1;
      assert events[n] in events;
      JitterOfRun(events[..n], md5);
      if IsIntact(events[n], md5) {
        Jitter.OnlineAppend(StdDelays(events[..n], md5), events[n].stdNow - ReadStdclockTimestamp(events[n].payload));
      } else {
        assert StdDelays(events, md5) == StdDelays(events[..n], md5);
      }
    }
  }

  lemma {:induction false} DelayFactorOfRun(events: seq<Event>, md5: Bytes -> Digest)
    requires LongEnough(events)
    ensures Online(events, md5).delayFactor == DelayFactor.Online(PeriodDelays(events, md5))
    decreases |events|
  {
    hide ValidatePacketChecksum, DigestMatches, ReadPacketSeqno, ReadPacketLength, ReadStdclockTimestamp, ReadSysclockTimestamp;
    if events != [] {
      var n := |events| - 1;
      assert events[n] in events;
      DelayFactorOfRun(events[..n], md5);
      if IsIntact(events[n], md5) {
        DelayFactor.OnlineAppend(PeriodDelays(events[..n], md5), events[n].stdNow - ReadStdclockTimestamp(events[n].payload));
      } else if events[n].Packet? {
        assert PeriodDelays(events, md5) == PeriodDelays(events[..n], md5);
      }
    }
  }

  lemma {:induction false} LatencyOfRun(events: seq<Event>, md5: Bytes -> Digest)
    requires LongEnough(events)
    ensures Online(events, md5).latency == Latency.Online(LatencyEvents(events, md5))
    decreases |events|
  {
    hide ValidatePacketChecksum, DigestMatches, ReadPacketSeqno, ReadPacketLength, ReadStdclockTimestamp, ReadSysclockTimestamp, TruncDiv;
    if events != [] {
      var n := |events| - 1;
      var e, before := events[n], LatencyEvents(events[..n], md5);
      assert e in events;
      LatencyOfRun(events[..n], md5);
      if e.Reported? {
        Latency.OnlineAppend(before, Latency.PeriodEnd);
      } else if IsIntact(e, md5) {
        Latency.OnlineAppend(before, Latency.Delay(TruncDiv(e.sysNow - ReadSysclockTimestamp(e.payload), 1000)));
      } else {
        assert LatencyEvents(events, md5) == before;
      }
    }
  }

  /** Every run of a validator, over any packets and reports, conserves: the numbers passed and the
      packets reordered or damaged are the packets processed and the numbers lost. */
  lemma RunConserves(events: seq<Event>, md5: Bytes -> Digest)
    requires LongEnough(events)
    ensures var st := Online(events, md5);
      st.reorder.expectedSeqno + st.reorder.pktsReordered + st.integrity.pktsWrongChecksum
      == st.reorder.pktsProcessed + st.reorder.pktsLost
  {
    hide Online, Seqnos, Corrupted;
    ReorderOfRun(events, md5);
    Reorder.Conservation(Seqnos(events, md5));
    Reorder.AllProcessed(Seqnos(events, md5));
  }

  // ---------- from generator to validator

  /** The packets of one generator: their length, and the clocks in microseconds when each was made. */
  datatype Sender = Sender(len: nat, stdUs: nat -> int, sysUs: nat -> int)

  ghost predicate SenderValid(s: Sender) {
    && HEADER_LEN <= s.len < TWO64
    && (forall k :: -TWO63 <= s.stdUs(k) < TWO63)
    && (forall k :: -TWO63 <= s.sysUs(k) < TWO63)
  }

  function PacketOf(s: Sender, k: nat, md5: Bytes -> Digest): Bytes
    requires HEADER_LEN <= s.len < TWO64
  {
    Generated(k, s.len, s.stdUs(k), s.sysUs(k), md5)
  }

  /** What the channel hands over: packet `k`, once or several times, late or early, or something
      whose checksum does not match. What is never handed over is lost. */
  datatype Delivery = Sent(k: nat, sysNow: int, stdNow: int) | Damaged(bytes: Bytes, sysNow: int, stdNow: int) | Query

  ghost predicate ChannelValid(ds: seq<Delivery>, md5: Bytes -> Digest) {
    && (forall d :: d in ds && d.Sent? ==> d.k < TWO31)
    && (forall d :: d in ds && d.Damaged? ==> |d.bytes| >= HEADER_LEN && !DigestMatches(d.bytes, md5))
  }

  function EventOf(s: Sender, d: Delivery, md5: Bytes -> Digest): Event
    requires HEADER_LEN <= s.len < TWO64
  {
    match d
    case Sent(k, sysNow, stdNow) => Packet(PacketOf(s, k, md5), sysNow, stdNow)
    case Damaged(bytes, sysNow, stdNow) => Packet(bytes, sysNow, stdNow)
    case Query => Reported
  }

  function EventsOf(s: Sender, ds: seq<Delivery>, md5: Bytes -> Digest): (r: seq<Event>)
    requires HEADER_LEN <= s.len < TWO64
    ensures |r| == |ds| && forall i :: 0 <= i < |r| ==> r[i] == EventOf(s, ds[i], md5)
  {
    seq(|ds|, i requires 0 <= i < |ds| => EventOf(s, ds[i], md5))
  }

  /** The numbers of the packets that arrived intact, and how many arrived damaged. */
  function Arrivals(ds: seq<Delivery>): seq<nat> {
    if ds == [] then []
    else
      var n := |ds| - 1;
      Arrivals(ds[..n]) + if ds[n].Sent? then [ds[n].k] else []
  }

  function DamagedCount(ds: seq<Delivery>): nat {
    if ds == [] then 0
    else
      var n := |ds| - 1;
      DamagedCount(ds[..n]) + if ds[n].Damaged? then 1 else 0
  }

  /** The damaged packets whose length field is not their length. */
  function DamagedLengths(ds: seq<Delivery>): nat
    requires forall d :: d in ds && d.Damaged? ==> |d.bytes| >= HEADER_LEN
  {
    if ds == [] then 0
    else
      var n := |ds| - 1;
      assert ds[n] in ds;
      DamagedLengths(ds[..n]) + if ds[n].Damaged? && ReadPacketLength(ds[n].bytes) != |ds[n].bytes| then 1 else 0
  }

  lemma EventsLongEnough(s: Sender, ds: seq<Delivery>, md5: Bytes -> Digest)
    requires SenderValid(s) && ChannelValid(ds, md5)
    ensures LongEnough(EventsOf(s, ds, md5))
  {
    hide ValidatePacketChecksum, DigestMatches, Generated;
    var events := EventsOf(s, ds, md5);
    forall e | e in events && e.Packet? ensures |e.payload| >= HEADER_LEN {
      var i :| 0 <= i < |events| && events[i] == e;
      assert ds[i] in ds;
    }
  }

  /** The validator sees through the payloads to the packet numbers. */
  lemma {:induction false} SeqnosArrive(s: Sender, ds: seq<Delivery>, md5: Bytes -> Digest)
    requires SenderValid(s) && ChannelValid(ds, md5)
    requires LongEnough(EventsOf(s, ds, md5))
    ensures Seqnos(EventsOf(s, ds, md5), md5) == Arrivals(ds)
    ensures Corrupted(EventsOf(s, ds, md5), md5) == DamagedCount(ds)
    ensures WrongLengths(EventsOf(s, ds, md5)) == DamagedLengths(ds)
    decreases |ds|
  {
    hide ValidatePacketChecksum, DigestMatches, Generated, ReadPacketSeqno, ReadPacketLength;
    if ds != [] {
      var n := |ds| - 1;
      var events, before := EventsOf(s, ds, md5), EventsOf(s, ds[..n], md5);
      assert events[..n] == before;
      assert ds[n] in ds && events[n] in events;
      ChannelPrefix(ds, md5);
      EventsLongEnough(s, ds[..n], md5);
      SeqnosArrive(s, ds[..n], md5);
      if ds[n].Sent? {
        var k := ds[n].k;
        GeneratedDecodes(k, s.len, s.stdUs(k), s.sysUs(k), md5);
        SeqnoDecodes(k);
      }
    }
  }

  lemma ChannelPrefix(ds: seq<Delivery>, md5: Bytes -> Digest)
    requires ds != [] && ChannelValid(ds, md5)
    ensures ChannelValid(ds[..|ds| - 1], md5)
  {
    hide ValidatePacketChecksum, DigestMatches;
    assert forall d :: d in ds[..|ds| - 1] ==> d in ds;
  }

  /** End to end: over a channel that loses, repeats, reorders and damages packets of one generator, as
      long as it stays below 2^31 packets, the validator's counters are the history of the packet
      numbers that came through, every damaged packet is counted as such, and only damaged packets
      are counted as of wrong length. */
  lemma EndToEnd(s: Sender, ds: seq<Delivery>, md5: Bytes -> Digest)
    requires SenderValid(s) && ChannelValid(ds, md5)
    ensures LongEnough(EventsOf(s, ds, md5))
    ensures var st, arrivals := Online(EventsOf(s, ds, md5), md5), Arrivals(ds);
      && st.integrity.pktsWrongChecksum == DamagedCount(ds)
      && st.integrity.pktsWrongLen == DamagedLengths(ds)
      && st.reorder.pktsProcessed == |arrivals| + DamagedCount(ds)
      && Reorder.Describes(st.reorder.(pktsProcessed := |arrivals|), arrivals)
      && st.reorder.pktsLost + |Reorder.DuplicateSet(arrivals)|
         == st.reorder.pktsReordered + |Reorder.Missing(arrivals, st.reorder.expectedSeqno)|
  {
    hide Online, Seqnos, Corrupted, WrongLengths, Reorder.Describes, Reorder.Online;
    EventsLongEnough(s, ds, md5);
    SeqnosArrive(s, ds, md5);
    ReorderOfRun(EventsOf(s, ds, md5), md5);
    LengthsOfRun(EventsOf(s, ds, md5), md5);
    var arrivals := Arrivals(ds);
    Reorder.OnlineIsHistory(arrivals);
    Reorder.AllProcessed(arrivals);
    Reorder.Accounting(arrivals);
  }

  /** What the channel makes of one delivery's delays: arrival minus what the sender wrote. */
  function StdDelay(s: Sender, d: Delivery): seq<int> {
    if d.Sent? then [d.stdNow - 1000 * s.stdUs(d.k)] else []
  }

  function LatencyEvent(s: Sender, d: Delivery): seq<Latency.Event> {
    if d.Query? then [Latency.PeriodEnd]
    else if d.Sent? then [Latency.Delay(TruncDiv(d.sysNow - 1000 * s.sysUs(d.k), 1000))]
    else []
  }

  function SenderDelays(s: Sender, ds: seq<Delivery>): seq<int> {
    if ds == [] then [] else SenderDelays(s, ds[..|ds| - 1]) + StdDelay(s, ds[|ds| - 1])
  }

  /** Those behind the last report. */
  function SenderPeriod(s: Sender, ds: seq<Delivery>): seq<int> {
    if ds == [] || ds[|ds| - 1].Query? then [] else SenderPeriod(s, ds[..|ds| - 1]) + StdDelay(s, ds[|ds| - 1])
  }

  function SenderLatency(s: Sender, ds: seq<Delivery>): seq<Latency.Event> {
    if ds == [] then [] else SenderLatency(s, ds[..|ds| - 1]) + LatencyEvent(s, ds[|ds| - 1])
  }

  /** What one delivery shows the validator. */
  lemma DeliveryRead(s: Sender, d: Delivery, md5: Bytes -> Digest)
    requires SenderValid(s) && ChannelValid([d], md5)
    ensures var e := EventOf(s, d, md5);
      && (e.Packet? <==> !d.Query?)
      && (e.Packet? ==> |e.payload| >= HEADER_LEN)
      && (IsIntact(e, md5) <==> d.Sent?)
      && (d.Sent? ==>
            && StdDelay(s, d) == [e.stdNow - ReadStdclockTimestamp(e.payload)]
            && LatencyEvent(s, d) == [Latency.Delay(TruncDiv(e.sysNow - ReadSysclockTimestamp(e.payload), 1000))])
  {
    hide ValidatePacketChecksum, DigestMatches, Generated, ReadStdclockTimestamp, ReadSysclockTimestamp, TruncDiv;
    assert d in [d];
    if d.Sent? {
      GeneratedDecodes(d.k, s.len, s.stdUs(d.k), s.sysUs(d.k), md5);
    }
  }

  /** The delays behind the timing metrics are arrival minus what the sender wrote: all of them for
      jitter, those of the period for the delay factor, and with the period ends for latency. */
  lemma {:induction false} DelaysArrive(s: Sender, ds: seq<Delivery>, md5: Bytes -> Digest)
    requires SenderValid(s) && ChannelValid(ds, md5)
    requires LongEnough(EventsOf(s, ds, md5))
    ensures StdDelays(EventsOf(s, ds, md5), md5) == SenderDelays(s, ds)
    ensures PeriodDelays(EventsOf(s, ds, md5), md5) == SenderPeriod(s, ds)
    ensures LatencyEvents(EventsOf(s, ds, md5), md5) == SenderLatency(s, ds)
    decreases |ds|
  {
    hide ValidatePacketChecksum, DigestMatches, EventOf, StdDelays, PeriodDelays, LatencyEvents, SenderDelays, SenderPeriod, SenderLatency, ChannelValid;
    if ds == [] {
      NoDelays(s, md5);
    } else {
      var n := |ds| - 1;
      var events, before := EventsOf(s, ds, md5), EventsOf(s, ds[..n], md5);
      assert events[..n] == before;
      ChannelPrefix(ds, md5);
      EventsLongEnough(s, ds[..n], md5);
      DelaysArrive(s, ds[..n], md5);
      StdDelaysStep(s, ds, md5, events);
      PeriodDelaysStep(s, ds, md5, events);
      LatencyEventsStep(s, ds, md5, events);
    }
  }

  /** End to end for the timing metrics: over the same channels, latency, jitter and delay factor are the
      histories of arrival minus what the sender wrote. */
  lemma TimingEndToEnd(s: Sender, ds: seq<Delivery>, md5: Bytes -> Digest)
    requires SenderValid(s) && ChannelValid(ds, md5)
    ensures LongEnough(EventsOf(s, ds, md5))
    ensures var st := Online(EventsOf(s, ds, md5), md5);
      && st.jitter == Jitter.Online(SenderDelays(s, ds))
      && st.delayFactor == DelayFactor.Online(SenderPeriod(s, ds))
      && st.latency == Latency.Online(SenderLatency(s, ds))
  {
    hide Online, StdDelays, PeriodDelays, LatencyEvents, SenderDelays, SenderPeriod, SenderLatency;
    var events := EventsOf(s, ds, md5);
    EventsLongEnough(s, ds, md5);
    DelaysArrive(s, ds, md5);
    JitterOfRun(events, md5);
    DelayFactorOfRun(events, md5);
    LatencyOfRun(events, md5);
  }

  lemma NoDelays(s: Sender, md5: Bytes -> Digest)
    ensures StdDelays([], md5) == SenderDelays(s, []) && PeriodDelays([], md5) == SenderPeriod(s, [])
    ensures LatencyEvents([], md5) == SenderLatency(s, [])
  {
  }

  /** The events of a channel, up to the last one. */
  ghost predicate UpToLast(s: Sender, ds: seq<Delivery>, md5: Bytes -> Digest, events: seq<Event>) {
    && SenderValid(s) && ChannelValid(ds, md5) && LongEnough(events)
    && |ds| == |events| > 0 && events[|ds| - 1] == EventOf(s, ds[|ds| - 1], md5)
  }

  lemma LastRead(s: Sender, ds: seq<Delivery>, md5: Bytes -> Digest, events: seq<Event>)
    requires UpToLast(s, ds, md5, events)
    ensures ChannelValid([ds[|ds| - 1]], md5) && events[|ds| - 1] in events && LongEnough(events[..|ds| - 1])
  {
    hide ValidatePacketChecksum, DigestMatches, EventOf;
    assert ds[|ds| - 1] in ds;
    assert forall e :: e in events[..|ds| - 1] ==> e in events;
  }

  lemma StdDelaysStep(s: Sender, ds: seq<Delivery>, md5: Bytes -> Digest, events: seq<Event>)
    requires UpToLast(s, ds, md5, events)
    requires LongEnough(events[..|ds| - 1]) && StdDelays(events[..|ds| - 1], md5) == SenderDelays(s, ds[..|ds| - 1])
    ensures StdDelays(events, md5) == SenderDelays(s, ds)
  {
    hide EventOf, LatencyEvent, TruncDiv, ReadStdclockTimestamp, ReadSysclockTimestamp, IsIntact, ChannelValid, SenderValid;
    LastRead(s, ds, md5, events);
    DeliveryRead(s, ds[|ds| - 1], md5);
  }

  lemma PeriodDelaysStep(s: Sender, ds: seq<Delivery>, md5: Bytes -> Digest, events: seq<Event>)
    requires UpToLast(s, ds, md5, events)
    requires LongEnough(events[..|ds| - 1]) && PeriodDelays(events[..|ds| - 1], md5) == SenderPeriod(s, ds[..|ds| - 1])
    ensures PeriodDelays(events, md5) == SenderPeriod(s, ds)
  {
    hide EventOf, LatencyEvent, TruncDiv, ReadStdclockTimestamp, ReadSysclockTimestamp, IsIntact, ChannelValid, SenderValid;
    LastRead(s, ds, md5, events);
    DeliveryRead(s, ds[|ds| - 1], md5);
  }

  lemma LatencyEventsStep(s: Sender, ds: seq<Delivery>, md5: Bytes -> Digest, events: seq<Event>)
    requires UpToLast(s, ds, md5, events)
    requires LongEnough(events[..|ds| - 1]) && LatencyEvents(events[..|ds| - 1], md5) == SenderLatency(s, ds[..|ds| - 1])
    ensures LatencyEvents(events, md5) == SenderLatency(s, ds)
  {
    hide EventOf, TruncDiv, ReadStdclockTimestamp, ReadSysclockTimestamp, IsIntact, ChannelValid, SenderValid;
    LastRead(s, ds, md5, events);
    DeliveryRead(s, ds[|ds| - 1], md5);
  }

  /** A generated packet whose digest bytes alone have been damaged is counted as such, and nothing but
      the packet counters changes. */
  lemma DamageCounted(s: Sender, k: nat, md5: Bytes -> Digest, q: Bytes, st: MetricsState, sysNow: int, stdNow: int)
    requires HEADER_LEN <= s.len < TWO64 && |q| == s.len
    requires var p := PacketOf(s, k, md5); q != p && q[..40] == p[..40] && q[56..] == p[56..]
    ensures Validate(st, q, sysNow, stdNow, md5)
         == st.(integrity := IntegrityStats(st.integrity.pktsWrongLen, st.integrity.pktsWrongChecksum + 1),
                reorder := st.reorder.(pktsProcessed := st.reorder.pktsProcessed + 1))
  {
    hide Generated, ReadPacketLength, DigestMatches, ValidatePacketChecksum;
    DigestDamage(k, s.len, s.stdUs(k), s.sysUs(k), md5, q);
    SameLength(s, k, md5, q);
  }

  lemma SameLength(s: Sender, k: nat, md5: Bytes -> Digest, q: Bytes)
    requires HEADER_LEN <= s.len < TWO64 && |q| == s.len && q[..40] == PacketOf(s, k, md5)[..40]
    ensures ReadPacketLength(q) == |q|
  {
    hide Generated, ToLE, FromLE;
    var p := PacketOf(s, k, md5);
    WireLayout(k, s.len, s.stdUs(k), s.sysUs(k), md5);
    assert q[32..40] == q[..40][32..40] == p[..40][32..40] == p[32..40];
    EightBytes();
    LERoundTrip(s.len, 8);
  }
}
