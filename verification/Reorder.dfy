/** Loss and reordering counters, kept online in constant space, against the set of what arrived.
    The classification is the NextExp rule of section 3.3 of RFC 4737; the distance is how far an
    arrival falls short of NextExp. */
module Reorder {
  import opened Prelude

  type UInt64 = n: nat | n < 0x1_0000_0000_0000_0000

  const UINT64_MAX: UInt64 := 0xFFFF_FFFF_FFFF_FFFF

  datatype Stats = Stats(expectedSeqno: nat, pktsProcessed: nat, pktsLost: nat, pktsReordered: nat, reorderDist: nat)

  const NO_PACKETS := Stats(0, 0, 0, 0, 0)

  function Submit(st: Stats, seqno: nat): Stats {
    var counted := st.(pktsProcessed := st.pktsProcessed + 1);
    if seqno == st.expectedSeqno then counted.(expectedSeqno := seqno + 1)
    else if seqno > st.expectedSeqno then
      counted.(pktsLost := st.pktsLost + (seqno - st.expectedSeqno), expectedSeqno := seqno + 1)
    else counted.(pktsReordered := st.pktsReordered + 1,
                  reorderDist := Max(st.reorderDist, st.expectedSeqno - seqno))
  }

  /** The counters after a history of arrivals. */
  function Online(arrivals: seq<nat>): Stats {
    if arrivals == [] then NO_PACKETS
    else Submit(Online(arrivals[..|arrivals| - 1]), arrivals[|arrivals| - 1])
  }

  lemma OnlineStep(arrivals: seq<nat>, seqno: nat)
    ensures Online(arrivals + [seqno]) == Submit(Online(arrivals), seqno)
  {
    assert (arrivals + [seqno])[..|arrivals|] == arrivals;
  }

  // ---------- the same from the history alone

  /** NextExp after a history: one more than the largest arrival, 0 when there is none. */
  ghost predicate IsNextExp(arrivals: seq<nat>, n: nat) {
    && (forall s :: s in arrivals ==> s < n)
    && (n > 0 ==> n - 1 in arrivals)
  }

  /** The arrivals that come when a larger or the same number has been seen. */
  ghost predicate IsReordered(arrivals: seq<nat>, i: nat)
    requires i < |arrivals|
  {
    exists j :: 0 <= j < i && arrivals[i] <= arrivals[j]
  }

  ghost function ReorderedSet(arrivals: seq<nat>): set<nat> {
    set i: nat | i < |arrivals| && IsReordered(arrivals, i)
  }

  /** A repetition of an earlier arrival. */
  predicate IsDuplicate(arrivals: seq<nat>, i: nat)
    requires i < |arrivals|
  {
    arrivals[i] in arrivals[..i]
  }

  /** A first arrival of a number that a larger one has overtaken. */
  ghost predicate IsLate(arrivals: seq<nat>, i: nat)
    requires i < |arrivals|
  {
    IsReordered(arrivals, i) && !IsDuplicate(arrivals, i)
  }

  ghost function DuplicateSet(arrivals: seq<nat>): set<nat> {
    set i: nat | i < |arrivals| && IsDuplicate(arrivals, i)
  }

  ghost function LateSet(arrivals: seq<nat>): set<nat> {
    set i: nat | i < |arrivals| && IsLate(arrivals, i)
  }

  /** The numbers below `n` that never arrived. */
  function Missing(arrivals: seq<nat>, n: nat): set<nat> {
    set s: nat | s < n && s !in arrivals
  }

  /** How far arrival `i` falls short of the number after the earlier arrival `j`. */
  function Shortfall(arrivals: seq<nat>, i: nat, j: nat): nat
    requires j < i < |arrivals|
  {
    if arrivals[i] <= arrivals[j] then arrivals[j] + 1 - arrivals[i] else 0
  }

  /** `d` is the largest distance by which an arrival falls short of NextExp, or 0. */
  ghost predicate IsMaxDist(arrivals: seq<nat>, d: nat) {
    && (forall i: nat, j: nat :: j < i < |arrivals| ==> Shortfall(arrivals, i, j) <= d)
    && (d > 0 ==> exists i: nat, j: nat :: j < i < |arrivals| && Shortfall(arrivals, i, j) == d)
  }

  /** Everything the counters mean, stated on the history: with the numbers missing below NextExp and
      the late first arrivals, lost numbers are counted once for good or until they turn up late. */
  ghost predicate Describes(st: Stats, arrivals: seq<nat>) {
    && IsNextExp(arrivals, st.expectedSeqno)
    && st.pktsProcessed == |arrivals|
    && st.pktsReordered == |ReorderedSet(arrivals)|
    && st.pktsLost == |Missing(arrivals, st.expectedSeqno)| + |LateSet(arrivals)|
    && IsMaxDist(arrivals, st.reorderDist)
  }

  lemma SetsStep(arrivals: seq<nat>, seqno: nat)
    ensures var all, k := arrivals + [seqno], |arrivals|;
      && ReorderedSet(all) == ReorderedSet(arrivals) + (if IsReordered(all, k) then {k} else {})
      && LateSet(all) == LateSet(arrivals) + (if IsLate(all, k) then {k} else {})
      && DuplicateSet(all) == DuplicateSet(arrivals) + (if IsDuplicate(all, k) then {k} else {})
  {
    var all := arrivals + [seqno];
    forall i: nat | i < |arrivals|
      ensures IsReordered(all, i) == IsReordered(arrivals, i) && IsDuplicate(all, i) == IsDuplicate(arrivals, i)
    {
      assert all[..i] == arrivals[..i];
    }
  }

  predicate AtLeast(s: nat, lo: nat) { lo <= s }

  function Numbers(lo: nat, hi: nat): set<nat> {
    set s: nat | s < hi && AtLeast(s, lo)
  }

  lemma {:induction false} NumbersSize(lo: nat, hi: nat)
    requires lo <= hi
    ensures |Numbers(lo, hi)| == hi - lo
    decreases hi - lo
  {
    if lo < hi {
      NumbersSize(lo, hi - 1);
      assert Numbers(lo, hi) == Numbers(lo, hi - 1) + {hi - 1};
    } else {
      assert Numbers(lo, hi) == {};
    }
  }

  /** What the arrival does to the set of missing numbers. */
  lemma MissingStep(arrivals: seq<nat>, e: nat, seqno: nat)
    requires IsNextExp(arrivals, e)
    ensures var all := arrivals + [seqno];
      |Missing(all, Max(e, seqno + 1))|
      == if seqno >= e then |Missing(arrivals, e)| + (seqno - e)
         else if seqno in arrivals then |Missing(arrivals, e)|
         else |Missing(arrivals, e)| - 1
  {
    var all := arrivals + [seqno];
    assert forall s: nat :: s in all <==> s in arrivals || s == seqno;
    if seqno >= e {
      var gap := Numbers(e, seqno);
      NumbersSize(e, seqno);
      assert Missing(all, seqno + 1) == Missing(arrivals, e) + gap;
      assert Missing(arrivals, e) !! gap;
    } else if seqno in arrivals {
      assert Missing(all, e) == Missing(arrivals, e);
    } else {
      assert Missing(all, e) == Missing(arrivals, e) - {seqno};
      assert seqno in Missing(arrivals, e);
    }
  }

  /** Whether the arrival is reordered, a repetition or late shows in NextExp and the earlier arrivals. */
  lemma ArrivalKind(arrivals: seq<nat>, e: nat, seqno: nat)
    requires IsNextExp(arrivals, e)
    ensures var all, k := arrivals + [seqno], |arrivals|;
      && (IsReordered(all, k) <==> seqno < e)
      && (IsDuplicate(all, k) <==> seqno in arrivals)
      && (IsLate(all, k) <==> seqno < e && seqno !in arrivals)
  {
    var all, k := arrivals + [seqno], |arrivals|;
    assert all[..k] == arrivals;
    if seqno < e {
      var j :| 0 <= j < |arrivals| && arrivals[j] == e - 1;
      assert all[j] == e - 1;
    }
    if IsReordered(all, k) {
      var j :| 0 <= j < k && all[k] <= all[j];
      assert all[j] == arrivals[j] && arrivals[j] in arrivals;
    }
  }

  lemma DistStep(arrivals: seq<nat>, e: nat, seqno: nat, d: nat)
    requires IsNextExp(arrivals, e) && IsMaxDist(arrivals, d)
    ensures IsMaxDist(arrivals + [seqno], if seqno < e then Max(d, e - seqno) else d)
  {
    hide IsNextExp;
    var all, k := arrivals + [seqno], |arrivals|;
    forall i: nat, j: nat | j < i < k ensures Shortfall(all, i, j) == Shortfall(arrivals, i, j) {
    }
    LastShortfall(arrivals, e, seqno);
  }

  /** The new arrival's largest shortfall is its distance from NextExp. */
  lemma LastShortfall(arrivals: seq<nat>, e: nat, seqno: nat)
    requires IsNextExp(arrivals, e)
    ensures var all, k := arrivals + [seqno], |arrivals|;
      && (forall j: nat :: j < k ==> Shortfall(all, k, j) <= if seqno < e then e - seqno else 0)
      && (seqno < e ==> exists j: nat :: j < k && Shortfall(all, k, j) == e - seqno)
  {
    var all, k := arrivals + [seqno], |arrivals|;
    forall j: nat | j < k ensures Shortfall(all, k, j) <= if seqno < e then e - seqno else 0 {
      assert arrivals[j] in arrivals;
    }
    if seqno < e {
      var j: nat :| j < k && arrivals[j] == e - 1;
      assert Shortfall(all, k, j) == e - seqno;
    }
  }

  lemma NextExpStep(arrivals: seq<nat>, e: nat, seqno: nat)
    requires IsNextExp(arrivals, e)
    ensures IsNextExp(arrivals + [seqno], Max(e, seqno + 1))
  {
    var all := arrivals + [seqno];
    assert all[|arrivals|] == seqno;
    assert forall s: nat :: s in all <==> s in arrivals || s == seqno;
  }

  lemma DescribesStep(st: Stats, arrivals: seq<nat>, seqno: nat)
    requires Describes(st, arrivals)
    ensures Describes(Submit(st, seqno), arrivals + [seqno])
  {
    hide IsNextExp, IsReordered, IsDuplicate, IsLate, ReorderedSet, LateSet, Missing, IsMaxDist;
    var e, k := st.expectedSeqno, |arrivals|;
    NextExpStep(arrivals, e, seqno);
    MissingStep(arrivals, e, seqno);
    ArrivalKind(arrivals, e, seqno);
    SetsStep(arrivals, seqno);
    DistStep(arrivals, e, seqno, st.reorderDist);
    NewIndex(arrivals);
  }

  lemma NewIndex(arrivals: seq<nat>)
    ensures |arrivals| !in ReorderedSet(arrivals) && |arrivals| !in LateSet(arrivals) && |arrivals| !in DuplicateSet(arrivals)
  {
  }

  /** The online counters are exactly what the history says, after every sequence of arrivals: any
      loss, repetition or order. */
  lemma {:induction false} OnlineIsHistory(arrivals: seq<nat>)
    ensures Describes(Online(arrivals), arrivals)
    decreases |arrivals|
  {
    if arrivals == [] {
      assert ReorderedSet([]) == {} && LateSet([]) == {} && Missing([], 0) == {};
    } else {
      var k := |arrivals| - 1;
      OnlineIsHistory(arrivals[..k]);
      DescribesStep(Online(arrivals[..k]), arrivals[..k], arrivals[k]);
      assert arrivals == arrivals[..k] + [arrivals[k]];
    }
  }

  /** Reordered arrivals are the repetitions and the late first arrivals. */
  lemma ReorderedSplit(arrivals: seq<nat>)
    ensures |ReorderedSet(arrivals)| == |DuplicateSet(arrivals)| + |LateSet(arrivals)|
  {
    forall i: nat | i < |arrivals| && IsDuplicate(arrivals, i) ensures IsReordered(arrivals, i) {
      var j :| 0 <= j < i && arrivals[..i][j] == arrivals[i];
    }
    assert ReorderedSet(arrivals) == DuplicateSet(arrivals) + LateSet(arrivals);
    assert DuplicateSet(arrivals) !! LateSet(arrivals);
  }

  /** Accounting: lost and repeated packets together are as many as reordered packets and numbers
      that never came; in particular the loss counter is never below the true loss. */
  lemma Accounting(arrivals: seq<nat>)
    ensures var st := Online(arrivals);
      && st.pktsLost + |DuplicateSet(arrivals)| == st.pktsReordered + |Missing(arrivals, st.expectedSeqno)|
      && st.pktsLost >= |Missing(arrivals, st.expectedSeqno)|
  {
    OnlineIsHistory(arrivals);
    ReorderedSplit(arrivals);
  }

  /** Conservation, without reference to sets. */
  lemma {:induction false} Conservation(arrivals: seq<nat>)
    ensures var st := Online(arrivals); st.expectedSeqno + st.pktsReordered == st.pktsProcessed + st.pktsLost
    decreases |arrivals|
  {
    if arrivals != [] {
      Conservation(arrivals[..|arrivals| - 1]);
    }
  }

  /** The loss counter tells the true loss exactly when every reordered packet was a repetition. */
  lemma LossIsExact(arrivals: seq<nat>)
    ensures var st := Online(arrivals);
      st.pktsLost == |Missing(arrivals, st.expectedSeqno)|
      <==> forall i :: 0 <= i < |arrivals| && IsReordered(arrivals, i) ==> IsDuplicate(arrivals, i)
  {
    OnlineIsHistory(arrivals);
    if |LateSet(arrivals)| == 0 {
      forall i | 0 <= i < |arrivals| && IsReordered(arrivals, i) ensures IsDuplicate(arrivals, i) {
        assert i !in LateSet(arrivals);
      }
    } else {
      var i :| i in LateSet(arrivals);
    }
  }

  /** A packet of 0 .. n-1 each, in any order: nothing is missing, and what was counted as lost was
      counted as reordered when it came. */
  lemma LosslessRun(arrivals: seq<nat>)
    requires forall s: nat :: s in arrivals <==> s < |arrivals|
    ensures var st := Online(arrivals);
      st.pktsLost == st.pktsReordered && st.expectedSeqno == |arrivals| && Missing(arrivals, st.expectedSeqno) == {}
  {
    OnlineIsHistory(arrivals);
    Conservation(arrivals);
    var e := Online(arrivals).expectedSeqno;
    if |arrivals| > 0 {
      assert |arrivals| - 1 in arrivals;
    }
  }

  /** The counters stay at zero exactly for the undisturbed run 0, 1, ..., n-1. */
  lemma {:induction false} Undisturbed(arrivals: seq<nat>)
    ensures Online(arrivals).pktsLost == 0 && Online(arrivals).pktsReordered == 0
       <==> forall i :: 0 <= i < |arrivals| ==> arrivals[i] == i
    decreases |arrivals|
  {
    if arrivals != [] {
      var k := |arrivals| - 1;
      var before := arrivals[..k];
      Undisturbed(before);
      Conservation(before);
      AllProcessed(before);
      assert forall i :: 0 <= i < k ==> arrivals[i] == before[i];
    }
  }

  lemma AllProcessed(arrivals: seq<nat>)
    ensures Online(arrivals).pktsProcessed == |arrivals|
  {
    OnlineIsHistory(arrivals);
  }

  /** All counters stay within 64 bits as long as the sequence numbers and the packet count do. */
  predicate InRange(st: Stats) {
    && st.expectedSeqno <= UINT64_MAX && st.pktsProcessed <= UINT64_MAX
    && st.pktsLost <= st.expectedSeqno && st.pktsReordered <= st.pktsProcessed && st.reorderDist <= st.expectedSeqno
  }

  class ReorderMetric {
    var expectedSeqno: UInt64
    var pktsProcessed: UInt64
    var pktsLost: UInt64
    var pktsReordered: UInt64
    var reorderDist: UInt64

    function View(): Stats
      reads this
    {
      Stats(expectedSeqno, pktsProcessed, pktsLost, pktsReordered, reorderDist)
    }

    constructor ()
      ensures View() == NO_PACKETS && InRange(View())
    {
      expectedSeqno, pktsProcessed, pktsLost, pktsReordered, reorderDist := 0, 0, 0, 0, 0;
    }

    method SubmitSample(seqno: UInt64)
      requires InRange(View()) && seqno < UINT64_MAX && pktsProcessed < UINT64_MAX
      modifies this
      ensures InRange(View()) && View() == Submit(old(View()), seqno)
    {
      pktsProcessed := pktsProcessed + 1;
      if seqno == expectedSeqno {
        expectedSeqno := expectedSeqno + 1;
        return;
      }
      if seqno > expectedSeqno {
        var lost := seqno - expectedSeqno;
        pktsLost := pktsLost + lost;
        expectedSeqno := seqno + 1;
      } else {
        pktsReordered := pktsReordered + 1;
        var dist := expectedSeqno - seqno;
        reorderDist := Max(reorderDist, dist);
      }
    }

    method IncPktsReceived()
      requires InRange(View()) && pktsProcessed < UINT64_MAX
      modifies this
      ensures InRange(View()) && View() == old(View()).(pktsProcessed := old(pktsProcessed) + 1)
    {
      pktsProcessed := pktsProcessed + 1;
    }
  }
}
