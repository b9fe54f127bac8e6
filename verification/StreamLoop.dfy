/** When the stream loop of the connection manager goes on connecting, and when it stops. */
module StreamLoop {
  import opened Connections

  predicate Draining(s: Manager) {
    s.at.Drain? || s.at.InDrainWait? || s.at.Done?
  }

  /** Why no further connection is needed: the maximum is reached, or there is no reconnection and the
      streams have been started. */
  predicate Enough(c: Config, s: Manager) {
    || (c.maxConns > 0 && s.connsCnt == c.maxConns)
    || (!c.reconnect && s.connsCnt >= c.concurrentStreams)
  }

  // ---------- why it stops

  ghost predicate Justified(c: Config, s: Manager) {
    && |s.table.ids| <= s.connsCnt
    && (s.at.CheckReconnect? ==> s.connsCnt >= c.concurrentStreams)
    && (Draining(s) ==> s.breakRaised || Enough(c, s))
  }

  lemma StepJustified(c: Config, s: Manager, step: Step)
    requires c.concurrentStreams > 0 && Inv(c, s) && Enabled(s, step) && Justified(c, s) && step != ConnectFails
    ensures Justified(c, Do(c, s, step))
  {
    if step == Main {
      MainJustified(c, s);
    }
  }

  lemma MainJustified(c: Config, s: Manager)
    requires Inv(c, s) && Enabled(s, Main) && Justified(c, s)
    ensures Justified(c, MainStep(c, s))
  {
    hide Inv, Justified, MainStep;
    if AtWait(s) {
      WakeJustified(c, s);
    } else if s.at.CheckMax? {
      MaxJustified(c, s);
    } else {
      OtherJustified(c, s);
    }
  }

  lemma WakeJustified(c: Config, s: Manager)
    requires AtWait(s) && Justified(c, s)
    ensures Justified(c, MainStep(c, s))
  {
    Fewer(s.table.ids, s.table.toClose);
  }

  lemma MaxJustified(c: Config, s: Manager)
    requires s.at.CheckMax? && Inv(c, s) && Justified(c, s)
    ensures Justified(c, MainStep(c, s))
  {
    hide Consistent;
  }

  lemma OtherJustified(c: Config, s: Manager)
    requires Justified(c, s) && Enabled(s, Main) && !AtWait(s) && !s.at.CheckMax?
    ensures Justified(c, MainStep(c, s))
  {
    hide Size;
    SizeAtMost(s.table);
    if s.at.Emplace? {
      OneMore(s.table.ids, s.at.id);
    }
  }

  lemma OneMore(ids: set<Id>, id: Id)
    ensures |ids + {id}| <= |ids| + 1
  {
    if id in ids {
      assert ids + {id} == ids;
    }
  }

  lemma Fewer(ids: set<Id>, marked: set<Id>)
    ensures |ids - marked| <= |ids|
  {
    assert ids == (ids - marked) + (ids * marked);
  }

  lemma SizeAtMost(t: Pipes)
    ensures Size(t) <= |t.ids|
  {
  }

  lemma {:induction false} RunJustified(c: Config, s: Manager, steps: seq<Step>)
    requires c.concurrentStreams > 0 && Inv(c, s) && Justified(c, s) && CanRun(c, s, steps) && ConnectFails !in steps
    ensures Justified(c, Run(c, s, steps))
    ensures RaiseBreak !in steps ==> Run(c, s, steps).breakRaised == s.breakRaised
    decreases |steps|
  {
    hide Inv, Justified, Enabled;
    if steps != [] {
      assert steps == [steps[0]] + steps[1..];
      StepKeeps(c, s, steps[0]);
      StepJustified(c, s, steps[0]);
      RunJustified(c, Do(c, s, steps[0]), steps[1..]);
    }
  }

  /** Why a run has left the loop, exactly these reasons: a connection failed, the break flag was raised,
      the maximum is reached, or there is no reconnection and at least the configured streams have
      been started. */
  lemma StopReason(c: Config, steps: seq<Step>)
    requires c.concurrentStreams > 0 && CanRun(c, INITIAL, steps) && Draining(Run(c, INITIAL, steps))
    ensures ConnectFails in steps || RaiseBreak in steps || Enough(c, Run(c, INITIAL, steps))
  {
    hide CanRun, Run;
    if ConnectFails !in steps {
      RunJustified(c, INITIAL, steps);
    }
  }

  /** Outside the loop, or on the way out of it, nothing is connected any more. */
  predicate Over(c: Config, s: Manager) {
    || Draining(s)
    || (s.at.CheckMax? && c.maxConns > 0 && s.connsCnt >= c.maxConns)
    || (s.at.CheckReconnect? && (!c.reconnect || s.breakRaised))
  }

  lemma {:induction false} NoMoreConnections(c: Config, s: Manager, steps: seq<Step>)
    requires Over(c, s) && CanRun(c, s, steps)
    ensures Over(c, Run(c, s, steps)) && Run(c, s, steps).started == s.started
    decreases |steps|
  {
    hide Size, Exited;
    if steps != [] {
      NoMoreConnections(c, Do(c, s, steps[0]), steps[1..]);
    }
  }

  /** A connection that fails is the last attempt. */
  lemma FailureEnds(c: Config, s: Manager, steps: seq<Step>)
    requires CanRun(c, s, [ConnectFails] + steps)
    ensures Run(c, s, [ConnectFails] + steps).started == s.started
  {
    assert ([ConnectFails] + steps)[1..] == steps;
    NoMoreConnections(c, Do(c, s, ConnectFails), steps);
  }

  /** After a break at most the connection that is about to be established is made. */
  lemma {:induction false} BreakEnds(c: Config, s: Manager, steps: seq<Step>)
    requires s.breakRaised && CanRun(c, s, steps)
    ensures Run(c, s, steps).breakRaised && Run(c, s, steps).started <= s.started + (if s.at.Connect? then 1 else 0)
    decreases |steps|
  {
    hide Size, Exited;
    if steps != [] {
      BreakEnds(c, Do(c, s, steps[0]), steps[1..]);
    }
  }

  // ---------- that it goes on

  function Mains(k: nat): (r: seq<Step>)
    ensures |r| == k
    decreases k
  {
    if k == 0 then [] else [Main] + Mains(k - 1)
  }

  lemma MoreMain(c: Config, s: Manager, k: nat)
    requires Enabled(s, Main) && CanRun(c, MainStep(c, s), Mains(k))
    ensures CanRun(c, s, Mains(k + 1)) && Run(c, s, Mains(k + 1)) == Run(c, MainStep(c, s), Mains(k))
  {
    hide Enabled, MainStep;
    assert Mains(k + 1)[1..] == Mains(k);
  }

  /** After a break the main thread needs at most four steps of its own to the final loop. */
  lemma {:induction false} BreakDrains(c: Config, s: Manager) returns (k: nat)
    requires s.breakRaised && !s.at.Connect? && !s.at.Done?
    ensures k <= 4 && CanRun(c, s, Mains(k)) && Run(c, s, Mains(k)).at.Drain?
    ensures s.at.Emplace? || k <= 3
    ensures (s.at.CheckRoom? || s.at.WaitForRoom?) ==> k <= 2
    ensures (s.at.LoopEnd? || s.at.CheckReconnect? || s.at.InDrainWait?) ==> k <= 1
    ensures s.at.Drain? ==> k == 0
    decreases Distance(s.at)
  {
    hide Size, Cleared;
    if s.at.Drain? {
      k := 0;
    } else {
      var k' := BreakDrains(c, MainStep(c, s));
      MoreMain(c, s, k');
      k := k' + 1;
    }
  }

  function Distance(at: Position): nat {
    match at
    case Emplace(_) => 5
    case CheckMax => 4
    case CheckRoom => 3
    case InWait => 3
    case CheckReconnect => 1
    case WaitForRoom => 2
    case LoopEnd => 1
    case InDrainWait => 1
    case _ => 0
  }

  /** With room and without a break it is back at connecting after at most three steps of its own. */
  lemma {:induction false} RoomConnects(c: Config, s: Manager) returns (k: nat)
    requires TableValid(s.table) && !s.breakRaised && Size(s.table) < c.concurrentStreams
    requires s.at.CheckRoom? || s.at.WaitForRoom? || s.at.InWait? || s.at.LoopEnd?
    ensures k <= 3 && CanRun(c, s, Mains(k)) && Run(c, s, Mains(k)).at.Connect?
    ensures Run(c, s, Mains(k)).connsCnt == s.connsCnt && Run(c, s, Mains(k)).running == s.running
    ensures Run(c, s, Mains(k)).table.ids == if s.at.InWait? then Active(s) else s.table.ids
    ensures s.at.InWait? || k <= 2
    ensures s.at.LoopEnd? ==> k <= 1
    decreases Distance(s.at)
  {
    hide Size, Cleared;
    var s' := MainStep(c, s);
    if s.at.LoopEnd? {
      MoreMain(c, s, 0);
      k := 1;
    } else {
      if s.at.InWait? {
        assert Size(s'.table) < c.concurrentStreams && TableValid(s'.table) by { ClearedSize(s.table); }
        WakeUpClears(c, s);
      }
      var k' := RoomConnects(c, s');
      MoreMain(c, s, k');
      k := k' + 1;
    }
  }

  lemma ClearedSize(t: Pipes)
    requires TableValid(t)
    ensures TableValid(Cleared(t)) && Size(Cleared(t)) == Size(t)
  {
    SizeIsCount(t);
  }

  /** After a wake-up only the entries of pipes that have not reported their end are left. */
  lemma WakeUpClears(c: Config, s: Manager)
    requires AtWait(s)
    ensures var s' := MainStep(c, s);
      s'.table.ids == Active(s) && s'.table.toClose == {} && s'.running == s.running && s'.started == s.started
  {
  }

  predicate AtWait(s: Manager) {
    s.at.InWait? || s.at.InDrainWait?
  }

  /** With reconnection a main thread that finds no room waits for it, and the end of any running pipe
      brings it back to connecting; without reconnection it drains. */
  lemma FullWaits(c: Config, s: Manager)
    requires s.at.CheckRoom? && !s.breakRaised && Size(s.table) >= c.concurrentStreams
    ensures CanRun(c, s, Mains(if c.reconnect then 3 else 2))
    ensures var s' := Run(c, s, Mains(if c.reconnect then 3 else 2));
      (if c.reconnect then s'.at.InWait? else s'.at.Drain?) && s'.table == s.table && s'.running == s.running
  {
    hide Size;
    var s1 := MainStep(c, s);
    var s2 := MainStep(c, s1);
    if c.reconnect {
      MoreMain(c, s2, 0);
      MoreMain(c, s1, 1);
      MoreMain(c, s, 2);
    } else {
      MoreMain(c, s1, 0);
      MoreMain(c, s, 1);
    }
  }

  lemma ExitMakesRoom(c: Config, s: Manager, id: Id) returns (k: nat)
    requires Inv(c, s) && !s.breakRaised && s.at.InWait? && id in s.running
    ensures k <= 3 && CanRun(c, s, [PipeExit(id)] + Mains(k))
    ensures var s' := Run(c, s, [PipeExit(id)] + Mains(k)); s'.at.Connect? && Enabled(s', Connected(id))
  {
    hide Inv, Exited;
    var s1 := Do(c, s, PipeExit(id));
    ExitKeeps(c, s, id);
    LessActive(c, s, id, s1);
    k := RoomConnects(c, s1);
    assert id !in s1.running;
    assert ([PipeExit(id)] + Mains(k))[1..] == Mains(k);
  }

  lemma LessActive(c: Config, s: Manager, id: Id, s1: Manager)
    requires Inv(c, s) && Inv(c, s1) && s.at.InWait? && id in s.running && Active(s1) == Active(s) - {id}
    ensures TableValid(s1.table) && Size(s1.table) < c.concurrentStreams
  {
    SizeIsCount(s1.table);
    assert id in Active(s);
    RemovedSize(Active(s), id);
  }

  // ---------- how far it gets

  function Ids(n: nat): (r: set<Id>)
    ensures |r| == n && forall id: nat :: id in r <==> id < n
    decreases n
  {
    if n == 0 then {} else Ids(n - 1) + {n - 1}
  }

  /** `n` connections have been made, and all their pipes are running. */
  function AllRunning(n: nat): Manager {
    Manager(Pipes(Ids(n), {}), Ids(n), n, n, 0, false, if n == 0 then Connect else CheckMax)
  }

  /** Without failures, breaks and pipes that end, every number of connections up to the configured streams
      and the maximum is reached, all of them running. */
  lemma {:induction false} StreamsReached(c: Config, n: nat) returns (steps: seq<Step>)
    requires n <= c.concurrentStreams && (c.maxConns > 0 ==> n <= c.maxConns)
    ensures CanRun(c, INITIAL, steps) && Run(c, INITIAL, steps) == AllRunning(n)
    ensures forall step :: step in steps ==> step.Connected? || step == Main
    decreases n
  {
    hide CanRun, Run;
    if n == 0 {
      steps := [];
      NothingYet(c);
    } else {
      var before := StreamsReached(c, n - 1);
      var more := NextStream(c, n - 1);
      RunAppend(c, INITIAL, before, more);
      steps := before + more;
    }
  }

  lemma NothingYet(c: Config)
    ensures CanRun(c, INITIAL, []) && Run(c, INITIAL, []) == INITIAL == AllRunning(0)
  {
  }

  lemma NextStream(c: Config, n: nat) returns (steps: seq<Step>)
    requires n < c.concurrentStreams && (c.maxConns > 0 ==> n < c.maxConns)
    ensures CanRun(c, AllRunning(n), steps) && Run(c, AllRunning(n), steps) == AllRunning(n + 1)
    ensures forall step :: step in steps ==> step.Connected? || step == Main
  {
    hide CanRun, Run;
    var s := AllRunning(n);
    var ready := s.(at := Connect);
    var back := ToConnect(c, n);
    var started := Do(c, ready, Connected(n));
    assert MainStep(c, started) == AllRunning(n + 1);
    OneRun(c, ready, Connected(n));
    OneRun(c, started, Main);
    RunAppend(c, ready, [Connected(n)], [Main]);
    RunAppend(c, s, back, [Connected(n)] + [Main]);
    steps := back + ([Connected(n)] + [Main]);
  }

  lemma ToConnect(c: Config, n: nat) returns (steps: seq<Step>)
    requires n < c.concurrentStreams && (c.maxConns > 0 ==> n < c.maxConns)
    ensures CanRun(c, AllRunning(n), steps) && Run(c, AllRunning(n), steps) == AllRunning(n).(at := Connect)
    ensures forall step :: step in steps ==> step == Main
  {
    var s := AllRunning(n);
    if n == 0 {
      steps := [];
    } else {
      var s1 := s.(at := CheckRoom);
      var s2 := s.(at := LoopEnd);
      MoreMain(c, s2, 0);
      MoreMain(c, s1, 1);
      MoreMain(c, s, 2);
      steps := Mains(3);
      OnlyMains(3);
    }
  }

  lemma {:induction false} OnlyMains(k: nat)
    ensures forall step :: step in Mains(k) ==> step == Main
    decreases k
  {
    if k > 0 {
      OnlyMains(k - 1);
    }
  }

  /** `n` connections have been made, and all their pipes have ended. */
  function AllEnded(n: nat): Manager {
    Manager(Pipes(Ids(n), Ids(n)), {}, n, n, n, false, if n == 0 then Connect else CheckMax)
  }

  /** When each pipe ends before the next connection, every number of connections up to the maximum is
      reached, and any number without one. */
  lemma {:induction false} MaximumReached(c: Config, n: nat) returns (steps: seq<Step>)
    requires c.concurrentStreams > 0 && (c.maxConns > 0 ==> n <= c.maxConns)
    ensures CanRun(c, INITIAL, steps) && Run(c, INITIAL, steps) == AllEnded(n)
    ensures ConnectFails !in steps && RaiseBreak !in steps
    decreases n
  {
    hide CanRun, Run;
    if n == 0 {
      steps := [];
      NothingYet(c);
    } else {
      var before := MaximumReached(c, n - 1);
      var more := NextEnded(c, n - 1);
      RunAppend(c, INITIAL, before, more);
      steps := before + more;
    }
  }

  lemma NextEnded(c: Config, n: nat) returns (steps: seq<Step>)
    requires c.concurrentStreams > 0 && (c.maxConns > 0 ==> n < c.maxConns)
    ensures CanRun(c, AllEnded(n), steps) && Run(c, AllEnded(n), steps) == AllEnded(n + 1)
    ensures ConnectFails !in steps && RaiseBreak !in steps
  {
    hide CanRun, Run;
    var s := AllEnded(n);
    var ready := s.(at := Connect);
    var back := EndedToConnect(c, n);
    var started := Do(c, ready, Connected(n));
    var entered := Do(c, started, Main);
    assert Do(c, entered, PipeExit(n)) == AllEnded(n + 1);
    OneRun(c, ready, Connected(n));
    OneRun(c, started, Main);
    OneRun(c, entered, PipeExit(n));
    RunAppend(c, started, [Main], [PipeExit(n)]);
    RunAppend(c, ready, [Connected(n)], [Main] + [PipeExit(n)]);
    RunAppend(c, s, back, [Connected(n)] + ([Main] + [PipeExit(n)]));
    steps := back + ([Connected(n)] + ([Main] + [PipeExit(n)]));
  }

  lemma EndedToConnect(c: Config, n: nat) returns (steps: seq<Step>)
    requires c.concurrentStreams > 0 && (c.maxConns > 0 ==> n < c.maxConns)
    ensures CanRun(c, AllEnded(n), steps) && Run(c, AllEnded(n), steps) == AllEnded(n).(at := Connect)
    ensures forall step :: step in steps ==> step == Main
  {
    var s := AllEnded(n);
    if n == 0 {
      steps := [];
    } else {
      var s1 := s.(at := CheckRoom);
      var s2 := s.(at := LoopEnd);
      MoreMain(c, s2, 0);
      MoreMain(c, s1, 1);
      MoreMain(c, s, 2);
      steps := Mains(3);
      OnlyMains(3);
    }
  }
}
