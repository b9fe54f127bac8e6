/** The connection manager. Its main thread and the pipe threads interleave in any way; every step
    below is one atomic action of one of them. Starting a pipe's thread and entering the pipe in the
    table are two steps, because the entry is made without the lock. */
module Connections {
  type Id = nat

  // ---------- the table of pipes

  /** The pipes that have an entry, and those of them that have reported their end. */
  datatype Pipes = Pipes(ids: set<Id>, toClose: set<Id>)

  const NO_PIPES := Pipes({}, {})

  function Emplaced(t: Pipes, id: Id): Pipes {
    t.(ids := t.ids + {id})
  }

  /** A pipe reports its end; one without an entry is only logged. */
  function Exited(t: Pipes, id: Id): Pipes {
    if id in t.ids then t.(toClose := t.toClose + {id}) else t
  }

  /** What a wake-up does: the entries of ended pipes go. */
  function Cleared(t: Pipes): Pipes {
    Pipes(t.ids - t.toClose, {})
  }

  function Size(t: Pipes): int {
    |t.ids| - |t.toClose|
  }

  /** An entry is marked ended only while it is there; then the size is a count and cannot underflow. */
  predicate TableValid(t: Pipes) {
    t.toClose <= t.ids
  }

  class ConcurrentPipes {
    var pipes: set<Id>
    var toClose: set<Id>

    function View(): Pipes
      reads this
    {
      Pipes(pipes, toClose)
    }

    constructor ()
      ensures View() == NO_PIPES && TableValid(View())
    {
      pipes, toClose := {}, {};
    }

    /** The second half of adding a pipe; its thread is running already. */
    method Emplace(id: Id)
      requires TableValid(View())
      modifies this
      ensures View() == Emplaced(old(View()), id) && TableValid(View())
    {
      pipes := pipes + {id};
    }

    method OnPipeExit(id: Id)
      requires TableValid(View())
      modifies this
      ensures View() == Exited(old(View()), id) && TableValid(View())
    {
      if id !in pipes {
        return;
      }
      toClose := toClose + {id};
    }

    method Count() returns (n: nat)
      requires TableValid(View())
      ensures n == Size(View()) == |pipes - toClose|
    {
      SizeIsCount(View());
      n := |pipes| - |toClose|;
    }

    /** The part of waiting that follows the wake-up, under the lock. */
    method ClearInactive()
      requires TableValid(View())
      modifies this
      ensures View() == Cleared(old(View())) && TableValid(View())
      ensures Size(View()) == Size(old(View()))
    {
      SizeIsCount(View());
      var left := toClose;
      while left != {}
        invariant left <= toClose && toClose == old(toClose)
        invariant pipes == old(pipes) - (toClose - left)
        decreases left
      {
        var id :| id in left;
        pipes := pipes - {id};
        left := left - {id};
      }
      toClose := {};
    }
  }

  lemma SizeIsCount(t: Pipes)
    requires TableValid(t)
    ensures Size(t) == |t.ids - t.toClose| == Size(Cleared(t))
  {
    assert t.ids == (t.ids - t.toClose) + t.toClose;
  }

  // ---------- the threads

  datatype Config = Config(maxConns: int, concurrentStreams: int, reconnect: bool)

  /** Where the main thread is. */
  datatype Position =
    | Connect            // about to establish a connection
    | Emplace(id: Id)    // the pipe's thread is running, its entry is still to be made
    | CheckMax           // the entry is made and counted
    | CheckRoom
    | CheckReconnect
    | WaitForRoom        // head of the loop that waits for room
    | InWait
    | LoopEnd            // condition of the outer loop
    | Drain              // head of the final loop
    | InDrainWait
    | Done

  /** `running` are the pipes whose thread has not reported its end yet. */
  datatype Manager = Manager(table: Pipes, running: set<Id>, connsCnt: nat, started: nat, exited: nat,
                             breakRaised: bool, at: Position)

  const INITIAL := Manager(NO_PIPES, {}, 0, 0, 0, false, Connect)

  datatype Step =
    | Connected(id: Id)  // a connection is there, and its pipe's thread is started
    | ConnectFails
    | Main               // any other step of the main thread
    | PipeExit(id: Id)
    | RaiseBreak

  /** A new connection's id is not in the table and not that of a running pipe. */
  predicate Enabled(s: Manager, step: Step) {
    match step
    case Connected(id) => s.at.Connect? && id !in s.table.ids && id !in s.running
    case ConnectFails => s.at.Connect?
    case Main => !s.at.Connect? && !s.at.Done?
    case PipeExit(id) => id in s.running
    case RaiseBreak => true
  }

  function MainStep(c: Config, s: Manager): Manager {
    match s.at
    case Connect => s
    case Emplace(id) => s.(table := Emplaced(s.table, id), connsCnt := s.connsCnt + 1, at := CheckMax)
    case CheckMax => s.(at := if c.maxConns > 0 && s.connsCnt >= c.maxConns then Drain else CheckRoom)
    case CheckRoom => s.(at := if Size(s.table) < c.concurrentStreams then LoopEnd else CheckReconnect)
    case CheckReconnect => s.(at := if !c.reconnect || s.breakRaised then Drain else WaitForRoom)
    case WaitForRoom => s.(at := if !s.breakRaised && Size(s.table) >= c.concurrentStreams then InWait else LoopEnd)
    case InWait => s.(table := Cleared(s.table), at := WaitForRoom)
    case LoopEnd => s.(at := if s.breakRaised then Drain else Connect)
    case Drain => s.(at := if Size(s.table) > 0 then InDrainWait else Done)
    case InDrainWait => s.(table := Cleared(s.table), at := Drain)
    case Done => s
  }

  function Do(c: Config, s: Manager, step: Step): Manager {
    match step
    case Connected(id) => s.(running := s.running + {id}, started := s.started + 1, at := Emplace(id))
    case ConnectFails => s.(at := Drain)
    case Main => MainStep(c, s)
    case PipeExit(id) => s.(table := Exited(s.table, id), running := s.running - {id}, exited := s.exited + 1)
    case RaiseBreak => s.(breakRaised := true)
  }

  predicate CanRun(c: Config, s: Manager, steps: seq<Step>)
    decreases |steps|
  {
    steps == [] || (Enabled(s, steps[0]) && CanRun(c, Do(c, s, steps[0]), steps[1..]))
  }

  function Run(c: Config, s: Manager, steps: seq<Step>): Manager
    decreases |steps|
  {
    if steps == [] then s else Run(c, Do(c, s, steps[0]), steps[1..])
  }

  // ---------- what every run keeps

  /** The entries that count as active. */
  function Active(s: Manager): set<Id> {
    s.table.ids - s.table.toClose
  }

  function Pending(s: Manager): set<Id> {
    if s.at.Emplace? then {s.at.id} else {}
  }

  /** Pipes that count as active although their thread has ended: it ended before the entry was made,
      found no entry to mark, and nothing will ever mark it. */
  function Orphans(s: Manager): set<Id> {
    (Active(s) + Pending(s)) - s.running
  }

  /** The table, the threads and the counters agree. */
  ghost predicate Consistent(s: Manager) {
    && TableValid(s.table)
    && s.table.toClose !! s.running
    && s.running <= Active(s) + Pending(s)
    && Pending(s) !! s.table.ids
    && s.started == s.exited + |s.running|
    && s.started == s.connsCnt + |Pending(s)|
  }

  /** The limits hold, with room for one more where the main thread is about to connect. */
  ghost predicate Bounded(c: Config, s: Manager) {
    && |Active(s)| + |Pending(s)| <= c.concurrentStreams
    && (s.at.Connect? ==> |Active(s)| < c.concurrentStreams)
    && (s.at.LoopEnd? ==> |Active(s)| < c.concurrentStreams || s.breakRaised)
    && (s.at.Done? ==> |Active(s)| == 0)
    && (c.maxConns > 0 ==>
          && s.connsCnt <= c.maxConns
          && (!s.at.CheckMax? && !s.at.Drain? && !s.at.InDrainWait? && !s.at.Done? ==> s.connsCnt < c.maxConns))
  }

  ghost predicate Inv(c: Config, s: Manager) {
    Consistent(s) && Bounded(c, s)
  }

  lemma EmplaceKeeps(c: Config, s: Manager)
    requires Inv(c, s) && s.at.Emplace?
    ensures Inv(c, MainStep(c, s))
  {
    var s' := MainStep(c, s);
    assert Active(s') == Active(s) + Pending(s) && Pending(s') == {};
    assert |Active(s')| == |Active(s)| + |Pending(s)|;
  }

  lemma ClearKeeps(c: Config, s: Manager)
    requires Inv(c, s) && (s.at.InWait? || s.at.InDrainWait?)
    ensures Inv(c, MainStep(c, s))
  {
    assert Active(MainStep(c, s)) == Active(s);
  }

  lemma MainKeeps(c: Config, s: Manager)
    requires c.concurrentStreams > 0 && Inv(c, s) && Enabled(s, Main)
    ensures Inv(c, MainStep(c, s))
  {
    if s.at.Emplace? {
      EmplaceKeeps(c, s);
    } else if s.at.InWait? || s.at.InDrainWait? {
      ClearKeeps(c, s);
    } else {
      DecisionKeeps(c, s);
    }
  }

  lemma DecisionKeeps(c: Config, s: Manager)
    requires c.concurrentStreams > 0 && Inv(c, s) && Enabled(s, Main)
    requires !s.at.Emplace? && !s.at.InWait? && !s.at.InDrainWait?
    ensures Inv(c, MainStep(c, s))
  {
    hide Size;
    SizeIsCount(s.table);
    DecisionStays(c, s);
  }

  lemma StepKeeps(c: Config, s: Manager, step: Step)
    requires c.concurrentStreams > 0 && Inv(c, s) && Enabled(s, step)
    ensures Inv(c, Do(c, s, step))
  {
    match step
    case Main => MainKeeps(c, s);
    case PipeExit(id) => ExitKeeps(c, s, id);
    case _ =>
  }

  lemma ExitKeeps(c: Config, s: Manager, id: Id)
    requires Inv(c, s) && id in s.running
    ensures Inv(c, Do(c, s, PipeExit(id)))
    ensures Active(Do(c, s, PipeExit(id))) == Active(s) - {id}
  {
    hide Consistent;
    ExitActive(s, id);
    ExitConsistent(c, s, id);
    RemovedSize(Active(s), id);
  }

  lemma ExitActive(s: Manager, id: Id)
    ensures Exited(s.table, id).ids - Exited(s.table, id).toClose == Active(s) - {id}
  {
  }

  lemma ExitConsistent(c: Config, s: Manager, id: Id)
    requires Consistent(s) && id in s.running
    ensures Consistent(Do(c, s, PipeExit(id)))
  {
    ExitActive(s, id);
    RemovedSize(s.running, id);
  }

  lemma RemovedSize(ids: set<Id>, id: Id)
    ensures |ids - {id}| == |ids| - if id in ids then 1 else 0
  {
    if id !in ids {
      assert ids - {id} == ids;
    }
  }

  lemma {:induction false} RunKeeps(c: Config, s: Manager, steps: seq<Step>)
    requires c.concurrentStreams > 0 && Inv(c, s) && CanRun(c, s, steps)
    ensures Inv(c, Run(c, s, steps))
    decreases |steps|
  {
    if steps != [] {
      StepKeeps(c, s, steps[0]);
      RunKeeps(c, Do(c, s, steps[0]), steps[1..]);
    }
  }

  /** In every interleaving the pipes that run are at most the configured number of streams, even when
      one ends before its entry is made; and no more connections are made than allowed. */
  lemma ConnectionBound(c: Config, steps: seq<Step>)
    requires c.concurrentStreams > 0 && CanRun(c, INITIAL, steps)
    ensures var s := Run(c, INITIAL, steps);
      && |s.running| <= c.concurrentStreams
      && (c.maxConns > 0 ==> s.connsCnt <= s.started <= c.maxConns)
  {
    hide Run, CanRun;
    RunKeeps(c, INITIAL, steps);
    RunningCounted(c, Run(c, INITIAL, steps));
  }

  /** The size that the main thread reads never undercounts: it is the running pipes other than a
      pending one, and the orphans. It is exact when there are no orphans. */
  lemma RunningCounted(c: Config, s: Manager)
    requires Inv(c, s)
    ensures Size(s.table) + |Pending(s)| == |s.running| + |Orphans(s)|
    ensures |s.running| <= c.concurrentStreams
  {
    SizeIsCount(s.table);
    var all := Active(s) + Pending(s);
    assert Active(s) !! Pending(s);
    assert all == s.running + Orphans(s);
  }

  /** Drain on exit: when the final loop has ended, every pipe ever started has reported its end. */
  lemma DrainedOnExit(c: Config, steps: seq<Step>)
    requires c.concurrentStreams > 0 && CanRun(c, INITIAL, steps)
    ensures var s := Run(c, INITIAL, steps);
      s.at.Done? ==> s.running == {} && s.started == s.exited && Orphans(s) == {}
  {
    hide Run, CanRun;
    RunKeeps(c, INITIAL, steps);
  }

  // ---------- orphans

  /** An orphan stays for good, and as long as there is one the final loop cannot end. */
  lemma {:induction false} OrphanForever(c: Config, s: Manager, steps: seq<Step>, id: Id)
    requires c.concurrentStreams > 0 && Inv(c, s) && CanRun(c, s, steps) && id in Orphans(s)
    ensures id in Orphans(Run(c, s, steps)) && !Run(c, s, steps).at.Done?
    decreases |steps|
  {
    hide Do, Enabled;
    if steps != [] {
      StepKeeps(c, s, steps[0]);
      OrphanStays(c, s, steps[0], id);
      OrphanForever(c, Do(c, s, steps[0]), steps[1..], id);
    }
  }

  lemma OrphanStays(c: Config, s: Manager, step: Step, id: Id)
    requires Inv(c, s) && Enabled(s, step) && id in Orphans(s)
    ensures id in Orphans(Do(c, s, step))
  {
    match step
    case PipeExit(other) => ExitKeeps(c, s, other);
    case Main => OrphanStaysMain(c, s, id);
    case _ =>
  }

  lemma OrphanStaysMain(c: Config, s: Manager, id: Id)
    requires Inv(c, s) && Enabled(s, Main) && id in Orphans(s)
    ensures id in Orphans(MainStep(c, s))
  {
    hide Inv, MainStep, Active, Pending;
    CountedStays(c, s);
  }

  /** A step of the main thread changes neither the running pipes nor what counts as active or pending. */
  lemma CountedStays(c: Config, s: Manager)
    requires Inv(c, s) && Enabled(s, Main)
    ensures MainStep(c, s).running == s.running
    ensures Active(MainStep(c, s)) + Pending(MainStep(c, s)) == Active(s) + Pending(s)
  {
    hide Bounded, Size, Emplaced, Cleared;
    if s.at.Emplace? {
      EmplacedActive(s.table, s.at.id);
    } else if s.at.InWait? || s.at.InDrainWait? {
      ClearedActive(s.table);
    } else {
      DecisionStays(c, s);
    }
  }

  lemma EmplacedActive(t: Pipes, id: Id)
    requires TableValid(t) && id !in t.ids
    ensures Emplaced(t, id).ids - Emplaced(t, id).toClose == (t.ids - t.toClose) + {id}
  {
  }

  lemma ClearedActive(t: Pipes)
    ensures Cleared(t).ids - Cleared(t).toClose == t.ids - t.toClose
  {
  }

  lemma DecisionStays(c: Config, s: Manager)
    requires Enabled(s, Main) && !s.at.Emplace? && !s.at.InWait? && !s.at.InDrainWait?
    ensures MainStep(c, s).table == s.table && MainStep(c, s).running == s.running
    ensures Pending(MainStep(c, s)) == Pending(s) == {}
  {
    hide Size;
  }

  /** Orphans do arise: a pipe's thread that ends before its entry is made leaves one. */
  lemma OrphanArises(c: Config, id: Id)
    ensures var steps := [Connected(id), PipeExit(id), Main];
      CanRun(c, INITIAL, steps) && Orphans(Run(c, INITIAL, steps)) == {id}
  {
    var s1 := Do(c, INITIAL, Connected(id));
    var s2 := Do(c, s1, PipeExit(id));
    var s3 := Do(c, s2, Main);
    var steps := [Connected(id), PipeExit(id), Main];
    assert steps[1..] == [PipeExit(id), Main] && steps[1..][1..] == [Main] && [Main][1..] == [];
    assert CanRun(c, s2, [Main]) && Run(c, s2, [Main]) == s3;
    assert CanRun(c, s1, steps[1..]) && Run(c, s1, steps[1..]) == s3;
  }

  lemma {:induction false} RunAppend(c: Config, s: Manager, a: seq<Step>, b: seq<Step>)
    ensures CanRun(c, s, a + b) <==> CanRun(c, s, a) && CanRun(c, Run(c, s, a), b)
    ensures Run(c, s, a + b) == Run(c, Run(c, s, a), b)
    decreases |a|
  {
    if a == [] {
      assert a + b == b;
    } else {
      assert (a + b)[1..] == a[1..] + b;
      RunAppend(c, Do(c, s, a[0]), a[1..], b);
    }
  }

  lemma ExitOrphans(c: Config, s: Manager, id: Id)
    requires Inv(c, s) && s.at.Drain? && id in s.running
    ensures Orphans(Do(c, s, PipeExit(id))) == Orphans(s)
  {
    ExitKeeps(c, s, id);
  }

  lemma NoneRunning(c: Config, s: Manager)
    requires Inv(c, s) && s.at.Drain? && s.running == {}
    ensures Active(s) == Orphans(s)
  {
  }

  /** Let every running pipe end. */
  lemma {:induction false} AllExit(c: Config, s: Manager) returns (steps: seq<Step>)
    requires c.concurrentStreams > 0 && Inv(c, s) && s.at.Drain?
    ensures CanRun(c, s, steps)
    ensures var s' := Run(c, s, steps);
      Inv(c, s') && s'.at.Drain? && s'.running == {} && Active(s') == Orphans(s)
    decreases |s.running|
  {
    hide Inv;
    if s.running == {} {
      steps := [];
      NoneRunning(c, s);
    } else {
      var id :| id in s.running;
      ExitKeeps(c, s, id);
      var s' := Do(c, s, PipeExit(id));
      assert Orphans(s') == Orphans(s) by { ExitOrphans(c, s, id); }
      var rest := AllExit(c, s');
      steps := [PipeExit(id)] + rest;
      assert steps[1..] == rest;
    }
  }

  /** Whether the final loop can ever end, exactly: from its head there is a run to the end if and only
      if no pipe has been orphaned. */
  lemma DrainPossible(c: Config, s: Manager)
    requires c.concurrentStreams > 0 && Inv(c, s) && s.at.Drain?
    ensures Orphans(s) == {} <==> exists steps :: CanRun(c, s, steps) && Run(c, s, steps).at.Done?
  {
    hide Inv, CanRun, Run, Orphans;
    if Orphans(s) == {} {
      var steps := DrainRun(c, s);
    } else {
      var orphans := Orphans(s);
      var id :| id in orphans;
      forall steps | CanRun(c, s, steps) ensures !Run(c, s, steps).at.Done? {
        OrphanForever(c, s, steps, id);
      }
    }
  }

  lemma DrainRun(c: Config, s: Manager) returns (steps: seq<Step>)
    requires c.concurrentStreams > 0 && Inv(c, s) && s.at.Drain? && Orphans(s) == {}
    ensures CanRun(c, s, steps) && Run(c, s, steps).at.Done?
  {
    hide CanRun, Run;
    var exits := AllExit(c, s);
    var s1 := Run(c, s, exits);
    LastMain(c, s1);
    RunAppend(c, s, exits, [Main]);
    steps := exits + [Main];
  }

  lemma LastMain(c: Config, s: Manager)
    requires Inv(c, s) && s.at.Drain? && Active(s) == {}
    ensures CanRun(c, s, [Main]) && Run(c, s, [Main]).at.Done?
  {
    SizeIsCount(s.table);
    assert [Main][1..] == [];
  }

  // ---------- orphans, told from the schedule

  /** The pipe's thread reports its end before the main thread has taken another step after starting it. */
  ghost predicate EndsEarly(steps: seq<Step>, id: Id) {
    exists i, j :: 0 <= i < j < |steps| && steps[i] == Connected(id) && steps[j] == PipeExit(id)
                   && Main !in steps[i..j]
  }

  /** The pipe's thread has been started, and the main thread has not taken another step since. */
  ghost predicate JustStarted(steps: seq<Step>, id: Id) {
    exists i :: 0 <= i < |steps| && steps[i] == Connected(id) && Main !in steps[i..]
  }

  lemma EndsEarlyStep(steps: seq<Step>, step: Step, id: Id)
    ensures EndsEarly(steps + [step], id) <==> EndsEarly(steps, id) || (step == PipeExit(id) && JustStarted(steps, id))
  {
    var all, n := steps + [step], |steps|;
    assert forall i, j :: 0 <= i <= j <= n ==> all[i..j] == steps[i..j];
    assert forall i :: 0 <= i <= n ==> steps[i..] == steps[i..n];
    if EndsEarly(steps, id) {
      var i, j :| 0 <= i < j < n && steps[i] == Connected(id) && steps[j] == PipeExit(id) && Main !in steps[i..j];
      assert all[i] == Connected(id) && all[j] == PipeExit(id) && Main !in all[i..j];
    }
    if step == PipeExit(id) && JustStarted(steps, id) {
      var i :| 0 <= i < n && steps[i] == Connected(id) && Main !in steps[i..];
      assert all[i] == Connected(id) && all[n] == PipeExit(id) && Main !in all[i..n];
    }
    if EndsEarly(all, id) {
      var i, j :| 0 <= i < j <= n && all[i] == Connected(id) && all[j] == PipeExit(id) && Main !in all[i..j];
      assert steps[i] == Connected(id) && Main !in steps[i..j];
      if j < n {
        assert steps[j] == PipeExit(id);
      } else {
        assert Main !in steps[i..];
      }
    }
  }

  lemma JustStartedStep(steps: seq<Step>, step: Step, id: Id)
    ensures JustStarted(steps + [step], id) <==> step == Connected(id) || (step != Main && JustStarted(steps, id))
  {
    var all, n := steps + [step], |steps|;
    assert forall i :: 0 <= i <= n ==> all[i..] == steps[i..] + [step];
    if step == Connected(id) {
      assert all[n] == Connected(id) && Main !in all[n..];
    }
    if step != Main && JustStarted(steps, id) {
      var i :| 0 <= i < n && steps[i] == Connected(id) && Main !in steps[i..];
      assert all[i] == Connected(id) && Main !in all[i..];
    }
    if JustStarted(all, id) && step != Connected(id) {
      var i :| 0 <= i <= n && all[i] == Connected(id) && Main !in all[i..];
      assert steps[i] == Connected(id) && Main !in steps[i..];
    }
  }

  /** What one step does to the orphans and to where the main thread is. */
  lemma OrphanStep(c: Config, s: Manager, step: Step, id: Id)
    requires Inv(c, s) && Enabled(s, step)
    ensures var s' := Do(c, s, step);
      && (id in Orphans(s') <==> id in Orphans(s) || (step == PipeExit(id) && s.at == Emplace(id)))
      && (s'.at == Emplace(id) <==> step == Connected(id) || (step != Main && s.at == Emplace(id)))
  {
    hide Inv, Exited, Active, MainStep;
    if step.PipeExit? {
      OrphanExit(c, s, step.id, id);
    } else if step.Main? {
      OrphanMain(c, s, id);
    } else {
      assert Active(Do(c, s, step)) == Active(s) by { SameTable(c, s, step); }
      assert step.Connected? ==> step.id !in Active(s) by { InTable(s); }
    }
  }

  lemma SameTable(c: Config, s: Manager, step: Step)
    requires !step.PipeExit? && !step.Main?
    ensures Active(Do(c, s, step)) == Active(s)
  {
  }

  lemma InTable(s: Manager)
    ensures Active(s) <= s.table.ids
  {
  }

  lemma OrphanExit(c: Config, s: Manager, other: Id, id: Id)
    requires Inv(c, s) && other in s.running
    ensures var s' := Do(c, s, PipeExit(other));
      && (id in Orphans(s') <==> id in Orphans(s) || (other == id && s.at == Emplace(id)))
      && s'.at == s.at
  {
    hide Inv, Exited, Active;
    ExitKeeps(c, s, other);
  }

  lemma OrphanMain(c: Config, s: Manager, id: Id)
    requires Inv(c, s) && Enabled(s, Main)
    ensures id in Orphans(MainStep(c, s)) <==> id in Orphans(s)
    ensures !MainStep(c, s).at.Emplace?
  {
    hide Inv, Active, Pending;
    CountedStays(c, s);
  }

  /** A pipe is orphaned, in any run, if and only if its end comes between its start and the main
      thread's next step, which makes its entry. */
  lemma {:induction false} OrphanExactly(c: Config, steps: seq<Step>, id: Id)
    requires c.concurrentStreams > 0 && CanRun(c, INITIAL, steps)
    ensures var s := Run(c, INITIAL, steps);
      && Inv(c, s)
      && (id in Orphans(s) <==> EndsEarly(steps, id))
      && (s.at == Emplace(id) <==> JustStarted(steps, id))
    decreases |steps|
  {
    hide CanRun, Run, Inv, Orphans, Do, Enabled, EndsEarly, JustStarted;
    if steps == [] {
      NoStep(c, id);
    } else {
      var n := |steps| - 1;
      var before, last := steps[..n], steps[n];
      assert steps == before + [last];
      RunAppend(c, INITIAL, before, [last]);
      OrphanExactly(c, before, id);
      var s := Run(c, INITIAL, before);
      OneRun(c, s, last);
      StepKeeps(c, s, last);
      OrphanStep(c, s, last, id);
      EndsEarlyStep(before, last, id);
      JustStartedStep(before, last, id);
    }
  }

  lemma NoStep(c: Config, id: Id)
    requires c.concurrentStreams > 0
    ensures Run(c, INITIAL, []) == INITIAL && Inv(c, INITIAL)
    ensures id !in Orphans(INITIAL) && !EndsEarly([], id) && !JustStarted([], id)
  {
  }

  lemma OneRun(c: Config, s: Manager, step: Step)
    ensures CanRun(c, s, [step]) <==> Enabled(s, step)
    ensures Run(c, s, [step]) == Do(c, s, step)
  {
    hide Do, Enabled;
    assert [step][1..] == [];
  }

  /** Whether a run that has come to the final loop can ever end, exactly, told from its schedule. */
  lemma DrainPossibleAfter(c: Config, steps: seq<Step>)
    requires c.concurrentStreams > 0 && CanRun(c, INITIAL, steps) && Run(c, INITIAL, steps).at.Drain?
    ensures (exists more :: CanRun(c, INITIAL, steps + more) && Run(c, INITIAL, steps + more).at.Done?)
       <==> forall id :: !EndsEarly(steps, id)
  {
    hide CanRun, Run, Inv, Orphans, EndsEarly, JustStarted;
    var s := Run(c, INITIAL, steps);
    forall id ensures Inv(c, s) && (id in Orphans(s) <==> EndsEarly(steps, id)) {
      OrphanExactly(c, steps, id);
    }
    OrphanExactly(c, steps, 0);
    if Orphans(s) == {} {
      var more := DrainRun(c, s);
      RunAppend(c, INITIAL, steps, more);
    } else {
      var orphans := Orphans(s);
      var id :| id in orphans;
      forall more | CanRun(c, INITIAL, steps + more) ensures !Run(c, INITIAL, steps + more).at.Done? {
        RunAppend(c, INITIAL, steps, more);
        OrphanForever(c, s, more, id);
      }
    }
  }

  /** With as many orphans as streams, a main thread that waits for room waits until a break: it makes
      no further connection, although no pipe is running. */
  lemma {:induction false} Stalled(c: Config, s: Manager, steps: seq<Step>)
    requires c.concurrentStreams > 0 && Inv(c, s) && CanRun(c, s, steps)
    requires (s.at.WaitForRoom? || s.at.InWait?) && !s.breakRaised && |Orphans(s)| >= c.concurrentStreams
    requires RaiseBreak !in steps
    ensures s.running == {}
    ensures var s' := Run(c, s, steps);
      (s'.at.WaitForRoom? || s'.at.InWait?) && s'.started == s.started && s'.running == {}
    decreases |steps|
  {
    hide Inv, Orphans, Do, Enabled;
    FullOfOrphans(c, s);
    if steps != [] {
      assert steps[0] in steps;
      StallStep(c, s, steps[0]);
      StepKeeps(c, s, steps[0]);
      Stalled(c, Do(c, s, steps[0]), steps[1..]);
    }
  }

  /** Such a wait does arise with a single stream: its pipe ends before its entry is made. */
  lemma StallArises(c: Config, id: Id)
    requires c.concurrentStreams == 1 && c.reconnect && c.maxConns != 1
    ensures var steps := [Connected(id), PipeExit(id), Main, Main, Main, Main];
      var s := Run(c, INITIAL, steps);
      && CanRun(c, INITIAL, steps)
      && s.at.WaitForRoom? && !s.breakRaised && |Orphans(s)| >= c.concurrentStreams
  {
    hide CanRun, Run;
    var early := [Connected(id), PipeExit(id), Main];
    OrphanArises(c, id);
    var s := Run(c, INITIAL, early);
    AfterOrphan(c, id);
    OneRun(c, s, Main);
    var s1 := Do(c, s, Main);
    OneRun(c, s1, Main);
    var s2 := Do(c, s1, Main);
    OneRun(c, s2, Main);
    RunAppend(c, s1, [Main], [Main]);
    RunAppend(c, s, [Main], [Main] + [Main]);
    RunAppend(c, INITIAL, early, [Main] + ([Main] + [Main]));
    assert early + ([Main] + ([Main] + [Main])) == [Connected(id), PipeExit(id), Main, Main, Main, Main];
    assert Orphans(Do(c, s2, Main)) == {id};
  }

  lemma AfterOrphan(c: Config, id: Id)
    ensures Run(c, INITIAL, [Connected(id), PipeExit(id), Main]) == Manager(Pipes({id}, {}), {}, 1, 1, 1, false, CheckMax)
  {
    var s1 := Do(c, INITIAL, Connected(id));
    var s2 := Do(c, s1, PipeExit(id));
    OneRun(c, s2, Main);
    OneRun(c, s1, PipeExit(id));
    OneRun(c, INITIAL, Connected(id));
    RunAppend(c, s1, [PipeExit(id)], [Main]);
    RunAppend(c, INITIAL, [Connected(id)], [PipeExit(id)] + [Main]);
    assert [Connected(id)] + ([PipeExit(id)] + [Main]) == [Connected(id), PipeExit(id), Main];
  }

  lemma FullOfOrphans(c: Config, s: Manager)
    requires Inv(c, s) && (s.at.WaitForRoom? || s.at.InWait?) && |Orphans(s)| >= c.concurrentStreams
    ensures s.running == {} && Size(s.table) >= c.concurrentStreams
  {
    hide Orphans, Size;
    RunningCounted(c, s);
    assert Size(s.table) == |Active(s)| by { SizeIsCount(s.table); }
  }

  lemma StallStep(c: Config, s: Manager, step: Step)
    requires Inv(c, s) && Enabled(s, step) && step != RaiseBreak && !s.breakRaised
    requires (s.at.WaitForRoom? || s.at.InWait?) && s.running == {} && Size(s.table) >= c.concurrentStreams
    ensures var s' := Do(c, s, step);
      && (s'.at.WaitForRoom? || s'.at.InWait?) && !s'.breakRaised && s'.started == s.started
      && Orphans(s') == Orphans(s)
  {
    assert step == Main;
    CountedStays(c, s);
  }
}
