/** The connection manager when a wait ends only by a notification: the main thread reads the size, then
    begins to wait, and only a pipe that reports its end in the meantime wakes it up. */
module Waking {
  import opened Connections

  /** How far a main thread that is to wait has come. */
  datatype Phase = BeforeWait | Blocked | Woken

  datatype Waiter = Waiter(m: Manager, phase: Phase)

  datatype Action = Does(step: Step) | BeginsWait

  predicate AtWait(m: Manager) {
    m.at.InWait? || m.at.InDrainWait?
  }

  predicate Possible(w: Waiter, a: Action) {
    match a
    case BeginsWait => AtWait(w.m) && w.phase == BeforeWait
    case Does(step) => Enabled(w.m, step) && (step == Main && AtWait(w.m) ==> w.phase == Woken)
  }

  /** A pipe notifies when it marks its entry; without anybody waiting that has no effect. */
  function Act(c: Config, w: Waiter, a: Action): Waiter {
    match a
    case BeginsWait => w.(phase := Blocked)
    case Does(step) =>
      Waiter(Do(c, w.m, step),
             if step == Main then BeforeWait
             else if step.PipeExit? && step.id in w.m.table.ids && w.phase == Blocked then Woken
             else w.phase)
  }

  predicate CanAct(c: Config, w: Waiter, actions: seq<Action>)
    decreases |actions|
  {
    actions == [] || (Possible(w, actions[0]) && CanAct(c, Act(c, w, actions[0]), actions[1..]))
  }

  function Acted(c: Config, w: Waiter, actions: seq<Action>): Waiter
    decreases |actions|
  {
    if actions == [] then w else Acted(c, Act(c, w, actions[0]), actions[1..])
  }

  /** The steps of the threads, without the beginnings of waits. */
  function Steps(actions: seq<Action>): seq<Step> {
    if actions == [] then []
    else (if actions[0].Does? then [actions[0].step] else []) + Steps(actions[1..])
  }

  /** Every such run is one of the runs where a wake-up can come at any time, so that all that holds in
      those holds here. */
  lemma {:induction false} IsRun(c: Config, w: Waiter, actions: seq<Action>)
    requires CanAct(c, w, actions)
    ensures CanRun(c, w.m, Steps(actions)) && Run(c, w.m, Steps(actions)) == Acted(c, w, actions).m
    decreases |actions|
  {
    hide Enabled, Do;
    if actions != [] {
      IsRun(c, Act(c, w, actions[0]), actions[1..]);
      if actions[0].Does? {
        assert Steps(actions) == [actions[0].step] + Steps(actions[1..]);
        assert Steps(actions)[1..] == Steps(actions[1..]);
      } else {
        assert Steps(actions) == Steps(actions[1..]);
      }
    }
  }

  /** Without a running pipe a wait is for good: no run gets the main thread out of it. */
  lemma {:induction false} StuckForGood(c: Config, w: Waiter, actions: seq<Action>)
    requires AtWait(w.m) && w.phase == Blocked && w.m.running == {} && CanAct(c, w, actions)
    ensures var w' := Acted(c, w, actions);
      w'.m.at == w.m.at && w'.phase == Blocked && w'.m.running == {}
    ensures Does(Main) !in actions
    decreases |actions|
  {
    if actions != [] {
      assert actions[0] == Does(RaiseBreak);
      StuckForGood(c, Act(c, w, actions[0]), actions[1..]);
      assert actions == [actions[0]] + actions[1..];
    }
  }

  /** While no pipe reports its end, neither time nor the break flag wakes a waiting main thread. */
  lemma {:induction false} NoExitNoWake(c: Config, w: Waiter, actions: seq<Action>)
    requires AtWait(w.m) && w.phase == Blocked && CanAct(c, w, actions)
    requires forall id :: Does(PipeExit(id)) !in actions
    ensures Acted(c, w, actions).m.at == w.m.at && Acted(c, w, actions).phase == Blocked
    ensures Does(Main) !in actions
    decreases |actions|
  {
    if actions != [] {
      assert actions == [actions[0]] + actions[1..];
      assert actions[0] == Does(RaiseBreak);
      NoExitNoWake(c, Act(c, w, actions[0]), actions[1..]);
    }
  }

  /** The first report of a pipe wakes it: at a wait every running pipe has its entry. */
  lemma ExitWakes(c: Config, w: Waiter, id: Id)
    requires Inv(c, w.m) && AtWait(w.m) && w.phase == Blocked && id in w.m.running
    ensures CanAct(c, w, [Does(PipeExit(id)), Does(Main)])
    ensures !AtWait(Acted(c, w, [Does(PipeExit(id)), Does(Main)]).m)
  {
    var actions := [Does(PipeExit(id)), Does(Main)];
    var w1 := Act(c, w, actions[0]);
    assert w1.phase == Woken && w1.m.at == w.m.at;
    assert actions[1..] == [Does(Main)] && [Does(Main)][1..] == [];
    assert CanAct(c, w1, [Does(Main)]) && Acted(c, w1, [Does(Main)]) == Act(c, w1, Does(Main));
  }

  /** Whether a wait can ever end, exactly: if and only if a pipe is still running when it begins. */
  lemma WakePossible(c: Config, w: Waiter)
    requires Inv(c, w.m) && AtWait(w.m) && w.phase == Blocked
    ensures (exists actions :: CanAct(c, w, actions) && Does(Main) in actions) <==> w.m.running != {}
  {
    hide CanAct, Inv;
    if w.m.running == {} {
      forall actions | CanAct(c, w, actions) ensures Does(Main) !in actions {
        StuckForGood(c, w, actions);
      }
    } else {
      var running := w.m.running;
      var id :| id in running;
      ExitWakes(c, w, id);
      assert Does(Main) in [Does(PipeExit(id)), Does(Main)];
    }
  }

  /** The lost wake-up: the last pipe reports its end between the size being read and the wait. */
  function LostWakeup(id: Id): seq<Action> {
    [Does(Connected(id)), Does(Main), Does(Main), Does(Main), Does(PipeExit(id)), BeginsWait]
  }

  /** With a single connection it does arise: the main thread then waits for good although no pipe is
      running and none is orphaned. */
  lemma LostWakeupArises(c: Config, id: Id)
    requires c.maxConns == 1
    ensures var start := Waiter(INITIAL, BeforeWait);
      var w := Acted(c, start, LostWakeup(id));
      && CanAct(c, start, LostWakeup(id))
      && w.m.at.InDrainWait? && w.phase == Blocked && w.m.running == {} && Orphans(w.m) == {}
      && forall actions :: CanAct(c, w, actions) ==> !Acted(c, w, actions).m.at.Done?
  {
    var start, all := Waiter(INITIAL, BeforeWait), LostWakeup(id);
    var m1 := Manager(NO_PIPES, {id}, 0, 1, 0, false, Position.Emplace(id));
    var m2 := Manager(Pipes({id}, {}), {id}, 1, 1, 0, false, CheckMax);
    var m3 := m2.(at := Drain);
    var m4 := m2.(at := InDrainWait);
    var m5 := Manager(Pipes({id}, {id}), {}, 1, 1, 1, false, InDrainWait);
    OneAct(c, start, all, Waiter(m1, BeforeWait));
    OneAct(c, Waiter(m1, BeforeWait), all[1..], Waiter(m2, BeforeWait));
    OneAct(c, Waiter(m2, BeforeWait), all[1..][1..], Waiter(m3, BeforeWait));
    OneAct(c, Waiter(m3, BeforeWait), all[1..][1..][1..], Waiter(m4, BeforeWait));
    OneAct(c, Waiter(m4, BeforeWait), all[1..][1..][1..][1..], Waiter(m5, BeforeWait));
    OneAct(c, Waiter(m5, BeforeWait), all[1..][1..][1..][1..][1..], Waiter(m5, Blocked));
    var w := Waiter(m5, Blocked);
    forall actions | CanAct(c, w, actions) ensures !Acted(c, w, actions).m.at.Done? {
      StuckForGood(c, w, actions);
    }
  }

  lemma OneAct(c: Config, w: Waiter, actions: seq<Action>, w': Waiter)
    requires actions != [] && Possible(w, actions[0]) && Act(c, w, actions[0]) == w'
    ensures CanAct(c, w, actions) <==> CanAct(c, w', actions[1..])
    ensures Acted(c, w, actions) == Acted(c, w', actions[1..])
  {
    hide Possible, Act;
  }
}
