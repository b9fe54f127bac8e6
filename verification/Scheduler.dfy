/** The task scheduler: a multimap ordered by time, filled by any thread and emptied by the timer
    thread, each under the lock. Tasks are known by the order in which they were added. */
module Scheduler {
  import opened Prelude

  datatype Entry = Entry(time: int, id: nat)

  /** A task that has been executed: when, and how many tasks had been added by then. */
  datatype Execution = Execution(time: int, id: nat, at: int, known: nat)

  datatype State = State(tasks: seq<Entry>, log: seq<Execution>, added: nat)

  const INITIAL := State([], [], 0)

  /** The first entry that is due after `t`. */
  function UpperBound(tasks: seq<Entry>, t: int): (u: nat)
    ensures u <= |tasks|
    ensures forall i :: 0 <= i < u ==> tasks[i].time <= t
    ensures u < |tasks| ==> tasks[u].time > t
  {
    if tasks == [] || tasks[0].time > t then 0 else 1 + UpperBound(tasks[1..], t)
  }

  /** Insertion behind all entries of the same time. */
  function Insert(tasks: seq<Entry>, e: Entry): seq<Entry> {
    var u := UpperBound(tasks, e.time);
    tasks[..u] + [e] + tasks[u..]
  }

  function Executions(entries: seq<Entry>, now: int, known: nat): (r: seq<Execution>)
    ensures |r| == |entries|
    ensures forall i :: 0 <= i < |r| ==> r[i] == Execution(entries[i].time, entries[i].id, now, known)
  {
    seq(|entries|, i requires 0 <= i < |entries| => Execution(entries[i].time, entries[i].id, now, known))
  }

  function Add(s: State, time: int): State {
    State(Insert(s.tasks, Entry(time, s.added)), s.log, s.added + 1)
  }

  /** One pass of the timer thread at time `now`. */
  function Pass(s: State, now: int): State {
    var u := UpperBound(s.tasks, now);
    State(s.tasks[u..], s.log + Executions(s.tasks[..u], now, s.added), s.added)
  }

  class TaskScheduler {
    var tasks: seq<Entry>
    var log: seq<Execution>
    var added: nat

    function View(): State
      reads this
    {
      State(tasks, log, added)
    }

    constructor ()
      ensures View() == INITIAL
    {
      tasks, log, added := [], [], 0;
    }

    /** Enters a task behind all those that are due no later, and changes nothing else. */
    method AddTask(time: int)
      modifies this
      ensures exists u :: InsertedAt(old(tasks), u, Entry(time, old(added)), tasks)
      ensures log == old(log) && added == old(added) + 1
      ensures View() == Add(old(View()), time)
    {
      ghost var u := UpperBound(tasks, time);
      InsertPosition(tasks, Entry(time, added));
      tasks := Insert(tasks, Entry(time, added));
      added := added + 1;
      assert InsertedAt(old(tasks), u, Entry(time, old(added)), tasks);
    }

    /** Executes every task that is due, in order, then removes them. */
    method ManageTasks(now: int)
      modifies this
      ensures View() == Pass(old(View()), now)
    {
      var end := UpperBound(tasks, now);
      if end != 0 {
        for i := 0 to end
          invariant tasks == old(tasks) && added == old(added)
          invariant log == old(log) + Executions(tasks[..i], now, added)
        {
          log := log + [Execution(tasks[i].time, tasks[i].id, now, added)];
          assert Executions(tasks[..i + 1], now, added)
              == Executions(tasks[..i], now, added) + [Execution(tasks[i].time, tasks[i].id, now, added)];
        }
        tasks := tasks[end..];
      }
    }
  }

  // ---------- runs

  datatype Event = Adds(time: int) | Passes(now: int)

  function Step(s: State, e: Event): State {
    match e
    case Adds(time) => Add(s, time)
    case Passes(now) => Pass(s, now)
  }

  function Run(events: seq<Event>): State {
    if events == [] then INITIAL else Step(Run(events[..|events| - 1]), events[|events| - 1])
  }

  /** Earlier time first; of the same time, the one added first. */
  predicate Before(time: int, id: nat, time': int, id': nat) {
    time < time' || (time == time' && id < id')
  }

  ghost predicate Sorted(tasks: seq<Entry>) {
    forall i, j :: 0 <= i < j < |tasks| ==> Before(tasks[i].time, tasks[i].id, tasks[j].time, tasks[j].id)
  }

  function Ids(tasks: seq<Entry>): (r: seq<nat>)
    ensures |r| == |tasks| && forall i :: 0 <= i < |r| ==> r[i] == tasks[i].id
  {
    seq(|tasks|, i requires 0 <= i < |tasks| => tasks[i].id)
  }

  function LogIds(log: seq<Execution>): (r: seq<nat>)
    ensures |r| == |log| && forall i :: 0 <= i < |r| ==> r[i] == log[i].id
  {
    seq(|log|, i requires 0 <= i < |log| => log[i].id)
  }

  /** Every task added is pending once or has been executed once, and not both; nothing else is. */
  ghost predicate ExactlyOnce(s: State) {
    forall k: nat :: (multiset(Ids(s.tasks)) + multiset(LogIds(s.log)))[k] == if k < s.added then 1 else 0
  }

  /** Nothing is executed early, and what was pending together is executed in order. */
  ghost predicate Ordered(s: State) {
    && (forall x :: x in s.log ==> x.time <= x.at && x.known <= s.added)
    && (forall i, j :: 0 <= i < j < |s.log| && s.log[j].id < s.log[i].known ==>
          Before(s.log[i].time, s.log[i].id, s.log[j].time, s.log[j].id))
    && (forall x, e :: x in s.log && e in s.tasks && e.id < x.known ==> Before(x.time, x.id, e.time, e.id))
  }

  ghost predicate Inv(s: State) {
    && Sorted(s.tasks)
    && (forall e :: e in s.tasks ==> e.id < s.added)
    && ExactlyOnce(s)
    && Ordered(s)
  }

  /** `after` is `before` with `e` at position `u`: nothing before it is due later, and in a sorted
      queue everything behind it is. */
  ghost predicate InsertedAt(before: seq<Entry>, u: int, e: Entry, after: seq<Entry>) {
    && 0 <= u <= |before|
    && after == before[..u] + [e] + before[u..]
    && (forall i :: 0 <= i < u ==> before[i].time <= e.time)
    && (Sorted(before) ==> forall i :: u <= i < |before| ==> before[i].time > e.time)
  }

  lemma InsertPosition(tasks: seq<Entry>, e: Entry)
    ensures InsertedAt(tasks, UpperBound(tasks, e.time), e, Insert(tasks, e))
  {
    hide UpperBound, Sorted;
    var u := UpperBound(tasks, e.time);
    if Sorted(tasks) {
      forall i | u <= i < |tasks| ensures tasks[i].time > e.time {
        LaterDue(tasks, e.time, i);
      }
    }
  }

  lemma IdsAppend(a: seq<Entry>, b: seq<Entry>)
    ensures Ids(a + b) == Ids(a) + Ids(b)
  {
  }

  lemma InsertIds(tasks: seq<Entry>, e: Entry)
    ensures multiset(Ids(Insert(tasks, e))) == multiset(Ids(tasks)) + multiset{e.id}
  {
    var u := UpperBound(tasks, e.time);
    var front, back := tasks[..u], tasks[u..];
    assert tasks == front + back;
    IdsAppend(front, back);
    IdsAppend(front + [e], back);
    IdsAppend(front, [e]);
    assert Ids([e]) == [e.id];
  }

  lemma InsertMembers(tasks: seq<Entry>, e: Entry)
    ensures forall x :: x in Insert(tasks, e) <==> x in tasks || x == e
  {
    var u := UpperBound(tasks, e.time);
    assert tasks == tasks[..u] + tasks[u..];
  }

  lemma InsertSorted(tasks: seq<Entry>, e: Entry)
    requires Sorted(tasks) && forall x :: x in tasks ==> x.id < e.id
    ensures Sorted(Insert(tasks, e))
  {
    hide Insert, Before;
    var r := Insert(tasks, e);
    forall i, j | 0 <= i < j < |r| ensures Before(r[i].time, r[i].id, r[j].time, r[j].id) {
      InsertPair(tasks, e, i, j);
    }
  }

  lemma InsertPair(tasks: seq<Entry>, e: Entry, i: nat, j: nat)
    requires Sorted(tasks) && (forall x :: x in tasks ==> x.id < e.id)
    requires i < j < |Insert(tasks, e)|
    ensures var r := Insert(tasks, e); Before(r[i].time, r[i].id, r[j].time, r[j].id)
  {
    var u := UpperBound(tasks, e.time);
    var r := Insert(tasks, e);
    if j == u {
      assert r[i] == tasks[i] && tasks[i] in tasks;
    } else if i == u {
      assert r[j] == tasks[j - 1];
    }
  }

  lemma AddOnce(s: State, time: int)
    requires ExactlyOnce(s)
    ensures ExactlyOnce(Add(s, time))
  {
    hide Insert;
    InsertIds(s.tasks, Entry(time, s.added));
    forall k: nat
      ensures (multiset(Ids(Add(s, time).tasks)) + multiset(LogIds(s.log)))[k] == if k < s.added + 1 then 1 else 0
    {
      assert (multiset(Ids(s.tasks)) + multiset(LogIds(s.log)))[k] == if k < s.added then 1 else 0;
    }
  }

  lemma AddKeeps(s: State, time: int)
    requires Inv(s)
    ensures Inv(Add(s, time))
  {
    hide ExactlyOnce, Sorted, Insert;
    InsertSorted(s.tasks, Entry(time, s.added));
    InsertMembers(s.tasks, Entry(time, s.added));
    AddOnce(s, time);
  }

  lemma SplitSorted(tasks: seq<Entry>, now: int)
    requires Sorted(tasks)
    ensures var u := UpperBound(tasks, now);
      && Sorted(tasks[u..])
      && (forall e :: e in tasks[..u] ==> e.time <= now)
      && (forall e :: e in tasks[u..] ==> e.time > now)
      && (forall d, e :: d in tasks[..u] && e in tasks[u..] ==> Before(d.time, d.id, e.time, e.id))
  {
    hide UpperBound, Sorted, Before;
    var u := UpperBound(tasks, now);
    SuffixSorted(tasks, u);
    forall e | e in tasks[u..] ensures e.time > now {
      var i :| u <= i < |tasks| && tasks[i] == e;
      LaterDue(tasks, now, i);
    }
    forall d, e | d in tasks[..u] && e in tasks[u..] ensures Before(d.time, d.id, e.time, e.id) {
      var i :| 0 <= i < u && tasks[i] == d;
      var j :| u <= j < |tasks| && tasks[j] == e;
      SortedPair(tasks, i, j);
    }
  }

  lemma SuffixSorted(tasks: seq<Entry>, u: nat)
    requires Sorted(tasks) && u <= |tasks|
    ensures Sorted(tasks[u..])
  {
  }

  lemma SortedPair(tasks: seq<Entry>, i: nat, j: nat)
    requires Sorted(tasks) && i < j < |tasks|
    ensures Before(tasks[i].time, tasks[i].id, tasks[j].time, tasks[j].id)
  {
  }

  lemma LaterDue(tasks: seq<Entry>, now: int, i: nat)
    requires Sorted(tasks) && UpperBound(tasks, now) <= i < |tasks|
    ensures tasks[i].time > now
  {
    var u := UpperBound(tasks, now);
    if u < i {
      SortedPair(tasks, u, i);
    }
  }

  lemma PassIds(s: State, now: int)
    ensures multiset(Ids(Pass(s, now).tasks)) + multiset(LogIds(Pass(s, now).log))
         == multiset(Ids(s.tasks)) + multiset(LogIds(s.log))
  {
    hide UpperBound, Executions, Ids, LogIds;
    var u := UpperBound(s.tasks, now);
    var due, rest := s.tasks[..u], s.tasks[u..];
    assert s.tasks == due + rest;
    IdsAppend(due, rest);
    ExecutedIds(s.log, due, now, s.added);
  }

  lemma ExecutedIds(log: seq<Execution>, due: seq<Entry>, now: int, known: nat)
    ensures LogIds(log + Executions(due, now, known)) == LogIds(log) + Ids(due)
  {
  }

  lemma PassOnce(s: State, now: int)
    requires ExactlyOnce(s)
    ensures ExactlyOnce(Pass(s, now))
  {
    PassIds(s, now);
    assert Pass(s, now).added == s.added;
    hide Pass, Ids, LogIds;
    var p := Pass(s, now);
    forall k: nat ensures (multiset(Ids(p.tasks)) + multiset(LogIds(p.log)))[k] == if k < p.added then 1 else 0 {
      assert (multiset(Ids(s.tasks)) + multiset(LogIds(s.log)))[k] == if k < s.added then 1 else 0;
    }
  }

  /** The executions of a pass keep the order of the entries. */
  lemma PassOrdered(s: State, now: int)
    requires Inv(s)
    ensures Ordered(Pass(s, now))
  {
    hide ExactlyOnce;
    var u := UpperBound(s.tasks, now);
    var due, rest := s.tasks[..u], s.tasks[u..];
    var ran := Executions(due, now, s.added);
    var log := s.log + ran;
    SplitSorted(s.tasks, now);
    forall x | x in log ensures x.time <= x.at && x.known <= s.added {
      if x !in s.log {
        FromDue(due, now, s.added, x);
      }
    }
    forall i, j | 0 <= i < j < |log| && log[j].id < log[i].known
      ensures Before(log[i].time, log[i].id, log[j].time, log[j].id)
    {
      LogPair(s, now, i, j);
    }
    forall x, e | x in log && e in rest && e.id < x.known ensures Before(x.time, x.id, e.time, e.id) {
      assert e in s.tasks;
      if x !in s.log {
        FromDue(due, now, s.added, x);
      }
    }
  }

  lemma FromDue(due: seq<Entry>, now: int, known: nat, x: Execution)
    requires x in Executions(due, now, known)
    ensures Entry(x.time, x.id) in due && x.at == now && x.known == known
  {
    var i :| 0 <= i < |due| && Executions(due, now, known)[i] == x;
    assert due[i] == Entry(x.time, x.id);
  }

  lemma LogPair(s: State, now: int, i: nat, j: nat)
    requires Inv(s) && i < j < |Pass(s, now).log|
    requires Pass(s, now).log[j].id < Pass(s, now).log[i].known
    ensures var log := Pass(s, now).log; Before(log[i].time, log[i].id, log[j].time, log[j].id)
  {
    hide ExactlyOnce;
    var u, n := UpperBound(s.tasks, now), |s.log|;
    var log := Pass(s, now).log;
    if i < n {
      assert log[i] == s.log[i] && log[i] in s.log;
      if j >= n {
        assert s.tasks[..u][j - n] == s.tasks[j - n] && s.tasks[j - n] in s.tasks;
      }
    } else {
      assert s.tasks[..u][i - n] == s.tasks[i - n] && s.tasks[..u][j - n] == s.tasks[j - n];
    }
  }

  /** After a pass nothing that is due is left. */
  lemma PassKeeps(s: State, now: int)
    requires Inv(s)
    ensures Inv(Pass(s, now))
    ensures forall e :: e in Pass(s, now).tasks ==> e.time > now
  {
    hide ExactlyOnce, Ordered, Sorted;
    SplitSorted(s.tasks, now);
    PassOnce(s, now);
    PassOrdered(s, now);
    assert forall e :: e in Pass(s, now).tasks ==> e in s.tasks;
  }

  /** Every run of additions and passes, in any interleaving, keeps all of this. */
  lemma {:induction false} RunKeeps(events: seq<Event>)
    ensures Inv(Run(events))
    decreases |events|
  {
    hide Sorted, ExactlyOnce, Ordered;
    if events == [] {
      NothingYet();
    } else {
      var n := |events| - 1;
      RunKeeps(events[..n]);
      match events[n]
      case Adds(time) => AddKeeps(Run(events[..n]), time);
      case Passes(now) => PassKeeps(Run(events[..n]), now);
    }
  }

  lemma NothingYet()
    ensures Inv(INITIAL)
  {
  }

  // ---------- each task by itself

  /** What becomes of task `k`, told without any queue: it waits from its addition until the first pass
      that is not before its time, which executes it. */
  datatype Fate = NotAdded | Pending(time: int) | Ran(time: int, at: int)

  function AddedIn(events: seq<Event>): nat {
    if events == [] then 0
    else AddedIn(events[..|events| - 1]) + if events[|events| - 1].Adds? then 1 else 0
  }

  function FateOf(events: seq<Event>, k: nat): Fate {
    if events == [] then NotAdded
    else
      var before := events[..|events| - 1];
      var fate := FateOf(before, k);
      match events[|events| - 1]
      case Adds(time) => if k == AddedIn(before) then Pending(time) else fate
      case Passes(now) => if fate.Pending? && fate.time <= now then Ran(fate.time, now) else fate
  }

  /** The state holds exactly one trace of each task, the one its fate tells. */
  ghost predicate Agrees(s: State, k: nat, fate: Fate) {
    match fate
    case NotAdded => k >= s.added
    case Pending(time) => k < s.added && Entry(time, k) in s.tasks
    case Ran(time, at) => k < s.added && exists x :: x in s.log && x.id == k && x.time == time && x.at == at
  }

  lemma AddAgrees(s: State, time: int, k: nat, fate: Fate)
    requires Inv(s) && Agrees(s, k, fate)
    ensures Agrees(Add(s, time), k, if k == s.added then Pending(time) else fate)
  {
    hide ExactlyOnce, Ordered, Sorted, Insert;
    InsertMembers(s.tasks, Entry(time, s.added));
    if fate.Ran? {
      var x :| x in s.log && x.id == k && x.time == fate.time && x.at == fate.at;
      assert x in Add(s, time).log;
    }
  }

  lemma PassAgrees(s: State, now: int, k: nat, fate: Fate)
    requires Inv(s) && Agrees(s, k, fate)
    ensures Agrees(Pass(s, now), k, if fate.Pending? && fate.time <= now then Ran(fate.time, now) else fate)
  {
    hide ExactlyOnce, Ordered, Sorted;
    match fate
    case NotAdded =>
    case Pending(time) => PassReaches(s, now, Entry(time, k));
    case Ran(time, at) =>
      var x :| x in s.log && x.id == k && x.time == time && x.at == at;
      assert x in Pass(s, now).log;
  }

  /** A pass executes the entries it reaches and keeps the others. */
  lemma PassReaches(s: State, now: int, e: Entry)
    requires Sorted(s.tasks) && e in s.tasks
    ensures e.time <= now ==> Execution(e.time, e.id, now, s.added) in Pass(s, now).log
    ensures e.time > now ==> e in Pass(s, now).tasks
  {
    var u := UpperBound(s.tasks, now);
    var i :| 0 <= i < |s.tasks| && s.tasks[i] == e;
    if i < u {
      assert Pass(s, now).log[|s.log| + i] == Execution(e.time, e.id, now, s.added);
    } else {
      assert s.tasks[u..][i - u] == e;
    }
  }

  lemma {:induction false} RunAgrees(events: seq<Event>, k: nat)
    ensures Run(events).added == AddedIn(events)
    ensures Agrees(Run(events), k, FateOf(events, k))
    decreases |events|
  {
    hide Inv, Agrees;
    if events == [] {
      assert Agrees(INITIAL, k, NotAdded) by { NoTask(k); }
    } else {
      var n := |events| - 1;
      RunKeeps(events[..n]);
      RunAgrees(events[..n], k);
      match events[n]
      case Adds(time) => AddAgrees(Run(events[..n]), time, k, FateOf(events[..n], k));
      case Passes(now) => PassAgrees(Run(events[..n]), now, k, FateOf(events[..n], k));
    }
  }

  lemma NoTask(k: nat)
    ensures Agrees(INITIAL, k, NotAdded)
  {
  }

  /** One place in the state per task. */
  lemma OnePlace(s: State, k: nat)
    requires ExactlyOnce(s)
    ensures forall e, e' :: e in s.tasks && e' in s.tasks && e.id == k && e'.id == k ==> e == e'
    ensures forall x, x' :: x in s.log && x' in s.log && x.id == k && x'.id == k ==> x == x'
    ensures (exists e :: e in s.tasks && e.id == k) && (exists x :: x in s.log && x.id == k) ==> false
    ensures (exists e :: e in s.tasks && e.id == k) || (exists x :: x in s.log && x.id == k) ==> k < s.added
  {
    var t, l := Ids(s.tasks), LogIds(s.log);
    assert (multiset(t) + multiset(l))[k] == multiset(t)[k] + multiset(l)[k];
    forall e, e' | e in s.tasks && e' in s.tasks && e.id == k && e'.id == k ensures e == e' {
      var i :| 0 <= i < |s.tasks| && s.tasks[i] == e;
      var j :| 0 <= j < |s.tasks| && s.tasks[j] == e';
      if i != j {
        Twice(t, k, Min(i, j), Max(i, j));
      }
    }
    forall x, x' | x in s.log && x' in s.log && x.id == k && x'.id == k ensures x == x' {
      var i :| 0 <= i < |s.log| && s.log[i] == x;
      var j :| 0 <= j < |s.log| && s.log[j] == x';
      if i != j {
        Twice(l, k, Min(i, j), Max(i, j));
      }
    }
    forall e | e in s.tasks && e.id == k ensures multiset(t)[k] > 0 {
      var i :| 0 <= i < |s.tasks| && s.tasks[i] == e;
      assert t[i] == k;
    }
    forall x | x in s.log && x.id == k ensures multiset(l)[k] > 0 {
      var i :| 0 <= i < |s.log| && s.log[i] == x;
      assert l[i] == k;
    }
  }

  lemma Twice(s: seq<nat>, k: nat, i: nat, j: nat)
    requires i < j < |s| && s[i] == k && s[j] == k
    ensures multiset(s)[k] >= 2
  {
    assert s == s[..j] + [k] + s[j + 1..];
    assert s[..j][i] == k;
    assert multiset(s[..j])[k] >= 1;
  }

  /** The scheduler as a whole, exactly: after every run, a task is pending if and only if it was added
      and no later pass reached its time, and it has been executed at time `at` if and only if the
      first pass that reached its time was at `at`. */
  lemma EveryTask(events: seq<Event>, k: nat, time: int, at: int)
    ensures Entry(time, k) in Run(events).tasks <==> FateOf(events, k) == Pending(time)
    ensures (exists x :: x in Run(events).log && x.id == k && x.time == time && x.at == at)
      <==> FateOf(events, k) == Ran(time, at)
  {
    hide Sorted, ExactlyOnce, Ordered, Run, FateOf;
    RunKeeps(events);
    RunAgrees(events, k);
    OnePlace(Run(events), k);
  }

  /** In every run: added tasks are executed or pending, each once; none is executed before its time;
      and of two tasks that were pending together the earlier, or the one added earlier, runs first. */
  lemma RunOrdered(events: seq<Event>, i: nat, j: nat)
    requires i < j < |Run(events).log|
    ensures var log := Run(events).log;
      && log[i].time <= log[i].at
      && log[i].id != log[j].id
      && (log[j].id < log[i].known ==> Before(log[i].time, log[i].id, log[j].time, log[j].id))
  {
    hide Run, Sorted, ExactlyOnce;
    RunKeeps(events);
    var s := Run(events);
    assert s.log[i] in s.log;
    LoggedOnce(s, i, j);
  }

  lemma LoggedOnce(s: State, i: nat, j: nat)
    requires ExactlyOnce(s) && i < j < |s.log|
    ensures s.log[i].id != s.log[j].id
  {
    var k, t, l := s.log[i].id, Ids(s.tasks), LogIds(s.log);
    assert (multiset(t) + multiset(l))[k] == multiset(t)[k] + multiset(l)[k] <= 1;
    if l[j] == k {
      Twice(l, k, i, j);
    }
  }
}
