/** What the sender does, and what becomes of it for any answers of the socket and any break. */
module SendPlan {
  import opened Prelude
  import opened Runtime
  import opened Framing

  /** A file to transmit: the name it is announced under, and its contents if it can be opened. */
  datatype Upload = Upload(name: Bytes, file: Option<Source>)

  predicate Fits(u: Upload, size: nat) {
    |CStr(u.name)| + 2 < size
  }

  /** Every message of a list of uploads, in order; a file that cannot be opened has none. */
  function AllSegments(uploads: seq<Upload>, size: nat): seq<Bytes>
    requires forall u :: u in uploads ==> Fits(u, size)
  {
    if uploads == [] then []
    else UploadSegments(uploads[0], size) + AllSegments(uploads[1..], size)
  }

  function UploadSegments(u: Upload, size: nat): seq<Bytes>
    requires Fits(u, size)
  {
    match u.file
    case None => []
    case Some(src) => FileSegments(u.name, src, size)
  }

  predicate Readable(u: Upload) {
    u.file.Some? && !u.file.value.faulty
  }

  // ---------- the surroundings

  /** How a write ends: it returns a number, 0 asking to try again, or it raises an exception. */
  datatype Answer = Returns(st: int) | Raises

  /** How a transmission ends: at its end, at a raised break flag, with an error, with an exception. */
  datatype End = Done | Broken | Failed | Raised

  /** Offering a message of `len` bytes until there is an answer other than 0: how that ends, and the
      answers that remain. Once the answers run out every message is taken. */
  function Answered(answers: seq<Answer>, len: nat): (r: (End, seq<Answer>))
    ensures r.0 != Broken && |r.1| <= |answers|
    decreases |answers|
  {
    if answers == [] then (Done, [])
    else if answers[0] == Returns(0) then Answered(answers[1..], len)
    else (if answers[0] == Raises then Raised else if answers[0] == Returns(len) then Done else Failed, answers[1..])
  }

  // ---------- plans

  /** One step of the sender: it looks at the break flag, delivers a message, or gives up. */
  datatype Step = Check | Offer(msg: Bytes) | GiveUp

  /** The steps for one file. A read that fills its segment is followed by another one; a short one
      ends the file, or gives up if that was an error. */
  function FilePlan(hdr: Bytes, src: Source, size: nat): seq<Step>
    requires |hdr| + 1 < size
    decreases |src.data|
  {
    var rest := if Taken(hdr, src, size) == size - 1 - |hdr| then FilePlan([], Rest(hdr, src, size), size)
                else if src.faulty then [GiveUp] else [];
    [Check] + (if src.data == [] then rest else [Offer(NextMessage(hdr, src, size))] + rest)
  }

  function UploadPlan(u: Upload, size: nat): seq<Step>
    requires Fits(u, size)
  {
    match u.file
    case None => [GiveUp]
    case Some(src) => FilePlan(NameHeader(u.name), src, size)
  }

  /** The steps for a list of uploads: behind each of them the break flag is looked at once more. */
  function Plan(uploads: seq<Upload>, size: nat): seq<Step>
    requires forall u :: u in uploads ==> Fits(u, size)
  {
    if uploads == [] then []
    else UploadPlan(uploads[0], size) + [Check] + Plan(uploads[1..], size)
  }

  /** What is sent, how it ends, and what is left of the answers and the quiet reads. */
  datatype Outcome = Outcome(sent: seq<Bytes>, end: End, answers: seq<Answer>, quietReads: Option<nat>)

  function Behind(sent: seq<Bytes>, o: Outcome): Outcome {
    o.(sent := sent + o.sent)
  }

  function Execute(plan: seq<Step>, answers: seq<Answer>, quietReads: Option<nat>): Outcome
    decreases |plan|
  {
    if plan == [] then Outcome([], Done, answers, quietReads)
    else
      match plan[0]
      case GiveUp => Outcome([], Failed, answers, quietReads)
      case Check =>
        if quietReads == Some(0) then Outcome([], Broken, answers, quietReads)
        else Execute(plan[1..], answers, OneReadLess(quietReads))
      case Offer(msg) =>
        var (end, rest) := Answered(answers, |msg|);
        if end == Done then Behind([msg], Execute(plan[1..], rest, quietReads))
        else Outcome([], end, rest, quietReads)
  }

  lemma BehindTwice(a: seq<Bytes>, b: seq<Bytes>, o: Outcome)
    ensures Behind(a, Behind(b, o)) == Behind(a + b, o)
    ensures Behind([], o) == o
  {
    assert a + (b + o.sent) == (a + b) + o.sent;
  }

  /** One plan after the other. */
  lemma {:induction false} ExecuteAppend(a: seq<Step>, b: seq<Step>, answers: seq<Answer>, quietReads: Option<nat>)
    ensures var o := Execute(a, answers, quietReads);
      Execute(a + b, answers, quietReads) == if o.end == Done then Behind(o.sent, Execute(b, o.answers, o.quietReads)) else o
    decreases |a|
  {
    hide Answered;
    if a == [] {
      assert a + b == b;
      BehindTwice([], [], Execute(b, answers, quietReads));
    } else {
      assert (a + b)[1..] == a[1..] + b;
      if a[0] == Check {
        if quietReads != Some(0) {
          ExecuteAppend(a[1..], b, answers, OneReadLess(quietReads));
        }
      } else if a[0].Offer? {
        var (end, rest) := Answered(answers, |a[0].msg|);
        if end == Done {
          ExecuteAppend(a[1..], b, rest, quietReads);
          var o := Execute(a[1..], rest, quietReads);
          BehindTwice([a[0].msg], o.sent, Execute(b, o.answers, o.quietReads));
        }
      }
    }
  }

  /** A plan that was broken off leaves the flag raised. */
  lemma {:induction false} BrokenStays(plan: seq<Step>, answers: seq<Answer>, quietReads: Option<nat>)
    ensures Execute(plan, answers, quietReads).end == Broken ==> Execute(plan, answers, quietReads).quietReads == Some(0)
    decreases |plan|
  {
    if plan != [] {
      if plan[0] == Check {
        if quietReads != Some(0) {
          BrokenStays(plan[1..], answers, OneReadLess(quietReads));
        }
      } else if plan[0].Offer? {
        BrokenStays(plan[1..], Answered(answers, |plan[0].msg|).1, quietReads);
      }
    }
  }

  // ---------- what gets through

  /** The messages of a plan, up to where it gives up. */
  function Messages(plan: seq<Step>): seq<Bytes> {
    if plan == [] || plan[0] == GiveUp then []
    else if plan[0] == Check then Messages(plan[1..])
    else [plan[0].msg] + Messages(plan[1..])
  }

  /** How many messages of a stream the socket takes before it fails. */
  function Through(answers: seq<Answer>, stream: seq<Bytes>): (n: nat)
    ensures n <= |stream|
    decreases |stream|
  {
    if stream == [] then 0
    else
      var (end, rest) := Answered(answers, |stream[0]|);
      if end == Done then 1 + Through(rest, stream[1..]) else 0
  }

  /** How many messages of a plan come before the first look that finds the flag raised. */
  function Allowed(plan: seq<Step>, quietReads: Option<nat>): nat
    decreases |plan|
  {
    if plan == [] || plan[0] == GiveUp || (plan[0] == Check && quietReads == Some(0)) then 0
    else if plan[0] == Check then Allowed(plan[1..], OneReadLess(quietReads))
    else 1 + Allowed(plan[1..], quietReads)
  }

  function Checks(plan: seq<Step>): nat {
    if plan == [] then 0 else (if plan[0] == Check then 1 else 0) + Checks(plan[1..])
  }

  /** The flag is not raised for that many looks. */
  predicate QuietFor(quietReads: Option<nat>, looks: nat) {
    quietReads.Some? ==> looks <= quietReads.value
  }

  /** What is sent are the plan's messages up to the first that the socket does not take or that a
      raised flag keeps back, whichever comes first. */
  lemma {:induction false} ExecuteSends(plan: seq<Step>, answers: seq<Answer>, quietReads: Option<nat>)
    ensures var msgs := Messages(plan);
      && Allowed(plan, quietReads) <= |msgs|
      && Execute(plan, answers, quietReads).sent == msgs[..Min(Through(answers, msgs), Allowed(plan, quietReads))]
    decreases |plan|
  {
    hide Answered;
    if plan != [] {
      if plan[0] == Check {
        ExecuteSends(plan[1..], answers, OneReadLess(quietReads));
      } else if plan[0].Offer? {
        ExecuteSends(plan[1..], Answered(answers, |plan[0].msg|).1, quietReads);
        assert Messages(plan)[1..] == Messages(plan[1..]);
      }
    }
  }

  /** A plan is done exactly if it never gives up, the socket takes all its messages, and the flag
      stays lowered for all its looks. */
  lemma {:induction false} ExecuteDone(plan: seq<Step>, answers: seq<Answer>, quietReads: Option<nat>)
    ensures Execute(plan, answers, quietReads).end == Done
       <==> GiveUp !in plan && Through(answers, Messages(plan)) == |Messages(plan)| && QuietFor(quietReads, Checks(plan))
    decreases |plan|
  {
    hide Answered;
    if plan != [] {
      assert plan == [plan[0]] + plan[1..];
      if plan[0] == Check {
        ExecuteDone(plan[1..], answers, OneReadLess(quietReads));
      } else if plan[0].Offer? {
        ExecuteDone(plan[1..], Answered(answers, |plan[0].msg|).1, quietReads);
        assert Messages(plan)[1..] == Messages(plan[1..]);
      }
    }
  }

  /** The answers other than 0, which are the ones that decide. */
  function Heard(answers: seq<Answer>): seq<Answer> {
    if answers == [] then []
    else if answers[0] == Returns(0) then Heard(answers[1..])
    else [answers[0]] + Heard(answers[1..])
  }

  /** Each of the first `n` messages is taken: the decisive answer to it, if there is one, is its length. */
  predicate Accepts(answers: seq<Answer>, stream: seq<Bytes>, n: nat)
    requires n <= |stream|
  {
    forall i :: 0 <= i < n && i < |Heard(answers)| ==> Heard(answers)[i] == Returns(|stream[i]|)
  }

  lemma {:induction false} AnsweredHeard(answers: seq<Answer>, len: nat)
    requires len > 0
    ensures var (end, rest) := Answered(answers, len);
      var heard := Heard(answers);
      && Heard(rest) == (if heard == [] then [] else heard[1..])
      && (end == Done <==> heard == [] || heard[0] == Returns(len))
      && (end == Raised <==> heard != [] && heard[0] == Raises)
    decreases |answers|
  {
    if answers != [] && answers[0] == Returns(0) {
      AnsweredHeard(answers[1..], len);
    }
  }

  /** The socket takes messages up to the first one whose decisive answer is not its length. */
  lemma {:induction false} ThroughExactly(answers: seq<Answer>, stream: seq<Bytes>, n: nat)
    requires n <= |stream| && forall m :: m in stream ==> |m| > 0
    ensures n == Through(answers, stream)
       <==> Accepts(answers, stream, n) && (n < |stream| ==> !Accepts(answers, stream, n + 1))
    decreases |stream|
  {
    hide Answered, Heard;
    if stream != [] {
      var (end, rest) := Answered(answers, |stream[0]|);
      AnsweredHeard(answers, |stream[0]|);
      if n > 0 {
        ThroughExactly(rest, stream[1..], n - 1);
        AcceptsStep(answers, rest, stream, n);
        if n < |stream| {
          AcceptsStep(answers, rest, stream, n + 1);
        }
      } else {
        AcceptsStep(answers, rest, stream, 1);
      }
    }
  }

  lemma AcceptsStep(answers: seq<Answer>, rest: seq<Answer>, stream: seq<Bytes>, n: nat)
    requires 0 < n <= |stream|
    requires Heard(rest) == if Heard(answers) == [] then [] else Heard(answers)[1..]
    ensures Accepts(answers, stream, n)
       <==> (Heard(answers) == [] || Heard(answers)[0] == Returns(|stream[0]|)) && Accepts(rest, stream[1..], n - 1)
  {
    hide Heard;
    var heard := Heard(answers);
    if Accepts(answers, stream, n) {
      forall i | 0 <= i < n - 1 && i < |Heard(rest)| ensures Heard(rest)[i] == Returns(|stream[1..][i]|) {
        assert heard[i + 1] == Returns(|stream[i + 1]|);
      }
    } else {
      var i :| 0 <= i < n && i < |heard| && heard[i] != Returns(|stream[i]|);
      if i > 0 {
        assert Heard(rest)[i - 1] != Returns(|stream[1..][i - 1]|);
      }
    }
  }

  /** How often a plan looks at the flag before it gives up, or ends. */
  function LooksToEnd(plan: seq<Step>): nat {
    if plan == [] || plan[0] == GiveUp then 0 else (if plan[0] == Check then 1 else 0) + LooksToEnd(plan[1..])
  }

  /** How a plan ends, exactly: as the decisive answer says when the socket does not take a message that
      the flag allows; otherwise broken off when the flag is raised before the last look; otherwise
      regularly, or with an error where the plan gives up. */
  lemma {:induction false} ExecuteEnds(plan: seq<Step>, answers: seq<Answer>, quietReads: Option<nat>)
    requires forall m :: m in Messages(plan) ==> |m| > 0
    ensures var msgs := Messages(plan);
      var taken := Through(answers, msgs);
      && (taken < Allowed(plan, quietReads) ==> taken < |Heard(answers)|)
      && Execute(plan, answers, quietReads).end
         == if taken < Allowed(plan, quietReads) then (if Heard(answers)[taken] == Raises then Raised else Failed)
            else if !QuietFor(quietReads, LooksToEnd(plan)) then Broken
            else if GiveUp in plan then Failed
            else Done
    decreases |plan|
  {
    hide Answered, Heard;
    if plan != [] && plan[0] != GiveUp {
      assert plan == [plan[0]] + plan[1..];
      if plan[0] == Check {
        if quietReads != Some(0) {
          ExecuteEnds(plan[1..], answers, OneReadLess(quietReads));
        }
      } else {
        var msg := plan[0].msg;
        assert msg in Messages(plan) && Messages(plan)[1..] == Messages(plan[1..]);
        AnsweredHeard(answers, |msg|);
        ExecuteEnds(plan[1..], Answered(answers, |msg|).1, quietReads);
      }
    }
  }

  // ---------- the plan of a file

  /** What a plan amounts to: its messages, how many of them a flag allows, its looks at the flag, and
      whether it gives up. */
  ghost predicate Amounts(plan: seq<Step>, quietReads: Option<nat>, msgs: seq<Bytes>, looks: nat, givesUp: bool) {
    && Messages(plan) == msgs
    && Allowed(plan, quietReads) == (if quietReads == None then |msgs| else Min(quietReads.value, |msgs|))
    && Checks(plan) == looks
    && (GiveUp in plan <==> givesUp)
  }

  /** How often the plan of a file with these segments looks at the flag. */
  function FileLooks(segs: seq<Bytes>, size: nat): nat {
    |segs| + if segs == [] || |segs[|segs| - 1]| == size then 1 else 0
  }

  /** The plan of a file delivers its segments, looks at the flag before each of them, and once more
      behind them when the last one is full, or there is none; it gives up exactly at a read error. */
  lemma {:induction false} FilePlanExactly(hdr: Bytes, src: Source, size: nat, quietReads: Option<nat>)
    requires |hdr| + 1 < size
    ensures var segs := Segments(hdr, src, size);
      Amounts(FilePlan(hdr, src, size), quietReads, segs, FileLooks(segs, size), src.faulty)
    decreases |src.data|
  {
    hide NextMessage, Amounts, FileLooks;
    var msg, rest := NextMessage(hdr, src, size), Rest(hdr, src, size);
    MessageLength(hdr, src, size);
    if Taken(hdr, src, size) == size - 1 - |hdr| {
      FilePlanExactly([], rest, size, OneReadLess(quietReads));
      var more := Segments([], rest, size);
      OneMore(msg, FilePlan([], rest, size), quietReads, more, FileLooks(more, size), src.faulty);
      assert FilePlan(hdr, src, size) == [Check, Offer(msg)] + FilePlan([], rest, size);
      LooksStep(msg, more, size);
    } else {
      var planRest := if src.faulty then [GiveUp] else [];
      EmptyPlan(OneReadLess(quietReads));
      if src.data != [] {
        OneMore(msg, planRest, quietReads, [], 0, src.faulty);
        assert FilePlan(hdr, src, size) == [Check, Offer(msg)] + planRest;
        LooksStep(msg, [], size);
      } else {
        OnlyCheck(planRest, quietReads, src.faulty, size);
      }
    }
  }

  lemma OneMore(msg: Bytes, rest: seq<Step>, quietReads: Option<nat>, msgs: seq<Bytes>, looks: nat, givesUp: bool)
    requires Amounts(rest, OneReadLess(quietReads), msgs, looks, givesUp)
    ensures Amounts([Check, Offer(msg)] + rest, quietReads, [msg] + msgs, looks + 1, givesUp)
  {
    hide Messages, Allowed, Checks;
    PlanStep(msg, rest, quietReads);
  }

  lemma OnlyCheck(rest: seq<Step>, quietReads: Option<nat>, givesUp: bool, size: nat)
    requires Amounts(rest, OneReadLess(quietReads), [], 0, givesUp)
    ensures Amounts([Check] + rest, quietReads, [], FileLooks([], size), givesUp)
  {
    hide Messages, Allowed, Checks;
    PlanCheck(rest, quietReads);
  }

  lemma LooksStep(msg: Bytes, more: seq<Bytes>, size: nat)
    requires |msg| <= size
    ensures FileLooks([msg] + more, size) == 1 + if more == [] && |msg| < size then 0 else FileLooks(more, size)
  {
    LastOf(msg, more);
  }

  lemma LastOf(msg: Bytes, more: seq<Bytes>)
    ensures var segs := [msg] + more; segs[|segs| - 1] == if more == [] then msg else more[|more| - 1]
  {
  }

  lemma PlanCheck(rest: seq<Step>, quietReads: Option<nat>)
    ensures var plan := [Check] + rest;
      && Messages(plan) == Messages(rest)
      && Allowed(plan, quietReads) == (if quietReads == Some(0) then 0 else Allowed(rest, OneReadLess(quietReads)))
      && Checks(plan) == 1 + Checks(rest)
  {
    assert ([Check] + rest)[1..] == rest;
  }

  lemma PlanOffer(msg: Bytes, rest: seq<Step>, quietReads: Option<nat>)
    ensures var plan := [Offer(msg)] + rest;
      && Messages(plan) == [msg] + Messages(rest)
      && Allowed(plan, quietReads) == 1 + Allowed(rest, quietReads)
      && Checks(plan) == Checks(rest)
  {
    assert ([Offer(msg)] + rest)[1..] == rest;
  }

  lemma PlanStep(msg: Bytes, rest: seq<Step>, quietReads: Option<nat>)
    ensures var plan := [Check, Offer(msg)] + rest;
      && Messages(plan) == [msg] + Messages(rest)
      && Allowed(plan, quietReads) == (if quietReads == Some(0) then 0 else 1 + Allowed(rest, OneReadLess(quietReads)))
      && Checks(plan) == 1 + Checks(rest)
  {
    hide Messages, Allowed, Checks;
    assert [Check, Offer(msg)] + rest == [Check] + ([Offer(msg)] + rest);
    PlanCheck([Offer(msg)] + rest, quietReads);
    PlanOffer(msg, rest, OneReadLess(quietReads));
  }

  // ---------- the plan of a list of uploads

  lemma {:induction false} MessagesAppend(a: seq<Step>, b: seq<Step>)
    ensures Checks(a + b) == Checks(a) + Checks(b)
    ensures Messages(a + b) == Messages(a) + if GiveUp in a then [] else Messages(b)
    decreases |a|
  {
    if a == [] {
      assert a + b == b;
    } else {
      assert (a + b)[1..] == a[1..] + b && a == [a[0]] + a[1..];
      MessagesAppend(a[1..], b);
    }
  }

  /** The first upload that cannot be opened or read to its end, or the number of uploads. */
  function FirstUnreadable(uploads: seq<Upload>): (k: nat)
    ensures k <= |uploads|
    ensures forall i :: 0 <= i < k ==> Readable(uploads[i])
    ensures k < |uploads| ==> !Readable(uploads[k])
  {
    if uploads == [] || !Readable(uploads[0]) then 0 else 1 + FirstUnreadable(uploads[1..])
  }

  /** The plan of a list delivers the messages of the uploads up to and including the first that cannot
      be opened or read to its end, where it gives up. If there is none, it delivers the whole stream
      and looks at the flag once for each message, and once or twice more for each file. */
  lemma {:induction false} PlanExactly(uploads: seq<Upload>, size: nat)
    requires forall u :: u in uploads ==> Fits(u, size)
    ensures var plan, stream := Plan(uploads, size), AllSegments(uploads, size);
      && Messages(plan) == AllSegments(uploads[..Min(FirstUnreadable(uploads) + 1, |uploads|)], size)
      && Messages(plan) <= stream
      && (GiveUp !in plan <==> FirstUnreadable(uploads) == |uploads|)
      && (GiveUp !in plan ==> Messages(plan) == stream && |stream| + |uploads| <= Checks(plan) <= |stream| + 2 * |uploads|)
    decreases |uploads|
  {
    hide FilePlan, Messages, Checks, UploadSegments, Readable;
    if uploads == [] {
      EmptyPlan(None);
    } else {
      var u, rest := uploads[0], uploads[1..];
      var mine, more := UploadPlan(u, size), Plan(rest, size);
      UploadPlanExactly(u, size);
      PlanExactly(rest, size);
      assert mine + [Check] + more == mine + ([Check] + more);
      MessagesAppend(mine, [Check] + more);
      PlanCheck(more, None);
      SegmentsUpTo(uploads, size, Min(FirstUnreadable(uploads) + 1, |uploads|));
    }
  }

  lemma SegmentsUpTo(uploads: seq<Upload>, size: nat, n: nat)
    requires forall u :: u in uploads ==> Fits(u, size)
    requires 0 < n <= |uploads|
    ensures AllSegments(uploads[..n], size) == UploadSegments(uploads[0], size) + AllSegments(uploads[1..][..n - 1], size)
    ensures n == 1 ==> AllSegments(uploads[..n], size) == UploadSegments(uploads[0], size)
  {
    hide UploadSegments;
    assert uploads[..n][1..] == uploads[1..][..n - 1] && uploads[..n][0] == uploads[0];
  }

  /** How often the plan of a list of readable uploads looks at the flag. */
  function ListLooks(uploads: seq<Upload>, size: nat): nat
    requires forall u :: u in uploads ==> Fits(u, size)
  {
    if uploads == [] then 0
    else FileLooks(UploadSegments(uploads[0], size), size) + 1 + ListLooks(uploads[1..], size)
  }

  /** How many messages a flag allows of one plan after the other. */
  lemma {:induction false} AllowedAppend(a: seq<Step>, b: seq<Step>, n: nat)
    ensures Allowed(a + b, Some(n))
         == if GiveUp !in a && Checks(a) <= n then |Messages(a)| + Allowed(b, Some(n - Checks(a))) else Allowed(a, Some(n))
    decreases |a|
  {
    if a == [] {
      assert a + b == b;
    } else {
      assert (a + b)[1..] == a[1..] + b && a == [a[0]] + a[1..];
      if a[0] == Check {
        if n > 0 {
          AllowedAppend(a[1..], b, n - 1);
        }
      } else {
        AllowedAppend(a[1..], b, n);
      }
    }
  }

  /** Which messages of a list a flag keeps back, exactly: message `b` of upload `a` is allowed if and
      only if the flag stays lowered for the looks of the uploads before it, those before the messages of
      its own upload, and the one before itself. */
  lemma {:induction false} AllowedExactly(uploads: seq<Upload>, size: nat, n: nat, a: nat, b: nat)
    requires forall u :: u in uploads ==> Fits(u, size)
    requires a < |uploads| && a <= FirstUnreadable(uploads) && b < |UploadSegments(uploads[a], size)|
    ensures |AllSegments(uploads[..a], size)| + b < Allowed(Plan(uploads, size), Some(n))
       <==> ListLooks(uploads[..a], size) + b < n
    decreases a
  {
    hide FilePlan, Messages, Checks, Allowed, UploadSegments, Readable, FileLooks;
    var u, rest := uploads[0], uploads[1..];
    var mine, more, segs := UploadPlan(u, size), Plan(rest, size), UploadSegments(u, size);
    assert mine + [Check] + more == mine + ([Check] + more);
    AllowedAppend(mine, [Check] + more, n);
    UploadAllowed(u, size, n);
    if a > 0 {
      LooksUpTo(uploads, size, a);
      SegmentsUpTo(uploads, size, a);
      var c := FileLooks(segs, size);
      if c < n {
        PlanCheck(more, Some(n - c));
        AllowedExactly(rest, size, n - c - 1, a - 1, b);
      } else if c == n {
        PlanCheck(more, Some(0));
      }
    }
  }

  lemma LooksUpTo(uploads: seq<Upload>, size: nat, n: nat)
    requires forall u :: u in uploads ==> Fits(u, size)
    requires 0 < n <= |uploads|
    ensures ListLooks(uploads[..n], size)
         == FileLooks(UploadSegments(uploads[0], size), size) + 1 + ListLooks(uploads[1..][..n - 1], size)
  {
    hide UploadSegments, FileLooks;
    assert uploads[..n][1..] == uploads[1..][..n - 1] && uploads[..n][0] == uploads[0];
  }

  lemma UploadAllowed(u: Upload, size: nat, n: nat)
    requires Fits(u, size)
    ensures var plan, segs := UploadPlan(u, size), UploadSegments(u, size);
      && Messages(plan) == segs
      && Allowed(plan, Some(n)) == Min(n, |segs|)
      && (u.file.Some? ==> Checks(plan) == FileLooks(segs, size))
      && FileLooks(segs, size) >= |segs|
      && (GiveUp !in plan <==> Readable(u))
  {
    hide FilePlan, Segments;
    if u.file.Some? {
      FilePlanExactly(NameHeader(u.name), u.file.value, size, Some(n));
    }
  }

  lemma EmptyPlan(quietReads: Option<nat>)
    ensures Amounts([], quietReads, [], 0, false) && Amounts([GiveUp], quietReads, [], 0, true)
  {
  }

  lemma UploadPlanExactly(u: Upload, size: nat)
    requires Fits(u, size)
    ensures var plan, segs := UploadPlan(u, size), UploadSegments(u, size);
      && Messages(plan) == segs && |segs| <= Checks(plan) + (if u.file == None then 1 else 0)
      && Checks(plan) <= |segs| + 1
      && (GiveUp !in plan <==> Readable(u))
  {
    hide FilePlan, Segments;
    if u.file.Some? {
      FilePlanExactly(NameHeader(u.name), u.file.value, size, None);
    }
  }

  /** The messages that reach the socket. */
  function Sent(uploads: seq<Upload>, size: nat, answers: seq<Answer>, quietReads: Option<nat>): seq<Bytes>
    requires forall u :: u in uploads ==> Fits(u, size)
  {
    Execute(Plan(uploads, size), answers, quietReads).sent
  }

  /** Nothing disturbs a transmission: every file can be opened and read, the socket accepts every
      message, and the flag stays lowered for as many reads as there are. */
  predicate Undisturbed(uploads: seq<Upload>, size: nat, answers: seq<Answer>, quietReads: Option<nat>)
    requires forall u :: u in uploads ==> Fits(u, size)
  {
    && (forall u :: u in uploads ==> Readable(u))
    && Accepts(answers, AllSegments(uploads, size), |AllSegments(uploads, size)|)
    && QuietFor(quietReads, Checks(Plan(uploads, size)))
  }

  /** Whatever is sent is an initial part of the message stream, and the transmission comes to its
      regular end if and only if it is undisturbed; then all of it is sent. */
  lemma SentExactly(uploads: seq<Upload>, size: nat, answers: seq<Answer>, quietReads: Option<nat>)
    requires forall u :: u in uploads ==> Fits(u, size)
    ensures Sent(uploads, size, answers, quietReads) <= AllSegments(uploads, size)
    ensures Execute(Plan(uploads, size), answers, quietReads).end == Done <==> Undisturbed(uploads, size, answers, quietReads)
    ensures Undisturbed(uploads, size, answers, quietReads) ==>
      Sent(uploads, size, answers, quietReads) == AllSegments(uploads, size)
  {
    hide Plan, AllSegments, Messages, Allowed, Accepts, Execute, Checks, Through, Readable;
    var plan, stream := Plan(uploads, size), AllSegments(uploads, size);
    PlanExactly(uploads, size);
    ExecuteSends(plan, answers, quietReads);
    ExecuteDone(plan, answers, quietReads);
    NoEmptyMessage(uploads, size);
    AllReadable(uploads);
    ThroughExactly(answers, stream, |stream|);
    if Undisturbed(uploads, size, answers, quietReads) {
      DoneAllowed(plan, quietReads);
    }
  }

  lemma AllReadable(uploads: seq<Upload>)
    ensures FirstUnreadable(uploads) == |uploads| <==> forall u :: u in uploads ==> Readable(u)
  {
    hide Readable;
    if FirstUnreadable(uploads) < |uploads| {
      assert uploads[FirstUnreadable(uploads)] in uploads;
    }
  }

  lemma {:induction false} DoneAllowed(plan: seq<Step>, quietReads: Option<nat>)
    requires QuietFor(quietReads, Checks(plan))
    ensures Allowed(plan, quietReads) == |Messages(plan)|
    decreases |plan|
  {
    if plan != [] && plan[0] != GiveUp {
      DoneAllowed(plan[1..], if plan[0] == Check then OneReadLess(quietReads) else quietReads);
    }
  }

  lemma {:induction false} NoEmptyMessage(uploads: seq<Upload>, size: nat)
    requires forall u :: u in uploads ==> Fits(u, size)
    ensures forall m :: m in AllSegments(uploads, size) ==> |m| > 0
    decreases |uploads|
  {
    hide UploadSegments;
    if uploads != [] {
      NoEmptySegment(uploads[0], size);
      NoEmptyMessage(uploads[1..], size);
    }
  }

  lemma NoEmptySegment(u: Upload, size: nat)
    requires Fits(u, size)
    ensures forall m :: m in UploadSegments(u, size) ==> |m| > 0
  {
    hide Segments;
    var segs := UploadSegments(u, size);
    forall i | 0 <= i < |segs| ensures |segs[i]| > 0 {
      SegmentFraming(NameHeader(u.name), u.file.value, size, i);
    }
  }

  /** A socket that takes everything, at once or after asking to try again, and a flag that nobody
      raises do not disturb. */
  lemma Cooperative(uploads: seq<Upload>, size: nat, answers: seq<Answer>)
    requires forall u :: u in uploads ==> Fits(u, size) && Readable(u)
    requires forall a :: a in answers ==> a == Returns(0)
    ensures Undisturbed(uploads, size, answers, None)
  {
    OnlyBusy(answers);
  }

  lemma {:induction false} OnlyBusy(answers: seq<Answer>)
    requires forall a :: a in answers ==> a == Returns(0)
    ensures Heard(answers) == []
  {
    if answers != [] {
      assert answers[0] in answers && forall a :: a in answers[1..] ==> a in answers;
      OnlyBusy(answers[1..]);
    }
  }
}
