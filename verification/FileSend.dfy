/** The sending side: one buffer, reused in place for every segment of every file. */
module FileSend {
  import opened Prelude
  import opened Framing
  import opened Runtime
  import opened SendPlan

  /** A message socket: the messages it has taken whole, and how its coming writes will end (with
      full delivery once the list runs out). */
  class MessageSocket {
    var sent: seq<Bytes>
    var answers: seq<Answer>

    constructor (answers: seq<Answer>)
      ensures sent == [] && this.answers == answers
    {
      sent, this.answers := [], answers;
    }

    /** Takes the message exactly if it reports the whole length, and nothing otherwise. */
    method Write(msg: Bytes) returns (answer: Answer)
      modifies this
      ensures answer == if old(answers) == [] then Returns(|msg|) else old(answers)[0]
      ensures answers == if old(answers) == [] then [] else old(answers)[1..]
      ensures answer == Returns(|msg|) ==> sent == old(sent) + [msg]
      ensures answer != Returns(|msg|) ==> sent == old(sent)
    {
      answer := if answers == [] then Returns(|msg|) else answers[0];
      answers := if answers == [] then [] else answers[1..];
      if answer == Returns(|msg|) {
        sent := sent + [msg];
      }
    }
  }

  const SRT_ERROR := -1

  /** Offers the first `len` bytes of the buffer to the socket until it answers with anything but 0. */
  method WriteSegment(dst: MessageSocket, buf: array<Byte>, len: nat) returns (end: End)
    requires 0 < len <= buf.Length
    modifies dst
    ensures (end, dst.answers) == Answered(old(dst.answers), len)
    ensures dst.sent == old(dst.sent) + if end == Done then [buf[..len]] else []
  {
    while true
      invariant dst.sent == old(dst.sent)
      invariant Answered(dst.answers, len) == Answered(old(dst.answers), len)
      decreases |dst.answers|
    {
      var answer := dst.Write(buf[..len]);
      if answer == Raises {
        return Raised;
      }
      var st := answer.st;
      if st == 0 {
        continue;
      }
      if st == SRT_ERROR {
        return Failed;
      }
      if st != len {
        return Failed;
      }
      return Done;
    }
  }

  /** Reads the file's next bytes into the buffer behind the header and sets the flags. End of file
      shows only as a read that comes up short. */
  method ReadSegment(src: Source, pos: nat, buf: array<Byte>, hdrSize: nat) returns (n: nat, isEof: bool)
    requires pos <= |src.data| && 1 <= hdrSize <= buf.Length
    modifies buf
    ensures n == Min(buf.Length - hdrSize, |src.data| - pos)
    ensures isEof == (n < buf.Length - hdrSize && !src.faulty)
    ensures buf[..hdrSize + n] == [Flags(isEof, hdrSize > 1)] + old(buf[1..hdrSize]) + src.data[pos..pos + n]
  {
    n := Min(buf.Length - hdrSize, |src.data| - pos);
    Store(buf, hdrSize, src.data[pos..pos + n]);
    isEof := n < buf.Length - hdrSize && !src.faulty;
    var isStart := hdrSize > 1;
    buf[0] := Flags(isEof, isStart);
  }

  /** One turn of the segment loop: read the next bytes and, if there are any, deliver their segment. */
  method ReadAndWrite(src: Source, pos: nat, dst: MessageSocket, buf: array<Byte>, hdrSize: nat)
    returns (n: nat, isEof: bool, end: End)
    requires pos <= |src.data| && 1 <= hdrSize <= buf.Length
    modifies dst, buf
    ensures n == Min(buf.Length - hdrSize, |src.data| - pos)
    ensures isEof == (n < buf.Length - hdrSize && !src.faulty)
    ensures buf[1..hdrSize] == old(buf[1..hdrSize])
    ensures NextTurn(|src.data|, buf.Length, At(pos, hdrSize))
         == if n < buf.Length - hdrSize then Ended else At(pos + n, if n > 0 then 1 else hdrSize)
    ensures n == 0 ==> end == Done && dst.sent == old(dst.sent) && dst.answers == old(dst.answers)
    ensures n > 0 ==> (end, dst.answers) == Answered(old(dst.answers), hdrSize + n)
    ensures n > 0 ==> dst.sent == old(dst.sent) + if end == Done
      then [[Flags(isEof, hdrSize > 1)] + old(buf[1..hdrSize]) + src.data[pos..pos + n]] else []
  {
    hide NextTurn, Flags, Answered;
    n, isEof := ReadSegment(src, pos, buf, hdrSize);
    HeaderKept(buf[..hdrSize + n], Flags(isEof, hdrSize > 1), old(buf[1..hdrSize]), src.data[pos..pos + n]);
    assert buf[..hdrSize + n][1..hdrSize] == buf[1..hdrSize];
    TurnRead(|src.data|, buf.Length, pos, hdrSize);
    end := Done;
    if n > 0 {
      end := WriteSegment(dst, buf, hdrSize + n);
    }
  }

  lemma HeaderKept(written: Bytes, flags: Byte, hdr: Bytes, payload: Bytes)
    requires written == [flags] + hdr + payload
    ensures written[1..1 + |hdr|] == hdr
  {
  }

  lemma TurnRead(len: nat, size: nat, pos: nat, hdrSize: nat)
    requires pos <= len && hdrSize <= size
    ensures var n := Min(size - hdrSize, len - pos);
      NextTurn(len, size, At(pos, hdrSize))
      == if n < size - hdrSize then Ended else At(pos + n, if n > 0 then 1 else hdrSize)
  {
  }

  /** What becomes of a file whose first message carries `hdr`: its plan; but when the header fills the
      whole segment every read gets nothing without coming up short, and only a break ends the loop. */
  function FileOutcome(hdr: Bytes, src: Source, size: nat, answers: seq<Answer>, quietReads: Option<nat>): Outcome
    requires |hdr| + 1 <= size
  {
    if |hdr| + 1 == size then Outcome([], Broken, answers, Some(0))
    else Execute(FilePlan(hdr, src, size), answers, quietReads)
  }

  /** Sends one file, or nothing when it cannot be opened. What reaches the socket, how it ends and
      what it leaves of the answers and the flag are those of the file's plan, whatever the buffer
      held before. With a name that fills the whole segment it sends nothing and ends only by a
      break, after any number of looks. The program reports success for `Done` and `Broken`. */
  method SendFile(file: Option<Source>, uploadName: Bytes, dst: MessageSocket, buf: array<Byte>, forceBreak: BreakToken)
    returns (end: End)
    requires |CStr(uploadName)| + 2 <= buf.Length
    requires file.Some? && |CStr(uploadName)| + 2 == buf.Length ==> forceBreak.quietReads.Some?
    modifies dst, buf, forceBreak
    ensures |CStr(uploadName)| + 2 < buf.Length ==>
      Outcome(dst.sent, end, dst.answers, forceBreak.quietReads)
      == Behind(old(dst.sent), Execute(UploadPlan(Upload(uploadName, file), buf.Length), old(dst.answers), old(forceBreak.quietReads)))
    ensures file.Some? && |CStr(uploadName)| + 2 == buf.Length ==>
      && end == Broken && forceBreak.quietReads == Some(0)
      && dst.sent == old(dst.sent) && dst.answers == old(dst.answers)
    ensures file == None ==>
      && end == Failed && forceBreak.quietReads == old(forceBreak.quietReads)
      && dst.sent == old(dst.sent) && dst.answers == old(dst.answers)
  {
    if file == None {
      return Failed;
    }
    Store(buf, 1, CStr(uploadName) + [0]);
    var hdrSize := |CStr(uploadName)| + 2;
    end := SendBody(file.value, hdrSize, NameHeader(uploadName), dst, buf, forceBreak);
  }

  /** The segment loop, entered with a header of `hdrSize0` bytes (the flags included) in the buffer. */
  method SendBody(src: Source, hdrSize0: nat, ghost hdr0: Bytes,
                  dst: MessageSocket, buf: array<Byte>, forceBreak: BreakToken)
    returns (end: End)
    requires 1 < hdrSize0 == |hdr0| + 1 <= buf.Length && buf[1..hdrSize0] == hdr0
    requires hdrSize0 == buf.Length ==> forceBreak.quietReads.Some?
    modifies dst, buf, forceBreak
    ensures Outcome(dst.sent, end, dst.answers, forceBreak.quietReads)
         == Behind(old(dst.sent), FileOutcome(hdr0, src, buf.Length, old(dst.answers), old(forceBreak.quietReads)))
  {
    hide FileOutcome, Answered, NextMessage, NextTurn, Flags;
    var hdrSize := hdrSize0;
    ghost var hdr := hdr0;
    ghost var result := Behind(dst.sent, FileOutcome(hdr0, src, buf.Length, dst.answers, forceBreak.quietReads));
    var pos: nat := 0;
    assert src.data[0..] == src.data;
    while true
      invariant pos <= |src.data|
      invariant hdrSize == |hdr| + 1 <= buf.Length
      invariant hdrSize == buf.Length ==> forceBreak.quietReads.Some?
      invariant buf[1..hdrSize] == hdr
      invariant Behind(dst.sent, PlanFrom(hdr, src, pos, buf.Length, dst.answers, forceBreak.quietReads)) == result
      decreases |src.data| - pos, if hdrSize == buf.Length then forceBreak.quietReads.value else 0
    {
      ghost var sent, answers, quietReads := dst.sent, dst.answers, forceBreak.quietReads;
      var broken := forceBreak.Read();
      if broken {
        BrokenTurn(hdr, src, pos, buf.Length, answers);
        return Broken;
      }
      var n, isEof;
      n, isEof, end := ReadAndWrite(src, pos, dst, buf, hdrSize);
      TurnTaken(hdr, src, pos, buf.Length, answers, quietReads);
      if end != Done {
        return;
      }
      var cameShort := n < buf.Length - hdrSize;
      if n > 0 {
        BehindTwice(sent, [NextMessage(hdr, src.(data := src.data[pos..]), buf.Length)],
                    AfterTurn(hdr, src, pos, buf.Length, dst.answers, forceBreak.quietReads));
        hdrSize := 1;
        hdr := [];
      }
      pos := pos + n;
      if isEof {
        return Done;
      }
      if cameShort {
        return Failed;
      }
    }
  }

  /** What becomes of the rest of a file from `pos` on. */
  function PlanFrom(hdr: Bytes, src: Source, pos: nat, size: nat, answers: seq<Answer>, quietReads: Option<nat>): Outcome
    requires |hdr| + 1 <= size && pos <= |src.data|
  {
    FileOutcome(hdr, src.(data := src.data[pos..]), size, answers, quietReads)
  }

  /** What becomes of the rest of a file behind the message for the bytes at `pos`. */
  function AfterTurn(hdr: Bytes, src: Source, pos: nat, size: nat, answers: seq<Answer>, quietReads: Option<nat>): Outcome
    requires |hdr| + 1 <= size && pos <= |src.data|
  {
    var room := size - 1 - |hdr|;
    if room == 0 then PlanFrom(hdr, src, pos, size, answers, quietReads)
    else if room <= |src.data| - pos then PlanFrom([], src, pos + room, size, answers, quietReads)
    else Outcome([], if src.faulty then Failed else Done, answers, quietReads)
  }

  lemma BrokenTurn(hdr: Bytes, src: Source, pos: nat, size: nat, answers: seq<Answer>)
    requires |hdr| + 1 <= size && pos <= |src.data|
    ensures PlanFrom(hdr, src, pos, size, answers, Some(0)) == Outcome([], Broken, answers, Some(0))
  {
  }

  lemma ExecuteTurn(plan: seq<Step>, answers: seq<Answer>, quietReads: Option<nat>)
    requires quietReads != Some(0)
    ensures Execute([Check] + plan, answers, quietReads) == Execute(plan, answers, OneReadLess(quietReads))
  {
    assert ([Check] + plan)[1..] == plan;
  }

  lemma ExecuteOffer(msg: Bytes, plan: seq<Step>, answers: seq<Answer>, quietReads: Option<nat>)
    ensures var (end, rest) := Answered(answers, |msg|);
      Execute([Offer(msg)] + plan, answers, quietReads)
      == if end == Done then Behind([msg], Execute(plan, rest, quietReads)) else Outcome([], end, rest, quietReads)
  {
    assert ([Offer(msg)] + plan)[1..] == plan;
  }

  lemma ExecuteLast(answers: seq<Answer>, quietReads: Option<nat>)
    ensures Execute([], answers, quietReads) == Outcome([], Done, answers, quietReads)
    ensures Execute([GiveUp], answers, quietReads) == Outcome([], Failed, answers, quietReads)
  {
  }

  /** A turn that finds the flag lowered: the message for the bytes at `pos`, then the rest. */
  lemma TurnTaken(hdr: Bytes, src: Source, pos: nat, size: nat, answers: seq<Answer>, quietReads: Option<nat>)
    requires |hdr| + 1 <= size && pos <= |src.data| && quietReads != Some(0)
    ensures var room, quiet := size - 1 - |hdr|, OneReadLess(quietReads);
      var n := Min(room, |src.data| - pos);
      n == 0 ==> PlanFrom(hdr, src, pos, size, answers, quietReads) == AfterTurn(hdr, src, pos, size, answers, quiet)
    ensures var room, quiet := size - 1 - |hdr|, OneReadLess(quietReads);
      var n := Min(room, |src.data| - pos);
      n > 0 ==>
        var msg := NextMessage(hdr, src.(data := src.data[pos..]), size);
        var (end, rest) := Answered(answers, 1 + |hdr| + n);
        && msg == [Flags(n < room && !src.faulty, hdr != [])] + hdr + src.data[pos..pos + n]
        && PlanFrom(hdr, src, pos, size, answers, quietReads)
           == if end == Done then Behind([msg], AfterTurn(hdr, src, pos, size, rest, quiet))
              else Outcome([], end, rest, quiet)
  {
    hide Execute, Answered, FilePlan, NextMessage;
    if |hdr| + 1 < size {
      var from, quiet := src.(data := src.data[pos..]), OneReadLess(quietReads);
      var n := Taken(hdr, from, size);
      var rest := Answered(answers, 1 + |hdr| + n).1;
      PlanUnfolds(hdr, src, pos, size);
      if n == 0 {
        ExecuteTurn(PlanBehind(hdr, src, pos, size), answers, quietReads);
        BehindOutcome(hdr, src, pos, size, answers, quiet);
      } else {
        var msg := NextMessage(hdr, from, size);
        MessageAt(hdr, src, pos, size);
        ExecuteTurn([Offer(msg)] + PlanBehind(hdr, src, pos, size), answers, quietReads);
        ExecuteOffer(msg, PlanBehind(hdr, src, pos, size), answers, quiet);
        BehindOutcome(hdr, src, pos, size, rest, quiet);
      }
    }
  }

  /** The plan behind the message for the bytes at `pos`. */
  function PlanBehind(hdr: Bytes, src: Source, pos: nat, size: nat): seq<Step>
    requires |hdr| + 1 < size && pos <= |src.data|
  {
    var room := size - 1 - |hdr|;
    if room <= |src.data| - pos then FilePlan([], src.(data := src.data[pos + room..]), size)
    else if src.faulty then [GiveUp] else []
  }

  lemma PlanUnfolds(hdr: Bytes, src: Source, pos: nat, size: nat)
    requires |hdr| + 1 < size && pos <= |src.data|
    ensures var from := src.(data := src.data[pos..]);
      FilePlan(hdr, from, size)
      == [Check] + if pos == |src.data| then PlanBehind(hdr, src, pos, size)
                   else [Offer(NextMessage(hdr, from, size))] + PlanBehind(hdr, src, pos, size)
  {
    hide NextMessage;
    var from := src.(data := src.data[pos..]);
    var n := Taken(hdr, from, size);
    assert from.data[n..] == src.data[pos + n..];
  }

  lemma MessageAt(hdr: Bytes, src: Source, pos: nat, size: nat)
    requires |hdr| + 1 < size && pos <= |src.data|
    ensures var room := size - 1 - |hdr|;
      var n := Min(room, |src.data| - pos);
      NextMessage(hdr, src.(data := src.data[pos..]), size)
      == [Flags(n < room && !src.faulty, hdr != [])] + hdr + src.data[pos..pos + n]
  {
    var from := src.(data := src.data[pos..]);
    var n := Taken(hdr, from, size);
    assert from.data[..n] == src.data[pos..pos + n];
  }

  lemma BehindOutcome(hdr: Bytes, src: Source, pos: nat, size: nat, answers: seq<Answer>, quietReads: Option<nat>)
    requires |hdr| + 1 < size && pos <= |src.data|
    ensures Execute(PlanBehind(hdr, src, pos, size), answers, quietReads)
         == AfterTurn(hdr, src, pos, size, answers, quietReads)
  {
    hide Execute, FilePlan;
    ExecuteLast(answers, quietReads);
  }

  // ---------- the loop without a break

  /** Where the segment loop is between two turns: position in the file and size of the header. */
  datatype Turn = At(pos: nat, hdrSize: nat) | Ended

  /** One turn of the loop that finds the flag lowered and whose write, if any, is taken: it reads as
      `ReadSegment` does, and goes on unless the read came up short. */
  function NextTurn(len: nat, size: nat, t: Turn): (t': Turn)
    requires t.At? ==> t.pos <= len && t.hdrSize <= size
    ensures t'.At? ==> t'.pos <= len && t'.hdrSize <= size
  {
    if t.Ended? then Ended
    else
      var n := Min(size - t.hdrSize, len - t.pos);
      if n < size - t.hdrSize then Ended else At(t.pos + n, if n > 0 then 1 else t.hdrSize)
  }

  function Turns(len: nat, size: nat, t: Turn, k: nat): Turn
    requires t.At? ==> t.pos <= len && t.hdrSize <= size
    decreases k
  {
    if k == 0 then t else Turns(len, size, NextTurn(len, size, t), k - 1)
  }

  /** Whether the loop ends by itself, exactly: if and only if the header leaves room for a payload. When
      it fills the whole segment every turn repeats the one before, for every file. */
  lemma LoopEndsExactly(len: nat, hdrSize: nat, size: nat)
    requires 1 < hdrSize <= size
    ensures (exists k :: Turns(len, size, At(0, hdrSize), k) == Ended) <==> hdrSize < size
  {
    if hdrSize < size {
      var k := TurnsEnd(len, size, At(0, hdrSize));
    } else {
      forall k: nat ensures Turns(len, size, At(0, hdrSize), k) == At(0, hdrSize) {
        TurnsRepeat(len, size, k);
      }
    }
  }

  lemma {:induction false} TurnsEnd(len: nat, size: nat, t: Turn) returns (k: nat)
    requires t.At? && t.pos <= len && t.hdrSize < size && 1 < size
    ensures Turns(len, size, t, k) == Ended
    decreases len - t.pos
  {
    var next := NextTurn(len, size, t);
    if next.Ended? {
      k := 1;
      assert Turns(len, size, next, 0) == Ended;
    } else {
      var k' := TurnsEnd(len, size, next);
      k := k' + 1;
    }
  }

  lemma {:induction false} TurnsRepeat(len: nat, size: nat, k: nat)
    ensures Turns(len, size, At(0, size), k) == At(0, size)
    decreases k
  {
    if k > 0 {
      TurnsRepeat(len, size, k - 1);
    }
  }

  /** Transmits the files one after the other through one buffer, and stops at the first failure
      or raised break flag: the plan of the list, with its exception if there is one. */
  method SendFiles(uploads: seq<Upload>, dst: MessageSocket, buf: array<Byte>, forceBreak: BreakToken)
    returns (raised: bool)
    requires forall u :: u in uploads ==> Fits(u, buf.Length)
    modifies dst, buf, forceBreak
    ensures var o := Execute(Plan(uploads, buf.Length), old(dst.answers), old(forceBreak.quietReads));
      && dst.sent == old(dst.sent) + o.sent
      && raised == (o.end == Raised)
      && dst.answers == o.answers && forceBreak.quietReads == o.quietReads
  {
    hide Execute, UploadPlan;
    ghost var size := buf.Length;
    ghost var total := Behind(dst.sent, Execute(Plan(uploads, size), dst.answers, forceBreak.quietReads));
    for i := 0 to |uploads|
      invariant Behind(dst.sent, Execute(Plan(uploads[i..], size), dst.answers, forceBreak.quietReads)) == total
    {
      assert Fits(uploads[i], size) && uploads[i..][1..] == uploads[i + 1..];
      ghost var sent := dst.sent;
      UploadTurn(uploads[i], Plan(uploads[i + 1..], size), size, dst.answers, forceBreak.quietReads);
      ghost var mine := Execute(UploadPlan(uploads[i], size), dst.answers, forceBreak.quietReads);
      BrokenStays(UploadPlan(uploads[i], size), dst.answers, forceBreak.quietReads);
      var end := SendFile(uploads[i].file, uploads[i].name, dst, buf, forceBreak);
      if end == Raised {
        return true;
      }
      if end == Failed {
        return false;
      }
      ghost var quietReads := forceBreak.quietReads;
      var broken := forceBreak.Read();
      BehindTwice(sent, mine.sent, Execute(Plan(uploads[i + 1..], size), dst.answers, forceBreak.quietReads));
      if broken {
        return false;
      }
    }
    ExecuteLast(dst.answers, forceBreak.quietReads);
    return false;
  }

  /** One upload and the look at the flag behind it. */
  lemma UploadTurn(u: Upload, more: seq<Step>, size: nat, answers: seq<Answer>, quietReads: Option<nat>)
    requires Fits(u, size)
    ensures var o := Execute(UploadPlan(u, size), answers, quietReads);
      Execute(UploadPlan(u, size) + [Check] + more, answers, quietReads)
      == if o.end != Done then o
         else if o.quietReads == Some(0) then Outcome(o.sent, Broken, o.answers, o.quietReads)
         else Behind(o.sent, Execute(more, o.answers, OneReadLess(o.quietReads)))
  {
    hide UploadPlan, Execute;
    var mine := UploadPlan(u, size);
    var o := Execute(mine, answers, quietReads);
    assert mine + [Check] + more == mine + ([Check] + more);
    ExecuteAppend(mine, [Check] + more, answers, quietReads);
    if o.quietReads == Some(0) {
      ExecuteBroken(more, o.answers);
    } else {
      ExecuteTurn(more, o.answers, o.quietReads);
    }
  }

  lemma ExecuteBroken(more: seq<Step>, answers: seq<Answer>)
    ensures Execute([Check] + more, answers, Some(0)) == Outcome([], Broken, answers, Some(0))
  {
  }
}
