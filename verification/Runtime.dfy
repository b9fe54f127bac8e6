/** What the program sees of its surroundings: the break flag, the steady clock, and memory. */
module Runtime {
  import opened Prelude

  /** What a read of the break flag leaves of the reads that find it lowered: all of them if None. */
  function OneReadLess(quietReads: Option<nat>): Option<nat> {
    match quietReads
    case None => None
    case Some(n) => Some(if n == 0 then 0 else n - 1)
  }

  /** The break flag that a signal handler may raise and nobody lowers: how many more reads will
      find it lowered. */
  class BreakToken {
    var quietReads: Option<nat>

    constructor (quietReads: Option<nat>)
      ensures this.quietReads == quietReads
    {
      this.quietReads := quietReads;
    }

    method Read() returns (raised: bool)
      modifies this
      ensures raised <==> old(quietReads) == Some(0)
      ensures quietReads == OneReadLess(old(quietReads))
    {
      raised := quietReads == Some(0);
      if quietReads.Some? && quietReads.value > 0 {
        quietReads := Some(quietReads.value - 1);
      }
    }
  }

  /** The time in nanoseconds, and what the coming readings and sleeps take; once the list runs out
      each takes one nanosecond. */
  datatype Time = Time(now: nat, delays: seq<nat>)

  /** The time at the end of the next reading. */
  function Tick(t: Time): (r: Time)
    ensures r.now >= t.now && |r.delays| <= |t.delays|
    ensures t.delays == [] ==> r.now > t.now
    ensures t.delays != [] ==> |r.delays| < |t.delays|
  {
    if t.delays == [] then Time(t.now + 1, []) else Time(t.now + t.delays[0], t.delays[1..])
  }

  /** The time after sleeping until `until`: then or later. */
  function Slept(t: Time, until: int): (r: Time)
    ensures r.now >= until && r.now >= t.now
  {
    Time(Max(Tick(t).now, until), Tick(t).delays)
  }

  /** A steady clock. */
  class Clock {
    var time: Time

    constructor (time: Time)
      ensures this.time == time
    {
      this.time := time;
    }

    method Now() returns (t: nat)
      modifies this
      ensures t == time.now && time == Tick(old(time))
    {
      time := Tick(time);
      t := time.now;
    }

    method SleepUntil(until: int)
      modifies this
      ensures time == Slept(old(time), until)
    {
      time := Slept(time, until);
    }

    /** Work that does not look at the clock takes this long. */
    method Pass(duration: nat)
      modifies this
      ensures time == old(time).(now := old(time).now + duration)
    {
      time := time.(now := time.now + duration);
    }
  }

  /** Places `bytes` into `buf` from index `at` on and changes nothing else. */
  method Store(buf: array<Byte>, at: nat, bytes: Bytes)
    requires at + |bytes| <= buf.Length
    modifies buf
    ensures buf[..] == old(buf[..at]) + bytes + old(buf[at + |bytes|..])
  {
    forall i | 0 <= i < |bytes| {
      buf[at + i] := bytes[i];
    }
  }
}
