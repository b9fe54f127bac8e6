/** What a transfer leaves on the receiver's disk: sender, messages and receiver together. */
module Transfer {
  import opened Prelude
  import opened Framing
  import opened Disk
  import opened FileReceive

  // ---------- one file

  lemma {:induction false} SegmentsWellFormed(hdr: Bytes, src: Source, size: nat)
    requires |hdr| + 1 < size && (hdr != [] ==> 0 in hdr)
    ensures forall m :: m in Segments(hdr, src, size) ==> WellFormed(m) && 0 < |m| <= size
    decreases |src.data|
  {
    hide NextMessage, WellFormed;
    if src.data != [] {
      MessageWellFormed(hdr, src, size);
      SegmentsWellFormed([], Rest(hdr, src, size), size);
    }
  }

  lemma MessageWellFormed(hdr: Bytes, src: Source, size: nat)
    requires |hdr| + 1 < size && (hdr != [] ==> 0 in hdr)
    ensures var m := NextMessage(hdr, src, size);
      && 0 < |m| <= size && WellFormed(m)
      && IsFirst(m[0]) == (hdr != [])
      && IsEof(m[0]) == (Taken(hdr, src, size) < size - 1 - |hdr| && !src.faulty)
      && m[1..] == hdr + src.data[..Taken(hdr, src, size)]
  {
    var m := NextMessage(hdr, src, size);
    assert m[1..] == hdr + src.data[..Taken(hdr, src, size)];
  }

  /** Whether a segment carries EOF. */
  predicate ClosesFile(seg: Bytes) {
    seg != [] && IsEof(seg[0])
  }

  predicate EofSent(segs: seq<Bytes>) {
    segs != [] && ClosesFile(segs[|segs| - 1])
  }

  /** A receiver that is writing the file at `place`, with `bytes` more written. */
  function Written(r: Receiver, place: Place, bytes: Bytes, closed: bool): Receiver
    requires place in r.disk.files
  {
    Receiver(r.disk.(files := r.disk.files[place := r.disk.files[place] + bytes]),
             Output(if closed then None else Some(place), true), Running)
  }

  /** The later segments of a file append its bytes to the open file, in order. */
  lemma {:induction false} BodyReceived(r: Receiver, place: Place, dst: Bytes, src: Source, size: nat)
    requires OutputValid(r) && r.status == Running && r.out == Output(Some(place), true)
    requires 1 < size
    ensures forall m :: m in Segments([], src, size) ==> WellFormed(m)
    ensures ReceiveAll(r, dst, Segments([], src, size))
         == Written(r, place, src.data, EofSent(Segments([], src, size)))
    decreases |src.data|
  {
    hide NextMessage, Receive, ReceiveAll, EofSent, ClosesFile, WellFormed, Written;
    SegmentsWellFormed([], src, size);
    if src.data == [] {
      NoMessage(r, dst);
      NothingSent();
      NothingWritten(r, place);
    } else {
      var rest := Rest([], src, size);
      BodyMessage(r, place, dst, src, size);
      if rest.data != [] {
        WrittenTwice(r, place, src.data[..Taken([], src, size)], rest.data, EofSent(Segments([], rest, size)));
        BodyReceived(Receive(r, dst, NextMessage([], src, size)), place, dst, rest, size);
      }
      BodyJoin(r, place, dst, src, size);
    }
  }

  /** The first of the remaining segments and the others after it. */
  lemma BodyJoin(r: Receiver, place: Place, dst: Bytes, src: Source, size: nat)
    requires OutputValid(r) && r.status == Running && r.out == Output(Some(place), true)
    requires 1 < size && src.data != [] && forall m :: m in Segments([], src, size) ==> WellFormed(m)
    requires WellFormed(NextMessage([], src, size))
    requires var m, rest := NextMessage([], src, size), Rest([], src, size);
      && (forall x :: x in Segments([], rest, size) ==> WellFormed(x))
      && Receive(r, dst, m) == Written(r, place, src.data[..Taken([], src, size)], ClosesFile(m))
      && (rest.data != [] ==>
            ReceiveAll(Receive(r, dst, m), dst, Segments([], rest, size))
            == Written(r, place, src.data[..Taken([], src, size)] + rest.data, EofSent(Segments([], rest, size))))
    ensures ReceiveAll(r, dst, Segments([], src, size))
         == Written(r, place, src.data, EofSent(Segments([], src, size)))
  {
    hide NextMessage, Receive, ReceiveAll, EofSent, ClosesFile, WellFormed, Written;
    var m, rest := NextMessage([], src, size), Rest([], src, size);
    ReceiveCons(r, dst, m, Segments([], rest, size));
    LastSegment([], src, size);
    var taken := src.data[..Taken([], src, size)];
    assert taken + rest.data == src.data;
    if rest.data == [] {
      assert taken == src.data;
      NoMessage(Receive(r, dst, m), dst);
    }
  }

  lemma NothingWritten(r: Receiver, place: Place)
    requires place in r.disk.files && r.status == Running && r.out == Output(Some(place), true)
    ensures Written(r, place, [], false) == r
  {
    assert r.disk.files[place] + [] == r.disk.files[place];
    assert r.disk.files[place := r.disk.files[place]] == r.disk.files;
  }

  lemma WrittenTwice(r: Receiver, place: Place, a: Bytes, b: Bytes, closed: bool)
    requires place in r.disk.files
    ensures var w := Written(r, place, a, false);
      && OutputValid(w) && w.status == Running && w.out == Output(Some(place), true)
      && Written(w, place, b, closed) == Written(r, place, a + b, closed)
  {
    assert r.disk.files[place] + a + b == r.disk.files[place] + (a + b);
  }

  lemma NothingSent()
    ensures !EofSent([])
  {
  }

  lemma LastSegment(hdr: Bytes, src: Source, size: nat)
    requires |hdr| + 1 < size && src.data != []
    ensures EofSent(Segments(hdr, src, size))
         == if Rest(hdr, src, size).data == [] then ClosesFile(NextMessage(hdr, src, size))
            else EofSent(Segments([], Rest(hdr, src, size), size))
  {
    hide NextMessage;
    var more := Segments([], Rest(hdr, src, size), size);
    if more != [] {
      assert Segments(hdr, src, size)[|more|] == more[|more| - 1];
    }
  }

  lemma BodyMessage(r: Receiver, place: Place, dst: Bytes, src: Source, size: nat)
    requires OutputValid(r) && r.status == Running && r.out == Output(Some(place), true)
    requires 1 < size
    ensures WellFormed(NextMessage([], src, size))
    ensures var m := NextMessage([], src, size);
      && Receive(r, dst, m) == Written(r, place, src.data[..Taken([], src, size)], ClosesFile(m))
      && (ClosesFile(m) ==> Rest([], src, size).data == [])
  {
    hide NextMessage, Open;
    MessageWellFormed([], src, size);
    var m := NextMessage([], src, size);
    if ClosesFile(m) {
      assert |Rest([], src, size).data| == 0;
    }
    assert m[1..] == src.data[..Taken([], src, size)];
  }

  /** The first segment opens the file, emptied, and writes its bytes. */
  lemma FirstMessageReceived(r: Receiver, dst: Bytes, name: Bytes, src: Source, size: nat)
    requires OutputValid(r) && r.status == Running
    requires |CStr(name)| + 2 < size
    requires Open(r, dst, CStr(name)).status == Running
    ensures WellFormed(NextMessage(NameHeader(name), src, size))
    ensures var m, opn := NextMessage(NameHeader(name), src, size), Open(r, dst, CStr(name));
      && opn.out.target.Some?
      && OutputValid(opn)
      && Receive(r, dst, m)
         == Written(opn, opn.out.target.value, src.data[..Taken(NameHeader(name), src, size)], ClosesFile(m))
      && (ClosesFile(m) ==> Rest(NameHeader(name), src, size).data == [])
  {
    hide NextMessage, CStr, Open, Resolve;
    OpenRunning(r, dst, CStr(name));
    var hdr := NameHeader(name);
    var m, taken := NextMessage(hdr, src, size), src.data[..Taken(hdr, src, size)];
    MessageWellFormed(hdr, src, size);
    CStrOfTerminated(CStr(name), taken);
    assert m[2 + |CStr(name)|..] == m[1..][|hdr|..] == taken;
    if ClosesFile(m) {
      assert |Rest(hdr, src, size).data| == 0;
    }
  }

  /** Receiving all the segments of a file that is not empty leaves exactly its bytes under the name,
      whatever was there before; the stream stays attached when no EOF came. */
  lemma FileReceived(r: Receiver, dst: Bytes, name: Bytes, src: Source, size: nat)
    requires OutputValid(r) && r.status == Running && src.data != []
    requires |CStr(name)| + 2 < size
    requires Open(r, dst, CStr(name)).status == Running
    ensures var segs := FileSegments(name, src, size);
      var opn := Open(r, dst, CStr(name));
      && (forall m :: m in segs ==> WellFormed(m))
      && opn.out.target.Some? && OutputValid(opn)
      && ReceiveAll(r, dst, segs) == Written(opn, opn.out.target.value, src.data, EofSent(segs))
  {
    hide NextMessage, Receive, ReceiveAll, EofSent, ClosesFile, WellFormed, Written, Open, CStr, Resolve;
    var hdr := NameHeader(name);
    assert 0 in hdr by { assert hdr[|hdr| - 1] == 0; }
    SegmentsWellFormed(hdr, src, size);
    FirstMessageReceived(r, dst, name, src, size);
    var opn := Open(r, dst, CStr(name));
    OpenRunning(r, dst, CStr(name));
    var place := opn.out.target.value;
    var m, rest := NextMessage(hdr, src, size), Rest(hdr, src, size);
    var more := Segments([], rest, size);
    ReceiveCons(r, dst, m, more);
    LastSegment(hdr, src, size);
    var taken := src.data[..Taken(hdr, src, size)];
    assert taken + rest.data == src.data;
    if rest.data == [] {
      assert taken == src.data;
      NoMessage(Receive(r, dst, m), dst);
    } else {
      WrittenTwice(opn, place, taken, rest.data, EofSent(more));
      BodyReceived(Receive(r, dst, m), place, dst, rest, size);
    }
  }
}
