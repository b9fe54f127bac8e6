/** The receiving side: a loop over messages that writes the file opened last. */
module FileReceive {
  import opened Prelude
  import opened Framing
  import opened Disk
  import opened Folders

  /** The output stream: the file it is attached to, if any, and whether it is in a good state.
      An operation on a detached stream leaves it in a bad state; only opening a file recovers it. */
  datatype Output = Output(target: Option<Place>, good: bool)

  datatype Status = Running | Returned(ok: bool)

  datatype Receiver = Receiver(disk: Disk, out: Output, status: Status)

  predicate OutputValid(r: Receiver) {
    r.out.target.Some? ==> r.out.good && r.out.target.value in r.disk.files
  }

  /** What the loop demands of a message: a first segment holds a terminated name. */
  predicate WellFormed(msg: Bytes) {
    msg != [] && IsFirst(msg[0]) ==> 0 in msg[1..]
  }

  /** A first segment closes the current file, makes the folders for the new one and opens it. */
  function Open(r: Receiver, dst: Bytes, name: Bytes): (r': Receiver)
    ensures OutputValid(r')
  {
    var path := dst + name;
    var made := CreateAll(r.disk, FolderPrefixes(path));
    if !made.0 then Receiver(made.1, Output(None, r.out.target.Some? && r.out.good), Returned(false))
    else if !CanOpen(made.1, path) then Receiver(made.1, Output(None, false), Returned(true))
    else Receiver(made.1.(files := made.1.files[Resolve(path) := []]), Output(Some(Resolve(path)), true), Running)
  }

  lemma OpenRunning(r: Receiver, dst: Bytes, name: Bytes)
    requires Open(r, dst, name).status == Running
    ensures Open(r, dst, name).out == Output(Some(Resolve(dst + name)), true)
    ensures OutputValid(Open(r, dst, name))
  {
    hide CreateAll, FolderPrefixes, Resolve, CanOpen;
  }

  /** What becomes of a first segment, exactly: the receiver goes on if a file can be received under the
      path; otherwise it stops, with an error when a folder cannot be created and without one when
      only the file cannot be opened. */
  lemma OpensExactly(r: Receiver, dst: Bytes, name: Bytes)
    requires Valid(r.disk)
    ensures var path, status := dst + name, Open(r, dst, name).status;
      && (status == Running <==> Openable(r.disk, path))
      && (status == Returned(false) <==>
            FolderPrefixes(path) != [] && (StartReachable(r.disk, path) ==> exists q :: q in FolderPrefixes(path) && Resolve(q) in r.disk.files))
  {
    hide CreateAll, FolderPrefixes, Resolve, CanOpen, Openable, StartReachable;
    CreationExactly(r.disk, dst + name);
    OpenableExactly(r.disk, dst + name);
  }

  /** What a first segment does to the disk, on any disk: the first `k` folders on the way are there in
      addition, all of them unless creating the next one failed, and the file is empty if it was opened. */
  lemma OpenDisk(r: Receiver, dst: Bytes, name: Bytes) returns (k: nat)
    ensures k <= |FolderPrefixes(dst + name)|
    ensures var path, opn := dst + name, Open(r, dst, name);
      var made := WithFolders(r.disk, FolderPrefixes(path)[..k]);
      && (opn.status == Returned(false) <==> k < |FolderPrefixes(path)|)
      && (k < |FolderPrefixes(path)| ==> !CanCreateFolder(made, Resolve(FolderPrefixes(path)[k])))
      && opn.disk == if opn.status == Running then made.(files := made.files[Resolve(path) := []]) else made
  {
    hide CreateAll, FolderPrefixes, Resolve, CanOpen, CanCreateFolder, WithFolders;
    k := CreateAllExactly(r.disk, FolderPrefixes(dst + name));
  }

  const OUT: Bytes := [111, 117, 116]
  const A_DOT: Bytes := [97, 46]
  const OUT_A_DOT: Bytes := OUT + [SLASH] + A_DOT  // "out/a."

  predicate ProperName(name: Bytes) {
    Component(name) != [] && forall i :: 0 <= i < |name| ==> !IsDelim(name[i])
  }

  /** The scan of a path below "out/a." starts in that folder. */
  lemma DottedStart(name: Bytes)
    ensures var path := OUT_A_DOT + [SLASH] + name;
      StartPos(path) == |OUT_A_DOT| + 1 && Anchor(path) == [OUT, A_DOT]
  {
    hide Resolve, LastDelim;
    var path := OUT_A_DOT + [SLASH] + name;
    var q := path[..|OUT_A_DOT| + 1];
    assert q == OUT_A_DOT + [SLASH];
    assert path[5] == DOT && path[6] == SLASH;
    BehindDelim(q);
    assert q[..|q| - 1] == OUT_A_DOT;
    OutADot();
  }

  lemma OutADot()
    ensures Resolve(OUT_A_DOT) == [OUT, A_DOT]
  {
    hide Resolve, LastDelim;
    LastDelimIs(OUT_A_DOT, |OUT|);
    ResolveAt(OUT_A_DOT);
    assert OUT_A_DOT[..|OUT|] == OUT && OUT_A_DOT[|OUT| + 1..] == A_DOT;
    LastDelimIs(OUT, -1);
    ResolveAt(OUT);
    assert OUT[0..] == OUT;
  }

  /** A file "out/a./name", an ordinary path, is refused without an error as long as there is no
      folder "out/a." yet. */
  lemma DottedFileFails(r: Receiver, name: Bytes)
    requires Valid(r.disk) && !DirExists(r.disk, [OUT, A_DOT]) && ProperName(name)
    ensures Open(r, OUT_A_DOT + [SLASH], name).status == Returned(true)
  {
    hide Resolve, LastDelim, FolderPrefixes, Component, Anchor, StartPos, DirExists, Valid, Open;
    var path := OUT_A_DOT + [SLASH] + name;
    OpensExactly(r, OUT_A_DOT + [SLASH], name);
    DottedStart(name);
    LastDelimIs(path, |OUT_A_DOT|);
    NoFolders(path);
  }

  /** And a file further below, "out/a./name/more", is refused with an error. */
  lemma DottedFolderFails(r: Receiver, name: Bytes, more: Bytes)
    requires Valid(r.disk) && !DirExists(r.disk, [OUT, A_DOT]) && ProperName(name)
    ensures Open(r, OUT_A_DOT + [SLASH], name + [SLASH] + more).status == Returned(false)
  {
    hide Resolve, LastDelim, FolderPrefixes, Component, Anchor, StartPos, Openable, DirExists, Valid, Open;
    var path := OUT_A_DOT + [SLASH] + (name + [SLASH] + more);
    var folder := OUT_A_DOT + [SLASH] + name;
    OpensExactly(r, OUT_A_DOT + [SLASH], name + [SLASH] + more);
    DottedStart(name + [SLASH] + more);
    assert path == folder + ([SLASH] + more);
    assert name != [] by { EmptyComponent(); }
    FirstPrefix(path, |folder|);
    assert path[..|folder|] == folder;
    FolderBelow(name);
  }

  lemma FolderBelow(name: Bytes)
    requires ProperName(name)
    ensures Resolve(OUT_A_DOT + [SLASH] + name) == [OUT, A_DOT] + Component(name)
  {
    hide Resolve, LastDelim, Component;
    var folder := OUT_A_DOT + [SLASH] + name;
    LastDelimIs(folder, |OUT_A_DOT|);
    ResolveAt(folder);
    assert folder[..|OUT_A_DOT|] == OUT_A_DOT && folder[|OUT_A_DOT| + 1..] == name;
    OutADot();
  }

  function Write(r: Receiver, payload: Bytes): Receiver
    requires OutputValid(r)
  {
    match r.out.target
    case Some(place) => r.(disk := r.disk.(files := r.disk.files[place := r.disk.files[place] + payload]))
    case None => r.(out := Output(None, false))
  }

  function Close(r: Receiver): Receiver {
    r.(out := Output(None, r.out.target.Some? && r.out.good))
  }

  /** One message. */
  function Receive(r: Receiver, dst: Bytes, msg: Bytes): (r': Receiver)
    requires OutputValid(r) && WellFormed(msg)
    ensures OutputValid(r')
  {
    if r.status != Running || msg == [] then r
    else
      var name := CStr(msg[1..]);
      var hdr := if IsFirst(msg[0]) then 2 + |name| else 1;
      var ready := if IsFirst(msg[0]) then Open(r, dst, name) else r;
      if ready.status != Running || !ready.out.good then ready
      else
        var written := Write(ready, msg[hdr..]);
        if IsEof(msg[0]) then Close(written) else written
  }

  function ReceiveAll(r: Receiver, dst: Bytes, msgs: seq<Bytes>): (r': Receiver)
    requires OutputValid(r) && forall m :: m in msgs ==> WellFormed(m)
    ensures OutputValid(r')
    decreases |msgs|
  {
    if msgs == [] then r else ReceiveAll(Receive(r, dst, msgs[0]), dst, msgs[1..])
  }

  function Start(disk: Disk): Receiver {
    Receiver(disk, Output(None, true), Running)
  }

  lemma {:induction false} ReceiveAllAppend(r: Receiver, dst: Bytes, a: seq<Bytes>, b: seq<Bytes>)
    requires OutputValid(r) && (forall m :: m in a ==> WellFormed(m)) && (forall m :: m in b ==> WellFormed(m))
    ensures forall m :: m in a + b ==> WellFormed(m)
    ensures ReceiveAll(r, dst, a + b) == ReceiveAll(ReceiveAll(r, dst, a), dst, b)
    decreases |a|
  {
    if a == [] {
      assert a + b == b;
    } else {
      assert (a + b)[1..] == a[1..] + b;
      ReceiveAllAppend(Receive(r, dst, a[0]), dst, a[1..], b);
    }
  }

  /** A message that does not start a file: a later segment, or a read that timed out. */
  predicate IsStray(msg: Bytes) {
    msg == [] || !IsFirst(msg[0])
  }

  /** While no file is open, such messages change nothing on the disk and do not stop the receiver. */
  lemma {:induction false} StraysIgnored(r: Receiver, dst: Bytes, msgs: seq<Bytes>)
    requires r.out.target == None && r.status == Running && forall m :: m in msgs ==> IsStray(m) && WellFormed(m)
    ensures var r' := ReceiveAll(r, dst, msgs);
      r'.disk == r.disk && r'.status == Running && r'.out.target == None
    decreases |msgs|
  {
    hide Open;
    if msgs != [] {
      assert msgs[0] in msgs;
      StraysIgnored(Receive(r, dst, msgs[0]), dst, msgs[1..]);
    }
  }

  /** A segment with EOF closes its file, so that such messages behind it are ignored. */
  lemma EofCloses(r: Receiver, dst: Bytes, msg: Bytes)
    requires OutputValid(r) && WellFormed(msg) && r.status == Running && msg != [] && IsEof(msg[0])
    requires !IsFirst(msg[0]) || Open(r, dst, CStr(msg[1..])).status == Running
    ensures Receive(r, dst, msg).out.target == None && Receive(r, dst, msg).status == Running
  {
    hide Open;
    if IsFirst(msg[0]) {
      OpenRunning(r, dst, CStr(msg[1..]));
    }
  }

  /** A first segment means the same whatever file was open before and in whatever state the stream was. */
  lemma FreshStart(r: Receiver, out: Output, dst: Bytes, msg: Bytes)
    requires OutputValid(r) && OutputValid(r.(out := out)) && WellFormed(msg)
    requires r.status == Running && msg != [] && IsFirst(msg[0])
    ensures var a, b := Receive(r, dst, msg), Receive(r.(out := out), dst, msg);
      a.disk == b.disk && a.status == b.status && (a.status == Running ==> a.out == b.out)
  {
    hide CreateAll, FolderPrefixes, Resolve, CanOpen, CStr, IsEof;
  }

  /** The incoming messages; an empty one is a read that timed out. */
  class Inbox {
    var messages: seq<Bytes>

    constructor (messages: seq<Bytes>)
      ensures this.messages == messages
    {
      this.messages := messages;
    }

    /** Copies the next message to the front of the buffer; the rest of the buffer keeps what it held. */
    method Read(buf: array<Byte>) returns (bytes: nat)
      requires messages != [] && |messages[0]| <= buf.Length
      modifies this, buf
      ensures messages == old(messages)[1..]
      ensures bytes == |old(messages)[0]|
      ensures buf[..] == old(messages)[0] + old(buf[bytes..])
    {
      var msg := messages[0];
      bytes := |msg|;
      forall i | 0 <= i < bytes {
        buf[i] := msg[i];
      }
      messages := messages[1..];
    }
  }

  /** Closes the current file, makes the folders for the new one and opens it. */
  method OpenFile(fs: FileSystem, dst: Bytes, filename: Bytes, out: Output) returns (out': Output, status: Status)
    modifies fs
    ensures Receiver(fs.disk, out', status) == Open(Receiver(old(fs.disk), out, Running), dst, filename)
  {
    hide CreateAll, FolderPrefixes, Resolve, CanOpen;
    out' := Output(None, out.target.Some? && out.good);
    var filepath := dst + filename;
    var created := CreateSubfolders(fs, filepath);
    if !created {
      return out', Returned(false);
    }
    var isOpen := fs.OpenTruncated(filepath);
    if !isOpen {
      return Output(None, false), Returned(true);
    }
    return Output(Some(Resolve(filepath)), true), Running;
  }

  /** Handles the message in the first `bytes` bytes of the buffer. */
  method ReceiveSegment(fs: FileSystem, dst: Bytes, buf: array<Byte>, bytes: nat, out: Output)
    returns (out': Output, status: Status)
    requires 0 < bytes <= buf.Length && WellFormed(buf[..bytes])
    requires OutputValid(Receiver(fs.disk, out, Running))
    modifies fs
    ensures Receiver(fs.disk, out', status) == Receive(Receiver(old(fs.disk), out, Running), dst, buf[..bytes])
  {
    hide Open, CStr;
    ghost var msg := buf[..bytes];
    var hdrSize := 1;
    var isFirst := IsFirst(buf[0]);
    var isEof := IsEof(buf[0]);
    out', status := out, Running;
    if isFirst {
      CStrOfPrefix(msg[1..], buf[bytes..]);
      assert buf[1..] == msg[1..] + buf[bytes..];
      var filename := CStr(buf[1..]);
      hdrSize := hdrSize + |filename| + 1;
      out', status := OpenFile(fs, dst, filename, out);
      if status != Running {
        return;
      }
    }
    if !out'.good {
      return;
    }
    if out'.target.Some? {
      assert buf[hdrSize..bytes] == msg[hdrSize..];
      fs.Append(out'.target.value, buf[hdrSize..bytes]);
    } else {
      out' := Output(None, false);
    }
    if isEof {
      out' := Output(None, out'.target.Some? && out'.good);
    }
  }

  /** Receives until the messages run out, which is when the break flag is raised. The result depends
      on the messages alone and not on what the buffer held before or between them. */
  method ReceiveFiles(src: Inbox, fs: FileSystem, dst: Bytes, buf: array<Byte>) returns (ok: bool)
    requires forall m :: m in src.messages ==> |m| <= buf.Length && WellFormed(m)
    modifies src, fs, buf
    ensures fs.disk == ReceiveAll(Start(old(fs.disk)), dst, old(src.messages)).disk
    ensures ok == (ReceiveAll(Start(old(fs.disk)), dst, old(src.messages)).status != Returned(false))
  {
    hide Receive, ReceiveAll;
    ghost var result := ReceiveAll(Start(fs.disk), dst, src.messages);
    var out := Output(None, true);
    while src.messages != []
      invariant forall m :: m in src.messages ==> |m| <= buf.Length && WellFormed(m)
      invariant OutputValid(Receiver(fs.disk, out, Running))
      invariant ReceiveAll(Receiver(fs.disk, out, Running), dst, src.messages) == result
      decreases |src.messages|
    {
      assert src.messages[0] in src.messages;
      FirstMessage(Receiver(fs.disk, out, Running), dst, src.messages);
      var bytes := src.Read(buf);
      if bytes == 0 {
        continue;
      }
      assert buf[..bytes] == buf[..][..bytes];
      var status;
      out, status := ReceiveSegment(fs, dst, buf, bytes, out);
      if status != Running {
        StoppedStays(Receiver(fs.disk, out, status), dst, src.messages);
        return status == Returned(true);
      }
    }
    NoMessage(Receiver(fs.disk, out, Running), dst);
    return true;
  }

  lemma FirstMessage(r: Receiver, dst: Bytes, msgs: seq<Bytes>)
    requires OutputValid(r) && msgs != [] && forall m :: m in msgs ==> WellFormed(m)
    ensures ReceiveAll(r, dst, msgs) == ReceiveAll(Receive(r, dst, msgs[0]), dst, msgs[1..])
    ensures msgs[0] == [] ==> Receive(r, dst, msgs[0]) == r
  {
  }

  lemma ReceiveCons(r: Receiver, dst: Bytes, m: Bytes, more: seq<Bytes>)
    requires OutputValid(r) && WellFormed(m) && forall m :: m in more ==> WellFormed(m)
    ensures ReceiveAll(r, dst, [m] + more) == ReceiveAll(Receive(r, dst, m), dst, more)
  {
    assert ([m] + more)[1..] == more;
  }

  lemma NoMessage(r: Receiver, dst: Bytes)
    requires OutputValid(r)
    ensures ReceiveAll(r, dst, []) == r
  {
  }

  lemma {:induction false} StoppedStays(r: Receiver, dst: Bytes, msgs: seq<Bytes>)
    requires OutputValid(r) && r.status != Running && forall m :: m in msgs ==> WellFormed(m)
    ensures ReceiveAll(r, dst, msgs) == r
    decreases |msgs|
  {
    if msgs != [] {
      StoppedStays(r, dst, msgs[1..]);
    }
  }
}
