/** The file transfer as a whole: what the receiver's disk holds after any part of a transmission. */
module RoundTrip {
  import opened Prelude
  import opened Runtime
  import opened Framing
  import opened SendPlan
  import opened FileSend
  import opened Disk
  import opened Folders
  import opened FileReceive
  import opened Transfer

  /** An upload of which something is sent: an empty file sends no message at all. */
  predicate Sends(u: Upload) {
    u.file.Some? && u.file.value.data != []
  }

  function PathOf(dst: Bytes, u: Upload): Bytes {
    dst + CStr(u.name)
  }

  function PlaceOf(dst: Bytes, u: Upload): Place {
    Resolve(PathOf(dst, u))
  }

  function FoldersOf(dst: Bytes, u: Upload): set<Place> {
    Places(FolderPrefixes(PathOf(dst, u)))
  }

  /** The disk can take this upload: the receiver opens a file for it (`FileReceive.OpensExactly`). */
  ghost predicate Receivable(disk: Disk, dst: Bytes, u: Upload) {
    Openable(disk, PathOf(dst, u))
  }

  /** The disk can take every upload, and no upload's file is in the way of another's folders. */
  ghost predicate AllReceivable(disk: Disk, dst: Bytes, uploads: seq<Upload>) {
    && Valid(disk)
    && (forall u :: u in uploads && Sends(u) ==> Receivable(disk, dst, u))
    && (forall u, v :: u in uploads && v in uploads && Sends(u) && Sends(v) ==> PlaceOf(dst, u) !in FoldersOf(dst, v))
  }

  /** The scan for folders starts in the working folder or the root, or in a folder directly below that
      is itself the first one asked for. */
  predicate StartsAtTop(path: Bytes) {
    var anchor, paths := Anchor(path), FolderPrefixes(path);
    || anchor == [] || anchor == [ROOT]
    || (paths != [] && Resolve(paths[0]) == anchor && (anchor[..|anchor| - 1] == [] || anchor[..|anchor| - 1] == [ROOT]))
  }

  const EMPTY_DISK := Disk(map[], {})

  /** On an empty disk a receiver opens an upload exactly when its path ends in a proper name and the
      scan starts at the top. */
  lemma EmptyDiskTakes(dst: Bytes, u: Upload)
    ensures var path := PathOf(dst, u);
      Open(Start(EMPTY_DISK), dst, CStr(u.name)).status == Running
      <==> Component(path[LastDelim(path) + 1..]) != [] && StartsAtTop(path)
  {
    hide Open, CStr, Valid, Openable, StartsAtTop, Component, LastDelim;
    EmptyValid();
    EmptyOpenable(PathOf(dst, u));
    OpensExactly(Start(EMPTY_DISK), dst, CStr(u.name));
  }

  lemma EmptyOpenable(path: Bytes)
    ensures Openable(EMPTY_DISK, path) <==> Component(path[LastDelim(path) + 1..]) != [] && StartsAtTop(path)
  {
    hide Resolve, FolderPrefixes, LastDelim, Component, DirExists, StartReachable, StartsAtTop;
    EmptyStart(path);
    if Component(path[LastDelim(path) + 1..]) != [] {
      NeverFolder(path);
    }
  }

  lemma NeverFolder(path: Bytes)
    requires Component(path[LastDelim(path) + 1..]) != []
    ensures !DirExists(EMPTY_DISK, Resolve(path))
  {
    hide Resolve, LastDelim, Component;
    NeverRoot(path);
  }

  lemma EmptyStart(path: Bytes)
    ensures StartReachable(EMPTY_DISK, path) <==> StartsAtTop(path)
  {
    hide Resolve, Anchor, FolderPrefixes;
  }

  lemma EmptyValid()
    ensures Valid(EMPTY_DISK)
  {
  }

  lemma NeverRoot(path: Bytes)
    requires Component(path[LastDelim(path) + 1..]) != []
    ensures Resolve(path) != [] && Resolve(path) != [ROOT]
  {
    hide Resolve, FolderPart, LastDelim, Component;
    var name := path[LastDelim(path) + 1..];
    ResolveAt(path);
    ProperComponent(name);
    assert Resolve(path)[|FolderPart(path)|] == name;
    assert ROOT[0] == SLASH;
  }

  lemma ProperComponent(name: Bytes)
    requires Component(name) != []
    ensures Component(name) == [name]
  {
  }

  /** What the uploads put on the disk: every file that is not empty under its name; of several
      files with the same place the last one stays. */
  function Delivered(dst: Bytes, uploads: seq<Upload>): map<Place, Bytes> {
    if uploads == [] then map[]
    else
      var u := uploads[0];
      (if Sends(u) then map[PlaceOf(dst, u) := u.file.value.data] else map[]) + Delivered(dst, uploads[1..])
  }

  function NewFolders(dst: Bytes, uploads: seq<Upload>): set<Place> {
    if uploads == [] then {}
    else (if Sends(uploads[0]) then FoldersOf(dst, uploads[0]) - {[], [ROOT]} else {}) + NewFolders(dst, uploads[1..])
  }

  /** The disk after one upload that it can take. */
  function After(disk: Disk, dst: Bytes, u: Upload): Disk
    requires u.file.Some?
  {
    Disk(disk.files[PlaceOf(dst, u) := u.file.value.data], disk.dirs + (FoldersOf(dst, u) - {[], [ROOT]}))
  }

  /** A receiver opens an upload if and only if the disk can take it, and then it has discarded what
      the file held and made the folders on the way. */
  lemma OpenSucceeds(r: Receiver, dst: Bytes, u: Upload)
    requires Valid(r.disk)
    ensures var opn := Open(r, dst, CStr(u.name));
      && (opn.status == Running <==> Receivable(r.disk, dst, u))
      && (opn.status == Running ==>
            && opn.disk.files == r.disk.files[PlaceOf(dst, u) := []]
            && opn.disk.dirs == r.disk.dirs + (FoldersOf(dst, u) - {[], [ROOT]})
            && Valid(opn.disk))
  {
    hide CreateAll, FolderPrefixes, Resolve, Valid, CanOpen, Created, CStr, Openable, Places;
    var path := PathOf(dst, u);
    OpensExactly(r, dst, CStr(u.name));
    if Receivable(r.disk, dst, u) {
      var made := CreateAll(r.disk, FolderPrefixes(path));
      OpenableExactly(r.disk, path);
      CreatedFacts(r.disk, FolderPrefixes(path), made.1);
      CanOpenFacts(made.1, path);
      FileInPlace(made.1, PlaceOf(dst, u), []);
    }
  }

  lemma CreatedFacts(disk: Disk, paths: seq<Bytes>, after: Disk)
    requires Created(disk, paths, true, after)
    ensures Valid(after) && after.files == disk.files && after.dirs == disk.dirs + (Places(paths) - {[], [ROOT]})
  {
  }

  lemma CanOpenFacts(disk: Disk, path: Bytes)
    requires CanOpen(disk, path)
    ensures Resolve(path) != [] && ParentExists(disk, Resolve(path)) && !DirExists(disk, Resolve(path))
  {
    hide Resolve;
  }

  /** A file may appear or change wherever its folder exists and no folder has its place. */
  lemma FileInPlace(disk: Disk, place: Place, bytes: Bytes)
    requires Valid(disk) && place != [] && ParentExists(disk, place) && !DirExists(disk, place)
    ensures Valid(disk.(files := disk.files[place := bytes]))
  {
  }

  /** One upload, received. */
  lemma UploadReceived(r: Receiver, dst: Bytes, u: Upload, size: nat)
    requires OutputValid(r) && r.status == Running && Valid(r.disk) && Fits(u, size)
    requires Sends(u) ==> Receivable(r.disk, dst, u)
    ensures forall m :: m in UploadSegments(u, size) ==> WellFormed(m) && |m| <= size
    ensures var r' := ReceiveAll(r, dst, UploadSegments(u, size));
      && OutputValid(r') && r'.status == Running && Valid(r'.disk)
      && r'.disk == if Sends(u) then After(r.disk, dst, u) else r.disk
  {
    hide Receive, ReceiveAll, WellFormed, Open, Resolve, CStr, FolderPrefixes, EofSent, Segments, Receivable, Written;
    var segs := UploadSegments(u, size);
    if Sends(u) {
      var src := u.file.value;
      OpenSucceeds(r, dst, u);
      var opn := Open(r, dst, CStr(u.name));
      OpenRunning(r, dst, CStr(u.name));
      FileReceived(r, dst, u.name, src, size);
      var hdr := NameHeader(u.name);
      assert 0 in hdr by { assert hdr[|hdr| - 1] == 0; }
      SegmentsWellFormed(hdr, src, size);
      WrittenAfterOpen(opn, r.disk, dst, u, EofSent(segs));
    } else {
      assert segs == [] by { NoSegments(u, size); }
      NoMessage(r, dst);
    }
  }

  lemma WrittenAfterOpen(opn: Receiver, disk: Disk, dst: Bytes, u: Upload, closed: bool)
    requires Sends(u) && Valid(opn.disk)
    requires opn.disk.files == disk.files[PlaceOf(dst, u) := []]
    requires opn.disk.dirs == disk.dirs + (FoldersOf(dst, u) - {[], [ROOT]})
    ensures var w := Written(opn, PlaceOf(dst, u), u.file.value.data, closed);
      w.disk == After(disk, dst, u) && Valid(w.disk) && OutputValid(w) && w.status == Running
  {
    hide Resolve, PlaceOf, FoldersOf;
    assert [] + u.file.value.data == u.file.value.data;
  }

  lemma NoSegments(u: Upload, size: nat)
    requires Fits(u, size) && !Sends(u)
    ensures UploadSegments(u, size) == []
  {
  }

  /** An upload leaves the disk able to take another whose folders it does not block. */
  lemma StillReceivable(disk: Disk, dst: Bytes, u: Upload, v: Upload)
    requires Valid(disk) && Sends(u) && Receivable(disk, dst, u) && Receivable(disk, dst, v)
    requires PlaceOf(dst, u) !in FoldersOf(dst, v) && PlaceOf(dst, v) !in FoldersOf(dst, u)
    ensures Receivable(After(disk, dst, u), dst, v)
  {
    assert PlaceOf(dst, v) == Resolve(PathOf(dst, v)) && FoldersOf(dst, v) == Places(FolderPrefixes(PathOf(dst, v)));
    hide PathOf, Resolve, FolderPrefixes, StartReachable, Valid, LastDelim, Component, After, DirExists, PlaceOf, FoldersOf;
    StillFree(disk, dst, u, PathOf(dst, v));
    AfterGrows(disk, dst, u);
    StartStays(disk, After(disk, dst, u), PathOf(dst, v));
  }

  /** An upload neither becomes a folder on the way to another one, nor puts a folder in its place. */
  lemma StillFree(disk: Disk, dst: Bytes, u: Upload, path: Bytes)
    requires Sends(u) && PlaceOf(dst, u) !in Places(FolderPrefixes(path)) && Resolve(path) !in FoldersOf(dst, u)
    requires !DirExists(disk, Resolve(path)) && forall q :: q in FolderPrefixes(path) ==> Resolve(q) !in disk.files
    ensures !DirExists(After(disk, dst, u), Resolve(path))
    ensures forall q :: q in FolderPrefixes(path) ==> Resolve(q) !in After(disk, dst, u).files
  {
    hide Resolve, FolderPrefixes, PlaceOf, FoldersOf, Places;
    forall q | q in FolderPrefixes(path) ensures Resolve(q) !in After(disk, dst, u).files {
      InPlaces(FolderPrefixes(path), q);
    }
  }

  lemma AfterGrows(disk: Disk, dst: Bytes, u: Upload)
    requires Sends(u)
    ensures disk.dirs <= After(disk, dst, u).dirs
  {
    hide PlaceOf, FoldersOf;
  }

  lemma StartStays(disk: Disk, after: Disk, path: Bytes)
    requires disk.dirs <= after.dirs && StartReachable(disk, path)
    ensures StartReachable(after, path)
  {
    hide Resolve, Anchor, FolderPrefixes;
  }

  lemma AllStillReceivable(disk: Disk, dst: Bytes, u: Upload, rest: seq<Upload>)
    requires AllReceivable(disk, dst, [u] + rest) && Sends(u)
    requires Valid(After(disk, dst, u))
    ensures AllReceivable(After(disk, dst, u), dst, rest)
  {
    hide Receivable, Valid, PlaceOf, FoldersOf, After;
    forall v | v in rest && Sends(v) ensures Receivable(After(disk, dst, u), dst, v) {
      assert u in [u] + rest && v in [u] + rest;
      StillReceivable(disk, dst, u, v);
    }
  }

  /** The disk after all the uploads: what it held before, with exactly each non-empty file's bytes
      under its name and the folders on the way to them. */
  function AfterAll(disk: Disk, dst: Bytes, uploads: seq<Upload>): Disk {
    Disk(disk.files + Delivered(dst, uploads), disk.dirs + NewFolders(dst, uploads))
  }

  lemma AfterAllStep(disk: Disk, dst: Bytes, u: Upload, rest: seq<Upload>)
    ensures AfterAll(disk, dst, []) == disk
    ensures AfterAll(disk, dst, [u] + rest) == AfterAll(if Sends(u) then After(disk, dst, u) else disk, dst, rest)
  {
    hide PlaceOf, FoldersOf;
    var all := [u] + rest;
    assert all[1..] == rest;
    var mine := if Sends(u) then map[PlaceOf(dst, u) := u.file.value.data] else map[];
    assert disk.files + (mine + Delivered(dst, rest)) == (disk.files + mine) + Delivered(dst, rest);
    var folders := if Sends(u) then FoldersOf(dst, u) - {[], [ROOT]} else {};
    assert disk.dirs + (folders + NewFolders(dst, rest)) == (disk.dirs + folders) + NewFolders(dst, rest);
    if Sends(u) {
      assert disk.files + mine == After(disk, dst, u).files;
    }
  }

  lemma AllSegmentsStep(u: Upload, rest: seq<Upload>, size: nat)
    requires Fits(u, size) && forall v :: v in rest ==> Fits(v, size)
    ensures forall v :: v in [u] + rest ==> Fits(v, size)
    ensures AllSegments([u] + rest, size) == UploadSegments(u, size) + AllSegments(rest, size)
  {
    assert ([u] + rest)[1..] == rest;
  }

  /** The whole run: after the messages of all the uploads the receiver's disk is exactly that. */
  lemma {:induction false} AllReceived(r: Receiver, dst: Bytes, uploads: seq<Upload>, size: nat)
    requires OutputValid(r) && r.status == Running
    requires AllReceivable(r.disk, dst, uploads) && forall u :: u in uploads ==> Fits(u, size)
    ensures forall m :: m in AllSegments(uploads, size) ==> WellFormed(m) && |m| <= size
    ensures ReceiveAll(r, dst, AllSegments(uploads, size)).status == Running
    ensures ReceiveAll(r, dst, AllSegments(uploads, size)).disk == AfterAll(r.disk, dst, uploads)
    decreases |uploads|
  {
    hide ReceiveAll, WellFormed, Receivable, Valid, UploadSegments, AllSegments, PlaceOf, FoldersOf, After, AfterAll;
    if uploads == [] {
      NoUploads(r, dst, size);
    } else {
      var u, rest := uploads[0], uploads[1..];
      assert uploads == [u] + rest && u in uploads;
      UploadReceived(r, dst, u, size);
      var r' := ReceiveAll(r, dst, UploadSegments(u, size));
      if Sends(u) {
        AllStillReceivable(r.disk, dst, u, rest);
      }
      AllReceived(r', dst, rest, size);
      AllSegmentsStep(u, rest, size);
      AfterAllStep(r.disk, dst, u, rest);
      ReceiveAllAppend(r, dst, UploadSegments(u, size), AllSegments(rest, size));
    }
  }

  /** A receiver that comes in the middle of a transmission ignores the rest of the file it does not know,
      and receives all that follows. */
  lemma LateStart(disk: Disk, dst: Bytes, rest: seq<Bytes>, uploads: seq<Upload>, size: nat)
    requires forall m :: m in rest ==> IsStray(m) && WellFormed(m)
    requires AllReceivable(disk, dst, uploads) && forall u :: u in uploads ==> Fits(u, size)
    ensures forall m :: m in rest + AllSegments(uploads, size) ==> WellFormed(m)
    ensures ReceiveAll(Start(disk), dst, rest + AllSegments(uploads, size)).disk == AfterAll(disk, dst, uploads)
  {
    hide ReceiveAll, AllReceivable, AllSegments, AfterAll, WellFormed, IsStray;
    StraysIgnored(Start(disk), dst, rest);
    var r := ReceiveAll(Start(disk), dst, rest);
    AllReceived(r, dst, uploads, size);
    ReceiveAllAppend(Start(disk), dst, rest, AllSegments(uploads, size));
  }

  lemma NoUploads(r: Receiver, dst: Bytes, size: nat)
    requires OutputValid(r)
    ensures AllSegments([], size) == [] && ReceiveAll(r, dst, []) == r && AfterAll(r.disk, dst, []) == r.disk
  {
    hide Receive;
  }

  /** Upload `i` is the last one that sends anything to `place`. */
  ghost predicate IsLastAt(dst: Bytes, uploads: seq<Upload>, place: Place, i: int) {
    && 0 <= i < |uploads| && Sends(uploads[i]) && PlaceOf(dst, uploads[i]) == place
    && (forall j :: i < j < |uploads| && Sends(uploads[j]) ==> PlaceOf(dst, uploads[j]) != place)
  }

  /** What arrives under a place, pointwise: the last upload there that sends anything, in full, and
      nothing under any other place. */
  lemma {:induction false} DeliveredExactly(dst: Bytes, uploads: seq<Upload>, place: Place)
    ensures place in Delivered(dst, uploads) <==> exists u :: u in uploads && Sends(u) && PlaceOf(dst, u) == place
    ensures forall i :: IsLastAt(dst, uploads, place, i) ==>
      place in Delivered(dst, uploads) && Delivered(dst, uploads)[place] == uploads[i].file.value.data
    decreases |uploads|
  {
    hide PlaceOf;
    if uploads != [] {
      DeliveredExactly(dst, uploads[1..], place);
      assert forall u :: u in uploads <==> u == uploads[0] || u in uploads[1..];
      forall i | IsLastAt(dst, uploads, place, i)
        ensures place in Delivered(dst, uploads) && Delivered(dst, uploads)[place] == uploads[i].file.value.data
      {
        if i > 0 {
          assert IsLastAt(dst, uploads[1..], place, i - 1);
        }
      }
    }
  }

  // ---------- transmissions that stop early

  /** The first messages of a file are the messages of a first part of it: all of them are full, so
      none of them tells. */
  lemma {:induction false} SegmentsCut(hdr: Bytes, src: Source, size: nat, m: nat) returns (n: nat)
    requires |hdr| + 1 < size && m <= |Segments(hdr, src, size)|
    ensures n <= |src.data| && (m == |Segments(hdr, src, size)| ==> n == |src.data|)
    ensures Segments(hdr, src.(data := src.data[..n]), size) == Segments(hdr, src, size)[..m]
    decreases |src.data|
  {
    hide NextMessage;
    if m == 0 {
      n := 0;
    } else {
      var taken, rest := Taken(hdr, src, size), Rest(hdr, src, size);
      var n' := SegmentsCut([], rest, size, m - 1);
      n := taken + n';
      var cut := src.(data := src.data[..n]);
      if n < |src.data| {
        FullMessage(hdr, src, cut, size);
        assert cut.data[taken..] == rest.data[..n'];
      } else {
        assert cut == src && rest.data[..n'] == rest.data;
      }
      assert Segments(hdr, src, size)[..m] == [NextMessage(hdr, src, size)] + Segments([], rest, size)[..m - 1];
    }
  }

  lemma FullMessage(hdr: Bytes, src: Source, cut: Source, size: nat)
    requires |hdr| + 1 < size && cut.data <= src.data && |src.data| > |cut.data| >= Taken(hdr, src, size)
    requires cut.faulty == src.faulty
    ensures NextMessage(hdr, cut, size) == NextMessage(hdr, src, size) && Taken(hdr, cut, size) == Taken(hdr, src, size)
  {
    var n := Taken(hdr, src, size);
    assert cut.data[..n] == src.data[..n];
  }

  /** A first part of an upload. */
  predicate IsShortened(c: Upload, u: Upload) {
    && c.name == u.name
    && (c.file == u.file
        || (c.file.Some? && u.file.Some? && c.file.value.data <= u.file.value.data
            && c.file.value.faulty == u.file.value.faulty))
  }

  /** A first part of a list of uploads: some of them whole, then possibly a first part of the next. */
  predicate IsCut(cut: seq<Upload>, uploads: seq<Upload>) {
    && |cut| <= |uploads|
    && (forall i :: 0 <= i < |cut| - 1 ==> cut[i] == uploads[i])
    && (cut != [] ==> IsShortened(cut[|cut| - 1], uploads[|cut| - 1]))
  }

  lemma UploadCut(u: Upload, size: nat, m: nat) returns (c: Upload)
    requires Fits(u, size) && m <= |UploadSegments(u, size)|
    ensures IsShortened(c, u) && UploadSegments(c, size) == UploadSegments(u, size)[..m]
  {
    c := u;
    if u.file.Some? {
      var n := SegmentsCut(NameHeader(u.name), u.file.value, size, m);
      c := Upload(u.name, Some(u.file.value.(data := u.file.value.data[..n])));
    }
  }

  lemma {:induction false} StreamCut(uploads: seq<Upload>, size: nat, m: nat) returns (cut: seq<Upload>)
    requires forall u :: u in uploads ==> Fits(u, size)
    requires m <= |AllSegments(uploads, size)|
    ensures IsCut(cut, uploads) && forall c :: c in cut ==> Fits(c, size)
    ensures AllSegments(cut, size) == AllSegments(uploads, size)[..m]
    decreases |uploads|
  {
    hide UploadSegments;
    if uploads == [] {
      cut := [];
    } else {
      var u, rest := uploads[0], uploads[1..];
      assert uploads == [u] + rest;
      AllSegmentsStep(u, rest, size);
      var mine := UploadSegments(u, size);
      if m <= |mine| {
        var c := UploadCut(u, size, m);
        cut := [c];
        AllSegmentsStep(c, [], size);
        assert [c] + [] == cut && UploadSegments(c, size) + [] == mine[..m];
      } else {
        var cut' := StreamCut(rest, size, m - |mine|);
        cut := [u] + cut';
        AllSegmentsStep(u, cut', size);
      }
    }
  }

  lemma CutReceivable(disk: Disk, dst: Bytes, cut: seq<Upload>, uploads: seq<Upload>)
    requires IsCut(cut, uploads) && AllReceivable(disk, dst, uploads)
    ensures AllReceivable(disk, dst, cut)
  {
    hide Receivable, Valid, PlaceOf, FoldersOf;
    forall c | c in cut && Sends(c)
      ensures Receivable(disk, dst, c)
      ensures exists u :: u in uploads && Sends(u) && u.name == c.name
    {
      var u := Original(cut, uploads, c);
      SameName(disk, dst, c, u);
    }
    forall c, d | c in cut && d in cut && Sends(c) && Sends(d) ensures PlaceOf(dst, c) !in FoldersOf(dst, d) {
      var u := Original(cut, uploads, c);
      var v := Original(cut, uploads, d);
      SameName(disk, dst, c, u);
      SameName(disk, dst, d, v);
    }
  }

  lemma SameName(disk: Disk, dst: Bytes, c: Upload, u: Upload)
    requires c.name == u.name
    ensures PlaceOf(dst, c) == PlaceOf(dst, u) && FoldersOf(dst, c) == FoldersOf(dst, u)
    ensures Receivable(disk, dst, c) == Receivable(disk, dst, u)
  {
  }

  lemma Original(cut: seq<Upload>, uploads: seq<Upload>, c: Upload) returns (u: Upload)
    requires IsCut(cut, uploads) && c in cut && Sends(c)
    ensures u in uploads && Sends(u) && u.name == c.name
  {
    var i :| 0 <= i < |cut| && cut[i] == c;
    u := uploads[i];
  }

  /** A first part of the uploads with exactly these messages. */
  ghost predicate CutAt(cut: seq<Upload>, uploads: seq<Upload>, size: nat, msgs: seq<Bytes>) {
    IsCut(cut, uploads) && (forall c :: c in cut ==> Fits(c, size)) && AllSegments(cut, size) == msgs
  }

  /** Whatever initial part of the message stream arrives, the disk holds exactly a first part of the
      uploads: some files whole, at most one file short, no byte out of place. */
  lemma PartialRun(disk: Disk, dst: Bytes, uploads: seq<Upload>, size: nat, msgs: seq<Bytes>)
    requires AllReceivable(disk, dst, uploads) && forall u :: u in uploads ==> Fits(u, size)
    requires msgs <= AllSegments(uploads, size)
    ensures forall m :: m in msgs ==> WellFormed(m) && |m| <= size
    ensures exists cut :: CutAt(cut, uploads, size, msgs) && ReceiveAll(Start(disk), dst, msgs).disk == AfterAll(disk, dst, cut)
    ensures ReceiveAll(Start(disk), dst, msgs).status == Running
  {
    hide ReceiveAll, AllReceivable, IsCut, AfterAll, WellFormed;
    var cut := StreamCut(uploads, size, |msgs|);
    CutReceivable(disk, dst, cut, uploads);
    assert Start(disk).disk == disk;
    AllReceived(Start(disk), dst, cut, size);
    assert msgs == AllSegments(cut, size);
  }

  /** A transfer over a reliable message channel, for all answers of the socket and any break: the
      receiver ends up with the first part of the uploads whose messages are those sent, and with all
      of them when all messages are sent, in particular when nothing disturbs the transmission. */
  method TransferFiles(uploads: seq<Upload>, answers: seq<Answer>, quietReads: Option<nat>, fs: FileSystem, dst: Bytes,
                       sendBuf: array<Byte>, receiveBuf: array<Byte>)
    returns (ok: bool)
    requires sendBuf.Length <= receiveBuf.Length
    requires forall u :: u in uploads ==> Fits(u, sendBuf.Length)
    requires AllReceivable(fs.disk, dst, uploads)
    modifies fs, sendBuf, receiveBuf
    ensures ok
    ensures exists cut :: CutAt(cut, uploads, sendBuf.Length, Sent(uploads, sendBuf.Length, answers, quietReads))
                          && fs.disk == AfterAll(old(fs.disk), dst, cut)
    ensures Sent(uploads, sendBuf.Length, answers, quietReads) == AllSegments(uploads, sendBuf.Length) ==>
      fs.disk == AfterAll(old(fs.disk), dst, uploads)
    ensures Undisturbed(uploads, sendBuf.Length, answers, quietReads) ==> fs.disk == AfterAll(old(fs.disk), dst, uploads)
  {
    hide ReceiveAll, AllSegments, AllReceivable, CutAt, AfterAll, WellFormed, Plan, Execute, Undisturbed;
    var sock := new MessageSocket(answers);
    var forceBreak := new BreakToken(quietReads);
    var raised := SendFiles(uploads, sock, sendBuf, forceBreak);
    SentExactly(uploads, sendBuf.Length, answers, quietReads);
    assert sock.sent == Sent(uploads, sendBuf.Length, answers, quietReads);
    PartialRun(fs.disk, dst, uploads, sendBuf.Length, sock.sent);
    AllReceived(Start(fs.disk), dst, uploads, sendBuf.Length);
    var inbox := new Inbox(sock.sent);
    ok := ReceiveFiles(inbox, fs, dst, receiveBuf);
  }
}
