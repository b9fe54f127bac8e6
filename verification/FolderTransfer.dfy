/** Sending a folder into a folder: walk, naming, segmentation and reassembly together. */
module FolderTransfer {
  import opened Prelude
  import opened Framing
  import opened SendPlan
  import opened Disk
  import opened Folders
  import opened Directory
  import opened Mirror
  import opened RoundTrip

  /** The upload for one path of the list. */
  function UploadOf(v: Volume, src: Bytes, path: Bytes): Upload {
    Upload(RelativePath(path, src), if path in v && v[path].File? then Some(Source(v[path].content, false)) else None)
  }

  /** The upload of a file of the tree. */
  function UploadFor(src: Bytes, f: Found): Upload
    requires f.at != []
  {
    Upload(RelativeName(src, f.at), Some(Source(f.content, false)))
  }

  lemma {:induction false} CStrOfClean(s: Bytes)
    requires 0 !in s
    ensures CStr(s) == s
    decreases |s|
  {
    if s != [] {
      assert s == [s[0]] + s[1..];
      CStrOfClean(s[1..]);
    }
  }

  lemma {:induction false} NameIsClean(src: Bytes, at: Place)
    requires at != [] && ProperNames(at)
    ensures 0 !in RelativeName(src, at)
    decreases |at|
  {
    hide RelativeName, Spell;
    RelativeNameStep(src, at);
    assert ValidName(at[|at| - 1]);
    if |at| > 1 {
      NameIsClean(src, at[..|at| - 1]);
    }
  }

  /** The walk's paths lead to the files of the tree. */
  lemma {:induction false} FoundInVolume(v: Volume, src: Bytes, at: Place, node: Node, f: Found)
    requires Coherent(v) && Spell(src, at) in v && v[Spell(src, at)] == node
    requires f in Files(at, node)
    ensures Spell(src, f.at) in v && v[Spell(src, f.at)] == File(f.content)
    decreases node
  {
    if node.Folder? {
      EntryInVolume(v, src, at, node.entries, node.entries, f);
    }
  }

  lemma {:induction false} EntryInVolume(v: Volume, src: Bytes, at: Place, entries: seq<Entry>, all: seq<Entry>, f: Found)
    requires Coherent(v) && Spell(src, at) in v && v[Spell(src, at)] == Folder(all)
    requires (forall e :: e in entries ==> e in all) && f in FilesOf(at, entries)
    ensures Spell(src, f.at) in v && v[Spell(src, f.at)] == File(f.content)
    decreases entries
  {
    var e := entries[0];
    if f in Files(at + [e.name], e.node) {
      SpellStep(src, at, e.name);
      assert e in v[Spell(src, at)].entries;
      FoundInVolume(v, src, at + [e.name], e.node, f);
    } else {
      EntryInVolume(v, src, at, entries[1..], all, f);
    }
  }

  /** Every path of the list is that of a file of the tree, and its upload is that file's. */
  lemma UploadOfFound(v: Volume, src: Bytes, f: Found)
    requires Coherent(v) && IsDirectory(v, src) && ValidTree(v[src]) && f in Files([], v[src])
    ensures f.at != [] && ProperNames(f.at)
    ensures UploadOf(v, src, Spell(src, f.at)) == UploadFor(src, f)
    ensures CStr(RelativeName(src, f.at)) == RelativeName(src, f.at)
  {
    hide RelativePath, Coherent, ValidTree, CStr;
    FilesBelow([], v[src], f);
    FoundInVolume(v, src, [], v[src], f);
    NameIsClean(src, f.at);
    CStrOfClean(RelativeName(src, f.at));
  }

  /** Where the upload of a file lands. */
  lemma UploadPlace(src: Bytes, dst: Bytes, f: Found)
    requires f.at != [] && ProperNames(f.at) && JoinsCleanly(src, dst)
    requires CStr(RelativeName(src, f.at)) == RelativeName(src, f.at)
    ensures PlaceOf(dst, UploadFor(src, f)) == Resolve(dst) + f.at
  {
    hide RelativeName, Resolve, CStr;
    LandsBelow(src, dst, f.at);
  }

  /** The folders an upload asks for are strictly on the way to its file. */
  lemma FoldersOnTheWay(dst: Bytes, u: Upload, place: Place)
    requires place in FoldersOf(dst, u)
    requires Component(PathOf(dst, u)[LastDelim(PathOf(dst, u)) + 1..]) != []
    ensures place < PlaceOf(dst, u)
  {
    hide Resolve, LastDelim, Component, CStr, FolderPrefixes;
    var path := PathOf(dst, u);
    var q :| q in FolderPrefixes(path) && Resolve(q) == place;
    PrefixPlace(path, |q|);
  }

  /** No file of the tree is in the way of another's folders. */
  lemma NotInTheWay(src: Bytes, dst: Bytes, node: Node, f: Found, g: Found)
    requires ValidTree(node) && node.Folder? && f in Files([], node) && g in Files([], node)
    ensures !(Resolve(dst) + f.at < Resolve(dst) + g.at)
  {
    hide Resolve, ValidTree, Files;
    if Resolve(dst) + f.at < Resolve(dst) + g.at {
      var base := Resolve(dst);
      assert (base + f.at)[|base|..] == f.at && (base + g.at)[|base|..] == g.at;
      assert f.at <= g.at && f != g;
      var i :| 0 <= i < |Files([], node)| && Files([], node)[i] == f;
      var j :| 0 <= j < |Files([], node)| && Files([], node)[j] == g;
      FilesApart([], node, Min(i, j), Max(i, j));
    }
  }

  function Uploads(v: Volume, src: Bytes, filenames: seq<Bytes>): (r: seq<Upload>)
    ensures |r| == |filenames| && forall i :: 0 <= i < |r| ==> r[i] == UploadOf(v, src, filenames[i])
  {
    seq(|filenames|, i requires 0 <= i < |filenames| => UploadOf(v, src, filenames[i]))
  }

  /** `filenames` lists the files below the folder `src`, each once, in any order. */
  ghost predicate Lists(v: Volume, src: Bytes, filenames: seq<Bytes>) {
    && Coherent(v) && IsDirectory(v, src) && ValidTree(v[src])
    && multiset(filenames) == multiset(PathsBelow(v, src, []))
  }

  lemma UploadOrigin(v: Volume, src: Bytes, filenames: seq<Bytes>, u: Upload) returns (f: Found)
    requires Lists(v, src, filenames) && u in Uploads(v, src, filenames)
    ensures f in Files([], v[src]) && f.at != [] && ProperNames(f.at) && u == UploadFor(src, f)
    ensures CStr(RelativeName(src, f.at)) == RelativeName(src, f.at)
  {
    hide Coherent, ValidTree, UploadOf, CStr, Files;
    var i :| 0 <= i < |filenames| && UploadOf(v, src, filenames[i]) == u;
    assert filenames[i] in multiset(PathsBelow(v, src, []));
    assert filenames[i] in Spelled(src, Files([], v[src]));
    var k :| 0 <= k < |Files([], v[src])| && Spelled(src, Files([], v[src]))[k] == filenames[i];
    f := Files([], v[src])[k];
    UploadOfFound(v, src, f);
  }

  lemma UploadListed(v: Volume, src: Bytes, filenames: seq<Bytes>, f: Found)
    requires Lists(v, src, filenames) && f in Files([], v[src])
    ensures f.at != [] && ProperNames(f.at) && UploadFor(src, f) in Uploads(v, src, filenames)
    ensures CStr(RelativeName(src, f.at)) == RelativeName(src, f.at)
  {
    hide Coherent, ValidTree, UploadOf, CStr, Files;
    UploadOfFound(v, src, f);
    var k :| 0 <= k < |Files([], v[src])| && Files([], v[src])[k] == f;
    assert Spelled(src, Files([], v[src]))[k] in multiset(PathsBelow(v, src, []));
    assert Spell(src, f.at) in multiset(filenames);
    var i :| 0 <= i < |filenames| && filenames[i] == Spell(src, f.at);
    assert Uploads(v, src, filenames)[i] == UploadFor(src, f);
  }

  /** What the disk must offer each file of the tree that is not empty. */
  ghost predicate CanMirror(v: Volume, src: Bytes, disk: Disk, dst: Bytes) {
    && Valid(disk)
    && IsDirectory(v, src)
    && (forall f :: InTree(v[src], f) && f.content != [] && f.at != [] ==> Receivable(disk, dst, UploadFor(src, f)))
  }

  /** The list of a tree can be received as a whole. */
  lemma TreeReceivable(v: Volume, src: Bytes, filenames: seq<Bytes>, disk: Disk, dst: Bytes)
    requires Lists(v, src, filenames) && JoinsCleanly(src, dst) && CanMirror(v, src, disk, dst)
    ensures AllReceivable(disk, dst, Uploads(v, src, filenames))
  {
    hide Lists, Valid, ValidTree, Uploads, Receivable, Files, InTree, JoinsCleanly, CStr, UploadFor, PlaceOf, PathOf, FoldersOf;
    hide Component, LastDelim;
    var uploads := Uploads(v, src, filenames);
    forall u | u in uploads && Sends(u) ensures Receivable(disk, dst, u) {
      var f := UploadOrigin(v, src, filenames, u);
      FolderOfList(v, src, filenames);
      InFiles(v[src], f);
      SendsContent(src, f);
    }
    forall u, w | u in uploads && w in uploads && Sends(u) && Sends(w) ensures PlaceOf(dst, u) !in FoldersOf(dst, w) {
      var f := UploadOrigin(v, src, filenames, u);
      var g := UploadOrigin(v, src, filenames, w);
      SendsContent(src, g);
      ReceivableName(disk, dst, w);
      FolderOfList(v, src, filenames);
      UploadsApart(src, dst, v[src], f, g);
    }
  }

  lemma SendsContent(src: Bytes, f: Found)
    requires f.at != []
    ensures Sends(UploadFor(src, f)) <==> f.content != []
  {
  }

  /** A file with a name that is as it stands a C string. */
  ghost predicate CleanName(src: Bytes, f: Found) {
    f.at != [] && ProperNames(f.at) && CStr(RelativeName(src, f.at)) == RelativeName(src, f.at)
  }

  lemma UploadsApart(src: Bytes, dst: Bytes, node: Node, f: Found, g: Found)
    requires ValidTree(node) && node.Folder? && JoinsCleanly(src, dst)
    requires f in Files([], node) && CleanName(src, f)
    requires g in Files([], node) && CleanName(src, g)
    requires var path := PathOf(dst, UploadFor(src, g)); Component(path[LastDelim(path) + 1..]) != []
    ensures PlaceOf(dst, UploadFor(src, f)) !in FoldersOf(dst, UploadFor(src, g))
  {
    hide ValidTree, Files, JoinsCleanly, CStr, UploadFor, PlaceOf, FoldersOf, PathOf, RelativeName, Resolve, Component, LastDelim;
    UploadPlace(src, dst, f);
    UploadPlace(src, dst, g);
    NotInTheWay(src, dst, node, f, g);
    if PlaceOf(dst, UploadFor(src, f)) in FoldersOf(dst, UploadFor(src, g)) {
      FoldersOnTheWay(dst, UploadFor(src, g), PlaceOf(dst, UploadFor(src, f)));
    }
  }

  lemma FolderOfList(v: Volume, src: Bytes, filenames: seq<Bytes>)
    requires Lists(v, src, filenames)
    ensures IsDirectory(v, src) && ValidTree(v[src])
  {
  }

  lemma ReceivableName(disk: Disk, dst: Bytes, u: Upload)
    requires Receivable(disk, dst, u)
    ensures var path := PathOf(dst, u); Component(path[LastDelim(path) + 1..]) != []
  {
    hide PathOf, LastDelim, Component, Resolve, FolderPrefixes, StartReachable;
  }

  lemma {:induction false} LastIndex(dst: Bytes, uploads: seq<Upload>, place: Place, u: Upload) returns (i: nat)
    requires u in uploads && Sends(u) && PlaceOf(dst, u) == place
    ensures IsLastAt(dst, uploads, place, i)
    decreases |uploads|
  {
    hide PlaceOf;
    var rest := uploads[1..];
    if w :| w in rest && Sends(w) && PlaceOf(dst, w) == place {
      var k := LastIndex(dst, rest, place, w);
      i := k + 1;
      assert forall j :: i < j < |uploads| ==> uploads[j] == rest[j - 1];
    } else {
      assert forall j :: 0 < j < |uploads| ==> uploads[j] in rest;
      i := 0;
    }
  }

  /** The file of the tree that goes to a place, if any. */
  ghost predicate GoesTo(dst: Bytes, f: Found, place: Place) {
    f.content != [] && place == Resolve(dst) + f.at
  }

  /** The uploads of a tree put exactly its non-empty files below the destination. */
  lemma TreeDelivered(v: Volume, src: Bytes, filenames: seq<Bytes>, dst: Bytes, f: Found)
    requires Lists(v, src, filenames) && JoinsCleanly(src, dst)
    requires f in Files([], v[src]) && f.content != []
    ensures var d := Delivered(dst, Uploads(v, src, filenames));
      Resolve(dst) + f.at in d && d[Resolve(dst) + f.at] == f.content
  {
    hide Lists, Uploads, Files, JoinsCleanly, CStr, Resolve, UploadFor, PlaceOf, RelativeName, Delivered, IsDirectory;
    var uploads, place := Uploads(v, src, filenames), Resolve(dst) + f.at;
    UploadListed(v, src, filenames, f);
    UploadPlace(src, dst, f);
    SendsContent(src, f);
    var i := LastIndex(dst, uploads, place, UploadFor(src, f));
    DeliveredExactly(dst, uploads, place);
    var g := UploadOrigin(v, src, filenames, uploads[i]);
    UploadPlace(src, dst, g);
    SameTailPlace(Resolve(dst), f.at, g.at);
    SameContent(v, src, filenames, f, g);
    UploadContent(src, g);
  }

  lemma UploadContent(src: Bytes, f: Found)
    requires f.at != []
    ensures UploadFor(src, f).file.Some? && UploadFor(src, f).file.value.data == f.content
  {
  }

  lemma SameTailPlace(base: Place, a: Place, b: Place)
    requires base + a == base + b
    ensures a == b
  {
    assert (base + a)[|base|..] == a && (base + b)[|base|..] == b;
  }

  lemma SameContent(v: Volume, src: Bytes, filenames: seq<Bytes>, f: Found, g: Found)
    requires Lists(v, src, filenames) && f in Files([], v[src]) && g in Files([], v[src]) && f.at == g.at
    ensures f.content == g.content
  {
    hide Coherent, ValidTree, Files;
    FoundInVolume(v, src, [], v[src], f);
    FoundInVolume(v, src, [], v[src], g);
  }

  lemma DeliveredFromTree(v: Volume, src: Bytes, filenames: seq<Bytes>, dst: Bytes, place: Place) returns (f: Found)
    requires Lists(v, src, filenames) && JoinsCleanly(src, dst)
    requires place in Delivered(dst, Uploads(v, src, filenames))
    ensures f in Files([], v[src]) && GoesTo(dst, f, place)
  {
    hide Lists, Uploads, Files, JoinsCleanly, CStr, Resolve, UploadFor, PlaceOf, RelativeName, Delivered, IsDirectory;
    var uploads := Uploads(v, src, filenames);
    DeliveredExactly(dst, uploads, place);
    var u :| u in uploads && Sends(u) && PlaceOf(dst, u) == place;
    f := UploadOrigin(v, src, filenames, u);
    UploadPlace(src, dst, f);
    SendsContent(src, f);
  }

  /** `after` is `before` with the non-empty files of the tree at `src` below `dst`: each of them has
      exactly its bytes at its own place in the tree, and no other file has come, gone or changed. */
  ghost predicate Mirrored(v: Volume, src: Bytes, dst: Bytes, before: Disk, after: Disk)
    requires IsDirectory(v, src)
  {
    && (forall f :: InTree(v[src], f) && f.content != [] ==>
          Resolve(dst) + f.at in after.files && after.files[Resolve(dst) + f.at] == f.content)
    && (forall place :: place in before.files ==> place in after.files)
    && (forall place :: place in after.files ==>
          (exists f :: InTree(v[src], f) && GoesTo(dst, f, place))
          || (place in before.files && after.files[place] == before.files[place]))
  }

  lemma TreeMirrored(v: Volume, src: Bytes, filenames: seq<Bytes>, disk: Disk, dst: Bytes)
    requires Lists(v, src, filenames) && JoinsCleanly(src, dst)
    ensures Mirrored(v, src, dst, disk, AfterAll(disk, dst, Uploads(v, src, filenames)))
  {
    hide Lists, Uploads, Files, InTree, JoinsCleanly, Resolve, Delivered, NewFolders, GoesTo;
    assert IsDirectory(v, src) by { FolderOfList(v, src, filenames); }
    var uploads := Uploads(v, src, filenames);
    var after := AfterAll(disk, dst, uploads);
    forall f | InTree(v[src], f) && f.content != []
      ensures Resolve(dst) + f.at in after.files && after.files[Resolve(dst) + f.at] == f.content
    {
      InFiles(v[src], f);
      TreeDelivered(v, src, filenames, dst, f);
    }
    forall place | place in after.files
      ensures (exists f :: InTree(v[src], f) && GoesTo(dst, f, place))
        || (place in disk.files && after.files[place] == disk.files[place])
    {
      if place in Delivered(dst, uploads) {
        var f := DeliveredFromTree(v, src, filenames, dst, place);
        InFiles(v[src], f);
      }
    }
  }

  /** Every file of a tree can be opened and read. */
  lemma TreeReadable(v: Volume, src: Bytes, filenames: seq<Bytes>, size: nat)
    requires Lists(v, src, filenames)
    requires forall f :: InTree(v[src], f) && f.at != [] ==> |RelativeName(src, f.at)| + 2 < size
    ensures forall u :: u in Uploads(v, src, filenames) ==> Fits(u, size) && Readable(u)
  {
    hide Lists, Files, InTree, RelativeName, Uploads;
    forall u | u in Uploads(v, src, filenames) ensures Fits(u, size) && Readable(u) {
      var f := UploadOrigin(v, src, filenames, u);
      FolderOfList(v, src, filenames);
      InFiles(v[src], f);
    }
  }

  /** Sends a folder over a reliable message channel into a folder on another disk. When the whole
      message stream is sent, in particular when nothing disturbs the transmission, the receiver's disk
      mirrors the tree; otherwise it holds the first part of the list of files, in the order of the
      walk, whose messages were sent. */
  method SendFolder(v: Volume, src: Bytes, answers: seq<Answer>, quietReads: Option<nat>, fs: FileSystem, dst: Bytes,
                    sendBuf: array<Byte>, receiveBuf: array<Byte>)
    returns (ghost filenames: seq<Bytes>)
    requires Coherent(v) && IsDirectory(v, src) && ValidTree(v[src])
    requires JoinsCleanly(src, dst) && CanMirror(v, src, fs.disk, dst)
    requires sendBuf.Length <= receiveBuf.Length
    requires forall f :: InTree(v[src], f) && f.at != [] ==> |RelativeName(src, f.at)| + 2 < sendBuf.Length
    modifies fs, sendBuf, receiveBuf
    ensures Lists(v, src, filenames)
    ensures forall u :: u in Uploads(v, src, filenames) ==> Fits(u, sendBuf.Length)
    ensures var uploads := Uploads(v, src, filenames);
      var sent := Sent(uploads, sendBuf.Length, answers, quietReads);
      && (exists cut :: CutAt(cut, uploads, sendBuf.Length, sent) && fs.disk == AfterAll(old(fs.disk), dst, cut))
      && (sent == AllSegments(uploads, sendBuf.Length) ==> Mirrored(v, src, dst, old(fs.disk), fs.disk))
      && (Undisturbed(uploads, sendBuf.Length, answers, quietReads) ==> Mirrored(v, src, dst, old(fs.disk), fs.disk))
    ensures quietReads == None && (forall a :: a in answers ==> a == Returns(0)) ==>
      Mirrored(v, src, dst, old(fs.disk), fs.disk)
  {
    hide Coherent, ValidTree, JoinsCleanly, CanMirror, Files, InTree, RelativeName, Uploads, CutAt, AfterAll, Mirrored, AllReceivable;
    hide AllSegments, Undisturbed, Sent;
    var paths := ReadDirectory(v, src);
    filenames := paths;
    TreeReceivable(v, src, paths, fs.disk, dst);
    var uploads := Uploads(v, src, paths);
    TreeReadable(v, src, paths, sendBuf.Length);
    if quietReads == None && forall a :: a in answers ==> a == Returns(0) {
      Cooperative(uploads, sendBuf.Length, answers);
    }
    var ok := TransferFiles(uploads, answers, quietReads, fs, dst, sendBuf, receiveBuf);
    TreeMirrored(v, src, paths, old(fs.disk), dst);
  }

  /** Sending a single file: the list is the file itself, and it goes under its own name into the
      destination if and only if that is empty or ends in a delimiter. */
  lemma SingleFile(v: Volume, src: Bytes, dst: Bytes)
    requires src in v && v[src].File? && ValidName(src[LastDelim(src) + 1..])
    ensures PathsBelow(v, src, []) == [src]
    ensures PlaceOf(dst, UploadOf(v, src, src)) == Resolve(dst) + [src[LastDelim(src) + 1..]]
       <==> dst == [] || EndsInDelim(dst)
  {
    hide Resolve, LastDelim, CStr;
    var name := src[LastDelim(src) + 1..];
    CStrOfClean(name);
    if dst == [] {
      ResolveName(name);
      ResolveNothing();
      assert dst + name == name;
    } else if EndsInDelim(dst) {
      ResolveBehindDelim(dst, name);
    } else {
      ResolveMerged(dst, name);
    }
  }

  /** A source that does not exist is listed as itself, and nothing is sent for it. */
  lemma MissingSource(v: Volume, src: Bytes, size: nat, answers: seq<Answer>, quietReads: Option<nat>)
    requires src !in v && Fits(UploadOf(v, src, src), size)
    ensures PathsBelow(v, src, []) == [src]
    ensures Sent([UploadOf(v, src, src)], size, answers, quietReads) == []
  {
    hide CStr, RelativePath;
    var u := UploadOf(v, src, src);
    assert [u][1..] == [] && UploadPlan(u, size) == [GiveUp];
    assert Plan([u], size) == [GiveUp] + [Check] + Plan([], size);
  }
}
