/** Creating the folders on the way to a received file. */
module Folders {
  import opened Prelude
  import opened Disk

  /** The first place at or after `from` where `a` is directly followed by `b`. */
  function FindPair(path: Bytes, a: Byte, b: Byte, from: nat): (r: Option<nat>)
    ensures r.Some? ==> from <= r.value && r.value + 1 < |path| && path[r.value] == a && path[r.value + 1] == b
    ensures forall j :: from <= j && j + 1 < (match r case Some(f) => f + 1 case None => |path|) ==>
      !(path[j] == a && path[j + 1] == b)
    decreases |path| - from
  {
    if from + 1 >= |path| then None
    else if path[from] == a && path[from + 1] == b then Some(from)
    else FindPair(path, a, b, from + 1)
  }

  /** "./" or ".\", by its delimiter, is at this place in the path. */
  predicate DotAt(path: Bytes, delim: Byte, j: int) {
    0 <= j && j + 1 < |path| && path[j] == DOT && path[j + 1] == delim
  }

  /** `r` is right behind the first "./", or the first ".\" if there is no "./", or 0 if there is neither. */
  ghost predicate IsStart(path: Bytes, r: nat) {
    if exists j :: DotAt(path, SLASH, j) then
      DotAt(path, SLASH, r - 2) && forall j :: DotAt(path, SLASH, j) ==> r - 2 <= j
    else if exists j :: DotAt(path, BACKSLASH, j) then
      DotAt(path, BACKSLASH, r - 2) && forall j :: DotAt(path, BACKSLASH, j) ==> r - 2 <= j
    else r == 0
  }

  /** Where the scan for folders starts: behind the first "./", or else the first ".\", or at 0. */
  function StartPos(path: Bytes): (r: nat)
    ensures r == 0 || (2 <= r <= |path| && path[r - 2] == DOT && IsDelim(path[r - 1]))
    ensures IsStart(path, r)
  {
    match FindPair(path, DOT, SLASH, 0)
    case Some(f) => f + 2
    case None =>
      match FindPair(path, DOT, BACKSLASH, 0)
      case Some(f) => f + 2
      case None => 0
  }

  /** The first delimiter at or after `from`, or the path's length. */
  function NextDelim(path: Bytes, from: nat): (r: nat)
    requires from <= |path|
    ensures from <= r <= |path|
    ensures r < |path| ==> IsDelim(path[r])
    ensures forall j :: from <= j < r ==> !IsDelim(path[j])
    decreases |path| - from
  {
    if from == |path| || IsDelim(path[from]) then from else NextDelim(path, from + 1)
  }

  /** The prefixes of the path that end at a delimiter behind `pos` and up to `last`, shortest first. */
  function Prefixes(path: Bytes, pos: nat, last: nat): (r: seq<Bytes>)
    requires last < |path| && IsDelim(path[last])
    ensures forall q :: q in r <==> pos < |q| <= last && q == path[..|q|] && IsDelim(path[|q|])
    ensures forall i, j :: 0 <= i < j < |r| ==> |r[i]| < |r[j]|
    decreases last - pos
  {
    if pos >= last then []
    else
      var d := NextDelim(path, pos + 1);
      [path[..d]] + Prefixes(path, d, last)
  }

  /** The folders a path asks for: its prefixes up to each delimiter behind the start position,
      parents before children. */
  function FolderPrefixes(path: Bytes): (r: seq<Bytes>)
    ensures forall q :: q in r <==> StartPos(path) < |q| <= LastDelim(path) && q == path[..|q|] && IsDelim(path[|q|])
    ensures forall i, j :: 0 <= i < j < |r| ==> |r[i]| < |r[j]|
  {
    var last := LastDelim(path);
    if last < 0 then [] else Prefixes(path, StartPos(path), last)
  }

  /** Creates the folders in order and stops at the first that cannot be created. */
  function CreateAll(disk: Disk, paths: seq<Bytes>): (bool, Disk)
    decreases |paths|
  {
    if paths == [] then (true, disk)
    else if !CanCreateFolder(disk, Resolve(paths[0])) then (false, disk)
    else CreateAll(AddFolder(disk, Resolve(paths[0])), paths[1..])
  }

  /** Scans the path for delimiters and creates one folder per prefix. `pos` grows and never passes
      the last delimiter, so the end of the path is never reached. */
  method CreateSubfolders(fs: FileSystem, path: Bytes) returns (ok: bool)
    modifies fs
    ensures (ok, fs.disk) == CreateAll(old(fs.disk), FolderPrefixes(path))
  {
    var pos := StartPos(path);
    var lastDelim := LastDelim(path);
    if lastDelim < 0 || lastDelim < pos {
      return true;
    }
    while pos != |path| && pos != lastDelim
      invariant pos <= lastDelim
      invariant CreateAll(fs.disk, Prefixes(path, pos, lastDelim)) == CreateAll(old(fs.disk), FolderPrefixes(path))
      decreases lastDelim - pos
    {
      ghost var left := Prefixes(path, pos, lastDelim);
      pos := NextDelim(path, pos + 1);
      assert left[0] == path[..pos] && left[1..] == Prefixes(path, pos, lastDelim);
      var created := fs.CreateFolder(path[..pos]);
      if !created {
        return false;
      }
    }
    return true;
  }

  /** A scan position is the start of the path, right behind a delimiter, or on one. */
  predicate IsScanPos(path: Bytes, at: nat) {
    && at <= |path|
    && (at == 0 || (at >= 2 && IsDelim(path[at - 1])) || (at < |path| && IsDelim(path[at])))
  }

  /** The place a scan at position `at` has reached. */
  function PlaceAt(path: Bytes, at: nat): Place
    requires at <= |path|
  {
    if at > 0 then Resolve(path[..at])
    else if path != [] && IsDelim(path[0]) then [ROOT]
    else []
  }

  /** The folder in which the scan starts. */
  function Anchor(path: Bytes): Place {
    PlaceAt(path, StartPos(path))
  }

  lemma PlaceAtCut(path: Bytes, at: nat)
    requires 0 < at <= |path|
    ensures PlaceAt(path, at) == Resolve(path[..at])
  {
    hide Resolve;
  }

  /** From its last scan position on, a path goes one step down the tree, or none if there is no
      proper name. */
  lemma LastStep(p: Bytes, at: nat)
    requires at < |p| && IsScanPos(p, at)
    requires forall j :: at < j < |p| ==> !IsDelim(p[j])
    ensures Resolve(p) == PlaceAt(p, at) + Component(p[LastDelim(p) + 1..])
  {
    hide Resolve, LastDelim, Component, PlaceAt;
    if IsDelim(p[at]) {
      StepOnDelim(p, at);
    } else if at == 0 {
      StepAlone(p);
    } else {
      StepBehind(p, at);
    }
  }

  lemma StepOnDelim(p: Bytes, at: nat)
    requires at < |p| && IsDelim(p[at]) && forall j :: at < j < |p| ==> !IsDelim(p[j])
    ensures Resolve(p) == PlaceAt(p, at) + Component(p[LastDelim(p) + 1..])
  {
    hide Resolve, LastDelim, Component;
    LastDelimIs(p, at);
    ResolveAt(p);
  }

  lemma StepAlone(p: Bytes)
    requires p != [] && forall j :: 0 <= j < |p| ==> !IsDelim(p[j])
    ensures Resolve(p) == PlaceAt(p, 0) + Component(p[LastDelim(p) + 1..])
  {
    hide Resolve, LastDelim, Component;
    LastDelimIs(p, -1);
    ResolveAt(p);
  }

  lemma StepBehind(p: Bytes, at: nat)
    requires 2 <= at < |p| && IsDelim(p[at - 1]) && forall j :: at <= j < |p| ==> !IsDelim(p[j])
    ensures Resolve(p) == PlaceAt(p, at) + Component(p[LastDelim(p) + 1..])
  {
    hide Resolve, LastDelim, Component, FolderPart;
    LastDelimIs(p, at - 1);
    ResolveAt(p);
    FolderBehind(p, at);
  }

  lemma FolderBehind(p: Bytes, at: nat)
    requires 2 <= at <= |p| && IsDelim(p[at - 1]) && LastDelim(p) == at - 1
    ensures FolderPart(p) == Resolve(p[..at])
  {
    hide Resolve, LastDelim, Component;
    var q := p[..at];
    BehindDelim(q);
    assert q[..at - 1] == p[..at - 1];
  }

  /** The same for a scan position and the next delimiter. */
  lemma OneStep(path: Bytes, at: nat, to: nat)
    requires at < to <= |path| && IsScanPos(path, at)
    requires forall j :: at < j < to ==> !IsDelim(path[j])
    ensures Resolve(path[..to]) == PlaceAt(path, at) + Component(path[LastDelim(path[..to]) + 1..to])
  {
    hide Resolve, LastDelim, Component;
    var p := path[..to];
    LastStep(p, at);
    assert p[..at] == path[..at];
    assert p[LastDelim(p) + 1..] == path[LastDelim(p) + 1..to];
  }

  lemma BehindDelim(q: Bytes)
    requires |q| >= 2 && IsDelim(q[|q| - 1])
    ensures Resolve(q) == Resolve(q[..|q| - 1])
  {
    hide Resolve, LastDelim;
    LastDelimIs(q, |q| - 1);
    assert q[|q|..] == [];
    ResolveAt(q);
  }

  function Places(paths: seq<Bytes>): set<Place> {
    set q | q in paths :: Resolve(q)
  }

  /** Each of `paths` goes one delimiter further than the one before it, the first further than `at`. */
  ghost predicate Chain(path: Bytes, at: nat, paths: seq<Bytes>)
    decreases |paths|
  {
    && IsScanPos(path, at)
    && (paths != [] ==>
          && at < |paths[0]| < |path| && paths[0] == path[..|paths[0]|] && IsDelim(path[|paths[0]|])
          && (forall j :: at < j < |paths[0]| ==> !IsDelim(path[j]))
          && Chain(path, |paths[0]|, paths[1..]))
  }

  lemma {:induction false} PrefixesChain(path: Bytes, pos: nat, last: nat)
    requires last < |path| && IsDelim(path[last]) && IsScanPos(path, pos)
    ensures Chain(path, pos, Prefixes(path, pos, last))
    decreases last - pos
  {
    if pos < last {
      var d := NextDelim(path, pos + 1);
      PrefixesChain(path, d, last);
      assert Prefixes(path, pos, last)[1..] == Prefixes(path, d, last);
    }
  }

  lemma FoldersChain(path: Bytes)
    ensures Chain(path, StartPos(path), FolderPrefixes(path))
  {
    if LastDelim(path) >= 0 {
      PrefixesChain(path, StartPos(path), LastDelim(path));
    }
  }

  /** One folder more or less in an orderly file system. */
  lemma AddFolderValid(disk: Disk, place: Place)
    requires Valid(disk) && CanCreateFolder(disk, place)
    ensures Valid(AddFolder(disk, place)) && AddFolder(disk, place).files == disk.files
    ensures AddFolder(disk, place).dirs == disk.dirs + ({place} - {[], [ROOT]})
  {
  }

  /** The disk with these folders in addition. */
  function WithFolders(disk: Disk, paths: seq<Bytes>): Disk {
    disk.(dirs := disk.dirs + (Places(paths) - {[], [ROOT]}))
  }

  /** Creating folders in order, on any disk: they are created up to the first that cannot be created then,
      those before it stay, and nothing behind it is tried. */
  lemma {:induction false} CreateAllExactly(disk: Disk, paths: seq<Bytes>) returns (k: nat)
    ensures k <= |paths| && CreateAll(disk, paths) == (k == |paths|, WithFolders(disk, paths[..k]))
    ensures forall j :: 0 <= j < k ==> CanCreateFolder(WithFolders(disk, paths[..j]), Resolve(paths[j]))
    ensures k < |paths| ==> !CanCreateFolder(WithFolders(disk, paths[..k]), Resolve(paths[k]))
    decreases |paths|
  {
    hide Resolve, CanCreateFolder, WithFolders, AddFolder;
    NoneAdded(disk);
    if paths == [] || !CanCreateFolder(disk, Resolve(paths[0])) {
      k := 0;
      assert paths[..0] == [];
    } else {
      var q, rest := paths[0], paths[1..];
      var k' := CreateAllExactly(AddFolder(disk, Resolve(q)), rest);
      k := k' + 1;
      forall j | 0 <= j <= k' ensures WithFolders(disk, paths[..j + 1]) == WithFolders(AddFolder(disk, Resolve(q)), rest[..j]) {
        assert paths[..j + 1] == [q] + rest[..j];
        OneAdded(disk, q, rest[..j]);
      }
      forall j | 0 <= j < k ensures CanCreateFolder(WithFolders(disk, paths[..j]), Resolve(paths[j])) {
        if j == 0 {
          assert paths[..0] == [];
        } else {
          assert paths[j] == rest[j - 1] && paths[..j] == paths[..j - 1 + 1];
        }
      }
    }
  }

  lemma NoneAdded(disk: Disk)
    ensures WithFolders(disk, []) == disk
  {
  }

  lemma OneAdded(disk: Disk, q: Bytes, rest: seq<Bytes>)
    ensures WithFolders(disk, [q] + rest) == WithFolders(AddFolder(disk, Resolve(q)), rest)
  {
    hide Resolve;
    assert Places([q] + rest) == {Resolve(q)} + Places(rest) by {
      assert forall p :: p in [q] + rest <==> p == q || p in rest;
    }
  }

  /** The outcome of creating `paths`: it fails only at one that names a file, touches no file, and
      on success leaves exactly these folders in addition. */
  ghost predicate Created(disk: Disk, paths: seq<Bytes>, ok: bool, after: Disk) {
    && Valid(after)
    && after.files == disk.files
    && (ok <==> forall q :: q in paths ==> Resolve(q) !in disk.files)
    && (ok ==> after.dirs == disk.dirs + (Places(paths) - {[], [ROOT]}))
  }

  lemma CreatedStep(disk: Disk, q: Bytes, rest: seq<Bytes>, ok: bool, after: Disk)
    requires Valid(disk) && CanCreateFolder(disk, Resolve(q))
    requires Created(AddFolder(disk, Resolve(q)), rest, ok, after)
    ensures Created(disk, [q] + rest, ok, after)
  {
    AddFolderValid(disk, Resolve(q));
    assert Places([q] + rest) == {Resolve(q)} + Places(rest) by {
      assert forall p :: p in [q] + rest <==> p == q || p in rest;
    }
    assert Resolve(q) !in disk.files;
    assert q in [q] + rest;
  }

  lemma StepCreatable(disk: Disk, folder: Place, name: Bytes)
    requires Valid(disk) && DirExists(disk, folder)
    ensures CanCreateFolder(disk, folder + Component(name)) <==> folder + Component(name) !in disk.files
  {
    var place := folder + Component(name);
    if Component(name) == [] {
      assert place == folder;
    } else {
      assert place[..|place| - 1] == folder;
    }
  }

  /** The next folder of a scan that has reached an existing folder fails only if it names a file. */
  lemma NextCreatable(disk: Disk, path: Bytes, at: nat, to: nat)
    requires Valid(disk) && at < to <= |path| && IsScanPos(path, at)
    requires forall j :: at < j < to ==> !IsDelim(path[j])
    requires DirExists(disk, PlaceAt(path, at))
    ensures CanCreateFolder(disk, Resolve(path[..to])) <==> Resolve(path[..to]) !in disk.files
  {
    hide Resolve, PlaceAt, Component, LastDelim;
    OneStep(path, at, to);
    StepCreatable(disk, PlaceAt(path, at), path[LastDelim(path[..to]) + 1..to]);
  }

  /** Along a chain that starts in an existing folder, no folder ever lacks its parent. */
  lemma {:induction false} CreateChain(disk: Disk, path: Bytes, at: nat, paths: seq<Bytes>)
    requires Valid(disk) && Chain(path, at, paths)
    requires DirExists(disk, PlaceAt(path, at))
    ensures var r := CreateAll(disk, paths); Created(disk, paths, r.0, r.1)
    decreases |paths|
  {
    if paths != [] {
      var q, rest := paths[0], paths[1..];
      NextCreatable(disk, path, at, |q|);
      assert paths == [q] + rest && q in paths;
      if CanCreateFolder(disk, Resolve(q)) {
        AddFolderValid(disk, Resolve(q));
        CreateChain(AddFolder(disk, Resolve(q)), path, |q|, rest);
        var (ok, after) := CreateAll(AddFolder(disk, Resolve(q)), rest);
        CreatedStep(disk, q, rest, ok, after);
      }
    } else {
      assert Places(paths) == {};
    }
  }

  /** The scan can get under way: the folder in which it starts exists, or it is itself the first
      folder that is asked for and its parent exists. */
  ghost predicate StartReachable(disk: Disk, path: Bytes) {
    var anchor, paths := Anchor(path), FolderPrefixes(path);
    || DirExists(disk, anchor)
    || (paths != [] && Resolve(paths[0]) == anchor && ParentExists(disk, anchor))
  }

  /** Folder creation for one path in an orderly file system: when the scan can get under way, it
      succeeds if and only if no prefix names a file, and then it has created exactly the prefixes. */
  lemma SubfoldersCreated(disk: Disk, path: Bytes)
    requires Valid(disk) && StartReachable(disk, path)
    ensures var r := CreateAll(disk, FolderPrefixes(path)); Created(disk, FolderPrefixes(path), r.0, r.1)
  {
    hide StartPos, FolderPrefixes, Resolve, Valid, DirExists, CreateAll, Created;
    var anchor, paths := Anchor(path), FolderPrefixes(path);
    FoldersChain(path);
    if DirExists(disk, anchor) {
      CreateChain(disk, path, StartPos(path), paths);
    } else {
      StartFolder(disk, paths, anchor);
      if anchor !in disk.files {
        CreateChain(AddFolder(disk, anchor), path, StartPos(path), paths);
        var r := CreateAll(disk, paths);
        CreatedFromStart(disk, paths, anchor, r.0, r.1);
      }
    }
  }

  /** The first folder of a scan that starts in a missing folder. */
  lemma StartFolder(disk: Disk, paths: seq<Bytes>, anchor: Place)
    requires Valid(disk) && !DirExists(disk, anchor) && ParentExists(disk, anchor)
    requires paths != [] && Resolve(paths[0]) == anchor
    ensures anchor in disk.files ==> var r := CreateAll(disk, paths); Created(disk, paths, r.0, r.1)
    ensures anchor !in disk.files ==>
      var disk' := AddFolder(disk, anchor);
      CanCreateFolder(disk, anchor) && Valid(disk') && DirExists(disk', anchor)
      && CreateAll(disk', paths) == CreateAll(disk, paths)
  {
    hide Resolve;
    assert paths[0] in paths;
    if anchor !in disk.files {
      AddFolderValid(disk, anchor);
      assert AddFolder(AddFolder(disk, anchor), anchor) == AddFolder(disk, anchor);
    }
  }

  lemma CreatedFromStart(disk: Disk, paths: seq<Bytes>, anchor: Place, ok: bool, after: Disk)
    requires Valid(disk) && CanCreateFolder(disk, anchor)
    requires paths != [] && Resolve(paths[0]) == anchor
    requires Created(AddFolder(disk, anchor), paths, ok, after)
    ensures Created(disk, paths, ok, after)
  {
    hide Resolve;
    AddFolderValid(disk, anchor);
    assert anchor in Places(paths) by { assert paths[0] in paths; }
    assert {anchor} - {[], [ROOT]} <= Places(paths) - {[], [ROOT]};
  }

  /** What existed and what was created is there. */
  lemma FoldersThere(disk: Disk, paths: seq<Bytes>, after: Disk, place: Place)
    requires Created(disk, paths, true, after)
    requires DirExists(disk, place) || place in Places(paths)
    ensures DirExists(after, place)
  {
  }

  lemma NoFolders(path: Bytes)
    requires LastDelim(path) <= StartPos(path)
    ensures FolderPrefixes(path) == []
  {
    hide StartPos, LastDelim;
  }

  lemma PrefixAt(path: Bytes, d: nat)
    requires StartPos(path) < d < |path| && IsDelim(path[d])
    ensures path[..d] in FolderPrefixes(path)
  {
    hide StartPos, FolderPrefixes, LastDelim;
    var q := path[..d];
    assert |q| == d && q == path[..|q|] && d <= LastDelim(path);
  }

  lemma FirstPrefix(path: Bytes, d: nat)
    requires StartPos(path) < d < |path| && IsDelim(path[d])
    requires forall j :: StartPos(path) < j < d ==> !IsDelim(path[j])
    ensures FolderPrefixes(path) != [] && FolderPrefixes(path)[0] == path[..d]
  {
    hide StartPos, FolderPrefixes, LastDelim;
    PrefixAt(path, d);
    var first := FolderPrefixes(path)[0];
    assert first in FolderPrefixes(path);
    assert |first| >= d;
    assert |first| <= |path[..d]|;
  }

  lemma InPlaces(paths: seq<Bytes>, q: Bytes)
    requires q in paths
    ensures Resolve(q) in Places(paths)
  {
    hide Resolve;
  }

  /** After that, the folder where the path's folders end is there. */
  lemma FolderReached(disk: Disk, path: Bytes, after: Disk)
    requires StartReachable(disk, path) && Created(disk, FolderPrefixes(path), true, after)
    ensures DirExists(after, PlaceAt(path, FoldersEnd(path)))
  {
    hide StartPos, FolderPrefixes, LastDelim, Created, Resolve, PlaceAt, DirExists, Places, ParentExists;
    var last := LastDelim(path);
    if last > StartPos(path) {
      PrefixAt(path, last);
      PlaceAtCut(path, last);
      InPlaces(FolderPrefixes(path), path[..last]);
    } else {
      NoFolders(path);
    }
    FoldersThere(disk, FolderPrefixes(path), after, PlaceAt(path, FoldersEnd(path)));
  }

  /** So is the folder of a file with a proper name. */
  lemma ParentReached(disk: Disk, path: Bytes, after: Disk)
    requires StartReachable(disk, path) && Created(disk, FolderPrefixes(path), true, after)
    requires Component(path[LastDelim(path) + 1..]) != []
    ensures Resolve(path) != [] && ParentExists(after, Resolve(path))
  {
    hide StartReachable, FolderPrefixes, LastDelim, Created, Resolve, PlaceAt, FoldersEnd, Component, DirExists;
    FolderReached(disk, path, after);
    FileStep(path);
    StepParent(PlaceAt(path, FoldersEnd(path)), path[LastDelim(path) + 1..]);
  }

  /** How far the folders of a path reach: its last delimiter, unless the scan starts behind it. */
  function FoldersEnd(path: Bytes): (r: nat)
    ensures r <= |path|
  {
    Max(LastDelim(path), StartPos(path))
  }

  /** A path with a proper last name goes one step down from where its folders end. */
  lemma FileStep(path: Bytes)
    requires Component(path[LastDelim(path) + 1..]) != []
    ensures Resolve(path) == PlaceAt(path, FoldersEnd(path)) + Component(path[LastDelim(path) + 1..])
  {
    hide StartPos, Resolve, Component, LastDelim, PlaceAt;
    var at := FoldersEnd(path);
    var name := path[LastDelim(path) + 1..];
    assert name != [] by { EmptyComponent(); }
    LastStep(path, at);
  }

  lemma EmptyComponent()
    ensures Component([]) == []
  {
  }

  lemma StepParent(folder: Place, name: Bytes)
    requires Component(name) != []
    ensures (folder + Component(name))[..|folder + Component(name)| - 1] == folder
  {
  }

  /** A folder cannot be created, and cannot exist, inside a missing one. */
  lemma MissingParentFails(disk: Disk, folder: Place, name: Bytes)
    requires Valid(disk) && !DirExists(disk, folder) && Component(name) != []
    ensures !CanCreateFolder(disk, folder + Component(name))
  {
    var place := folder + Component(name);
    assert place[..|place| - 1] == folder;
  }

  /** When the scan cannot get under way, creation fails as soon as any folder is asked for. */
  lemma MissingAnchorFails(disk: Disk, path: Bytes)
    requires Valid(disk) && !StartReachable(disk, path)
    requires FolderPrefixes(path) != []
    ensures !CreateAll(disk, FolderPrefixes(path)).0
  {
    hide StartPos, FolderPrefixes, Resolve, DirExists;
    var start, paths := StartPos(path), FolderPrefixes(path);
    FoldersChain(path);
    FirstStep(path, start, paths);
    if Resolve(paths[0]) == Anchor(path) {
      NoFileAbove(disk, Anchor(path));
    } else {
      MissingParentFails(disk, Anchor(path), paths[0][LastDelim(paths[0]) + 1..]);
    }
  }

  lemma NoFileAbove(disk: Disk, place: Place)
    requires !DirExists(disk, place) && !ParentExists(disk, place)
    ensures !CanCreateFolder(disk, place)
  {
  }

  /** Creating the folders of a path, exactly: it succeeds if and only if there are none, or the scan
      can get under way and none of them is a file. "./" anywhere in the path, even at the end of a
      folder's name, moves the start of the scan behind it. */
  lemma CreationExactly(disk: Disk, path: Bytes)
    requires Valid(disk)
    ensures CreateAll(disk, FolderPrefixes(path)).0
       <==> FolderPrefixes(path) == []
            || (StartReachable(disk, path) && forall q :: q in FolderPrefixes(path) ==> Resolve(q) !in disk.files)
  {
    hide FolderPrefixes, Resolve, StartReachable;
    if StartReachable(disk, path) {
      SubfoldersCreated(disk, path);
    } else if FolderPrefixes(path) != [] {
      MissingAnchorFails(disk, path);
    }
  }

  /** A file can be received under this path: it ends in a proper name that is not a folder, none of
      the folders on the way is a file, and the scan for them can get under way. */
  ghost predicate Openable(disk: Disk, path: Bytes) {
    && Component(path[LastDelim(path) + 1..]) != []
    && !DirExists(disk, Resolve(path))
    && (forall q :: q in FolderPrefixes(path) ==> Resolve(q) !in disk.files)
    && StartReachable(disk, path)
  }

  /** Creating the folders and then opening the file, exactly. */
  lemma OpenableExactly(disk: Disk, path: Bytes)
    requires Valid(disk)
    ensures var made := CreateAll(disk, FolderPrefixes(path));
      made.0 && CanOpen(made.1, path) <==> Openable(disk, path)
    ensures Openable(disk, path) ==>
      Created(disk, FolderPrefixes(path), true, CreateAll(disk, FolderPrefixes(path)).1)
  {
    hide FolderPrefixes, Resolve, StartReachable, CreateAll, Component, LastDelim, DirExists, Valid, Created;
    var paths := FolderPrefixes(path);
    if Component(path[LastDelim(path) + 1..]) != [] {
      if StartReachable(disk, path) {
        SubfoldersCreated(disk, path);
        ReachableOpens(disk, path, CreateAll(disk, paths).0, CreateAll(disk, paths).1);
      } else if paths == [] {
        NothingMade(disk);
        NoWayIn(disk, path);
      } else {
        MissingAnchorFails(disk, path);
      }
    }
  }

  lemma ReachableOpens(disk: Disk, path: Bytes, ok: bool, after: Disk)
    requires StartReachable(disk, path) && Created(disk, FolderPrefixes(path), ok, after)
    requires Component(path[LastDelim(path) + 1..]) != []
    ensures ok && CanOpen(after, path) <==> Openable(disk, path)
    ensures Openable(disk, path) ==> ok
  {
    hide FolderPrefixes, Resolve, StartReachable, Component, LastDelim, DirExists, Valid, Places;
    if ok {
      ParentReached(disk, path, after);
      FileNoFolder(path);
      OnlyThese(disk, after, Places(FolderPrefixes(path)), Resolve(path));
    }
  }

  lemma NothingMade(disk: Disk)
    ensures CreateAll(disk, []) == (true, disk)
  {
  }

  /** No folder on the way to a file is the file. */
  lemma FileNoFolder(path: Bytes)
    requires Component(path[LastDelim(path) + 1..]) != []
    ensures Resolve(path) !in Places(FolderPrefixes(path))
  {
    hide FolderPrefixes, Resolve, Component, LastDelim, StartPos;
    forall q | q in FolderPrefixes(path) ensures Resolve(q) != Resolve(path) {
      PrefixPlace(path, |q|);
    }
  }

  lemma OnlyThese(disk: Disk, after: Disk, folders: set<Place>, place: Place)
    requires after.dirs == disk.dirs + (folders - {[], [ROOT]}) && place !in folders
    ensures DirExists(after, place) <==> DirExists(disk, place)
  {
  }

  /** Without a folder to create, a missing start folder keeps the file from being opened. */
  lemma NoWayIn(disk: Disk, path: Bytes)
    requires Component(path[LastDelim(path) + 1..]) != []
    requires FolderPrefixes(path) == [] && !StartReachable(disk, path)
    ensures Resolve(path) != [] && !ParentExists(disk, Resolve(path))
  {
    hide FolderPrefixes, Resolve, Component, LastDelim, StartPos, PlaceAt, DirExists;
    var last := LastDelim(path);
    if last > StartPos(path) {
      PrefixAt(path, last);
    }
    FileStep(path);
    StepParent(Anchor(path), path[last + 1..]);
  }

  lemma FirstStep(path: Bytes, at: nat, paths: seq<Bytes>)
    requires paths != [] && Chain(path, at, paths)
    ensures at <= |path|
    ensures Resolve(paths[0]) == PlaceAt(path, at) + Component(paths[0][LastDelim(paths[0]) + 1..])
  {
    hide Resolve, PlaceAt, Component, LastDelim;
    var q := paths[0];
    OneStep(path, at, |q|);
    assert q[LastDelim(q) + 1..] == path[LastDelim(q) + 1..|q|];
  }
}
