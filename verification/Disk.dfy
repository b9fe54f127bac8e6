/** The receiver's file system: what a path names, which folders and files exist, and what
    creating a folder or a file does to it. */
module Disk {
  import opened Prelude

  const SLASH: Byte := 47
  const BACKSLASH: Byte := 92
  const DOT: Byte := 46

  predicate IsDelim(c: Byte) { c == SLASH || c == BACKSLASH }

  /** The last delimiter of `p`, or -1. */
  function LastDelim(p: Bytes): (r: int)
    ensures -1 <= r < |p|
    ensures r >= 0 ==> IsDelim(p[r])
    ensures forall j :: r < j < |p| ==> !IsDelim(p[j])
  {
    if p == [] then -1
    else if IsDelim(p[|p| - 1]) then |p| - 1
    else LastDelim(p[..|p| - 1])
  }

  lemma LastDelimIs(p: Bytes, at: int)
    requires -1 <= at < |p| && (at >= 0 ==> IsDelim(p[at]))
    requires forall j :: at < j < |p| ==> !IsDelim(p[j])
    ensures LastDelim(p) == at
  {
  }

  /** A path names a place in the tree: the components that lead to it. Empty components and "."
      lead nowhere; a leading delimiter is the root. */
  type Place = seq<Bytes>

  const ROOT: Bytes := [SLASH]

  function Component(name: Bytes): Place {
    if name == [] || name == [DOT] then [] else [name]
  }

  function Resolve(p: Bytes): Place
    decreases |p|
  {
    var d := LastDelim(p);
    if d < 0 then Component(p)
    else (if d == 0 then [ROOT] else Resolve(p[..d])) + Component(p[d + 1..])
  }

  /** The names between the delimiters of a path, from left to right. */
  function Names(p: Bytes): (r: seq<Bytes>)
    ensures r != []
  {
    if p == [] then [[]]
    else
      var rest := Names(p[1..]);
      if IsDelim(p[0]) then [[]] + rest else [[p[0]] + rest[0]] + rest[1..]
  }

  /** The names that lead somewhere. */
  function Leading(names: seq<Bytes>): Place {
    if names == [] then []
    else (if names[0] == [] || names[0] == [DOT] then [] else [names[0]]) + Leading(names[1..])
  }

  /** A path read from left to right: the root if it starts with a delimiter, and then every name but
      empty ones and ".". */
  lemma {:induction false} ResolveExactly(p: Bytes)
    ensures Resolve(p) == (if p != [] && IsDelim(p[0]) then [ROOT] else []) + Leading(Names(p))
    decreases |p|
  {
    hide LastDelim, Names;
    var d := LastDelim(p);
    if d < 0 {
      NamesAlone(p);
    } else {
      NamesBehind(p[..d], p[d], p[d + 1..]);
      assert p[..d] + [p[d]] + p[d + 1..] == p;
      LeadingBehind(Names(p[..d]), p[d + 1..]);
      if d > 0 {
        ResolveExactly(p[..d]);
      } else {
        NamesAlone(p[..0]);
      }
    }
  }

  lemma {:induction false} NamesAlone(p: Bytes)
    requires forall j :: 0 <= j < |p| ==> !IsDelim(p[j])
    ensures Names(p) == [p]
    decreases |p|
  {
    if p != [] {
      NamesAlone(p[1..]);
      assert [p[0]] + p[1..] == p;
    }
  }

  lemma {:induction false} NamesBehind(p: Bytes, delim: Byte, name: Bytes)
    requires IsDelim(delim) && forall j :: 0 <= j < |name| ==> !IsDelim(name[j])
    ensures Names(p + [delim] + name) == Names(p) + [name]
    decreases |p|
  {
    var all := p + [delim] + name;
    if p == [] {
      NamesAlone(name);
      assert all[1..] == name;
    } else {
      NamesBehind(p[1..], delim, name);
      assert all[1..] == p[1..] + [delim] + name;
    }
  }

  lemma {:induction false} LeadingBehind(names: seq<Bytes>, name: Bytes)
    ensures Leading(names + [name]) == Leading(names) + Component(name)
    decreases |names|
  {
    if names == [] {
      assert [name][1..] == [] && [] + [name] == [name];
    } else {
      assert (names + [name])[1..] == names[1..] + [name];
      LeadingBehind(names[1..], name);
    }
  }

  /** The folder part of a path. */
  function FolderPart(p: Bytes): Place {
    var d := LastDelim(p);
    if d < 0 then [] else if d == 0 then [ROOT] else Resolve(p[..d])
  }

  /** The last component hangs below the folder part. */
  lemma ResolveAt(p: Bytes)
    ensures Resolve(p) == FolderPart(p) + Component(p[LastDelim(p) + 1..])
  {
    hide LastDelim, Component;
    if LastDelim(p) < 0 {
      assert p[0..] == p;
    }
  }

  lemma SameFolder(p: Bytes, q: Bytes)
    requires LastDelim(p) == LastDelim(q)
    requires LastDelim(p) > 0 ==> p[..LastDelim(p)] == q[..LastDelim(p)]
    ensures FolderPart(p) == FolderPart(q)
  {
    hide LastDelim, Resolve;
  }

  /** The prefix of a path up to a delimiter is on the way to it, and strictly so when the path ends
      in a proper name. */
  lemma {:induction false} PrefixPlace(path: Bytes, d: nat)
    requires 0 < d < |path| && IsDelim(path[d])
    ensures Resolve(path[..d]) <= Resolve(path)
    ensures Component(path[LastDelim(path) + 1..]) != [] ==> Resolve(path[..d]) < Resolve(path)
    decreases |path|
  {
    hide Resolve, LastDelim, Component;
    var last := LastDelim(path);
    ResolveAt(path);
    if d < last {
      assert path[..last][..d] == path[..d];
      PrefixPlace(path[..last], d);
    }
  }

  /** Files with their contents, and folders. The working folder is the place []. */
  datatype Disk = Disk(files: map<Place, Bytes>, dirs: set<Place>)

  predicate DirExists(disk: Disk, place: Place) {
    place == [] || place == [ROOT] || place in disk.dirs
  }

  predicate ParentExists(disk: Disk, place: Place)
    requires place != []
  {
    DirExists(disk, place[..|place| - 1])
  }

  /** Nothing is both a file and a folder, and whatever exists has its parent folder. */
  ghost predicate Valid(disk: Disk) {
    && [] !in disk.dirs && [] !in disk.files && [ROOT] !in disk.files
    && disk.files.Keys !! disk.dirs
    && (forall place :: place in disk.dirs && place != [] ==> ParentExists(disk, place))
    && (forall place :: place in disk.files && place != [] ==> ParentExists(disk, place))
  }

  predicate CanCreateFolder(disk: Disk, place: Place) {
    DirExists(disk, place) || (place !in disk.files && ParentExists(disk, place))
  }

  function AddFolder(disk: Disk, place: Place): Disk {
    if DirExists(disk, place) then disk else disk.(dirs := disk.dirs + {place})
  }

  /** A path under which a file can be written: it ends in a proper name, in an existing folder, and
      is not a folder itself. */
  predicate CanOpen(disk: Disk, path: Bytes) {
    && Component(path[LastDelim(path) + 1..]) != []
    && ParentExists(disk, Resolve(path))
    && !DirExists(disk, Resolve(path))
  }

  class FileSystem {
    var disk: Disk

    constructor (disk: Disk)
      ensures this.disk == disk
    {
      this.disk := disk;
    }

    /** Creates one folder. Success means that it is there; failure, that there is a file of that name
        or no folder to put it in. Files and other folders stay as they are. */
    method CreateFolder(path: Bytes) returns (ok: bool)
      modifies this
      ensures ok <==> DirExists(disk, Resolve(path))
      ensures !ok ==> disk == old(disk) && (Resolve(path) in disk.files || !ParentExists(disk, Resolve(path)))
      ensures disk.files == old(disk).files
      ensures forall place :: place != Resolve(path) ==> (DirExists(disk, place) <==> DirExists(old(disk), place))
      ensures ok == CanCreateFolder(old(disk), Resolve(path))
      ensures disk == if ok then AddFolder(old(disk), Resolve(path)) else old(disk)
    {
      var place := Resolve(path);
      ok := CanCreateFolder(disk, place);
      if ok {
        disk := AddFolder(disk, place);
      }
    }

    /** Opens a file for writing and discards what it held. */
    method OpenTruncated(path: Bytes) returns (ok: bool)
      modifies this
      ensures ok == CanOpen(old(disk), path)
      ensures disk == if ok then old(disk).(files := old(disk).files[Resolve(path) := []]) else old(disk)
    {
      ok := CanOpen(disk, path);
      if ok {
        disk := disk.(files := disk.files[Resolve(path) := []]);
      }
    }

    method Append(place: Place, bytes: Bytes)
      requires place in disk.files
      modifies this
      ensures disk == old(disk).(files := old(disk).files[place := old(disk).files[place] + bytes])
    {
      disk := disk.(files := disk.files[place := disk.files[place] + bytes]);
    }
  }
}
