/** The upload list: walking a folder tree with a queue, and naming its files relative to the root. */
module Directory {
  import opened Prelude
  import opened Disk

  datatype Node = File(content: Bytes) | Folder(entries: seq<Entry>)

  datatype Entry = Entry(name: Bytes, node: Node)

  /** A file of a tree: the components that lead to it, and its contents. */
  datatype Found = Found(at: Place, content: Bytes)

  /** The files below a node that is reached by `at`, depth first. */
  function Files(at: Place, node: Node): seq<Found>
    decreases node
  {
    match node
    case File(content) => [Found(at, content)]
    case Folder(entries) => FilesOf(at, entries)
  }

  function FilesOf(at: Place, entries: seq<Entry>): seq<Found>
    decreases entries
  {
    if entries == [] then []
    else Files(at + [entries[0].name], entries[0].node) + FilesOf(at, entries[1..])
  }

  /** From this node the names lead, entry by entry, to a file with these contents. */
  ghost predicate LeadsTo(node: Node, names: Place, content: Bytes)
    decreases |names|
  {
    if names == [] then node == File(content)
    else node.Folder? && exists e :: e in node.entries && e.name == names[0] && LeadsTo(e.node, names[1..], content)
  }

  /** The files of a tree are exactly those that its entries lead to. */
  lemma {:induction false} FilesExactly(at: Place, node: Node, names: Place, content: Bytes)
    ensures Found(at + names, content) in Files(at, node) <==> LeadsTo(node, names, content)
    decreases node
  {
    match node
    case File(c) => assert at + [] == at && (at + names == at <==> names == []);
    case Folder(entries) => FilesOfExactly(at, entries, names, content);
  }

  lemma {:induction false} FilesOfExactly(at: Place, entries: seq<Entry>, names: Place, content: Bytes)
    ensures Found(at + names, content) in FilesOf(at, entries)
       <==> names != [] && exists e :: e in entries && e.name == names[0] && LeadsTo(e.node, names[1..], content)
    decreases entries
  {
    hide LeadsTo;
    if entries != [] {
      var e := entries[0];
      FilesOfExactly(at, entries[1..], names, content);
      assert forall x :: x in entries <==> x == e || x in entries[1..];
      if names != [] && names[0] == e.name {
        assert at + names == at + [e.name] + names[1..];
        FilesExactly(at + [e.name], e.node, names[1..], content);
      } else if Found(at + names, content) in Files(at + [e.name], e.node) {
        FilesUnder(at + [e.name], e.node, Found(at + names, content));
        NextName(at, e.name, names);
      }
    }
  }

  lemma NextName(at: Place, name: Bytes, names: Place)
    requires at + [name] <= at + names
    ensures names != [] && names[0] == name
  {
    assert (at + [name])[|at|] == (at + names)[|at|];
  }

  lemma {:induction false} FilesUnder(at: Place, node: Node, f: Found)
    requires f in Files(at, node)
    ensures at <= f.at
    decreases node
  {
    if node.Folder? {
      FilesOfUnder(at, node.entries, f);
    }
  }

  lemma {:induction false} FilesOfUnder(at: Place, entries: seq<Entry>, f: Found)
    requires f in FilesOf(at, entries)
    ensures at <= f.at
    decreases entries
  {
    if f in Files(at + [entries[0].name], entries[0].node) {
      FilesUnder(at + [entries[0].name], entries[0].node, f);
    } else {
      FilesOfUnder(at, entries[1..], f);
    }
  }

  predicate EndsInDelim(p: Bytes) {
    p != [] && IsDelim(p[|p| - 1])
  }

  /** The path of an entry of a folder. */
  function Join(folder: Bytes, name: Bytes): Bytes {
    if folder == [] || EndsInDelim(folder) then folder + name else folder + [SLASH] + name
  }

  /** The path of a place below `root`. */
  function Spell(root: Bytes, at: Place): Bytes {
    if at == [] then root else Join(Spell(root, at[..|at| - 1]), at[|at| - 1])
  }

  lemma SpellStep(root: Bytes, at: Place, name: Bytes)
    ensures Spell(root, at + [name]) == Join(Spell(root, at), name)
  {
    assert (at + [name])[..|at|] == at;
  }

  /** A file system as seen by path. */
  type Volume = map<Bytes, Node>

  /** Looking up an entry's path finds the entry. */
  predicate Coherent(v: Volume) {
    forall p, e :: p in v && v[p].Folder? && e in v[p].entries ==> Join(p, e.name) in v && v[Join(p, e.name)] == e.node
  }

  predicate IsDirectory(v: Volume, p: Bytes) {
    p in v && v[p].Folder?
  }

  function Spelled(root: Bytes, files: seq<Found>): (r: seq<Bytes>)
    ensures |r| == |files| && forall i :: 0 <= i < |r| ==> r[i] == Spell(root, files[i].at)
  {
    seq(|files|, i requires 0 <= i < |files| => Spell(root, files[i].at))
  }

  /** The paths of all files below `p`, which is spelled by `at`; a path that is no folder stands for itself. */
  function PathsBelow(v: Volume, root: Bytes, at: Place): seq<Bytes> {
    var p := Spell(root, at);
    if IsDirectory(v, p) then Spelled(root, Files(at, v[p])) else [p]
  }

  function PathsBelowAll(v: Volume, root: Bytes, ats: seq<Place>): seq<Bytes> {
    if ats == [] then [] else PathsBelow(v, root, ats[0]) + PathsBelowAll(v, root, ats[1..])
  }

  function Size(node: Node): nat
    decreases node
  {
    match node
    case File(_) => 0
    case Folder(entries) => 1 + SizeOf(entries)
  }

  function SizeOf(entries: seq<Entry>): nat
    decreases entries
  {
    if entries == [] then 0 else Size(entries[0].node) + SizeOf(entries[1..])
  }

  /** How many folders the queued paths still hold, a path that is no folder counted once. */
  function Work(v: Volume, paths: seq<Bytes>): nat {
    if paths == [] then 0 else WorkAt(v, paths[0]) + Work(v, paths[1..])
  }

  function WorkAt(v: Volume, p: Bytes): nat {
    if IsDirectory(v, p) then Size(v[p]) else 1
  }

  lemma {:induction false} WorkAppend(v: Volume, paths: seq<Bytes>, p: Bytes)
    ensures Work(v, paths + [p]) == Work(v, paths) + WorkAt(v, p)
    decreases |paths|
  {
    if paths == [] {
      assert [] + [p] == [p] && ([p])[1..] == [];
    } else {
      assert (paths + [p])[1..] == paths[1..] + [p];
      WorkAppend(v, paths[1..], p);
    }
  }

  lemma {:induction false} BelowAllAppend(v: Volume, root: Bytes, ats: seq<Place>, at: Place)
    ensures PathsBelowAll(v, root, ats + [at]) == PathsBelowAll(v, root, ats) + PathsBelow(v, root, at)
    decreases |ats|
  {
    if ats == [] {
      assert [] + [at] == [at] && ([at])[1..] == [];
    } else {
      assert (ats + [at])[1..] == ats[1..] + [at];
      BelowAllAppend(v, root, ats[1..], at);
    }
  }

  lemma SpelledAppend(root: Bytes, a: seq<Found>, b: seq<Found>)
    ensures Spelled(root, a + b) == Spelled(root, a) + Spelled(root, b)
  {
  }

  /** The queue of the walk: paths, and (for the proof) the places they spell. */
  ghost predicate Queued(root: Bytes, subdirs: seq<Bytes>, ats: seq<Place>) {
    |subdirs| == |ats| && forall k :: 0 <= k < |ats| ==> subdirs[k] == Spell(root, ats[k])
  }

  /** Enumerates the files below `path` with a queue of folders. It returns every file exactly once,
      or the path itself when that is no folder. */
  method ReadDirectory(v: Volume, path: Bytes) returns (filenames: seq<Bytes>)
    requires Coherent(v)
    ensures multiset(filenames) == multiset(PathsBelow(v, path, []))
    ensures forall p :: p in filenames <==> IsListed(v, path, p)
  {
    hide PathsBelow, PathsBelowAll, Work, IsListed;
    filenames := [];
    var subdirs := [path];
    ghost var ats: seq<Place> := [[]];
    ghost var total := multiset(PathsBelow(v, path, []));
    OnePath(v, path);
    while subdirs != []
      invariant Queued(path, subdirs, ats)
      invariant multiset(filenames) + multiset(PathsBelowAll(v, path, ats)) == total
      decreases Work(v, subdirs)
    {
      var p := subdirs[0];
      ghost var at := ats[0];
      NextPath(v, path, subdirs, ats);
      subdirs, ats := subdirs[1..], ats[1..];
      if !IsDirectory(v, p) {
        filenames := filenames + [p];
        continue;
      }
      filenames, subdirs, ats := ScanFolder(v, path, p, at, filenames, subdirs, ats);
    }
    NoPaths(v, path);
    ListedExactly(v, path, filenames);
  }

  /** The path of a file that the entries below the folder `root` lead to, or `root` itself if that is
      no folder. */
  ghost predicate IsListed(v: Volume, root: Bytes, p: Bytes) {
    if IsDirectory(v, root) then exists f: Found :: InTree(v[root], f) && p == Spell(root, f.at)
    else p == root
  }

  ghost predicate InTree(node: Node, f: Found) {
    LeadsTo(node, f.at, f.content)
  }

  lemma InFiles(node: Node, f: Found)
    ensures f in Files([], node) <==> InTree(node, f)
  {
    FilesExactly([], node, f.at, f.content);
    assert [] + f.at == f.at;
  }

  lemma ListedExactly(v: Volume, root: Bytes, filenames: seq<Bytes>)
    requires multiset(filenames) == multiset(PathsBelow(v, root, []))
    ensures forall p :: p in filenames <==> IsListed(v, root, p)
  {
    hide PathsBelow, IsListed;
    forall p ensures p in filenames <==> IsListed(v, root, p) {
      assert p in filenames <==> p in multiset(filenames);
      PathListed(v, root, p);
    }
  }

  lemma PathListed(v: Volume, root: Bytes, p: Bytes)
    ensures p in PathsBelow(v, root, []) <==> IsListed(v, root, p)
  {
    hide Files, InTree;
    if IsDirectory(v, root) {
      var files := Files([], v[root]);
      forall f: Found ensures f in files <==> InTree(v[root], f) {
        InFiles(v[root], f);
      }
      if f: Found :| f in files && p == Spell(root, f.at) {
        var i :| 0 <= i < |files| && files[i] == f;
        assert Spelled(root, files)[i] == p;
      }
      if p in Spelled(root, files) {
        var i :| 0 <= i < |files| && Spelled(root, files)[i] == p;
        assert files[i] in files;
      }
    }
  }

  lemma OnePath(v: Volume, root: Bytes)
    ensures PathsBelowAll(v, root, [[]]) == PathsBelow(v, root, [])
  {
    hide PathsBelow;
  }

  lemma NoPaths(v: Volume, root: Bytes)
    ensures PathsBelowAll(v, root, []) == []
  {
  }

  lemma NextPath(v: Volume, root: Bytes, subdirs: seq<Bytes>, ats: seq<Place>)
    requires Queued(root, subdirs, ats) && subdirs != []
    ensures Work(v, subdirs) == WorkAt(v, subdirs[0]) + Work(v, subdirs[1..])
    ensures PathsBelowAll(v, root, ats)
         == (if IsDirectory(v, subdirs[0]) then Spelled(root, Files(ats[0], v[subdirs[0]])) else [subdirs[0]])
            + PathsBelowAll(v, root, ats[1..])
  {
  }

  /** The entries of one folder: files join the result, folders the end of the queue. */
  method ScanFolder(v: Volume, ghost root: Bytes, p: Bytes, ghost at: Place,
                    filenames0: seq<Bytes>, subdirs0: seq<Bytes>, ghost ats0: seq<Place>)
    returns (filenames: seq<Bytes>, subdirs: seq<Bytes>, ghost ats: seq<Place>)
    requires Coherent(v) && IsDirectory(v, p) && p == Spell(root, at) && Queued(root, subdirs0, ats0)
    ensures Queued(root, subdirs, ats)
    ensures multiset(filenames) + multiset(PathsBelowAll(v, root, ats))
         == multiset(filenames0) + multiset(Spelled(root, Files(at, v[p]))) + multiset(PathsBelowAll(v, root, ats0))
    ensures Work(v, subdirs) < Work(v, subdirs0) + Size(v[p])
  {
    hide PathsBelowAll, Work, Spelled, FilesOf, Queued, Spell, Join, SizeOf;
    filenames, subdirs, ats := filenames0, subdirs0, ats0;
    var entries := v[p].entries;
    for i := 0 to |entries|
      invariant Queued(root, subdirs, ats)
      invariant multiset(filenames) + multiset(PathsBelowAll(v, root, ats)) + multiset(Spelled(root, FilesOf(at, entries[i..])))
             == multiset(filenames0) + multiset(Spelled(root, FilesOf(at, entries))) + multiset(PathsBelowAll(v, root, ats0))
      invariant Work(v, subdirs) + SizeOf(entries[i..]) <= Work(v, subdirs0) + SizeOf(entries)
    {
      var entry := entries[i];
      assert entry in v[p].entries;
      var q := Join(p, entry.name);
      NextEntry(v, root, at, entries, i);
      if IsDirectory(v, q) {
        WorkAppend(v, subdirs, q);
        BelowAllAppend(v, root, ats, at + [entry.name]);
        QueuedAppend(root, subdirs, ats, at + [entry.name]);
        subdirs, ats := subdirs + [q], ats + [at + [entry.name]];
      } else {
        filenames := filenames + [q];
      }
    }
    NoEntries(root, at);
    assert entries[|entries|..] == [];
  }

  lemma QueuedAppend(root: Bytes, subdirs: seq<Bytes>, ats: seq<Place>, at: Place)
    requires Queued(root, subdirs, ats)
    ensures Queued(root, subdirs + [Spell(root, at)], ats + [at])
  {
    hide Spell;
  }

  lemma NoEntries(root: Bytes, at: Place)
    ensures Spelled(root, FilesOf(at, [])) == [] && SizeOf([]) == 0
  {
  }

  lemma NextEntry(v: Volume, root: Bytes, at: Place, entries: seq<Entry>, i: nat)
    requires i < |entries|
    requires var q := Join(Spell(root, at), entries[i].name); q in v && v[q] == entries[i].node
    ensures Spell(root, at + [entries[i].name]) == Join(Spell(root, at), entries[i].name)
    ensures var e := entries[i];
      && SizeOf(entries[i..]) == Size(e.node) + SizeOf(entries[i + 1..])
      && Spelled(root, FilesOf(at, entries[i..]))
         == PathsBelow(v, root, at + [e.name]) + Spelled(root, FilesOf(at, entries[i + 1..]))
      && (e.node.File? ==> PathsBelow(v, root, at + [e.name]) == [Join(Spell(root, at), e.name)])
  {
    hide Join, Spell, Files, Spelled, Size, PathsBelow;
    var e := entries[i];
    assert entries[i..][1..] == entries[i + 1..] && entries[i..][0] == e;
    SpellStep(root, at, e.name);
    BelowEntry(v, root, at + [e.name], e.node);
    SpelledAppend(root, Files(at + [e.name], e.node), FilesOf(at, entries[i + 1..]));
  }

  lemma BelowEntry(v: Volume, root: Bytes, at: Place, node: Node)
    requires Spell(root, at) in v && v[Spell(root, at)] == node
    ensures PathsBelow(v, root, at) == Spelled(root, Files(at, node))
    ensures node.File? ==> PathsBelow(v, root, at) == [Spell(root, at)]
  {
    hide Spell;
  }
}
