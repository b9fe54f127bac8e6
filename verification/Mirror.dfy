/** Sending a folder: the receiver's disk mirrors the sender's tree. */
module Mirror {
  import opened Prelude
  import opened Disk
  import opened Directory

  // ---------- the files of a tree

  /** A name that an entry of a folder can have. */
  predicate ValidName(name: Bytes) {
    name != [] && name != [DOT] && 0 !in name && forall c :: c in name ==> !IsDelim(c)
  }

  ghost predicate ValidTree(node: Node)
    decreases node
  {
    match node
    case File(_) => true
    case Folder(entries) => ValidEntries(entries)
  }

  /** The names in a folder are proper and differ from each other. */
  ghost predicate ValidEntries(entries: seq<Entry>)
    decreases entries
  {
    entries != [] ==>
      && ValidName(entries[0].name)
      && ValidTree(entries[0].node)
      && (forall e :: e in entries[1..] ==> e.name != entries[0].name)
      && ValidEntries(entries[1..])
  }

  /** Every file of a valid tree has a place below its root that is spelled by proper names. */
  ghost predicate IsBelow(at: Place, f: Found) {
    at <= f.at && forall i :: |at| <= i < |f.at| ==> ValidName(f.at[i])
  }

  lemma {:induction false} FilesBelow(at: Place, node: Node, f: Found)
    requires ValidTree(node) && f in Files(at, node)
    ensures IsBelow(at, f) && (node.Folder? ==> |f.at| > |at|)
    decreases node
  {
    if node.Folder? {
      EntryOf(at, node.entries, f);
    }
  }

  /** A file of a folder is below one of its entries. */
  lemma {:induction false} EntryOf(at: Place, entries: seq<Entry>, f: Found)
    requires ValidEntries(entries) && f in FilesOf(at, entries)
    ensures IsBelow(at, f) && |f.at| > |at|
    ensures exists e :: e in entries && f.at[|at|] == e.name
    decreases entries
  {
    var e := entries[0];
    if f in Files(at + [e.name], e.node) {
      FilesBelow(at + [e.name], e.node, f);
      assert f.at[|at|] == (at + [e.name])[|at|];
    } else {
      EntryOf(at, entries[1..], f);
    }
  }

  /** No file of a valid tree is where another one's folders are, and none is listed twice. */
  ghost predicate Apart(f: Found, g: Found) {
    !(f.at <= g.at) && !(g.at <= f.at)
  }

  lemma {:induction false} FilesApart(at: Place, node: Node, i: nat, j: nat)
    requires ValidTree(node) && i < j < |Files(at, node)|
    ensures Apart(Files(at, node)[i], Files(at, node)[j])
    decreases node
  {
    FilesOfApart(at, node.entries, i, j);
  }

  lemma {:induction false} FilesOfApart(at: Place, entries: seq<Entry>, i: nat, j: nat)
    requires ValidEntries(entries) && i < j < |FilesOf(at, entries)|
    ensures Apart(FilesOf(at, entries)[i], FilesOf(at, entries)[j])
    decreases entries
  {
    var e, rest := entries[0], entries[1..];
    var mine, others := Files(at + [e.name], e.node), FilesOf(at, rest);
    var f, g := FilesOf(at, entries)[i], FilesOf(at, entries)[j];
    if j < |mine| {
      FilesApart(at + [e.name], e.node, i, j);
    } else if i >= |mine| {
      FilesOfApart(at, rest, i - |mine|, j - |mine|);
    } else {
      assert f in mine && g in others;
      FilesBelow(at + [e.name], e.node, f);
      EntryOf(at, rest, g);
      assert f.at[|at|] == (at + [e.name])[|at|] == e.name;
      assert g.at[|at|] != e.name;
    }
  }

  // ---------- names relative to the root

  /** The name a file is uploaded under: its path without the root's, or the last component when the
      root is the file itself; empty when the file is not below the root. */
  function RelativePath(file: Bytes, dir: Bytes): Bytes {
    if dir == file then file[LastDelim(file) + 1..]
    else if dir <= file then file[|dir|..]
    else []
  }

  /** Prefixing the root undoes it, exactly for what lies below the root, or for the root itself if that
      has no name of its own; a root that is the file leaves the file's bare name. */
  lemma RelativeInverse(file: Bytes, dir: Bytes)
    ensures dir + RelativePath(file, dir) == file <==> dir < file || (dir == file && (dir == [] || EndsInDelim(dir)))
    ensures forall rel :: rel != [] ==> RelativePath(dir + rel, dir) == rel
    ensures !(dir <= file) ==> RelativePath(file, dir) == []
    ensures var name := RelativePath(file, file);
      file == file[..|file| - |name|] + name && LastDelim(name) < 0
      && (|name| < |file| ==> EndsInDelim(file[..|file| - |name|]))
  {
    hide LastDelim, RelativePath;
    BareName(file);
    RelativeWhole(file, dir);
  }

  lemma RelativeWhole(file: Bytes, dir: Bytes)
    ensures dir + RelativePath(file, dir) == file <==> dir < file || (dir == file && (dir == [] || EndsInDelim(dir)))
    ensures forall rel :: rel != [] ==> RelativePath(dir + rel, dir) == rel
    ensures !(dir <= file) ==> RelativePath(file, dir) == []
  {
    hide LastDelim;
    if dir == file {
      assert dir + RelativePath(file, dir) == file <==> |RelativePath(file, dir)| == 0;
    }
  }

  lemma BareName(file: Bytes)
    ensures var name := RelativePath(file, file);
      file == file[..|file| - |name|] + name && LastDelim(name) < 0
      && (|name| < |file| ==> EndsInDelim(file[..|file| - |name|]))
  {
    hide LastDelim;
    LastDelimIs(file[LastDelim(file) + 1..], -1);
  }

  /** The name of the file at `at` below the root. */
  function RelativeName(root: Bytes, at: Place): Bytes
    requires at != []
  {
    RelativePath(Spell(root, at), root)
  }

  ghost predicate ProperNames(at: Place) {
    forall i :: 0 <= i < |at| ==> ValidName(at[i])
  }

  lemma {:induction false} SpellBelow(root: Bytes, at: Place)
    requires at != [] && ProperNames(at)
    ensures root < Spell(root, at) && Spell(root, at) != [] && !EndsInDelim(Spell(root, at))
    decreases |at|
  {
    hide IsDelim;
    var n, up := at[|at| - 1], at[..|at| - 1];
    assert ValidName(n) && n[|n| - 1] in n;
    var folder := Spell(root, up);
    if up != [] {
      SpellBelow(root, up);
    }
    assert Spell(root, at)[|Spell(root, at)| - 1] == n[|n| - 1];
    assert folder <= Spell(root, at);
  }

  /** Below the root the path is spelled out component by component. */
  lemma RelativeNameStep(root: Bytes, at: Place)
    requires at != [] && ProperNames(at)
    ensures RelativeName(root, at)
         == if |at| > 1 then RelativeName(root, at[..|at| - 1]) + [SLASH] + at[|at| - 1]
            else (if root == [] || EndsInDelim(root) then [] else [SLASH]) + at[0]
  {
    hide EndsInDelim;
    var n, up := at[|at| - 1], at[..|at| - 1];
    SpellBelow(root, at);
    if up != [] {
      SpellBelow(root, up);
      var p := Spell(root, up);
      assert Spell(root, at) == p + [SLASH] + n;
      assert (p + [SLASH] + n)[|root|..] == p[|root|..] + [SLASH] + n;
    }
  }

  /** A transfer names files by putting the destination in front of the name. That is the place below
      the destination exactly when one of the two brings the delimiter between them, or both are empty. */
  predicate JoinsCleanly(src: Bytes, dst: Bytes) {
    if src == [] || EndsInDelim(src) then dst == [] || EndsInDelim(dst) else dst != []
  }

  lemma ResolveJoin(p: Bytes, name: Bytes)
    requires p != [] && ValidName(name)
    ensures Resolve(p + [SLASH] + name) == Resolve(p) + [name]
  {
    hide LastDelim;
    var q := p + [SLASH] + name;
    assert forall j :: |p| < j < |q| ==> q[j] in name;
    LastDelimIs(q, |p|);
    assert q[..|p|] == p && q[|p| + 1..] == name;
  }

  lemma ResolveName(name: Bytes)
    requires ValidName(name)
    ensures Resolve(name) == [name]
    ensures Resolve([SLASH] + name) == [ROOT, name]
  {
    hide LastDelim;
    assert forall j :: 0 <= j < |name| ==> name[j] in name;
    LastDelimIs(name, -1);
    assert name[0..] == name;
    var q := [SLASH] + name;
    LastDelimIs(q, 0);
    assert q[1..] == name;
  }

  /** A name put right behind a delimiter is one step down. */
  lemma ResolveBehindDelim(p: Bytes, name: Bytes)
    requires EndsInDelim(p) && ValidName(name)
    ensures Resolve(p + name) == Resolve(p) + [name]
  {
    hide LastDelim;
    var q, d := p + name, |p| - 1;
    assert forall j :: |p| <= j < |q| ==> q[j] in name;
    LastDelimIs(q, d);
    LastDelimIs(p, d);
    assert q[..d] == p[..d] && q[d + 1..] == name && p[d + 1..] == [];
  }

  /** A name put right behind another name makes one name of the two, and never that step. */
  lemma ResolveMerged(p: Bytes, name: Bytes)
    requires p != [] && !EndsInDelim(p) && ValidName(name)
    ensures Resolve(p + name) != Resolve(p) + [name]
  {
    hide LastDelim, Resolve, FolderPart, Component;
    var q := p + name;
    LastDelimMerged(p, name);
    SliceOfAppend(p, name, LastDelim(p) + 1);
    ResolveAt(p);
    ResolveAt(q);
    SameFolder(p, q);
    MergedComponent(FolderPart(p), p[LastDelim(p) + 1..], name);
  }

  lemma LastDelimMerged(p: Bytes, name: Bytes)
    requires ValidName(name)
    ensures LastDelim(p + name) == LastDelim(p)
  {
    hide LastDelim;
    forall j | LastDelim(p) < j < |p + name| ensures !IsDelim((p + name)[j]) {
      if j >= |p| {
        assert (p + name)[j] in name;
      }
    }
    LastDelimIs(p + name, LastDelim(p));
  }

  lemma SliceOfAppend(a: Bytes, b: Bytes, k: nat)
    requires k <= |a|
    ensures (a + b)[k..] == a[k..] + b
    ensures k > 0 ==> (a + b)[..k - 1] == a[..k - 1]
  {
  }

  lemma MergedComponent(folder: Place, last: Bytes, name: Bytes)
    requires last != [] && name != []
    ensures folder + Component(last + name) != folder + Component(last) + [name]
  {
    var merged := folder + Component(last + name);
    assert merged[|folder|] == last + name;
    if last == [DOT] {
      assert (folder + Component(last) + [name])[|folder|] == name;
    }
  }

  /** The first component of a name below the root. */
  lemma ResolveFirst(src: Bytes, dst: Bytes, name: Bytes)
    requires ValidName(name)
    ensures Resolve(dst + RelativeName(src, [name])) == Resolve(dst) + [name] <==> JoinsCleanly(src, dst)
  {
    hide Resolve;
    assert [name][..0] == [];
    RelativeNameStep(src, [name]);
    if src == [] || EndsInDelim(src) {
      assert RelativeName(src, [name]) == name;
      if dst == [] {
        ResolveName(name);
        ResolveNothing();
        assert [] + name == name;
      } else if EndsInDelim(dst) {
        ResolveBehindDelim(dst, name);
      } else {
        ResolveMerged(dst, name);
      }
    } else {
      assert dst + ([SLASH] + name) == dst + [SLASH] + name;
      if dst == [] {
        ResolveName(name);
        ResolveNothing();
        assert [] + ([SLASH] + name) == [SLASH] + name;
        assert |[ROOT, name]| != |[] + [name]|;
      } else {
        ResolveJoin(dst, name);
      }
    }
  }

  lemma ResolveNothing()
    ensures Resolve([]) == []
  {
  }

  /** Where an upload lands: below the destination at its own place in the tree, exactly when source
      and destination join cleanly. */
  lemma {:induction false} LandsBelow(src: Bytes, dst: Bytes, at: Place)
    requires at != [] && ProperNames(at)
    ensures Resolve(dst + RelativeName(src, at)) == Resolve(dst) + at <==> JoinsCleanly(src, dst)
    decreases |at|
  {
    hide Resolve, RelativeName, JoinsCleanly;
    var n, up := at[|at| - 1], at[..|at| - 1];
    assert at == up + [n];
    if up == [] {
      ResolveFirst(src, dst, n);
      assert at == [n];
    } else {
      LandsBelow(src, dst, up);
      RelativeNameStep(src, at);
      RelativeNameStep(src, up);
      var p := dst + RelativeName(src, up);
      assert dst + RelativeName(src, at) == p + [SLASH] + n;
      assert p != [] by { RelativeNameNonEmpty(src, up); }
      ResolveJoin(p, n);
      SameTail(Resolve(p), Resolve(dst) + up, [n]);
      assert Resolve(dst) + up + [n] == Resolve(dst) + at;
    }
  }

  lemma RelativeNameNonEmpty(src: Bytes, at: Place)
    requires at != [] && ProperNames(at)
    ensures RelativeName(src, at) != []
  {
    RelativeNameStep(src, at);
  }

  lemma SameTail(a: Place, b: Place, tail: Place)
    ensures a + tail == b + tail <==> a == b
  {
    if a + tail == b + tail {
      assert (a + tail)[..|a|] == (b + tail)[..|b|];
    }
  }

  /** Different files below one root are uploaded under different names. */
  lemma NamesDistinct(src: Bytes, at: Place, other: Place)
    requires at != [] && ProperNames(at) && other != [] && ProperNames(other)
    requires RelativeName(src, at) == RelativeName(src, other)
    ensures at == other
  {
    hide Resolve, RelativeName;
    var dst: Bytes := if src == [] || EndsInDelim(src) then [] else [DOT];
    LandsBelow(src, dst, at);
    LandsBelow(src, dst, other);
    assert (Resolve(dst) + at)[|Resolve(dst)|..] == at;
    assert (Resolve(dst) + other)[|Resolve(dst)|..] == other;
  }

  /** The paths below the root of a valid tree differ from each other. */
  lemma ListedOnce(v: Volume, root: Bytes, i: nat, j: nat)
    requires IsDirectory(v, root) && ValidTree(v[root]) && i < j < |PathsBelow(v, root, [])|
    ensures PathsBelow(v, root, [])[i] != PathsBelow(v, root, [])[j]
  {
    hide Files, ValidTree, RelativePath;
    var files := Files([], v[root]);
    FilesApart([], v[root], i, j);
    FilesBelow([], v[root], files[i]);
    FilesBelow([], v[root], files[j]);
    if Spell(root, files[i].at) == Spell(root, files[j].at) {
      NamesDistinct(root, files[i].at, files[j].at);
    }
  }

  /** So the walk returns each of them once. */
  lemma WalkedOnce(v: Volume, root: Bytes, filenames: seq<Bytes>, p: Bytes)
    requires IsDirectory(v, root) && ValidTree(v[root]) && multiset(filenames) == multiset(PathsBelow(v, root, []))
    ensures multiset(filenames)[p] == if IsListed(v, root, p) then 1 else 0
  {
    hide PathsBelow, IsListed, ValidTree;
    forall i, j | 0 <= i < j < |PathsBelow(v, root, [])| ensures PathsBelow(v, root, [])[i] != PathsBelow(v, root, [])[j] {
      ListedOnce(v, root, i, j);
    }
    DistinctOnce(PathsBelow(v, root, []), p);
    PathListed(v, root, p);
  }

  lemma {:induction false} DistinctOnce(paths: seq<Bytes>, p: Bytes)
    requires forall i, j :: 0 <= i < j < |paths| ==> paths[i] != paths[j]
    ensures multiset(paths)[p] == if p in paths then 1 else 0
    decreases |paths|
  {
    if paths != [] {
      assert paths == [paths[0]] + paths[1..];
      DistinctOnce(paths[1..], p);
    }
  }
}
