/**
 The namespace on records: what the directories' records and counters show is what the namespace
 says, and the operations on records take the steps of the namespace.
 */
module NamespaceRecords {
  import opened Wrappers
  import opened DirectoryRecords
  import opened MinfsDirectory
  import opened NamespaceSpec

  /** A directory by what its records stand for, and its two counters. */
  datatype Dir = Dir(names: map<string, Binding>, links: int, dirents: int)

  ghost function DirOf(dir: Directory): Dir
    requires dir.Valid()
    reads dir
  {
    Dir(dir.Listing(), dir.linkCount, dir.direntCount)
  }

  predicate Dotted(names: map<string, Binding>, d: nat, parent: nat) {
    "." in names && names["."] == Binding(d, DirKind) && ".." in names && names[".."] == Binding(parent, DirKind)
  }

  /** The binding of one name is what the namespace has. */
  ghost predicate NameShown(fs: Fs, d: nat, names: map<string, Binding>, n: string) {
    && (n in names <==> (d, n) in fs.entries)
    && (n in names ==>
          fs.entries[(d, n)] in fs.nodes && names[n] == Binding(fs.entries[(d, n)], fs.nodes[fs.entries[(d, n)]].kind))
  }

  /** Directory d shows its entries, ".", "..", and its counts. */
  ghost predicate Shows(fs: Fs, d: nat, dir: Dir) {
    && d in fs.nodes && fs.nodes[d].kind == DirKind
    && dir.links == fs.nodes[d].links && dir.dirents == fs.nodes[d].dirents
    && Dotted(dir.names, d, fs.nodes[d].parent)
    && forall n :: !DotName(n) ==> NameShown(fs, d, dir.names, n)
  }

  /** Every linked directory does. */
  ghost predicate Recorded(fs: Fs, store: map<nat, Dir>) {
    forall d :: LinkedDir(fs, d) ==> d in store && Shows(fs, d, store[d])
  }

  // ---------------------------------------------------------------------------
  // The steps on records

  function Appended(dir: Dir, name: string, b: Binding): Dir {
    Dir(dir.names[name := b], dir.links + (if b.kind == DirKind then 1 else 0), dir.dirents + 1)
  }

  function Removed(dir: Dir, name: string, kind: Kind): Dir {
    Dir(dir.names - {name}, dir.links - (if kind == DirKind then 1 else 0), dir.dirents - 1)
  }

  function Retargeted(dir: Dir, name: string, i: nat): Dir
    requires name in dir.names
  {
    dir.(names := dir.names[name := Binding(i, dir.names[name].kind)])
  }

  /** Nothing that directory d shows is different in g. */
  ghost predicate Untouched(fs: Fs, g: Fs, d: nat) {
    && d in fs.nodes && d in g.nodes && g.nodes[d] == fs.nodes[d]
    && (forall n :: (d, n) in fs.entries <==> (d, n) in g.entries)
    && (forall n :: (d, n) in fs.entries ==>
          && g.entries[(d, n)] == fs.entries[(d, n)]
          && (fs.entries[(d, n)] in fs.nodes ==>
                fs.entries[(d, n)] in g.nodes && g.nodes[fs.entries[(d, n)]].kind == fs.nodes[fs.entries[(d, n)]].kind))
  }

  lemma StillShows(fs: Fs, g: Fs, d: nat, dir: Dir)
    requires Shows(fs, d, dir) && Untouched(fs, g, d)
    ensures Shows(g, d, dir)
  {
    forall n | !DotName(n) ensures NameShown(g, d, dir.names, n) {
      assert NameShown(fs, d, dir.names, n);
    }
  }

  /** A changed directory, and all others as they were. */
  lemma OneChanged(fs: Fs, g: Fs, store: map<nat, Dir>, d: nat, dir: Dir)
    requires Recorded(fs, store) && (LinkedDir(g, d) ==> Shows(g, d, dir))
    requires forall x :: x != d && LinkedDir(g, x) ==> LinkedDir(fs, x) && Untouched(fs, g, x)
    ensures Recorded(g, store[d := dir])
  {
    hide Shows, Untouched;
    forall x | LinkedDir(g, x) ensures x in store[d := dir] && Shows(g, x, store[d := dir][x]) {
      if x != d {
        StillShows(fs, g, x, store[x]);
      }
    }
  }

  lemma AppendShows(fs: Fs, d: nat, dir: Dir, name: string, i: nat)
    requires Shows(fs, d, dir) && !DotName(name) && i in fs.nodes
    ensures Shows(Append(fs, d, name, i, fs.nodes[i].kind), d, Appended(dir, name, Binding(i, fs.nodes[i].kind)))
  {
    var g, h := Append(fs, d, name, i, fs.nodes[i].kind), Appended(dir, name, Binding(i, fs.nodes[i].kind));
    forall n | !DotName(n) ensures NameShown(g, d, h.names, n) {
      assert NameShown(fs, d, dir.names, n);
    }
  }

  lemma DetachShows(fs: Fs, d: nat, dir: Dir, name: string, kind: Kind)
    requires Shows(fs, d, dir) && !DotName(name)
    ensures Shows(Detach(fs, d, name, kind), d, Removed(dir, name, kind))
  {
    var g, h := Detach(fs, d, name, kind), Removed(dir, name, kind);
    forall n | !DotName(n) ensures NameShown(g, d, h.names, n) {
      assert NameShown(fs, d, dir.names, n);
    }
  }

  /** Only an inode of the same kind takes the place of another. */
  lemma RetargetShows(fs: Fs, d: nat, dir: Dir, name: string, i: nat)
    requires Shows(fs, d, dir) && !DotName(name) && (d, name) in fs.entries && i in fs.nodes
    requires fs.entries[(d, name)] in fs.nodes ==> fs.nodes[fs.entries[(d, name)]].kind == fs.nodes[i].kind
    ensures name in dir.names
    ensures Shows(fs.(entries := fs.entries[(d, name) := i]), d, Retargeted(dir, name, i))
  {
    assert NameShown(fs, d, dir.names, name);
    var g, h := fs.(entries := fs.entries[(d, name) := i]), Retargeted(dir, name, i);
    forall n | !DotName(n) ensures NameShown(g, d, h.names, n) {
      assert NameShown(fs, d, dir.names, n);
    }
  }

  lemma ParentShows(fs: Fs, d: nat, dir: Dir, parent: nat)
    requires Shows(fs, d, dir)
    ensures ".." in dir.names && Shows(SetParent(fs, d, parent), d, Retargeted(dir, "..", parent))
  {
    var g, h := SetParent(fs, d, parent), Retargeted(dir, "..", parent);
    forall n | !DotName(n) ensures NameShown(g, d, h.names, n) {
      assert NameShown(fs, d, dir.names, n);
    }
  }

  lemma NewDirShows(fs: Fs, d: nat, parent: nat)
    requires d in fs.nodes && fs.nodes[d] == NewNode(DirKind, parent) && forall n :: (d, n) !in fs.entries
    ensures Shows(fs, d, Dir(map["." := Binding(d, DirKind), ".." := Binding(parent, DirKind)], 2, 2))
  {
  }

  // ---------------------------------------------------------------------------
  // The steps on all directories

  lemma AppendRecorded(fs: Fs, store: map<nat, Dir>, d: nat, name: string, i: nat)
    requires Recorded(fs, store) && LinkedDir(fs, d) && !DotName(name) && i in fs.nodes
    ensures d in store
    ensures Recorded(Append(fs, d, name, i, fs.nodes[i].kind),
                     store[d := Appended(store[d], name, Binding(i, fs.nodes[i].kind))])
  {
    hide Shows;
    AppendShows(fs, d, store[d], name, i);
    OneChanged(fs, Append(fs, d, name, i, fs.nodes[i].kind), store, d, Appended(store[d], name, Binding(i, fs.nodes[i].kind)));
  }

  lemma DetachRecorded(fs: Fs, store: map<nat, Dir>, d: nat, name: string, kind: Kind)
    requires Recorded(fs, store) && LinkedDir(fs, d) && !DotName(name)
    ensures d in store && Recorded(Detach(fs, d, name, kind), store[d := Removed(store[d], name, kind)])
  {
    hide Shows;
    DetachShows(fs, d, store[d], name, kind);
    OneChanged(fs, Detach(fs, d, name, kind), store, d, Removed(store[d], name, kind));
  }

  lemma RetargetRecorded(fs: Fs, store: map<nat, Dir>, d: nat, name: string, i: nat)
    requires Recorded(fs, store) && LinkedDir(fs, d) && !DotName(name) && (d, name) in fs.entries && i in fs.nodes
    requires fs.entries[(d, name)] in fs.nodes ==> fs.nodes[fs.entries[(d, name)]].kind == fs.nodes[i].kind
    ensures d in store && name in store[d].names
    ensures Recorded(fs.(entries := fs.entries[(d, name) := i]), store[d := Retargeted(store[d], name, i)])
  {
    hide Shows;
    RetargetShows(fs, d, store[d], name, i);
    OneChanged(fs, fs.(entries := fs.entries[(d, name) := i]), store, d, Retargeted(store[d], name, i));
  }

  lemma ParentRecorded(fs: Fs, store: map<nat, Dir>, d: nat, parent: nat)
    requires Recorded(fs, store) && LinkedDir(fs, d)
    ensures d in store && ".." in store[d].names
    ensures Recorded(SetParent(fs, d, parent), store[d := Retargeted(store[d], "..", parent)])
  {
    hide Shows;
    ParentShows(fs, d, store[d], parent);
    OneChanged(fs, SetParent(fs, d, parent), store, d, Retargeted(store[d], "..", parent));
  }

  /** A file's counts are no directory's business. */
  lemma FileChanged(fs: Fs, g: Fs, store: map<nat, Dir>, i: nat)
    requires Recorded(fs, store) && g.entries == fs.entries && i in fs.nodes && fs.nodes[i].kind == FileKind
    requires i in g.nodes && g.nodes == fs.nodes[i := g.nodes[i]] && g.nodes[i].kind == FileKind
    ensures Recorded(g, store)
  {
    hide Shows;
    forall x | LinkedDir(g, x) ensures x in store && Shows(g, x, store[x]) {
      StillShows(fs, g, x, store[x]);
    }
  }

  /** An inode losing a link, its last if it is a directory. */
  lemma DropRecorded(fs: Fs, store: map<nat, Dir>, i: nat, open: set<nat>)
    requires Recorded(fs, store) && Linked(fs, i) && (fs.nodes[i].kind == DirKind ==> fs.nodes[i].links == 2)
    requires fs.nodes[i].links == 1 || fs.nodes[i].kind == DirKind ==> forall e :: e in fs.entries ==> fs.entries[e] != i
    ensures Recorded(DropLink(fs, i, open), store)
  {
    hide Shows;
    var g := DropLink(fs, i, open);
    forall x | LinkedDir(g, x) ensures x in store && Shows(g, x, store[x]) {
      StillShows(fs, g, x, store[x]);
    }
  }

  // ---------------------------------------------------------------------------
  // The operations

  function NewDir(d: nat, parent: nat): Dir {
    Dir(map["." := Binding(d, DirKind), ".." := Binding(parent, DirKind)], 2, 2)
  }

  function Created(store: map<nat, Dir>, dir: nat, name: string, i: nat, kind: Kind): map<nat, Dir>
    requires dir in store
  {
    var s := if kind == DirKind then store[i := NewDir(i, dir)] else store;
    s[dir := Appended(store[dir], name, Binding(i, kind))]
  }

  /** A new inode and its entry: the records follow the step that keeps the namespace consistent. */
  lemma CreateOnRecords(fs: Fs, s: Shape, store: map<nat, Dir>, dir: nat, name: string, i: nat, kind: Kind)
    requires Consistent(fs, s) && Recorded(fs, store)
    requires LinkedDir(fs, dir) && (dir, name) !in fs.entries && i !in fs.nodes && !DotName(name)
    ensures dir in store
    ensures Recorded(Append(fs.(nodes := fs.nodes[i := NewNode(kind, dir)]), dir, name, i, kind),
                     Created(store, dir, name, i, kind))
  {
    hide Shows, Rooted, OneParent, Ranked, Counted;
    var g := fs.(nodes := fs.nodes[i := NewNode(kind, dir)]);
    forall n ensures (i, n) !in g.entries {
    }
    if kind == DirKind {
      NewDirShows(g, i, dir);
      OneChanged(fs, g, store, i, NewDir(i, dir));
      AppendRecorded(g, store[i := NewDir(i, dir)], dir, name, i);
    } else {
      InodeAdded(fs, g, store, i);
      AppendRecorded(g, store, dir, name, i);
    }
  }

  lemma InodeAdded(fs: Fs, g: Fs, store: map<nat, Dir>, i: nat)
    requires Recorded(fs, store) && i !in fs.nodes && i in g.nodes && g.nodes[i].kind == FileKind
    requires g == fs.(nodes := fs.nodes[i := g.nodes[i]])
    ensures Recorded(g, store)
  {
    hide Shows;
    forall x | LinkedDir(g, x) ensures x in store && Shows(g, x, store[x]) {
      StillShows(fs, g, x, store[x]);
    }
  }

  /** One more name for a file. */
  lemma LinkOnRecords(fs: Fs, store: map<nat, Dir>, dir: nat, name: string, i: nat)
    requires Recorded(fs, store) && LinkedDir(fs, dir) && !DotName(name) && i in fs.nodes && fs.nodes[i].kind == FileKind
    ensures dir in store
    ensures Recorded(AddLink(Append(fs, dir, name, i, FileKind), i),
                     store[dir := Appended(store[dir], name, Binding(i, FileKind))])
  {
    AppendRecorded(fs, store, dir, name, i);
    var g, t := Append(fs, dir, name, i, FileKind), store[dir := Appended(store[dir], name, Binding(i, FileKind))];
    hide Recorded;
    FileChanged(g, AddLink(g, i), t, i);
  }

  /** Taking an entry away, and perhaps its inode. */
  lemma UnlinkOnRecords(fs: Fs, s: Shape, store: map<nat, Dir>, dir: nat, name: string, open: set<nat>)
    requires Consistent(fs, s) && Recorded(fs, store) && (dir, name) in fs.entries && !DotName(name)
    requires var i := fs.entries[(dir, name)];
             i in fs.nodes && (fs.nodes[i].kind == DirKind ==> fs.nodes[i].dirents == 2)
    ensures var i := fs.entries[(dir, name)];
            && dir in fs.nodes && dir in store && i in Detach(fs, dir, name, fs.nodes[i].kind).nodes
            && Recorded(DropLink(Detach(fs, dir, name, fs.nodes[i].kind), i, open),
                        store[dir := Removed(store[dir], name, fs.nodes[i].kind)])
  {
    hide Recorded, Home, OnlyName, RankedAt, CountedAt;
    var i := fs.entries[(dir, name)];
    RenameLinks(fs, s, dir, name);
    LastName(fs, s, (dir, name));
    NotOwnChild(fs, s, dir, name);
    hide Consistent;
    DetachRecorded(fs, store, dir, name, fs.nodes[i].kind);
    var g, t := Detach(fs, dir, name, fs.nodes[i].kind), store[dir := Removed(store[dir], name, fs.nodes[i].kind)];
    DropRecorded(g, t, i, open);
  }

  /** What an inode that can be unlinked has: two links if it is a directory, and no other name if it is about to go. */
  lemma LastName(fs: Fs, s: Shape, e: (nat, string))
    requires Consistent(fs, s) && e in fs.entries
    requires var i := fs.entries[e]; i in fs.nodes && (fs.nodes[i].kind == DirKind ==> fs.nodes[i].dirents == 2)
    ensures var i := fs.entries[e];
            && Linked(fs, i) && (fs.nodes[i].kind == DirKind ==> fs.nodes[i].links == 2)
            && (fs.nodes[i].links == 1 || fs.nodes[i].kind == DirKind ==>
                  forall f :: f in fs.entries && f != e ==> fs.entries[f] != i)
  {
    hide Home, OnlyName, RankedAt, CountedAt;
    var i := fs.entries[e];
    assert Linked(fs, i);
    if fs.nodes[i].kind == DirKind {
      EmptyDirectory(fs, s, i);
      OneName(fs, s, e);
    } else {
      NamedOnce(fs, e, i);
    }
  }

  /** Rename on records: retarget or append in the one, lead ".." there, and take the entry out of the other. */
  function Renamed(store: map<nat, Dir>, src: nat, oldName: string, dst: nat, newName: string, i: nat, kind: Kind): map<nat, Dir>
    requires src in store && dst in store && (kind == DirKind ==> i in store && ".." in store[i].names)
  {
    var s1 := store[dst := if newName in store[dst].names then Retargeted(store[dst], newName, i)
                           else Appended(store[dst], newName, Binding(i, kind))];
    var s2 := if kind == DirKind && src != dst then s1[i := Retargeted(s1[i], "..", dst)] else s1;
    s2[src := Removed(s2[src], oldName, kind)]
  }

  lemma NamedAnewRecorded(fs: Fs, s: Shape, store: map<nat, Dir>, dst: nat, newName: string, i: nat, open: set<nat>)
    requires Consistent(fs, s) && Recorded(fs, store) && LinkedDir(fs, dst) && !DotName(newName) && Linked(fs, i)
    requires (dst, newName) in fs.entries ==>
               var t := fs.entries[(dst, newName)];
               t in fs.nodes && t != i && fs.nodes[t].kind == fs.nodes[i].kind && (fs.nodes[t].kind == DirKind ==> fs.nodes[t].dirents == 2)
    ensures dst in store && (newName in store[dst].names <==> (dst, newName) in fs.entries)
    ensures Recorded(NamedAnew(fs, dst, newName, i, fs.nodes[i].kind, open),
                     store[dst := if newName in store[dst].names then Retargeted(store[dst], newName, i)
                                  else Appended(store[dst], newName, Binding(i, fs.nodes[i].kind))])
  {
    assert Shows(fs, dst, store[dst]) && NameShown(fs, dst, store[dst].names, newName);
    hide Recorded, Shows, Home, OnlyName, RankedAt, CountedAt;
    if (dst, newName) in fs.entries {
      var t := fs.entries[(dst, newName)];
      LastName(fs, s, (dst, newName));
      hide Consistent;
      RetargetRecorded(fs, store, dst, newName, i);
      var h := fs.(entries := fs.entries[(dst, newName) := i]);
      DropRecorded(h, store[dst := Retargeted(store[dst], newName, i)], t, open);
      assert DropLink(h, t, open) == NamedAnew(fs, dst, newName, i, fs.nodes[i].kind, open);
    } else {
      AppendRecorded(fs, store, dst, newName, i);
    }
  }

  lemma NamedAnewKeeps(fs: Fs, dst: nat, newName: string, i: nat, open: set<nat>, x: nat)
    requires dst in fs.nodes && i in fs.nodes && x in fs.nodes
    requires (dst, newName) in fs.entries ==> fs.entries[(dst, newName)] in fs.nodes - {x}
    requires fs.nodes[x].links > 0
    ensures var f := NamedAnew(fs, dst, newName, i, fs.nodes[i].kind, open);
            x in f.nodes && f.nodes[x].kind == fs.nodes[x].kind && f.nodes[x].links >= fs.nodes[x].links
  {
  }

  /** A rename that passes the checks, step for step on the records of the two or three directories. */
  lemma RenameOnRecords(
    fs: Fs, s: Shape, store: map<nat, Dir>, src: nat, oldName: string, dst: nat, newName: string, open: set<nat>)
    requires Consistent(fs, s) && Recorded(fs, store) && !DotName(oldName) && !DotName(newName)
    requires (src, oldName) in fs.entries && LinkedDir(fs, dst) && (src, oldName) != (dst, newName)
    requires var i := fs.entries[(src, oldName)];
             && i in fs.nodes
             && (fs.nodes[i].kind == DirKind ==> !Under(fs, s, dst, i))
             && ((dst, newName) in fs.entries ==>
                   var target := fs.entries[(dst, newName)];
                   && target in fs.nodes && target != i && fs.nodes[target].kind == fs.nodes[i].kind
                   && (fs.nodes[target].kind == DirKind ==> fs.nodes[target].dirents == 2))
    ensures src in fs.nodes && src in store && dst in store && fs.entries[(src, oldName)] != src
    ensures (dst, newName) in fs.entries ==>
              fs.entries[(dst, newName)] in fs.nodes - {src, dst, fs.entries[(src, oldName)]}
    ensures var i := fs.entries[(src, oldName)];
            && (fs.nodes[i].kind == DirKind ==> i in store && ".." in store[i].names)
            && Recorded(RenameSteps(fs, src, oldName, dst, newName, open), Renamed(store, src, oldName, dst, newName, i, fs.nodes[i].kind))
  {
    hide Recorded, Shows, Home, OnlyName, RankedAt, CountedAt, Counted, DropLink, Detach, Append, Under;
    var i := fs.entries[(src, oldName)];
    var kind := fs.nodes[i].kind;
    RenameLinks(fs, s, src, oldName);
    NotOwnChild(fs, s, src, oldName);
    if (dst, newName) in fs.entries {
      TargetApart(fs, s, src, oldName, dst, newName);
    }
    NamedAnewRecorded(fs, s, store, dst, newName, i, open);
    InStore(fs, store, src);
    if kind == DirKind {
      NotUnderItself(fs, s, i);
      InStore(fs, store, i);
    }
    hide Consistent;
    NamedAnewKeeps(fs, dst, newName, i, open, src);
    NamedAnewKeeps(fs, dst, newName, i, open, i);
    var f1 := NamedAnew(fs, dst, newName, i, kind, open);
    var s1 := store[dst := if newName in store[dst].names then Retargeted(store[dst], newName, i)
                           else Appended(store[dst], newName, Binding(i, kind))];
    RestOfRename(f1, s1, src, oldName, dst, i, open);
  }

  lemma InStore(fs: Fs, store: map<nat, Dir>, d: nat)
    requires Recorded(fs, store) && LinkedDir(fs, d)
    ensures d in store && ".." in store[d].names
  {
  }

  lemma NotUnderItself(fs: Fs, s: Shape, d: nat)
    requires Consistent(fs, s) && LinkedDir(fs, d)
    ensures Under(fs, s, d, d)
  {
  }

  /** The second half: "..", and the old name. */
  lemma RestOfRename(f1: Fs, s1: map<nat, Dir>, src: nat, oldName: string, dst: nat, i: nat, open: set<nat>)
    requires Recorded(f1, s1) && LinkedDir(f1, src) && Linked(f1, i) && i != src && !DotName(oldName)
    requires f1.nodes[i].kind == DirKind ==> f1.nodes[i].links >= 2
    ensures var kind := f1.nodes[i].kind;
            && (kind == DirKind ==> i in s1 && ".." in s1[i].names)
            && var s2 := if kind == DirKind && src != dst then s1[i := Retargeted(s1[i], "..", dst)] else s1;
               var f2 := if kind == DirKind && src != dst then SetParent(f1, i, dst) else f1;
               && src in s2 && src in f2.nodes
               && Recorded(DropLink(Detach(AddLink(f2, i), src, oldName, kind), i, open), s2[src := Removed(s2[src], oldName, kind)])
  {
    hide Shows;
    var kind := f1.nodes[i].kind;
    if kind == DirKind {
      InStore(f1, s1, i);
    }
    hide Recorded;
    if kind == DirKind && src != dst {
      ParentRecorded(f1, s1, i, dst);
      var f2, s2 := SetParent(f1, i, dst), s1[i := Retargeted(s1[i], "..", dst)];
      DetachRecorded(f2, s2, src, oldName, kind);
      BumpCancels(f2, src, oldName, i, open);
    } else {
      DetachRecorded(f1, s1, src, oldName, kind);
      BumpCancels(f1, src, oldName, i, open);
    }
  }

  // ---------------------------------------------------------------------------
  // The directories themselves take these steps

  /** Some record of the directory has room for the name. */
  ghost predicate HasSpace(dir: Directory, name: string)
    requires dir.Valid()
    reads dir
  {
    exists o :: o in dir.layout.bounds && RoomAt(dir.contents, o, DirentSize(|name|))
  }

  ghost predicate RoomAt(c: Contents, o: nat, length: nat) {
    o in c.mem && HasRoom(c.mem[o], o, length)
  }

  lemma NameFound(fs: Fs, d: nat, dir: Directory, name: string)
    requires dir.Valid() && Shows(fs, d, DirOf(dir)) && !DotName(name)
    ensures name in dir.layout.at <==> (d, name) in fs.entries
    ensures name in dir.layout.at <==> name in dir.Listing()
  {
    assert NameShown(fs, d, DirOf(dir).names, name);
  }

  lemma BoundsStored(dir: Directory)
    requires dir.Valid()
    ensures forall o :: o in dir.layout.bounds ==> o in dir.contents.mem
  {
  }

  /** A new entry where FindSpace finds room: it fits exactly if some record has room, and then it is one step of the namespace. */
  method AddEntry(ghost fs: Fs, d: nat, dir: Directory, name: string, i: nat, kind: Kind) returns (r: Result<()>)
    requires dir.Valid() && Shows(fs, d, DirOf(dir)) && 1 <= |name| <= MAX_NAME && !DotName(name)
    requires (d, name) !in fs.entries && i != 0 && i in fs.nodes && fs.nodes[i].kind == kind
    modifies dir
    ensures dir.Valid() && (r.Ok? <==> old(HasSpace(dir, name))) && (r.Err? ==> r.error == ErrNoSpace)
    ensures r.Ok? ==> DirOf(dir) == Appended(old(DirOf(dir)), name, Binding(i, kind))
    ensures r.Ok? ==> Shows(Append(fs, d, name, i, kind), d, DirOf(dir))
    ensures r.Err? ==> DirOf(dir) == old(DirOf(dir)) && dir.contents == old(dir.contents)
  {
    hide Shows, WellFormed, HasRoom, DirentSize, Names;
    NameFound(fs, d, dir, name);
    BoundsStored(dir);
    AppendShows(fs, d, DirOf(dir), name, i);
    var found := dir.FindSpace(DirentSize(|name|));
    if found.value.None? {
      assert !HasSpace(dir, name);
      return Err(ErrNoSpace);
    }
    assert RoomAt(dir.contents, found.value.value, DirentSize(|name|));
    RoomOf(dir.contents.mem[found.value.value], found.value.value, DirentSize(|name|));
    r := dir.AppendDirent(found.value.value, name, i, kind);
  }

  /** An entry found by its name and taken away. */
  method RemoveEntry(ghost fs: Fs, d: nat, dir: Directory, name: string, kind: Kind) returns (r: Result<()>)
    requires dir.Valid() && Shows(fs, d, DirOf(dir)) && !DotName(name)
    modifies dir
    ensures dir.Valid() && (r.Ok? <==> (d, name) in fs.entries) && (r.Err? ==> r.error == ErrNotFound)
    ensures r.Ok? ==> DirOf(dir) == Removed(old(DirOf(dir)), name, kind)
    ensures r.Ok? ==> Shows(Detach(fs, d, name, kind), d, DirOf(dir))
    ensures r.Err? ==> DirOf(dir) == old(DirOf(dir)) && dir.contents == old(dir.contents)
  {
    hide Shows, WellFormed, Names;
    NameFound(fs, d, dir, name);
    DetachShows(fs, d, DirOf(dir), name, kind);
    var found := dir.FindName(name);
    if found.value.None? {
      return Err(ErrNotFound);
    }
    PlacesInBounds(dir, name);
    r := dir.UnlinkChild(found.value.value.off, found.value.value.offPrev, kind == DirKind);
  }

  lemma PlacesInBounds(dir: Directory, name: string)
    requires dir.Valid() && name in dir.layout.at
    ensures dir.layout.at[name] in dir.layout.bounds
  {
  }

  /** An entry led to another inode of the same kind. */
  method ReplaceEntry(ghost fs: Fs, d: nat, dir: Directory, name: string, i: nat) returns (r: Result<()>)
    requires dir.Valid() && Shows(fs, d, DirOf(dir)) && !DotName(name) && i != 0 && i in fs.nodes
    requires (d, name) in fs.entries && fs.entries[(d, name)] in fs.nodes && fs.nodes[fs.entries[(d, name)]].kind == fs.nodes[i].kind
    modifies dir
    ensures dir.Valid() && r.Ok? && name in old(dir.Listing()) && DirOf(dir) == Retargeted(old(DirOf(dir)), name, i)
    ensures Shows(fs.(entries := fs.entries[(d, name) := i]), d, DirOf(dir))
  {
    hide Shows, WellFormed, Names;
    NameFound(fs, d, dir, name);
    RetargetShows(fs, d, DirOf(dir), name, i);
    var done := dir.UpdateInode(name, i);
    r := Ok(());
  }
}
