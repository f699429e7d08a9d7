/** Creating, linking, unlinking and renaming, over all directories of a file system. */
module Namespace {
  import opened Wrappers
  import opened DirectoryRecords
  import opened NamespaceSpec

  /** The names the callers let through: neither "." nor "..", and no separator. */
  predicate IsValidName(name: string) {
    1 <= |name| <= MAX_NAME && name != "." && name != ".." && '/' !in name
  }

  class Filesystem {
    var fs: Fs
    /** Inodes with open connections. */
    var open: set<nat>
    /** Inodes put on the unlinked list and not yet taken off. */
    var unlinked: set<nat>
    ghost var shape: Shape

    ghost predicate Valid()
      reads this
    {
      Consistent(fs, shape)
    }

    /** The list has exactly the inodes without links. */
    ghost predicate ListExact()
      reads this
    {
      unlinked == UnlinkedNodes(fs)
    }

    /** No entry is named "." or "..", and no name has a separator. */
    ghost predicate NamesValid()
      reads this
    {
      forall e :: e in fs.entries ==> IsValidName(e.1)
    }

    /** A file system with an empty root directory. */
    constructor ()
      ensures Valid() && ListExact() && NamesValid() && fs.entries == map[] && fs.nodes.Keys == {ROOT_INO}
    {
      fs := Fs(map[ROOT_INO := Node(DirKind, 2, 2, ROOT_INO)], map[]);
      open, unlinked := {}, {};
      shape := Shape(map[ROOT_INO := 0], map[]);
      new;
      assert Children(fs.entries, DirSet(fs), ROOT_INO) == {} && EntriesIn(fs.entries, ROOT_INO) == {};
      assert CountedAt(fs, ROOT_INO);
    }

    function Find(dir: nat, name: string): Option<nat>
      reads this
    {
      if (dir, name) in fs.entries then Some(fs.entries[(dir, name)]) else None
    }

    /** A new file or directory `ino`, a number the inode allocator has just given out. */
    method Create(dir: nat, name: string, kind: Kind, ino: nat, hasSpace: bool) returns (r: Result<()>)
      requires Valid() && dir in fs.nodes && fs.nodes[dir].kind == DirKind && ino !in fs.nodes
      modifies this
      ensures Valid() && open == old(open) && unlinked == old(unlinked) && (old(ListExact()) ==> ListExact())
      ensures old(NamesValid()) ==> NamesValid()
      ensures r == if !IsValidName(name) then Err(ErrInvalidArgs)
                   else if old(fs).nodes[dir].links == 0 then Err(ErrBadState)
                   else if (dir, name) in old(fs).entries then Err(ErrAlreadyExists)
                   else if !hasSpace then Err(ErrNoSpace) else Ok(())
      ensures r.Err? ==> fs == old(fs)
      ensures r.Ok? ==> fs.entries == old(fs).entries[(dir, name) := ino] && Linked(fs, ino) && fs.nodes[ino].kind == kind
      ensures r.Ok? && kind == DirKind ==> fs.nodes[ino].parent == dir
      ensures r.Ok? ==> SameInodes(fs, old(fs), {ino}) && SameParents(fs, old(fs), {})
    {
      hide Home, OnlyName, RankedAt, CountedAt, Rooted, Bound, OneParent, Counted, SameInodes, SameParents;
      if !IsValidName(name) {
        return Err(ErrInvalidArgs);
      }
      NonNegative(fs, shape, dir);
      if fs.nodes[dir].links == 0 {
        return Err(ErrBadState);
      }
      if Find(dir, name).Some? {
        return Err(ErrAlreadyExists);
      }
      if !hasSpace {
        return Err(ErrNoSpace);
      }
      CreateInodes(fs, dir, name, ino, kind);
      CreateKeeps(fs, shape, dir, name, ino, kind);
      shape := shape.(rank := shape.rank[ino := shape.rank[dir] + 1], nameOf := shape.nameOf[ino := name]);
      assert UnlinkedNodes(Append(fs.(nodes := fs.nodes[ino := NewNode(kind, dir)]), dir, name, ino, kind)) == UnlinkedNodes(fs);
      fs := fs.(nodes := fs.nodes[ino := NewNode(kind, dir)]);
      fs := Append(fs, dir, name, ino, kind);
      r := Ok(());
    }

    /**
     One more name for a file. Nothing is asked of the target's links, and the unlinked list is left
     alone: the list stays exact if and only if the target had a link. One that was unlinked while
     open has a name afterwards, and is still on the list.
     */
    method Link(dir: nat, name: string, target: nat, hasSpace: bool) returns (r: Result<()>)
      requires Valid() && IsValidName(name) && dir in fs.nodes && fs.nodes[dir].kind == DirKind && target in fs.nodes
      modifies this
      ensures Valid() && open == old(open) && unlinked == old(unlinked)
      ensures old(NamesValid()) ==> NamesValid()
      ensures r == if old(fs).nodes[dir].links == 0 then Err(ErrBadState)
                   else if old(fs).nodes[target].kind == DirKind then Err(ErrNotFile)
                   else if (dir, name) in old(fs).entries then Err(ErrAlreadyExists)
                   else if !hasSpace then Err(ErrNoSpace) else Ok(())
      ensures r.Err? ==> fs == old(fs)
      ensures r.Ok? ==> fs.entries == old(fs).entries[(dir, name) := target]
      ensures r.Ok? ==> Linked(fs, target) && fs.nodes[target].links == old(fs).nodes[target].links + 1
      ensures r.Ok? ==> SameInodes(old(fs), fs, {}) && SameParents(old(fs), fs, {})
      ensures r.Ok? && old(ListExact()) ==> (ListExact() <==> Linked(old(fs), target))
      ensures r.Ok? && old(ListExact()) && !Linked(old(fs), target) ==> target in unlinked
    {
      hide SameInodes, SameParents, Home, OnlyName, RankedAt, CountedAt;
      NonNegative(fs, shape, dir);
      NonNegative(fs, shape, target);
      if fs.nodes[dir].links == 0 {
        return Err(ErrBadState);
      }
      if fs.nodes[target].kind == DirKind {
        return Err(ErrNotFile);
      }
      if Find(dir, name).Some? {
        return Err(ErrAlreadyExists);
      }
      if !hasSpace {
        return Err(ErrNoSpace);
      }
      LinkKeeps(fs, shape, dir, name, target);
      LinkDelists(fs, dir, name, target);
      LinkInodes(fs, dir, name, target);
      fs := Append(fs, dir, name, target, FileKind);
      fs := AddLink(fs, target);
      r := Ok(());
    }

    /** One link less; an inode that stays without links is put on the unlinked list. */
    method RemoveInodeLink(i: nat)
      requires i in fs.nodes && fs.nodes[i].links != 0
      modifies this`fs, this`unlinked
      ensures fs == DropLink(old(fs), i, open)
      ensures fs.entries == old(fs).entries && SameInodes(old(fs), fs, {i}) && SameParents(old(fs), fs, {})
      ensures old(fs).nodes[i].links > 0 && (old(fs).nodes[i].kind == DirKind ==> old(fs).nodes[i].links == 2) ==>
                LostLink(old(fs), fs, i, open)
      ensures unlinked == old(unlinked) + (if i in fs.nodes && fs.nodes[i].links == 0 then {i} else {})
      ensures old(ListExact()) ==> ListExact()
    {
      DropLists(fs, i, open);
      if fs.nodes[i].links > 0 && (fs.nodes[i].kind == DirKind ==> fs.nodes[i].links == 2) {
        DropStays(fs, i, open);
      }
      fs := DropLink(fs, i, open);
      if i in fs.nodes && fs.nodes[i].links == 0 {
        unlinked := unlinked + {i};
      }
    }

    /** A file, or a directory with nothing but "." and "..". */
    function CanUnlink(i: nat): bool
      requires i in fs.nodes
      reads this
    {
      fs.nodes[i].kind == FileKind || fs.nodes[i].dirents == 2
    }

    /** By the counts, a directory can be unlinked exactly when no entry is in it. */
    lemma CanUnlinkIsEmpty(i: nat)
      requires Valid() && Linked(fs, i)
      ensures CanUnlink(i) <==> fs.nodes[i].kind == FileKind || Empty(fs, i)
    {
      assert CountedAt(fs, i);
      if fs.nodes[i].kind == DirKind {
        if CanUnlink(i) {
          EmptyDirectory(fs, shape, i);
        }
        assert Empty(fs, i) ==> EntriesIn(fs.entries, i) == {};
      }
    }

    method Unlink(dir: nat, name: string, mustBeDir: bool) returns (r: Result<()>)
      requires Valid() && IsValidName(name) && dir in fs.nodes && fs.nodes[dir].kind == DirKind
      modifies this
      ensures Valid() && open == old(open) && (old(ListExact()) ==> ListExact())
      ensures old(NamesValid()) ==> NamesValid()
      ensures (dir, name) !in old(fs).entries <==> r == Err(ErrNotFound)
      ensures r.Err? ==> fs == old(fs)
      ensures (dir, name) in old(fs).entries ==>
                var i := old(fs).entries[(dir, name)];
                && i in old(fs).nodes
                && r == if mustBeDir && old(fs).nodes[i].kind != DirKind then Err(ErrNotDir)
                        else if old(fs).nodes[i].kind == FileKind || Empty(old(fs), i) then Ok(()) else Err(ErrNotEmpty)
      ensures r.Ok? ==> fs.entries == old(fs).entries - {(dir, name)}
      ensures r.Ok? ==>
                var i := old(fs).entries[(dir, name)];
                && SameInodes(old(fs), fs, {i}) && SameParents(old(fs), fs, {})
                && LostLink(old(fs), fs, i, open)
                && unlinked == old(unlinked) + (if i in fs.nodes && fs.nodes[i].links == 0 then {i} else {})
      ensures r.Err? ==> unlinked == old(unlinked)
    {
      hide Home, OnlyName, RankedAt, CountedAt, Rooted, OneParent, Ranked, Counted, SameInodes, SameParents, LostLink, Empty, UnlinkedNodes;
      var found := Find(dir, name);
      if found.None? {
        return Err(ErrNotFound);
      }
      var i := found.value;
      assert Linked(fs, i) && LinkedDir(fs, dir);
      if mustBeDir && fs.nodes[i].kind != DirKind {
        return Err(ErrNotDir);
      }
      CanUnlinkIsEmpty(i);
      if !CanUnlink(i) {
        return Err(ErrNotEmpty);
      }
      if fs.nodes[i].kind == DirKind {
        EmptyDirectory(fs, shape, i);
      }
      UnlinkKeeps(fs, shape, dir, name, open);
      NotOwnChild(fs, shape, dir, name);
      RenameLinks(fs, shape, dir, name);
      UnlinkInodes(fs, dir, name, i, open);
      var kind := fs.nodes[i].kind;
      StillUnlinked(fs, Detach(fs, dir, name, kind), dir);
      fs := Detach(fs, dir, name, kind);
      RemoveInodeLink(i);
      r := Ok(());
    }

    /** Walks from newDir up to the root; fails exactly when x is met on the way. */
    method CheckNotSubdirectory(x: nat, newDir: nat) returns (r: Result<()>)
      requires Valid() && LinkedDir(fs, newDir) && x != ROOT_INO
      ensures r == if Under(fs, shape, newDir, x) then Err(ErrInvalidArgs) else Ok(())
    {
      hide Home, OnlyName, RankedAt, CountedAt, Counted;
      var vn := newDir;
      r := Ok(());
      UnderStep(fs, shape, vn, x);
      while vn != ROOT_INO
        invariant LinkedDir(fs, vn) && vn in shape.rank && r == Ok(())
        invariant Under(fs, shape, newDir, x) <==> Under(fs, shape, vn, x)
        decreases shape.rank[vn]
      {
        UnderStep(fs, shape, vn, x);
        if vn == x {
          return Err(ErrInvalidArgs);
        }
        UnderStep(fs, shape, fs.nodes[vn].parent, x);
        vn := fs.nodes[vn].parent;
      }
      UnderStep(fs, shape, vn, x);
    }

    /** What DirentCallbackAttemptRename checks of an existing target before it is replaced. */
    function CheckTarget(target: nat, ino: nat, kind: Kind): Result<()>
      requires target in fs.nodes
      reads this
    {
      if target == ino then Err(ErrBadState)
      else if kind != fs.nodes[target].kind then (if kind == DirKind then Err(ErrNotDir) else Err(ErrNotFile))
      else if !CanUnlink(target) then Err(ErrNotEmpty)
      else Ok(())
    }

    /**
     Moves one entry, within a directory or between two. If it succeeds exactly that entry has
     moved, in place of the target if there was one; if it fails nothing has changed.
     */
    method Rename(src: nat, oldName: string, dst: nat, newName: string, srcMustBeDir: bool, dstMustBeDir: bool, hasSpace: bool)
      returns (r: Result<()>)
      requires Valid() && IsValidName(oldName) && IsValidName(newName)
      requires src in fs.nodes && fs.nodes[src].kind == DirKind && dst in fs.nodes
      modifies this
      ensures Valid() && open == old(open) && (old(ListExact()) ==> ListExact())
      ensures old(NamesValid()) ==> NamesValid()
      ensures r.Err? ==> fs == old(fs) && unlinked == old(unlinked)
      ensures old(fs).nodes[dst].kind != DirKind ==> r == Err(ErrNotSupported)
      ensures old(fs).nodes[dst].kind == DirKind && (old(fs).nodes[dst].links == 0 || (src, oldName) !in old(fs).entries) ==>
                r == Err(ErrNotFound)
      ensures (src, oldName) in old(fs).entries && LinkedDir(old(fs), dst) ==>
                var i := old(fs).entries[(src, oldName)];
                && i in old(fs).nodes && ((dst, newName) in old(fs).entries ==> old(fs).entries[(dst, newName)] in old(fs).nodes)
                && r == if LinkedDir(old(fs), i) && Under(old(fs), old(shape), dst, i) then Err(ErrInvalidArgs)
                        else if old(fs).nodes[i].kind != DirKind && (srcMustBeDir || dstMustBeDir) then Err(ErrNotDir)
                        else if (src, oldName) == (dst, newName) then Ok(())
                        else if !hasSpace then Err(ErrNoSpace)
                        else if (dst, newName) !in old(fs).entries then Ok(())
                        else
                          var t := old(fs).entries[(dst, newName)];
                          if t == i then Err(ErrBadState)
                          else if old(fs).nodes[t].kind != old(fs).nodes[i].kind then
                            (if old(fs).nodes[i].kind == DirKind then Err(ErrNotDir) else Err(ErrNotFile))
                          else if old(fs).nodes[i].kind == DirKind && !Empty(old(fs), t) then Err(ErrNotEmpty)
                          else Ok(())
      ensures r.Ok? && (src, oldName) == (dst, newName) ==> fs == old(fs)
      ensures r.Ok? && (src, oldName) != (dst, newName) ==>
                var i := old(fs).entries[(src, oldName)];
                && fs.entries == old(fs).entries[(dst, newName) := i] - {(src, oldName)}
                && (LinkedDir(old(fs), i) ==> LinkedDir(fs, i) && fs.nodes[i].parent == dst)
      ensures r.Ok? && (src, oldName) != (dst, newName) ==>
                var i := old(fs).entries[(src, oldName)];
                var replaced := if (dst, newName) in old(fs).entries then {old(fs).entries[(dst, newName)]} else {};
                && SameInodes(old(fs), fs, replaced) && SameParents(old(fs), fs, {i})
                && (forall t :: t in replaced ==> LostLink(old(fs), fs, t, open))
                && i in fs.nodes && fs.nodes[i].links == old(fs).nodes[i].links
                && (forall t :: t in unlinked <==> t in old(unlinked) || (t in replaced && t in fs.nodes && fs.nodes[t].links == 0))
    {
      hide Home, OnlyName, RankedAt, CountedAt, Counted, RenameSteps, Under, DropLink, Detach, Append, SameInodes, SameParents, LostLink, Empty,
           UnlinkedNodes;
      if fs.nodes[dst].kind != DirKind {
        return Err(ErrNotSupported);
      }
      NonNegative(fs, shape, dst);
      if fs.nodes[dst].links == 0 {
        return Err(ErrNotFound);
      }
      var found := Find(src, oldName);
      if found.None? {
        return Err(ErrNotFound);
      }
      var i := found.value;
      assert Linked(fs, i) && LinkedDir(fs, src);
      var kind := fs.nodes[i].kind;
      if kind == DirKind {
        var check := CheckNotSubdirectory(i, dst);
        if check.Err? {
          return check;
        }
      }
      if kind != DirKind && (srcMustBeDir || dstMustBeDir) {
        return Err(ErrNotDir);
      }
      if src == dst && oldName == newName {
        return Ok(());
      }
      if !hasSpace {
        return Err(ErrNoSpace);
      }
      var existing := Find(dst, newName);
      if existing.Some? {
        assert Linked(fs, existing.value);
        CanUnlinkIsEmpty(existing.value);
        var check := CheckTarget(existing.value, i, kind);
        if check.Err? {
          return check;
        }
      }
      RenameLinks(fs, shape, src, oldName);
      RenamePremises(fs, shape, src, oldName, dst, newName);
      RenameInodes(fs, src, oldName, dst, newName, open);
      ghost var t := RenameKeeps(fs, shape, src, oldName, dst, newName, open);
      Steps(src, oldName, dst, newName, i, kind, existing);
      shape := t;
      r := Ok(());
    }

    /** The steps of Rename once all checks have passed. */
    method Steps(src: nat, oldName: string, dst: nat, newName: string, i: nat, kind: Kind, existing: Option<nat>)
      requires (src, oldName) in fs.entries && Linked(fs, src) && Linked(fs, dst) && Linked(fs, i) && i != src
      requires i == fs.entries[(src, oldName)] && kind == fs.nodes[i].kind && existing == Find(dst, newName)
      requires existing.Some? ==> existing.value in fs.nodes - {src, dst, i} && Linked(fs, existing.value)
      requires kind == DirKind ==> fs.nodes[i].links >= 2 && fs.nodes[src].links > 2 && i != dst
      requires existing.Some? && fs.nodes[existing.value].kind == DirKind ==> fs.nodes[existing.value].links == 2
      modifies this`fs, this`unlinked
      ensures fs == RenameSteps(old(fs), src, oldName, dst, newName, open)
      ensures old(ListExact()) ==> ListExact()
      ensures unlinked == old(unlinked) + (if existing.Some? && existing.value in fs.nodes && fs.nodes[existing.value].links == 0
                                           then {existing.value} else {})
    {
      hide LostLink, SameInodes, SameParents, UnlinkedNodes;
      ghost var before := fs;
      RenameInodes(fs, src, oldName, dst, newName, open);
      if existing.Some? {
        RemoveInodeLink(existing.value);
        LostAlike(before, fs, RenameSteps(before, src, oldName, dst, newName, open), existing.value, open);
        SameNodesUnlinked(fs, fs.(entries := fs.entries[(dst, newName) := i]));
        fs := fs.(entries := fs.entries[(dst, newName) := i]);
      } else {
        StillUnlinked(fs, Append(fs, dst, newName, i, kind), dst);
        fs := Append(fs, dst, newName, i, kind);
      }
      if kind == DirKind && src != dst {
        StillUnlinked(fs, SetParent(fs, i, dst), i);
        fs := SetParent(fs, i, dst);
      }
      StillUnlinked(fs, AddLink(fs, i), i);
      fs := AddLink(fs, i);
      StillUnlinked(fs, Detach(fs, src, oldName, kind), src);
      fs := Detach(fs, src, oldName, kind);
      DropLists(fs, i, open);
      ghost var listed := unlinked;
      RemoveInodeLink(i);
      assert fs == RenameSteps(before, src, oldName, dst, newName, open);
      assert unlinked == listed;
    }

    /** The last connection to an inode is closed; one without links then goes away, and leaves the list. */
    method Close(i: nat)
      requires Valid() && i in open && i in fs.nodes
      modifies this
      ensures Valid() && open == old(open) - {i} && fs.entries == old(fs).entries
      ensures fs.nodes == if old(fs).nodes[i].links == 0 then old(fs).nodes - {i} else old(fs).nodes
      ensures unlinked == if old(fs).nodes[i].links == 0 then old(unlinked) - {i} else old(unlinked)
      ensures old(ListExact()) ==> ListExact()
    {
      open := open - {i};
      if fs.nodes[i].links == 0 {
        PurgeKeeps(fs, shape, i);
        assert UnlinkedNodes(fs.(nodes := fs.nodes - {i})) == UnlinkedNodes(fs) - {i};
        fs := fs.(nodes := fs.nodes - {i});
        unlinked := unlinked - {i};
      }
    }
  }

  lemma SameNodesUnlinked(f: Fs, g: Fs)
    requires f.nodes == g.nodes
    ensures UnlinkedNodes(f) == UnlinkedNodes(g)
  {
  }

  lemma LostAlike(f: Fs, g: Fs, h: Fs, i: nat, open: set<nat>)
    requires LostLink(f, g, i, open) && LostLink(f, h, i, open)
    ensures (i in g.nodes && g.nodes[i].links == 0) <==> (i in h.nodes && h.nodes[i].links == 0)
  {
  }

  /** What RenameInodes asks for. */
  lemma RenamePremises(fs: Fs, s: Shape, src: nat, oldName: string, dst: nat, newName: string)
    requires Consistent(fs, s) && (src, oldName) in fs.entries && LinkedDir(fs, dst)
    requires var i := fs.entries[(src, oldName)];
             && i in fs.nodes && (fs.nodes[i].kind == DirKind ==> !Under(fs, s, dst, i))
             && ((dst, newName) in fs.entries ==>
                   var t := fs.entries[(dst, newName)];
                   t in fs.nodes && t != i && (fs.nodes[t].kind == DirKind ==> fs.nodes[t].dirents == 2))
    ensures var i := fs.entries[(src, oldName)]; i != src && (fs.nodes[i].kind == DirKind ==> i != dst)
    ensures (dst, newName) in fs.entries ==>
              var t := fs.entries[(dst, newName)];
              t in fs.nodes - {src, dst, fs.entries[(src, oldName)]} && Linked(fs, t) && (fs.nodes[t].kind == DirKind ==> fs.nodes[t].links == 2)
  {
    hide Home, OnlyName, RankedAt, CountedAt, Counted;
    NotOwnChild(fs, s, src, oldName);
    assert LinkedDir(fs, src) && LinkedDir(fs, dst);
    UnderStep(fs, s, dst, dst);
    if (dst, newName) in fs.entries {
      var t := fs.entries[(dst, newName)];
      assert Linked(fs, t);
      TargetApart(fs, s, src, oldName, dst, newName);
      if fs.nodes[t].kind == DirKind {
        EmptyDirectory(fs, s, t);
      }
    }
  }

  lemma NonNegative(fs: Fs, s: Shape, i: nat)
    requires Consistent(fs, s) && i in fs.nodes
    ensures fs.nodes[i].links >= 0
  {
    assert CountedAt(fs, i);
  }

  lemma PurgeKeeps(fs: Fs, s: Shape, i: nat)
    requires Consistent(fs, s) && i in fs.nodes && fs.nodes[i].links == 0
    ensures Consistent(fs.(nodes := fs.nodes - {i}), s)
  {
    hide Home, OnlyName, RankedAt, CountedAt;
    var g := fs.(nodes := fs.nodes - {i});
    forall j ensures (LinkedDir(g, j) <==> LinkedDir(fs, j)) && (Linked(g, j) <==> Linked(fs, j)) {
    }
    forall d | LinkedDir(g, d) ensures RankedAt(g, s, d) && (d != ROOT_INO ==> Home(g, s, d)) {
      HomeKept(fs, g, s, d, (i, ""));
    }
    forall e | e in g.entries ensures OnlyName(g, s, e) {
      EntryKept(fs, g, s, e, (i, ""));
    }
    assert DirSet(g) == DirSet(fs) || DirSet(g) == DirSet(fs) - {i};
    ChildrenWithout(fs.entries, DirSet(fs), i);
    forall j | j in g.nodes ensures CountedAt(g, j) {
      assert CountedAt(fs, j);
      PurgeCount(fs, g, i, j);
    }
  }

  lemma PurgeCount(fs: Fs, g: Fs, i: nat, j: nat)
    requires i in fs.nodes && g == fs.(nodes := fs.nodes - {i}) && j in g.nodes && CountedAt(fs, j)
    requires |Children(fs.entries, DirSet(g), j)| == |Children(fs.entries, DirSet(fs), j)|
    ensures CountedAt(g, j)
  {
  }
}
