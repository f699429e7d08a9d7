/** The tree of directories: which name in which directory leads where, and the link counts. */
module NamespaceSpec {
  import opened DirectoryRecords

  const ROOT_INO := 1

  /** links, dirents: the inode's counters. parent: where ".." leads. */
  datatype Node = Node(kind: Kind, links: int, dirents: int, parent: nat)

  /** entries: all names but "." and "..", by directory and name. */
  datatype Fs = Fs(nodes: map<nat, Node>, entries: map<(nat, string), nat>)

  /** A witness that the directories form a tree: where each has its name, and a rank that grows downwards. */
  datatype Shape = Shape(rank: map<nat, nat>, nameOf: map<nat, string>)

  predicate Linked(fs: Fs, i: nat) {
    i in fs.nodes && fs.nodes[i].links > 0
  }

  predicate LinkedDir(fs: Fs, i: nat) {
    Linked(fs, i) && fs.nodes[i].kind == DirKind
  }

  ghost function DirSet(fs: Fs): set<nat> {
    set i | i in fs.nodes && fs.nodes[i].kind == DirKind
  }

  // ---------------------------------------------------------------------------
  // Counting entries

  type Entries = map<(nat, string), nat>

  ghost function NamesOf(entries: Entries, i: nat): set<(nat, string)> {
    set e | e in entries && entries[e] == i
  }

  ghost function EntriesIn(entries: Entries, dir: nat): set<(nat, string)> {
    set e | e in entries && e.0 == dir
  }

  /** The entries of `dir` that lead to directories. */
  ghost function Children(entries: Entries, dirs: set<nat>, dir: nat): set<(nat, string)> {
    set e | e in entries && e.0 == dir && entries[e] in dirs
  }

  /** One entry more, e leading to i: how the three counts change. */
  ghost predicate OneMore(entries: Entries, n: Entries, e: (nat, string), i: nat, dirs: set<nat>) {
    && (forall j {:trigger NamesOf(n, j)} {:trigger NamesOf(entries, j)} ::
          |NamesOf(n, j)| == |NamesOf(entries, j)| + (if j == i then 1 else 0))
    && (forall d {:trigger EntriesIn(n, d)} {:trigger EntriesIn(entries, d)} ::
          |EntriesIn(n, d)| == |EntriesIn(entries, d)| + (if d == e.0 then 1 else 0))
    && (forall d {:trigger Children(n, dirs, d)} {:trigger Children(entries, dirs, d)} ::
          |Children(n, dirs, d)| == |Children(entries, dirs, d)| + (if d == e.0 && i in dirs then 1 else 0))
  }

  lemma Added(entries: Entries, e: (nat, string), i: nat, dirs: set<nat>)
    requires e !in entries
    ensures OneMore(entries, entries[e := i], e, i, dirs)
  {
    var n := entries[e := i];
    forall j ensures |NamesOf(n, j)| == |NamesOf(entries, j)| + (if j == i then 1 else 0) {
      AddedName(entries, e, i, j);
    }
    forall d ensures |EntriesIn(n, d)| == |EntriesIn(entries, d)| + (if d == e.0 then 1 else 0) {
      AddedEntry(entries, e, i, d);
    }
    forall d ensures |Children(n, dirs, d)| == |Children(entries, dirs, d)| + (if d == e.0 && i in dirs then 1 else 0) {
      AddedChild(entries, e, i, dirs, d);
    }
  }

  lemma AddedName(entries: Entries, e: (nat, string), i: nat, j: nat)
    requires e !in entries
    ensures |NamesOf(entries[e := i], j)| == |NamesOf(entries, j)| + (if j == i then 1 else 0)
  {
    assert NamesOf(entries[e := i], j) == NamesOf(entries, j) + (if j == i then {e} else {});
  }

  lemma AddedEntry(entries: Entries, e: (nat, string), i: nat, d: nat)
    requires e !in entries
    ensures |EntriesIn(entries[e := i], d)| == |EntriesIn(entries, d)| + (if d == e.0 then 1 else 0)
  {
    assert EntriesIn(entries[e := i], d) == EntriesIn(entries, d) + (if d == e.0 then {e} else {});
  }

  lemma AddedChild(entries: Entries, e: (nat, string), i: nat, dirs: set<nat>, d: nat)
    requires e !in entries
    ensures |Children(entries[e := i], dirs, d)| == |Children(entries, dirs, d)| + (if d == e.0 && i in dirs then 1 else 0)
  {
    assert Children(entries[e := i], dirs, d) == Children(entries, dirs, d) + (if d == e.0 && i in dirs then {e} else {});
  }

  lemma Removed(entries: Entries, e: (nat, string), dirs: set<nat>)
    requires e in entries
    ensures OneMore(entries - {e}, entries, e, entries[e], dirs)
  {
    assert (entries - {e})[e := entries[e]] == entries;
    Added(entries - {e}, e, entries[e], dirs);
  }

  // ---------------------------------------------------------------------------
  // Consistency

  ghost predicate Rooted(fs: Fs) {
    LinkedDir(fs, ROOT_INO) && fs.nodes[ROOT_INO].parent == ROOT_INO
  }

  /** Entries are in linked directories and lead to linked inodes, never to the root. */
  ghost predicate Bound(fs: Fs) {
    forall e :: e in fs.entries ==> LinkedDir(fs, e.0) && Linked(fs, fs.entries[e]) && fs.entries[e] != ROOT_INO
  }

  /** Directory d has its name in the directory its ".." leads to. */
  ghost predicate Home(fs: Fs, s: Shape, d: nat) {
    && d in fs.nodes && d in s.nameOf && (fs.nodes[d].parent, s.nameOf[d]) in fs.entries
    && fs.entries[(fs.nodes[d].parent, s.nameOf[d])] == d
  }

  /** Entry e is the home of the directory it leads to, if it leads to one. */
  ghost predicate OnlyName(fs: Fs, s: Shape, e: (nat, string)) {
    && e in fs.entries
    && (LinkedDir(fs, fs.entries[e]) ==>
          fs.entries[e] in s.nameOf && e == (fs.nodes[fs.entries[e]].parent, s.nameOf[fs.entries[e]]))
  }

  /** Every directory but the root has one name, and it is in its parent. */
  ghost predicate OneParent(fs: Fs, s: Shape) {
    && (forall d :: LinkedDir(fs, d) && d != ROOT_INO ==> Home(fs, s, d))
    && (forall e :: e in fs.entries ==> OnlyName(fs, s, e))
  }

  /** The parent of d is nearer to the root. */
  ghost predicate RankedAt(fs: Fs, s: Shape, d: nat) {
    && d in fs.nodes && d in s.rank
    && (d != ROOT_INO ==> fs.nodes[d].parent in s.rank && s.rank[fs.nodes[d].parent] < s.rank[d])
  }

  /** Going up by ".." makes progress towards the root. */
  ghost predicate Ranked(fs: Fs, s: Shape) {
    forall d :: LinkedDir(fs, d) ==> RankedAt(fs, s, d)
  }

  ghost predicate CountedAt(fs: Fs, i: nat) {
    && i in fs.nodes && fs.nodes[i].links >= 0
    && (fs.nodes[i].kind == FileKind ==> fs.nodes[i].links == |NamesOf(fs.entries, i)|)
    && (LinkedDir(fs, i) ==>
          && fs.nodes[i].links == 2 + |Children(fs.entries, DirSet(fs), i)|
          && fs.nodes[i].dirents == 2 + |EntriesIn(fs.entries, i)|)
  }

  /** A file has as many links as names, a directory two and one for each directory in it. */
  ghost predicate Counted(fs: Fs) {
    forall i :: i in fs.nodes ==> CountedAt(fs, i)
  }

  ghost predicate Consistent(fs: Fs, s: Shape) {
    Rooted(fs) && Bound(fs) && OneParent(fs, s) && Ranked(fs, s) && Counted(fs)
  }

  /** Going up from d one comes to x (or is there already). */
  ghost predicate Under(fs: Fs, s: Shape, d: nat, x: nat)
    requires Ranked(fs, s) && Bound(fs) && OneParent(fs, s)
    decreases if d in s.rank then s.rank[d] else 0
  {
    LinkedDir(fs, d) && RankedAt(fs, s, d) && (d == x || (d != ROOT_INO && Under(fs, s, fs.nodes[d].parent, x)))
  }

  /** A way up by ".." from d to x. */
  ghost predicate WayUp(fs: Fs, way: seq<nat>, d: nat, x: nat) {
    && way != [] && way[0] == d && way[|way| - 1] == x
    && (forall k :: 0 <= k < |way| ==> LinkedDir(fs, way[k]))
    && (forall k :: 0 <= k < |way| - 1 ==> way[k] != ROOT_INO && way[k + 1] == fs.nodes[way[k]].parent)
  }

  /** To be under x is to have a way up to it. */
  lemma {:induction false} UnderIsWayUp(fs: Fs, s: Shape, d: nat, x: nat)
    requires Ranked(fs, s) && Bound(fs) && OneParent(fs, s)
    ensures Under(fs, s, d, x) <==> exists way :: WayUp(fs, way, d, x)
    decreases if d in s.rank then s.rank[d] else 0
  {
    hide Home, OnlyName, Bound;
    if Under(fs, s, d, x) {
      if d == x {
        assert WayUp(fs, [d], d, x);
      } else {
        assert RankedAt(fs, s, d);
        UnderIsWayUp(fs, s, fs.nodes[d].parent, x);
        var way :| WayUp(fs, way, fs.nodes[d].parent, x);
        FurtherUp(fs, way, d, x);
      }
    }
    if way :| WayUp(fs, way, d, x) {
      assert LinkedDir(fs, d) && RankedAt(fs, s, d);
      if d != x {
        WayUpRest(fs, way, d, x);
        UnderIsWayUp(fs, s, fs.nodes[d].parent, x);
      }
    }
  }

  lemma FurtherUp(fs: Fs, way: seq<nat>, d: nat, x: nat)
    requires LinkedDir(fs, d) && d != ROOT_INO && WayUp(fs, way, fs.nodes[d].parent, x)
    ensures WayUp(fs, [d] + way, d, x)
  {
  }

  lemma WayUpRest(fs: Fs, way: seq<nat>, d: nat, x: nat)
    requires WayUp(fs, way, d, x) && d != x
    ensures d in fs.nodes && d != ROOT_INO && WayUp(fs, way[1..], fs.nodes[d].parent, x)
  {
    assert |way| > 1;
  }

  // ---------------------------------------------------------------------------
  // The steps

  /** AppendDirent: one more entry in dir. */
  function Append(fs: Fs, dir: nat, name: string, i: nat, kind: Kind): Fs
    requires dir in fs.nodes
  {
    var d := fs.nodes[dir];
    Fs(fs.nodes[dir := d.(dirents := d.dirents + 1, links := d.links + (if kind == DirKind then 1 else 0))],
       fs.entries[(dir, name) := i])
  }

  /** UnlinkChild: one entry less in dir, which a child of the given kind had. */
  function Detach(fs: Fs, dir: nat, name: string, kind: Kind): Fs
    requires dir in fs.nodes
  {
    var d := fs.nodes[dir];
    Fs(fs.nodes[dir := d.(dirents := d.dirents - 1, links := d.links - (if kind == DirKind then 1 else 0))],
       fs.entries - {(dir, name)})
  }

  /**
   RemoveInodeLink. A directory that is down to the link from itself loses that too. An inode
   without links goes away, or when it is open stays, as an empty one.
   */
  function DropLink(fs: Fs, i: nat, open: set<nat>): Fs
    requires i in fs.nodes
  {
    var n := fs.nodes[i];
    var links := if n.kind == DirKind && n.links - 1 == 1 then 0 else n.links - 1;
    if links == 0 && i !in open then fs.(nodes := fs.nodes - {i})
    else fs.(nodes := fs.nodes[i := n.(links := links, dirents := if links == 0 && n.kind == DirKind then 0 else n.dirents)])
  }

  function AddLink(fs: Fs, i: nat): Fs
    requires i in fs.nodes
  {
    fs.(nodes := fs.nodes[i := fs.nodes[i].(links := fs.nodes[i].links + 1)])
  }

  function SetParent(fs: Fs, i: nat, parent: nat): Fs
    requires i in fs.nodes
  {
    fs.(nodes := fs.nodes[i := fs.nodes[i].(parent := parent)])
  }

  function NewNode(kind: Kind, parent: nat): Node {
    if kind == DirKind then Node(DirKind, 2, 2, parent) else Node(FileKind, 1, 0, 0)
  }

  // ---------------------------------------------------------------------------
  // Inodes without links

  /** What should be on the unlinked list. */
  ghost function UnlinkedNodes(fs: Fs): set<nat> {
    set i | i in fs.nodes && fs.nodes[i].links == 0
  }

  /** Changing the counts of one inode, which had links and keeps some, loses no link. */
  lemma StillUnlinked(fs: Fs, g: Fs, i: nat)
    requires i in fs.nodes && fs.nodes[i].links != 0 && i in g.nodes && g.nodes[i].links != 0
    requires g.nodes == fs.nodes[i := g.nodes[i]]
    ensures UnlinkedNodes(g) == UnlinkedNodes(fs)
  {
  }

  lemma DropLists(fs: Fs, i: nat, open: set<nat>)
    requires i in fs.nodes && fs.nodes[i].links != 0
    ensures var g := DropLink(fs, i, open);
            UnlinkedNodes(g) == UnlinkedNodes(fs) + (if i in g.nodes && g.nodes[i].links == 0 then {i} else {})
  {
  }

  /** A name for an inode without links takes it out of those that should be on the list. */
  lemma LinkDelists(fs: Fs, dir: nat, name: string, i: nat)
    requires dir in fs.nodes && i in fs.nodes && fs.nodes[i].links >= 0 && dir != i
    ensures UnlinkedNodes(AddLink(Append(fs, dir, name, i, FileKind), i)) == UnlinkedNodes(fs) - {i}
  {
  }

  /** No name is in d. */
  ghost predicate Empty(fs: Fs, d: nat) {
    forall e :: e in fs.entries ==> e.0 != d
  }

  /** From fs to g inode i has lost a link. A directory that can lose one loses the link from itself and its entries as well. */
  ghost predicate LostLink(fs: Fs, g: Fs, i: nat, open: set<nat>) {
    && i in fs.nodes
    && (i in g.nodes <==> i in open || (fs.nodes[i].kind == FileKind && fs.nodes[i].links > 1))
    && (i in g.nodes ==> g.nodes[i].links == if fs.nodes[i].kind == DirKind then 0 else fs.nodes[i].links - 1)
    && (i in g.nodes && fs.nodes[i].kind == DirKind ==> g.nodes[i].dirents == 0)
  }

  /** From fs to g inodes have neither come nor changed their kind, and none but perhaps `gone` has gone. */
  ghost predicate SameInodes(fs: Fs, g: Fs, gone: set<nat>) {
    && g.nodes.Keys <= fs.nodes.Keys && fs.nodes.Keys - gone <= g.nodes.Keys
    && forall j :: j in g.nodes ==> g.nodes[j].kind == fs.nodes[j].kind
  }

  ghost predicate SameParents(fs: Fs, g: Fs, moved: set<nat>) {
    forall j :: j in g.nodes && j !in moved ==> j in fs.nodes && g.nodes[j].parent == fs.nodes[j].parent
  }

  /** When an inode goes away for the loss of a link, and what it is left with if it does not. */
  lemma DropStays(fs: Fs, i: nat, open: set<nat>)
    requires Linked(fs, i) && (fs.nodes[i].kind == DirKind ==> fs.nodes[i].links == 2)
    ensures var g := DropLink(fs, i, open);
            && g.entries == fs.entries && SameInodes(fs, g, {i}) && SameParents(fs, g, {})
            && LostLink(fs, g, i, open)
            && (forall j :: j in g.nodes && j != i ==> g.nodes[j] == fs.nodes[j])
  {
  }

  lemma CreateInodes(fs: Fs, dir: nat, name: string, i: nat, kind: Kind)
    requires dir in fs.nodes && i !in fs.nodes
    ensures var g := Append(fs.(nodes := fs.nodes[i := NewNode(kind, dir)]), dir, name, i, kind);
            SameInodes(g, fs, {i}) && SameParents(g, fs, {})
  {
  }

  lemma LinkInodes(fs: Fs, dir: nat, name: string, i: nat)
    requires dir in fs.nodes && i in fs.nodes
    ensures var g := AddLink(Append(fs, dir, name, i, FileKind), i); SameInodes(fs, g, {}) && SameParents(fs, g, {})
  {
  }

  lemma UnlinkInodes(fs: Fs, dir: nat, name: string, i: nat, open: set<nat>)
    requires dir in fs.nodes && i != dir && Linked(fs, i) && (fs.nodes[i].kind == DirKind ==> fs.nodes[i].links == 2)
    ensures var g := DropLink(Detach(fs, dir, name, fs.nodes[i].kind), i, open);
            SameInodes(fs, g, {i}) && SameParents(fs, g, {}) && LostLink(fs, g, i, open)
  {
  }

  lemma SameInodesCompose(f: Fs, g: Fs, h: Fs, a: set<nat>, b: set<nat>, m: set<nat>, n: set<nat>)
    requires SameInodes(f, g, a) && SameInodes(g, h, b) && SameParents(f, g, m) && SameParents(g, h, n)
    ensures SameInodes(f, h, a + b) && SameParents(f, h, m + n)
  {
  }

  /** A rename takes no inode away but the target, which stays exactly if it has a link left or is open; ".." changes in what is moved. */
  lemma RenameInodes(fs: Fs, src: nat, oldName: string, dst: nat, newName: string, open: set<nat>)
    requires (src, oldName) in fs.entries && src in fs.nodes && dst in fs.nodes && Linked(fs, fs.entries[(src, oldName)])
    requires var i := fs.entries[(src, oldName)]; i != src && (fs.nodes[i].kind == DirKind ==> fs.nodes[i].links >= 2 && i != dst)
    requires (dst, newName) in fs.entries ==>
               var t := fs.entries[(dst, newName)];
               t in fs.nodes - {src, dst, fs.entries[(src, oldName)]} && Linked(fs, t) && (fs.nodes[t].kind == DirKind ==> fs.nodes[t].links == 2)
    ensures var g, i := RenameSteps(fs, src, oldName, dst, newName, open), fs.entries[(src, oldName)];
            var gone := if (dst, newName) in fs.entries then {fs.entries[(dst, newName)]} else {};
            && SameInodes(fs, g, gone) && SameParents(fs, g, {i})
            && (forall t :: t in gone ==> LostLink(fs, g, t, open))
            && i in g.nodes && g.nodes[i].links == fs.nodes[i].links
  {
    hide RenameSteps, SameInodes, SameParents;
    var i := fs.entries[(src, oldName)];
    var kind := fs.nodes[i].kind;
    NamedAnewInodes(fs, src, dst, newName, i, open);
    var f1 := NamedAnew(fs, dst, newName, i, kind, open);
    var f2 := if kind == DirKind && src != dst then SetParent(f1, i, dst) else f1;
    MovedInodes(f1, src, dst, oldName, i);
    var gone := if (dst, newName) in fs.entries then {fs.entries[(dst, newName)]} else {};
    SameInodesCompose(fs, f1, Detach(f2, src, oldName, kind), gone, {}, {}, {i});
    assert gone + {} == gone && {} + {i} == {i};
    BumpCancels(f2, src, oldName, i, open);
    RenameHalves(fs, src, oldName, dst, newName, open);
  }

  lemma RenameHalves(fs: Fs, src: nat, oldName: string, dst: nat, newName: string, open: set<nat>)
    requires (src, oldName) in fs.entries && src in fs.nodes && dst in fs.nodes && Linked(fs, fs.entries[(src, oldName)])
    requires fs.entries[(src, oldName)] != src
    requires (dst, newName) in fs.entries ==> fs.entries[(dst, newName)] in fs.nodes - {src, dst, fs.entries[(src, oldName)]}
    ensures var i := fs.entries[(src, oldName)];
            var kind := fs.nodes[i].kind;
            var f1 := NamedAnew(fs, dst, newName, i, kind, open);
            && i in f1.nodes && src in f1.nodes
            && var f2 := if kind == DirKind && src != dst then SetParent(f1, i, dst) else f1;
               RenameSteps(fs, src, oldName, dst, newName, open) == DropLink(Detach(AddLink(f2, i), src, oldName, kind), i, open)
  {
  }

  lemma NamedAnewInodes(fs: Fs, src: nat, dst: nat, newName: string, i: nat, open: set<nat>)
    requires src in fs.nodes && dst in fs.nodes && Linked(fs, i) && (fs.nodes[i].kind == DirKind ==> i != dst)
    requires (dst, newName) in fs.entries ==>
               var t := fs.entries[(dst, newName)];
               t in fs.nodes - {src, dst, i} && Linked(fs, t) && (fs.nodes[t].kind == DirKind ==> fs.nodes[t].links == 2)
    ensures var g := NamedAnew(fs, dst, newName, i, fs.nodes[i].kind, open);
            var gone := if (dst, newName) in fs.entries then {fs.entries[(dst, newName)]} else {};
            && SameInodes(fs, g, gone) && SameParents(fs, g, {})
            && (forall t :: t in gone ==> LostLink(fs, g, t, open))
            && i in g.nodes && g.nodes[i].links == fs.nodes[i].links && src in g.nodes && g.nodes[i].kind == fs.nodes[i].kind
  {
    if (dst, newName) in fs.entries {
      DropStays(fs, fs.entries[(dst, newName)], open);
    }
  }

  lemma MovedInodes(f1: Fs, src: nat, dst: nat, oldName: string, i: nat)
    requires src in f1.nodes && Linked(f1, i) && i != src
    ensures var kind := f1.nodes[i].kind;
            var f2 := if kind == DirKind && src != dst then SetParent(f1, i, dst) else f1;
            && src in f2.nodes && Linked(f2, i) && f2.nodes[i].kind == kind && f2.nodes[i].links == f1.nodes[i].links
            && var g := Detach(f2, src, oldName, kind);
               && SameInodes(f1, g, {}) && SameParents(f1, g, {i}) && i in g.nodes && g.nodes[i].links == f1.nodes[i].links
               && (forall j :: j in f1.nodes && j != src && j != i ==> j in g.nodes && g.nodes[j] == f1.nodes[j])
               && (forall j :: j in g.nodes ==> j in f1.nodes)
  {
  }

  /** The link that Rename adds is the one it takes away again. */
  lemma BumpCancels(fs: Fs, src: nat, oldName: string, i: nat, open: set<nat>)
    requires src in fs.nodes && Linked(fs, i) && i != src && (fs.nodes[i].kind == DirKind ==> fs.nodes[i].links >= 2)
    ensures var kind := fs.nodes[i].kind;
            DropLink(Detach(AddLink(fs, i), src, oldName, kind), i, open) == Detach(fs, src, oldName, kind)
  {
    var kind := fs.nodes[i].kind;
    var a, b := DropLink(Detach(AddLink(fs, i), src, oldName, kind), i, open), Detach(fs, src, oldName, kind);
    assert a.nodes == b.nodes;
  }

  /** The first half of Rename: the new name leads to i, and a target that was there has lost its link. */
  function NamedAnew(fs: Fs, dst: nat, newName: string, i: nat, kind: Kind, open: set<nat>): Fs
    requires dst in fs.nodes && ((dst, newName) in fs.entries ==> fs.entries[(dst, newName)] in fs.nodes)
  {
    if (dst, newName) in fs.entries then
      var f := DropLink(fs, fs.entries[(dst, newName)], open);
      f.(entries := f.entries[(dst, newName) := i])
    else Append(fs, dst, newName, i, kind)
  }

  /** The inodes that take part in a rename have the links that it takes away in between. */
  lemma RenameLinks(fs: Fs, s: Shape, src: nat, oldName: string)
    requires Consistent(fs, s) && (src, oldName) in fs.entries
    ensures LinkedDir(fs, src) && Linked(fs, fs.entries[(src, oldName)])
    ensures fs.nodes[fs.entries[(src, oldName)]].kind == DirKind ==>
              fs.nodes[fs.entries[(src, oldName)]].links >= 2 && fs.nodes[src].links > 2
  {
    hide Home, OnlyName, RankedAt;
    var i := fs.entries[(src, oldName)];
    assert LinkedDir(fs, src) && Linked(fs, i);
    assert CountedAt(fs, i);
    if fs.nodes[i].kind == DirKind {
      HasChild(fs, (src, oldName));
    }
  }

  // ---------------------------------------------------------------------------
  // Create and Link

  lemma CreateKeeps(fs: Fs, s: Shape, dir: nat, name: string, i: nat, kind: Kind)
    requires Consistent(fs, s) && LinkedDir(fs, dir) && (dir, name) !in fs.entries && i !in fs.nodes
    ensures dir in s.rank
    ensures var g := Append(fs.(nodes := fs.nodes[i := NewNode(kind, dir)]), dir, name, i, kind);
            Consistent(g, s.(rank := s.rank[i := s.rank[dir] + 1], nameOf := s.nameOf[i := name]))
  {
    hide Home, OnlyName, RankedAt, CountedAt, Append;
    RankKnown(fs, s, dir);
    CreateCounts(fs, dir, name, i, kind);
    CreateTree(fs, s, dir, name, i, kind);
  }

  lemma RankKnown(fs: Fs, s: Shape, dir: nat)
    requires Ranked(fs, s) && LinkedDir(fs, dir)
    ensures dir in s.rank && RankedAt(fs, s, dir)
  {
  }

  lemma CreateTree(fs: Fs, s: Shape, dir: nat, name: string, i: nat, kind: Kind)
    requires Rooted(fs) && Bound(fs) && OneParent(fs, s) && Ranked(fs, s)
    requires LinkedDir(fs, dir) && (dir, name) !in fs.entries && i !in fs.nodes && dir in s.rank
    ensures var g := Append(fs.(nodes := fs.nodes[i := NewNode(kind, dir)]), dir, name, i, kind);
            var t := s.(rank := s.rank[i := s.rank[dir] + 1], nameOf := s.nameOf[i := name]);
            Rooted(g) && Bound(g) && OneParent(g, t) && Ranked(g, t)
  {
    hide Home, OnlyName, RankedAt;
    RankKnown(fs, s, dir);
    var g := Append(fs.(nodes := fs.nodes[i := NewNode(kind, dir)]), dir, name, i, kind);
    var t := s.(rank := s.rank[i := s.rank[dir] + 1], nameOf := s.nameOf[i := name]);
    forall j ensures LinkedDir(g, j) <==> LinkedDir(fs, j) || (j == i && kind == DirKind) {
    }
    forall d | LinkedDir(g, d) ensures RankedAt(g, t, d) && (d != ROOT_INO ==> Home(g, t, d)) {
      if d != i && d != ROOT_INO {
        ParentLinked(fs, s, d);
      }
      CreateAt(fs, s, dir, name, i, kind, d);
    }
    forall e | e in g.entries ensures OnlyName(g, t, e) {
      CreateEntry(fs, s, dir, name, i, kind, e);
    }
  }

  lemma ParentLinked(fs: Fs, s: Shape, d: nat)
    requires Bound(fs) && Home(fs, s, d)
    ensures LinkedDir(fs, fs.nodes[d].parent)
  {
  }

  lemma CreateAt(fs: Fs, s: Shape, dir: nat, name: string, i: nat, kind: Kind, d: nat)
    requires LinkedDir(fs, dir) && (dir, name) !in fs.entries && i !in fs.nodes && RankedAt(fs, s, dir)
    requires d == i || (RankedAt(fs, s, d) && (d != ROOT_INO ==> Home(fs, s, d) && fs.nodes[d].parent in fs.nodes))
    requires d == i ==> kind == DirKind
    requires ROOT_INO in fs.nodes
    ensures var g := Append(fs.(nodes := fs.nodes[i := NewNode(kind, dir)]), dir, name, i, kind);
            var t := s.(rank := s.rank[i := s.rank[dir] + 1], nameOf := s.nameOf[i := name]);
            RankedAt(g, t, d) && (d != ROOT_INO ==> Home(g, t, d))
  {
  }

  lemma CreateEntry(fs: Fs, s: Shape, dir: nat, name: string, i: nat, kind: Kind, e: (nat, string))
    requires LinkedDir(fs, dir) && (dir, name) !in fs.entries && i !in fs.nodes && dir in s.rank
    requires e == (dir, name) || (OnlyName(fs, s, e) && fs.entries[e] in fs.nodes)
    ensures var g := Append(fs.(nodes := fs.nodes[i := NewNode(kind, dir)]), dir, name, i, kind);
            var t := s.(rank := s.rank[i := s.rank[dir] + 1], nameOf := s.nameOf[i := name]);
            OnlyName(g, t, e)
  {
  }

  lemma CreateCounts(fs: Fs, dir: nat, name: string, i: nat, kind: Kind)
    requires Bound(fs) && Counted(fs) && LinkedDir(fs, dir) && (dir, name) !in fs.entries && i !in fs.nodes
    ensures Counted(Append(fs.(nodes := fs.nodes[i := NewNode(kind, dir)]), dir, name, i, kind))
  {
    hide CountedAt, OneMore, Counted;
    var g := Append(fs.(nodes := fs.nodes[i := NewNode(kind, dir)]), dir, name, i, kind);
    var dirs := DirSet(fs) + (if kind == DirKind then {i} else {});
    assert DirSet(g) == dirs;
    Added(fs.entries, (dir, name), i, dirs);
    NewInode(fs, i, dirs);
    CreateCountsAt(fs, dir, name, i, kind, dirs);
  }

  lemma CreateCountsAt(fs: Fs, dir: nat, name: string, i: nat, kind: Kind, dirs: set<nat>)
    requires Counted(fs) && LinkedDir(fs, dir) && (dir, name) !in fs.entries && i !in fs.nodes
    requires OneMore(fs.entries, fs.entries[(dir, name) := i], (dir, name), i, dirs) && (i in dirs <==> kind == DirKind)
    requires |NamesOf(fs.entries, i)| == 0 && |EntriesIn(fs.entries, i)| == 0 && |Children(fs.entries, dirs, i)| == 0
    requires forall d {:trigger Children(fs.entries, dirs, d)} ::
               |Children(fs.entries, dirs, d)| == |Children(fs.entries, DirSet(fs), d)|
    requires DirSet(Append(fs.(nodes := fs.nodes[i := NewNode(kind, dir)]), dir, name, i, kind)) == dirs
    ensures Counted(Append(fs.(nodes := fs.nodes[i := NewNode(kind, dir)]), dir, name, i, kind))
  {
    hide NamesOf, EntriesIn, Children, DirSet;
    var g := Append(fs.(nodes := fs.nodes[i := NewNode(kind, dir)]), dir, name, i, kind);
    forall j | j in g.nodes ensures CountedAt(g, j) {
      if j != i {
        assert CountedAt(fs, j);
        assert |Children(fs.entries, dirs, j)| == |Children(fs.entries, DirSet(fs), j)|;
      }
    }
  }

  /** An inode nobody names: it has no names, no entries, and is nobody's child. */
  lemma NewInode(fs: Fs, i: nat, dirs: set<nat>)
    requires Bound(fs) && i !in fs.nodes && dirs - {i} == DirSet(fs)
    ensures |NamesOf(fs.entries, i)| == 0 && |EntriesIn(fs.entries, i)| == 0 && |Children(fs.entries, dirs, i)| == 0
    ensures forall d {:trigger Children(fs.entries, dirs, d)} ::
              |Children(fs.entries, dirs, d)| == |Children(fs.entries, DirSet(fs), d)|
  {
    assert NamesOf(fs.entries, i) == {} && EntriesIn(fs.entries, i) == {} && Children(fs.entries, dirs, i) == {};
    forall d ensures Children(fs.entries, dirs, d) == Children(fs.entries, DirSet(fs), d) {
    }
  }

  lemma LinkKeeps(fs: Fs, s: Shape, dir: nat, name: string, i: nat)
    requires Consistent(fs, s) && LinkedDir(fs, dir) && (dir, name) !in fs.entries
    requires i in fs.nodes && fs.nodes[i].kind == FileKind && fs.nodes[i].links >= 0 && i != ROOT_INO
    ensures Consistent(AddLink(Append(fs, dir, name, i, FileKind), i), s)
  {
    hide Home, OnlyName, RankedAt, CountedAt;
    var g := AddLink(Append(fs, dir, name, i, FileKind), i);
    LinkCounts(fs, dir, name, i);
    forall j ensures (LinkedDir(g, j) <==> LinkedDir(fs, j)) && (Linked(g, j) <==> Linked(fs, j) || j == i) {
    }
    forall d | LinkedDir(g, d) ensures RankedAt(g, s, d) && (d != ROOT_INO ==> Home(g, s, d)) {
      HomeKept(fs, g, s, d, (dir, name));
    }
    forall e | e in g.entries ensures OnlyName(g, s, e) {
      EntryKept(fs, g, s, e, (dir, name));
    }
  }

  /** A directory whose parent and whose entry are as before. */
  lemma HomeKept(fs: Fs, g: Fs, s: Shape, d: nat, e: (nat, string))
    requires RankedAt(fs, s, d) && (d != ROOT_INO ==> Home(fs, s, d))
    requires d in g.nodes && g.nodes[d].parent == fs.nodes[d].parent
    requires forall f :: f in fs.entries && f != e ==> f in g.entries && g.entries[f] == fs.entries[f]
    requires e in fs.entries ==> fs.entries[e] != d
    ensures RankedAt(g, s, d) && (d != ROOT_INO ==> Home(g, s, d))
  {
  }

  lemma EntryKept(fs: Fs, g: Fs, s: Shape, e: (nat, string), changed: (nat, string))
    requires e in g.entries
    requires e != changed ==> OnlyName(fs, s, e) && g.entries[e] == fs.entries[e]
    requires e == changed ==> !LinkedDir(g, g.entries[e])
    requires LinkedDir(g, g.entries[e]) ==>
               LinkedDir(fs, g.entries[e]) && g.nodes[g.entries[e]].parent == fs.nodes[g.entries[e]].parent
    ensures OnlyName(g, s, e)
  {
  }

  /** A root and a file unlinked while open; once it has a name again nothing should be on the unlinked list. */
  lemma RelinkedShouldLeaveTheList()
    ensures var fs := Fs(map[ROOT_INO := Node(DirKind, 2, 2, ROOT_INO), 2 := Node(FileKind, 0, 0, 0)], map[]);
            var s, g := Shape(map[ROOT_INO := 0], map[]), AddLink(Append(fs, ROOT_INO, "a", 2, FileKind), 2);
            Consistent(fs, s) && UnlinkedNodes(fs) == {2} && Consistent(g, s) && UnlinkedNodes(g) == {}
  {
    var fs := Fs(map[ROOT_INO := Node(DirKind, 2, 2, ROOT_INO), 2 := Node(FileKind, 0, 0, 0)], map[]);
    var s := Shape(map[ROOT_INO := 0], map[]);
    assert NamesOf(fs.entries, 2) == {} && Children(fs.entries, DirSet(fs), ROOT_INO) == {};
    assert EntriesIn(fs.entries, ROOT_INO) == {};
    assert CountedAt(fs, ROOT_INO) && CountedAt(fs, 2);
    LinkKeeps(fs, s, ROOT_INO, "a", 2);
    LinkDelists(fs, ROOT_INO, "a", 2);
  }

  lemma LinkCounts(fs: Fs, dir: nat, name: string, i: nat)
    requires Counted(fs) && LinkedDir(fs, dir) && (dir, name) !in fs.entries
    requires i in fs.nodes && fs.nodes[i].kind == FileKind
    ensures Counted(AddLink(Append(fs, dir, name, i, FileKind), i))
  {
    var g := AddLink(Append(fs, dir, name, i, FileKind), i);
    Added(fs.entries, (dir, name), i, DirSet(fs));
    assert DirSet(g) == DirSet(fs);
    hide NamesOf, EntriesIn, Children, DirSet;
    forall j | j in g.nodes ensures CountedAt(g, j) {
      assert CountedAt(fs, j);
    }
  }

  // ---------------------------------------------------------------------------
  // Unlink

  lemma UnlinkKeeps(fs: Fs, s: Shape, dir: nat, name: string, open: set<nat>)
    requires Consistent(fs, s) && (dir, name) in fs.entries
    requires var i := fs.entries[(dir, name)];
             i in fs.nodes && (fs.nodes[i].kind == DirKind ==> fs.nodes[i].dirents == 2)
    ensures var i := fs.entries[(dir, name)];
            && dir in fs.nodes && i in Detach(fs, dir, name, fs.nodes[i].kind).nodes
            && Consistent(DropLink(Detach(fs, dir, name, fs.nodes[i].kind), i, open), s)
  {
    hide Home, OnlyName, RankedAt, CountedAt;
    var i := fs.entries[(dir, name)];
    assert LinkedDir(fs, dir) && Linked(fs, i);
    NotOwnChild(fs, s, dir, name);
    if fs.nodes[i].kind == DirKind {
      EmptyDirectory(fs, s, i);
    } else {
      NamedOnce(fs, (dir, name), i);
    }
    UnlinkCounts(fs, s, dir, name, open);
    UnlinkTree(fs, s, dir, name, open);
  }

  lemma NotOwnChild(fs: Fs, s: Shape, dir: nat, name: string)
    requires OneParent(fs, s) && Ranked(fs, s) && Bound(fs) && (dir, name) in fs.entries
    ensures fs.entries[(dir, name)] != dir
  {
    assert OnlyName(fs, s, (dir, name)) && LinkedDir(fs, dir);
    assert RankedAt(fs, s, dir);
  }

  lemma NamedOnce(fs: Fs, e: (nat, string), i: nat)
    requires Counted(fs) && e in fs.entries && fs.entries[e] == i && i in fs.nodes && fs.nodes[i].kind == FileKind
    ensures fs.nodes[i].links >= 1
    ensures fs.nodes[i].links == 1 ==> forall d :: d in fs.entries && d != e ==> fs.entries[d] != i
  {
    assert CountedAt(fs, i) && e in NamesOf(fs.entries, i);
    if fs.nodes[i].links == 1 {
      assert e in NamesOf(fs.entries, i) && |NamesOf(fs.entries, i) - {e}| == 0;
      forall d | d in fs.entries && d != e ensures fs.entries[d] != i {
        assert d !in NamesOf(fs.entries, i) - {e};
      }
    }
  }

  /** The names and the tree after an entry has gone, and perhaps its inode. */
  lemma UnlinkTree(fs: Fs, s: Shape, dir: nat, name: string, open: set<nat>)
    requires Rooted(fs) && Bound(fs) && OneParent(fs, s) && Ranked(fs, s) && (dir, name) in fs.entries
    requires var i := fs.entries[(dir, name)];
             && i in fs.nodes && i != dir
             && (if fs.nodes[i].kind == DirKind
                 then fs.nodes[i].links == 2 && (forall e :: e in fs.entries ==> e.0 != i)
                 else fs.nodes[i].links == 1 ==> forall d :: d in fs.entries && d != (dir, name) ==> fs.entries[d] != i)
    requires dir in fs.nodes && (fs.nodes[fs.entries[(dir, name)]].kind == DirKind ==> fs.nodes[dir].links > 1)
    ensures var i := fs.entries[(dir, name)];
            var g := DropLink(Detach(fs, dir, name, fs.nodes[i].kind), i, open);
            Rooted(g) && Bound(g) && OneParent(g, s) && Ranked(g, s)
  {
    hide Home, OnlyName, RankedAt;
    var i := fs.entries[(dir, name)];
    var g := DropLink(Detach(fs, dir, name, fs.nodes[i].kind), i, open);
    forall j ensures LinkedDir(g, j) <==> LinkedDir(fs, j) && j != i {
    }
    forall j ensures Linked(g, j) <==> Linked(fs, j) && (j == i ==> fs.nodes[i].kind == FileKind && fs.nodes[i].links > 1) {
    }
    if fs.nodes[i].kind == DirKind {
      OneName(fs, s, (dir, name));
    }
    forall d | LinkedDir(g, d) ensures RankedAt(g, s, d) && (d != ROOT_INO ==> Home(g, s, d)) {
      HomeKept(fs, g, s, d, (dir, name));
    }
    forall e | e in g.entries ensures OnlyName(g, s, e) {
      EntryKept(fs, g, s, e, (dir, name));
    }
    assert Bound(g);
  }

  lemma OneName(fs: Fs, s: Shape, e: (nat, string))
    requires OneParent(fs, s) && Bound(fs) && e in fs.entries && LinkedDir(fs, fs.entries[e])
    ensures forall f :: f in fs.entries && f != e ==> fs.entries[f] != fs.entries[e]
  {
    assert OnlyName(fs, s, e);
    forall f | f in fs.entries && f != e ensures fs.entries[f] != fs.entries[e] {
      assert OnlyName(fs, s, f);
    }
  }

  lemma UnlinkCounts(fs: Fs, s: Shape, dir: nat, name: string, open: set<nat>)
    requires Consistent(fs, s) && (dir, name) in fs.entries
    requires var i := fs.entries[(dir, name)];
             i in fs.nodes && i != dir && (fs.nodes[i].kind == DirKind ==> fs.nodes[i].links == 2)
    ensures var i := fs.entries[(dir, name)];
            && dir in fs.nodes && i in fs.nodes
            && (fs.nodes[i].kind == DirKind ==> fs.nodes[dir].links > 2)
            && Counted(DropLink(Detach(fs, dir, name, fs.nodes[i].kind), i, open))
  {
    hide Home, RankedAt, OnlyName, CountedAt, OneMore;
    var i := fs.entries[(dir, name)];
    assert LinkedDir(fs, dir) && Linked(fs, i);
    Removed(fs.entries, (dir, name), DirSet(fs));
    if fs.nodes[i].kind == DirKind {
      HasChild(fs, (dir, name));
      OneName(fs, s, (dir, name));
    }
    hide OneParent, Ranked, Counted;
    var f := Detach(fs, dir, name, fs.nodes[i].kind);
    var g := DropLink(f, i, open);
    assert DirSet(g) == DirSet(fs) || DirSet(g) == DirSet(fs) - {i};
    ChildrenWithout(f.entries, DirSet(fs), i);
    UnlinkCountsAt(fs, dir, name, open);
  }

  lemma HasChild(fs: Fs, e: (nat, string))
    requires Counted(fs) && e in fs.entries && LinkedDir(fs, e.0) && LinkedDir(fs, fs.entries[e])
    ensures fs.nodes[e.0].links > 2
  {
    assert CountedAt(fs, e.0);
    assert e in Children(fs.entries, DirSet(fs), e.0);
  }

  lemma UnlinkCountsAt(fs: Fs, dir: nat, name: string, open: set<nat>)
    requires Counted(fs) && (dir, name) in fs.entries && LinkedDir(fs, dir) && Linked(fs, fs.entries[(dir, name)])
    requires OneMore(fs.entries - {(dir, name)}, fs.entries, (dir, name), fs.entries[(dir, name)], DirSet(fs))
    requires var i := fs.entries[(dir, name)];
             && (i in DirSet(fs) <==> fs.nodes[i].kind == DirKind)
             && i != dir && (fs.nodes[i].kind == DirKind ==> fs.nodes[i].links == 2 && fs.nodes[dir].links > 2)
             && (forall d {:trigger Children(fs.entries - {(dir, name)}, DirSet(fs) - {i}, d)} ::
                   |Children(fs.entries - {(dir, name)}, DirSet(fs) - {i}, d)| == |Children(fs.entries - {(dir, name)}, DirSet(fs), d)|)
             && (var g := DropLink(Detach(fs, dir, name, fs.nodes[i].kind), i, open);
                 DirSet(g) == DirSet(fs) || DirSet(g) == DirSet(fs) - {i})
    ensures Counted(DropLink(Detach(fs, dir, name, fs.nodes[fs.entries[(dir, name)]].kind), fs.entries[(dir, name)], open))
  {
    hide NamesOf, EntriesIn, Children, DirSet;
    var i := fs.entries[(dir, name)];
    var g := DropLink(Detach(fs, dir, name, fs.nodes[i].kind), i, open);
    forall j | j in g.nodes ensures CountedAt(g, j) {
      assert CountedAt(fs, j) && CountedAt(fs, dir);
    }
  }

  /** A directory with two entries in all holds nothing, so it is about to lose its last link. */
  lemma EmptyDirectory(fs: Fs, s: Shape, i: nat)
    requires Consistent(fs, s) && LinkedDir(fs, i) && fs.nodes[i].dirents == 2
    ensures fs.nodes[i].links == 2 && forall e :: e in fs.entries ==> e.0 != i
  {
    hide Home, OnlyName, RankedAt, Bound;
    assert CountedAt(fs, i);
    assert EntriesIn(fs.entries, i) == {};
    assert Children(fs.entries, DirSet(fs), i) == {};
    forall e | e in fs.entries ensures e.0 != i {
      assert e !in EntriesIn(fs.entries, i);
    }
  }

  lemma ChildrenWithout(entries: Entries, dirs: set<nat>, i: nat)
    requires i in dirs ==> forall e :: e in entries ==> entries[e] != i
    ensures forall d {:trigger Children(entries, dirs - {i}, d)} ::
              |Children(entries, dirs - {i}, d)| == |Children(entries, dirs, d)|
  {
    forall d ensures Children(entries, dirs - {i}, d) == Children(entries, dirs, d) {
    }
  }

  // ---------------------------------------------------------------------------
  // Rename

  /** `subtree` is x and every directory below it. */
  ghost predicate Subtree(fs: Fs, x: nat, subtree: set<nat>) {
    && x in subtree && ROOT_INO !in subtree
    && forall d :: LinkedDir(fs, d) && d != ROOT_INO && d != x ==> (d in subtree <==> fs.nodes[d].parent in subtree)
  }

  /** One entry changes its place; a directory takes its ".." along. */
  function MoveEntry(fs: Fs, src: nat, oldName: string, dst: nat, newName: string): Fs
    requires (src, oldName) in fs.entries && src in fs.nodes && dst in fs.nodes && fs.entries[(src, oldName)] in fs.nodes
  {
    var i := fs.entries[(src, oldName)];
    var kind := fs.nodes[i].kind;
    var f := Append(fs, dst, newName, i, kind);
    Detach(if kind == DirKind then SetParent(f, i, dst) else f, src, oldName, kind)
  }

  ghost function ShapeAfterMove(fs: Fs, s: Shape, i: nat, dst: nat, newName: string, subtree: set<nat>): Shape
    requires i in fs.nodes && dst in s.rank
  {
    if fs.nodes[i].kind == FileKind then s
    else Shape(map d | d in s.rank :: if d in subtree then s.rank[d] + s.rank[dst] + 1 else s.rank[d], s.nameOf[i := newName])
  }

  lemma MoveKeeps(fs: Fs, s: Shape, src: nat, oldName: string, dst: nat, newName: string, subtree: set<nat>)
    requires Consistent(fs, s) && (src, oldName) in fs.entries && LinkedDir(fs, dst) && (dst, newName) !in fs.entries
    requires var i := fs.entries[(src, oldName)];
             LinkedDir(fs, i) ==> Subtree(fs, i, subtree) && dst !in subtree
    ensures var i := fs.entries[(src, oldName)];
            && src in fs.nodes && i in fs.nodes && dst in s.rank
            && Consistent(MoveEntry(fs, src, oldName, dst, newName), ShapeAfterMove(fs, s, i, dst, newName, subtree))
  {
    hide Home, OnlyName, RankedAt, CountedAt, MoveEntry, Subtree, ShapeAfterMove;
    assert LinkedDir(fs, src) && Linked(fs, fs.entries[(src, oldName)]);
    RankKnown(fs, s, dst);
    NotOwnChild(fs, s, src, oldName);
    if LinkedDir(fs, fs.entries[(src, oldName)]) {
      HasChild(fs, (src, oldName));
      OneName(fs, s, (src, oldName));
      NotBelowItself(fs, fs.entries[(src, oldName)], subtree, dst);
    }
    MoveCounts(fs, src, oldName, dst, newName);
    MoveTree(fs, s, src, oldName, dst, newName, subtree);
  }

  lemma NotBelowItself(fs: Fs, x: nat, subtree: set<nat>, d: nat)
    requires Subtree(fs, x, subtree) && d !in subtree
    ensures d != x
  {
  }

  lemma MoveCounts(fs: Fs, src: nat, oldName: string, dst: nat, newName: string)
    requires Counted(fs) && (src, oldName) in fs.entries && (dst, newName) !in fs.entries
    requires LinkedDir(fs, src) && LinkedDir(fs, dst) && Linked(fs, fs.entries[(src, oldName)])
    requires LinkedDir(fs, fs.entries[(src, oldName)]) ==> fs.nodes[src].links > 2
    requires fs.entries[(src, oldName)] != src
    requires LinkedDir(fs, fs.entries[(src, oldName)]) ==> fs.entries[(src, oldName)] != dst
    ensures Counted(MoveEntry(fs, src, oldName, dst, newName))
  {
    hide CountedAt, OneMore, Counted;
    var i, e1, e2 := fs.entries[(src, oldName)], (src, oldName), (dst, newName);
    var middle := fs.entries[e2 := i];
    Added(fs.entries, e2, i, DirSet(fs));
    Removed(middle, e1, DirSet(fs));
    assert DirSet(MoveEntry(fs, src, oldName, dst, newName)) == DirSet(fs);
    MoveCountsAt(fs, src, oldName, dst, newName, middle);
  }

  lemma MoveCountsAt(fs: Fs, src: nat, oldName: string, dst: nat, newName: string, middle: Entries)
    requires Counted(fs) && (src, oldName) in fs.entries && (dst, newName) !in fs.entries
    requires LinkedDir(fs, src) && LinkedDir(fs, dst) && Linked(fs, fs.entries[(src, oldName)])
    requires LinkedDir(fs, fs.entries[(src, oldName)]) ==> fs.nodes[src].links > 2
    requires fs.entries[(src, oldName)] != src
    requires LinkedDir(fs, fs.entries[(src, oldName)]) ==> fs.entries[(src, oldName)] != dst
    requires var i, e1, e2 := fs.entries[(src, oldName)], (src, oldName), (dst, newName);
             && middle == fs.entries[e2 := i]
             && OneMore(fs.entries, middle, e2, i, DirSet(fs)) && OneMore(middle - {e1}, middle, e1, i, DirSet(fs))
             && (i in DirSet(fs) <==> fs.nodes[i].kind == DirKind)
    requires DirSet(MoveEntry(fs, src, oldName, dst, newName)) == DirSet(fs)
    ensures Counted(MoveEntry(fs, src, oldName, dst, newName))
  {
    hide NamesOf, EntriesIn, Children, DirSet;
    var e1 := (src, oldName);
    var g := MoveEntry(fs, src, oldName, dst, newName);
    assert g.entries == middle - {e1};
    forall j | j in g.nodes ensures CountedAt(g, j) {
      assert CountedAt(fs, j);
      MoveNode(fs, src, oldName, dst, newName, j);
      hide MoveEntry;
      assert |NamesOf(g.entries, j)| == |NamesOf(fs.entries, j)|;
      assert |EntriesIn(middle, j)| == |EntriesIn(fs.entries, j)| + (if j == dst then 1 else 0);
      assert |Children(middle, DirSet(fs), j)| ==
             |Children(fs.entries, DirSet(fs), j)| + (if j == dst && fs.nodes[fs.entries[e1]].kind == DirKind then 1 else 0);
    }
  }

  /** What a move does to each inode. */
  lemma MoveNode(fs: Fs, src: nat, oldName: string, dst: nat, newName: string, j: nat)
    requires (src, oldName) in fs.entries && src in fs.nodes && dst in fs.nodes && fs.entries[(src, oldName)] in fs.nodes
    requires j in fs.nodes && fs.entries[(src, oldName)] != src
    requires fs.nodes[fs.entries[(src, oldName)]].kind == DirKind ==> fs.entries[(src, oldName)] != dst
    ensures var g, i, n := MoveEntry(fs, src, oldName, dst, newName), fs.entries[(src, oldName)], fs.nodes[j];
            var moved := (if j == dst then 1 else 0) - (if j == src then 1 else 0);
            && j in g.nodes
            && g.nodes[j] == Node(n.kind, n.links + (if fs.nodes[i].kind == DirKind then moved else 0), n.dirents + moved,
                                  if j == i && n.kind == DirKind then dst else n.parent)
  {
  }

  lemma MoveTree(fs: Fs, s: Shape, src: nat, oldName: string, dst: nat, newName: string, subtree: set<nat>)
    requires Rooted(fs) && Bound(fs) && OneParent(fs, s) && Ranked(fs, s) && (src, oldName) in fs.entries
    requires LinkedDir(fs, src) && LinkedDir(fs, dst) && (dst, newName) !in fs.entries && dst in s.rank
    requires var i := fs.entries[(src, oldName)];
             && Linked(fs, i) && i != src
             && (LinkedDir(fs, i) ==>
                   && i != dst && Subtree(fs, i, subtree) && dst !in subtree && fs.nodes[src].links > 2
                   && forall f :: f in fs.entries && f != (src, oldName) ==> fs.entries[f] != i)
    ensures var i := fs.entries[(src, oldName)];
            var g, t := MoveEntry(fs, src, oldName, dst, newName), ShapeAfterMove(fs, s, i, dst, newName, subtree);
            Rooted(g) && Bound(g) && OneParent(g, t) && Ranked(g, t)
  {
    hide Home, OnlyName, RankedAt, MoveEntry, ShapeAfterMove, Subtree;
    var i := fs.entries[(src, oldName)];
    var g, t := MoveEntry(fs, src, oldName, dst, newName), ShapeAfterMove(fs, s, i, dst, newName, subtree);
    MoveEntries(fs, src, oldName, dst, newName);
    forall j ensures (LinkedDir(g, j) <==> LinkedDir(fs, j)) && (Linked(g, j) <==> Linked(fs, j)) {
      if j in fs.nodes {
        MoveNode(fs, src, oldName, dst, newName, j);
      }
    }
    MoveNode(fs, src, oldName, dst, newName, ROOT_INO);
    forall d | LinkedDir(g, d) ensures RankedAt(g, t, d) && (d != ROOT_INO ==> Home(g, t, d)) {
      MoveNode(fs, src, oldName, dst, newName, d);
      if d != ROOT_INO {
        ParentLinked(fs, s, d);
        RankKnown(fs, s, fs.nodes[d].parent);
      }
      MoveAt(fs, s, src, oldName, dst, newName, subtree, d);
    }
    forall e | e in g.entries ensures OnlyName(g, t, e) {
      MoveNode(fs, src, oldName, dst, newName, g.entries[e]);
      MoveName(fs, s, src, oldName, dst, newName, subtree, e);
    }
  }

  /** The entries after a move, and which inodes there are. */
  lemma MoveEntries(fs: Fs, src: nat, oldName: string, dst: nat, newName: string)
    requires (src, oldName) in fs.entries && src in fs.nodes && dst in fs.nodes && fs.entries[(src, oldName)] in fs.nodes
    requires (dst, newName) !in fs.entries
    ensures var g := MoveEntry(fs, src, oldName, dst, newName);
            && g.entries == fs.entries[(dst, newName) := fs.entries[(src, oldName)]] - {(src, oldName)}
            && g.nodes.Keys == fs.nodes.Keys
  {
  }

  lemma MoveAt(
    fs: Fs, s: Shape, src: nat, oldName: string, dst: nat, newName: string, subtree: set<nat>, d: nat)
    requires (src, oldName) in fs.entries && (dst, newName) !in fs.entries && src in fs.nodes && dst in fs.nodes
    requires dst in s.rank && LinkedDir(fs, d) && RankedAt(fs, s, d) && (d != ROOT_INO ==> Home(fs, s, d))
    requires var i := fs.entries[(src, oldName)];
             && i in fs.nodes && i != ROOT_INO
             && (fs.nodes[i].kind == DirKind ==> Subtree(fs, i, subtree) && dst !in subtree)
    requires var g, i := MoveEntry(fs, src, oldName, dst, newName), fs.entries[(src, oldName)];
             && g.entries == fs.entries[(dst, newName) := i] - {(src, oldName)}
             && d in g.nodes && g.nodes[d].parent == if d == i then dst else fs.nodes[d].parent
    ensures var i := fs.entries[(src, oldName)];
            var g, t := MoveEntry(fs, src, oldName, dst, newName), ShapeAfterMove(fs, s, i, dst, newName, subtree);
            RankedAt(g, t, d) && (d != ROOT_INO ==> Home(g, t, d))
  {
    hide MoveEntry;
  }

  lemma MoveName(
    fs: Fs, s: Shape, src: nat, oldName: string, dst: nat, newName: string, subtree: set<nat>, e: (nat, string))
    requires (src, oldName) in fs.entries && (dst, newName) !in fs.entries && src in fs.nodes && dst in fs.nodes
    requires dst in s.rank && fs.entries[(src, oldName)] in fs.nodes
    requires var g, i := MoveEntry(fs, src, oldName, dst, newName), fs.entries[(src, oldName)];
             && g.entries == fs.entries[(dst, newName) := i] - {(src, oldName)}
             && e in g.entries && g.entries[e] in g.nodes && g.entries[e] in fs.nodes
             && (LinkedDir(g, g.entries[e]) <==> LinkedDir(fs, g.entries[e]))
             && (LinkedDir(fs, g.entries[e]) ==>
                   g.nodes[g.entries[e]].parent == if g.entries[e] == i then dst else fs.nodes[g.entries[e]].parent)
             && (e != (dst, newName) ==> OnlyName(fs, s, e))
             && (LinkedDir(fs, i) ==> forall f :: f in fs.entries && f != (src, oldName) ==> fs.entries[f] != i)
    ensures var i := fs.entries[(src, oldName)];
            OnlyName(MoveEntry(fs, src, oldName, dst, newName), ShapeAfterMove(fs, s, i, dst, newName, subtree), e)
  {
    hide MoveEntry;
  }

  /** The subtree of x, as the set of directories from which one comes to x going up. */
  ghost function SubtreeOf(fs: Fs, s: Shape, x: nat): set<nat>
    requires Ranked(fs, s) && Bound(fs) && OneParent(fs, s)
  {
    set d | d in fs.nodes && Under(fs, s, d, x)
  }

  lemma SubtreeIsClosed(fs: Fs, s: Shape, x: nat)
    requires Consistent(fs, s) && LinkedDir(fs, x) && x != ROOT_INO
    ensures Subtree(fs, x, SubtreeOf(fs, s, x))
  {
    hide Home, OnlyName, RankedAt, CountedAt, Counted;
    assert Under(fs, s, x, x) by { UnderStep(fs, s, x, x); }
    UnderStep(fs, s, ROOT_INO, x);
    forall d | LinkedDir(fs, d) && d != ROOT_INO && d != x
      ensures d in SubtreeOf(fs, s, x) <==> fs.nodes[d].parent in SubtreeOf(fs, s, x)
    {
      UnderStep(fs, s, d, x);
      ParentLinked(fs, s, d);
    }
  }

  lemma UnderStep(fs: Fs, s: Shape, d: nat, x: nat)
    requires Ranked(fs, s) && Bound(fs) && OneParent(fs, s) && LinkedDir(fs, d)
    ensures d in s.rank && (d != ROOT_INO ==> LinkedDir(fs, fs.nodes[d].parent) && s.rank[fs.nodes[d].parent] < s.rank[d])
    ensures fs.nodes[d].parent in s.rank || d == ROOT_INO
    ensures Under(fs, s, d, x) <==> d == x || (d != ROOT_INO && Under(fs, s, fs.nodes[d].parent, x))
  {
    hide OnlyName;
    RankKnown(fs, s, d);
    if d != ROOT_INO {
      assert Home(fs, s, d);
      ParentLinked(fs, s, d);
    }
  }

  /** Unlinking something that is not an ancestor leaves the subtree what it was. */
  lemma SubtreeAfterUnlink(fs: Fs, g: Fs, x: nat, subtree: set<nat>)
    requires Subtree(fs, x, subtree)
    requires forall d :: LinkedDir(g, d) ==> LinkedDir(fs, d) && g.nodes[d].parent == fs.nodes[d].parent
    ensures Subtree(g, x, subtree)
  {
  }

  /**
   The steps of Rename in the order in which they are made: the target loses its link and its
   entry is pointed at the moved inode, or an entry is appended; a moved directory gets its new
   parent; the inode gets a link for the new name and loses the one for the old.
   */
  function RenameSteps(fs: Fs, src: nat, oldName: string, dst: nat, newName: string, open: set<nat>): Fs
    requires (src, oldName) in fs.entries && src in fs.nodes && dst in fs.nodes && fs.entries[(src, oldName)] in fs.nodes
    requires (dst, newName) in fs.entries ==>
               fs.entries[(dst, newName)] in fs.nodes - {src, dst, fs.entries[(src, oldName)]}
    requires fs.entries[(src, oldName)] != src
  {
    var i := fs.entries[(src, oldName)];
    var kind := fs.nodes[i].kind;
    var f1 :=
      if (dst, newName) in fs.entries then
        var f := DropLink(fs, fs.entries[(dst, newName)], open);
        f.(entries := f.entries[(dst, newName) := i])
      else Append(fs, dst, newName, i, kind);
    var f2 := if kind == DirKind && src != dst then SetParent(f1, i, dst) else f1;
    DropLink(Detach(AddLink(f2, i), src, oldName, kind), i, open)
  }

  /** Which comes to unlinking the target, if there is one, and moving the entry. */
  lemma RenameIsMove(fs: Fs, src: nat, oldName: string, dst: nat, newName: string, open: set<nat>)
    requires (src, oldName) in fs.entries && (dst, newName) !in fs.entries
    requires src in fs.nodes && dst in fs.nodes && Linked(fs, fs.entries[(src, oldName)])
    requires var i := fs.entries[(src, oldName)];
             && i != src && (fs.nodes[i].kind == DirKind ==> i != dst && fs.nodes[i].links != 1)
             && (fs.nodes[i].kind == DirKind && src == dst ==> fs.nodes[i].parent == dst)
             && fs.nodes[dst].kind == DirKind
    ensures RenameSteps(fs, src, oldName, dst, newName, open) == MoveEntry(fs, src, oldName, dst, newName)
  {
    var a, b := RenameSteps(fs, src, oldName, dst, newName, open), MoveEntry(fs, src, oldName, dst, newName);
    assert a.entries == b.entries;
    assert a.nodes == b.nodes;
  }

  lemma RenameIsUnlinkAndMove(fs: Fs, src: nat, oldName: string, dst: nat, newName: string, open: set<nat>)
    requires (src, oldName) in fs.entries && (dst, newName) in fs.entries && (src, oldName) != (dst, newName)
    requires src in fs.nodes && dst in fs.nodes && Linked(fs, fs.entries[(src, oldName)])
    requires fs.entries[(dst, newName)] in fs.nodes - {src, dst, fs.entries[(src, oldName)]}
    requires var i, t := fs.entries[(src, oldName)], fs.entries[(dst, newName)];
             && i != src && (fs.nodes[i].kind == DirKind ==> i != dst && fs.nodes[i].links != 1)
             && (fs.nodes[i].kind == DirKind && src == dst ==> fs.nodes[i].parent == dst)
             && fs.nodes[t].kind == fs.nodes[i].kind && fs.nodes[dst].kind == DirKind
    ensures var t := fs.entries[(dst, newName)];
            var g := DropLink(Detach(fs, dst, newName, fs.nodes[t].kind), t, open);
            && (src, oldName) in g.entries && src in g.nodes && dst in g.nodes && g.entries[(src, oldName)] in g.nodes
            && RenameSteps(fs, src, oldName, dst, newName, open) == MoveEntry(g, src, oldName, dst, newName)
  {
    var t := fs.entries[(dst, newName)];
    var g := DropLink(Detach(fs, dst, newName, fs.nodes[t].kind), t, open);
    var a, b := RenameSteps(fs, src, oldName, dst, newName, open), MoveEntry(g, src, oldName, dst, newName);
    ReplacedEntries(fs.entries, (dst, newName), fs.entries[(src, oldName)], (src, oldName));
    assert a.entries == b.entries;
    assert a.nodes.Keys == b.nodes.Keys;
    forall j | j in a.nodes ensures a.nodes[j] == b.nodes[j] {
      RenamedNode(fs, src, oldName, dst, newName, open, j);
    }
  }

  lemma RenamedNode(fs: Fs, src: nat, oldName: string, dst: nat, newName: string, open: set<nat>, j: nat)
    requires (src, oldName) in fs.entries && (dst, newName) in fs.entries && (src, oldName) != (dst, newName)
    requires src in fs.nodes && dst in fs.nodes && Linked(fs, fs.entries[(src, oldName)])
    requires fs.entries[(dst, newName)] in fs.nodes - {src, dst, fs.entries[(src, oldName)]}
    requires var i, t := fs.entries[(src, oldName)], fs.entries[(dst, newName)];
             && i != src && (fs.nodes[i].kind == DirKind ==> i != dst && fs.nodes[i].links != 1)
             && (fs.nodes[i].kind == DirKind && src == dst ==> fs.nodes[i].parent == dst)
             && fs.nodes[t].kind == fs.nodes[i].kind && fs.nodes[dst].kind == DirKind
    requires j in RenameSteps(fs, src, oldName, dst, newName, open).nodes
    ensures var t := fs.entries[(dst, newName)];
            var g := DropLink(Detach(fs, dst, newName, fs.nodes[t].kind), t, open);
            && (src, oldName) in g.entries && src in g.nodes && dst in g.nodes && g.entries[(src, oldName)] in g.nodes
            && var b := MoveEntry(g, src, oldName, dst, newName);
               j in b.nodes && RenameSteps(fs, src, oldName, dst, newName, open).nodes[j] == b.nodes[j]
  {
  }

  /**
   A rename that passes the checks: exactly one entry has moved, replacing the target if there
   was one, and tree and counts are in order again.
   */
  lemma RenameKeeps(
    fs: Fs, s: Shape, src: nat, oldName: string, dst: nat, newName: string, open: set<nat>) returns (t: Shape)
    requires Consistent(fs, s) && (src, oldName) in fs.entries && LinkedDir(fs, dst) && (src, oldName) != (dst, newName)
    requires var i := fs.entries[(src, oldName)];
             && i in fs.nodes
             && (fs.nodes[i].kind == DirKind ==> !Under(fs, s, dst, i))
             && ((dst, newName) in fs.entries ==>
                   var target := fs.entries[(dst, newName)];
                   && target in fs.nodes && target != i && fs.nodes[target].kind == fs.nodes[i].kind
                   && (fs.nodes[target].kind == DirKind ==> fs.nodes[target].dirents == 2))
    ensures src in fs.nodes && dst in fs.nodes && fs.entries[(src, oldName)] != src
    ensures (dst, newName) in fs.entries ==>
              fs.entries[(dst, newName)] in fs.nodes - {src, dst, fs.entries[(src, oldName)]}
    ensures var g, i := RenameSteps(fs, src, oldName, dst, newName, open), fs.entries[(src, oldName)];
            && Consistent(g, t)
            && g.entries == fs.entries[(dst, newName) := i] - {(src, oldName)}
            && (LinkedDir(fs, i) ==> LinkedDir(g, i) && g.nodes[i].parent == dst)
  {
    hide Home, OnlyName, RankedAt, CountedAt, Counted, MoveEntry, RenameSteps, Subtree, DropLink, Detach;
    var i := fs.entries[(src, oldName)];
    assert LinkedDir(fs, src) && Linked(fs, i);
    NotOwnChild(fs, s, src, oldName);
    var subtree := SubtreeFor(fs, s, i, dst);
    RenameFacts(fs, s, src, oldName, dst);
    if (dst, newName) in fs.entries {
      var target := fs.entries[(dst, newName)];
      TargetApart(fs, s, src, oldName, dst, newName);
      UnlinkKeeps(fs, s, dst, newName, open);
      if LinkedDir(fs, target) {
        HasChild(fs, (dst, newName));
      }
      RenameIsUnlinkAndMove(fs, src, oldName, dst, newName, open);
      var g := DropLink(Detach(fs, dst, newName, fs.nodes[target].kind), target, open);
      AfterUnlink(fs, dst, newName, open, i, src);
      SubtreeSurvives(fs, g, dst, newName, open, i, subtree);
      MoveKeeps(g, s, src, oldName, dst, newName, subtree);
      t := ShapeAfterMove(g, s, i, dst, newName, subtree);
      MoveEntries(g, src, oldName, dst, newName);
      MoveNode(g, src, oldName, dst, newName, i);
      ReplacedEntries(fs.entries, (dst, newName), i, (src, oldName));
    } else {
      RenameIsMove(fs, src, oldName, dst, newName, open);
      MoveKeeps(fs, s, src, oldName, dst, newName, subtree);
      t := ShapeAfterMove(fs, s, i, dst, newName, subtree);
      MoveEntries(fs, src, oldName, dst, newName);
      MoveNode(fs, src, oldName, dst, newName, i);
    }
  }

  lemma SubtreeFor(fs: Fs, s: Shape, i: nat, dst: nat) returns (subtree: set<nat>)
    requires Consistent(fs, s) && Linked(fs, i) && i != ROOT_INO && LinkedDir(fs, dst)
    requires fs.nodes[i].kind == DirKind ==> !Under(fs, s, dst, i)
    ensures LinkedDir(fs, i) ==> Subtree(fs, i, subtree) && dst !in subtree && i != dst
  {
    subtree := {};
    if LinkedDir(fs, i) {
      SubtreeIsClosed(fs, s, i);
      subtree := SubtreeOf(fs, s, i);
      UnderStep(fs, s, dst, i);
    }
  }

  lemma RenameFacts(fs: Fs, s: Shape, src: nat, oldName: string, dst: nat)
    requires Consistent(fs, s) && (src, oldName) in fs.entries
    ensures var i := fs.entries[(src, oldName)];
            LinkedDir(fs, i) ==> fs.nodes[i].links != 1 && fs.nodes[i].parent == src
  {
    var i := fs.entries[(src, oldName)];
    assert OnlyName(fs, s, (src, oldName));
    if LinkedDir(fs, i) {
      assert CountedAt(fs, i);
    }
  }

  /** The target of a rename is neither of the two directories. */
  lemma TargetApart(fs: Fs, s: Shape, src: nat, oldName: string, dst: nat, newName: string)
    requires Consistent(fs, s) && (src, oldName) in fs.entries && (dst, newName) in fs.entries
    requires var target := fs.entries[(dst, newName)];
             target in fs.nodes && (fs.nodes[target].kind == DirKind ==> fs.nodes[target].dirents == 2)
    ensures fs.entries[(dst, newName)] != src && fs.entries[(dst, newName)] != dst
  {
    hide Home, OnlyName, RankedAt, CountedAt, Counted;
    NotOwnChild(fs, s, dst, newName);
    assert LinkedDir(fs, src);
    if fs.nodes[fs.entries[(dst, newName)]].kind == DirKind {
      assert Linked(fs, fs.entries[(dst, newName)]);
      EmptyDirectory(fs, s, fs.entries[(dst, newName)]);
    }
  }

  /** What unlinking a target leaves of another entry. */
  lemma AfterUnlink(fs: Fs, dst: nat, newName: string, open: set<nat>, i: nat, src: nat)
    requires (dst, newName) in fs.entries && LinkedDir(fs, dst) && Linked(fs, i)
    requires var t := fs.entries[(dst, newName)];
             && t in fs.nodes && t != i && t != dst && t != src
             && (fs.nodes[t].kind == DirKind ==> fs.nodes[dst].links > 2)
    ensures var t := fs.entries[(dst, newName)];
            var g := DropLink(Detach(fs, dst, newName, fs.nodes[t].kind), t, open);
            && LinkedDir(g, dst) && g.entries == fs.entries - {(dst, newName)}
            && (i in g.nodes && g.nodes[i].kind == fs.nodes[i].kind)
  {
  }

  lemma SubtreeSurvives(fs: Fs, g: Fs, dst: nat, newName: string, open: set<nat>, i: nat, subtree: set<nat>)
    requires (dst, newName) in fs.entries && dst in fs.nodes && fs.entries[(dst, newName)] in fs.nodes
    requires fs.entries[(dst, newName)] != dst
    requires g == DropLink(Detach(fs, dst, newName, fs.nodes[fs.entries[(dst, newName)]].kind), fs.entries[(dst, newName)], open)
    requires LinkedDir(fs, i) ==> Subtree(fs, i, subtree)
    ensures LinkedDir(fs, i) ==> Subtree(g, i, subtree)
  {
    hide Subtree;
    if LinkedDir(fs, i) {
      SubtreeAfterUnlink(fs, g, i, subtree);
    }
  }

  lemma ReplacedEntries(entries: Entries, e: (nat, string), i: nat, f: (nat, string))
    requires e != f
    ensures (entries - {e})[e := i] - {f} == entries[e := i] - {f}
  {
  }
}
