/**
 Images that the checker accepts although they are not consistent: one for each of the three things
 it does not see to.
 */
module FsckExceptions {
  import opened Sets
  import opened PointerTree
  import opened BlocksShrink
  import opened TransactionLimits
  import opened DirectoryRecords
  import opened FsckSpec
  import opened FsckLaws
  import opened FsckAccepts
  import opened FsckComplete
  import opened FsckFormatted
  import opened FsckNamespace
  import NamespaceSpec
  import List = UnlinkedList

  // ---------------------------------------------------------------------------
  // A root without links

  function EmptyRoot(): InodeRecord {
    RootDirectory().(links := 0, dirents := 0, contents := Contents(map[0 := Record(0, 0, true, "", FileKind)], BLOCK_SIZE))
  }

  /** A root that has lost its links and its "." and "..". */
  function Rootless(): Image {
    Image(2, {0, 1}, {0, 1}, 2, 2, 0, 0, [BlankInode(), EmptyRoot()], map[])
  }

  ghost function RootlessFound(): Checked {
    Checked({0, 1}, {0, 1}, [0, 0], 2, 2, true, map[Owner(1, DataUse(0)) := 1],
            {(0, 0)}, map[1 := Visit(1, [0])], map[1 := Met((0, 0), 1)], map[])
  }

  lemma RootlessOwners()
    ensures var img, c := Rootless(), RootlessFound();
            FilesInv(img, c, {}) && BlocksInv(img, c)
  {
    var img, c := Rootless(), RootlessFound();
    RootFile(TreeOf(img, img.inodes[1].pointers));
    NamesBlocks(img, c);
    hide Owned, Occupied, SizeCovers, BlocksInv;
    assert OwnersExact(img, c.owners, 1) && InodeSound(img, 1);
    assert c.inodes - {0} - {} == {1};
  }

  lemma RootlessWalk()
    ensures var img, c := Rootless(), RootlessFound();
            InodesInv(img, c) && LinksInv(img, c) && CallsInv(img, c) && MetInv(img, c)
  {
    var img, c := Rootless(), RootlessFound();
    assert Target(img, (0, 0)) == 1 && !NamedSite(img, (0, 0));
    hide Target, NamedSite, RootDirectory;
    assert c.inodes <= Below(2);
    assert |{0, 1}| == 2;
    assert CallsTo(img, c.calls, 1) == {(0, 0)};
    assert MetBefore(img, c, 1);
    assert c.met.Keys == {1} == c.inodes - {0};
  }

  lemma RootlessDone()
    ensures Complete(Rootless(), RootlessFound(), 1)
  {
    var img := Rootless();
    var offs := [0];
    assert offs[0] == 0;
    assert RecordAt(img.inodes[1].contents, 0) == Record(0, 0, true, "", FileKind);
    assert SitesOf(img, 1, offs) == {};
  }

  lemma RootlessAccepted()
    ensures Accepted(Rootless(), RootlessFound(), []) && Acceptable(Rootless())
    ensures !NamespaceSpec.Consistent(FsOf(Rootless(), RootlessFound(), []), ShapeOf(Rootless(), RootlessFound()))
  {
    hide BlocksInv, FilesInv, InodesInv, LinksInv, CallsInv, MetInv, Complete, Accepted, NamespaceSpec.Consistent;
    var img, c := Rootless(), RootlessFound();
    RootlessOwners();
    RootlessWalk();
    RootlessDone();
    RootlessSettled(img, c);
    IsAcceptable(img, c, []);
    ConsistentIff(img, c, []);
  }

  lemma RootlessSettled(img: Image, c: Checked)
    requires img == Rootless() && c == RootlessFound() && CheckerInv(img, c, {}) && Complete(img, c, 1)
    ensures Accepted(img, c, [])
  {
    hide CheckerInv, Complete, ListState;
    assert SetOf([]) == {};
    EmptyUnlinkedList(img);
  }

  // ---------------------------------------------------------------------------
  // Names of a file

  /** A root with `names` entries "a", one or two, all leading to the empty file that is inode 2. */
  function NamesDirectory(names: nat): InodeRecord {
    var two := map[
      0 := Record(1, 16, false, ".", DirKind), 16 := Record(1, 16, false, "..", DirKind),
      32 := Record(2, 16, names == 1, "a", FileKind), 48 := Record(2, 16, true, "a", FileKind)];
    RootDirectory().(dirents := 2 + names, contents := Contents(two, BLOCK_SIZE))
  }

  function EmptyFile(links: nat): InodeRecord {
    InodeRecord(MagicFile, links, 0, 0, 0, NoPointers(), 0, 0, Contents(map[], 0))
  }

  /** If it is listed the file has no links and is the one member of the unlinked list. */
  function WithFile(names: nat, listed: bool): Image {
    var end := if listed then 2 else 0;
    Image(2, {0, 1}, {0, 1, 2}, 2, 3, end, end,
          [BlankInode(), NamesDirectory(names), EmptyFile(if listed then 0 else names)], map[])
  }

  function Offsets(names: nat): seq<nat> {
    if names == 1 then [0, 16, 32] else [0, 16, 32, 48]
  }

  ghost function DotCalls(): set<Site> {
    {(0, 0), (1, 0), (1, 16)}
  }

  ghost function NameCalls(names: nat): set<Site> {
    DotCalls() + {(1, 32)} + (if names == 2 then {(1, 48)} else {})
  }

  ghost function AllCalls(names: nat, listed: bool): set<Site> {
    if listed then NameCalls(names) + {(0, 2)} else NameCalls(names)
  }

  ghost function FileFound(names: nat, listed: bool): Checked {
    Checked({0, 1, 2}, {0, 1}, [0, 0, 0], 3, 2, true, map[Owner(1, DataUse(0)) := 1],
            AllCalls(names, listed),
            map[1 := Visit(1, Offsets(names))], map[1 := Met((0, 0), 1), 2 := Met((1, 32), 2)],
            if listed then map[2 := -1 - names] else map[])
  }

  ghost predicate NamesKnown(img: Image, names: nat) {
    && 1 <= names <= 2 && |img.inodes| == 3 && IsDir(img, 1) && !IsDir(img, 2) && img.inodes[2].magic == MagicFile
    && var c := img.inodes[1].contents;
       && RecordAt(c, 0) == Record(1, 16, false, ".", DirKind) && RecordAt(c, 16) == Record(1, 16, false, "..", DirKind)
       && RecordAt(c, 32) == Record(2, 16, names == 1, "a", FileKind)
       && (names == 2 ==> RecordAt(c, 48) == Record(2, 16, true, "a", FileKind))
       && Readable(c, 0) && Readable(c, 16) && Readable(c, 32) && (names == 2 ==> Readable(c, 48))
  }

  lemma Known(names: nat, listed: bool)
    requires 1 <= names <= 2
    ensures NamesKnown(WithFile(names, listed), names)
  {
    assert |"."| == 1 && |".."| == 2 && |"a"| == 1;
  }

  lemma Sites(img: Image, names: nat)
    requires NamesKnown(img, names)
    ensures Target(img, (0, 0)) == 1 && Target(img, (1, 0)) == 1 && Target(img, (1, 16)) == 1 && Target(img, (0, 2)) == 2
    ensures Target(img, (1, 32)) == 2 && (names == 2 ==> Target(img, (1, 48)) == 2)
    ensures !NamedSite(img, (0, 0)) && !NamedSite(img, (1, 0)) && !NamedSite(img, (1, 16)) && !NamedSite(img, (0, 2))
    ensures NamedSite(img, (1, 32)) && (names == 2 ==> NamedSite(img, (1, 48)))
  {
    hide Readable, RecordAt;
    assert DotName(".") && DotName("..") && !DotName("a");
  }

  lemma NamesChain(img: Image, names: nat)
    requires NamesKnown(img, names)
    ensures ChainOf(img.inodes[1].contents, Offsets(names), false)
    ensures OnChain(img, (1, 0)) && OnChain(img, (1, 16)) && OnChain(img, (1, 32)) && (names == 2 ==> OnChain(img, (1, 48)))
  {
    hide Readable, RecordAt;
    var c, offs := img.inodes[1].contents, Offsets(names);
    assert offs[0] == 0 && offs[1] == 16 && offs[2] == 32 && (names == 2 ==> offs[3] == 48);
    forall k | 0 < k < |offs| ensures Follows(c, offs, k) {
      assert k == 1 || k == 2 || k == 3;
    }
    assert Chained(c, offs);
    assert 0 in offs && 16 in offs && 32 in offs && (names == 2 ==> 48 in offs);
  }

  lemma NoOwners(t: Tree)
    requires t.inode == NoPointers() && t.file == map[]
    ensures Owned(t, 2, POINTER_BLOCKS, MAX_BLOCKS) == map[] && Occupied(t) == 0 && SizeCovers(t, 0)
  {
    forall f | 0 <= f < POINTER_BLOCKS ensures Parent(t, f) == 0 {
    }
    assert forall n :: 0 <= n < MAX_BLOCKS ==> Lookup(t, n) == 0;
    hide Parent, Lookup;
    assert PointersOwned(t, 2, POINTER_BLOCKS) == map[] && DataOwned(t, 2, MAX_BLOCKS) == map[];
    assert MappedIn(t, 0, MAX_BLOCKS) == {} && Placed(t) == {};
  }

  /** What the lemmas below use of the two. */
  ghost predicate JustNamed(img: Image, c: Checked, names: nat, listed: bool) {
    && NamesKnown(img, names) && img.blockCount == 2 && img.blockBits == {0, 1} && img.inodeBits == {0, 1, 2}
    && img.inodes[1].pointers == RootDirectory().pointers && img.inodes[1].size == BLOCK_SIZE && img.inodes[1].blocks == 1
    && img.inodes[1].links == 2 && img.inodes[1].dirents == 2 + names
    && img.inodes[2].pointers == NoPointers() && img.inodes[2].size == 0 && img.inodes[2].blocks == 0
    && img.inodes[2].links == (if listed then 0 else names)
    && c.inodes == {0, 1, 2} && c.blocks == {0, 1} && c.links == [0, 0, 0] && c.allocInodes == 3 && c.allocBlocks == 2 && c.conforming
    && c.owners == map[Owner(1, DataUse(0)) := 1]
    && c.calls == AllCalls(names, listed)
    && c.visits == map[1 := Visit(1, Offsets(names))] && c.met == map[1 := Met((0, 0), 1), 2 := Met((1, 32), 2)]
    && c.unlinked == if listed then map[2 := -1 - names] else map[]
  }

  lemma JustNamedHolds(names: nat, listed: bool)
    requires 1 <= names <= 2
    ensures JustNamed(WithFile(names, listed), FileFound(names, listed), names, listed)
  {
    Known(names, listed);
    hide NamesKnown;
  }

  lemma RootOwned(img: Image, c: Checked, names: nat, listed: bool)
    requires JustNamed(img, c, names, listed)
    ensures OwnersExact(img, c.owners, 1) && InodeSound(img, 1)
  {
    RootFile(TreeOf(img, img.inodes[1].pointers));
    hide Owned, Occupied, SizeCovers, NamesKnown, RootDirectory;
  }

  lemma FileOwned(img: Image, c: Checked, names: nat, listed: bool)
    requires JustNamed(img, c, names, listed)
    ensures OwnersExact(img, c.owners, 2) && InodeSound(img, 2)
  {
    NoOwners(TreeOf(img, img.inodes[2].pointers));
    hide Owned, Occupied, SizeCovers, NamesKnown, RootDirectory, NoPointers;
  }

  lemma NamesOwners(img: Image, c: Checked, names: nat, listed: bool)
    requires JustNamed(img, c, names, listed)
    ensures FilesInv(img, c, {})
  {
    hide OwnersExact, InodeSound, RootDirectory, NoPointers, NamesKnown, Offsets;
    RootOwned(img, c, names, listed);
    FileOwned(img, c, names, listed);
    ThreeInodes(img, names);
    assert c.inodes - {0} - {} == {1, 2};
  }

  lemma NamesBlocks(img: Image, c: Checked)
    requires img.blockCount == 2 && img.blockBits == {0, 1}
    requires c.blocks == {0, 1} && c.allocBlocks == 2 && c.owners == map[Owner(1, DataUse(0)) := 1]
    ensures BlocksInv(img, c)
  {
    assert ValidBlock(img, c.owners[Owner(1, DataUse(0))]);
    assert ValidValues(img, c.owners) == {1};
    assert |{0, 1}| == 2;
  }

  lemma BlockFields(img: Image, c: Checked, names: nat, listed: bool)
    requires JustNamed(img, c, names, listed)
    ensures img.blockCount == 2 && img.blockBits == {0, 1}
    ensures c.blocks == {0, 1} && c.allocBlocks == 2 && c.owners == map[Owner(1, DataUse(0)) := 1]
  {
    hide NamesKnown;
  }

  lemma NoCalls(img: Image, i: nat)
    ensures CallsTo(img, {}, i) == {}
  {
  }

  lemma Called(img: Image, before: set<Site>, s: Site, after: set<Site>, one: nat, two: nat)
    requires s !in before && after == before + {s}
    requires |CallsTo(img, before, 1)| == one && |CallsTo(img, before, 2)| == two
    ensures |CallsTo(img, after, 1)| == one + (if Target(img, s) == 1 then 1 else 0)
    ensures |CallsTo(img, after, 2)| == two + (if Target(img, s) == 2 then 1 else 0)
  {
    hide Target, CallsTo;
    CallAdded(img, before, s);
  }

  lemma DotsCalled(img: Image)
    requires Target(img, (0, 0)) == 1 && Target(img, (1, 0)) == 1 && Target(img, (1, 16)) == 1
    ensures |CallsTo(img, DotCalls(), 1)| == 3 && |CallsTo(img, DotCalls(), 2)| == 0
  {
    hide Target, CallsTo;
    NoCalls(img, 1);
    NoCalls(img, 2);
    Called(img, {}, (0, 0), {(0, 0)}, 0, 0);
    Called(img, {(0, 0)}, (1, 0), {(0, 0), (1, 0)}, 1, 0);
    Called(img, {(0, 0), (1, 0)}, (1, 16), DotCalls(), 2, 0);
  }

  lemma NamesCalled(img: Image, names: nat)
    requires 1 <= names <= 2
    requires |CallsTo(img, DotCalls(), 1)| == 3 && |CallsTo(img, DotCalls(), 2)| == 0
    requires Target(img, (1, 32)) == 2 && (names == 2 ==> Target(img, (1, 48)) == 2)
    ensures |CallsTo(img, NameCalls(names), 1)| == 3 && |CallsTo(img, NameCalls(names), 2)| == names
  {
    hide Target, CallsTo;
    var first := DotCalls() + {(1, 32)};
    Called(img, DotCalls(), (1, 32), first, 3, 0);
    if names == 2 {
      Called(img, first, (1, 48), NameCalls(names), 3, 1);
    } else {
      assert NameCalls(names) == first;
    }
  }

  lemma NotListed(names: nat)
    ensures (0, 2) !in NameCalls(names)
  {
  }

  /** How often each inode is called. */
  lemma NamesCalls(img: Image, names: nat, listed: bool)
    requires 1 <= names <= 2
    requires Target(img, (0, 0)) == 1 && Target(img, (1, 0)) == 1 && Target(img, (1, 16)) == 1 && Target(img, (0, 2)) == 2
    requires Target(img, (1, 32)) == 2 && (names == 2 ==> Target(img, (1, 48)) == 2)
    ensures |CallsTo(img, AllCalls(names, listed), 1)| == 3
    ensures |CallsTo(img, AllCalls(names, listed), 2)| == names + (if listed then 1 else 0)
  {
    hide Target, CallsTo, DotCalls, NameCalls;
    DotsCalled(img);
    NamesCalled(img, names);
    NotListed(names);
    if listed {
      Called(img, NameCalls(names), (0, 2), AllCalls(names, listed), 3, names);
    }
  }

  lemma NamesLinks(img: Image, c: Checked, names: nat, listed: bool)
    requires JustNamed(img, c, names, listed)
    ensures LinksInv(img, c)
  {
    hide NamesKnown, CallsTo, AllCalls, Target, NamedSite, RootDirectory, NoPointers, Offsets;
    Sites(img, names);
    ThreeInodes(img, names);
    NamesCalls(img, names, listed);
  }

  lemma NamesFollowed(img: Image, c: Checked, names: nat, listed: bool)
    requires JustNamed(img, c, names, listed)
    ensures CallsInv(img, c)
  {
    hide NamesKnown, Target, OnChain, RootDirectory, NoPointers, Offsets;
    Sites(img, names);
    NamesChain(img, names);
    ThreeInodes(img, names);
  }

  lemma ThreeInodes(img: Image, names: nat)
    requires NamesKnown(img, names)
    ensures |img.inodes| == 3 && 1 <= names <= 2 && IsDir(img, 1) && !IsDir(img, 2)
    ensures img.inodes[1].magic == MagicDir && img.inodes[2].magic == MagicFile
  {
  }

  lemma NamesInodes(img: Image, c: Checked, names: nat, listed: bool)
    requires JustNamed(img, c, names, listed)
    ensures InodesInv(img, c)
  {
    hide NamesKnown, IsDir, RootDirectory, NoPointers, Offsets;
    ThreeInodes(img, names);
    ThreeMet(c.inodes);
  }

  lemma ThreeMet(inodes: set<nat>)
    requires inodes == {0, 1, 2}
    ensures inodes <= Below(3) && |inodes| == 3
  {
    assert |{0, 1, 2}| == 3;
  }

  lemma NamesMet(img: Image, c: Checked, names: nat, listed: bool)
    requires JustNamed(img, c, names, listed)
    ensures MetInv(img, c)
  {
    hide NamesKnown, Target, NamedSite, IsDir, RootDirectory, NoPointers, Offsets;
    Sites(img, names);
    ThreeInodes(img, names);
    assert |{0, 1, 2}| == 3;
    assert MetBefore(img, c, 1) && MetBefore(img, c, 2);
    assert c.met.Keys == {1, 2} == c.inodes - {0};
  }

  lemma NamesDone(img: Image, c: Checked, names: nat, listed: bool)
    requires JustNamed(img, c, names, listed)
    ensures Complete(img, c, 1) && Complete(img, c, 2)
  {
    hide RecordAt, ChainOf, SitesOf, DirSound, RootDirectory, NoPointers, NamesKnown, Offsets, IsDir, OnChain;
    NamesChain(img, names);
    NamesSound(img, names);
    NamesSites(img, names);
    ThreeInodes(img, names);
  }

  lemma NamesSites(img: Image, names: nat)
    requires NamesKnown(img, names)
    ensures SitesOf(img, 1, Offsets(names)) == {(1, 0), (1, 16), (1, 32)} + (if names == 2 then {(1, 48)} else {})
  {
    hide RecordAt, Readable;
    var offs := Offsets(names);
    assert offs[0] == 0 && offs[1] == 16 && offs[2] == 32 && (names == 2 ==> offs[3] == 48);
  }

  lemma NamesSound(img: Image, names: nat)
    requires NamesKnown(img, names) && img.inodes[1].links == 2 && img.inodes[1].dirents == 2 + names
    ensures DirSound(img, 1, 1, Offsets(names))
  {
    hide Readable, SitesOf, DotsFine;
    NamesSites(img, names);
    NamesDots(img, names);
    assert |{(1, 0), (1, 16), (1, 32)}| == 3;
  }

  lemma NamesDots(img: Image, names: nat)
    requires NamesKnown(img, names)
    ensures var offs := Offsets(names);
            && DotsFine(img, 1, 1, offs) && 0 in offs && LiveNamed(img, 1, 0, ".") && 16 in offs && LiveNamed(img, 1, 16, "..")
  {
    hide Readable;
    var offs := Offsets(names);
    assert offs[0] == 0 && offs[1] == 16;
    assert forall o :: o in offs ==> o == 0 || o == 16 || o == 32 || (names == 2 && o == 48);
  }

  lemma NamesAccepted(names: nat, listed: bool)
    requires 1 <= names <= 2
    ensures Accepted(WithFile(names, listed), FileFound(names, listed), if listed then [2] else [])
  {
    hide BlocksInv, FilesInv, InodesInv, LinksInv, CallsInv, MetInv, Complete, JustNamed, NamesKnown, WithFile, FileFound, Accepted;
    var img, c := WithFile(names, listed), FileFound(names, listed);
    JustNamedHolds(names, listed);
    NamesOwners(img, c, names, listed);
    BlockFields(img, c, names, listed);
    NamesBlocks(img, c);
    NamesLinks(img, c, names, listed);
    NamesFollowed(img, c, names, listed);
    NamesInodes(img, c, names, listed);
    NamesMet(img, c, names, listed);
    NamesDone(img, c, names, listed);
    ConformingFlag(img, c, names, listed);
    Known(names, listed);
    FileSettled(img, c, names, listed);
  }

  lemma ConformingFlag(img: Image, c: Checked, names: nat, listed: bool)
    requires JustNamed(img, c, names, listed)
    ensures FlagInv(img, c)
  {
    hide Blemish, NamesKnown;
  }

  lemma FileSettled(img: Image, c: Checked, names: nat, listed: bool)
    requires 1 <= names <= 2 && img == WithFile(names, listed) && c == FileFound(names, listed) && NamesKnown(img, names)
    requires CheckerInv(img, c, {}) && Complete(img, c, 1) && Complete(img, c, 2)
    ensures Accepted(img, c, if listed then [2] else [])
  {
    hide CheckerInv, Complete, NamesKnown, MemberMet, ListState;
    var members := if listed then [2] else [];
    assert SetOf(members) == if listed then {2} else {};
    if listed {
      OneMember(img, c, names);
    } else {
      EmptyUnlinkedList(img);
    }
  }

  lemma OneMember(img: Image, c: Checked, names: nat)
    requires 1 <= names <= 2 && img == WithFile(names, true) && c == FileFound(names, true)
    ensures MemberMet(img, c, 2) && List.ListOf(ListState(img), [2])
  {
  }

  lemma NameThere(names: nat, listed: bool, off: nat)
    requires 1 <= names <= 2 && (off == 32 || (off == 48 && names == 2))
    ensures Named(WithFile(names, listed), FileFound(names, listed), (1, off))
    ensures Key(WithFile(names, listed), (1, off)) == (1, "a") && Target(WithFile(names, listed), (1, off)) == 2
  {
    var img, c := WithFile(names, listed), FileFound(names, listed);
    NamesAccepted(names, listed);
    hide Accepted;
    Known(names, listed);
    Sites(img, names);
    EntriesFollowed(img, c, if listed then [2] else [], (1, off));
  }

  /** Two records of one name in a directory are accepted, each counting as a link. */
  lemma TwinNamesAccepted()
    ensures Acceptable(WithFile(2, false))
    ensures Accepted(WithFile(2, false), FileFound(2, false), [])
    ensures !DistinctNames(WithFile(2, false), FileFound(2, false))
    ensures !NamespaceSpec.Consistent(FsOf(WithFile(2, false), FileFound(2, false), []), ShapeOf(WithFile(2, false), FileFound(2, false)))
  {
    hide Accepted, Named, Key, WithFile, FileFound;
    var img, c := WithFile(2, false), FileFound(2, false);
    NamesAccepted(2, false);
    IsAcceptable(img, c, []);
    NameThere(2, false, 32);
    NameThere(2, false, 48);
    assert (1, 32) != (1, 48);
    ConsistentIff(img, c, []);
  }

  /** A file on the unlinked list may keep any number of names: their tally is overwritten. */
  lemma NamedUnlinkedAccepted(names: nat)
    requires 1 <= names <= 2
    ensures Acceptable(WithFile(names, true))
    ensures Accepted(WithFile(names, true), FileFound(names, true), [2])
    ensures !UnlinkedHaveNoNames(WithFile(names, true), FileFound(names, true), [2])
    ensures !NamespaceSpec.Consistent(FsOf(WithFile(names, true), FileFound(names, true), [2]),
                                      ShapeOf(WithFile(names, true), FileFound(names, true)))
  {
    hide Accepted, Named, Key, WithFile, FileFound;
    var img, c := WithFile(names, true), FileFound(names, true);
    NamesAccepted(names, true);
    IsAcceptable(img, c, [2]);
    NameThere(names, true, 32);
    ConsistentIff(img, c, [2]);
  }
}
