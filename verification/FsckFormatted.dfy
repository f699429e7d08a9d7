/** A device that has just been formatted is acceptable, so the checker passes it. */
module FsckFormatted {
  import opened Sets
  import opened PointerTree
  import opened BlocksShrink
  import opened TransactionLimits
  import opened DirectoryRecords
  import opened FsckSpec
  import opened FsckLaws
  import opened FsckAccepts
  import FsckComplete
  import FsckNamespace
  import List = UnlinkedList

  function NoPointers(): Inode {
    Pointers(seq(DIRECT, i => 0), seq(INDIRECT, i => 0), 0)
  }

  function BlankInode(): InodeRecord {
    InodeRecord(MagicOther, 0, 0, 0, 0, NoPointers(), 0, 0, Contents(map[], 0))
  }

  /** The root directory: one block, which is data block 1, with "." and "..". */
  function RootDirectory(): InodeRecord {
    var dots := map[0 := Record(1, 16, false, ".", DirKind), 16 := Record(1, 16, true, "..", DirKind)];
    InodeRecord(MagicDir, 2, 2, BLOCK_SIZE, 1, NoPointers().(dnum := seq(DIRECT, i => if i == 0 then 1 else 0)), 0, 0,
                Contents(dots, BLOCK_SIZE))
  }

  function Formatted(blockCount: nat, inodeCount: nat): Image
    requires inodeCount >= 2
  {
    Image(blockCount, {0, 1}, {0, 1}, 2, 2, 0, 0,
          seq(inodeCount, i => if i == 1 then RootDirectory() else BlankInode()), map[])
  }

  /** What the checker finds on it. */
  ghost function Found(inodeCount: nat): Checked {
    Checked({0, 1}, {0, 1}, seq(inodeCount, i => 0), 2, 2, true, map[Owner(1, DataUse(0)) := 1],
            {(0, 0), (1, 0), (1, 16)}, map[1 := Visit(1, [0, 16])], map[1 := Met((0, 0), 1)], map[])
  }

  /** What the lemmas below use of the two. */
  ghost predicate JustFormatted(img: Image, c: Checked) {
    && img.blockCount >= 2 && img.blockBits == {0, 1} && img.inodeBits == {0, 1} && |img.inodes| >= 2
    && img.allocBlocks == 2 && img.allocInodes == 2 && img.head == 0 && img.tail == 0 && img.inodes[1] == RootDirectory()
    && c.inodes == {0, 1} && c.blocks == {0, 1} && c.allocInodes == 2 && c.allocBlocks == 2 && c.conforming
    && c.owners == map[Owner(1, DataUse(0)) := 1] && c.calls == {(0, 0), (1, 0), (1, 16)} && c.unlinked == map[]
    && c.met == map[1 := Met((0, 0), 1)] && c.visits == map[1 := Visit(1, [0, 16])]
    && |c.links| == |img.inodes| && (forall i :: 0 <= i < |c.links| ==> c.links[i] == 0)
  }

  ghost predicate RootEntries(img: Image) {
    && IsDir(img, 1)
    && RecordAt(img.inodes[1].contents, 0) == Record(1, 16, false, ".", DirKind)
    && RecordAt(img.inodes[1].contents, 16) == Record(1, 16, true, "..", DirKind)
    && Readable(img.inodes[1].contents, 0) && Readable(img.inodes[1].contents, 16)
    && Target(img, (0, 0)) == 1 && Target(img, (1, 0)) == 1 && Target(img, (1, 16)) == 1
    && !NamedSite(img, (0, 0)) && !NamedSite(img, (1, 0)) && !NamedSite(img, (1, 16))
  }

  lemma RootRecords(img: Image)
    requires |img.inodes| >= 2 && img.inodes[1] == RootDirectory()
    ensures RootEntries(img)
  {
    var c := img.inodes[1].contents;
    assert 0 in c.mem && 16 in c.mem;
    assert DotName(".") && DotName("..");
    assert |"."| == 1 && |".."| == 2;
  }

  lemma Fields(blockCount: nat, inodeCount: nat)
    requires inodeCount >= 2 && blockCount >= 2
    ensures JustFormatted(Formatted(blockCount, inodeCount), Found(inodeCount))
  {
  }

  lemma RootBlocks(t: Tree)
    requires t.inode == RootDirectory().pointers && t.file == map[]
    ensures forall f :: 0 <= f < POINTER_BLOCKS ==> Parent(t, f) == 0
    ensures forall n :: 0 <= n < MAX_BLOCKS ==> Lookup(t, n) == if n == 0 then 1 else 0
  {
    forall f | 0 <= f < POINTER_BLOCKS ensures Parent(t, f) == 0 {
    }
  }

  lemma RootFile(t: Tree)
    requires t.inode == RootDirectory().pointers && t.file == map[]
    ensures Owned(t, 1, POINTER_BLOCKS, MAX_BLOCKS) == map[Owner(1, DataUse(0)) := 1]
    ensures Occupied(t) == 1 && SizeCovers(t, BLOCK_SIZE)
  {
    RootBlocks(t);
    hide Parent, Lookup;
    assert PointersOwned(t, 1, POINTER_BLOCKS) == map[];
    assert DataOwned(t, 1, MAX_BLOCKS) == map[Owner(1, DataUse(0)) := 1];
    assert MappedIn(t, 0, MAX_BLOCKS) == {0} && Placed(t) == {};
  }

  lemma FoundBlocks(img: Image, c: Checked)
    requires JustFormatted(img, c)
    ensures BlocksInv(img, c)
  {
    hide RootDirectory;
    var o := Owner(1, DataUse(0));
    assert ValidBlock(img, c.owners[o]);
    assert ValidValues(img, c.owners) == {1};
    assert |{0, 1}| == 2;
  }

  lemma RootOwners(img: Image, c: Checked)
    requires JustFormatted(img, c)
    ensures OwnersExact(img, c.owners, 1) && InodeSound(img, 1)
  {
    var root := img.inodes[1];
    assert root.size == BLOCK_SIZE && root.blocks == 1;
    RootFile(TreeOf(img, root.pointers));
    hide Owned, Occupied, SizeCovers, RootDirectory;
  }

  lemma FoundFiles(img: Image, c: Checked)
    requires JustFormatted(img, c)
    ensures FilesInv(img, c, {}) && InodesInv(img, c)
  {
    hide OwnersExact, InodeSound, RootDirectory;
    RootOwners(img, c);
    RootIsDir(img, c);
    assert c.inodes <= Below(|img.inodes|);
    assert |{0, 1}| == 2;
    assert c.inodes - {0} - {} == {1};
  }

  lemma FoundLinks(img: Image, c: Checked)
    requires JustFormatted(img, c)
    ensures LinksInv(img, c) && CallsInv(img, c)
  {
    RootRecords(img);
    RootOnChain(img);
    hide Target, NamedSite, RecordAt, OnChain;
    assert CallsTo(img, c.calls, 1) == {(0, 0), (1, 0), (1, 16)};
    assert |{(0, 0), (1, 0), (1, 16)}| == 3;
    forall i | 1 < i < |img.inodes| ensures CallsTo(img, c.calls, i) == {} {
    }
  }

  lemma RootOnChain(img: Image)
    requires |img.inodes| >= 2 && RootEntries(img)
    ensures OnChain(img, (1, 0)) && OnChain(img, (1, 16))
  {
    RootChain(img);
    hide RecordAt, Chained, Target, NamedSite;
    var offs := [0, 16];
    assert 0 == offs[0] && 16 == offs[1];
  }

  lemma FoundMet(img: Image, c: Checked)
    requires JustFormatted(img, c)
    ensures MetInv(img, c)
  {
    RootRecords(img);
    hide Target, NamedSite, RecordAt, RootDirectory;
    assert |{0, 1}| == 2;
    assert MetBefore(img, c, 1);
    assert c.met.Keys == {1} == c.inodes - {0};
  }

  lemma FoundRoot(img: Image, c: Checked)
    requires JustFormatted(img, c)
    ensures Complete(img, c, 1)
  {
    RootRecords(img);
    var links, dirents := img.inodes[1].links, img.inodes[1].dirents;
    assert links == 2 && dirents == 2;
    hide RecordAt, RootDirectory, Target, NamedSite, Readable;
    var offs := [0, 16];
    assert offs[0] == 0 && offs[1] == 16 && 0 in offs && 16 in offs;
    RootChain(img);
    hide ChainOf;
    assert SitesOf(img, 1, offs) == {(1, 0), (1, 16)};
    assert LiveNamed(img, 1, 0, ".") && LiveNamed(img, 1, 16, "..");
    assert DirSound(img, 1, 1, offs);
  }

  lemma RootChain(img: Image)
    requires |img.inodes| >= 2 && RootEntries(img)
    ensures ChainOf(img.inodes[1].contents, [0, 16], false)
  {
    hide RecordAt, Target, NamedSite, Readable;
    var offs := [0, 16];
    assert Follows(img.inodes[1].contents, offs, 1);
  }

  lemma AcceptedFrom(img: Image, c: Checked)
    requires JustFormatted(img, c) && IsDir(img, 1) && CheckerInv(img, c, {}) && Complete(img, c, 1)
    ensures Accepted(img, c, [])
  {
    hide CheckerInv, Complete, ListState, IsDir;
    assert SetOf([]) == {};
    EmptyUnlinkedList(img);
  }

  lemma EmptyUnlinkedList(img: Image)
    requires img.head == 0 && img.tail == 0
    ensures List.ListOf(ListState(img), [])
  {
  }

  /** A freshly formatted device is acceptable, and so Fsck returns no fault; its only inode is the root. */
  lemma FormattedPasses(blockCount: nat, inodeCount: nat)
    requires inodeCount >= 2 && blockCount >= 2
    ensures Accepted(Formatted(blockCount, inodeCount), Found(inodeCount), [])
    ensures FsckComplete.Acceptable(Formatted(blockCount, inodeCount))
  {
    hide BlocksInv, FilesInv, InodesInv, LinksInv, CallsInv, MetInv, Complete, Formatted, Found, Accepted, JustFormatted, IsDir;
    var img, c := Formatted(blockCount, inodeCount), Found(inodeCount);
    Fields(blockCount, inodeCount);
    FoundBlocks(img, c);
    FoundFiles(img, c);
    FoundLinks(img, c);
    FoundMet(img, c);
    FoundRoot(img, c);
    RootIsDir(img, c);
    AcceptedFrom(img, c);
    FsckComplete.IsAcceptable(img, c, []);
  }

  lemma RootIsDir(img: Image, c: Checked)
    requires JustFormatted(img, c)
    ensures IsDir(img, 1) && img.inodes[1].links == 2
  {
  }

  /** And it meets what the agreement with the namespace asks. */
  lemma FormattedIsConsistent(blockCount: nat, inodeCount: nat)
    requires inodeCount >= 2 && blockCount >= 2
    ensures FsckNamespace.Premise(Formatted(blockCount, inodeCount), Found(inodeCount), [])
  {
    hide Accepted, NamedSite, RecordAt, Target, Formatted, Found, Entry;
    var img, c := Formatted(blockCount, inodeCount), Found(inodeCount);
    FormattedPasses(blockCount, inodeCount);
    Fields(blockCount, inodeCount);
    RootRecords(img);
    RootIsDir(img, c);
    forall s ensures !FsckNamespace.Named(img, c, s) {
      EntriesFollowed(img, c, [], s);
    }
  }
}
