/**
 The checker accepts what the file system keeps. An image is intact if its inodes, records, pointer
 trees, bitmaps, counts and unlinked list are what the operations keep them to be; that is said
 without the checker, and every such image is acceptable to it.
 */
module FsckKept {
  import opened Sets
  import opened PointerTree
  import opened BlocksShrink
  import opened TransactionLimits
  import opened DirectoryRecords
  import opened FsckSpec
  import opened NamespaceSpec
  import Agrees = FsckAgrees
  import Complete = FsckComplete
  import Records = NamespaceRecords
  import List = UnlinkedList

  /** What an image stands for: a namespace, the unlinked list, and where the records of each directory are. */
  datatype Kept = Kept(fs: Fs, shape: Shape, members: seq<nat>, layouts: map<nat, Layout>)

  /** The device block at a place of an inode, or 0. */
  ghost function BlockAt(img: Image, o: Owner): nat {
    if o.ino >= |img.inodes| then 0
    else
      var t := TreeOf(img, img.inodes[o.ino].pointers);
      match o.use
      case PointerUse(f) => if f < POINTER_BLOCKS then Parent(t, f) else 0
      case DataUse(n) => if n < MAX_BLOCKS then Lookup(t, n) else 0
  }

  /** A block that an inode of the namespace owns. */
  ghost predicate Owns(img: Image, k: Kept, o: Owner) {
    o.ino in k.fs.nodes && BlockAt(img, o) != 0
  }

  /** Every block in use is valid and has one owner, every other is clear, and the counts are right. */
  ghost predicate BlocksIntact(img: Image, k: Kept) {
    && (forall o :: Owns(img, k, o) ==> BlockAt(img, o) < img.blockCount && BlockAt(img, o) in img.blockBits)
    && (forall o, p :: Owns(img, k, o) && Owns(img, k, p) && o != p ==> BlockAt(img, o) != BlockAt(img, p))
    && 0 in img.blockBits && (forall b :: b in img.blockBits && b != 0 ==> exists o :: Owns(img, k, o) && BlockAt(img, o) == b)
    && img.allocBlocks == |img.blockBits|
  }

  /** The inode is of the kind and has the counts that the namespace says, and the blocks that its size covers. */
  ghost predicate InodeIntact(img: Image, k: Kept, i: nat)
    requires i in k.fs.nodes
  {
    && 0 < i < |img.inodes|
    && var r, n := img.inodes[i], k.fs.nodes[i];
       var t := TreeOf(img, r.pointers);
       && r.magic == (if n.kind == DirKind then MagicDir else MagicFile) && r.links == n.links
       && (n.kind == DirKind ==> r.dirents == n.dirents)
       && r.blocks == Occupied(t)
       && forall b :: 0 <= b < MAX_BLOCKS && Lookup(t, b) != 0 ==> b * BLOCK_SIZE < r.size
  }

  /** A linked directory's records are well formed and show the namespace; an unlinked one has been cut to nothing. */
  ghost predicate DirectoryIntact(img: Image, k: Kept, d: nat)
    requires d in k.fs.nodes && d < |img.inodes|
  {
    var r := img.inodes[d];
    if k.fs.nodes[d].links > 0 then
      && d in k.layouts && WellFormed(r.contents, k.layouts[d])
      && Records.Shows(k.fs, d, Records.Dir(Names(r.contents, k.layouts[d]), r.links, r.dirents))
    else r.contents.size == 0 && r.dirents == 0
  }

  ghost predicate InodesIntact(img: Image, k: Kept) {
    && (forall i :: i in k.fs.nodes ==> InodeIntact(img, k, i))
    && (forall d :: d in k.fs.nodes && k.fs.nodes[d].kind == DirKind ==> d < |img.inodes| && DirectoryIntact(img, k, d))
    && img.inodeBits == {0} + k.fs.nodes.Keys && img.allocInodes == |img.inodeBits|
  }

  ghost predicate Intact(img: Image, k: Kept) {
    && Consistent(k.fs, k.shape) && InodesIntact(img, k) && BlocksIntact(img, k)
    && List.ListOf(ListState(img), k.members) && SetOf(k.members) == UnlinkedNodes(k.fs) && OrdinaryNames(k.fs)
  }

  /** "." and ".." are not among the entries. */
  ghost predicate OrdinaryNames(fs: Fs) {
    forall e :: e in fs.entries ==> !DotName(e.1)
  }

  // ---------------------------------------------------------------------------
  // The way through a directory

  ghost function NextStart(c: Contents, off: nat): int {
    off + ReservedSize(RecordAt(c, off), off)
  }

  /** The records from off on. */
  ghost function ChainFrom(c: Contents, bounds: set<nat>, off: nat): seq<nat>
    requires Tiling(c, bounds) && off in bounds
    decreases MAX_DIRECTORY - off
  {
    StepIsLater(c, bounds, off);
    if RecordAt(c, off).last then [off] else [off] + ChainFrom(c, bounds, NextStart(c, off))
  }

  lemma StepIsLater(c: Contents, bounds: set<nat>, off: nat)
    requires Tiling(c, bounds) && off in bounds
    ensures off < NextStart(c, off) <= MAX_DIRECTORY && off in c.mem && RecordAt(c, off) == c.mem[off]
    ensures !RecordAt(c, off).last ==> NextStart(c, off) in bounds && NextStart(c, off) == off + RecordAt(c, off).reclen
  {
    hide DirentSize;
    assert Good(c.mem[off], off, bounds);
  }

  lemma {:induction false} ChainFromIs(c: Contents, l: Layout, off: nat)
    requires WellFormed(c, l) && off in l.bounds
    ensures var offs := ChainFrom(c, l.bounds, off);
            && offs != [] && offs[0] == off && RecordAt(c, offs[|offs| - 1]).last
            && (forall j :: 0 <= j < |offs| ==> Readable(c, offs[j]) && offs[j] >= off)
            && (forall j :: 0 < j < |offs| ==> Follows(c, offs, j))
            && (forall i, j :: 0 <= i < j < |offs| ==> offs[i] < offs[j])
    decreases MAX_DIRECTORY - off
  {
    hide Coalesced, Indexed, Readable, Tiling;
    StepIsLater(c, l.bounds, off);
    Agrees.RecordsReadable(c, l, off);
    if !RecordAt(c, off).last {
      var next := NextStart(c, off);
      var rest, offs := ChainFrom(c, l.bounds, next), ChainFrom(c, l.bounds, off);
      ChainFromIs(c, l, next);
      assert offs == [off] + rest;
      forall j | 0 < j < |offs| ensures Follows(c, offs, j) {
        if j > 1 {
          assert Follows(c, rest, j - 1);
        }
      }
    }
  }

  lemma WholeWay(c: Contents, l: Layout)
    requires WellFormed(c, l)
    ensures 0 in l.bounds && ChainOf(c, ChainFrom(c, l.bounds, 0), false)
  {
    hide Coalesced, Indexed, Good, Readable;
    ChainFromIs(c, l, 0);
  }

  // ---------------------------------------------------------------------------
  // What the checker finds

  /** The record of a name. */
  ghost function SiteOf(k: Kept, e: (nat, string)): Site {
    if e.0 in k.layouts && e.1 in k.layouts[e.0].at then (e.0, k.layouts[e.0].at[e.1]) else (0, 0)
  }

  ghost function LinkedDirs(fs: Fs): set<nat> {
    set d | d in fs.nodes && LinkedDir(fs, d)
  }

  /** The records in use. */
  ghost function RecordSites(k: Kept): set<Site> {
    set d, n | d in LinkedDirs(k.fs) && d in k.layouts && n in k.layouts[d].at :: (d, k.layouts[d].at[n])
  }

  ghost function Calls(k: Kept): set<Site> {
    RecordSites(k) + {(0, 0)} + (set j | j in SetOf(k.members) :: (0, j))
  }

  /** The entry an inode is met along: a directory's name, any name of a file. */
  ghost function FirstSite(k: Kept, i: nat): Site {
    if i == ROOT_INODE then (0, 0)
    else if i !in k.fs.nodes || k.fs.nodes[i].links <= 0 then (0, i)
    else if k.fs.nodes[i].kind == DirKind && i in k.shape.nameOf then SiteOf(k, (k.fs.nodes[i].parent, k.shape.nameOf[i]))
    else if e :| e in k.fs.entries && k.fs.entries[e] == i then SiteOf(k, e)
    else (0, i)
  }

  ghost function Above(k: Kept, d: nat): set<nat> {
    set x | x in LinkedDirs(k.fs) && x in k.shape.rank && d in k.shape.rank && k.shape.rank[x] < k.shape.rank[d]
  }

  ghost function RankOf(k: Kept, i: nat): nat {
    if i !in k.fs.nodes || k.fs.nodes[i].links <= 0 then 0
    else if k.fs.nodes[i].kind == DirKind then |Above(k, i)|
    else |LinkedDirs(k.fs)|
  }

  ghost function VisitOf(img: Image, k: Kept, d: nat): Visit
    requires d in k.fs.nodes && k.fs.nodes[d].kind == DirKind && d < |img.inodes| && DirectoryIntact(img, k, d)
  {
    if k.fs.nodes[d].links > 0 then
      Visit(k.fs.nodes[d].parent, ChainFrom(img.inodes[d].contents, k.layouts[d].bounds, 0))
    else Visit(0, [])
  }

  ghost function OwnersOf(img: Image, k: Kept): set<Owner> {
    set i, o | i in k.fs.nodes && i < |img.inodes| && o in Owned(TreeOf(img, img.inodes[i].pointers), i, POINTER_BLOCKS, MAX_BLOCKS) :: o
  }

  ghost function Findings(img: Image, k: Kept): Checked
    requires Intact(img, k)
  {
    Checked({0} + k.fs.nodes.Keys, img.blockBits, seq(|img.inodes|, i => 0), img.allocInodes, img.allocBlocks, true,
            map o | o in OwnersOf(img, k) :: BlockAt(img, o),
            Calls(k),
            map d | d in k.fs.nodes && k.fs.nodes[d].kind == DirKind :: VisitOf(img, k, d),
            map i | i in k.fs.nodes :: Met(FirstSite(k, i), RankOf(k, i)),
            map j | j in SetOf(k.members) :: -1)
  }

  // ---------------------------------------------------------------------------
  // Blocks

  lemma OwnedIs(img: Image, i: nat, o: Owner)
    requires i < |img.inodes|
    ensures var all := Owned(TreeOf(img, img.inodes[i].pointers), i, POINTER_BLOCKS, MAX_BLOCKS);
            && (o in all <==> o.ino == i && BlockAt(img, o) != 0)
            && (o in all ==> all[o] == BlockAt(img, o))
  {
    hide Parent, Lookup;
  }

  lemma OwnersAre(img: Image, k: Kept, o: Owner)
    requires InodesIntact(img, k)
    ensures o in OwnersOf(img, k) <==> Owns(img, k, o)
  {
    hide InodeIntact, DirectoryIntact, Owned, BlockAt;
    if o in OwnersOf(img, k) {
      var i :| i in k.fs.nodes && i < |img.inodes| && o in Owned(TreeOf(img, img.inodes[i].pointers), i, POINTER_BLOCKS, MAX_BLOCKS);
      OwnedIs(img, i, o);
    }
    if Owns(img, k, o) {
      InRange(img, k, o.ino);
      OwnedIs(img, o.ino, o);
    }
  }

  lemma InRange(img: Image, k: Kept, i: nat)
    requires InodesIntact(img, k) && i in k.fs.nodes
    ensures 0 < i < |img.inodes|
  {
    assert InodeIntact(img, k, i);
  }

  lemma BlocksFound(img: Image, k: Kept)
    requires Intact(img, k)
    ensures BlocksInv(img, Findings(img, k))
  {
    hide InodesIntact, Consistent, List.ListOf, BlockAt, OwnersOf, SetOf, UnlinkedNodes, Fresh, ValidValues, BlocksIntact, Calls, Owns;
    var c := Findings(img, k);
    forall o ensures (o in c.owners <==> Owns(img, k, o)) && (o in c.owners ==> c.owners[o] == BlockAt(img, o)) {
      OwnersAre(img, k, o);
    }
    BlocksFresh(img, k, c.owners);
  }

  lemma BlocksFresh(img: Image, k: Kept, owners: map<Owner, nat>)
    requires BlocksIntact(img, k)
    requires forall o :: (o in owners <==> Owns(img, k, o)) && (o in owners ==> owners[o] == BlockAt(img, o))
    ensures 0 in img.blockBits && Fresh(img, owners, {0}) && img.blockBits == {0} + ValidValues(img, owners)
    ensures img.allocBlocks == |img.blockBits|
  {
    hide BlockAt;
    forall b ensures b in img.blockBits <==> b in {0} + ValidValues(img, owners) {
      if b in img.blockBits && b != 0 {
        var o :| Owns(img, k, o) && BlockAt(img, o) == b;
        assert o in owners && owners[o] == b;
      }
    }
  }

  lemma FilesFound(img: Image, k: Kept)
    requires Intact(img, k)
    ensures FilesInv(img, Findings(img, k), {})
  {
    hide Consistent, List.ListOf, BlockAt, OwnersOf, SetOf, UnlinkedNodes, BlocksIntact, Owned, Occupied, DirectoryIntact;
    var c := Findings(img, k);
    forall o ensures o in c.owners <==> Owns(img, k, o) {
      OwnersAre(img, k, o);
    }
    forall i | i in c.inodes - {0} - {} ensures i < |img.inodes| && OwnersExact(img, c.owners, i) && InodeSound(img, i) {
      OneFile(img, k, i, c.owners);
    }
  }

  lemma OneFile(img: Image, k: Kept, i: nat, owners: map<Owner, nat>)
    requires i in k.fs.nodes && InodeIntact(img, k, i)
    requires forall o :: (o in owners <==> Owns(img, k, o)) && (o in owners ==> owners[o] == BlockAt(img, o))
    ensures i < |img.inodes| && OwnersExact(img, owners, i) && InodeSound(img, i)
  {
    hide BlockAt, Owned, Occupied, Lookup;
    forall o ensures var all := Owned(TreeOf(img, img.inodes[i].pointers), i, POINTER_BLOCKS, MAX_BLOCKS);
                     && (o in all <==> o.ino == i && BlockAt(img, o) != 0)
                     && (o in all ==> all[o] == BlockAt(img, o))
    {
      OwnedIs(img, i, o);
    }
  }

  // ---------------------------------------------------------------------------
  // Records

  /** Where a name of a linked directory leads. */
  ghost function LeadsTo(fs: Fs, d: nat, n: string): nat
    requires d in fs.nodes
  {
    if n == "." then d else if n == ".." then fs.nodes[d].parent else if (d, n) in fs.entries then fs.entries[(d, n)] else 0
  }

  /** A linked directory of an intact image, and what its records say. */
  ghost predicate Shown(img: Image, k: Kept, d: nat) {
    && LinkedDir(k.fs, d) && 0 < d < |img.inodes| && img.inodes[d].magic == MagicDir && d in k.layouts
    && WellFormed(img.inodes[d].contents, k.layouts[d])
    && img.inodes[d].links == k.fs.nodes[d].links && img.inodes[d].dirents == k.fs.nodes[d].dirents
    && (forall n :: n in k.layouts[d].at <==> DotName(n) || (d, n) in k.fs.entries)
    && (forall n :: n in k.layouts[d].at ==> RecordShown(img, k, d, n))
  }

  /** The record of a name. */
  ghost predicate RecordShown(img: Image, k: Kept, d: nat, n: string) {
    && d in k.fs.nodes && d < |img.inodes| && d in k.layouts && n in k.layouts[d].at
    && var r := RecordAt(img.inodes[d].contents, k.layouts[d].at[n]);
       r.ino != 0 && r.name == n && r.ino == LeadsTo(k.fs, d, n)
  }

  lemma DirectoryShown(img: Image, k: Kept, d: nat)
    requires InodesIntact(img, k) && Consistent(k.fs, k.shape) && LinkedDir(k.fs, d)
    ensures Shown(img, k, d)
  {
    hide Consistent, WellFormed, Records.Shows;
    assert InodeIntact(img, k, d) && DirectoryIntact(img, k, d);
    hide InodesIntact;
    ShownNames(img, k, d);
  }

  lemma ShownNames(img: Image, k: Kept, d: nat)
    requires d in k.fs.nodes && d < |img.inodes| && d in k.layouts && WellFormed(img.inodes[d].contents, k.layouts[d])
    requires Records.Shows(k.fs, d, Records.Dir(Names(img.inodes[d].contents, k.layouts[d]), img.inodes[d].links, img.inodes[d].dirents))
    ensures img.inodes[d].dirents == k.fs.nodes[d].dirents
    ensures forall n :: n in k.layouts[d].at <==> DotName(n) || (d, n) in k.fs.entries
    ensures forall n :: n in k.layouts[d].at ==> RecordShown(img, k, d, n)
  {
    hide Tiling, Coalesced, DirentSize;
    var names := Names(img.inodes[d].contents, k.layouts[d]);
    forall n ensures n in k.layouts[d].at <==> DotName(n) || (d, n) in k.fs.entries {
      assert n in names <==> n in k.layouts[d].at;
      if !DotName(n) {
        assert Records.NameShown(k.fs, d, names, n);
      }
    }
    forall n | n in k.layouts[d].at ensures RecordShown(img, k, d, n) {
      assert n in names;
      if !DotName(n) {
        assert Records.NameShown(k.fs, d, names, n);
      }
    }
  }

  /** A record in use is that of some name. */
  lemma RecordNamed(img: Image, k: Kept, d: nat, off: nat)
    requires Shown(img, k, d) && off in k.layouts[d].bounds && RecordAt(img.inodes[d].contents, off).ino != 0
    ensures var n := RecordAt(img.inodes[d].contents, off).name; n in k.layouts[d].at && k.layouts[d].at[n] == off
  {
    hide Tiling, Coalesced, DirentSize;
  }

  lemma SiteIs(img: Image, k: Kept, d: nat, n: string)
    requires Shown(img, k, d) && n in k.layouts[d].at
    ensures var s := SiteOf(k, (d, n));
            && s == (d, k.layouts[d].at[n]) && Target(img, s) == LeadsTo(k.fs, d, n) && Target(img, s) != 0
            && (NamedSite(img, s) <==> !DotName(n)) && s in RecordSites(k) && s.0 == d
    ensures k.layouts[d].at[n] in k.layouts[d].bounds && OnChain(img, SiteOf(k, (d, n)))
  {
    hide Tiling, Coalesced, DirentSize;
    assert RecordShown(img, k, d, n);
    assert d in LinkedDirs(k.fs);
    PlaceReached(img, k, d, n);
  }

  lemma PlaceReached(img: Image, k: Kept, d: nat, n: string)
    requires Shown(img, k, d) && n in k.layouts[d].at
    ensures k.layouts[d].at[n] in k.layouts[d].bounds && OnChain(img, (d, k.layouts[d].at[n]))
  {
    assert RecordShown(img, k, d, n);
    var c, l := img.inodes[d].contents, k.layouts[d];
    NamePlace(c, l, n);
    WholeWay(c, l);
    hide WellFormed, Readable, RecordShown, SitesOf;
    var offs := ChainFrom(c, l.bounds, 0);
    Agrees.WalkMeetsAll(img, d, l, offs);
    assert Chained(c, offs) && l.at[n] in offs;
  }

  lemma NamePlace(c: Contents, l: Layout, n: string)
    requires WellFormed(c, l) && n in l.at
    ensures l.at[n] in l.bounds
  {
  }

  /** Different names have different records. */
  lemma SitesDiffer(img: Image, k: Kept, d: nat, n: string, m: string)
    requires Shown(img, k, d) && n in k.layouts[d].at && m in k.layouts[d].at && n != m
    ensures k.layouts[d].at[n] != k.layouts[d].at[m]
  {
    assert RecordShown(img, k, d, n) && RecordShown(img, k, d, m);
  }

  /** An entry followed is the record of a name, or the turning to the root or to a member of the list. */
  lemma CallIs(img: Image, k: Kept, s: Site)
    requires InodesIntact(img, k) && Consistent(k.fs, k.shape) && s in Calls(k)
    ensures || s == (0, 0) || (s.0 == 0 && s.1 in k.members)
            || (s.0 != 0 && Shown(img, k, s.0) && s.0 in k.layouts && exists n :: n in k.layouts[s.0].at && s == SiteOf(k, (s.0, n)))
  {
    hide InodesIntact, Consistent, Shown, LinkedDir;
    if s in RecordSites(k) {
      var d, n :| d in LinkedDirs(k.fs) && d in k.layouts && n in k.layouts[d].at && s == (d, k.layouts[d].at[n]);
      DirectoryShown(img, k, d);
      assert s == SiteOf(k, (d, n));
      ShownNumber(img, k, d);
    }
  }

  lemma ShownNumber(img: Image, k: Kept, d: nat)
    requires Shown(img, k, d)
    ensures 0 < d < |img.inodes| && d in k.layouts && LinkedDir(k.fs, d) && IsDir(img, d)
  {
  }

  lemma NameIsCall(k: Kept, d: nat, n: string)
    requires LinkedDir(k.fs, d) && d in k.layouts && n in k.layouts[d].at
    ensures SiteOf(k, (d, n)) in Calls(k)
  {
    assert d in LinkedDirs(k.fs);
  }

  // ---------------------------------------------------------------------------
  // The walk

  /** Where the records of a consistent namespace lead. */
  lemma TargetsLinked(fs: Fs, s: Shape, d: nat, n: string)
    requires Consistent(fs, s) && LinkedDir(fs, d) && (DotName(n) || (d, n) in fs.entries)
    ensures Linked(fs, LeadsTo(fs, d, n)) && (DotName(n) ==> LinkedDir(fs, LeadsTo(fs, d, n)))
    ensures !DotName(n) ==> LeadsTo(fs, d, n) == fs.entries[(d, n)] && LeadsTo(fs, d, n) != ROOT_INO
  {
    hide OnlyName, RankedAt, CountedAt, Counted, Ranked;
    if d != ROOT_INO {
      ParentLinked(fs, s, d);
    }
  }

  lemma MembersAre(img: Image, k: Kept, j: nat)
    requires Intact(img, k)
    ensures j in k.members <==> j in k.fs.nodes && k.fs.nodes[j].links == 0
    ensures j in k.members ==> 0 < j < |img.inodes| && img.inodes[j].links == 0
  {
    hide InodeIntact, DirectoryIntact, Consistent, BlocksIntact, List.ListOf;
    assert j in k.members <==> j in SetOf(k.members);
    if j in k.members {
      assert InodeIntact(img, k, j);
      InodeLinks(img, k, j);
    }
  }

  lemma InodeLinks(img: Image, k: Kept, i: nat)
    requires i in k.fs.nodes && InodeIntact(img, k, i)
    ensures 0 < i < |img.inodes| && img.inodes[i].links == k.fs.nodes[i].links
    ensures IsDir(img, i) <==> k.fs.nodes[i].kind == DirKind
    ensures img.inodes[i].magic != MagicOther
  {
  }

  lemma CallsFound(img: Image, k: Kept)
    requires Intact(img, k)
    ensures CallsInv(img, Findings(img, k))
  {
    hide Consistent, BlocksIntact, List.ListOf, Shown, Target, OnChain, NamedSite, SiteOf, LeadsTo, Calls, OwnersOf, BlockAt, LinkedDir, Linked;
    var c := Findings(img, k);
    forall s | s in c.calls ensures GoodCall(img, c.inodes, s) {
      OneCall(img, k, s);
    }
  }

  lemma OneCall(img: Image, k: Kept, s: Site)
    requires Intact(img, k) && s in Calls(k)
    ensures GoodCall(img, {0} + k.fs.nodes.Keys, s)
  {
    hide InodesIntact, Consistent, BlocksIntact, List.ListOf, Shown, OnChain, NamedSite, SiteOf, LeadsTo, Calls;
    CallIs(img, k, s);
    if s == (0, 0) {
      RootThere(k.fs, k.shape);
      assert Target(img, s) == ROOT_INO;
    } else if s.0 == 0 {
      MembersAre(img, k, s.1);
    } else {
      var n :| n in k.layouts[s.0].at && s == SiteOf(k, (s.0, n));
      ShownLinked(img, k, s.0, n);
      SiteIs(img, k, s.0, n);
      TargetsLinked(k.fs, k.shape, s.0, n);
    }
  }

  lemma RootThere(fs: Fs, s: Shape)
    requires Consistent(fs, s)
    ensures Rooted(fs) && LinkedDir(fs, ROOT_INO)
  {
  }

  lemma ShownLinked(img: Image, k: Kept, d: nat, n: string)
    requires Shown(img, k, d) && n in k.layouts[d].at
    ensures LinkedDir(k.fs, d) && (DotName(n) || (d, n) in k.fs.entries)
  {
  }

  // ---------------------------------------------------------------------------
  // Along which entry each inode is met

  /** The entry is the record of a name that leads to i, in a directory nearer to the root. */
  lemma HomeSite(img: Image, k: Kept, i: nat)
    requires Intact(img, k) && LinkedDir(k.fs, i) && i != ROOT_INO
    ensures i in k.shape.nameOf && FirstSite(k, i) == SiteOf(k, (k.fs.nodes[i].parent, k.shape.nameOf[i]))
    ensures var s, p := FirstSite(k, i), k.fs.nodes[i].parent;
            && s in Calls(k) && Target(img, s) == i && s.0 == p && p != 0 && LinkedDir(k.fs, p) && p in Above(k, i)
            && Shown(img, k, p) && k.shape.nameOf[i] in k.layouts[p].at && !DotName(k.shape.nameOf[i])
  {
    hide InodesIntact, BlocksIntact, List.ListOf, OnlyName, CountedAt, Counted, Shown, Calls, Bound, OneParent, Ranked;
    HomeOf(k.fs, k.shape, i);
    var p, n := k.fs.nodes[i].parent, k.shape.nameOf[i];
    DirectoryShown(img, k, p);
    EntryNamed(img, k, p, n);
    SiteIs(img, k, p, n);
    TargetsLinked(k.fs, k.shape, p, n);
    ShownNumber(img, k, p);
    NameIsCall(k, p, n);
  }

  lemma HomeOf(fs: Fs, s: Shape, i: nat)
    requires Consistent(fs, s) && LinkedDir(fs, i) && i != ROOT_INO
    ensures i in s.nameOf && i in s.rank && (fs.nodes[i].parent, s.nameOf[i]) in fs.entries && fs.entries[(fs.nodes[i].parent, s.nameOf[i])] == i
    ensures var p := fs.nodes[i].parent; LinkedDir(fs, p) && p in s.rank && s.rank[p] < s.rank[i]
  {
    hide OnlyName, CountedAt, Counted;
    assert Home(fs, s, i) && RankedAt(fs, s, i);
  }

  /** An entry has a record, under a name that is neither "." nor "..". */
  lemma EntryNamed(img: Image, k: Kept, d: nat, n: string)
    requires Shown(img, k, d) && (d, n) in k.fs.entries
    requires InodesIntact(img, k)
    ensures n in k.layouts[d].at
  {
  }

  /** Any file with links has a name, and FirstSite is the record of one. */
  lemma FileSite(img: Image, k: Kept, i: nat)
    requires Intact(img, k) && Linked(k.fs, i) && k.fs.nodes[i].kind == FileKind
    ensures var s := FirstSite(k, i);
            && s in Calls(k) && Target(img, s) == i && s.0 != 0 && LinkedDir(k.fs, s.0)
  {
    hide InodesIntact, BlocksIntact, List.ListOf, OnlyName, RankedAt, Home, Shown, Calls, OneParent, Ranked, SiteOf;
    SomeName(k.fs, k.shape, i);
    var e :| e in k.fs.entries && k.fs.entries[e] == i && FirstSite(k, i) == SiteOf(k, e);
    EntrySite(img, k, e);
  }

  lemma SomeName(fs: Fs, s: Shape, i: nat)
    requires Consistent(fs, s) && Linked(fs, i) && fs.nodes[i].kind == FileKind
    ensures i != ROOT_INO && exists e :: e in fs.entries && fs.entries[e] == i
  {
    hide OnlyName, RankedAt, Home;
    assert CountedAt(fs, i);
    assert NamesOf(fs.entries, i) != {};
    var e :| e in NamesOf(fs.entries, i);
  }

  lemma EntrySite(img: Image, k: Kept, e: (nat, string))
    requires Intact(img, k) && e in k.fs.entries
    ensures LinkedDir(k.fs, e.0) && Shown(img, k, e.0) && e.0 in k.layouts && e.1 in k.layouts[e.0].at && !DotName(e.1) && e.0 != 0
    ensures var s := SiteOf(k, e); s in Calls(k) && Target(img, s) == k.fs.entries[e] && s.0 == e.0 && NamedSite(img, s)
  {
    hide InodesIntact, BlocksIntact, List.ListOf, OnlyName, RankedAt, CountedAt, Home, Shown, Calls, OneParent, Ranked, Counted, SiteOf;
    assert LinkedDir(k.fs, e.0);
    DirectoryShown(img, k, e.0);
    EntryNamed(img, k, e.0, e.1);
    SiteIs(img, k, e.0, e.1);
    TargetsLinked(k.fs, k.shape, e.0, e.1);
    ShownNumber(img, k, e.0);
    NameIsCall(k, e.0, e.1);
    assert e == (e.0, e.1);
  }

  lemma RankGrows(k: Kept, p: nat, d: nat)
    requires p in Above(k, d)
    ensures |Above(k, p)| < |Above(k, d)|
  {
    assert p !in Above(k, p) && Above(k, p) <= Above(k, d);
    SubsetSize(Above(k, p), Above(k, d));
  }

  lemma RanksSmall(k: Kept, d: nat)
    ensures |Above(k, d)| <= |LinkedDirs(k.fs)| <= |k.fs.nodes.Keys|
    ensures d in LinkedDirs(k.fs) ==> |Above(k, d)| < |LinkedDirs(k.fs)|
  {
    hide LinkedDir;
    SubsetSize(Above(k, d), LinkedDirs(k.fs));
    SubsetSize(LinkedDirs(k.fs), k.fs.nodes.Keys);
    assert d !in Above(k, d);
  }

  lemma MetFirst(img: Image, k: Kept, i: nat)
    requires Intact(img, k) && i in k.fs.nodes
    ensures MetBefore(img, Findings(img, k), i)
  {
    hide InodesIntact, BlocksIntact, List.ListOf, Consistent, Shown, Calls, SiteOf, Target, OwnersOf, BlockAt, VisitOf, Above, LinkedDirs, SetOf,
         UnlinkedNodes, OrdinaryNames;
    MetFacts(img, k, i);
    var c := Findings(img, k);
    assert |c.inodes| == 1 + |k.fs.nodes.Keys| by { ZeroApart(img, k); }
  }

  lemma ZeroApart(img: Image, k: Kept)
    requires InodesIntact(img, k)
    ensures |{0} + k.fs.nodes.Keys| == 1 + |k.fs.nodes.Keys|
  {
    hide InodesIntact;
    if 0 in k.fs.nodes {
      InRange(img, k, 0);
    }
    DisjointUnionSize({0}, k.fs.nodes.Keys);
  }

  lemma MetFacts(img: Image, k: Kept, i: nat)
    requires Intact(img, k) && i in k.fs.nodes
    ensures var s := FirstSite(k, i);
            && s in Calls(k) && Target(img, s) == i && RankOf(k, i) <= |k.fs.nodes.Keys|
            && (s.0 != 0 ==> s.0 in k.fs.nodes && RankOf(k, s.0) < RankOf(k, i))
  {
    hide InodesIntact, BlocksIntact, List.ListOf, Shown, SiteOf, OnlyName, RankedAt, Home, OneParent, Ranked, Bound, Above, LinkedDirs, OrdinaryNames;
    RanksSmall(k, i);
    assert CountedAt(k.fs, i);
    if i == ROOT_INO {
      RootThere(k.fs, k.shape);
    } else if k.fs.nodes[i].links == 0 {
      MembersAre(img, k, i);
      assert i in SetOf(k.members);
    } else if k.fs.nodes[i].kind == DirKind {
      HomeSite(img, k, i);
      RankGrows(k, k.fs.nodes[i].parent, i);
    } else {
      FileSite(img, k, i);
      RanksSmall(k, FirstSite(k, i).0);
      assert FirstSite(k, i).0 in LinkedDirs(k.fs) by { InLinkedDirs(k.fs, FirstSite(k, i).0); }
    }
  }

  lemma InLinkedDirs(fs: Fs, d: nat)
    ensures d in LinkedDirs(fs) <==> LinkedDir(fs, d)
  {
  }

  /** A directory is come to by name only along its one name. */
  lemma OneNameOnly(img: Image, k: Kept, s: Site)
    requires Intact(img, k) && s in Calls(k) && NamedSite(img, s) && IsDir(img, Target(img, s))
    ensures Target(img, s) in k.fs.nodes && FirstSite(k, Target(img, s)) == s
  {
    hide InodesIntact, BlocksIntact, List.ListOf, RankedAt, Home, Shown, SiteOf, Calls, Target, Counted, Ranked, Bound, OrdinaryNames, IsDir;
    CallIs(img, k, s);
    var n :| n in k.layouts[s.0].at && s == SiteOf(k, (s.0, n));
    ShownLinked(img, k, s.0, n);
    SiteIs(img, k, s.0, n);
    TargetsLinked(k.fs, k.shape, s.0, n);
    var d := Target(img, s);
    KindOf(img, k, d);
    assert OnlyName(k.fs, k.shape, (s.0, n));
    HomeSite(img, k, d);
  }

  lemma KindOf(img: Image, k: Kept, i: nat)
    requires InodesIntact(img, k) && i in k.fs.nodes
    ensures 0 < i < |img.inodes| && img.inodes[i].links == k.fs.nodes[i].links && img.inodes[i].magic != MagicOther
    ensures IsDir(img, i) <==> k.fs.nodes[i].kind == DirKind
  {
    assert InodeIntact(img, k, i);
    InodeLinks(img, k, i);
  }

  lemma MetFound(img: Image, k: Kept)
    requires Intact(img, k)
    ensures MetInv(img, Findings(img, k))
  {
    hide InodesIntact, BlocksIntact, List.ListOf, Consistent, Shown, Calls, SiteOf, Target, OwnersOf, BlockAt, VisitOf, RankOf, SetOf,
         UnlinkedNodes, OrdinaryNames, MetBefore, NamedSite, IsDir, FirstSite;
    var c := Findings(img, k);
    forall i | i in c.met ensures MetBefore(img, c, i) {
      MetFirst(img, k, i);
    }
    forall s | s in c.calls && NamedSite(img, s) && IsDir(img, Target(img, s)) ensures FirstName(img, c, s) {
      OneNameOnly(img, k, s);
    }
    assert 0 !in c.met by {
      if 0 in k.fs.nodes {
        InRange(img, k, 0);
      }
    }
    assert c.met.Keys == c.inodes - {0};
  }

  lemma InodesFound(img: Image, k: Kept)
    requires Intact(img, k)
    ensures InodesInv(img, Findings(img, k)) && FlagInv(img, Findings(img, k))
  {
    hide BlocksIntact, List.ListOf, Consistent, Calls, OwnersOf, BlockAt, VisitOf, RankOf, SetOf, UnlinkedNodes, OrdinaryNames, FirstSite, Blemish,
         InodesIntact;
    var c := Findings(img, k);
    forall i | i in c.inodes ensures i < |img.inodes| && (i != 0 ==> img.inodes[i].magic != MagicOther) {
      if i != 0 {
        KindOf(img, k, i);
      } else {
        RootThere(k.fs, k.shape);
        InRange(img, k, ROOT_INO);
      }
    }
    InodeCounts(img, k);
  }

  lemma InodeCounts(img: Image, k: Kept)
    requires InodesIntact(img, k)
    ensures img.inodeBits == {0} + k.fs.nodes.Keys && img.allocInodes == |img.inodeBits|
  {
    hide InodeIntact, DirectoryIntact;
  }

  // ---------------------------------------------------------------------------
  // Every directory is done with

  lemma CompleteFound(img: Image, k: Kept, d: nat)
    requires Intact(img, k) && d in k.fs.nodes
    ensures FsckSpec.Complete(img, Findings(img, k), d)
  {
    hide BlocksIntact, List.ListOf, OwnersOf, BlockAt, RankOf, SetOf, UnlinkedNodes, OrdinaryNames, InodesIntact, Consistent, Calls, Shown,
         ChainOf, SitesOf, DirSound, IsDir, VisitOf, FirstSite;
    KindOf(img, k, d);
    var c := Findings(img, k);
    if k.fs.nodes[d].kind != DirKind {
      NoRecords(img, k, d);
    } else if k.fs.nodes[d].links > 0 {
      LinkedComplete(img, k, d);
    } else {
      UnlinkedComplete(img, k, d);
      NoRecords(img, k, d);
    }
  }

  /** Only linked directories have records. */
  lemma NoRecords(img: Image, k: Kept, d: nat)
    requires Intact(img, k) && d in k.fs.nodes && !LinkedDir(k.fs, d)
    ensures forall off :: (d, off) !in Calls(k)
  {
    hide InodesIntact, BlocksIntact, List.ListOf, Consistent, Shown, SiteOf, LinkedDir, Calls;
    forall off ensures (d, off) !in Calls(k) {
      if (d, off) in Calls(k) {
        InRange(img, k, d);
        CallIs(img, k, (d, off));
        ShownNumber(img, k, d);
      }
    }
  }

  lemma UnlinkedComplete(img: Image, k: Kept, d: nat)
    requires Intact(img, k) && d in k.fs.nodes && k.fs.nodes[d].kind == DirKind && k.fs.nodes[d].links <= 0
    ensures d < |img.inodes| && DirectoryIntact(img, k, d) && VisitOf(img, k, d) == Visit(0, []) && ParentOf(FirstSite(k, d)) == 0
    ensures ChainOf(img.inodes[d].contents, [], MayEnd(img, d, 0)) && SitesOf(img, d, []) == {} && DirSound(img, d, 0, [])
  {
    hide BlocksIntact, List.ListOf, UnlinkedNodes, OrdinaryNames, Consistent, InodesIntact, LinkedDir, ChainOf, DirSound;
    RootThere(k.fs, k.shape);
    assert d != ROOT_INO by { LinkedNot(k.fs, d); }
    KindOf(img, k, d);
    DirIntact(img, k, d);
    CountNotNegative(k.fs, k.shape, d);
    NothingLeft(img, d);
  }

  lemma LinkedNot(fs: Fs, d: nat)
    requires d in fs.nodes && fs.nodes[d].links <= 0
    ensures !LinkedDir(fs, d)
  {
  }

  lemma CountNotNegative(fs: Fs, s: Shape, i: nat)
    requires Consistent(fs, s) && i in fs.nodes
    ensures fs.nodes[i].links >= 0
  {
    assert CountedAt(fs, i);
  }

  /** An unlinked directory that has been cut to nothing has no fault. */
  lemma NothingLeft(img: Image, d: nat)
    requires d < |img.inodes| && img.inodes[d].links == 0 && img.inodes[d].dirents == 0 && img.inodes[d].contents.size == 0
    ensures ChainOf(img.inodes[d].contents, [], MayEnd(img, d, 0)) && SitesOf(img, d, []) == {} && DirSound(img, d, 0, [])
  {
  }

  lemma LinkedComplete(img: Image, k: Kept, d: nat)
    requires Intact(img, k) && LinkedDir(k.fs, d)
    ensures d < |img.inodes| && DirectoryIntact(img, k, d)
    ensures var v := VisitOf(img, k, d);
            && v.parent == ParentOf(FirstSite(k, d)) && ChainOf(img.inodes[d].contents, v.offs, MayEnd(img, d, v.parent))
            && (forall off :: (d, off) in Calls(k) <==> (d, off) in SitesOf(img, d, v.offs)) && DirSound(img, d, v.parent, v.offs)
  {
    hide BlocksIntact, List.ListOf, UnlinkedNodes, OrdinaryNames, Consistent, InodesIntact, Calls, SitesOf, Shown, ChainOf, DirSound, SiteOf,
         DirectoryIntact, WellFormed;
    DirectoryShown(img, k, d);
    ShownNumber(img, k, d);
    DirIntact(img, k, d);
    ParentFound(img, k, d);
    ShownWay(img, k, d);
    var v := VisitOf(img, k, d);
    forall off: nat ensures (d, off) in Calls(k) <==> (d, off) in SitesOf(img, d, v.offs) {
      RecordFollowed(img, k, d, off, v.offs);
    }
    SoundFound(img, k, d, v.offs);
  }

  lemma DirIntact(img: Image, k: Kept, d: nat)
    requires InodesIntact(img, k) && d in k.fs.nodes && k.fs.nodes[d].kind == DirKind
    ensures d < |img.inodes| && DirectoryIntact(img, k, d)
  {
    hide InodeIntact, DirectoryIntact;
  }

  lemma ParentFound(img: Image, k: Kept, d: nat)
    requires Intact(img, k) && LinkedDir(k.fs, d)
    ensures k.fs.nodes[d].parent == ParentOf(FirstSite(k, d))
  {
    hide InodesIntact, BlocksIntact, List.ListOf, OnlyName, RankedAt, CountedAt, Home, OneParent, Ranked, Counted, Bound, Calls, Shown;
    if d != ROOT_INO {
      HomeSite(img, k, d);
    }
  }

  /** The way through a linked directory has all its records. */
  lemma ShownWay(img: Image, k: Kept, d: nat)
    requires Shown(img, k, d) && d < |img.inodes| && DirectoryIntact(img, k, d)
    ensures var offs := VisitOf(img, k, d).offs;
            && VisitOf(img, k, d).parent == k.fs.nodes[d].parent
            && ChainOf(img.inodes[d].contents, offs, MayEnd(img, d, k.fs.nodes[d].parent))
            && (forall o :: o in offs <==> o in k.layouts[d].bounds)
            && |SitesOf(img, d, offs)| == |Names(img.inodes[d].contents, k.layouts[d])|
  {
    hide Good, Coalesced, Indexed, SitesOf, RecordShown, Chained, Names;
    var c, l := img.inodes[d].contents, k.layouts[d];
    WholeWay(c, l);
    Agrees.WalkMeetsAll(img, d, l, ChainFrom(c, l.bounds, 0));
  }

  lemma RecordFollowed(img: Image, k: Kept, d: nat, off: nat, offs: seq<nat>)
    requires Intact(img, k) && Shown(img, k, d) && forall o :: o in offs <==> o in k.layouts[d].bounds
    requires d < |img.inodes|
    ensures (d, off) in Calls(k) <==> (d, off) in SitesOf(img, d, offs)
  {
    hide BlocksIntact, List.ListOf, UnlinkedNodes, OrdinaryNames, Consistent, InodesIntact, Calls, Shown, SiteOf, WellFormed;
    ShownNumber(img, k, d);
    if (d, off) in Calls(k) {
      CallIs(img, k, (d, off));
      var n :| n in k.layouts[d].at && (d, off) == SiteOf(k, (d, n));
      SiteIs(img, k, d, n);
      ShownRecord(img, k, d, n);
    }
    if (d, off) in SitesOf(img, d, offs) {
      RecordNamed(img, k, d, off);
      var n := RecordAt(img.inodes[d].contents, off).name;
      SiteIs(img, k, d, n);
      NameIsCall(k, d, n);
    }
  }

  lemma ShownRecord(img: Image, k: Kept, d: nat, n: string)
    requires Shown(img, k, d) && d in k.layouts && n in k.layouts[d].at
    ensures RecordShown(img, k, d, n)
  {
  }

  lemma NamesCount(img: Image, k: Kept, d: nat)
    requires Intact(img, k) && Shown(img, k, d) && d < |img.inodes|
    ensures |Names(img.inodes[d].contents, k.layouts[d])| == img.inodes[d].dirents
  {
    hide BlocksIntact, List.ListOf, UnlinkedNodes, InodesIntact, OnlyName, RankedAt, Home, Bound, OneParent, Ranked, RecordShown, WellFormed;
    assert CountedAt(k.fs, d);
    var l := k.layouts[d];
    assert Names(img.inodes[d].contents, l).Keys == l.at.Keys;
    var ordinary := l.at.Keys - {".", ".."};
    var m := map n | n in ordinary :: (d, n);
    forall e ensures e in EntriesIn(k.fs.entries, d) <==> exists n :: n in m && m[n] == e {
      if e in EntriesIn(k.fs.entries, d) {
        assert e == (d, e.1) && e.1 in m;
      }
    }
    InjectiveSize(m, EntriesIn(k.fs.entries, d));
    assert m.Keys == ordinary;
    assert "." in l.at && ".." in l.at;
    DisjointUnionSize(ordinary, {".", ".."});
    assert l.at.Keys == ordinary + {".", ".."};
    assert |{".", ".."}| == 2;
  }

  lemma SoundFound(img: Image, k: Kept, d: nat, offs: seq<nat>)
    requires Intact(img, k) && Shown(img, k, d) && d < |img.inodes| && forall o :: o in offs <==> o in k.layouts[d].bounds
    requires |SitesOf(img, d, offs)| == |Names(img.inodes[d].contents, k.layouts[d])|
    ensures DirSound(img, d, k.fs.nodes[d].parent, offs)
  {
    hide BlocksIntact, List.ListOf, UnlinkedNodes, OrdinaryNames, Consistent, InodesIntact, WellFormed, SitesOf, RecordShown, Names;
    NamesCount(img, k, d);
    forall o | o in offs && RecordAt(img.inodes[d].contents, o).ino != 0
      ensures var n := RecordAt(img.inodes[d].contents, o).name;
              n in k.layouts[d].at && k.layouts[d].at[n] == o
    {
      RecordNamed(img, k, d, o);
    }
    hide Shown;
    DotsFound(img, k, d, offs);
  }

  /** What the records at offs say of one name. */
  lemma OneRecord(img: Image, k: Kept, d: nat, offs: seq<nat>, n: string)
    requires Shown(img, k, d) && d < |img.inodes| && DotName(n) && forall o :: o in offs <==> o in k.layouts[d].bounds
    requires forall o :: o in offs && RecordAt(img.inodes[d].contents, o).ino != 0 ==>
               var n := RecordAt(img.inodes[d].contents, o).name; n in k.layouts[d].at && k.layouts[d].at[n] == o
    ensures OnlyOne(img, d, offs, n)
    ensures exists off :: off in offs && LiveNamed(img, d, off, n)
    ensures forall off :: off in offs && LiveNamed(img, d, off, n) ==>
              RecordAt(img.inodes[d].contents, off).ino == if n == "." then d else k.fs.nodes[d].parent
  {
    hide WellFormed;
    ShownRecord(img, k, d, n);
    NamePlace(img.inodes[d].contents, k.layouts[d], n);
    hide Shown;
    assert LiveNamed(img, d, k.layouts[d].at[n], n);
  }

  lemma DotsFound(img: Image, k: Kept, d: nat, offs: seq<nat>)
    requires Shown(img, k, d) && d < |img.inodes| && forall o :: o in offs <==> o in k.layouts[d].bounds
    requires forall o :: o in offs && RecordAt(img.inodes[d].contents, o).ino != 0 ==>
               var n := RecordAt(img.inodes[d].contents, o).name; n in k.layouts[d].at && k.layouts[d].at[n] == o
    ensures DotsFine(img, d, k.fs.nodes[d].parent, offs)
    ensures exists off :: off in offs && LiveNamed(img, d, off, ".")
    ensures exists off :: off in offs && LiveNamed(img, d, off, "..")
  {
    hide Shown, LiveNamed, OnlyOne, RecordAt;
    OneRecord(img, k, d, offs, ".");
    OneRecord(img, k, d, offs, "..");
  }

  // ---------------------------------------------------------------------------
  // The tallies

  /** What an entry followed can be. */
  lemma CallKinds(img: Image, k: Kept, s: Site) returns (n: string)
    requires Intact(img, k) && s in Calls(k)
    ensures || (s == (0, 0) && Target(img, s) == ROOT_INO)
            || (s.0 == 0 && s.1 in k.members && Target(img, s) == s.1 && s.1 != 0)
            || (&& LinkedDir(k.fs, s.0) && s.0 != 0 && s == SiteOf(k, (s.0, n)) && (DotName(n) || (s.0, n) in k.fs.entries)
                && Target(img, s) == LeadsTo(k.fs, s.0, n))
  {
    hide InodesIntact, BlocksIntact, List.ListOf, Consistent, Shown, Calls, SiteOf, LinkedDir, OrdinaryNames, UnlinkedNodes, SetOf, LeadsTo;
    CallIs(img, k, s);
    n := "";
    if s.0 == 0 {
      if s != (0, 0) {
        MembersAre(img, k, s.1);
      }
    } else {
      n :| n in k.layouts[s.0].at && s == SiteOf(k, (s.0, n));
      ShownLinked(img, k, s.0, n);
      SiteIs(img, k, s.0, n);
    }
  }

  lemma DotSite(img: Image, k: Kept, d: nat, n: string)
    requires Intact(img, k) && LinkedDir(k.fs, d) && DotName(n)
    ensures var s := SiteOf(k, (d, n)); s in Calls(k) && s.0 == d && d != 0 && Target(img, s) == LeadsTo(k.fs, d, n)
    ensures d in k.layouts && n in k.layouts[d].at && SiteOf(k, (d, n)) == (d, k.layouts[d].at[n])
  {
    hide InodesIntact, BlocksIntact, List.ListOf, Consistent, Calls, LinkedDir, OrdinaryNames, UnlinkedNodes, SetOf, LeadsTo, WellFormed, RecordShown;
    DirectoryShown(img, k, d);
    ShownNumber(img, k, d);
    assert n in k.layouts[d].at;
    hide Shown, SiteOf;
    SiteIs(img, k, d, n);
    NameIsCall(k, d, n);
  }

  /** Nothing but a file's names leads to it. */
  lemma FileCalls(img: Image, k: Kept, i: nat)
    requires Intact(img, k) && Linked(k.fs, i) && k.fs.nodes[i].kind == FileKind
    ensures |CallsTo(img, Calls(k), i)| == |NamesOf(k.fs.entries, i)|
  {
    hide InodesIntact, BlocksIntact, List.ListOf, Calls, SiteOf, Target, OnlyName, RankedAt, CountedAt, Home, OneParent, Ranked, Counted,
         OrdinaryNames, UnlinkedNodes, SetOf;
    var calls := CallsTo(img, Calls(k), i);
    var m := map e | e in NamesOf(k.fs.entries, i) :: SiteOf(k, e);
    assert m.Keys == NamesOf(k.fs.entries, i);
    forall s ensures s in calls <==> exists e :: e in m && m[e] == s {
      if s in calls {
        var n := CallKinds(img, k, s);
        NotThisFile(img, k, i, s, n);
        assert (s.0, n) in m && m[(s.0, n)] == s;
      }
      if e :| e in m && m[e] == s {
        EntrySite(img, k, e);
      }
    }
    forall e, f | e in m && f in m && e != f ensures m[e] != m[f] {
      EntriesApart(img, k, e, f);
    }
    InjectiveSize(m, calls);
  }

  lemma NotThisFile(img: Image, k: Kept, i: nat, s: Site, n: string)
    requires Intact(img, k) && Linked(k.fs, i) && k.fs.nodes[i].kind == FileKind && Target(img, s) == i
    requires || (s == (0, 0) && Target(img, s) == ROOT_INO)
             || (s.0 == 0 && s.1 in k.members && Target(img, s) == s.1 && s.1 != 0)
             || (&& LinkedDir(k.fs, s.0) && s.0 != 0 && s == SiteOf(k, (s.0, n)) && (DotName(n) || (s.0, n) in k.fs.entries)
                 && Target(img, s) == LeadsTo(k.fs, s.0, n))
    ensures (s.0, n) in k.fs.entries && k.fs.entries[(s.0, n)] == i && s == SiteOf(k, (s.0, n))
  {
    hide InodesIntact, BlocksIntact, List.ListOf, SiteOf, Target, OnlyName, RankedAt, CountedAt, Home, OneParent, Ranked, Counted, UnlinkedNodes, SetOf,
         LeadsTo;
    RootThere(k.fs, k.shape);
    MembersAre(img, k, i);
    if LinkedDir(k.fs, s.0) && (DotName(n) || (s.0, n) in k.fs.entries) {
      TargetsLinked(k.fs, k.shape, s.0, n);
    }
  }

  /** Different entries have different records. */
  lemma EntriesApart(img: Image, k: Kept, e: (nat, string), f: (nat, string))
    requires Intact(img, k) && e in k.fs.entries && f in k.fs.entries && e != f
    ensures SiteOf(k, e) != SiteOf(k, f)
  {
    hide InodesIntact, BlocksIntact, List.ListOf, Consistent, Calls, Target, OrdinaryNames, UnlinkedNodes, SetOf, LeadsTo, Shown;
    EntrySite(img, k, e);
    EntrySite(img, k, f);
    if e.0 == f.0 {
      assert e == (e.0, e.1) && f == (f.0, f.1);
      SitesDiffer(img, k, e.0, e.1, f.1);
    }
  }

  /** An inode on the list is turned to from there, and nothing else leads to it. */
  lemma MemberCalls(img: Image, k: Kept, i: nat)
    requires Intact(img, k) && i in k.members
    ensures |CallsTo(img, Calls(k), i)| == 1
  {
    hide InodesIntact, BlocksIntact, List.ListOf, Consistent, SiteOf, Target, OrdinaryNames, UnlinkedNodes, LeadsTo, RecordSites;
    MembersAre(img, k, i);
    var calls := CallsTo(img, Calls(k), i);
    assert i in SetOf(k.members);
    MemberTarget(img, i);
    assert (0, i) in calls;
    hide Calls;
    forall s | s in calls ensures s == (0, i) {
      var n := CallKinds(img, k, s);
      OnlyFromList(img, k, i, s, n);
    }
    assert calls == {(0, i)};
  }

  lemma MemberTarget(img: Image, i: nat)
    requires i > 0
    ensures Target(img, (0, i)) == i
  {
  }

  lemma OnlyFromList(img: Image, k: Kept, i: nat, s: Site, n: string)
    requires Intact(img, k) && i in k.fs.nodes && k.fs.nodes[i].links == 0 && Target(img, s) == i
    requires || (s == (0, 0) && Target(img, s) == ROOT_INO)
             || (s.0 == 0 && s.1 in k.members && Target(img, s) == s.1 && s.1 != 0)
             || (&& LinkedDir(k.fs, s.0) && s.0 != 0 && s == SiteOf(k, (s.0, n)) && (DotName(n) || (s.0, n) in k.fs.entries)
                 && Target(img, s) == LeadsTo(k.fs, s.0, n))
    ensures s == (0, i)
  {
    hide InodesIntact, BlocksIntact, List.ListOf, SiteOf, Target, OnlyName, RankedAt, CountedAt, Home, OneParent, Ranked, Counted, UnlinkedNodes, SetOf,
         LeadsTo;
    RootThere(k.fs, k.shape);
    if LinkedDir(k.fs, s.0) && (DotName(n) || (s.0, n) in k.fs.entries) {
      TargetsLinked(k.fs, k.shape, s.0, n);
    }
  }

  // ---------------------------------------------------------------------------
  // The tally of a directory

  /** The ".." of the directories in d. */
  ghost function UpSites(k: Kept, d: nat): set<Site> {
    set x | x in LinkedDirs(k.fs) && x != ROOT_INO && k.fs.nodes[x].parent == d :: SiteOf(k, (x, ".."))
  }

  lemma UpCount(img: Image, k: Kept, d: nat)
    requires Intact(img, k) && LinkedDir(k.fs, d)
    ensures |UpSites(k, d)| == |Children(k.fs.entries, DirSet(k.fs), d)|
  {
    hide InodesIntact, BlocksIntact, List.ListOf, SiteOf, RankedAt, CountedAt, Counted, OrdinaryNames, UnlinkedNodes, SetOf, Ranked;
    var children := Children(k.fs.entries, DirSet(k.fs), d);
    var m := map e | e in children :: SiteOf(k, (k.fs.entries[e], ".."));
    assert m.Keys == children;
    forall s ensures s in UpSites(k, d) <==> exists e :: e in m && m[e] == s {
      if s in UpSites(k, d) {
        var x :| x in LinkedDirs(k.fs) && x != ROOT_INO && k.fs.nodes[x].parent == d && s == SiteOf(k, (x, ".."));
        HomeOf(k.fs, k.shape, x);
        var e := (d, k.shape.nameOf[x]);
        assert e in m && m[e] == s;
      }
      if e :| e in m && m[e] == s {
        ChildIs(k.fs, k.shape, e);
        assert k.fs.entries[e] in LinkedDirs(k.fs);
      }
    }
    forall e, f | e in m && f in m && e != f ensures m[e] != m[f] {
      ChildIs(k.fs, k.shape, e);
      ChildIs(k.fs, k.shape, f);
      DotSite(img, k, k.fs.entries[e], "..");
      DotSite(img, k, k.fs.entries[f], "..");
    }
    InjectiveSize(m, UpSites(k, d));
  }

  /** An entry that leads to a directory is that directory's home. */
  lemma ChildIs(fs: Fs, s: Shape, e: (nat, string))
    requires Consistent(fs, s) && e in fs.entries && fs.entries[e] in DirSet(fs)
    ensures var x := fs.entries[e]; LinkedDir(fs, x) && x != ROOT_INO && fs.nodes[x].parent == e.0 && x in s.nameOf && s.nameOf[x] == e.1
  {
    hide RankedAt, CountedAt, Counted, Home, Ranked;
    assert OnlyName(fs, s, e);
  }

  /** To a directory lead its own ".", its name (the root has its own ".." and the checker's turning to it), and the ".." of the directories in it. */
  lemma DirCallsAre(img: Image, k: Kept, d: nat)
    requires Intact(img, k) && LinkedDir(k.fs, d)
    ensures CallsTo(img, Calls(k), d) ==
            UpSites(k, d) + {SiteOf(k, (d, "."))} + (if d == ROOT_INO then {(0, 0), SiteOf(k, (d, ".."))} else {FirstSite(k, d)})
  {
    hide InodesIntact, BlocksIntact, List.ListOf, Calls, SiteOf, RankedAt, CountedAt, Home, Ranked, Counted, UnlinkedNodes, SetOf, UpSites, OneParent,
         Bound, Target, LinkedDir, FirstSite;
    var all := UpSites(k, d) + {SiteOf(k, (d, "."))} + (if d == ROOT_INO then {(0, 0), SiteOf(k, (d, ".."))} else {FirstSite(k, d)});
    forall s | s in CallsTo(img, Calls(k), d) ensures s in all {
      DirCall(img, k, d, s);
    }
    forall s | s in all ensures s in CallsTo(img, Calls(k), d) {
      DirCallBack(img, k, d, s);
    }
  }

  lemma DirCall(img: Image, k: Kept, d: nat, s: Site)
    requires Intact(img, k) && LinkedDir(k.fs, d) && s in Calls(k) && Target(img, s) == d
    ensures || s in UpSites(k, d) || s == SiteOf(k, (d, ".")) || (d != ROOT_INO && s == FirstSite(k, d))
            || (d == ROOT_INO && (s == (0, 0) || s == SiteOf(k, (d, ".."))))
  {
    hide InodesIntact, BlocksIntact, List.ListOf, Calls, SiteOf, RankedAt, CountedAt, Home, Ranked, Counted, UnlinkedNodes, SetOf, Target, OneParent, Bound;
    var n := CallKinds(img, k, s);
    RootThere(k.fs, k.shape);
    MembersAre(img, k, d);
    if s.0 != 0 && n == ".." {
      UpOrRoot(k, s.0, d);
    } else if s.0 != 0 && n != "." {
      ChildIs(k.fs, k.shape, (s.0, n));
      HomeSite(img, k, d);
    }
  }

  lemma UpOrRoot(k: Kept, x: nat, d: nat)
    requires LinkedDir(k.fs, x) && k.fs.nodes[x].parent == d
    ensures x == ROOT_INO || SiteOf(k, (x, "..")) in UpSites(k, d)
  {
    assert x in LinkedDirs(k.fs);
  }

  lemma DirCallBack(img: Image, k: Kept, d: nat, s: Site)
    requires Intact(img, k) && LinkedDir(k.fs, d)
    requires || s in UpSites(k, d) || s == SiteOf(k, (d, ".")) || (d != ROOT_INO && s == FirstSite(k, d))
             || (d == ROOT_INO && (s == (0, 0) || s == SiteOf(k, (d, ".."))))
    ensures s in Calls(k) && Target(img, s) == d
  {
    hide InodesIntact, BlocksIntact, List.ListOf, SiteOf, RankedAt, CountedAt, Home, Ranked, Counted, UnlinkedNodes, SetOf, OneParent, Bound, RecordSites;
    RootThere(k.fs, k.shape);
    assert (0, 0) in Calls(k) && Target(img, (0, 0)) == ROOT_INO;
    hide Calls, Target;
    DotSite(img, k, d, ".");
    DotSite(img, k, d, "..");
    if s in UpSites(k, d) {
      var x :| x in LinkedDirs(k.fs) && x != ROOT_INO && k.fs.nodes[x].parent == d && s == SiteOf(k, (x, ".."));
      DotSite(img, k, x, "..");
    } else if d != ROOT_INO && s == FirstSite(k, d) {
      HomeSite(img, k, d);
    }
  }

  lemma DirCalls(img: Image, k: Kept, d: nat)
    requires Intact(img, k) && LinkedDir(k.fs, d)
    ensures |CallsTo(img, Calls(k), d)| == 2 + |Children(k.fs.entries, DirSet(k.fs), d)| + (if d == ROOT_INO then 1 else 0)
  {
    hide InodesIntact, BlocksIntact, List.ListOf, Consistent, SiteOf, UnlinkedNodes, SetOf, Calls, UpSites, Children, CallsTo, FirstSite, LinkedDir,
         OrdinaryNames;
    DirCallsAre(img, k, d);
    UpCount(img, k, d);
    UpApart(img, k, d);
    var dot, ups := SiteOf(k, (d, ".")), UpSites(k, d);
    DisjointUnionSize(ups, {dot});
    if d == ROOT_INO {
      var two: set<Site> := {(0, 0), SiteOf(k, (d, ".."))};
      DisjointUnionSize(ups + {dot}, two);
      assert |two| == 2;
    } else {
      DisjointUnionSize(ups + {dot}, {FirstSite(k, d)});
    }
  }

  /** These are all different records. */
  lemma UpApart(img: Image, k: Kept, d: nat)
    requires Intact(img, k) && LinkedDir(k.fs, d)
    ensures var dot, dotdot, ups := SiteOf(k, (d, ".")), SiteOf(k, (d, "..")), UpSites(k, d);
            && dot !in ups && dot != dotdot && dot.0 != 0 && dotdot.0 != 0 && (0, 0) !in ups
            && (d == ROOT_INO ==> dotdot !in ups)
            && (d != ROOT_INO ==> FirstSite(k, d) !in ups && FirstSite(k, d) != dot)
  {
    hide InodesIntact, BlocksIntact, List.ListOf, CountedAt, Counted, UnlinkedNodes, SetOf, Calls, OnlyName, Home, OneParent, Bound, OrdinaryNames,
         Shown, FirstSite, Target, SiteOf;
    DotSite(img, k, d, ".");
    DotSite(img, k, d, "..");
    DotsApart(img, k, d);
    forall s | s in UpSites(k, d)
      ensures s.0 != d && s.0 != 0 && s.0 != ROOT_INO && (d != ROOT_INO ==> s != FirstSite(k, d))
    {
      var x :| x in LinkedDirs(k.fs) && x != ROOT_INO && k.fs.nodes[x].parent == d && s == SiteOf(k, (x, ".."));
      DotSite(img, k, x, "..");
      HomeOf(k.fs, k.shape, x);
      if d != ROOT_INO {
        HomeOf(k.fs, k.shape, d);
        HomeSite(img, k, d);
      }
    }
    if d != ROOT_INO {
      HomeOf(k.fs, k.shape, d);
      HomeSite(img, k, d);
    }
  }

  lemma DotsApart(img: Image, k: Kept, d: nat)
    requires Intact(img, k) && LinkedDir(k.fs, d)
    ensures SiteOf(k, (d, ".")) != SiteOf(k, (d, ".."))
  {
    hide InodesIntact, BlocksIntact, List.ListOf, Consistent, UnlinkedNodes, SetOf, Calls, OrdinaryNames, Shown;
    DotSite(img, k, d, ".");
    DotSite(img, k, d, "..");
    DirectoryShown(img, k, d);
    SitesDiffer(img, k, d, ".", "..");
  }

  // ---------------------------------------------------------------------------
  // Intact images are acceptable

  lemma TallyFound(img: Image, k: Kept, i: nat)
    requires Intact(img, k) && 0 < i < |img.inodes|
    ensures var c := Findings(img, k);
            Offset(c, i) + |CallsTo(img, c.calls, i)| == (if i in c.inodes then img.inodes[i].links else 0)
  {
    hide InodesIntact, BlocksIntact, List.ListOf, Calls, OnlyName, RankedAt, Home, OneParent, Ranked, Bound, OwnersOf, BlockAt, VisitOf, RankOf, FirstSite,
         CallsTo, UnlinkedNodes, OrdinaryNames, NamesOf, Children;
    RootThere(k.fs, k.shape);
    MembersAre(img, k, i);
    assert i in SetOf(k.members) <==> i in k.members;
    if i !in k.fs.nodes {
      NobodyThere(img, k, i);
    } else {
      KindOf(img, k, i);
      assert CountedAt(k.fs, i);
      if i in k.members {
        MemberCalls(img, k, i);
      } else if k.fs.nodes[i].kind == FileKind {
        FileCalls(img, k, i);
      } else {
        DirCalls(img, k, i);
      }
    }
  }

  lemma NobodyThere(img: Image, k: Kept, i: nat)
    requires Intact(img, k) && 0 < i && i !in k.fs.nodes
    ensures CallsTo(img, Calls(k), i) == {}
  {
    hide Intact, Calls, Target;
    forall s | s in Calls(k) ensures Target(img, s) != i {
      OneCall(img, k, s);
    }
  }

  lemma LinksFound(img: Image, k: Kept)
    requires Intact(img, k)
    ensures LinksInv(img, Findings(img, k))
  {
    hide InodesIntact, BlocksIntact, List.ListOf, Consistent, Calls, OwnersOf, BlockAt, VisitOf, RankOf, FirstSite, CallsTo, UnlinkedNodes, OrdinaryNames,
         SetOf, Offset;
    var c := Findings(img, k);
    forall i | 0 < i < |img.inodes|
      ensures c.links[i - 1] == Offset(c, i) + |CallsTo(img, c.calls, i)| - (if i in c.inodes then img.inodes[i].links else 0)
    {
      TallyFound(img, k, i);
    }
  }

  lemma SettledFound(img: Image, k: Kept)
    requires Intact(img, k)
    ensures Settled(img, Findings(img, k), k.members)
  {
    hide InodesIntact, BlocksIntact, List.ListOf, Consistent, OwnersOf, BlockAt, VisitOf, RankOf, UnlinkedNodes, OrdinaryNames, BlocksInv, FilesInv,
         InodesInv, LinksInv, CallsInv, MetInv, FlagInv, FsckSpec.Complete, Calls, FirstSite, SetOf;
    var c := Findings(img, k);
    BlocksFound(img, k);
    FilesFound(img, k);
    InodesFound(img, k);
    LinksFound(img, k);
    CallsFound(img, k);
    MetFound(img, k);
    RootFound(img, k);
    forall d | d in c.inodes && d != 0 ensures FsckSpec.Complete(img, c, d) {
      CompleteFound(img, k, d);
    }
    forall j: nat ensures (0, j) in c.calls <==> j == 0 || j in k.members {
      TopCalls(img, k, j);
    }
    forall j | j in k.members ensures MemberMet(img, c, j) {
      MemberFound(img, k, j);
    }
  }

  lemma RootFound(img: Image, k: Kept)
    requires Intact(img, k)
    ensures 1 in k.fs.nodes && FirstSite(k, 1) == (0, 0) && IsDir(img, 1)
  {
    hide InodesIntact, BlocksIntact, List.ListOf, Consistent, UnlinkedNodes, OrdinaryNames, SetOf;
    RootThere(k.fs, k.shape);
    KindOf(img, k, 1);
  }

  lemma TopCalls(img: Image, k: Kept, j: nat)
    requires Intact(img, k)
    ensures (0, j) in Calls(k) <==> j == 0 || j in k.members
  {
    hide InodesIntact, BlocksIntact, List.ListOf, Consistent, UnlinkedNodes, OrdinaryNames;
    if 0 in LinkedDirs(k.fs) {
      InRange(img, k, 0);
    }
  }

  lemma MemberFound(img: Image, k: Kept, j: nat)
    requires Intact(img, k) && j in k.members
    ensures MemberMet(img, Findings(img, k), j)
  {
    hide InodesIntact, BlocksIntact, List.ListOf, Consistent, OwnersOf, BlockAt, VisitOf, RankOf, UnlinkedNodes, OrdinaryNames, Calls, SetOf;
    MembersAre(img, k, j);
    RootThere(k.fs, k.shape);
  }

  /** The checker accepts every image that is intact. */
  lemma IntactIsAcceptable(img: Image, k: Kept)
    requires Intact(img, k)
    ensures Accepted(img, Findings(img, k), k.members) && Complete.Acceptable(img)
  {
    hide Consistent, Settled, OwnersOf, BlockAt, VisitOf, RankOf, Calls, FirstSite, InodeIntact, DirectoryIntact, BlocksIntact, Intact;
    SettledFound(img, k);
    VerdictFound(img, k);
    Complete.IsAcceptable(img, Findings(img, k), k.members);
  }

  lemma VerdictFound(img: Image, k: Kept)
    requires Intact(img, k) && Settled(img, Findings(img, k), k.members)
    ensures Accepted(img, Findings(img, k), k.members)
  {
    hide Consistent, Settled, OwnersOf, BlockAt, VisitOf, RankOf, Calls, FirstSite, InodeIntact, DirectoryIntact, BlocksIntact;
  }
}
