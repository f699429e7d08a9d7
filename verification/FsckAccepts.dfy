/** What follows when the checker finds no fault: the image is consistent as a whole. */
module FsckAccepts {
  import opened Sets
  import opened PointerTree
  import opened BlocksShrink
  import opened TransactionLimits
  import opened DirectoryRecords
  import opened FsckSpec
  import opened FsckLaws
  import List = UnlinkedList

  // ---------------------------------------------------------------------------
  // Blocks

  /** The block in a certain place of an inode's pointers, 0 for none. */
  ghost function BlockAt(img: Image, o: Owner): nat {
    if o.ino >= |img.inodes| then 0
    else
      var t := TreeOf(img, img.inodes[o.ino].pointers);
      match o.use
      case PointerUse(f) => if f < POINTER_BLOCKS then Parent(t, f) else 0
      case DataUse(n) => if n < MAX_BLOCKS then Lookup(t, n) else 0
  }

  /** Inode i was met, and is not the reserved one. */
  ghost predicate InUse(c: Checked, i: nat) {
    i in c.inodes && i != 0
  }

  lemma OwnersAre(img: Image, c: Checked, o: Owner)
    requires CheckerInv(img, c, {})
    ensures o in c.owners <==> InUse(c, o.ino) && BlockAt(img, o) != 0
    ensures o in c.owners ==> c.owners[o] == BlockAt(img, o)
  {
    hide BlocksInv, LinksInv, CallsInv, InodesInv, MetInv, InodeSound, Owned, BlockAt;
    if InUse(c, o.ino) {
      assert o.ino in c.inodes - {0} - {};
      assert OwnersExact(img, c.owners, o.ino);
      OwnedIs(img, o);
    }
  }

  lemma OwnedIs(img: Image, o: Owner)
    requires o.ino < |img.inodes|
    ensures var all := Owned(TreeOf(img, img.inodes[o.ino].pointers), o.ino, POINTER_BLOCKS, MAX_BLOCKS);
            && (o in all <==> BlockAt(img, o) != 0) && (o in all ==> all[o] == BlockAt(img, o))
            && o == Owner(o.ino, o.use)
  {
    hide Parent, Lookup;
  }

  /** No block is in use twice, be it by two inodes or by one. */
  lemma OneOwner(img: Image, c: Checked, members: seq<nat>, o: Owner, p: Owner)
    requires Accepted(img, c, members) && InUse(c, o.ino) && InUse(c, p.ino) && BlockAt(img, o) != 0 && o != p
    ensures ValidBlock(img, BlockAt(img, o)) && BlockAt(img, o) != BlockAt(img, p)
  {
    hide BlockAt, FilesInv, LinksInv, CallsInv, InodesInv, MetInv, Complete;
    OwnersAre(img, c, o);
    OwnersAre(img, c, p);
  }

  /** The block bitmap marks block 0 and what the inodes use, and nothing else. */
  lemma BlockBitmapExact(img: Image, c: Checked, members: seq<nat>, b: nat)
    requires Accepted(img, c, members) && b < img.blockCount
    ensures b in img.blockBits <==> b == 0 || exists o: Owner :: InUse(c, o.ino) && BlockAt(img, o) == b
  {
    hide BlockAt, FilesInv, LinksInv, CallsInv, InodesInv, MetInv, Complete, ValidBlock;
    if b in img.blockBits && b != 0 {
      var o :| o in c.owners && ValidBlock(img, c.owners[o]) && c.owners[o] == b;
      OwnersAre(img, c, o);
    }
    forall o: Owner | InUse(c, o.ino) && BlockAt(img, o) == b && b != 0 ensures b in img.blockBits {
      OwnersAre(img, c, o);
      assert ValidBlock(img, c.owners[o]);
      IsMarked(img, b);
    }
  }

  lemma IsMarked(img: Image, b: nat)
    requires ValidBlock(img, b)
    ensures b in img.blockBits
  {
  }

  /** The blocks of all inodes in use below n, by their own counts. */
  ghost function SumBlocks(img: Image, inodes: set<nat>, n: nat): nat
    requires n <= |img.inodes|
  {
    if n == 0 then 0
    else SumBlocks(img, inodes, n - 1) + if n - 1 != 0 && n - 1 in inodes then img.inodes[n - 1].blocks else 0
  }

  ghost function OwnersBelow(owners: map<Owner, nat>, n: nat): set<Owner> {
    set o | o in owners && o.ino < n
  }

  /** The superblock's block count is that of the reserved block and all inodes together. */
  lemma BlockCountIsSum(img: Image, c: Checked, members: seq<nat>)
    requires Accepted(img, c, members)
    ensures img.allocBlocks == 1 + SumBlocks(img, c.inodes, |img.inodes|)
  {
    hide FilesInv, LinksInv, CallsInv, MetInv, Complete, Fresh, ValidValues, SumBlocks;
    CheckedCount(img, c);
    OwnersSum(img, c, |img.inodes|);
    AllBelow(img, c);
  }

  lemma AllBelow(img: Image, c: Checked)
    requires CheckerInv(img, c, {})
    ensures OwnersBelow(c.owners, |img.inodes|) == c.owners.Keys
  {
    hide BlocksInv, LinksInv, CallsInv, MetInv, OwnersExact, InodeSound;
  }

  lemma CheckedCount(img: Image, c: Checked)
    requires BlocksInv(img, c) && c.conforming
    ensures c.allocBlocks == 1 + |c.owners.Keys|
  {
    var values := ValidValues(img, c.owners);
    assert forall o :: o in c.owners ==> ValidBlock(img, c.owners[o]);
    InjectiveSize(c.owners, values);
    assert 0 !in values;
    DisjointUnionSize({0}, values);
  }

  lemma {:induction false} OwnersSum(img: Image, c: Checked, n: nat)
    requires CheckerInv(img, c, {}) && c.conforming && n <= |img.inodes|
    ensures |OwnersBelow(c.owners, n)| == SumBlocks(img, c.inodes, n)
  {
    if n == 0 {
      assert OwnersBelow(c.owners, 0) == {};
    } else {
      OwnersSum(img, c, n - 1);
      OwnersStep(img, c, n - 1);
    }
  }

  lemma OwnersStep(img: Image, c: Checked, i: nat)
    requires CheckerInv(img, c, {}) && c.conforming && i < |img.inodes|
    ensures |OwnersBelow(c.owners, i + 1)| == |OwnersBelow(c.owners, i)| + if InUse(c, i) then img.inodes[i].blocks else 0
  {
    hide BlocksInv, LinksInv, CallsInv, MetInv, InodesInv, Parent, Lookup, Owned, OwnersExact, SizeCovers, Occupied;
    var own := set o | o in c.owners && o.ino == i;
    assert OwnersBelow(c.owners, i + 1) == OwnersBelow(c.owners, i) + own;
    DisjointUnionSize(OwnersBelow(c.owners, i), own);
    if InUse(c, i) {
      var t := TreeOf(img, img.inodes[i].pointers);
      assert OwnersExact(img, c.owners, i) && InodeSound(img, i);
      OwnKeys(img, c.owners, i, own);
      OwnedSize(t, i, POINTER_BLOCKS, MAX_BLOCKS);
      OwnedAll(t);
    } else {
      assert own == {};
    }
  }

  lemma OwnKeys(img: Image, owners: map<Owner, nat>, i: nat, own: set<Owner>)
    requires i < |img.inodes| && OwnersExact(img, owners, i) && forall o :: o in own <==> o in owners && o.ino == i
    ensures own == Owned(TreeOf(img, img.inodes[i].pointers), i, POINTER_BLOCKS, MAX_BLOCKS).Keys
  {
    var all := Owned(TreeOf(img, img.inodes[i].pointers), i, POINTER_BLOCKS, MAX_BLOCKS);
    OwnedIsOwn(TreeOf(img, img.inodes[i].pointers), i);
    hide Owned;
    forall o ensures o in own <==> o in all {
      if o.ino == i {
        assert o == Owner(i, o.use);
      }
    }
  }

  lemma {:induction false} OwnedSize(t: Tree, ino: nat, p: nat, q: nat)
    requires p <= POINTER_BLOCKS && q <= MAX_BLOCKS && (q > 0 ==> p == POINTER_BLOCKS)
    ensures |Owned(t, ino, p, q).Keys| == OwnedCount(t, p, q)
    decreases p + q
  {
    hide Parent, Lookup, Owned, OwnedCount;
    if q > 0 {
      OwnedSize(t, ino, p, q - 1);
      OwnedData(t, ino, q - 1, q);
      KeysMore(Owned(t, ino, p, q - 1), Owner(ino, DataUse(q - 1)), Lookup(t, q - 1));
    } else if p > 0 {
      OwnedSize(t, ino, p - 1, 0);
      OwnedPointer(t, ino, p - 1);
      KeysMore(Owned(t, ino, p - 1, 0), Owner(ino, PointerUse(p - 1)), Parent(t, p - 1));
    } else {
      OwnedNone(t, ino);
    }
  }

  lemma KeysMore(m: map<Owner, nat>, o: Owner, b: nat)
    requires o !in m
    ensures |m[o := b].Keys| == |m.Keys| + 1
  {
    assert m[o := b].Keys == m.Keys + {o};
  }

  // ---------------------------------------------------------------------------
  // Inodes and links

  /** The inode bitmap marks the reserved inode and those met, and the superblock counts them. */
  lemma InodeBitmapExact(img: Image, c: Checked, members: seq<nat>)
    requires Accepted(img, c, members)
    ensures forall i :: 0 <= i < |img.inodes| ==> (i in img.inodeBits <==> i == 0 || InUse(c, i))
    ensures img.allocInodes == |c.inodes| && c.inodes <= Below(|img.inodes|)
  {
    hide BlocksInv, FilesInv, LinksInv, CallsInv, MetInv, Complete;
  }

  /** A live record of a directory in use. */
  ghost predicate Entry(img: Image, c: Checked, s: Site) {
    && s.0 != 0 && InUse(c, s.0) && IsDir(img, s.0) && s.0 in c.visits && s.1 in c.visits[s.0].offs
    && RecordAt(img.inodes[s.0].contents, s.1).ino != 0
  }

  /** The entries the walk followed are all there are. */
  lemma EntriesFollowed(img: Image, c: Checked, members: seq<nat>, s: Site)
    requires Accepted(img, c, members)
    ensures Entry(img, c, s) <==> s in c.calls && s.0 != 0
    ensures Entry(img, c, s) ==> InUse(c, Target(img, s))
  {
    hide InodesInv, BlocksInv, FilesInv, LinksInv, MetInv, DirSound, ChainOf, MemberMet;
    if s.0 != 0 && (s in c.calls || Entry(img, c, s)) {
      assert Complete(img, c, s.0);
      assert s == (s.0, s.1);
    }
  }

  ghost function EntriesTo(img: Image, c: Checked, i: nat): set<Site> {
    set s | s in c.calls && Entry(img, c, s) && Target(img, s) == i
  }

  /** An inode's link count is the number of entries that lead to it, unless it is on the unlinked list. */
  lemma LinkCountExact(img: Image, c: Checked, members: seq<nat>, i: nat)
    requires Accepted(img, c, members) && InUse(c, i) && i !in members
    ensures i < |img.inodes| && img.inodes[i].links == |EntriesTo(img, c, i)|
  {
    CallsAndEntries(img, c, members, i);
    TallyIsEven(img, c, members, i);
  }

  lemma TallyIsEven(img: Image, c: Checked, members: seq<nat>, i: nat)
    requires Accepted(img, c, members) && InUse(c, i) && i !in members
    ensures i < |img.inodes| && img.inodes[i].links + (if i == 1 then 1 else 0) == |CallsTo(img, c.calls, i)|
  {
    hide BlocksInv, FilesInv, CallsInv, MetInv, FlagInv, Complete, MemberMet, CallsTo;
    assert c.links[i - 1] == 0;
  }

  lemma CallsAndEntries(img: Image, c: Checked, members: seq<nat>, i: nat)
    requires Accepted(img, c, members) && InUse(c, i) && i !in members
    ensures |CallsTo(img, c.calls, i)| == |EntriesTo(img, c, i)| + (if i == 1 then 1 else 0)
  {
    hide Accepted, Entry, Target;
    var to := EntriesTo(img, c, i);
    forall s ensures s in CallsTo(img, c.calls, i) <==> s in to || (i == 1 && s == (0, 0)) {
      EntriesFollowed(img, c, members, s);
      TopOf(img, c, members, i, s);
    }
    assert (0, 0) !in to by { EntriesFollowed(img, c, members, (0, 0)); }
    assert CallsTo(img, c.calls, i) == to + (if i == 1 then {(0, 0)} else {});
  }

  /** Of the inodes turned to, only the root is not on the unlinked list. */
  lemma TopOf(img: Image, c: Checked, members: seq<nat>, i: nat, s: Site)
    requires Accepted(img, c, members) && i !in members
    ensures s in c.calls && s.0 == 0 && Target(img, s) == i ==> i == 1 && s == (0, 0)
    ensures (0, 0) in c.calls && Target(img, (0, 0)) == 1
  {
    hide CheckerInv, Complete, MemberMet;
    assert s.0 == 0 ==> s == (0, s.1);
  }

  /** Every inode in use hangs, over directories met before it, on the root or on the unlinked list. */
  lemma EveryInodeIsReached(img: Image, c: Checked, members: seq<nat>, i: nat)
    requires Accepted(img, c, members) && InUse(c, i)
    ensures i in c.met && (Entry(img, c, c.met[i].site) || i == 1 || i in members)
    ensures Entry(img, c, c.met[i].site) ==>
              var d := c.met[i].site.0;
              Target(img, c.met[i].site) == i && d in c.met && c.met[d].rank < c.met[i].rank
  {
    hide InodesInv, BlocksInv, FilesInv, LinksInv, Complete, MemberMet, Entry;
    assert MetBefore(img, c, i);
    EntriesFollowed(img, c, members, c.met[i].site);
    var s := c.met[i].site;
    assert s.0 == 0 ==> s == (0, s.1);
  }

  // ---------------------------------------------------------------------------
  // The tree of directories

  ghost predicate UsedDir(img: Image, c: Checked, d: nat) {
    InUse(c, d) && IsDir(img, d)
  }

  /** The directory that d's ".." is to lead to. */
  ghost function ParentDir(c: Checked, d: nat): nat
    requires d in c.met
  {
    ParentOf(c.met[d].site)
  }

  lemma DirFacts(img: Image, c: Checked, members: seq<nat>, d: nat)
    requires Accepted(img, c, members) && UsedDir(img, c, d)
    ensures d in c.met && d in c.visits && DirSound(img, d, ParentDir(c, d), c.visits[d].offs)
    ensures MetBefore(img, c, d)
  {
    hide InodesInv, BlocksInv, FilesInv, LinksInv, CallsInv, DirSound, ChainOf, SitesOf, MemberMet;
    assert Complete(img, c, d);
  }

  /** A directory was not met along an entry named "." or "..". */
  lemma MetByName(img: Image, c: Checked, members: seq<nat>, d: nat)
    requires Accepted(img, c, members) && UsedDir(img, c, d) && d in c.met && c.met[d].site.0 != 0
    ensures NamedSite(img, c.met[d].site) && Entry(img, c, c.met[d].site) && UsedDir(img, c, ParentDir(c, d))
  {
    hide Accepted, SitesOf;
    DirFacts(img, c, members, d);
    var s := c.met[d].site;
    EntriesFollowed(img, c, members, s);
    var p := s.0;
    DirFacts(img, c, members, p);
    RootIsMet(img, c, members);
    var q := ParentDir(c, p);
    assert !LiveNamed(img, p, s.1, ".") || d == p;
    assert !LiveNamed(img, p, s.1, "..") || d == q;
  }

  lemma RootIsMet(img: Image, c: Checked, members: seq<nat>)
    requires Accepted(img, c, members)
    ensures 1 in c.met && c.met[1].site == (0, 0) && UsedDir(img, c, 1)
  {
  }

  /** Where a directory was met: the root by itself, one on the unlinked list from there, all others by name. */
  lemma MetFrom(img: Image, c: Checked, members: seq<nat>, d: nat)
    requires Accepted(img, c, members) && UsedDir(img, c, d)
    ensures d in c.met && (c.met[d].site.0 == 0 <==> d == 1 || d in members)
    ensures d in members ==> c.met[d].site == (0, d)
    ensures d == 1 ==> c.met[d].site == (0, 0) && d !in members
  {
    hide InodesInv, BlocksInv, FilesInv, LinksInv, Complete;
    assert MetBefore(img, c, d);
    var s := c.met[d].site;
    assert s.0 == 0 ==> s == (0, s.1);
    assert d in members ==> MemberMet(img, c, d);
  }

  /**
   Every directory in use but the root and the unlinked ones has exactly one ordinary name. It is
   in the directory its ".." leads to, which is nearer to the root.
   */
  lemma DirectoryHasOneName(img: Image, c: Checked, members: seq<nat>, d: nat)
    requires Accepted(img, c, members) && UsedDir(img, c, d) && d != 1 && d !in members
    ensures d in c.met && UsedDir(img, c, ParentDir(c, d)) && ParentDir(c, d) in c.met
    ensures c.met[ParentDir(c, d)].rank < c.met[d].rank
    ensures Entry(img, c, c.met[d].site) && c.met[d].site.0 == ParentDir(c, d) && Target(img, c.met[d].site) == d
    ensures forall s :: Entry(img, c, s) && NamedSite(img, s) && Target(img, s) == d ==> s == c.met[d].site
  {
    hide Accepted, Entry, NamedSite, Target;
    MetFrom(img, c, members, d);
    MetByName(img, c, members, d);
    DirFacts(img, c, members, d);
    OnlyFirstNames(img, c, members, d);
  }

  /** The root and the unlinked directories have none. */
  lemma OthersHaveNoName(img: Image, c: Checked, members: seq<nat>, d: nat, s: Site)
    requires Accepted(img, c, members) && UsedDir(img, c, d) && (d == 1 || d in members)
    requires Entry(img, c, s) && NamedSite(img, s)
    ensures Target(img, s) != d
  {
    hide Accepted, NamedSite, Target;
    MetFrom(img, c, members, d);
    OnlyFirstNames(img, c, members, d);
  }

  lemma OnlyFirstNames(img: Image, c: Checked, members: seq<nat>, d: nat)
    requires Accepted(img, c, members) && UsedDir(img, c, d)
    ensures d in c.met
    ensures forall s :: Entry(img, c, s) && NamedSite(img, s) && Target(img, s) == d ==> s == c.met[d].site
  {
    hide InodesInv, BlocksInv, FilesInv, LinksInv, Complete, Entry, NamedSite, Target, MetBefore, MemberMet;
    assert d in c.met;
    forall s | Entry(img, c, s) && NamedSite(img, s) && Target(img, s) == d ensures s == c.met[d].site {
      EntriesFollowed(img, c, members, s);
      assert FirstName(img, c, s);
    }
  }

  // ---------------------------------------------------------------------------
  // Sizes and records

  /** An inode in use is a file or a directory, and its size reaches into every data block it has. */
  lemma SizeReachesBlocks(img: Image, c: Checked, members: seq<nat>, i: nat, n: nat)
    requires Accepted(img, c, members) && InUse(c, i)
    ensures i < |img.inodes| && (img.inodes[i].magic == MagicFile || img.inodes[i].magic == MagicDir)
    ensures n < MAX_BLOCKS && BlockAt(img, Owner(i, DataUse(n))) != 0 ==> n * BLOCK_SIZE < img.inodes[i].size
  {
    hide BlocksInv, LinksInv, CallsInv, MetInv, FlagInv, Complete, OwnersExact, Lookup, Occupied, MemberMet;
    assert i in c.inodes - {0} - {};
  }

  /** A record in full: within the directory, with a name of its own size if it is in use, and aligned unless it is the last. */
  ghost predicate Whole(img: Image, d: nat, off: nat)
    requires d < |img.inodes|
  {
    var r, size := RecordAt(img.inodes[d].contents, off), img.inodes[d].contents.size;
    && off + DIRENT_SIZE <= size
    && (r.ino != 0 ==> r.name != "" && off + DIRENT_SIZE + |r.name| <= size)
    && (!r.last ==> r.reclen % ALIGNMENT == 0 && DirentSize(|r.name|) <= DirentSize(MAX_NAME) && DIRENT_SIZE + |r.name| <= r.reclen)
  }

  ghost predicate NoGap(c: Contents, offs: seq<nat>, k: nat)
    requires 0 < k < |offs|
  {
    var before := RecordAt(c, offs[k - 1]);
    !before.last && offs[k] == offs[k - 1] + before.reclen
  }

  /** The records of a directory in use follow each other without a gap from its start, and only the last is marked as such. */
  lemma RecordsAreWhole(img: Image, c: Checked, members: seq<nat>, d: nat)
    requires Accepted(img, c, members) && UsedDir(img, c, d)
    ensures d in c.visits && d < |img.inodes|
    ensures var all, contents := c.visits[d].offs, img.inodes[d].contents;
            && (forall k :: 0 <= k < |all| ==> Whole(img, d, all[k]))
            && (forall k :: 0 < k < |all| ==> NoGap(contents, all, k))
            && (all != [] ==> all[0] == 0)
            && (img.inodes[d].links > 0 ==> all != [] && RecordAt(contents, all[|all| - 1]).last)
  {
    hide Accepted, Readable, Whole;
    DirChain(img, c, members, d);
    var all, contents := c.visits[d].offs, img.inodes[d].contents;
    forall k | 0 <= k < |all| ensures Whole(img, d, all[k]) {
      ReadableIsWhole(img, d, all[k]);
    }
    forall k | 0 < k < |all| ensures NoGap(contents, all, k) {
      assert Follows(contents, all, k);
    }
  }

  lemma ReadableIsWhole(img: Image, d: nat, off: nat)
    requires d < |img.inodes| && Readable(img.inodes[d].contents, off)
    ensures Whole(img, d, off)
  {
  }

  /** The live records of directory d under a name. */
  ghost function UnderName(img: Image, c: Checked, d: nat, name: string): set<Site> {
    set s | s in c.calls && Entry(img, c, s) && s.0 == d && s.0 < |img.inodes|
            && RecordAt(img.inodes[s.0].contents, s.1).name == name
  }

  ghost function LiveIn(img: Image, c: Checked, d: nat): set<Site> {
    set s | s in c.calls && Entry(img, c, s) && s.0 == d
  }

  /** A directory in use counts its entries, and has one "." that leads to it and one ".." that leads to its parent; without links it has no entry. */
  lemma EntriesCounted(img: Image, c: Checked, members: seq<nat>, d: nat)
    requires Accepted(img, c, members) && UsedDir(img, c, d)
    ensures img.inodes[d].dirents == |LiveIn(img, c, d)|
    ensures img.inodes[d].links == 0 ==> LiveIn(img, c, d) == {}
    ensures d in c.met && (img.inodes[d].links > 0 ==>
              (exists s :: UnderName(img, c, d, ".") == {s} && Target(img, s) == d)
              && (exists s :: UnderName(img, c, d, "..") == {s} && Target(img, s) == ParentDir(c, d)))
  {
    hide Accepted, DirSound, SitesOf, LiveIn, UnderName;
    DirFacts(img, c, members, d);
    EntriesAreSites(img, c, members, d);
    DotNamed(img, c, members, d, ".", d);
    DotNamed(img, c, members, d, "..", ParentDir(c, d));
    CountsOf(img, c, members, d);
  }

  lemma CountsOf(img: Image, c: Checked, members: seq<nat>, d: nat)
    requires d < |img.inodes| && d in c.visits && d in c.met && DirSound(img, d, ParentDir(c, d), c.visits[d].offs)
    requires LiveIn(img, c, d) == SitesOf(img, d, c.visits[d].offs)
    ensures img.inodes[d].dirents == |LiveIn(img, c, d)|
    ensures img.inodes[d].links == 0 ==> LiveIn(img, c, d) == {}
  {
    hide DotsFine, SitesOf, LiveIn;
  }

  lemma EntriesAreSites(img: Image, c: Checked, members: seq<nat>, d: nat)
    requires Accepted(img, c, members) && UsedDir(img, c, d) && d in c.visits
    ensures LiveIn(img, c, d) == SitesOf(img, d, c.visits[d].offs)
  {
    hide Accepted;
    forall s ensures s in LiveIn(img, c, d) <==> s in SitesOf(img, d, c.visits[d].offs) {
      EntriesFollowed(img, c, members, s);
      if s in SitesOf(img, d, c.visits[d].offs) {
        assert Entry(img, c, s);
      }
    }
  }

  lemma DotNamed(img: Image, c: Checked, members: seq<nat>, d: nat, name: string, to: nat)
    requires Accepted(img, c, members) && UsedDir(img, c, d) && d in c.met && d in c.visits && name in {".", ".."}
    requires DirSound(img, d, ParentDir(c, d), c.visits[d].offs) && to == (if name == "." then d else ParentDir(c, d))
    requires LiveIn(img, c, d) == SitesOf(img, d, c.visits[d].offs)
    ensures img.inodes[d].links > 0 ==> exists s :: UnderName(img, c, d, name) == {s} && Target(img, s) == to
  {
    hide Accepted, RecordAt;
    if img.inodes[d].links > 0 {
      var off :| off in c.visits[d].offs && LiveNamed(img, d, off, name);
      var s: Site := (d, off);
      assert s in LiveIn(img, c, d);
      forall t ensures t in UnderName(img, c, d, name) <==> t == s {
        if t in UnderName(img, c, d, name) {
          assert t in LiveIn(img, c, d);
          assert LiveNamed(img, d, t.1, name);
        }
      }
      assert UnderName(img, c, d, name) == {s} && Target(img, s) == to;
    }
  }

  // ---------------------------------------------------------------------------
  // Acceptance and blemishes exclude each other

  /** What is fine about a whole directory is fine about its first records. */
  lemma FinePrefix(img: Image, d: nat, parent: nat, all: seq<nat>, offs: seq<nat>)
    requires d < |img.inodes| && DotsFine(img, d, parent, all) && |offs| <= |all| && offs == all[..|offs|]
    ensures DotsFine(img, d, parent, offs)
  {
    hide LiveNamed, RecordAt;
    forall o | o in offs ensures o in all {
    }
  }

  lemma NoDirBlemish(img: Image, c: Checked, members: seq<nat>, d: nat)
    requires Accepted(img, c, members) && UsedDir(img, c, d)
    ensures d in c.met && !DirBlemish(img, d, ParentOf(c.met[d].site))
  {
    hide Accepted, DotsFine, Chained, SitesOf;
    DirFacts(img, c, members, d);
    DirChain(img, c, members, d);
    var contents, all, unlinked := img.inodes[d].contents, c.visits[d].offs, MayEnd(img, d, ParentDir(c, d));
    hide DirSound, ChainOf;
    forall offs ensures !BlemishSeen(img, d, ParentOf(c.met[d].site), offs) {
      if Chained(contents, offs) {
        WholeChain(contents, all, offs, unlinked);
        SoundIsFine(img, d, ParentDir(c, d), all);
        FinePrefix(img, d, ParentDir(c, d), all, offs);
        if ChainOf(contents, offs, unlinked) {
          WholeIsChained(contents, all, unlinked);
          WholeChain(contents, offs, all, unlinked);
          assert offs == all;
        }
      }
    }
  }

  lemma WholeIsChained(c: Contents, offs: seq<nat>, unlinked: bool)
    requires ChainOf(c, offs, unlinked)
    ensures Chained(c, offs)
  {
    hide Chained;
  }

  lemma SoundIsFine(img: Image, d: nat, parent: nat, offs: seq<nat>)
    requires d < |img.inodes| && DirSound(img, d, parent, offs)
    ensures DotsFine(img, d, parent, offs)
  {
    hide DotsFine, SitesOf;
  }

  lemma DirChain(img: Image, c: Checked, members: seq<nat>, d: nat)
    requires Accepted(img, c, members) && UsedDir(img, c, d)
    ensures d in c.visits && d in c.met && ChainOf(img.inodes[d].contents, c.visits[d].offs, MayEnd(img, d, ParentDir(c, d)))
  {
    hide InodesInv, BlocksInv, FilesInv, LinksInv, CallsInv, MetInv, DirSound, ChainOf, SitesOf, MemberMet;
    assert Complete(img, c, d);
  }

  /** An accepted image has none of the blemishes for which the checker would refuse it. */
  lemma AcceptedIsUnblemished(img: Image, c: Checked, members: seq<nat>)
    requires Accepted(img, c, members)
    ensures !Blemish(img, c)
  {
    hide BlemishAt, Accepted;
    forall i | i in c.inodes ensures !BlemishAt(img, c, i) {
      if i != 0 {
        NoBlemishAt(img, c, members, i);
      } else {
        NoneAtZero(img, c);
      }
    }
    BasicsFine(img, c, members);
  }

  lemma NoneAtZero(img: Image, c: Checked)
    ensures !BlemishAt(img, c, 0)
  {
    hide InodeSound, DirBlemish, IsDir;
  }

  lemma BasicsFine(img: Image, c: Checked, members: seq<nat>)
    requires Accepted(img, c, members)
    ensures 0 in img.inodeBits && 0 in img.blockBits && Fresh(img, c.owners, {0})
  {
    hide FilesInv, LinksInv, CallsInv, MetInv, Complete, Fresh, FlagInv;
  }

  lemma NoBlemishAt(img: Image, c: Checked, members: seq<nat>, i: nat)
    requires Accepted(img, c, members) && InUse(c, i)
    ensures !BlemishAt(img, c, i)
  {
    hide BlocksInv, LinksInv, CallsInv, MetInv, Complete, InodeSound, DirBlemish, OwnersExact, FlagInv, IsDir;
    assert i in c.inodes - {0} - {};
    if i < |img.inodes| && IsDir(img, i) {
      NoDirBlemish(img, c, members, i);
    }
  }
}
