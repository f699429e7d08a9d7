/** The steps of the checker's loops: through one inode's blocks, and through one directory's records. */
module FsckLaws {
  import opened Sets
  import opened PointerTree
  import opened BlocksShrink
  import opened TransactionLimits
  import opened DirectoryRecords
  import opened FsckSpec

  // ---------------------------------------------------------------------------
  // Reading pointers

  /** The contents of a block, as the device has them. */
  function ReadDat(img: Image, b: nat): Block {
    if b != 0 && b in img.disk then img.disk[b] else Zeros()
  }

  /** Where the pointer blocks are, in terms of what is read. */
  lemma ParentIs(img: Image, p: Inode, f: nat)
    requires f < POINTER_BLOCKS
    ensures Parent(TreeOf(img, p), f) ==
            if f < ROOT then p.inum[f] else if f == ROOT then p.dinum
            else if p.dinum != 0 then ReadDat(img, p.dinum)[f - LEAF_START] else 0
  {
  }

  lemma LookupIs(img: Image, p: Inode, n: nat)
    requires n < MAX_BLOCKS
    ensures Lookup(TreeOf(img, p), n) ==
            if n < DIRECT then p.dnum[n] else ReadDat(img, Parent(TreeOf(img, p), BlockOf(n)))[SlotOf(n)]
  {
  }

  /** Below a pointer block without a place nothing is mapped. */
  lemma NothingBelowZero(img: Image, p: Inode, n: nat)
    requires DIRECT <= n < MAX_BLOCKS && Parent(TreeOf(img, p), BlockOf(n)) == 0
    ensures Lookup(TreeOf(img, p), n) == 0
  {
    LookupIs(img, p, n);
  }

  /** The two-level index arithmetic of GetInodeNthBno. */
  lemma IndexSplit(n: nat)
    requires DIRECT <= n < MAX_BLOCKS
    ensures var i, j := (n - DIRECT) / PER_INDIRECT, (n - DIRECT) % PER_INDIRECT;
            && (n < DOUBLE_START <==> i < INDIRECT)
            && (i < INDIRECT ==> BlockOf(n) == i && SlotOf(n) == j && EndOf(BlockOf(n)) == DIRECT + (i + 1) * PER_INDIRECT)
    ensures n >= DOUBLE_START ==>
              var m := n - DOUBLE_START;
              && m / (PER_INDIRECT * PER_INDIRECT) == 0 && m / PER_INDIRECT < PER_INDIRECT
              && BlockOf(n) == LEAF_START + m / PER_INDIRECT && SlotOf(n) == m % PER_INDIRECT
              && EndOf(BlockOf(n)) == DOUBLE_START + (m / PER_INDIRECT + 1) * PER_INDIRECT
  {
  }

  /** Nothing is mapped from n to the end of a stretch whose pointer block has no place. */
  lemma SkipBlock(img: Image, p: Inode, n: nat, next: nat)
    requires DIRECT <= n < next <= MAX_BLOCKS && Parent(TreeOf(img, p), BlockOf(n)) == 0
    requires next == EndOf(BlockOf(n))
    ensures forall m :: n <= m < next ==> Lookup(TreeOf(img, p), m) == 0
  {
    hide Lookup, Parent;
    forall m | n <= m < next ensures Lookup(TreeOf(img, p), m) == 0 {
      SameBlockUpTo(n, m);
      NothingBelowZero(img, p, m);
    }
  }

  lemma SameBlockUpTo(n: nat, m: nat)
    requires DIRECT <= n < MAX_BLOCKS && n <= m < EndOf(BlockOf(n))
    ensures m < MAX_BLOCKS && BlockOf(m) == BlockOf(n)
  {
  }

  lemma SkipAll(img: Image, p: Inode, n: nat)
    requires DOUBLE_START <= n < MAX_BLOCKS && p.dinum == 0
    ensures forall m :: n <= m < MAX_BLOCKS ==> Lookup(TreeOf(img, p), m) == 0
  {
    hide Lookup;
    forall m | n <= m < MAX_BLOCKS ensures Lookup(TreeOf(img, p), m) == 0 {
      ParentIs(img, p, BlockOf(m));
      NothingBelowZero(img, p, m);
    }
  }

  /** Data block n is at bno, and no block between n and next is mapped. */
  ghost predicate Nth(img: Image, p: Inode, n: nat, bno: nat, next: nat)
    requires n < MAX_BLOCKS
  {
    && bno == Lookup(TreeOf(img, p), n) && n < next <= MAX_BLOCKS
    && forall m :: n < m < next ==> Lookup(TreeOf(img, p), m) == 0
  }

  lemma DirectNth(img: Image, p: Inode, n: nat)
    requires n < DIRECT
    ensures Nth(img, p, n, p.dnum[n], n + 1)
  {
    LookupIs(img, p, n);
  }

  lemma FullNth(img: Image, p: Inode, n: nat)
    requires DIRECT <= n < MAX_BLOCKS
    ensures Nth(img, p, n, ReadDat(img, Parent(TreeOf(img, p), BlockOf(n)))[SlotOf(n)], n + 1)
  {
    LookupIs(img, p, n);
  }

  lemma EmptyNth(img: Image, p: Inode, n: nat)
    requires DIRECT <= n < MAX_BLOCKS
    ensures Parent(TreeOf(img, p), BlockOf(n)) == 0 ==> Nth(img, p, n, 0, EndOf(BlockOf(n)))
  {
    hide Lookup, Parent, ReadDat;
    if Parent(TreeOf(img, p), BlockOf(n)) == 0 {
      EndAfter(n);
      SkipBlock(img, p, n, EndOf(BlockOf(n)));
    }
  }

  lemma EndAfter(n: nat)
    requires DIRECT <= n < MAX_BLOCKS
    ensures n < EndOf(BlockOf(n)) <= MAX_BLOCKS
  {
  }

  lemma NoDoubleNth(img: Image, p: Inode, n: nat)
    requires DOUBLE_START <= n < MAX_BLOCKS && p.dinum == 0
    ensures Nth(img, p, n, 0, MAX_BLOCKS)
  {
    hide Lookup;
    SkipAll(img, p, n);
  }

  // ---------------------------------------------------------------------------
  // Through the blocks of an inode

  /** A block is noted as belonging to o. */
  ghost function Noted(img: Image, c: Checked, o: Owner, b: nat): Checked {
    c.(owners := c.owners[o := b],
       blocks := c.blocks + (if ValidBlock(img, b) then {b} else {}),
       allocBlocks := c.allocBlocks + (if ValidBlock(img, b) && b !in c.blocks then 1 else 0),
       conforming := c.conforming && ValidBlock(img, b) && b !in c.blocks)
  }

  /** The first p pointer blocks and q data blocks have been noted, `count` blocks in all. */
  ghost predicate FileLooked(img: Image, a: Checked, c: Checked, t: Tree, ino: nat, p: nat, q: nat, count: nat) {
    && p <= POINTER_BLOCKS && q <= MAX_BLOCKS
    && Looked(img, a, c, Owned(t, ino, p, q)) && count == OwnedCount(t, p, q)
  }

  ghost predicate Looked(img: Image, a: Checked, c: Checked, owned: map<Owner, nat>) {
    && c.owners == a.owners + owned && c.blocks == a.blocks + ValidValues(img, owned) && c.allocBlocks == |c.blocks|
    && c.conforming == (a.conforming && Fresh(img, owned, a.blocks))
    && c == a.(owners := c.owners, blocks := c.blocks, allocBlocks := c.allocBlocks, conforming := c.conforming)
  }

  lemma NothingLooked(img: Image, a: Checked, t: Tree, ino: nat)
    requires a.allocBlocks == |a.blocks|
    ensures FileLooked(img, a, a, t, ino, 0, 0, 0)
  {
    OwnedNone(t, ino);
    hide Owned, OwnedCount;
    assert ValidValues(img, map[]) == {};
    assert a.owners + map[] == a.owners && a.blocks + {} == a.blocks;
  }

  lemma LookedMore(img: Image, a: Checked, c: Checked, owned: map<Owner, nat>, o: Owner, b: nat)
    requires Looked(img, a, c, owned) && o !in owned
    ensures Looked(img, a, Noted(img, c, o, b), owned[o := b])
  {
    hide Fresh, ValidValues;
    FreshMore(img, owned, a.blocks, o, b);
    UnionUpdate(a.owners, owned, o, b);
    var n := Noted(img, c, o, b);
    assert n.owners == a.owners + owned[o := b];
    assert n.blocks == a.blocks + ValidValues(img, owned[o := b]);
    assert c.blocks + {} == c.blocks && (b in c.blocks ==> c.blocks + {b} == c.blocks);
    assert n.allocBlocks == |n.blocks|;
    assert n.conforming == (a.conforming && Fresh(img, owned[o := b], a.blocks));
  }

  lemma PointerLooked(img: Image, a: Checked, c: Checked, t: Tree, ino: nat, f: nat, count: nat)
    requires FileLooked(img, a, c, t, ino, f, 0, count) && f < POINTER_BLOCKS
    ensures var b := Parent(t, f);
            if b == 0 then FileLooked(img, a, c, t, ino, f + 1, 0, count)
            else FileLooked(img, a, Noted(img, c, Owner(ino, PointerUse(f)), b), t, ino, f + 1, 0, count + 1)
  {
    hide Owned, OwnedCount, Looked, Noted, Parent;
    OwnedPointer(t, ino, f);
    LookedMore(img, a, c, Owned(t, ino, f, 0), Owner(ino, PointerUse(f)), Parent(t, f));
  }

  /** Without a doubly indirect block there are no pointer blocks below it. */
  lemma {:induction false} NoLeaves(img: Image, a: Checked, c: Checked, p: Inode, ino: nat, f: nat, count: nat)
    requires p.dinum == 0 && ROOT < f <= POINTER_BLOCKS && FileLooked(img, a, c, TreeOf(img, p), ino, f, 0, count)
    ensures FileLooked(img, a, c, TreeOf(img, p), ino, POINTER_BLOCKS, 0, count)
    decreases POINTER_BLOCKS - f
  {
    hide FileLooked;
    if f < POINTER_BLOCKS {
      ParentIs(img, p, f);
      PointerLooked(img, a, c, TreeOf(img, p), ino, f, count);
      NoLeaves(img, a, c, p, ino, f + 1, count);
    }
  }

  lemma DataLooked(img: Image, a: Checked, c: Checked, t: Tree, ino: nat, n: nat, next: nat, count: nat)
    requires FileLooked(img, a, c, t, ino, POINTER_BLOCKS, n, count) && n < next <= MAX_BLOCKS
    requires forall m :: n < m < next ==> Lookup(t, m) == 0
    ensures var b := Lookup(t, n);
            if b == 0 then FileLooked(img, a, c, t, ino, POINTER_BLOCKS, next, count)
            else FileLooked(img, a, Noted(img, c, Owner(ino, DataUse(n)), b), t, ino, POINTER_BLOCKS, next, count + 1)
  {
    hide Owned, OwnedCount, Looked, Noted, Lookup;
    OwnedData(t, ino, n, next);
    LookedMore(img, a, c, Owned(t, ino, POINTER_BLOCKS, n), Owner(ino, DataUse(n)), Lookup(t, n));
  }

  /** last is one past the last mapped block before n, or 0. */
  ghost predicate LastMapped(t: Tree, n: nat, last: nat) {
    && last <= n <= MAX_BLOCKS && (last > 0 ==> Lookup(t, last - 1) != 0)
    && forall m :: last <= m < n ==> Lookup(t, m) == 0
  }

  lemma NothingMapped(t: Tree)
    ensures LastMapped(t, 0, 0)
  {
  }

  lemma MappedNext(t: Tree, n: nat, next: nat, last: nat)
    requires LastMapped(t, n, last) && n < next <= MAX_BLOCKS && forall m :: n < m < next ==> Lookup(t, m) == 0
    ensures LastMapped(t, next, if Lookup(t, n) != 0 then n + 1 else last)
  {
    hide Lookup;
  }

  /** All blocks have been noted: what is left is to compare size and count. */
  lemma AllLooked(img: Image, a: Checked, c: Checked, ino: nat, count: nat, last: nat)
    requires ino < |img.inodes|
    requires var t := TreeOf(img, img.inodes[ino].pointers);
             FileLooked(img, a, c, t, ino, POINTER_BLOCKS, MAX_BLOCKS, count) && LastMapped(t, MAX_BLOCKS, last)
    ensures var covered := last == 0 || last <= (img.inodes[ino].size + BLOCK_SIZE - 1) / BLOCK_SIZE;
            FileChecked(img, a, c.(conforming := c.conforming && covered && count == img.inodes[ino].blocks), ino)
  {
    var t := TreeOf(img, img.inodes[ino].pointers);
    hide Lookup, Owned, OwnedCount, Fresh, ValidValues, Occupied;
    OwnedAll(t);
    var blocks := (img.inodes[ino].size + BLOCK_SIZE - 1) / BLOCK_SIZE;
    assert SizeCovers(t, img.inodes[ino].size) <==> last == 0 || last <= blocks;
  }

  // ---------------------------------------------------------------------------
  // Through the records of a directory

  /** The entries followed on the way through the records at offs, if they are followed at all. */
  ghost function FollowedSites(img: Image, d: nat, offs: seq<nat>, recurse: bool): set<Site>
    requires d < |img.inodes|
  {
    if recurse then SitesOf(img, d, offs) else {}
  }

  /** A record that is free, or not followed, adds nothing. */
  lemma FollowedMore(img: Image, d: nat, offs: seq<nat>, off: nat, recurse: bool)
    requires d < |img.inodes| && off !in offs
    ensures !recurse || RecordAt(img.inodes[d].contents, off).ino == 0 ==>
              FollowedSites(img, d, offs + [off], recurse) == FollowedSites(img, d, offs, recurse)
    ensures FollowedSites(img, d, offs + [off], true) == SitesOf(img, d, offs + [off])
    ensures FollowedSites(img, d, offs, true) == SitesOf(img, d, offs)
  {
    SitesMore(img, d, offs, off);
  }

  /** The walk of directory d has come past the records at offs. */
  ghost predicate Walked(
    img: Image, a: Checked, c: Checked, d: nat, parent: nat, recurse: bool, offs: seq<nat>, dot: bool, dotdot: bool, count: nat)
  {
    && IsDir(img, d) && d in a.inodes && d in a.met && parent == ParentOf(a.met[d].site)
    && CheckerInv(img, c, {}) && Grown(img, a, c, FollowedSites(img, d, offs, recurse))
    && Chained(img.inodes[d].contents, offs)
    && count == |SitesOf(img, d, offs)| && DotsSeen(img, d, parent, offs, dot, dotdot, c.conforming)
    && (!recurse ==> c.conforming == (a.conforming && DotsFine(img, d, parent, offs)))
  }

  /** The walk is at a record in use that it has not come past. */
  ghost predicate AtEntry(
    img: Image, a: Checked, c: Checked, d: nat, parent: nat, recurse: bool, offs: seq<nat>, off: nat, dot: bool, dotdot: bool,
    count: nat)
  {
    && Walked(img, a, c, d, parent, recurse, offs, dot, dotdot, count) && off !in offs
    && Chained(img.inodes[d].contents, offs + [off]) && RecordAt(img.inodes[d].contents, off).ino != 0
  }

  lemma NothingWalked(img: Image, a: Checked, d: nat, parent: nat, recurse: bool)
    requires IsDir(img, d) && d in a.inodes && CheckerInv(img, a, {}) && d in a.met && parent == ParentOf(a.met[d].site)
    ensures Walked(img, a, a, d, parent, recurse, [], false, false, 0) && a.inodes <= Below(|img.inodes|) && |a.links| == |img.inodes|
  {
    hide CheckerInv;
    SizesKnown(img, a, {});
    SitesNone(img, a, d);
  }

  lemma RecordIsNew(
    img: Image, a: Checked, c: Checked, d: nat, parent: nat, recurse: bool, offs: seq<nat>, off: nat, dot: bool, dotdot: bool,
    count: nat)
    requires Walked(img, a, c, d, parent, recurse, offs, dot, dotdot, count) && off == NextOff(img.inodes[d].contents, offs)
    requires offs != [] ==>
               var before := RecordAt(img.inodes[d].contents, offs[|offs| - 1]); !before.last && before.reclen > 0
    requires Readable(img.inodes[d].contents, off)
    ensures off !in offs && Chained(img.inodes[d].contents, offs + [off]) && a.inodes <= c.inodes
  {
    hide CheckerInv, FollowedSites, SitesOf, DotsSeen, DotsFine, Readable;
    ChainMore(img.inodes[d].contents, offs, off);
  }

  /** A free record changes nothing. */
  lemma FreeWalked(
    img: Image, a: Checked, c: Checked, d: nat, parent: nat, recurse: bool, offs: seq<nat>, off: nat, dot: bool, dotdot: bool,
    count: nat)
    requires Walked(img, a, c, d, parent, recurse, offs, dot, dotdot, count) && off !in offs
    requires Chained(img.inodes[d].contents, offs + [off]) && RecordAt(img.inodes[d].contents, off).ino == 0
    ensures Walked(img, a, c, d, parent, recurse, offs + [off], dot, dotdot, count)
  {
    hide CheckerInv, Grown, SitesOf, FollowedSites, Chained, DotsSeen, DotsFine;
    SitesMore(img, d, offs, off);
    FollowedMore(img, d, offs, off, recurse);
    DotsMore(img, d, parent, offs, off, dot, dotdot, c.conforming, c.conforming);
  }

  /** The name of the entry at off has been looked at. */
  lemma EntryLooked(
    img: Image, a: Checked, c: Checked, conforming: bool, d: nat, parent: nat, recurse: bool, offs: seq<nat>, off: nat,
    dot: bool, dotdot: bool, count: nat)
    requires AtEntry(img, a, c, d, parent, recurse, offs, off, dot, dotdot, count)
    requires var r := RecordAt(img.inodes[d].contents, off);
             conforming == (c.conforming && !(r.name == "." && (dot || r.ino != d)) && !(r.name == ".." && (dotdot || r.ino != parent)))
    ensures 0 < d < |img.inodes| && d in a.inodes && d in c.inodes && off !in offs && |c.links| == |img.inodes|
    ensures var low := c.(conforming := conforming);
            CheckerInv(img, low, {}) && Grown(img, a, low, FollowedSites(img, d, offs, recurse))
    ensures recurse ==> FollowedSites(img, d, offs, recurse) == SitesOf(img, d, offs)
    ensures OnChain(img, (d, off))
  {
    hide CheckerInv, Grown, SitesOf, Chained, DotsSeen, DotsFine, Blemish;
    ChainHasIt(img, d, offs, off);
    if !conforming && c.conforming {
      DotsMore(img, d, parent, offs, off, dot, dotdot, c.conforming, false);
      assert DotsFine(img, d, parent, offs) by { FineSoFar(img, d, parent, offs, dot, dotdot); }
      MetStays(img, a, c, FollowedSites(img, d, offs, recurse), d);
      BadDots(img, c, d, offs + [off]);
    }
    Lowered(img, a, c, conforming, FollowedSites(img, d, offs, recurse));
    MetKept(img, a, c, FollowedSites(img, d, offs, recurse));
    SizesKnown(img, c, {});
  }

  lemma ChainHasIt(img: Image, d: nat, offs: seq<nat>, off: nat)
    requires IsDir(img, d) && Chained(img.inodes[d].contents, offs + [off]) && RecordAt(img.inodes[d].contents, off).ino != 0
    ensures OnChain(img, (d, off))
  {
    hide Chained;
    var all := offs + [off];
    assert off == all[|offs|];
  }

  lemma FineSoFar(img: Image, d: nat, parent: nat, offs: seq<nat>, dot: bool, dotdot: bool)
    requires d < |img.inodes| && DotsSeen(img, d, parent, offs, dot, dotdot, true)
    ensures DotsFine(img, d, parent, offs)
  {
    hide DotsFine;
  }

  lemma MetStays(img: Image, a: Checked, c: Checked, own: set<Site>, d: nat)
    requires Grown(img, a, c, own) && d in a.inodes && d in a.met
    ensures d in c.inodes && d in c.met && c.met[d] == a.met[d]
  {
    hide Complete;
  }

  lemma BadDots(img: Image, c: Checked, d: nat, offs: seq<nat>)
    requires IsDir(img, d) && d in c.inodes && d in c.met && Chained(img.inodes[d].contents, offs)
    requires !DotsFine(img, d, ParentOf(c.met[d].site), offs)
    ensures Blemish(img, c)
  {
    hide Chained, DotsFine, DirSound, ChainOf, InodeSound, Fresh;
    assert BlemishSeen(img, d, ParentOf(c.met[d].site), offs);
    assert BlemishAt(img, c, d);
  }

  lemma BadCounts(img: Image, c: Checked, d: nat, offs: seq<nat>)
    requires IsDir(img, d) && d in c.inodes && d in c.met
    requires ChainOf(img.inodes[d].contents, offs, MayEnd(img, d, ParentOf(c.met[d].site)))
    requires !DirSound(img, d, ParentOf(c.met[d].site), offs)
    ensures Blemish(img, c)
  {
    hide Chained, DotsFine, DirSound, InodeSound, Fresh;
    assert BlemishSeen(img, d, ParentOf(c.met[d].site), offs);
    assert BlemishAt(img, c, d);
  }

  lemma EntryNotFollowed(img: Image, a: Checked, c: Checked, d: nat, offs: seq<nat>, off: nat)
    requires d < |img.inodes| && off !in offs && Grown(img, a, c, FollowedSites(img, d, offs, false))
    ensures Grown(img, a, c, FollowedSites(img, d, offs + [off], false))
  {
    hide Grown;
    FollowedMore(img, d, offs, off, false);
  }

  /** The entry at off has been dealt with: the walk is one record further. */
  lemma EntryWalked(
    img: Image, a: Checked, was: Checked, looked: bool, c: Checked, d: nat, parent: nat, recurse: bool, offs: seq<nat>,
    off: nat, dot: bool, dotdot: bool, count: nat)
    requires AtEntry(img, a, was, d, parent, recurse, offs, off, dot, dotdot, count)
    requires CheckerInv(img, c, {}) && Grown(img, a, c, FollowedSites(img, d, offs + [off], recurse))
    requires var r := RecordAt(img.inodes[d].contents, off);
             && (c.conforming ==> looked) && (!recurse ==> c.conforming == looked)
             && looked == (was.conforming && !(r.name == "." && (dot || r.ino != d)) && !(r.name == ".." && (dotdot || r.ino != parent)))
    ensures var name := RecordAt(img.inodes[d].contents, off).name;
            Walked(img, a, c, d, parent, recurse, offs + [off], dot || name == ".", dotdot || name == "..", count + 1)
  {
    hide CheckerInv, Grown, SitesOf, FollowedSites, Chained, DotsSeen, DotsFine;
    SitesMore(img, d, offs, off);
    DotsMore(img, d, parent, offs, off, dot, dotdot, was.conforming, c.conforming);
  }

  /** The whole directory has been gone through and its counts compared. */
  lemma WalkEnds(
    img: Image, a: Checked, c: Checked, conforming: bool, d: nat, parent: nat, recurse: bool, offs: seq<nat>,
    dot: bool, dotdot: bool, count: nat)
    requires Walked(img, a, c, d, parent, recurse, offs, dot, dotdot, count)
    requires var inode := img.inodes[d];
             && conforming == (c.conforming && !(inode.links == 0 && inode.dirents != 0) && count == inode.dirents
                                            && (inode.links > 0 ==> dot && dotdot))
             && ((offs != [] && RecordAt(inode.contents, offs[|offs| - 1]).last) ||
                 (MayEnd(img, d, parent) && NextOff(inode.contents, offs) >= inode.contents.size))
    ensures var low := c.(conforming := conforming);
            && CheckerInv(img, low, {}) && Grown(img, a, low, FollowedSites(img, d, offs, recurse))
            && ChainOf(img.inodes[d].contents, offs, MayEnd(img, d, parent))
            && (conforming ==> DirSound(img, d, parent, offs))
            && (!recurse ==> conforming == (a.conforming && DirSound(img, d, parent, offs)))
  {
    hide CheckerInv, Grown, SitesOf, FollowedSites, Chained, DotsSeen, DotsFine, DirSound, Blemish;
    DotsEnd(img, d, parent, offs, dot, dotdot, c.conforming, conforming);
    MetStays(img, a, c, FollowedSites(img, d, offs, recurse), d);
    if !conforming && c.conforming {
      BadCounts(img, c, d, offs);
    }
    Lowered(img, a, c, conforming, FollowedSites(img, d, offs, recurse));
  }

  lemma Lowered(img: Image, a: Checked, c: Checked, conforming: bool, own: set<Site>)
    requires CheckerInv(img, c, {}) && Grown(img, a, c, own) && (conforming ==> c.conforming)
    requires conforming || !c.conforming || Blemish(img, c)
    ensures CheckerInv(img, c.(conforming := conforming), {}) && Grown(img, a, c.(conforming := conforming), own)
  {
    hide CheckerInv, Complete, Blemish;
    LoweredKeeps(img, c, conforming);
    var low := c.(conforming := conforming);
    forall d | d in low.inodes - a.inodes ensures d != 0 && Complete(img, low, d) {
      assert d in c.inodes - a.inodes;
      CompleteLowered(img, c, conforming, d);
    }
  }

  lemma CompleteLowered(img: Image, c: Checked, conforming: bool, d: nat)
    requires Complete(img, c, d) && (conforming ==> c.conforming)
    ensures Complete(img, c.(conforming := conforming), d)
  {
    hide DirSound, ChainOf, SitesOf;
  }

  /** The entry at off is one that has not been followed. */
  lemma EntryIsNew(img: Image, a: Checked, c: Checked, d: nat, offs: seq<nat>, off: nat)
    requires 0 < d < |img.inodes| && d in a.inodes && NotFrom(a.calls, {d}) && Grown(img, a, c, SitesOf(img, d, offs))
    requires off !in offs
    ensures (d, off) !in c.calls && Target(img, (d, off)) == RecordAt(img.inodes[d].contents, off).ino
    ensures NamedSite(img, (d, off)) <==> !DotName(RecordAt(img.inodes[d].contents, off).name)
  {
    NotYetFollowed(img, a, c, d, offs, off);
  }

  lemma EntryFollowed(img: Image, a: Checked, b: Checked, c: Checked, d: nat, offs: seq<nat>, off: nat)
    requires d < |img.inodes| && d in a.inodes && off !in offs && RecordAt(img.inodes[d].contents, off).ino != 0
    requires Grown(img, a, b, SitesOf(img, d, offs)) && Grown(img, b, c, {(d, off)})
    ensures Grown(img, a, c, FollowedSites(img, d, offs + [off], true)) && d in c.inodes && a.inodes <= c.inodes
    ensures c.conforming ==> b.conforming
  {
    SitesMore(img, d, offs, off);
    assert NotFrom({(d, off)}, b.inodes - a.inodes);
    GrownCompose(img, a, b, c, SitesOf(img, d, offs), {(d, off)});
  }

  lemma MetKept(img: Image, b: Checked, c: Checked, own: set<Site>)
    requires Grown(img, b, c, own)
    ensures b.inodes <= c.inodes && (c.conforming ==> b.conforming)
  {
  }

  /** What the flags at the end of the walk say. */
  lemma DotsEnd(
    img: Image, d: nat, parent: nat, offs: seq<nat>, dot: bool, dotdot: bool, before: bool, after: bool)
    requires d < |img.inodes| && DotsSeen(img, d, parent, offs, dot, dotdot, before)
    requires after ==
               (&& before && img.inodes[d].dirents == |SitesOf(img, d, offs)|
                && (img.inodes[d].links == 0 ==> img.inodes[d].dirents == 0)
                && (img.inodes[d].links > 0 ==> dot && dotdot))
    ensures after ==> DirSound(img, d, parent, offs)
    ensures DirSound(img, d, parent, offs) && before ==> after
    ensures DirSound(img, d, parent, offs) ==> DotsFine(img, d, parent, offs)
    ensures before ==> DotsFine(img, d, parent, offs)
  {
    hide SitesOf, LiveNamed, DotsFine;
  }

  // ---------------------------------------------------------------------------
  // At an inode

  lemma SizesKnown(img: Image, c: Checked, but: set<nat>)
    requires CheckerInv(img, c, but)
    ensures |c.links| == |img.inodes| && c.allocBlocks == |c.blocks| && c.inodes <= Below(|img.inodes|)
  {
    hide FilesInv, Fresh, ValidValues;
  }

  lemma SiteIsNew(img: Image, c: Checked, ino: nat, site: Site)
    requires 0 < ino < |img.inodes| && site !in c.calls && Target(img, site) == ino && img.inodes[ino].magic != MagicOther
    requires site.0 == 0 || (site.0 in c.inodes && OnChain(img, site))
    requires NamedSite(img, site) && img.inodes[ino].magic == MagicDir ==> ino !in c.inodes
    ensures NewSite(img, c, ino, site)
  {
  }

  lemma SiteElsewhere(img: Image, c: Checked, ino: nat, site: Site)
    requires NewSite(img, c, ino, site) && ino !in c.inodes
    ensures 0 < ino < |img.inodes| && site.0 != ino
  {
  }

  /** Looking at an inode's blocks changes nothing else. */
  lemma FileSame(img: Image, c: Checked, f: Checked, ino: nat)
    requires ino < |img.inodes| && FileChecked(img, c, f, ino)
    ensures f == c.(owners := f.owners, blocks := f.blocks, allocBlocks := f.allocBlocks, conforming := f.conforming)
    ensures f.conforming ==> c.conforming
  {
  }

  /** Before a directory is followed, no entry of it has been. */
  lemma NoneFollowed(img: Image, a: Checked, f: Checked, g: Checked, ino: nat, site: Site, offs1: seq<nat>)
    requires CheckerInv(img, a, {}) && ino !in a.inodes && ino != 0 && site.0 != ino
    requires f.calls == a.calls + {site} && f.inodes == a.inodes + {ino}
    requires ino < |img.inodes| && Grown(img, f, g, FollowedSites(img, ino, offs1, false))
    ensures NotFrom(g.calls, {ino}) && ino in g.inodes && f.inodes <= g.inodes
    ensures ino in f.met ==> ino in g.met && g.met[ino] == f.met[ino]
  {
    hide FilesInv, Fresh, ValidValues, InodesInv, BlocksInv, LinksInv, Complete, MetInv, FlagInv;
    NoCallsFrom(img, a, ino);
  }

  lemma TwoPasses(img: Image, f: Checked, g: Checked, b: Checked, ino: nat, offs1: seq<nat>, offs: seq<nat>)
    requires ino < |img.inodes| && ino in f.inodes
    requires Grown(img, f, g, FollowedSites(img, ino, offs1, false)) && Grown(img, g, b, FollowedSites(img, ino, offs, true))
    ensures Grown(img, f, b, SitesOf(img, ino, offs))
  {
    var own := SitesOf(img, ino, offs);
    NotNew(img, ino, offs, f, g);
    GrownCompose(img, f, g, b, {}, own);
    assert {} + own == own;
  }

  lemma NotNew(img: Image, ino: nat, offs: seq<nat>, f: Checked, g: Checked)
    requires ino < |img.inodes| && ino in f.inodes
    ensures NotFrom(SitesOf(img, ino, offs), g.inodes - f.inodes)
  {
  }

  /** A file met for the first time has been looked at. */
  lemma FinishFile(img: Image, a: Checked, f: Checked, ino: nat, site: Site, parent: nat)
    requires CheckerInv(img, a, {}) && NewSite(img, a, ino, site) && ino !in a.inodes && !IsDir(img, ino) && |a.links| == |img.inodes|
    requires CheckerInv(img, Meet(img, Follow(a, ino, site), ino, site), {ino}) && parent == ParentOf(site)
    requires FileChecked(img, Meet(img, Follow(a, ino, site), ino, site), f, ino)
    ensures CheckerInv(img, f, {}) && Grown(img, a, f, {site}) && ino in f.inodes && ino in f.met && f.met[ino].site == site
    ensures |f.links| == |img.inodes|
  {
    hide CheckerInv, FileChecked, Grown;
    FileKeeps(img, Meet(img, Follow(a, ino, site), ino, site), f, ino);
    NothingGrown(img, f);
    FinishInode(img, a, f, f, ino, site, parent, []);
    SizesKnown(img, f, {});
  }

  lemma NothingGrown(img: Image, c: Checked)
    ensures Grown(img, c, c, {})
  {
  }

  /** The state after the reserved numbers have been checked. */
  lemma StartInv(img: Image, c: Checked)
    requires |img.inodes| > 0 && c.inodes <= {0} && c.blocks <= {0} && c.allocInodes == |c.inodes| && c.allocBlocks == |c.blocks|
    requires c.owners == map[] && c.calls == {} && c.met == map[] && c.unlinked == map[]
    requires c.links == seq(|img.inodes|, i => if i == 0 then -1 else 0)
    requires c.conforming ==> c.inodes == {0} && c.blocks == {0} && 0 in img.inodeBits && 0 in img.blockBits
    requires c.conforming || 0 !in img.inodeBits || 0 !in img.blockBits
    ensures CheckerInv(img, c, {})
  {
    assert forall i :: CallsTo(img, c.calls, i) == {};
    assert ValidValues(img, c.owners) == {};
    assert 0 in Below(|img.inodes|);
    assert FilesInv(img, c, {});
  }

  // ---------------------------------------------------------------------------
  // Along the unlinked list

  lemma NothingListed(img: Image)
    ensures ListSoFar(img, [], 0, img.head)
  {
  }

  lemma SettledSizes(img: Image, c: Checked, members: seq<nat>)
    requires Settled(img, c, members)
    ensures |c.links| == |img.inodes|
  {
    hide Complete;
    SizesKnown(img, c, {});
  }

  lemma ListSite(img: Image, ino: nat)
    ensures ino != 0 ==> Target(img, (0, ino)) == ino && ParentOf((0, ino)) == 0 && !NamedSite(img, (0, ino))
  {
  }

  lemma RootSite(img: Image)
    ensures Target(img, (0, 0)) == ROOT_INODE && ParentOf((0, 0)) == ROOT_INODE && !NamedSite(img, (0, 0))
  {
  }

  lemma IsMet(img: Image, c: Checked, ino: nat)
    requires CheckerInv(img, c, {}) && ino in c.inodes && ino != 0
    ensures ino in c.met
  {
    hide FilesInv, BlocksInv, LinksInv, CallsInv, InodesInv;
  }

  lemma UnlinkedGrows(img: Image, a: Checked, b: Checked, members: seq<nat>, ino: nat)
    requires Settled(img, a, members) && Settled(img, b, members + [ino]) && ino !in members && ino < |img.inodes|
    ensures b.unlinked.Keys == a.unlinked.Keys + {ino} && ino !in a.unlinked && ino in Below(|img.inodes|)
  {
    hide CheckerInv, Complete;
  }

  // ---------------------------------------------------------------------------
  // Errors

  lemma RecordFault(
    img: Image, a: Checked, c: Checked, d: nat, parent: nat, recurse: bool, offs: seq<nat>, off: nat, dot: bool, dotdot: bool,
    count: nat)
    requires Walked(img, a, c, d, parent, recurse, offs, dot, dotdot, count)
    requires off == NextOff(img.inodes[d].contents, offs) && !Readable(img.inodes[d].contents, off)
    requires !(MayEnd(img, d, parent) && off >= img.inodes[d].contents.size)
    requires offs != [] ==> !RecordAt(img.inodes[d].contents, offs[|offs| - 1]).last
    ensures Faulty(img, c)
  {
    hide CheckerInv, FollowedSites, SitesOf, DotsSeen, DotsFine, Chained, Readable, Grown;
    MetStays(img, a, c, FollowedSites(img, d, offs, recurse), d);
    assert BadRecord(img, c, d, offs);
  }

  lemma EntryFault(img: Image, c: Checked, s: Site)
    requires s.0 != 0 && Stopped(img, c, s)
    ensures Faulty(img, c)
  {
    hide BadEntry, BadRecord, CheckerInv, IsDir;
  }

  lemma NoEntry(img: Image, c: Checked, ino: nat, s: Site)
    requires Target(img, s) == ino && ino != 0 && (s.0 == 0 || (s.0 in c.inodes && OnChain(img, s))) && s !in c.calls
    requires CheckerInv(img, c, {})
    ensures ino >= |img.inodes| ==> Stopped(img, c, s)
    ensures ino < |img.inodes| && img.inodes[ino].magic == MagicOther ==> Stopped(img, c, s)
    ensures ino < |img.inodes| && img.inodes[ino].magic == MagicDir && ino in c.inodes && (s.0 == 0 || NamedSite(img, s)) ==>
              Stopped(img, c, s)
  {
    hide Target, NamedSite, OnChain, CheckerInv, Fault;
  }

  lemma RootIsFile(img: Image, c: Checked, s: Site)
    requires !IsDir(img, ROOT_INODE)
    ensures Stopped(img, c, s)
  {
    hide CheckerInv, BadEntry, Fault;
  }

  lemma DirectoryFault(img: Image, c: Checked, s: Site)
    requires Faulty(img, c)
    ensures Stopped(img, c, s)
  {
    hide Faulty;
  }

  /** One more call, or none: the inodes turned to. */
  lemma TopsMore(calls: set<Site>, s: Site)
    ensures Tops(calls + {s}) == Tops(calls) + (if s.0 == 0 then {s.1} else {})
  {
  }

  lemma WalkedTops(
    img: Image, a: Checked, c: Checked, d: nat, parent: nat, recurse: bool, offs: seq<nat>, dot: bool, dotdot: bool, count: nat)
    requires Walked(img, a, c, d, parent, recurse, offs, dot, dotdot, count)
    ensures Tops(c.calls) <= Tops(a.calls)
  {
    hide CheckerInv, Grown, DotsSeen, DotsFine, Chained;
    TopsGrown(img, a, c, FollowedSites(img, d, offs, recurse));
    assert Tops(FollowedSites(img, d, offs, recurse)) == {};
  }

  lemma TopsGrown(img: Image, a: Checked, b: Checked, own: set<Site>)
    requires Grown(img, a, b, own)
    ensures Tops(b.calls) <= Tops(a.calls) + Tops(own)
  {
    hide Complete;
    forall k | k in Tops(b.calls) ensures k in Tops(a.calls) + Tops(own) {
      assert (0, k) in b.calls;
    }
  }

  lemma StopsHere(img: Image, c: Checked, members: seq<nat>, last: nat, next: nat)
    requires ListSoFar(img, members, last, next)
    ensures next == 0 && img.tail != last ==> ListFault(img, c, members)
    ensures next != 0 && (next >= |img.inodes| || img.inodes[next].magic == MagicOther || img.inodes[next].links > 0 ||
                          img.inodes[next].last != last) ==>
              ListFault(img, c, members)
  {
    hide ListSoFar, Stopped;
    assert next != 0 || img.tail == last || ListFault(img, c, members);
  }

  lemma MemberFault(img: Image, c: Checked, members: seq<nat>, last: nat, next: nat)
    requires ListSoFar(img, members, last, next) && next != 0 && Stopped(img, c, (0, next))
    requires Tops(c.calls) <= SetOf(members) + {0, next}
    ensures ListFault(img, c, members)
  {
    hide ListSoFar, Stopped;
    assert MemberRefused(img, c, members, last, next);
  }

  lemma FlagHasReason(img: Image, c: Checked, members: seq<nat>)
    requires Settled(img, c, members)
    ensures c.conforming || Blemish(img, c)
  {
    hide Complete, Blemish, InodesInv, BlocksInv, FilesInv, LinksInv, CallsInv, MetInv;
  }

  lemma NothingOnTop(img: Image, d: nat, offs: seq<nat>)
    requires d < |img.inodes|
    ensures Tops(FollowedSites(img, d, offs, false)) == {}
  {
  }

  lemma SettledTops(img: Image, c: Checked, members: seq<nat>)
    requires Settled(img, c, members)
    ensures Tops(c.calls) <= SetOf(members) + {0}
  {
    hide CheckerInv, Complete, MemberMet;
    forall k | k in Tops(c.calls) ensures k in SetOf(members) + {0} {
      assert (0, k) in c.calls;
    }
  }
}
