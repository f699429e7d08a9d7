/** The checker: a recursive walk over all reachable inodes, and the comparisons that follow it. */
module Fsck {
  import opened Wrappers
  import opened Sets
  import opened PointerTree
  import opened BlocksShrink
  import opened TransactionLimits
  import opened DirectoryRecords
  import opened FsckSpec
  import opened FsckLaws
  import opened FsckComplete
  import List = UnlinkedList

  /** The record at an offset, if it can be read. */
  method ReadRecord(c: Contents, off: nat) returns (r: Result<Record>)
    ensures r.Ok? <==> Readable(c, off)
    ensures r.Ok? ==> r.value == RecordAt(c, off) && off + DIRENT_SIZE <= c.size && (r.value.last || r.value.reclen > 0)
  {
    if off + DIRENT_SIZE > c.size {
      return Err(ErrIo);
    }
    var d := RecordAt(c, off);
    var rlen, dlen := if d.last then (MAX_DIRECTORY - off) % WORD else d.reclen, DirentSize(|d.name|);
    if !d.last && (rlen < DIRENT_SIZE || dlen > rlen || dlen > DirentSize(MAX_NAME) || rlen % ALIGNMENT != 0) {
      return Err(ErrIoDataIntegrity);
    }
    if d.ino != 0 {
      if off + dlen > c.size {
        return Err(ErrIo);
      }
      if |d.name| == 0 || |d.name| > (rlen - DIRENT_SIZE) % WORD {
        return Err(ErrIoDataIntegrity);
      }
    }
    r := Ok(d);
  }

  class MinfsChecker {
    const img: Image
    var checkedInodes: set<nat>
    var checkedBlocks: set<nat>
    var links: seq<int>
    var allocInodes: nat
    var allocBlocks: nat
    var conforming: bool
    var cachedIndirect: nat
    var indirectCache: Block
    var cachedDouble: nat
    var doubleCache: Block
    ghost var owners: map<Owner, nat>
    ghost var calls: set<Site>
    ghost var visits: Visits
    ghost var met: map<nat, Met>
    ghost var unlinked: map<nat, int>

    ghost function Now(): Checked
      reads this
    {
      Checked(checkedInodes, checkedBlocks, links, allocInodes, allocBlocks, conforming, owners, calls, visits, met, unlinked)
    }

    ghost predicate Valid()
      reads this
    {
      CheckerInv(img, Now(), {})
    }

    /** The tally of the root starts one low, since the walk itself comes to it once. */
    constructor (img: Image)
      requires |img.inodes| > 0
      ensures this.img == img && checkedInodes == {} && checkedBlocks == {} && allocInodes == 0 && allocBlocks == 0
      ensures conforming && owners == map[] && calls == {} && visits == map[] && met == map[] && unlinked == map[]
      ensures links == seq(|img.inodes|, i => if i == 0 then -1 else 0)
    {
      this.img := img;
      checkedInodes, checkedBlocks, allocInodes, allocBlocks := {}, {}, 0, 0;
      links := seq(|img.inodes|, i => if i == 0 then -1 else 0);
      conforming := true;
      cachedIndirect, cachedDouble, indirectCache, doubleCache := 0, 0, Zeros(), Zeros();
      owners, calls, visits, met, unlinked := map[], {}, map[], map[], map[];
    }

    /** Inode 0 and block 0 stand for "none" and must be marked as taken. */
    method CheckReserved()
      requires |img.inodes| > 0 && checkedInodes == {} && checkedBlocks == {} && allocInodes == 0 && allocBlocks == 0
      requires conforming && owners == map[] && calls == {} && visits == map[] && met == map[] && unlinked == map[]
      requires links == seq(|img.inodes|, i => if i == 0 then -1 else 0)
      modifies this
      ensures Valid() && checkedInodes <= {0} && calls == {} && met == map[] && unlinked == map[]
      ensures conforming == (0 in img.inodeBits && 0 in img.blockBits)
    {
      if 0 in img.inodeBits {
        checkedInodes := checkedInodes + {0};
        allocInodes := allocInodes + 1;
      } else {
        conforming := false;
      }
      if 0 in img.blockBits {
        checkedBlocks := checkedBlocks + {0};
        allocBlocks := allocBlocks + 1;
      } else {
        conforming := false;
      }
      StartInv(img, Now());
    }

    /** Marks a block as checked; says whether it may be used and was not met before. */
    method CheckDataBlock(b: nat, ghost o: Owner) returns (fine: bool)
      modifies this`checkedBlocks, this`allocBlocks, this`owners
      ensures fine == (ValidBlock(img, b) && b !in old(checkedBlocks))
      ensures checkedBlocks == old(checkedBlocks) + (if ValidBlock(img, b) then {b} else {})
      ensures allocBlocks == old(allocBlocks) + (if fine then 1 else 0)
      ensures owners == old(owners)[o := b]
    {
      owners := owners[o := b];
      if b == 0 || b >= img.blockCount || b !in img.blockBits || b in checkedBlocks {
        return false;
      }
      checkedBlocks := checkedBlocks + {b};
      allocBlocks := allocBlocks + 1;
      fine := true;
    }

    /** The two caches hold what the device has in the blocks they are said to hold. */
    ghost predicate CachesGood()
      reads this
    {
      && (cachedIndirect != 0 ==> indirectCache == ReadDat(img, cachedIndirect))
      && (cachedDouble != 0 ==> doubleCache == ReadDat(img, cachedDouble))
    }

    /** Reads a pointer block unless it is the one read last. */
    method LoadIndirect(ibno: nat)
      requires CachesGood() && ibno != 0
      modifies this`cachedIndirect, this`indirectCache
      ensures CachesGood() && cachedIndirect == ibno && indirectCache == ReadDat(img, ibno)
    {
      if cachedIndirect != ibno {
        indirectCache := ReadDat(img, ibno);
        cachedIndirect := ibno;
      }
    }

    /**
     Where data block n is, and which block to look at next: the checker's own way through the
     pointers, with its caches and its jumps over empty pointer blocks, finds the same as the mapper.
     */
    method GetInodeNthBno(p: Inode, n: nat) returns (r: Result<(nat, nat)>)
      requires CachesGood()
      modifies this`cachedIndirect, this`indirectCache, this`cachedDouble, this`doubleCache
      ensures CachesGood()
      ensures n >= MAX_BLOCKS ==> r == Err(ErrOutOfRange)
      ensures n < MAX_BLOCKS ==> r.Ok? && Nth(img, p, n, r.value.0, r.value.1)
    {
      hide Nth, Parent, ReadDat, BlockOf, SlotOf, EndOf;
      if n < DIRECT {
        DirectNth(img, p, n);
        return Ok((p.dnum[n], n + 1));
      }
      if n < MAX_BLOCKS {
        IndexSplit(n);
        ParentIs(img, p, BlockOf(n));
        EmptyNth(img, p, n);
        FullNth(img, p, n);
      }
      var m := n - DIRECT;
      var i, j := m / PER_INDIRECT, m % PER_INDIRECT;
      if i < INDIRECT {
        var ibno := p.inum[i];
        if ibno == 0 {
          return Ok((0, DIRECT + (i + 1) * PER_INDIRECT));
        }
        LoadIndirect(ibno);
        return Ok((indirectCache[j], n + 1));
      }
      m := m - INDIRECT * PER_INDIRECT;
      i := m / (PER_INDIRECT * PER_INDIRECT);
      m := m - i * (PER_INDIRECT * PER_INDIRECT);
      j := m / PER_INDIRECT;
      var k := m % PER_INDIRECT;
      if i < 1 {
        var dibno := p.dinum;
        if dibno == 0 {
          NoDoubleNth(img, p, n);
          return Ok((0, DIRECT + INDIRECT * PER_INDIRECT + (i + 1) * (PER_INDIRECT * PER_INDIRECT)));
        }
        if cachedDouble != dibno {
          doubleCache := ReadDat(img, dibno);
          cachedDouble := dibno;
        }
        var ibno := doubleCache[j];
        if ibno == 0 {
          return Ok((0, DIRECT + INDIRECT * PER_INDIRECT + i * (PER_INDIRECT * PER_INDIRECT) + (j + 1) * PER_INDIRECT));
        }
        LoadIndirect(ibno);
        return Ok((indirectCache[k], n + 1));
      }
      return Err(ErrOutOfRange);
    }

    /** One block of an inode: noted, and the file found wrong if the block is. */
    method NoteBlock(b: nat, ghost o: Owner)
      modifies this`checkedBlocks, this`allocBlocks, this`owners, this`conforming
      ensures Now() == Noted(img, old(Now()), o, b)
    {
      var fine := CheckDataBlock(b, o);
      if !fine {
        conforming := false;
      }
    }

    /**
     Looks at every block of an inode, pointer blocks first. Nothing is found wrong exactly when
     no block is in doubtful or double use, the size covers them and the block count is right.
     */
    method CheckFile(ino: nat)
      requires ino < |img.inodes| && allocBlocks == |checkedBlocks|
      modifies this
      ensures FileChecked(img, old(Now()), Now(), ino)
    {
      hide Lookup, Parent, FileLooked, FileChecked, Noted;
      var inode := img.inodes[ino];
      ghost var t, start := TreeOf(img, inode.pointers), Now();
      var blockCount := CheckPointerBlocks(ino, start);
      var nextBlk: nat := 0;
      cachedDouble, cachedIndirect := 0, 0;
      var n: nat := 0;
      NothingMapped(t);
      while true
        invariant n <= MAX_BLOCKS && CachesGood()
        invariant FileLooked(img, start, Now(), t, ino, POINTER_BLOCKS, n, blockCount)
        invariant LastMapped(t, n, nextBlk)
        decreases MAX_BLOCKS - n
      {
        var nth := GetInodeNthBno(inode.pointers, n);
        if nth.Err? {
          break;
        }
        var (bno, next) := nth.value;
        DataLooked(img, start, Now(), t, ino, n, next, blockCount);
        MappedNext(t, n, next, nextBlk);
        if bno != 0 {
          nextBlk := n + 1;
          blockCount := blockCount + 1;
          NoteBlock(bno, Owner(ino, DataUse(n)));
        }
        n := next;
      }
      AllLooked(img, start, Now(), ino, blockCount, nextBlk);
      if nextBlk != 0 {
        var maxBlocks := (inode.size + BLOCK_SIZE - 1) / BLOCK_SIZE;
        if nextBlk > maxBlocks {
          conforming := false;
        }
      }
      if blockCount != inode.blocks {
        conforming := false;
      }
    }

    /** The first half of CheckFile: all pointer blocks. */
    method CheckPointerBlocks(ino: nat, ghost start: Checked) returns (blockCount: nat)
      requires ino < |img.inodes| && allocBlocks == |checkedBlocks| && start == Now()
      modifies this`checkedBlocks, this`allocBlocks, this`owners, this`conforming
      ensures FileLooked(img, start, Now(), TreeOf(img, img.inodes[ino].pointers), ino, POINTER_BLOCKS, 0, blockCount)
    {
      hide Lookup, Parent, FileLooked, Noted;
      var inode := img.inodes[ino];
      ghost var t := TreeOf(img, inode.pointers);
      blockCount := 0;
      NothingLooked(img, start, t, ino);
      var f: nat := 0;
      while f < INDIRECT
        invariant f <= INDIRECT
        invariant FileLooked(img, start, Now(), t, ino, f, 0, blockCount)
      {
        PointerLooked(img, start, Now(), t, ino, f, blockCount);
        ParentIs(img, inode.pointers, f);
        if inode.pointers.inum[f] != 0 {
          NoteBlock(inode.pointers.inum[f], Owner(ino, PointerUse(f)));
          blockCount := blockCount + 1;
        }
        f := f + 1;
      }
      PointerLooked(img, start, Now(), t, ino, ROOT, blockCount);
      ParentIs(img, inode.pointers, ROOT);
      if inode.pointers.dinum != 0 {
        NoteBlock(inode.pointers.dinum, Owner(ino, PointerUse(ROOT)));
        blockCount := blockCount + 1;
        var entry := ReadDat(img, inode.pointers.dinum);
        var m: nat := 0;
        while m < PER_INDIRECT
          invariant m <= PER_INDIRECT
          invariant FileLooked(img, start, Now(), t, ino, LEAF_START + m, 0, blockCount)
        {
          PointerLooked(img, start, Now(), t, ino, LEAF_START + m, blockCount);
          ParentIs(img, inode.pointers, LEAF_START + m);
          if entry[m] != 0 {
            NoteBlock(entry[m], Owner(ino, PointerUse(LEAF_START + m)));
            blockCount := blockCount + 1;
          }
          m := m + 1;
        }
      } else {
        NoLeaves(img, start, Now(), inode.pointers, ino, LEAF_START, blockCount);
      }
    }

    /**
     Goes through a directory's records, following each entry if `recurse`. Ends on every image.
     `offs` are the records gone through.
     */
    method CheckDirectory(ino: nat, parent: nat, recurse: bool) returns (r: Result<()>, ghost offs: seq<nat>)
      requires Valid() && IsDir(img, ino) && ino in checkedInodes && ino in met && parent == ParentOf(met[ino].site)
      requires recurse ==> NotFrom(calls, {ino})
      modifies this
      ensures |links| == |img.inodes|
      ensures r.Err? ==> Faulty(img, Now()) && Tops(calls) <= Tops(old(calls))
      ensures r.Ok? ==>
                && Valid() && Grown(img, old(Now()), Now(), FollowedSites(img, ino, offs, recurse))
                && ChainOf(img.inodes[ino].contents, offs, MayEnd(img, ino, parent))
                && (conforming ==> DirSound(img, ino, parent, offs))
                && (!recurse ==> conforming == (old(conforming) && DirSound(img, ino, parent, offs)))
      decreases Below(|img.inodes|) - checkedInodes, 3
    {
      hide Walked, Grown, CheckerInv, NotFrom, ChainOf, DirSound, FollowedSites, Below, Faulty, Tops, Readable, RecordAt,
           ParentOf;
      ghost var start := Now();
      var inode := img.inodes[ino];
      var c := inode.contents;
      var dot, dotdot, direntCount: nat, off: nat := false, false, 0, 0;
      offs := [];
      NothingWalked(img, start, ino, parent, recurse);
      while true
        invariant Walked(img, start, Now(), ino, parent, recurse, offs, dot, dotdot, direntCount)
        invariant |links| == |img.inodes|
        invariant off == NextOff(c, offs) && start.inodes <= checkedInodes && start.inodes <= Below(|img.inodes|)
        invariant offs != [] ==> !RecordAt(c, offs[|offs| - 1]).last && RecordAt(c, offs[|offs| - 1]).reclen > 0
        decreases if off < c.size then c.size - off else 0
      {
        if off >= c.size && inode.links == 0 && parent == 0 {
          break;
        }
        var read := ReadRecord(c, off);
        if read.Err? {
          WalkedTops(img, start, Now(), ino, parent, recurse, offs, dot, dotdot, direntCount);
          RecordFault(img, start, Now(), ino, parent, recurse, offs, off, dot, dotdot, direntCount);
          return Err(read.error), offs;
        }
        var d := read.value;
        RecordIsNew(img, start, Now(), ino, parent, recurse, offs, off, dot, dotdot, direntCount);
        if d.ino == 0 {
          FreeWalked(img, start, Now(), ino, parent, recurse, offs, off, dot, dotdot, direntCount);
        } else {
          ghost var here := Now();
          WalkedTops(img, start, here, ino, parent, recurse, offs, dot, dotdot, direntCount);
          var entry;
          entry, dot, dotdot := CheckEntry(d, ino, parent, off, recurse, dot, dotdot, direntCount, start, offs);
          if entry.Err? {
            return entry, offs;
          }
          direntCount := direntCount + 1;
        }
        offs := offs + [off];
        if d.last {
          break;
        }
        off := off + d.reclen;
      }
      ghost var lower := Now();
      CheckCounts(inode, dot, dotdot, direntCount);
      WalkEnds(img, start, lower, conforming, ino, parent, recurse, offs, dot, dotdot, direntCount);
      r := Ok(());
    }

    /** An entry in use: "." and ".." are looked at, and with `recurse` the inode it leads to is checked. */
    method CheckEntry(
      d: Record, ino: nat, parent: nat, off: nat, recurse: bool, dotBefore: bool, dotdotBefore: bool, ghost count: nat,
      ghost start: Checked, ghost offs: seq<nat>) returns (r: Result<()>, dot: bool, dotdot: bool)
      requires 0 < ino < |img.inodes| && start.inodes <= checkedInodes && (recurse ==> NotFrom(start.calls, {ino}))
      requires d == RecordAt(img.inodes[ino].contents, off) && d.ino != 0
      requires AtEntry(img, start, Now(), ino, parent, recurse, offs, off, dotBefore, dotdotBefore, count)
      modifies this
      ensures |links| == |img.inodes|
      ensures r.Err? ==> Faulty(img, Now()) && Tops(calls) <= Tops(old(calls))
      ensures r.Ok? ==> old(checkedInodes) <= checkedInodes
      ensures r.Ok? ==> Walked(img, start, Now(), ino, parent, recurse, offs + [off], dot, dotdot, count + 1)
      decreases Below(|img.inodes|) - checkedInodes, 2
    {
      hide Walked, CheckerInv, Grown, Target, NamedSite, FollowedSites, Below, NotFrom, Faulty, Stopped, Tops, OnChain, AtEntry, RecordAt, IsDir,
           SitesOf;
      ghost var was := Now();
      dot, dotdot := CheckDots(d, ino, parent, dotBefore, dotdotBefore);
      EntryLooked(img, start, was, conforming, ino, parent, recurse, offs, off, dotBefore, dotdotBefore, count);
      ghost var here := Now();
      if recurse {
        r := FollowEntry(d, ino, off, start, offs);
        if r.Err? {
          return;
        }
      } else {
        EntryNotFollowed(img, start, here, ino, offs, off);
      }
      EntryWalked(img, start, was, here.conforming, Now(), ino, parent, recurse, offs, off, dotBefore, dotdotBefore, count);
      r := Ok(());
    }

    /** The inode that an entry leads to. */
    method FollowEntry(d: Record, ino: nat, off: nat, ghost start: Checked, ghost offs: seq<nat>) returns (r: Result<()>)
      requires 0 < ino < |img.inodes| && ino in start.inodes && ino in checkedInodes && off !in offs
      requires d == RecordAt(img.inodes[ino].contents, off) && d.ino != 0 && OnChain(img, (ino, off))
      requires Valid() && NotFrom(start.calls, {ino}) && Grown(img, start, Now(), SitesOf(img, ino, offs))
      modifies this
      ensures |links| == |img.inodes|
      ensures r.Err? ==> Faulty(img, Now()) && Tops(calls) <= Tops(old(calls))
      ensures r.Ok? ==> Valid() && old(checkedInodes) <= checkedInodes && (conforming ==> old(conforming))
      ensures r.Ok? ==> Grown(img, start, Now(), FollowedSites(img, ino, offs + [off], true))
      decreases Below(|img.inodes|) - checkedInodes, 2, 0
    {
      hide CheckerInv, Grown, Target, NamedSite, FollowedSites, Below, NotFrom, Faulty, Stopped, Tops, OnChain, RecordAt, IsDir, SitesOf;
      ghost var here := Now();
      EntryIsNew(img, start, here, ino, offs, off);
      r := CheckInode(d.ino, ino, DotName(d.name), (ino, off));
      if r.Err? {
        EntryFault(img, Now(), (ino, off));
        return;
      }
      EntryFollowed(img, start, here, Now(), ino, offs, off);
      MetKept(img, here, Now(), {(ino, off)});
    }

    /** The checks of "." and "..": each once, and leading where it should. */
    method CheckDots(d: Record, ino: nat, parent: nat, dotBefore: bool, dotdotBefore: bool) returns (dot: bool, dotdot: bool)
      modifies this`conforming
      ensures dot == (dotBefore || d.name == ".") && dotdot == (dotdotBefore || d.name == "..")
      ensures conforming == (old(conforming) && !(d.name == "." && (dotBefore || d.ino != ino))
                                             && !(d.name == ".." && (dotdotBefore || d.ino != parent)))
    {
      dot, dotdot := dotBefore, dotdotBefore;
      if d.name == "." {
        if dot {
          conforming := false;
        }
        dot := true;
        if d.ino != ino {
          conforming := false;
        }
      }
      if d.name == ".." {
        if dotdot {
          conforming := false;
        }
        dotdot := true;
        if d.ino != parent {
          conforming := false;
        }
      }
    }

    /** The checks at the end of a directory. */
    method CheckCounts(inode: InodeRecord, dot: bool, dotdot: bool, direntCount: nat)
      modifies this`conforming
      ensures conforming == (old(conforming) && !(inode.links == 0 && inode.dirents != 0) && direntCount == inode.dirents
                                             && (inode.links > 0 ==> dot && dotdot))
    {
      if inode.links == 0 && inode.dirents != 0 {
        conforming := false;
      }
      if direntCount != inode.dirents {
        conforming := false;
      }
      if !dot && inode.links > 0 {
        conforming := false;
      }
      if !dotdot && inode.links > 0 {
        conforming := false;
      }
    }

    /**
     Comes to inode ino along an entry. The first time the inode is checked and, if it is a
     directory, everything below it.
     */
    method CheckInode(ino: nat, parent: nat, dotOrDotdot: bool, ghost site: Site) returns (r: Result<()>)
      requires Valid() && ino != 0 && site !in calls && Target(img, site) == ino
      requires site.0 == 0 || (site.0 in checkedInodes && OnChain(img, site))
      requires (NamedSite(img, site) || site.0 == 0 <==> !dotOrDotdot) && parent == ParentOf(site)
      modifies this
      ensures |links| == |img.inodes|
      ensures r.Err? ==> Stopped(img, Now(), site) && Tops(calls) <= Tops(old(calls)) + (if site.0 == 0 then {site.1} else {})
      ensures r.Ok? ==> Valid() && ino in checkedInodes && Grown(img, old(Now()), Now(), {site})
      ensures r.Ok? && old(ino !in checkedInodes) ==>
                ino in met && met[ino].site == site && (ino == ROOT_INODE ==> IsDir(img, ino))
      ensures r.Ok? ==> ino < |img.inodes| && old(ino in checkedInodes && IsDir(img, ino)) ==> dotOrDotdot
      decreases Below(|img.inodes|) - checkedInodes, 1
    {
      hide CheckerInv, Grown, NamedSite, Target, FileChecked, SitesOf, ChainOf, DirSound, NotFrom, Faulty, Stopped, Tops, OnChain, Below;
      ghost var start := Now();
      SizesKnown(img, start, {});
      NoEntry(img, start, ino, site);
      if ino >= |img.inodes| {
        return Err(ErrOutOfRange);
      }
      if img.inodes[ino].magic == MagicOther {
        return Err(ErrIoDataIntegrity);
      }
      var inode := img.inodes[ino];
      var prevChecked := ino in checkedInodes;
      if inode.magic == MagicDir && prevChecked && !dotOrDotdot {
        return Err(ErrBadState);
      }
      SiteIsNew(img, start, ino, site);
      if prevChecked {
        FollowAgain(img, start, ino, site);
        links := Bump(links, ino, 1);
        calls := calls + {site};
        return Ok(());
      }
      FollowAndMeet(img, start, ino, site);
      MeetInode(ino, site);
      ghost var met := Now();
      SizesKnown(img, met, {ino});
      TopsMore(start.calls, site);
      if inode.magic == MagicDir {
        r := CheckNewDirectory(ino, parent, start, site);
        if r.Err? {
          DirectoryFault(img, Now(), site);
        }
        return;
      }
      if ino == ROOT_INODE {
        RootIsFile(img, met, site);
        return Err(ErrBadState);
      }
      CheckFile(ino);
      ghost var f := Now();
      FinishFile(img, start, f, ino, site, parent);
      r := Ok(());
    }

    /** Counts the entry, and takes the inode in with its link count. */
    method MeetInode(ino: nat, ghost site: Site)
      requires 0 < ino < |img.inodes| == |links|
      modifies this`links, this`calls, this`met, this`checkedInodes, this`allocInodes, this`conforming
      ensures Now() == Meet(img, Follow(old(Now()), ino, site), ino, site)
    {
      links := Bump(links, ino, 1);
      calls := calls + {site};
      links := Bump(links, ino, 0 - img.inodes[ino].links);
      checkedInodes := checkedInodes + {ino};
      met := met[ino := Met(site, allocInodes)];
      allocInodes := allocInodes + 1;
      if ino !in img.inodeBits {
        conforming := false;
      }
    }

    /** The part of CheckInode that is for a directory met for the first time. */
    method CheckNewDirectory(ino: nat, parent: nat, ghost start: Checked, ghost site: Site) returns (r: Result<()>)
      requires CheckerInv(img, start, {}) && NewSite(img, start, ino, site) && ino !in start.inodes && IsDir(img, ino)
      requires |start.links| == |img.inodes| && Now() == Meet(img, Follow(start, ino, site), ino, site)
      requires CheckerInv(img, Now(), {ino}) && allocBlocks == |checkedBlocks| && parent == ParentOf(site)
      modifies this
      ensures |links| == |img.inodes|
      ensures r.Err? ==> Faulty(img, Now()) && Tops(calls) <= Tops(start.calls) + (if site.0 == 0 then {site.1} else {})
      ensures r.Ok? ==>
                && Valid() && ino in checkedInodes && Grown(img, start, Now(), {site})
                && ino in met && met[ino].site == site
      decreases Below(|img.inodes|) - checkedInodes, 4
    {
      hide CheckerInv, Grown, NamedSite, Target, FileChecked, SitesOf, FollowedSites, ChainOf, DirSound, NotFrom, Below, Faulty, Tops;
      ghost var met := Now();
      SiteElsewhere(img, start, ino, site);
      CheckFile(ino);
      ghost var f := Now();
      FileKeeps(img, met, f, ino);
      FileSame(img, met, f, ino);
      var first, offs1 := CheckDirectory(ino, parent, false);
      TopsMore(start.calls, site);
      if first.Err? {
        return first;
      }
      ghost var g := Now();
      TopsGrown(img, f, g, FollowedSites(img, ino, offs1, false));
      NothingOnTop(img, ino, offs1);
      NoneFollowed(img, start, f, g, ino, site, offs1);
      var second, offs := CheckDirectory(ino, parent, true);
      if second.Err? {
        return second;
      }
      ghost var b := Now();
      TwoPasses(img, f, g, b, ino, offs1, offs);
      FinishInode(img, start, f, b, ino, site, parent, offs);
      visits := visits[ino := Visit(parent, offs)];
      r := Ok(());
    }

    /**
     Follows the unlinked list from its head. Ends on every image, and accepts only a well-formed
     list of inodes without links.
     */
    method CheckUnlinkedInodes() returns (r: Result<()>, ghost members: seq<nat>)
      requires Settled(img, Now(), [])
      modifies this
      ensures |links| == |img.inodes| && (r.Err? ==> ListFault(img, Now(), members))
      ensures r.Ok? ==> Settled(img, Now(), members) && List.ListOf(ListState(img), members)
      ensures r.Ok? ==> Tallied(img, old(Now()), Now(), members)
    {
      hide Settled, CheckerInv, Grown, Complete, ListSoFar, IsDir, NamedSite, Target, Below, List.ListOf,
           ListState, ListFault, Stopped, Tops, OnChain, Tallied;
      ghost var start := Now();
      NothingTallied(img, start);
      var lastIno: nat, nextIno: nat := 0, img.head;
      members := [];
      NothingListed(img);
      SettledSizes(img, Now(), members);
      while nextIno != 0
        invariant Settled(img, Now(), members) && ListSoFar(img, members, lastIno, nextIno)
        invariant Tallied(img, start, Now(), members)
        invariant |links| == |img.inodes|
        decreases Below(|img.inodes|) - unlinked.Keys
      {
        StopsHere(img, Now(), members, lastIno, nextIno);
        if nextIno >= |img.inodes| {
          return Err(ErrOutOfRange), members;
        }
        var inode := img.inodes[nextIno];
        if inode.magic == MagicOther {
          return Err(ErrIoDataIntegrity), members;
        }
        if inode.links > 0 {
          return Err(ErrBadState), members;
        }
        if inode.last != lastIno {
          return Err(ErrBadState), members;
        }
        NoReturn(img, members, lastIno, nextIno);
        ghost var before := Now();
        OverwrittenKeeps(img, before, members, nextIno);
        ListSite(img, nextIno);
        links := links[nextIno - 1 := -1];
        unlinked := Overwritten(img, before, nextIno).unlinked;
        ghost var over := Now();
        var checked := CheckInode(nextIno, 0, false, (0, nextIno));
        if checked.Err? {
          SettledTops(img, before, members);
          MemberFault(img, Now(), members, lastIno, nextIno);
          return checked, members;
        }
        IsMet(img, Now(), nextIno);
        OneTallied(img, start, before, Now(), members, nextIno);
        MemberSettled(img, before, over, Now(), members, nextIno);
        ListFurther(img, members, lastIno, nextIno);
        UnlinkedGrows(img, before, Now(), members, nextIno);
        members := members + [nextIno];
        lastIno := nextIno;
        nextIno := inode.next;
      }
      StopsHere(img, Now(), members, lastIno, 0);
      if img.tail != lastIno {
        return Err(ErrBadState), members;
      }
      ListEnds(img, members, lastIno);
      r := Ok(());
    }

    /** Every block marked in the bitmap was met. */
    method CheckForUnusedBlocks() returns (r: Result<()>)
      ensures r.Ok? <==> forall n :: 0 <= n < img.blockCount && n in img.blockBits ==> n in checkedBlocks
    {
      var missing, n: nat := 0, 0;
      while n < img.blockCount
        invariant n <= img.blockCount && missing >= 0
        invariant missing == 0 <==> forall m :: 0 <= m < n && m in img.blockBits ==> m in checkedBlocks
      {
        if n in img.blockBits && n !in checkedBlocks {
          missing := missing + 1;
        }
        n := n + 1;
      }
      r := if missing > 0 then Err(ErrBadState) else Ok(());
    }

    /** Every inode marked in the bitmap was met. */
    method CheckForUnusedInodes() returns (r: Result<()>)
      ensures r.Ok? <==> forall n :: 0 <= n < |img.inodes| && n in img.inodeBits ==> n in checkedInodes
    {
      var missing, n: nat := 0, 0;
      while n < |img.inodes|
        invariant n <= |img.inodes| && missing >= 0
        invariant missing == 0 <==> forall m :: 0 <= m < n && m in img.inodeBits ==> m in checkedInodes
      {
        if n in img.inodeBits && n !in checkedInodes {
          missing := missing + 1;
        }
        n := n + 1;
      }
      r := if missing > 0 then Err(ErrBadState) else Ok(());
    }

    /** All tallies have come out even. */
    method CheckLinkCounts() returns (r: Result<()>)
      requires |links| == |img.inodes|
      ensures r.Ok? <==> forall n :: 0 <= n < |links| ==> links[n] == 0
    {
      var n: nat := 0;
      while n < |img.inodes|
        invariant n <= |img.inodes|
        invariant forall m :: 0 <= m < n ==> links[m] == 0
      {
        if links[n] != 0 {
          return Err(ErrBadState);
        }
        n := n + 1;
      }
      r := Ok(());
    }

    /** The superblock counts what was met. */
    method CheckAllocatedCounts() returns (r: Result<()>)
      ensures r.Ok? <==> allocBlocks == img.allocBlocks && allocInodes == img.allocInodes
    {
      r := Ok(());
      if allocBlocks != img.allocBlocks {
        r := Err(ErrBadState);
      }
      if allocInodes != img.allocInodes {
        r := Err(ErrBadState);
      }
    }
  }

  /** What is read of the journal's first block, and what CheckSuperblock says of the backup superblock. */
  datatype Integrity = Integrity(
    journalRead: bool, journalMagic: bool, checksum: nat, computed: nat, backupRead: bool, backup: Result<()>)

  predicate Intact(i: Integrity) {
    i.journalRead && i.journalMagic && i.checksum == i.computed && i.backupRead && i.backup.Ok?
  }

  /** The journal's first block and the backup superblock are as they should be. */
  method CheckSuperblockIntegrity(i: Integrity) returns (r: Result<()>)
    ensures r.Ok? <==> Intact(i)
    ensures r.Err? && !i.journalRead ==> r.error == ErrIo
    ensures i.journalRead && !(i.journalMagic && i.checksum == i.computed) ==> r == Err(ErrBadState)
  {
    if !i.journalRead {
      return Err(ErrIo);
    }
    if !i.journalMagic {
      return Err(ErrBadState);
    }
    if i.checksum != i.computed {
      return Err(ErrBadState);
    }
    if !i.backupRead {
      return Err(ErrIo);
    }
    r := i.backup;
  }

  /** Keeps the first error. */
  function Combine(status: Result<()>, r: Result<()>): Result<()> {
    if status.Err? then status else r
  }

  /**
   The whole check. It ends on every image, and passes it if and only if it is acceptable and the
   journal and the backup superblock are intact; what follows from acceptance is in FsckAccepts. A
   refusal has a reason that is named.
   */
  method Fsck(img: Image, integrity: Integrity) returns (r: Result<()>, ghost c: Checked, ghost members: seq<nat>)
    requires |img.inodes| > 0
    ensures r.Ok? <==> Acceptable(img) && Intact(integrity)
    ensures r.Ok? ==> Accepted(img, c, members)
    ensures r.Err? ==>
              || !Intact(integrity)
              || Stopped(img, c, (0, 0)) || ListFault(img, c, members) || Blemish(img, c)
              || (exists n :: 0 <= n < img.blockCount && n in img.blockBits && n !in c.blocks)
              || (exists n :: 0 <= n < |img.inodes| && n in img.inodeBits && n !in c.inodes)
              || (exists n :: 0 <= n < |c.links| && c.links[n] != 0)
              || c.allocBlocks != img.allocBlocks || c.allocInodes != img.allocInodes
  {
    hide CheckerInv, Grown, Settled, Target, NamedSite, IsDir, List.ListOf, ListState, ListFault, Stopped, Tops, OnChain, Blemish,
         Tallied, Acceptable, Intact;
    var chk := new MinfsChecker(img);
    chk.CheckReserved();
    ghost var start := chk.Now();
    members := [];
    RootSite(img);
    var root := chk.CheckInode(ROOT_INODE, ROOT_INODE, false, (0, 0));
    c := chk.Now();
    if root.Err? {
      RootStopped(img, start, c);
      return root, c, members;
    }
    ghost var tree := c;
    RootSettled(img, start, tree);
    var unlinked;
    unlinked, members := chk.CheckUnlinkedInodes();
    var status := unlinked;
    var unusedBlocks := chk.CheckForUnusedBlocks();
    status := Combine(status, unusedBlocks);
    var unusedInodes := chk.CheckForUnusedInodes();
    status := Combine(status, unusedInodes);
    var linkCounts := chk.CheckLinkCounts();
    status := Combine(status, linkCounts);
    var counts := chk.CheckAllocatedCounts();
    status := Combine(status, counts);
    var reserved := CheckSuperblockIntegrity(integrity);
    status := Combine(status, reserved);
    status := Combine(status, if chk.conforming then Ok(()) else Err(ErrBadState));
    c := chk.Now();
    if unlinked.Err? {
      ListStopped(img, c, members);
    } else {
      FlagHasReason(img, c, members);
      AcceptableIsAccepted(img, tree, c, members);
    }
    if unlinked.Ok? && unusedBlocks.Ok? && unusedInodes.Ok? && linkCounts.Ok? && counts.Ok? && chk.conforming {
      IsAcceptable(img, c, members);
    }
    r := status;
  }
}
