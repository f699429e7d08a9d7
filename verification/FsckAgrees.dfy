/** The checker finds nothing wrong with what the mapper and the directories themselves leave behind. */
module FsckAgrees {
  import opened Sets
  import opened PointerTree
  import opened BlocksShrink
  import opened DirectoryRecords
  import opened FsckSpec

  // ---------------------------------------------------------------------------
  // Pointer trees

  /** Reading a synced tree back from the device gives the same pointer blocks and the same data blocks. */
  lemma SameAsRemounted(t: Tree)
    requires Coherent(t, {}, false)
    ensures forall f :: 0 <= f < POINTER_BLOCKS ==> Parent(Remount(t), f) == Parent(t, f)
    ensures forall n :: 0 <= n < MAX_BLOCKS ==> Lookup(Remount(t), n) == Lookup(t, n)
    ensures Occupied(Remount(t)) == Occupied(t)
  {
    forall f | 0 <= f < POINTER_BLOCKS ensures Parent(Remount(t), f) == Parent(t, f) {
      SameParent(t, f);
    }
    forall n | 0 <= n < MAX_BLOCKS ensures Lookup(Remount(t), n) == Lookup(t, n) {
      RemountSame(t, n);
    }
    hide Parent, Lookup, Remount;
    assert Placed(Remount(t)) == Placed(t);
    assert MappedIn(Remount(t), 0, MAX_BLOCKS) == MappedIn(t, 0, MAX_BLOCKS);
  }

  lemma SameParent(t: Tree, f: nat)
    requires Coherent(t, {}, false) && f < POINTER_BLOCKS
    ensures Parent(Remount(t), f) == Parent(t, f)
  {
    assert Synced(t, ROOT);
  }

  /**
   An inode written by the mapper, with the block count it keeps, passes the file checks exactly
   when its blocks are its own and its size covers them: the count is never what is wrong.
   */
  lemma MapperTreePasses(img: Image, ino: nat, t: Tree, checked: set<nat>)
    requires ino < |img.inodes| && img.inodes[ino].pointers == t.saved && img.disk == t.disk
    requires Coherent(t, {}, false) && img.inodes[ino].blocks == Occupied(t)
    ensures FileSound(img, ino, checked) <==>
            Fresh(img, Owned(t, ino, POINTER_BLOCKS, MAX_BLOCKS), checked) && SizeCovers(t, img.inodes[ino].size)
  {
    SameAsRemounted(t);
    assert TreeOf(img, img.inodes[ino].pointers) == Remount(t);
    hide Parent, Lookup, Remount, Fresh, Occupied, Coherent;
    assert PointersOwned(Remount(t), ino, POINTER_BLOCKS) == PointersOwned(t, ino, POINTER_BLOCKS);
    assert DataOwned(Remount(t), ino, MAX_BLOCKS) == DataOwned(t, ino, MAX_BLOCKS);
  }

  // ---------------------------------------------------------------------------
  // Directories

  /** Every record of a well-formed directory can be read, and leads to the next. */
  lemma RecordsReadable(c: Contents, l: Layout, off: nat)
    requires WellFormed(c, l) && off in l.bounds
    ensures Readable(c, off) && RecordAt(c, off) == c.mem[off]
    ensures !c.mem[off].last ==> off + c.mem[off].reclen in l.bounds
  {
    hide Coalesced, Indexed, Good, Readable;
    NextBound(c, l.bounds, off);
    GoodIsReadable(c, off, l.bounds);
  }

  lemma GoodIsReadable(c: Contents, off: nat, bounds: set<nat>)
    requires off in c.mem && Good(c.mem[off], off, bounds) && off + UsedSize(c.mem[off]) <= c.size
    ensures Readable(c, off)
  {
    Longest(|c.mem[off].name|);
    RoomForName(|c.mem[off].name|);
    hide DirentSize;
  }

  lemma RoomForName(n: nat)
    ensures DIRENT_SIZE + n <= DirentSize(n)
  {
  }

  lemma Longest(n: nat)
    requires n <= MAX_NAME
    ensures DirentSize(n) <= DirentSize(MAX_NAME)
  {
  }

  /** The walk stays on the records of the directory, and leaves none out before the one it has come to. */
  lemma {:induction false} WalkIsOnRecords(c: Contents, l: Layout, offs: seq<nat>, k: nat)
    requires WellFormed(c, l) && Chained(c, offs) && k < |offs|
    ensures offs[k] in l.bounds && RecordAt(c, offs[k]) == c.mem[offs[k]]
    ensures forall o :: o in l.bounds && o <= offs[k] ==> o in offs
  {
    hide Coalesced, Indexed, Good;
    if k > 0 {
      WalkIsOnRecords(c, l, offs, k - 1);
      assert Follows(c, offs, k);
      RecordsReadable(c, l, offs[k - 1]);
      NextBound(c, l.bounds, offs[k - 1]);
    }
    RecordsReadable(c, l, offs[k]);
    forall o | o in l.bounds && o <= offs[k] ensures o in offs {
      if k > 0 && o > offs[k - 1] {
        assert offs[k - 1] + ReservedSize(c.mem[offs[k - 1]], offs[k - 1]) <= o;
        assert o == offs[k];
      }
    }
  }

  /** The checker's way through a well-formed directory meets every entry, and counts them right. */
  lemma WalkMeetsAll(img: Image, d: nat, l: Layout, offs: seq<nat>)
    requires d < |img.inodes| && WellFormed(img.inodes[d].contents, l) && ChainOf(img.inodes[d].contents, offs, false)
    ensures forall o :: o in offs <==> o in l.bounds
    ensures |SitesOf(img, d, offs)| == |Names(img.inodes[d].contents, l)|
  {
    hide Tiling, Coalesced, Good, Names;
    var c := img.inodes[d].contents;
    var k := |offs| - 1;
    WalkIsOnRecords(c, l, offs, k);
    NextBound(c, l.bounds, offs[k]);
    forall o ensures o in offs <==> o in l.bounds {
      if o in offs {
        var j :| 0 <= j < |offs| && offs[j] == o;
        WalkIsOnRecords(c, l, offs, j);
      }
      if o in l.bounds && o > offs[k] {
        AfterLast(c, l.bounds, offs[k], o);
      }
    }
    LiveCount(img, d, l, offs);
  }

  /** No record starts after the last one. */
  lemma AfterLast(c: Contents, bounds: set<nat>, last: nat, o: nat)
    requires Tiling(c, bounds) && last in bounds && o in bounds && c.mem[last].last
    ensures o <= last
  {
    hide Good;
    NextBound(c, bounds, last);
    NextBound(c, bounds, o);
  }

  lemma LiveCount(img: Image, d: nat, l: Layout, offs: seq<nat>)
    requires d < |img.inodes| && WellFormed(img.inodes[d].contents, l) && forall o :: o in offs <==> o in l.bounds
    ensures |SitesOf(img, d, offs)| == |Names(img.inodes[d].contents, l)|
  {
    hide Coalesced, Good;
    var c, sites := img.inodes[d].contents, SitesOf(img, d, offs);
    var m := map name | name in l.at :: (d, l.at[name]);
    forall s ensures s in sites <==> exists name :: name in m && m[name] == s {
      if s in sites {
        assert c.mem[s.1].name in m && m[c.mem[s.1].name] == s;
      }
    }
    InjectiveSize(m, sites);
    assert m.Keys == Names(c, l).Keys;
  }
}
