/** The vnode, the transaction it changes blocks through, and the iterator over its pointers. */
module VnodeMapper {
  import opened Sets
  import opened PointerTree
  import opened IteratorSpec
  import opened ContiguousRuns

  /**
   The part of a transaction that hands out and takes back blocks. For one unit of the reservation
   AllocateBlock gives a block that is neither set in the bitmap nor held by any pending change, as
   the allocator's reservations are proved to do in BlockReservations.
   */
  class Transaction {
    var reserved: nat
    /** Set in the block bitmap, or held. */
    var inUse: set<nat>
    var freed: set<nat>

    constructor (reserved: nat, inUse: set<nat>)
      ensures this.reserved == reserved && this.inUse == inUse && freed == {}
    {
      this.reserved := reserved;
      this.inUse := inUse;
      freed := {};
    }

    method AllocateBlock() returns (block: nat)
      requires reserved > 0
      modifies this
      ensures block != 0 && block !in old(inUse)
      ensures inUse == old(inUse) + {block} && reserved == old(reserved) - 1 && freed == old(freed)
    {
      block := NextClear(inUse, 1);
      inUse := inUse + {block};
      reserved := reserved - 1;
    }

    method DeallocateBlock(block: nat)
      modifies this`freed
      ensures freed == old(freed) + {block}
    {
      freed := freed + {block};
    }

    /** Trades a block for a new one, which is never the one given back. */
    method SwapBlock(oldBlock: nat) returns (block: nat)
      requires reserved > 0
      modifies this
      ensures block != 0 && block !in old(inUse)
      ensures inUse == old(inUse) + {block} && reserved == old(reserved) - 1
      ensures freed == old(freed) + (if oldBlock != 0 then {oldBlock} else {})
    {
      if oldBlock > 0 {
        DeallocateBlock(oldBlock);
      }
      block := AllocateBlock();
    }
  }

  class Vnode {
    var tree: Tree
    var blockCount: int

    constructor (tree: Tree, blockCount: int)
      ensures this.tree == tree && this.blockCount == blockCount
    {
      this.tree := tree;
      this.blockCount := blockCount;
    }

    /** Brings block f of the virtual indirect file into memory, finding it through its parent. */
    method LoadBlock(f: nat)
      requires f < POINTER_BLOCKS
      modifies this`tree
      ensures SameView(old(tree), tree) && f in tree.file
      decreases f > ROOT
    {
      if f in tree.file {
        return;
      }
      var parent;
      if f < ROOT {
        parent := tree.inode.inum[f];
      } else if f == ROOT {
        parent := tree.inode.dinum;
      } else {
        LoadBlock(ROOT);
        parent := tree.file[ROOT][f - LEAF_START];
      }
      if f !in tree.file {
        LoadEffect(tree, f);
        tree := tree.(file := tree.file[f := Stored(tree, parent)]);
      }
    }

    method AllocateIndirect(transaction: Transaction) returns (block: nat)
      requires transaction.reserved > 0
      modifies this`blockCount, transaction
      ensures block != 0 && block !in old(transaction.inUse)
      ensures transaction.inUse == old(transaction.inUse) + {block}
      ensures transaction.reserved == old(transaction.reserved) - 1 && transaction.freed == old(transaction.freed)
      ensures blockCount == old(blockCount) + 1
    {
      block := transaction.AllocateBlock();
      blockCount := blockCount + 1;
    }

    /** Gives back a block of this file, data or indirect. */
    method DeleteBlock(transaction: Transaction, block: nat)
      modifies this`blockCount, transaction`freed
      ensures blockCount == old(blockCount) - (if block != 0 then 1 else 0)
      ensures transaction.freed == old(transaction.freed) + (if block != 0 then {block} else {})
    {
      if block != 0 {
        transaction.DeallocateBlock(block);
        blockCount := blockCount - 1;
      }
    }
  }

  /** Every pointer block's device block is in use. */
  ghost predicate Owned(t: Tree, inUse: set<nat>) {
    forall f :: 0 <= f < POINTER_BLOCKS && Parent(t, f) != 0 ==> Parent(t, f) in inUse
  }

  /** The device blocks of a set of pointer blocks. */
  ghost function Places(t: Tree, fs: set<nat>): set<nat> {
    set f | f in fs && f < POINTER_BLOCKS :: Parent(t, f)
  }

  /** Everything a flush can change outside the iterator itself. */
  datatype Snapshot = Snapshot(tree: Tree, blockCount: int, reserved: nat, inUse: set<nat>, freed: set<nat>)

  /**
   From s to t pointer blocks `added` were allocated, each for one unit of the reservation and
   at a place not in use, and `removed` were freed; the flat map has not changed and the block
   count is in step.
   */
  ghost predicate Moved(s: Snapshot, t: Snapshot, added: set<nat>, removed: set<nat>) {
    && Effect(s.tree, t.tree, added, removed)
    && t.blockCount == s.blockCount + |added| - |removed|
    && s.reserved == t.reserved + |added|
    && t.inUse == s.inUse + Places(t.tree, added) && Places(t.tree, added) !! s.inUse
    && t.freed == s.freed + Places(s.tree, removed)
  }

  lemma NotMoved(s: Snapshot, t: Snapshot)
    requires Effect(s.tree, t.tree, {}, {}) && t == s.(tree := t.tree)
    ensures Moved(s, t, {}, {})
  {
  }

  lemma MovedCompose(s: Snapshot, t: Snapshot, u: Snapshot, a: set<nat>, r: set<nat>, b: set<nat>, q: set<nat>)
    requires Moved(s, t, a, r) && Moved(t, u, b, q) && a + r !! b + q
    requires a + b + (r + q) <= Below(POINTER_BLOCKS)
    ensures Moved(s, u, a + b, r + q)
  {
    hide Effect, Places;
    EffectCompose(s.tree, t.tree, u.tree, a, r, b, q);
    DisjointUnionSize(a, b);
    DisjointUnionSize(r, q);
    SameOutside(t.tree, u.tree, b, q, a);
    SameOutside(s.tree, t.tree, a, r, q);
    PlacesCompose(t.tree, u.tree, a, b);
    PlacesCompose(t.tree, s.tree, q, r);
    UnionAssoc(s.inUse, Places(t.tree, a), Places(u.tree, b));
    UnionAssoc(s.freed, Places(s.tree, r), Places(t.tree, q));
  }

  lemma MovedThenWritten(s: Snapshot, t: Snapshot, u: Snapshot, a: set<nat>, r: set<nat>)
    requires Moved(s, t, a, r) && Moved(t, u, {}, {}) && a + r <= Below(POINTER_BLOCKS)
    ensures Moved(s, u, a, r)
  {
    MovedCompose(s, t, u, a, r, {}, {});
    assert a + {} == a && r + {} == r;
  }

  lemma UnionAssoc(a: set<nat>, b: set<nat>, c: set<nat>)
    ensures a + b + c == a + (b + c) == a + (c + b)
  {
  }

  lemma SameOutside(t: Tree, u: Tree, added: set<nat>, removed: set<nat>, fs: set<nat>)
    requires Effect(t, u, added, removed) && fs !! added + removed
    ensures forall f :: f in fs && f < POINTER_BLOCKS ==> Parent(u, f) == Parent(t, f)
  {
  }

  lemma PlacesCompose(t: Tree, u: Tree, a: set<nat>, b: set<nat>)
    requires forall f :: f in a && f < POINTER_BLOCKS ==> Parent(u, f) == Parent(t, f)
    ensures Places(u, a + b) == Places(t, a) + Places(u, b)
    ensures Places(u, b + a) == Places(t, a) + Places(u, b)
  {
  }

  /** The level's block, if it is dirty but has no place. */
  ghost function Unplaced(t: Tree, n: nat, levels: seq<Level>, l: nat): set<nat>
    requires Shape(n, levels) && l < LevelCount(n)
  {
    if l + 1 < LevelCount(n) && levels[l].dirty && Parent(t, LevelBlock(n, l)) == 0 then {LevelBlock(n, l)} else {}
  }

  /** The level's block, if it has a place but is empty. */
  ghost function Emptied(t: Tree, n: nat, l: nat): set<nat>
    requires l < LevelCount(n)
  {
    if l + 1 < LevelCount(n) && Parent(t, LevelBlock(n, l)) != 0 && Content(t, LevelBlock(n, l)) == Zeros()
    then {LevelBlock(n, l)} else {}
  }

  /** How flushing a level may change the flags of the levels. */
  ghost predicate Cleaned(before: seq<Level>, after: seq<Level>, level: nat, touched: bool) {
    && |before| == |after| == 3 && level < 3
    && after[level] == before[level].(dirty := false)
    && (forall l :: 0 <= l < 3 && l != level && (l != level + 1 || !touched) ==> after[l] == before[l])
    && (touched && level < 2 ==> after[level + 1] == before[level + 1].(valid := true, dirty := true))
  }

  lemma CleanedOne(before: seq<Level>, level: nat)
    requires |before| == 3 && level < 3
    ensures Cleaned(before, before[level := before[level].(dirty := false)], level, false)
    ensures level < 2 ==>
              Cleaned(before, Mark(before, level + 1, true, true)[level := before[level].(dirty := false)], level, true)
    ensures level < 2 && before[level].valid ==>
              Cleaned(before, Mark(Mark(before, level + 1, true, true), level, true, false), level, true)
  {
  }

  class VnodeIterator {
    const vnode: Vnode
    const transaction: Transaction?
    var fileBlock: nat
    var contiguousBlockCount: nat
    var levelCount: nat
    var levels: seq<Level>

    constructor (vnode: Vnode, transaction: Transaction?)
      ensures this.vnode == vnode && this.transaction == transaction && |levels| == 3
    {
      this.vnode := vnode;
      this.transaction := transaction;
      fileBlock := 0;
      contiguousBlockCount := 0;
      levelCount := 0;
      levels := [Level(Dnum, 0, false, false), Level(Dnum, 0, false, false), Level(Dnum, 0, false, false)];
    }

    ghost predicate Valid()
      reads this, vnode, transaction
    {
      && IteratorInv(vnode.tree, fileBlock, levels)
      && levelCount == LevelCount(fileBlock)
      && (transaction != null ==> Owned(vnode.tree, transaction.inUse))
      && (transaction == null ==> DirtyBlocks(fileBlock, levels) == {} && !InodeDirty(fileBlock, levels))
    }

    /** A tree with nothing waiting to be flushed. */
    ghost predicate Ready(t: Tree)
      reads transaction
    {
      && Coherent(t, {}, false) && Unshared(t)
      && (transaction != null ==> Owned(t, transaction.inUse))
    }

    function BlkAt(level: nat): nat
      requires level < |levels| && levels[level].index < CountOf(levels[level].bank)
      requires levels[level].valid ==> InMemory(vnode.tree, levels[level].bank)
      reads this, vnode
    {
      if levels[level].valid then Cells(vnode.tree, levels[level].bank)[levels[level].index] else 0
    }

    /** Starts at file block n; fails beyond the end of the file. */
    method Init(n: nat) returns (ok: bool)
      requires |levels| == 3
      requires DOUBLE_START <= n < MAX_BLOCKS ==> EmptyFrom(vnode.tree, BlockOf(n))
      modifies this, vnode`tree
      ensures ok == (n <= MAX_BLOCKS)
      ensures SameView(old(vnode.tree), vnode.tree) && (!ok ==> vnode.tree == old(vnode.tree))
      ensures ok ==> fileBlock == n && levelCount == LevelCount(n) && contiguousBlockCount == 0
      ensures ok ==> Shape(n, levels) && Views(vnode.tree, n, levels) && RootTail(vnode.tree, n)
      ensures ok ==> forall l :: 0 <= l < LevelCount(n) ==> !levels[l].dirty
      ensures ok && Ready(old(vnode.tree)) ==> Valid()
    {
      fileBlock := n;
      contiguousBlockCount := 0;
      levelCount := LevelCount(n);
      if n > MAX_BLOCKS {
        return false;
      }
      var level := levelCount;
      while level > 0
        invariant 0 <= level <= levelCount == LevelCount(n) && |levels| == 3
        invariant fileBlock == n && contiguousBlockCount == 0
        invariant SameView(old(vnode.tree), vnode.tree)
        invariant forall l :: level <= l < levelCount ==>
                    levels[l].bank == BankAt(n, l) && levels[l].index == IndexAt(n, l) && !levels[l].dirty &&
                    (levels[l].valid ==> InMemory(vnode.tree, levels[l].bank)) &&
                    (!levels[l].valid ==> levels[l].bank.FileBlock? && Parent(vnode.tree, levels[l].bank.f) == 0)
      {
        level := level - 1;
        InitializeLevel(level, n);
      }
      ok := true;
      assert Shape(n, levels);
      assert Views(vnode.tree, n, levels);
      SameViewKeeps(old(vnode.tree), vnode.tree, {}, false);
    }

    /** A level whose parent pointer is zero stays without a view until something is set in it. */
    method InitializeLevel(level: nat, n: nat)
      requires |levels| == 3 && level < levelCount == LevelCount(n)
      requires DOUBLE_START <= n < MAX_BLOCKS ==> EmptyFrom(vnode.tree, BlockOf(n))
      requires forall l :: level < l < levelCount ==>
                 levels[l].bank == BankAt(n, l) && levels[l].index == IndexAt(n, l) &&
                 (levels[l].valid ==> InMemory(vnode.tree, levels[l].bank)) &&
                 (!levels[l].valid ==> levels[l].bank.FileBlock? && Parent(vnode.tree, levels[l].bank.f) == 0)
      modifies this`levels, vnode`tree
      ensures SameView(old(vnode.tree), vnode.tree)
      ensures |levels| == 3 && forall l :: 0 <= l < 3 && l != level ==> levels[l] == old(levels[l])
      ensures levels[level].bank == BankAt(n, level) && levels[level].index == IndexAt(n, level) && !levels[level].dirty
      ensures levels[level].valid ==> InMemory(vnode.tree, levels[level].bank)
      ensures levels[level].valid <==> !(levels[level].bank.FileBlock? && Parent(vnode.tree, levels[level].bank.f) == 0)
    {
      var bank, index := BankAt(n, level), IndexAt(n, level);
      if level + 1 < levelCount && BlkAt(level + 1) == 0 {
        levels := levels[level := Level(bank, index, false, false)];
      } else {
        GetView(bank);
        levels := levels[level := Level(bank, index, true, false)];
      }
    }

    method GetView(bank: Bank)
      requires bank.FileBlock? ==> bank.f < POINTER_BLOCKS
      modifies vnode`tree
      ensures SameView(old(vnode.tree), vnode.tree) && InMemory(vnode.tree, bank)
    {
      if bank.FileBlock? {
        vnode.LoadBlock(bank.f);
      }
    }

    /** Sets the pointer a level points at, getting a view first if the level is sparse. */
    method SetBlkAt(level: nat, block: nat) returns (ghost seen: Tree)
      requires Shape(fileBlock, levels) && Views(vnode.tree, fileBlock, levels)
      requires level < LevelCount(fileBlock) && transaction != null
      modifies this`levels, vnode`tree
      ensures |levels| == 3
      ensures SameView(old(vnode.tree), seen)
      ensures block == 0 && !old(levels)[level].valid ==> seen == old(vnode.tree) == vnode.tree && levels == old(levels)
      ensures block != 0 || old(levels)[level].valid ==>
                && InMemory(seen, BankAt(fileBlock, level))
                && vnode.tree == SetCell(seen, BankAt(fileBlock, level), IndexAt(fileBlock, level), block)
                && levels == Mark(old(levels), level, true, true)
      ensures old(levels)[level].valid ==> seen == old(vnode.tree)
    {
      if !levels[level].valid {
        if block == 0 {
          return vnode.tree;
        }
        GetView(levels[level].bank);
      }
      seen := vnode.tree;
      vnode.tree := SetCell(vnode.tree, levels[level].bank, levels[level].index, block);
      levels := Mark(levels, level, true, true);
    }

    /** Maps the current file block to `block`. */
    method SetBlk(block: nat)
      requires Valid() && transaction != null && fileBlock < MAX_BLOCKS
      modifies this`levels, vnode`tree
      ensures Valid()
      ensures forall m :: 0 <= m < MAX_BLOCKS ==>
                Lookup(vnode.tree, m) == if m == fileBlock then block else Lookup(old(vnode.tree), m)
      ensures forall f :: 0 <= f < POINTER_BLOCKS ==> Parent(vnode.tree, f) == Parent(old(vnode.tree), f)
      ensures forall f :: 0 <= f < POINTER_BLOCKS && (fileBlock < DIRECT || f != BlockOf(fileBlock)) ==>
                Content(vnode.tree, f) == Content(old(vnode.tree), f)
      ensures old(vnode.tree).file.Keys <= vnode.tree.file.Keys
      ensures block != 0 || old(levels)[0].valid ==> levels[0].valid && levels[0].dirty
      ensures block == 0 && !old(levels)[0].valid ==> levels == old(levels)
      ensures forall l :: 1 <= l < 3 ==> levels[l] == old(levels)[l]
    {
      hide Coherent, Unshared, RootTail, Owned;
      ghost var t, ls := vnode.tree, levels;
      ghost var seen := SetBlkAt(0, block);
      if block != 0 || ls[0].valid {
        InvAfterView(t, seen, fileBlock, ls, 0);
        InvAfterSet(seen, fileBlock, Mark(ls, 0, true, ls[0].dirty), block);
        SetLeaf(seen, fileBlock, block);
        OwnedSame(t, vnode.tree, transaction.inUse);
      } else {
        SparseReadsZero(t, fileBlock, ls);
      }
    }

    /** Writes out a view with changes: a pointer block to its place, or the inode. */
    method FlushView(level: nat)
      requires Valid() && level < levelCount && transaction != null
      requires level + 1 < levelCount && levels[level].dirty ==> Parent(vnode.tree, LevelBlock(fileBlock, level)) != 0
      modifies this`levels, vnode`tree
      ensures Valid() && levels == old(levels)[level := old(levels)[level].(dirty := false)]
      ensures Moved(old(Now()), Now(), {}, {})
      ensures SameContents(old(vnode.tree), vnode.tree)
      ensures Need(vnode.tree, fileBlock, levels) == Need(old(vnode.tree), fileBlock, old(levels))
    {
      hide Coherent, Unshared, RootTail, Owned, Need, Effect, Places, SameContents, Parent;
      ghost var t := vnode.tree;
      WriteKeeps(t, t);
      if !levels[level].dirty {
        return;
      }
      var bank := levels[level].bank;
      if bank.FileBlock? {
        InvAfterWrite(vnode.tree, fileBlock, levels, level);
        assert level + 1 < levelCount;
        vnode.tree := WriteBack(vnode.tree, bank.f);
      } else {
        InvAfterSave(vnode.tree, fileBlock, levels);
        vnode.tree := SaveInode(vnode.tree);
      }
      levels := Mark(levels, level, true, false);
      WriteKeeps(t, vnode.tree);
    }

    /** Whether every pointer in the level's view is zero. */
    method IsEmpty(level: nat) returns (empty: bool)
      requires Valid() && level + 1 < levelCount && levels[level].valid
      ensures empty <==> Content(vnode.tree, LevelBlock(fileBlock, level)) == Zeros()
    {
      var cells := Cells(vnode.tree, levels[level].bank);
      var i := 0;
      while i < PER_INDIRECT
        invariant 0 <= i <= PER_INDIRECT
        invariant forall k :: 0 <= k < i ==> cells[k] == 0
      {
        if cells[i] != 0 {
          return false;
        }
        i := i + 1;
      }
      assert cells == Zeros();
      empty := true;
    }

    /** The mapping of the current file block; 0 if unmapped or at the end of the file. */
    function Blk(): (block: nat)
      requires Valid()
      reads this, vnode, transaction
      ensures fileBlock < MAX_BLOCKS ==> block == Lookup(vnode.tree, fileBlock)
    {
      if levelCount > 0 then
        LowestCell(vnode.tree, fileBlock, levels);
        BlkAt(0)
      else 0
    }

    /** The cached length, if there is one, is that of a run from the current file block. */
    ghost predicate CacheSound()
      reads this, vnode
    {
      contiguousBlockCount != 0 ==> RunSound(vnode.tree, fileBlock, contiguousBlockCount)
    }

    /** The length, up to `max`, of a run of blocks from here. Computed once and then remembered. */
    method GetContiguousBlockCount(max: nat) returns (count: nat)
      requires Valid() && CacheSound()
      modifies this`contiguousBlockCount
      ensures Valid() && CacheSound()
      ensures fileBlock == MAX_BLOCKS ==> count == 0
      ensures fileBlock < MAX_BLOCKS ==> count == if max < contiguousBlockCount then max else contiguousBlockCount
      ensures fileBlock < MAX_BLOCKS && max > 0 ==> RunSound(vnode.tree, fileBlock, count)
    {
      hide IteratorInv, Owned, RunSound;
      CacheInRange(vnode.tree, fileBlock, levels, contiguousBlockCount);
      if levelCount == 0 {
        return 0;
      }
      if contiguousBlockCount == 0 {
        contiguousBlockCount := ComputeContiguousBlockCount();
      }
      count := if max < contiguousBlockCount then max else contiguousBlockCount;
      ghost var cached := contiguousBlockCount;
      CacheInRange(vnode.tree, fileBlock, levels, cached);
      if max > 0 {
        RunPrefix(vnode.tree, fileBlock, cached, count);
      }
    }

    /**
     From a hole the scan goes up the levels and never down again, so that it stops at any
     pointer block that has a place, even an empty one.
     */
    method ComputeContiguousBlockCount() returns (count: nat)
      requires Valid() && fileBlock < MAX_BLOCKS
      ensures RunSound(vnode.tree, fileBlock, count)
    {
      hide IteratorInv, Owned, Lookup, RunSound, Scanning, Scanned, ZeroCells;
      ghost var t, n := vnode.tree, fileBlock;
      ViewsInMemory(t, n, levels);
      LowestCell(t, n, levels);
      var index: nat := levels[0].index;
      if Blk() == 0 {
        count := 0;
        var multiplier: nat, level: nat := 1, 0;
        ScanStart(t, n);
        while true
          invariant 0 <= level < levelCount && multiplier == Multiplier(level)
          invariant index <= CountOf(levels[level].bank) && (level == 0 ==> index < CountOf(levels[0].bank))
          invariant Scanning(t, n, level, index, count)
          decreases levelCount - level
        {
          var left := CountOf(levels[level].bank) - index;
          if left == 0 || !levels[level].valid {
            NothingInView(t, levels[level], index, index + left);
            ScanSkip(t, n, levels, level, index, count, index + left);
            count := count + left * multiplier;
          } else {
            var cells := Cells(vnode.tree, levels[level].bank);
            if cells[index] == 0 {
              var contiguous := Coalesce(cells, index, left);
              CoalescedZeros(t, levels[level], index, index + contiguous);
              ScanSkip(t, n, levels, level, index, count, index + contiguous);
              count := count + contiguous * multiplier;
              if contiguous < left {
                ScanStop(t, n, level, index + contiguous, count);
                return;
              }
            } else {
              ScanStopHere(t, n, levels, level, index, count);
              return;
            }
          }
          level := level + 1;
          if level >= levelCount {
            ScanStop(t, n, level - 1, CountOf(levels[level - 1].bank), count);
            return;
          }
          ScanUp(t, n, level - 1, count);
          multiplier := multiplier * PER_INDIRECT;
          index := levels[level].index + 1;
        }
      } else {
        var cells := Cells(vnode.tree, levels[0].bank);
        count := Coalesce(cells, index, |cells| - index);
        MappedCells(t, n, levels, count);
      }
    }

    ghost function Now(): Snapshot
      requires transaction != null
      reads this, vnode, transaction
    {
      Snapshot(vnode.tree, vnode.blockCount, transaction.reserved, transaction.inUse, transaction.freed)
    }

    /**
     Flushes one level. A pointer block that is empty but has a place gives it back; a dirty
     one without a place is given one; what is dirty is then written. `added` and `removed`
     are the pointer blocks this allocated and freed.
     */
    method FlushLevel(level: nat) returns (ghost added: set<nat>, ghost removed: set<nat>)
      requires Valid() && level < levelCount && transaction != null
      requires forall l :: 0 <= l < level ==> !levels[l].dirty
      requires Unplaced(vnode.tree, fileBlock, levels, level) != {} ==> transaction.reserved > 0
      modifies this`levels, vnode, transaction
      ensures Valid() && Cleaned(old(levels), levels, level, added + removed != {})
      ensures added == Unplaced(old(vnode.tree), fileBlock, old(levels), level)
      ensures removed == Emptied(old(vnode.tree), fileBlock, level)
      ensures Moved(old(Now()), Now(), added, removed)
      ensures level + 1 < levelCount ==>
                Content(vnode.tree, LevelBlock(fileBlock, level)) == Content(old(vnode.tree), LevelBlock(fileBlock, level))
      ensures Need(vnode.tree, fileBlock, levels) == Need(old(vnode.tree), fileBlock, old(levels)) - added
    {
      hide Coherent, Unshared, RootTail, Owned, Need, Moved, Zeros, Content, Parent, Cleaned;
      added, removed := {}, {};
      CleanedOne(levels, level);
      if level + 1 < levelCount {
        ParentBlock(vnode.tree, fileBlock, levels, level);
        var parentBlock := BlkAt(level + 1);
        if parentBlock != 0 && BlkAt(level) == 0 {
          var empty := IsEmpty(level);
          if empty {
            FreeLevel(level, parentBlock);
            removed := {LevelBlock(fileBlock, level)};
            return;
          }
        }
        added := WriteLevel(level, parentBlock == 0);
      } else {
        FlushView(level);
      }
    }

    method FreeLevel(level: nat, parentBlock: nat)
      requires Valid() && level + 1 < levelCount && transaction != null
      requires forall l :: 0 <= l < level ==> !levels[l].dirty
      requires levels[level].valid && levels[level + 1].valid
      requires Content(vnode.tree, LevelBlock(fileBlock, level)) == Zeros()
      requires parentBlock != 0 && Parent(vnode.tree, LevelBlock(fileBlock, level)) == parentBlock
      modifies this`levels, vnode, transaction`freed
      ensures Valid() && Cleaned(old(levels), levels, level, true)
      ensures Moved(old(Now()), Now(), {}, {LevelBlock(fileBlock, level)})
      ensures Content(vnode.tree, LevelBlock(fileBlock, level)) == Zeros()
      ensures Need(vnode.tree, fileBlock, levels) == Need(old(vnode.tree), fileBlock, old(levels))
    {
      hide Coherent, Unshared, RootTail, Owned, Effect, Places, Need, Cleaned, Parent, Content, Zeros;
      EmptyLevel(vnode.tree, fileBlock, levels, level, transaction.inUse);
      CleanedOne(levels, level);
      vnode.DeleteBlock(transaction, parentBlock);
      ghost var seen := SetBlkAt(level + 1, 0);
      levels := Mark(levels, level, true, false);
    }

    /** Writes a level that is not being freed, after finding a place for it if it lacks one. */
    method WriteLevel(level: nat, unplaced: bool) returns (ghost added: set<nat>)
      requires Valid() && level + 1 < levelCount && transaction != null
      requires unplaced == (Parent(vnode.tree, LevelBlock(fileBlock, level)) == 0)
      requires Unplaced(vnode.tree, fileBlock, levels, level) != {} ==> transaction.reserved > 0
      modifies this`levels, vnode, transaction
      ensures Valid() && Cleaned(old(levels), levels, level, added != {})
      ensures added == Unplaced(old(vnode.tree), fileBlock, old(levels), level)
      ensures Moved(old(Now()), Now(), added, {})
      ensures Content(vnode.tree, LevelBlock(fileBlock, level)) == Content(old(vnode.tree), LevelBlock(fileBlock, level))
      ensures Need(vnode.tree, fileBlock, levels) == Need(old(vnode.tree), fileBlock, old(levels)) - added
    {
      hide Coherent, Unshared, RootTail, Owned, Need, Moved, Zeros, Effect, Content, Cleaned;
      added := Unplaced(vnode.tree, fileBlock, levels, level);
      CleanedOne(levels, level);
      if levels[level].dirty && unplaced {
        AllocateLevel(level);
        ghost var middle := Now();
        FlushView(level);
        MovedThenWritten(old(Now()), middle, Now(), added, {});
      } else {
        FlushView(level);
      }
    }

    method AllocateLevel(level: nat)
      requires Valid() && level + 1 < levelCount && transaction != null && transaction.reserved > 0
      requires levels[level].dirty && Parent(vnode.tree, LevelBlock(fileBlock, level)) == 0
      modifies this`levels, vnode, transaction
      ensures Valid() && levels == Mark(old(levels), level + 1, true, true)
      ensures Moved(old(Now()), Now(), {LevelBlock(fileBlock, level)}, {})
      ensures Parent(vnode.tree, LevelBlock(fileBlock, level)) != 0
      ensures Content(vnode.tree, LevelBlock(fileBlock, level)) == Content(old(vnode.tree), LevelBlock(fileBlock, level))
      ensures Need(vnode.tree, fileBlock, levels) ==
              Need(old(vnode.tree), fileBlock, old(levels)) - {LevelBlock(fileBlock, level)}
    {
      hide Coherent, Unshared, RootTail, Owned, Effect, Places, Need, Views;
      ghost var t, ls := vnode.tree, levels;
      NoPlaces(t);
      var block := vnode.AllocateIndirect(transaction);
      ghost var seen := SetBlkAt(level + 1, block);
      PlaceLevel(t, seen, fileBlock, ls, level, block, old(transaction.inUse));
    }

    /** Writes out everything the iterator changed; nothing is left waiting. */
    method Flush() returns (ghost added: set<nat>, ghost removed: set<nat>)
      requires Valid()
      requires transaction != null ==> |Need(vnode.tree, fileBlock, levels)| <= transaction.reserved
      modifies this`levels, vnode, transaction
      ensures Valid() && forall l :: 0 <= l < levelCount ==> !levels[l].dirty
      ensures Coherent(vnode.tree, {}, false)
      ensures transaction != null ==> Moved(old(Now()), Now(), added, removed)
      ensures transaction == null ==> vnode.tree == old(vnode.tree) && added == {} == removed
      ensures added == Need(old(vnode.tree), fileBlock, old(levels))
      ensures added + removed <= LevelBlocks(fileBlock, 3)
      ensures transaction != null ==> Pruned(vnode.tree, LevelBlocks(fileBlock, 3), added, removed)
    {
      hide Coherent, Unshared, RootTail, Owned, Need, Moved, Effect, Views, Pruned, Unplaced, Emptied, Content, Parent,
           LevelBlocks, Flushing;
      added, removed := {}, {};
      if transaction == null {
        ReadOnlyNeedsNothing(vnode.tree, fileBlock, levels);
        return;
      }
      ghost var start, total := Now(), Need(vnode.tree, fileBlock, levels);
      StartFlush(start, fileBlock, levels);
      var level := 0;
      while level < levelCount
        invariant 0 <= level <= levelCount && Valid()
        invariant forall l :: 0 <= l < level ==> !levels[l].dirty
        invariant Flushing(start, Now(), fileBlock, levels, total, level, added, removed)
      {
        ghost var before, ls := Now(), levels;
        NeedOfLevel(start, before, fileBlock, ls, total, level, added, removed);
        ghost var a, r := FlushLevel(level);
        FlushedOne(start, before, Now(), fileBlock, ls, levels, total, level, added, removed, a, r);
        added, removed := added + a, removed + r;
        level := level + 1;
      }
      EndFlush(start, Now(), fileBlock, levels, total, added, removed);
    }

    ghost function Seen(): Snapshot
      reads this, vnode, transaction
    {
      if transaction == null then Snapshot(vnode.tree, 0, 0, {}, {}) else Now()
    }

    /**
     Moves k file blocks ahead, flushing the views that are left behind. Fails only beyond
     the end of the file, and then changes nothing.
     */
    method Advance(k: nat) returns (ok: bool, ghost added: set<nat>, ghost removed: set<nat>)
      requires Valid()
      requires transaction != null ==> |Need(vnode.tree, fileBlock, levels)| <= transaction.reserved
      modifies this, vnode, transaction
      ensures ok == (old(fileBlock) + k <= MAX_BLOCKS)
      ensures Valid() && fileBlock == (if ok then old(fileBlock) + k else old(fileBlock))
      ensures !ok ==> levels == old(levels) && vnode.tree == old(vnode.tree)
      ensures Advanced(old(Seen()), Seen(), old(fileBlock), fileBlock, old(levels), levels, added, removed, transaction == null)
      ensures contiguousBlockCount == 0 || contiguousBlockCount == old(contiguousBlockCount) - k ||
              (!ok && contiguousBlockCount == old(contiguousBlockCount))
      ensures old(CacheSound()) ==> CacheSound()
    {
      hide IteratorInv, Advanced, Moved, Need, EmptyFrom, Views, RootTail, SameView, Owned, Further, Coherent, Unshared,
           RunSound;
      added, removed := {}, {};
      ghost var start, n, ls := Seen(), fileBlock, levels;
      StayLaws(start, n, ls);
      ShapeOf(vnode.tree, n, ls);
      if levelCount == 0 {
        ok := k == 0;
        return;
      }
      if k < CountOf(levels[0].bank) - levels[0].index {
        levels := levels[0 := levels[0].(index := levels[0].index + k)];
        fileBlock := fileBlock + k;
        contiguousBlockCount := if k >= contiguousBlockCount then 0 else contiguousBlockCount - k;
        StepLaws(start, n, ls, k);
        CacheStep(start.tree, n, old(contiguousBlockCount), k);
        return true, {}, {};
      }
      if fileBlock + k <= MAX_BLOCKS {
        LeavingView(vnode.tree, n, ls, k);
      }
      var next := new VnodeIterator(vnode, transaction);
      ok := next.Init(fileBlock + k);
      if !ok {
        return;
      }
      ghost var loaded := Seen();
      InvAfterLoad(start.tree, vnode.tree, n, ls);
      SameViewKeepsOwned(start.tree, vnode.tree);
      StillFurther(start.tree, vnode.tree, n, next.fileBlock, next.levels);
      added, removed := LeaveFor(next);
      LoadLaws(start, loaded, Seen(), n, fileBlock, ls, levels, added, removed, transaction == null);
    }

    /** Flushes the views that `next`, just placed further on, does not share, and becomes it. */
    method LeaveFor(next: VnodeIterator) returns (ghost added: set<nat>, ghost removed: set<nat>)
      requires Valid()
      requires transaction != null ==> |Need(vnode.tree, fileBlock, levels)| <= transaction.reserved
      requires next != this && next.vnode == vnode && next.transaction == transaction
      requires Further(vnode.tree, fileBlock, next.fileBlock, next.levels) && next.levelCount == LevelCount(next.fileBlock)
      modifies this, vnode, transaction
      ensures Valid() && fileBlock == next.fileBlock && contiguousBlockCount == next.contiguousBlockCount
      ensures Advanced(old(Seen()), Seen(), old(fileBlock), fileBlock, old(levels), levels, added, removed, transaction == null)
    {
      hide IteratorInv, Advanced, Moved, Need, Further, Pruned, DirtyBlocks, InodeDirty, Owned, Coherent, Unplaced, Emptied,
           Content, Parent, LevelBlocks;
      ghost var t, n, ls := Seen(), fileBlock, levels;
      ShapeOf(vnode.tree, n, ls);
      LevelsDiffer(vnode.tree, n, next.fileBlock, next.levels);
      NothingDirty(n, ls);
      if next.levelCount != levelCount {
        added, removed := Flush();
        JumpLaws(t, Seen(), n, next.fileBlock, ls, levels, next.levels, added, removed, transaction == null);
        levels := next.levels;
      } else {
        // The lowest views differ, since the move leaves it; those above are of the same pointers.
        added, removed := {}, {};
        if transaction != null {
          NeedOfLowest(vnode.tree, n, ls);
          added, removed := FlushLevel(0);
        }
        TakeOverLaws(t, Seen(), n, next.fileBlock, ls, levels, next.levels, added, removed, transaction == null);
        TakeOverDirty(n, next.fileBlock, levels, next.levels);
        levels := TakeOver(next.levels, levels);
      }
      fileBlock, levelCount, contiguousBlockCount := next.fileBlock, next.levelCount, next.contiguousBlockCount;
    }
  }

  /**
   The longest run at `index` within the next `max` entries: of zeros, or of numbers going up
   by one.
   */
  method Coalesce(cells: seq<nat>, index: nat, max: nat) returns (count: nat)
    requires index + max <= |cells| && max > 0
    ensures 1 <= count <= max
    ensures cells[index] == 0 ==> forall j :: index <= j < index + count ==> cells[j] == 0
    ensures cells[index] != 0 ==> forall j :: index < j < index + count ==> cells[j] == cells[j - 1] + 1
    ensures count < max ==>
              cells[index + count] != if cells[index] == 0 then 0 else cells[index + count - 1] + 1
  {
    count := 1;
    if cells[index] == 0 {
      while count < max && cells[index + count] == 0
        invariant 1 <= count <= max
        invariant forall j :: index < j < index + count ==> cells[j] == 0
      {
        count := count + 1;
      }
    } else {
      while count < max && cells[index + count] == cells[index + count - 1] + 1
        invariant 1 <= count <= max
        invariant forall j :: index < j < index + count ==> cells[j] == cells[j - 1] + 1
      {
        count := count + 1;
      }
    }
  }

  /** The lowest view is where the current mapping is found. */
  lemma LowestCell(t: Tree, n: nat, levels: seq<Level>)
    requires IteratorInv(t, n, levels) && n < MAX_BLOCKS
    ensures levels[0].bank == BankAt(n, 0) && levels[0].index == IndexAt(n, 0)
    ensures levels[0].valid ==> InMemory(t, levels[0].bank)
    ensures Lookup(t, n) == if levels[0].valid then Cells(t, levels[0].bank)[levels[0].index] else 0
  {
    if !levels[0].valid {
      SparseReadsZero(t, n, levels);
    }
  }

  lemma ViewsInMemory(t: Tree, n: nat, levels: seq<Level>)
    requires IteratorInv(t, n, levels)
    ensures Shape(n, levels)
    ensures forall l :: 0 <= l < LevelCount(n) ==> levels[l].valid ==> InMemory(t, levels[l].bank)
  {
  }

  lemma CacheInRange(t: Tree, n: nat, levels: seq<Level>, count: nat)
    requires IteratorInv(t, n, levels)
    ensures n <= MAX_BLOCKS && (n == MAX_BLOCKS <==> LevelCount(n) == 0)
    ensures RunSound(t, n, count) ==> n < MAX_BLOCKS && count > 0
  {
  }

  lemma CacheStep(t: Tree, n: nat, count: nat, k: nat)
    ensures k < count && RunSound(t, n, count) ==> RunSound(t, n + k, count - k)
  {
    if k < count && RunSound(t, n, count) {
      RunSuffix(t, n, count, k);
    }
  }

  lemma CoalescedZeros(t: Tree, l: Level, lo: nat, hi: nat)
    requires l.valid && InMemory(t, l.bank) && lo < hi <= CountOf(l.bank)
    requires var cells := Cells(t, l.bank); cells[lo] == 0 && forall j :: lo < j < hi ==> cells[j] == 0
    ensures ZeroCells(t, l, lo, hi)
  {
  }

  lemma NothingInView(t: Tree, l: Level, lo: nat, hi: nat)
    requires lo == hi || !l.valid
    ensures ZeroCells(t, l, lo, hi)
  {
  }

  /** The scan is about to look at entry `index` of level l; all before it is a hole. */
  ghost predicate Scanning(t: Tree, n: nat, l: nat, index: nat, count: nat) {
    && n < MAX_BLOCKS && l < LevelCount(n)
    && index == (if l == 0 then IndexAt(n, 0) else IndexAt(n, l) + 1) <= CountOf(BankAt(n, l))
    && SparseRun(t, n, count) && n + count == StartAt(n, l, index)
    && (count > 0 <==> l > 0)
  }

  /** The hole reaches up to entry `index` of level l. */
  ghost predicate Scanned(t: Tree, n: nat, l: nat, index: nat, count: nat) {
    && n < MAX_BLOCKS && l < LevelCount(n) && index <= CountOf(BankAt(n, l))
    && SparseRun(t, n, count) && n + count == StartAt(n, l, index) && count > 0
  }

  lemma ScanStart(t: Tree, n: nat)
    requires n < MAX_BLOCKS
    ensures Scanning(t, n, 0, IndexAt(n, 0), 0)
  {
    ScanEnds(n);
  }

  /** Passing over zero entries lengthens the hole. */
  lemma ScanSkip(t: Tree, n: nat, levels: seq<Level>, l: nat, index: nat, count: nat, hi: nat)
    requires IteratorInv(t, n, levels) && Scanning(t, n, l, index, count)
    requires index <= hi <= CountOf(BankAt(n, l)) && (l == 0 ==> index < hi)
    requires ZeroCells(t, levels[l], index, hi)
    ensures Scanned(t, n, l, hi, count + (hi - index) * Multiplier(l))
  {
    hide IteratorInv, SparseRun, ZeroCells;
    if l == 0 {
      ScanLowest(t, n, levels, hi);
    } else if l == 1 {
      assert Multiplier(1) == PER_INDIRECT;
      ScanAbove(t, n, levels, count, index, hi);
    } else {
      ScanEnds(n);
      assert hi == index;
    }
  }

  lemma ScanUp(t: Tree, n: nat, l: nat, count: nat)
    requires l + 1 < LevelCount(n) && Scanned(t, n, l, CountOf(BankAt(n, l)), count)
    ensures Scanning(t, n, l + 1, IndexAt(n, l + 1) + 1, count)
    ensures Multiplier(l + 1) == Multiplier(l) * PER_INDIRECT
  {
    hide SparseRun;
    LevelUp(n, l);
  }

  lemma ScanStop(t: Tree, n: nat, l: nat, index: nat, count: nat)
    requires Scanned(t, n, l, index, count)
    ensures RunSound(t, n, count)
  {
    hide Lookup;
    assert SparseFrom(t, n, n);
    EndInRegion(n, l, index);
  }

  lemma EndInRegion(n: nat, l: nat, index: nat)
    requires n < MAX_BLOCKS && l < LevelCount(n) && index <= CountOf(BankAt(n, l))
    ensures StartAt(n, l, index) <= RegionEnd(n)
  {
  }

  lemma ScanStopHere(t: Tree, n: nat, levels: seq<Level>, l: nat, index: nat, count: nat)
    requires IteratorInv(t, n, levels) && Scanning(t, n, l, index, count)
    requires Lookup(t, n) == 0 && index < CountOf(levels[l].bank)
    requires levels[l].valid && InMemory(t, levels[l].bank) && Cells(t, levels[l].bank)[index] != 0
    ensures RunSound(t, n, count)
  {
    LowestCell(t, n, levels);
    hide IteratorInv, Lookup, SparseRun;
    assert Scanned(t, n, l, index, count);
    ScanStop(t, n, l, index, count);
  }

  lemma MappedCells(t: Tree, n: nat, levels: seq<Level>, count: nat)
    requires IteratorInv(t, n, levels) && n < MAX_BLOCKS && levels[0].valid && Lookup(t, n) != 0
    requires var cells := Cells(t, levels[0].bank);
             && 1 <= count <= |cells| - levels[0].index
             && (forall j :: levels[0].index < j < levels[0].index + count ==> cells[j] == cells[j - 1] + 1)
    ensures RunSound(t, n, count)
  {
    var i, cells := levels[0].index, Cells(t, levels[0].bank);
    forall m | n <= m < n + count ensures m < MAX_BLOCKS && Lookup(t, m) == cells[i + (m - n)] {
      SameBlock(n, m - n);
    }
    UpByOne(cells, i, count);
    forall m | n <= m < n + count ensures Lookup(t, m) == Lookup(t, n) + (m - n) {
      assert cells[i + (m - n)] == cells[i] + (m - n);
    }
    SameBlock(n, count - 1);
  }

  lemma {:induction false} UpByOne(cells: seq<nat>, i: nat, count: nat)
    requires 1 <= count && i + count <= |cells|
    requires forall j :: i < j < i + count ==> cells[j] == cells[j - 1] + 1
    ensures forall j :: i <= j < i + count ==> cells[j] == cells[i] + (j - i)
  {
    if count > 1 {
      UpByOne(cells, i, count - 1);
      var last := i + count - 1;
      assert cells[last] == cells[last - 1] + 1;
    }
  }

  /**
   SetBlk leaves the cached length alone. It stays right exactly when it was 1 or the
   pointer does not change.
   */
  lemma CacheAfterSetBlk(t: Tree, u: Tree, n: nat, count: nat, block: nat)
    requires RunSound(t, n, count)
    requires forall m :: 0 <= m < MAX_BLOCKS ==> Lookup(u, m) == if m == n then block else Lookup(t, m)
    requires forall f :: 0 <= f < POINTER_BLOCKS ==> Parent(u, f) == Parent(t, f)
    ensures RunSound(u, n, count) <==> count == 1 || block == Lookup(t, n)
  {
    hide Lookup, Parent;
    if count > 1 {
      assert Lookup(t, n) == 0 ==> SparseFrom(t, n, n + 1);
      assert RunSound(u, n, count) && block == 0 ==> SparseFrom(u, n, n + 1);
    }
    if block == Lookup(t, n) == 0 {
      forall m | n <= m < n + count ensures SparseFrom(u, n, m) {
        assert SparseFrom(t, n, m);
      }
    }
    assert block == 0 && count == 1 ==> SparseFrom(u, n, n);
  }

  /** An empty file of which the first block is mapped after the first run was measured. */
  lemma CacheGoesStale()
    ensures var inode := Pointers(seq(DIRECT, i => 0), seq(INDIRECT, i => 0), 0);
            var t := Tree(inode, inode, map[], map[]);
            RunSound(t, 0, DIRECT) && !RunSound(SetCell(t, Dnum, 0, 5), 0, DIRECT)
  {
    var inode := Pointers(seq(DIRECT, i => 0), seq(INDIRECT, i => 0), 0);
    var t := Tree(inode, inode, map[], map[]);
    var u := SetCell(t, Dnum, 0, 5);
    forall m: nat | 0 <= m < DIRECT ensures SparseFrom(t, 0, m) {
    }
    assert Lookup(u, 0) == 5 && Lookup(u, 1) == 0;
  }

  /** What moving from n to m does to the tree and to what still has to be allocated. */
  ghost predicate Advanced(
    s: Snapshot, u: Snapshot, n: nat, m: nat, before: seq<Level>, after: seq<Level>,
    added: set<nat>, removed: set<nat>, readOnly: bool)
  {
    && Shape(n, before) && IteratorInv(u.tree, m, after)
    && added <= Need(s.tree, n, before)
    && Need(u.tree, m, after) == Need(s.tree, n, before) - added
    && added + removed <= LeftBehind(n, m)
    && (if readOnly then SameView(s.tree, u.tree)
        else Moved(s, u, added, removed) && Pruned(u.tree, LeftBehind(n, m), added, removed))
  }

  /** The pointer blocks in view at n that are no longer in view at m. */
  ghost function LeftBehind(n: nat, m: nat): set<nat> {
    (if DIRECT <= n < MAX_BLOCKS && !(DIRECT <= m < MAX_BLOCKS && BlockOf(n) == BlockOf(m)) then {BlockOf(n)} else {}) +
    (if DOUBLE_START <= n < MAX_BLOCKS && !(DOUBLE_START <= m < MAX_BLOCKS) then {ROOT} else {})
  }

  /** A clean iterator at m, placed there while one at n < m, out of m's view, is still open. */
  ghost predicate Further(t: Tree, n: nat, m: nat, next: seq<Level>) {
    && n < m <= MAX_BLOCKS
    && (LevelCount(n) == LevelCount(m) ==> LevelCount(n) >= 2 && BlockOf(m) != BlockOf(n))
    && Shape(m, next) && Views(t, m, next) && RootTail(t, m)
    && (DOUBLE_START <= m < MAX_BLOCKS ==> EmptyFrom(t, BlockOf(m)))
    && (forall l :: 0 <= l < LevelCount(m) ==> !next[l].dirty)
  }

  lemma ShapeOf(t: Tree, n: nat, levels: seq<Level>)
    requires IteratorInv(t, n, levels)
    ensures Shape(n, levels)
  {
  }

  lemma LevelsDiffer(t: Tree, n: nat, m: nat, next: seq<Level>)
    requires Further(t, n, m, next)
    ensures Shape(m, next) && n < MAX_BLOCKS
    ensures LevelCount(n) == LevelCount(m) ==> LevelCount(n) >= 2 && !next[0].dirty
  {
  }

  lemma NeedOfLowest(t: Tree, n: nat, levels: seq<Level>)
    requires Shape(n, levels) && n < MAX_BLOCKS
    ensures Unplaced(t, n, levels, 0) <= Need(t, n, levels)
    ensures Unplaced(t, n, levels, 0) != {} ==> |Need(t, n, levels)| > 0
  {
  }

  /** Nothing has happened. */
  lemma StayLaws(s: Snapshot, n: nat, levels: seq<Level>)
    requires IteratorInv(s.tree, n, levels)
    ensures Advanced(s, s, n, n, levels, levels, {}, {}, true) && Advanced(s, s, n, n, levels, levels, {}, {}, false)
  {
  }

  /** Moving within the lowest view. */
  lemma StepLaws(s: Snapshot, n: nat, levels: seq<Level>, k: nat)
    requires IteratorInv(s.tree, n, levels) && n < MAX_BLOCKS
    requires levels[0].index + k < CountOf(levels[0].bank)
    ensures n + k <= MAX_BLOCKS && LevelCount(n + k) == LevelCount(n)
    ensures var ls := levels[0 := levels[0].(index := levels[0].index + k)];
            && IteratorInv(s.tree, n + k, ls)
            && Advanced(s, s, n, n + k, levels, ls, {}, {}, true) && Advanced(s, s, n, n + k, levels, ls, {}, {}, false)
  {
    StepInside(s.tree, n, levels, k);
    hide IteratorInv, Need;
    SameBlock(n, k);
    assert LeftBehind(n, n + k) == {};
  }

  lemma LeavingView(t: Tree, n: nat, levels: seq<Level>, k: nat)
    requires IteratorInv(t, n, levels) && n < MAX_BLOCKS && n + k <= MAX_BLOCKS
    requires IndexAt(n, 0) + k >= CountOf(BankAt(n, 0))
    ensures DOUBLE_START <= n + k < MAX_BLOCKS ==> EmptyFrom(t, BlockOf(n + k))
    ensures n < n + k
    ensures LevelCount(n + k) == LevelCount(n) ==> LevelCount(n) >= 2 && BlockOf(n + k) != BlockOf(n)
  {
    OtherBlock(n, k);
    if DOUBLE_START <= n + k < MAX_BLOCKS {
      NothingAhead(t, n, levels, n + k);
    }
  }

  lemma TakeOverDirty(n: nat, m: nat, flushed: seq<Level>, next: seq<Level>)
    requires n < MAX_BLOCKS && LevelCount(n) == LevelCount(m) && LevelCount(n) >= 2
    requires Shape(n, flushed) && Shape(m, next) && !flushed[0].dirty && !next[0].dirty
    ensures DirtyBlocks(n, flushed) == {} && !InodeDirty(n, flushed) ==>
              DirtyBlocks(m, TakeOver(next, flushed)) == {} && !InodeDirty(m, TakeOver(next, flushed))
  {
  }

  lemma NothingDirty(n: nat, levels: seq<Level>)
    requires Shape(n, levels) && n < MAX_BLOCKS
    ensures DirtyBlocks(n, levels) == {} && !InodeDirty(n, levels) ==> !levels[0].dirty
  {
    if n >= DIRECT {
      assert BlockOf(n) !in DirtyBlocks(n, levels) || levels[0].dirty;
    }
  }

  /** Caching more blocks first makes no difference. */
  lemma LoadLaws(
    s: Snapshot, t: Snapshot, u: Snapshot, n: nat, m: nat, before: seq<Level>, after: seq<Level>,
    added: set<nat>, removed: set<nat>, readOnly: bool)
    requires SameView(s.tree, t.tree) && t == s.(tree := t.tree) && IteratorInv(s.tree, n, before)
    requires Advanced(t, u, n, m, before, after, added, removed, readOnly)
    ensures Advanced(s, u, n, m, before, after, added, removed, readOnly)
  {
    hide IteratorInv, Effect, Need, Pruned, Moved, LeftBehind, SameView, Below, Shape;
    InvAfterLoad(s.tree, t.tree, n, before);
    SameViewKeeps(s.tree, t.tree, {}, false);
    LeftBelow(n, m);
    if readOnly {
      SameViewCompose(s.tree, t.tree, u.tree);
    } else {
      NotMoved(s, t);
      MovedCompose(s, t, u, {}, {}, added, removed);
      assert {} + added == added && {} + removed == removed;
    }
  }

  lemma SameViewCompose(s: Tree, t: Tree, u: Tree)
    requires SameView(s, t) && SameView(t, u)
    ensures SameView(s, u)
  {
  }

  lemma SameViewKeepsOwned(t: Tree, u: Tree)
    requires SameView(t, u)
    ensures forall s :: Owned(t, s) ==> Owned(u, s)
  {
  }

  lemma StillFurther(s: Tree, t: Tree, n: nat, m: nat, next: seq<Level>)
    requires SameView(s, t) && n < m <= MAX_BLOCKS
    requires LevelCount(n) == LevelCount(m) ==> LevelCount(n) >= 2 && BlockOf(m) != BlockOf(n)
    requires Shape(m, next) && Views(t, m, next) && RootTail(t, m)
    requires DOUBLE_START <= m < MAX_BLOCKS ==> EmptyFrom(s, BlockOf(m))
    requires forall l :: 0 <= l < LevelCount(m) ==> !next[l].dirty
    ensures Further(t, n, m, next)
  {
    SameViewKeeps(s, t, {}, false);
  }

  lemma LeftBelow(n: nat, m: nat)
    ensures LeftBehind(n, m) <= Below(POINTER_BLOCKS)
  {
  }

  /** The numbers of levels differ: everything was flushed. */
  lemma JumpLaws(
    t: Snapshot, u: Snapshot, n: nat, m: nat, levels: seq<Level>, flushed: seq<Level>, next: seq<Level>,
    added: set<nat>, removed: set<nat>, readOnly: bool)
    requires Shape(n, levels) && Further(t.tree, n, m, next) && LevelCount(n) != LevelCount(m)
    requires Coherent(u.tree, {}, false) && IteratorInv(u.tree, n, flushed)
    requires if readOnly then u.tree == t.tree && added == {} == removed else
               Moved(t, u, added, removed) && Pruned(u.tree, LevelBlocks(n, 3), added, removed)
    requires added == Need(t.tree, n, levels) && added + removed <= LevelBlocks(n, 3)
    ensures Advanced(t, u, n, m, levels, next, added, removed, readOnly) && IteratorInv(u.tree, m, next)
    ensures DirtyBlocks(m, next) == {} && !InodeDirty(m, next)
  {
    hide Coherent, Unshared, Views, Pruned, Effect, SameView, Need;
    if readOnly {
      NotMovedAtAll(u);
    } else {
      MovedEffect(t, u, added, removed);
    }
    LeftByJump(n, m);
    InvAfterJump(t.tree, u.tree, n, m, next, added, removed);
  }

  lemma NotMovedAtAll(s: Snapshot)
    ensures SameView(s.tree, s.tree) && Effect(s.tree, s.tree, {}, {}) && Moved(s, s, {}, {})
  {
  }

  lemma LeftByJump(n: nat, m: nat)
    requires n < m <= MAX_BLOCKS && LevelCount(n) != LevelCount(m)
    ensures LeftBehind(n, m) == LevelBlocks(n, 3)
  {
  }

  /** The same number of levels: the lowest was flushed and the others carried over. */
  lemma TakeOverLaws(
    t: Snapshot, u: Snapshot, n: nat, m: nat, levels: seq<Level>, flushed: seq<Level>, next: seq<Level>,
    added: set<nat>, removed: set<nat>, readOnly: bool)
    requires Shape(n, levels) && Further(t.tree, n, m, next) && LevelCount(n) == LevelCount(m)
    requires IteratorInv(u.tree, n, flushed) && !flushed[0].dirty
    requires if readOnly then u.tree == t.tree && added == {} == removed else
               && Moved(t, u, added, removed)
               && added == Unplaced(t.tree, n, levels, 0) && removed == Emptied(t.tree, n, 0)
               && Content(u.tree, BlockOf(n)) == Content(t.tree, BlockOf(n))
    requires Need(u.tree, n, flushed) == Need(t.tree, n, levels) - added
    ensures IteratorInv(u.tree, m, TakeOver(next, flushed))
    ensures Advanced(t, u, n, m, levels, TakeOver(next, flushed), added, removed, readOnly)
  {
    NeedOfLowest(t.tree, n, levels);
    LeftByStep(n, m);
    NotMovedAtAll(u);
    hide LeftBehind, LevelBlocks, Coherent, Unshared, Views, Pruned, Effect, RootTail, SameView, Moved, Need, Content, Parent, Zeros, Below;
    assert added + removed <= {BlockOf(n)};
    if !readOnly {
      MovedEffect(t, u, added, removed);
      NothingPruned(t.tree, n);
      PrunedOne(t.tree, u.tree, n, levels, 0, {}, {});
      assert {} + added == added && {} + removed == removed;
    }
    InvAfterTakeOver(t.tree, u.tree, n, m, flushed, next, added, removed);
  }

  lemma LeftByStep(n: nat, m: nat)
    requires n < m < MAX_BLOCKS && LevelCount(n) == LevelCount(m) && LevelCount(n) >= 2 && BlockOf(m) != BlockOf(n)
    ensures LeftBehind(n, m) == LevelBlocks(n, 1) == {BlockOf(n)}
    ensures LevelBlocks(n, 0) == {}
  {
  }

  lemma NothingPruned(t: Tree, n: nat)
    ensures Pruned(t, LevelBlocks(n, 0), {}, {})
  {
  }

  /** Levels below l are flushed: what that moved, and what is still needed of `total`. */
  ghost predicate Flushing(
    s: Snapshot, t: Snapshot, n: nat, levels: seq<Level>, total: set<nat>, l: nat, added: set<nat>, removed: set<nat>)
    requires Shape(n, levels)
  {
    && Moved(s, t, added, removed)
    && added <= total && Need(t.tree, n, levels) == total - added
    && added + removed <= LevelBlocks(n, l)
    && Pruned(t.tree, LevelBlocks(n, l), added, removed)
  }

  lemma ReadOnlyNeedsNothing(t: Tree, n: nat, levels: seq<Level>)
    requires IteratorInv(t, n, levels) && DirtyBlocks(n, levels) == {} && !InodeDirty(n, levels)
    ensures Need(t, n, levels) == {} && Coherent(t, {}, false)
    ensures forall l :: 0 <= l < LevelCount(n) ==> !levels[l].dirty
  {
    if n < MAX_BLOCKS && n >= DIRECT {
      assert BlockOf(n) !in DirtyBlocks(n, levels);
      assert ROOT !in DirtyBlocks(n, levels);
    }
  }

  lemma StartFlush(s: Snapshot, n: nat, levels: seq<Level>)
    requires Shape(n, levels)
    ensures Flushing(s, s, n, levels, Need(s.tree, n, levels), 0, {}, {})
  {
  }

  /** What a level may allocate is part of what the iterator needs, so the reservation covers it. */
  lemma NeedOfLevel(
    s: Snapshot, t: Snapshot, n: nat, levels: seq<Level>, total: set<nat>, l: nat, added: set<nat>, removed: set<nat>)
    requires Shape(n, levels) && l < LevelCount(n) && |total| <= s.reserved
    requires Flushing(s, t, n, levels, total, l, added, removed)
    ensures Unplaced(t.tree, n, levels, l) <= total - added
    ensures Unplaced(t.tree, n, levels, l) != {} ==> t.reserved > 0
  {
    hide Pruned, Effect, Places;
    assert Unplaced(t.tree, n, levels, l) <= Need(t.tree, n, levels);
    if Unplaced(t.tree, n, levels, l) != {} {
      SubsetSize(added, total);
    }
  }

  lemma EndFlush(
    s: Snapshot, t: Snapshot, n: nat, levels: seq<Level>, total: set<nat>, added: set<nat>, removed: set<nat>)
    requires IteratorInv(t.tree, n, levels) && forall l :: 0 <= l < LevelCount(n) ==> !levels[l].dirty
    requires Flushing(s, t, n, levels, total, LevelCount(n), added, removed)
    ensures Coherent(t.tree, {}, false) && Moved(s, t, added, removed) && added == total
    ensures added + removed <= LevelBlocks(n, 3) && Pruned(t.tree, LevelBlocks(n, 3), added, removed)
  {
    hide Pruned, Moved, Coherent, Unshared, Views, RootTail, LevelBlocks, Need;
    CleanNeedsNothing(t.tree, n, levels);
    AllLevelBlocks(n);
    AllClean(t.tree, n, levels);
    assert total == added + (total - added);
  }

  lemma AllLevelBlocks(n: nat)
    ensures LevelBlocks(n, LevelCount(n)) == LevelBlocks(n, 3)
  {
  }

  lemma AllClean(t: Tree, n: nat, levels: seq<Level>)
    requires IteratorInv(t, n, levels) && DirtyBlocks(n, levels) == {} && !InodeDirty(n, levels)
    ensures Coherent(t, {}, false)
  {
  }

  lemma MovedEffect(s: Snapshot, t: Snapshot, added: set<nat>, removed: set<nat>)
    requires Moved(s, t, added, removed)
    ensures Effect(s.tree, t.tree, added, removed)
  {
  }

  lemma LevelBlocksBelow(n: nat, k: nat)
    ensures LevelBlocks(n, k) <= Below(POINTER_BLOCKS)
  {
  }

  lemma PrunedOne(t: Tree, u: Tree, n: nat, levels: seq<Level>, l: nat, added: set<nat>, removed: set<nat>)
    requires Shape(n, levels) && l < LevelCount(n)
    requires Pruned(t, LevelBlocks(n, l), added, removed) && added + removed <= LevelBlocks(n, l)
    requires Effect(t, u, Unplaced(t, n, levels, l), Emptied(t, n, l))
    requires l + 1 < LevelCount(n) ==> Content(u, LevelBlock(n, l)) == Content(t, LevelBlock(n, l))
    ensures var a, r := Unplaced(t, n, levels, l), Emptied(t, n, l);
            && Pruned(u, LevelBlocks(n, l + 1), added + a, removed + r)
            && added + a + (removed + r) <= LevelBlocks(n, l + 1)
            && added + removed !! a + r
  {
    hide Effect, Pruned, LevelBlocks;
    PrunedStep(t, u, n, l, added, removed, Unplaced(t, n, levels, l), Emptied(t, n, l));
  }

  lemma FlushedOne(
    s: Snapshot, t: Snapshot, u: Snapshot, n: nat, before: seq<Level>, after: seq<Level>, total: set<nat>, l: nat,
    added: set<nat>, removed: set<nat>, a: set<nat>, r: set<nat>)
    requires Shape(n, before) && Shape(n, after) && l < LevelCount(n)
    requires Flushing(s, t, n, before, total, l, added, removed) && Moved(t, u, a, r)
    requires l + 1 < LevelCount(n) ==> Content(u.tree, LevelBlock(n, l)) == Content(t.tree, LevelBlock(n, l))
    requires a == Unplaced(t.tree, n, before, l) && a <= total - added && r == Emptied(t.tree, n, l)
    requires Need(u.tree, n, after) == Need(t.tree, n, before) - a
    ensures Flushing(s, u, n, after, total, l + 1, added + a, removed + r)
  {
    hide Effect, Places, Pruned, Moved, Need, Content, Parent, Zeros, LevelBlocks, Unplaced, Emptied, Below, Shape;
    MovedEffect(t, u, a, r);
    LevelBlocksBelow(n, l + 1);
    PrunedOne(t.tree, u.tree, n, before, l, added, removed);
    MovedCompose(s, t, u, added, removed, a, r);
    assert total - added - a == total - (added + a);
  }

  /** What the level above says about where a level's block is. */
  lemma ParentBlock(t: Tree, n: nat, levels: seq<Level>, l: nat)
    requires IteratorInv(t, n, levels) && l + 1 < LevelCount(n)
    ensures var f := LevelBlock(n, l);
            && Parent(t, f) == (if levels[l + 1].valid then Cells(t, levels[l + 1].bank)[levels[l + 1].index] else 0)
            && (Parent(t, f) != 0 ==> levels[l].valid)
            && (Content(t, f) == Zeros() && levels[l].valid ==> Cells(t, levels[l].bank)[levels[l].index] == 0)
  {
    if levels[l + 1].valid {
      SetParentCell(t, LevelBlock(n, l), 0);
    } else {
      SparseParent(t, n, levels, l);
    }
  }

  lemma OwnedAfter(t: Tree, u: Tree, inUse: set<nat>, added: set<nat>, removed: set<nat>)
    requires Effect(t, u, added, removed) && Owned(t, inUse)
    ensures Owned(u, inUse + Places(u, added))
  {
    forall f | 0 <= f < POINTER_BLOCKS && Parent(u, f) != 0 ensures Parent(u, f) in inUse + Places(u, added) {
      if f in added {
      }
    }
  }

  lemma EmptyLevel(t: Tree, n: nat, levels: seq<Level>, l: nat, inUse: set<nat>)
    requires IteratorInv(t, n, levels) && l + 1 < LevelCount(n) && levels[l].valid && levels[l + 1].valid
    requires l > 0 ==> !levels[0].dirty
    requires Parent(t, LevelBlock(n, l)) != 0 && Content(t, LevelBlock(n, l)) == Zeros() && Owned(t, inUse)
    ensures var f := LevelBlock(n, l);
            var u := SetCell(t, BankAt(n, l + 1), IndexAt(n, l + 1), 0);
            var ls := Mark(Mark(levels, l + 1, true, true), l, true, false);
            && IteratorInv(u, n, ls) && Effect(t, u, {}, {f})
            && Need(u, n, ls) == Need(t, n, levels)
            && Owned(u, inUse) && Places(t, {f}) == {Parent(t, f)} && Places(u, {}) == {} && inUse + {} == inUse
            && Content(u, f) == Zeros()
  {
    hide Coherent, Unshared, RootTail, Owned, Need;
    var f := LevelBlock(n, l);
    InvAfterFree(t, n, levels, l);
    SetParentCell(t, f, 0);
    SetParentEffect(t, f, 0);
    OwnedAfter(t, SetParent(t, f, 0), inUse, {}, {f});
    NoPlaces(SetParent(t, f, 0));
    assert inUse + {} == inUse;
  }

  lemma PlaceLevel(t: Tree, seen: Tree, n: nat, levels: seq<Level>, l: nat, p: nat, inUse: set<nat>)
    requires IteratorInv(t, n, levels) && l + 1 < LevelCount(n) && levels[l].dirty && SameView(t, seen)
    requires InMemory(seen, BankAt(n, l + 1))
    requires Parent(t, LevelBlock(n, l)) == 0 && p != 0 && Owned(t, inUse) && p !in inUse
    ensures var f := LevelBlock(n, l);
            var u, ls := SetCell(seen, BankAt(n, l + 1), IndexAt(n, l + 1), p), Mark(levels, l + 1, true, true);
            && IteratorInv(u, n, ls) && Effect(t, u, {f}, {}) && Parent(u, f) == p
            && Need(u, n, ls) == Need(t, n, levels) - {f}
            && Owned(u, inUse + {p}) && Places(u, {f}) == {p}
            && Content(u, f) == Content(t, f)
  {
    var f := LevelBlock(n, l);
    InvAfterView(t, seen, n, levels, l + 1);
    var marked := Mark(levels, l + 1, true, levels[l + 1].dirty);
    assert Mark(marked, l + 1, true, true) == Mark(levels, l + 1, true, true);
    InvAfterPlace(seen, n, marked, l, p);
    SetParentCell(seen, f, p);
    SetParentEffect(seen, f, p);
    OwnedAfter(t, SetParent(seen, f, p), inUse, {f}, {});
  }

  ghost predicate SameContents(t: Tree, u: Tree) {
    forall f :: 0 <= f < POINTER_BLOCKS ==> Content(u, f) == Content(t, f)
  }

  /** A write-back moves no pointer block. */
  lemma WriteKeeps(t: Tree, u: Tree)
    requires t == u || Effect(t, u, {}, {})
    ensures Effect(t, u, {}, {}) && Places(u, {}) == {} && Places(t, {}) == {}
    ensures SameContents(t, u)
    ensures forall s :: Owned(t, s) ==> Owned(u, s)
  {
  }

  lemma NoPlaces(t: Tree)
    ensures Places(t, {}) == {}
  {
  }

  lemma OwnedSame(t: Tree, u: Tree, inUse: set<nat>)
    requires Owned(t, inUse)
    requires forall f :: 0 <= f < POINTER_BLOCKS ==> Parent(u, f) == Parent(t, f)
    ensures Owned(u, inUse)
  {
  }

  /** A file block below a sparse level is unmapped. */
  lemma SparseReadsZero(t: Tree, n: nat, levels: seq<Level>)
    requires IteratorInv(t, n, levels) && n < MAX_BLOCKS && !levels[0].valid
    ensures Lookup(t, n) == 0
  {
    assert Synced(t, BlockOf(n));
  }
}
