/** Files: writes are cached as pending blocks and given device blocks only when flushed. */
module MinfsFile {
  import opened Wrappers
  import opened Sets
  import opened PointerTree
  import opened IteratorSpec
  import opened TransactionLimits
  import opened VnodeMapper
  import opened BlocksShrink
  import opened PendingWrites

  const DIRTY_BLOCKS_PER_FILE := 256

  function Total(slices: seq<nat>): nat {
    if slices == [] then 0 else slices[0] + Total(slices[1..])
  }

  /** The allocator and the journal as a file sees them. */
  class BlockPool {
    /** What can still be promised. A promise that growth falls short of leaves it negative. */
    var available: int
    /** By how much each further extension of the pool would raise it; empty once there is no room to grow. */
    var slices: seq<nat>
    /** Freed by commits that the journal still holds; flushing the journal makes these available. */
    var unsynced: nat
    /** Set in the block bitmap or held; freed blocks are held until the device has the commit. */
    var inUse: set<nat>
    var freed: set<nat>
    /** How many blocks have been freed by commits so far. */
    ghost var returned: nat

    /**
     Every block of the pool is accounted for once: it is or can be made available, or is in use and
     not yet among those given back. What is missing from the sum is promised.
     */
    ghost function Funds(): int
      reads this
    {
      available + unsynced + Total(slices) + |inUse| - returned
    }

    /** What is reported as available is unsigned, so that less than nothing reads as plenty. */
    predicate Covers(count: nat)
      reads this
    {
      available < 0 || count <= available
    }

    /** Enough is available, perhaps after flushing the journal, or the pool can grow. */
    predicate Grants(count: nat)
      reads this
    {
      Covers(count) || slices != [] || (count > 0 && count <= available + unsynced)
    }

    /** Allocator::Reserve: after growing once it does not look again. */
    method Reserve(count: nat) returns (ok: bool)
      modifies this`available, this`slices
      ensures ok == (old(Covers(count)) || old(slices) != [])
      ensures available == old(available) + (if !old(Covers(count)) && ok then old(slices)[0] else 0) - (if ok then count else 0)
      ensures slices == if !old(Covers(count)) && ok then old(slices)[1..] else old(slices)
      ensures Funds() == old(Funds()) - (if ok then count else 0)
    {
      if !Covers(count) {
        if slices == [] {
          return false;
        }
        available, slices := available + slices[0], slices[1..];
      }
      available := available - count;
      ok := true;
    }

    /** BeginTransaction or ContinueTransaction: once more after flushing the journal, if at first there is no space. */
    method Begin(count: nat) returns (ok: bool)
      modifies this`available, this`slices, this`unsynced
      ensures ok == old(Grants(count))
      ensures ok == (old(available) < 0 || count <= old(available) || old(slices) != [] ||
                     (count > 0 && count <= old(available) + old(unsynced)))
      ensures available >= old(available) - (if ok then count else 0)
      ensures available + unsynced + Total(slices) == old(available + unsynced + Total(slices)) - (if ok then count else 0)
      ensures Funds() == old(Funds()) - (if ok then count else 0)
      ensures !ok ==> slices == [] && unsynced == (if count > 0 then 0 else old(unsynced))
      ensures !ok ==> 0 <= available < count && available + unsynced == old(available + unsynced)
    {
      ok := Reserve(count);
      if !ok && count > 0 {
        available, unsynced := available + unsynced, 0;
        ok := Reserve(count);
      }
    }
  }

  /** Blocks of a file to be allocated later, and the size it will have then. */
  class PendingAllocationData {
    var newBlocks: nat
    var nodeSize: nat
    var blockMap: set<nat>

    constructor (size: nat)
      ensures newBlocks == 0 && nodeSize == size && blockMap == {}
    {
      newBlocks, nodeSize, blockMap := 0, size, {};
    }

    method Reset(size: nat)
      modifies this
      ensures newBlocks == 0 && nodeSize == size && blockMap == {}
    {
      newBlocks, nodeSize, blockMap := 0, size, {};
    }

    /** The first run of pending blocks: from the least one up to the next that is not pending. */
    method GetNextRange() returns (r: Result<(nat, nat)>)
      ensures blockMap == {} ==> r == Err(ErrOutOfRange)
      ensures blockMap != {} ==> r.Ok?
      ensures r.Ok? ==>
                var (start, count) := r.value;
                && count > 0 && start + count !in blockMap
                && (forall n :: start <= n < start + count ==> n in blockMap)
                && (forall n :: n in blockMap ==> start <= n)
    {
      if blockMap == {} {
        return Err(ErrOutOfRange);
      }
      ghost var least := Min(blockMap);
      var start :| start in blockMap && forall n :: n in blockMap ==> start <= n;
      r := Ok((start, NextClear(blockMap, start) - start));
    }

    method SetPending(block: nat, isAllocated: bool)
      modifies this
      ensures blockMap == old(blockMap) + {block} && nodeSize == old(nodeSize)
      ensures newBlocks == old(newBlocks) + (if block !in old(blockMap) && !isAllocated then 1 else 0)
    {
      if block !in blockMap && !isAllocated {
        newBlocks := newBlocks + 1;
      }
      blockMap := blockMap + {block};
    }

    method ClearPending(block: nat, isAllocated: bool) returns (cleared: bool)
      requires block in blockMap && !isAllocated ==> newBlocks > 0
      modifies this
      ensures cleared == (block in old(blockMap))
      ensures blockMap == old(blockMap) - {block} && nodeSize == old(nodeSize)
      ensures newBlocks == old(newBlocks) - (if cleared && !isAllocated then 1 else 0)
    {
      cleared := block in blockMap;
      blockMap := blockMap - {block};
      if cleared && !isAllocated {
        newBlocks := newBlocks - 1;
      }
    }
  }

  /** The pending blocks that will be new to the file rather than replace a mapped block. */
  ghost function UnmappedIn(t: Tree, blocks: set<nat>): set<nat> {
    set n | n in blocks && (n < MAX_BLOCKS ==> Lookup(t, n) == 0)
  }

  /** The tree is as the device has it, and no device block is used twice. */
  ghost predicate Settled(t: Tree, inUse: set<nat>) {
    Coherent(t, {}, false) && Unshared(t) && Owned(t, inUse) && Sole(t, inUse)
  }

  /** What the loop of BlocksSwap keeps: start..done are swapped, the iterator is at n. */
  ghost predicate Swapping(
    s: Snapshot, t: Snapshot, start: nat, done: nat, n: nat, levels: seq<Level>, pending: set<nat>, newBlocks: nat,
    bnos: seq<nat>)
  {
    && start <= n <= done <= MAX_BLOCKS
    && Swapped(s, t, Interval(start, done))
    && Enough(t.tree, pending, n, levels, t.reserved)
    && Sole(t.tree, t.inUse)
    && newBlocks == |UnmappedIn(t.tree, pending)|
    && Recorded(t.tree, start, done, bnos)
    && Spent(s, t)
  }

  /** Of the reservation exactly the blocks that have come into use are spent. */
  ghost predicate Spent(s: Snapshot, t: Snapshot) {
    |t.inUse| + t.reserved == |s.inUse| + s.reserved
  }

  /** A flush spends one unit on each pointer block it allocates. */
  lemma MovedSpends(s: Snapshot, t: Snapshot, added: set<nat>, removed: set<nat>)
    requires Moved(s, t, added, removed) && Unshared(t.tree) && added <= Below(POINTER_BLOCKS)
    ensures Spent(s, t)
  {
    PlacesCount(t.tree, added);
    DisjointUnionSize(s.inUse, Places(t.tree, added));
  }

  lemma {:induction false} PlacesCount(t: Tree, fs: set<nat>)
    requires Unshared(t) && fs <= Below(POINTER_BLOCKS) && forall f :: f in fs ==> Parent(t, f) != 0
    ensures |Places(t, fs)| == |fs|
  {
    hide Parent;
    if fs == {} {
      assert Places(t, fs) == {};
    } else {
      var f :| f in fs;
      PlacesCount(t, fs - {f});
      assert Places(t, fs) == Places(t, fs - {f}) + {Parent(t, f)};
      assert Parent(t, f) !in Places(t, fs - {f});
    }
  }

  /** The new device blocks, in order. */
  ghost predicate Recorded(t: Tree, start: nat, done: nat, bnos: seq<nat>) {
    start <= done <= MAX_BLOCKS && |bnos| == done - start &&
    forall i :: 0 <= i < |bnos| ==> bnos[i] == Lookup(t, start + i)
  }

  /** Every pending block lies below the size the file will have. */
  ghost predicate WithinSize(pending: set<nat>, nodeSize: nat) {
    nodeSize <= MAX_FILE_SIZE && forall n :: n in pending ==> n * BLOCK_SIZE < nodeSize
  }

  function RoundUp(bytes: nat): (r: nat)
    ensures bytes <= r < bytes + BLOCK_SIZE && r % BLOCK_SIZE == 0
  {
    (bytes + BLOCK_SIZE - 1) / BLOCK_SIZE * BLOCK_SIZE
  }

  class File {
    const vnode: Vnode
    const allocation: PendingAllocationData
    var size: nat
    /** The reservation of a cached transaction, if writes are being held back. */
    var cached: Option<nat>

    constructor (vnode: Vnode, allocation: PendingAllocationData)
      ensures this.vnode == vnode && this.allocation == allocation
      ensures size == allocation.nodeSize && cached == None
    {
      this.vnode, this.allocation, size, cached := vnode, allocation, allocation.nodeSize, None;
    }

    function Reservation(): nat
      reads this
    {
      if cached.Some? then cached.value else 0
    }

    /** The number of new pending blocks is right, and `reserved` covers whatever a flush may allocate. */
    ghost predicate Backed(reserved: nat)
      reads vnode, allocation
    {
      && allocation.newBlocks == |UnmappedIn(vnode.tree, allocation.blockMap)|
      && Required(vnode.tree, allocation.blockMap) <= reserved
      && WithinSize(allocation.blockMap, allocation.nodeSize)
    }

    /** What the pool has, and what of it is promised to this file. */
    ghost function Funds(pool: BlockPool): int
      reads this, pool
    {
      pool.Funds() + Reservation()
    }

    /** What holds between any two operations on the file. */
    ghost predicate Valid(pool: BlockPool)
      reads this, vnode, allocation, pool
    {
      && Settled(vnode.tree, pool.inUse) && Backed(Reservation())
      && |allocation.blockMap| < DIRTY_BLOCKS_PER_FILE
      && size == allocation.nodeSize
    }

    /**
     Gives all pending blocks their device blocks, range by range, and commits. Afterwards
     nothing is pending and the inode has the size the writes called for.
     */
    method AllocateAndCommitData(transaction: Transaction, pool: BlockPool, maxBlocks: nat)
      requires Settled(vnode.tree, transaction.inUse) && Backed(transaction.reserved)
      requires |allocation.blockMap| <= maxBlocks
      modifies this`size, vnode, transaction, allocation, pool
      ensures Settled(vnode.tree, pool.inUse) && pool.inUse == transaction.inUse
      ensures Swapped(old(Taken(vnode, transaction)), Taken(vnode, transaction), old(allocation.blockMap))
      ensures allocation.blockMap == {} && allocation.newBlocks == 0
      ensures size == allocation.nodeSize == old(allocation.nodeSize)
      ensures pool.freed == old(pool.freed) + transaction.freed
      ensures pool.available >= old(pool.available) && Backed(0)
      ensures pool.available - old(pool.available) == old(transaction.reserved) - (|pool.inUse| - |old(transaction.inUse)|)
      ensures transaction.reserved == 0
      ensures pool.slices == old(pool.slices) && pool.unsynced == old(pool.unsynced) + |transaction.freed|
      ensures pool.returned == old(pool.returned) + |transaction.freed|
    {
      hide Settled, Swapped, Required, UnmappedIn, WithinSize, Sole, Interval, Recorded;
      ghost var s, all := Taken(vnode, transaction), allocation.blockMap;
      ghost var done := {};
      SwappedNone(s, s);
      DoneNone(all);
      while true
        invariant Settled(vnode.tree, transaction.inUse) && Backed(transaction.reserved)
        invariant Swapped(s, Taken(vnode, transaction), done) && Spent(s, Taken(vnode, transaction))
        invariant done !! allocation.blockMap && done + allocation.blockMap == all
        invariant allocation.nodeSize == old(allocation.nodeSize)
        invariant pool.available == old(pool.available) && pool.freed == old(pool.freed)
        invariant pool.slices == old(pool.slices) && pool.unsynced == old(pool.unsynced) && pool.returned == old(pool.returned)
        decreases |allocation.blockMap|
      {
        ghost var t, pending := Taken(vnode, transaction), allocation.blockMap;
        var expected := |allocation.blockMap|;
        SubsetSize(pending, all);
        assert expected <= maxBlocks;
        if expected == 0 {
          assert pending == {};
          NothingPending(vnode.tree);
          if size != allocation.nodeSize {
            size := allocation.nodeSize;
          }
          allocation.Reset(allocation.nodeSize);
          break;
        }
        var range := allocation.GetNextRange();
        var (start, count) := range.value;
        RangeInFile(pending, allocation.nodeSize, start, count);
        var bnos := BlocksSwap(transaction, start, count);
        SwappedMore(s, t, Taken(vnode, transaction), all, done, pending, start, count, allocation.nodeSize);
        done := done + Interval(start, start + count);
        var lastByte := (start + count) * BLOCK_SIZE;
        assert lastByte <= RoundUp(allocation.nodeSize);
        if size < lastByte < allocation.nodeSize {
          size := lastByte;
        } else if allocation.nodeSize <= lastByte {
          size := allocation.nodeSize;
        }
      }
      assert done == all;
      ghost var t := Taken(vnode, transaction);
      Commit(transaction, pool);
      ReservationAside(s, t, Taken(vnode, transaction), all);
    }

    /** InodeSync and Minfs::CommitTransaction: the inode is written, unused reservations go back. */
    method Commit(transaction: Transaction, pool: BlockPool)
      requires Settled(vnode.tree, transaction.inUse)
      modifies vnode, transaction, pool
      ensures vnode.tree == old(vnode.tree) && vnode.blockCount == old(vnode.blockCount)
      ensures transaction.inUse == old(transaction.inUse) && transaction.freed == old(transaction.freed)
      ensures pool.inUse == transaction.inUse && pool.freed == old(pool.freed) + transaction.freed
      ensures pool.available == old(pool.available) + old(transaction.reserved) && transaction.reserved == 0
      ensures pool.slices == old(pool.slices) && pool.unsynced == old(pool.unsynced) + |transaction.freed|
      ensures pool.returned == old(pool.returned) + |transaction.freed|
    {
      assert SaveInode(vnode.tree) == vnode.tree;
      vnode.tree := SaveInode(vnode.tree);
      pool.available := pool.available + transaction.reserved;
      transaction.reserved := 0;
      pool.inUse := transaction.inUse;
      pool.freed := pool.freed + transaction.freed;
      pool.unsynced := pool.unsynced + |transaction.freed|;
      pool.returned := pool.returned + |transaction.freed|;
    }

    /**
     Gives every block of a pending range a new device block and gives the old one back. The
     reservation covers every block and pointer block this allocates, and still covers what
     stays pending.
     */
    method BlocksSwap(transaction: Transaction, start: nat, count: nat) returns (bnos: seq<nat>)
      requires Settled(vnode.tree, transaction.inUse)
      requires start + count <= MAX_BLOCKS && Interval(start, start + count) <= allocation.blockMap
      requires allocation.newBlocks == |UnmappedIn(vnode.tree, allocation.blockMap)|
      requires Required(vnode.tree, allocation.blockMap) <= transaction.reserved
      modifies vnode, transaction, allocation
      ensures Settled(vnode.tree, transaction.inUse)
      ensures Swapped(old(Taken(vnode, transaction)), Taken(vnode, transaction), Interval(start, start + count))
      ensures Spent(old(Taken(vnode, transaction)), Taken(vnode, transaction))
      ensures Recorded(vnode.tree, start, start + count, bnos)
      ensures allocation.blockMap == old(allocation.blockMap) - Interval(start, start + count)
      ensures allocation.newBlocks == |UnmappedIn(vnode.tree, allocation.blockMap)|
      ensures allocation.nodeSize == old(allocation.nodeSize)
      ensures Required(vnode.tree, allocation.blockMap) <= transaction.reserved
    {
      hide IteratorInv, Coherent, Unshared, Owned, Sole, Swapping, Swapped, Required, UnmappedIn, Advanced, Moved, Need,
           EmptyFrom, SameView, Enough, Lookup, Parent, Content, Pruned, Interval, Recorded;
      bnos := [];
      ghost var s := Taken(vnode, transaction);
      NothingSwapped(s, start);
      if count == 0 {
        return;
      }
      var cursor := new VnodeIterator(vnode, transaction);
      TreeIsEmptyFrom(vnode.tree);
      var ok := cursor.Init(start);
      ghost var pending := allocation.blockMap;
      StartSwap(s, cursor.Now(), start, cursor.levels, pending, allocation.newBlocks);
      var left := count;
      while left > 0
        invariant left >= 0 && cursor.vnode == vnode && cursor.transaction == transaction && fresh(cursor)
        invariant cursor.Valid() && start <= cursor.fileBlock && cursor.fileBlock + left == start + count
        invariant allocation.blockMap == pending - Interval(start, cursor.fileBlock)
        invariant allocation.nodeSize == old(allocation.nodeSize)
        invariant Swapping(s, cursor.Now(), start, cursor.fileBlock, cursor.fileBlock, cursor.levels, allocation.blockMap,
                           allocation.newBlocks, bnos)
      {
        ghost var n := cursor.fileBlock;
        IntervalNext(start, n, start + count, pending);
        var newBlock := SwapNext(cursor, transaction, s, start, bnos);
        bnos := bnos + [newBlock];
        left := left - 1;
        ghost var u, levels := cursor.Now(), cursor.levels;
        FlushCovered(s, u, start, n + 1, n, levels, allocation.blockMap, allocation.newBlocks, bnos);
        var advanced, a, r := cursor.Advance(1);
        AdvanceStep(s, u, cursor.Now(), start, n, levels, cursor.levels, allocation.blockMap, allocation.newBlocks, bnos, a, r);
      }
      FlushSwapped(cursor, transaction, s, start, bnos);
    }

    /** The flush at the end of BlocksSwap. */
    method FlushSwapped(
      cursor: VnodeIterator, transaction: Transaction, ghost s: Snapshot, ghost start: nat, ghost bnos: seq<nat>)
      requires cursor.vnode == vnode && cursor.transaction == transaction && cursor.Valid()
      requires Swapping(s, cursor.Now(), start, cursor.fileBlock, cursor.fileBlock, cursor.levels, allocation.blockMap,
                        allocation.newBlocks, bnos)
      modifies cursor`levels, vnode, transaction
      ensures Settled(vnode.tree, transaction.inUse)
      ensures Swapped(s, Taken(vnode, transaction), Interval(start, cursor.fileBlock)) && Spent(s, Taken(vnode, transaction))
      ensures Recorded(vnode.tree, start, cursor.fileBlock, bnos)
      ensures allocation.newBlocks == |UnmappedIn(vnode.tree, allocation.blockMap)|
      ensures Required(vnode.tree, allocation.blockMap) <= transaction.reserved
    {
      hide IteratorInv, Coherent, Unshared, Owned, Sole, Swapping, Swapped, Required, UnmappedIn, Moved, Need, Lookup, Parent,
           Content, Pruned, Interval, Recorded, LevelBlocks;
      ghost var n, u, levels := cursor.fileBlock, cursor.Now(), cursor.levels;
      FlushCovered(s, u, start, n, n, levels, allocation.blockMap, allocation.newBlocks, bnos);
      ghost var a, r := cursor.Flush();
      EndSwap(s, u, cursor.Now(), start, n, levels, cursor.levels, allocation.blockMap, allocation.newBlocks, bnos, a, r);
      InvUnshared(vnode.tree, n, cursor.levels);
    }

    /** One turn of the loop of BlocksSwap, up to moving the iterator. */
    method SwapNext(cursor: VnodeIterator, transaction: Transaction, ghost s: Snapshot, ghost start: nat, ghost bnos: seq<nat>)
      returns (newBlock: nat)
      requires cursor.vnode == vnode && cursor.transaction == transaction && cursor.Valid()
      requires cursor.fileBlock < MAX_BLOCKS && cursor.fileBlock in allocation.blockMap
      requires Swapping(s, cursor.Now(), start, cursor.fileBlock, cursor.fileBlock, cursor.levels, allocation.blockMap,
                        allocation.newBlocks, bnos)
      modifies cursor`levels, vnode, transaction, allocation
      ensures cursor.Valid()
      ensures allocation.blockMap == old(allocation.blockMap) - {cursor.fileBlock}
      ensures allocation.nodeSize == old(allocation.nodeSize)
      ensures Swapping(s, cursor.Now(), start, cursor.fileBlock + 1, cursor.fileBlock, cursor.levels, allocation.blockMap,
                       allocation.newBlocks, bnos + [newBlock])
    {
      hide IteratorInv, Owned, Swapping, Lookup, Parent, Content, Zeros, InMemory;
      ghost var t, levels, before, newBefore := cursor.Now(), cursor.levels, allocation.blockMap, allocation.newBlocks;
      var fileBlock := cursor.fileBlock;
      ReadyToSwap(s, t, start, fileBlock, levels, before, newBefore, bnos);
      var oldBlock := cursor.Blk();
      if oldBlock == 0 {
        vnode.blockCount := vnode.blockCount + 1;
      }
      newBlock := transaction.SwapBlock(oldBlock);
      OwnedGrows(vnode.tree, t.inUse, newBlock);
      cursor.SetBlk(newBlock);
      var cleared := allocation.ClearPending(fileBlock, oldBlock != 0);
      ShapeOf(vnode.tree, fileBlock, cursor.levels);
      SwapStep(s, t, cursor.Now(), start, fileBlock, levels, cursor.levels, before, newBefore, bnos, newBlock);
    }

    /** What WalkFileBlocks finds out about one block, with a fresh read-only iterator. */
    method IsMapped(block: nat, ghost inUse: set<nat>) returns (mapped: bool)
      requires Settled(vnode.tree, inUse) && block < MAX_BLOCKS
      modifies vnode`tree
      ensures SameView(old(vnode.tree), vnode.tree)
      ensures mapped == (Lookup(vnode.tree, block) != 0)
    {
      hide Coherent, Unshared, Owned, Sole, SameView, EmptyFrom, IteratorInv;
      var cursor := new VnodeIterator(vnode, null);
      TreeIsEmptyFrom(vnode.tree);
      var ok := cursor.Init(block);
      mapped := cursor.Blk() != 0;
    }

    /**
     What a write must reserve beyond what is reserved already: nothing if all its blocks are
     pending, and otherwise a unit for each that is not and for every pointer block on the way.
     */
    method GetRequiredBlockCountForDirtyCache(offset: nat, length: nat, uncached: nat, ghost inUse: set<nat>)
      returns (required: nat)
      requires Settled(vnode.tree, inUse) && offset + length <= MAX_FILE_SIZE
      requires Walked(offset, length) <= allocation.blockMap || |Walked(offset, length) * allocation.blockMap| <= uncached
      modifies vnode`tree
      ensures SameView(old(vnode.tree), vnode.tree)
      ensures required == if Walked(offset, length) <= allocation.blockMap then 0
                          else uncached - |Walked(offset, length) * allocation.blockMap|
    {
      hide Settled, SameView, Lookup, WithinSize, Required, UnmappedIn, Interval, Walked;
      var block, end := offset / BLOCK_SIZE, (offset + length + BLOCK_SIZE - 1) / BLOCK_SIZE;
      ghost var start := block;
      WalkBounds(offset, length, start, end);
      var dataBlocks: nat := 0;
      var missing: int := uncached;
      SameViewRefl(vnode.tree);
      NonePending(start, allocation.blockMap);
      while block < end
        invariant start <= block <= end
        invariant SameView(old(vnode.tree), vnode.tree) && Settled(vnode.tree, inUse)
        invariant missing == uncached - |Interval(start, block) * allocation.blockMap|
        invariant dataBlocks == 0 <==> Interval(start, block) <= allocation.blockMap
      {
        ghost var t := vnode.tree;
        PendingSoFar(start, block, end, allocation.blockMap);
        var mapped := IsMapped(block, inUse);
        SameViewKeepsSettled(old(vnode.tree), t, vnode.tree, inUse);
        if block !in allocation.blockMap {
          dataBlocks := dataBlocks + 1;
        } else {
          missing := missing - 1;
        }
        block := block + 1;
      }
      required := if dataBlocks == 0 then 0 else missing;
    }

    /** Marks the blocks of a write pending. */
    method MarkRequiredBlocksPending(offset: nat, length: nat, ghost inUse: set<nat>)
      requires Settled(vnode.tree, inUse) && offset + length <= MAX_FILE_SIZE
      requires allocation.newBlocks == |UnmappedIn(vnode.tree, allocation.blockMap)|
      modifies vnode`tree, allocation
      ensures SameView(old(vnode.tree), vnode.tree)
      ensures allocation.blockMap == old(allocation.blockMap) + Walked(offset, length)
      ensures allocation.newBlocks == |UnmappedIn(vnode.tree, allocation.blockMap)|
      ensures allocation.nodeSize == old(allocation.nodeSize)
    {
      hide Settled, SameView, Lookup, UnmappedIn, Interval, Walked;
      var block, end := offset / BLOCK_SIZE, (offset + length + BLOCK_SIZE - 1) / BLOCK_SIZE;
      ghost var start := block;
      WalkBounds(offset, length, start, end);
      NonePending(start, allocation.blockMap);
      SameViewRefl(vnode.tree);
      while block < end
        invariant start <= block <= end
        invariant SameView(old(vnode.tree), vnode.tree) && Settled(vnode.tree, inUse)
        invariant allocation.blockMap == old(allocation.blockMap) + Interval(start, block)
        invariant allocation.newBlocks == |UnmappedIn(vnode.tree, allocation.blockMap)|
        invariant allocation.nodeSize == old(allocation.nodeSize)
      {
        ghost var t := vnode.tree;
        IntervalGrows(start, block);
        var mapped := IsMapped(block, inUse);
        SameViewKeepsSettled(old(vnode.tree), t, vnode.tree, inUse);
        SameUnmapped(t, vnode.tree, allocation.blockMap);
        OneMorePending(vnode.tree, allocation.blockMap, block);
        if block !in allocation.blockMap {
          allocation.SetPending(block, mapped);
        }
        block := block + 1;
      }
    }

    /** Forgets every pending write; what DropCachedWrites asserts at its end holds. */
    method DropCachedWrites(ghost inUse: set<nat>)
      requires Settled(vnode.tree, inUse) && Backed(Reservation())
      modifies vnode`tree, allocation
      ensures SameView(old(vnode.tree), vnode.tree)
      ensures allocation.blockMap == {} && allocation.newBlocks == 0 && allocation.nodeSize == old(allocation.nodeSize)
    {
      hide Settled, SameView, Lookup, UnmappedIn, Required, WithinSize, Interval;
      var block, end := 0, (allocation.nodeSize + BLOCK_SIZE - 1) / BLOCK_SIZE;
      SameViewRefl(vnode.tree);
      SizeInBlocks(allocation.blockMap, allocation.nodeSize);
      while block < end
        invariant 0 <= block <= end <= MAX_BLOCKS
        invariant SameView(old(vnode.tree), vnode.tree) && Settled(vnode.tree, inUse)
        invariant allocation.blockMap == old(allocation.blockMap) - Interval(0, block)
        invariant allocation.newBlocks == |UnmappedIn(vnode.tree, allocation.blockMap)|
        invariant allocation.nodeSize == old(allocation.nodeSize)
      {
        ghost var t := vnode.tree;
        IntervalGrows(0, block);
        var mapped := IsMapped(block, inUse);
        SameViewKeepsSettled(old(vnode.tree), t, vnode.tree, inUse);
        SameUnmapped(t, vnode.tree, allocation.blockMap);
        OneLessPending(vnode.tree, allocation.blockMap, block);
        if block in allocation.blockMap {
          var cleared := allocation.ClearPending(block, mapped);
        }
        block := block + 1;
      }
      NothingPending(vnode.tree);
    }

    ghost function Frame(pool: BlockPool): Snapshot
      reads vnode, pool
    {
      Snapshot(vnode.tree, vnode.blockCount, 0, pool.inUse, pool.freed)
    }

    /** The number of blocks a write must reserve, given what is pending already. */
    method GetRequiredBlockCount(offset: nat, length: nat, ghost inUse: set<nat>) returns (r: Result<nat>)
      requires Settled(vnode.tree, inUse) && offset + length <= MAX_FILE_SIZE
      modifies vnode`tree
      ensures SameView(old(vnode.tree), vnode.tree)
      ensures r == Ok(Reserve(offset, length, allocation.blockMap))
    {
      hide Settled, SameView, Walked, Paths, BlocksOfBytes, Reserve;
      UncachedCount(offset, length, allocation.blockMap);
      var uncached := TransactionLimits.GetRequiredBlockCount(offset, length, BLOCK_SIZE);
      if uncached.Err? {
        return uncached;
      }
      var required := GetRequiredBlockCountForDirtyCache(offset, length, uncached.value, inUse);
      r := Ok(required);
    }

    /** Whether the dirty cache must be flushed first: too much is pending, or the space might not suffice. */
    method ShouldFlush(isTruncate: bool, length: nat, offset: nat, pool: BlockPool) returns (r: Result<bool>)
      requires Settled(vnode.tree, pool.inUse) && offset + length <= MAX_FILE_SIZE
      modifies vnode`tree
      ensures SameView(old(vnode.tree), vnode.tree)
      ensures r == Ok(isTruncate || |allocation.blockMap| >= DIRTY_BLOCKS_PER_FILE ||
                      !pool.Covers(Reserve(offset, length, allocation.blockMap)))
    {
      hide Settled, SameView, Reserve;
      SameViewRefl(vnode.tree);
      if isTruncate {
        return Ok(true);
      }
      var reserve := GetRequiredBlockCount(offset, length, pool.inUse);
      r := Ok(|allocation.blockMap| >= DIRTY_BLOCKS_PER_FILE || !pool.Covers(reserve.value));
    }

    /** Allocates and commits whatever is pending. */
    method FlushCachedWrites(pool: BlockPool, maxBlocks: nat)
      requires Settled(vnode.tree, pool.inUse) && Backed(Reservation()) && |allocation.blockMap| <= maxBlocks
      requires size == allocation.nodeSize
      modifies this, vnode, allocation, pool
      ensures Valid(pool) && cached == None && allocation.blockMap == {}
      ensures allocation.nodeSize == old(allocation.nodeSize)
      ensures pool.available >= old(pool.available) && pool.slices == old(pool.slices) && Funds(pool) == old(Funds(pool))
      ensures pool.available + |pool.inUse| == old(pool.available) + |old(pool.inUse)| + old(Reservation())
      ensures pool.unsynced >= old(pool.unsynced) + |OldData(old(vnode.tree), old(allocation.blockMap))|
      ensures Swapped(old(Frame(pool)), Frame(pool), old(allocation.blockMap))
    {
      hide Settled, Swapped, Required, UnmappedIn, WithinSize;
      SwappedNone(Frame(pool), Frame(pool));
      NothingReserved(vnode.tree, allocation.blockMap, Reservation());
      NothingPending(vnode.tree);
      if cached.None? {
        return;
      }
      var transaction := new Transaction(cached.value, pool.inUse);
      cached := None;
      ghost var s, base, done := Taken(vnode, transaction), Frame(pool), allocation.blockMap;
      AllocateAndCommitData(transaction, pool, maxBlocks);
      OldDataFreed(s, Taken(vnode, transaction), done);
      Rebase(s, Taken(vnode, transaction), base, Frame(pool), done);
    }

    /** FlushTransaction when forced. */
    method ForceFlushTransaction(transaction: Transaction, pool: BlockPool, maxBlocks: nat)
      requires Settled(vnode.tree, transaction.inUse) && Backed(transaction.reserved)
      requires |allocation.blockMap| <= maxBlocks
      modifies this`size, vnode, transaction, allocation, pool
      ensures Settled(vnode.tree, pool.inUse) && pool.inUse == transaction.inUse
      ensures Swapped(old(Taken(vnode, transaction)), Taken(vnode, transaction), old(allocation.blockMap))
      ensures allocation.blockMap == {} && allocation.newBlocks == 0
      ensures size == allocation.nodeSize == old(allocation.nodeSize)
      ensures pool.freed == old(pool.freed) + transaction.freed
      ensures pool.available >= old(pool.available) && Backed(0)
      ensures pool.available - old(pool.available) == old(transaction.reserved) - (|pool.inUse| - |old(transaction.inUse)|)
      ensures transaction.reserved == 0
      ensures pool.slices == old(pool.slices) && pool.unsynced == old(pool.unsynced) + |transaction.freed|
      ensures pool.returned == old(pool.returned) + |transaction.freed|
    {
      hide Settled, Swapped, Required, UnmappedIn, WithinSize;
      if allocation.blockMap == {} && allocation.newBlocks == 0 {
        size := allocation.nodeSize;
      }
      AllocateAndCommitData(transaction, pool, maxBlocks);
    }

    /** Keeps the transaction's reservation for a later flush, or flushes at once. */
    method FlushTransaction(transaction: Transaction, pool: BlockPool, maxBlocks: nat, forceFlush: bool)
      requires Settled(vnode.tree, pool.inUse) && transaction.inUse == pool.inUse && transaction.freed == {}
      requires Backed(transaction.reserved) && |allocation.blockMap| <= maxBlocks && cached == None
      modifies this, vnode, transaction, allocation, pool
      ensures Valid(pool) && allocation.nodeSize == old(allocation.nodeSize)
      ensures pool.available >= old(pool.available) && pool.slices == old(pool.slices)
      ensures Funds(pool) == old(pool.Funds()) + old(transaction.reserved)
      ensures pool.available + |pool.inUse| + Reservation() == old(pool.available) + |old(pool.inUse)| + old(transaction.reserved)
      ensures if forceFlush || |old(allocation.blockMap)| >= DIRTY_BLOCKS_PER_FILE
              then cached == None && allocation.blockMap == {} &&
                   Swapped(old(Frame(pool)), Frame(pool), old(allocation.blockMap))
              else allocation.blockMap == old(allocation.blockMap) && cached == Some(old(transaction.reserved)) &&
                   Swapped(old(Frame(pool)), Frame(pool), {})
    {
      hide Settled, Swapped, Required, UnmappedIn, WithinSize, SameView, Reserve;
      ghost var base, done := Frame(pool), allocation.blockMap;
      NothingPending(vnode.tree);
      if forceFlush {
        ghost var s := Taken(vnode, transaction);
        ForceFlushTransaction(transaction, pool, maxBlocks);
        Rebase(s, Taken(vnode, transaction), base, Frame(pool), done);
        return;
      }
      size := allocation.nodeSize;
      cached := Some(transaction.reserved);
      ghost var t := vnode.tree;
      var flush := ShouldFlush(false, 0, 0, pool);
      NoWriteNoReserve(allocation.blockMap);
      LoadKeeps(t, vnode.tree, pool.inUse, allocation.blockMap);
      SwappedNone(base, Frame(pool));
      ghost var loaded := Frame(pool);
      if flush.value {
        FlushCachedWrites(pool, maxBlocks);
        SwappedAfterLoad(base, loaded, Frame(pool), done);
      }
    }

    /** A transaction with `reserve` more blocks; null if they cannot be had, with everything flushed. */
    method GetTransaction(reserve: nat, pool: BlockPool, maxBlocks: nat)
      returns (transaction: Transaction?, ghost done: set<nat>)
      requires Valid(pool) && |allocation.blockMap| <= maxBlocks
      modifies this, vnode, allocation, pool
      ensures (transaction == null) == !old(pool.Grants(reserve))
      ensures Settled(vnode.tree, pool.inUse) && cached == None && size == allocation.nodeSize == old(allocation.nodeSize)
      ensures pool.Funds() + (if transaction == null then 0 else transaction.reserved) == old(Funds(pool))
      ensures transaction != null ==>
                && fresh(transaction) && transaction.reserved == old(Reservation()) + reserve
                && transaction.inUse == pool.inUse && transaction.freed == {}
                && vnode.tree == old(vnode.tree) && Frame(pool) == old(Frame(pool)) && done == {}
                && allocation.blockMap == old(allocation.blockMap) && allocation.newBlocks == old(allocation.newBlocks)
      ensures transaction == null ==>
                && Valid(pool) && allocation.blockMap == {} && done == old(allocation.blockMap)
                && pool.available >= old(pool.available) && pool.slices == []
                && Swapped(old(Frame(pool)), Frame(pool), done)
    {
      hide Settled, Swapped, Required, UnmappedIn, WithinSize;
      NothingReserved(vnode.tree, allocation.blockMap, Reservation());
      NothingPending(vnode.tree);
      SwappedNone(Frame(pool), Frame(pool));
      done := {};
      var kept := Reservation();
      var ok := pool.Begin(reserve);
      if cached.None? {
        transaction := null;
        if ok {
          transaction := new Transaction(reserve, pool.inUse);
        }
        return;
      }
      cached := None;
      if ok {
        transaction := new Transaction(kept + reserve, pool.inUse);
      } else {
        done := allocation.blockMap;
        var rest := new Transaction(kept, pool.inUse);
        FlushTransaction(rest, pool, maxBlocks, true);
        transaction := null;
      }
    }

    /** Flushes if ShouldFlush says so; if not, the space there is suffices for the write. */
    method CheckAndFlush(pool: BlockPool, length: nat, offset: nat, maxBlocks: nat) returns (ghost done: set<nat>)
      requires Valid(pool) && offset + length <= MAX_FILE_SIZE && maxBlocks >= DIRTY_BLOCKS_PER_FILE
      modifies this, vnode, allocation, pool
      ensures Valid(pool) && allocation.nodeSize == old(allocation.nodeSize)
      ensures Swapped(old(Frame(pool)), Frame(pool), done)
      ensures done == {} || done == old(allocation.blockMap)
      ensures if old(pool.Covers(Reserve(offset, length, allocation.blockMap)))
              then allocation.blockMap == old(allocation.blockMap) && done == {} && pool.available == old(pool.available) && cached == old(cached)
              else allocation.blockMap == {} && done == old(allocation.blockMap)
      ensures pool.available >= old(pool.available) && pool.slices == old(pool.slices) && Funds(pool) == old(Funds(pool))
    {
      hide Settled, Swapped, Required, UnmappedIn, WithinSize, SameView, Reserve;
      ghost var s, pending := Frame(pool), allocation.blockMap;
      done := {};
      var flush := ShouldFlush(false, length, offset, pool);
      LoadKeeps(s.tree, vnode.tree, pool.inUse, pending);
      SwappedNone(s, Frame(pool));
      ghost var t := Frame(pool);
      if flush.value {
        FlushCachedWrites(pool, maxBlocks);
        SwappedAfterLoad(s, t, Frame(pool), pending);
        done := pending;
      }
    }

    /** The part of Write after a transaction with enough in reserve has been had. */
    method WriteCached(transaction: Transaction, pool: BlockPool, offset: nat, length: nat, maxBlocks: nat)
      returns (ghost done: set<nat>)
      requires Settled(vnode.tree, pool.inUse) && transaction.inUse == pool.inUse && transaction.freed == {}
      requires 0 < length <= MAX_WRITE_BYTES && offset + length <= MAX_FILE_SIZE
      requires transaction.reserved >= Reserve(offset, length, allocation.blockMap)
      requires Backed(transaction.reserved - Reserve(offset, length, allocation.blockMap)) && cached == None
      requires |allocation.blockMap| < DIRTY_BLOCKS_PER_FILE && maxBlocks >= DIRTY_BLOCKS_PER_FILE + 9
      modifies this, vnode, transaction, allocation, pool
      ensures Valid(pool) && Swapped(old(Frame(pool)), Frame(pool), done)
      ensures Funds(pool) == old(pool.Funds()) + old(transaction.reserved)
      ensures allocation.nodeSize ==
              if offset + length > old(allocation.nodeSize) then offset + length else old(allocation.nodeSize)
      ensures var all := old(allocation.blockMap) + BlocksOfBytes(offset, length);
              if |all| < DIRTY_BLOCKS_PER_FILE then done == {} && allocation.blockMap == all
              else done == all && allocation.blockMap == {}
      ensures old(allocation.blockMap) == {} ==> done == {}
      ensures done == {} ==> Reservation() == old(transaction.reserved)
    {
      hide Settled, Swapped, Required, UnmappedIn, WithinSize, SameView, Reserve, Walked, BlocksOfBytes, Paths;
      ghost var s, pending := Frame(pool), allocation.blockMap;
      WriteCovered(vnode.tree, pending, offset, length, transaction.reserved - Reserve(offset, length, pending));
      WalkedBlocks(offset, length);
      MaxDataBlocksIsMax(offset, length);
      assert {} + BlocksOfBytes(offset, length) == BlocksOfBytes(offset, length);
      MarkRequiredBlocksPending(offset, length, pool.inUse);
      LoadKeeps(s.tree, vnode.tree, pool.inUse, allocation.blockMap);
      NothingChanged(s);
      SwappedThenLoad(s, s, Frame(pool), {});
      PendingWithin(pending, allocation.nodeSize, offset, length);
      if offset + length > allocation.nodeSize {
        allocation.nodeSize := offset + length;
      }
      ghost var t := Frame(pool);
      done := if |allocation.blockMap| >= DIRTY_BLOCKS_PER_FILE then allocation.blockMap else {};
      FlushTransaction(transaction, pool, maxBlocks, false);
      SwappedAfterLoad(s, t, Frame(pool), done);
    }

    /**
     Writes up to 64 KiB. The blocks are only marked pending, after the reservation has been
     raised; at most one flush happens on the way, of the blocks `done`. Whatever is pending
     afterwards is again covered.
     */
    method Write(pool: BlockPool, offset: nat, length: nat, maxBlocks: nat) returns (r: Result<nat>, ghost done: set<nat>)
      requires Valid(pool) && length <= MAX_WRITE_BYTES && maxBlocks >= DIRTY_BLOCKS_PER_FILE + 9
      modifies this, vnode, allocation, pool
      ensures Valid(pool)
      ensures length == 0 ==> r == Ok(0)
      ensures length > 0 && offset + length > MAX_FILE_SIZE <==> r == Err(ErrFileBig)
      ensures r.Err? ==> r.error == ErrFileBig || r.error == ErrNoSpace
      ensures length == 0 || r == Err(ErrFileBig) ==> unchanged(this) && unchanged(vnode) && unchanged(allocation) && unchanged(pool)
      ensures r.Ok? ==> r.value == length
      ensures allocation.nodeSize == if r.Ok? && length > 0 && offset + length > old(allocation.nodeSize)
                                     then offset + length else old(allocation.nodeSize)
      ensures Swapped(old(Frame(pool)), Frame(pool), done) && Funds(pool) == old(Funds(pool))
      ensures Outcome(old(allocation.blockMap), allocation.blockMap, Wanted(offset, length, r), done)
      ensures r.Ok? && length > 0 ==>
                ExactlyDone(old(allocation.blockMap), allocation.blockMap, BlocksOfBytes(offset, length), done,
                            old(pool.Covers(Reserve(offset, length, allocation.blockMap))))
      ensures r.Ok? && length > 0 && done == {} && old(pool.Covers(Reserve(offset, length, allocation.blockMap))) ==>
                var pending, wanted := old(allocation.blockMap), BlocksOfBytes(offset, length);
                Reservation() == old(Reservation()) + (if wanted <= pending then 0 else |wanted - pending| + |Paths(wanted)|)
      ensures r == Err(ErrNoSpace) ==>
                && allocation.blockMap == {}
                && old(pool.available) < |BlocksOfBytes(offset, length)| + |Paths(BlocksOfBytes(offset, length))|
                && old(pool.slices) == []
    {
      hide Settled, Swapped, Required, UnmappedIn, WithinSize, SameView, Reserve, Walked, BlocksOfBytes, Paths, Outcome, ExactlyDone;
      ghost var s, before := Frame(pool), allocation.blockMap;
      NothingChanged(s);
      NoBytes(offset);
      NoOutcome(before);
      if length == 0 {
        return Ok(0), {};
      }
      if offset + length > MAX_FILE_SIZE {
        return Err(ErrFileBig), {};
      }
      ReserveMeans(offset, length, before);
      ghost var covered := pool.Covers(Reserve(offset, length, before));
      done := CheckAndFlush(pool, length, offset, maxBlocks);
      ghost var u, left := Frame(pool), allocation.blockMap;
      var reserve := GetRequiredBlockCount(offset, length, pool.inUse);
      LoadKeeps(u.tree, vnode.tree, pool.inUse, left);
      SwappedThenLoad(s, u, Frame(pool), done);
      ghost var v := Frame(pool);
      ReserveAtMost(offset, length, left);
      var transaction, d := GetTransaction(reserve.value, pool, maxBlocks);
      if transaction == null {
        NothingLeft(s, v, Frame(pool), done, d);
        FailedOutcome(before, left, done, d);
        done := done + d;
        return Err(ErrNoSpace), done;
      }
      ghost var later := WriteCached(transaction, pool, offset, length, maxBlocks);
      MaxDataBlocksIsMax(offset, length);
      ExactOutcome(before, left, allocation.blockMap, BlocksOfBytes(offset, length), done, later, covered);
      OneFlush(s, v, Frame(pool), done, later);
      WriteOutcome(before, left, allocation.blockMap, BlocksOfBytes(offset, length), done, later);
      done := if later == {} then done else later;
      r := Ok(length);
    }

    /**
     Marks a block pending, for copy-on-write; no pointer to data changes yet. Under an unmapped
     block the flush may give back pointer blocks `removed` that have become empty.
     */
    method BlockGetWritable(transaction: Transaction, block: nat) returns (ghost removed: set<nat>)
      requires Settled(vnode.tree, transaction.inUse) && block < MAX_BLOCKS
      modifies vnode, transaction, allocation
      ensures Settled(vnode.tree, transaction.inUse)
      ensures Moved(old(Taken(vnode, transaction)), Taken(vnode, transaction), {}, removed)
      ensures transaction.inUse == old(transaction.inUse) && transaction.reserved == old(transaction.reserved)
      ensures Lookup(old(vnode.tree), block) != 0 ==> removed == {}
      ensures forall f :: f in removed ==> f < POINTER_BLOCKS && OnPath(block, f) && Bare(old(vnode.tree), f)
      ensures allocation.blockMap == old(allocation.blockMap) + {block} && allocation.nodeSize == old(allocation.nodeSize)
      ensures allocation.newBlocks ==
              old(allocation.newBlocks) + (if block !in old(allocation.blockMap) && Lookup(old(vnode.tree), block) == 0 then 1 else 0)
    {
      hide IteratorInv, Coherent, Unshared, Owned, Sole, Moved, Need, Pruned, SameView, EmptyFrom, LevelBlocks, Lookup, OnPath, Bare;
      ghost var s := Taken(vnode, transaction);
      var cursor := new VnodeIterator(vnode, transaction);
      TreeIsEmptyFrom(vnode.tree);
      var ok := cursor.Init(block);
      ghost var t, levels := Taken(vnode, transaction), cursor.levels;
      SameViewLookup(s.tree, t.tree, block);
      CleanNeedsNothing(t.tree, block, levels);
      var oldBlock := cursor.Blk();
      allocation.SetPending(block, oldBlock != 0);
      ghost var a, r := cursor.Flush();
      removed := r;
      FlushedClean(s, t, Taken(vnode, transaction), block, a, r);
      InvUnshared(vnode.tree, block, cursor.levels);
    }

    /**
     Cuts the file off at `length` or extends it with a hole. The last block kept is left pending
     exactly if it is cut and mapped; nothing but that one block can need to be allocated.
     */
    method TruncateInternal(transaction: Transaction, length: nat) returns (ghost removed: set<nat>)
      requires Settled(vnode.tree, transaction.inUse) && length <= MAX_FILE_SIZE
      requires allocation.blockMap == {} && allocation.newBlocks == 0 && allocation.nodeSize <= MAX_FILE_SIZE
      modifies vnode, transaction, allocation
      ensures Settled(vnode.tree, transaction.inUse) && Backed(1)
      ensures allocation.nodeSize == length && transaction.reserved == old(transaction.reserved)
      ensures transaction.inUse == old(transaction.inUse)
      ensures if length < old(allocation.nodeSize)
              then Cut(old(Taken(vnode, transaction)), Taken(vnode, transaction), RoundUp(length) / BLOCK_SIZE, removed)
              else Taken(vnode, transaction) == old(Taken(vnode, transaction))
      ensures allocation.blockMap == CutBlock(old(vnode.tree), length, old(allocation.nodeSize))
    {
      hide Settled, Required, UnmappedIn, WithinSize, Lookup, Cut, Moved, SameView;
      ghost var s := Taken(vnode, transaction);
      removed := {};
      NothingPending(vnode.tree);
      var inodeSize := allocation.nodeSize;
      NothingWithin(length);
      if length < inodeSize {
        var last := length / BLOCK_SIZE;
        var start := if length % BLOCK_SIZE == 0 then last else last + 1;
        LastBlock(length);
        ghost var r := Shrink(transaction, start);
        removed := r;
        if start * BLOCK_SIZE < inodeSize {
          allocation.nodeSize := start * BLOCK_SIZE;
        }
        if length < allocation.nodeSize {
          ghost var t := Taken(vnode, transaction);
          var mapped := IsMapped(last, transaction.inUse);
          LoadKeeps(t.tree, vnode.tree, transaction.inUse, {});
          CutThenLoad(s, t, Taken(vnode, transaction), start, r);
          ghost var u := Taken(vnode, transaction);
          CutKeepsBefore(s, u, start, r, last);
          if mapped || last in allocation.blockMap {
            ghost var none := BlockGetWritable(transaction, last);
            assert allocation.blockMap == {last};
            CutThenSame(s, u, Taken(vnode, transaction), start, r, last);
            OneMappedPending(vnode.tree, transaction.inUse, last);
            OneWithin(last, length);
          }
        }
      } else if length == inodeSize {
        return;
      }
      NothingPending(vnode.tree);
      allocation.nodeSize := length;
    }

    /** BlocksShrink on this file, with nothing pending. */
    method Shrink(transaction: Transaction, start: nat) returns (ghost removed: set<nat>)
      requires Settled(vnode.tree, transaction.inUse) && start <= MAX_BLOCKS
      modifies vnode, transaction
      ensures Settled(vnode.tree, transaction.inUse) && transaction.reserved == old(transaction.reserved)
      ensures transaction.inUse == old(transaction.inUse)
      ensures Cut(old(Taken(vnode, transaction)), Taken(vnode, transaction), start, removed)
    {
      hide Cleared, BlocksShrink.Emptied, Sole, Coherent, Unshared, Owned;
      ghost var s := Taken(vnode, transaction);
      var ok, r := BlocksShrink.BlocksShrink(vnode, transaction, start);
      removed := r;
      ShrinkKeepsSole(s.tree, vnode.tree, start, MAX_BLOCKS, r, transaction.inUse);
    }

    /** Sets the size of the file. One reserved block is enough, whatever the length. */
    method Truncate(pool: BlockPool, length: nat, maxBlocks: nat) returns (r: Result<()>)
      requires Valid(pool) && maxBlocks >= DIRTY_BLOCKS_PER_FILE
      modifies this, vnode, allocation, pool
      ensures Valid(pool)
      ensures length > MAX_FILE_SIZE <==> r == Err(ErrInvalidArgs)
      ensures r.Ok? ==> size == length && allocation.blockMap == {}
      ensures r.Ok? ==>
                Truncated(old(vnode.tree), vnode.tree, old(pool.inUse),
                          old(allocation.blockMap) + CutBlock(old(vnode.tree), length, old(allocation.nodeSize)),
                          if length < old(allocation.nodeSize) then RoundUp(length) / BLOCK_SIZE else MAX_BLOCKS)
      ensures vnode.blockCount - Occupied(vnode.tree) == old(vnode.blockCount) - Occupied(old(vnode.tree))
      ensures r.Err? ==> allocation.nodeSize == old(allocation.nodeSize)
      ensures Funds(pool) == old(Funds(pool))
      ensures r == Err(ErrInvalidArgs) ==> Frame(pool) == old(Frame(pool)) && allocation.blockMap == old(allocation.blockMap)
      ensures length <= MAX_FILE_SIZE && r.Err? ==>
                && r == Err(ErrNoSpace) && Swapped(old(Frame(pool)), Frame(pool), old(allocation.blockMap))
                && allocation.blockMap == {} && cached == None && size == allocation.nodeSize
                && pool.available == 0 && pool.slices == [] && pool.unsynced == 0
      ensures length > MAX_FILE_SIZE || r.Ok? ||
              (old(pool.available) <= 0 && old(pool.slices) == [] && old(pool.unsynced) == 0 &&
               OldData(old(vnode.tree), old(allocation.blockMap)) == {})
    {
      hide Settled, Required, UnmappedIn, WithinSize, Swapped, Cut, Lookup, Truncated, Occupied;
      ghost var s, pending, oldSize := Frame(pool), allocation.blockMap, allocation.nodeSize;
      if length > MAX_FILE_SIZE {
        return Err(ErrInvalidArgs);
      }
      FlushCachedWrites(pool, maxBlocks);
      FlushedCount(s, Frame(pool), pending);
      SizeKnown(allocation.blockMap, allocation.nodeSize);
      NoneUnmapped(vnode.tree);
      var ok := pool.Begin(1);
      if !ok {
        return Err(ErrNoSpace);
      }
      var transaction := new Transaction(1, pool.inUse);
      ghost var f, t := Frame(pool), Taken(vnode, transaction);
      ghost var removed := TruncateInternal(transaction, length);
      ghost var u, last := Taken(vnode, transaction), allocation.blockMap;
      SubsetSize(last, {length / BLOCK_SIZE});
      ForceFlushTransaction(transaction, pool, maxBlocks);
      if length < oldSize {
        CutResult(s, f, t, u, Taken(vnode, transaction), pending, last, oldSize, removed, length);
      } else {
        GrowResult(s, f, t, u, Taken(vnode, transaction), pending, oldSize, length);
      }
      r := Ok(());
    }
  }

  /** Whatever was mapped before it was swapped is among what was freed. */
  lemma OldDataFreed(s: Snapshot, t: Snapshot, done: set<nat>)
    requires Swapped(s, t, done)
    ensures |OldData(s.tree, done)| <= |t.freed|
  {
    SubsetSize(OldData(s.tree, done), t.freed);
  }

  /**
   A flush frees only blocks that were in use before it, never one that it has allocated itself; so
   the allocator keeps them all until the commit is on the device.
   */
  lemma FlushFreesOldBlocks(s: Snapshot, t: Snapshot, done: set<nat>)
    requires Swapped(s, t, done) && Settled(s.tree, s.inUse)
    ensures t.freed <= s.freed + s.inUse
  {
    hide Lookup, Parent, Coherent, Unshared, Bare, Occupied;
    assert OldData(s.tree, done) <= s.inUse;
    assert BarePlaces(s.tree) <= s.inUse;
  }

  /** And so does cutting a file off. */
  lemma CutFreesOldBlocks(s: Snapshot, t: Snapshot, start: nat, removed: set<nat>)
    requires Cut(s, t, start, removed) && Settled(s.tree, s.inUse)
    ensures t.freed <= s.freed + s.inUse
  {
    hide Lookup, Parent, Coherent, Unshared, MappedIn, BlocksShrink.Emptied;
    assert DataIn(s.tree, start, MAX_BLOCKS) <= s.inUse;
    assert forall f :: f in removed && f < POINTER_BLOCKS ==> Parent(s.tree, f) != 0;
    assert Places(s.tree, removed) <= s.inUse;
  }

  /** The blocks from `start` on have been deleted, and what the pointer blocks freed and counted. */
  ghost predicate Cut(s: Snapshot, t: Snapshot, start: nat, removed: set<nat>) {
    && Cleared(s.tree, t.tree, start, MAX_BLOCKS, removed)
    && BlocksShrink.Emptied(t.tree, start, MAX_BLOCKS, removed)
    && Accounted(s, t, start, MAX_BLOCKS, removed)
  }

  /** The last block of a file that is cut within it, if that block is mapped. */
  ghost function CutBlock(t: Tree, length: nat, size: nat): set<nat> {
    var last := length / BLOCK_SIZE;
    if length < size && length % BLOCK_SIZE != 0 && last < MAX_BLOCKS && Lookup(t, last) != 0 then {last} else {}
  }

  /**
   What Truncate does to the flat map: nothing is left from `start` on; before it the blocks that
   were pending, and the one that is cut, are in new places, and all others where they were.
   */
  ghost predicate Truncated(s: Tree, t: Tree, inUse: set<nat>, renewed: set<nat>, start: nat) {
    forall m :: 0 <= m < MAX_BLOCKS ==>
      if m >= start then Lookup(t, m) == 0
      else if m in renewed then Lookup(t, m) != 0 && Lookup(t, m) !in inUse
      else Lookup(t, m) == Lookup(s, m)
  }

  lemma NothingWithin(length: nat)
    requires length <= MAX_FILE_SIZE
    ensures WithinSize({}, length)
  {
  }

  lemma OneWithin(last: nat, length: nat)
    requires length <= MAX_FILE_SIZE && last == length / BLOCK_SIZE && length % BLOCK_SIZE != 0
    ensures WithinSize({last}, length)
  {
  }

  lemma LastBlock(length: nat)
    requires length <= MAX_FILE_SIZE
    ensures var last := length / BLOCK_SIZE;
            var start := if length % BLOCK_SIZE == 0 then last else last + 1;
            start <= MAX_BLOCKS && last < MAX_BLOCKS && start == RoundUp(length) / BLOCK_SIZE &&
            start * BLOCK_SIZE == RoundUp(length) && (length % BLOCK_SIZE == 0 <==> length == RoundUp(length))
  {
  }

  lemma SizeKnown(pending: set<nat>, nodeSize: nat)
    requires WithinSize(pending, nodeSize)
    ensures nodeSize <= MAX_FILE_SIZE
  {
  }

  lemma NoneUnmapped(t: Tree)
    ensures UnmappedIn(t, {}) == {}
  {
  }

  /** A mapped block's pointer blocks are all settled, so writing it anew takes one block. */
  lemma OneMappedPending(t: Tree, inUse: set<nat>, n: nat)
    requires Settled(t, inUse) && n < MAX_BLOCKS && Lookup(t, n) != 0
    ensures Required(t, {n}) == 1 && UnmappedIn(t, {n}) == {}
  {
    forall f | 0 <= f < POINTER_BLOCKS && OnPath(n, f) ensures Parent(t, f) != 0 && !Bare(t, f) {
      assert Synced(t, f) && Synced(t, BlockOf(n));
    }
    hide Lookup, Parent, OnPath;
    assert Unsettled(t, {n}) == {};
  }

  /** A flush with nothing dirty allocates nothing, and frees only pointer blocks through which nothing is mapped. */
  lemma FlushedClean(s: Snapshot, t: Snapshot, u: Snapshot, n: nat, added: set<nat>, removed: set<nat>)
    requires SameView(s.tree, t.tree) && t == s.(tree := t.tree) && Moved(t, u, added, removed) && added == {}
    requires removed <= LevelBlocks(n, 3) && Pruned(u.tree, LevelBlocks(n, 3), added, removed)
    requires Coherent(u.tree, {}, false) && n < MAX_BLOCKS && Sole(s.tree, s.inUse)
    ensures Moved(s, u, {}, removed) && Sole(u.tree, u.inUse) && u.inUse == s.inUse && u.reserved == s.reserved
    ensures Lookup(s.tree, n) != 0 ==> removed == {}
    ensures forall f :: f in removed ==> f < POINTER_BLOCKS && OnPath(n, f) && Bare(s.tree, f)
  {
    SameViewLookup(s.tree, t.tree, n);
    SameViewKeepsSole(s.tree, t.tree, s.inUse);
    SameViewKeeps(s.tree, t.tree, {}, false);
    LevelBlocksBelow(n, 3);
    MovedEffect(t, u, added, removed);
    RemovedAreBare(t.tree, u.tree, LevelBlocks(n, 3), added, removed);
    BareBefore(s.tree, t.tree, n, removed);
    LevelsOnPath(n);
    MoveKeepsSole(t, u, added, removed);
    NothingAdded(t, u, removed);
    NotMoved(s, t);
    hide SameView, Lookup, Coherent, Sole, Pruned, Moved, LevelBlocks, Effect, OnPath, Below;
    assert Lookup(s.tree, n) != 0 ==> removed == {};
    OnlyBelow(removed);
    MovedCompose(s, t, u, {}, {}, {}, removed);
  }

  lemma NothingAdded(s: Snapshot, t: Snapshot, removed: set<nat>)
    requires Moved(s, t, {}, removed)
    ensures t.inUse == s.inUse && t.reserved == s.reserved
  {
    assert Places(t.tree, {}) == {};
  }

  lemma BareBefore(t: Tree, u: Tree, n: nat, removed: set<nat>)
    requires SameView(t, u) && forall f :: f in removed ==> Bare(u, f)
    ensures forall f :: f in removed ==> Bare(t, f)
  {
    forall m | 0 <= m < MAX_BLOCKS ensures Lookup(t, m) == Lookup(u, m) {
      SameViewLookup(t, u, m);
    }
    hide Lookup, SameView, OnPath;
  }

  lemma OnlyBelow(removed: set<nat>)
    requires removed <= Below(POINTER_BLOCKS)
    ensures var none: set<nat> := {};
            none + none + (none + removed) <= Below(POINTER_BLOCKS) && none + none == none && none + removed == removed
  {
  }

  lemma LevelsOnPath(n: nat)
    requires n < MAX_BLOCKS
    ensures forall f :: f in LevelBlocks(n, 3) ==> OnPath(n, f)
  {
  }

  lemma CutKeepsBefore(s: Snapshot, t: Snapshot, start: nat, removed: set<nat>, n: nat)
    requires Cut(s, t, start, removed) && n < start && n < MAX_BLOCKS
    ensures Lookup(t.tree, n) == Lookup(s.tree, n)
  {
  }

  lemma CutThenLoad(s: Snapshot, t: Snapshot, u: Snapshot, start: nat, removed: set<nat>)
    requires Cut(s, t, start, removed) && SameView(t.tree, u.tree) && u == t.(tree := u.tree)
    ensures Cut(s, u, start, removed)
  {
    forall m | 0 <= m < MAX_BLOCKS ensures Lookup(u.tree, m) == Lookup(t.tree, m) {
      SameViewLookup(t.tree, u.tree, m);
    }
    hide Lookup, Parent, Content, Accounted;
    assert Accounted(s, u, start, MAX_BLOCKS, removed) by { AccountedSame(s, t, u, start, removed); }
  }

  lemma AccountedSame(s: Snapshot, t: Snapshot, u: Snapshot, start: nat, removed: set<nat>)
    requires Accounted(s, t, start, MAX_BLOCKS, removed) && u == t.(tree := u.tree)
    ensures Accounted(s, u, start, MAX_BLOCKS, removed)
  {
  }

  lemma CutThenSame(s: Snapshot, t: Snapshot, u: Snapshot, start: nat, removed: set<nat>, n: nat)
    requires Cut(s, t, start, removed) && Moved(t, u, {}, {}) && n < MAX_BLOCKS
    ensures Cut(s, u, start, removed) && Lookup(u.tree, n) == Lookup(t.tree, n) && u.reserved == t.reserved
  {
    LookupKept(t.tree, u.tree, {}, {});
    EffectOfNothing(t.tree, u.tree);
    MovedNothing(t, u);
    hide Moved;
    AccountedSame(s, t, t.(tree := u.tree), start, removed);
    hide Lookup, Parent, Content, Accounted, Zeros;
  }

  lemma MovedNothing(t: Snapshot, u: Snapshot)
    requires Moved(t, u, {}, {})
    ensures u == t.(tree := u.tree)
  {
    NoPlaces(u.tree);
    NoPlaces(t.tree);
  }

  lemma EffectOfNothing(t: Tree, u: Tree)
    requires Effect(t, u, {}, {})
    ensures forall f :: 0 <= f < POINTER_BLOCKS ==> Parent(u, f) == Parent(t, f) && Content(u, f) == Content(t, f)
  {
    hide Parent, Content;
  }

  lemma FlushedCount(s: Snapshot, t: Snapshot, done: set<nat>)
    requires Swapped(s, t, done)
    ensures t.blockCount - Occupied(t.tree) == s.blockCount - Occupied(s.tree)
  {
  }

  lemma CutResult(
    s: Snapshot, f: Snapshot, t: Snapshot, u: Snapshot, v: Snapshot, pending: set<nat>, last: set<nat>, size: nat,
    removed: set<nat>, length: nat)
    requires Swapped(s, f, pending) && t.tree == f.tree && t.blockCount == f.blockCount && t.inUse == f.inUse
    requires length < size <= MAX_FILE_SIZE && last == CutBlock(f.tree, length, size)
    requires Cut(t, u, RoundUp(length) / BLOCK_SIZE, removed) && Swapped(u, v, last)
    ensures Truncated(s.tree, v.tree, s.inUse, pending + CutBlock(s.tree, length, size), RoundUp(length) / BLOCK_SIZE)
    ensures v.blockCount - Occupied(v.tree) == s.blockCount - Occupied(s.tree)
  {
    var start := RoundUp(length) / BLOCK_SIZE;
    LastBlock(length);
    CountStaysExact(t, u, start, removed);
    FlushedCount(s, f, pending);
    FlushedCount(u, v, last);
    LastBeforeStart(length);
    hide Lookup, Parent, Occupied, Balanced, BlocksShrink.Emptied, OldData, BarePlaces, DataIn, MappedIn, Places;
    CutResultMap(s, f, u, v, pending, last, start, removed, length, size);
  }

  lemma LastBeforeStart(length: nat)
    ensures length % BLOCK_SIZE != 0 ==> length / BLOCK_SIZE < RoundUp(length) / BLOCK_SIZE
  {
  }

  lemma CutResultMap(
    s: Snapshot, f: Snapshot, u: Snapshot, v: Snapshot, pending: set<nat>, last: set<nat>, start: nat, removed: set<nat>,
    length: nat, size: nat)
    requires Renewed(s, f, pending) && Cleared(f.tree, u.tree, start, MAX_BLOCKS, removed) && Renewed(u, v, last)
    requires length < size && last == CutBlock(f.tree, length, size) && u.inUse == f.inUse
    requires length % BLOCK_SIZE != 0 ==> length / BLOCK_SIZE < start
    ensures Truncated(s.tree, v.tree, s.inUse, pending + CutBlock(s.tree, length, size), start)
  {
    hide Lookup, Parent;
  }

  lemma GrowResult(
    s: Snapshot, f: Snapshot, t: Snapshot, u: Snapshot, v: Snapshot, pending: set<nat>, size: nat, length: nat)
    requires Swapped(s, f, pending) && t.tree == f.tree && t.blockCount == f.blockCount && u == t && Swapped(u, v, {})
    requires length >= size
    ensures Truncated(s.tree, v.tree, s.inUse, pending + CutBlock(s.tree, length, size), MAX_BLOCKS)
    ensures v.blockCount - Occupied(v.tree) == s.blockCount - Occupied(s.tree)
  {
    FlushedCount(s, f, pending);
    FlushedCount(u, v, {});
    hide Lookup, Parent, Occupied, Balanced;
    assert pending + {} == pending;
  }

  /** What a write reserves: nothing if its blocks are all pending, else its own blocks and their pointer blocks. */
  ghost function Reserve(offset: nat, length: nat, pending: set<nat>): nat {
    var blocks := BlocksOfBytes(offset, length);
    if blocks <= pending then 0 else |blocks - pending| + |Paths(blocks)|
  }

  lemma ReserveMeans(offset: nat, length: nat, pending: set<nat>)
    ensures var wanted := BlocksOfBytes(offset, length);
            Reserve(offset, length, pending) == if wanted <= pending then 0 else |wanted - pending| + |Paths(wanted)|
  {
  }

  /** The blocks a write leaves pending or has just flushed. */
  ghost function Wanted(offset: nat, length: nat, r: Result<nat>): set<nat> {
    if r.Ok? then BlocksOfBytes(offset, length) else {}
  }

  /** Of the blocks pending `before` and `wanted` now, `done` has been flushed and `after` is pending. */
  ghost predicate Outcome(before: set<nat>, after: set<nat>, wanted: set<nat>, done: set<nat>) {
    || (done == {} && after == before + wanted)
    || (done == before && after == wanted)
    || (done == before + wanted && after == {})
  }

  /** Which of these it is depends on whether the space sufficed, and then on the number of dirty blocks. */
  ghost predicate ExactlyDone(before: set<nat>, after: set<nat>, wanted: set<nat>, done: set<nat>, covered: bool) {
    if !covered then done == before && after == wanted
    else if |before + wanted| < DIRTY_BLOCKS_PER_FILE then done == {} && after == before + wanted
    else done == before + wanted && after == {}
  }

  lemma ExactOutcome(
    before: set<nat>, left: set<nat>, after: set<nat>, wanted: set<nat>, done: set<nat>, later: set<nat>, covered: bool)
    requires if covered then left == before && done == {} else left == {} && done == before
    requires if |left + wanted| < DIRTY_BLOCKS_PER_FILE then later == {} && after == left + wanted
             else later == left + wanted && after == {}
    requires |wanted| < DIRTY_BLOCKS_PER_FILE
    ensures ExactlyDone(before, after, wanted, if later == {} then done else later, covered)
  {
    assert {} + wanted == wanted;
  }

  lemma NoOutcome(before: set<nat>)
    ensures Outcome(before, before, {}, {})
  {
    assert before + {} == before;
  }

  lemma FailedOutcome(before: set<nat>, left: set<nat>, done: set<nat>, later: set<nat>)
    requires (left == {} && done == before) || (left == before && done == {})
    requires later == left
    ensures Outcome(before, {}, {}, done + later)
  {
  }

  lemma WriteOutcome(
    before: set<nat>, left: set<nat>, after: set<nat>, wanted: set<nat>, done: set<nat>, later: set<nat>)
    requires (left == {} && done == before) || (left == before && done == {})
    requires if later == {} then after == left + wanted else later == left + wanted && after == {}
    requires left == {} ==> later == {}
    ensures Outcome(before, after, wanted, if later == {} then done else later)
  {
  }

  /** Reserving for a write keeps the pending blocks covered, the write's own included. */
  lemma WriteCovered(t: Tree, pending: set<nat>, offset: nat, length: nat, reserved: nat)
    requires Required(t, pending) <= reserved
    ensures Required(t, pending + BlocksOfBytes(offset, length)) <= reserved + Reserve(offset, length, pending)
  {
    var blocks := BlocksOfBytes(offset, length);
    UnsettledOfUnion(t, pending, blocks);
    hide BlocksOfBytes, Paths, Unsettled;
    if blocks <= pending {
      assert pending + blocks == pending;
    } else {
      assert pending + blocks == pending + (blocks - pending);
      DisjointUnionSize(pending, blocks - pending);
      SubsetSize(Unsettled(t, pending + blocks), Unsettled(t, pending) + Paths(blocks));
    }
  }

  lemma ReserveAtMost(offset: nat, length: nat, pending: set<nat>)
    ensures Reserve(offset, length, pending) <= |BlocksOfBytes(offset, length)| + |Paths(BlocksOfBytes(offset, length))|
  {
    hide Paths, BlocksOfBytes;
    var blocks := BlocksOfBytes(offset, length);
    SubsetSize(blocks - pending, blocks);
  }

  lemma UnsettledOfUnion(t: Tree, pending: set<nat>, blocks: set<nat>)
    ensures Unsettled(t, pending + blocks) <= Unsettled(t, pending) + Paths(blocks)
  {
    hide Bare, OnPath, Parent;
  }

  lemma NothingChanged(s: Snapshot)
    ensures Swapped(s, s, {})
  {
    SameViewRefl(s.tree);
    SwappedNone(s, s);
  }

  lemma SwappedThenLoad(s: Snapshot, t: Snapshot, u: Snapshot, done: set<nat>)
    requires Swapped(s, t, done) && SameView(t.tree, u.tree) && u == t.(tree := u.tree)
    ensures Swapped(s, u, done)
  {
    SwappedNone(t, u);
    hide Swapped;
    SwappedCompose(s, t, u, done, {});
    assert done + {} == done;
  }

  lemma NothingLeft(s: Snapshot, t: Snapshot, u: Snapshot, a: set<nat>, b: set<nat>)
    requires Swapped(s, t, a) && Swapped(t, u, b) && (a == {} || b == {})
    ensures Swapped(s, u, a + b)
  {
    hide Swapped;
    SwappedCompose(s, t, u, a, b);
  }

  lemma OneFlush(s: Snapshot, t: Snapshot, u: Snapshot, a: set<nat>, b: set<nat>)
    requires Swapped(s, t, a) && Swapped(t, u, b) && (a == {} || b == {})
    ensures Swapped(s, u, if b == {} then a else b)
  {
    NothingLeft(s, t, u, a, b);
    assert a + {} == a && {} + b == b;
  }

  lemma PendingWithin(pending: set<nat>, nodeSize: nat, offset: nat, length: nat)
    requires WithinSize(pending, nodeSize) && offset + length <= MAX_FILE_SIZE
    ensures WithinSize(pending + BlocksOfBytes(offset, length),
                       if offset + length > nodeSize then offset + length else nodeSize)
  {
    forall b | offset <= b < offset + length ensures BlockOfByte(b) * BLOCK_SIZE < offset + length {
    }
  }

  lemma UncachedCount(offset: nat, length: nat, pending: set<nat>)
    requires offset + length <= MAX_FILE_SIZE
    ensures var r := TransactionLimits.GetRequiredBlockCount(offset, length, BLOCK_SIZE);
            && r.Ok? && (Walked(offset, length) <= pending || |Walked(offset, length) * pending| <= r.value)
            && Reserve(offset, length, pending) ==
               if Walked(offset, length) <= pending then 0 else r.value - |Walked(offset, length) * pending|
  {
    RequiredIsExact(offset, length);
    WithinMaxBlocks(offset, length);
    hide TransactionLimits.GetRequiredBlockCount, Paths;
    var blocks := BlocksOfBytes(offset, length);
    if length > 0 {
      WalkedBlocks(offset, length);
      hide Walked, BlocksOfBytes;
      DisjointUnionSize(blocks - pending, blocks * pending);
      assert blocks == blocks - pending + blocks * pending;
    } else {
      WalkedNothing(offset);
      assert blocks == {};
      hide Walked, BlocksOfBytes;
      assert Walked(offset, length) <= pending || Walked(offset, length) * pending == {};
    }
  }

  lemma WithinMaxBlocks(offset: nat, length: nat)
    requires offset + length <= MAX_FILE_SIZE
    ensures length > 0 ==> (offset + length - 1) / BLOCK_SIZE < MAX_BLOCKS
  {
  }

  /** Walking over no bytes looks at one block at most. */
  lemma WalkedNothing(offset: nat)
    ensures Walked(offset, 0) <= {offset / BLOCK_SIZE}
    ensures BlocksOfBytes(offset, 0) == {} && Paths({}) == {}
  {
    NoBytes(offset);
  }

  lemma NoWriteNoReserve(pending: set<nat>)
    ensures Reserve(0, 0, pending) == 0
  {
    assert BlocksOfBytes(0, 0) == {};
  }

  /** Without a reservation nothing is pending. */
  lemma NothingReserved(t: Tree, pending: set<nat>, reserved: nat)
    requires Required(t, pending) <= reserved
    ensures reserved == 0 ==> pending == {}
  {
  }

  /** The same change seen from the allocator, which has freed other blocks before. */
  lemma Rebase(s: Snapshot, t: Snapshot, base: Snapshot, u: Snapshot, done: set<nat>)
    requires Swapped(s, t, done) && s.freed == {}
    requires base.tree == s.tree && base.blockCount == s.blockCount && base.inUse == s.inUse
    requires u.tree == t.tree && u.blockCount == t.blockCount && u.inUse == t.inUse && u.freed == base.freed + t.freed
    ensures Swapped(base, u, done)
  {
    hide Lookup, Parent, Bare, OldData, BarePlaces, Occupied;
  }

  lemma LoadKeeps(t: Tree, u: Tree, inUse: set<nat>, pending: set<nat>)
    requires SameView(t, u) && Settled(t, inUse)
    ensures Settled(u, inUse) && UnmappedIn(u, pending) == UnmappedIn(t, pending)
    ensures Required(u, pending) == Required(t, pending)
  {
    SameViewRefl(t);
    SameViewKeepsSettled(t, t, u, inUse);
    SameUnmapped(t, u, pending);
    forall m | 0 <= m < MAX_BLOCKS ensures Lookup(u, m) == Lookup(t, m) {
      SameViewLookup(t, u, m);
    }
    BareKept(t, u);
    SameUnsettled(t, u, pending);
  }

  lemma SwappedAfterLoad(s: Snapshot, t: Snapshot, u: Snapshot, done: set<nat>)
    requires Swapped(s, t, {}) && Swapped(t, u, done)
    ensures Swapped(s, u, done)
  {
    hide Swapped;
    SwappedCompose(s, t, u, {}, done);
    assert {} + done == done;
  }

  /** The blocks that WalkFileBlocks goes through. */
  ghost function Walked(offset: nat, length: nat): set<nat> {
    Interval(offset / BLOCK_SIZE, (offset + length + BLOCK_SIZE - 1) / BLOCK_SIZE)
  }

  /** For a write of at least one byte those are the blocks with a byte of it. */
  lemma WalkedBlocks(offset: nat, length: nat)
    requires length > 0
    ensures Walked(offset, length) == BlocksOfBytes(offset, length)
  {
    BlocksOfBytesRange(offset, length);
  }

  lemma SizeInBlocks(pending: set<nat>, nodeSize: nat)
    requires WithinSize(pending, nodeSize)
    ensures (nodeSize + BLOCK_SIZE - 1) / BLOCK_SIZE <= MAX_BLOCKS
    ensures pending - Interval(0, (nodeSize + BLOCK_SIZE - 1) / BLOCK_SIZE) == {}
    ensures pending - Interval(0, 0) == pending
  {
    assert Interval(0, 0) == {};
  }

  lemma SameViewRefl(t: Tree)
    ensures SameView(t, t)
  {
  }

  lemma SameViewKeepsSettled(s: Tree, t: Tree, u: Tree, inUse: set<nat>)
    requires SameView(s, t) && SameView(t, u) && Settled(t, inUse)
    ensures SameView(s, u) && Settled(u, inUse)
  {
    SameViewCompose(s, t, u);
    SameViewKeeps(t, u, {}, false);
    SameViewKeepsOwned(t, u);
    SameViewKeepsSole(t, u, inUse);
  }

  lemma SameUnmapped(t: Tree, u: Tree, pending: set<nat>)
    requires SameView(t, u)
    ensures UnmappedIn(u, pending) == UnmappedIn(t, pending)
  {
    forall m | 0 <= m < MAX_BLOCKS ensures Lookup(u, m) == Lookup(t, m) {
      SameViewLookup(t, u, m);
    }
    hide Lookup, SameView;
  }

  lemma WalkBounds(offset: nat, length: nat, start: nat, end: nat)
    requires offset + length <= MAX_FILE_SIZE
    requires start == offset / BLOCK_SIZE && end == (offset + length + BLOCK_SIZE - 1) / BLOCK_SIZE
    ensures start <= end <= MAX_BLOCKS && Walked(offset, length) == Interval(start, end)
  {
  }

  lemma NonePending(start: nat, pending: set<nat>)
    ensures Interval(start, start) == {} && Interval(start, start) * pending == {} && pending + {} == pending
  {
    assert Interval(start, start) == {};
  }

  lemma PendingSoFar(start: nat, block: nat, end: nat, pending: set<nat>)
    requires start <= block < end
    ensures var before, now := Interval(start, block), Interval(start, block + 1);
            && |now * pending| == |before * pending| + (if block in pending then 1 else 0)
            && (now <= pending <==> before <= pending && block in pending)
            && |now * pending| <= |Interval(start, end) * pending|
  {
    IntervalGrows(start, block);
    assert Interval(start, block + 1) <= Interval(start, end);
    hide Interval;
    OneMoreCommon(Interval(start, block), block, pending);
    SubsetSize(Interval(start, block + 1) * pending, Interval(start, end) * pending);
  }

  lemma OneMoreCommon(a: set<nat>, x: nat, pending: set<nat>)
    requires x !in a
    ensures |(a + {x}) * pending| == |a * pending| + (if x in pending then 1 else 0)
  {
    assert (a + {x}) * pending == a * pending + (if x in pending then {x} else {});
  }

  lemma OneMorePending(t: Tree, pending: set<nat>, block: nat)
    requires block < MAX_BLOCKS
    ensures |UnmappedIn(t, pending + {block})| ==
            |UnmappedIn(t, pending)| + (if block !in pending && Lookup(t, block) == 0 then 1 else 0)
    ensures block in pending ==> pending + {block} == pending
  {
    hide Lookup;
    var more := if block !in pending && Lookup(t, block) == 0 then {block} else {};
    assert UnmappedIn(t, pending + {block}) == UnmappedIn(t, pending) + more;
    DisjointUnionSize(UnmappedIn(t, pending), more);
  }

  lemma OneLessPending(t: Tree, pending: set<nat>, block: nat)
    requires block < MAX_BLOCKS
    ensures |UnmappedIn(t, pending - {block})| ==
            |UnmappedIn(t, pending)| - (if block in pending && Lookup(t, block) == 0 then 1 else 0)
    ensures block !in pending ==> pending - {block} == pending
  {
    OneMorePending(t, pending - {block}, block);
    assert block in pending ==> pending - {block} + {block} == pending;
    assert block !in pending ==> pending - {block} == pending;
  }


  lemma ReservationAside(s: Snapshot, t: Snapshot, u: Snapshot, done: set<nat>)
    requires Swapped(s, t, done) && u == t.(reserved := u.reserved)
    ensures Swapped(s, u, done)
  {
    hide Lookup, Parent, Bare, OldData, BarePlaces, Occupied;
  }

  lemma DoneNone(all: set<nat>)
    ensures {} !! all && {} + all == all
  {
  }

  lemma NothingPending(t: Tree)
    ensures Required(t, {}) == 0 && UnmappedIn(t, {}) == {}
  {
    assert Unsettled(t, {}) == {};
  }

  /** The first pending range ends within the file's last block. */
  lemma RangeInFile(pending: set<nat>, nodeSize: nat, start: nat, count: nat)
    requires WithinSize(pending, nodeSize) && count > 0
    requires forall n :: start <= n < start + count ==> n in pending
    ensures Interval(start, start + count) <= pending && start + count <= MAX_BLOCKS
    ensures (start + count) * BLOCK_SIZE <= RoundUp(nodeSize)
  {
    assert start + count - 1 in pending;
  }

  lemma SwappedMore(
    s: Snapshot, t: Snapshot, u: Snapshot, all: set<nat>, done: set<nat>, pending: set<nat>, start: nat, count: nat,
    nodeSize: nat)
    requires Swapped(s, t, done) && Swapped(t, u, Interval(start, start + count)) && count > 0
    requires Interval(start, start + count) <= pending && done !! pending && done + pending == all
    requires WithinSize(pending, nodeSize)
    ensures Swapped(s, u, done + Interval(start, start + count))
    ensures var now := pending - Interval(start, start + count);
            && done + Interval(start, start + count) !! now && done + Interval(start, start + count) + now == all
            && |now| < |pending| && WithinSize(now, nodeSize)
  {
    hide Swapped;
    SwappedCompose(s, t, u, done, Interval(start, start + count));
    assert start in Interval(start, start + count);
    SubsetSize(pending - Interval(start, start + count), pending);
  }

  lemma NothingSwapped(s: Snapshot, start: nat)
    requires start <= MAX_BLOCKS
    ensures Swapped(s, s, Interval(start, start)) && Interval(start, start) == {} && Recorded(s.tree, start, start, [])
  {
    assert Interval(start, start) == {};
    SwappedNone(s, s);
  }

  lemma StartSwap(s: Snapshot, t: Snapshot, start: nat, levels: seq<Level>, pending: set<nat>, newBlocks: nat)
    requires SameView(s.tree, t.tree) && t == s.(tree := t.tree) && start <= MAX_BLOCKS
    requires Shape(start, levels) && forall l :: 0 <= l < LevelCount(start) ==> !levels[l].dirty
    requires Sole(s.tree, s.inUse) && newBlocks == |UnmappedIn(s.tree, pending)| && Required(s.tree, pending) <= s.reserved
    ensures Swapping(s, t, start, start, start, levels, pending, newBlocks, [])
    ensures Interval(start, start) == {}
  {
    hide Shape, Lookup, Parent, Sole, Bare;
    SwappedNone(s, t);
    SameViewKeepsSole(s.tree, t.tree, s.inUse);
    CleanNeedsNothing(t.tree, start, levels);
    assert Interval(start, start) == {};
    forall m | 0 <= m < MAX_BLOCKS ensures Lookup(t.tree, m) == Lookup(s.tree, m) {
      SameViewLookup(s.tree, t.tree, m);
    }
    BareKept(s.tree, t.tree);
    assert UnmappedIn(t.tree, pending) == UnmappedIn(s.tree, pending);
    SameUnsettled(s.tree, t.tree, pending);
    EnoughAtStart(t.tree, pending, start, levels, t.reserved);
  }

  lemma SameUnsettled(t: Tree, u: Tree, pending: set<nat>)
    requires SameView(t, u) && forall f :: Bare(u, f) <==> Bare(t, f)
    ensures Unsettled(u, pending) == Unsettled(t, pending)
  {
    hide Bare, Parent, Content, OnPath;
  }

  lemma IntervalNext(start: nat, n: nat, end: nat, pending: set<nat>)
    requires start <= n < end && Interval(start, end) <= pending
    ensures n in pending - Interval(start, n)
    ensures pending - Interval(start, n) - {n} == pending - Interval(start, n + 1)
    ensures Interval(start, n + 1) == Interval(start, n) + {n}
  {
  }

  lemma ReadyToSwap(
    s: Snapshot, t: Snapshot, start: nat, n: nat, levels: seq<Level>, pending: set<nat>, newBlocks: nat, bnos: seq<nat>)
    requires Swapping(s, t, start, n, n, levels, pending, newBlocks, bnos) && n in pending && n < MAX_BLOCKS
    ensures t.reserved > 0
    ensures Lookup(t.tree, n) == 0 ==> newBlocks > 0
  {
    hide Lookup;
    EnoughNeed(t.tree, pending, n, levels, t.reserved);
    SubsetSize({n}, pending);
    if Lookup(t.tree, n) == 0 {
      SubsetSize({n}, UnmappedIn(t.tree, pending));
    }
  }

  lemma OwnedGrows(t: Tree, inUse: set<nat>, block: nat)
    requires Owned(t, inUse)
    ensures Owned(t, inUse + {block})
  {
  }

  /** One block has been swapped; the iterator has not moved yet. */
  lemma SwapStep(
    s: Snapshot, t: Snapshot, u: Snapshot, start: nat, n: nat, before: seq<Level>, after: seq<Level>, pending: set<nat>,
    newBlocks: nat, bnos: seq<nat>, block: nat)
    requires Swapping(s, t, start, n, n, before, pending, newBlocks, bnos) && n in pending && n < MAX_BLOCKS
    requires SwappedOne(t, u, n, block) && Owned(t.tree, t.inUse) && Shape(n, after)
    requires Lookup(t.tree, n) == 0 ==> newBlocks > 0
    ensures Swapping(s, u, start, n + 1, n, after, pending - {n}, newBlocks - (if Lookup(t.tree, n) == 0 then 1 else 0),
                     bnos + [block])
  {
    hide Lookup, Parent, Swapped, Sole, Enough, Owned, Shape, Recorded, UnmappedIn, Interval;
    IntervalGrows(start, n);
    RecordNext(t.tree, u.tree, start, n, bnos, block);
    CountUnmapped(t.tree, u.tree, n, block, pending);
    EnoughAfterSet(t.tree, u.tree, pending, n, before, after, t.reserved, block);
    hide SwappedOne;
    SwapKeepsSwapped(s, t, u, Interval(start, n), n, block);
    SwapKeepsSole(t, u, n, block);
  }

  lemma IntervalGrows(start: nat, n: nat)
    requires start <= n
    ensures Interval(start, n + 1) == Interval(start, n) + {n} && n !in Interval(start, n)
  {
  }

  lemma RecordNext(t: Tree, u: Tree, start: nat, n: nat, bnos: seq<nat>, block: nat)
    requires Recorded(t, start, n, bnos) && n < MAX_BLOCKS
    requires forall m :: 0 <= m < MAX_BLOCKS ==> Lookup(u, m) == if m == n then block else Lookup(t, m)
    ensures Recorded(u, start, n + 1, bnos + [block])
  {
    hide Lookup;
  }

  lemma CountUnmapped(t: Tree, u: Tree, n: nat, block: nat, pending: set<nat>)
    requires n in pending && n < MAX_BLOCKS
    requires forall m :: 0 <= m < MAX_BLOCKS ==> Lookup(u, m) == if m == n then block else Lookup(t, m)
    ensures |UnmappedIn(u, pending - {n})| == |UnmappedIn(t, pending)| - (if Lookup(t, n) == 0 then 1 else 0)
  {
    hide Lookup;
    var unmapped := UnmappedIn(t, pending);
    assert UnmappedIn(u, pending - {n}) == unmapped - {n};
    assert |unmapped - {n}| == |unmapped| - (if n in unmapped then 1 else 0);
  }

  lemma AdvanceStep(
    s: Snapshot, u: Snapshot, v: Snapshot, start: nat, n: nat, before: seq<Level>, after: seq<Level>, pending: set<nat>,
    newBlocks: nat, bnos: seq<nat>, added: set<nat>, removed: set<nat>)
    requires n < MAX_BLOCKS && Swapping(s, u, start, n + 1, n, before, pending, newBlocks, bnos)
    requires Advanced(u, v, n, n + 1, before, after, added, removed, false)
    ensures Swapping(s, v, start, n + 1, n + 1, after, pending, newBlocks, bnos)
  {
    hide IteratorInv, Swapped, Sole, Enough, Need, Lookup, Moved, Pruned, Shape, LeftBehind, Interval, Bare, Below;
    ShapeOf(v.tree, n + 1, after);
    LeftBelow(n, n + 1);
    MovedEffect(u, v, added, removed);
    RootLeftAtEnd(v.tree, n, after);
    RemovedAreBare(u.tree, v.tree, LeftBehind(n, n + 1), added, removed);
    IteratorUnshared(v.tree, n + 1, after);
    MovedSpends(u, v, added, removed);
    MovedOn(s, u, v, Interval(start, n + 1), pending, n, n + 1, before, after, added, removed);
  }

  lemma IteratorUnshared(t: Tree, n: nat, levels: seq<Level>)
    requires IteratorInv(t, n, levels)
    ensures Unshared(t)
  {
  }

  /** The root pointer block goes out of view only at the very end, where nothing can be unwritten. */
  lemma RootLeftAtEnd(t: Tree, n: nat, levels: seq<Level>)
    requires n < MAX_BLOCKS && IteratorInv(t, n + 1, levels)
    ensures ROOT in LeftBehind(n, n + 1) ==> Coherent(t, {}, false)
  {
  }

  /** What an advance or a flush keeps of a swap in progress. */
  lemma MovedOn(
    s: Snapshot, u: Snapshot, v: Snapshot, done: set<nat>, pending: set<nat>, n: nat, m: nat, before: seq<Level>,
    after: seq<Level>, added: set<nat>, removed: set<nat>)
    requires Swapped(s, u, done) && Enough(u.tree, pending, n, before, u.reserved) && Sole(u.tree, u.inUse)
    requires Moved(u, v, added, removed) && added <= Need(u.tree, n, before) && added + removed <= Below(POINTER_BLOCKS)
    requires Shape(m, after) && Need(v.tree, m, after) == Need(u.tree, n, before) - added
    requires forall f :: f in removed ==> Bare(u.tree, f)
    ensures Swapped(s, v, done) && Enough(v.tree, pending, m, after, v.reserved) && Sole(v.tree, v.inUse)
    ensures UnmappedIn(v.tree, pending) == UnmappedIn(u.tree, pending)
    ensures forall k :: 0 <= k < MAX_BLOCKS ==> Lookup(v.tree, k) == Lookup(u.tree, k)
  {
    hide Swapped, Sole, Need, Lookup, Shape, Bare, Effect, Below;
    MovedEffect(u, v, added, removed);
    LookupKept(u.tree, v.tree, added, removed);
    MoveKeepsSwapped(s, u, v, done, added, removed);
    MoveKeepsSole(u, v, added, removed);
    EnoughAfterMove(u.tree, v.tree, pending, n, m, before, after, u.reserved, added, removed);
    assert UnmappedIn(v.tree, pending) == UnmappedIn(u.tree, pending);
  }

  lemma FlushCovered(
    s: Snapshot, t: Snapshot, start: nat, done: nat, n: nat, levels: seq<Level>, pending: set<nat>, newBlocks: nat,
    bnos: seq<nat>)
    requires Swapping(s, t, start, done, n, levels, pending, newBlocks, bnos)
    ensures Shape(n, levels) && |Need(t.tree, n, levels)| <= t.reserved
  {
    EnoughNeed(t.tree, pending, n, levels, t.reserved);
  }

  lemma EndSwap(
    s: Snapshot, t: Snapshot, u: Snapshot, start: nat, n: nat, before: seq<Level>, after: seq<Level>, pending: set<nat>,
    newBlocks: nat, bnos: seq<nat>, added: set<nat>, removed: set<nat>)
    requires Swapping(s, t, start, n, n, before, pending, newBlocks, bnos)
    requires Moved(t, u, added, removed) && added + removed <= LevelBlocks(n, 3)
    requires Shape(n, before) && added == Need(t.tree, n, before)
    requires Pruned(u.tree, LevelBlocks(n, 3), added, removed) && Coherent(u.tree, {}, false)
    requires IteratorInv(u.tree, n, after) && forall l :: 0 <= l < LevelCount(n) ==> !after[l].dirty
    ensures Swapped(s, u, Interval(start, n)) && Sole(u.tree, u.inUse)
    ensures newBlocks == |UnmappedIn(u.tree, pending)| && Required(u.tree, pending) <= u.reserved
    ensures Recorded(u.tree, start, n, bnos) && Spent(s, u)
  {
    hide IteratorInv, Swapped, Sole, Enough, Lookup, Moved, Pruned, Interval, Bare, Coherent, LevelBlocks, Need, Below;
    ShapeOf(u.tree, n, after);
    CleanNeedsNothing(u.tree, n, after);
    LevelBlocksBelow(n, 3);
    MovedEffect(t, u, added, removed);
    RemovedAreBare(t.tree, u.tree, LevelBlocks(n, 3), added, removed);
    IteratorUnshared(u.tree, n, after);
    MovedSpends(t, u, added, removed);
    MovedOn(s, t, u, Interval(start, n), pending, n, n, before, after, added, removed);
    EnoughNeed(u.tree, pending, n, after, u.reserved);
  }

  /**
   Flushing pending blocks changes the number of blocks the file counts as its own, the pending
   ones included, by the pointer blocks gained or lost and nothing else.
   */
  lemma OnlyPointerBlocksAdd(s: Snapshot, t: Snapshot, done: set<nat>)
    requires Swapped(s, t, done) && done <= Below(MAX_BLOCKS)
    ensures t.blockCount - (s.blockCount + |UnmappedIn(s.tree, done)|) == |Placed(t.tree)| - |Placed(s.tree)|
  {
    hide Lookup, Parent, Below;
    assert forall m :: m in done ==> m in Below(MAX_BLOCKS);
    assert MappedIn(t.tree, 0, MAX_BLOCKS) == MappedIn(s.tree, 0, MAX_BLOCKS) + UnmappedIn(s.tree, done) by {
      MappedBySwap(s, t, done);
    }
    DisjointUnionSize(MappedIn(s.tree, 0, MAX_BLOCKS), UnmappedIn(s.tree, done));
  }

  lemma MappedBySwap(s: Snapshot, t: Snapshot, done: set<nat>)
    requires Renewed(s, t, done) && done <= Below(MAX_BLOCKS)
    ensures MappedIn(t.tree, 0, MAX_BLOCKS) == MappedIn(s.tree, 0, MAX_BLOCKS) + UnmappedIn(s.tree, done)
  {
    hide Lookup;
    assert forall m :: m in done ==> m < MAX_BLOCKS;
  }
}
