/** Deleting every block of a file from some block on: VnodeMinfs::BlocksShrink. */
module BlocksShrink {
  import opened Sets
  import opened PointerTree
  import opened IteratorSpec
  import opened ContiguousRuns
  import opened VnodeMapper

  /** One past the last file block whose pointer is in pointer block f. */
  function EndOf(f: nat): nat
    requires f < POINTER_BLOCKS && f != ROOT
  {
    DIRECT + (if f < ROOT then f + 1 else f) * PER_INDIRECT
  }

  /** Pointer block f covers file blocks from `start` on, and none from n on. */
  ghost predicate Passed(start: nat, n: nat, f: nat) {
    f < POINTER_BLOCKS && start < n && if f == ROOT then n == MAX_BLOCKS else start < EndOf(f) <= n
  }

  ghost function MappedIn(t: Tree, start: nat, end: nat): set<nat>
    requires end <= MAX_BLOCKS
  {
    set m | start <= m < end && Lookup(t, m) != 0
  }

  ghost function DataIn(t: Tree, start: nat, end: nat): set<nat>
    requires end <= MAX_BLOCKS
  {
    set m | start <= m < end && Lookup(t, m) != 0 :: Lookup(t, m)
  }

  /** The flat map, and where the pointer blocks are, after clearing start..done. */
  ghost predicate Cleared(s: Tree, t: Tree, start: nat, done: nat, removed: set<nat>) {
    && (forall m :: 0 <= m < MAX_BLOCKS ==> Lookup(t, m) == if start <= m < done then 0 else Lookup(s, m))
    && (forall f :: 0 <= f < POINTER_BLOCKS ==> Parent(t, f) == if f in removed then 0 else Parent(s, f))
    && (forall f :: f in removed ==> f < POINTER_BLOCKS && Parent(s, f) != 0)
  }

  /** Of the pointer blocks passed, exactly those that became empty have been freed. */
  ghost predicate Emptied(t: Tree, start: nat, n: nat, removed: set<nat>) {
    && (forall f :: f in removed ==> Passed(start, n, f) && Content(t, f) == Zeros())
    && (forall f :: Passed(start, n, f) && Content(t, f) == Zeros() ==> Parent(t, f) == 0)
  }

  /** The freed device blocks and the block count are those of the cleared data and removed pointer blocks. */
  ghost predicate Accounted(s: Snapshot, t: Snapshot, start: nat, done: nat, removed: set<nat>)
    requires done <= MAX_BLOCKS
  {
    && t.reserved == s.reserved && t.inUse == s.inUse
    && t.freed == s.freed + DataIn(s.tree, start, done) + Places(s.tree, removed)
    && t.blockCount == s.blockCount - |MappedIn(s.tree, start, done)| - |removed|
  }

  /** The iterator is at n, and start..done has been cleared. */
  ghost predicate Shrinking(
    s: Snapshot, t: Snapshot, start: nat, done: nat, n: nat, levels: seq<Level>, removed: set<nat>)
  {
    && start <= n <= done <= MAX_BLOCKS && Shape(n, levels)
    && Cleared(s.tree, t.tree, start, done, removed)
    && Emptied(t.tree, start, n, removed)
    && Accounted(s, t, start, done, removed)
    && Need(t.tree, n, levels) == {}
  }

  /** Deletes the blocks of the file from `start` on. */
  method BlocksShrink(vnode: Vnode, transaction: Transaction, start: nat) returns (ok: bool, ghost removed: set<nat>)
    requires Coherent(vnode.tree, {}, false) && Unshared(vnode.tree) && Owned(vnode.tree, transaction.inUse)
    modifies vnode, transaction
    ensures ok == (start <= MAX_BLOCKS)
    ensures !ok ==> vnode.tree == old(vnode.tree) && vnode.blockCount == old(vnode.blockCount)
    ensures !ok ==> transaction.freed == old(transaction.freed) && transaction.reserved == old(transaction.reserved)
    ensures ok ==>
              && Cleared(old(vnode.tree), vnode.tree, start, MAX_BLOCKS, removed)
              && Emptied(vnode.tree, start, MAX_BLOCKS, removed)
              && Accounted(old(Taken(vnode, transaction)), Taken(vnode, transaction), start, MAX_BLOCKS, removed)
              && Coherent(vnode.tree, {}, false) && Unshared(vnode.tree) && Owned(vnode.tree, transaction.inUse)
              && (forall f :: f in vnode.tree.file ==> f < KeptBlocks(start))
  {
    hide IteratorInv, Owned, Coherent, Unshared, Shrinking, Cleared, Emptied, Accounted, Advanced, Moved, Need, RunSound,
         EmptyFrom, SameView, Lookup, Parent;
    removed := {};
    ghost var s := Taken(vnode, transaction);
    var cursor := new VnodeIterator(vnode, transaction);
    TreeIsEmptyFrom(vnode.tree);
    ok := cursor.Init(start);
    if !ok {
      return;
    }
    StartShrink(s, cursor.Now(), start, cursor.levels);
    var blockCount := MAX_BLOCKS - start;
    while blockCount > 0
      invariant cursor.vnode == vnode && cursor.transaction == transaction
      invariant cursor.Valid() && cursor.contiguousBlockCount == 0
      invariant blockCount >= 0 && cursor.fileBlock + blockCount == MAX_BLOCKS
      invariant Shrinking(s, cursor.Now(), start, cursor.fileBlock, cursor.fileBlock, cursor.levels, removed)
    {
      ghost var t, n, levels := cursor.Now(), cursor.fileBlock, cursor.levels;
      var count;
      if cursor.Blk() == 0 {
        count := cursor.GetContiguousBlockCount(blockCount);
        RunLength(vnode.tree, n, cursor.contiguousBlockCount);
        SkipHole(s, t, start, n, levels, removed, count);
      } else {
        count := 1;
        vnode.DeleteBlock(transaction, cursor.Blk());
        cursor.SetBlk(0);
        ShapeOf(vnode.tree, n, cursor.levels);
        ClearOne(s, t, cursor.Now(), start, n, levels, cursor.levels, removed);
      }
      ghost var u, before := cursor.Now(), cursor.levels;
      NothingNeeded(s, u, start, n + count, n, before, removed);
      var advanced, a, r := cursor.Advance(count);
      AdvanceShrink(s, u, cursor.Now(), start, n + count, n, before, cursor.levels, removed, a, r);
      removed := removed + r;
      blockCount := blockCount - count;
    }
    NothingNeeded(s, cursor.Now(), start, MAX_BLOCKS, MAX_BLOCKS, cursor.levels, removed);
    ghost var last, levels := cursor.Now(), cursor.levels;
    ghost var a, r := cursor.Flush();
    EndShrink(s, last, cursor.Now(), start, levels, removed, a, r);
    InvUnshared(vnode.tree, cursor.fileBlock, cursor.levels);
    UnloadKeeps(vnode.tree, KeptBlocks(start));
    ghost var flushed := cursor.Now();
    vnode.tree := Unload(vnode.tree, KeptBlocks(start));
    AfterUnload(s, flushed, Taken(vnode, transaction), start, removed);
  }

  ghost function Taken(vnode: Vnode, transaction: Transaction): Snapshot
    reads vnode, transaction
  {
    Snapshot(vnode.tree, vnode.blockCount, transaction.reserved, transaction.inUse, transaction.freed)
  }

  // ---------------------------------------------------------------------------
  // The cached pointer blocks that are kept

  /** How many blocks of the virtual indirect file a file of `start` blocks needs. */
  function KeptBlocks(start: nat): nat {
    var pointers :=
      if start <= DIRECT then 0
      else if start <= DOUBLE_START then start - DIRECT
      else (start - DOUBLE_START) + (INDIRECT + 1) * PER_INDIRECT;
    (pointers + PER_INDIRECT - 1) / PER_INDIRECT
  }

  /** Those are the blocks up to the one with the pointer of the last file block left. */
  lemma KeptBlocksExact(start: nat)
    requires start <= MAX_BLOCKS
    ensures KeptBlocks(start) == if start <= DIRECT then 0 else BlockOf(start - 1) + 1
  {
  }

  function Unload(t: Tree, k: nat): Tree {
    t.(file := map f | f in t.file && f < k :: t.file[f])
  }

  /** Dropping cached blocks loses nothing once all are on the device. */
  lemma UnloadKeeps(t: Tree, k: nat)
    requires Coherent(t, {}, false) && Unshared(t)
    ensures var u := Unload(t, k);
            && (forall f :: 0 <= f < POINTER_BLOCKS ==> Parent(u, f) == Parent(t, f) && Content(u, f) == Content(t, f))
            && Coherent(u, {}, false) && Unshared(u)
  {
    var u := Unload(t, k);
    assert Synced(t, ROOT);
    assert Content(u, ROOT) == Content(t, ROOT);
    forall f | 0 <= f < POINTER_BLOCKS ensures Parent(u, f) == Parent(t, f) && Content(u, f) == Content(t, f) {
      assert Synced(t, f);
    }
    forall f | 0 <= f < POINTER_BLOCKS ensures Synced(u, f) {
      assert Synced(t, f);
    }
  }

  // ---------------------------------------------------------------------------
  // The steps of the loop

  lemma TreeIsEmptyFrom(t: Tree)
    requires Coherent(t, {}, false)
    ensures forall f :: EmptyFrom(t, f)
  {
    assert Synced(t, ROOT);
  }

  lemma InvUnshared(t: Tree, n: nat, levels: seq<Level>)
    requires IteratorInv(t, n, levels)
    ensures Unshared(t)
  {
  }

  lemma StartShrink(s: Snapshot, t: Snapshot, start: nat, levels: seq<Level>)
    requires SameView(s.tree, t.tree) && t == s.(tree := t.tree) && start <= MAX_BLOCKS
    requires Shape(start, levels) && forall l :: 0 <= l < LevelCount(start) ==> !levels[l].dirty
    ensures Shrinking(s, t, start, start, start, levels, {})
  {
    hide Parent, Content;
    CleanNeedsNothing(t.tree, start, levels);
    forall m | 0 <= m < MAX_BLOCKS ensures Lookup(t.tree, m) == Lookup(s.tree, m) {
      SameViewLookup(s.tree, t.tree, m);
    }
  }

  lemma SameViewLookup(s: Tree, t: Tree, m: nat)
    requires SameView(s, t) && m < MAX_BLOCKS
    ensures Lookup(t, m) == Lookup(s, m)
  {
  }

  lemma NothingNeeded(s: Snapshot, t: Snapshot, start: nat, done: nat, n: nat, levels: seq<Level>, removed: set<nat>)
    requires Shrinking(s, t, start, done, n, levels, removed)
    ensures Shape(n, levels) && Need(t.tree, n, levels) == {}
  {
  }

  lemma RunLength(t: Tree, n: nat, count: nat)
    requires RunSound(t, n, count)
    ensures n < MAX_BLOCKS && 0 < count <= MAX_BLOCKS - n
  {
  }

  lemma SkipHole(s: Snapshot, t: Snapshot, start: nat, n: nat, levels: seq<Level>, removed: set<nat>, count: nat)
    requires Shrinking(s, t, start, n, n, levels, removed)
    requires RunSound(t.tree, n, count) && Lookup(t.tree, n) == 0
    ensures Shrinking(s, t, start, n + count, n, levels, removed)
    ensures NothingSkipped(t.tree, n, n + count)
  {
    hide Lookup, Parent, Need, Emptied;
    var d := n + count;
    forall m | n <= m < d ensures Lookup(s.tree, m) == 0 && Lookup(t.tree, m) == 0 {
      assert SparseFrom(t.tree, n, m);
    }
    assert MappedIn(s.tree, start, d) == MappedIn(s.tree, start, n);
    assert DataIn(s.tree, start, d) == DataIn(s.tree, start, n);
    forall f | 0 <= f < POINTER_BLOCKS && f != ROOT && n < EndOf(f) <= d && (n < DIRECT || f != BlockOf(n))
      ensures Parent(t.tree, f) == 0
    {
      LastOf(f);
      assert SparseFrom(t.tree, n, EndOf(f) - 1);
    }
  }

  lemma LastOf(f: nat)
    requires f < POINTER_BLOCKS && f != ROOT
    ensures DIRECT < EndOf(f) <= MAX_BLOCKS && BlockOf(EndOf(f) - 1) == f
  {
  }

  /** On the way from n to d, in the same region, no pointer block that has a place is jumped over. */
  ghost predicate NothingSkipped(t: Tree, n: nat, d: nat) {
    && d <= RegionEnd(n)
    && forall f :: 0 <= f < POINTER_BLOCKS && f != ROOT && n < EndOf(f) <= d && (n < DIRECT || f != BlockOf(n)) ==>
         Parent(t, f) == 0
  }

  /** The mapping of the current file block has been deleted and its device block given back. */
  ghost predicate ClearedOne(t: Snapshot, u: Snapshot, n: nat)
    requires n < MAX_BLOCKS
  {
    && (forall m :: 0 <= m < MAX_BLOCKS ==> Lookup(u.tree, m) == if m == n then 0 else Lookup(t.tree, m))
    && (forall f :: 0 <= f < POINTER_BLOCKS ==> Parent(u.tree, f) == Parent(t.tree, f))
    && (forall f :: 0 <= f < POINTER_BLOCKS && (n < DIRECT || f != BlockOf(n)) ==>
          Content(u.tree, f) == Content(t.tree, f))
    && u.blockCount == t.blockCount - 1 && u.freed == t.freed + {Lookup(t.tree, n)}
    && u.reserved == t.reserved && u.inUse == t.inUse
  }

  lemma ClearOne(
    s: Snapshot, t: Snapshot, u: Snapshot, start: nat, n: nat, before: seq<Level>, after: seq<Level>, removed: set<nat>)
    requires Shrinking(s, t, start, n, n, before, removed) && IteratorInv(t.tree, n, before) && n < MAX_BLOCKS
    requires Lookup(t.tree, n) != 0 && ClearedOne(t, u, n)
    requires Shape(n, after) && forall l :: 1 <= l < 3 ==> after[l] == before[l]
    ensures Shrinking(s, u, start, n + 1, n, after, removed)
    ensures NothingSkipped(u.tree, n, n + 1)
  {
    MappedIsPlaced(t.tree, n, before);
    ClearOneNeeds(t, u, n, before, after);
    hide Lookup, Parent, Content, IteratorInv, Need, ClearedOne, Cleared, Accounted, Emptied;
    ClearOneAccounts(s, t, u, start, n, removed);
    ClearOneEmpties(t, u, start, n, removed);
    forall f | 0 <= f < POINTER_BLOCKS && f != ROOT ensures EndOf(f) == n + 1 ==> DIRECT <= n && BlockOf(n) == f {
      LastOf(f);
    }
  }

  lemma ClearOneNeeds(t: Snapshot, u: Snapshot, n: nat, before: seq<Level>, after: seq<Level>)
    requires n < MAX_BLOCKS && ClearedOne(t, u, n) && Shape(n, before) && Need(t.tree, n, before) == {}
    requires DIRECT <= n ==> Parent(t.tree, BlockOf(n)) != 0
    requires DOUBLE_START <= n ==> Parent(t.tree, ROOT) != 0
    requires Shape(n, after)
    ensures Need(u.tree, n, after) == {}
  {
  }

  lemma ClearOneAccounts(s: Snapshot, t: Snapshot, u: Snapshot, start: nat, n: nat, removed: set<nat>)
    requires start <= n < MAX_BLOCKS && Lookup(t.tree, n) != 0 && ClearedOne(t, u, n)
    requires Cleared(s.tree, t.tree, start, n, removed) && Accounted(s, t, start, n, removed)
    ensures Cleared(s.tree, u.tree, start, n + 1, removed) && Accounted(s, u, start, n + 1, removed)
  {
    hide Lookup, Parent, Content;
    var d := n + 1;
    assert MappedIn(s.tree, start, d) == MappedIn(s.tree, start, n) + {n};
    assert DataIn(s.tree, start, d) == DataIn(s.tree, start, n) + {Lookup(s.tree, n)};
  }

  lemma ClearOneEmpties(t: Snapshot, u: Snapshot, start: nat, n: nat, removed: set<nat>)
    requires n < MAX_BLOCKS && ClearedOne(t, u, n) && Emptied(t.tree, start, n, removed)
    ensures Emptied(u.tree, start, n, removed)
  {
    hide Lookup, Parent, Content, Zeros;
    if DIRECT <= n {
      NotPassed(start, n);
    }
  }

  /** In an iterator that needs nothing, a mapped block's pointer blocks all have places. */
  lemma MappedIsPlaced(t: Tree, n: nat, levels: seq<Level>)
    requires IteratorInv(t, n, levels) && n < MAX_BLOCKS && Lookup(t, n) != 0 && Need(t, n, levels) == {}
    ensures DIRECT <= n ==> Parent(t, BlockOf(n)) != 0
    ensures DOUBLE_START <= n ==> Parent(t, ROOT) != 0
  {
    if DIRECT <= n {
      var f := BlockOf(n);
      assert f !in Need(t, n, levels) && ROOT !in Need(t, n, levels);
      assert f in DirtyBlocks(n, levels) || Synced(t, f);
      if DOUBLE_START <= n {
        RootUnplaced(t, n, levels);
      }
    }
  }

  lemma NotPassed(start: nat, n: nat)
    requires DIRECT <= n < MAX_BLOCKS
    ensures !Passed(start, n, BlockOf(n)) && !Passed(start, n, ROOT)
  {
  }

  lemma AdvanceShrink(
    s: Snapshot, t: Snapshot, u: Snapshot, start: nat, d: nat, n: nat, before: seq<Level>, after: seq<Level>,
    removed: set<nat>, a: set<nat>, r: set<nat>)
    requires Shrinking(s, t, start, d, n, before, removed) && n < d
    requires NothingSkipped(t.tree, n, d) && Advanced(t, u, n, d, before, after, a, r, false)
    ensures Shrinking(s, u, start, d, d, after, removed + r)
  {
    hide IteratorInv, Need, Cleared, Accounted, Emptied, NothingSkipped, Pruned, Moved, LeftBehind, Below, Shape;
    ShapeOf(u.tree, d, after);
    LeftBelow(n, d);
    assert a == {} && a + r == r;
    assert Need(u.tree, d, after) == {};
    MovedEffect(t, u, a, r);
    ClearedMoves(s, t, u, start, d, removed, r);
    EmptiedMoves(t.tree, u.tree, start, n, d, removed, r);
  }

  lemma ClearedMoves(s: Snapshot, t: Snapshot, u: Snapshot, start: nat, d: nat, removed: set<nat>, r: set<nat>)
    requires d <= MAX_BLOCKS && Cleared(s.tree, t.tree, start, d, removed) && Accounted(s, t, start, d, removed)
    requires Moved(t, u, {}, r) && r <= Below(POINTER_BLOCKS)
    ensures Cleared(s.tree, u.tree, start, d, removed + r) && Accounted(s, u, start, d, removed + r)
  {
    TreeMoves(s.tree, t.tree, u.tree, start, d, removed, r);
    hide Cleared, Effect, MappedIn, DataIn, Below, Places;
    DisjointUnionSize(removed, r);
    NoPlaces(u.tree);
  }

  lemma TreeMoves(s: Tree, t: Tree, u: Tree, start: nat, d: nat, removed: set<nat>, r: set<nat>)
    requires Cleared(s, t, start, d, removed) && Effect(t, u, {}, r) && r <= Below(POINTER_BLOCKS)
    ensures Cleared(s, u, start, d, removed + r) && removed !! r
    ensures Places(t, r) == Places(s, r) && Places(s, removed + r) == Places(s, removed) + Places(t, r)
  {
    hide Lookup, Parent, Content;
    forall m | 0 <= m < MAX_BLOCKS ensures Lookup(u, m) == Lookup(t, m) {
      EffectKeepsLookup(t, u, {}, r, m);
    }
  }

  lemma EmptiedMoves(t: Tree, u: Tree, start: nat, n: nat, d: nat, removed: set<nat>, r: set<nat>)
    requires start <= n < d <= MAX_BLOCKS && Emptied(t, start, n, removed) && NothingSkipped(t, n, d)
    requires Effect(t, u, {}, r) && r <= LeftBehind(n, d) && Pruned(u, LeftBehind(n, d), {}, r)
    ensures Emptied(u, start, d, removed + r)
  {
    hide Content, Parent, Zeros;
    forall f | f in removed + r ensures Passed(start, d, f) && Content(u, f) == Zeros() {
      LeftIsPassed(start, n, d, f);
    }
    forall f | Passed(start, d, f) && Content(u, f) == Zeros() ensures Parent(u, f) == 0 {
      WasPassed(start, n, d, f);
    }
  }

  lemma LeftIsPassed(start: nat, n: nat, d: nat, f: nat)
    requires start <= n < d <= MAX_BLOCKS
    ensures f in LeftBehind(n, d) ==> Passed(start, d, f)
    ensures Passed(start, n, f) ==> Passed(start, d, f) && f != ROOT
  {
  }

  lemma WasPassed(start: nat, n: nat, d: nat, f: nat)
    requires start <= n < d <= MAX_BLOCKS && Passed(start, d, f)
    ensures Passed(start, n, f) || f in LeftBehind(n, d) ||
            (f != ROOT && n < EndOf(f) <= d && (n < DIRECT || f != BlockOf(n))) ||
            RegionEnd(n) < d
  {
  }

  lemma EndShrink(
    s: Snapshot, t: Snapshot, u: Snapshot, start: nat, levels: seq<Level>, removed: set<nat>, a: set<nat>, r: set<nat>)
    requires Shrinking(s, t, start, MAX_BLOCKS, MAX_BLOCKS, levels, removed)
    requires Moved(t, u, a, r) && a == {} && a + r <= LevelBlocks(MAX_BLOCKS, 3)
    ensures Cleared(s.tree, u.tree, start, MAX_BLOCKS, removed) && Emptied(u.tree, start, MAX_BLOCKS, removed)
    ensures Accounted(s, u, start, MAX_BLOCKS, removed)
  {
    hide Lookup, Parent, Content, Need, Zeros, Accounted;
    assert r == {};
    ClearedMoves(s, t, u, start, MAX_BLOCKS, removed, r);
    assert removed + r == removed;
  }

  lemma AfterUnload(s: Snapshot, t: Snapshot, u: Snapshot, start: nat, removed: set<nat>)
    requires Cleared(s.tree, t.tree, start, MAX_BLOCKS, removed) && Emptied(t.tree, start, MAX_BLOCKS, removed)
    requires Accounted(s, t, start, MAX_BLOCKS, removed) && u == t.(tree := u.tree)
    requires u.tree.inode == t.tree.inode
    requires forall f :: 0 <= f < POINTER_BLOCKS ==>
               Parent(u.tree, f) == Parent(t.tree, f) && Content(u.tree, f) == Content(t.tree, f)
    ensures Cleared(s.tree, u.tree, start, MAX_BLOCKS, removed) && Emptied(u.tree, start, MAX_BLOCKS, removed)
    ensures Accounted(s, u, start, MAX_BLOCKS, removed)
    ensures forall inUse :: Owned(t.tree, inUse) ==> Owned(u.tree, inUse)
  {
    hide Parent, Content;
    assert forall m :: 0 <= m < MAX_BLOCKS ==> Lookup(u.tree, m) == Lookup(t.tree, m);
  }

  // ---------------------------------------------------------------------------
  // What a finished shrink means

  ghost function Placed(t: Tree): set<nat> {
    set f | 0 <= f < POINTER_BLOCKS && Parent(t, f) != 0
  }

  /** All blocks a file occupies, data and pointer blocks: what its block_count should be. */
  ghost function Occupied(t: Tree): nat {
    |MappedIn(t, 0, MAX_BLOCKS)| + |Placed(t)|
  }

  lemma PointerOf(f: nat, i: nat)
    requires f < POINTER_BLOCKS && f != ROOT && i < PER_INDIRECT
    ensures DIRECT <= EndOf(f) - PER_INDIRECT + i < MAX_BLOCKS
    ensures var m := EndOf(f) - PER_INDIRECT + i; BlockOf(m) == f && SlotOf(m) == i
  {
  }

  /** An empty pointer block is one under which no file block is mapped. */
  lemma EmptyMeansUnmapped(t: Tree, f: nat)
    requires f < POINTER_BLOCKS && f != ROOT
    ensures Content(t, f) == Zeros() <==>
            forall m :: DIRECT <= m < MAX_BLOCKS && BlockOf(m) == f ==> Lookup(t, m) == 0
  {
    if forall m :: DIRECT <= m < MAX_BLOCKS && BlockOf(m) == f ==> Lookup(t, m) == 0 {
      forall i | 0 <= i < PER_INDIRECT ensures Content(t, f)[i] == 0 {
        PointerOf(f, i);
        assert Lookup(t, EndOf(f) - PER_INDIRECT + i) == 0;
      }
    }
  }

  /**
   Which pointer blocks a shrink frees: those with a place that cover blocks from `start`
   on and under which nothing below `start` is mapped.
   */
  lemma FreedExactly(s: Tree, t: Tree, start: nat, removed: set<nat>, f: nat)
    requires start <= MAX_BLOCKS && f < POINTER_BLOCKS && f != ROOT
    requires Cleared(s, t, start, MAX_BLOCKS, removed) && Emptied(t, start, MAX_BLOCKS, removed)
    ensures f in removed <==>
            && Parent(s, f) != 0 && start < EndOf(f)
            && forall m :: DIRECT <= m < start && BlockOf(m) == f ==> Lookup(s, m) == 0
  {
    LastOf(f);
    EmptyMeansUnmapped(t, f);
    hide Lookup, Parent, Content, Zeros;
    if start < EndOf(f) && forall m :: DIRECT <= m < start && BlockOf(m) == f ==> Lookup(s, m) == 0 {
      assert forall m :: DIRECT <= m < MAX_BLOCKS && BlockOf(m) == f ==> Lookup(t, m) == 0;
      assert Passed(start, MAX_BLOCKS, f);
    }
  }

  /** The root pointer block goes when no pointer block below it is left. */
  lemma FreedRoot(s: Tree, t: Tree, start: nat, removed: set<nat>)
    requires start <= MAX_BLOCKS
    requires Cleared(s, t, start, MAX_BLOCKS, removed) && Emptied(t, start, MAX_BLOCKS, removed)
    ensures ROOT in removed <==>
            Parent(s, ROOT) != 0 && start < MAX_BLOCKS &&
            forall f :: ROOT < f < POINTER_BLOCKS ==> Parent(s, f) == 0 || f in removed
  {
    forall f | ROOT < f < POINTER_BLOCKS ensures Parent(t, f) == Content(t, ROOT)[f - LEAF_START] {
    }
    if forall f :: ROOT < f < POINTER_BLOCKS ==> Parent(s, f) == 0 || f in removed {
      forall i | 0 <= i < PER_INDIRECT ensures Content(t, ROOT)[i] == 0 {
        assert Parent(t, LEAF_START + i) == 0;
      }
    }
    assert Content(t, ROOT) == Zeros() ==> forall f :: ROOT < f < POINTER_BLOCKS ==> Parent(t, f) == 0;
  }

  /** The block count stays in step with the number of blocks the file occupies. */
  lemma CountStaysExact(s: Snapshot, t: Snapshot, start: nat, removed: set<nat>)
    requires start <= MAX_BLOCKS
    requires Cleared(s.tree, t.tree, start, MAX_BLOCKS, removed) && Accounted(s, t, start, MAX_BLOCKS, removed)
    ensures t.blockCount - Occupied(t.tree) == s.blockCount - Occupied(s.tree)
  {
    hide Lookup, Parent;
    var cut := MappedIn(s.tree, start, MAX_BLOCKS);
    assert MappedIn(s.tree, 0, MAX_BLOCKS) == MappedIn(t.tree, 0, MAX_BLOCKS) + cut;
    DisjointUnionSize(MappedIn(t.tree, 0, MAX_BLOCKS), cut);
    assert Placed(s.tree) == Placed(t.tree) + removed;
    DisjointUnionSize(Placed(t.tree), removed);
  }

  /** Shrinking to nothing leaves no pointer of any kind, so a right block count ends at zero. */
  lemma ShrunkToNothing(s: Snapshot, t: Snapshot, removed: set<nat>)
    requires Cleared(s.tree, t.tree, 0, MAX_BLOCKS, removed) && Emptied(t.tree, 0, MAX_BLOCKS, removed)
    requires Accounted(s, t, 0, MAX_BLOCKS, removed)
    ensures t.tree.inode == Pointers(seq(DIRECT, i => 0), seq(INDIRECT, i => 0), 0)
    ensures forall f :: 0 <= f < POINTER_BLOCKS ==> Parent(t.tree, f) == 0
    ensures s.blockCount == Occupied(s.tree) ==> t.blockCount == 0
  {
    forall f | 0 <= f < POINTER_BLOCKS && f != ROOT ensures Parent(t.tree, f) == 0 {
      EmptyMeansUnmapped(t.tree, f);
      LastOf(f);
      assert Passed(0, MAX_BLOCKS, f);
    }
    FreedRoot(s.tree, t.tree, 0, removed);
    assert t.tree.inode.dinum == Parent(t.tree, ROOT) == 0;
    forall i | 0 <= i < DIRECT ensures t.tree.inode.dnum[i] == 0 {
      assert Lookup(t.tree, i) == 0;
    }
    forall i | 0 <= i < INDIRECT ensures t.tree.inode.inum[i] == 0 {
      assert Parent(t.tree, i) == 0;
    }
    CountStaysExact(s, t, 0, removed);
    assert MappedIn(t.tree, 0, MAX_BLOCKS) == {};
    assert Placed(t.tree) == {};
  }

  /** A later mount finds the file cut off at `start`. */
  lemma ShrinkSurvivesRemount(s: Tree, t: Tree, start: nat, removed: set<nat>, m: nat)
    requires Cleared(s, t, start, MAX_BLOCKS, removed) && Coherent(t, {}, false) && m < MAX_BLOCKS
    ensures Lookup(Remount(t), m) == if m < start then Lookup(s, m) else 0
  {
    hide Lookup, Parent, Coherent;
    RemountSame(t, m);
  }
}
