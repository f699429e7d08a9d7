/**
 The counting argument of the dirty cache: what a reservation must cover while blocks are
 pending, and what swapping pending blocks in does to a file.
 */
module PendingWrites {
  import opened Sets
  import opened PointerTree
  import opened IteratorSpec
  import opened TransactionLimits
  import opened VnodeMapper
  import opened BlocksShrink

  /** No file block whose pointer is reached through pointer block f is mapped. */
  ghost predicate Bare(t: Tree, f: nat) {
    forall n :: 0 <= n < MAX_BLOCKS && OnPath(n, f) ==> Lookup(t, n) == 0
  }

  /**
   The pointer blocks on the ways to `blocks` that may have to be allocated: those without a
   place, and those that a flush could free because nothing is mapped through them.
   */
  ghost function Unsettled(t: Tree, blocks: set<nat>): set<nat> {
    set f | 0 <= f < POINTER_BLOCKS && OnSomePath(blocks, f) && (Parent(t, f) == 0 || Bare(t, f))
  }

  /** What a reservation must hold while no iterator has anything unflushed. */
  ghost function Required(t: Tree, pending: set<nat>): nat {
    |pending| + |Unsettled(t, pending)|
  }

  /** The same with an iterator open at n: also what its flush needs, all of it in use. */
  ghost predicate Enough(t: Tree, pending: set<nat>, n: nat, levels: seq<Level>, reserved: nat) {
    && Shape(n, levels)
    && |pending| + |Unsettled(t, pending) + Need(t, n, levels)| <= reserved
    && forall f :: f in Need(t, n, levels) ==> !Bare(t, f)
  }

  lemma EnoughAtStart(t: Tree, pending: set<nat>, n: nat, levels: seq<Level>, reserved: nat)
    requires Shape(n, levels) && Need(t, n, levels) == {} && Required(t, pending) <= reserved
    ensures Enough(t, pending, n, levels, reserved)
  {
    assert Unsettled(t, pending) + {} == Unsettled(t, pending);
  }

  lemma EnoughNeed(t: Tree, pending: set<nat>, n: nat, levels: seq<Level>, reserved: nat)
    requires Enough(t, pending, n, levels, reserved)
    ensures |pending| + |Need(t, n, levels)| <= reserved
    ensures |pending| + |Unsettled(t, pending)| <= reserved
  {
    SubsetSize(Need(t, n, levels), Unsettled(t, pending) + Need(t, n, levels));
    SubsetSize(Unsettled(t, pending), Unsettled(t, pending) + Need(t, n, levels));
  }

  /** Mapping a pending block costs one unit; what its pointer blocks need was set aside. */
  lemma EnoughAfterSet(
    t: Tree, u: Tree, pending: set<nat>, n: nat, before: seq<Level>, after: seq<Level>, reserved: nat, block: nat)
    requires Enough(t, pending, n, before, reserved) && n in pending && n < MAX_BLOCKS && block != 0
    requires Shape(n, after)
    requires forall m :: 0 <= m < MAX_BLOCKS ==> Lookup(u, m) == if m == n then block else Lookup(t, m)
    requires forall f :: 0 <= f < POINTER_BLOCKS ==> Parent(u, f) == Parent(t, f)
    ensures reserved > 0 && Enough(u, pending - {n}, n, after, reserved - 1)
  {
    hide Lookup, Parent, OnPath;
    NeedOnPath(u, n, after);
    assert forall f :: Bare(u, f) ==> Bare(t, f);
    assert Unsettled(u, pending - {n}) <= Unsettled(t, pending);
    assert Need(u, n, after) <= Unsettled(t, pending);
    SubsetSize(Unsettled(u, pending - {n}) + Need(u, n, after), Unsettled(t, pending) + Need(t, n, before));
    assert |pending - {n}| == |pending| - 1;
  }

  lemma NeedOnPath(t: Tree, n: nat, levels: seq<Level>)
    requires Shape(n, levels)
    ensures forall f :: f in Need(t, n, levels) ==> f < POINTER_BLOCKS && OnPath(n, f) && Parent(t, f) == 0
  {
  }

  /** A flush or a move takes from the reservation what it allocates, and frees only bare blocks. */
  lemma EnoughAfterMove(
    t: Tree, u: Tree, pending: set<nat>, n: nat, m: nat, before: seq<Level>, after: seq<Level>, reserved: nat,
    added: set<nat>, removed: set<nat>)
    requires Enough(t, pending, n, before, reserved) && Shape(m, after)
    requires Effect(t, u, added, removed) && added <= Need(t, n, before)
    requires Need(u, m, after) == Need(t, n, before) - added
    requires forall f :: f in removed ==> Bare(t, f)
    ensures |added| <= reserved && Enough(u, pending, m, after, reserved - |added|)
  {
    LookupKept(t, u, added, removed);
    BareKept(t, u);
    UnsettledMoves(t, u, pending, Need(t, n, before), added, removed);
    hide Lookup, Effect, Need, Unsettled, Bare;
    SpentOnAdded(Unsettled(t, pending), Unsettled(u, pending), Need(t, n, before), added);
  }

  lemma SpentOnAdded(a: set<nat>, b: set<nat>, need: set<nat>, added: set<nat>)
    requires added <= need && b <= a - added
    ensures |b + (need - added)| + |added| <= |a + need|
  {
    SubsetSize(b + (need - added) + added, a + need);
    DisjointUnionSize(b + (need - added), added);
  }

  lemma UnsettledMoves(t: Tree, u: Tree, pending: set<nat>, need: set<nat>, added: set<nat>, removed: set<nat>)
    requires Effect(t, u, added, removed) && added <= need
    requires forall f :: Bare(u, f) <==> Bare(t, f)
    requires forall f :: f in removed ==> Bare(t, f)
    requires forall f :: f in need ==> !Bare(t, f)
    ensures Unsettled(u, pending) <= Unsettled(t, pending) - added
  {
    hide Lookup, Parent, OnPath, Content, Bare;
  }

  lemma LookupKept(t: Tree, u: Tree, added: set<nat>, removed: set<nat>)
    requires Effect(t, u, added, removed)
    ensures forall n :: 0 <= n < MAX_BLOCKS ==> Lookup(u, n) == Lookup(t, n)
  {
    forall n | 0 <= n < MAX_BLOCKS ensures Lookup(u, n) == Lookup(t, n) {
      EffectKeepsLookup(t, u, added, removed, n);
    }
  }

  /** What a flush frees is bare: an empty pointer block, or a root above nothing but such blocks. */
  lemma RemovedAreBare(t: Tree, u: Tree, fs: set<nat>, added: set<nat>, removed: set<nat>)
    requires Effect(t, u, added, removed) && Pruned(u, fs, added, removed) && removed <= Below(POINTER_BLOCKS)
    requires ROOT in removed ==> Coherent(u, {}, false)
    ensures forall f :: f in removed ==> Bare(t, f)
  {
    LookupKept(t, u, added, removed);
    forall f | f in removed ensures Bare(t, f) {
      if f == ROOT {
        RootBare(u);
        assert Bare(u, f);
      } else {
        EmptyMeansUnmapped(u, f);
        assert Bare(u, f);
      }
    }
  }

  lemma RootBare(t: Tree)
    requires Coherent(t, {}, false) && Content(t, ROOT) == Zeros()
    ensures Bare(t, ROOT)
  {
    forall n | 0 <= n < MAX_BLOCKS && OnPath(n, ROOT) ensures Lookup(t, n) == 0 {
      var f := BlockOf(n);
      assert Synced(t, f);
      assert Parent(t, f) == Content(t, ROOT)[f - LEAF_START];
    }
  }

  // ---------------------------------------------------------------------------
  // What swapping does to the file

  ghost function OldData(t: Tree, done: set<nat>): set<nat> {
    set n | n in done && n < MAX_BLOCKS && Lookup(t, n) != 0 :: Lookup(t, n)
  }

  /** The device blocks of pointer blocks through which nothing is mapped. */
  ghost function BarePlaces(t: Tree): set<nat> {
    set f | 0 <= f < POINTER_BLOCKS && Parent(t, f) != 0 && Bare(t, f) :: Parent(t, f)
  }

  /** Of the flat map, exactly the blocks in `done` have changed, each to a block of its own that was not in use. */
  ghost predicate Renewed(s: Snapshot, t: Snapshot, done: set<nat>) {
    && (forall m :: 0 <= m < MAX_BLOCKS && m !in done ==> Lookup(t.tree, m) == Lookup(s.tree, m))
    && (forall m :: 0 <= m < MAX_BLOCKS && m in done ==>
          Lookup(t.tree, m) != 0 && Lookup(t.tree, m) !in s.inUse && Lookup(t.tree, m) in t.inUse)
    && (forall m, k :: 0 <= m < k < MAX_BLOCKS && m in done && k in done ==> Lookup(t.tree, m) != Lookup(t.tree, k))
    && s.inUse <= t.inUse
  }

  /**
   Freed are the blocks that were replaced and, beyond those, only pointer blocks through
   which nothing was mapped; the block count is as far from the occupied blocks as it was.
   */
  ghost predicate Balanced(s: Snapshot, t: Snapshot, done: set<nat>) {
    && s.freed + OldData(s.tree, done) <= t.freed <= s.freed + OldData(s.tree, done) + BarePlaces(s.tree)
    && (forall f :: 0 <= f < POINTER_BLOCKS && Bare(t.tree, f) ==>
          Bare(s.tree, f) && (Parent(t.tree, f) == 0 || Parent(t.tree, f) == Parent(s.tree, f)))
    && t.blockCount - Occupied(t.tree) == s.blockCount - Occupied(s.tree)
  }

  ghost predicate Swapped(s: Snapshot, t: Snapshot, done: set<nat>) {
    Renewed(s, t, done) && Balanced(s, t, done)
  }

  lemma SwappedNone(s: Snapshot, t: Snapshot)
    requires SameView(s.tree, t.tree) && t == s.(tree := t.tree)
    ensures Swapped(s, t, {})
  {
    hide Parent, Content, Lookup;
    forall m | 0 <= m < MAX_BLOCKS ensures Lookup(t.tree, m) == Lookup(s.tree, m) {
      SameViewLookup(s.tree, t.tree, m);
    }
    SameOccupied(s.tree, t.tree);
    assert forall f :: Bare(t.tree, f) <==> Bare(s.tree, f);
  }

  lemma SameOccupied(t: Tree, u: Tree)
    requires forall m :: 0 <= m < MAX_BLOCKS ==> Lookup(u, m) == Lookup(t, m)
    requires forall f :: 0 <= f < POINTER_BLOCKS ==> Parent(u, f) == Parent(t, f)
    ensures Occupied(u) == Occupied(t)
  {
    hide Lookup, Parent;
    assert MappedIn(u, 0, MAX_BLOCKS) == MappedIn(t, 0, MAX_BLOCKS);
    assert Placed(u) == Placed(t);
  }

  /** One block has been swapped: t is before, u after. */
  ghost predicate SwappedOne(t: Snapshot, u: Snapshot, n: nat, block: nat)
    requires n < MAX_BLOCKS
  {
    && block != 0 && block !in t.inUse
    && (forall m :: 0 <= m < MAX_BLOCKS ==> Lookup(u.tree, m) == if m == n then block else Lookup(t.tree, m))
    && (forall f :: 0 <= f < POINTER_BLOCKS ==> Parent(u.tree, f) == Parent(t.tree, f))
    && u.inUse == t.inUse + {block}
    && u.freed == t.freed + (if Lookup(t.tree, n) != 0 then {Lookup(t.tree, n)} else {})
    && u.blockCount == t.blockCount + (if Lookup(t.tree, n) == 0 then 1 else 0)
    && u.reserved + 1 == t.reserved
  }

  lemma SwapKeepsSwapped(s: Snapshot, t: Snapshot, u: Snapshot, done: set<nat>, n: nat, block: nat)
    requires n < MAX_BLOCKS && n !in done && Swapped(s, t, done) && SwappedOne(t, u, n, block)
    ensures Swapped(s, u, done + {n})
  {
    hide Lookup, Parent;
    SwapRenews(s, t, u, done, n, block);
    hide Renewed;
    assert OldData(s.tree, done + {n}) ==
           OldData(s.tree, done) + (if Lookup(s.tree, n) != 0 then {Lookup(s.tree, n)} else {}) by {
    }
    SwapOccupies(t.tree, u.tree, n, block);
    assert forall f :: Bare(u.tree, f) ==> Bare(t.tree, f);
  }

  lemma SwapRenews(s: Snapshot, t: Snapshot, u: Snapshot, done: set<nat>, n: nat, block: nat)
    requires n < MAX_BLOCKS && n !in done && Renewed(s, t, done) && SwappedOne(t, u, n, block)
    ensures Renewed(s, u, done + {n}) && Lookup(t.tree, n) == Lookup(s.tree, n)
  {
    hide Lookup, Parent;
  }

  lemma SwapOccupies(t: Tree, u: Tree, n: nat, block: nat)
    requires n < MAX_BLOCKS && block != 0
    requires forall m :: 0 <= m < MAX_BLOCKS ==> Lookup(u, m) == if m == n then block else Lookup(t, m)
    requires forall f :: 0 <= f < POINTER_BLOCKS ==> Parent(u, f) == Parent(t, f)
    ensures Occupied(u) == Occupied(t) + (if Lookup(t, n) == 0 then 1 else 0)
  {
    hide Lookup, Parent;
    assert MappedIn(u, 0, MAX_BLOCKS) == MappedIn(t, 0, MAX_BLOCKS) + {n};
    assert Placed(u) == Placed(t);
  }

  lemma MoveKeepsSwapped(s: Snapshot, t: Snapshot, u: Snapshot, done: set<nat>, added: set<nat>, removed: set<nat>)
    requires Swapped(s, t, done) && Moved(t, u, added, removed) && added + removed <= Below(POINTER_BLOCKS)
    requires forall f :: f in removed ==> Bare(t.tree, f)
    requires forall f :: f in added ==> !Bare(t.tree, f)
    ensures Swapped(s, u, done)
  {
    LookupKept(t.tree, u.tree, added, removed);
    BareKept(t.tree, u.tree);
    MoveOccupies(t.tree, u.tree, added, removed);
    PlacesMoved(s.tree, t.tree, u.tree, added, removed);
    hide Effect, Lookup, Below, Occupied, OldData, Renewed, Bare, Places, BarePlaces;
    MoveRenews(s, t, u, done);
  }

  lemma BareKept(t: Tree, u: Tree)
    requires forall n :: 0 <= n < MAX_BLOCKS ==> Lookup(u, n) == Lookup(t, n)
    ensures forall f :: Bare(u, f) <==> Bare(t, f)
  {
    hide Lookup;
  }

  lemma PlacesMoved(s: Tree, t: Tree, u: Tree, added: set<nat>, removed: set<nat>)
    requires Effect(t, u, added, removed) && added + removed <= Below(POINTER_BLOCKS)
    requires forall f :: f in removed ==> Bare(t, f)
    requires forall f :: f in added ==> !Bare(t, f)
    requires forall f :: 0 <= f < POINTER_BLOCKS && Bare(t, f) ==>
               Bare(s, f) && (Parent(t, f) == 0 || Parent(t, f) == Parent(s, f))
    ensures Places(t, removed) <= BarePlaces(s)
    ensures forall f :: 0 <= f < POINTER_BLOCKS && Bare(t, f) ==> Parent(u, f) == 0 || Parent(u, f) == Parent(s, f)
  {
    hide Lookup, Content, Parent, Bare;
  }

  lemma MoveRenews(s: Snapshot, t: Snapshot, u: Snapshot, done: set<nat>)
    requires Renewed(s, t, done) && t.inUse <= u.inUse
    requires forall n :: 0 <= n < MAX_BLOCKS ==> Lookup(u.tree, n) == Lookup(t.tree, n)
    ensures Renewed(s, u, done)
  {
    hide Lookup;
  }

  lemma MoveOccupies(t: Tree, u: Tree, added: set<nat>, removed: set<nat>)
    requires Effect(t, u, added, removed) && added + removed <= Below(POINTER_BLOCKS)
    ensures Occupied(u) == Occupied(t) + |added| - |removed|
  {
    LookupKept(t, u, added, removed);
    hide Lookup, Parent, Content;
    assert MappedIn(u, 0, MAX_BLOCKS) == MappedIn(t, 0, MAX_BLOCKS);
    assert Placed(u) + removed == Placed(t) + added;
    DisjointUnionSize(Placed(u), removed);
    DisjointUnionSize(Placed(t), added);
  }

  lemma SwappedCompose(s: Snapshot, t: Snapshot, u: Snapshot, a: set<nat>, b: set<nat>)
    requires Swapped(s, t, a) && Swapped(t, u, b) && a !! b
    ensures Swapped(s, u, a + b)
  {
    hide Lookup, Parent, Occupied, Bare;
    assert OldData(s.tree, a + b) == OldData(s.tree, a) + OldData(t.tree, b);
    assert BarePlaces(t.tree) <= BarePlaces(s.tree);
  }

  // ---------------------------------------------------------------------------
  // No device block has two uses

  /** Device blocks of data are in use, each for one file block, and none is a pointer block's. */
  ghost predicate Sole(t: Tree, inUse: set<nat>) {
    && (forall m :: 0 <= m < MAX_BLOCKS && Lookup(t, m) != 0 ==> Lookup(t, m) in inUse)
    && (forall m, k :: 0 <= m < k < MAX_BLOCKS && Lookup(t, m) != 0 ==> Lookup(t, m) != Lookup(t, k))
    && (forall m, f :: 0 <= m < MAX_BLOCKS && 0 <= f < POINTER_BLOCKS && Lookup(t, m) != 0 ==> Lookup(t, m) != Parent(t, f))
  }

  lemma SwapKeepsSole(t: Snapshot, u: Snapshot, n: nat, block: nat)
    requires n < MAX_BLOCKS && SwappedOne(t, u, n, block)
    requires Sole(t.tree, t.inUse) && Owned(t.tree, t.inUse)
    ensures Sole(u.tree, u.inUse)
  {
    hide Lookup, Parent;
  }

  lemma MoveKeepsSole(t: Snapshot, u: Snapshot, added: set<nat>, removed: set<nat>)
    requires Moved(t, u, added, removed) && Sole(t.tree, t.inUse)
    ensures Sole(u.tree, u.inUse)
  {
    LookupKept(t.tree, u.tree, added, removed);
    hide Lookup, Parent, Content;
    forall m, f | 0 <= m < MAX_BLOCKS && 0 <= f < POINTER_BLOCKS && Lookup(u.tree, m) != 0
      ensures Lookup(u.tree, m) != Parent(u.tree, f)
    {
      if f in added {
        assert Parent(u.tree, f) in Places(u.tree, added);
      }
    }
  }

  /** Deleting blocks does not make any shared. */
  lemma ShrinkKeepsSole(s: Tree, t: Tree, start: nat, done: nat, removed: set<nat>, inUse: set<nat>)
    requires Cleared(s, t, start, done, removed) && Sole(s, inUse)
    ensures Sole(t, inUse)
  {
    hide Lookup, Parent;
  }

  lemma SameViewKeepsSole(t: Tree, u: Tree, inUse: set<nat>)
    requires SameView(t, u) && Sole(t, inUse)
    ensures Sole(u, inUse)
  {
    forall m | 0 <= m < MAX_BLOCKS ensures Lookup(u, m) == Lookup(t, m) {
      SameViewLookup(t, u, m);
    }
    hide Lookup, Parent, Content;
  }
}
