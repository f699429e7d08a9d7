/**
 Whole runs of an iterator that writes: whatever is set and skipped on the way, what is read back
 from the device after the last flush is the map it started from with exactly those settings.
 */
module IteratorRuns {
  import Sets
  import opened PointerTree
  import opened IteratorSpec
  import opened Wrappers
  import opened VnodeMapper
  import opened BlocksShrink
  import opened PendingWrites

  /** What a caller does between Init and the last Flush: SetBlk, Advance or Flush. */
  datatype Edit = Put(block: nat) | Skip(count: nat) | Save

  /** Where the iterator is after these edits. */
  function Position(start: nat, edits: seq<Edit>): nat {
    if edits == [] then start
    else
      var e := edits[|edits| - 1];
      Position(start, edits[..|edits| - 1]) + if e.Skip? then e.count else 0
  }

  /** No edit goes beyond the end of the file. */
  predicate WithinFile(start: nat, edits: seq<Edit>) {
    Position(start, edits) <= MAX_BLOCKS &&
    (edits != [] ==>
       && WithinFile(start, edits[..|edits| - 1])
       && (edits[|edits| - 1].Put? ==> Position(start, edits) < MAX_BLOCKS))
  }

  /** The last pointer put at file block m, if any. */
  function LastPut(start: nat, edits: seq<Edit>, m: nat): Option<nat> {
    if edits == [] then None
    else
      var e := edits[|edits| - 1];
      if e.Put? && Position(start, edits) == m then Some(e.block) else LastPut(start, edits[..|edits| - 1], m)
  }

  /** u is the flat map of t overwritten by the edits. */
  ghost predicate Overwritten(t: Tree, u: Tree, start: nat, edits: seq<Edit>) {
    forall m :: 0 <= m < MAX_BLOCKS ==>
      Lookup(u, m) == match LastPut(start, edits, m) { case Some(block) => block case None => Lookup(t, m) }
  }

  lemma NothingOverwritten(t: Tree, u: Tree, start: nat)
    requires forall m :: 0 <= m < MAX_BLOCKS ==> Lookup(u, m) == Lookup(t, m)
    ensures Overwritten(t, u, start, [])
  {
    hide Lookup;
  }

  lemma OnePut(t: Tree, u: Tree, v: Tree, start: nat, edits: seq<Edit>, block: nat)
    requires Overwritten(t, u, start, edits)
    requires forall m :: 0 <= m < MAX_BLOCKS ==>
               Lookup(v, m) == if m == Position(start, edits) then block else Lookup(u, m)
    ensures Overwritten(t, v, start, edits + [Put(block)])
  {
    hide Lookup;
    var all := edits + [Put(block)];
    assert all[..|all| - 1] == edits;
    assert Position(start, all) == Position(start, edits);
  }

  lemma OneSkip(t: Tree, u: Tree, v: Tree, start: nat, edits: seq<Edit>, count: nat)
    requires Overwritten(t, u, start, edits)
    requires forall m :: 0 <= m < MAX_BLOCKS ==> Lookup(v, m) == Lookup(u, m)
    ensures Overwritten(t, v, start, edits + [Skip(count)])
    ensures Position(start, edits + [Skip(count)]) == Position(start, edits) + count
  {
    hide Lookup;
    var all := edits + [Skip(count)];
    assert all[..|all| - 1] == edits;
  }

  lemma OneSave(t: Tree, u: Tree, v: Tree, start: nat, edits: seq<Edit>)
    requires Overwritten(t, u, start, edits)
    requires forall m :: 0 <= m < MAX_BLOCKS ==> Lookup(v, m) == Lookup(u, m)
    ensures Overwritten(t, v, start, edits + [Save])
    ensures Position(start, edits + [Save]) == Position(start, edits)
  {
    hide Lookup;
    var all := edits + [Save];
    assert all[..|all| - 1] == edits;
  }

  lemma {:induction false} PrefixWithin(start: nat, edits: seq<Edit>, i: nat)
    requires WithinFile(start, edits) && i < |edits|
    ensures edits[..i + 1] == edits[..i] + [edits[i]]
    ensures WithinFile(start, edits[..i + 1]) && WithinFile(start, edits[..i])
    ensures edits[i].Put? ==> Position(start, edits[..i]) < MAX_BLOCKS
    ensures edits[i].Skip? ==> Position(start, edits[..i]) + edits[i].count <= MAX_BLOCKS
    decreases |edits|
  {
    if i + 1 < |edits| {
      PrefixWithin(start, edits[..|edits| - 1], i);
      assert edits[..|edits| - 1][..i] == edits[..i] && edits[..|edits| - 1][..i + 1] == edits[..i + 1];
    } else {
      assert edits[..i + 1] == edits;
    }
  }

  /** One flush of an iterator allocates at most two pointer blocks. */
  lemma NeedIsSmall(t: Tree, n: nat, levels: seq<Level>)
    requires Shape(n, levels)
    ensures |Need(t, n, levels)| <= 2
  {
    var a := if DIRECT <= n < MAX_BLOCKS && levels[0].dirty && Parent(t, BlockOf(n)) == 0 then {BlockOf(n)} else {};
    hide Parent, BlockOf;
    assert |a| <= 1 && |Need(t, n, levels) - a| <= 1;
    assert |Need(t, n, levels)| <= |a| + |Need(t, n, levels) - a|;
  }

  lemma MoveCost(s: Snapshot, u: Snapshot, n: nat, m: nat, before: seq<Level>, after: seq<Level>, added: set<nat>, removed: set<nat>)
    requires Advanced(s, u, n, m, before, after, added, removed, false)
    ensures s.reserved <= u.reserved + 2
    ensures forall k :: 0 <= k < MAX_BLOCKS ==> Lookup(u.tree, k) == Lookup(s.tree, k)
    ensures u.blockCount - |Placed(u.tree)| == s.blockCount - |Placed(s.tree)|
  {
    hide Lookup, Effect, Need, IteratorInv, Pruned, Places, Placed, MappedIn, LeftBehind;
    LeftBelow(n, m);
    MoveOccupies(s.tree, u.tree, added, removed);
    SameMapped(s.tree, u.tree, added, removed);
    NeedIsSmall(s.tree, n, before);
    Sets.SubsetSize(added, Need(s.tree, n, before));
    forall k | 0 <= k < MAX_BLOCKS ensures Lookup(u.tree, k) == Lookup(s.tree, k) {
      EffectKeepsLookup(s.tree, u.tree, added, removed, k);
    }
  }

  lemma SameMapped(t: Tree, u: Tree, added: set<nat>, removed: set<nat>)
    requires Effect(t, u, added, removed)
    ensures MappedIn(u, 0, MAX_BLOCKS) == MappedIn(t, 0, MAX_BLOCKS)
  {
    hide Lookup, Effect;
    forall k | 0 <= k < MAX_BLOCKS ensures Lookup(u, k) == Lookup(t, k) {
      EffectKeepsLookup(t, u, added, removed, k);
    }
  }

  lemma SamePlaced(t: Tree, u: Tree)
    requires forall f :: 0 <= f < POINTER_BLOCKS ==> Parent(u, f) == Parent(t, f)
    ensures Placed(u) == Placed(t)
  {
    hide Parent;
  }

  lemma FlushEffect(s: Snapshot, u: Snapshot, n: nat, added: set<nat>, removed: set<nat>)
    requires Moved(s, u, added, removed) && added + removed <= LevelBlocks(n, 3)
    ensures forall k :: 0 <= k < MAX_BLOCKS ==> Lookup(u.tree, k) == Lookup(s.tree, k)
    ensures u.blockCount - |Placed(u.tree)| == s.blockCount - |Placed(s.tree)|
  {
    hide Lookup, Effect, Places, Placed, MappedIn, LevelBlocks;
    LevelBlocksBelow(n, 3);
    MoveOccupies(s.tree, u.tree, added, removed);
    SameMapped(s.tree, u.tree, added, removed);
    forall k | 0 <= k < MAX_BLOCKS ensures Lookup(u.tree, k) == Lookup(s.tree, k) {
      EffectKeepsLookup(s.tree, u.tree, added, removed, k);
    }
  }

  lemma SameViewLookups(t: Tree, u: Tree)
    requires SameView(t, u)
    ensures forall m :: 0 <= m < MAX_BLOCKS ==> Lookup(u, m) == Lookup(t, m)
    ensures Placed(u) == Placed(t)
  {
    SameViewParents(t, u);
    SamePlaced(t, u);
    hide Lookup, SameView;
    forall m | 0 <= m < MAX_BLOCKS ensures Lookup(u, m) == Lookup(t, m) {
      SameViewLookup(t, u, m);
    }
  }

  lemma SameViewParents(t: Tree, u: Tree)
    requires SameView(t, u)
    ensures forall f :: 0 <= f < POINTER_BLOCKS ==> Parent(u, f) == Parent(t, f)
  {
  }

  lemma Reread(t: Tree, u: Tree, start: nat, edits: seq<Edit>)
    requires Overwritten(t, u, start, edits) && Coherent(u, {}, false)
    ensures Overwritten(t, Remount(u), start, edits)
  {
    hide Lookup, Coherent, Remount;
    forall m | 0 <= m < MAX_BLOCKS ensures Lookup(Remount(u), m) == Lookup(u, m) {
      RemountSame(u, m);
    }
  }

  lemma FlushCost(s: Snapshot, u: Snapshot, n: nat, levels: seq<Level>, added: set<nat>, removed: set<nat>)
    requires Moved(s, u, added, removed) && Shape(n, levels) && added == Need(s.tree, n, levels)
    ensures s.reserved <= u.reserved + 2
  {
    hide Effect, Places, Need;
    NeedIsSmall(s.tree, n, levels);
  }

  /** Any run of a writing iterator, as a caller makes it. The file is then ready for the next run. */
  method EditFile(vnode: Vnode, transaction: Transaction, start: nat, edits: seq<Edit>)
    requires Coherent(vnode.tree, {}, false) && Unshared(vnode.tree) && Owned(vnode.tree, transaction.inUse)
    requires start <= MAX_BLOCKS && WithinFile(start, edits) && transaction.reserved >= 2 * (|edits| + 1)
    modifies vnode, transaction
    ensures Overwritten(old(vnode.tree), vnode.tree, start, edits)
    ensures vnode.blockCount - |Placed(vnode.tree)| == old(vnode.blockCount) - |Placed(old(vnode.tree))|
    ensures Unshared(vnode.tree) && Owned(vnode.tree, transaction.inUse)
    ensures transaction.reserved >= old(transaction.reserved) - 2 * (|edits| + 1)
    ensures Coherent(vnode.tree, {}, false) && Overwritten(old(vnode.tree), Remount(vnode.tree), start, edits)
  {
    hide IteratorInv, Owned, Coherent, Unshared, Advanced, Moved, Need, EmptyFrom, SameView, Lookup, Parent, Overwritten, WithinFile,
         Position, Views, RootTail, Content, Pruned, Placed, LevelBlocks;
    ghost var before := vnode.tree;
    var cursor := new VnodeIterator(vnode, transaction);
    TreeIsEmptyFrom(vnode.tree);
    var ok := cursor.Init(start);
    SameViewLookups(before, vnode.tree);
    NothingOverwritten(before, vnode.tree, start);
    StartsThere(start);
    var i := 0;
    assert edits[..0] == [];
    while i < |edits|
      invariant 0 <= i <= |edits| && cursor.vnode == vnode && cursor.transaction == transaction && cursor.Valid()
      invariant cursor.fileBlock == Position(start, edits[..i])
      invariant Overwritten(before, vnode.tree, start, edits[..i])
      invariant transaction.reserved >= old(transaction.reserved) - 2 * i
      invariant vnode.blockCount - |Placed(vnode.tree)| == old(vnode.blockCount) - |Placed(before)|
    {
      PrefixWithin(start, edits, i);
      ghost var t, n, levels := cursor.Now(), cursor.fileBlock, cursor.levels;
      if edits[i].Put? {
        cursor.SetBlk(edits[i].block);
        OnePut(before, t.tree, vnode.tree, start, edits[..i], edits[i].block);
        SamePlaced(t.tree, vnode.tree);
        PutStays(start, edits[..i], edits[i]);
      } else if edits[i].Save? {
        ShapeOf(vnode.tree, n, levels);
        NeedIsSmall(vnode.tree, n, levels);
        ghost var a, r := cursor.Flush();
        FlushEffect(t, cursor.Now(), n, a, r);
        FlushCost(t, cursor.Now(), n, levels, a, r);
        OneSave(before, t.tree, vnode.tree, start, edits[..i]);
      } else {
        ShapeOf(vnode.tree, n, levels);
        NeedIsSmall(vnode.tree, n, levels);
        ghost var a, r;
        ok, a, r := cursor.Advance(edits[i].count);
        MoveCost(t, cursor.Now(), n, cursor.fileBlock, levels, cursor.levels, a, r);
        OneSkip(before, t.tree, vnode.tree, start, edits[..i], edits[i].count);
      }
      i := i + 1;
    }
    ghost var t := cursor.Now();
    ghost var levels := cursor.levels;
    ShapeOf(vnode.tree, cursor.fileBlock, levels);
    NeedIsSmall(vnode.tree, cursor.fileBlock, levels);
    ghost var a, r := cursor.Flush();
    FlushEffect(t, cursor.Now(), cursor.fileBlock, a, r);
    FlushCost(t, cursor.Now(), cursor.fileBlock, levels, a, r);
    AllEdits(before, t.tree, vnode.tree, start, edits, i);
    InvUnshared(vnode.tree, cursor.fileBlock, cursor.levels);
    Reread(before, vnode.tree, start, edits);
  }

  lemma StartsThere(start: nat)
    ensures Position(start, []) == start
  {
  }

  lemma PutStays(start: nat, edits: seq<Edit>, e: Edit)
    requires e.Put?
    ensures Position(start, edits + [e]) == Position(start, edits)
  {
    assert (edits + [e])[..|edits|] == edits;
  }

  lemma AllEdits(t: Tree, u: Tree, v: Tree, start: nat, edits: seq<Edit>, i: nat)
    requires i == |edits| && Overwritten(t, u, start, edits[..i])
    requires forall m :: 0 <= m < MAX_BLOCKS ==> Lookup(v, m) == Lookup(u, m)
    ensures Overwritten(t, v, start, edits)
  {
    hide Lookup;
    assert edits[..i] == edits;
  }

  // ---------------------------------------------------------------------------
  // One run after another

  /** An iterator placed at `start` and used so. */
  datatype Session = Session(start: nat, edits: seq<Edit>)

  /** Every run stays within the file. */
  predicate AllWithin(runs: seq<Session>) {
    forall i :: 0 <= i < |runs| ==> runs[i].start <= MAX_BLOCKS && WithinFile(runs[i].start, runs[i].edits)
  }

  /** Two units for every edit and for each last flush. */
  function Cost(runs: seq<Session>): nat {
    if runs == [] then 0 else Cost(runs[..|runs| - 1]) + 2 * (|runs[|runs| - 1].edits| + 1)
  }

  /** The last pointer any of the runs puts at file block m. */
  function LastOf(runs: seq<Session>, m: nat): Option<nat> {
    if runs == [] then None
    else
      var r := runs[|runs| - 1];
      if LastPut(r.start, r.edits, m).Some? then LastPut(r.start, r.edits, m) else LastOf(runs[..|runs| - 1], m)
  }

  ghost predicate OverwrittenByAll(t: Tree, u: Tree, runs: seq<Session>) {
    forall m :: 0 <= m < MAX_BLOCKS ==>
      Lookup(u, m) == match LastOf(runs, m) { case Some(block) => block case None => Lookup(t, m) }
  }

  lemma OneRun(t: Tree, u: Tree, v: Tree, runs: seq<Session>, r: Session)
    requires OverwrittenByAll(t, u, runs) && Overwritten(u, v, r.start, r.edits)
    ensures OverwrittenByAll(t, v, runs + [r]) && Cost(runs + [r]) == Cost(runs) + 2 * (|r.edits| + 1)
  {
    hide Lookup, LastPut;
    assert (runs + [r])[..|runs|] == runs;
  }

  lemma NoRuns(t: Tree)
    ensures OverwrittenByAll(t, t, []) && Cost([]) == 0
  {
    hide Lookup;
  }

  lemma {:induction false} CostGrows(runs: seq<Session>, i: nat)
    requires i < |runs|
    ensures runs[..i + 1] == runs[..i] + [runs[i]] && Cost(runs[..i + 1]) <= Cost(runs)
    decreases |runs|
  {
    if i + 1 < |runs| {
      CostGrows(runs[..|runs| - 1], i);
      assert runs[..|runs| - 1][..i + 1] == runs[..i + 1];
    } else {
      assert runs[..i + 1] == runs;
    }
  }

  /**
   Any number of iterators, one after another, each with any edits: what is read back at the end is
   the map of the beginning with the last setting of each block.
   */
  method EditFileRepeatedly(vnode: Vnode, transaction: Transaction, runs: seq<Session>)
    requires Coherent(vnode.tree, {}, false) && Unshared(vnode.tree) && Owned(vnode.tree, transaction.inUse)
    requires AllWithin(runs) && transaction.reserved >= Cost(runs)
    modifies vnode, transaction
    ensures Coherent(vnode.tree, {}, false) && Unshared(vnode.tree) && Owned(vnode.tree, transaction.inUse)
    ensures OverwrittenByAll(old(vnode.tree), Remount(vnode.tree), runs)
    ensures vnode.blockCount - |Placed(vnode.tree)| == old(vnode.blockCount) - |Placed(old(vnode.tree))|
  {
    hide Owned, Coherent, Unshared, Lookup, Overwritten, OverwrittenByAll, WithinFile, Placed, Cost;
    ghost var before := vnode.tree;
    NoRuns(before);
    assert runs[..0] == [];
    var i := 0;
    while i < |runs|
      invariant 0 <= i <= |runs|
      invariant Coherent(vnode.tree, {}, false) && Unshared(vnode.tree) && Owned(vnode.tree, transaction.inUse)
      invariant OverwrittenByAll(before, vnode.tree, runs[..i])
      invariant transaction.reserved >= old(transaction.reserved) - Cost(runs[..i])
      invariant vnode.blockCount - |Placed(vnode.tree)| == old(vnode.blockCount) - |Placed(before)|
    {
      ghost var t := vnode.tree;
      CostGrows(runs, i);
      EnoughForOne(runs[..i], runs[i]);
      EditFile(vnode, transaction, runs[i].start, runs[i].edits);
      OneRun(before, t, vnode.tree, runs[..i], runs[i]);
      i := i + 1;
    }
    assert runs[..i] == runs;
    RereadAll(before, vnode.tree, runs);
  }

  lemma EnoughForOne(runs: seq<Session>, r: Session)
    ensures Cost(runs + [r]) == Cost(runs) + 2 * (|r.edits| + 1)
  {
    assert (runs + [r])[..|runs|] == runs;
  }

  lemma RereadAll(t: Tree, u: Tree, runs: seq<Session>)
    requires OverwrittenByAll(t, u, runs) && Coherent(u, {}, false)
    ensures OverwrittenByAll(t, Remount(u), runs)
  {
    hide Lookup, Coherent, Remount, LastOf;
    forall m | 0 <= m < MAX_BLOCKS ensures Lookup(Remount(u), m) == Lookup(u, m) {
      RemountSame(u, m);
    }
  }
}
