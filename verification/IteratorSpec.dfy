/**
 The state of a VnodeIterator as a value: up to three levels, each a view of one bank of
 block pointers, and the tree operations that flushing a level performs.
 */
module IteratorSpec {
  import opened Sets
  import opened PointerTree

  /** A bank of pointers a level can look at. */
  datatype Bank = Dnum | Inum | Dinum | FileBlock(f: nat)

  /** valid: the level has a view (else it is sparse); dirty: the view has unflushed changes. */
  datatype Level = Level(bank: Bank, index: nat, valid: bool, dirty: bool)

  function CountOf(b: Bank): nat {
    match b
    case Dnum => DIRECT
    case Inum => INDIRECT
    case Dinum => 1
    case FileBlock(_) => PER_INDIRECT
  }

  predicate InMemory(t: Tree, b: Bank) {
    b.FileBlock? ==> b.f in t.file
  }

  function Cells(t: Tree, b: Bank): (s: seq<nat>)
    requires InMemory(t, b)
    ensures |s| == CountOf(b)
  {
    match b
    case Dnum => t.inode.dnum
    case Inum => t.inode.inum
    case Dinum => [t.inode.dinum]
    case FileBlock(f) => t.file[f]
  }

  function SetCell(t: Tree, b: Bank, i: nat, v: nat): Tree
    requires InMemory(t, b) && i < CountOf(b)
  {
    match b
    case Dnum => t.(inode := t.inode.(dnum := t.inode.dnum[i := v]))
    case Inum => t.(inode := t.inode.(inum := t.inode.inum[i := v]))
    case Dinum => t.(inode := t.inode.(dinum := v))
    case FileBlock(f) => t.(file := t.file[f := t.file[f][i := v]])
  }

  // ---------------------------------------------------------------------------
  // Which levels a file block needs

  /** The bank, and the index in it, that locate block f of the virtual indirect file. */
  function ParentBank(f: nat): Bank {
    if f < ROOT then Inum else if f == ROOT then Dinum else FileBlock(ROOT)
  }

  function ParentIndex(f: nat): (i: nat)
    requires f < POINTER_BLOCKS
    ensures i < CountOf(ParentBank(f))
  {
    if f < ROOT then f else if f == ROOT then 0 else f - LEAF_START
  }

  function LevelCount(n: nat): nat {
    if n < DIRECT then 1 else if n < DOUBLE_START then 2 else if n < MAX_BLOCKS then 3 else 0
  }

  function BankAt(n: nat, level: nat): Bank
    requires level < LevelCount(n)
  {
    if level == 0 then (if n < DIRECT then Dnum else FileBlock(BlockOf(n)))
    else if level == 1 then ParentBank(BlockOf(n))
    else Dinum
  }

  function IndexAt(n: nat, level: nat): (i: nat)
    requires level < LevelCount(n)
    ensures i < CountOf(BankAt(n, level))
  {
    if level == 0 then (if n < DIRECT then n else SlotOf(n))
    else if level == 1 then ParentIndex(BlockOf(n))
    else 0
  }

  ghost predicate Shape(n: nat, levels: seq<Level>) {
    && n <= MAX_BLOCKS
    && |levels| == 3
    && forall l :: 0 <= l < LevelCount(n) ==> levels[l].bank == BankAt(n, l) && levels[l].index == IndexAt(n, l)
  }

  /** Views are of cached blocks, the top level has one, and a missing view means no block. */
  ghost predicate Views(t: Tree, n: nat, levels: seq<Level>)
    requires Shape(n, levels)
  {
    && (forall l :: 0 <= l < LevelCount(n) ==>
          && (levels[l].dirty ==> levels[l].valid)
          && (levels[l].valid ==> InMemory(t, levels[l].bank)))
    && (n < MAX_BLOCKS ==> levels[LevelCount(n) - 1].valid)
    && (DIRECT <= n < MAX_BLOCKS && !levels[0].valid ==> Parent(t, BlockOf(n)) == 0)
    && (DOUBLE_START <= n < MAX_BLOCKS && !levels[1].valid ==> Parent(t, ROOT) == 0)
  }

  /** If block ROOT has no place on the device, its entries for block f and later are empty. */
  ghost predicate EmptyFrom(t: Tree, f: nat) {
    Parent(t, ROOT) == 0 ==> forall g :: f <= g < POINTER_BLOCKS && g > ROOT ==> Parent(t, g) == 0
  }

  /** Unwritten entries of block ROOT lie at or before file block n: edits move forward. */
  ghost predicate RootTail(t: Tree, n: nat) {
    DOUBLE_START <= n < MAX_BLOCKS ==> EmptyFrom(t, BlockOf(n) + 1)
  }

  ghost function DirtyBlocks(n: nat, levels: seq<Level>): set<nat>
    requires Shape(n, levels)
  {
    (if DIRECT <= n < MAX_BLOCKS && levels[0].dirty then {BlockOf(n)} else {}) +
    (if DOUBLE_START <= n < MAX_BLOCKS && levels[1].dirty then {ROOT} else {})
  }

  ghost predicate InodeDirty(n: nat, levels: seq<Level>)
    requires Shape(n, levels)
  {
    n < MAX_BLOCKS && levels[LevelCount(n) - 1].dirty
  }

  /** What holds of tree and levels between any two operations of the iterator. */
  ghost predicate IteratorInv(t: Tree, n: nat, levels: seq<Level>) {
    && Shape(n, levels)
    && Views(t, n, levels)
    && RootTail(t, n)
    && Coherent(t, DirtyBlocks(n, levels), InodeDirty(n, levels))
    && Unshared(t)
  }

  /** The pointer blocks that flushing would have to allocate. */
  ghost function Need(t: Tree, n: nat, levels: seq<Level>): set<nat>
    requires Shape(n, levels)
  {
    (if DIRECT <= n < MAX_BLOCKS && levels[0].dirty && Parent(t, BlockOf(n)) == 0 then {BlockOf(n)} else {}) +
    (if DOUBLE_START <= n < MAX_BLOCKS && (levels[0].dirty || levels[1].dirty) && Parent(t, ROOT) == 0 then {ROOT} else {})
  }

  // ---------------------------------------------------------------------------
  // Changes that leave the flat map alone

  /** u differs from t only in what is cached. */
  ghost predicate SameView(t: Tree, u: Tree) {
    && u.inode == t.inode && u.saved == t.saved && u.disk == t.disk
    && t.file.Keys <= u.file.Keys
    && forall f :: 0 <= f < POINTER_BLOCKS ==> Parent(u, f) == Parent(t, f) && Content(u, f) == Content(t, f)
  }

  lemma SameViewKeeps(t: Tree, u: Tree, dirty: set<nat>, inodeDirty: bool)
    requires SameView(t, u)
    ensures Coherent(t, dirty, inodeDirty) ==> Coherent(u, dirty, inodeDirty)
    ensures Unshared(t) ==> Unshared(u)
    ensures forall f :: EmptyFrom(t, f) ==> EmptyFrom(u, f)
    ensures Effect(t, u, {}, {})
  {
  }

  /** u is t with pointer blocks `added` and `removed`; no leaf pointer has changed. */
  ghost predicate Effect(t: Tree, u: Tree, added: set<nat>, removed: set<nat>) {
    && u.inode.dnum == t.inode.dnum
    && t.file.Keys <= u.file.Keys
    && (forall f :: 0 <= f < POINTER_BLOCKS && f in added ==> Parent(t, f) == 0 && Parent(u, f) != 0)
    && (forall f :: 0 <= f < POINTER_BLOCKS && f in removed ==> Parent(t, f) != 0 && Parent(u, f) == 0)
    && (forall f :: 0 <= f < POINTER_BLOCKS && f !in added && f !in removed ==> Parent(u, f) == Parent(t, f))
    && (forall f :: 0 <= f < POINTER_BLOCKS && f != ROOT ==> Content(u, f) == Content(t, f))
    && ((forall f :: f in added || f in removed ==> f <= ROOT) ==> Content(u, ROOT) == Content(t, ROOT))
  }

  lemma EffectKeepsLookup(t: Tree, u: Tree, added: set<nat>, removed: set<nat>, n: nat)
    requires Effect(t, u, added, removed) && n < MAX_BLOCKS
    ensures Lookup(u, n) == Lookup(t, n)
  {
  }

  lemma EffectCompose(t: Tree, u: Tree, v: Tree, a: set<nat>, r: set<nat>, b: set<nat>, s: set<nat>)
    requires Effect(t, u, a, r) && Effect(u, v, b, s) && a + r !! b + s
    ensures Effect(t, v, a + b, r + s)
  {
  }

  // ---------------------------------------------------------------------------
  // The three things flushing does to a pointer block

  /** A block that has become empty loses its place on the device. */
  lemma FreeBlock(t: Tree, f: nat, dirty: set<nat>, inodeDirty: bool)
    requires f < POINTER_BLOCKS && f in t.file && (f > ROOT ==> ROOT in t.file)
    requires Unshared(t) && Coherent(t, dirty, inodeDirty)
    requires Parent(t, f) != 0 && Content(t, f) == Zeros()
    ensures var u := SetParent(t, f, 0);
            && Unshared(u)
            && Coherent(u, dirty - {f} + (if f > ROOT then {ROOT} else {}), inodeDirty || f <= ROOT)
            && Effect(t, u, {}, {f})
  {
    SetParentEffect(t, f, 0);
  }

  /** A dirty block without one gets a place that no other pointer block has. */
  lemma PlaceBlock(t: Tree, f: nat, p: nat, dirty: set<nat>, inodeDirty: bool)
    requires f < POINTER_BLOCKS && f in t.file && (f > ROOT ==> ROOT in t.file)
    requires Unshared(t) && Coherent(t, dirty, inodeDirty) && f in dirty
    requires Parent(t, f) == 0 && p != 0
    requires forall g :: 0 <= g < POINTER_BLOCKS ==> Parent(t, g) != p
    ensures var u := SetParent(t, f, p);
            && Unshared(u)
            && Coherent(u, dirty + (if f > ROOT then {ROOT} else {}), inodeDirty || f <= ROOT)
            && Effect(t, u, {f}, {})
  {
    SetParentEffect(t, f, p);
  }

  /** A placed block is written out. */
  lemma WriteBlock(t: Tree, f: nat, dirty: set<nat>, inodeDirty: bool)
    requires f < POINTER_BLOCKS && f in t.file
    requires Unshared(t) && Coherent(t, dirty, inodeDirty) && Parent(t, f) != 0
    ensures var u := WriteBack(t, f);
            Unshared(u) && Coherent(u, dirty - {f}, inodeDirty) && Effect(t, u, {}, {})
  {
    WriteBackEffect(t, f);
  }

  // ---------------------------------------------------------------------------
  // The iterator's invariant across each change

  function Mark(levels: seq<Level>, l: nat, valid: bool, dirty: bool): seq<Level>
    requires l < |levels|
  {
    levels[l := levels[l].(valid := valid, dirty := dirty)]
  }

  /** The pointer block that level l of file block n is a view of. */
  function LevelBlock(n: nat, l: nat): (f: nat)
    requires l + 1 < LevelCount(n)
    ensures f < POINTER_BLOCKS && BankAt(n, l) == FileBlock(f)
    ensures BankAt(n, l + 1) == ParentBank(f) && IndexAt(n, l + 1) == ParentIndex(f)
  {
    if l == 0 then BlockOf(n) else ROOT
  }

  lemma SetParentCell(t: Tree, f: nat, v: nat)
    requires f < POINTER_BLOCKS && InMemory(t, ParentBank(f))
    ensures SetCell(t, ParentBank(f), ParentIndex(f), v) == SetParent(t, f, v)
    ensures Cells(t, ParentBank(f))[ParentIndex(f)] == Parent(t, f)
  {
  }

  /** A sparse parent level means the block below has no place either. */
  lemma SparseParent(t: Tree, n: nat, levels: seq<Level>, l: nat)
    requires IteratorInv(t, n, levels) && l + 1 < LevelCount(n) && !levels[l + 1].valid
    ensures Parent(t, LevelBlock(n, l)) == 0
  {
    assert l == 0;
    assert Synced(t, ROOT);
  }

  /** Block ROOT has entries but no place only while its level is dirty. */
  lemma RootUnplaced(t: Tree, n: nat, levels: seq<Level>)
    requires IteratorInv(t, n, levels) && DOUBLE_START <= n < MAX_BLOCKS
    ensures Parent(t, ROOT) == 0 && Parent(t, BlockOf(n)) != 0 ==> levels[1].dirty
  {
    assert ROOT in DirtyBlocks(n, levels) || Synced(t, ROOT);
  }

  lemma InvAfterView(t: Tree, u: Tree, n: nat, levels: seq<Level>, l: nat)
    requires IteratorInv(t, n, levels) && SameView(t, u) && l < LevelCount(n) && InMemory(u, BankAt(n, l))
    ensures IteratorInv(u, n, Mark(levels, l, true, levels[l].dirty))
    ensures Need(u, n, Mark(levels, l, true, levels[l].dirty)) == Need(t, n, levels)
  {
    hide Unshared, Synced, Zeros;
    SameViewKeeps(t, u, DirtyBlocks(n, levels), InodeDirty(n, levels));
  }

  lemma InvAfterFree(t: Tree, n: nat, levels: seq<Level>, l: nat)
    requires IteratorInv(t, n, levels) && l + 1 < LevelCount(n) && levels[l].valid && levels[l + 1].valid
    requires l > 0 ==> !levels[0].dirty
    requires Parent(t, LevelBlock(n, l)) != 0 && Content(t, LevelBlock(n, l)) == Zeros()
    ensures var f := LevelBlock(n, l);
            var u, ls := SetParent(t, f, 0), Mark(Mark(levels, l + 1, true, true), l, true, false);
            IteratorInv(u, n, ls) && Effect(t, u, {}, {f}) && Need(u, n, ls) == Need(t, n, levels)
  {
    var f := LevelBlock(n, l);
    hide Unshared, Synced, Zeros;
    FreeBlock(t, f, DirtyBlocks(n, levels), InodeDirty(n, levels));
    var u, ls := SetParent(t, f, 0), Mark(Mark(levels, l + 1, true, true), l, true, false);
    assert DirtyBlocks(n, ls) == DirtyBlocks(n, levels) - {f} + (if f > ROOT then {ROOT} else {});
    if l == 0 && f > ROOT {
      RootUnplaced(t, n, levels);
    }
  }

  lemma InvAfterPlace(t: Tree, n: nat, levels: seq<Level>, l: nat, p: nat)
    requires IteratorInv(t, n, levels) && l + 1 < LevelCount(n) && levels[l].dirty && levels[l + 1].valid
    requires Parent(t, LevelBlock(n, l)) == 0 && p != 0
    requires forall g :: 0 <= g < POINTER_BLOCKS ==> Parent(t, g) != p
    ensures var f := LevelBlock(n, l);
            var u, ls := SetParent(t, f, p), Mark(levels, l + 1, true, true);
            && IteratorInv(u, n, ls) && Effect(t, u, {f}, {})
            && f in Need(t, n, levels) && Need(u, n, ls) == Need(t, n, levels) - {f}
  {
    hide Unshared, Coherent;
    var f := LevelBlock(n, l);
    PlaceBlock(t, f, p, DirtyBlocks(n, levels), InodeDirty(n, levels));
    var u, ls := SetParent(t, f, p), Mark(levels, l + 1, true, true);
    assert DirtyBlocks(n, ls) == DirtyBlocks(n, levels) + (if f > ROOT then {ROOT} else {});
    PlaceKeepsViews(t, u, n, levels, l);
  }

  lemma PlaceKeepsViews(t: Tree, u: Tree, n: nat, levels: seq<Level>, l: nat)
    requires Shape(n, levels) && Views(t, n, levels) && RootTail(t, n)
    requires l + 1 < LevelCount(n) && levels[l].dirty && levels[l + 1].valid
    requires Parent(t, LevelBlock(n, l)) == 0 && Effect(t, u, {LevelBlock(n, l)}, {})
    ensures var f, ls := LevelBlock(n, l), Mark(levels, l + 1, true, true);
            && Shape(n, ls) && Views(u, n, ls) && RootTail(u, n)
            && f in Need(t, n, levels) && Need(u, n, ls) == Need(t, n, levels) - {f}
  {
  }

  lemma InvAfterWrite(t: Tree, n: nat, levels: seq<Level>, l: nat)
    requires IteratorInv(t, n, levels) && l + 1 < LevelCount(n) && levels[l].dirty
    requires Parent(t, LevelBlock(n, l)) != 0
    ensures var f := LevelBlock(n, l);
            var u, ls := WriteBack(t, f), Mark(levels, l, true, false);
            IteratorInv(u, n, ls) && Effect(t, u, {}, {}) && Need(u, n, ls) == Need(t, n, levels)
  {
    var f := LevelBlock(n, l);
    hide Unshared, Synced, Zeros;
    WriteBlock(t, f, DirtyBlocks(n, levels), InodeDirty(n, levels));
    var ls := Mark(levels, l, true, false);
    assert DirtyBlocks(n, ls) == DirtyBlocks(n, levels) - {f};
    if l == 0 && f > ROOT {
      RootUnplaced(t, n, levels);
    }
  }

  lemma SameParents(t: Tree, u: Tree)
    requires Unshared(t) && forall f :: 0 <= f < POINTER_BLOCKS ==> Parent(u, f) == Parent(t, f)
    ensures Unshared(u)
  {
  }

  lemma InvAfterSave(t: Tree, n: nat, levels: seq<Level>)
    requires IteratorInv(t, n, levels) && n < MAX_BLOCKS
    ensures var l := LevelCount(n) - 1;
            var u, ls := SaveInode(t), Mark(levels, l, true, false);
            IteratorInv(u, n, ls) && Effect(t, u, {}, {}) && Need(u, n, ls) == Need(t, n, levels)
  {
    hide Unshared;
    var u := SaveInode(t);
    assert Unshared(u) by { SameParents(t, u); }
    assert forall f :: 0 <= f < POINTER_BLOCKS ==> Parent(u, f) == Parent(t, f) && Content(u, f) == Content(t, f);
  }

  // ---------------------------------------------------------------------------
  // Setting a leaf pointer

  lemma SlotsDistinct(n: nat, m: nat)
    requires DIRECT <= n < MAX_BLOCKS && DIRECT <= m < MAX_BLOCKS && n != m
    ensures BlockOf(n) != BlockOf(m) || SlotOf(n) != SlotOf(m)
  {
  }

  /** Setting the pointer of file block n changes the flat map there and nowhere else. */
  lemma SetLeaf(t: Tree, n: nat, v: nat)
    requires n < MAX_BLOCKS && InMemory(t, BankAt(n, 0))
    ensures var u := SetCell(t, BankAt(n, 0), IndexAt(n, 0), v);
            && (forall m :: 0 <= m < MAX_BLOCKS ==> Lookup(u, m) == if m == n then v else Lookup(t, m))
            && (forall f :: 0 <= f < POINTER_BLOCKS ==> Parent(u, f) == Parent(t, f))
            && (forall f :: 0 <= f < POINTER_BLOCKS && (n < DIRECT || f != BlockOf(n)) ==> Content(u, f) == Content(t, f))
            && u.saved == t.saved && u.disk == t.disk && u.file.Keys == t.file.Keys
  {
    var u := SetCell(t, BankAt(n, 0), IndexAt(n, 0), v);
    if n >= DIRECT {
      SetSlotEffect(t, BlockOf(n), SlotOf(n), v);
      forall m | DIRECT <= m < MAX_BLOCKS && m != n ensures Lookup(u, m) == Lookup(t, m) {
        SlotsDistinct(n, m);
      }
    }
  }

  lemma InvAfterSet(t: Tree, n: nat, levels: seq<Level>, v: nat)
    requires IteratorInv(t, n, levels) && n < MAX_BLOCKS && levels[0].valid
    ensures var u, ls := SetCell(t, BankAt(n, 0), IndexAt(n, 0), v), Mark(levels, 0, true, true);
            IteratorInv(u, n, ls)
  {
    SetLeaf(t, n, v);
    var u, ls := SetCell(t, BankAt(n, 0), IndexAt(n, 0), v), Mark(levels, 0, true, true);
    forall f | 0 <= f < POINTER_BLOCKS && f !in DirtyBlocks(n, ls) ensures Synced(u, f) {
      assert Synced(t, f);
    }
  }

  // ---------------------------------------------------------------------------
  // Flushing all levels, and moving on

  /** The pointer blocks below the lowest k levels of file block n. */
  ghost function LevelBlocks(n: nat, k: nat): set<nat> {
    (if k > 0 && LevelCount(n) >= 2 then {LevelBlock(n, 0)} else {}) +
    (if k > 1 && LevelCount(n) == 3 then {ROOT} else {})
  }

  /** Of the blocks fs, the empty ones have lost their place, unless just allocated. */
  ghost predicate Pruned(t: Tree, fs: set<nat>, added: set<nat>, removed: set<nat>) {
    && (forall f :: f in fs && f < POINTER_BLOCKS && f !in added && Content(t, f) == Zeros() ==> Parent(t, f) == 0)
    && (forall f :: f in removed && f < POINTER_BLOCKS ==> Content(t, f) == Zeros())
  }

  lemma PrunedStep(t: Tree, u: Tree, n: nat, l: nat, added: set<nat>, removed: set<nat>, a: set<nat>, r: set<nat>)
    requires l < LevelCount(n) && Pruned(t, LevelBlocks(n, l), added, removed)
    requires added + removed <= LevelBlocks(n, l)
    requires Effect(t, u, a, r)
    requires l + 1 == LevelCount(n) ==> a == {} && r == {}
    requires l + 1 < LevelCount(n) ==>
               var f := LevelBlock(n, l);
               && Content(u, f) == Content(t, f)
               && a <= {f}
               && r == if Parent(t, f) != 0 && Content(t, f) == Zeros() then {f} else {}
    ensures Pruned(u, LevelBlocks(n, l + 1), added + a, removed + r)
    ensures added + a + (removed + r) <= LevelBlocks(n, l + 1)
    ensures added + removed !! a + r
  {
    if l == 1 && LevelCount(n) == 3 {
      assert LevelBlock(n, 0) != ROOT;
    }
  }

  lemma CleanNeedsNothing(t: Tree, n: nat, levels: seq<Level>)
    requires Shape(n, levels) && forall l :: 0 <= l < LevelCount(n) ==> !levels[l].dirty
    ensures Need(t, n, levels) == {} && DirtyBlocks(n, levels) == {} && !InodeDirty(n, levels)
  {
  }

  /** Before moving from n to a later block m outside n's view, nothing unwritten lies at or after m. */
  lemma NothingAhead(t: Tree, n: nat, levels: seq<Level>, m: nat)
    requires IteratorInv(t, n, levels) && DOUBLE_START <= m < MAX_BLOCKS && n < m
    requires n < DIRECT || BlockOf(n) != BlockOf(m)
    ensures EmptyFrom(t, BlockOf(m))
  {
    if n < DOUBLE_START {
      assert Synced(t, ROOT);
    } else {
      assert BlockOf(n) < BlockOf(m);
    }
  }

  /** An unflushed iterator is still good after more blocks have been cached. */
  lemma InvAfterLoad(t: Tree, u: Tree, n: nat, levels: seq<Level>)
    requires IteratorInv(t, n, levels) && SameView(t, u)
    ensures IteratorInv(u, n, levels) && Need(u, n, levels) == Need(t, n, levels)
  {
    hide Unshared, Synced, Zeros;
    SameViewKeeps(t, u, DirtyBlocks(n, levels), InodeDirty(n, levels));
  }

  /** A fresh iterator at m is good once the one at n, with another number of levels, is flushed. */
  lemma InvAfterJump(t: Tree, u: Tree, n: nat, m: nat, levels: seq<Level>, added: set<nat>, removed: set<nat>)
    requires n < m <= MAX_BLOCKS && LevelCount(n) != LevelCount(m)
    requires Shape(m, levels) && Views(t, m, levels) && RootTail(t, m)
    requires DOUBLE_START <= m < MAX_BLOCKS ==> EmptyFrom(t, BlockOf(m))
    requires forall l :: 0 <= l < LevelCount(m) ==> !levels[l].dirty
    requires Coherent(u, {}, false) && Unshared(u)
    requires Effect(t, u, added, removed) && added + removed <= LevelBlocks(n, 3)
    ensures IteratorInv(u, m, levels) && Need(u, m, levels) == {}
  {
    CleanNeedsNothing(u, m, levels);
    assert forall f :: f in LevelBlocks(n, 3) && DOUBLE_START <= m < MAX_BLOCKS ==> f < ROOT;
  }

  /** With the same number of levels, only the lowest view changes; the others are taken over. */
  function TakeOver(next: seq<Level>, last: seq<Level>): seq<Level>
    requires |next| == |last| == 3
  {
    [next[0],
     next[1].(valid := last[1].valid, dirty := last[1].dirty),
     next[2].(valid := last[2].valid, dirty := last[2].dirty)]
  }

  lemma InvAfterTakeOver(
    t: Tree, u: Tree, n: nat, m: nat, flushed: seq<Level>, next: seq<Level>, added: set<nat>, removed: set<nat>)
    requires n < m < MAX_BLOCKS && LevelCount(n) == LevelCount(m) && LevelCount(n) >= 2 && BlockOf(n) != BlockOf(m)
    requires IteratorInv(u, n, flushed) && !flushed[0].dirty
    requires Shape(m, next) && Views(t, m, next) && !next[0].dirty
    requires Effect(t, u, added, removed) && added + removed <= {BlockOf(n)}
    ensures IteratorInv(u, m, TakeOver(next, flushed))
    ensures Need(u, m, TakeOver(next, flushed)) == Need(u, n, flushed)
  {
    var ls := TakeOver(next, flushed);
    assert DirtyBlocks(m, ls) == DirtyBlocks(n, flushed);
    assert BlockOf(n) < BlockOf(m);
  }

  /** Small moves stay in the same view. */
  lemma StepInside(t: Tree, n: nat, levels: seq<Level>, k: nat)
    requires IteratorInv(t, n, levels) && n < MAX_BLOCKS
    requires levels[0].index + k < CountOf(levels[0].bank)
    ensures n + k < MAX_BLOCKS && LevelCount(n + k) == LevelCount(n)
    ensures n >= DIRECT ==> BlockOf(n + k) == BlockOf(n)
    ensures var ls := levels[0 := levels[0].(index := levels[0].index + k)];
            IteratorInv(t, n + k, ls) && Need(t, n + k, ls) == Need(t, n, levels)
  {
    hide Unshared;
    SameBlock(n, k);
    var ls := levels[0 := levels[0].(index := levels[0].index + k)];
    assert DirtyBlocks(n + k, ls) == DirtyBlocks(n, levels);
  }

  lemma SameBlock(n: nat, k: nat)
    requires n < MAX_BLOCKS && IndexAt(n, 0) + k < CountOf(BankAt(n, 0))
    ensures n + k < MAX_BLOCKS && LevelCount(n + k) == LevelCount(n)
    ensures n >= DIRECT ==> BlockOf(n + k) == BlockOf(n) && SlotOf(n + k) == SlotOf(n) + k
  {
  }

  lemma OtherBlock(n: nat, k: nat)
    requires n < MAX_BLOCKS && n + k <= MAX_BLOCKS && IndexAt(n, 0) + k >= CountOf(BankAt(n, 0))
    ensures LevelCount(n + k) == LevelCount(n) ==> n >= DIRECT && BlockOf(n + k) != BlockOf(n)
    ensures DIRECT <= n && n + k < MAX_BLOCKS ==> BlockOf(n) != BlockOf(n + k)
  {
  }
}
