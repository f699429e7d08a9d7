/**
 The block pointers of one file: direct pointers and the tops of the indirect trees in the
 inode, everything below in pointer blocks. Pointer blocks are cached in the "virtual
 indirect file", whose own blocks are located by the same pointers: file blocks 0..30 by
 inum, block 31 by dinum, and the rest by the entries of block 31.
 */
module PointerTree {

  const DIRECT := 16
  const INDIRECT := 31
  const PER_INDIRECT := 2048

  /** First file block reached through dinum, and one past the last file block. */
  const DOUBLE_START := DIRECT + INDIRECT * PER_INDIRECT
  const MAX_BLOCKS := DOUBLE_START + PER_INDIRECT * PER_INDIRECT

  /** Blocks of the virtual indirect file: the one dinum points to, and those below it. */
  const ROOT := INDIRECT
  const LEAF_START := INDIRECT + 1
  const POINTER_BLOCKS := LEAF_START + PER_INDIRECT

  ghost predicate IsBlock(s: seq<nat>) {
    |s| == PER_INDIRECT
  }

  type Block = s: seq<nat> | IsBlock(s) ghost witness seq(PER_INDIRECT, i => 0)

  function Zeros(): Block {
    seq(PER_INDIRECT, i => 0)
  }

  datatype Pointers = Pointers(dnum: seq<nat>, inum: seq<nat>, dinum: nat)

  type Inode = p: Pointers | |p.dnum| == DIRECT && |p.inum| == INDIRECT
    ghost witness Pointers(seq(DIRECT, i => 0), seq(INDIRECT, i => 0), 0)

  /**
   inode: the pointers in memory; saved: as the inode table has them; file: the loaded
   blocks of the virtual indirect file; disk: pointer blocks as the device has them.
   */
  datatype Tree = Tree(inode: Inode, saved: Inode, file: map<nat, Block>, disk: map<nat, Block>)

  // ---------------------------------------------------------------------------
  // Reading

  /** What the device holds at block p; block 0 means unmapped and reads as zeros. */
  function Stored(t: Tree, p: nat): Block {
    if p != 0 && p in t.disk then t.disk[p] else Zeros()
  }

  function Loaded(t: Tree, f: nat, p: nat): Block {
    if f in t.file then t.file[f] else Stored(t, p)
  }

  /** The pointer that locates block f of the virtual indirect file. */
  function Parent(t: Tree, f: nat): nat
    requires f < POINTER_BLOCKS
  {
    if f < ROOT then t.inode.inum[f]
    else if f == ROOT then t.inode.dinum
    else Loaded(t, ROOT, t.inode.dinum)[f - LEAF_START]
  }

  /** Block f of the virtual indirect file as a reader sees it. */
  function Content(t: Tree, f: nat): Block
    requires f < POINTER_BLOCKS
  {
    Loaded(t, f, Parent(t, f))
  }

  /** Where the pointer of file block n is: which pointer block, and which slot in it. */
  function BlockOf(n: nat): (f: nat)
    requires DIRECT <= n < MAX_BLOCKS
    ensures f < POINTER_BLOCKS && f != ROOT
  {
    var q := (n - DIRECT) / PER_INDIRECT;
    if q < INDIRECT then q else q + 1
  }

  function SlotOf(n: nat): (i: nat)
    requires DIRECT <= n
    ensures i < PER_INDIRECT
  {
    (n - DIRECT) % PER_INDIRECT
  }

  /** The flat map from file blocks to device blocks (0: unmapped) that the tree stands for. */
  ghost function Lookup(t: Tree, n: nat): nat
    requires n < MAX_BLOCKS
  {
    if n < DIRECT then t.inode.dnum[n] else Content(t, BlockOf(n))[SlotOf(n)]
  }

  /** The tree as a later mount finds it. */
  ghost function Remount(t: Tree): Tree {
    Tree(t.saved, t.saved, map[], t.disk)
  }

  // ---------------------------------------------------------------------------
  // Consistency between memory and device

  ghost predicate Synced(t: Tree, f: nat)
    requires f < POINTER_BLOCKS
  {
    Content(t, f) == Stored(t, Parent(t, f))
  }

  /** Everything but the pointer blocks in `dirty`, and the inode if inodeDirty, is on the device. */
  ghost predicate Coherent(t: Tree, dirty: set<nat>, inodeDirty: bool) {
    && (forall f :: 0 <= f < POINTER_BLOCKS && f !in dirty ==> Synced(t, f))
    && (!inodeDirty ==> t.saved == t.inode)
  }

  /** No device block serves as two pointer blocks. */
  ghost predicate Unshared(t: Tree) {
    forall f, g :: 0 <= f < POINTER_BLOCKS && 0 <= g < POINTER_BLOCKS && f != g && Parent(t, f) != 0 ==>
      Parent(t, f) != Parent(t, g)
  }

  /** When nothing is dirty, reading the tree back from the device gives the same map. */
  lemma RemountSame(t: Tree, n: nat)
    requires Coherent(t, {}, false) && n < MAX_BLOCKS
    ensures Lookup(Remount(t), n) == Lookup(t, n)
  {
    assert Synced(t, ROOT);
    if n >= DIRECT {
      assert Synced(t, BlockOf(n));
    }
  }

  // ---------------------------------------------------------------------------
  // Writing

  /** Read block f of the virtual indirect file into the cache. */
  function Load(t: Tree, f: nat): Tree
    requires f < POINTER_BLOCKS
  {
    t.(file := t.file[f := Content(t, f)])
  }

  /** Overwrite one pointer in the cached block f. */
  function SetSlot(t: Tree, f: nat, i: nat, v: nat): Tree
    requires f in t.file && i < PER_INDIRECT
  {
    t.(file := t.file[f := t.file[f][i := v]])
  }

  /** Overwrite the pointer that locates block f. */
  function SetParent(t: Tree, f: nat, v: nat): Tree
    requires f < POINTER_BLOCKS
    requires f > ROOT ==> ROOT in t.file
  {
    if f < ROOT then t.(inode := t.inode.(inum := t.inode.inum[f := v]))
    else if f == ROOT then t.(inode := t.inode.(dinum := v))
    else SetSlot(t, ROOT, f - LEAF_START, v)
  }

  /** Write cached block f to the device block its parent names. */
  function WriteBack(t: Tree, f: nat): Tree
    requires f < POINTER_BLOCKS
  {
    t.(disk := t.disk[Parent(t, f) := Content(t, f)])
  }

  function SaveInode(t: Tree): Tree {
    t.(saved := t.inode)
  }

  // ---------------------------------------------------------------------------
  // What each write does

  lemma LoadEffect(t: Tree, f: nat)
    requires f < POINTER_BLOCKS
    ensures forall g :: 0 <= g < POINTER_BLOCKS ==>
              Parent(Load(t, f), g) == Parent(t, g) && Content(Load(t, f), g) == Content(t, g)
  {
  }

  lemma SetSlotEffect(t: Tree, f: nat, i: nat, v: nat)
    requires f < POINTER_BLOCKS && f != ROOT && f in t.file && i < PER_INDIRECT
    ensures var u := SetSlot(t, f, i, v);
            && (forall g :: 0 <= g < POINTER_BLOCKS ==> Parent(u, g) == Parent(t, g))
            && (forall g :: 0 <= g < POINTER_BLOCKS && g != f ==> Content(u, g) == Content(t, g))
            && Content(u, f) == Content(t, f)[i := v]
  {
  }

  /** Relocating a cached block changes no content but the entry that says where it is. */
  lemma SetParentEffect(t: Tree, f: nat, v: nat)
    requires f < POINTER_BLOCKS && f in t.file && (f > ROOT ==> ROOT in t.file)
    ensures var u := SetParent(t, f, v);
            && (forall g :: 0 <= g < POINTER_BLOCKS ==> Parent(u, g) == if g == f then v else Parent(t, g))
            && (forall g :: 0 <= g < POINTER_BLOCKS && g != ROOT ==> Content(u, g) == Content(t, g))
            && (f <= ROOT ==> Content(u, ROOT) == Content(t, ROOT))
            && u.disk == t.disk && u.inode.dnum == t.inode.dnum
  {
  }

  lemma WriteBackEffect(t: Tree, f: nat)
    requires f < POINTER_BLOCKS && f in t.file && Unshared(t) && Parent(t, f) != 0
    ensures var u := WriteBack(t, f);
            && (forall g :: 0 <= g < POINTER_BLOCKS ==> Parent(u, g) == Parent(t, g) && Content(u, g) == Content(t, g))
            && (forall g :: 0 <= g < POINTER_BLOCKS && (g == f || Synced(t, g)) ==> Synced(u, g))
  {
    var u := WriteBack(t, f);
    assert Parent(t, ROOT) == t.inode.dinum;
    assert Loaded(u, ROOT, t.inode.dinum) == Loaded(t, ROOT, t.inode.dinum);
    forall g | 0 <= g < POINTER_BLOCKS ensures Parent(u, g) == Parent(t, g) && Content(u, g) == Content(t, g) {
      assert g != f ==> Parent(t, g) != Parent(t, f);
    }
    forall g | 0 <= g < POINTER_BLOCKS && g != f && Synced(t, g) ensures Synced(u, g) {
      assert Parent(t, g) != Parent(t, f);
    }
  }
}
