/** What the checker reads, and what it is to find: the blocks each inode owns. */
module FsckSpec {
  import opened Sets
  import opened PointerTree
  import opened BlocksShrink
  import opened TransactionLimits
  import opened DirectoryRecords
  import List = UnlinkedList

  const ROOT_INODE := 1

  datatype Magic = MagicFile | MagicDir | MagicOther

  /** An inode as stored. `contents` is what its data reads as, if it is a directory. */
  datatype InodeRecord = InodeRecord(
    magic: Magic, links: nat, dirents: nat, size: nat, blocks: nat, pointers: Inode, last: nat, next: nat, contents: Contents)

  /** A file system as it lies on the device. */
  datatype Image = Image(
    blockCount: nat, blockBits: set<nat>, inodeBits: set<nat>, allocBlocks: nat, allocInodes: nat,
    head: nat, tail: nat, inodes: seq<InodeRecord>, disk: map<nat, Block>)

  /** The pointer tree of an inode as a mount would first see it, nothing cached. */
  ghost function TreeOf(img: Image, p: Inode): Tree {
    Tree(p, p, map[], img.disk)
  }

  /** What a block belongs to. */
  datatype Use = PointerUse(f: nat) | DataUse(n: nat)

  datatype Owner = Owner(ino: nat, use: Use)

  ghost function PointersOwned(t: Tree, ino: nat, p: nat): map<Owner, nat>
    requires p <= POINTER_BLOCKS
  {
    map f | 0 <= f < p && Parent(t, f) != 0 :: Owner(ino, PointerUse(f)) := Parent(t, f)
  }

  ghost function DataOwned(t: Tree, ino: nat, q: nat): map<Owner, nat>
    requires q <= MAX_BLOCKS
  {
    map n | 0 <= n < q && Lookup(t, n) != 0 :: Owner(ino, DataUse(n)) := Lookup(t, n)
  }

  /** The blocks of inode ino among its first p pointer blocks and q data blocks. */
  ghost function Owned(t: Tree, ino: nat, p: nat, q: nat): map<Owner, nat>
    requires p <= POINTER_BLOCKS && q <= MAX_BLOCKS
  {
    PointersOwned(t, ino, p) + DataOwned(t, ino, q)
  }

  ghost function PlacedUpTo(t: Tree, p: nat): set<nat>
    requires p <= POINTER_BLOCKS
  {
    set f | 0 <= f < p && Parent(t, f) != 0
  }

  /** How many blocks Owned has. */
  ghost function OwnedCount(t: Tree, p: nat, q: nat): nat
    requires p <= POINTER_BLOCKS && q <= MAX_BLOCKS
  {
    |PlacedUpTo(t, p)| + |MappedIn(t, 0, q)|
  }

  lemma OwnedAll(t: Tree)
    ensures OwnedCount(t, POINTER_BLOCKS, MAX_BLOCKS) == Occupied(t)
  {
    assert PlacedUpTo(t, POINTER_BLOCKS) == Placed(t);
  }

  lemma OwnedNone(t: Tree, ino: nat)
    ensures Owned(t, ino, 0, 0) == map[] && OwnedCount(t, 0, 0) == 0
  {
    assert MappedIn(t, 0, 0) == {} && PlacedUpTo(t, 0) == {};
  }

  lemma OwnedPointer(t: Tree, ino: nat, p: nat)
    requires p < POINTER_BLOCKS
    ensures var o, b := Owner(ino, PointerUse(p)), Parent(t, p);
            && o !in Owned(t, ino, p, 0)
            && Owned(t, ino, p + 1, 0) == (if b != 0 then Owned(t, ino, p, 0)[o := b] else Owned(t, ino, p, 0))
            && OwnedCount(t, p + 1, 0) == OwnedCount(t, p, 0) + (if b != 0 then 1 else 0)
  {
    hide Parent, Lookup, PointersOwned, DataOwned, PlacedUpTo, MappedIn;
    OnePointer(t, ino, p);
    NoData(t, ino);
    OneMorePlaced(t, p);
  }

  lemma NoData(t: Tree, ino: nat)
    ensures DataOwned(t, ino, 0) == map[]
  {
    hide Lookup;
  }

  lemma OneMorePlaced(t: Tree, p: nat)
    requires p < POINTER_BLOCKS
    ensures |PlacedUpTo(t, p + 1)| == |PlacedUpTo(t, p)| + (if Parent(t, p) != 0 then 1 else 0)
  {
    hide Parent;
    assert PlacedUpTo(t, p + 1) == PlacedUpTo(t, p) + (if Parent(t, p) != 0 then {p} else {});
  }

  lemma OnePointer(t: Tree, ino: nat, p: nat)
    requires p < POINTER_BLOCKS
    ensures var o, b, m := Owner(ino, PointerUse(p)), Parent(t, p), PointersOwned(t, ino, p);
            o !in m && PointersOwned(t, ino, p + 1) == if b != 0 then m[o := b] else m
  {
    hide Parent;
    var o, b, m, n := Owner(ino, PointerUse(p)), Parent(t, p), PointersOwned(t, ino, p), PointersOwned(t, ino, p + 1);
    forall k ensures k in n <==> k in m || (b != 0 && k == o) {
      if k in m {
        assert k.ino == ino && k.use.PointerUse? && k.use.f < p;
      }
    }
    forall k | k in n ensures n[k] == if k == o then b else m[k] {
    }
  }

  /** Going from data block n to next, nothing mapped lying between. */
  lemma OwnedData(t: Tree, ino: nat, n: nat, next: nat)
    requires n < next <= MAX_BLOCKS && forall m :: n < m < next ==> Lookup(t, m) == 0
    ensures var o, b := Owner(ino, DataUse(n)), Lookup(t, n);
            && o !in Owned(t, ino, POINTER_BLOCKS, n)
            && Owned(t, ino, POINTER_BLOCKS, next) ==
               (if b != 0 then Owned(t, ino, POINTER_BLOCKS, n)[o := b] else Owned(t, ino, POINTER_BLOCKS, n))
            && OwnedCount(t, POINTER_BLOCKS, next) == OwnedCount(t, POINTER_BLOCKS, n) + (if b != 0 then 1 else 0)
  {
    hide Parent, Lookup, PointersOwned, DataOwned, PlacedUpTo, MappedIn;
    OneData(t, ino, n, next);
    OneMoreMapped(t, n, next);
    NotPointer(t, ino, n);
    UnionUpdate(PointersOwned(t, ino, POINTER_BLOCKS), DataOwned(t, ino, n), Owner(ino, DataUse(n)), Lookup(t, n));
  }

  lemma UnionUpdate(a: map<Owner, nat>, m: map<Owner, nat>, o: Owner, b: nat)
    ensures a + m[o := b] == (a + m)[o := b]
  {
  }

  lemma NotPointer(t: Tree, ino: nat, n: nat)
    ensures Owner(ino, DataUse(n)) !in PointersOwned(t, ino, POINTER_BLOCKS)
  {
    hide Parent;
  }

  lemma OneMoreMapped(t: Tree, n: nat, next: nat)
    requires n < next <= MAX_BLOCKS && forall m :: n < m < next ==> Lookup(t, m) == 0
    ensures |MappedIn(t, 0, next)| == |MappedIn(t, 0, n)| + (if Lookup(t, n) != 0 then 1 else 0)
  {
    hide Lookup;
    assert MappedIn(t, 0, next) == MappedIn(t, 0, n) + (if Lookup(t, n) != 0 then {n} else {});
  }

  lemma OneData(t: Tree, ino: nat, n: nat, next: nat)
    requires n < next <= MAX_BLOCKS && forall m :: n < m < next ==> Lookup(t, m) == 0
    ensures var o, b, m := Owner(ino, DataUse(n)), Lookup(t, n), DataOwned(t, ino, n);
            o !in m && DataOwned(t, ino, next) == if b != 0 then m[o := b] else m
  {
    hide Lookup;
    var o, b, m, w := Owner(ino, DataUse(n)), Lookup(t, n), DataOwned(t, ino, n), DataOwned(t, ino, next);
    forall k ensures k in w <==> k in m || (b != 0 && k == o) {
      if k in m {
        assert k.ino == ino && k.use.DataUse? && k.use.n < n;
      }
    }
    forall k | k in w ensures w[k] == if k == o then b else m[k] {
    }
  }

  // ---------------------------------------------------------------------------
  // Checking blocks

  predicate ValidBlock(img: Image, b: nat) {
    b != 0 && b < img.blockCount && b in img.blockBits
  }

  /** Every block is valid, none was checked before, and none occurs twice. */
  ghost predicate Fresh(img: Image, owned: map<Owner, nat>, checked: set<nat>) {
    && (forall o :: o in owned ==> ValidBlock(img, owned[o]) && owned[o] !in checked)
    && (forall o, p :: o in owned && p in owned && o != p ==> owned[o] != owned[p])
  }

  /** The blocks that will have been marked as checked. */
  ghost function ValidValues(img: Image, owned: map<Owner, nat>): set<nat> {
    set o | o in owned && ValidBlock(img, owned[o]) :: owned[o]
  }

  lemma FreshMore(img: Image, owned: map<Owner, nat>, checked: set<nat>, o: Owner, b: nat)
    requires o !in owned
    ensures Fresh(img, owned[o := b], checked) <==>
            Fresh(img, owned, checked) && ValidBlock(img, b) && b !in checked + ValidValues(img, owned)
    ensures checked + ValidValues(img, owned[o := b]) ==
            checked + ValidValues(img, owned) + (if ValidBlock(img, b) then {b} else {})
  {
    var more := owned[o := b];
    assert forall p :: p in owned ==> p in more && p != o && more[p] == owned[p];
    assert o in more && more[o] == b;
    assert b in ValidValues(img, owned) <==> ValidBlock(img, b) && exists p :: p in owned && owned[p] == b;
    if Fresh(img, more, checked) {
      forall p | p in owned ensures ValidBlock(img, owned[p]) && owned[p] !in checked && owned[p] != b {
        assert more[p] == owned[p] && more[p] != more[o];
      }
      forall p, q | p in owned && q in owned && p != q ensures owned[p] != owned[q] {
        assert more[p] != more[q];
      }
    }
  }

  /** Disjoint groups of fresh blocks are fresh together. */
  lemma FreshUnion(img: Image, a: map<Owner, nat>, b: map<Owner, nat>, checked: set<nat>)
    requires Fresh(img, a, checked) && Fresh(img, b, checked + ValidValues(img, a)) && a.Keys !! b.Keys
    ensures Fresh(img, a + b, checked)
    ensures checked + ValidValues(img, a + b) == checked + ValidValues(img, a) + ValidValues(img, b)
  {
    var all := a + b;
    forall o | o in all ensures o in a || o in b {
    }
    forall o, p | o in a && p in b ensures a[o] != b[p] {
      assert a[o] in ValidValues(img, a);
    }
    assert forall o :: o in a ==> all[o] == a[o];
    assert forall o :: o in b ==> all[o] == b[o];
  }

  /** The last mapped block lies within the size of the file. */
  ghost predicate SizeCovers(t: Tree, size: nat) {
    forall n :: 0 <= n < MAX_BLOCKS && Lookup(t, n) != 0 ==> n < (size + BLOCK_SIZE - 1) / BLOCK_SIZE
  }

  /** What the file checks ask of an inode's blocks. */
  ghost predicate FileSound(img: Image, ino: nat, checked: set<nat>)
    requires ino < |img.inodes|
  {
    var inode, t := img.inodes[ino], TreeOf(img, img.inodes[ino].pointers);
    && Fresh(img, Owned(t, ino, POINTER_BLOCKS, MAX_BLOCKS), checked)
    && SizeCovers(t, inode.size) && inode.blocks == Occupied(t)
  }

  // ---------------------------------------------------------------------------
  // Directories

  /** What is read at an offset of a directory; bytes that form no record read as one that is refused. */
  function RecordAt(c: Contents, off: nat): Record {
    if off in c.mem then c.mem[off] else Record(0, 0, false, "", FileKind)
  }

  const WORD := 0x1_0000_0000

  /** A record can be read at off: in full, of a size that holds it, and with a name if it is in use. */
  predicate Readable(c: Contents, off: nat) {
    var d := RecordAt(c, off);
    var rlen := if d.last then (MAX_DIRECTORY - off) % WORD else d.reclen;
    && off + (if d.ino == 0 then DIRENT_SIZE else DirentSize(|d.name|)) <= c.size
    && (d.last || (DirentSize(|d.name|) <= rlen && DirentSize(|d.name|) <= DirentSize(MAX_NAME) && rlen % ALIGNMENT == 0))
    && (d.ino == 0 || 0 < |d.name| <= (rlen - DIRENT_SIZE) % WORD)
  }

  /** A directory that has been gone through: from which directory, and the offsets of its records. */
  datatype Visit = Visit(parent: nat, offs: seq<nat>)

  type Visits = map<nat, Visit>

  /** An inode that has been met: along which entry first, and how many had been met before. */
  datatype Met = Met(site: Site, rank: nat)

  /** Where the record after those at offs starts. */
  function NextOff(c: Contents, offs: seq<nat>): int {
    if offs == [] then 0 else offs[|offs| - 1] + RecordAt(c, offs[|offs| - 1]).reclen
  }

  /** The k-th record starts where the one before ends. */
  ghost predicate Follows(c: Contents, offs: seq<nat>, k: nat)
    requires 0 < k < |offs|
  {
    !RecordAt(c, offs[k - 1]).last && offs[k] == offs[k - 1] + RecordAt(c, offs[k - 1]).reclen
  }

  /** offs are the first records: the first at 0, each where the one before ends, and all can be read. */
  ghost predicate Chained(c: Contents, offs: seq<nat>) {
    && (forall k :: 0 <= k < |offs| ==> Readable(c, offs[k]))
    && (offs != [] ==> offs[0] == 0)
    && (forall k :: 0 < k < |offs| ==> Follows(c, offs, k))
    && (forall j, k :: 0 <= j < k < |offs| ==> offs[j] < offs[k])
  }

  /** And they are all: the last is marked so, or the directory is an unlinked one and ends there. */
  ghost predicate ChainOf(c: Contents, offs: seq<nat>, unlinked: bool) {
    && Chained(c, offs)
    && ((offs != [] && RecordAt(c, offs[|offs| - 1]).last) ||
        (unlinked && NextOff(c, offs) >= c.size))
  }

  /** A directory without links that was come to from the unlinked list may end without a last record. */
  ghost predicate MayEnd(img: Image, d: nat, parent: nat)
    requires d < |img.inodes|
  {
    img.inodes[d].links == 0 && parent == 0
  }

  /** An entry of a directory: which directory, and where in it. */
  type Site = (nat, nat)

  ghost predicate IsDir(img: Image, ino: nat) {
    0 < ino < |img.inodes| && img.inodes[ino].magic == MagicDir
  }

  /** The entries in use among the records at offs. */
  ghost function SitesOf(img: Image, d: nat, offs: seq<nat>): set<Site>
    requires d < |img.inodes|
  {
    set off | off in offs && RecordAt(img.inodes[d].contents, off).ino != 0 :: (d, off)
  }

  /** A live record among those that are reached from the start of a directory. */
  ghost predicate OnChain(img: Image, s: Site) {
    && IsDir(img, s.0) && RecordAt(img.inodes[s.0].contents, s.1).ino != 0
    && exists offs :: Chained(img.inodes[s.0].contents, offs) && s.1 in offs
  }

  /** The inode an entry leads to. Site (0, k) is the checker's own turning to inode k, or with 0 to the root. */
  ghost function Target(img: Image, s: Site): nat {
    if s.0 == 0 then (if s.1 == 0 then ROOT_INODE else s.1)
    else if s.0 < |img.inodes| then RecordAt(img.inodes[s.0].contents, s.1).ino
    else 0
  }

  /** The directory an inode is looked for in: that of the entry, the root its own, and none for an unlinked one. */
  function ParentOf(s: Site): nat {
    if s.0 != 0 then s.0 else if s.1 == 0 then ROOT_INODE else 0
  }

  /** An entry under an ordinary name. */
  ghost predicate NamedSite(img: Image, s: Site) {
    s.0 != 0 && s.0 < |img.inodes| && !DotName(RecordAt(img.inodes[s.0].contents, s.1).name)
  }

  /** What the directory checks ask: the count of entries, and "." and ".." leading where they should. */
  ghost predicate DirSound(img: Image, d: nat, parent: nat, offs: seq<nat>)
    requires d < |img.inodes|
  {
    var inode := img.inodes[d];
    && inode.dirents == |SitesOf(img, d, offs)| && (inode.links == 0 ==> inode.dirents == 0)
    && DotsFine(img, d, parent, offs)
    && (inode.links > 0 ==>
          && (exists off :: off in offs && LiveNamed(img, d, off, "."))
          && (exists off :: off in offs && LiveNamed(img, d, off, "..")))
  }

  /** "." leads to the directory itself and ".." to its parent, and neither is there twice. */
  ghost predicate DotsFine(img: Image, d: nat, parent: nat, offs: seq<nat>)
    requires d < |img.inodes|
  {
    && (forall off :: off in offs && LiveNamed(img, d, off, ".") ==> RecordAt(img.inodes[d].contents, off).ino == d)
    && (forall off :: off in offs && LiveNamed(img, d, off, "..") ==> RecordAt(img.inodes[d].contents, off).ino == parent)
    && OnlyOne(img, d, offs, ".") && OnlyOne(img, d, offs, "..")
  }

  /** No two entries among those at offs have this name. */
  ghost predicate OnlyOne(img: Image, d: nat, offs: seq<nat>, name: string)
    requires d < |img.inodes|
  {
    forall o, p :: o in offs && p in offs && LiveNamed(img, d, o, name) && LiveNamed(img, d, p, name) ==> o == p
  }

  ghost predicate LiveNamed(img: Image, d: nat, off: nat, name: string)
    requires d < |img.inodes|
  {
    RecordAt(img.inodes[d].contents, off).ino != 0 && RecordAt(img.inodes[d].contents, off).name == name
  }

  ghost function CallsTo(img: Image, calls: set<Site>, ino: nat): set<Site> {
    set s | s in calls && Target(img, s) == ino
  }

  lemma CallAdded(img: Image, calls: set<Site>, s: Site)
    requires s !in calls
    ensures forall i :: |CallsTo(img, calls + {s}, i)| == |CallsTo(img, calls, i)| + (if Target(img, s) == i then 1 else 0)
  {
    forall i ensures |CallsTo(img, calls + {s}, i)| == |CallsTo(img, calls, i)| + (if Target(img, s) == i then 1 else 0) {
      assert CallsTo(img, calls + {s}, i) == CallsTo(img, calls, i) + (if Target(img, s) == i then {s} else {});
    }
  }

  // ---------------------------------------------------------------------------
  // The checker's state

  /**
   inodes, blocks: marked as checked. links: the tally for inode i is at i - 1. owners: every
   block looked at, by what it belongs to. calls: every entry followed. visits: the directories
   gone through. met: the first entry each inode was met along. unlinked: inodes met on the
   unlinked list, whose tally was overwritten, with what it then lacked of entries and links.
   */
  datatype Checked = Checked(
    inodes: set<nat>, blocks: set<nat>, links: seq<int>, allocInodes: nat, allocBlocks: nat, conforming: bool,
    owners: map<Owner, nat>, calls: set<Site>, visits: Visits, met: map<nat, Met>, unlinked: map<nat, int>)

  ghost predicate InodesInv(img: Image, c: Checked) {
    && c.inodes <= Below(|img.inodes|) && c.allocInodes == |c.inodes| && |c.links| == |img.inodes|
    && (forall i :: i in c.inodes && i != 0 && i < |img.inodes| ==> img.inodes[i].magic != MagicOther)
    && (c.conforming ==> 0 in c.inodes && c.inodes <= img.inodeBits)
  }

  ghost predicate BlocksInv(img: Image, c: Checked) {
    && c.allocBlocks == |c.blocks|
    && (c.conforming ==> 0 in img.blockBits && Fresh(img, c.owners, {0}) && c.blocks == {0} + ValidValues(img, c.owners))
  }

  /** The blocks recorded for inode i are exactly those its pointers lead to. */
  ghost predicate OwnersExact(img: Image, owners: map<Owner, nat>, i: nat)
    requires i < |img.inodes|
  {
    var all := Owned(TreeOf(img, img.inodes[i].pointers), i, POINTER_BLOCKS, MAX_BLOCKS);
    forall u :: (Owner(i, u) in owners <==> Owner(i, u) in all) && (Owner(i, u) in all ==> owners[Owner(i, u)] == all[Owner(i, u)])
  }

  ghost predicate InodeSound(img: Image, i: nat)
    requires i < |img.inodes|
  {
    var t := TreeOf(img, img.inodes[i].pointers);
    SizeCovers(t, img.inodes[i].size) && img.inodes[i].blocks == Occupied(t)
  }

  /** The blocks of every checked inode, but perhaps one that is just being looked at. */
  ghost predicate FilesInv(img: Image, c: Checked, but: set<nat>) {
    && (forall o :: o in c.owners ==> o.ino in c.inodes - {0} - but)
    && (forall i :: i in c.inodes - {0} - but ==>
          i < |img.inodes| && OwnersExact(img, c.owners, i) && (c.conforming ==> InodeSound(img, i)))
  }

  /** Where the tally of inode i starts: the root's one low, since the walk itself comes to it once. */
  function Offset(c: Checked, i: nat): int {
    if i in c.unlinked then c.unlinked[i] else if i == 1 then -1 else 0
  }

  /** The tally of links: entries followed, less the link count once the inode has been met. */
  ghost predicate LinksInv(img: Image, c: Checked) {
    && |c.links| == |img.inodes| && (|c.links| > 1 ==> c.links[|c.links| - 1] == 0)
    && forall i :: 0 < i < |img.inodes| ==>
         c.links[i - 1] == Offset(c, i) + |CallsTo(img, c.calls, i)| - (if i in c.inodes then img.inodes[i].links else 0)
  }

  /** Every entry followed is a record of a checked directory and leads to a checked inode. */
  ghost predicate CallsInv(img: Image, c: Checked) {
    forall s :: s in c.calls ==> GoodCall(img, c.inodes, s)
  }

  ghost predicate GoodCall(img: Image, inodes: set<nat>, s: Site) {
    (s.0 == 0 || (s.0 in inodes && OnChain(img, s))) && Target(img, s) in inodes && Target(img, s) != 0
  }

  /**
   Each inode was met along an entry that leads to it, of a directory met before. An ordinary name
   of a directory is the entry it was met along.
   */
  ghost predicate MetInv(img: Image, c: Checked) {
    && c.met.Keys == c.inodes - {0}
    && (forall i :: i in c.met ==> MetBefore(img, c, i))
    && forall s :: s in c.calls && NamedSite(img, s) && IsDir(img, Target(img, s)) ==> FirstName(img, c, s)
  }

  ghost predicate FirstName(img: Image, c: Checked, s: Site) {
    Target(img, s) in c.met && c.met[Target(img, s)].site == s
  }

  ghost predicate MetBefore(img: Image, c: Checked, i: nat)
    requires i in c.met
  {
    var m := c.met[i];
    && m.site in c.calls && Target(img, m.site) == i && m.rank < |c.inodes|
    && (m.site.0 != 0 ==> m.site.0 in c.met && c.met[m.site.0].rank < m.rank)
  }

  /** Some records of directory d, from the first on, show that it is not as it should be. */
  ghost predicate DirBlemish(img: Image, d: nat, parent: nat)
    requires d < |img.inodes|
  {
    exists offs :: BlemishSeen(img, d, parent, offs)
  }

  ghost predicate BlemishSeen(img: Image, d: nat, parent: nat, offs: seq<nat>)
    requires d < |img.inodes|
  {
    && Chained(img.inodes[d].contents, offs)
    && (!DotsFine(img, d, parent, offs) ||
        (ChainOf(img.inodes[d].contents, offs, MayEnd(img, d, parent)) && !DirSound(img, d, parent, offs)))
  }

  /** Inode i is not marked, or its size or count or, if it is a directory, its records are wrong. */
  ghost predicate BlemishAt(img: Image, c: Checked, i: nat) {
    && 0 < i < |img.inodes|
    && (|| i !in img.inodeBits || !InodeSound(img, i)
        || (IsDir(img, i) && i in c.met && DirBlemish(img, i, ParentOf(c.met[i].site))))
  }

  /** Something that does not stop the walk is wrong with the inodes met. */
  ghost predicate Blemish(img: Image, c: Checked) {
    || 0 !in img.inodeBits || 0 !in img.blockBits || !Fresh(img, c.owners, {0})
    || exists i :: i in c.inodes && BlemishAt(img, c, i)
  }

  /** The flag is lowered only for a reason. */
  ghost predicate FlagInv(img: Image, c: Checked) {
    !c.conforming ==> Blemish(img, c)
  }

  lemma BlemishKept(img: Image, a: Checked, b: Checked)
    requires Blemish(img, a) && a.inodes <= b.inodes
    requires forall i :: i in a.inodes && i in a.met ==> i in b.met && b.met[i] == a.met[i]
    requires forall o :: o in a.owners ==> o in b.owners && b.owners[o] == a.owners[o]
    ensures Blemish(img, b)
  {
    hide InodeSound, DirBlemish, IsDir, ValidBlock;
    if i :| i in a.inodes && BlemishAt(img, a, i) {
      assert BlemishAt(img, b, i);
    } else if !Fresh(img, a.owners, {0}) {
      assert !Fresh(img, b.owners, {0});
    }
  }

  lemma FreshRest(img: Image, a: map<Owner, nat>, b: map<Owner, nat>, checked: set<nat>)
    requires Fresh(img, a + b, checked) && a.Keys !! b.Keys
    ensures Fresh(img, b, checked + ValidValues(img, a))
  {
    hide ValidBlock;
    var all := a + b;
    forall o | o in b ensures all[o] == b[o] {
    }
    forall o | o in a ensures all[o] == a[o] {
    }
    forall o | o in b ensures ValidBlock(img, b[o]) && b[o] !in checked + ValidValues(img, a) {
      assert all[o] == b[o];
      forall p | p in a ensures a[p] != b[o] {
        assert all[p] != all[o];
      }
    }
    forall o, p | o in b && p in b && o != p ensures b[o] != b[p] {
      assert all[o] != all[p];
    }
  }

  ghost predicate CheckerInv(img: Image, c: Checked, but: set<nat>) {
    && InodesInv(img, c) && BlocksInv(img, c) && FilesInv(img, c, but) && LinksInv(img, c) && CallsInv(img, c) && MetInv(img, c)
    && FlagInv(img, c)
  }

  /** Inode d is done with: if it is a directory, all its entries have been followed. */
  ghost predicate Complete(img: Image, c: Checked, d: nat) {
    if IsDir(img, d) then
      && d in c.visits && d in c.met && c.visits[d].parent == ParentOf(c.met[d].site)
      && ChainOf(img.inodes[d].contents, c.visits[d].offs, MayEnd(img, d, c.visits[d].parent))
      && (forall off :: (d, off) in c.calls <==> (d, off) in SitesOf(img, d, c.visits[d].offs))
      && (c.conforming ==> DirSound(img, d, c.visits[d].parent, c.visits[d].offs))
    else forall off :: (d, off) !in c.calls
  }

  /** From a to b the entries `own` were followed, and inodes met for the first time were done with. */
  ghost predicate Grown(img: Image, a: Checked, b: Checked, own: set<Site>) {
    && a.inodes <= b.inodes && a.calls <= b.calls && own <= b.calls && a.unlinked == b.unlinked
    && (b.conforming ==> a.conforming)
    && (forall s :: s in b.calls ==> s in a.calls || s in own || s.0 in b.inodes - a.inodes)
    && (forall d :: d in b.inodes - a.inodes ==> d != 0 && Complete(img, b, d))
    && (forall d :: d in a.inodes ==> (d in b.visits <==> d in a.visits) && (d in a.visits ==> b.visits[d] == a.visits[d]))
    && (forall d :: d in a.inodes ==> (d in b.met <==> d in a.met) && (d in a.met ==> b.met[d] == a.met[d]))
  }

  /** No entry of d is among these. */
  ghost predicate NotFrom(sites: set<Site>, ds: set<nat>) {
    forall s :: s in sites ==> s.0 !in ds
  }

  lemma GrownCompose(img: Image, a: Checked, b: Checked, c: Checked, own1: set<Site>, own2: set<Site>)
    requires Grown(img, a, b, own1) && Grown(img, b, c, own2) && NotFrom(own2, b.inodes - a.inodes)
    ensures Grown(img, a, c, own1 + own2)
  {
    forall d | d in c.inodes - a.inodes ensures d != 0 && Complete(img, c, d) {
      if d in b.inodes {
        assert d in b.inodes - a.inodes;
        CompleteKept(img, b, c, own2, d);
      } else {
        assert d in c.inodes - b.inodes;
      }
    }
  }

  lemma CompleteKept(img: Image, b: Checked, c: Checked, own: set<Site>, d: nat)
    requires Grown(img, b, c, own) && d in b.inodes && Complete(img, b, d) && NotFrom(own, {d})
    ensures Complete(img, c, d)
  {
    hide DirSound, ChainOf, SitesOf;
    forall off ensures (d, off) in c.calls <==> (d, off) in b.calls {
    }
  }

  // ---------------------------------------------------------------------------
  // Following an entry

  function Bump(links: seq<int>, ino: nat, delta: int): seq<int>
    requires 0 < ino <= |links|
  {
    links[ino - 1 := links[ino - 1] + delta]
  }

  /** The entry at `site` is counted for the inode it leads to. */
  function Follow(c: Checked, ino: nat, site: Site): Checked
    requires 0 < ino <= |c.links|
  {
    c.(links := Bump(c.links, ino, 1), calls := c.calls + {site})
  }

  /** An inode met for the first time. */
  function Meet(img: Image, c: Checked, ino: nat, site: Site): Checked
    requires 0 < ino < |img.inodes| && ino <= |c.links|
  {
    c.(links := Bump(c.links, ino, 0 - img.inodes[ino].links), inodes := c.inodes + {ino}, allocInodes := c.allocInodes + 1,
       met := c.met[ino := Met(site, c.allocInodes)], conforming := c.conforming && ino in img.inodeBits)
  }

  /** A site that may be followed next. */
  ghost predicate NewSite(img: Image, c: Checked, ino: nat, site: Site) {
    && 0 < ino < |img.inodes| && site !in c.calls && Target(img, site) == ino && img.inodes[ino].magic != MagicOther
    && (site.0 == 0 || (site.0 in c.inodes && OnChain(img, site)))
    && (NamedSite(img, site) && IsDir(img, ino) ==> ino !in c.inodes)
  }

  lemma FollowAgain(img: Image, c: Checked, ino: nat, site: Site)
    requires CheckerInv(img, c, {}) && NewSite(img, c, ino, site) && ino in c.inodes
    ensures var f := Follow(c, ino, site);
            CheckerInv(img, f, {}) && Grown(img, c, f, {site})
  {
    hide FilesInv, Fresh, ValidValues, CallsTo, Target, NamedSite, IsDir, OnChain, Complete, Below, Blemish;
    if !c.conforming {
      BlemishKept(img, c, Follow(c, ino, site));
    }
    CallAdded(img, c.calls, site);
    FollowLinks(img, c, ino, site);
    FollowCalls(img, c, ino, site, Follow(c, ino, site).inodes);
    SameFiles(img, c, Follow(c, ino, site), {});
    FollowMet(img, c, ino, site);
  }

  lemma SameFiles(img: Image, c: Checked, f: Checked, but: set<nat>)
    requires FilesInv(img, c, but) && f.owners == c.owners && f.inodes == c.inodes && (f.conforming ==> c.conforming)
    ensures FilesInv(img, f, but)
  {
    hide OwnersExact, InodeSound;
  }

  lemma FollowLinks(img: Image, c: Checked, ino: nat, site: Site)
    requires LinksInv(img, c) && 0 < ino < |img.inodes| && site !in c.calls && Target(img, site) == ino
    ensures LinksInv(img, Follow(c, ino, site))
  {
    hide CallsTo, Target;
    CallAdded(img, c.calls, site);
  }

  lemma FollowCalls(img: Image, c: Checked, ino: nat, site: Site, inodes: set<nat>)
    requires CallsInv(img, c) && NewSite(img, c, ino, site) && c.inodes <= inodes && ino in inodes
    ensures CallsInv(img, c.(calls := c.calls + {site}, inodes := inodes))
  {
    hide Target, NamedSite, IsDir, OnChain;
  }

  lemma FollowAndMeet(img: Image, c: Checked, ino: nat, site: Site)
    requires CheckerInv(img, c, {}) && NewSite(img, c, ino, site) && ino !in c.inodes
    ensures var m := Meet(img, Follow(c, ino, site), ino, site);
            && CheckerInv(img, m, {ino})
            && forall off :: (ino, off) !in m.calls || (ino, off) == site
  {
    hide FilesInv, Fresh, ValidValues, CallsTo, Target, NamedSite, IsDir, OnChain, Below, Blemish;
    var f := Follow(c, ino, site);
    var m := Meet(img, f, ino, site);
    FollowLinks(img, c, ino, site);
    MeetLinks(img, f, ino, site);
    FollowCalls(img, c, ino, site, c.inodes + {ino});
    assert CallsInv(img, m);
    MeetInodes(img, f, ino, site);
    MeetFiles(img, c, m, ino);
    MeetMet(img, c, ino, site);
    MeetFlag(img, c, ino, site);
  }

  lemma MeetFlag(img: Image, c: Checked, ino: nat, site: Site)
    requires FlagInv(img, c) && MetInv(img, c) && 0 < ino < |img.inodes| && ino !in c.inodes && |c.links| == |img.inodes|
    ensures FlagInv(img, Meet(img, Follow(c, ino, site), ino, site))
  {
    hide Fresh, MetBefore, FirstName, Target, NamedSite, IsDir, InodeSound, DirBlemish;
    var m := Meet(img, Follow(c, ino, site), ino, site);
    if !c.conforming {
      hide Blemish;
      BlemishKept(img, c, m);
    } else if !m.conforming {
      assert BlemishAt(img, m, ino);
    }
  }

  lemma MeetMet(img: Image, c: Checked, ino: nat, site: Site)
    requires MetInv(img, c) && InodesInv(img, c) && NewSite(img, c, ino, site) && ino !in c.inodes && |c.links| == |img.inodes|
    ensures MetInv(img, Meet(img, Follow(c, ino, site), ino, site))
  {
    hide Target, NamedSite, IsDir, Below;
    var m := Meet(img, Follow(c, ino, site), ino, site);
    assert |m.inodes| == |c.inodes| + 1;
    forall i | i in m.met ensures MetBefore(img, m, i) {
      assert i != ino ==> MetBefore(img, c, i);
    }
    forall s | s in m.calls && NamedSite(img, s) && IsDir(img, Target(img, s)) ensures FirstName(img, m, s) {
      assert s != site ==> FirstName(img, c, s);
    }
  }

  lemma FollowMet(img: Image, c: Checked, ino: nat, site: Site)
    requires MetInv(img, c) && 0 < ino <= |c.links| && NewSite(img, c, ino, site) && ino in c.inodes
    ensures MetInv(img, Follow(c, ino, site))
  {
    hide Target, NamedSite, IsDir;
    var f := Follow(c, ino, site);
    forall i | i in c.met ensures MetBefore(img, f, i) {
      assert MetBefore(img, c, i);
    }
    forall s | s in f.calls && NamedSite(img, s) && IsDir(img, Target(img, s)) ensures FirstName(img, f, s) {
      assert s != site && FirstName(img, c, s);
    }
  }

  lemma SameMet(img: Image, c: Checked, f: Checked)
    requires MetInv(img, c) && f.met == c.met && f.inodes == c.inodes && f.calls == c.calls
    ensures MetInv(img, f)
  {
    hide Target, NamedSite, IsDir;
    forall i | i in f.met ensures MetBefore(img, f, i) {
      assert MetBefore(img, c, i);
    }
    forall s | s in f.calls && NamedSite(img, s) && IsDir(img, Target(img, s)) ensures FirstName(img, f, s) {
      assert FirstName(img, c, s);
    }
  }

  lemma MeetInodes(img: Image, f: Checked, ino: nat, site: Site)
    requires InodesInv(img, f) && 0 < ino < |img.inodes| && ino !in f.inodes && img.inodes[ino].magic != MagicOther
    ensures InodesInv(img, Meet(img, f, ino, site))
  {
  }

  lemma MeetLinks(img: Image, f: Checked, ino: nat, site: Site)
    requires LinksInv(img, f) && 0 < ino < |img.inodes| && ino !in f.inodes
    ensures LinksInv(img, Meet(img, f, ino, site))
  {
    hide CallsTo;
  }

  lemma MeetFiles(img: Image, c: Checked, m: Checked, ino: nat)
    requires FilesInv(img, c, {}) && ino !in c.inodes && m.inodes == c.inodes + {ino} && m.owners == c.owners
    requires m.conforming ==> c.conforming
    ensures FilesInv(img, m, {ino})
  {
    hide OwnersExact, InodeSound;
    forall i | i in m.inodes - {0} - {ino}
      ensures i < |img.inodes| && OwnersExact(img, m.owners, i) && (m.conforming ==> InodeSound(img, i))
    {
      assert i in c.inodes - {0} - {};
    }
    assert c.inodes - {0} - {} <= m.inodes - {0} - {ino};
  }

  /** The blocks of an inode have been looked at. */
  ghost predicate FileChecked(img: Image, c: Checked, f: Checked, ino: nat)
    requires ino < |img.inodes|
  {
    var all := Owned(TreeOf(img, img.inodes[ino].pointers), ino, POINTER_BLOCKS, MAX_BLOCKS);
    && f.owners == c.owners + all && f.blocks == c.blocks + ValidValues(img, all) && f.allocBlocks == |f.blocks|
    && f.conforming == (c.conforming && FileSound(img, ino, c.blocks))
    && f == c.(owners := f.owners, blocks := f.blocks, allocBlocks := f.allocBlocks, conforming := f.conforming)
  }

  lemma FileKeeps(img: Image, c: Checked, f: Checked, ino: nat)
    requires 0 < ino < |img.inodes| && CheckerInv(img, c, {ino}) && ino in c.inodes && FileChecked(img, c, f, ino)
    ensures CheckerInv(img, f, {})
  {
    hide Fresh, ValidValues, CallsTo, Target, NamedSite, IsDir, OnChain, OwnersExact, Owned, SizeCovers, Occupied, Below, Blemish;
    FileBlocks(img, c, f, ino);
    FileFlag(img, c, f, ino);
    FileFiles(img, c, f, ino);
    SameMet(img, c, f);
    assert LinksInv(img, f) && CallsInv(img, f) && InodesInv(img, f);
  }

  lemma FileBlocks(img: Image, c: Checked, f: Checked, ino: nat)
    requires 0 < ino < |img.inodes| && BlocksInv(img, c) && FileChecked(img, c, f, ino) && FilesInv(img, c, {ino})
    ensures BlocksInv(img, f)
  {
    var all := Owned(TreeOf(img, img.inodes[ino].pointers), ino, POINTER_BLOCKS, MAX_BLOCKS);
    OwnedIsOwn(TreeOf(img, img.inodes[ino].pointers), ino);
    hide Owned, OwnersExact, Fresh, ValidValues, SizeCovers, Occupied;
    assert c.owners.Keys !! all.Keys;
    if f.conforming {
      FreshUnion(img, c.owners, all, {0});
    }
  }

  lemma FileFlag(img: Image, c: Checked, f: Checked, ino: nat)
    requires 0 < ino < |img.inodes| && BlocksInv(img, c) && FileChecked(img, c, f, ino) && FilesInv(img, c, {ino})
    requires FlagInv(img, c) && ino in c.inodes
    ensures FlagInv(img, f)
  {
    var all := Owned(TreeOf(img, img.inodes[ino].pointers), ino, POINTER_BLOCKS, MAX_BLOCKS);
    OwnedIsOwn(TreeOf(img, img.inodes[ino].pointers), ino);
    hide Owned, OwnersExact, Fresh, ValidValues, SizeCovers, Occupied, DirBlemish, IsDir;
    assert c.owners.Keys !! all.Keys;
    if !c.conforming {
      hide Blemish;
      BlemishKept(img, c, f);
    } else if !f.conforming {
      if InodeSound(img, ino) {
        if Fresh(img, f.owners, {0}) {
          FreshRest(img, c.owners, all, {0});
        }
      } else {
        assert BlemishAt(img, f, ino);
      }
    }
  }

  lemma OwnedIsOwn(t: Tree, ino: nat)
    ensures forall o :: o in Owned(t, ino, POINTER_BLOCKS, MAX_BLOCKS) ==> o.ino == ino
  {
    hide Parent, Lookup;
  }

  lemma FileFiles(img: Image, c: Checked, f: Checked, ino: nat)
    requires 0 < ino < |img.inodes| && FileChecked(img, c, f, ino) && FilesInv(img, c, {ino}) && ino in c.inodes
    ensures FilesInv(img, f, {})
  {
    hide Owned, Fresh, ValidValues, SizeCovers, Occupied, OwnersExact;
    var all := Owned(TreeOf(img, img.inodes[ino].pointers), ino, POINTER_BLOCKS, MAX_BLOCKS);
    OwnedIsOwn(TreeOf(img, img.inodes[ino].pointers), ino);
    forall i | i in f.inodes - {0}
      ensures i < |img.inodes| && OwnersExact(img, f.owners, i) && (f.conforming ==> InodeSound(img, i))
    {
      if i != ino {
        assert i in c.inodes - {0} - {ino};
        OwnersOther(img, c.owners, all, ino, i);
      } else {
        OwnersNew(img, c.owners, all, ino);
      }
    }
  }

  lemma OwnersOther(img: Image, owners: map<Owner, nat>, all: map<Owner, nat>, ino: nat, i: nat)
    requires i < |img.inodes| && OwnersExact(img, owners, i) && i != ino && forall o :: o in all ==> o.ino == ino
    ensures OwnersExact(img, owners + all, i)
  {
    hide Owned;
    forall u ensures (Owner(i, u) in owners + all <==> Owner(i, u) in owners) {
      assert Owner(i, u).ino == i;
    }
  }

  lemma OwnersNew(img: Image, owners: map<Owner, nat>, all: map<Owner, nat>, ino: nat)
    requires ino < |img.inodes| && all == Owned(TreeOf(img, img.inodes[ino].pointers), ino, POINTER_BLOCKS, MAX_BLOCKS)
    requires forall o :: o in owners ==> o.ino != ino
    ensures OwnersExact(img, owners + all, ino)
  {
    hide Owned;
    forall u ensures Owner(ino, u) in owners + all <==> Owner(ino, u) in all {
      assert Owner(ino, u).ino == ino;
    }
  }

  // ---------------------------------------------------------------------------
  // What makes the walk stop

  /** The entry leads to no inode or for a second time, under an ordinary name, to a directory. */
  ghost predicate BadEntry(img: Image, c: Checked, s: Site) {
    var i := Target(img, s);
    && (s.0 == 0 || (s.0 in c.inodes && OnChain(img, s)))
    && (|| i >= |img.inodes| || img.inodes[i].magic == MagicOther
        || (IsDir(img, i) && i in c.inodes && s !in c.calls && (s.0 == 0 || NamedSite(img, s))))
  }

  /** After the records at offs of directory d there should be another, but none can be read. */
  ghost predicate BadRecord(img: Image, c: Checked, d: nat, offs: seq<nat>) {
    && IsDir(img, d) && d in c.inodes && d in c.met && Chained(img.inodes[d].contents, offs)
    && !ChainOf(img.inodes[d].contents, offs, MayEnd(img, d, ParentOf(c.met[d].site)))
    && NextOff(img.inodes[d].contents, offs) >= 0 && !Readable(img.inodes[d].contents, NextOff(img.inodes[d].contents, offs))
  }

  ghost predicate Fault(img: Image, c: Checked) {
    || (exists s: Site :: s.0 != 0 && BadEntry(img, c, s))
    || (exists d, offs :: BadRecord(img, c, d, offs))
  }

  /** The walk has stopped in state c: at a root that is a file, or at a fault of a directory met. */
  ghost predicate Faulty(img: Image, c: Checked) {
    !IsDir(img, ROOT_INODE) || (CheckerInv(img, c, {}) && Fault(img, c))
  }

  /** So, or because of the entry s that it has come along. */
  ghost predicate Stopped(img: Image, c: Checked, s: Site) {
    Faulty(img, c) || (CheckerInv(img, c, {}) && BadEntry(img, c, s))
  }

  /** The inodes turned to not along an entry. */
  ghost function Tops(calls: set<Site>): set<nat> {
    set s | s in calls && s.0 == 0 :: s.1
  }

  // ---------------------------------------------------------------------------
  // Going through a directory

  /** Finding something wrong spoils nothing but the flag. */
  lemma LoweredKeeps(img: Image, c: Checked, conforming: bool)
    requires CheckerInv(img, c, {}) && (conforming ==> c.conforming) && (conforming || !c.conforming || Blemish(img, c))
    ensures CheckerInv(img, c.(conforming := conforming), {})
  {
    hide OwnersExact, InodeSound, Fresh, ValidValues, CallsTo, Target, NamedSite, IsDir, OnChain, Below, Blemish;
    if !conforming {
      BlemishKept(img, c, c.(conforming := conforming));
    }
    SameMet(img, c, c.(conforming := conforming));
  }

  lemma SitesNone(img: Image, a: Checked, d: nat)
    requires d < |img.inodes|
    ensures SitesOf(img, d, []) == {} && Chained(img.inodes[d].contents, []) && Grown(img, a, a, {})
  {
  }

  lemma SitesMore(img: Image, d: nat, offs: seq<nat>, off: nat)
    requires d < |img.inodes| && off !in offs
    ensures (d, off) !in SitesOf(img, d, offs)
    ensures var live := RecordAt(img.inodes[d].contents, off).ino != 0;
            && SitesOf(img, d, offs + [off]) == SitesOf(img, d, offs) + (if live then {(d, off)} else {})
            && |SitesOf(img, d, offs + [off])| == |SitesOf(img, d, offs)| + (if live then 1 else 0)
  {
    var live := RecordAt(img.inodes[d].contents, off).ino != 0;
    forall s ensures s in SitesOf(img, d, offs + [off]) <==> s in SitesOf(img, d, offs) || (live && s == (d, off)) {
      if s in SitesOf(img, d, offs) {
        assert s.1 in offs + [off];
      }
      if live && s == (d, off) {
        assert off in offs + [off];
      }
    }
    assert SitesOf(img, d, offs + [off]) == SitesOf(img, d, offs) + (if live then {(d, off)} else {});
  }

  lemma ChainMore(c: Contents, offs: seq<nat>, off: nat)
    requires Readable(c, off)
    requires Chained(c, offs) && off == NextOff(c, offs) && (offs != [] ==> !RecordAt(c, offs[|offs| - 1]).last)
    requires offs != [] ==> RecordAt(c, offs[|offs| - 1]).reclen > 0
    ensures Chained(c, offs + [off]) && off !in offs
  {
    hide Readable;
    var all := offs + [off];
    forall j, k | 0 <= j < k < |all| ensures all[j] < all[k] {
      if k == |offs| && j < |offs| - 1 {
        assert offs[j] < offs[|offs| - 1];
      }
    }
    forall k | 0 < k < |all| ensures Follows(c, all, k) {
      assert k < |offs| ==> Follows(c, offs, k);
    }
  }

  /** Two chains of records agree as far as both go. */
  lemma {:induction false} ChainsAgree(c: Contents, a: seq<nat>, b: seq<nat>, k: nat)
    requires Chained(c, a) && Chained(c, b) && k < |a| && k < |b|
    ensures a[k] == b[k]
  {
    hide Readable;
    if k > 0 {
      ChainsAgree(c, a, b, k - 1);
      assert Follows(c, a, k) && Follows(c, b, k);
    }
  }

  /** A whole chain is as long as any. */
  lemma WholeChain(c: Contents, a: seq<nat>, b: seq<nat>, unlinked: bool)
    requires ChainOf(c, a, unlinked) && Chained(c, b)
    ensures |b| <= |a| && b == a[..|b|]
  {
    hide Readable;
    if |a| < |b| {
      if a != [] {
        ChainsAgree(c, a, b, |a| - 1);
        assert Follows(c, b, |a|);
      }
      assert b[|a|] == NextOff(c, a);
      ReadableInside(c, b[|a|]);
    }
    forall k | 0 <= k < |b| && k < |a| ensures a[k] == b[k] {
      ChainsAgree(c, a, b, k);
    }
  }

  lemma ReadableInside(c: Contents, off: nat)
    requires Readable(c, off)
    ensures off < c.size
  {
  }

  /** The entry at off of directory d has not been followed when the walk comes to it. */
  lemma NotYetFollowed(img: Image, a: Checked, b: Checked, d: nat, offs: seq<nat>, off: nat)
    requires d < |img.inodes| && d in a.inodes && NotFrom(a.calls, {d})
    requires Grown(img, a, b, SitesOf(img, d, offs)) && off !in offs
    ensures (d, off) !in b.calls
  {
    hide Complete;
    if (d, off) in SitesOf(img, d, offs) {
    }
  }

  /** The first sightings of "." and "..", and whether they lead where they should. */
  ghost predicate DotsSeen(img: Image, d: nat, parent: nat, offs: seq<nat>, dot: bool, dotdot: bool, conforming: bool)
    requires d < |img.inodes|
  {
    && (dot <==> exists off :: off in offs && LiveNamed(img, d, off, "."))
    && (dotdot <==> exists off :: off in offs && LiveNamed(img, d, off, ".."))
    && (conforming ==> DotsFine(img, d, parent, offs))
  }

  lemma DotsMore(
    img: Image, d: nat, parent: nat, offs: seq<nat>, off: nat, dot: bool, dotdot: bool, before: bool, after: bool)
    requires d < |img.inodes| && DotsSeen(img, d, parent, offs, dot, dotdot, before) && (after ==> before) && off !in offs
    requires after && LiveNamed(img, d, off, ".") ==> !dot && RecordAt(img.inodes[d].contents, off).ino == d
    requires after && LiveNamed(img, d, off, "..") ==> !dotdot && RecordAt(img.inodes[d].contents, off).ino == parent
    ensures DotsSeen(img, d, parent, offs + [off], dot || LiveNamed(img, d, off, "."), dotdot || LiveNamed(img, d, off, ".."), after)
    ensures DotsFine(img, d, parent, offs + [off]) <==>
            && DotsFine(img, d, parent, offs)
            && (LiveNamed(img, d, off, ".") ==> !dot && RecordAt(img.inodes[d].contents, off).ino == d)
            && (LiveNamed(img, d, off, "..") ==> !dotdot && RecordAt(img.inodes[d].contents, off).ino == parent)
  {
    hide LiveNamed, DotsFine;
    var all := offs + [off];
    assert forall o :: o in offs ==> o in all;
    assert off in all;
    FineMore(img, d, parent, offs, off, dot, dotdot);
  }

  lemma FineMore(img: Image, d: nat, parent: nat, offs: seq<nat>, off: nat, dot: bool, dotdot: bool)
    requires d < |img.inodes| && off !in offs
    requires dot <==> exists o :: o in offs && LiveNamed(img, d, o, ".")
    requires dotdot <==> exists o :: o in offs && LiveNamed(img, d, o, "..")
    ensures DotsFine(img, d, parent, offs + [off]) <==>
            && DotsFine(img, d, parent, offs)
            && (LiveNamed(img, d, off, ".") ==> !dot && RecordAt(img.inodes[d].contents, off).ino == d)
            && (LiveNamed(img, d, off, "..") ==> !dotdot && RecordAt(img.inodes[d].contents, off).ino == parent)
  {
    hide LiveNamed, RecordAt;
    var all := offs + [off];
    assert forall o :: o in all <==> o in offs || o == off;
    OnlyOneMore(img, d, offs, off, ".", dot);
    OnlyOneMore(img, d, offs, off, "..", dotdot);
    hide OnlyOne;
  }

  lemma OnlyOneMore(img: Image, d: nat, offs: seq<nat>, off: nat, name: string, seen: bool)
    requires d < |img.inodes| && off !in offs && (seen <==> exists o :: o in offs && LiveNamed(img, d, o, name))
    ensures OnlyOne(img, d, offs + [off], name) <==> OnlyOne(img, d, offs, name) && !(LiveNamed(img, d, off, name) && seen)
  {
    hide LiveNamed;
    assert forall o :: o in offs + [off] <==> o in offs || o == off;
  }

  // ---------------------------------------------------------------------------
  // An inode done with

  lemma FinishInode(
    img: Image, a: Checked, f: Checked, b: Checked, ino: nat, site: Site, parent: nat, offs: seq<nat>)
    requires parent == ParentOf(site)
    requires CheckerInv(img, a, {}) && NewSite(img, a, ino, site) && ino !in a.inodes
    requires FileChecked(img, Meet(img, Follow(a, ino, site), ino, site), f, ino)
    requires CheckerInv(img, b, {}) && Grown(img, f, b, if IsDir(img, ino) then SitesOf(img, ino, offs) else {})
    requires IsDir(img, ino) ==>
               && ChainOf(img.inodes[ino].contents, offs, MayEnd(img, ino, parent))
               && (b.conforming ==> DirSound(img, ino, parent, offs))
    ensures var c := if IsDir(img, ino) then b.(visits := b.visits[ino := Visit(parent, offs)]) else b;
            CheckerInv(img, c, {}) && Grown(img, a, c, {site}) && ino in c.inodes && ino in c.met && c.met[ino].site == site
  {
    hide OwnersExact, InodeSound, Fresh, ValidValues, CallsTo, Target, NamedSite, DirSound, ChainOf, FileSound, Owned, Below;
    hide FilesInv, BlocksInv, InodesInv, MetInv, FlagInv;
    NoCallsFrom(img, a, ino);
    FinishComplete(img, a, f, b, ino, site, parent, offs);
    hide CheckerInv, CallsInv, Complete, Grown;
    VisitKeeps(img, b, ino, parent, offs);
    FinishGrown(img, a, f, b, ino, site, parent, offs);
  }

  lemma FinishGrown(
    img: Image, a: Checked, f: Checked, b: Checked, ino: nat, site: Site, parent: nat, offs: seq<nat>)
    requires 0 < ino < |img.inodes| && ino !in a.inodes && ino <= |a.links| && (site.0 == 0 || site.0 in a.inodes)
    requires FileChecked(img, Meet(img, Follow(a, ino, site), ino, site), f, ino)
    requires Grown(img, f, b, if IsDir(img, ino) then SitesOf(img, ino, offs) else {})
    requires var c := if IsDir(img, ino) then b.(visits := b.visits[ino := Visit(parent, offs)]) else b; Complete(img, c, ino)
    ensures var c := if IsDir(img, ino) then b.(visits := b.visits[ino := Visit(parent, offs)]) else b;
            Grown(img, a, c, {site}) && ino in c.inodes && ino in c.met && c.met[ino].site == site
  {
    hide FileSound, Owned, ValidValues, IsDir, Complete;
    var c := if IsDir(img, ino) then b.(visits := b.visits[ino := Visit(parent, offs)]) else b;
    forall d | d in c.inodes - a.inodes ensures d != 0 && Complete(img, c, d) {
      if d != ino {
        assert d in b.inodes - f.inodes;
        VisitAside(img, b, ino, parent, offs, d);
      }
    }
  }

  lemma VisitKeeps(img: Image, b: Checked, ino: nat, parent: nat, offs: seq<nat>)
    requires CheckerInv(img, b, {})
    ensures CheckerInv(img, b.(visits := b.visits[ino := Visit(parent, offs)]), {})
  {
    hide OwnersExact, InodeSound, Fresh, ValidValues, CallsTo, Target, NamedSite, IsDir, OnChain, Below, Blemish;
    if !b.conforming {
      BlemishKept(img, b, b.(visits := b.visits[ino := Visit(parent, offs)]));
    }
    SameMet(img, b, b.(visits := b.visits[ino := Visit(parent, offs)]));
  }

  lemma VisitAside(img: Image, b: Checked, ino: nat, parent: nat, offs: seq<nat>, d: nat)
    requires Complete(img, b, d) && d != ino
    ensures Complete(img, b.(visits := b.visits[ino := Visit(parent, offs)]), d)
  {
    hide DirSound, ChainOf, SitesOf, IsDir;
  }

  lemma NoCallsFrom(img: Image, a: Checked, ino: nat)
    requires CallsInv(img, a) && ino !in a.inodes && ino != 0
    ensures NotFrom(a.calls, {ino})
  {
  }

  lemma FinishComplete(
    img: Image, a: Checked, f: Checked, b: Checked, ino: nat, site: Site, parent: nat, offs: seq<nat>)
    requires 0 < ino < |img.inodes| && ino !in a.inodes && NotFrom(a.calls, {ino}) && site.0 != ino
    requires f.calls == a.calls + {site} && ino in f.inodes && ino in f.met && ParentOf(f.met[ino].site) == parent
    requires Grown(img, f, b, if IsDir(img, ino) then SitesOf(img, ino, offs) else {})
    requires IsDir(img, ino) ==>
               && ChainOf(img.inodes[ino].contents, offs, MayEnd(img, ino, parent))
               && (b.conforming ==> DirSound(img, ino, parent, offs))
    ensures Complete(img, if IsDir(img, ino) then b.(visits := b.visits[ino := Visit(parent, offs)]) else b, ino)
  {
    hide DirSound, ChainOf, IsDir;
    forall off ensures (ino, off) in b.calls <==> IsDir(img, ino) && (ino, off) in SitesOf(img, ino, offs) {
      assert (ino, off) in b.calls ==> (ino, off) !in f.calls;
    }
  }

  // ---------------------------------------------------------------------------
  // The unlinked list

  /** The list fields of all inodes, with the head and tail of the superblock. */
  ghost function ListState(img: Image): List.State {
    List.State(img.head, img.tail, map i: nat | 0 <= i < |img.inodes| :: List.Links(img.inodes[i].last, img.inodes[i].next))
  }

  ghost function SetOf(members: seq<nat>): set<nat> {
    set k | k in members
  }

  /** The tally of an inode on the unlinked list is overwritten, so that turning to it makes it 0. */
  ghost function Overwritten(img: Image, c: Checked, ino: nat): Checked
    requires 0 < ino <= |c.links| && ino < |img.inodes|
  {
    c.(links := c.links[ino - 1 := -1],
       unlinked := c.unlinked[ino := -1 - |CallsTo(img, c.calls, ino)| + (if ino in c.inodes then img.inodes[ino].links else 0)])
  }

  /** Everything met has been done with, coming from the root and from the members of the unlinked list. */
  ghost predicate Settled(img: Image, c: Checked, members: seq<nat>) {
    && CheckerInv(img, c, {}) && c.unlinked.Keys == SetOf(members)
    && 1 in c.met && c.met[1].site == (0, 0) && IsDir(img, 1)
    && (forall d :: d in c.inodes && d != 0 ==> Complete(img, c, d))
    && (forall k :: (0, k) in c.calls <==> k == 0 || k in members)
    && (forall k :: k in members ==> MemberMet(img, c, k))
  }

  ghost predicate MemberMet(img: Image, c: Checked, k: nat) {
    0 < k < |img.inodes| && k in c.inodes && k in c.met && img.inodes[k].links == 0 && (IsDir(img, k) ==> c.met[k].site == (0, k))
  }

  lemma RootSettled(img: Image, a: Checked, c: Checked)
    requires a.inodes <= {0} && a.calls == {} && a.unlinked == map[]
    requires CheckerInv(img, c, {}) && Grown(img, a, c, {(0, 0)}) && 1 in c.met && c.met[1].site == (0, 0) && IsDir(img, 1)
    ensures Settled(img, c, [])
  {
    hide CheckerInv, Complete;
  }

  lemma OverwrittenKeeps(img: Image, c: Checked, members: seq<nat>, ino: nat)
    requires Settled(img, c, members) && 0 < ino < |img.inodes| && ino !in members && |c.links| == |img.inodes|
    ensures var o := Overwritten(img, c, ino);
            && CheckerInv(img, o, {}) && (0, ino) !in o.calls
            && forall d :: d in o.inodes && d != 0 ==> Complete(img, o, d)
  {
    hide CheckerInv, Complete, MemberMet;
    var o := Overwritten(img, c, ino);
    OverwrittenInv(img, c, ino);
    forall d | d in o.inodes && d != 0 ensures Complete(img, o, d) {
      CompleteSame(img, c, o, d);
    }
  }

  lemma OverwrittenInv(img: Image, c: Checked, ino: nat)
    requires CheckerInv(img, c, {}) && 0 < ino < |img.inodes| && |c.links| == |img.inodes|
    ensures CheckerInv(img, Overwritten(img, c, ino), {})
  {
    hide Fresh, ValidValues, CallsTo, Target, NamedSite, IsDir, OnChain, Below, MetBefore, OwnersExact, InodeSound, Blemish;
    if !c.conforming {
      BlemishKept(img, c, Overwritten(img, c, ino));
    }
    SameMet(img, c, Overwritten(img, c, ino));
    SameFiles(img, c, Overwritten(img, c, ino), {});
  }

  lemma CompleteSame(img: Image, c: Checked, o: Checked, d: nat)
    requires Complete(img, c, d) && o.calls == c.calls && o.visits == c.visits && o.met == c.met
    requires o.conforming ==> c.conforming
    ensures Complete(img, o, d)
  {
    hide DirSound, ChainOf, SitesOf, IsDir;
  }

  lemma MemberSettled(img: Image, c: Checked, o: Checked, b: Checked, members: seq<nat>, ino: nat)
    requires Settled(img, c, members) && 0 < ino < |img.inodes| == |c.links| && ino !in members && o == Overwritten(img, c, ino)
    requires forall d :: d in o.inodes && d != 0 ==> Complete(img, o, d)
    requires CheckerInv(img, b, {}) && Grown(img, o, b, {(0, ino)}) && ino in b.inodes && img.inodes[ino].links == 0
    requires ino in b.met && (ino !in c.inodes ==> b.met[ino].site == (0, ino)) && (IsDir(img, ino) ==> ino !in c.inodes)
    ensures Settled(img, b, members + [ino])
  {
    hide CheckerInv, Complete, IsDir;
    var all := members + [ino];
    assert b.unlinked.Keys == SetOf(all);
    forall d | d in b.inodes && d != 0 ensures Complete(img, b, d) {
      if d in o.inodes {
        CompleteKept(img, o, b, {(0, ino)}, d);
      }
    }
    forall k | k in all ensures MemberMet(img, b, k) {
      assert k != ino ==> MemberMet(img, c, k);
    }
    assert 1 in c.inodes by { MetInInodes(img, c, 1); }
  }

  lemma MetInInodes(img: Image, c: Checked, i: nat)
    requires CheckerInv(img, c, {}) && i in c.met
    ensures i in c.inodes && i != 0
  {
    hide FilesInv, BlocksInv, LinksInv, CallsInv, InodesInv;
  }

  /** The members so far: each names the one before it as its last, and the next to be looked at is what the last names. */
  ghost predicate ListSoFar(img: Image, members: seq<nat>, last: nat, next: nat) {
    && List.Distinct(members) && 0 !in members && last == List.Before(members, |members|)
    && (members != [] ==> last < |img.inodes| && img.head == members[0])
    && next == (if members == [] then img.head else img.inodes[last].next)
    && (forall i :: 0 <= i < |members| ==> LinkedAt(img, members, i))
  }

  ghost predicate LinkedAt(img: Image, members: seq<nat>, i: nat)
    requires i < |members|
  {
    && members[i] < |img.inodes|
    && img.inodes[members[i]].last == List.Before(members, i)
    && (i + 1 < |members| ==> img.inodes[members[i]].next == members[i + 1])
  }

  /** An inode whose last is the one just looked at has not been looked at before: the list ends. */
  lemma NoReturn(img: Image, members: seq<nat>, last: nat, next: nat)
    requires ListSoFar(img, members, last, next) && next != 0 && next < |img.inodes| && img.inodes[next].last == last
    ensures next !in members
  {
    forall i | 0 <= i < |members| ensures members[i] != next {
      assert LinkedAt(img, members, i);
      assert members[|members| - 1] in members;
      assert i == 0 || members[i - 1] != members[|members| - 1];
    }
  }

  lemma ListFurther(img: Image, members: seq<nat>, last: nat, next: nat)
    requires ListSoFar(img, members, last, next) && next != 0 && next < |img.inodes| && img.inodes[next].last == last
    requires next !in members
    ensures ListSoFar(img, members + [next], next, img.inodes[next].next)
  {
    var all := members + [next];
    forall i | 0 <= i < |all| ensures LinkedAt(img, all, i) {
      if i < |members| {
        assert LinkedAt(img, members, i);
      }
    }
  }

  lemma ListEnds(img: Image, members: seq<nat>, last: nat)
    requires ListSoFar(img, members, last, 0) && img.tail == last
    ensures List.ListOf(ListState(img), members)
  {
    var s := ListState(img);
    forall i | 0 <= i < |members|
      ensures members[i] in s.inodes && s.inodes[members[i]] == List.Links(List.Before(members, i), List.After(members, i))
    {
      assert LinkedAt(img, members, i);
    }
  }

  /**
   After the members the list goes on to what is no inode, has links, names another as its last, or
   cannot be checked; or it ends elsewhere than at the tail.
   */
  ghost predicate ListFault(img: Image, c: Checked, members: seq<nat>) {
    exists last, next ::
      && ListSoFar(img, members, last, next)
      && (if next == 0 then img.tail != last else MemberRefused(img, c, members, last, next))
  }

  ghost predicate MemberRefused(img: Image, c: Checked, members: seq<nat>, last: nat, next: nat) {
    || next >= |img.inodes| || img.inodes[next].magic == MagicOther || img.inodes[next].links > 0 || img.inodes[next].last != last
    || (Stopped(img, c, (0, next)) && Tops(c.calls) <= SetOf(members) + {0, next})
  }

  // ---------------------------------------------------------------------------
  // The verdict

  /** What has been found when the checker finds no fault. */
  ghost predicate Accepted(img: Image, c: Checked, members: seq<nat>) {
    && Settled(img, c, members) && c.conforming && List.ListOf(ListState(img), members)
    && (forall n :: 0 <= n < img.blockCount && n in img.blockBits ==> n in c.blocks)
    && (forall n :: 0 <= n < |img.inodes| && n in img.inodeBits ==> n in c.inodes)
    && (forall n :: 0 <= n < |c.links| ==> c.links[n] == 0)
    && c.allocBlocks == img.allocBlocks && c.allocInodes == img.allocInodes
  }
}
