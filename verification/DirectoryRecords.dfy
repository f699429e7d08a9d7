/**
 A directory's data: variable-length records that tile the range from 0 to the maximum
 directory size, the last one reaching all the way however short the file is.
 */
module DirectoryRecords {
  import opened Sets

  const DIRENT_SIZE := 12
  const ALIGNMENT := 4
  const MAX_NAME := 255
  const MAX_DIRECTORY := 1048572

  datatype Kind = FileKind | DirKind

  /** ino 0: the record is free. last: it reaches to the maximum directory size, whatever reclen says. */
  datatype Record = Record(ino: nat, reclen: nat, last: bool, name: string, kind: Kind)

  /** mem: what is read at each offset where a record has been written and not been overwritten since. */
  datatype Contents = Contents(mem: map<nat, Record>, size: nat)

  datatype Binding = Binding(ino: nat, kind: Kind)

  /** The two names a directory has for itself and its parent. */
  predicate DotName(name: string) {
    name == "." || name == ".."
  }

  /** The room a record with a name of the given length takes. */
  function DirentSize(nameLength: nat): (r: nat)
    ensures DIRENT_SIZE + nameLength <= r < DIRENT_SIZE + nameLength + ALIGNMENT && r % ALIGNMENT == 0
  {
    DIRENT_SIZE + (nameLength + ALIGNMENT - 1) / ALIGNMENT * ALIGNMENT
  }

  function ReservedSize(d: Record, off: nat): int {
    if d.last then MAX_DIRECTORY - off else d.reclen
  }

  predicate Free(d: Record) {
    d.ino == 0
  }

  /** How much of a record's room its own bytes take. */
  function UsedSize(d: Record): nat {
    if Free(d) then DIRENT_SIZE else DirentSize(|d.name|)
  }

  // ---------------------------------------------------------------------------
  // Writing

  /** Writing `length` bytes of record d at off destroys whatever other record had bytes there. */
  function WriteRecord(c: Contents, off: nat, d: Record, length: nat): Contents {
    Contents(
      (map o | o in c.mem && (o >= off + length || o + UsedSize(c.mem[o]) <= off) :: c.mem[o])[off := d],
      if off + length > c.size then off + length else c.size)
  }

  function Truncate(c: Contents, size: nat): Contents {
    Contents(map o | o in c.mem && o + UsedSize(c.mem[o]) <= size :: c.mem[o], size)
  }

  // ---------------------------------------------------------------------------
  // The tiling

  /** Where the records start, and which of them has which name. */
  datatype Layout = Layout(bounds: set<nat>, at: map<string, nat>)

  /** The name, which a free record keeps from when it was in use, fits into the record. */
  predicate NameFits(d: Record, room: int) {
    |d.name| <= MAX_NAME && DirentSize(|d.name|) <= room
  }

  /** Record d at off is well formed, and the next one, if there is one, starts where it ends. */
  ghost predicate Good(d: Record, off: nat, bounds: set<nat>) {
    && DirentSize(1) <= ReservedSize(d, off) && ReservedSize(d, off) % ALIGNMENT == 0
    && off + ReservedSize(d, off) <= MAX_DIRECTORY
    && NameFits(d, ReservedSize(d, off)) && (!Free(d) ==> d.name != "")
    && (d.last <==> off + ReservedSize(d, off) == MAX_DIRECTORY)
    && (!d.last ==> StartsAt(bounds, off + d.reclen))
  }

  ghost predicate StartsAt(bounds: set<nat>, off: nat) {
    off in bounds
  }

  /** The records at `bounds` chain from 0 to the maximum directory size, without gap or overlap. */
  ghost predicate Tiling(c: Contents, bounds: set<nat>) {
    && 0 in bounds
    && (forall o {:trigger o in bounds} :: o in bounds ==> o in c.mem)
    && (forall o {:trigger c.mem[o]} :: o in bounds ==> Good(c.mem[o], o, bounds) && o + UsedSize(c.mem[o]) <= c.size)
    && (forall o, p {:trigger c.mem[o], p in bounds} :: o in bounds && p in bounds && o < p ==>
          o + ReservedSize(c.mem[o], o) <= p)
  }

  /** No two free records are neighbours. */
  ghost predicate Coalesced(c: Contents, bounds: set<nat>) {
    forall o, p {:trigger c.mem[o], c.mem[p]} ::
      o in bounds && p in bounds && o in c.mem && p in c.mem && p == o + ReservedSize(c.mem[o], o) ==>
      !Free(c.mem[o]) || !Free(c.mem[p])
  }

  /** The records at these offsets are as they were. */
  ghost predicate Same(c: Contents, n: Contents, offsets: set<nat>) {
    forall o {:trigger o in n.mem} {:trigger n.mem[o]} :: o in offsets ==> o in n.mem && o in c.mem && n.mem[o] == c.mem[o]
  }

  /** Every name belongs to one live record, and every live record to its name. */
  ghost predicate Indexed(c: Contents, l: Layout) {
    && (forall k :: k in l.at ==>
          l.at[k] in l.bounds && l.at[k] in c.mem && !Free(c.mem[l.at[k]]) && c.mem[l.at[k]].name == k)
    && (forall o {:trigger c.mem[o]} :: o in l.bounds && o in c.mem && !Free(c.mem[o]) ==>
          c.mem[o].name in l.at && l.at[c.mem[o].name] == o)
  }

  ghost predicate WellFormed(c: Contents, l: Layout) {
    Tiling(c, l.bounds) && Coalesced(c, l.bounds) && Indexed(c, l)
  }

  /** The map from names to inodes that the records stand for. */
  ghost function Names(c: Contents, l: Layout): map<string, Binding>
    requires WellFormed(c, l)
  {
    map k | k in l.at :: Binding(c.mem[l.at[k]].ino, c.mem[l.at[k]].kind)
  }

  /** The layout is determined by the contents. */
  lemma {:induction false} LayoutUnique(c: Contents, l: Layout, m: Layout)
    requires WellFormed(c, l) && WellFormed(c, m)
    ensures l == m
  {
    BoundsWithin(c, l.bounds, m.bounds, 0);
    BoundsWithin(c, m.bounds, l.bounds, 0);
    assert l.bounds == m.bounds;
    forall k | k in l.at || k in m.at ensures k in l.at && k in m.at && l.at[k] == m.at[k] {
    }
    assert l.at == m.at;
  }

  /** From a common start on, the starts of the records are the same. */
  lemma {:induction false} BoundsWithin(c: Contents, b1: set<nat>, b2: set<nat>, from: nat)
    requires Tiling(c, b1) && Tiling(c, b2) && from in b1 && from in b2
    ensures forall o :: o in b1 && o >= from ==> o in b2
    decreases MAX_DIRECTORY - from
  {
    hide Good, NameFits, DirentSize;
    NextBound(c, b1, from);
    NextBound(c, b2, from);
    var d := c.mem[from];
    if d.last {
      forall o | o in b1 && o >= from ensures o == from {
        NextBound(c, b1, o);
      }
    } else {
      BoundsWithin(c, b1, b2, from + d.reclen);
      assert forall o :: o in b1 && o > from ==> from + ReservedSize(d, from) <= o;
    }
  }

  /** After a record comes the next one, or the end of the range. */
  lemma NextBound(c: Contents, bounds: set<nat>, o: nat)
    requires Tiling(c, bounds) && o in bounds
    ensures var d := c.mem[o];
            && DirentSize(1) <= ReservedSize(d, o) && ReservedSize(d, o) % ALIGNMENT == 0
            && (d.last ==> o + ReservedSize(d, o) == MAX_DIRECTORY)
            && (!d.last ==> o + d.reclen in bounds)
            && o + DIRENT_SIZE < MAX_DIRECTORY
            && UsedSize(d) <= ReservedSize(d, o) && o + UsedSize(d) <= c.size
  {
  }

  // ---------------------------------------------------------------------------
  // Putting an entry in

  /** The record at off has room for another of `length` bytes, as free space or behind its own name. */
  predicate HasRoom(d: Record, off: nat, length: nat) {
    if Free(d) then length <= ReservedSize(d, off)
    else DirentSize(|d.name|) <= ReservedSize(d, off) && length <= ReservedSize(d, off) - DirentSize(|d.name|)
  }

  /** Takes over a free record, or splits the unused end off a live one. */
  function Insert(c: Contents, off: nat, name: string, b: Binding): Contents
    requires off in c.mem && HasRoom(c.mem[off], off, DirentSize(|name|))
  {
    var d := c.mem[off];
    if Free(d) then
      WriteRecord(c, off, d.(ino := b.ino, name := name, kind := b.kind), DirentSize(|name|))
    else
      var used := DirentSize(|d.name|);
      WriteRecord(WriteRecord(c, off, d.(reclen := used, last := false), used),
                  off + used, Record(b.ino, ReservedSize(d, off) - used, d.last, name, b.kind), DirentSize(|name|))
  }

  ghost function LayoutAfterInsert(c: Contents, l: Layout, off: nat, name: string): Layout
    requires off in c.mem
  {
    if Free(c.mem[off]) then l.(at := l.at[name := off])
    else
      var end := off + DirentSize(|c.mem[off].name|);
      Layout(l.bounds + {end}, l.at[name := end])
  }

  /** A write inside one record's room leaves all other records alone. */
  lemma WriteInside(c: Contents, bounds: set<nat>, w: Contents, off: nat, d: Record, length: nat, host: nat)
    requires Tiling(c, bounds) && host in bounds && length > 0
    requires host <= off && off + length <= host + ReservedSize(c.mem[host], host)
    requires Same(c, w, bounds - {host}) && c.size <= w.size
    ensures var n := WriteRecord(w, off, d, length);
            && off in n.mem && n.mem[off] == d && n.size >= w.size && off + length <= n.size
            && Same(c, n, bounds - {host})
            && (host in w.mem && host + UsedSize(w.mem[host]) <= off ==> host in n.mem && n.mem[host] == w.mem[host])
  {
    hide Good, NameFits, DirentSize;
    forall o | o in bounds - {host}
      ensures o in w.mem && o in c.mem && (o >= off + length || o + UsedSize(c.mem[o]) <= off) && o != off
    {
      assert o in w.mem;
      UsedFits(c, bounds, o);
    }
  }

  lemma UsedFits(c: Contents, bounds: set<nat>, o: nat)
    requires Tiling(c, bounds) && o in bounds
    ensures DIRENT_SIZE <= UsedSize(c.mem[o]) <= ReservedSize(c.mem[o], o) && o + UsedSize(c.mem[o]) <= c.size
  {
  }

  lemma SameSelf(c: Contents, bounds: set<nat>, off: nat)
    requires Tiling(c, bounds)
    ensures Same(c, c, bounds - {off})
  {
    hide Good;
  }

  /** A record over the same extent is as good. */
  lemma GoodTaken(d: Record, e: Record, off: nat, bounds: set<nat>)
    requires Good(d, off, bounds) && e.reclen == d.reclen && e.last == d.last
    requires NameFits(e, ReservedSize(d, off)) && (!Free(e) ==> e.name != "")
    ensures Good(e, off, bounds)
  {
  }

  /** Putting another record of the same extent at off keeps the tiling. */
  lemma ReplaceTiles(c: Contents, bounds: set<nat>, n: Contents, off: nat)
    requires Tiling(c, bounds) && off in bounds && off in n.mem && Good(n.mem[off], off, bounds)
    requires n.mem[off].reclen == c.mem[off].reclen && n.mem[off].last == c.mem[off].last
    requires off + UsedSize(n.mem[off]) <= n.size && c.size <= n.size
    requires Same(c, n, bounds - {off})
    ensures Tiling(n, bounds)
  {
    hide DirentSize, NameFits, Good;
    forall o | o in bounds ensures o in n.mem {
      assert o == off || o in bounds - {off};
    }
  }

  // ---- into a free record

  lemma InsertFree(c: Contents, l: Layout, off: nat, name: string, b: Binding)
    requires WellFormed(c, l) && off in l.bounds && Free(c.mem[off])
    requires HasRoom(c.mem[off], off, DirentSize(|name|)) && 1 <= |name| <= MAX_NAME && b.ino != 0
    requires name !in l.at
    ensures var n, m := Insert(c, off, name, b), l.(at := l.at[name := off]);
            WellFormed(n, m) && Names(n, m) == Names(c, l)[name := b] && Same(c, n, l.bounds - {off})
  {
    hide DirentSize, WriteRecord, Good, Insert, Tiling, Coalesced, Indexed, Same;
    InsertTakes(c, l.bounds, off, name, b);
    var n := Insert(c, off, name, b);
    ReplaceTiles(c, l.bounds, n, off);
    LiveAt(c, l, off, n, n.mem[off]);
    NamesAfter(c, l, n, l.(at := l.at[name := off]), name, b);
  }

  lemma InsertTakes(c: Contents, bounds: set<nat>, off: nat, name: string, b: Binding)
    requires Tiling(c, bounds) && off in bounds && Free(c.mem[off])
    requires HasRoom(c.mem[off], off, DirentSize(|name|)) && 1 <= |name| <= MAX_NAME && b.ino != 0
    ensures off in c.mem
    ensures var n, d := Insert(c, off, name, b), c.mem[off].(ino := b.ino, name := name, kind := b.kind);
            && Good(d, off, bounds) && off in n.mem && n.mem[off] == d && off + UsedSize(d) <= n.size && c.size <= n.size
            && Same(c, n, bounds - {off})
  {
    hide Good, Same;
    var d := c.mem[off].(ino := b.ino, name := name, kind := b.kind);
    GoodTaken(c.mem[off], d, off, bounds);
    SameSelf(c, bounds, off);
    WriteInside(c, bounds, c, off, d, DirentSize(|name|), off);
  }

  /** One more live record, not where one was. */
  lemma LiveAt(c: Contents, l: Layout, off: nat, n: Contents, d: Record)
    requires Tiling(c, l.bounds) && Coalesced(c, l.bounds) && Indexed(c, l) && off in l.bounds && Free(c.mem[off])
    requires off in n.mem && n.mem[off] == d && !Free(d) && d.name !in l.at
    requires ReservedSize(d, off) == ReservedSize(c.mem[off], off)
    requires Same(c, n, l.bounds - {off})
    ensures Coalesced(n, l.bounds) && Indexed(n, l.(at := l.at[d.name := off]))
    ensures forall k :: k in l.at ==> l.at[k] in n.mem && n.mem[l.at[k]] == c.mem[l.at[k]]
  {
    hide Good, NameFits, DirentSize;
  }

  /** The map after one name has been given to a record and the others have been kept. */
  lemma NamesAfter(c: Contents, l: Layout, n: Contents, m: Layout, name: string, b: Binding)
    requires WellFormed(c, l) && WellFormed(n, m)
    requires name in m.at && m.at == l.at[name := m.at[name]]
    requires m.at[name] in n.mem && Binding(n.mem[m.at[name]].ino, n.mem[m.at[name]].kind) == b
    requires forall k :: k in l.at && k != name ==>
               l.at[k] in n.mem && n.mem[l.at[k]].ino == c.mem[l.at[k]].ino && n.mem[l.at[k]].kind == c.mem[l.at[k]].kind
    ensures Names(n, m) == Names(c, l)[name := b]
  {
    hide Tiling, Coalesced;
  }

  // ---- behind a live record

  /** The same name, inode and kind, perhaps with another extent. */
  predicate SameEntry(d: Record, e: Record) {
    d.ino == e.ino && d.name == e.name && d.kind == e.kind
  }

  /** The live record at off has been cut to its own size and a new one put behind it, at end. */
  ghost predicate Split(c: Contents, n: Contents, off: nat, end: nat) {
    && off in c.mem && off in n.mem && end in n.mem
    && end == off + DirentSize(|c.mem[off].name|) && DirentSize(1) <= end - off
    && n.mem[off] == c.mem[off].(reclen := end - off, last := false)
    && n.mem[end].last == c.mem[off].last && n.mem[end].reclen == off + ReservedSize(c.mem[off], off) - end
    && !Free(n.mem[end]) && 1 <= |n.mem[end].name| <= MAX_NAME
    && end + DirentSize(|n.mem[end].name|) <= off + ReservedSize(c.mem[off], off)
    && end + DirentSize(|n.mem[end].name|) <= n.size && c.size <= n.size
  }

  ghost predicate SplitFor(c: Contents, n: Contents, off: nat, end: nat, name: string, b: Binding) {
    Split(c, n, off, end) && n.mem[end].name == name && Binding(n.mem[end].ino, n.mem[end].kind) == b
  }

  lemma InsertSplit(c: Contents, l: Layout, off: nat, name: string, b: Binding)
    requires WellFormed(c, l) && off in l.bounds && !Free(c.mem[off])
    requires HasRoom(c.mem[off], off, DirentSize(|name|)) && 1 <= |name| <= MAX_NAME && b.ino != 0
    requires name !in l.at
    ensures var n, m := Insert(c, off, name, b), LayoutAfterInsert(c, l, off, name);
            && WellFormed(n, m) && Names(n, m) == Names(c, l)[name := b]
            && off in n.mem && SameEntry(c.mem[off], n.mem[off]) && Same(c, n, l.bounds - {off})
  {
    hide DirentSize, WriteRecord, Good, Insert, Tiling, Coalesced, Indexed, Same;
    InFile(c, l.bounds, off);
    SplitTakes(c, l.bounds, off, name, b);
    var n, end := Insert(c, off, name, b), off + DirentSize(|c.mem[off].name|);
    SplitTiles(c, l.bounds, n, off, end);
    SplitIndexed(c, l, n, off, end);
    NamesAfter(c, l, n, Layout(l.bounds + {end}, l.at[name := end]), name, b);
  }

  lemma InFile(c: Contents, bounds: set<nat>, off: nat)
    requires Tiling(c, bounds) && off in bounds
    ensures off in c.mem
  {
  }

  lemma SplitTakes(c: Contents, bounds: set<nat>, off: nat, name: string, b: Binding)
    requires off in c.mem && !Free(c.mem[off]) && HasRoom(c.mem[off], off, DirentSize(|name|))
    requires 1 <= |name| <= MAX_NAME && b.ino != 0
    requires Tiling(c, bounds) && off in bounds
    ensures var n, end := Insert(c, off, name, b), off + DirentSize(|c.mem[off].name|);
            SplitFor(c, n, off, end, name, b) && Same(c, n, bounds - {off})
  {
    hide Tiling, Same, DirentSize, WriteRecord;
    var d, used := c.mem[off], DirentSize(|c.mem[off].name|);
    LiveSize(c, bounds, off);
    SameSelf(c, bounds, off);
    WriteInside(c, bounds, c, off, d.(reclen := used, last := false), used, off);
    var w := WriteRecord(c, off, d.(reclen := used, last := false), used);
    WriteInside(c, bounds, w, off + used, Record(b.ino, ReservedSize(d, off) - used, d.last, name, b.kind),
                DirentSize(|name|), off);
  }

  lemma LiveSize(c: Contents, bounds: set<nat>, off: nat)
    requires Tiling(c, bounds) && off in bounds && !Free(c.mem[off])
    ensures off in c.mem && 1 <= |c.mem[off].name| <= MAX_NAME
    ensures DirentSize(1) <= DirentSize(|c.mem[off].name|) <= ReservedSize(c.mem[off], off)
  {
    hide DirentSize;
    SizeMonotone(|c.mem[off].name|);
  }

  lemma SplitTiles(c: Contents, bounds: set<nat>, n: Contents, off: nat, end: nat)
    requires Tiling(c, bounds) && off in bounds && Split(c, n, off, end) && !Free(c.mem[off])
    requires Same(c, n, bounds - {off})
    ensures Tiling(n, bounds + {end})
  {
    hide Good, NameFits, DirentSize, Split;
    SplitGood(c, bounds, n, off, end);
    AllGoodIn(c, bounds, bounds + {end});
    SplitOrder(c, bounds, n, off, end);
    SplitSizes(c, n, off, end);
    var after := bounds + {end};
    forall o | o in after ensures o in n.mem && Good(n.mem[o], o, after) && o + UsedSize(n.mem[o]) <= n.size {
      if o != off && o != end {
        assert o in bounds - {off} && o in n.mem && n.mem[o] == c.mem[o];
      }
    }
  }

  lemma SplitSizes(c: Contents, n: Contents, off: nat, end: nat)
    requires Split(c, n, off, end)
    ensures off in n.mem && end in n.mem && end + UsedSize(n.mem[end]) <= n.size && c.size <= n.size
  {
    hide DirentSize;
  }

  lemma SplitGood(c: Contents, bounds: set<nat>, n: Contents, off: nat, end: nat)
    requires Tiling(c, bounds) && off in bounds && Split(c, n, off, end) && !Free(c.mem[off])
    ensures Good(n.mem[off], off, bounds + {end}) && Good(n.mem[end], end, bounds + {end})
    ensures end + ReservedSize(n.mem[end], end) == off + ReservedSize(c.mem[off], off) && off < end
    ensures off + ReservedSize(n.mem[off], off) == end && off + UsedSize(n.mem[off]) <= n.size
  {
    hide Good, NameFits, DirentSize;
    var d := c.mem[off];
    HalvesGood(d, n.mem[off], n.mem[end], off, end, bounds);
    NextBound(c, bounds, off);
  }

  lemma HalvesGood(d: Record, d1: Record, d2: Record, off: nat, end: nat, bounds: set<nat>)
    requires Good(d, off, bounds) && !Free(d) && end == off + DirentSize(|d.name|)
    requires d1 == d.(reclen := end - off, last := false) && DirentSize(1) <= end - off
    requires d2.last == d.last && d2.reclen == off + ReservedSize(d, off) - end
    requires !Free(d2) && 1 <= |d2.name| <= MAX_NAME && end + DirentSize(|d2.name|) <= off + ReservedSize(d, off)
    ensures Good(d1, off, bounds + {end}) && Good(d2, end, bounds + {end})
    ensures end + ReservedSize(d2, end) == off + ReservedSize(d, off)
  {
    SizeMonotone(|d2.name|);
  }

  lemma SizeMonotone(length: nat)
    requires 1 <= length
    ensures DirentSize(1) <= DirentSize(length)
  {
  }

  lemma AllGoodIn(c: Contents, a: set<nat>, b: set<nat>)
    requires Tiling(c, a) && a <= b
    ensures forall o {:trigger c.mem[o]} :: o in a ==> Good(c.mem[o], o, b) && o + UsedSize(c.mem[o]) <= c.size
  {
  }

  lemma SplitOrder(c: Contents, bounds: set<nat>, n: Contents, off: nat, end: nat)
    requires Tiling(c, bounds) && off in bounds && Split(c, n, off, end) && off < end
    requires Same(c, n, bounds - {off})
    requires end + ReservedSize(n.mem[end], end) == off + ReservedSize(c.mem[off], off)
    requires off + ReservedSize(n.mem[off], off) == end
    ensures forall o, p {:trigger n.mem[o], p in bounds + {end}} :: o in bounds + {end} && p in bounds + {end} && o < p ==>
              o in n.mem && o + ReservedSize(n.mem[o], o) <= p
  {
    hide Good, NameFits, DirentSize, UsedSize;
    UsedFits(c, bounds, off);
    forall o, p | o in bounds + {end} && p in bounds + {end} && o < p
      ensures o in n.mem && o + ReservedSize(n.mem[o], o) <= p
    {
      if o != off && o != end {
        assert o in n.mem && n.mem[o] == c.mem[o];
      }
    }
  }

  lemma SplitIndexed(c: Contents, l: Layout, n: Contents, off: nat, end: nat)
    requires Tiling(c, l.bounds) && Coalesced(c, l.bounds) && Indexed(c, l) && off in l.bounds
    requires Split(c, n, off, end) && !Free(c.mem[off]) && n.mem[end].name !in l.at
    requires Tiling(n, l.bounds + {end}) && Same(c, n, l.bounds - {off})
    ensures var m := Layout(l.bounds + {end}, l.at[n.mem[end].name := end]);
            && Coalesced(n, m.bounds) && Indexed(n, m)
            && forall k :: k in l.at ==> l.at[k] in n.mem && SameEntry(n.mem[l.at[k]], c.mem[l.at[k]])
  {
    hide Good, NameFits, DirentSize;
    assert end !in l.bounds;
    forall o | o in l.bounds + {end} ensures o in n.mem && (o == off || o == end || (o in c.mem && n.mem[o] == c.mem[o])) {
    }
    SplitNames(c, l, n, off, end);
  }

  lemma SplitNames(c: Contents, l: Layout, n: Contents, off: nat, end: nat)
    requires off in c.mem && Indexed(c, l) && off in l.bounds && end !in l.bounds
    requires Split(c, n, off, end) && !Free(c.mem[off]) && n.mem[end].name !in l.at
    requires forall o :: o in l.bounds ==> o in c.mem
    requires forall o :: o in l.bounds + {end} ==> o in n.mem && (o == off || o == end || (o in c.mem && n.mem[o] == c.mem[o]))
    ensures Indexed(n, Layout(l.bounds + {end}, l.at[n.mem[end].name := end]))
  {
    hide DirentSize;
    var m := Layout(l.bounds + {end}, l.at[n.mem[end].name := end]);
    forall k | k in m.at
      ensures m.at[k] in m.bounds && m.at[k] in n.mem && !Free(n.mem[m.at[k]]) && n.mem[m.at[k]].name == k
    {
      if k != n.mem[end].name {
        assert k in l.at && l.at[k] in l.bounds;
      }
    }
    forall o | o in m.bounds && o in n.mem && !Free(n.mem[o]) ensures n.mem[o].name in m.at && m.at[n.mem[o].name] == o {
      if o != end {
        assert o in l.bounds && c.mem[o].name in l.at;
      }
    }
  }

  // ---------------------------------------------------------------------------
  // Taking an entry out

  /** Where the free record that results from removing the one at off starts ... */
  function MergeStart(c: Contents, off: nat, offPrev: nat): nat {
    if offPrev != off && offPrev in c.mem && Free(c.mem[offPrev]) then offPrev else off
  }

  predicate MergesNext(c: Contents, off: nat)
    requires off in c.mem
  {
    var d := c.mem[off];
    !d.last && off + d.reclen in c.mem && Free(c.mem[off + d.reclen])
  }

  /** ... and where it ends. */
  function MergeEnd(c: Contents, off: nat): int
    requires off in c.mem
  {
    var next := off + ReservedSize(c.mem[off], off);
    if MergesNext(c, off) then next + ReservedSize(c.mem[next], next) else next
  }

  function MergesLast(c: Contents, off: nat): bool
    requires off in c.mem
  {
    c.mem[off].last || (MergesNext(c, off) && c.mem[off + c.mem[off].reclen].last)
  }

  /** Frees the record at off, joined with free neighbours; what follows a last free header is cut off. */
  function Remove(c: Contents, off: nat, offPrev: nat): Contents
    requires off in c.mem && MergeEnd(c, off) >= MergeStart(c, off, offPrev)
  {
    var q := MergeStart(c, off, offPrev);
    var w := WriteRecord(c, q, c.mem[off].(ino := 0, reclen := MergeEnd(c, off) - q, last := MergesLast(c, off)), DIRENT_SIZE);
    if MergesLast(c, off) then Truncate(w, q + DIRENT_SIZE) else w
  }

  /** The starts that are left when the records between q and z have become one. */
  ghost function Merged(bounds: set<nat>, q: nat, z: int): set<nat> {
    set o | o in bounds && (o <= q || o >= z)
  }

  ghost function LayoutAfterRemove(c: Contents, l: Layout, off: nat, offPrev: nat): Layout
    requires off in c.mem
  {
    Layout(Merged(l.bounds, MergeStart(c, off, offPrev), MergeEnd(c, off)), l.at - {c.mem[off].name})
  }

  /** offPrev is the start of the record before the one at off, or off itself if that is the first. */
  ghost predicate Previous(c: Contents, bounds: set<nat>, off: nat, offPrev: nat) {
    if off == 0 then offPrev == 0
    else offPrev in bounds && offPrev in c.mem && offPrev + ReservedSize(c.mem[offPrev], offPrev) == off && offPrev < off
  }

  /** From q up to z there is only the record at off and free ones, and no free one borders on them. */
  ghost predicate Mergeable(c: Contents, bounds: set<nat>, off: nat, q: nat, z: int, last: bool) {
    && q in bounds && q <= off < z && DirentSize(1) <= z - q && (z - q) % ALIGNMENT == 0
    && (if last then z == MAX_DIRECTORY else z in bounds && z < MAX_DIRECTORY)
    && (forall o {:trigger c.mem[o]} :: o in bounds && o in c.mem ==>
          && (q <= o < z && o != off ==> Free(c.mem[o]))
          && (o + ReservedSize(c.mem[o], o) == q || o == z ==> !Free(c.mem[o])))
  }

  lemma MergeRange(c: Contents, l: Layout, off: nat, offPrev: nat)
    requires WellFormed(c, l) && off in l.bounds && !Free(c.mem[off]) && Previous(c, l.bounds, off, offPrev)
    ensures off in c.mem && Mergeable(c, l.bounds, off, MergeStart(c, off, offPrev), MergeEnd(c, off), MergesLast(c, off))
  {
    hide Good, NameFits, DirentSize, Indexed, Coalesced, Tiling, MergeStart, MergeEnd, MergesLast;
    InFile(c, l.bounds, off);
    var q, z := MergeStart(c, off, offPrev), MergeEnd(c, off);
    MergeExtent(c, l.bounds, off, offPrev);
    forall o | o in l.bounds && o in c.mem
      ensures q <= o < z && o != off ==> Free(c.mem[o])
      ensures o + ReservedSize(c.mem[o], o) == q || o == z ==> !Free(c.mem[o])
    {
      MergeAt(c, l.bounds, off, offPrev, o);
    }
  }

  lemma MergeExtent(c: Contents, bounds: set<nat>, off: nat, offPrev: nat)
    requires Tiling(c, bounds) && off in bounds && Previous(c, bounds, off, offPrev)
    ensures off in c.mem
    ensures var q, z := MergeStart(c, off, offPrev), MergeEnd(c, off);
            && q in bounds && q <= off < z && DirentSize(1) <= z - q && (z - q) % ALIGNMENT == 0
            && (if MergesLast(c, off) then z == MAX_DIRECTORY else z in bounds && z < MAX_DIRECTORY)
  {
    hide Good, NameFits, DirentSize, MergeEnd, MergesLast, Tiling;
    MergeExtentEnd(c, bounds, off);
    if off != 0 {
      NextBound(c, bounds, offPrev);
    }
  }

  lemma MergeExtentEnd(c: Contents, bounds: set<nat>, off: nat)
    requires Tiling(c, bounds) && off in bounds
    ensures off in c.mem
    ensures var z := MergeEnd(c, off);
            && off < z && DirentSize(1) <= z - off && (z - off) % ALIGNMENT == 0
            && (if MergesLast(c, off) then z == MAX_DIRECTORY else z in bounds && z < MAX_DIRECTORY)
  {
    hide Good, NameFits, DirentSize, Tiling;
    InFile(c, bounds, off);
    NextBound(c, bounds, off);
    if !c.mem[off].last {
      var next := off + c.mem[off].reclen;
      InFile(c, bounds, next);
      NextBound(c, bounds, next);
      if !c.mem[next].last {
        InFile(c, bounds, next + c.mem[next].reclen);
        NextBound(c, bounds, next + c.mem[next].reclen);
      }
    }
  }

  lemma MergeAt(c: Contents, bounds: set<nat>, off: nat, offPrev: nat, o: nat)
    requires Tiling(c, bounds) && Coalesced(c, bounds) && off in bounds && !Free(c.mem[off])
    requires Previous(c, bounds, off, offPrev) && o in bounds
    ensures off in c.mem && o in c.mem
    ensures var q, z := MergeStart(c, off, offPrev), MergeEnd(c, off);
            && (q <= o < z && o != off ==> Free(c.mem[o]))
            && (o + ReservedSize(c.mem[o], o) == q || o == z ==> !Free(c.mem[o]))
  {
    hide Good, NameFits, DirentSize, Tiling, MergeStart, MergeEnd;
    InFile(c, bounds, off);
    InFile(c, bounds, o);
    MergeExtent(c, bounds, off, offPrev);
    NextBound(c, bounds, o);
    if o < off {
      MergeBefore(c, bounds, off, offPrev, o);
    } else if o > off {
      MergeAfter(c, bounds, off, o);
    }
  }

  lemma MergeBefore(c: Contents, bounds: set<nat>, off: nat, offPrev: nat, o: nat)
    requires Tiling(c, bounds) && Coalesced(c, bounds) && off in bounds && Previous(c, bounds, off, offPrev) && o in bounds
    requires o < off
    ensures var q := MergeStart(c, off, offPrev);
            (q <= o ==> Free(c.mem[o])) && (o + ReservedSize(c.mem[o], o) == q ==> !Free(c.mem[o]))
  {
    hide Good, NameFits, DirentSize;
    NextBound(c, bounds, o);
    NextBound(c, bounds, offPrev);
    MergeNeighbour(c, bounds, off, offPrev, o);
  }

  lemma MergeAfter(c: Contents, bounds: set<nat>, off: nat, o: nat)
    requires Tiling(c, bounds) && Coalesced(c, bounds) && off in bounds && o in bounds && o > off && !Free(c.mem[off])
    ensures var z := MergeEnd(c, off); (o < z ==> Free(c.mem[o])) && (o == z ==> !Free(c.mem[o]))
    ensures o >= off + ReservedSize(c.mem[off], off)
  {
    hide Good, NameFits, DirentSize;
    NextBound(c, bounds, off);
    NextBound(c, bounds, o);
    var next: nat := off + ReservedSize(c.mem[off], off);
    assert o >= next;
    if next in bounds {
      NextBound(c, bounds, next);
      assert o == next || o >= next + ReservedSize(c.mem[next], next);
    }
  }

  /** Where another record can be, seen from the one at off. */
  lemma MergeNeighbour(c: Contents, bounds: set<nat>, off: nat, offPrev: nat, o: nat)
    requires Tiling(c, bounds) && off in bounds && Previous(c, bounds, off, offPrev) && o in bounds && o != off
    ensures var next := off + ReservedSize(c.mem[off], off);
            && (o < off ==> off != 0 && (o == offPrev || o + ReservedSize(c.mem[o], o) <= offPrev))
            && (o > off ==> o >= next && (next in bounds && o != next ==> o >= next + ReservedSize(c.mem[next], next)))
  {
    hide Good, NameFits, DirentSize;
  }

  /** Replacing the records from q up to z by one free record keeps the tiling. */
  lemma MergeTiles(c: Contents, bounds: set<nat>, n: Contents, off: nat, q: nat, z: nat)
    requires Tiling(c, bounds) && q in n.mem && Mergeable(c, bounds, off, q, z, n.mem[q].last)
    requires Free(n.mem[q]) && n.mem[q].reclen == z - q && q + DIRENT_SIZE <= n.size && NameFits(n.mem[q], z - q)
    requires Same(c, n, Merged(bounds, q, z) - {q})
    requires forall o {:trigger c.mem[o]} :: o in Merged(bounds, q, z) - {q} && o in c.mem ==> o + UsedSize(c.mem[o]) <= n.size
    ensures Tiling(n, Merged(bounds, q, z))
  {
    hide Good, NameFits, DirentSize, Mergeable;
    MergeableParts(c, bounds, off, q, z, n.mem[q].last);
    MergeGood(c, bounds, n.mem[q], off, q, z);
    MergeOrder(c, bounds, n, off, q, z);
    var after := Merged(bounds, q, z);
    forall o | o in after ensures o in n.mem {
      assert o == q || o in after - {q};
    }
    assert 0 in after;
  }

  lemma MergeableParts(c: Contents, bounds: set<nat>, off: nat, q: nat, z: int, last: bool)
    requires Mergeable(c, bounds, off, q, z, last)
    ensures q in bounds && q <= off < z
  {
  }

  lemma MergeGood(c: Contents, bounds: set<nat>, e: Record, off: nat, q: nat, z: nat)
    requires Tiling(c, bounds) && Mergeable(c, bounds, off, q, z, e.last) && Free(e) && e.reclen == z - q
    requires NameFits(e, z - q)
    ensures Good(e, q, Merged(bounds, q, z))
    ensures forall o {:trigger c.mem[o]} :: o in Merged(bounds, q, z) - {q} ==> o in c.mem && Good(c.mem[o], o, Merged(bounds, q, z))
    ensures q + ReservedSize(e, q) == z
  {
    hide Good, NameFits, DirentSize;
    var after := Merged(bounds, q, z);
    forall o | o in after - {q} ensures o in c.mem && Good(c.mem[o], o, after) {
      NextBound(c, bounds, o);
      GoodIn(c.mem[o], o, bounds, after);
    }
    NewGood(e, q, z, after);
  }

  lemma GoodIn(d: Record, off: nat, a: set<nat>, b: set<nat>)
    requires Good(d, off, a) && (!d.last ==> off + d.reclen in b)
    ensures Good(d, off, b)
  {
  }

  lemma NewGood(e: Record, q: nat, z: nat, after: set<nat>)
    requires Free(e) && e.reclen == z - q && NameFits(e, z - q) && DirentSize(1) <= z - q && (z - q) % ALIGNMENT == 0
    requires if e.last then z == MAX_DIRECTORY else z in after && z < MAX_DIRECTORY
    ensures Good(e, q, after) && q + ReservedSize(e, q) == z
  {
  }

  lemma MergeOrder(c: Contents, bounds: set<nat>, n: Contents, off: nat, q: nat, z: nat)
    requires Tiling(c, bounds) && q in n.mem && Mergeable(c, bounds, off, q, z, n.mem[q].last)
    requires q + ReservedSize(n.mem[q], q) == z && Same(c, n, Merged(bounds, q, z) - {q})
    ensures var after := Merged(bounds, q, z);
            forall o, p {:trigger n.mem[o], p in after} :: o in after && p in after && o < p ==>
              o in n.mem && o + ReservedSize(n.mem[o], o) <= p
  {
    hide Good, NameFits, DirentSize;
    var after := Merged(bounds, q, z);
    forall o, p | o in after && p in after && o < p ensures o in n.mem && o + ReservedSize(n.mem[o], o) <= p {
      if o != q {
        assert o in n.mem && n.mem[o] == c.mem[o];
      }
    }
  }

  lemma MergeIndexed(c: Contents, l: Layout, n: Contents, off: nat, q: nat, z: nat)
    requires Tiling(c, l.bounds) && Coalesced(c, l.bounds) && Indexed(c, l) && off in l.bounds && !Free(c.mem[off])
    requires q in n.mem && Mergeable(c, l.bounds, off, q, z, n.mem[q].last)
    requires Free(n.mem[q]) && q + ReservedSize(n.mem[q], q) == z
    requires Same(c, n, Merged(l.bounds, q, z) - {q})
    ensures var m := Layout(Merged(l.bounds, q, z), l.at - {c.mem[off].name});
            && Coalesced(n, m.bounds) && Indexed(n, m)
            && forall k :: k in m.at ==> l.at[k] in n.mem && n.mem[l.at[k]] == c.mem[l.at[k]]
  {
    hide Good, NameFits, DirentSize;
    var after := Merged(l.bounds, q, z);
    forall o | o in after && o != q ensures o in n.mem && o in c.mem && n.mem[o] == c.mem[o] {
      assert o in n.mem;
    }
    MergeNames(c, l, n, off, q, z, after);
    hide Indexed;
  }

  lemma MergeNames(c: Contents, l: Layout, n: Contents, off: nat, q: nat, z: nat, after: set<nat>)
    requires off in c.mem && Indexed(c, l) && off in l.bounds && !Free(c.mem[off]) && after == Merged(l.bounds, q, z)
    requires q in n.mem && Mergeable(c, l.bounds, off, q, z, n.mem[q].last) && Free(n.mem[q])
    requires forall o :: o in after && o != q ==> o in n.mem && o in c.mem && n.mem[o] == c.mem[o]
    ensures Indexed(n, Layout(after, l.at - {c.mem[off].name}))
    ensures forall k :: k in l.at && k != c.mem[off].name ==> l.at[k] in n.mem && l.at[k] in c.mem && n.mem[l.at[k]] == c.mem[l.at[k]]
  {
    hide DirentSize;
    forall k | k in l.at && k != c.mem[off].name
      ensures l.at[k] in after && l.at[k] != q && l.at[k] in n.mem && l.at[k] in c.mem && n.mem[l.at[k]] == c.mem[l.at[k]]
    {
      assert l.at[k] != off;
    }
  }

  /** Removing an entry is map removal; no other record moves. */
  lemma RemoveKeeps(c: Contents, l: Layout, off: nat, offPrev: nat)
    requires WellFormed(c, l) && off in l.bounds && !Free(c.mem[off]) && Previous(c, l.bounds, off, offPrev)
    ensures off in c.mem && MergeEnd(c, off) >= MergeStart(c, off, offPrev)
    ensures var n, m := Remove(c, off, offPrev), LayoutAfterRemove(c, l, off, offPrev);
            && WellFormed(n, m) && Names(n, m) == Names(c, l) - {c.mem[off].name}
            && forall k :: k in m.at ==> m.at[k] == l.at[k] && l.at[k] in n.mem && n.mem[l.at[k]] == c.mem[l.at[k]]
  {
    hide DirentSize, NameFits, Good, Coalesced, Indexed, Tiling, Remove, Same;
    MergeRange(c, l, off, offPrev);
    var q, z := MergeStart(c, off, offPrev), MergeEnd(c, off);
    RemoveWrites(c, l.bounds, off, offPrev);
    var n := Remove(c, off, offPrev);
    NameStillFits(c, l.bounds, off, offPrev, n.mem[q]);
    MergeTiles(c, l.bounds, n, off, q, z);
    NextBound(n, Merged(l.bounds, q, z), q);
    MergeIndexed(c, l, n, off, q, z);
  }

  lemma NameStillFits(c: Contents, bounds: set<nat>, off: nat, offPrev: nat, e: Record)
    requires Tiling(c, bounds) && off in bounds && e.name == c.mem[off].name && Previous(c, bounds, off, offPrev)
    ensures off in c.mem && NameFits(e, MergeEnd(c, off) - MergeStart(c, off, offPrev))
  {
    hide Good, DirentSize, Tiling, MergeEnd, NameFits;
    MergeExtent(c, bounds, off, offPrev);
    RoomGrows(c, bounds, off);
    NameHadRoom(c, bounds, off);
    MoreRoom(c.mem[off], e, ReservedSize(c.mem[off], off), MergeEnd(c, off) - MergeStart(c, off, offPrev));
  }

  lemma MoreRoom(d: Record, e: Record, room: int, more: int)
    requires NameFits(d, room) && e.name == d.name && room <= more
    ensures NameFits(e, more)
  {
  }

  lemma NameHadRoom(c: Contents, bounds: set<nat>, off: nat)
    requires Tiling(c, bounds) && off in bounds
    ensures off in c.mem && NameFits(c.mem[off], ReservedSize(c.mem[off], off))
  {
    hide NameFits, DirentSize;
  }

  lemma RoomGrows(c: Contents, bounds: set<nat>, off: nat)
    requires Tiling(c, bounds) && off in bounds
    ensures off in c.mem && MergeEnd(c, off) >= off + ReservedSize(c.mem[off], off)
  {
    hide Good, DirentSize, Tiling;
    InFile(c, bounds, off);
    NextBound(c, bounds, off);
    if !c.mem[off].last {
      var next := off + c.mem[off].reclen;
      InFile(c, bounds, next);
      NextBound(c, bounds, next);
    }
  }

  lemma RemoveWrites(c: Contents, bounds: set<nat>, off: nat, offPrev: nat)
    requires Tiling(c, bounds) && off in c.mem && !Free(c.mem[off])
    requires Mergeable(c, bounds, off, MergeStart(c, off, offPrev), MergeEnd(c, off), MergesLast(c, off))
    ensures var n, q, z := Remove(c, off, offPrev), MergeStart(c, off, offPrev), MergeEnd(c, off);
            && q in n.mem && Free(n.mem[q]) && n.mem[q].last == MergesLast(c, off) && n.mem[q].reclen == z - q
            && q + DIRENT_SIZE <= n.size && q + ReservedSize(n.mem[q], q) == z && n.mem[q].name == c.mem[off].name
            && Same(c, n, Merged(bounds, q, z) - {q})
            && forall o {:trigger c.mem[o]} :: o in Merged(bounds, q, z) - {q} && o in c.mem ==> o + UsedSize(c.mem[o]) <= n.size
  {
    hide Good, NameFits, DirentSize;
    var q, z := MergeStart(c, off, offPrev), MergeEnd(c, off);
    forall o | o in Merged(bounds, q, z) - {q}
      ensures o in c.mem && (o >= q + DIRENT_SIZE || o + UsedSize(c.mem[o]) <= q) && o + UsedSize(c.mem[o]) <= c.size
      ensures MergesLast(c, off) ==> o < q
    {
      UsedFits(c, bounds, o);
      NextBound(c, bounds, o);
    }
  }

  // ---------------------------------------------------------------------------
  // Replacing the inode of an entry

  function Retarget(c: Contents, off: nat, ino: nat): Contents
    requires off in c.mem
  {
    WriteRecord(c, off, c.mem[off].(ino := ino), DirentSize(|c.mem[off].name|))
  }

  lemma RetargetKeeps(c: Contents, l: Layout, off: nat, ino: nat)
    requires WellFormed(c, l) && off in l.bounds && !Free(c.mem[off]) && ino != 0
    ensures off in c.mem
    ensures var n, d := Retarget(c, off, ino), c.mem[off];
            && WellFormed(n, l) && Names(n, l) == Names(c, l)[d.name := Binding(ino, d.kind)]
            && Same(c, n, l.bounds - {off}) && off in n.mem && n.mem[off] == d.(ino := ino)
  {
    hide DirentSize, WriteRecord, Good, Tiling, Coalesced, Indexed, Retarget, Same;
    RetargetTakes(c, l.bounds, off, ino);
    var n, d := Retarget(c, off, ino), c.mem[off].(ino := ino);
    ReplaceTiles(c, l.bounds, n, off);
    RetargetIndexed(c, l, off, n, d);
    NamesAfter(c, l, n, l, d.name, Binding(ino, d.kind));
  }

  lemma RetargetTakes(c: Contents, bounds: set<nat>, off: nat, ino: nat)
    requires Tiling(c, bounds) && off in bounds && !Free(c.mem[off]) && ino != 0
    ensures off in c.mem
    ensures var n, d := Retarget(c, off, ino), c.mem[off].(ino := ino);
            && Good(d, off, bounds) && off in n.mem && n.mem[off] == d && off + UsedSize(d) <= n.size && c.size <= n.size
            && Same(c, n, bounds - {off})
  {
    hide Same;
    var d := c.mem[off].(ino := ino);
    LiveSize(c, bounds, off);
    GoodTaken(c.mem[off], d, off, bounds);
    SameSelf(c, bounds, off);
    WriteInside(c, bounds, c, off, d, DirentSize(|d.name|), off);
  }

  lemma RetargetIndexed(c: Contents, l: Layout, off: nat, n: Contents, d: Record)
    requires Tiling(c, l.bounds) && Coalesced(c, l.bounds) && Indexed(c, l) && off in l.bounds && !Free(c.mem[off])
    requires off in n.mem && n.mem[off] == d && !Free(d) && d.name == c.mem[off].name
    requires ReservedSize(d, off) == ReservedSize(c.mem[off], off)
    requires Same(c, n, l.bounds - {off})
    ensures Coalesced(n, l.bounds) && Indexed(n, l) && d.name in l.at && l.at[d.name] == off
    ensures forall k :: k in l.at && k != d.name ==> l.at[k] in n.mem && n.mem[l.at[k]] == c.mem[l.at[k]]
  {
    hide Good, NameFits, DirentSize;
  }

  // ---------------------------------------------------------------------------
  // Where the directory ends

  /** The size ends with the last record: with its name, or with its header if it is free. */
  ghost predicate EndsWithLast(c: Contents, bounds: set<nat>) {
    forall o :: o in bounds && o in c.mem && c.mem[o].last ==> c.size == o + UsedSize(c.mem[o])
  }

  /** There is one last record, and all of another lies within the size. */
  lemma OneLast(c: Contents, bounds: set<nat>, off: nat)
    requires Tiling(c, bounds) && off in bounds
    ensures off in c.mem && DIRENT_SIZE <= UsedSize(c.mem[off])
    ensures c.mem[off].last ==> forall o :: o in bounds && o != off ==> o in c.mem && !c.mem[o].last
    ensures !c.mem[off].last ==> off + ReservedSize(c.mem[off], off) <= c.size
  {
    hide Good, DirentSize;
    NextBound(c, bounds, off);
    if c.mem[off].last {
      forall o | o in bounds && o != off ensures o in c.mem && !c.mem[o].last {
        NextBound(c, bounds, o);
      }
    } else {
      NextBound(c, bounds, off + c.mem[off].reclen);
    }
  }

  /** An entry put behind the last one, or into the last free record, makes the directory end with it. */
  lemma InsertEnds(c: Contents, l: Layout, off: nat, name: string, b: Binding)
    requires WellFormed(c, l) && off in l.bounds && EndsWithLast(c, l.bounds)
    requires off in c.mem && HasRoom(c.mem[off], off, DirentSize(|name|)) && 1 <= |name| <= MAX_NAME && b.ino != 0 && name !in l.at
    ensures EndsWithLast(Insert(c, off, name, b), LayoutAfterInsert(c, l, off, name).bounds)
  {
    hide Good, DirentSize, Tiling, Coalesced, Indexed, WriteRecord, Same;
    OneLast(c, l.bounds, off);
    var n, m := Insert(c, off, name, b), LayoutAfterInsert(c, l, off, name);
    InsertSize(c, off, name, b);
    if Free(c.mem[off]) {
      InsertFree(c, l, off, name, b);
      InsertTakes(c, l.bounds, off, name, b);
    } else {
      InsertSplit(c, l, off, name, b);
      SplitTakes(c, l.bounds, off, name, b);
    }
    forall o | o in m.bounds && o in n.mem && n.mem[o].last ensures n.size == o + UsedSize(n.mem[o]) {
      if o in l.bounds - {off} {
        SameAt(c, n, l.bounds - {off}, o);
      }
    }
  }

  lemma SameAt(c: Contents, n: Contents, offsets: set<nat>, o: nat)
    requires Same(c, n, offsets) && o in offsets
    ensures o in n.mem && o in c.mem && n.mem[o] == c.mem[o]
  {
  }

  lemma InsertSize(c: Contents, off: nat, name: string, b: Binding)
    requires off in c.mem && HasRoom(c.mem[off], off, DirentSize(|name|))
    requires if c.mem[off].last then c.size == off + UsedSize(c.mem[off]) else off + ReservedSize(c.mem[off], off) <= c.size
    ensures var d, n := c.mem[off], Insert(c, off, name, b);
            n.size == if !d.last then c.size else off + DirentSize(|name|) + (if Free(d) then 0 else DirentSize(|d.name|))
  {
    hide DirentSize;
  }

  /** When the last record goes, the directory ends with the header of the free one left there. */
  lemma RemoveEnds(c: Contents, l: Layout, off: nat, offPrev: nat)
    requires WellFormed(c, l) && off in l.bounds && off in c.mem && !Free(c.mem[off]) && Previous(c, l.bounds, off, offPrev)
    requires EndsWithLast(c, l.bounds)
    ensures MergeEnd(c, off) >= MergeStart(c, off, offPrev)
    ensures EndsWithLast(Remove(c, off, offPrev), LayoutAfterRemove(c, l, off, offPrev).bounds)
  {
    hide DirentSize, NameFits, Good, Coalesced, Indexed, Tiling, Remove, Same, MergesLast;
    MergeRange(c, l, off, offPrev);
    var q, z := MergeStart(c, off, offPrev), MergeEnd(c, off);
    RemoveWrites(c, l.bounds, off, offPrev);
    RemoveKeeps(c, l, off, offPrev);
    RemoveSize(c, off, offPrev);
    var n, m := Remove(c, off, offPrev), LayoutAfterRemove(c, l, off, offPrev);
    OneLast(c, l.bounds, q);
    OneLast(n, m.bounds, q);
    forall o | o in m.bounds && o in n.mem && n.mem[o].last ensures n.size == o + UsedSize(n.mem[o]) {
      if o != q {
        SameAt(c, n, Merged(l.bounds, q, z) - {q}, o);
      }
    }
  }

  lemma RemoveSize(c: Contents, off: nat, offPrev: nat)
    requires off in c.mem && MergeEnd(c, off) >= MergeStart(c, off, offPrev)
    ensures var q := MergeStart(c, off, offPrev);
            Remove(c, off, offPrev).size ==
            if MergesLast(c, off) then q + DIRENT_SIZE else if q + DIRENT_SIZE > c.size then q + DIRENT_SIZE else c.size
  {
    hide MergesLast, MergeEnd, MergeStart;
  }

  lemma RetargetEnds(c: Contents, l: Layout, off: nat, ino: nat)
    requires WellFormed(c, l) && off in l.bounds && !Free(c.mem[off]) && ino != 0 && EndsWithLast(c, l.bounds)
    ensures off in c.mem && EndsWithLast(Retarget(c, off, ino), l.bounds)
  {
    hide DirentSize, Good, Tiling, Coalesced, Indexed, Same;
    RetargetKeeps(c, l, off, ino);
    OneLast(c, l.bounds, off);
    NextBound(c, l.bounds, off);
    var n := Retarget(c, off, ino);
    forall o | o in l.bounds && o in n.mem && n.mem[o].last ensures n.size == o + UsedSize(n.mem[o]) {
      if o != off {
        SameAt(c, n, l.bounds - {off}, o);
      }
    }
  }
}
