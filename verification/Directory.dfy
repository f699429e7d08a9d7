/** Directories: searching, adding, removing and listing entries in the tiled records. */
module MinfsDirectory {
  import opened Wrappers
  import opened Sets
  import opened DirectoryRecords

  const MAX_DIRENT := DirentSize(MAX_NAME)
  const RECLEN_MASK := 0x0FFF_FFFF

  /** Where a record is, and where the one before it is. */
  datatype Offset = Offset(off: nat, offPrev: nat)

  /** Where a listing goes on, and how often the directory had been changed by then. */
  datatype Cookie = Cookie(off: nat, seqno: nat)

  datatype Entry = Entry(name: string, ino: nat, kind: Kind)

  function ValidateDirent(d: Record, bytesRead: nat, off: nat): Result<()> {
    var reclen := ReservedSize(d, off);
    if bytesRead < DIRENT_SIZE || reclen < DIRENT_SIZE then Err(ErrIo)
    else if off + reclen > MAX_DIRECTORY || reclen % ALIGNMENT != 0 then Err(ErrIo)
    else if d.ino != 0 && (|d.name| == 0 || |d.name| > reclen - DIRENT_SIZE) then Err(ErrIo)
    else Ok(())
  }

  /** Reading and checking the record at off. */
  function ReadDirent(c: Contents, off: nat): (r: Result<Record>)
    requires off < c.size
    ensures r.Ok? ==> off in c.mem && r.value == c.mem[off] && DIRENT_SIZE <= ReservedSize(r.value, off)
    ensures r.Ok? ==> off + ReservedSize(r.value, off) <= MAX_DIRECTORY
    ensures r.Ok? ==> off + DIRENT_SIZE <= c.size && ReservedSize(r.value, off) % ALIGNMENT == 0
    ensures r.Ok? && !Free(r.value) ==> r.value.name != "" && DIRENT_SIZE + |r.value.name| <= ReservedSize(r.value, off)
  {
    var bytesRead := if c.size - off < MAX_DIRENT then c.size - off else MAX_DIRENT;
    if off !in c.mem || ValidateDirent(c.mem[off], bytesRead, off).Err? then Err(ErrIo) else Ok(c.mem[off])
  }

  /** Every record of a well-formed directory passes. */
  lemma RecordsValid(c: Contents, bounds: set<nat>, off: nat)
    requires Tiling(c, bounds) && off in bounds
    ensures off < c.size && off + DIRENT_SIZE < MAX_DIRECTORY
    ensures off in c.mem && ReadDirent(c, off) == Ok(c.mem[off])
    ensures var next := off + ReservedSize(c.mem[off], off);
            && (next in bounds || next == MAX_DIRECTORY) && next > off && DIRENT_SIZE <= ReservedSize(c.mem[off], off)
            && forall o :: o in bounds && o > off ==> o >= next
  {
    hide Good, DirentSize;
    NextBound(c, bounds, off);
    LiveName(c, bounds, off);
    EndOfRecord(c, bounds, off);
    hide Tiling;
    assert DIRENT_SIZE <= MAX_DIRENT;
  }

  lemma EndOfRecord(c: Contents, bounds: set<nat>, off: nat)
    requires Tiling(c, bounds) && off in bounds
    ensures off in c.mem && off + ReservedSize(c.mem[off], off) <= MAX_DIRECTORY
    ensures forall o :: o in bounds && o > off ==> o >= off + ReservedSize(c.mem[off], off)
  {
    hide DirentSize;
  }

  lemma LiveName(c: Contents, bounds: set<nat>, off: nat)
    requires Tiling(c, bounds) && off in bounds
    ensures !Free(c.mem[off]) ==> 1 <= |c.mem[off].name| <= ReservedSize(c.mem[off], off) - DIRENT_SIZE
  {
  }

  /** The walk is at off: nothing before it is left to look at. */
  ghost predicate At(bounds: set<nat>, off: nat) {
    off in bounds || off == MAX_DIRECTORY
  }

  function InitialContents(inoSelf: nat, inoParent: nat): Contents {
    var selfSize, parentSize := DirentSize(1), DirentSize(2);
    Contents(
      map[0 := Record(inoSelf, selfSize, false, ".", DirKind),
          selfSize := Record(inoParent, parentSize, true, "..", DirKind)],
      selfSize + parentSize)
  }

  ghost function InitialLayout(): Layout {
    Layout({0, DirentSize(1)}, map["." := 0, ".." := DirentSize(1)])
  }

  lemma InitialRecords(inoSelf: nat, inoParent: nat)
    requires inoSelf != 0 && inoParent != 0
    ensures var c, l := InitialContents(inoSelf, inoParent), InitialLayout();
            && WellFormed(c, l) && |l.at| == 2
            && Names(c, l) == map["." := Binding(inoSelf, DirKind), ".." := Binding(inoParent, DirKind)]
            && EndsWithLast(c, l.bounds)
  {
    hide Good, DirentSize, Tiling, Coalesced, Indexed;
    InitialGood(inoSelf, inoParent);
    InitialTiling(inoSelf, inoParent);
    InitialIndexed(inoSelf, inoParent);
    TwoNames();
  }

  lemma TwoNames()
    ensures |InitialLayout().at| == 2
  {
    hide DirentSize;
    assert InitialLayout().at.Keys == {".", ".."};
    assert |InitialLayout().at| == |InitialLayout().at.Keys|;
  }

  lemma InitialIndexed(inoSelf: nat, inoParent: nat)
    requires inoSelf != 0 && inoParent != 0 && DirentSize(1) == 16
    ensures var c, l := InitialContents(inoSelf, inoParent), InitialLayout();
            Coalesced(c, l.bounds) && Indexed(c, l)
  {
    hide DirentSize;
  }

  lemma InitialGood(inoSelf: nat, inoParent: nat)
    requires inoSelf != 0 && inoParent != 0
    ensures var c, l, second := InitialContents(inoSelf, inoParent), InitialLayout(), DirentSize(1);
            && second == 16 == DirentSize(2)
            && Good(c.mem[0], 0, l.bounds) && Good(c.mem[second], second, l.bounds)
  {
  }

  lemma InitialTiling(inoSelf: nat, inoParent: nat)
    requires inoSelf != 0 && inoParent != 0
    requires DirentSize(1) == DirentSize(2) == 16
    requires var c, l := InitialContents(inoSelf, inoParent), InitialLayout();
             Good(c.mem[0], 0, l.bounds) && Good(c.mem[16], 16, l.bounds)
    ensures Tiling(InitialContents(inoSelf, inoParent), InitialLayout().bounds)
  {
    hide Good, DirentSize;
    assert |"."| == 1 && |".."| == 2;
  }

  class Directory {
    var contents: Contents
    var direntCount: int
    var linkCount: int
    var seqNum: nat
    ghost var layout: Layout

    ghost predicate Valid()
      reads this
    {
      WellFormed(contents, layout) && direntCount == |layout.at|
    }

    ghost function Listing(): map<string, Binding>
      requires Valid()
      reads this
    {
      Names(contents, layout)
    }

    /** Nothing comes after the last record. */
    ghost predicate EndsExactly()
      reads this
    {
      EndsWithLast(contents, layout.bounds)
    }

    /** A new directory holds itself and its parent. */
    constructor InitializeDirectory(inoSelf: nat, inoParent: nat)
      requires inoSelf != 0 && inoParent != 0
      ensures Valid() && EndsExactly() && linkCount == 2
      ensures Listing() == map["." := Binding(inoSelf, DirKind), ".." := Binding(inoParent, DirKind)]
    {
      contents := InitialContents(inoSelf, inoParent);
      direntCount, linkCount, seqNum := 2, 2, 0;
      layout := InitialLayout();
      new;
      InitialRecords(inoSelf, inoParent);
    }

    /** The record with the given name. Ends on every image, and finds the name in a well-formed one if it is there. */
    method FindName(name: string) returns (r: Result<Option<Offset>>)
      ensures Valid() ==> r.Ok? && (r.value.Some? <==> name in layout.at)
      ensures Valid() && r.Ok? && r.value.Some? ==>
                r.value.value.off == layout.at[name] && Previous(contents, layout.bounds, r.value.value.off, r.value.value.offPrev)
      ensures r.Ok? && r.value.Some? ==>
                var off := r.value.value.off; off in contents.mem && !Free(contents.mem[off]) && contents.mem[off].name == name
    {
      hide Good, DirentSize, Tiling, Coalesced, Indexed, ReadDirent;
      var off, offPrev := 0, 0;
      ghost var valid := Valid();
      if valid {
        StartAtZero(contents, layout);
      }
      while off + DIRENT_SIZE < MAX_DIRECTORY && off < contents.size
        invariant 0 <= off <= MAX_DIRECTORY && 0 <= offPrev
        invariant valid ==> At(layout.bounds, off) && NotBefore(contents, layout, off, name)
        invariant valid && off in layout.bounds ==> Previous(contents, layout.bounds, off, offPrev)
        decreases MAX_DIRECTORY - off
      {
        if valid {
          WalkStep(contents, layout, off, name);
        }
        var d := ReadDirent(contents, off);
        if d.Err? {
          return Err(d.error);
        }
        if d.value.ino != 0 && d.value.name == name {
          return Ok(Some(Offset(off, offPrev)));
        }
        offPrev, off := off, off + ReservedSize(d.value, off);
      }
      if valid {
        WalkEnd(contents, layout, off, name);
      }
      r := Ok(None);
    }

    /** A record with room for another of `reclen` bytes. */
    method FindSpace(reclen: nat) returns (r: Result<Option<nat>>)
      ensures Valid() ==> r.Ok?
      ensures Valid() && r.Ok? && r.value.Some? ==>
                r.value.value in layout.bounds && HasRoom(contents.mem[r.value.value], r.value.value, reclen)
      ensures Valid() && r == Ok(None) ==>
                forall o :: o in layout.bounds ==> !HasRoom(contents.mem[o], o, reclen)
    {
      hide Good, DirentSize, Tiling, Coalesced, Indexed, ReadDirent, HasRoom;
      var off := 0;
      ghost var valid := Valid();
      if valid {
        StartAtZero(contents, layout);
      }
      while off + DIRENT_SIZE < MAX_DIRECTORY && off < contents.size
        invariant 0 <= off <= MAX_DIRECTORY
        invariant valid ==> At(layout.bounds, off)
        invariant valid ==> forall o {:trigger o in layout.bounds} :: o in layout.bounds && o < off ==>
                    o in contents.mem && !HasRoom(contents.mem[o], o, reclen)
        decreases MAX_DIRECTORY - off
      {
        if valid {
          WalkStep(contents, layout, off, "");
        }
        var d := ReadDirent(contents, off);
        if d.Err? {
          return Err(d.error);
        }
        RoomOf(d.value, off, reclen);
        if d.value.ino == 0 {
          if reclen <= ReservedSize(d.value, off) {
            return Ok(Some(off));
          }
        } else {
          var used := DirentSize(|d.value.name|);
          if used > ReservedSize(d.value, off) {
            if valid {
              LiveFits(contents, layout, off);
            }
            return Err(ErrIo);
          }
          if reclen <= ReservedSize(d.value, off) - used {
            return Ok(Some(off));
          }
        }
        off := off + ReservedSize(d.value, off);
      }
      if valid {
        WalkEnd(contents, layout, off, "");
        InFileAll(contents, layout);
      }
      r := Ok(None);
    }

    /** Adds an entry at a place found by FindSpace: the name map gains it and nothing else changes. */
    method AppendDirent(off: nat, name: string, ino: nat, kind: Kind) returns (r: Result<()>)
      requires Valid() && off in layout.bounds && 1 <= |name| <= MAX_NAME && ino != 0 && name !in layout.at
      modifies this
      ensures Valid()
      ensures old(EndsExactly()) ==> EndsExactly()
      ensures r.Ok? <==>
                var d := old(contents).mem[off];
                DirentSize(|name|) + (if Free(d) then 0 else DirentSize(|d.name|)) <= ReservedSize(d, off)
      ensures r.Err? ==> r == Err(ErrNoSpace) && contents == old(contents) && layout == old(layout)
      ensures r.Err? ==> linkCount == old(linkCount) && direntCount == old(direntCount) && seqNum == old(seqNum)
      ensures r.Ok? ==>
                && Listing() == old(Listing())[name := Binding(ino, kind)]
                && Kept(old(layout), layout) && seqNum == old(seqNum) + 1
                && linkCount == old(linkCount) + (if kind == DirKind then 1 else 0)
                && direntCount == old(direntCount) + 1
    {
      hide Good, DirentSize, Tiling, Coalesced, Indexed, ReadDirent, WriteRecord, Names, EndsWithLast;
      RecordsValid(contents, layout.bounds, off);
      LiveFits(contents, layout, off);
      ghost var c, l := contents, layout;
      var d := ReadDirent(contents, off).value;
      var reclen, needed := ReservedSize(d, off), DirentSize(|name|);
      if d.ino == 0 {
        if needed > reclen {
          return Err(ErrNoSpace);
        }
        InsertFree(c, l, off, name, Binding(ino, kind));
        contents := WriteRecord(contents, off, d.(ino := ino, name := name, kind := kind), needed);
      } else {
        var size := DirentSize(|d.name|);
        var extra := reclen - size;
        if extra < needed {
          return Err(ErrNoSpace);
        }
        InsertSplit(c, l, off, name, Binding(ino, kind));
        contents := WriteRecord(contents, off, d.(reclen := size, last := false), size);
        contents := WriteRecord(contents, off + size, Record(ino, extra, d.last, name, kind), needed);
      }
      layout := LayoutAfterInsert(c, l, off, name);
      KeptByInsert(c, l, off, name);
      if EndsWithLast(c, l.bounds) {
        InsertEnds(c, l, off, name, Binding(ino, kind));
      }
      if kind == DirKind {
        linkCount := linkCount + 1;
      }
      direntCount := direntCount + 1;
      seqNum := seqNum + 1;
      r := Ok(());
    }

    /**
     Takes the entry at off out and joins the space with free neighbours. The child's own link
     is dropped by the caller.
     */
    method UnlinkChild(off: nat, offPrev: nat, childIsDirectory: bool) returns (r: Result<()>)
      requires Valid() && off in layout.bounds && off in contents.mem && !Free(contents.mem[off])
      requires Previous(contents, layout.bounds, off, offPrev)
      modifies this
      ensures Valid() && r.Ok?
      ensures old(EndsExactly()) ==> EndsExactly()
      ensures Listing() == old(Listing()) - {old(contents.mem[off].name)}
      ensures Kept(old(layout), layout) && seqNum == old(seqNum) + 1
      ensures direntCount == old(direntCount) - 1
      ensures linkCount == old(linkCount) - (if childIsDirectory then 1 else 0)
    {
      hide Good, DirentSize, Tiling, Coalesced, Indexed, WriteRecord, Names, Truncate, EndsWithLast;
      ghost var c, l := contents, layout;
      RemoveKeeps(c, l, off, offPrev);
      NeighboursValid(c, l, off, offPrev);
      var d, start := contents.mem[off], off;
      var next := off + ReservedSize(d, off);
      var coalesced := ReservedSize(d, off);
      var last := d.last;
      if !last {
        var dNext := ReadDirent(contents, next);
        if dNext.Err? {
          return Err(ErrIo);
        }
        if dNext.value.ino == 0 {
          coalesced := coalesced + ReservedSize(dNext.value, next);
          last := dNext.value.last;
        }
      }
      if offPrev != off {
        var dPrev := ReadDirent(contents, offPrev);
        if dPrev.Err? {
          return Err(ErrIo);
        }
        if dPrev.value.ino == 0 {
          coalesced := coalesced + ReservedSize(dPrev.value, offPrev);
          start := offPrev;
        }
      }
      if !last && coalesced >= RECLEN_MASK {
        return Err(ErrIo);
      }
      contents := WriteRecord(contents, start, d.(ino := 0, reclen := coalesced, last := last), DIRENT_SIZE);
      if last {
        contents := Truncate(contents, start + DIRENT_SIZE);
      }
      layout := LayoutAfterRemove(c, l, off, offPrev);
      if EndsWithLast(c, l.bounds) {
        RemoveEnds(c, l, off, offPrev);
      }
      direntCount := direntCount - 1;
      if childIsDirectory {
        linkCount := linkCount - 1;
      }
      seqNum := seqNum + 1;
      r := Ok(());
    }

    /** Points an existing entry at another inode (renaming over a target, or a moved directory's parent). */
    method UpdateInode(name: string, ino: nat) returns (r: Result<bool>)
      requires Valid() && ino != 0
      modifies this
      ensures Valid() && r == Ok(name in old(layout).at)
      ensures old(EndsExactly()) ==> EndsExactly()
      ensures r == Ok(false) ==> contents == old(contents) && layout == old(layout) && seqNum == old(seqNum)
      ensures r == Ok(true) ==>
                && Listing() == old(Listing())[name := Binding(ino, old(Listing())[name].kind)]
                && layout == old(layout) && seqNum == old(seqNum) + 1
      ensures linkCount == old(linkCount) && direntCount == old(direntCount)
    {
      hide Good, DirentSize, Tiling, Coalesced, WriteRecord, EndsWithLast;
      var found := FindName(name);
      if found.value.None? {
        return Ok(false);
      }
      var off := found.value.value.off;
      RetargetKeeps(contents, layout, off, ino);
      if EndsExactly() {
        RetargetEnds(contents, layout, off, ino);
      }
      contents := Retarget(contents, off, ino);
      seqNum := seqNum + 1;
      r := Ok(true);
    }

    /**
     Lists entries from a cookie on, as many as fit (`limit`). If the directory has changed since
     the cookie was made, the walk is brought to the first record at or after its offset.
     `from` and `to` say which part of the range this call has covered; `offsets` where the
     entries returned are.
     */
    method Readdir(cookie: Cookie, limit: nat)
      returns (r: Result<seq<Entry>>, next: Cookie, ghost from: nat, ghost offsets: seq<nat>)
      requires cookie.off <= MAX_DIRECTORY
      requires Valid() && cookie.seqno == seqNum ==> cookie.off == 0 || At(layout.bounds, cookie.off)
      ensures r.Err? ==> next.off == 0
      ensures next.off <= MAX_DIRECTORY
      ensures Valid() ==> r.Ok? && next.seqno == seqNum && At(layout.bounds, next.off)
      ensures Valid() ==> Recovers(layout.bounds, cookie.off, from) && from <= next.off
      ensures Valid() && r.Ok? ==> Covers(contents, layout, from, next.off, offsets, r.value)
      ensures Valid() && r.Ok? ==> |r.value| <= limit && (|r.value| < limit ==> next.off == MAX_DIRECTORY)
    {
      hide Good, DirentSize, Tiling, Coalesced, Indexed, ReadDirent, Recovers, Covers;
      ghost var valid := Valid();
      if valid {
        StartAtZero(contents, layout);
      }
      offsets, from := [], 0;
      var off := cookie.off;
      if off != 0 && cookie.seqno != seqNum {
        var recovered := 0;
        while recovered < off
          invariant 0 <= recovered <= MAX_DIRECTORY
          invariant valid ==> At(layout.bounds, recovered) && forall o :: o in layout.bounds && o < recovered ==> o < off
          decreases MAX_DIRECTORY - recovered
        {
          if valid {
            WalkStep(contents, layout, recovered, "");
          }
          if recovered + DIRENT_SIZE >= MAX_DIRECTORY || recovered >= contents.size {
            return Err(ErrIo), Cookie(0, cookie.seqno), from, offsets;
          }
          var d := ReadDirent(contents, recovered);
          if d.Err? {
            return Err(ErrIo), Cookie(0, cookie.seqno), from, offsets;
          }
          recovered := recovered + ReservedSize(d.value, recovered);
        }
        off := recovered;
      }
      from := off;
      if valid {
        Recovered(layout.bounds, cookie.off, off);
        CoversNothing(contents, layout, from);
      }
      var entries := [];
      while off + DIRENT_SIZE < MAX_DIRECTORY
        invariant from <= off <= MAX_DIRECTORY && |entries| <= limit
        invariant valid ==> At(layout.bounds, off) && Covers(contents, layout, from, off, offsets, entries)
        decreases MAX_DIRECTORY - off
      {
        if valid {
          WalkStep(contents, layout, off, "");
        }
        if off >= contents.size {
          return Err(ErrIo), Cookie(0, cookie.seqno), from, offsets;
        }
        var d := ReadDirent(contents, off);
        if d.Err? {
          return Err(ErrIo), Cookie(0, cookie.seqno), from, offsets;
        }
        ghost var before := entries;
        if d.value.ino != 0 && d.value.name != ".." {
          if |entries| == limit {
            return Ok(entries), Cookie(off, seqNum), from, offsets;
          }
          entries := entries + [Entry(d.value.name, d.value.ino, d.value.kind)];
        }
        if valid {
          CoversMore(contents, layout, from, off, offsets, before);
        }
        if d.value.ino != 0 && d.value.name != ".." {
          offsets := offsets + [off];
        }
        off := off + ReservedSize(d.value, off);
      }
      if valid {
        WalkEnd(contents, layout, off, "");
      }
      return Ok(entries), Cookie(off, seqNum), from, offsets;
    }
  }

  // ---------------------------------------------------------------------------
  // Walking

  ghost predicate NotBefore(c: Contents, l: Layout, off: nat, name: string) {
    name in l.at ==> l.at[name] >= off
  }

  lemma StartAtZero(c: Contents, l: Layout)
    requires WellFormed(c, l)
    ensures 0 in l.bounds
  {
  }

  lemma WalkStep(c: Contents, l: Layout, off: nat, name: string)
    requires WellFormed(c, l) && At(l.bounds, off) && off < MAX_DIRECTORY
    ensures off in l.bounds && off < c.size && off + DIRENT_SIZE < MAX_DIRECTORY && off in c.mem
    ensures ReadDirent(c, off) == Ok(c.mem[off]) && DIRENT_SIZE <= ReservedSize(c.mem[off], off)
    ensures var next := off + ReservedSize(c.mem[off], off);
            && At(l.bounds, next) && next > off && Previous(c, l.bounds, next, off)
            && (forall o :: o in l.bounds && o < next ==> o <= off)
            && (NotBefore(c, l, off, name) && (Free(c.mem[off]) || c.mem[off].name != name) ==> NotBefore(c, l, next, name))
            && (!Free(c.mem[off]) && c.mem[off].name == name ==> name in l.at && l.at[name] == off)
  {
    hide Good, DirentSize, ReadDirent, Coalesced, Indexed, Tiling;
    RecordsValid(c, l.bounds, off);
    NamedAt(c, l, off, name);
  }

  lemma NamedAt(c: Contents, l: Layout, off: nat, name: string)
    requires Indexed(c, l) && off in l.bounds && off in c.mem
    ensures !Free(c.mem[off]) && c.mem[off].name == name ==> name in l.at && l.at[name] == off
    ensures name in l.at ==> l.at[name] in l.bounds
    ensures name in l.at && l.at[name] == off ==> !Free(c.mem[off]) && c.mem[off].name == name
  {
  }

  lemma WalkEnd(c: Contents, l: Layout, off: nat, name: string)
    requires WellFormed(c, l) && At(l.bounds, off) && !(off + DIRENT_SIZE < MAX_DIRECTORY && off < c.size)
    ensures off == MAX_DIRECTORY && forall o :: o in l.bounds ==> o < off
    ensures NotBefore(c, l, off, name) ==> name !in l.at
  {
    hide Good, DirentSize, Tiling, Coalesced;
    if off in l.bounds {
      RecordsValid(c, l.bounds, off);
    }
    forall o | o in l.bounds ensures o < MAX_DIRECTORY {
      RecordsValid(c, l.bounds, o);
    }
  }

  lemma RoomOf(d: Record, off: nat, length: nat)
    ensures HasRoom(d, off, length) <==>
            if d.ino == 0 then length <= ReservedSize(d, off)
            else DirentSize(|d.name|) <= ReservedSize(d, off) && length <= ReservedSize(d, off) - DirentSize(|d.name|)
    ensures HasRoom(d, off, length) <==> length + (if Free(d) then 0 else DirentSize(|d.name|)) <= ReservedSize(d, off)
  {
  }

  lemma LiveFits(c: Contents, l: Layout, off: nat)
    requires WellFormed(c, l) && off in l.bounds
    ensures off in c.mem && (!Free(c.mem[off]) ==> DirentSize(|c.mem[off].name|) <= ReservedSize(c.mem[off], off))
  {
    hide DirentSize;
    InFile(c, l.bounds, off);
    if !Free(c.mem[off]) {
      LiveSize(c, l.bounds, off);
    }
  }

  lemma InFileAll(c: Contents, l: Layout)
    requires WellFormed(c, l)
    ensures forall o :: o in l.bounds ==> o in c.mem
  {
    hide Good;
  }

  /** Entries that are in both layouts are where they were. */
  ghost predicate Kept(l: Layout, m: Layout) {
    forall k :: k in l.at && k in m.at ==> m.at[k] == l.at[k]
  }

  lemma KeptByInsert(c: Contents, l: Layout, off: nat, name: string)
    requires WellFormed(c, l) && off in l.bounds && name !in l.at
    ensures off in c.mem
    ensures var m := LayoutAfterInsert(c, l, off, name); Kept(l, m) && |m.at| == |l.at| + 1
  {
    InFile(c, l.bounds, off);
    var m := LayoutAfterInsert(c, l, off, name);
    assert m.at.Keys == l.at.Keys + {name};
  }

  lemma NeighboursValid(c: Contents, l: Layout, off: nat, offPrev: nat)
    requires WellFormed(c, l) && off in l.bounds && !Free(c.mem[off]) && Previous(c, l.bounds, off, offPrev)
    ensures off in c.mem && c.mem[off].name in l.at && |l.at - {c.mem[off].name}| == |l.at| - 1
    ensures var d, next := c.mem[off], off + ReservedSize(c.mem[off], off);
            && (!d.last ==> next == off + d.reclen && 0 <= next < c.size && next in c.mem && ReadDirent(c, next) == Ok(c.mem[next]))
            && (offPrev != off ==> offPrev < c.size && offPrev in c.mem && ReadDirent(c, offPrev) == Ok(c.mem[offPrev]))
            && (offPrev != off ==> ReservedSize(c.mem[offPrev], offPrev) == off - offPrev)
            && MergeEnd(c, off) - MergeStart(c, off, offPrev) < RECLEN_MASK
    ensures 0 <= ReservedSize(c.mem[off], off)
    ensures Kept(l, Layout(Merged(l.bounds, MergeStart(c, off, offPrev), MergeEnd(c, off)), l.at - {c.mem[off].name}))
  {
    hide Good, DirentSize, Coalesced, ReadDirent, Merged, Tiling;
    InFile(c, l.bounds, off);
    NextBound(c, l.bounds, off);
    MergeExtent(c, l.bounds, off, offPrev);
    if !c.mem[off].last {
      RecordsValid(c, l.bounds, off + c.mem[off].reclen);
    }
    if offPrev != off {
      RecordsValid(c, l.bounds, offPrev);
    }
    assert (l.at - {c.mem[off].name}).Keys == l.at.Keys - {c.mem[off].name};
  }

  // ---------------------------------------------------------------------------
  // Listing

  /** `from` is the first record at or after off, or the end of the range. */
  ghost predicate Recovers(bounds: set<nat>, off: nat, from: nat) {
    off <= from && At(bounds, from) && forall o :: o in bounds && o >= off ==> o >= from
  }

  lemma Recovered(bounds: set<nat>, off: nat, from: nat)
    requires At(bounds, from) && off <= from && (off == from || forall o :: o in bounds && o < from ==> o < off)
    ensures Recovers(bounds, off, from)
  {
  }

  /** The entries returned are those of the live records between from and to, ".." aside, in order. */
  ghost predicate Covers(c: Contents, l: Layout, from: nat, to: nat, offsets: seq<nat>, entries: seq<Entry>) {
    && |offsets| == |entries|
    && (forall i :: 0 <= i < |offsets| ==>
          && offsets[i] in l.bounds && offsets[i] in c.mem && from <= offsets[i] < to
          && !Free(c.mem[offsets[i]]) && c.mem[offsets[i]].name != ".."
          && entries[i] == Entry(c.mem[offsets[i]].name, c.mem[offsets[i]].ino, c.mem[offsets[i]].kind))
    && (forall i, j :: 0 <= i < j < |offsets| ==> offsets[i] < offsets[j])
    && (forall o {:trigger o in l.bounds} :: o in l.bounds && o in c.mem && from <= o < to && !Free(c.mem[o]) && c.mem[o].name != ".." ==>
          o in offsets)
  }

  lemma CoversNothing(c: Contents, l: Layout, from: nat)
    ensures Covers(c, l, from, from, [], [])
  {
  }

  lemma CoversMore(c: Contents, l: Layout, from: nat, off: nat, offsets: seq<nat>, entries: seq<Entry>)
    requires Covers(c, l, from, off, offsets, entries) && off in l.bounds && off in c.mem && from <= off
    requires ReservedSize(c.mem[off], off) > 0
    requires forall o :: o in l.bounds && o < off + ReservedSize(c.mem[off], off) ==> o <= off
    ensures var d, next := c.mem[off], off + ReservedSize(c.mem[off], off);
            if !Free(d) && d.name != ".." then Covers(c, l, from, next, offsets + [off], entries + [Entry(d.name, d.ino, d.kind)])
            else Covers(c, l, from, next, offsets, entries)
  {
  }
}
