/** A file's blocks in memory, read from the device the first time they are wanted. */
module LazyBuffer {
  import opened Wrappers
  import opened Sets
  import opened PointerTree
  import opened TransactionLimits

  type Mapping = map<nat, nat>

  /** A queued read: `count` device blocks from `dev` on into the buffer from `file` on. */
  datatype Operation = Operation(file: nat, dev: nat, count: nat)

  /** What file block b reads as: its device block, or zeros if it has none. */
  function ContentsOf(mapping: Mapping, disk: map<nat, Block>, b: nat): Block {
    if b in mapping && mapping[b] in disk then disk[mapping[b]] else Zeros()
  }

  /** Every loaded block that has not been changed since is what the device has. */
  ghost predicate TrueToDevice(buffer: seq<Block>, loaded: set<nat>, dirty: set<nat>, mapping: Mapping, disk: map<nat, Block>) {
    forall b :: b in loaded ==> b < |buffer| && (b !in dirty ==> buffer[b] == ContentsOf(mapping, disk, b))
  }

  /** No two file blocks share a device block. */
  ghost predicate Injective(mapping: Mapping) {
    forall a, b :: a in mapping && b in mapping && a != b ==> mapping[a] != mapping[b]
  }

  function Range(start: nat, end: nat): (r: set<nat>)
    ensures forall b :: b in r <==> start <= b < end
    decreases end - start
  {
    if start >= end then {} else {start} + Range(start + 1, end)
  }

  // ---------------------------------------------------------------------------
  // Which blocks are asked for

  /** The first block at or after `from` that is loaded, or is not, as `value` says; `end` if there is none before it. */
  function Find(loaded: set<nat>, value: bool, from: nat, end: nat): (r: nat)
    ensures from <= end ==> from <= r <= end
    ensures from > end ==> r == end
    ensures from <= r < end ==> (r in loaded <==> value)
    ensures forall b :: from <= b < r ==> (b in loaded <==> !value)
    decreases end - from
  {
    if from >= end then end
    else if (from in loaded) == value then from
    else Find(loaded, value, from + 1, end)
  }

  /** The blocks of a range that are not loaded, in order. */
  ghost function Unloaded(loaded: set<nat>, start: nat, end: nat): seq<nat>
    decreases end - start
  {
    if start >= end then [] else (if start in loaded then [] else [start]) + Unloaded(loaded, start + 1, end)
  }

  ghost function Run(start: nat, count: nat): seq<nat> {
    seq(count, i requires i >= 0 => start + i)
  }

  lemma {:induction false} UnloadedSplit(loaded: set<nat>, a: nat, b: nat, c: nat)
    requires a <= b <= c
    ensures Unloaded(loaded, a, c) == Unloaded(loaded, a, b) + Unloaded(loaded, b, c)
    decreases b - a
  {
    if a < b {
      UnloadedSplit(loaded, a + 1, b, c);
    }
  }

  lemma {:induction false} NothingUnloaded(loaded: set<nat>, a: nat, b: nat)
    requires forall i :: a <= i < b ==> i in loaded
    ensures Unloaded(loaded, a, b) == []
    decreases b - a
  {
    if a < b {
      NothingUnloaded(loaded, a + 1, b);
    }
  }

  lemma {:induction false} AllUnloaded(loaded: set<nat>, a: nat, count: nat)
    requires forall i :: a <= i < a + count ==> i !in loaded
    ensures Unloaded(loaded, a, a + count) == Run(a, count)
    decreases count
  {
    if count > 0 {
      AllUnloaded(loaded, a + 1, count - 1);
      assert Run(a, count) == [a] + Run(a + 1, count - 1);
    }
  }

  /** Each block that is not loaded is asked for, and none twice. */
  lemma {:induction false} UnloadedOnce(loaded: set<nat>, start: nat, end: nat)
    ensures var s := Unloaded(loaded, start, end);
            && (forall b :: b in s <==> start <= b < end && b !in loaded)
            && (forall i, j :: 0 <= i < j < |s| ==> s[i] < s[j])
    decreases end - start
  {
    if start < end {
      UnloadedOnce(loaded, start + 1, end);
      var s, rest := Unloaded(loaded, start, end), Unloaded(loaded, start + 1, end);
      if start !in loaded {
        assert s == [start] + rest;
        assert forall i :: 0 < i < |s| ==> s[i] == rest[i - 1] && s[i] in rest;
      }
    }
  }

  // ---------------------------------------------------------------------------
  // Queued reads

  predicate Covers(op: Operation, b: nat) {
    op.file <= b < op.file + op.count
  }

  ghost predicate Covered(queue: seq<Operation>, b: nat) {
    exists i :: 0 <= i < |queue| && Covers(queue[i], b)
  }

  /** A queued read is of blocks asked for, and takes each from where it is mapped to. */
  ghost predicate GoodRead(op: Operation, mapping: Mapping, asked: seq<nat>) {
    forall b: nat :: Covers(op, b) ==> b in asked && b in mapping && mapping[b] == op.dev + (b - op.file)
  }

  /**
   The blocks in `asked` have been asked for: those that are mapped are queued, the others are
   zeros already, and no other block has been touched since the buffer was `was`.
   */
  ghost predicate Asking(
    was: seq<Block>, buffer: seq<Block>, loaded: set<nat>, mapping: Mapping, queue: seq<Operation>, asked: seq<nat>)
  {
    && |buffer| == |was|
    && (forall b :: b in asked ==> b < |buffer| && b !in loaded)
    && (forall i :: 0 <= i < |queue| ==> GoodRead(queue[i], mapping, asked))
    && (forall b :: 0 <= b < |buffer| && b !in asked ==> buffer[b] == was[b])
    && (forall b :: b in asked ==> if b in mapping then Covered(queue, b) else buffer[b] == Zeros())
  }

  /** One read done. */
  function Apply(op: Operation, buffer: seq<Block>, disk: map<nat, Block>): (r: seq<Block>)
    ensures |r| == |buffer|
  {
    seq(|buffer|, b requires 0 <= b < |buffer| =>
      if Covers(op, b) then (if op.dev + (b - op.file) in disk then disk[op.dev + (b - op.file)] else Zeros()) else buffer[b])
  }

  /** The first k queued reads have been done. */
  ghost predicate Partly(buffer: seq<Block>, now: seq<Block>, mapping: Mapping, disk: map<nat, Block>, queue: seq<Operation>, k: nat)
    requires k <= |queue|
  {
    && |now| == |buffer|
    && forall b :: 0 <= b < |buffer| ==> now[b] == if Covered(queue[..k], b) then ContentsOf(mapping, disk, b) else buffer[b]
  }

  lemma OneRead(
    buffer: seq<Block>, now: seq<Block>, mapping: Mapping, disk: map<nat, Block>, queue: seq<Operation>, k: nat, asked: seq<nat>)
    requires k < |queue| && Partly(buffer, now, mapping, disk, queue, k) && GoodRead(queue[k], mapping, asked)
    ensures Partly(buffer, Apply(queue[k], now, disk), mapping, disk, queue, k + 1)
  {
    var next := Apply(queue[k], now, disk);
    forall b | 0 <= b < |buffer|
      ensures next[b] == if Covered(queue[..k + 1], b) then ContentsOf(mapping, disk, b) else buffer[b]
    {
      CoveredMore(queue, k, b);
    }
  }

  lemma CoveredMore(queue: seq<Operation>, k: nat, b: nat)
    requires k < |queue|
    ensures Covered(queue[..k + 1], b) <==> Covered(queue[..k], b) || Covers(queue[k], b)
  {
    var more, less := queue[..k + 1], queue[..k];
    assert forall i :: 0 <= i < k ==> more[i] == less[i];
    assert more[k] == queue[k];
    if Covered(less, b) {
      var i :| 0 <= i < |less| && Covers(less[i], b);
      assert Covers(more[i], b);
    }
    if Covers(queue[k], b) {
      assert Covers(more[k], b);
    }
  }

  lemma NotCovered(queue: seq<Operation>, mapping: Mapping, asked: seq<nat>, k: nat, b: nat)
    requires k <= |queue| && (b !in asked || b !in mapping)
    requires forall i :: 0 <= i < |queue| ==> GoodRead(queue[i], mapping, asked)
    ensures !Covered(queue[..k], b)
  {
    forall i | 0 <= i < |queue[..k]| ensures !Covers(queue[..k][i], b) {
      assert GoodRead(queue[i], mapping, asked);
    }
  }

  /** However many of the reads were done: blocks not asked for are as they were. */
  lemma OthersKept(
    was: seq<Block>, buffer: seq<Block>, now: seq<Block>, loaded: set<nat>, dirty: set<nat>, mapping: Mapping,
    disk: map<nat, Block>, queue: seq<Operation>, asked: seq<nat>, k: nat)
    requires k <= |queue| && Asking(was, buffer, loaded, mapping, queue, asked) && Partly(buffer, now, mapping, disk, queue, k)
    requires TrueToDevice(was, loaded, dirty, mapping, disk)
    ensures TrueToDevice(now, loaded, dirty, mapping, disk)
    ensures |now| == |was| && forall b :: 0 <= b < |was| && b !in asked ==> now[b] == was[b]
  {
    hide ContentsOf;
    forall b | 0 <= b < |was| && b !in asked ensures now[b] == was[b] {
      NotCovered(queue, mapping, asked, k, b);
    }
  }

  /** When all were done, the blocks asked for are what the device has. */
  lemma AskedLoaded(
    was: seq<Block>, buffer: seq<Block>, now: seq<Block>, loaded: set<nat>, mapping: Mapping,
    disk: map<nat, Block>, queue: seq<Operation>, asked: seq<nat>)
    requires Asking(was, buffer, loaded, mapping, queue, asked) && Partly(buffer, now, mapping, disk, queue, |queue|)
    ensures forall b :: b in asked ==> b < |now| && now[b] == ContentsOf(mapping, disk, b)
  {
    assert queue[..|queue|] == queue;
    forall b | b in asked ensures b < |now| && now[b] == ContentsOf(mapping, disk, b) {
      if b !in mapping {
        NotCovered(queue, mapping, asked, |queue|, b);
      }
    }
  }

  lemma MoreAsked(
    was: seq<Block>, buffer: seq<Block>, loaded: set<nat>, mapping: Mapping, queue: seq<Operation>, asked: seq<nat>,
    start: nat, dev: Option<nat>, count: nat)
    requires Asking(was, buffer, loaded, mapping, queue, asked) && start + count <= |buffer|
    requires forall b :: start <= b < start + count ==>
               b !in loaded && (b in mapping <==> dev.Some?) && (dev.Some? ==> mapping[b] == dev.value + (b - start))
    ensures var more := asked + Run(start, count);
            if dev.Some? then Asking(was, buffer, loaded, mapping, queue + [Operation(start, dev.value, count)], more)
            else Asking(was, Zeroed(buffer, start, count), loaded, mapping, queue, more)
  {
    var more := asked + Run(start, count);
    InRun(start, count);
    assert forall b :: b in more <==> b in asked || start <= b < start + count;
    var longer := if dev.Some? then queue + [Operation(start, dev.value, count)] else queue;
    hide Run;
    forall i | 0 <= i < |longer| ensures GoodRead(longer[i], mapping, more) {
      assert i < |queue| ==> GoodRead(queue[i], mapping, asked);
    }
    forall b | b in more && b in mapping ensures Covered(longer, b) {
      if b in asked {
        var i :| 0 <= i < |queue| && Covers(queue[i], b);
        assert Covers(longer[i], b);
      } else {
        assert Covers(longer[|queue|], b);
      }
    }
  }

  lemma InRun(start: nat, count: nat)
    ensures forall b: nat :: b in Run(start, count) <==> start <= b < start + count
  {
    forall b: nat | start <= b < start + count ensures b in Run(start, count) {
      assert Run(start, count)[b - start] == b;
    }
  }

  function ZeroOr(buffer: seq<Block>, start: nat, count: nat, b: nat): Block
    requires b < |buffer|
  {
    if start <= b < start + count then Zeros() else buffer[b]
  }

  function Zeroed(buffer: seq<Block>, start: nat, count: nat): (r: seq<Block>)
    ensures |r| == |buffer|
  {
    seq(|buffer|, b requires 0 <= b < |buffer| => ZeroOr(buffer, start, count, b))
  }

  // ---------------------------------------------------------------------------
  // Writing, growing, shrinking

  /** The places of the blocks are all among those in use. */
  ghost predicate InPlace(mapping: Mapping, inUse: set<nat>) {
    forall b :: b in mapping ==> mapping[b] in inUse
  }

  /** Blocks start up to end have been written out, each where it was or in a new place; nothing else reads differently. */
  ghost predicate Written(
    m: Mapping, disk: map<nat, Block>, n: Mapping, now: map<nat, Block>, buffer: seq<Block>, start: nat, end: nat)
    requires end <= |buffer|
  {
    && (forall b :: start <= b < end ==> b in n && ContentsOf(n, now, b) == buffer[b])
    && (forall b :: b in m ==> b in n && n[b] == m[b])
    && (forall b :: b in n && !(start <= b < end) ==> b in m)
    && (forall b: nat :: !(start <= b < end) ==> ContentsOf(n, now, b) == ContentsOf(m, disk, b))
  }

  lemma FlushCleans(
    buffer: seq<Block>, loaded: set<nat>, dirty: set<nat>, m: Mapping, disk: map<nat, Block>, n: Mapping, now: map<nat, Block>,
    start: nat, end: nat, clean: set<nat>)
    requires end <= |buffer| && TrueToDevice(buffer, loaded, dirty, m, disk)
    requires Written(m, disk, n, now, buffer, start, end)
    requires forall b :: b in clean <==> start <= b < end
    ensures TrueToDevice(buffer, loaded, dirty - clean, n, now)
    ensures n.Keys == m.Keys + clean
  {
    hide ContentsOf;
    forall b | b in n ensures b in m.Keys + clean {
    }
  }

  /** b is where `n` has it, or in a place that no block has. */
  ghost predicate Settles(n: Mapping, next: Mapping, b: nat) {
    if b in n then next == n
    else b in next && next == n[b := next[b]] && forall a :: a in n ==> n[a] != next[b]
  }

  lemma OnePlace(n: Mapping, now: map<nat, Block>, next: Mapping, data: Block, b: nat, x: nat)
    requires Injective(n) && Settles(n, next, b) && x != b
    ensures ContentsOf(next, now[next[b] := data], x) == ContentsOf(n, now, x)
  {
  }

  lemma StillInjective(n: Mapping, next: Mapping, b: nat)
    requires Injective(n) && Settles(n, next, b)
    ensures Injective(next)
  {
  }

  lemma OneWritten(
    m: Mapping, disk: map<nat, Block>, n: Mapping, now: map<nat, Block>, next: Mapping, buffer: seq<Block>, start: nat, b: nat)
    requires start <= b < |buffer| && Written(m, disk, n, now, buffer, start, b) && Injective(n) && Settles(n, next, b)
    ensures Written(m, disk, next, now[next[b] := buffer[b]], buffer, start, b + 1) && Injective(next)
  {
    var later := now[next[b] := buffer[b]];
    assert ContentsOf(next, later, b) == buffer[b];
    forall x: nat | x != b ensures ContentsOf(next, later, x) == ContentsOf(n, now, x) {
      OnePlace(n, now, next, buffer[b], b, x);
    }
    StillInjective(n, next, b);
    hide ContentsOf, Injective;
  }

  class Buffer {
    var buffer: seq<Block>
    var loaded: set<nat>
    var mapping: Mapping
    /** The device blocks that are set in the bitmap or held. */
    var inUse: set<nat>
    /** The inode's count of its blocks. */
    var blockCount: nat
    var disk: map<nat, Block>
    var queue: seq<Operation>
    /** Loaded blocks that were changed and not yet written out. */
    ghost var dirty: set<nat>
    /** The blocks asked of the device by the last Read, in order. */
    ghost var asked: seq<nat>

    ghost predicate Valid()
      reads this
    {
      TrueToDevice(buffer, loaded, dirty, mapping, disk) && Injective(mapping) && InPlace(mapping, inUse) && queue == []
    }

    constructor (mapping: Mapping, inUse: set<nat>, blockCount: nat, disk: map<nat, Block>)
      requires Injective(mapping) && InPlace(mapping, inUse)
      ensures Valid() && loaded == {} && dirty == {} && this.mapping == mapping && this.disk == disk && |buffer| == 1
    {
      this.mapping, this.inUse, this.blockCount, this.disk := mapping, inUse, blockCount, disk;
      buffer, loaded, dirty, queue, asked := [Zeros()], {}, {}, [], [];
    }

    /** Where a range starts on the device, or None, and for how long it goes on so. */
    method Map(start: nat, end: nat) returns (dev: Option<nat>, count: nat)
      requires start < end
      ensures 1 <= count <= end - start
      ensures forall b :: start <= b < start + count ==>
                (b in mapping <==> dev.Some?) && (dev.Some? ==> mapping[b] == dev.value + (b - start))
    {
      dev := if start in mapping then Some(mapping[start]) else None;
      count := 1;
      while start + count < end && (if dev.Some? then start + count in mapping && mapping[start + count] == dev.value + count
                                    else start + count !in mapping)
        invariant 1 <= count <= end - start
        invariant forall b :: start <= b < start + count ==>
                    (b in mapping <==> dev.Some?) && (dev.Some? ==> mapping[b] == dev.value + (b - start))
        decreases end - start - count
      {
        count := count + 1;
      }
    }

    /** Queues the read of the start of a range; blocks that have no place are zeroed at once. */
    method Enqueue(start: nat, end: nat, ghost was: seq<Block>) returns (count: nat)
      requires start < end <= |buffer| && forall b :: start <= b < end ==> b !in loaded
      requires Asking(was, buffer, loaded, mapping, queue, asked)
      modifies this`buffer, this`queue, this`asked
      ensures 1 <= count <= end - start && asked == old(asked) + Run(start, count)
      ensures Asking(was, buffer, loaded, mapping, queue, asked)
    {
      hide Asking;
      var dev;
      dev, count := Map(start, end);
      MoreAsked(was, buffer, loaded, mapping, queue, asked, start, dev, count);
      BufferKept(was, buffer, loaded, mapping, queue, asked);
      if dev.Some? {
        queue := queue + [Operation(start, dev.value, count)];
      } else {
        buffer := Zeroed(buffer, start, count);
      }
      asked := asked + Run(start, count);
    }

    /** Does the queued reads. If the device fails, after `failsAfter` of them, the others are not done. */
    method RunRequests(failsAfter: Option<nat>, ghost was: seq<Block>) returns (r: Result<()>, ghost done: nat, ghost queued: seq<Operation>)
      requires Asking(was, buffer, loaded, mapping, queue, asked)
      modifies this`buffer, this`queue
      ensures queue == [] && queued == old(queue) && done <= |queued| && (r.Ok? ==> done == |queued|)
      ensures Partly(old(buffer), buffer, mapping, disk, queued, done)
      ensures failsAfter.None? ==> r.Ok?
    {
      hide Apply, Covered;
      queued := queue;
      ghost var before := buffer;
      done := 0;
      var k := 0;
      NoneDone(buffer, mapping, disk, queue);
      while k < |queue|
        invariant k == done <= |queue| && queue == queued
        invariant Partly(before, buffer, mapping, disk, queued, done)
      {
        if failsAfter == Some(k) {
          queue := [];
          return Err(ErrIo), done, queued;
        }
        OneRead(before, buffer, mapping, disk, queued, k, asked);
        buffer := Apply(queue[k], buffer, disk);
        k, done := k + 1, done + 1;
      }
      queue := [];
      r := Ok(());
    }

    /**
     LazyReader::Read for a range of blocks. Exactly the blocks not loaded are asked for, each
     once; the range counts as loaded only on success, and a loaded block is never overwritten.
     */
    method ReadBlocks(start: nat, end: nat, failsAfter: Option<nat>) returns (r: Result<()>)
      requires Valid() && start < end <= |buffer|
      modifies this`buffer, this`queue, this`loaded, this`asked
      ensures Valid() && |buffer| == |old(buffer)| && asked == Unloaded(old(loaded), start, end)
      ensures forall b :: b in old(loaded) ==> buffer[b] == old(buffer)[b]
      ensures loaded == if r.Ok? then old(loaded) + Range(start, end) else old(loaded)
      ensures failsAfter.None? ==> r.Ok?
    {
      hide Asking, Partly, Unloaded, Run, TrueToDevice;
      ghost var was := buffer;
      asked := [];
      var block := start;
      if block in loaded {
        block := Find(loaded, false, block + 1, end);
      }
      NothingUnloaded(loaded, start, block);
      NothingAsked(buffer, loaded, mapping);
      while block < end
        invariant start <= block <= end && |buffer| == |was| && loaded == old(loaded)
        invariant block < end ==> block !in loaded
        invariant asked == Unloaded(loaded, start, block)
        invariant Asking(was, buffer, loaded, mapping, queue, asked)
        decreases end - block
      {
        var stop := Find(loaded, true, block + 1, end);
        var b := block;
        while b < stop
          invariant block <= b <= stop && |buffer| == |was| && loaded == old(loaded)
          invariant asked == Unloaded(loaded, start, b)
          invariant Asking(was, buffer, loaded, mapping, queue, asked)
          decreases stop - b
        {
          var count := Enqueue(b, stop, was);
          AllUnloaded(loaded, b, count);
          UnloadedSplit(loaded, start, b, b + count);
          BufferKept(was, buffer, loaded, mapping, queue, asked);
          b := b + count;
        }
        var next := Find(loaded, false, stop + 1, end);
        NothingUnloaded(loaded, stop, next);
        UnloadedSplit(loaded, start, stop, next);
        block := next;
      }
      ghost var queuedBuffer, done, queued := buffer, 0, queue;
      r, done, queued := RunRequests(failsAfter, was);
      OthersKept(was, queuedBuffer, buffer, loaded, dirty, mapping, disk, queued, asked, done);
      UnloadedOnce(loaded, start, end);
      LoadedKept(was, buffer, loaded, dirty, mapping, disk, asked);
      if r.Err? {
        return;
      }
      AskedLoaded(was, queuedBuffer, buffer, loaded, mapping, disk, queued, asked);
      RangeLoaded(buffer, loaded, dirty, mapping, disk, start, end, asked);
      loaded := loaded + Range(start, end);
    }

    /** LazyBuffer::Read: the buffer is made large enough first. */
    method Read(offset: nat, length: nat, failsAfter: Option<nat>) returns (r: Result<()>)
      requires Valid()
      modifies this`buffer, this`queue, this`loaded, this`asked
      ensures Valid() && |old(buffer)| <= |buffer|
      ensures forall b :: b in old(loaded) ==> buffer[b] == old(buffer)[b]
      ensures length == 0 ==> r.Ok? && loaded == old(loaded) && buffer == old(buffer)
      ensures length > 0 ==>
                var end := (offset + length + BLOCK_SIZE - 1) / BLOCK_SIZE; |buffer| == if end > |old(buffer)| then end else |old(buffer)|
      ensures r.Err? ==> loaded == old(loaded)
      ensures r.Ok? && length > 0 ==>
                && asked == Unloaded(old(loaded), offset / BLOCK_SIZE, (offset + length + BLOCK_SIZE - 1) / BLOCK_SIZE)
                && loaded == old(loaded) + BlocksOfBytes(offset, length)
      ensures failsAfter.None? ==> r.Ok?
    {
      hide Unloaded;
      if length == 0 {
        return Ok(());
      }
      var start, end := offset / BLOCK_SIZE, (offset + length + BLOCK_SIZE - 1) / BLOCK_SIZE;
      if end > |buffer| {
        buffer := buffer + seq(end - |buffer|, i => Zeros());
      }
      r := ReadBlocks(start, end, failsAfter);
      RangeOfBytes(offset, length);
    }

    /** A loaded block is changed through a view. */
    method Change(b: nat, data: Block)
      requires Valid() && b in loaded
      modifies this`buffer, this`dirty
      ensures Valid() && buffer == old(buffer)[b := data] && dirty == old(dirty) + {b}
    {
      buffer := buffer[b := data];
      dirty := dirty + {b};
    }

    /** Where a range starts on the device and for how long it goes on so; a block without a place is given one. */
    method MapForWrite(start: nat, end: nat) returns (dev: nat, count: nat)
      requires start < end && Injective(mapping) && InPlace(mapping, inUse)
      modifies this`mapping, this`inUse, this`blockCount
      ensures 1 <= count <= end - start && InPlace(mapping, inUse) && Settles(old(mapping), mapping, start)
      ensures forall b :: start <= b < start + count ==> b in mapping && mapping[b] == dev + (b - start)
      ensures if start in old(mapping) then inUse == old(inUse) && blockCount == old(blockCount)
              else count == 1 && dev != 0 && dev !in old(inUse) && inUse == old(inUse) + {dev} && blockCount == old(blockCount) + 1
    {
      var place;
      place, count := Map(start, end);
      if place.Some? {
        return place.value, count;
      }
      dev, count := NextClear(inUse, 1), 1;
      mapping := mapping[start := dev];
      inUse := inUse + {dev};
      blockCount := blockCount + 1;
    }

    /**
     A view's blocks are written to where they are mapped to, after those without a place have been
     given one; then they are clean. All other blocks read as before.
     */
    method Flush(start: nat, end: nat)
      requires Valid() && start <= end <= |buffer|
      modifies this`disk, this`dirty, this`mapping, this`inUse, this`blockCount
      ensures Valid() && dirty == old(dirty) - Range(start, end)
      ensures forall b :: start <= b < end ==> ContentsOf(mapping, disk, b) == buffer[b]
      ensures forall b: nat :: !(start <= b < end) ==> ContentsOf(mapping, disk, b) == ContentsOf(old(mapping), old(disk), b)
      ensures mapping.Keys == old(mapping).Keys + Range(start, end)
      ensures forall b :: b in old(mapping) ==> mapping[b] == old(mapping)[b]
      ensures blockCount - |mapping| == old(blockCount) - |old(mapping)|
    {
      hide TrueToDevice, Injective, InPlace, ContentsOf;
      ghost var before, was := disk, mapping;
      ghost var clean := Range(start, end);
      var b := start;
      while b < end
        invariant start <= b <= end && dirty == old(dirty) && Injective(mapping) && InPlace(mapping, inUse)
        invariant Written(was, before, mapping, disk, buffer, start, b)
        invariant blockCount - |mapping| == old(blockCount) - |was|
      {
        ghost var known := mapping;
        var dev, count := MapForWrite(b, end);
        var i := 0;
        ghost var first, placed, used, blocks := b, mapping, inUse, blockCount;
        while i < count
          invariant 0 <= i <= count && b == first + i && dirty == old(dirty)
          invariant mapping == placed && inUse == used && blockCount == blocks
          invariant Injective(if i == 0 then known else mapping)
          invariant Written(was, before, if i == 0 then known else mapping, disk, buffer, start, b)
        {
          OneWritten(was, before, if i == 0 then known else mapping, disk, mapping, buffer, start, b);
          disk := disk[dev + i := buffer[b]];
          i, b := i + 1, b + 1;
        }
      }
      FlushCleans(buffer, loaded, dirty, was, before, mapping, disk, start, end, clean);
      dirty := dirty - clean;
    }

    /** Blocks from blockCount on are given up, loaded or not. */
    method Shrink(blockCount: nat)
      requires Valid()
      modifies this`buffer, this`loaded
      ensures Valid() && loaded == (set b | b in old(loaded) && b < blockCount)
      ensures buffer == if |old(buffer)| <= blockCount || |old(buffer)| <= 1 then old(buffer)
                        else old(buffer)[..if blockCount == 0 then 1 else blockCount]
      ensures forall b :: b in loaded ==> buffer[b] == old(buffer)[b]
    {
      loaded := set b | b in loaded && b < blockCount;
      var kept := if blockCount < 1 then 1 else blockCount;
      if kept < |buffer| {
        buffer := buffer[..kept];
      }
    }
  }

  lemma NoneDone(buffer: seq<Block>, mapping: Mapping, disk: map<nat, Block>, queue: seq<Operation>)
    ensures Partly(buffer, buffer, mapping, disk, queue, 0)
  {
  }

  lemma NothingAsked(buffer: seq<Block>, loaded: set<nat>, mapping: Mapping)
    ensures Asking(buffer, buffer, loaded, mapping, [], [])
  {
  }

  lemma BufferKept(
    was: seq<Block>, buffer: seq<Block>, loaded: set<nat>, mapping: Mapping, queue: seq<Operation>, asked: seq<nat>)
    requires Asking(was, buffer, loaded, mapping, queue, asked)
    ensures |buffer| == |was|
  {
  }

  lemma LoadedKept(
    was: seq<Block>, now: seq<Block>, loaded: set<nat>, dirty: set<nat>, mapping: Mapping, disk: map<nat, Block>, asked: seq<nat>)
    requires |now| == |was| && TrueToDevice(was, loaded, dirty, mapping, disk)
    requires forall b :: b in asked ==> b !in loaded
    requires forall b :: 0 <= b < |was| && b !in asked ==> now[b] == was[b]
    ensures forall b :: b in loaded ==> b < |was| && now[b] == was[b]
  {
  }

  lemma RangeLoaded(
    buffer: seq<Block>, loaded: set<nat>, dirty: set<nat>, mapping: Mapping, disk: map<nat, Block>, start: nat, end: nat,
    asked: seq<nat>)
    requires TrueToDevice(buffer, loaded, dirty, mapping, disk) && end <= |buffer|
    requires forall b :: b in asked <==> start <= b < end && b !in loaded
    requires forall b :: b in asked ==> b < |buffer| && buffer[b] == ContentsOf(mapping, disk, b)
    ensures TrueToDevice(buffer, loaded + Range(start, end), dirty, mapping, disk)
  {
    hide ContentsOf;
  }

  lemma RangeOfBytes(offset: nat, length: nat)
    requires length > 0
    ensures Range(offset / BLOCK_SIZE, (offset + length + BLOCK_SIZE - 1) / BLOCK_SIZE) == BlocksOfBytes(offset, length)
  {
    BlocksOfBytesRange(offset, length);
  }
}
