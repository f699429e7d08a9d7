/** How many blocks a write may have to allocate, and the most any single write can need. */
module TransactionLimits {
  import opened Wrappers
  import opened Sets
  import opened PointerTree

  const BLOCK_SIZE := 8192
  const MAX_WRITE_BYTES := 65536
  const MAX_FILE_BLOCKS := 0xFFFF_FFFF / BLOCK_SIZE - 1
  const MAX_FILE_SIZE := MAX_FILE_BLOCKS * BLOCK_SIZE

  /** The number of blocks to reserve for writing `length` bytes at `offset`. */
  function GetRequiredBlockCount(offset: nat, length: nat, blockSize: nat): (r: Result<nat>)
    ensures blockSize != BLOCK_SIZE ==> r == Err(ErrInvalidArgs)
    ensures blockSize == BLOCK_SIZE && length == 0 ==> r == Ok(0)
  {
    if blockSize != BLOCK_SIZE then Err(ErrInvalidArgs)
    else if length == 0 then Ok(0)
    else
      var first := offset / blockSize;
      var last := (offset + length - 1) / blockSize;
      var data := last - first + 1;
      if last < DIRECT then Ok(data)
      else
        var firstIndirect := ((if first > DIRECT then first else DIRECT) - DIRECT) / PER_INDIRECT;
        var lastIndirect := (last - DIRECT) / PER_INDIRECT;
        var indirect := lastIndirect - firstIndirect + 1;
        if lastIndirect < INDIRECT then Ok(data + indirect)
        else
          var firstDouble := ((if firstIndirect > INDIRECT then firstIndirect else INDIRECT) - INDIRECT) / PER_INDIRECT;
          var lastDouble := (lastIndirect - INDIRECT) / PER_INDIRECT;
          if lastDouble >= 1 then Err(ErrOutOfRange)
          else Ok(data + indirect + (lastDouble - firstDouble + 1))
  }

  // ---------------------------------------------------------------------------
  // What the number means

  function BlockOfByte(b: nat): nat {
    b / BLOCK_SIZE
  }

  /** The file blocks that hold some byte of the range. */
  ghost function BlocksOfBytes(offset: nat, length: nat): set<nat> {
    set b | offset <= b < offset + length :: BlockOfByte(b)
  }

  /** Pointer block f is on the way from the inode to the pointer of file block n. */
  ghost predicate OnPath(n: nat, f: nat) {
    DIRECT <= n < MAX_BLOCKS && (f == BlockOf(n) || (DOUBLE_START <= n && f == ROOT))
  }

  ghost predicate OnSomePath(blocks: set<nat>, f: nat) {
    exists n :: n in blocks && OnPath(n, f)
  }

  /** All pointer blocks on the ways to a set of file blocks. */
  ghost function Paths(blocks: set<nat>): set<nat> {
    set f | 0 <= f < POINTER_BLOCKS && OnSomePath(blocks, f)
  }

  ghost function Interval(a: nat, b: nat): set<nat> {
    set n | n in Below(b) && a <= n
  }

  lemma {:induction false} IntervalSize(a: nat, b: nat)
    requires a <= b
    ensures |Interval(a, b)| == b - a
    decreases b - a
  {
    if a < b {
      IntervalSize(a, b - 1);
      assert Interval(a, b) == Interval(a, b - 1) + {b - 1};
    } else {
      assert Interval(a, b) == {};
    }
  }

  lemma BlocksOfBytesRange(offset: nat, length: nat)
    requires length > 0
    ensures BlocksOfBytes(offset, length) == Interval(offset / BLOCK_SIZE, (offset + length - 1) / BLOCK_SIZE + 1)
  {
    var first, last := offset / BLOCK_SIZE, (offset + length - 1) / BLOCK_SIZE;
    forall n | first <= n <= last ensures n in BlocksOfBytes(offset, length) {
      var b := if n == first then offset else n * BLOCK_SIZE;
      assert offset <= b < offset + length && BlockOfByte(b) == n;
    }
  }

  /** The position, among the pointer blocks with data pointers, of the one for the first block at or after n. */
  function LeafAt(n: nat): nat {
    ((if n > DIRECT then n else DIRECT) - DIRECT) / PER_INDIRECT
  }

  lemma LeafAtLaws(n: nat)
    ensures DIRECT <= n < MAX_BLOCKS ==> BlockOf(n) == NthLeaf(LeafAt(n)) && LeafAt(n) < INDIRECT + PER_INDIRECT
    ensures LeafAt(n) >= INDIRECT <==> n >= DOUBLE_START
    ensures LeafAt(n) >= INDIRECT + PER_INDIRECT <==> n >= MAX_BLOCKS
  {
  }

  lemma LeafAtMonotone(m: nat, n: nat)
    requires m <= n
    ensures LeafAt(m) <= LeafAt(n)
  {
  }

  /** Pointer block position q is reached between the positions of first and last. */
  lemma LeafReached(first: nat, last: nat, q: nat) returns (n: nat)
    requires first <= last && DIRECT <= last < MAX_BLOCKS && LeafAt(first) <= q <= LeafAt(last)
    ensures first <= n <= last && DIRECT <= n && LeafAt(n) == q
  {
    var start := DIRECT + q * PER_INDIRECT;
    n := if start < first then first else start;
  }

  /** The position-wise form of the count. */
  lemma RequiredBySteps(offset: nat, length: nat)
    requires length > 0
    ensures var first, last := offset / BLOCK_SIZE, (offset + length - 1) / BLOCK_SIZE;
            GetRequiredBlockCount(offset, length, BLOCK_SIZE) ==
            if last < DIRECT then Ok(last - first + 1)
            else if last >= MAX_BLOCKS then Err(ErrOutOfRange)
            else Ok((last - first + 1) + (LeafAt(last) - LeafAt(first) + 1) + (if last >= DOUBLE_START then 1 else 0))
  {
    var first, last := offset / BLOCK_SIZE, (offset + length - 1) / BLOCK_SIZE;
    LeafAtLaws(last);
    LeafAtMonotone(first, last);
    assert first <= last;
  }

  /** The pointer block at position q among those that hold data pointers. */
  function NthLeaf(q: nat): nat {
    if q < INDIRECT then q else q + 1
  }

  ghost function Leaves(a: nat, b: nat): set<nat> {
    set q | a <= q < b :: NthLeaf(q)
  }

  lemma {:induction false} LeavesSize(a: nat, b: nat)
    requires a <= b
    ensures |Leaves(a, b)| == b - a
    decreases b - a
  {
    if a < b {
      LeavesSize(a, b - 1);
      assert Leaves(a, b) == Leaves(a, b - 1) + {NthLeaf(b - 1)};
    } else {
      assert Leaves(a, b) == {};
    }
  }

  /** The pointer blocks on the way to a range of file blocks that reaches the indirect region. */
  lemma PathsOfRange(first: nat, last: nat)
    requires first <= last && DIRECT <= last < MAX_BLOCKS
    ensures Paths(Interval(first, last + 1)) ==
            Leaves(LeafAt(first), LeafAt(last) + 1) + (if last >= DOUBLE_START then {ROOT} else {})
  {
    var q0, q1, blocks := LeafAt(first), LeafAt(last), Interval(first, last + 1);
    forall q | q0 <= q <= q1 ensures NthLeaf(q) in Paths(blocks) {
      var n := LeafReached(first, last, q);
      LeafAtLaws(n);
      hide LeafAt, BlockOf;
      assert n in blocks && OnPath(n, NthLeaf(q));
    }
    forall f | f in Paths(blocks) ensures f in Leaves(q0, q1 + 1) || (last >= DOUBLE_START && f == ROOT) {
      var n :| n in blocks && OnPath(n, f);
      LeafAtLaws(n);
      LeafAtMonotone(first, n);
      LeafAtMonotone(n, last);
      hide LeafAt, BlockOf;
      assert f == ROOT || f == NthLeaf(LeafAt(n));
    }
    if last >= DOUBLE_START {
      assert last in blocks && OnPath(last, ROOT);
    }
  }

  /**
   GetRequiredBlockCount is exact: one per data block, one per pointer block on the way to
   any of them. It fails exactly for ranges that end beyond the last block of a file.
   */
  lemma RequiredIsExact(offset: nat, length: nat)
    ensures var blocks := BlocksOfBytes(offset, length);
            GetRequiredBlockCount(offset, length, BLOCK_SIZE) ==
            if length > 0 && (offset + length - 1) / BLOCK_SIZE >= MAX_BLOCKS then Err(ErrOutOfRange)
            else Ok(|blocks| + |Paths(blocks)|)
  {
    hide Interval, Leaves, BlocksOfBytes, Paths, LeafAt, GetRequiredBlockCount;
    if length == 0 {
      NoBytes(offset);
    } else {
      var first, last := offset / BLOCK_SIZE, (offset + length - 1) / BLOCK_SIZE;
      BlocksOfBytesRange(offset, length);
      RequiredBySteps(offset, length);
      IntervalSize(first, last + 1);
      if last < DIRECT {
        NoPaths(first, last);
      } else if last < MAX_BLOCKS {
        var q0, q1 := LeafAt(first), LeafAt(last);
        LeafAtMonotone(first, last);
        PathsOfRange(first, last);
        LeavesSize(q0, q1 + 1);
        LeavesWithoutRoot(q0, q1 + 1);
        assert Leaves(q0, q1 + 1) + {} == Leaves(q0, q1 + 1);
      }
    }
  }

  lemma NoBytes(offset: nat)
    ensures BlocksOfBytes(offset, 0) == {} && Paths({}) == {}
  {
  }

  lemma NoPaths(first: nat, last: nat)
    requires last < DIRECT
    ensures Paths(Interval(first, last + 1)) == {}
  {
  }

  lemma LeavesWithoutRoot(a: nat, b: nat)
    ensures ROOT !in Leaves(a, b)
    ensures |Leaves(a, b) + {ROOT}| == |Leaves(a, b)| + 1
  {
  }

  /** The largest number of data and pointer blocks a write may need, taken at one chosen offset. */
  function MaxDataBlocks(): Result<nat> {
    GetRequiredBlockCount(DOUBLE_START * BLOCK_SIZE - 1, MAX_WRITE_BYTES, BLOCK_SIZE)
  }

  /** No write within the size limits needs more than at that offset. */
  lemma MaxDataBlocksIsMax(offset: nat, length: nat)
    requires offset + length <= MAX_FILE_SIZE && length <= MAX_WRITE_BYTES
    ensures MaxDataBlocks() == Ok(12)
    ensures var r := GetRequiredBlockCount(offset, length, BLOCK_SIZE); r.Ok? && r.value <= MaxDataBlocks().value
    ensures |BlocksOfBytes(offset, length)| <= 9
  {
    if length > 0 {
      BlocksOfBytesRange(offset, length);
      IntervalSize(offset / BLOCK_SIZE, (offset + length - 1) / BLOCK_SIZE + 1);
      assert (offset + length - 1) / BLOCK_SIZE < MAX_FILE_BLOCKS;
    } else {
      assert BlocksOfBytes(offset, length) == {};
    }
  }
}
