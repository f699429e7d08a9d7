/** Runs of file blocks that are all unmapped, or mapped to consecutive device blocks. */
module ContiguousRuns {
  import opened PointerTree
  import opened IteratorSpec

  /** One past the last file block of the region (direct, indirect, doubly indirect) of n. */
  function RegionEnd(n: nat): nat {
    if n < DIRECT then DIRECT else if n < DOUBLE_START then DOUBLE_START else MAX_BLOCKS
  }

  /** File block m is unmapped, and if it lies under another pointer block than n, that has no place. */
  ghost predicate SparseFrom(t: Tree, n: nat, m: nat)
    requires n < MAX_BLOCKS && m < MAX_BLOCKS
  {
    Lookup(t, m) == 0 && (DIRECT <= n && DIRECT <= m && BlockOf(m) != BlockOf(n) ==> Parent(t, BlockOf(m)) == 0)
  }

  ghost predicate SparseRun(t: Tree, n: nat, count: nat) {
    n < MAX_BLOCKS && n + count <= MAX_BLOCKS && forall m :: n <= m < n + count ==> SparseFrom(t, n, m)
  }

  ghost predicate MappedRun(t: Tree, n: nat, count: nat) {
    n < MAX_BLOCKS && n + count <= MAX_BLOCKS && forall m :: n <= m < n + count ==> Lookup(t, m) == Lookup(t, n) + (m - n)
  }

  /**
   A run of `count` file blocks from n: inside one region, and either all unmapped without
   passing over a pointer block that has a place, or mapped to consecutive device blocks.
   */
  ghost predicate RunSound(t: Tree, n: nat, count: nat) {
    && n < MAX_BLOCKS && 1 <= count && n + count <= RegionEnd(n)
    && if Lookup(t, n) == 0 then SparseRun(t, n, count) else MappedRun(t, n, count)
  }

  /** The rest of a run is a run. */
  lemma RunSuffix(t: Tree, n: nat, count: nat, k: nat)
    requires RunSound(t, n, count) && k < count
    ensures RunSound(t, n + k, count - k)
  {
    hide Lookup, Parent;
    if Lookup(t, n) == 0 {
      var p := n + k;
      assert SparseFrom(t, n, p);
      forall m | p <= m < n + count ensures SparseFrom(t, p, m) {
        assert SparseFrom(t, n, m);
        if DIRECT <= n {
          Ordered(n, p, m);
        }
      }
    } else {
      assert Lookup(t, n + k) == Lookup(t, n) + k;
    }
  }

  /** And so is its beginning. */
  lemma RunPrefix(t: Tree, n: nat, count: nat, k: nat)
    requires RunSound(t, n, count) && 1 <= k <= count
    ensures RunSound(t, n, k)
  {
    hide Lookup, SparseFrom;
  }

  lemma Ordered(a: nat, b: nat, c: nat)
    requires a <= b <= c < MAX_BLOCKS && DIRECT <= a
    ensures BlockOf(a) <= BlockOf(b) <= BlockOf(c)
  {
  }

  // ---------------------------------------------------------------------------
  // The upward scan

  /** The first file block that entry `index` of a level stands for. */
  function StartAt(n: nat, level: nat, index: nat): int
    requires level < LevelCount(n)
  {
    if level == 0 then n - IndexAt(n, 0) + index
    else if level == 1 then (if LevelCount(n) == 2 then DIRECT else DOUBLE_START) + index * PER_INDIRECT
    else DOUBLE_START + index * (PER_INDIRECT * PER_INDIRECT)
  }

  /** How many file blocks an entry of a level stands for. */
  function Multiplier(level: nat): nat {
    if level == 0 then 1 else PER_INDIRECT * Multiplier(level - 1)
  }

  /** The end of one level's view is where the next entry of the level above starts. */
  lemma LevelUp(n: nat, level: nat)
    requires level + 1 < LevelCount(n)
    ensures StartAt(n, level, CountOf(BankAt(n, level))) == StartAt(n, level + 1, IndexAt(n, level + 1) + 1)
  {
  }

  lemma ScanEnds(n: nat)
    requires n < MAX_BLOCKS
    ensures var l := LevelCount(n) - 1; StartAt(n, l, CountOf(BankAt(n, l))) == RegionEnd(n)
    ensures StartAt(n, 0, IndexAt(n, 0)) == n
    ensures LevelCount(n) == 3 ==> IndexAt(n, 2) + 1 == CountOf(BankAt(n, 2))
  {
  }

  /** The entries lo..hi of a level's view are zero, or it has no view. */
  ghost predicate ZeroCells(t: Tree, l: Level, lo: nat, hi: nat) {
    l.valid && InMemory(t, l.bank) && hi <= CountOf(l.bank) ==> forall j :: lo <= j < hi ==> Cells(t, l.bank)[j] == 0
  }

  /** Unmapped entries of the lowest view. */
  lemma ScanLowest(t: Tree, n: nat, levels: seq<Level>, hi: nat)
    requires IteratorInv(t, n, levels) && n < MAX_BLOCKS && IndexAt(n, 0) <= hi <= CountOf(BankAt(n, 0))
    requires ZeroCells(t, levels[0], IndexAt(n, 0), hi)
    ensures n + (hi - IndexAt(n, 0)) <= MAX_BLOCKS && SparseRun(t, n, hi - IndexAt(n, 0))
  {
    hide Coherent, Unshared, RootTail;
    var cells := if levels[0].valid then Cells(t, BankAt(n, 0)) else [];
    forall m | n <= m < n + (hi - IndexAt(n, 0)) ensures m < MAX_BLOCKS && SparseFrom(t, n, m) {
      SameBlock(n, m - n);
      if levels[0].valid {
        assert cells[IndexAt(n, 0) + (m - n)] == 0;
      } else {
        SparseView(t, n, levels);
      }
    }
  }

  lemma SparseView(t: Tree, n: nat, levels: seq<Level>)
    requires IteratorInv(t, n, levels) && DIRECT <= n < MAX_BLOCKS && !levels[0].valid
    ensures Content(t, BlockOf(n)) == Zeros()
  {
    assert Synced(t, BlockOf(n));
  }

  /** Empty entries of the level above: pointer blocks without a place, and nothing in them. */
  lemma ScanAbove(t: Tree, n: nat, levels: seq<Level>, c: nat, lo: nat, hi: nat)
    requires IteratorInv(t, n, levels) && LevelCount(n) >= 2
    requires SparseRun(t, n, c) && n + c == StartAt(n, 1, lo)
    requires IndexAt(n, 1) < lo <= hi <= CountOf(BankAt(n, 1))
    requires ZeroCells(t, levels[1], lo, hi)
    ensures SparseRun(t, n, c + (hi - lo) * PER_INDIRECT)
  {
    hide Lookup, Coherent, Unshared, RootTail, SparseFrom, Cells;
    var end := n + c + (hi - lo) * PER_INDIRECT;
    assert end == StartAt(n, 1, hi);
    EntryEnd(n, hi);
    forall m | n + c <= m < end ensures m < MAX_BLOCKS && SparseFrom(t, n, m) {
      var i := (m - (n + c)) / PER_INDIRECT;
      EntryOf(n, m, lo, hi, i);
      if levels[1].valid {
        var cells := Cells(t, BankAt(n, 1));
        assert cells[lo + i] == 0;
      }
      OutOfView(t, n, levels, m);
    }
  }

  lemma EntryEnd(n: nat, hi: nat)
    requires LevelCount(n) >= 2 && hi <= CountOf(BankAt(n, 1))
    ensures StartAt(n, 1, hi) <= MAX_BLOCKS
  {
  }

  /** A zero entry of the level above, other than the one in use: nothing below it. */
  lemma OutOfView(t: Tree, n: nat, levels: seq<Level>, m: nat)
    requires IteratorInv(t, n, levels) && DIRECT <= n < m < MAX_BLOCKS
    requires BlockOf(m) > BlockOf(n) && ParentBank(BlockOf(m)) == BankAt(n, 1)
    requires levels[1].valid ==> Cells(t, BankAt(n, 1))[ParentIndex(BlockOf(m))] == 0
    ensures SparseFrom(t, n, m)
  {
    hide Unshared;
    var f := BlockOf(m);
    assert f !in DirtyBlocks(n, levels);
    assert Synced(t, f);
    if levels[1].valid {
      SetParentCell(t, f, 0);
    } else {
      assert Synced(t, ROOT);
    }
  }

  /** Which entry of level 1 leads to file block m. */
  lemma EntryOf(n: nat, m: nat, lo: nat, hi: nat, i: nat)
    requires LevelCount(n) >= 2 && IndexAt(n, 1) < lo <= hi <= CountOf(BankAt(n, 1))
    requires StartAt(n, 1, lo) <= m < StartAt(n, 1, hi) && i == (m - StartAt(n, 1, lo)) / PER_INDIRECT
    ensures DIRECT <= m < MAX_BLOCKS && LevelCount(m) == LevelCount(n) && lo + i < hi && n < m
    ensures BlockOf(m) > BlockOf(n) && ParentIndex(BlockOf(m)) == lo + i && ParentBank(BlockOf(m)) == BankAt(n, 1)
  {
  }
}
