/** Formatting a device that is not in slices: where each region goes, and when the result can be mounted. */
module Mkfs {
  import opened Wrappers
  import opened PointerTree
  import opened TransactionLimits
  import DirectoryRecords

  const BLOCK_BITS := BLOCK_SIZE * 8
  const INODES_PER_BLOCK := 32
  const DEFAULT_INODES := 4096
  const INODE_BLOCKS := (DEFAULT_INODES + INODES_PER_BLOCK - 1) / INODES_PER_BLOCK
  const INODE_BITMAP_BLOCKS := (DEFAULT_INODES + BLOCK_BITS - 1) / BLOCK_BITS
  const DEFAULT_JOURNAL_BLOCKS := 256

  function RoundUp(n: nat, unit: nat): (r: nat)
    requires unit > 0
    ensures n <= r < n + unit && exists q: nat :: r == q * unit
  {
    var q := (n + unit - 1) / unit;
    assert q * unit <= n + unit - 1 < q * unit + unit;
    q * unit
  }

  function Larger(a: nat, b: nat): nat {
    if a > b then a else b
  }

  // ---------------------------------------------------------------------------
  // The size of the journal

  /** Metadata blocks in the data region that one transaction may write. */
  function MaxMetaDataBlocks(): nat {
    var directory := GetRequiredBlockCount(DOUBLE_START * BLOCK_SIZE - 1, DirectoryRecords.DirentSize(255), BLOCK_SIZE);
    var data := MaxDataBlocks();
    var direct := RoundUp(MAX_WRITE_BYTES, BLOCK_SIZE) / BLOCK_SIZE + 1;
    if directory.Ok? && data.Ok? && data.value >= direct then Larger(directory.value, data.value - direct) else 0
  }

  function MaxEntryDataBlocks(bitmapBlocks: nat): nat {
    2 + 1 + bitmapBlocks + 2 + MaxMetaDataBlocks()
  }

  /** descriptors: how many block numbers fit into the first header block of a journal entry. */
  function HeaderBlocks(data: nat, descriptors: nat): nat {
    if data > descriptors then 1 + RoundUp(data - descriptors, PER_INDIRECT) / PER_INDIRECT else 1
  }

  function RevocationBlocks(): nat {
    var directory := GetRequiredBlockCount(0, DirectoryRecords.MAX_DIRECTORY, BLOCK_SIZE);
    if directory.Ok? then RoundUp(Larger(directory.value, INDIRECT + PER_INDIRECT), PER_INDIRECT) / PER_INDIRECT else 0
  }

  /** The smallest journal that holds one entry of the largest size, with its superblock and the backup superblock. */
  function MinimumIntegrityBlocks(bitmapBlocks: nat, descriptors: nat): nat {
    var data := MaxEntryDataBlocks(bitmapBlocks);
    HeaderBlocks(data, descriptors) + RevocationBlocks() + data + 1 + 1 + 1
  }

  // ---------------------------------------------------------------------------
  // What the smallest journal is the smallest for

  /** A write touches at most two pointer blocks that hold data pointers, and the one above them. */
  lemma FewPointers(offset: nat, length: nat)
    requires offset + length <= MAX_FILE_SIZE && length <= MAX_WRITE_BYTES
    ensures |Paths(BlocksOfBytes(offset, length))| <= 3
  {
    hide BlocksOfBytes, Paths, Interval, Leaves;
    if length == 0 {
      NoBytes(offset);
    } else {
      var first, last := offset / BLOCK_SIZE, (offset + length - 1) / BLOCK_SIZE;
      BlocksOfBytesRange(offset, length);
      if last < DIRECT {
        NoPaths(first, last);
      } else {
        PathsOfRange(first, last);
        LeavesSize(LeafAt(first), LeafAt(last) + 1);
        LeavesWithoutRoot(LeafAt(first), LeafAt(last) + 1);
        assert Leaves(LeafAt(first), LeafAt(last) + 1) + {} == Leaves(LeafAt(first), LeafAt(last) + 1);
      }
    }
  }

  lemma WorstEntry()
    ensures MaxMetaDataBlocks() == 5
    ensures var worst := BlocksOfBytes(DOUBLE_START * BLOCK_SIZE - 1, DirectoryRecords.DirentSize(255)); |worst| + |Paths(worst)| == 5
  {
    hide BlocksOfBytes, Paths;
    RequiredIsExact(DOUBLE_START * BLOCK_SIZE - 1, DirectoryRecords.DirentSize(255));
  }

  lemma EntryIsSmall(offset: nat, length: nat)
    requires offset + length <= MAX_FILE_SIZE && length <= DirectoryRecords.DirentSize(255)
    ensures |BlocksOfBytes(offset, length)| + |Paths(BlocksOfBytes(offset, length))| <= 5
  {
    hide BlocksOfBytes, Paths, Interval;
    FewPointers(offset, length);
    if length == 0 {
      NoBytes(offset);
    } else {
      BlocksOfBytesRange(offset, length);
      IntervalSize(offset / BLOCK_SIZE, (offset + length - 1) / BLOCK_SIZE + 1);
    }
  }

  /**
   No entry written to a directory touches more metadata blocks, and no write to a file more pointer
   blocks; one entry, at the place where the doubly indirect blocks begin, touches as many.
   */
  lemma MetaDataIsMax(offset: nat, length: nat)
    requires offset + length <= MAX_FILE_SIZE
    ensures var blocks := BlocksOfBytes(offset, length);
            && (length <= DirectoryRecords.DirentSize(255) ==> |blocks| + |Paths(blocks)| <= MaxMetaDataBlocks())
            && (length <= MAX_WRITE_BYTES ==> |Paths(blocks)| <= MaxMetaDataBlocks())
    ensures var worst := BlocksOfBytes(DOUBLE_START * BLOCK_SIZE - 1, DirectoryRecords.DirentSize(255));
            |worst| + |Paths(worst)| == MaxMetaDataBlocks()
  {
    hide BlocksOfBytes, Paths, MaxMetaDataBlocks;
    WorstEntry();
    if length <= DirectoryRecords.DirentSize(255) {
      EntryIsSmall(offset, length);
    }
    if length <= MAX_WRITE_BYTES {
      FewPointers(offset, length);
    }
  }

  /** The numbers of that many blocks fit into a header of that many. */
  predicate HeaderHolds(header: nat, data: nat, descriptors: nat) {
    header >= 1 && data <= descriptors + (header - 1) * PER_INDIRECT
  }

  /** The blocks a transaction may delete at once: those of the largest directory, or the pointer blocks of the largest file. */
  ghost function MaxRevoked(): nat {
    var directory := BlocksOfBytes(0, DirectoryRecords.MAX_DIRECTORY);
    Larger(|directory| + |Paths(directory)|, POINTER_BLOCKS)
  }

  predicate HoldsRevocations(revocation: nat, count: nat) {
    count <= revocation * PER_INDIRECT
  }

  /** The blocks of each kind that a transaction writes through the journal. */
  datatype Entry = Entry(superblocks: nat, inodeBitmap: nat, blockBitmap: nat, inodeTable: nat, metadata: nat)

  function Size(e: Entry): nat {
    e.superblocks + e.inodeBitmap + e.blockBitmap + e.inodeTable + e.metadata
  }

  /** Both superblocks, one bit of the inode bitmap, any part of the block bitmap, two inodes, and what one write needs in the data region. */
  predicate Possible(e: Entry, bitmapBlocks: nat) {
    && e.superblocks <= 2 && e.inodeBitmap <= 1 && e.blockBitmap <= bitmapBlocks && e.inodeTable <= 2
    && e.metadata <= MaxMetaDataBlocks()
  }

  /** Header, revocations, the blocks themselves and the commit block, beside the superblock of the journal and the backup superblock. */
  ghost predicate Room(journal: nat, header: nat, revocation: nat, bitmapBlocks: nat, descriptors: nat) {
    forall e :: Possible(e, bitmapBlocks) ==> HeaderHolds(header, Size(e), descriptors) && journal >= header + revocation + Size(e) + 1 + 1 + 1
  }

  /** A journal of so many blocks has room for every possible entry. */
  ghost predicate HoldsEveryEntry(journal: nat, bitmapBlocks: nat, descriptors: nat) {
    exists header: nat, revocation: nat ::
      HoldsRevocations(revocation, MaxRevoked()) && Room(journal, header, revocation, bitmapBlocks, descriptors)
  }

  lemma RoomForTheLargest(journal: nat, header: nat, revocation: nat, bitmapBlocks: nat, descriptors: nat)
    ensures var data := MaxEntryDataBlocks(bitmapBlocks);
            Room(journal, header, revocation, bitmapBlocks, descriptors) <==>
            HeaderHolds(header, data, descriptors) && journal >= header + revocation + data + 1 + 1 + 1
  {
    hide MaxMetaDataBlocks;
    var largest := Entry(2, 1, bitmapBlocks, 2, MaxMetaDataBlocks());
    assert Possible(largest, bitmapBlocks) && Size(largest) == MaxEntryDataBlocks(bitmapBlocks);
  }

  lemma HeaderIsLeast(header: nat, data: nat, descriptors: nat)
    ensures HeaderHolds(header, data, descriptors) <==> header >= HeaderBlocks(data, descriptors)
  {
  }

  lemma RevocationIsLeast(revocation: nat)
    ensures HoldsRevocations(revocation, MaxRevoked()) <==> revocation >= RevocationBlocks()
  {
    RequiredIsExact(0, DirectoryRecords.MAX_DIRECTORY);
    hide BlocksOfBytes, Paths;
  }

  /** The smallest journal is the smallest that will do. */
  lemma MinimumIsExact(journal: nat, bitmapBlocks: nat, descriptors: nat)
    ensures journal >= MinimumIntegrityBlocks(bitmapBlocks, descriptors) <==> HoldsEveryEntry(journal, bitmapBlocks, descriptors)
  {
    hide HeaderHolds, HoldsRevocations, HeaderBlocks, RevocationBlocks, MaxEntryDataBlocks, MaxRevoked, Room;
    var data := MaxEntryDataBlocks(bitmapBlocks);
    var h, v := HeaderBlocks(data, descriptors), RevocationBlocks();
    HeaderIsLeast(h, data, descriptors);
    RevocationIsLeast(v);
    RoomForTheLargest(journal, h, v, bitmapBlocks, descriptors);
    if HoldsEveryEntry(journal, bitmapBlocks, descriptors) {
      var header: nat, revocation: nat :|
        HoldsRevocations(revocation, MaxRevoked()) && Room(journal, header, revocation, bitmapBlocks, descriptors);
      RoomForTheLargest(journal, header, revocation, bitmapBlocks, descriptors);
      HeaderIsLeast(header, data, descriptors);
      RevocationIsLeast(revocation);
    }
  }

  function RecommendedIntegrityBlocks(bitmapBlocks: nat, descriptors: nat): nat {
    Larger(MinimumIntegrityBlocks(bitmapBlocks, descriptors), DEFAULT_JOURNAL_BLOCKS)
  }

  /** And the recommended one the smallest that will do and is not below the default. */
  lemma RecommendedIsExact(journal: nat, bitmapBlocks: nat, descriptors: nat)
    ensures journal >= RecommendedIntegrityBlocks(bitmapBlocks, descriptors) <==>
            journal >= DEFAULT_JOURNAL_BLOCKS && HoldsEveryEntry(journal, bitmapBlocks, descriptors)
  {
    hide MinimumIntegrityBlocks, HoldsEveryEntry;
    MinimumIsExact(journal, bitmapBlocks, descriptors);
  }

  lemma MinimumGrows(a: nat, b: nat, descriptors: nat)
    requires a <= b
    ensures MinimumIntegrityBlocks(a, descriptors) + (b - a) <= MinimumIntegrityBlocks(b, descriptors)
  {
    hide MaxMetaDataBlocks, RevocationBlocks;
    HeaderGrows(MaxEntryDataBlocks(a), MaxEntryDataBlocks(b), descriptors);
    hide HeaderBlocks;
  }

  lemma HeaderGrows(a: nat, b: nat, descriptors: nat)
    requires a <= b
    ensures HeaderBlocks(a, descriptors) <= HeaderBlocks(b, descriptors)
  {
  }

  // ---------------------------------------------------------------------------
  // The layout

  datatype Superblock = Superblock(
    ibmBlock: nat, abmBlock: nat, inoBlock: nat, integrityStart: nat, datBlock: nat, blockCount: nat, inodeCount: nat,
    allocBlocks: nat, allocInodes: nat)

  function BitmapBlocks(blocks: nat): nat {
    (blocks + BLOCK_BITS - 1) / BLOCK_BITS
  }

  const ABM_BLOCK := 8 + RoundUp(INODE_BITMAP_BLOCKS, 8)

  /** Blocks in front of the data with `tier` blocks of block bitmap and the smallest journal. */
  function NonData(tier: nat, descriptors: nat): nat {
    ABM_BLOCK + tier + INODE_BLOCKS + MinimumIntegrityBlocks(tier, descriptors)
  }

  /** With `tier` blocks of bitmap and the smallest journal there is data left, and the bitmap covers it. */
  predicate Fits(blocks: nat, tier: nat, descriptors: nat) {
    tier < blocks && NonData(tier, descriptors) < blocks && blocks - NonData(tier, descriptors) <= tier * BLOCK_BITS
  }

  /** The regions follow one another up to the end of the device, each large enough for what it is to hold. */
  predicate GoodLayout(s: Superblock, blocks: nat, descriptors: nat) {
    && 8 <= s.ibmBlock <= s.abmBlock <= s.inoBlock <= s.integrityStart <= s.datBlock
    && s.inodeCount <= (s.abmBlock - s.ibmBlock) * BLOCK_BITS
    && s.blockCount <= (s.inoBlock - s.abmBlock) * BLOCK_BITS
    && s.inodeCount <= (s.integrityStart - s.inoBlock) * INODES_PER_BLOCK
    && s.datBlock - s.integrityStart >= MinimumIntegrityBlocks(s.inoBlock - s.abmBlock, descriptors)
    && s.blockCount > 0 && s.datBlock + s.blockCount == blocks && s.inoBlock < WORD
  }

  const WORD := 0x1_0000_0000

  /** Addition and subtraction of 32-bit block numbers. */
  function Sum(a: nat, b: nat): nat {
    (a + b) % WORD
  }

  function Difference(a: nat, b: nat): nat {
    (a - b) % WORD
  }

  /** The checks of CheckSuperblock that depend on the layout and the counts. */
  function CheckSuperblock(s: Superblock, blocks: nat, descriptors: nat): Result<()> {
    if s.allocBlocks > s.blockCount then Err(ErrIoDataIntegrity)
    else if s.allocInodes > s.inodeCount then Err(ErrIoDataIntegrity)
    else if Sum(s.datBlock, s.blockCount) != blocks then Err(ErrIoDataIntegrity)
    else if Difference(s.datBlock, s.integrityStart) < MinimumIntegrityBlocks(Difference(s.inoBlock, s.abmBlock), descriptors) then
      Err(ErrBadState)
    else Ok(())
  }

  /** No more is allocated than there is, and the data region ends with the device. */
  predicate CountsFit(s: Superblock, blocks: nat) {
    s.allocBlocks <= s.blockCount && s.allocInodes <= s.inodeCount && Sum(s.datBlock, s.blockCount) == blocks
  }

  /**
   A superblock is accepted exactly if its counts fit and the journal region holds every entry.
   Where the regions are in order their lengths are what lies between them; a journal that would
   start behind the data passes for a very long one.
   */
  lemma CheckedSuperblock(s: Superblock, blocks: nat, descriptors: nat)
    requires s.datBlock < WORD && s.integrityStart < WORD && s.inoBlock < WORD && s.abmBlock < WORD
    ensures var r, journal, bitmap := CheckSuperblock(s, blocks, descriptors), Difference(s.datBlock, s.integrityStart), Difference(s.inoBlock, s.abmBlock);
            && (r.Ok? <==> CountsFit(s, blocks) && HoldsEveryEntry(journal, bitmap, descriptors))
            && (r.Err? ==> r.error == if CountsFit(s, blocks) then ErrBadState else ErrIoDataIntegrity)
            && journal == s.datBlock - s.integrityStart + (if s.integrityStart <= s.datBlock then 0 else WORD)
            && bitmap == s.inoBlock - s.abmBlock + (if s.abmBlock <= s.inoBlock then 0 else WORD)
  {
    hide MinimumIntegrityBlocks, HoldsEveryEntry;
    MinimumIsExact(Difference(s.datBlock, s.integrityStart), Difference(s.inoBlock, s.abmBlock), descriptors);
  }

  /** So many blocks of bitmap cover the data, and not one fewer. */
  lemma BitmapCovers(blocks: nat, tier: nat)
    ensures BitmapBlocks(blocks) <= tier <==> blocks <= tier * BLOCK_BITS
  {
  }

  /** A larger bitmap leaves less data, so a tier too small for the longer journal was too small for the shorter. */
  lemma BitmapGrows(a: nat, b: nat)
    requires a <= b
    ensures BitmapBlocks(a) <= BitmapBlocks(b)
    ensures BitmapBlocks(a) <= 1 + a / BLOCK_BITS
  {
  }

  /** What was formatted can be mounted exactly when there is room for the reserved block and the root directory. */
  lemma FormattedIsMountable(s: Superblock, blocks: nat, descriptors: nat)
    requires blocks < WORD && GoodLayout(s, blocks, descriptors) && s.allocBlocks == 2 && s.allocInodes == 2 && s.inodeCount == DEFAULT_INODES
    ensures CheckSuperblock(s, blocks, descriptors).Ok? <==> s.blockCount >= 2
  {
    hide MinimumIntegrityBlocks;
  }

  /**
   The bitmaps start where they are expected, the block bitmap in a multiple of 8 blocks, and the
   journal is of the recommended length where that leaves data, and of the minimum where not.
   */
  ghost predicate JournalFits(s: Superblock, blocks: nat, descriptors: nat) {
    && s.ibmBlock == 8 && s.abmBlock == 16 && 16 <= s.inoBlock && s.inoBlock % 8 == 0
    && s.integrityStart == s.inoBlock + 128 && s.integrityStart <= s.datBlock
    && var tier, journal := s.inoBlock - s.abmBlock, s.datBlock - s.integrityStart;
       && HoldsEveryEntry(journal, tier, descriptors)
       && var r := RecommendedIntegrityBlocks(tier, descriptors);
          journal == if s.integrityStart + r < blocks then r else MinimumIntegrityBlocks(tier, descriptors)
  }

  // ---------------------------------------------------------------------------
  // Which devices can be formatted

  /** The device is large enough for the smallest bitmap and journal and one data block. */
  predicate LargeEnough(blocks: nat, descriptors: nat) {
    blocks > NonData(8, descriptors)
  }

  /**
   There are two data blocks: not so on a device one block larger than the least, nor on one that
   just holds the recommended journal and a single data block, though a size smaller would do.
   */
  predicate Mountable(blocks: nat, descriptors: nat) {
    && blocks >= NonData(8, descriptors) + 2
    && blocks != ABM_BLOCK + 8 + INODE_BLOCKS + RecommendedIntegrityBlocks(8, descriptors) + 1
  }

  /** No tier below this one fits. */
  ghost predicate NoneBelow(blocks: nat, tier: nat, descriptors: nat) {
    forall k :: 0 < k < tier && k % 8 == 0 ==> !Fits(blocks, k, descriptors)
  }

  ghost predicate SomeFits(blocks: nat, descriptors: nat) {
    exists k :: 0 < k && k % 8 == 0 && Fits(blocks, k, descriptors)
  }

  lemma NoneBelowNext(blocks: nat, tier: nat, descriptors: nat)
    requires NoneBelow(blocks, tier, descriptors) && tier % 8 == 0 && !Fits(blocks, tier, descriptors)
    ensures NoneBelow(blocks, tier + 8, descriptors)
  {
    hide Fits;
  }

  lemma NoneBelowFirst(blocks: nat, descriptors: nat)
    ensures NoneBelow(blocks, 8, descriptors)
  {
    hide Fits;
  }

  /** The data blocks left with `tier` blocks of bitmap and the journal chosen for it. */
  function DataLeft(blocks: nat, tier: nat, descriptors: nat): int {
    var n, r := ABM_BLOCK + tier + INODE_BLOCKS, RecommendedIntegrityBlocks(tier, descriptors);
    if n + r < blocks then blocks - n - r else blocks - NonData(tier, descriptors)
  }

  /** Some tier does exactly if the device is large enough. */
  lemma SomeTierFits(blocks: nat, descriptors: nat)
    requires LargeEnough(blocks, descriptors)
    ensures SomeFits(blocks, descriptors)
  {
    hide MinimumIntegrityBlocks, BitmapBlocks, RoundUp, NonData;
    BitmapCovers(blocks - NonData(8, descriptors), 8);
    if BitmapBlocks(blocks - NonData(8, descriptors)) <= 8 {
      FirstIsBelow(blocks, descriptors);
      assert 8 % 8 == 0 && Fits(blocks, 8, descriptors);
    } else {
      var k := RoundUp(BitmapBlocks(blocks), 8);
      RoundedUp(BitmapBlocks(blocks));
      ManyBlocks(blocks, k, descriptors);
      BitmapGrows(blocks - NonData(k, descriptors), blocks);
      BitmapCovers(blocks - NonData(k, descriptors), k);
      assert k % 8 == 0 && Fits(blocks, k, descriptors);
    }
  }

  lemma FirstIsBelow(blocks: nat, descriptors: nat)
    requires LargeEnough(blocks, descriptors)
    ensures 8 < blocks
  {
    hide MinimumIntegrityBlocks;
  }

  lemma RoundedUp(n: nat)
    ensures n <= RoundUp(n, 8) <= n + 7 && RoundUp(n, 8) % 8 == 0
  {
  }

  /** On a device that needs more than the first tier the metadata is a small part. */
  lemma ManyBlocks(blocks: nat, k: nat, descriptors: nat)
    requires LargeEnough(blocks, descriptors) && BitmapBlocks(blocks - NonData(8, descriptors)) > 8
    requires k <= BitmapBlocks(blocks) + 7
    ensures NonData(k, descriptors) + 1000 < blocks && k < blocks
    ensures BitmapBlocks(blocks) > 8
  {
    JournalIsSmall(k, descriptors);
    hide MinimumIntegrityBlocks;
    BitmapGrows(blocks - NonData(8, descriptors), blocks);
    MoreThanBits(blocks);
    BitmapGrows(blocks, blocks);
    hide BitmapBlocks;
    assert blocks > 8 * BLOCK_BITS;
    assert k <= 8 + blocks / BLOCK_BITS;
  }

  lemma MoreThanBits(blocks: nat)
    requires BitmapBlocks(blocks) > 8
    ensures blocks > 8 * BLOCK_BITS
  {
  }

  lemma JournalIsSmall(k: nat, descriptors: nat)
    ensures MinimumIntegrityBlocks(k, descriptors) <= 2 * k + 40
  {
    MetaDataIsFive();
    hide MaxMetaDataBlocks, RevocationBlocks;
    HeaderIsSmall(MaxEntryDataBlocks(k), descriptors);
    hide HeaderBlocks;
  }

  lemma MetaDataIsFive()
    ensures MaxMetaDataBlocks() == 5 && RevocationBlocks() == 2
  {
  }

  lemma HeaderIsSmall(data: nat, descriptors: nat)
    ensures HeaderBlocks(data, descriptors) <= data + 1
  {
  }

  /** A tier is gone past only on devices so large that the next leaves many data blocks. */
  lemma NextTierIsAmple(blocks: nat, tier: nat, descriptors: nat, blockCount: nat)
    requires tier >= 8 && blockCount <= blocks - NonData(tier, descriptors) && tier < BitmapBlocks(blockCount)
    ensures DataLeft(blocks, tier + 8, descriptors) >= 2 && NonData(tier + 8, descriptors) + 2 <= blocks
    ensures Mountable(blocks, descriptors) && LargeEnough(blocks, descriptors) && tier + 8 < blocks
  {
    assert blockCount > tier * BLOCK_BITS;
    JournalIsSmall(tier + 8, descriptors);
    JournalIsSmall(8, descriptors);
    hide MinimumIntegrityBlocks;
  }

  /** The data blocks of the first tier, where it is enough. */
  lemma FirstTier(blocks: nat, descriptors: nat)
    requires LargeEnough(blocks, descriptors)
    ensures DataLeft(blocks, 8, descriptors) >= 1
    ensures DataLeft(blocks, 8, descriptors) >= 2 <==> Mountable(blocks, descriptors)
  {
    hide MinimumIntegrityBlocks;
  }

  /**
   Finds the smallest tier of bitmap blocks that does. It fails exactly on a device of more than 8
   blocks that is not large enough, where no tier would do. What it finds is a layout that can be
   mounted, and has the root directory's block on the device, exactly if the device is `Mountable`.
   On 8 blocks or fewer the search is not even begun.
   */
  method FindLayout(blocks: nat, descriptors: nat) returns (r: Result<Superblock>)
    requires blocks < WORD
    ensures r.Err? <==> blocks > 8 && !LargeEnough(blocks, descriptors)
    ensures r.Err? ==> r.error == ErrInvalidArgs && !SomeFits(blocks, descriptors)
    ensures r.Ok? && blocks > 8 ==> GoodLayout(r.value, blocks, descriptors) && JournalFits(r.value, blocks, descriptors)
    ensures r.Ok? && blocks > 8 ==> SomeFits(blocks, descriptors) && NoneBelow(blocks, r.value.inoBlock - r.value.abmBlock, descriptors)
    ensures r.Ok? ==> r.value.allocBlocks == 2 && r.value.allocInodes == 2 && r.value.inodeCount == DEFAULT_INODES
    ensures r.Ok? ==> (CheckSuperblock(r.value, blocks, descriptors).Ok? <==> Mountable(blocks, descriptors))
    ensures r.Ok? ==> (r.value.datBlock + 1 < blocks <==> Mountable(blocks, descriptors))
    ensures blocks <= 8 ==> r.Ok? && r.value.blockCount == 0
  {
    hide MinimumIntegrityBlocks, Fits, BitmapBlocks, GoodLayout, CheckSuperblock, Mountable, NonData, DataLeft, LargeEnough,
         RecommendedIntegrityBlocks, NoneBelow, SomeFits, HoldsEveryEntry, JournalFits;
    var inoBlock: nat, journal: nat, nonDat: nat, blockCount: nat := 0, 0, 0, 0;
    var tier: nat := 8;
    TinyIsNotMountable(blocks, descriptors);
    NoneBelowFirst(blocks, descriptors);
    if LargeEnough(blocks, descriptors) {
      FirstTier(blocks, descriptors);
      SomeTierFits(blocks, descriptors);
    }
    while tier < blocks
      invariant 8 <= tier && tier % 8 == 0
      invariant tier == 8 ==> blockCount == 0 && inoBlock == 0 && journal == 0
      invariant tier > 8 ==>
                  && tier < blocks && LargeEnough(blocks, descriptors) && Mountable(blocks, descriptors)
                  && DataLeft(blocks, tier, descriptors) >= 2 && NonData(tier, descriptors) < blocks
      invariant NoneBelow(blocks, tier, descriptors)
      decreases blocks - tier
    {
      inoBlock := ABM_BLOCK + tier;
      journal := RecommendedIntegrityBlocks(tier, descriptors);
      nonDat := ABM_BLOCK + tier + INODE_BLOCKS;
      if nonDat + journal >= blocks {
        journal := MinimumIntegrityBlocks(tier, descriptors);
      }
      nonDat := nonDat + journal;
      JournalChosen(blocks, tier, descriptors, journal, nonDat);
      if nonDat >= blocks {
        TooSmall(blocks, tier, descriptors);
        NoTierFits(blocks, tier, descriptors);
        return Err(ErrInvalidArgs);
      }
      blockCount := blocks - nonDat;
      TooFew(blocks, tier, descriptors, blockCount);
      if tier >= BitmapBlocks(blockCount) {
        break;
      }
      NextTierIsAmple(blocks, tier, descriptors, blockCount);
      NoneBelowNext(blocks, tier, descriptors);
      tier := tier + 8;
    }
    r := Ok(Superblock(8, ABM_BLOCK, inoBlock, inoBlock + INODE_BLOCKS, inoBlock + INODE_BLOCKS + journal, blockCount,
                       DEFAULT_INODES, 2, 2));
    if blocks <= 8 {
      NothingIsRejected(r.value, blocks, descriptors);
    } else {
      LayoutIsGood(r.value, blocks, descriptors, journal);
      FormattedIsMountable(r.value, blocks, descriptors);
    }
  }

  /** What is left for data once the journal has been chosen. */
  lemma JournalChosen(blocks: nat, tier: nat, descriptors: nat, journal: nat, nonDat: nat)
    requires var n, r := ABM_BLOCK + tier + INODE_BLOCKS, RecommendedIntegrityBlocks(tier, descriptors);
             && journal == (if n + r >= blocks then MinimumIntegrityBlocks(tier, descriptors) else r)
             && nonDat == n + journal
    ensures blocks - nonDat == DataLeft(blocks, tier, descriptors)
    ensures NonData(tier, descriptors) <= nonDat
    ensures nonDat >= blocks ==> nonDat == NonData(tier, descriptors)
    ensures MinimumIntegrityBlocks(tier, descriptors) <= journal
    ensures tier == 8 && nonDat < blocks ==> LargeEnough(blocks, descriptors)
  {
    hide MinimumIntegrityBlocks;
  }

  lemma TooSmall(blocks: nat, tier: nat, descriptors: nat)
    requires NonData(tier, descriptors) >= blocks
    ensures tier == 8 ==> !LargeEnough(blocks, descriptors)
  {
  }

  lemma TinyIsNotMountable(blocks: nat, descriptors: nat)
    ensures blocks <= 8 ==> !Mountable(blocks, descriptors) && !LargeEnough(blocks, descriptors)
  {
    hide MinimumIntegrityBlocks;
  }

  /** If the bitmap is too short for the data left, it is too short for what the smallest journal would leave. */
  lemma TooFew(blocks: nat, tier: nat, descriptors: nat, blockCount: nat)
    requires tier % 8 == 0 && blockCount <= blocks - NonData(tier, descriptors)
    ensures tier < BitmapBlocks(blockCount) ==> !Fits(blocks, tier, descriptors) && tier + 8 < blocks
    ensures tier < BitmapBlocks(blockCount) ==> tier + 8 <= 8 + blocks / BLOCK_BITS
  {
    hide MinimumIntegrityBlocks;
    BitmapGrows(blockCount, blocks - NonData(tier, descriptors));
    BitmapGrows(blockCount, blockCount);
  }

  lemma NoTierFits(blocks: nat, tier: nat, descriptors: nat)
    requires NonData(tier, descriptors) >= blocks && NoneBelow(blocks, tier, descriptors)
    ensures !SomeFits(blocks, descriptors)
  {
    hide MinimumIntegrityBlocks;
    forall k: nat | 0 < k && k % 8 == 0 ensures !Fits(blocks, k, descriptors) {
      if k >= tier {
        MinimumGrows(tier, k, descriptors);
      }
    }
  }

  lemma NothingIsRejected(s: Superblock, blocks: nat, descriptors: nat)
    requires s.blockCount == 0 && s.allocBlocks == 2
    ensures CheckSuperblock(s, blocks, descriptors).Err?
  {
  }

  lemma LayoutIsGood(s: Superblock, blocks: nat, descriptors: nat, journal: nat)
    requires s.ibmBlock == 8 && s.abmBlock == ABM_BLOCK && s.inoBlock >= ABM_BLOCK && s.integrityStart == s.inoBlock + INODE_BLOCKS
    requires s.datBlock == s.integrityStart + journal && s.datBlock + s.blockCount == blocks && s.blockCount > 0
    requires MinimumIntegrityBlocks(s.inoBlock - ABM_BLOCK, descriptors) <= journal && blocks < WORD
    requires BitmapBlocks(s.blockCount) <= s.inoBlock - ABM_BLOCK && s.inodeCount == DEFAULT_INODES && s.inoBlock % 8 == 0
    requires var r := RecommendedIntegrityBlocks(s.inoBlock - ABM_BLOCK, descriptors);
             journal == if s.integrityStart + r >= blocks then MinimumIntegrityBlocks(s.inoBlock - ABM_BLOCK, descriptors) else r
    ensures GoodLayout(s, blocks, descriptors) && JournalFits(s, blocks, descriptors)
  {
    hide MinimumIntegrityBlocks, BitmapBlocks, HoldsEveryEntry;
    MinimumIsExact(journal, s.inoBlock - ABM_BLOCK, descriptors);
    BitmapCovers(s.blockCount, s.inoBlock - ABM_BLOCK);
  }

  /**
   The three kinds of size at which formatting does not lead to a file system: too small to lay out,
   one block more than that, and the size that just holds the recommended journal.
   */
  lemma SizesThatFail(descriptors: nat)
    requires descriptors > 0
    ensures var least, n := NonData(8, descriptors), ABM_BLOCK + 8 + INODE_BLOCKS + RecommendedIntegrityBlocks(8, descriptors);
            && !LargeEnough(least, descriptors)
            && LargeEnough(least + 1, descriptors) && !Mountable(least + 1, descriptors)
            && LargeEnough(n + 1, descriptors) && !Mountable(n + 1, descriptors)
            && Mountable(n, descriptors) && Mountable(n + 2, descriptors)
  {
    JournalIsSmall(8, descriptors);
    hide MinimumIntegrityBlocks;
  }
}
