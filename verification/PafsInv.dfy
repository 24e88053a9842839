/**
  The invariant of a PAFS volume and what the building blocks of the operations
  do to it.
 */
module PafsInv {
  import opened Words
  import opened Bitmaps
  import opened PafsLayout
  import opened PafsState

  // ----- exact block ownership -----

  /** Some (inode, slot) pair holds block `b`. */
  ghost predicate Held(t: InodeTable, b: int) {
    exists i, k :: 0 <= i < 128 && 0 <= k < 14 && t[i].blocks[k] == b
  }

  ghost predicate BlocksUsed(t: InodeTable, bm: Sector) {
    forall i, k :: 0 <= i < 128 && 0 <= k < 14 && t[i].blocks[k] != 0 ==>
      LBA_DATA_START <= t[i].blocks[k] < 4096 && Used(bm, t[i].blocks[k])
  }

  ghost predicate BlocksDistinct(t: InodeTable) {
    forall i, k, j, l ::
      (0 <= i < 128 && 0 <= k < 14 && 0 <= j < 128 && 0 <= l < 14
       && t[i].blocks[k] != 0 && t[i].blocks[k] == t[j].blocks[l]) ==> i == j && k == l
  }

  ghost predicate NoLeak(t: InodeTable, bm: Sector) {
    forall b :: LBA_DATA_START <= b < 4096 && Used(bm, b) ==> Held(t, b)
  }

  /**
    A data block is marked used iff exactly one (inode, slot) pair holds it, and
    the metadata sectors are always marked used.
   */
  ghost predicate Own(t: InodeTable, bm: Sector) {
    && BlocksUsed(t, bm)
    && BlocksDistinct(t)
    && NoLeak(t, bm)
    && (forall b :: 0 <= b < LBA_DATA_START ==> Used(bm, b))
  }

  function PutSlot(t: InodeTable, i: nat, k: nat, b: u32): InodeTable
    requires i < 128 && k < 14
  {
    t[i := t[i].(blocks := t[i].blocks[k := b])]
  }

  lemma UsedPut(bm: Sector, b: nat, on: bool)
    requires b < 4096
    ensures forall m :: Used(PutBit(bm, b, on), m) <==> (if m == b then on else Used(bm, m))
  {
    PutBitOnly(bm, b, on);
  }

  lemma NoLeakMoved(t: InodeTable, t': InodeTable, bm: Sector, bm': Sector, b: nat)
    requires NoLeak(t, bm)
    requires forall c :: Used(bm', c) && c != b ==> Used(bm, c)
    requires Used(bm', b) ==> Held(t', b)
    requires forall j, l :: 0 <= j < 128 && 0 <= l < 14 && t[j].blocks[l] != b && t[j].blocks[l] != 0 ==>
               t'[j].blocks[l] == t[j].blocks[l]
    ensures NoLeak(t', bm')
  {
    forall c | LBA_DATA_START <= c < 4096 && Used(bm', c)
      ensures Held(t', c)
    {
      if c != b {
        var j, l :| 0 <= j < 128 && 0 <= l < 14 && t[j].blocks[l] == c;
        assert t'[j].blocks[l] == c;
      }
    }
  }

  lemma DistinctTake(t: InodeTable, i: nat, k: nat, b: u32)
    requires BlocksDistinct(t) && i < 128 && k < 14
    requires forall j, l :: 0 <= j < 128 && 0 <= l < 14 ==> t[j].blocks[l] != b
    ensures BlocksDistinct(PutSlot(t, i, k, b))
  {
  }

  lemma UsedTake(t: InodeTable, bm: Sector, i: nat, k: nat, b: nat)
    requires BlocksUsed(t, bm) && i < 128 && k < 14 && LBA_DATA_START <= b < 4096
    ensures BlocksUsed(PutSlot(t, i, k, b), PutBit(bm, b, true))
  {
    UsedPut(bm, b, true);
  }

  lemma OwnTake(t: InodeTable, bm: Sector, i: nat, k: nat, b: nat)
    requires Own(t, bm) && i < 128 && k < 14 && t[i].blocks[k] == 0
    requires LBA_DATA_START <= b < 4096 && !Used(bm, b)
    ensures Own(PutSlot(t, i, k, b), PutBit(bm, b, true))
  {
    hide BlocksDistinct, NoLeak;
    var t', bm' := PutSlot(t, i, k, b), PutBit(bm, b, true);
    UsedPut(bm, b, true);
    assert t'[i].blocks[k] == b;
    NoLeakMoved(t, t', bm, bm', b);
    DistinctTake(t, i, k, b);
    UsedTake(t, bm, i, k, b);
  }

  lemma DistinctGive(t: InodeTable, i: nat, k: nat)
    requires BlocksDistinct(t) && i < 128 && k < 14
    ensures BlocksDistinct(PutSlot(t, i, k, 0))
  {
    var t' := PutSlot(t, i, k, 0);
    forall j, l, p, q | 0 <= j < 128 && 0 <= l < 14 && 0 <= p < 128 && 0 <= q < 14
      && t'[j].blocks[l] != 0 && t'[j].blocks[l] == t'[p].blocks[q]
      ensures j == p && l == q
    {
      assert t[j].blocks[l] == t'[j].blocks[l] && t[p].blocks[q] == t'[p].blocks[q];
    }
  }

  lemma UsedGive(t: InodeTable, bm: Sector, i: nat, k: nat)
    requires BlocksUsed(t, bm) && BlocksDistinct(t) && i < 128 && k < 14 && t[i].blocks[k] != 0
    ensures BlocksUsed(PutSlot(t, i, k, 0), PutBit(bm, t[i].blocks[k], false))
  {
    var b := t[i].blocks[k];
    var t', bm' := PutSlot(t, i, k, 0), PutBit(bm, b, false);
    UsedPut(bm, b, false);
    forall j, l | 0 <= j < 128 && 0 <= l < 14 && t'[j].blocks[l] != 0
      ensures LBA_DATA_START <= t'[j].blocks[l] < 4096 && Used(bm', t'[j].blocks[l])
    {
      assert t'[j].blocks[l] == t[j].blocks[l];
      assert t[j].blocks[l] != t[i].blocks[k];
    }
  }

  lemma OwnGive(t: InodeTable, bm: Sector, i: nat, k: nat)
    requires Own(t, bm) && i < 128 && k < 14 && t[i].blocks[k] != 0
    ensures Own(PutSlot(t, i, k, 0), PutBit(bm, t[i].blocks[k], false))
  {
    var b := t[i].blocks[k];
    UsedPut(bm, b, false);
    UsedGive(t, bm, i, k);
    DistinctGive(t, i, k);
    NoLeakMoved(t, PutSlot(t, i, k, 0), bm, PutBit(bm, b, false), b);
  }

  /** Ownership looks only at the block tables. */
  lemma OwnSame(t: InodeTable, t': InodeTable, bm: Sector)
    requires Own(t, bm)
    requires forall i :: 0 <= i < 128 ==> t'[i].blocks == t[i].blocks
    ensures Own(t', bm)
  {
    forall c | LBA_DATA_START <= c < 4096 && Used(bm, c)
      ensures Held(t', c)
    {
      var j, l :| 0 <= j < 128 && 0 <= l < 14 && t[j].blocks[l] == c;
      assert t'[j].blocks[l] == c;
    }
  }

  // ----- directories -----

  /**
    The entries of a directory fill its slots from the front: slot `s` of an
    allocated block is in use iff `s` is below the entry count.
   */
  ghost predicate DirOk(n: Inode, disk: Disk) {
    && n.size % 32 == 0 && n.size <= 224 * 32
    && (forall k, l :: 0 <= k < l < 14 && n.blocks[l] != 0 ==> n.blocks[k] != 0)
    && (forall s {:trigger Slot(n, disk, s)} :: 0 <= s < 224 && n.blocks[s / 16] != 0 ==>
          (Slot(n, disk, s).inode != 0 <==> s < EntryCount(n)))
    && (forall s {:trigger Slot(n, disk, s)} :: 0 <= s < EntryCount(n) ==>
          n.blocks[s / 16] != 0 && Slot(n, disk, s).inode < 128 && HasNul(Slot(n, disk, s).name))
  }

  ghost predicate DirsOk(fs: Fs) {
    forall i :: 0 <= i < 128 && fs.inodes[i].kind == TYPE_DIR ==> DirOk(fs.inodes[i], fs.disk)
  }

  /** Two disks agree on the blocks of an inode. */
  ghost predicate SameData(n: Inode, d: Disk, d': Disk) {
    forall k :: 0 <= k < 14 && n.blocks[k] != 0 ==> d'[BlockOf(n, k)] == d[BlockOf(n, k)]
  }

  lemma DirFrame(n: Inode, d: Disk, d': Disk)
    requires DirOk(n, d) && SameData(n, d, d')
    ensures DirOk(n, d')
    ensures forall s :: 0 <= s < EntryCount(n) ==> Slot(n, d', s) == Slot(n, d, s)
  {
    hide SameData, Slot, DirOk;
    forall s {:trigger Slot(n, d', s)} | 0 <= s < 224 && n.blocks[s / 16] != 0
      ensures Slot(n, d', s) == Slot(n, d, s)
    {
      SlotFrame(n, d, d', s);
    }
    DirOkAlike(n, d, d');
    forall s {:trigger Slot(n, d', s)} | 0 <= s < EntryCount(n)
      ensures Slot(n, d', s) == Slot(n, d, s)
    {
      SlotHasBlock(n, d, s);
    }
  }

  lemma SlotHasBlock(n: Inode, d: Disk, s: nat)
    requires DirOk(n, d) && s < EntryCount(n)
    ensures s < 224 && n.blocks[s / 16] != 0
  {
    var e := Slot(n, d, s);
    assert Slot(n, d, s).inode < 128;
  }

  /** Disks that show the same slots agree on whether the directory is well formed. */
  lemma DirOkAlike(n: Inode, d: Disk, d': Disk)
    requires DirOk(n, d)
    requires forall s {:trigger Slot(n, d', s)} :: 0 <= s < 224 && n.blocks[s / 16] != 0 ==> Slot(n, d', s) == Slot(n, d, s)
    ensures DirOk(n, d')
  {
    hide Slot, HasNul;
    forall s | 0 <= s < EntryCount(n)
      ensures n.blocks[s / 16] != 0
    {
      SlotHasBlock(n, d, s);
    }
    forall s {:trigger Slot(n, d', s)} | 0 <= s < EntryCount(n)
      ensures n.blocks[s / 16] != 0 && Slot(n, d', s).inode < 128 && HasNul(Slot(n, d', s).name)
    {
      var e := Slot(n, d, s);
      assert e.inode < 128 && HasNul(e.name) && n.blocks[s / 16] != 0;
      assert Slot(n, d', s) == e;
    }
    forall s {:trigger Slot(n, d', s)} | 0 <= s < 224 && n.blocks[s / 16] != 0
      ensures Slot(n, d', s).inode != 0 <==> s < EntryCount(n)
    {
      var e := Slot(n, d, s);
      assert e.inode != 0 <==> s < EntryCount(n);
      assert Slot(n, d', s) == e;
    }
  }

  lemma SlotFrame(n: Inode, d: Disk, d': Disk, s: nat)
    requires SameData(n, d, d') && s < 224 && n.blocks[s / 16] != 0
    ensures Slot(n, d', s) == Slot(n, d, s)
  {
    assert d'[BlockOf(n, s / 16)] == d[BlockOf(n, s / 16)];
  }

  // ----- write-through -----

  /** On disk, `freeInodes` may be too high; everything else is as in memory. */
  ghost predicate SuperblockSynced(fs: Fs) {
    var sb := DecodeSuperblock(fs.disk[LBA_SUPERBLOCK]);
    sb.freeInodes >= fs.sb.freeInodes && sb == fs.sb.(freeInodes := sb.freeInodes)
  }

  ghost predicate InodesSynced(fs: Fs, s: int) {
    0 <= s < 16 ==> fs.disk[LBA_INODES_START + s] == EncodeInodeSector(fs.inodes, s)
  }

  /** Every metadata sector outside `dirty` holds what memory holds. */
  ghost predicate Synced(fs: Fs, dirty: set<int>) {
    && (LBA_BITMAP !in dirty ==> fs.disk[LBA_BITMAP] == fs.bitmap)
    && (LBA_SUPERBLOCK !in dirty ==> SuperblockSynced(fs))
    && (forall s :: 0 <= s < 16 && LBA_INODES_START + s !in dirty ==> InodesSynced(fs, s))
  }

  lemma EncodeOther(t: InodeTable, i: nat, n: Inode, s: nat)
    requires i < 128 && s < 16 && s != i / 8
    ensures EncodeInodeSector(t[i := n], s) == EncodeInodeSector(t, s)
  {
    var w, w' := InodeSectorWords(t, s), InodeSectorWords(t[i := n], s);
    forall p | 0 <= p < 128
      ensures w[p] == w'[p]
    {
      assert (8 * s + p / 16) / 8 == s;
    }
    assert w == w';
  }

  lemma SyncedWithInode(fs: Fs, i: nat, n: Inode, dirty: set<int>)
    requires i < 128 && Synced(fs, dirty)
    ensures Synced(WithInode(fs, i, n), dirty + {1 + i / 8})
  {
    forall s | 0 <= s < 16 && 1 + s !in dirty + {1 + i / 8}
      ensures InodesSynced(WithInode(fs, i, n), s)
    {
      assert InodesSynced(fs, s);
      EncodeOther(fs.inodes, i, n, s);
    }
  }

  /** Steps that keep the inode table and its sectors keep the table synced. */
  lemma InodesStaySynced(fs: Fs, fs': Fs, dirty: set<int>)
    requires Synced(fs, dirty) && fs'.inodes == fs.inodes
    requires fs'.disk[LBA_INODES_START..LBA_BITMAP] == fs.disk[LBA_INODES_START..LBA_BITMAP]
    ensures forall s :: 0 <= s < 16 && LBA_INODES_START + s !in dirty ==> InodesSynced(fs', s)
  {
    forall s | 0 <= s < 16 && LBA_INODES_START + s !in dirty
      ensures InodesSynced(fs', s)
    {
      assert InodesSynced(fs, s);
      assert fs'.disk[1..17][s] == fs.disk[1..17][s];
    }
  }

  lemma SuperblockSaved(fs: Fs)
    requires fs.disk[LBA_SUPERBLOCK] == EncodeSuperblock(fs.sb)
    ensures SuperblockSynced(fs)
  {
    SuperblockRoundTrip(fs.sb);
  }

  lemma SyncedSaveInode(fs: Fs, i: nat, dirty: set<int>)
    requires i < 128 && Synced(fs, dirty)
    ensures Synced(SaveInode(fs, i), dirty - {1 + i / 8})
  {
    forall s | 0 <= s < 16 && 1 + s !in dirty - {1 + i / 8}
      ensures InodesSynced(SaveInode(fs, i), s)
    {
      assert s != i / 8 ==> InodesSynced(fs, s);
    }
  }

  lemma SyncedSaveBitmap(fs: Fs, dirty: set<int>)
    requires Synced(fs, dirty)
    ensures Synced(SaveBitmap(fs), dirty - {LBA_BITMAP})
  {
    InodesStaySynced(fs, SaveBitmap(fs), dirty);
  }

  lemma SyncedSaveSuperblock(fs: Fs, dirty: set<int>)
    requires Synced(fs, dirty)
    ensures Synced(SaveSuperblock(fs), dirty - {LBA_SUPERBLOCK})
  {
    InodesStaySynced(fs, SaveSuperblock(fs), dirty);
    SuperblockSaved(SaveSuperblock(fs));
  }

  // ----- the invariant -----

  ghost predicate FreeClean(t: InodeTable) {
    forall i :: 0 <= i < 128 && t[i].kind == TYPE_FREE ==> t[i].size == 0 && t[i].blocks == NoBlocks()
  }

  ghost predicate RootOk(fs: Fs) {
    fs.sb.magic == MAGIC && fs.sb.rootInode == 0 && fs.inodes[0].kind == TYPE_DIR
  }

  /** What holds at every step inside an operation, up to the sectors in `dirty`. */
  ghost predicate Core(fs: Fs, dirty: set<int>) {
    && Own(fs.inodes, fs.bitmap)
    && fs.sb.freeBlocks == Count(fs.bitmap, 4096, false)
    && FreeClean(fs.inodes)
    && RootOk(fs)
    && Synced(fs, dirty)
  }

  /** What holds whenever no operation is running. */
  ghost predicate Inv(fs: Fs) {
    Core(fs, {}) && DirsOk(fs)
  }

  /** Changing the type and size of a live inode. */
  lemma CoreRetouch(fs: Fs, i: nat, n: Inode, dirty: set<int>)
    requires i < 128 && Core(fs, dirty)
    requires n.blocks == fs.inodes[i].blocks
    requires n.kind == TYPE_FREE ==> n.size == 0 && n.blocks == NoBlocks()
    requires i == 0 ==> n.kind == TYPE_DIR
    ensures Core(WithInode(fs, i, n), dirty + {1 + i / 8})
  {
    OwnSame(fs.inodes, fs.inodes[i := n], fs.bitmap);
    SyncedWithInode(fs, i, n, dirty);
  }

  lemma CoreSaveInode(fs: Fs, i: nat, dirty: set<int>)
    requires i < 128 && Core(fs, dirty)
    ensures Core(SaveInode(fs, i), dirty - {1 + i / 8})
  {
    SyncedSaveInode(fs, i, dirty);
  }

  /** Writing a data sector. */
  lemma CoreSector(fs: Fs, l: nat, s: Sector, dirty: set<int>)
    requires LBA_DATA_START <= l < 4096 && Core(fs, dirty)
    ensures Core(WithSector(fs, l, s), dirty)
  {
    InodesStaySynced(fs, WithSector(fs, l, s), dirty);
    assert WithSector(fs, l, s).disk[LBA_SUPERBLOCK] == fs.disk[LBA_SUPERBLOCK];
  }

  lemma DirsFrame(fs: Fs, disk': Disk)
    requires DirsOk(fs)
    requires forall i :: 0 <= i < 128 && fs.inodes[i].kind == TYPE_DIR ==> SameData(fs.inodes[i], fs.disk, disk')
    ensures DirsOk(fs.(disk := disk'))
  {
    forall i | 0 <= i < 128 && fs.inodes[i].kind == TYPE_DIR
      ensures DirOk(fs.inodes[i], disk')
    {
      DirFrame(fs.inodes[i], fs.disk, disk');
    }
  }

  /** Metadata sectors are nobody's data. */
  lemma MetadataIsNotData(fs: Fs, i: nat, l: nat, s: Sector)
    requires Own(fs.inodes, fs.bitmap) && i < 128 && l < LBA_DATA_START
    ensures SameData(fs.inodes[i], fs.disk, fs.disk[l := s])
  {
  }

  /** A block of one inode is not a block of another. */
  lemma BlockIsPrivate(fs: Fs, i: nat, k: nat, j: nat, s: Sector)
    requires Own(fs.inodes, fs.bitmap) && i < 128 && k < 14 && j < 128 && i != j
    requires fs.inodes[i].blocks[k] != 0
    ensures SameData(fs.inodes[j], fs.disk, fs.disk[BlockOf(fs.inodes[i], k) := s])
  {
  }

  // ----- allocation -----

  /** The state right after `alloc_block` has handed out `b` for slot `k` of inode `i`. */
  ghost predicate Grown(fs: Fs, fs': Fs, i: nat, k: nat, b: int)
    requires i < 128 && k < 14
  {
    && LBA_DATA_START <= b < 4096 && !Used(fs.bitmap, b)
    && fs'.inodes == PutSlot(fs.inodes, i, k, b)
    && fs'.bitmap == PutBit(fs.bitmap, b, true)
    && fs'.sb == fs.sb.(freeBlocks := fs'.sb.freeBlocks)
    && (forall l :: 1 <= l < 4096 && l != LBA_BITMAP ==> fs'.disk[l] == fs.disk[l])
  }

  /** The block taken is the lowest data block that is free; none is refused while one is. */
  lemma AllocTakesLowest(fs: Fs)
    ensures var b := Alloc(fs).code;
            && (b == -1 <==> forall j :: 18 <= j < 4096 ==> Used(fs.bitmap, j))
            && (b != -1 ==> 18 <= b < 4096 && !Used(fs.bitmap, b) && forall j :: 18 <= j < b ==> Used(fs.bitmap, j))
  {
    hide PutBit, EncodeSuperblock;
  }

  lemma AllocSynced(fs: Fs, b: nat, dirty: set<int>)
    requires b < 4096 && Synced(fs, dirty)
    ensures Synced(SaveSuperblock(SaveBitmap(MarkBlock(fs, b, true))), dirty)
  {
    var fs' := SaveSuperblock(SaveBitmap(MarkBlock(fs, b, true)));
    SuperblockSaved(fs');
    InodesStaySynced(fs, fs', dirty);
  }

  /** Taking a block lowers the free count by the one bit it sets. */
  lemma AllocCounted(fs: Fs, b: nat)
    requires b < 4096 && !Used(fs.bitmap, b) && fs.sb.freeBlocks == Count(fs.bitmap, 4096, false)
    ensures MarkBlock(fs, b, true).sb.freeBlocks == Count(MarkBlock(fs, b, true).bitmap, 4096, false)
  {
    CountPut(fs.bitmap, b, true, 4096);
    CountPositive(fs.bitmap, b, 4096, false);
  }

  lemma AllocInto(fs: Fs, i: nat, k: nat, dirty: set<int>)
    requires i < 128 && k < 14 && Core(fs, dirty) && fs.inodes[i].kind != TYPE_FREE
    requires fs.inodes[i].blocks[k] == 0 && FirstClear(fs.bitmap) != -1
    ensures var r := Ensure(fs, i, k);
            r.code != -1 && Core(r.fs, dirty + {1 + i / 8}) && Grown(fs, r.fs, i, k, r.code)
  {
    hide Own, Synced, EncodeSuperblock;
    var b := FirstClear(fs.bitmap);
    AllocCounted(fs, b);
    AllocSynced(fs, b, dirty);
    SyncedWithInode(Alloc(fs).fs, i, fs.inodes[i].(blocks := fs.inodes[i].blocks[k := b]), dirty);
    OwnTake(fs.inodes, fs.bitmap, i, k, b);
  }

  lemma EnsureCore(fs: Fs, i: nat, k: nat, dirty: set<int>)
    requires i < 128 && k < 14 && Core(fs, dirty) && fs.inodes[i].kind != TYPE_FREE
    ensures var r := Ensure(fs, i, k);
            && (r.code == -1 ==> r.fs == fs && fs.inodes[i].blocks[k] == 0 && FirstClear(fs.bitmap) == -1)
            && (r.code != -1 ==> Core(r.fs, dirty + {1 + i / 8}) && r.code == r.fs.inodes[i].blocks[k] != 0)
            && (r.code != -1 && fs.inodes[i].blocks[k] == 0 ==> Grown(fs, r.fs, i, k, r.code))
            && (fs.inodes[i].blocks[k] != 0 ==> r.fs == fs)
  {
    if fs.inodes[i].blocks[k] == 0 && FirstClear(fs.bitmap) != -1 {
      AllocInto(fs, i, k, dirty);
    }
  }

  /** A fresh block is nobody's data, so every inode's data is as before. */
  lemma GrownFrame(fs: Fs, fs': Fs, i: nat, k: nat, b: int, j: nat, s: Sector)
    requires i < 128 && k < 14 && j < 128 && Own(fs.inodes, fs.bitmap) && Grown(fs, fs', i, k, b)
    ensures SameData(fs.inodes[j], fs.disk, fs'.disk)
    ensures SameData(fs.inodes[j], fs.disk, fs'.disk[b := s])
  {
    assert forall l :: 0 <= l < 14 ==> fs.inodes[j].blocks[l] != b;
  }
}
