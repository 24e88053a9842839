/**
  The free-inode count: when the disk has it right, and how far it can be off.
  `pafs_create` changes the count in memory only; taking a block saves it.
 */
module PafsCounts {
  import opened Words
  import opened PafsLayout
  import opened PafsState
  import opened PafsInv
  import opened PafsDirs
  import opened PafsOps
  import opened PafsData
  import opened PafsFiles
  import opened PafsTree
  import opened PafsMount
  import opened PafsRuns
  import opened PafsRoom
  import opened PafsGood
  import opened PafsNames

  /** The superblock on disk has the free-inode count of memory. */
  predicate OnDisk(fs: Fs) {
    CountOnDisk(fs) == fs.sb.freeInodes
  }

  /** The superblock sector is that of the superblock in memory. */
  predicate Saved(fs: Fs) {
    fs.disk[LBA_SUPERBLOCK] == EncodeSuperblock(fs.sb)
  }

  /** Neither the superblock sector nor the superblock in memory changed. */
  predicate Untouched(fs: Fs, fs': Fs) {
    fs'.disk[LBA_SUPERBLOCK] == fs.disk[LBA_SUPERBLOCK] && fs'.sb == fs.sb
  }

  /** Only an operation that took a block (`taken`) has saved the superblock. */
  predicate SavedIff(fs: Fs, fs': Fs, taken: bool) {
    fs'.sb.freeInodes == fs.sb.freeInodes && if taken then Saved(fs') else Untouched(fs, fs')
  }

  lemma SavedOnDisk(fs: Fs)
    requires Saved(fs)
    ensures OnDisk(fs)
  {
    hide DecodeSuperblock, EncodeSuperblock;
    SuperblockRoundTrip(fs.sb);
  }

  /** What that means for the count on disk. */
  lemma SavedCount(fs: Fs, fs': Fs, taken: bool)
    requires SavedIff(fs, fs', taken)
    ensures OnDisk(fs') <==> taken || OnDisk(fs)
    ensures taken || CountOnDisk(fs') == CountOnDisk(fs)
  {
    hide DecodeSuperblock, EncodeSuperblock;
    if taken {
      SavedOnDisk(fs');
    }
  }

  /** Sectors other than the superblock's do not matter. */
  lemma OtherSector(fs: Fs, l: nat, s: Sector)
    requires LBA_SUPERBLOCK < l < 4096
    ensures Untouched(fs, WithSector(fs, l, s))
  {
  }

  lemma EnsureSaved(fs: Fs, i: nat, k: nat)
    requires i < 128 && k < 14 && Ensure(fs, i, k).code != -1
    ensures SavedIff(fs, Ensure(fs, i, k).fs, fs.inodes[i].blocks[k] == 0)
  {
    hide DecodeSuperblock, EncodeSuperblock;
    if fs.inodes[i].blocks[k] == 0 {
      var b := FirstClear(fs.bitmap);
      assert Saved(Alloc(fs).fs);
    }
  }

  lemma DataBlock(fs: Fs, i: nat, k: nat, dirty: set<int>)
    requires i < 128 && k < 14 && Core(fs, dirty) && fs.inodes[i].blocks[k] != 0
    ensures LBA_DATA_START <= BlockOf(fs.inodes[i], k) < 4096
  {
    OwnApart(fs.inodes, fs.bitmap, i);
  }

  // ----- pafs_create -----

  lemma EnsureClearedSaved(fs: Fs, i: nat, k: nat, dirty: set<int>)
    requires i < 128 && k < 14 && Core(fs, dirty) && fs.inodes[i].kind != TYPE_FREE && EnsureCleared(fs, i, k).code != -1
    ensures SavedIff(fs, EnsureCleared(fs, i, k).fs, fs.inodes[i].blocks[k] == 0)
  {
    hide Core, CountOnDisk;
    EnsureCore(fs, i, k, dirty);
    EnsureSaved(fs, i, k);
    if fs.inodes[i].blocks[k] == 0 {
      var r := Ensure(fs, i, k);
      DataBlock(r.fs, i, k, dirty + {1 + i / 8});
      OtherSector(r.fs, r.code, ZeroSector);
      StillSaved(fs, r.fs, EnsureCleared(fs, i, k).fs, true);
    }
  }

  /** Adding an entry saves the superblock exactly when the entry needs a new block. */
  lemma AddEntrySaved(fs: Fs, dir: nat, name: CString, ino: u32, dirty: set<int>)
    requires dir < 128 && Core(fs, dirty) && DirsOk(fs) && fs.inodes[dir].kind == TYPE_DIR
    requires AddEntry(fs, dir, name, ino).code == 0
    ensures EntryCount(fs.inodes[dir]) < 224
    ensures SavedIff(fs, AddEntry(fs, dir, name, ino).fs, fs.inodes[dir].blocks[EntryCount(fs.inodes[dir]) / 16] == 0)
  {
    var s := EntryCount(fs.inodes[dir]);
    assert s < 224 by { EntryRoom(fs, dir, name, ino); }
    hide Core, DirsOk, CountOnDisk, AddEntry, EnsureCleared, Entries, SetEntry;
    AddEntryCases(fs, dir, name, ino);
    RoomForEntry(fs, dir, dirty);
    EnsureClearedSaved(fs, dir, s / 16, dirty);
    var e := EnsureCleared(fs, dir, s / 16).fs;
    DataBlock(e, dir, s / 16, dirty + {1 + dir / 8});
    StillSaved(fs, e, AddEntry(fs, dir, name, ino).fs, fs.inodes[dir].blocks[s / 16] == 0);
  }

  lemma EntryRoom(fs: Fs, dir: nat, name: CString, ino: u32)
    requires dir < 128 && AddEntry(fs, dir, name, ino).code == 0
    ensures EntryCount(fs.inodes[dir]) < 224 && EnsureCleared(fs, dir, EntryCount(fs.inodes[dir]) / 16).code != -1
  {
  }

  lemma StillSaved(fs: Fs, fs1: Fs, fs2: Fs, taken: bool)
    requires SavedIff(fs, fs1, taken) && Untouched(fs1, fs2)
    ensures SavedIff(fs, fs2, taken)
  {
    hide DecodeSuperblock;
  }

  /**
    After a successful `pafs_create` the count on disk is right exactly when the new
    entry took a block for the directory.
   */
  lemma CreateCountIff(fs: Fs, parent: nat, name: CString, isDir: bool)
    requires Inv(fs) && parent < 128 && Create(fs, parent, name, isDir).code != -1
    ensures EntryCount(fs.inodes[parent]) < 224
    ensures OnDisk(Create(fs, parent, name, isDir).fs)
            <==> fs.inodes[parent].blocks[EntryCount(fs.inodes[parent]) / 16] == 0
    ensures OnDisk(Create(fs, parent, name, isDir).fs)
            || CountOnDisk(Create(fs, parent, name, isDir).fs) == CountOnDisk(fs)
    ensures Create(fs, parent, name, isDir).fs.sb.freeInodes == fs.sb.freeInodes - 1
  {
    hide Core, DirsOk, DecodeSuperblock, EncodeSuperblock, AddEntry, Create, Entries, EncodeInodeSector;
    CreateSaved(fs, parent, name, isDir);
    RemountIsSame(fs);
    if NeedsBlock(fs.inodes[parent]) {
      SavedOnDisk(Create(fs, parent, name, isDir).fs);
    }
  }

  /** A successful create saves the superblock exactly when the entry takes a block. */
  lemma CreateSaved(fs: Fs, parent: nat, name: CString, isDir: bool)
    requires Inv(fs) && parent < 128 && Create(fs, parent, name, isDir).code != -1
    ensures EntryCount(fs.inodes[parent]) < 224
    ensures var r := Create(fs, parent, name, isDir).fs;
            && r.sb.freeInodes == fs.sb.freeInodes - 1
            && r.disk[LBA_SUPERBLOCK] == if NeedsBlock(fs.inodes[parent]) then EncodeSuperblock(r.sb) else fs.disk[LBA_SUPERBLOCK]
  {
    hide Core, DirsOk, EncodeSuperblock, AddEntry, Create, Entries, EncodeInodeSector;
    var i, c, a := CreateSteps(fs, parent, name, isDir);
    ClaimedParent(fs, i, parent, isDir);
    AddEntrySaved(c, parent, name, i, {1 + i / 8});
    assert Untouched(a, SaveInode(a, i));
  }

  lemma ClaimedParent(fs: Fs, i: nat, parent: nat, isDir: bool)
    requires Inv(fs) && 0 < i < 128 && parent < 128 && fs.inodes[i].kind == TYPE_FREE && fs.sb.freeInodes > 0
    requires Claim(fs, i, isDir).inodes[parent].kind == TYPE_DIR && DirEntries(Claim(fs, i, isDir), i) == []
    ensures Core(Claim(fs, i, isDir), {1 + i / 8}) && DirsOk(Claim(fs, i, isDir))
    ensures Claim(fs, i, isDir).inodes[parent].blocks == fs.inodes[parent].blocks
    ensures EntryCount(Claim(fs, i, isDir).inodes[parent]) == EntryCount(fs.inodes[parent])
    ensures Claim(fs, i, isDir).disk == fs.disk && Claim(fs, i, isDir).sb.freeInodes == fs.sb.freeInodes - 1
  {
    hide Own, Synced, DirOk;
    ClaimCore(fs, i, isDir);
  }

  /** The format of any disk, then a file `a`: a remount counts 127 free inodes where memory counted 126. */
  lemma CreateLosesCount(disk: Disk)
    ensures var c := Create(Format(disk), 0, NameA, false);
            c.code != -1 && c.fs.sb.freeInodes == 126 && Remount(c.fs).sb.freeInodes == 127
  {
    hide Inv, Create, BindingMap, Format, Mount, DecodeSuperblock, EntryCount;
    var fs := Format(disk);
    FormatInv(disk);
    FormatOnDisk(disk);
    assert fs.inodes[1].kind == TYPE_FREE;
    RootEmpty(fs);
    CreateInFirstBlock(fs, NameA);
    CreateCountIff(fs, 0, NameA, false);
    NoEntriesCount(fs);
    RemountIsSame(Create(fs, 0, NameA, false).fs);
  }

  lemma NoEntriesCount(fs: Fs)
    requires Inv(fs) && DirEntries(fs, 0) == []
    ensures EntryCount(fs.inodes[0]) == 0
  {
  }

  lemma FormatOnDisk(disk: Disk)
    ensures OnDisk(Format(disk))
  {
    hide DecodeSuperblock, EncodeSuperblock, EnsureCleared;
    SuperblockRoundTrip(Format(disk).sb);
  }

  // ----- writes -----

  /** Among the slots that `left` bytes from position `at` of slot `k` reach, one has no block. */
  predicate Lacks(n: Inode, k: nat, at: nat, left: nat) {
    left > 0 && exists j :: k <= j < 14 && n.blocks[j] == 0 && 512 * (j - k) < at + left
  }

  ghost predicate TakesBlock(fs: Fs, i: nat, k: nat, at: nat, left: nat)
    requires i < 128
  {
    FirstClear(fs.bitmap) != -1 && Lacks(fs.inodes[i], k, at, left)
  }

  lemma SavedChain(fs: Fs, fs1: Fs, fs2: Fs, t1: bool, t2: bool)
    requires SavedIff(fs, fs1, t1) && SavedIff(fs1, fs2, t2)
    ensures SavedIff(fs, fs2, t1 || t2)
  {
    hide DecodeSuperblock;
  }

  lemma TurnSaved(fs: Fs, i: nat, k: nat, at: nat, data: seq<byte>, w: nat, readBack: bool, dirty: set<int>)
    requires i < 128 && k < 14 && at < 512 && w < |data|
    requires Core(fs, dirty) && fs.inodes[i].kind == TYPE_FILE && Ensure(fs, i, k).code != -1
    ensures SavedIff(fs, AfterTurn(fs, i, k, at, data, w, readBack), fs.inodes[i].blocks[k] == 0)
    ensures fs.inodes[i].blocks[k] == 0 ==> FirstClear(fs.bitmap) != -1
    ensures fs.inodes[i].blocks[k] != 0 ==>
              AfterTurn(fs, i, k, at, data, w, readBack).inodes == fs.inodes && AfterTurn(fs, i, k, at, data, w, readBack).bitmap == fs.bitmap
  {
    hide Core, CountOnDisk, TurnSector;
    EnsureCore(fs, i, k, dirty);
    EnsureSaved(fs, i, k);
    var e := Ensure(fs, i, k);
    DataBlock(e.fs, i, k, if fs.inodes[i].blocks[k] == 0 then dirty + {1 + i / 8} else dirty);
    OtherSector(e.fs, BlockOf(e.fs.inodes[i], k), TurnSector(e.fs, i, k, at, data, w, readBack));
    StillSaved(fs, e.fs, AfterTurn(fs, i, k, at, data, w, readBack), fs.inodes[i].blocks[k] == 0);
  }

  lemma LacksTurn(n: Inode, k: nat, at: nat, data: seq<byte>, w: nat)
    requires k < 14 && at < 512 && w < |data|
    ensures Lacks(n, k, at, |data| - w) <==> n.blocks[k] == 0 || Lacks(n, k + 1, 0, |data| - (w + Turn(at, data, w)))
  {
    var left, next := |data| - w, |data| - (w + Turn(at, data, w));
    if n.blocks[k] == 0 {
      assert 512 * (k - k) < at + left;
    }
    if Lacks(n, k, at, left) && n.blocks[k] != 0 {
      var j :| k <= j < 14 && n.blocks[j] == 0 && 512 * (j - k) < at + left;
      assert 512 * (j - (k + 1)) < 0 + next;
    }
    if Lacks(n, k + 1, 0, next) {
      var j :| k + 1 <= j < 14 && n.blocks[j] == 0 && 512 * (j - (k + 1)) < 0 + next;
      assert 512 * (j - k) < at + left;
    }
  }

  /** The write loop saves the superblock exactly when it takes a block. */
  lemma {:induction false} WriteFromSaved(fs: Fs, i: nat, k: nat, at: nat, data: seq<byte>, w: nat, readBack: bool, dirty: set<int>)
    requires i < 128 && at < 512 && w <= |data|
    requires Core(fs, dirty) && 1 + i / 8 in dirty && fs.inodes[i].kind == TYPE_FILE
    ensures SavedIff(fs, WriteFrom(fs, i, k, at, data, w, readBack).fs, TakesBlock(fs, i, k, at, |data| - w))
    decreases if k < 14 then 14 - k else 0
  {
    hide Core, Ensure, AfterTurn, Turn, Lacks, DecodeSuperblock;
    if w == |data| || k >= 14 {
      assert !Lacks(fs.inodes[i], k, at, |data| - w) by { LacksNone(fs.inodes[i], k, at, |data| - w); }
    } else if Ensure(fs, i, k).code == -1 {
      EnsureCore(fs, i, k, dirty);
    } else {
      var fs1, w1 := AfterTurn(fs, i, k, at, data, w, readBack), w + Turn(at, data, w);
      TurnSaved(fs, i, k, at, data, w, readBack, dirty);
      TurnCore(fs, i, k, at, data, w, readBack, dirty);
      WriteFromSaved(fs1, i, k + 1, 0, data, w1, readBack, dirty);
      LacksTurn(fs.inodes[i], k, at, data, w);
      SavedChain(fs, fs1, WriteFrom(fs, i, k, at, data, w, readBack).fs, fs.inodes[i].blocks[k] == 0, TakesBlock(fs1, i, k + 1, 0, |data| - w1));
    }
  }

  lemma LacksNone(n: Inode, k: nat, at: nat, left: nat)
    requires left == 0 || k >= 14
    ensures !Lacks(n, k, at, left)
  {
  }

  lemma ResizeUntouched(fs: Fs, i: nat, n: Inode)
    requires i < 128
    ensures Untouched(fs, SaveInode(WithInode(fs, i, n), i))
  {
    hide EncodeInodeSector;
  }

  lemma WriteInodeSaved(fs: Fs, i: nat, data: seq<byte>)
    requires Inv(fs) && i < 128 && fs.inodes[i].kind == TYPE_FILE
    ensures SavedIff(fs, WriteInode(fs, i, data).fs, TakesBlock(fs, i, 0, 0, |data|))
  {
    hide Core, WriteFrom, TakesBlock, DecodeSuperblock, SaveInode;
    MoreDirty(fs, {}, {1 + i / 8});
    WriteFromSaved(fs, i, 0, 0, data, 0, false, {1 + i / 8});
    var r := WriteFrom(fs, i, 0, 0, data, 0, false);
    ResizeUntouched(r.fs, i, r.fs.inodes[i].(size := Wrap(r.code)));
  }

  lemma VfsWriteSaved(fs: Fs, i: nat, offset: u32, data: seq<byte>)
    requires Inv(fs) && i < 128 && fs.inodes[i].kind == TYPE_FILE
    ensures SavedIff(fs, VfsWrite(fs, i, offset, data).fs, TakesBlock(fs, i, offset / 512, offset % 512, |data|))
  {
    hide Core, WriteFrom, TakesBlock, DecodeSuperblock, SaveInode;
    MoreDirty(fs, {}, {1 + i / 8});
    WriteFromSaved(fs, i, offset / 512, offset % 512, data, 0, true, {1 + i / 8});
    var r := WriteFrom(fs, i, offset / 512, offset % 512, data, 0, true);
    var n, end := r.fs.inodes[i], Wrap(offset + r.code);
    ResizeUntouched(r.fs, i, n.(size := if end > n.size then end else n.size));
  }

  // ----- pafs_delete -----

  lemma DeleteSaved(fs: Fs, parent: nat, name: CString)
    requires Inv(fs) && parent < 128 && Delete(fs, parent, name).code == 0
    ensures OnDisk(Delete(fs, parent, name).fs) && Saved(Delete(fs, parent, name).fs)
    ensures Delete(fs, parent, name).fs.sb.freeInodes == Wrap(fs.sb.freeInodes + 1)
  {
    hide Core, DirsOk, DecodeSuperblock, EncodeSuperblock, Release, RemoveEntry, Search, EncodeInodeSector, Delete;
    DeleteCases(fs, parent, name);
    DeleteEffect(fs, parent, name);
    var i := DirEntries(fs, parent)[Search(DirEntries(fs, parent), name, 0)].ino;
    ReleaseEffect(fs, i);
    DeleteSteps(fs, parent, name, i);
    var r := RemoveEntry(Release(fs, i), parent, name).fs;
    SavedOnDisk(SaveInode(SaveBitmap(SaveSuperblock(r)), i));
  }

  // ----- every operation -----

  /** After which operations the count on disk is right, told from the state before. */
  ghost predicate RightAfter(fs: Fs, op: Op) {
    match op
    case OpFormat => true
    case OpCreate(p, name, isDir) =>
      if Find(fs, p, name) != -1 || NoPlace(fs, p, isDir) then OnDisk(fs) else NeedsBlock(fs.inodes[p])
    case OpWrite(name, data) =>
      var found := Find(fs, 0, name);
      if found != -1 then OnDisk(fs) || (IsFileInode(fs, found) && TakesBlock(fs, found, 0, 0, |data|))
      else if NoPlace(fs, 0, false) then OnDisk(fs)
      else NeedsBlock(fs.inodes[0]) || (data != [] && FirstClear(fs.bitmap) != -1)
    case OpVfsWrite(i, offset, data) =>
      OnDisk(fs) || (fs.inodes[i].kind == TYPE_FILE && TakesBlock(fs, i, offset / 512, offset % 512, |data|))
    case OpDelete(p, name) =>
      var found := Find(fs, p, name);
      OnDisk(fs) || (0 <= found < 128 && Deletable(fs, found))
    case OpRemount => true
  }

  predicate IsFileInode(fs: Fs, i: int) {
    0 <= i < 128 && fs.inodes[i].kind == TYPE_FILE
  }

  /** Right after the operation exactly as said, and otherwise the disk keeps the count it had. */
  ghost predicate CountStep(fs: Fs, op: Op) {
    && (OnDisk(Step(fs, op)) <==> RightAfter(fs, op))
    && (OnDisk(Step(fs, op)) || CountOnDisk(Step(fs, op)) == CountOnDisk(fs))
  }

  lemma NewFileLacks(fs: Fs, name: CString, left: nat)
    requires Inv(fs) && Create(fs, 0, name, false).code != -1
    ensures var c := Create(fs, 0, name, false);
            && 0 < c.code < 128 && c.fs.inodes[c.code].kind == TYPE_FILE && Inv(c.fs)
            && (Lacks(c.fs.inodes[c.code], 0, 0, left) <==> left > 0)
  {
    hide Inv, Create;
    CreateEffect(fs, 0, name, false);
    var c := Create(fs, 0, name, false);
    assert c.fs.inodes[c.code].blocks[0] == 0;
    assert left > 0 ==> 512 * (0 - 0) < 0 + left;
  }

  lemma CreateFailure(fs: Fs, p: nat, name: CString, isDir: bool)
    requires Inv(fs) && p < 128
    ensures Create(fs, p, name, isDir).code == -1 <==> Find(fs, p, name) != -1 || NoPlace(fs, p, isDir)
  {
    hide Inv, Create, NoPlace, BindingMap, Find, Search;
    CreateFailsIff(fs, p, name, isDir);
    FindIsSearchInv(fs, p, name);
    InMap(DirEntries(fs, p), name);
  }

  lemma WriteCount(fs: Fs, name: CString, data: seq<byte>)
    requires Inv(fs)
    ensures CountStep(fs, OpWrite(name, data))
  {
    hide Inv, Create, WriteInode, Write, Find, DecodeSuperblock, Lacks, NoPlace;
    WriteCases(fs, name, data);
    CreateFailure(fs, 0, name, false);
    var found := Find(fs, 0, name);
    if found != -1 {
      if fs.inodes[found].kind == TYPE_FILE {
        WriteInodeSaved(fs, found, data);
        SavedCount(fs, WriteInode(fs, found, data).fs, TakesBlock(fs, found, 0, 0, |data|));
      } else {
        WriteInodeInv(fs, found, data);
      }
    } else {
      var c := Create(fs, 0, name, false);
      if c.code != -1 {
        CreateCountIff(fs, 0, name, false);
        NewFileLacks(fs, name, |data|);
        WriteInodeSaved(c.fs, c.code, data);
        SavedCount(c.fs, WriteInode(c.fs, c.code, data).fs, TakesBlock(c.fs, c.code, 0, 0, |data|));
        if !NeedsBlock(fs.inodes[0]) {
          CreateKeepsBitmap(fs, 0, name, false);
        }
      }
    }
  }

  /** Exactly when the count on disk is right after an operation. */
  lemma CountStepIff(fs: Fs, op: Op)
    requires Inv(fs)
    ensures OnDisk(Step(fs, op)) <==> RightAfter(fs, op)
    ensures OnDisk(Step(fs, op)) || CountOnDisk(Step(fs, op)) == CountOnDisk(fs)
  {
    hide Inv, Create, VfsWrite, Delete, Format, Write, Mount, DecodeSuperblock, TakesBlock, NoPlace, Find;
    match op
    case OpFormat => FormatOnDisk(fs.disk);
    case OpCreate(p, name, isDir) =>
      CreateEffect(fs, p, name, isDir);
      CreateFailure(fs, p, name, isDir);
      if Create(fs, p, name, isDir).code != -1 {
        CreateCountIff(fs, p, name, isDir);
      }
    case OpWrite(name, data) => WriteCount(fs, name, data);
    case OpVfsWrite(i, offset, data) =>
      VfsWriteInv(fs, i, offset, data);
      if fs.inodes[i].kind == TYPE_FILE {
        VfsWriteSaved(fs, i, offset, data);
        SavedCount(fs, VfsWrite(fs, i, offset, data).fs, TakesBlock(fs, i, offset / 512, offset % 512, |data|));
      }
    case OpDelete(p, name) =>
      DeleteEffect(fs, p, name);
      DeleteSucceedsIff(fs, p, name);
      if Delete(fs, p, name).code == 0 {
        DeleteSaved(fs, p, name);
      }
    case OpRemount => RemountIsSame(fs);
  }

  lemma DeleteSucceedsIff(fs: Fs, p: nat, name: CString)
    requires Inv(fs) && p < 128
    ensures Delete(fs, p, name).code == 0 <==> 0 <= Find(fs, p, name) < 128 && Deletable(fs, Find(fs, p, name))
  {
    hide Inv, Delete, Find, Search, Deletable;
    DeleteEffect(fs, p, name);
    FoundIs(fs, p, name);
  }

  lemma FoundIs(fs: Fs, p: nat, name: CString)
    requires Inv(fs) && p < 128
    ensures var s := Search(DirEntries(fs, p), name, 0);
            && -1 <= s < |DirEntries(fs, p)|
            && Find(fs, p, name) == (if s == -1 then -1 else DirEntries(fs, p)[s].ino)
            && -1 <= Find(fs, p, name) < 128
  {
    hide Core, DirEntries, Find;
    FindIsSearch(fs, p, name);
  }

  // ----- counting free inodes -----

  function CountFree(t: InodeTable, n: nat): (c: nat)
    requires n <= 128
    ensures c <= n
  {
    if n == 0 then 0 else CountFree(t, n - 1) + (if t[n - 1].kind == TYPE_FREE then 1 else 0)
  }

  lemma {:induction false} CountFreeChange(t: InodeTable, t': InodeTable, i: nat, n: nat)
    requires i < 128 && n <= 128 && FreeAlike(t, t', i)
    requires t'[i].kind == TYPE_FREE <==> t[i].kind != TYPE_FREE
    ensures CountFree(t', n) == CountFree(t, n) + (if i >= n then 0 else if t'[i].kind == TYPE_FREE then 1 else -1)
  {
    if n > 0 {
      CountFreeChange(t, t', i, n - 1);
    }
  }

  lemma {:induction false} CountFreeSame(t: InodeTable, t': InodeTable, n: nat)
    requires n <= 128 && FreeAlike(t, t', -1)
    ensures CountFree(t', n) == CountFree(t, n)
  {
    if n > 0 {
      CountFreeSame(t, t', n - 1);
    }
  }

  lemma {:induction false} AllFreeButRoot(t: InodeTable, n: nat)
    requires 1 <= n <= 128 && t[0].kind != TYPE_FREE
    requires forall i :: 0 < i < 128 ==> t[i].kind == TYPE_FREE
    ensures CountFree(t, n) == n - 1
  {
    if n > 1 {
      AllFreeButRoot(t, n - 1);
    }
  }

  lemma {:induction false} SomeFree(t: InodeTable, n: nat)
    requires n <= 128
    ensures CountFree(t, n) == 0 <==> forall i :: 0 <= i < n ==> t[i].kind != TYPE_FREE
  {
    if n > 0 {
      SomeFree(t, n - 1);
    }
  }

  function FreeCount(fs: Fs): nat {
    CountFree(fs.inodes, 128)
  }

  /** How far the count in memory is above the number of free inodes. */
  function Drift(fs: Fs): int {
    fs.sb.freeInodes - FreeCount(fs)
  }

  lemma CreateDrift(fs: Fs, parent: nat, name: CString, isDir: bool)
    requires Inv(fs) && parent < 128
    ensures Drift(Create(fs, parent, name, isDir).fs) == Drift(fs)
    ensures Create(fs, parent, name, isDir).fs.sb.freeInodes <= fs.sb.freeInodes
  {
    hide Inv, Create, CountFree;
    CreateEffect(fs, parent, name, isDir);
    var r := Create(fs, parent, name, isDir);
    if r.code != -1 {
      TreeAfterCreate(fs, parent, name, isDir);
      CountFreeChange(fs.inodes, r.fs.inodes, r.code, 128);
      CreateCountIff(fs, parent, name, isDir);
    }
  }

  /** A deletion that hits the entry of an inode that is free already. */
  ghost predicate FreesFree(fs: Fs, parent: nat, name: CString)
    requires parent < 128
  {
    var found := Find(fs, parent, name);
    0 <= found < 128 && Deletable(fs, found) && fs.inodes[found].kind == TYPE_FREE
  }

  lemma DeleteDrift(fs: Fs, parent: nat, name: CString)
    requires Inv(fs) && parent < 128 && fs.sb.freeInodes + 1 < TWO32
    ensures Drift(Delete(fs, parent, name).fs) == Drift(fs) + (if FreesFree(fs, parent, name) then 1 else 0)
    ensures Delete(fs, parent, name).fs.sb.freeInodes <= fs.sb.freeInodes + 1
  {
    hide Inv, Delete, CountFree, Dropped, Find, Search, DirEntries;
    DeleteEffect(fs, parent, name);
    DeleteSucceedsIff(fs, parent, name);
    FoundIs(fs, parent, name);
    var r := Delete(fs, parent, name);
    if r.code == 0 {
      TreeAfterDelete(fs, parent, name);
      DeleteSaved(fs, parent, name);
      WrapSmall(fs.sb.freeInodes + 1);
      var i := Find(fs, parent, name);
      if fs.inodes[i].kind == TYPE_FREE {
        CountFreeSame(fs.inodes, r.fs.inodes, 128);
      } else {
        CountFreeChange(fs.inodes, r.fs.inodes, i, 128);
      }
    }
  }

  lemma DataDrift(fs: Fs, fs': Fs, i: nat)
    requires i < 128 && Inv(fs) && OthersSame(fs, fs', i) && SbSame(fs, fs')
    requires fs'.inodes[i].kind == fs.inodes[i].kind
    ensures Drift(fs') == Drift(fs) && fs'.sb.freeInodes == fs.sb.freeInodes
  {
    hide Inv, CountFree, SameData;
    CountFreeSame(fs.inodes, fs'.inodes, 128);
  }

  lemma WriteDrift(fs: Fs, name: CString, data: seq<byte>)
    requires Inv(fs)
    ensures Drift(Write(fs, name, data).fs) == Drift(fs)
    ensures Write(fs, name, data).fs.sb.freeInodes <= fs.sb.freeInodes
  {
    hide Inv, Create, WriteInode, Write, Find, Drift, OthersSame;
    WriteCases(fs, name, data);
    var found := Find(fs, 0, name);
    if found != -1 {
      WriteInodeInv(fs, found, data);
      if fs.inodes[found].kind == TYPE_FILE {
        DataDrift(fs, WriteInode(fs, found, data).fs, found);
      }
    } else {
      CreateDrift(fs, 0, name, false);
      var c := Create(fs, 0, name, false);
      if c.code != -1 {
        WriteInodeInv(c.fs, c.code, data);
        DataDrift(c.fs, WriteInode(c.fs, c.code, data).fs, c.code);
      }
    }
  }

  lemma FormatDrift(disk: Disk)
    ensures Drift(Format(disk)) == 0 && Format(disk).sb.freeInodes == 127
  {
    hide Inv, Format, CountFree;
    FormatInv(disk);
    RootIsDir(Format(disk));
    AllFreeButRoot(Format(disk).inodes, 128);
  }

  /** Whether an operation leaves a count right that is right, told from the state before. */
  ghost predicate CountKept(fs: Fs, op: Op) {
    match op
    case OpRemount => OnDisk(fs)
    case OpDelete(p, name) => !FreesFree(fs, p, name)
    case _ => true
  }

  /** A format makes the count right, a remount takes it from the disk; otherwise it gains one where a free inode is freed. */
  lemma StepDrift(fs: Fs, op: Op)
    requires Inv(fs) && fs.sb.freeInodes + 1 < TWO32
    ensures op.OpFormat? ==> Drift(Step(fs, op)) == 0 && Step(fs, op).sb.freeInodes == 127
    ensures op.OpRemount? ==> Drift(Step(fs, op)) == Drift(fs) + CountOnDisk(fs) - fs.sb.freeInodes
                              && Step(fs, op).sb.freeInodes == CountOnDisk(fs)
    ensures !op.OpFormat? && !op.OpRemount? ==>
              && Drift(Step(fs, op)) == Drift(fs) + (if CountKept(fs, op) then 0 else 1)
              && Step(fs, op).sb.freeInodes <= fs.sb.freeInodes + 1
  {
    hide Inv, Create, VfsWrite, Delete, Format, Write, Mount, DecodeSuperblock, CountFree, OthersSame, FreesFree;
    match op
    case OpFormat => FormatDrift(fs.disk);
    case OpCreate(p, name, isDir) => CreateDrift(fs, p, name, isDir);
    case OpWrite(name, data) => WriteDrift(fs, name, data);
    case OpVfsWrite(i, offset, data) =>
      VfsWriteInv(fs, i, offset, data);
      DataDrift(fs, VfsWrite(fs, i, offset, data).fs, i);
    case OpDelete(p, name) => DeleteDrift(fs, p, name);
    case OpRemount => RemountIsSame(fs);
  }

  /**
    A right count stays right exactly unless a remount finds it wrong on disk or a deletion
    frees an inode that is free already.
   */
  lemma CountStaysRightIff(fs: Fs, op: Op)
    requires Inv(fs) && Drift(fs) == 0
    ensures Drift(Step(fs, op)) == 0 <==> CountKept(fs, op)
  {
    hide Inv, Step, CountFree, FreesFree, OnDisk;
    StepDrift(fs, op);
    CountKeptOnDisk(fs, op);
  }

  lemma CountKeptOnDisk(fs: Fs, op: Op)
    ensures op.OpRemount? ==> (CountKept(fs, op) <==> CountOnDisk(fs) == fs.sb.freeInodes)
  {
    hide DecodeSuperblock;
  }

  /** The count is right at every moment of a run. */
  ghost predicate AlwaysRight(fs: Fs, ops: seq<Op>)
    decreases |ops|
  {
    Drift(fs) == 0 && (ops == [] || AlwaysRight(Step(fs, ops[0]), ops[1..]))
  }

  /** Every remount of a run is made while the disk has the count right, and every deletion hits a live inode. */
  ghost predicate RunKeepsCount(fs: Fs, ops: seq<Op>)
    decreases |ops|
  {
    ops == [] || (CountKept(fs, ops[0]) && RunKeepsCount(Step(fs, ops[0]), ops[1..]))
  }

  lemma {:induction false} RunRightIff(fs: Fs, ops: seq<Op>)
    requires Inv(fs) && Drift(fs) == 0
    ensures AlwaysRight(fs, ops) <==> RunKeepsCount(fs, ops)
    ensures RunKeepsCount(fs, ops) ==> Drift(Run(fs, ops)) == 0
    decreases |ops|
  {
    hide Inv, Step, Drift, CountKept;
    if ops != [] {
      CountStaysRightIff(fs, ops[0]);
      StepInv(fs, ops[0]);
      if CountKept(fs, ops[0]) {
        RunRightIff(Step(fs, ops[0]), ops[1..]);
      }
    }
  }

  /**
    From a format on, over every run, `free_inodes` is the number of free inodes at every moment if and only if every
    remount is made while the disk has the count right and no deletion hits an inode that is free already.
   */
  lemma FreeCountIff(disk: Disk, ops: seq<Op>)
    ensures AlwaysRight(Format(disk), ops) <==> RunKeepsCount(Format(disk), ops)
  {
    hide Inv, Format, Drift, AlwaysRight, RunKeepsCount;
    FormatInv(disk);
    FormatDrift(disk);
    RunRightIff(Format(disk), ops);
  }

  lemma {:induction false} CountBounded(fs: Fs, ops: seq<Op>, bound: nat)
    requires Inv(fs) && Drift(fs) >= 0
    requires CountOnDisk(fs) <= bound && 127 <= bound && bound + |ops| < TWO32
    ensures Drift(Run(fs, ops)) >= 0 && CountOnDisk(Run(fs, ops)) <= bound + |ops|
    decreases |ops|
  {
    hide Inv, Step, CountFree, DecodeSuperblock, RightAfter, CountKept;
    if ops != [] {
      var s := Step(fs, ops[0]);
      RemountIsSame(fs);
      CountStepIff(fs, ops[0]);
      StepDrift(fs, ops[0]);
      StepInv(fs, ops[0]);
      CountBounded(s, ops[1..], bound + 1);
    }
  }

  /**
    The count is never too low, over every run shorter than the range of the
    counter: so `pafs_create` never turns a caller away while an inode is free for want of a count.
   */
  lemma CountNeverLow(disk: Disk, ops: seq<Op>)
    requires |ops| < TWO32 - 127
    ensures var fs := Run(Format(disk), ops);
            && fs.sb.freeInodes >= FreeCount(fs)
            && (fs.sb.freeInodes == 0 ==> NoneFree(fs.inodes))
  {
    hide Inv, Run, Format, CountFree, DecodeSuperblock;
    FormatInv(disk);
    FormatDrift(disk);
    FormatOnDisk(disk);
    CountBounded(Format(disk), ops, 127);
    SomeFree(Run(Format(disk), ops).inodes, 128);
  }
}
