/**
  Remounting in the middle of a write or a create: what the disk says of block ownership, and
  of the name being created, after each sector write.
 */
module PafsMidway {
  import opened Words
  import opened Bitmaps
  import opened PafsLayout
  import opened PafsState
  import opened PafsInv
  import opened PafsDirs
  import opened PafsOps
  import opened PafsData
  import opened PafsMount
  import opened PafsCrash

  /** No block was taken or given back. */
  ghost predicate SameBits(bm: Sector, bm': Sector) {
    forall b :: 0 <= b < 4096 ==> (Used(bm', b) <==> Used(bm, b))
  }

  ghost predicate MoreBits(bm: Sector, bm': Sector) {
    forall b :: 0 <= b < 4096 && Used(bm, b) ==> Used(bm', b)
  }

  /** `m` lies within an operation that began in `fs`, has perhaps taken blocks, and has saved no inode yet. */
  ghost predicate Pending(fs: Fs, m: Fs) {
    && DecodeSuperblock(m.disk[LBA_SUPERBLOCK]).magic == MAGIC && m.sb.magic == MAGIC
    && m.disk[LBA_BITMAP] == m.bitmap && MoreBits(fs.bitmap, m.bitmap)
    && forall l :: LBA_INODES_START <= l < LBA_BITMAP ==> m.disk[l] == fs.disk[l]
  }

  lemma PendingHolds(fs: Fs, m: Fs)
    requires Inv(fs) && Pending(fs, m)
    ensures DiskHolds(m.disk, fs.inodes, m.bitmap)
  {
    hide Inv, DecodeSuperblock, EncodeInodeSector;
    InvHolds(fs, fs.disk);
  }

  lemma StartPending(fs: Fs)
    requires Inv(fs)
    ensures Pending(fs, fs)
  {
    hide Own, DirsOk, DecodeSuperblock;
    assert SuperblockSynced(fs);
  }

  /** Blocks taken and not yet written down are lost; none that is held is ever free. */
  lemma PendingIff(fs: Fs, m: Fs)
    requires Inv(fs) && Pending(fs, m)
    ensures ExactOnDisk(m.disk) <==> SameBits(fs.bitmap, m.bitmap)
    ensures SafeOnDisk(m.disk)
  {
    hide ExactOnDisk, SafeOnDisk, DiskHolds, DirsOk, Synced, FreeClean, DecodeSuperblock;
    PendingHolds(fs, m);
    ExactIs(m.disk, fs.inodes, m.bitmap);
    BitsIff(fs.inodes, fs.bitmap, m.bitmap);
  }

  lemma BitsIff(t: InodeTable, bm: Sector, bm': Sector)
    requires Own(t, bm) && MoreBits(bm, bm')
    ensures Own(t, bm') <==> SameBits(bm, bm')
    ensures Safe(t, bm')
  {
    if Own(t, bm') {
      forall b | 0 <= b < 4096
        ensures Used(bm', b) <==> Used(bm, b)
      {
        if b >= LBA_DATA_START {
          UsedIffHeld(t, bm, b);
          UsedIffHeld(t, bm', b);
        }
      }
    }
  }

  /** The two saves of `alloc_block`. */
  function TakeSaves(m: Fs, b: nat): seq<Fs>
    requires b < 4096
  {
    [SaveBitmap(MarkBlock(m, b, true)), SaveSuperblock(SaveBitmap(MarkBlock(m, b, true)))]
  }

  lemma TakePending(fs: Fs, m: Fs, b: nat)
    requires Pending(fs, m) && b < 4096 && !Used(m.bitmap, b) && !Used(fs.bitmap, b)
    ensures forall q :: 0 <= q < 2 ==> Pending(fs, TakeSaves(m, b)[q]) && !SameBits(fs.bitmap, TakeSaves(m, b)[q].bitmap)
  {
    hide DecodeSuperblock, EncodeSuperblock, PutBit;
    UsedPut(m.bitmap, b, true);
    var m1 := SaveBitmap(MarkBlock(m, b, true));
    SuperblockRoundTrip(m1.sb);
    assert Used(m1.bitmap, b);
  }

  lemma SectorPending(fs: Fs, m: Fs, l: nat, s: Sector)
    requires Pending(fs, m) && LBA_DATA_START <= l < 4096
    ensures Pending(fs, WithSector(m, l, s))
  {
  }

  // ----- the write loop -----

  /** The states of the write loop after each of its sector writes, the one it starts in first. */
  ghost function LoopWrites(m: Fs, i: nat, k: nat, at: nat, data: seq<byte>, w: nat, readBack: bool): seq<Fs>
    requires i < 128 && at < 512 && w <= |data|
    decreases if k < 14 then 14 - k else 0, |data|
  {
    [m] + if w == |data| || k >= 14 || Ensure(m, i, k).code == -1 then []
          else SlotSaves(m, i, k)
               + LoopWrites(AfterTurn(m, i, k, at, data, w, readBack), i, k + 1, 0, data, w + Turn(at, data, w), readBack)
  }

  /** What is written to have a block for slot `k`. */
  ghost function SlotSaves(m: Fs, i: nat, k: nat): seq<Fs>
    requires i < 128 && k < 14
  {
    var b := FirstClear(m.bitmap);
    if m.inodes[i].blocks[k] != 0 || b == -1 then [] else TakeSaves(m, b)
  }

  lemma EnsurePending(fs: Fs, m: Fs, i: nat, k: nat)
    requires i < 128 && k < 14 && Pending(fs, m) && Ensure(m, i, k).code != -1
    ensures Pending(fs, Ensure(m, i, k).fs)
    ensures forall q :: 0 <= q < |SlotSaves(m, i, k)| ==> Pending(fs, SlotSaves(m, i, k)[q])
  {
    hide DecodeSuperblock, EncodeSuperblock, PutBit, SameBits;
    if m.inodes[i].blocks[k] == 0 {
      var b := FirstClear(m.bitmap);
      TakePending(fs, m, b);
      var r := Ensure(m, i, k).fs;
      assert r == WithBlock(TakeSaves(m, b)[1], i, k, b);
    }
  }

  lemma TurnPending(fs: Fs, m: Fs, i: nat, k: nat, at: nat, data: seq<byte>, w: nat, readBack: bool)
    requires i < 128 && k < 14 && at < 512 && w < |data| && Pending(fs, m)
    requires Core(m, {1 + i / 8}) && m.inodes[i].kind == TYPE_FILE && Ensure(m, i, k).code != -1
    ensures Pending(fs, AfterTurn(m, i, k, at, data, w, readBack))
  {
    hide Core, TurnSector, Ensure, Pending;
    EnsurePending(fs, m, i, k);
    EnsureCore(m, i, k, {1 + i / 8});
    var e := Ensure(m, i, k).fs;
    TurnTarget(m, i, k);
    SectorPending(fs, e, BlockOf(e.inodes[i], k), TurnSector(e, i, k, at, data, w, readBack));
  }

  lemma TurnTarget(m: Fs, i: nat, k: nat)
    requires i < 128 && k < 14 && Core(m, {1 + i / 8}) && m.inodes[i].kind == TYPE_FILE && Ensure(m, i, k).code != -1
    ensures BlockOf(Ensure(m, i, k).fs.inodes[i], k) >= LBA_DATA_START
  {
    EnsureCore(m, i, k, {1 + i / 8});
    OwnApart(Ensure(m, i, k).fs.inodes, Ensure(m, i, k).fs.bitmap, i);
  }

  lemma {:induction false} LoopPending(fs: Fs, m: Fs, i: nat, k: nat, at: nat, data: seq<byte>, w: nat, readBack: bool, q: nat)
    requires i < 128 && at < 512 && w <= |data| && Pending(fs, m) && Core(m, {1 + i / 8}) && m.inodes[i].kind == TYPE_FILE
    ensures var states := LoopWrites(m, i, k, at, data, w, readBack);
            && states[|states| - 1] == WriteFrom(m, i, k, at, data, w, readBack).fs
            && (q < |states| ==> Pending(fs, states[q]))
    decreases if k < 14 then 14 - k else 0
  {
    hide Core, Pending, Ensure, AfterTurn, Turn, SlotSaves;
    if w < |data| && k < 14 && Ensure(m, i, k).code != -1 {
      EnsurePending(fs, m, i, k);
      TurnPending(fs, m, i, k, at, data, w, readBack);
      TurnCore(m, i, k, at, data, w, readBack, {1 + i / 8});
      var m1, w1, n := AfterTurn(m, i, k, at, data, w, readBack), w + Turn(at, data, w), |SlotSaves(m, i, k)|;
      LoopPending(fs, m1, i, k + 1, 0, data, w1, readBack, if q > n then q - 1 - n else 0);
    }
  }

  /**
    A write interrupted before the inode is saved: after any sector write of the loop, those of
    `alloc_block` included, the ownership found on the disk is exact if and only if no block was taken yet (else blocks
    are lost); and no block in use is ever marked free.
   */
  lemma WriteCrashIff(fs: Fs, i: nat, k: nat, at: nat, data: seq<byte>, readBack: bool, q: nat)
    requires Inv(fs) && i < 128 && at < 512 && fs.inodes[i].kind == TYPE_FILE
    ensures var states := LoopWrites(fs, i, k, at, data, 0, readBack);
            && states[|states| - 1] == WriteFrom(fs, i, k, at, data, 0, readBack).fs
            && (q < |states| ==>
                  (ExactOnDisk(states[q].disk) <==> SameBits(fs.bitmap, states[q].bitmap)) && SafeOnDisk(states[q].disk))
  {
    hide Inv, Core, LoopWrites, WriteFrom, ExactOnDisk, SafeOnDisk, Pending, SameBits;
    InvCore(fs, {1 + i / 8});
    StartPending(fs);
    LoopPending(fs, fs, i, k, at, data, 0, readBack, q);
    var states := LoopWrites(fs, i, k, at, data, 0, readBack);
    if q < |states| {
      PendingIff(fs, states[q]);
    }
  }

  lemma InvCore(fs: Fs, dirty: set<int>)
    requires Inv(fs)
    ensures Core(fs, dirty) && DirsOk(fs)
  {
    MoreDirty(fs, {}, dirty);
  }

  // ----- pafs_create -----

  /**
    The states of a successful `pafs_create` after each of its sector writes, in order: bitmap, superblock and the
    cleared block if the entry needs a new one, then the entry, the directory's inode, the new inode.
   */
  ghost function CreateWrites(fs: Fs, parent: nat, name: CString, isDir: bool): seq<Fs>
    requires parent < 128 && FirstFree(fs.inodes) != -1 && EntryCount(fs.inodes[parent]) < 224
  {
    var i := FirstFree(fs.inodes);
    var c := Claim(fs, i, isDir);
    var s := EntryCount(c.inodes[parent]);
    var e := EnsureCleared(c, parent, s / 16).fs;
    var n, a := e.inodes[parent], AddEntry(c, parent, name, i).fs;
    SlotSaves(c, parent, s / 16) + (if NeedsBlock(c.inodes[parent]) then [e] else [])
    + [PutEntry(e, n, s, NewEntry(Slot(n, e.disk, s), i, name)), a, SaveInode(a, i)]
  }

  /** What a mount finds before the directory's inode is saved. */
  ghost predicate Before(fs: Fs, parent: nat, m: Fs)
    requires parent < 128
  {
    Pending(fs, m) && (fs.inodes[parent].kind == TYPE_DIR ==> SameEntries(fs.inodes[parent], fs.disk, m.disk))
  }

  ghost predicate SameEntries(n: Inode, d: Disk, d': Disk) {
    Entries(n, d') == Entries(n, d)
  }

  lemma MountedEntries(fs: Fs, parent: nat, m: Fs)
    requires Inv(fs) && parent < 128 && Before(fs, parent, m)
    ensures var r := Mount(m.disk);
            r.MountedFs? && r.fs.inodes == fs.inodes && DirEntries(r.fs, parent) == DirEntries(fs, parent)
  {
    hide Inv, Pending, Entries, Mount;
    PendingHolds(fs, m);
    MountIs(m.disk, fs.inodes, m.bitmap);
  }

  /** The claim alone writes nothing. */
  lemma ClaimPending(fs: Fs, i: nat, isDir: bool)
    requires Inv(fs) && i < 128
    ensures Pending(fs, Claim(fs, i, isDir))
  {
    hide Inv, DecodeSuperblock;
    StartPending(fs);
  }

  lemma MetadataEntries(fs: Fs, parent: nat, d: Disk)
    requires Inv(fs) && parent < 128 && fs.inodes[parent].kind == TYPE_DIR
    requires forall l :: LBA_DATA_START <= l < 4096 ==> d[l] == fs.disk[l]
    ensures SameEntries(fs.inodes[parent], fs.disk, d)
  {
    hide Entries, Synced, FreeClean;
    OwnApart(fs.inodes, fs.bitmap, parent);
    EntriesFrame(fs.inodes[parent], fs.disk, d);
  }

  /** The writes that have a block for the entry. */
  lemma BlockWrites(fs: Fs, parent: nat, i: nat, isDir: bool)
    requires Inv(fs) && parent < 128 && i < 128 && (parent != i ==> Claim(fs, i, isDir).inodes[parent] == fs.inodes[parent])
    requires var c := Claim(fs, i, isDir);
             && Core(c, {1 + i / 8}) && c.inodes[parent].kind == TYPE_DIR && NeedsBlock(c.inodes[parent])
             && EnsureCleared(c, parent, EntryCount(c.inodes[parent]) / 16).code != -1
    requires fs.inodes[parent].kind == TYPE_DIR ==> parent != i
    ensures var c := Claim(fs, i, isDir);
            var k := EntryCount(c.inodes[parent]) / 16;
            var saves, e := SlotSaves(c, parent, k), EnsureCleared(c, parent, k).fs;
            && |saves| == 2
            && (forall q :: 0 <= q < 2 ==> Before(fs, parent, saves[q]) && !SameBits(fs.bitmap, saves[q].bitmap))
            && Before(fs, parent, e) && !SameBits(fs.bitmap, e.bitmap)
  {
    hide Inv, Core, Pending, SameBits, Entries, PutBit, EncodeSuperblock;
    var c := Claim(fs, i, isDir);
    var n := c.inodes[parent];
    var k := EntryCount(n) / 16;
    var b := FirstClear(c.bitmap);
    ClaimPending(fs, i, isDir);
    TakePending(fs, c, b);
    var saves, e := SlotSaves(c, parent, k), EnsureCleared(c, parent, k).fs;
    assert saves == TakeSaves(c, b);
    EnsureCore(c, parent, k, {1 + i / 8});
    var r := Ensure(c, parent, k).fs;
    EnsurePending(fs, c, parent, k);
    SectorPending(fs, r, b, ZeroSector);
    assert e == WithSector(r, b, ZeroSector);
    assert e.bitmap == saves[1].bitmap;
    assert Pending(fs, saves[0]) && Pending(fs, saves[1]);
    if fs.inodes[parent].kind == TYPE_DIR {
      MetadataEntries(fs, parent, saves[0].disk);
      MetadataEntries(fs, parent, saves[1].disk);
      InvCore(fs, {});
      GrownEntries(fs, c, r, parent, k, b);
    }
  }

  lemma GrownEntries(fs: Fs, c: Fs, r: Fs, parent: nat, k: nat, b: int)
    requires Inv(fs) && parent < 128 && k < 14 && fs.inodes[parent].kind == TYPE_DIR
    requires c.disk == fs.disk && c.bitmap == fs.bitmap && c.inodes[parent] == fs.inodes[parent]
    requires Grown(c, r, parent, k, b)
    ensures SameEntries(fs.inodes[parent], fs.disk, r.disk[b := ZeroSector])
  {
    hide Entries, Synced, FreeClean;
    var n := fs.inodes[parent];
    OwnApart(fs.inodes, fs.bitmap, parent);
    assert forall l :: 0 <= l < 14 && n.blocks[l] != 0 ==> Used(fs.bitmap, n.blocks[l]);
    assert SameData(n, fs.disk, r.disk[b := ZeroSector]);
    EntriesFrame(n, fs.disk, r.disk[b := ZeroSector]);
  }

  /** The write of the entry itself, behind the entries that count. */
  lemma EntryWrite(fs: Fs, e: Fs, parent: nat, x: DirEntry)
    requires parent < 128 && EntryCount(e.inodes[parent]) < 224 && BlocksApart(e.inodes[parent]) && Before(fs, parent, e)
    requires e.inodes[parent].blocks[EntryCount(e.inodes[parent]) / 16] != 0
    requires fs.inodes[parent].kind == TYPE_DIR ==>
               && DirOk(fs.inodes[parent], fs.disk)
               && e.inodes[parent] == fs.inodes[parent].(blocks := e.inodes[parent].blocks)
               && KeepsBlocks(fs.inodes[parent], e.inodes[parent])
    ensures var n := e.inodes[parent];
            Before(fs, parent, PutEntry(e, n, EntryCount(n), x))
  {
    hide Pending, SetEntry, OneSlot, DirOk, NameOf;
    var n, s := e.inodes[parent], EntryCount(e.inodes[parent]);
    var put := PutEntry(e, n, s, x);
    assert BlockOf(n, s / 16) >= LBA_DATA_START;
    SectorPending(fs, e, BlockOf(n, s / 16), put.disk[BlockOf(n, s / 16)]);
    if fs.inodes[parent].kind == TYPE_DIR {
      PutEntrySlots(e, n, s, x);
      var n0 := fs.inodes[parent];
      forall j | 0 <= j < s
        ensures Slot(n0, put.disk, j) == Slot(n0, e.disk, j)
      {
        EntryHasBlock(n0, fs.disk, j);
        OtherSlot(n, e.disk, put.disk, s, x, j);
      }
      assert Entries(n0, put.disk) == Entries(n0, e.disk);
    }
  }

  lemma OtherSlot(n: Inode, d: Disk, d': Disk, s: nat, x: DirEntry, j: nat)
    requires OneSlot(n, d, d', s, x) && j < 224 && j != s && n.blocks[j / 16] != 0
    ensures Slot(n, d', j) == Slot(n, d, j)
  {
  }

  /** The inode table on disk once the directory's inode is saved, but not that of the new inode. */
  function CreatedBetween(fs: Fs, a: Fs, parent: nat, i: nat): InodeTable
    requires parent < 128 && i < 128
  {
    if i / 8 == parent / 8 then a.inodes else a.inodes[i := fs.inodes[i]]
  }

  lemma DirSaved(fs: Fs, put: Fs, a: Fs, parent: nat, i: nat, n: Inode)
    requires Inv(fs) && parent < 128 && i < 128 && Pending(fs, put)
    requires a == SaveInode(WithInode(put, parent, n), parent)
    requires forall j :: 0 <= j < 128 && j != i && j != parent ==> put.inodes[j] == fs.inodes[j]
    ensures DiskHolds(a.disk, CreatedBetween(fs, a, parent, i), a.bitmap)
  {
    hide Inv, EncodeInodeSector, DecodeSuperblock, MoreBits;
    PendingHolds(fs, put);
    forall s | 0 <= s < 16
      ensures a.disk[LBA_INODES_START + s] == EncodeInodeSector(CreatedBetween(fs, a, parent, i), s)
    {
      BetweenSector(fs.inodes, a.inodes, parent, i, s);
    }
  }

  lemma BetweenSector(t: InodeTable, t': InodeTable, parent: nat, i: nat, s: nat)
    requires parent < 128 && i < 128 && s < 16
    requires forall j :: 0 <= j < 128 && j != i && j != parent ==> t'[j] == t[j]
    ensures EncodeInodeSector(if i / 8 == parent / 8 then t' else t'[i := t[i]], s)
            == EncodeInodeSector(if s == parent / 8 then t' else t, s)
  {
    hide EncodeInodeSector;
    if i / 8 != parent / 8 && s == parent / 8 {
      EncodeOther(t', i, t[i], s);
    }
    if s != parent / 8 {
      var between := if i / 8 == parent / 8 then t' else t'[i := t[i]];
      EncodeOther(t, parent, t'[parent], s);
      if i / 8 == parent / 8 {
        EncodeOther(t[parent := t'[parent]], i, t'[i], s);
        assert t[parent := t'[parent]][i := t'[i]] == t';
      } else {
        assert t[parent := t'[parent]] == t'[i := t[i]];
      }
    }
  }

  /** What is known of a create that goes through, up to the entry. */
  lemma CreateParts(fs: Fs, parent: nat, name: CString, isDir: bool) returns (i: nat, c: Fs, e: Fs, a: Fs)
    requires Inv(fs) && parent < 128 && Create(fs, parent, name, isDir).code != -1
    ensures 0 < i < 128 && i == FirstFree(fs.inodes) && fs.inodes[i] == FreeInode && c == Claim(fs, i, isDir)
    ensures Core(c, {1 + i / 8}) && c.inodes[parent].kind == TYPE_DIR && EntryCount(c.inodes[parent]) < 224
    ensures EntryCount(c.inodes[parent]) == EntryCount(fs.inodes[parent]) && c.inodes[parent].blocks == fs.inodes[parent].blocks
    ensures e == EnsureCleared(c, parent, EntryCount(c.inodes[parent]) / 16).fs
    ensures EnsureCleared(c, parent, EntryCount(c.inodes[parent]) / 16).code != -1
    ensures e.inodes[parent] == c.inodes[parent].(blocks := e.inodes[parent].blocks) && BlocksApart(e.inodes[parent])
    ensures e.inodes[parent].blocks[EntryCount(c.inodes[parent]) / 16] != 0
    ensures OthersSame(c, e, parent) && KeepsBlocks(c.inodes[parent], e.inodes[parent])
    ensures a == AddEntry(c, parent, name, i).fs && Own(a.inodes, a.bitmap)
    ensures var n, s := e.inodes[parent], EntryCount(c.inodes[parent]);
            a == SaveInode(WithInode(PutEntry(e, n, s, NewEntry(Slot(n, e.disk, s), i, name)), parent, n.(size := Wrap(n.size + 32))), parent)
    ensures DirEntries(a, parent) == DirEntries(fs, parent) + [Binding(i, Kept(name))]
    ensures a.inodes[i].kind != TYPE_FREE && (i != parent ==> a.inodes[i].blocks == NoBlocks())
    ensures Create(fs, parent, name, isDir) == Res(SaveInode(a, i), i)
  {
    hide Own, Synced, FreeClean, DirOk, AddEntry, Create, EnsureCleared, Entries, SetEntry, NewEntry, SameData, BlocksApart;
    i, c, a := CreateSteps(fs, parent, name, isDir);
    CreateClaims(fs, parent, name, isDir, i);
    ClaimCore(fs, i, isDir);
    assert fs.inodes[i] == FreeInode by { FreeIs(fs, i); }
    AddEntryRoom(c, parent, name, i);
    RoomForEntry(c, parent, {1 + i / 8});
    AddEntryCases(c, parent, name, i);
    e := EnsureCleared(c, parent, EntryCount(c.inodes[parent]) / 16).fs;
    KeptByEnsure(c, parent, EntryCount(c.inodes[parent]) / 16);
    CoreOwn(a, {1 + i / 8} - {1 + parent / 8});
    if i != parent {
      EntriesKept(fs, c, parent);
    } else {
      NoEntries(fs, i);
    }
  }

  lemma FreeIs(fs: Fs, i: nat)
    requires Inv(fs) && i < 128 && fs.inodes[i].kind == TYPE_FREE
    ensures fs.inodes[i] == FreeInode
  {
  }

  lemma CreateClaims(fs: Fs, parent: nat, name: CString, isDir: bool, i: nat)
    requires parent < 128 && Create(fs, parent, name, isDir).code == i
    ensures FirstFree(fs.inodes) == i
  {
    hide AddEntry, Find, SaveInode;
  }

  lemma AddEntryRoom(fs: Fs, dir: nat, name: CString, ino: u32)
    requires dir < 128 && AddEntry(fs, dir, name, ino).code == 0
    ensures EntryCount(fs.inodes[dir]) < 224 && EnsureCleared(fs, dir, EntryCount(fs.inodes[dir]) / 16).code != -1
  {
    hide SetEntry, EncodeInodeSector, EncodeSuperblock, Slot;
  }

  lemma KeptByEnsure(fs: Fs, i: nat, k: nat)
    requires i < 128 && k < 14
    ensures KeepsBlocks(fs.inodes[i], EnsureCleared(fs, i, k).fs.inodes[i])
    ensures fs.inodes[i].blocks[k] != 0 ==> EnsureCleared(fs, i, k).fs == fs
  {
    hide PutBit, EncodeSuperblock;
  }

  /** What a mount finds: ownership, the entries of the directory, and whether the new inode is free. */
  ghost predicate Found(d: Disk, exact: bool, parent: nat, entries: seq<Binding>, i: nat, free: bool)
    requires parent < 128 && i < 128
  {
    && (ExactOnDisk(d) <==> exact) && SafeOnDisk(d)
    && Mount(d).MountedFs? && DirEntries(Mount(d).fs, parent) == entries
    && (Mount(d).fs.inodes[i].kind == TYPE_FREE <==> free)
  }

  lemma EarlyFound(fs: Fs, parent: nat, i: nat, m: Fs, exact: bool)
    requires Inv(fs) && parent < 128 && i < 128 && fs.inodes[i].kind == TYPE_FREE && Before(fs, parent, m)
    requires SameBits(fs.bitmap, m.bitmap) <==> exact
    ensures Found(m.disk, exact, parent, DirEntries(fs, parent), i, true)
  {
    hide Inv, Pending, ExactOnDisk, SafeOnDisk, Mount, DirEntries, SameBits;
    PendingIff(fs, m);
    MountedEntries(fs, parent, m);
  }

  lemma LateFound(fs: Fs, a: Fs, parent: nat, i: nat)
    requires parent < 128 && 0 < i < 128 && Own(a.inodes, a.bitmap) && fs.inodes[i] == FreeInode
    requires DiskHolds(a.disk, CreatedBetween(fs, a, parent, i), a.bitmap)
    requires a.inodes[i].kind != TYPE_FREE && (i != parent ==> a.inodes[i].blocks == NoBlocks())
    ensures Found(a.disk, true, parent, DirEntries(a, parent), i, i / 8 != parent / 8)
  {
    hide Own, ExactOnDisk, SafeOnDisk, DiskHolds, Mount, Entries, Safe;
    var t := CreatedBetween(fs, a, parent, i);
    OwnSame(a.inodes, t, a.bitmap);
    OwnSafe(t, a.bitmap);
    ExactIs(a.disk, t, a.bitmap);
    MountIs(a.disk, t, a.bitmap);
  }

  lemma FinalFound(fs: Fs, parent: nat, i: nat)
    requires Inv(fs) && parent < 128 && i < 128 && fs.inodes[i].kind != TYPE_FREE
    ensures Found(fs.disk, true, parent, DirEntries(fs, parent), i, false)
  {
    hide Inv, ExactOnDisk, SafeOnDisk, Mount, Entries;
    InvExact(fs);
    RemountIsSame(fs);
  }

  lemma NoSaves(m: Fs, i: nat, k: nat)
    requires i < 128 && k < 14 && m.inodes[i].blocks[k] != 0
    ensures SlotSaves(m, i, k) == []
  {
  }

  /** Where the directory stands when the inode is claimed. */
  lemma ParentIs(fs: Fs, c: Fs, parent: nat, i: nat, isDir: bool)
    requires parent < 128 && i < 128 && c == Claim(fs, i, isDir) && fs.inodes[i].kind == TYPE_FREE
    ensures parent != i ==> c.inodes[parent] == fs.inodes[parent]
    ensures fs.inodes[parent].kind == TYPE_DIR ==> parent != i
  {
  }

  /** The state in which the entry is written. */
  lemma EntryStart(fs: Fs, parent: nat, name: CString, isDir: bool, i: nat, c: Fs, e: Fs)
    requires Inv(fs) && parent < 128 && 0 < i < 128 && fs.inodes[i] == FreeInode && c == Claim(fs, i, isDir)
    requires Core(c, {1 + i / 8}) && c.inodes[parent].kind == TYPE_DIR && EntryCount(c.inodes[parent]) < 224
    requires c.inodes[parent].blocks == fs.inodes[parent].blocks && EntryCount(c.inodes[parent]) == EntryCount(fs.inodes[parent])
    requires e == EnsureCleared(c, parent, EntryCount(c.inodes[parent]) / 16).fs
    requires EnsureCleared(c, parent, EntryCount(c.inodes[parent]) / 16).code != -1
    ensures Before(fs, parent, e) && (SameBits(fs.bitmap, e.bitmap) <==> !NeedsBlock(fs.inodes[parent]))
    ensures fs.inodes[parent].kind == TYPE_DIR ==> DirOk(fs.inodes[parent], fs.disk) && c.inodes[parent] == fs.inodes[parent]
  {
    hide Inv, Core, EnsureCleared, Entries, Pending;
    ParentIs(fs, c, parent, i, isDir);
    if fs.inodes[parent].kind == TYPE_DIR {
      ParentOk(fs, parent);
    }
    if NeedsBlock(fs.inodes[parent]) {
      BlockWrites(fs, parent, i, isDir);
    } else {
      KeptByEnsure(c, parent, EntryCount(c.inodes[parent]) / 16);
      ClaimPending(fs, i, isDir);
    }
  }

  lemma ParentOk(fs: Fs, parent: nat)
    requires Inv(fs) && parent < 128 && fs.inodes[parent].kind == TYPE_DIR
    ensures DirOk(fs.inodes[parent], fs.disk)
  {
  }

  lemma DirSavedAt(fs: Fs, c: Fs, e: Fs, put: Fs, a: Fs, parent: nat, i: nat)
    requires Inv(fs) && parent < 128 && i < 128 && Before(fs, parent, put) && put.inodes == e.inodes
    requires (forall j :: 0 <= j < 128 && j != i ==> c.inodes[j] == fs.inodes[j]) && OthersSame(c, e, parent)
    requires var n := e.inodes[parent]; a == SaveInode(WithInode(put, parent, n.(size := Wrap(n.size + 32))), parent)
    ensures DiskHolds(a.disk, CreatedBetween(fs, a, parent, i), a.bitmap)
  {
    hide Inv, Pending, DiskHolds, SameData, EncodeInodeSector;
    DirSaved(fs, put, a, parent, i, a.inodes[parent]);
  }

  lemma CreateLast(fs: Fs, parent: nat, name: CString, isDir: bool, i: nat, a: Fs)
    requires Inv(fs) && parent < 128 && 0 < i < 128 && Create(fs, parent, name, isDir) == Res(SaveInode(a, i), i)
    ensures var r := SaveInode(a, i);
            Found(r.disk, true, parent, DirEntries(fs, parent) + [Binding(i, Kept(name))], i, false)
  {
    hide Inv, Create, Found, Entries, RestSame;
    CreateEffect(fs, parent, name, isDir);
    FinalFound(SaveInode(a, i), parent, i);
  }

  /**
    `pafs_create` interrupted: mounting the disk as it is after any one of the sector writes.  Ownership is exact unless
    a block was taken for the entry and the directory's inode is not saved yet (the block is then lost); no block in use is ever
    marked free; and between the last two writes the name is bound to an inode that is free, unless
    both inodes share a sector.
   */
  lemma CreateCrashIff(fs: Fs, parent: nat, name: CString, isDir: bool, q: nat)
    requires Inv(fs) && parent < 128 && Create(fs, parent, name, isDir).code != -1
    ensures 0 < FirstFree(fs.inodes) < 128 && EntryCount(fs.inodes[parent]) < 224
    ensures var writes, i := CreateWrites(fs, parent, name, isDir), FirstFree(fs.inodes);
            var m, takes, e := |writes|, NeedsBlock(fs.inodes[parent]), DirEntries(fs, parent);
            && m == (if takes then 6 else 3) && writes[m - 1] == Create(fs, parent, name, isDir).fs
            && (q < m ==>
                  Found(writes[q].disk, q >= m - 2 || !takes, parent, if q < m - 2 then e else e + [Binding(i, Kept(name))],
                        i, q < m - 2 || (q == m - 2 && i / 8 != parent / 8)))
  {
    hide Inv, Core, Own, AddEntry, Create, EnsureCleared, Entries, SetEntry, NewEntry, Pending, SameBits, Found, Before, OthersSame, DiskHolds, BlocksApart, KeepsBlocks, SlotSaves;
    var i, c, e, a := CreateParts(fs, parent, name, isDir);
    var n, s := e.inodes[parent], EntryCount(c.inodes[parent]);
    var put := PutEntry(e, n, s, NewEntry(Slot(n, e.disk, s), i, name));
    var writes := CreateWrites(fs, parent, name, isDir);
    ParentIs(fs, c, parent, i, isDir);
    EntryStart(fs, parent, name, isDir, i, c, e);
    EntryWrite(fs, e, parent, NewEntry(Slot(n, e.disk, s), i, name));
    DirSavedAt(fs, c, e, put, a, parent, i);
    LateFound(fs, a, parent, i);
    CreateLast(fs, parent, name, isDir, i, a);
    assert put.bitmap == e.bitmap;
    EarlyFound(fs, parent, i, put, !NeedsBlock(fs.inodes[parent]));
    if NeedsBlock(fs.inodes[parent]) {
      BlockWrites(fs, parent, i, isDir);
      EarlyFound(fs, parent, i, e, false);
      EarlyFound(fs, parent, i, SlotSaves(c, parent, s / 16)[0], false);
      EarlyFound(fs, parent, i, SlotSaves(c, parent, s / 16)[1], false);
    } else {
      NoSaves(c, parent, s / 16);
    }
  }
}
