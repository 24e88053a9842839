/**
  How much a write writes: exactly as many bytes as the slots reach that have a block or are
  given one of the blocks still free.
 */
module PafsLength {
  import opened Words
  import opened Bitmaps
  import opened PafsLayout
  import opened PafsState
  import opened PafsInv
  import opened PafsDirs
  import opened PafsOps
  import opened PafsData
  import opened PafsFiles
  import opened PafsRuns
  import opened PafsGood
  import opened PafsMap
  import opened PafsCounts

  /** The bytes that slots `k ..` can take when `free` blocks are free. */
  function Room(n: Inode, free: nat, k: nat): (r: nat)
    decreases if k < 14 then 14 - k else 0
  {
    if k >= 14 then 0
    else if n.blocks[k] != 0 then 512 + Room(n, free, k + 1)
    else if free > 0 then 512 + Room(n, free - 1, k + 1)
    else 0
  }

  /** How many of `left` bytes are written from position `at` of slot `k` on. */
  function Fits(n: Inode, free: nat, k: nat, at: nat, left: nat): nat {
    if Room(n, free, k) <= at then 0 else Min(left, Room(n, free, k) - at)
  }

  lemma {:induction false} RoomSame(n: Inode, n': Inode, free: nat, k: nat)
    requires forall j :: k <= j < 14 ==> n'.blocks[j] == n.blocks[j]
    ensures Room(n', free, k) == Room(n, free, k)
    decreases if k < 14 then 14 - k else 0
  {
    if k < 14 {
      RoomSame(n, n', free, k + 1);
      if free > 0 {
        RoomSame(n, n', free - 1, k + 1);
      }
    }
  }

  /** A file without blocks has room for the blocks that are free, up to 14. */
  lemma {:induction false} RoomNew(n: Inode, free: nat, k: nat)
    requires k <= 14 && forall j :: k <= j < 14 ==> n.blocks[j] == 0
    ensures Room(n, free, k) == 512 * Min(free, 14 - k)
    decreases 14 - k
  {
    if k < 14 && free > 0 {
      RoomNew(n, free - 1, k + 1);
    }
  }

  /** No block is free exactly when none is counted free. */
  lemma NoneFreeIff(fs: Fs, dirty: set<int>)
    requires Core(fs, dirty)
    ensures FirstClear(fs.bitmap) == -1 <==> fs.sb.freeBlocks == 0
  {
    hide Synced, FreeClean, Count, TestBit;
    CountZeroIff(fs.bitmap, 4096, false);
    assert forall b :: 0 <= b < 4096 ==> (Used(fs.bitmap, b) <==> TestBit(fs.bitmap, b));
    assert forall b :: 0 <= b < LBA_DATA_START ==> Used(fs.bitmap, b);
  }

  /** One turn: the slots behind are as they were, and a block that was taken is no longer free. */
  lemma TurnRoom(fs: Fs, i: nat, k: nat, at: nat, data: seq<byte>, w: nat, readBack: bool, dirty: set<int>)
    requires i < 128 && k < 14 && at < 512 && w < |data|
    requires Core(fs, dirty) && fs.inodes[i].kind == TYPE_FILE && Ensure(fs, i, k).code != -1
    ensures var fs1 := AfterTurn(fs, i, k, at, data, w, readBack);
            && (fs.inodes[i].blocks[k] == 0 ==> fs.sb.freeBlocks > 0)
            && fs1.sb.freeBlocks == fs.sb.freeBlocks - (if fs.inodes[i].blocks[k] == 0 then 1 else 0)
            && (forall j :: k < j < 14 ==> fs1.inodes[i].blocks[j] == fs.inodes[i].blocks[j])
  {
    hide Core, TurnSector;
    NoneFreeIff(fs, dirty);
    if fs.inodes[i].blocks[k] == 0 {
      WrapSmall(fs.sb.freeBlocks - 1);
    }
  }

  lemma FitsTurn(n: Inode, free: nat, k: nat, at: nat, left: nat, m: nat)
    requires k < 14 && at < 512 && m == Min(512 - at, left) && left > 0
    requires n.blocks[k] == 0 ==> free > 0
    ensures Fits(n, free, k, at, left) == m + Fits(n, if n.blocks[k] == 0 then free - 1 else free, k + 1, 0, left - m)
  {
  }

  /** Without a block to be had, or behind the last slot, nothing fits. */
  lemma FitsNothing(n: Inode, free: nat, k: nat, at: nat, left: nat)
    requires k >= 14 || left == 0 || (n.blocks[k] == 0 && free == 0)
    ensures Fits(n, free, k, at, left) == 0
  {
  }

  lemma {:induction false} WriteFromLength(fs: Fs, i: nat, k: nat, at: nat, data: seq<byte>, w: nat, readBack: bool, dirty: set<int>)
    requires i < 128 && at < 512 && w <= |data|
    requires Core(fs, dirty) && 1 + i / 8 in dirty && fs.inodes[i].kind == TYPE_FILE
    ensures WriteFrom(fs, i, k, at, data, w, readBack).code - w == Fits(fs.inodes[i], fs.sb.freeBlocks, k, at, |data| - w)
    decreases if k < 14 then 14 - k else 0
  {
    hide Core, AfterTurn, Fits, Room;
    if w == |data| || k >= 14 {
      FitsNothing(fs.inodes[i], fs.sb.freeBlocks, k, at, |data| - w);
    } else {
      NoneFreeIff(fs, dirty);
      if Ensure(fs, i, k).code == -1 {
        FitsNothing(fs.inodes[i], fs.sb.freeBlocks, k, at, |data| - w);
      } else {
        hide Ensure;
        TurnCore(fs, i, k, at, data, w, readBack, dirty);
        TurnRoom(fs, i, k, at, data, w, readBack, dirty);
        var fs1, m := AfterTurn(fs, i, k, at, data, w, readBack), Turn(at, data, w);
        FitsTurn(fs.inodes[i], fs.sb.freeBlocks, k, at, |data| - w, m);
        WriteFromLength(fs1, i, k + 1, 0, data, w + m, readBack, dirty);
        FitsSame(fs.inodes[i], fs1.inodes[i], fs1.sb.freeBlocks, k + 1, |data| - w - m);
      }
    }
  }

  lemma FitsSame(n: Inode, n': Inode, free: nat, k: nat, left: nat)
    requires forall j :: k <= j < 14 ==> n'.blocks[j] == n.blocks[j]
    ensures Fits(n', free, k, 0, left) == Fits(n, free, k, 0, left)
  {
    RoomSame(n, n', free, k);
  }

  /** What `pafs_write` answers for a file. */
  lemma WriteInodeLength(fs: Fs, i: nat, data: seq<byte>)
    requires Inv(fs) && i < 128 && fs.inodes[i].kind == TYPE_FILE
    ensures WriteInode(fs, i, data).code == Fits(fs.inodes[i], fs.sb.freeBlocks, 0, 0, |data|)
  {
    hide Core, WriteFrom, Fits;
    MoreDirty(fs, {}, {1 + i / 8});
    WriteFromLength(fs, i, 0, 0, data, 0, false, {1 + i / 8});
  }

  /** What `pafs_vfs_write` answers. */
  lemma VfsWriteLength(fs: Fs, i: nat, offset: u32, data: seq<byte>)
    requires Inv(fs) && i < 128 && fs.inodes[i].kind == TYPE_FILE
    ensures VfsWrite(fs, i, offset, data).code == Fits(fs.inodes[i], fs.sb.freeBlocks, offset / 512, offset % 512, |data|)
  {
    hide Core, WriteFrom, Fits;
    MoreDirty(fs, {}, {1 + i / 8});
    WriteFromLength(fs, i, offset / 512, offset % 512, data, 0, true, {1 + i / 8});
  }

  /** What a create leaves free. */
  lemma CreateFreeBlocks(fs: Fs, parent: nat, name: CString, isDir: bool)
    requires Inv(fs) && parent < 128 && Create(fs, parent, name, isDir).code != -1
    ensures NeedsBlock(fs.inodes[parent]) ==> fs.sb.freeBlocks > 0
    ensures Create(fs, parent, name, isDir).fs.sb.freeBlocks == fs.sb.freeBlocks - (if NeedsBlock(fs.inodes[parent]) then 1 else 0)
  {
    hide Core, DirsOk, Create, Entries, EncodeInodeSector, AddEntry, SetEntry;
    var i, c, a := CreateSteps(fs, parent, name, isDir);
    ClaimedParent(fs, i, parent, isDir);
    NoneFreeIff(c, {1 + i / 8});
    AddEntryFreeBlocks(c, parent, name, i);
    if NeedsBlock(fs.inodes[parent]) {
      WrapSmall(fs.sb.freeBlocks - 1);
    } else {
      WrapSmall(fs.sb.freeBlocks);
    }
  }

  lemma AddEntryFreeBlocks(fs: Fs, dir: nat, name: CString, ino: u32)
    requires dir < 128 && AddEntry(fs, dir, name, ino).code == 0
    ensures EntryCount(fs.inodes[dir]) < 224
    ensures NeedsBlock(fs.inodes[dir]) ==> FirstClear(fs.bitmap) != -1
    ensures AddEntry(fs, dir, name, ino).fs.sb.freeBlocks == Wrap(fs.sb.freeBlocks - (if NeedsBlock(fs.inodes[dir]) then 1 else 0))
  {
    hide SetEntry, EncodeInodeSector, EncodeSuperblock, Slot;
  }

  /** How many bytes `pafs_write` writes, told from the state before. */
  ghost function WriteLength(fs: Fs, name: CString, data: seq<byte>): nat {
    var i := Target(fs, name);
    if name in Root(fs) then (if i < 128 then Fits(fs.inodes[i], fs.sb.freeBlocks, 0, 0, |data|) else 0)
    else
      var free := fs.sb.freeBlocks - (if NeedsBlock(fs.inodes[0]) then 1 else 0);
      Min(|data|, 512 * (if free <= 0 then 0 else Min(free, 14)))
  }

  /** `pafs_write` writes exactly that many bytes. */
  lemma WriteLengthIs(fs: Fs, name: CString, data: seq<byte>)
    requires Inv(fs) && Write(fs, name, data).code >= 0
    ensures Write(fs, name, data).code == WriteLength(fs, name, data)
  {
    hide Inv, Write, WriteInode, Create, Root, NeedsBlock, OneInode;
    WriteCases(fs, name, data);
    FindInRoot(fs, name);
    if name in Root(fs) {
      WriteInodeInv(fs, Root(fs)[name], data);
      WriteInodeLength(fs, Root(fs)[name], data);
    } else {
      CreateRefines(fs, name, false);
      CreateEffect(fs, 0, name, false);
      CreateFreeBlocks(fs, 0, name, false);
      var c := Create(fs, 0, name, false);
      RootIsDir(c.fs);
      WriteInodeLength(c.fs, c.code, data);
      RoomNew(c.fs.inodes[c.code], c.fs.sb.freeBlocks, 0);
    }
  }
}
