/**
  The file system as the kernel keeps it: superblock, inode table, block bitmap
  and disk as objects that the operations update in place, sector by sector.
  Every operation is proved to compute the function of module `PafsState` that
  the other modules reason about.
 */
module Pafs {
  import opened Words
  import opened Bitmaps
  import opened PafsLayout
  import opened PafsState
  import opened PafsInv
  import opened PafsDirs
  import opened PafsOps
  import opened PafsData
  import opened PafsFiles
  import opened PafsNames
  import opened PafsMount
  import opened PafsRuns

  class Volume {
    var sb: Superblock
    const inodes: array<Inode>
    const bitmap: array<byte>
    const disk: array<Sector>

    ghost predicate Valid()
      reads this
    {
      && inodes.Length == 128 && bitmap.Length == 512 && disk.Length == 4096
      && bitmap as object != inodes as object && bitmap as object != disk as object
      && disk as object != inodes as object
    }

    ghost function State(): Fs
      requires Valid()
      reads this, inodes, bitmap, disk
    {
      Fs(sb, inodes[..], bitmap[..], disk[..])
    }

    /** Memory for a volume on a given disk, before the metadata is loaded or made. */
    constructor (image: seq<Sector>)
      requires |image| == 4096
      ensures Valid() && fresh(inodes) && fresh(bitmap) && fresh(disk)
      ensures State().disk == image
    {
      sb := Superblock(0, 0, 0, 0, 0, 0);
      inodes := new Inode[128](_ => FreeInode);
      bitmap := new byte[512](_ => 0);
      disk := new Sector[4096](i requires 0 <= i < 4096 => image[i]);
    }

    // ----- the disk -----

    /** `pafs_disk_read` */
    method DiskRead(lba: nat) returns (buffer: Sector)
      requires Valid() && lba < 4096
      ensures buffer == State().disk[lba]
    {
      buffer := disk[lba];
    }

    /** `pafs_disk_write` */
    method DiskWrite(lba: nat, buffer: Sector)
      requires Valid() && lba < 4096
      modifies disk
      ensures Valid() && State() == WithSector(old(State()), lba, buffer)
    {
      disk[lba] := buffer;
    }

    /** `pafs_save_superblock` */
    method SaveSuperblockSector()
      requires Valid()
      modifies disk
      ensures Valid() && State() == SaveSuperblock(old(State()))
    {
      DiskWrite(LBA_SUPERBLOCK, EncodeSuperblock(sb));
    }

    /** `pafs_save_inode` */
    method SaveInodeSector(ino: nat)
      requires Valid() && ino < 128
      modifies disk
      ensures Valid() && State() == SaveInode(old(State()), ino)
    {
      var sector := ino / 8;
      DiskWrite(LBA_INODES_START + sector, EncodeInodeSector(inodes[..], sector));
    }

    /** `pafs_save_bitmap` */
    method SaveBitmapSector()
      requires Valid()
      modifies disk
      ensures Valid() && State() == SaveBitmap(old(State()))
    {
      DiskWrite(LBA_BITMAP, bitmap[..]);
    }

    // ----- small updates in memory -----

    method PutInode(i: nat, n: Inode)
      requires Valid() && i < 128
      modifies inodes
      ensures Valid() && State() == WithInode(old(State()), i, n)
    {
      inodes[i] := n;
    }

    method PutBlock(i: nat, k: nat, b: u32)
      requires Valid() && i < 128 && k < 14
      modifies inodes
      ensures Valid() && State() == WithBlock(old(State()), i, k, b)
    {
      var n := inodes[i];
      inodes[i] := n.(blocks := n.blocks[k := b]);
    }

    /** `pafs_bitmap_set`, `pafs_bitmap_clear` and the count that goes with them */
    method Mark(b: nat, on: bool)
      requires Valid() && b < 4096
      modifies this, bitmap
      ensures Valid() && State() == MarkBlock(old(State()), b, on)
    {
      bitmap[b / 8] := BytePut(bitmap[b / 8], b % 8, on);
      sb := sb.(freeBlocks := Wrap(sb.freeBlocks + (if on then -1 else 1)));
    }

    /** `pafs_bitmap_test` */
    method BitmapTest(b: nat) returns (r: bool)
      requires Valid() && b < 4096
      ensures r == Used(State().bitmap, b)
    {
      r := WordBit(bitmap[b / 8], b % 8);
    }

    // ----- searching -----

    /** `find_free_inode` */
    method FindFreeInode() returns (r: int)
      requires Valid()
      ensures r == FirstFree(State().inodes)
    {
      for i := 0 to 128
        invariant forall j :: 0 <= j < i ==> inodes[j].kind != TYPE_FREE
      {
        if inodes[i].kind == TYPE_FREE {
          assert IsFirstFree(State().inodes, i);
          return i;
        }
      }
      return -1;
    }

    /** `alloc_block` */
    method AllocBlock() returns (r: int)
      requires Valid()
      modifies this, bitmap, disk
      ensures Valid() && Res(State(), r) == Alloc(old(State()))
    {
      for i := LBA_DATA_START to TOTAL_BLOCKS
        invariant Valid() && State() == old(State())
        invariant forall j :: LBA_DATA_START <= j < i ==> Used(State().bitmap, j)
      {
        var used := BitmapTest(i);
        if !used {
          assert IsFirstClear(State().bitmap, i);
          Mark(i, true);
          SaveBitmapSector();
          SaveSuperblockSector();
          return i;
        }
      }
      return -1;
    }

    /** The test and allocation at the head of each turn of the write loops. */
    method EnsureBlock(i: nat, k: nat) returns (r: int)
      requires Valid() && i < 128 && k < 14
      modifies this, inodes, bitmap, disk
      ensures Valid() && Res(State(), r) == Ensure(old(State()), i, k)
    {
      if inodes[i].blocks[k] != 0 {
        return inodes[i].blocks[k];
      }
      r := AllocBlock();
      if r != -1 {
        PutBlock(i, k, r);
      }
    }

    // ----- directories -----

    /** What an operation on directory `dir` relies on. */
    ghost predicate DirReady(dir: nat)
      requires Valid() && dir < 128
      reads this, inodes, bitmap, disk
    {
      inodes[dir].kind == TYPE_DIR ==> DirOk(inodes[dir], disk[..]) && BlocksApart(inodes[dir])
    }

    /** The scan shared by lookup and removal: the first slot with the name, or -1. */
    method ScanFor(dir: nat, name: CString) returns (slot: int)
      requires Valid() && dir < 128 && inodes[dir].kind == TYPE_DIR && DirReady(dir)
      ensures slot == FindSlot(inodes[dir], disk[..], name, 0)
    {
      hide DirOk, BlocksApart, Slot, NameOf;
      var n := inodes[dir];
      ghost var d: Disk := disk[..];
      assert DirOk(n, d) && BlocksApart(n);
      for i := 0 to 14
        invariant FindSlot(n, d, name, 0) == FindSlot(n, d, name, 16 * i)
      {
        if n.blocks[i] == 0 {
          NoEntriesFrom(n, d, i);
          return -1;
        }
        BlockInRange(n, i);
        var block := DiskRead(n.blocks[i]);
        for j := 0 to 16
          invariant FindSlot(n, d, name, 0) == FindSlot(n, d, name, 16 * i + j)
        {
          var e := EntryAt(block, j);
          SlotInBlock(n, d, i, j);
          if e.inode != 0 && NameOf(e.name) == name {
            return 16 * i + j;
          }
        }
      }
      return -1;
    }

    /** `pafs_find_entry` */
    method FindEntry(dir: nat, name: CString) returns (r: int)
      requires Valid() && dir < 128 && DirReady(dir)
      ensures r == Find(State(), dir, name)
    {
      var n := inodes[dir];
      if n.kind != TYPE_DIR || n.size == 0 {
        return -1;
      }
      var slot := ScanFor(dir, name);
      if slot == -1 {
        return -1;
      }
      EntryHasBlock(n, disk[..], slot);
      var block := DiskRead(n.blocks[slot / 16]);
      return EntryAt(block, slot % 16).inode;
    }

    /** Copying a name into an entry byte by byte, and the NUL behind it. */
    method CopyName(field: NameField, name: CString) returns (f: NameField)
      ensures f == StoreName(field, name)
    {
      f := field;
      var k := 0;
      while k < |name| && k < 27
        invariant k <= |name| && k <= 27
        invariant f == name[..k] + field[k..]
      {
        NameGrows(field, name, k);
        f := f[k := name[k]];
        k := k + 1;
      }
      f := f[k := 0];
      assert name[..k] == Kept(name);
    }

    /** Filling entry `j` of block slot `i` and counting it in the directory's size. */
    method FillEntry(dir: nat, i: nat, j: nat, block: Sector, name: CString, ino: u32)
      requires Valid() && dir < 128 && i < 14 && j < 16
      requires 0 < inodes[dir].blocks[i] < 4096 && block == disk[inodes[dir].blocks[i]]
      modifies inodes, disk
      ensures Valid()
      ensures var fs, n, s := old(State()), old(inodes[dir]), 16 * i + j;
              var fs1 := PutEntry(fs, n, s, NewEntry(Slot(n, fs.disk, s), ino, name));
              State() == SaveInode(WithInode(fs1, dir, n.(size := Wrap(n.size + 32))), dir)
    {
      var n := inodes[dir];
      var e := EntryAt(block, j);
      assert (16 * i + j) / 16 == i && (16 * i + j) % 16 == j;
      var field := CopyName(e.name, name);
      DiskWrite(n.blocks[i], SetEntry(block, j, DirEntry(ino, field)));
      PutInode(dir, n.(size := Wrap(n.size + 32)));
      SaveInodeSector(dir);
    }

    /** Giving a directory a cleared block for slot `i` if it has none there. */
    method EnsureClearedBlock(dir: nat, i: nat) returns (r: int)
      requires Valid() && dir < 128 && i < 14
      modifies this, inodes, bitmap, disk
      ensures Valid() && Res(State(), r) == EnsureCleared(old(State()), dir, i)
    {
      if inodes[dir].blocks[i] != 0 {
        return inodes[dir].blocks[i];
      }
      r := AllocBlock();
      if r != -1 {
        PutBlock(dir, i, r);
        DiskWrite(r, ZeroSector);
      }
    }

    /** `pafs_add_entry` */
    method AddDirEntry(dir: nat, name: CString, ino: u32) returns (r: int)
      requires Valid() && dir < 128 && DirReady(dir)
      modifies this, inodes, bitmap, disk
      ensures Valid() && Res(State(), r) == AddEntry(old(State()), dir, name, ino)
    {
      hide DirOk, BlocksApart, NameOf, EnsureCleared, Slot, PutEntry, SaveInode, NewEntry, EntryAt;
      if inodes[dir].kind != TYPE_DIR {
        return -1;
      }
      ghost var fs := State();
      ghost var n, d := fs.inodes[dir], fs.disk;
      assert DirOk(n, d) && BlocksApart(n);
      for i := 0 to 14
        invariant Valid() && State() == fs && 16 * i <= EntryCount(n)
      {
        var b := EnsureClearedBlock(dir, i);
        ClearedScan(fs, dir, i);
        if b == -1 {
          AddEntryCases(fs, dir, name, ino);
          return -1;
        }
        ghost var mid := State();
        var block := DiskRead(b);
        for j := 0 to 16
          invariant Valid() && State() == mid && 16 * i + j <= EntryCount(n)
        {
          if EntryAt(block, j).inode == 0 {
            AddEntryCases(fs, dir, name, ino);
            FillEntry(dir, i, j, block, name, ino);
            return 0;
          }
        }
      }
      return -1;
    }

    /** Moving the last entry over entry `t` and clearing the last one's slot. */
    method SwapOutEntry(n: Inode, t: nat, last: nat)
      requires Valid() && t < 224 && last < 224
      requires 0 < n.blocks[t / 16] < 4096 && 0 < n.blocks[last / 16] < 4096
      modifies disk
      ensures Valid() && State() == DropEntry(old(State()), n, t, last)
    {
      hide SetEntry, EntryAt;
      var targetBlock, targetIdx := t / 16, t % 16;
      var targetData := DiskRead(n.blocks[targetBlock]);
      var lastBlock, lastIdx := last / 16, last % 16;
      var lastData := DiskRead(n.blocks[lastBlock]);
      if targetBlock != lastBlock || targetIdx != lastIdx {
        targetData := SetEntry(targetData, targetIdx, EntryAt(lastData, lastIdx));
        DiskWrite(n.blocks[targetBlock], targetData);
      }
      DiskWrite(n.blocks[lastBlock], SetEntry(lastData, lastIdx, ZeroEntry));
    }

    /** `pafs_remove_entry` */
    method RemoveDirEntry(dir: nat, name: CString) returns (r: int)
      requires Valid() && dir < 128 && inodes[dir].kind == TYPE_DIR && DirReady(dir)
      modifies inodes, disk
      ensures Valid() && Res(State(), r) == RemoveEntry(old(State()), dir, name)
    {
      hide DirOk, BlocksApart, FindSlot, EncodeInodeSector, DropEntry, Slot;
      var n := inodes[dir];
      var slot := ScanFor(dir, name);
      if slot == -1 {
        return -1;
      }
      EntryHasBlock(n, disk[..], slot);
      EntryHasBlock(n, disk[..], EntryCount(n) - 1);
      BlockInRange(n, slot / 16);
      BlockInRange(n, (EntryCount(n) - 1) / 16);
      DirCount(n, disk[..]);
      SwapOutEntry(n, slot, n.size / 32 - 1);
      PutInode(dir, n.(size := Wrap(n.size - 32)));
      SaveInodeSector(dir);
      return 0;
    }

    /** The loop of `pafs_delete` that gives back a file's blocks. */
    method FreeInodeBlocks(i: nat)
      requires Valid() && i < 128 && forall k :: 0 <= k < 14 ==> inodes[i].blocks[k] < 4096
      modifies this, inodes, bitmap
      ensures Valid() && State() == FreeBlocks(old(State()), i, 0)
    {
      ghost var goal := FreeBlocks(State(), i, 0);
      for k := 0 to 14
        invariant Valid() && FreeBlocks(State(), i, k) == goal
        invariant forall l :: 0 <= l < 14 ==> inodes[i].blocks[l] < 4096
      {
        var b := inodes[i].blocks[k];
        if b != 0 {
          Mark(b, false);
          PutBlock(i, k, 0);
        }
      }
    }

    /** `pafs_delete` */
    method DeleteFile(parent: nat, name: CString) returns (r: int)
      requires Valid() && Inv(State()) && parent < 128
      modifies this, inodes, bitmap, disk
      ensures Valid() && Inv(State()) && Res(State(), r) == Delete(old(State()), parent, name)
    {
      hide Inv, Synced, Own, FreeClean, DirOk, RemoveEntry, Release, SaveInode, SaveBitmap, SaveSuperblock, Find;
      ghost var fs := State();
      DeleteReady(fs, parent, name);
      var ino := FindEntry(parent, name);
      if ino == -1 {
        return -1;
      }
      if inodes[ino].kind == TYPE_DIR && inodes[ino].size != 0 {
        return -2;
      }
      ReleaseInode(ino);
      r := RemoveDirEntry(parent, name);
      SaveSuperblockSector();
      SaveBitmapSector();
      SaveInodeSector(ino);
    }

    /** The part of `pafs_delete` that frees the inode found. */
    method ReleaseInode(i: nat)
      requires Valid() && i < 128 && forall k :: 0 <= k < 14 ==> inodes[i].blocks[k] < 4096
      modifies this, inodes, bitmap
      ensures Valid() && State() == Release(old(State()), i)
    {
      FreeInodeBlocks(i);
      PutInode(i, inodes[i].(kind := TYPE_FREE, size := 0));
      sb := sb.(freeInodes := Wrap(sb.freeInodes + 1));
    }

    /** `pafs_create`; `pafs_mkdir` is the case `isDir` */
    method CreateFile(parent: nat, name: CString, isDir: bool) returns (r: int)
      requires Valid() && Inv(State()) && parent < 128
      modifies this, inodes, bitmap, disk
      ensures Valid() && Inv(State()) && Res(State(), r) == Create(old(State()), parent, name, isDir)
    {
      hide Inv, Own, Synced, FreeClean, DirOk, AddEntry, SaveInode, Find;
      ghost var fs := State();
      CreateReady(fs, parent, name, isDir);
      if sb.freeInodes == 0 {
        return -1;
      }
      var found := FindEntry(parent, name);
      if found != -1 {
        return -1;
      }
      var i := FindFreeInode();
      if i == -1 {
        return -1;
      }
      PutInode(i, Inode(if isDir then TYPE_DIR else TYPE_FILE, 0, NoBlocks()));
      sb := sb.(freeInodes := Wrap(sb.freeInodes - 1));
      assert State() == Claim(fs, i, isDir);
      var added := AddDirEntry(parent, name, i);
      if added == 0 {
        SaveInodeSector(i);
        return i;
      }
      PutInode(i, inodes[i].(kind := TYPE_FREE));
      sb := sb.(freeInodes := Wrap(sb.freeInodes + 1));
      return -1;
    }

    /** The loop shared by `pafs_write` (`readBack` false) and `pafs_vfs_write`. */
    method WriteBlocks(i: nat, first: nat, start: nat, data: seq<byte>, readBack: bool) returns (written: nat)
      requires Valid() && i < 128 && start < 512
      requires Core(State(), {1 + i / 8}) && inodes[i].kind == TYPE_FILE
      modifies this, inodes, bitmap, disk
      ensures Valid() && Res(State(), written) == WriteFrom(old(State()), i, first, start, data, 0, readBack)
    {
      hide Core, Ensure, AfterTurn;
      ghost var goal := WriteFrom(State(), i, first, start, data, 0, readBack);
      written := 0;
      var k: nat, at: nat := first, start;
      while written < |data| && k < 14
        invariant Valid() && at < 512 && written <= |data|
        invariant WriteFrom(State(), i, k, at, data, written, readBack) == goal
        invariant Core(State(), {1 + i / 8}) && inodes[i].kind == TYPE_FILE
        decreases 14 - k
      {
        var count := WriteTurn(i, k, at, data, written, readBack);
        if count == 0 {
          return;
        }
        written := written + count;
        k := k + 1;
        at := 0;
      }
    }

    /** One turn of that loop: the number of bytes written, 0 when there is no block. */
    method WriteTurn(i: nat, k: nat, at: nat, data: seq<byte>, written: nat, readBack: bool) returns (count: nat)
      requires Valid() && i < 128 && k < 14 && at < 512 && written < |data|
      requires Core(State(), {1 + i / 8}) && inodes[i].kind == TYPE_FILE
      modifies this, inodes, bitmap, disk
      ensures Valid() && Core(State(), {1 + i / 8}) && inodes[i].kind == TYPE_FILE
      ensures count == (if Ensure(old(State()), i, k).code == -1 then 0 else Turn(at, data, written))
      ensures State() == (if count == 0 then old(State()) else AfterTurn(old(State()), i, k, at, data, written, readBack))
    {
      hide Core, Ensure, Overlay, OthersSame;
      ghost var fs := State();
      EnsureCore(fs, i, k, {1 + i / 8});
      assert {1 + i / 8} + {1 + i / 8} == {1 + i / 8};
      var b := EnsureBlock(i, k);
      if b == -1 {
        return 0;
      }
      TurnCore(fs, i, k, at, data, written, readBack, {1 + i / 8});
      BlockInUse(State(), i, k);
      var left := |data| - written;
      var buffer: Sector := ZeroSector;
      if readBack && (at > 0 || left < 512) {
        buffer := DiskRead(b);
      }
      count := 512 - at;
      if count > left {
        count := left;
      }
      DiskWrite(b, Overlay(buffer, at, data[written .. written + count]));
      assert State() == AfterTurn(fs, i, k, at, data, written, readBack);
    }

    /** `pafs_write`; a negative `len` writes nothing and empties the file. */
    method WriteFile(name: CString, data: seq<byte>, len: int) returns (r: int)
      requires Valid() && Inv(State()) && len <= |data|
      modifies this, inodes, bitmap, disk
      ensures Valid() && Inv(State())
      ensures Res(State(), r) == Write(old(State()), name, data[.. if len < 0 then 0 else len])
    {
      hide Inv, Core, DirsOk, DirOk, Create, Find, WriteFrom, SaveInode, OthersSame;
      ghost var fs := State();
      WriteReady(fs, name);
      var ino := FindEntry(0, name);
      if ino == -1 {
        ino := CreateFile(0, name, false);
        if ino == -1 {
          return -1;
        }
      }
      ghost var fs1 := State();
      var bytes := data[.. if len < 0 then 0 else len];
      WriteInodeInv(fs1, ino, bytes);
      if inodes[ino].kind != TYPE_FILE {
        return -1;
      }
      CoreFor(fs1, ino);
      var written := WriteBlocks(ino, 0, 0, bytes, false);
      PutInode(ino, inodes[ino].(size := Wrap(written)));
      SaveInodeSector(ino);
      r := written;
      assert Res(State(), r) == WriteInode(fs1, ino, bytes);
    }

    /** `pafs_vfs_write` */
    method VfsWriteFile(i: nat, offset: u32, data: seq<byte>) returns (r: int)
      requires Valid() && Inv(State()) && i < 128
      modifies this, inodes, bitmap, disk
      ensures Valid() && Inv(State()) && Res(State(), r) == VfsWrite(old(State()), i, offset, data)
    {
      hide Inv, Core, DirsOk, WriteFrom, SaveInode, OthersSame;
      ghost var fs := State();
      VfsWriteInv(fs, i, offset, data);
      if inodes[i].kind != TYPE_FILE {
        return 0;
      }
      CoreFor(fs, i);
      var written := WriteBlocks(i, offset / 512, offset % 512, data, true);
      var n := inodes[i];
      var end := Wrap(offset + written);
      if end > n.size {
        n := n.(size := end);
      }
      PutInode(i, n);
      SaveInodeSector(i);
      return written;
    }

    /** The copy loop shared by `pafs_read` (`stop` true) and `pafs_vfs_read`. */
    method ReadBlocks(i: nat, first: nat, start: nat, total: nat, stop: bool, buffer: array<byte>) returns (got: nat)
      requires Valid() && i < 128 && start < 512 && total <= buffer.Length
      requires forall k :: 0 <= k < 14 ==> inodes[i].blocks[k] < 4096
      requires buffer as object != bitmap as object && buffer as object != inodes as object && buffer as object != disk as object
      modifies buffer
      ensures got <= total
      ensures buffer[..] == ReadFrom(inodes[i], disk[..], first, start, total, stop) + old(buffer[..])[got..]
      ensures got == |ReadFrom(inodes[i], disk[..], first, start, total, stop)|
    {
      hide ReadFrom, BlockOf, ReadsOn, Filled;
      var n := inodes[i];
      ghost var d: Disk := disk[..];
      ghost var was := buffer[..];
      ghost var goal := ReadFrom(n, d, first, start, total, stop);
      ghost var part: seq<byte> := [];
      got := 0;
      var k: nat, at: nat := first, start;
      ReadStarts(n, d, k, at, total, stop);
      FilledIs(was, [], was);
      while got < total && k < 14
        invariant got <= total && at < 512 && disk[..] == d
        invariant |part| == got && Filled(buffer[..], part, was) && ReadsOn(goal, part, n, d, k, at, total - got, stop)
        decreases 14 - k
      {
        if stop && n.blocks[k] == 0 {
          break;
        }
        var count: nat := Min(512 - at, total - got);
        ghost var piece := d[n.blocks[k]][at .. at + count];
        CopyBlock(n.blocks[k], at, count, buffer, got, part, was);
        ReadTurn(goal, n, d, k, at, total - got, stop, part);
        part := part + piece;
        got := got + count;
        k := k + 1;
        at := 0;
      }
      ReadStops(goal, n, d, k, at, total - got, stop, part);
      FilledIs(buffer[..], part, was);
    }

    /** Reading a sector and copying `count` bytes of it to `buffer + got`. */
    method CopyBlock(lba: nat, at: nat, count: nat, buffer: array<byte>, got: nat, ghost part: seq<byte>, ghost was: seq<byte>)
      requires Valid() && lba < 4096 && at + count <= 512 && got + count <= buffer.Length
      requires buffer as object != disk as object
      requires |part| == got && |was| == buffer.Length && Filled(buffer[..], part, was)
      modifies buffer
      ensures Filled(buffer[..], part + disk[lba][at .. at + count], was)
    {
      var block := DiskRead(lba);
      CopyInto(buffer, got, block[at .. at + count]);
      Shifted(part, was, got, block[at .. at + count]);
    }

    /** `memcpy(buffer + at, source, |source|)` */
    method CopyInto(buffer: array<byte>, at: nat, source: seq<byte>)
      requires at + |source| <= buffer.Length
      modifies buffer
      ensures buffer[..] == old(buffer[..])[..at] + source + old(buffer[..])[at + |source| ..]
    {
      for j := 0 to |source|
        invariant forall p :: at <= p < at + j ==> buffer[p] == source[p - at]
        invariant forall p :: 0 <= p < at || at + j <= p < buffer.Length ==> buffer[p] == old(buffer[p])
      {
        buffer[at + j] := source[j];
      }
    }

    /** A caller's buffer is not part of the volume. */
    ghost predicate Outside(buffer: array<byte>)
      reads this
    {
      buffer as object != bitmap as object && buffer as object != inodes as object && buffer as object != disk as object
    }

    /** `pafs_read`: the bytes read, and a NUL behind them if the limit leaves room. */
    method ReadFile(name: CString, buffer: array<byte>, maxLen: int) returns (r: int)
      requires Valid() && Inv(State()) && maxLen <= buffer.Length && Outside(buffer)
      modifies buffer
      ensures Delivered(Read(State(), name, maxLen), maxLen, old(buffer[..]), r, buffer[..])
    {
      hide Inv, Find, ReadFrom, DirOk, BlocksApart, Read, Signed, Delivered;
      ghost var was := buffer[..];
      NothingDelivered(maxLen, was);
      WriteReady(State(), name);
      ReadCases(State(), name, maxLen);
      var ino := FindEntry(0, name);
      if ino == -1 {
        return -1;
      }
      if inodes[ino].kind != TYPE_FILE {
        return -1;
      }
      BlocksInRange(State(), ino);
      var total := Signed(inodes[ino].size);
      if total > maxLen {
        total := maxLen;
      }
      if total <= 0 {
        total := 0;
      }
      r := ReadBlocks(ino, 0, 0, total, true, buffer);
      BytesDelivered(ReadFrom(inodes[ino], disk[..], 0, 0, total, true), maxLen, was, r);
      if r < maxLen {
        buffer[r] := 0;
      }
    }

    /** `pafs_vfs_read` */
    method VfsReadFile(i: nat, offset: u32, size: u32, buffer: array<byte>) returns (r: int)
      requires Valid() && Inv(State()) && i < 128 && size <= buffer.Length && Outside(buffer)
      modifies buffer
      ensures r == |VfsRead(State(), i, offset, size)| <= buffer.Length
      ensures buffer[..] == VfsRead(State(), i, offset, size) + old(buffer[..])[r..]
    {
      hide Inv, ReadFrom;
      var n := inodes[i];
      if n.kind != TYPE_FILE || n.size == 0 || offset >= n.size {
        return 0;
      }
      var wanted := size;
      if Wrap(offset + size) > n.size {
        wanted := n.size - offset;
        WantedFits(offset, size, n.size);
      }
      BlocksInRange(State(), i);
      r := ReadBlocks(i, offset / 512, offset % 512, wanted, false, buffer);
    }

    /** `pafs_vfs_readdir` */
    method ReaddirAt(d: nat, index: u32) returns (r: Dirent)
      requires Valid() && Inv(State()) && d < 128
      ensures r == Readdir(State(), d, index)
    {
      var n := inodes[d];
      if n.kind != TYPE_DIR || n.size == 0 {
        return NoEntry;
      }
      var blockIdx, inBlock := index / PER_BLOCK, index % PER_BLOCK;
      if index >= 14 * PER_BLOCK {
        return NoEntry;
      }
      if blockIdx >= 14 || n.blocks[blockIdx] == 0 {
        return NoEntry;
      }
      BlocksInRange(State(), d);
      var block := DiskRead(n.blocks[blockIdx]);
      var e := EntryAt(block, inBlock);
      if e.inode == 0 {
        return NoEntry;
      }
      return Dirent(e.inode, Kept(NameOf(e.name)));
    }

    // ----- making and loading a volume -----

    /** `save_metadata` */
    method SaveMetadata()
      requires Valid()
      modifies disk
      ensures Valid() && State() == SaveAll(old(State()))
    {
      hide EncodeInodeSector, EncodeSuperblock;
      ghost var fs := State();
      SaveSuperblockSector();
      for i := 0 to 16
        invariant Valid() && State() == fs.(disk := State().disk)
        invariant disk[0] == EncodeSuperblock(fs.sb)
        invariant forall s :: 0 <= s < i ==> disk[1 + s] == EncodeInodeSector(fs.inodes, s)
        invariant forall l :: 1 + i <= l < 4096 ==> disk[l] == fs.disk[l]
      {
        DiskWrite(LBA_INODES_START + i, EncodeInodeSector(inodes[..], i));
      }
      SaveBitmapSector();
      assert State().disk == SaveAll(fs).disk;
    }

    method ClearInodes()
      requires Valid()
      modifies inodes
      ensures Valid() && inodes[..] == FreeInodes()
    {
      for i := 0 to 128
        invariant forall j :: 0 <= j < i ==> inodes[j] == FreeInode
      {
        inodes[i] := FreeInode;
      }
    }

    method ClearBitmap()
      requires Valid()
      modifies bitmap
      ensures Valid() && bitmap[..] == MarkLow(LBA_DATA_START)
    {
      for i := 0 to 512
        invariant forall j :: 0 <= j < i ==> bitmap[j] == 0
      {
        bitmap[i] := 0;
      }
      assert bitmap[..] == ZeroSector;
      MarkNone();
      for i := 0 to LBA_DATA_START
        invariant bitmap[..] == MarkLow(i)
      {
        MarkOne(i);
        bitmap[i / 8] := BytePut(bitmap[i / 8], i % 8, true);
      }
    }

    /** The first part of `pafs_format`: an empty inode table and the metadata sectors marked used. */
    method FormatTables()
      requires Valid()
      modifies this, inodes, bitmap
      ensures Valid()
      ensures State() == FormatBase(old(State()).disk, LBA_DATA_START).(sb := State().sb)
      ensures sb == Superblock(MAGIC, 4096, 128, 4078, 128, old(sb.rootInode))
    {
      hide MarkLow;
      sb := Superblock(MAGIC, TOTAL_BLOCKS, MAX_INODES, TOTAL_BLOCKS - LBA_DATA_START, MAX_INODES, sb.rootInode);
      ClearInodes();
      ClearBitmap();
      var root := FindFreeInode();
      FreshTable(inodes[..]);
      inodes[root] := RootInode;
    }

    /** `pafs_format` */
    method FormatVolume()
      requires Valid()
      modifies this, inodes, bitmap, disk
      ensures Valid() && Inv(State()) && State() == Format(old(State()).disk)
    {
      hide Inv, FormatBase;
      ghost var d := State().disk;
      FormatTables();
      ghost var base := State();
      FormatInv(d);
      FormatAlike(d, base);
      var b := EnsureClearedBlock(0, 0);
      sb := sb.(rootInode := 0, freeInodes := Wrap(sb.freeInodes - 1));
      SaveMetadata();
    }

    method LoadInodes()
      requires Valid()
      modifies inodes
      ensures Valid()
      ensures forall j :: 0 <= j < 128 ==> inodes[j] == DecodeInode(disk[LBA_INODES_START + j / 8], j % 8)
    {
      hide DecodeInode;
      for i := 0 to 16
        invariant forall j :: 0 <= j < 8 * i ==> inodes[j] == DecodeInode(disk[LBA_INODES_START + j / 8], j % 8)
      {
        var sector := DiskRead(LBA_INODES_START + i);
        for j := 0 to 8
          invariant forall k :: 0 <= k < 8 * i + j ==> inodes[k] == DecodeInode(disk[LBA_INODES_START + k / 8], k % 8)
        {
          inodes[8 * i + j] := DecodeInode(sector, j);
        }
      }
    }

    method LoadBitmap()
      requires Valid()
      modifies bitmap
      ensures Valid() && bitmap[..] == disk[LBA_BITMAP]
    {
      var loaded := DiskRead(LBA_BITMAP);
      for i := 0 to 512
        invariant bitmap[..i] == loaded[..i]
      {
        bitmap[i] := loaded[i];
      }
    }

    /** The branch of `pafs_init` that loads a volume: false when the disk holds none. */
    method Load() returns (ok: bool)
      requires Valid()
      modifies this, inodes, bitmap
      ensures Valid() && State().disk == old(State()).disk
      ensures if ok then Mount(old(State()).disk) == MountedFs(State()) else Mount(old(State()).disk).NoFileSystem?
    {
      hide DecodeInode, DecodeSuperblock;
      var first := DiskRead(LBA_SUPERBLOCK);
      sb := DecodeSuperblock(first);
      if sb.magic != MAGIC {
        return false;
      }
      LoadInodes();
      LoadBitmap();
      assert Mount(disk[..]).fs.inodes == inodes[..];
      return true;
    }
  }

  /** One more byte of a name copied over a field. */
  lemma NameGrows(field: NameField, name: CString, k: nat)
    requires k < |name| && k < 27
    ensures (name[..k] + field[k..])[k := name[k]] == name[..k + 1] + field[k + 1..]
  {
    assert field[k..] == [field[k]] + field[k + 1..];
    assert name[..k + 1] == name[..k] + [name[k]];
  }

  lemma BlocksInRange(fs: Fs, i: nat)
    requires Inv(fs) && i < 128
    ensures forall k :: 0 <= k < 14 ==> fs.inodes[i].blocks[k] < 4096
  {
    OwnApart(fs.inodes, fs.bitmap, i);
  }

  /** `pafs_read`, case by case. */
  lemma ReadCases(fs: Fs, name: CString, maxLen: int)
    requires Inv(fs)
    ensures var found := Find(fs, 0, name);
            && (found == -1 ==> Read(fs, name, maxLen) == NotFound)
            && (found != -1 ==>
                  && 0 < found < 128
                  && Read(fs, name, maxLen)
                     == (if fs.inodes[found].kind != TYPE_FILE then NotFound
                         else
                           var total := if Signed(fs.inodes[found].size) > maxLen then maxLen else Signed(fs.inodes[found].size);
                           Bytes(ReadFrom(fs.inodes[found], fs.disk, 0, 0, if total <= 0 then 0 else total, true))))
  {
    hide Find, ReadFrom, Signed;
    FindIsSearch(fs, 0, name);
  }

  /** What `pafs_read` leaves in the caller's buffer: the bytes, and a NUL if the limit leaves room. */
  predicate Delivered(res: ReadResult, maxLen: int, was: seq<byte>, r: int, now: seq<byte>) {
    match res
    case NotFound => r == -1 && now == was
    case Bytes(b) =>
      && r == |b| <= |was|
      && (if r < maxLen then r < |was| && now == b + [0] + was[r + 1..] else now == b + was[r..])
  }

  lemma NothingDelivered(maxLen: int, was: seq<byte>)
    ensures Delivered(NotFound, maxLen, was, -1, was)
  {
  }

  lemma BytesDelivered(b: seq<byte>, maxLen: int, was: seq<byte>, r: nat)
    requires r == |b| <= |was| && maxLen <= |was|
    ensures var now := b + was[r..];
            Delivered(Bytes(b), maxLen, was, r, if r < maxLen then now[r := 0] else now)
  {
  }

  lemma WantedFits(offset: u32, size: u32, limit: u32)
    requires offset < limit && Wrap(offset + size) > limit
    ensures limit - offset <= size
  {
  }

  lemma MarkNone()
    ensures MarkLow(0) == ZeroSector
  {
  }

  lemma MarkOne(i: nat)
    requires i < 4096
    ensures MarkLow(i + 1) == PutBit(MarkLow(i), i, true)
  {
  }

  lemma FreshTable(t: InodeTable)
    requires t == FreeInodes()
    ensures FirstFree(t) == 0
  {
    assert IsFirstFree(t, 0);
  }

  /** What giving the root its first block does to each part of a state. */
  lemma RootBlockParts(fs: Fs)
    requires fs.inodes[0].blocks[0] == 0 && FirstClear(fs.bitmap) != -1
    ensures var b, r := FirstClear(fs.bitmap), EnsureCleared(fs, 0, 0).fs;
            && r.sb == fs.sb.(freeBlocks := Wrap(fs.sb.freeBlocks - 1))
            && r.bitmap == PutBit(fs.bitmap, b, true) && r.inodes == PutSlot(fs.inodes, 0, 0, b)
            && (forall l :: LBA_DATA_START <= l < 4096 ==> r.disk[l] == (if l == b then ZeroSector else fs.disk[l]))
  {
  }

  /** Saving all metadata overwrites whatever the metadata sectors held. */
  lemma SaveAllAlike(x: Fs, y: Fs)
    requires x.sb == y.sb && x.inodes == y.inodes && x.bitmap == y.bitmap
    requires forall l :: LBA_DATA_START <= l < 4096 ==> x.disk[l] == y.disk[l]
    ensures SaveAll(x) == SaveAll(y)
  {
    assert x.disk[LBA_DATA_START..] == y.disk[LBA_DATA_START..];
  }

  /** The root inode number still standing in the superblock makes no difference to a format. */
  lemma FormatAlike(d: Disk, base: Fs)
    requires base == FormatBase(d, LBA_DATA_START).(sb := base.sb)
    requires base.sb == Superblock(MAGIC, 4096, 128, 4078, 128, base.sb.rootInode)
    ensures var e := EnsureCleared(base, 0, 0).fs;
            SaveAll(e.(sb := e.sb.(rootInode := 0, freeInodes := Wrap(e.sb.freeInodes - 1)))) == Format(d)
  {
    hide EnsureCleared, SaveAll, MarkLow, PutBit;
    var base0 := FormatBase(d, LBA_DATA_START);
    assert !Used(base.bitmap, LBA_DATA_START);
    RootBlockParts(base);
    RootBlockParts(base0);
    var e, e0 := EnsureCleared(base, 0, 0).fs, EnsureCleared(base0, 0, 0).fs;
    SaveAllAlike(e.(sb := e.sb.(rootInode := 0, freeInodes := Wrap(e.sb.freeInodes - 1))), e0.(sb := e0.sb.(freeInodes := 127)));
  }

  /** The buffer holds `part`, and behind it what it held before. */
  predicate Filled(now: seq<byte>, part: seq<byte>, was: seq<byte>) {
    |part| <= |was| && now == part + was[|part|..]
  }

  lemma FilledIs(now: seq<byte>, part: seq<byte>, was: seq<byte>)
    requires |part| <= |was|
    ensures Filled(now, part, was) <==> now == part + was[|part|..]
    ensures Filled(was, [], was)
  {
  }

  /** What was read before and what the loop will still read are `goal`. */
  predicate ReadsOn(goal: seq<byte>, part: seq<byte>, n: Inode, d: Disk, k: nat, at: nat, left: nat, stop: bool)
    requires at < 512
  {
    part + ReadFrom(n, d, k, at, left, stop) == goal
  }

  lemma ReadStarts(n: Inode, d: Disk, k: nat, at: nat, left: nat, stop: bool)
    requires at < 512
    ensures ReadsOn(ReadFrom(n, d, k, at, left, stop), [], n, d, k, at, left, stop)
  {
    hide ReadFrom;
  }

  /** One turn of the read loop. */
  lemma ReadTurn(goal: seq<byte>, n: Inode, d: Disk, k: nat, at: nat, left: nat, stop: bool, part: seq<byte>)
    requires at < 512 && left > 0 && k < 14 && !(stop && n.blocks[k] == 0)
    requires n.blocks[k] < 4096 && ReadsOn(goal, part, n, d, k, at, left, stop)
    ensures var m: nat := Min(512 - at, left);
            ReadsOn(goal, part + d[n.blocks[k]][at .. at + m], n, d, k + 1, 0, left - m, stop)
  {
    var m: nat := Min(512 - at, left);
    Regroup(part, d[n.blocks[k]][at .. at + m], ReadFrom(n, d, k + 1, 0, left - m, stop));
  }

  lemma Regroup(a: seq<byte>, b: seq<byte>, c: seq<byte>)
    ensures a + (b + c) == (a + b) + c
  {
  }

  lemma ReadStops(goal: seq<byte>, n: Inode, d: Disk, k: nat, at: nat, left: nat, stop: bool, part: seq<byte>)
    requires at < 512 && (left == 0 || k >= 14 || (stop && n.blocks[k] == 0))
    requires ReadsOn(goal, part, n, d, k, at, left, stop)
    ensures part == goal
  {
    assert ReadFrom(n, d, k, at, left, stop) == [];
  }

  lemma Shifted(part: seq<byte>, was: seq<byte>, got: nat, piece: seq<byte>)
    requires |part| == got && got + |piece| <= |was|
    ensures var b := part + was[got..];
            b[..got] + piece + b[got + |piece| ..] == part + piece + was[got + |piece| ..]
  {
  }

  lemma BlockInUse(fs: Fs, i: nat, k: nat)
    requires i < 128 && k < 14 && Core(fs, {1 + i / 8}) && fs.inodes[i].blocks[k] != 0
    ensures LBA_DATA_START <= fs.inodes[i].blocks[k] < 4096
  {
  }

  lemma CoreFor(fs: Fs, i: nat)
    requires Inv(fs)
    ensures Core(fs, {1 + i / 8})
  {
  }

  /** What `pafs_create` relies on, and that it keeps the invariant. */
  lemma CreateReady(fs: Fs, parent: nat, name: CString, isDir: bool)
    requires Inv(fs) && parent < 128
    ensures fs.inodes[parent].kind == TYPE_DIR ==> DirOk(fs.inodes[parent], fs.disk) && BlocksApart(fs.inodes[parent])
    ensures var i := FirstFree(fs.inodes);
            i != -1 && fs.sb.freeInodes > 0 ==>
              var c := Claim(fs, i, isDir);
              0 < i < 128
              && (c.inodes[parent].kind == TYPE_DIR ==> DirOk(c.inodes[parent], c.disk) && BlocksApart(c.inodes[parent]))
    ensures Inv(Create(fs, parent, name, isDir).fs)
  {
    hide Synced, DirOk, Create, BlocksApart;
    OwnApart(fs.inodes, fs.bitmap, parent);
    CreateEffect(fs, parent, name, isDir);
    var i := FirstFree(fs.inodes);
    if i != -1 && fs.sb.freeInodes > 0 {
      ClaimCore(fs, i, isDir);
      OwnApart(Claim(fs, i, isDir).inodes, Claim(fs, i, isDir).bitmap, parent);
    }
  }

  /** What `pafs_write` relies on. */
  lemma WriteReady(fs: Fs, name: CString)
    requires Inv(fs)
    ensures RootOf(fs) == 0 && DirOk(fs.inodes[0], fs.disk) && BlocksApart(fs.inodes[0])
    ensures -1 <= Find(fs, 0, name) < 128 && -1 <= Create(fs, 0, name, false).code < 128
  {
    hide Synced, DirOk, Create, Find;
    OwnApart(fs.inodes, fs.bitmap, 0);
    FindIsSearch(fs, 0, name);
    CreateEffect(fs, 0, name, false);
  }

  lemma DirCount(n: Inode, d: Disk)
    requires DirOk(n, d)
    ensures EntryCount(n) == n.size / 32
  {
  }

  /** What `pafs_delete` relies on, before it frees the inode and after. */
  lemma DeleteReady(fs: Fs, parent: nat, name: CString)
    requires Inv(fs) && parent < 128
    ensures fs.inodes[parent].kind == TYPE_DIR ==> DirOk(fs.inodes[parent], fs.disk) && BlocksApart(fs.inodes[parent])
    ensures var ino := Find(fs, parent, name);
            ino != -1 ==>
              && 0 < ino < 128 && fs.inodes[parent].kind == TYPE_DIR
              && (forall k :: 0 <= k < 14 ==> fs.inodes[ino].blocks[k] < 4096)
              && (Deletable(fs, ino) ==>
                    Release(fs, ino).inodes[parent] == fs.inodes[parent] && Release(fs, ino).disk == fs.disk)
    ensures Inv(Delete(fs, parent, name).fs)
  {
    hide Synced, DirOk, Delete, Release, Find;
    OwnApart(fs.inodes, fs.bitmap, parent);
    DeleteEffect(fs, parent, name);
    FindIsSearch(fs, parent, name);
    var ino := Find(fs, parent, name);
    if ino != -1 {
      OwnApart(fs.inodes, fs.bitmap, ino);
      ReleaseEffect(fs, ino);
    }
  }

  /**
    What the scan of block slot `i` sees in a directory whose entries reach at least
    that far: the free entries are exactly those from the entry count on.
   */
  lemma ClearedScan(fs: Fs, dir: nat, i: nat)
    requires dir < 128 && i < 14 && fs.inodes[dir].kind == TYPE_DIR
    requires DirOk(fs.inodes[dir], fs.disk) && BlocksApart(fs.inodes[dir]) && 16 * i <= EntryCount(fs.inodes[dir])
    ensures var n, r := fs.inodes[dir], EnsureCleared(fs, dir, i);
            && (r.code == -1 ==> r.fs == fs && n.blocks[i] == 0)
            && (n.blocks[i] == 0 ==> EntryCount(n) == 16 * i)
            && (r.code != -1 ==>
                  && 0 < r.code < 4096 && r.fs.inodes[dir].blocks[i] == r.code
                  && r.fs.inodes[dir].size == n.size
                  && (n.blocks[i] != 0 ==> r.fs == fs)
                  && (forall j :: 0 <= j < 16 && 16 * i + j <= EntryCount(n) ==>
                        (EntryAt(r.fs.disk[r.code], j).inode == 0 <==> 16 * i + j == EntryCount(n))))
  {
    hide DirOk, BlocksApart, Slot, DecodeInode;
    var n, r := fs.inodes[dir], EnsureCleared(fs, dir, i);
    if n.blocks[i] == 0 {
      NoEntriesFrom(n, fs.disk, i);
      ZeroSectorEntries();
    } else {
      BlockInRange(n, i);
      forall j | 0 <= j < 16
        ensures EntryAt(fs.disk[n.blocks[i]], j).inode != 0 <==> 16 * i + j < EntryCount(n)
      {
        SlotInBlock(n, fs.disk, i, j);
      }
    }
  }

  lemma EntriesHaveBlocks(n: Inode, d: Disk, k: nat)
    requires DirOk(n, d) && k < 14
    ensures EntryCount(n) > 16 * k ==> n.blocks[k] != 0
  {
    if EntryCount(n) > 16 * k {
      EntryHasBlock(n, d, 16 * k);
      assert (16 * k) / 16 == k;
    }
  }

  /** A block slot without a block means that there are no entries from there on. */
  lemma NoEntriesFrom(n: Inode, d: Disk, i: nat)
    requires DirOk(n, d) && i < 14 && n.blocks[i] == 0
    ensures EntryCount(n) <= 16 * i
  {
    EntriesHaveBlocks(n, d, i);
  }

  lemma BlockInRange(n: Inode, i: nat)
    requires BlocksApart(n) && i < 14 && n.blocks[i] != 0
    ensures LBA_DATA_START <= n.blocks[i] < 4096
  {
  }

  /** Entry `j` of block slot `i`, seen as a slot of the directory. */
  lemma SlotInBlock(n: Inode, d: Disk, i: nat, j: nat)
    requires DirOk(n, d) && BlocksApart(n) && i < 14 && j < 16 && n.blocks[i] != 0
    ensures EntryAt(d[n.blocks[i]], j) == Slot(n, d, 16 * i + j)
    ensures Slot(n, d, 16 * i + j).inode != 0 <==> 16 * i + j < EntryCount(n)
  {
    assert (16 * i + j) / 16 == i && (16 * i + j) % 16 == j;
  }
}
