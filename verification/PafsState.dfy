/**
  The state of a mounted PAFS volume and the file system's operations on it, as
  functions from state to state.  Loops of the C code that search for a slot, a
  block or an inode are given here by what they find; the imperative code in
  module `Pafs` is proved to compute these functions.
 */
module PafsState {
  import opened Words
  import opened Bitmaps
  import opened PafsLayout

  /** In-memory superblock, inode table and bitmap, and the disk behind them. */
  datatype Fs = Fs(sb: Superblock, inodes: InodeTable, bitmap: Sector, disk: Disk)

  /** The state an operation leaves and the value it returns. */
  datatype Res = Res(fs: Fs, code: int)

  // ----- write-through -----

  function SaveSuperblock(fs: Fs): Fs {
    fs.(disk := fs.disk[LBA_SUPERBLOCK := EncodeSuperblock(fs.sb)])
  }

  function SaveBitmap(fs: Fs): Fs {
    fs.(disk := fs.disk[LBA_BITMAP := fs.bitmap])
  }

  function SaveInode(fs: Fs, i: nat): Fs
    requires i < 128
  {
    fs.(disk := fs.disk[LBA_INODES_START + i / 8 := EncodeInodeSector(fs.inodes, i / 8)])
  }

  // ----- small state changes -----

  function WithInode(fs: Fs, i: nat, n: Inode): Fs
    requires i < 128
  {
    fs.(inodes := fs.inodes[i := n])
  }

  function WithBlock(fs: Fs, i: nat, k: nat, b: u32): Fs
    requires i < 128 && k < 14
  {
    WithInode(fs, i, fs.inodes[i].(blocks := fs.inodes[i].blocks[k := b]))
  }

  function WithSector(fs: Fs, l: nat, s: Sector): Fs
    requires l < 4096
  {
    fs.(disk := fs.disk[l := s])
  }

  // ----- block allocation -----

  predicate Used(bm: Sector, b: int) {
    0 <= b < 4096 && TestBit(bm, b)
  }

  ghost predicate IsFirstClear(bm: Sector, b: int) {
    && LBA_DATA_START <= b < 4096
    && !Used(bm, b)
    && forall i :: LBA_DATA_START <= i < b ==> Used(bm, i)
  }

  lemma {:induction false} FirstClearExists(bm: Sector, from: nat, b: nat)
    requires LBA_DATA_START <= from <= b < 4096 && !Used(bm, b)
    requires forall i :: LBA_DATA_START <= i < from ==> Used(bm, i)
    ensures exists c :: IsFirstClear(bm, c)
    decreases b - from
  {
    if Used(bm, from) {
      FirstClearExists(bm, from + 1, b);
    } else {
      assert IsFirstClear(bm, from);
    }
  }

  /** The lowest free data block, or -1 when every data block is in use. */
  ghost function FirstClear(bm: Sector): (b: int)
    ensures b == -1 || IsFirstClear(bm, b)
    ensures b == -1 <==> forall i :: LBA_DATA_START <= i < 4096 ==> Used(bm, i)
  {
    if i :| LBA_DATA_START <= i < 4096 && !Used(bm, i) then
      FirstClearExists(bm, LBA_DATA_START, i);
      var b :| IsFirstClear(bm, b);
      b
    else -1
  }

  /** The state after block `b` has been taken (`on`) or given back. */
  function MarkBlock(fs: Fs, b: nat, on: bool): Fs
    requires b < 4096
  {
    fs.(bitmap := PutBit(fs.bitmap, b, on),
        sb := fs.sb.(freeBlocks := Wrap(fs.sb.freeBlocks + (if on then -1 else 1))))
  }

  /** `alloc_block` */
  ghost function Alloc(fs: Fs): Res {
    var b := FirstClear(fs.bitmap);
    if b == -1 then Res(fs, -1)
    else Res(SaveSuperblock(SaveBitmap(MarkBlock(fs, b, true))), b)
  }

  /** Slot `k` of inode `i`, given a block if it has none yet; returns the block or -1. */
  ghost function Ensure(fs: Fs, i: nat, k: nat): Res
    requires i < 128 && k < 14
  {
    var b := fs.inodes[i].blocks[k];
    if b != 0 then Res(fs, b)
    else
      var a := Alloc(fs);
      if a.code == -1 then a else Res(WithBlock(a.fs, i, k, a.code), a.code)
  }

  // ----- directories -----

  /** Block `k` of an inode as an index into the disk (0 when out of range). */
  function BlockOf(n: Inode, k: nat): (b: nat)
    requires k < 14
    ensures b < 4096
  {
    if n.blocks[k] < 4096 then n.blocks[k] else 0
  }

  /** Entry number `s` of a directory, counting sixteen to a block. */
  function Slot(n: Inode, disk: Disk, s: nat): DirEntry
    requires s < 224
  {
    EntryAt(disk[BlockOf(n, s / 16)], s % 16)
  }

  /** The number of entries a directory's size stands for. */
  function EntryCount(n: Inode): (c: nat)
    ensures c <= 224
  {
    if n.size / 32 <= 224 then n.size / 32 else 224
  }

  /** The first of the entries `s ..` that carries `name`, or -1. */
  function FindSlot(n: Inode, disk: Disk, name: CString, s: nat): (r: int)
    ensures r == -1 || s <= r < EntryCount(n)
    ensures r != -1 ==> NameOf(Slot(n, disk, r).name) == name
    ensures forall j :: s <= j < (if r == -1 then EntryCount(n) else r) ==> NameOf(Slot(n, disk, j).name) != name
    decreases EntryCount(n) - s
  {
    if s >= EntryCount(n) then -1
    else if NameOf(Slot(n, disk, s).name) == name then s
    else FindSlot(n, disk, name, s + 1)
  }

  /** `pafs_find_entry`: the inode bound to `name`, or -1. */
  function Find(fs: Fs, dir: nat, name: CString): int
    requires dir < 128
  {
    var n := fs.inodes[dir];
    if n.kind != TYPE_DIR || n.size == 0 then -1
    else
      var s := FindSlot(n, fs.disk, name, 0);
      if s == -1 then -1 else Slot(n, fs.disk, s).inode
  }

  function NewEntry(e: DirEntry, ino: u32, name: CString): DirEntry {
    DirEntry(ino, StoreName(e.name, name))
  }

  /** As `Ensure`, but a block taken for a directory is cleared on disk at once. */
  ghost function EnsureCleared(fs: Fs, i: nat, k: nat): Res
    requires i < 128 && k < 14
  {
    var r := Ensure(fs, i, k);
    if fs.inodes[i].blocks[k] != 0 || r.code == -1 then r
    else Res(WithSector(r.fs, r.code, ZeroSector), r.code)
  }

  /** The disk with entry `s` of directory `n` overwritten by `e`. */
  function PutEntry(fs: Fs, n: Inode, s: nat, e: DirEntry): Fs
    requires s < 224
  {
    WithSector(fs, BlockOf(n, s / 16), SetEntry(fs.disk[BlockOf(n, s / 16)], s % 16, e))
  }

  /** `pafs_add_entry`: the new entry goes right behind the existing ones. */
  ghost function AddEntry(fs: Fs, dir: nat, name: CString, ino: u32): Res
    requires dir < 128
  {
    var s := EntryCount(fs.inodes[dir]);
    if fs.inodes[dir].kind != TYPE_DIR || s == 224 then Res(fs, -1)
    else
      var r := EnsureCleared(fs, dir, s / 16);
      if r.code == -1 then Res(fs, -1)
      else
        var n := r.fs.inodes[dir];
        var fs1 := PutEntry(r.fs, n, s, NewEntry(Slot(n, r.fs.disk, s), ino, name));
        var fs2 := WithInode(fs1, dir, n.(size := Wrap(n.size + 32)));
        Res(SaveInode(fs2, dir), 0)
  }

  /**
    The disk blocks after `pafs_remove_entry` has taken entry `t` out: the last
    entry is copied over it, and the last entry's block, as it was read before
    that copy, is written back with its slot zeroed.
   */
  function DropEntry(fs: Fs, n: Inode, t: nat, l: nat): (r: Fs)
    requires t < 224 && l < 224
    ensures r.inodes == fs.inodes && r.sb == fs.sb && r.bitmap == fs.bitmap
  {
    var lastBlock := fs.disk[BlockOf(n, l / 16)];
    var fs1 := if t == l then fs else PutEntry(fs, n, t, EntryAt(lastBlock, l % 16));
    WithSector(fs1, BlockOf(n, l / 16), SetEntry(lastBlock, l % 16, ZeroEntry))
  }

  /** `pafs_remove_entry` */
  function RemoveEntry(fs: Fs, dir: nat, name: CString): Res
    requires dir < 128
  {
    var n := fs.inodes[dir];
    var t := FindSlot(n, fs.disk, name, 0);
    if t == -1 then Res(fs, -1)
    else
      var fs1 := DropEntry(fs, n, t, EntryCount(n) - 1);
      var fs2 := WithInode(fs1, dir, n.(size := Wrap(n.size - 32)));
      Res(SaveInode(fs2, dir), 0)
  }

  // ----- create and delete -----

  ghost predicate IsFirstFree(t: InodeTable, i: int) {
    0 <= i < 128 && t[i].kind == TYPE_FREE && forall j :: 0 <= j < i ==> t[j].kind != TYPE_FREE
  }

  lemma {:induction false} FirstFreeExists(t: InodeTable, from: nat, i: nat)
    requires from <= i < 128 && t[i].kind == TYPE_FREE
    requires forall j :: 0 <= j < from ==> t[j].kind != TYPE_FREE
    ensures exists c :: IsFirstFree(t, c)
    decreases i - from
  {
    if t[from].kind == TYPE_FREE {
      assert IsFirstFree(t, from);
    } else {
      FirstFreeExists(t, from + 1, i);
    }
  }

  /** `find_free_inode` */
  ghost function FirstFree(t: InodeTable): (i: int)
    ensures i == -1 || IsFirstFree(t, i)
    ensures i == -1 <==> forall j :: 0 <= j < 128 ==> t[j].kind != TYPE_FREE
  {
    if i :| 0 <= i < 128 && t[i].kind == TYPE_FREE then
      FirstFreeExists(t, 0, i);
      var c :| IsFirstFree(t, c);
      c
    else -1
  }

  function KindFor(isDir: bool): u32 {
    if isDir then TYPE_DIR else TYPE_FILE
  }

  /** Inode `i` taken for a new file or directory. */
  function Claim(fs: Fs, i: nat, isDir: bool): Fs
    requires i < 128
  {
    WithInode(fs, i, Inode(KindFor(isDir), 0, NoBlocks()))
    .(sb := fs.sb.(freeInodes := Wrap(fs.sb.freeInodes - 1)))
  }

  /** `pafs_create` */
  ghost function Create(fs: Fs, parent: nat, name: CString, isDir: bool): Res
    requires parent < 128
  {
    var i := FirstFree(fs.inodes);
    if fs.sb.freeInodes == 0 || Find(fs, parent, name) != -1 || i == -1 then Res(fs, -1)
    else
      var a := AddEntry(Claim(fs, i, isDir), parent, name, i);
      if a.code == 0 then Res(SaveInode(a.fs, i), i)
      else
        var back := WithInode(a.fs, i, a.fs.inodes[i].(kind := TYPE_FREE));
        Res(back.(sb := back.sb.(freeInodes := Wrap(back.sb.freeInodes + 1))), -1)
  }

  /** Gives back the blocks in slots `k ..` of inode `i`. */
  function FreeBlocks(fs: Fs, i: nat, k: nat): Fs
    requires i < 128 && k <= 14
    decreases 14 - k, fs.inodes
  {
    if k == 14 then fs
    else
      var b := fs.inodes[i].blocks[k];
      if b == 0 then FreeBlocks(fs, i, k + 1)
      else FreeBlocks(WithBlock(MarkBlock(fs, BlockOf(fs.inodes[i], k), false), i, k, 0), i, k + 1)
  }

  /** Inode `i` given back with all its blocks. */
  function Release(fs: Fs, i: nat): Fs
    requires i < 128
  {
    var fs1 := FreeBlocks(fs, i, 0);
    WithInode(fs1, i, fs1.inodes[i].(kind := TYPE_FREE, size := 0))
    .(sb := fs1.sb.(freeInodes := Wrap(fs1.sb.freeInodes + 1)))
  }

  /** `pafs_delete` */
  function Delete(fs: Fs, parent: nat, name: CString): Res
    requires parent < 128
  {
    var found := Find(fs, parent, name);
    if found == -1 then Res(fs, -1)
    else
      var i: nat := if 0 <= found < 128 then found else 0;
      if fs.inodes[i].kind == TYPE_DIR && fs.inodes[i].size != 0 then Res(fs, -2)
      else
        var r := RemoveEntry(Release(fs, i), parent, name);
        Res(SaveInode(SaveBitmap(SaveSuperblock(r.fs)), i), r.code)
  }

  // ----- file data -----

  function Min(a: int, b: int): int {
    if a <= b then a else b
  }

  /** The bytes of `base` with `data` laid over them from position `at`. */
  function Overlay(base: Sector, at: nat, data: seq<byte>): Sector
    requires at + |data| <= 512
  {
    base[..at] + data + base[at + |data| ..]
  }

  /** What is in the buffer before new bytes are copied in. */
  function Underlay(fs: Fs, b: nat, at: nat, left: nat, readBack: bool): Sector
    requires b < 4096
  {
    if readBack && (at > 0 || left < 512) then fs.disk[b] else ZeroSector
  }

  /** How many bytes one turn of the write loop writes at position `at` of a block. */
  function Turn(at: nat, data: seq<byte>, w: nat): (m: nat)
    requires at < 512 && w < |data|
    ensures 0 < m <= 512 - at && w + m <= |data|
    ensures w + m == |data| || at + m == 512
  {
    Min(512 - at, |data| - w)
  }

  /** The sector one turn writes to slot `k` of inode `i`. */
  function TurnSector(e: Fs, i: nat, k: nat, at: nat, data: seq<byte>, w: nat, readBack: bool): Sector
    requires i < 128 && k < 14 && at < 512 && w < |data|
  {
    Overlay(Underlay(e, BlockOf(e.inodes[i], k), at, |data| - w, readBack), at, data[w .. w + Turn(at, data, w)])
  }

  /** The state after one turn of the write loop that found or took a block for slot `k`. */
  ghost function AfterTurn(fs: Fs, i: nat, k: nat, at: nat, data: seq<byte>, w: nat, readBack: bool): Fs
    requires i < 128 && k < 14 && at < 512 && w < |data|
  {
    var e := Ensure(fs, i, k).fs;
    WithSector(e, BlockOf(e.inodes[i], k), TurnSector(e, i, k, at, data, w, readBack))
  }

  /**
    The write loop from block `k`, position `at` in it, with the bytes `data[w..]`
    still to go.  `pafs_vfs_write` reads a block back before changing part of
    it (`readBack`); `pafs_write` fills the rest of a block with zeros.
    The returned value is the number of bytes written.
   */
  ghost function WriteFrom(fs: Fs, i: nat, k: nat, at: nat, data: seq<byte>, w: nat, readBack: bool): (r: Res)
    requires i < 128 && at < 512 && w <= |data|
    ensures w <= r.code <= |data|
    decreases if k < 14 then 14 - k else 0, |data|
  {
    if w == |data| || k >= 14 || Ensure(fs, i, k).code == -1 then Res(fs, w)
    else WriteFrom(AfterTurn(fs, i, k, at, data, w, readBack), i, k + 1, 0, data, w + Turn(at, data, w), readBack)
  }

  /** The part of `pafs_write` that follows the lookup. */
  ghost function WriteInode(fs: Fs, i: nat, data: seq<byte>): Res
    requires i < 128
  {
    if fs.inodes[i].kind != TYPE_FILE then Res(fs, -1)
    else
      var r := WriteFrom(fs, i, 0, 0, data, 0, false);
      Res(SaveInode(WithInode(r.fs, i, r.fs.inodes[i].(size := Wrap(r.code))), i), r.code)
  }

  /** `pafs_write` with a non-negative length */
  ghost function Write(fs: Fs, name: CString, data: seq<byte>): Res {
    var root := RootOf(fs);
    var found := Find(fs, root, name);
    if found != -1 then WriteInode(fs, if 0 <= found < 128 then found else 0, data)
    else
      var c := Create(fs, root, name, false);
      if c.code == -1 then c else WriteInode(c.fs, if 0 <= c.code < 128 then c.code else 0, data)
  }

  function RootOf(fs: Fs): (r: nat)
    ensures r < 128
  {
    if fs.sb.rootInode < 128 then fs.sb.rootInode else 0
  }

  /** `pafs_vfs_write` */
  ghost function VfsWrite(fs: Fs, i: nat, offset: u32, data: seq<byte>): Res
    requires i < 128
  {
    if fs.inodes[i].kind != TYPE_FILE then Res(fs, 0)
    else
      var r := WriteFrom(fs, i, offset / 512, offset % 512, data, 0, true);
      var n := r.fs.inodes[i];
      var end := Wrap(offset + r.code);
      Res(SaveInode(WithInode(r.fs, i, n.(size := if end > n.size then end else n.size)), i), r.code)
  }

  /**
    The bytes the read loop delivers from block `k`, position `at`, when `left`
    bytes are still wanted.  `pafs_read` stops at an absent block (`stop`);
    `pafs_vfs_read` does not look.
   */
  function ReadFrom(n: Inode, disk: Disk, k: nat, at: nat, left: nat, stop: bool): (r: seq<byte>)
    requires at < 512
    ensures |r| <= left
    decreases if k < 14 then 14 - k else 0, n
  {
    if left == 0 || k >= 14 || (stop && n.blocks[k] == 0) then []
    else
      var m: nat := Min(512 - at, left);
      disk[BlockOf(n, k)][at .. at + m] + ReadFrom(n, disk, k + 1, 0, left - m, stop)
  }

  /** A 32-bit value read as a signed `int`. */
  function Signed(x: u32): int {
    if x < 0x8000_0000 then x else x - TWO32
  }

  datatype ReadResult = NotFound | Bytes(bytes: seq<byte>)

  /** `pafs_read` */
  function Read(fs: Fs, name: CString, maxLen: int): ReadResult {
    var found := Find(fs, RootOf(fs), name);
    if found == -1 then NotFound
    else
      var n := fs.inodes[if 0 <= found < 128 then found else 0];
      if n.kind != TYPE_FILE then NotFound
      else
        var total := Min(Signed(n.size), maxLen);
        Bytes(ReadFrom(n, fs.disk, 0, 0, if total < 0 then 0 else total, true))
  }

  /** `pafs_vfs_read` */
  function VfsRead(fs: Fs, i: nat, offset: u32, size: u32): seq<byte>
    requires i < 128
  {
    var n := fs.inodes[i];
    if n.kind != TYPE_FILE || n.size == 0 || offset >= n.size then []
    else
      var wanted := if Wrap(offset + size) > n.size then n.size - offset else size;
      ReadFrom(n, fs.disk, offset / 512, offset % 512, wanted, false)
  }
}
