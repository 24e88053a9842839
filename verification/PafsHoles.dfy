/**
  Files with holes: what a positional write behind the end of a file leaves, read back
  by name and by position (`pafs_read` and `pafs_vfs_read`).
 */
module PafsHoles {
  import opened Words
  import opened Bitmaps
  import opened PafsLayout
  import opened PafsState
  import opened PafsInv
  import opened PafsData
  import opened PafsFiles
  import opened PafsReads
  import opened PafsTree
  import opened PafsRuns
  import opened PafsRoom
  import opened PafsGood
  import opened PafsMap
  import opened PafsNames
  import opened PafsGaps

  /** After a write behind a slot without a block that slot still has none, and the file is longer. */
  lemma SlotStaysOut(fs: Fs, i: nat, offset: u32, data: seq<byte>, k: nat)
    requires Inv(fs) && i < 128 && fs.inodes[i].kind == TYPE_FILE
    requires k < offset / 512 && k < 14 && fs.inodes[i].blocks[k] == 0 && fs.inodes[i].size <= offset
    ensures var r := VfsWrite(fs, i, offset, data);
            r.fs.inodes[i].blocks[k] == 0 && r.fs.inodes[i].size == offset + r.code && r.fs.inodes[i].kind == TYPE_FILE
  {
    hide Inv, VfsWrite, KeepsUnwritten, Holds;
    VfsWriteAny(fs, i, offset, data);
  }

  /**
    Bytes written behind a slot without a block never come back by name: whatever the
    limit, the answer ends where that slot begins, although the file ends behind the bytes.
   */
  lemma UnreadableByName(fs: Fs, name: CString, offset: u32, data: seq<byte>, maxLen: int, k: nat)
    requires Inv(fs) && IsFile(fs, name) && fs.inodes[Root(fs)[name]].size <= offset
    requires k < offset / 512 && k < 14 && fs.inodes[Root(fs)[name]].blocks[k] == 0
    ensures var r := VfsWrite(fs, Root(fs)[name], offset, data);
            && IsFile(r.fs, name) && |FileOf(r.fs, name)| == Min(offset + r.code, 7168)
            && Read(r.fs, name, maxLen).Bytes? && |Read(r.fs, name, maxLen).bytes| <= 512 * k
  {
    hide Inv, BindingMap, VfsWrite, Contents, ReadFrom, Read;
    var i := Root(fs)[name];
    FindInRoot(fs, name);
    VfsWriteInv(fs, i, offset, data);
    SlotStaysOut(fs, i, offset, data, k);
    var r := VfsWrite(fs, i, offset, data);
    TreeAfterDataInv(fs, r.fs, i);
    assert TreeOf(r.fs)[0] == TreeOf(fs)[0];
    FindInRoot(r.fs, name);
    RootIsDir(r.fs);
    ContentsLength(r.fs.inodes[i], r.fs.disk);
    var n := r.fs.inodes[i];
    ReadIs(r.fs, name, maxLen, i);
    var total := Min(Signed(n.size), maxLen);
    ReadStopsAt(n, r.fs.disk, 0, if total < 0 then 0 else total, k);
  }

  lemma ContentsLength(n: Inode, d: Disk)
    ensures |Contents(n, d)| == Min(n.size, 7168)
  {
  }

  // ----- a run in which it happens -----

  /** A fresh volume has a free block. */
  lemma FormatLeavesFree(disk: Disk)
    ensures FirstClear(Format(disk).bitmap) != -1
  {
    hide MarkLow, SaveAll, PutBit;
    var base := FormatBase(disk, LBA_DATA_START);
    var e := EnsureCleared(base, 0, 0).fs;
    SaveAllSectors(e.(sb := e.sb.(freeInodes := 127)));
    var low := MarkLow(LBA_DATA_START);
    assert !Used(low, LBA_DATA_START);
    var b := FirstClear(low);
    UsedPut(low, b, true);
    assert base.bitmap == low && base.inodes[0].blocks[0] == 0;
    assert Format(disk).bitmap == PutBit(low, b, true);
    assert !Used(Format(disk).bitmap, LBA_DATA_START + 1) || !Used(Format(disk).bitmap, LBA_DATA_START);
  }

  /** On a fresh volume create `a`, and write one byte at 1024 into its inode. */
  ghost function HoleRun(disk: Disk, x: byte): Res {
    VfsWrite(Create(Format(disk), 0, NameA, false).fs, 1, 1024, [x])
  }

  /** The two sectors of the hole, both shown as `s`, and the byte behind them. */
  function Shown(s: seq<byte>, x: byte): seq<byte> {
    s + s + [x]
  }

  /**
    The write answers 1 and the file is 1025 bytes long; read by name it is empty,
    whatever the limit; read by position it shows the superblock twice and then the byte.
   */
  lemma HoleReadsTwoWays(disk: Disk, x: byte, maxLen: int)
    ensures var r := HoleRun(disk, x);
            && Create(Format(disk), 0, NameA, false).code == 1 && r.code == 1
            && Root(r.fs) == map[NameA := 1] && NameA in Files(r.fs) && |Files(r.fs)[NameA]| == 1025
            && Read(r.fs, NameA, maxLen) == Bytes([])
            && VfsRead(r.fs, 1, 0, 1025) == Shown(r.fs.disk[LBA_SUPERBLOCK], x)
  {
    hide Inv, Create, Format, BindingMap, VfsWrite, Contents, Read, VfsRead, NoneFree, Files, FileOf, ByteAt;
    var fs := Format(disk);
    FreshVolume(disk);
    FormatLeavesFree(disk);
    CreateInFirstBlock(fs, NameA);
    RootIsDir(fs);
    FirstInodeTaken(fs, NameA);
    var c := Create(fs, 0, NameA, false);
    FirstByteIff(c.fs, 1, 1024, [x]);
    HoleWrite(c.fs, 1, x);
    UnreadableByName(c.fs, NameA, 1024, [x], maxLen, 0);
    TreeAfterHole(c.fs, 1, [x]);
    InFiles(HoleRun(disk, x).fs, NameA);
  }

  lemma TreeAfterHole(fs: Fs, i: nat, data: seq<byte>)
    requires Inv(fs) && i < 128 && fs.inodes[i].kind == TYPE_FILE
    ensures Root(VfsWrite(fs, i, 1024, data).fs) == Root(fs)
  {
    hide Inv, VfsWrite, BindingMap;
    VfsWriteInv(fs, i, 1024, data);
    TreeAfterDataInv(fs, VfsWrite(fs, i, 1024, data).fs, i);
    assert TreeOf(VfsWrite(fs, i, 1024, data).fs)[0] == TreeOf(fs)[0];
  }

  lemma HoleWrite(fs: Fs, i: nat, x: byte)
    requires Inv(fs) && i < 128 && fs.inodes[i] == Inode(TYPE_FILE, 0, NoBlocks())
    requires VfsWrite(fs, i, 1024, [x]).code > 0
    ensures var r := VfsWrite(fs, i, 1024, [x]);
            r.code == 1 && VfsRead(r.fs, i, 0, 1025) == Shown(r.fs.disk[0], x)
  {
    hide Inv, VfsWrite, Contents, VfsRead, KeepsUnwritten;
    VfsWriteAny(fs, i, 1024, [x]);
    var r := VfsWrite(fs, i, 1024, [x]);
    var n := r.fs.inodes[i];
    assert !Reaches(1024, 1, 0) && !Reaches(1024, 1, 1);
    assert n.blocks[0] == 0 && n.blocks[1] == 0 && n.size == 1025;
    assert [x][..1] == [x];
    VfsReadInRange(r.fs, i, 0, 1025);
    ThreeParts(n, r.fs.disk, x);
  }

  lemma ThreeParts(n: Inode, d: Disk, x: byte)
    requires n.size == 1025 && n.blocks[0] == 0 && n.blocks[1] == 0 && Holds(n, d, 1024, [x])
    ensures Contents(n, d)[0 .. 1025] == Shown(d[0], x) && |Contents(n, d)| == 1025
  {
    var c, e := Contents(n, d), Shown(d[0], x);
    ContentsLength(n, d);
    assert ByteAt(n, d, 1024) == [x][0];
    forall p | 0 <= p < 1025
      ensures c[p] == e[p]
    {
      ContentsAt(n, d, p);
    }
    assert c == e;
  }
}
