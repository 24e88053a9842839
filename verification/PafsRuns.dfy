/**
  Runs of the file system: any sequence of operations from a format on.  Block
  ownership, write-through and the shape of directories hold in every state of
  every run; name uniqueness needs names that fit an entry; that each live inode
  is named exactly once needs deletions that are exact.
 */
module PafsRuns {
  import opened Words
  import opened Bitmaps
  import opened PafsLayout
  import opened PafsState
  import opened PafsInv
  import opened PafsDirs
  import opened PafsOps
  import opened PafsFiles
  import opened PafsMount

  // ----- pafs_format -----

  lemma {:induction false} ZeroBit(k: nat)
    ensures !WordBit(0, k)
  {
    if k > 0 {
      ZeroBit(k - 1);
    }
  }

  lemma ZeroSectorClear()
    ensures forall i :: 0 <= i < 4096 ==> !TestBit(ZeroSector, i)
  {
    forall i | 0 <= i < 4096
      ensures !TestBit(ZeroSector, i)
    {
      ZeroBit(i % 8);
    }
  }

  /** A bitmap in which the bits `0 .. n` are set. */
  function MarkLow(n: nat): (bm: Sector)
    requires n <= 4096
    ensures forall i :: Used(bm, i) <==> 0 <= i < n
  {
    if n == 0 then
      ZeroSectorClear();
      ZeroSector
    else
      UsedPut(MarkLow(n - 1), n - 1, true);
      PutBit(MarkLow(n - 1), n - 1, true)
  }

  lemma {:induction false} MarkLowCount(n: nat)
    requires n <= 4096
    ensures Count(MarkLow(n), 4096, false) == 4096 - n
  {
    if n == 0 {
      ZeroSectorClear();
      AllClear(ZeroSector, 4096);
    } else {
      MarkLowCount(n - 1);
      assert !Used(MarkLow(n - 1), n - 1);
      CountPut(MarkLow(n - 1), n - 1, true, 4096);
    }
  }

  lemma {:induction false} AllClear(bm: Sector, n: nat)
    requires n <= 4096 && forall i :: 0 <= i < n ==> !TestBit(bm, i)
    ensures Count(bm, n, false) == n
  {
    if n > 0 {
      AllClear(bm, n - 1);
    }
  }

  const RootInode: Inode := Inode(TYPE_DIR, 0, NoBlocks())

  /** The state of a format before the root directory is given its first block. */
  function FormatBase(disk: Disk, marked: nat): Fs
    requires marked <= 4096
  {
    Fs(Superblock(MAGIC, 4096, 128, 4096 - marked, 128, 0), FreeInodes()[0 := RootInode], MarkLow(marked), disk)
  }

  /** `save_metadata` */
  function SaveAll(fs: Fs): Fs {
    fs.(disk := [EncodeSuperblock(fs.sb)] + seq(16, s requires 0 <= s < 16 => EncodeInodeSector(fs.inodes, s))
                + [fs.bitmap] + fs.disk[LBA_DATA_START..])
  }

  /** `pafs_format` */
  ghost function Format(disk: Disk): Fs {
    var e := EnsureCleared(FormatBase(disk, LBA_DATA_START), 0, 0).fs;
    SaveAll(e.(sb := e.sb.(freeInodes := 127)))
  }

  const AllMetadata: set<int> := set l | 0 <= l < 18

  lemma SaveAllCore(fs: Fs, dirty: set<int>)
    requires Core(fs, dirty)
    ensures Core(SaveAll(fs), {})
    ensures forall l :: LBA_DATA_START <= l < 4096 ==> SaveAll(fs).disk[l] == fs.disk[l]
  {
    hide Own, FreeClean, EncodeInodeSector, EncodeSuperblock, SuperblockSynced, SaveAll;
    var r := SaveAll(fs);
    SaveAllSectors(fs);
    SuperblockSaved(r);
  }

  /** What `save_metadata` leaves in each sector. */
  lemma SaveAllSectors(fs: Fs)
    ensures var r := SaveAll(fs);
            && r == fs.(disk := r.disk)
            && r.disk[LBA_SUPERBLOCK] == EncodeSuperblock(fs.sb) && r.disk[LBA_BITMAP] == fs.bitmap
            && (forall s :: 0 <= s < 16 ==> InodesSynced(r, s))
            && (forall l :: LBA_DATA_START <= l < 4096 ==> r.disk[l] == fs.disk[l])
  {
    hide EncodeInodeSector, EncodeSuperblock;
    var r := SaveAll(fs);
    var table := seq(16, s requires 0 <= s < 16 => EncodeInodeSector(fs.inodes, s));
    SectorParts([EncodeSuperblock(fs.sb)], table, [fs.bitmap], fs.disk);
    forall s | 0 <= s < 16
      ensures InodesSynced(r, s)
    {
      assert r.disk[1 + s] == table[s];
    }
  }

  lemma SectorParts(a: seq<Sector>, b: seq<Sector>, c: seq<Sector>, d: Disk)
    requires |a| == 1 && |b| == 16 && |c| == 1
    ensures var all := a + b + c + d[18..];
            && |all| == 4096 && all[0] == a[0] && all[17] == c[0]
            && (forall s :: 0 <= s < 16 ==> all[1 + s] == b[s])
            && (forall l :: 18 <= l < 4096 ==> all[l] == d[l])
  {
  }

  lemma FormatBaseCore(disk: Disk)
    ensures Core(FormatBase(disk, LBA_DATA_START), AllMetadata)
  {
    var fs := FormatBase(disk, LBA_DATA_START);
    MarkLowCount(LBA_DATA_START);
    assert forall i :: 0 <= i < 128 ==> fs.inodes[i].blocks == NoBlocks();
    assert Own(fs.inodes, fs.bitmap);
    assert 0 in AllMetadata && LBA_BITMAP in AllMetadata;
    assert forall s :: 0 <= s < 16 && LBA_INODES_START + s !in AllMetadata ==> InodesSynced(fs, s);
  }

  lemma FreshRoot(n: Inode, d: Disk, b: u32)
    requires n == RootInode.(blocks := NoBlocks()[0 := b]) && 0 < b < 4096 && d[b] == ZeroSector
    ensures DirOk(n, d) && Entries(n, d) == []
  {
    ZeroSectorEntries();
    assert EntryCount(n) == 0;
    forall s {:trigger Slot(n, d, s)} | 0 <= s < 224 && n.blocks[s / 16] != 0
      ensures Slot(n, d, s).inode == 0
    {
      assert s / 16 == 0;
      assert Slot(n, d, s) == EntryAt(ZeroSector, s % 16);
    }
  }

  /** The root directory gets its first block, cleared. */
  lemma RootBlock(base: Fs, dirty: set<int>) returns (e: Fs, b: u32)
    requires Core(base, dirty) && 1 in dirty && base.inodes[0] == RootInode && FirstClear(base.bitmap) != -1
    ensures e == EnsureCleared(base, 0, 0).fs
    ensures Core(e, dirty) && LBA_DATA_START <= b < 4096 && e.disk[b] == ZeroSector
    ensures e.inodes == base.inodes[0 := RootInode.(blocks := NoBlocks()[0 := b])]
    ensures e.sb == base.sb.(freeBlocks := e.sb.freeBlocks)
  {
    hide Own, Synced, FreeClean;
    EnsureCore(base, 0, 0, dirty);
    assert dirty + {1} == dirty;
    var r := Ensure(base, 0, 0);
    b := r.code;
    CoreSector(r.fs, b, ZeroSector, dirty);
    e := EnsureCleared(base, 0, 0).fs;
  }

  lemma FormatSteps(disk: Disk) returns (e: Fs, b: u32)
    ensures e == EnsureCleared(FormatBase(disk, LBA_DATA_START), 0, 0).fs
    ensures Core(e, AllMetadata) && LBA_DATA_START <= b < 4096 && e.disk[b] == ZeroSector
    ensures e.inodes == FreeInodes()[0 := RootInode.(blocks := NoBlocks()[0 := b])]
    ensures e.sb.magic == MAGIC && e.sb.freeInodes == 128
  {
    hide Core, MarkLow, EnsureCleared;
    var base := FormatBase(disk, LBA_DATA_START);
    FormatBaseCore(disk);
    assert !Used(base.bitmap, LBA_DATA_START);
    e, b := RootBlock(base, AllMetadata);
  }

  /** A freshly formatted volume satisfies the invariant and is empty. */
  lemma FormatInv(disk: Disk)
    ensures var fs := Format(disk);
            && Inv(fs) && fs.sb == Superblock(MAGIC, 4096, 128, 4077, 127, 0) && fs.inodes[0].blocks[0] != 0
            && (forall d :: 0 <= d < 128 ==> DirEntries(fs, d) == [])
            && (forall i :: 0 < i < 128 ==> fs.inodes[i] == FreeInode)
  {
    hide Own, MarkLow, EnsureCleared, Core, SaveAll, DirOk, Entries;
    var e, b := FormatSteps(disk);
    var e1 := e.(sb := e.sb.(freeInodes := 127));
    FormatCounted(e);
    SaveAllCore(e1, AllMetadata);
    SaveAllSectors(e1);
    var fs := Format(disk);
    assert fs.disk[b] == ZeroSector;
    FreshRoot(e.inodes[0], fs.disk, b);
    assert forall i :: 0 < i < 128 ==> fs.inodes[i] == FreeInode;
    FormatCounts(disk);
  }

  /** The counts of a fresh volume: 19 sectors are in use. */
  lemma FormatCounts(disk: Disk)
    ensures Format(disk).sb == Superblock(MAGIC, 4096, 128, 4077, 127, 0)
  {
    hide MarkLow, PutBit, EncodeSuperblock, EncodeInodeSector;
    var base := FormatBase(disk, LBA_DATA_START);
    assert !Used(base.bitmap, LBA_DATA_START);
    assert base.inodes[0].blocks[0] == 0;
    WrapSmall(4078 - 1);
  }

  lemma FormatCounted(e: Fs)
    requires Core(e, AllMetadata)
    ensures Core(e.(sb := e.sb.(freeInodes := 127)), AllMetadata)
  {
    hide Own;
    assert LBA_SUPERBLOCK in AllMetadata;
    InodesStaySynced(e, e.(sb := e.sb.(freeInodes := 127)), AllMetadata);
  }

  // ----- operations -----

  type Ino = i: nat | i < 128

  datatype Op =
    | OpFormat
    | OpCreate(parent: Ino, name: CString, isDir: bool)
    | OpWrite(name: CString, data: seq<byte>)
    | OpVfsWrite(ino: Ino, offset: u32, data: seq<byte>)
    | OpDelete(parent: Ino, name: CString)
    | OpRemount

  /** The state after the metadata has been loaded anew; a disk without a file system is no state of a volume. */
  function Remount(fs: Fs): Fs {
    match Mount(fs.disk)
    case MountedFs(m) => m
    case NoFileSystem => fs
  }

  ghost function Step(fs: Fs, op: Op): Fs {
    match op
    case OpFormat => Format(fs.disk)
    case OpCreate(p, name, isDir) => Create(fs, p, name, isDir).fs
    case OpWrite(name, data) => Write(fs, name, data).fs
    case OpVfsWrite(i, offset, data) => VfsWrite(fs, i, offset, data).fs
    case OpDelete(p, name) => Delete(fs, p, name).fs
    case OpRemount => Remount(fs)
  }

  ghost function Run(fs: Fs, ops: seq<Op>): Fs
    decreases |ops|
  {
    if ops == [] then fs else Run(Step(fs, ops[0]), ops[1..])
  }

  /** `pafs_write`, case by case: a lookup, perhaps a create, then an overwrite of one inode. */
  lemma WriteCases(fs: Fs, name: CString, data: seq<byte>)
    requires Inv(fs)
    ensures RootOf(fs) == 0
    ensures var found := Find(fs, 0, name);
            && (found != -1 ==> 0 < found < 128 && Write(fs, name, data) == WriteInode(fs, found, data))
            && (found == -1 ==>
                  var c := Create(fs, 0, name, false);
                  && (c.code == -1 ==> Write(fs, name, data) == Res(fs, -1))
                  && (c.code != -1 ==>
                        && 0 < c.code < 128 && Inv(c.fs) && c.fs.inodes[c.code].kind == TYPE_FILE
                        && Write(fs, name, data) == WriteInode(c.fs, c.code, data)))
  {
    hide Create, WriteInode, Own, Synced, FreeClean, DirOk, Find;
    FindIsSearch(fs, 0, name);
    CreateEffect(fs, 0, name, false);
  }

  /** Every operation keeps the invariant. */
  lemma StepInv(fs: Fs, op: Op)
    requires Inv(fs)
    ensures Inv(Step(fs, op))
  {
    hide Inv, Create, WriteInode, VfsWrite, Delete, Format, Write, Mount;
    match op
    case OpFormat => FormatInv(fs.disk);
    case OpCreate(p, name, isDir) => CreateEffect(fs, p, name, isDir);
    case OpWrite(name, data) =>
      WriteCases(fs, name, data);
      var found := Find(fs, 0, name);
      if found != -1 {
        WriteInodeInv(fs, found, data);
      } else {
        var c := Create(fs, 0, name, false);
        if c.code != -1 {
          WriteInodeInv(c.fs, c.code, data);
        }
      }
    case OpVfsWrite(i, offset, data) => VfsWriteInv(fs, i, offset, data);
    case OpDelete(p, name) => DeleteEffect(fs, p, name);
    case OpRemount => RemountIsSame(fs);
  }

  /**
    In every state reachable from a format, by any operations on any names: exact
    block ownership, write-through, and well-formed directories.
   */
  lemma {:induction false} RunInv(fs: Fs, ops: seq<Op>)
    requires Inv(fs)
    ensures Inv(Run(fs, ops))
    decreases |ops|
  {
    hide Inv, Step;
    if ops != [] {
      StepInv(fs, ops[0]);
      RunInv(Step(fs, ops[0]), ops[1..]);
    }
  }

  lemma ReachableInv(disk: Disk, ops: seq<Op>)
    ensures Inv(Run(Format(disk), ops))
  {
    hide Inv, Run, Format;
    FormatInv(disk);
    RunInv(Format(disk), ops);
  }
}
