/**
  Runs on a fresh volume in which the failing side of a condition occurs: an interrupted deletion
  and an interrupted creation with inodes in two sectors, and a read whose end wraps.
 */
module PafsFailures {
  import opened Words
  import opened PafsLayout
  import opened PafsState
  import opened PafsInv
  import opened PafsDirs
  import opened PafsOps
  import opened PafsFiles
  import opened PafsReads
  import opened PafsTree
  import opened PafsRuns
  import opened PafsRoom
  import opened PafsGood
  import opened PafsMap
  import opened PafsNames
  import opened PafsHoles
  import opened PafsLength
  import opened PafsCrash
  import opened PafsMidway

  /** The name of the file that takes inode `i`. */
  function Name(i: nat): CString
    requires 0 < i < 256
  {
    [i as byte]
  }

  /** A format and then `n` files, with the names 1, 2 and so on. */
  ghost function MakeFiles(disk: Disk, n: nat): Fs
    requires n < 256
  {
    if n == 0 then Format(disk) else Create(MakeFiles(disk, n - 1), 0, Name(n), false).fs
  }

  /** The first `n` inodes behind the root are empty files, the others are free. */
  ghost predicate FilesMade(disk: Disk, fs: Fs, n: nat) {
    && Inv(fs) && |DirEntries(fs, 0)| == n && fs.sb.freeInodes == 127 - n && fs.inodes[0].blocks[0] != 0
    && fs.inodes[0].kind == TYPE_DIR && fs.bitmap == Format(disk).bitmap
    && (forall i :: 0 < i <= n && i < 128 ==> fs.inodes[i] == Inode(TYPE_FILE, 0, NoBlocks()))
    && (forall i :: n < i < 128 ==> fs.inodes[i].kind == TYPE_FREE)
    && (forall m: CString :: m in Root(fs) <==> exists i :: 0 < i <= n && i < 256 && m == Name(i))
    && (forall i :: 0 < i <= n && i < 256 ==> Name(i) in Root(fs) && Root(fs)[Name(i)] == i)
  }

  lemma NameOnce(i: nat, j: nat)
    requires 0 < i < 256 && 0 < j < 256
    ensures Name(i) == Name(j) <==> i == j
    ensures |Name(i)| <= 27 && Kept(Name(i)) == Name(i)
  {
    assert Name(i)[0] == i as byte && Name(j)[0] == j as byte;
  }

  lemma NoneMade(disk: Disk)
    ensures FilesMade(disk, Format(disk), 0)
  {
    hide Inv, Format, Root;
    FreshVolume(disk);
    FormatInv(disk);
    RootIsDir(Format(disk));
  }

  lemma OneMore(disk: Disk, fs: Fs, n: nat)
    requires 0 < n <= 14 && FilesMade(disk, fs, n - 1)
    ensures Create(fs, 0, Name(n), false).code == n
    ensures FilesMade(disk, Create(fs, 0, Name(n), false).fs, n)
  {
    hide Inv, Create, Root, Format, NoneFree, DirEntries, SameData, Name;
    NameOnce(n, n);
    assert Name(n) !in Root(fs) by {
      if Name(n) in Root(fs) {
        var i :| 0 < i <= n - 1 && i < 256 && Name(n) == Name(i);
        NameOnce(n, i);
        assert false;
      }
    }
    assert !NoneFree(fs.inodes) by { SomeIsFree(fs, n); }
    CreateInFirstBlock(fs, Name(n));
    CreateTakesFirst(fs, 0, Name(n), false);
    CreateEffect(fs, 0, Name(n), false);
    var r := Create(fs, 0, Name(n), false);
    assert r.code == n;
    RootIsDir(r.fs);
    forall i | 0 < i <= n && i < 128
      ensures r.fs.inodes[i] == Inode(TYPE_FILE, 0, NoBlocks())
    {
      if i < n {
        assert r.fs.inodes[i] == fs.inodes[i];
      }
    }
    forall m: CString
      ensures m in Root(r.fs) <==> exists i :: 0 < i <= n && i < 256 && m == Name(i)
    {
      if m != Name(n) && m in Root(fs) {
        var i :| 0 < i <= n - 1 && i < 256 && m == Name(i);
        assert 0 < i <= n && i < 256 && m == Name(i);
      }
    }
    forall i | 0 < i <= n && i < 256
      ensures Name(i) in Root(r.fs) && Root(r.fs)[Name(i)] == i
    {
      NameOnce(i, n);
    }
  }

  lemma SomeIsFree(fs: Fs, n: nat)
    requires n < 128 && fs.inodes[n].kind == TYPE_FREE
    ensures !NoneFree(fs.inodes)
  {
  }

  lemma {:induction false} AllMade(disk: Disk, n: nat)
    requires n <= 14
    ensures FilesMade(disk, MakeFiles(disk, n), n)
  {
    hide FilesMade, Create, Format;
    if n == 0 {
      NoneMade(disk);
    } else {
      AllMade(disk, n - 1);
      OneMore(disk, MakeFiles(disk, n - 1), n);
    }
  }

  /** Then a write of a few bytes to file `n`. */
  ghost function WriteTo(disk: Disk, n: nat, data: seq<byte>): Fs
    requires 0 < n < 256
  {
    Write(MakeFiles(disk, n), Name(n), data).fs
  }

  lemma WrittenTo(disk: Disk, n: nat, data: seq<byte>)
    requires 0 < n <= 14 && 0 < |data| <= 512
    ensures var fs := WriteTo(disk, n, data);
            && Inv(fs) && Find(fs, 0, Name(n)) == n && fs.inodes[n].kind == TYPE_FILE
            && fs.inodes[n].blocks[0] != 0 && fs.inodes[n].size == |data|
            && DirEntries(fs, 0) == DirEntries(MakeFiles(disk, n), 0)
  {
    hide Inv, Create, Write, WriteInode, Root, Format, NoneFree, DirEntries, SameData, Name, MakeFiles, Fits, Contents, OthersSame;
    AllMade(disk, n);
    var fs := MakeFiles(disk, n);
    NameOnce(n, n);
    FindInRoot(fs, Name(n));
    WriteCases(fs, Name(n), data);
    OverwriteRefines(fs, n, data);
    WriteInodeInv(fs, n, data);
    TreeAfterDataInv(fs, WriteInode(fs, n, data).fs, n);
    FormatLeavesFree(disk);
    SpaceLeft(fs, n, data);
    var r := WriteInode(fs, n, data);
    FindInRoot(r.fs, Name(n));
    assert DirEntries(r.fs, 0) == TreeOf(r.fs)[0] == TreeOf(fs)[0] == DirEntries(fs, 0);
    SizeAndBlock(r.fs.inodes[n], r.fs.disk, data);
  }

  lemma SpaceLeft(fs: Fs, i: nat, data: seq<byte>)
    requires Inv(fs) && i < 128 && fs.inodes[i].kind == TYPE_FILE && fs.inodes[i].blocks == NoBlocks()
    requires FirstClear(fs.bitmap) != -1 && |data| <= 512
    ensures WriteInode(fs, i, data).code == |data|
  {
    hide Inv, WriteInode;
    WriteInodeLength(fs, i, data);
    InvCore(fs, {});
    NoneFreeIff(fs, {});
    RoomNew(fs.inodes[i], fs.sb.freeBlocks, 0);
  }

  lemma SizeAndBlock(n: Inode, d: Disk, data: seq<byte>)
    requires Dense(n) && Contents(n, d) == data[..|data|] && 0 < |data| <= 512
    ensures n.size == |data| && n.blocks[0] != 0
  {
  }

  /**
    Deleting a file whose inode lies in another sector than the root's: between the saves of the
    bitmap and of the inode a mount finds a block in use marked free.
   */
  lemma DeleteMarksFree(disk: Disk, x: byte)
    ensures var fs := WriteTo(disk, 8, [x]);
            && FindSlot(fs.inodes[0], fs.disk, Name(8), 0) != -1
            && var writes := DeleteWrites(fs, 0, Name(8), 8);
            && |writes| >= 5 && writes[|writes| - 1] == Delete(fs, 0, Name(8)).fs
            && !SafeOnDisk(writes[|writes| - 2].disk)
  {
    hide Inv, Delete, DeleteWrites, SafeOnDisk, ExactOnDisk, WriteTo, Find, FindSlot, Name, DirEntries;
    WrittenTo(disk, 8, [x]);
    var fs := WriteTo(disk, 8, [x]);
    assert Deletes(fs, 0, Name(8), 8);
    DeleteCrashIff(fs, 0, Name(8), 8, 0);
    var writes := DeleteWrites(fs, 0, Name(8), 8);
    DeleteCrashIff(fs, 0, Name(8), 8, |writes| - 2);
    assert fs.inodes[8].blocks[0] != NoBlocks()[0];
  }

  /** Deleting a file in the root's sector: once the directory's inode is saved, and until the bitmap is, its block is lost. */
  lemma DeleteLosesBlock(disk: Disk, x: byte)
    ensures var fs := WriteTo(disk, 1, [x]);
            && FindSlot(fs.inodes[0], fs.disk, Name(1), 0) != -1
            && var writes := DeleteWrites(fs, 0, Name(1), 1);
            && |writes| >= 5
            && !ExactOnDisk(writes[|writes| - 4].disk) && !ExactOnDisk(writes[|writes| - 3].disk)
            && SafeOnDisk(writes[|writes| - 4].disk)
  {
    hide Inv, Delete, DeleteWrites, SafeOnDisk, ExactOnDisk, WriteTo, Find, FindSlot, Name, DirEntries;
    WrittenTo(disk, 1, [x]);
    var fs := WriteTo(disk, 1, [x]);
    assert Deletes(fs, 0, Name(1), 1);
    DeleteCrashIff(fs, 0, Name(1), 1, 0);
    var writes := DeleteWrites(fs, 0, Name(1), 1);
    DeleteCrashIff(fs, 0, Name(1), 1, |writes| - 4);
    DeleteCrashIff(fs, 0, Name(1), 1, |writes| - 3);
    assert fs.inodes[1].blocks[0] != NoBlocks()[0];
  }

  /** Creating the eighth file: between the last two writes a mount finds its name bound to a free inode. */
  lemma NameOfFreeInode(disk: Disk)
    ensures var fs := MakeFiles(disk, 7);
            && FirstFree(fs.inodes) == 8 && EntryCount(fs.inodes[0]) < 224
            && var writes := CreateWrites(fs, 0, Name(8), false);
            && |writes| == 3 && writes[2] == MakeFiles(disk, 8)
            && Found(writes[1].disk, true, 0, DirEntries(fs, 0) + [Binding(8, Name(8))], 8, true)
  {
    hide Inv, Create, CreateWrites, FilesMade, Found, DirEntries, Name, Kept, NeedsBlock;
    AllMade(disk, 7);
    var fs := MakeFiles(disk, 7);
    OneMore(disk, fs, 8);
    MadeRoot(disk, fs);
    NameOnce(8, 8);
    CreateTakesFirst(fs, 0, Name(8), false);
    CreateCrashIff(fs, 0, Name(8), false, 1);
  }

  lemma MadeRoot(disk: Disk, fs: Fs)
    requires FilesMade(disk, fs, 7)
    ensures Inv(fs) && !NeedsBlock(fs.inodes[0])
  {
    hide Inv, Root, Format;
    EntryBlockZero(fs);
  }

  /** A file of two bytes, read from the second on with the largest size: 7167 bytes come back. */
  lemma ReadRunsOn(disk: Disk, x: byte, y: byte)
    ensures var fs := WriteTo(disk, 1, [x, y]);
            fs.inodes[1].size == 2 && |VfsRead(fs, 1, 1, 0xFFFF_FFFF)| == 7167
  {
    hide Inv, WriteTo, VfsRead, Find, Name, DirEntries, Contents;
    WrittenTo(disk, 1, [x, y]);
    VfsReadWrapped(WriteTo(disk, 1, [x, y]), 1, 1, 0xFFFF_FFFF);
  }
}
