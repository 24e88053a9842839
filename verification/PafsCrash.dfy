/**
  Remounting between two sector writes: after which of them the block ownership found on
  the disk is exact, when a file is deleted.
 */
module PafsCrash {
  import opened Words
  import opened PafsLayout
  import opened PafsState
  import opened PafsInv
  import opened PafsDirs
  import opened PafsOps
  import opened PafsMount

  /** The metadata found when mounting the disk marks a block used exactly when one slot holds it. */
  ghost predicate ExactOnDisk(d: Disk) {
    Mount(d).MountedFs? && Own(Mount(d).fs.inodes, Mount(d).fs.bitmap)
  }

  /** At least no block that a slot holds is marked free, and none is held twice: nothing can be overwritten. */
  ghost predicate SafeOnDisk(d: Disk) {
    Mount(d).MountedFs? && Safe(Mount(d).fs.inodes, Mount(d).fs.bitmap)
  }

  ghost predicate Safe(t: InodeTable, bm: Sector) {
    BlocksUsed(t, bm) && BlocksDistinct(t)
  }

  /** The disk holds this inode table and this bitmap. */
  ghost predicate DiskHolds(d: Disk, t: InodeTable, bm: Sector) {
    && DecodeSuperblock(d[LBA_SUPERBLOCK]).magic == MAGIC && d[LBA_BITMAP] == bm
    && forall s :: 0 <= s < 16 ==> d[LBA_INODES_START + s] == EncodeInodeSector(t, s)
  }

  /** What mounting such a disk gives. */
  lemma MountIs(d: Disk, t: InodeTable, bm: Sector)
    requires DiskHolds(d, t, bm)
    ensures var m := Mount(d); m.MountedFs? && m.fs.inodes == t && m.fs.bitmap == bm && m.fs.disk == d
  {
    hide DecodeSuperblock, DecodeInode, EncodeInodeSector;
    var loaded := Mount(d).fs.inodes;
    forall i | 0 <= i < 128
      ensures loaded[i] == t[i]
    {
      assert d[LBA_INODES_START + i / 8] == EncodeInodeSector(t, i / 8);
      InodeSectorRoundTrip(t, i / 8, i % 8);
    }
    assert loaded == t;
  }

  lemma ExactIs(d: Disk, t: InodeTable, bm: Sector)
    requires DiskHolds(d, t, bm)
    ensures ExactOnDisk(d) <==> Own(t, bm)
    ensures SafeOnDisk(d) <==> Safe(t, bm)
  {
    hide Own, Safe, Mount;
    MountIs(d, t, bm);
  }

  lemma InvHolds(fs: Fs, d: Disk)
    requires Inv(fs) && forall l :: 0 <= l < LBA_DATA_START ==> d[l] == fs.disk[l]
    ensures DiskHolds(d, fs.inodes, fs.bitmap)
  {
    hide Own, DirOk, DecodeSuperblock, EncodeInodeSector;
    assert SuperblockSynced(fs);
    forall s | 0 <= s < 16
      ensures d[LBA_INODES_START + s] == EncodeInodeSector(fs.inodes, s)
    {
      assert InodesSynced(fs, s);
    }
  }

  // ----- two tables, with and without the blocks of one inode -----

  /** `t'` is `t` without the blocks of inode `i`. */
  ghost predicate Without(t: InodeTable, t': InodeTable, i: nat)
    requires i < 128
  {
    t'[i].blocks == NoBlocks() && forall j :: 0 <= j < 128 && j != i ==> t'[j].blocks == t[j].blocks
  }

  /** Each table goes with its own bitmap, and with the other's only if there was nothing to give back. */
  lemma MixedIff(t: InodeTable, bm: Sector, t': InodeTable, bm': Sector, i: nat)
    requires i < 128 && Own(t, bm) && Own(t', bm') && Without(t, t', i)
    ensures Own(t', bm) <==> t[i].blocks == NoBlocks()
    ensures Own(t, bm') <==> t[i].blocks == NoBlocks()
    ensures Safe(t', bm) && (Safe(t, bm') <==> t[i].blocks == NoBlocks())
  {
    assert forall j, l :: 0 <= j < 128 && 0 <= l < 14 && t'[j].blocks[l] != 0 ==> t[j].blocks[l] == t'[j].blocks[l];
    if t[i].blocks == NoBlocks() {
      OwnSame(t, t', bm);
      OwnSame(t', t, bm');
    } else {
      var k := HeldSlot(t[i].blocks);
      OnlyHolder(t, bm, t', i, k);
      var b := t[i].blocks[k];
      UsedIffHeld(t, bm, b);
      UsedIffHeld(t', bm', b);
      UsedIffHeld(t', bm, b);
      UsedIffHeld(t, bm', b);
      assert t[i].blocks[k] != 0 && !Used(bm', b);
    }
  }

  lemma HeldSlot(blocks: seq<u32>) returns (k: nat)
    requires |blocks| == 14 && blocks != NoBlocks()
    ensures k < 14 && blocks[k] != 0
  {
    assert exists k :: 0 <= k < 14 && blocks[k] != NoBlocks()[k];
    k :| 0 <= k < 14 && blocks[k] != NoBlocks()[k];
  }

  lemma OnlyHolder(t: InodeTable, bm: Sector, t': InodeTable, i: nat, k: nat)
    requires i < 128 && k < 14 && Own(t, bm) && Without(t, t', i) && t[i].blocks[k] != 0
    ensures Held(t, t[i].blocks[k]) && !Held(t', t[i].blocks[k])
    ensures LBA_DATA_START <= t[i].blocks[k] < 4096
  {
    var b := t[i].blocks[k];
    forall j, l | 0 <= j < 128 && 0 <= l < 14
      ensures t'[j].blocks[l] != b
    {
      if j != i {
        assert t'[j].blocks[l] == t[j].blocks[l];
      }
    }
  }

  lemma UsedIffHeld(t: InodeTable, bm: Sector, b: int)
    requires LBA_DATA_START <= b < 4096
    ensures Own(t, bm) ==> (Used(bm, b) <==> Held(t, b))
  {
  }

  // ----- pafs_delete -----

  /** A name that `pafs_delete` takes away, bound to inode `i`. */
  ghost predicate Deletes(fs: Fs, parent: nat, name: CString, i: nat)
    requires parent < 128
  {
    i < 128 && Find(fs, parent, name) == i && Deletable(fs, i)
  }

  /**
    The states of `pafs_delete` after each of its sector writes, in order: the last entry moved if
    another one is deleted, its old place cleared, the directory's inode, the superblock, the bitmap, inode `i`.
   */
  function DeleteWrites(fs: Fs, parent: nat, name: CString, i: nat): seq<Fs>
    requires parent < 128 && i < 128 && FindSlot(fs.inodes[parent], fs.disk, name, 0) != -1
  {
    var n, rel := fs.inodes[parent], Release(fs, i);
    var t, l := FindSlot(n, fs.disk, name, 0), EntryCount(n) - 1;
    var removed := RemoveEntry(rel, parent, name).fs;
    (if t == l then [] else [PutEntry(rel, n, t, Slot(n, fs.disk, l))])
    + [DropEntry(rel, n, t, l), removed, SaveSuperblock(removed), SaveBitmap(SaveSuperblock(removed)),
       SaveInode(SaveBitmap(SaveSuperblock(removed)), i)]
  }

  /** The inode table without inode `i`, and with one entry less in directory `parent`. */
  function TableAfter(t: InodeTable, parent: nat, i: nat): InodeTable
    requires parent < 128 && i < 128 && t[parent].size >= 32
  {
    t[i := FreeInode][parent := t[parent].(size := t[parent].size - 32)]
  }

  /** What the disk has of it once the directory's inode sector is written, but not that of inode `i`. */
  function TableBetween(t: InodeTable, parent: nat, i: nat): InodeTable
    requires parent < 128 && i < 128 && t[parent].size >= 32
  {
    if i / 8 == parent / 8 then TableAfter(t, parent, i) else t[parent := t[parent].(size := t[parent].size - 32)]
  }

  lemma BetweenEncoded(t: InodeTable, parent: nat, i: nat, s: nat)
    requires parent < 128 && i < 128 && i != parent && t[parent].size >= 32 && s < 16
    ensures EncodeInodeSector(TableBetween(t, parent, i), s)
            == EncodeInodeSector(if s == parent / 8 then TableAfter(t, parent, i) else t, s)
  {
    hide EncodeInodeSector;
    var n := t[parent].(size := t[parent].size - 32);
    if s != parent / 8 {
      EncodeOther(t[i := FreeInode], parent, n, s);
      EncodeOther(t, parent, n, s);
      if i / 8 == parent / 8 {
        EncodeOther(t, i, FreeInode, s);
      }
    } else if i / 8 != s {
      EncodeOther(t[parent := n], i, FreeInode, s);
      assert t[parent := n][i := FreeInode] == TableAfter(t, parent, i);
    }
  }

  /** What is known of a deletion that goes through. */
  lemma DeletionIs(fs: Fs, parent: nat, name: CString, i: nat)
    requires Inv(fs) && parent < 128 && Deletes(fs, parent, name, i)
    ensures 0 < i != parent && FindSlot(fs.inodes[parent], fs.disk, name, 0) != -1
    ensures fs.inodes[parent].kind == TYPE_DIR && fs.inodes[parent].size >= 32
    ensures Search(DirEntries(fs, parent), name, 0) != -1
    ensures var rel := Release(fs, i);
            && rel.disk == fs.disk && rel.inodes == fs.inodes[i := FreeInode]
            && Own(rel.inodes, rel.bitmap) && rel.sb.magic == MAGIC
  {
    hide Core, DirOk, Synced, Entries, FindSlot;
    FindIsSearch(fs, parent, name);
    DeleteCases(fs, parent, name);
    ReleaseEffect(fs, i);
    FindSlotIsSearch(fs.inodes[parent], fs.disk, name, 0);
    CoreOwn(Release(fs, i), {LBA_SUPERBLOCK, LBA_BITMAP, 1 + i / 8});
  }

  lemma CoreOwn(fs: Fs, dirty: set<int>)
    requires Core(fs, dirty)
    ensures Own(fs.inodes, fs.bitmap) && fs.sb.magic == MAGIC
  {
  }

  lemma EntryInData(fs: Fs, d: nat, s: nat)
    requires Inv(fs) && d < 128 && fs.inodes[d].kind == TYPE_DIR && s < EntryCount(fs.inodes[d])
    ensures BlockOf(fs.inodes[d], s / 16) >= LBA_DATA_START
  {
    EntryHasBlock(fs.inodes[d], fs.disk, s);
  }

  /** Moving and clearing entries writes data sectors only. */
  lemma EntriesWritten(fs: Fs, rel: Fs, d: nat, t: nat, l: nat)
    requires Inv(fs) && d < 128 && fs.inodes[d].kind == TYPE_DIR && t <= l < EntryCount(fs.inodes[d])
    requires rel.disk == fs.disk
    ensures var n := fs.inodes[d];
            && DiskHolds(PutEntry(rel, n, t, Slot(n, fs.disk, l)).disk, fs.inodes, fs.bitmap)
            && DiskHolds(DropEntry(rel, n, t, l).disk, fs.inodes, fs.bitmap)
            && DropEntry(rel, n, t, l) == rel.(disk := DropEntry(rel, n, t, l).disk)
  {
    hide Inv, SetEntry, DiskHolds;
    EntryInData(fs, d, t);
    EntryInData(fs, d, l);
    InvHolds(fs, PutEntry(rel, fs.inodes[d], t, Slot(fs.inodes[d], fs.disk, l)).disk);
    InvHolds(fs, DropEntry(rel, fs.inodes[d], t, l).disk);
  }

  /** After the directory's inode, after the superblock and after the bitmap. */
  lemma MetadataWritten(fs: Fs, dropped: Fs, bm: Sector, parent: nat, i: nat)
    requires parent < 128 && i < 128 && i != parent && fs.inodes[parent].size >= 32
    requires DiskHolds(dropped.disk, fs.inodes, bm) && dropped.sb.magic == MAGIC
    requires dropped.inodes == TableAfter(fs.inodes, parent, i)
    ensures var removed, between := SaveInode(dropped, parent), TableBetween(fs.inodes, parent, i);
            && DiskHolds(removed.disk, between, bm)
            && DiskHolds(SaveSuperblock(removed).disk, between, bm)
            && DiskHolds(SaveBitmap(SaveSuperblock(removed)).disk, between, dropped.bitmap)
  {
    hide EncodeInodeSector, TableAfter, TableBetween, DecodeSuperblock, EncodeSuperblock;
    var removed := SaveInode(dropped, parent);
    SuperblockRoundTrip(removed.sb);
    forall s | 0 <= s < 16
      ensures removed.disk[LBA_INODES_START + s] == EncodeInodeSector(TableBetween(fs.inodes, parent, i), s)
    {
      BetweenEncoded(fs.inodes, parent, i, s);
    }
  }

  /** Who owns what, by the table and the bitmap that are on the disk. */
  lemma OwnBetween(t: InodeTable, bm: Sector, bm': Sector, parent: nat, i: nat)
    requires parent < 128 && i < 128 && i != parent && t[parent].size >= 32
    requires Own(t, bm) && Own(t[i := FreeInode], bm')
    ensures Own(TableBetween(t, parent, i), bm) <==> t[i].blocks == NoBlocks() || i / 8 != parent / 8
    ensures Own(TableBetween(t, parent, i), bm') <==> t[i].blocks == NoBlocks() || i / 8 == parent / 8
    ensures Own(TableAfter(t, parent, i), bm')
    ensures Safe(TableBetween(t, parent, i), bm)
    ensures Safe(TableBetween(t, parent, i), bm') <==> t[i].blocks == NoBlocks() || i / 8 == parent / 8
  {
    hide Own, Safe;
    var after, between := TableAfter(t, parent, i), TableBetween(t, parent, i);
    OwnSame(t[i := FreeInode], after, bm');
    MixedIff(t, bm, after, bm', i);
    OwnSafe(t, bm);
    OwnSafe(after, bm');
    if i / 8 != parent / 8 {
      SafeSame(t, between, bm);
      SafeSame(t, between, bm');
      OwnSame(t, between, bm);
      if Own(t, bm') {
        OwnSame(t, between, bm');
      }
      if Own(between, bm') {
        OwnSame(between, t, bm');
      }
    }
  }

  /** Between operations both hold. */
  lemma InvExact(fs: Fs)
    requires Inv(fs)
    ensures ExactOnDisk(fs.disk) && SafeOnDisk(fs.disk)
  {
    hide Inv, Own, Safe, ExactOnDisk, SafeOnDisk;
    InvHolds(fs, fs.disk);
    ExactIs(fs.disk, fs.inodes, fs.bitmap);
    InvOwn(fs);
    OwnSafe(fs.inodes, fs.bitmap);
  }

  lemma OwnSafe(t: InodeTable, bm: Sector)
    requires Own(t, bm)
    ensures Safe(t, bm)
  {
  }

  lemma SafeSame(t: InodeTable, t': InodeTable, bm: Sector)
    requires forall i :: 0 <= i < 128 ==> t'[i].blocks == t[i].blocks
    ensures Safe(t, bm) <==> Safe(t', bm)
  {
  }

  /**
    `pafs_delete` interrupted: when the disk is mounted as it is after one of the writes, the ownership
    found is exact, except that for a file with blocks it is not after the bitmap is written if
    inode `i` and its directory lie in different sectors (blocks in use are marked free), and if they
    lie in the same one, not after the directory's inode and the superblock (blocks are lost).
   */
  lemma DeleteCrashIff(fs: Fs, parent: nat, name: CString, i: nat, q: nat)
    requires Inv(fs) && parent < 128 && Deletes(fs, parent, name, i)
    ensures FindSlot(fs.inodes[parent], fs.disk, name, 0) != -1
    ensures var writes := DeleteWrites(fs, parent, name, i);
            && 5 <= |writes| <= 6 && writes[|writes| - 1] == Delete(fs, parent, name).fs
            && (q < |writes| ==>
                  (ExactOnDisk(writes[q].disk) <==>
                     || fs.inodes[i].blocks == NoBlocks()
                     || (if q == |writes| - 2 then i / 8 == parent / 8
                         else if |writes| - 4 <= q < |writes| - 2 then i / 8 != parent / 8
                         else true))
                  && (SafeOnDisk(writes[q].disk) <==>
                        fs.inodes[i].blocks == NoBlocks() || q != |writes| - 2 || i / 8 == parent / 8))
  {
    hide Inv, Release, PutEntry, DropEntry, DiskHolds, ExactOnDisk, SafeOnDisk, Own, Safe, EncodeInodeSector, FindSlot, Slot;
    hide SaveSuperblock, SaveBitmap, Deletable, TableAfter, TableBetween;
    DeletionIs(fs, parent, name, i);
    var n, rel := fs.inodes[parent], Release(fs, i);
    var t, l := FindSlot(n, fs.disk, name, 0), EntryCount(n) - 1;
    EntriesWritten(fs, rel, parent, t, l);
    RemovalIs(fs, rel, parent, name, i);
    var dropped := WithInode(DropEntry(rel, n, t, l), parent, n.(size := n.size - 32));
    InvOwn(fs);
    OwnSafe(fs.inodes, fs.bitmap);
    OwnBetween(fs.inodes, fs.bitmap, rel.bitmap, parent, i);
    MetadataWritten(fs, dropped, fs.bitmap, parent, i);
    LastWrite(fs, parent, name, i);
    var writes := DeleteWrites(fs, parent, name, i);
    if q < |writes| {
      var between := TableBetween(fs.inodes, parent, i);
      if q == |writes| - 2 {
        ExactIs(writes[q].disk, between, rel.bitmap);
      } else if |writes| - 4 <= q < |writes| - 2 {
        ExactIs(writes[q].disk, between, fs.bitmap);
      } else if q < |writes| - 4 {
        ExactIs(writes[q].disk, fs.inodes, fs.bitmap);
      }
    }
  }

  lemma InvOwn(fs: Fs)
    requires Inv(fs)
    ensures Own(fs.inodes, fs.bitmap)
  {
  }

  /** `pafs_remove_entry` saves the directory's inode last. */
  lemma RemovalIs(fs: Fs, rel: Fs, parent: nat, name: CString, i: nat)
    requires parent < 128 && i < 128 && i != parent && fs.inodes[parent].size >= 32
    requires rel.disk == fs.disk && rel.inodes == fs.inodes[i := FreeInode]
    requires FindSlot(fs.inodes[parent], fs.disk, name, 0) != -1
    ensures var n := fs.inodes[parent];
            var dropped := WithInode(DropEntry(rel, n, FindSlot(n, fs.disk, name, 0), EntryCount(n) - 1), parent, n.(size := n.size - 32));
            && RemoveEntry(rel, parent, name).fs == SaveInode(dropped, parent)
            && dropped.inodes == TableAfter(fs.inodes, parent, i)
            && dropped.bitmap == rel.bitmap && dropped.sb == rel.sb
  {
    hide FindSlot, SaveInode, SetEntry;
    WrapSmall(fs.inodes[parent].size - 32);
  }

  lemma NamedInode(fs: Fs, parent: nat, name: CString, i: nat)
    requires Inv(fs) && parent < 128 && Find(fs, parent, name) == i
    ensures var t := Search(DirEntries(fs, parent), name, 0);
            t != -1 && DirEntries(fs, parent)[t].ino == i
  {
    FindIsSearch(fs, parent, name);
  }

  lemma LastWrite(fs: Fs, parent: nat, name: CString, i: nat)
    requires Inv(fs) && parent < 128 && Deletes(fs, parent, name, i)
    ensures var r := SaveInode(SaveBitmap(SaveSuperblock(RemoveEntry(Release(fs, i), parent, name).fs)), i);
            r == Delete(fs, parent, name).fs && ExactOnDisk(r.disk) && SafeOnDisk(r.disk)
  {
    hide Inv, RemoveEntry, Release, SaveSuperblock, SaveBitmap, SaveInode, DirEntries, Find, ExactOnDisk, SafeOnDisk, Own, Safe;
    NamedInode(fs, parent, name, i);
    DeleteCases(fs, parent, name);
    DeleteEffect(fs, parent, name);
    var r := Delete(fs, parent, name).fs;
    InvExact(r);
  }
}
