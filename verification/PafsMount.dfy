/**
  Mounting: loading the metadata a volume keeps on its disk.
 */
module PafsMount {
  import opened Words
  import opened PafsLayout
  import opened PafsState
  import opened PafsInv

  datatype Mounted = NoFileSystem | MountedFs(fs: Fs)

  /** The branch of `pafs_init` that finds a file system on a disk and loads its metadata. */
  function Mount(disk: Disk): Mounted {
    var sb := DecodeSuperblock(disk[LBA_SUPERBLOCK]);
    if sb.magic != MAGIC then NoFileSystem
    else
      MountedFs(Fs(sb,
                   seq(128, i requires 0 <= i < 128 => DecodeInode(disk[LBA_INODES_START + i / 8], i % 8)),
                   disk[LBA_BITMAP], disk))
  }

  /** A disk is taken for a volume exactly when its first word is the magic number; then nothing on it changes. */
  lemma MountIff(disk: Disk)
    ensures Mount(disk).MountedFs? <==> WordAt(disk[LBA_SUPERBLOCK], 0) == MAGIC
    ensures Mount(disk).MountedFs? ==> Mount(disk).fs.disk == disk && Mount(disk).fs.bitmap == disk[LBA_BITMAP]
  {
  }

  /** An empty disk is none. */
  lemma EmptyDiskHasNoVolume(disk: Disk)
    requires disk[LBA_SUPERBLOCK] == ZeroSector
    ensures Mount(disk) == NoFileSystem
  {
    MountIff(disk);
    assert ZeroSector[0] == 0 && ZeroSector[1] == 0 && ZeroSector[2] == 0 && ZeroSector[3] == 0;
  }

  lemma InodesReload(fs: Fs, i: nat)
    requires Synced(fs, {}) && i < 128
    ensures DecodeInode(fs.disk[LBA_INODES_START + i / 8], i % 8) == fs.inodes[i]
  {
    hide DecodeInode, EncodeInodeSector, SuperblockSynced;
    assert InodesSynced(fs, i / 8);
    InodeSectorRoundTrip(fs.inodes, i / 8, i % 8);
  }

  /** The free-inode count in the superblock sector. */
  function CountOnDisk(fs: Fs): u32 {
    DecodeSuperblock(fs.disk[LBA_SUPERBLOCK]).freeInodes
  }

  /**
    Loading the disk of a volume gives back the volume itself: the same inodes,
    bitmap, data and free-block count.  Only the free-inode count is the one on disk,
    which is never too low.
   */
  lemma RemountIsSame(fs: Fs)
    requires Inv(fs)
    ensures var m := Mount(fs.disk);
            && m.MountedFs?
            && m.fs == fs.(sb := fs.sb.(freeInodes := CountOnDisk(fs)))
            && CountOnDisk(fs) >= fs.sb.freeInodes
            && Inv(m.fs)
  {
    hide Own, DirOk, DecodeSuperblock, DecodeInode, EncodeInodeSector;
    var m := Mount(fs.disk);
    forall i | 0 <= i < 128
      ensures DecodeInode(fs.disk[LBA_INODES_START + i / 8], i % 8) == fs.inodes[i]
    {
      InodesReload(fs, i);
    }
    assert m.fs.inodes == fs.inodes;
    assert SuperblockSynced(fs);
    InodesStaySynced(fs, m.fs, {});
  }
}
