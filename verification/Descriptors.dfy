/**
  The read and write system calls: a table of 16 descriptors, each with its offset,
  on files of the volume.
 */
module Descriptors {
  import opened Words
  import opened PafsLayout
  import opened PafsState
  import opened PafsInv
  import opened PafsFiles
  import opened PafsReads
  import Pafs

  const MAX_FDS := 16

  class Files {
    const volume: Pafs.Volume
    const fdTable: array<int>
    const fdOffset: array<u32>
    var console: seq<byte>

    /** Entries of the table are inode numbers, or -1 when closed. */
    ghost predicate Valid()
      reads this, fdTable, volume
    {
      && fdTable.Length == MAX_FDS == fdOffset.Length
      && volume.Valid()
      && fdOffset as object != volume.inodes && fdOffset as object != volume.bitmap && fdOffset as object != volume.disk
      && fdTable as object != volume.inodes && fdTable as object != volume.bitmap && fdTable as object != volume.disk
      && fdTable as object != fdOffset
      && forall fd :: 0 <= fd < MAX_FDS ==> -1 <= fdTable[fd] < 128
    }

    predicate Open(fd: int)
      requires fdTable.Length == MAX_FDS
      reads fdTable
    {
      0 <= fd < MAX_FDS && fdTable[fd] >= 0
    }

    ghost function On(fd: int): Descriptor
      requires Valid() && Open(fd)
      reads this, fdTable, fdOffset, volume, volume.inodes, volume.bitmap, volume.disk
    {
      Descriptor(volume.State(), fdOffset[fd])
    }

    constructor (volume: Pafs.Volume)
      requires volume.Valid()
      ensures Valid() && this.volume == volume && fresh(fdTable) && fresh(fdOffset) && console == []
      ensures forall fd :: 0 <= fd < MAX_FDS ==> fdTable[fd] == -1 && fdOffset[fd] == 0
    {
      this.volume := volume;
      fdTable := new int[MAX_FDS](_ => -1);
      fdOffset := new u32[MAX_FDS](_ => 0);
      console := [];
    }

    /** The descriptor search of `sys_open`: the lowest closed one, offset 0; or -1. */
    method OpenInode(i: nat) returns (fd: int)
      requires Valid() && i < 128
      modifies fdTable, fdOffset
      ensures Valid()
      ensures fd == -1 ==> fdTable[..] == old(fdTable[..]) && fdOffset[..] == old(fdOffset[..]) && forall k :: 0 <= k < MAX_FDS ==> old(Open(k))
      ensures fd != -1 ==>
        && 0 <= fd < MAX_FDS && !old(Open(fd)) && (forall k :: 0 <= k < fd ==> old(Open(k)))
        && fdTable[..] == old(fdTable[..])[fd := i] && fdOffset[..] == old(fdOffset[..])[fd := 0]
    {
      for k := 0 to MAX_FDS
        invariant forall j :: 0 <= j < k ==> Open(j)
      {
        if fdTable[k] == -1 {
          fdTable[k], fdOffset[k] := i, 0;
          return k;
        }
      }
      return -1;
    }

    /** `sys_read`; the answer is the count, or -1. */
    method SysRead(fd: int, size: u32, buffer: array<byte>) returns (r: int)
      requires Valid() && Inv(volume.State()) && size <= buffer.Length && volume.Outside(buffer)
      requires buffer as object != fdTable && buffer as object != fdOffset
      modifies buffer, fdOffset
      ensures Valid() && Inv(volume.State())
      ensures !Open(fd) ==> r == -1 && buffer[..] == old(buffer[..]) && fdOffset[..] == old(fdOffset[..])
      ensures Open(fd) ==>
        var (bytes, after) := FdRead(old(On(fd)), fdTable[fd], size);
        && r == |bytes| <= buffer.Length && buffer[..] == bytes + old(buffer[..])[r..]
        && On(fd) == after && fdOffset[..] == old(fdOffset[..])[fd := after.offset]
      ensures Open(fd) && volume.inodes[fdTable[fd]].kind != TYPE_FILE ==>
        r == 0 && buffer[..] == old(buffer[..]) && fdOffset[..] == old(fdOffset[..])
    {
      hide Inv, VfsRead;
      if fd < 0 || fd >= MAX_FDS || fdTable[fd] == -1 {
        return -1;
      }
      if volume.inodes[fdTable[fd]].kind != TYPE_FILE {
        VfsReadNoFile(volume.State(), fdTable[fd], fdOffset[fd], size);
      }
      r := volume.VfsReadFile(fdTable[fd], fdOffset[fd], size, buffer);
      WrapSmall(fdOffset[fd]);
      if r > 0 {
        fdOffset[fd] := Wrap(fdOffset[fd] + r);
      }
    }

    /** `sys_write_fd`: descriptors 1 and 2 are the console. */
    method SysWrite(fd: int, data: seq<byte>) returns (r: int)
      requires Valid() && Inv(volume.State())
      modifies this`console, fdOffset, volume, volume.inodes, volume.bitmap, volume.disk
      ensures Valid() && Inv(volume.State()) && fdTable[..] == old(fdTable[..])
      ensures fd == 1 || fd == 2 ==>
        r == |data| && console == old(console) + data && volume.State() == old(volume.State()) && fdOffset[..] == old(fdOffset[..])
      ensures fd != 1 && fd != 2 ==> console == old(console)
      ensures fd != 1 && fd != 2 && !Open(fd) ==> r == -1 && volume.State() == old(volume.State()) && fdOffset[..] == old(fdOffset[..])
      ensures fd != 1 && fd != 2 && Open(fd) ==>
        && On(fd) == FdWrite(old(On(fd)), fdTable[fd], data)
        && r == VfsWrite(old(volume.State()), fdTable[fd], old(fdOffset[fd]), data).code
        && fdOffset[..] == old(fdOffset[..])[fd := fdOffset[fd]]
      ensures fd != 1 && fd != 2 && Open(fd) && old(volume.inodes[fdTable[fd]].kind) != TYPE_FILE ==>
        r == 0 && volume.State() == old(volume.State()) && fdOffset[..] == old(fdOffset[..])
    {
      hide Inv, VfsWrite;
      if fd == 1 || fd == 2 {
        console := console + data;
        return |data|;
      }
      if fd < 0 || fd >= MAX_FDS || fdTable[fd] == -1 {
        return -1;
      }
      VfsWriteInv(volume.State(), fdTable[fd], fdOffset[fd], data);
      r := volume.VfsWriteFile(fdTable[fd], fdOffset[fd], data);
      if r > 0 {
        fdOffset[fd] := Wrap(fdOffset[fd] + r);
      }
    }

    /** `sys_close` */
    method Close(fd: int) returns (r: int)
      requires Valid()
      modifies fdTable, fdOffset
      ensures Valid()
      ensures old(Open(fd)) ==> r == 0 && fdTable[..] == old(fdTable[..])[fd := -1] && fdOffset[..] == old(fdOffset[..])[fd := 0]
      ensures !old(Open(fd)) ==> r == -1 && fdTable[..] == old(fdTable[..]) && fdOffset[..] == old(fdOffset[..])
    {
      if fd < 0 || fd >= MAX_FDS || fdTable[fd] == -1 {
        return -1;
      }
      fdTable[fd], fdOffset[fd] := -1, 0;
      return 0;
    }
  }

}
