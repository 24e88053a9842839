/**
  Reading files back, and reading and writing through a descriptor whose offset
  follows the bytes transferred (kernel/proc/syscall.c).
 */
module PafsReads {
  import opened Words
  import opened PafsLayout
  import opened PafsState
  import opened PafsInv
  import opened PafsData
  import opened PafsFiles

  // ----- the read loop -----

  /** One block's worth of a read is a piece of the contents; a slot without a block shows sector 0. */
  lemma BlockPart(n: Inode, d: Disk, k: nat, at: nat, m: nat)
    requires k < 14 && at + m <= 512 && 512 * k + at + m <= n.size
    ensures d[BlockOf(n, k)][at .. at + m] == Contents(n, d)[512 * k + at .. 512 * k + at + m]
  {
    var part, c := d[BlockOf(n, k)][at .. at + m], Contents(n, d);
    forall j | 0 <= j < m
      ensures part[j] == c[512 * k + at + j]
    {
      assert (512 * k + at + j) / 512 == k && (512 * k + at + j) % 512 == at + j;
    }
  }

  lemma ReadNothing(n: Inode, d: Disk, k: nat, at: nat, stop: bool)
    requires at < 512
    ensures ReadFrom(n, d, k, at, 0, stop) == []
  {
  }

  lemma ReadPart(n: Inode, d: Disk, k: nat, at: nat, left: nat, stop: bool)
    requires at < 512 && k < 14 && left > 0 && (stop ==> n.blocks[k] != 0)
    ensures var m: nat := Min(512 - at, left);
            ReadFrom(n, d, k, at, left, stop) == d[BlockOf(n, k)][at .. at + m] + ReadFrom(n, d, k + 1, 0, left - m, stop)
  {
  }

  /** Every slot that holds some of the first `end` bytes has a block. */
  predicate NoHoleBefore(n: Inode, end: int) {
    forall k :: 0 <= k < 14 && 512 * k < end ==> n.blocks[k] != 0
  }

  /** Reading inside a file gives that slice of its contents; a loop that stops at absent blocks must meet none. */
  lemma {:induction false} ReadFromSlice(n: Inode, d: Disk, k: nat, at: nat, left: nat, stop: bool)
    requires at < 512 && 512 * k + at + left <= Min(n.size, 7168)
    requires stop ==> NoHoleBefore(n, 512 * k + at + left)
    ensures ReadFrom(n, d, k, at, left, stop) == Contents(n, d)[512 * k + at .. 512 * k + at + left]
    decreases if k < 14 then 14 - k else 0
  {
    hide Contents, BlockOf, ReadFrom;
    if left == 0 {
      ReadNothing(n, d, k, at, stop);
    } else {
      var c, start := Contents(n, d), 512 * k + at;
      var m: nat := Min(512 - at, left);
      BlockPart(n, d, k, at, m);
      ReadPart(n, d, k, at, left, stop);
      if m < left {
        ReadFromSlice(n, d, k + 1, 0, left - m, stop);
        assert c[start .. start + m] + c[start + m .. start + left] == c[start .. start + left];
      } else {
        ReadNothing(n, d, k + 1, 0, stop);
      }
    }
  }

  /** A loop that stops at absent blocks returns nothing of slot `j` or later when `j` has none. */
  lemma {:induction false} ReadStopsAt(n: Inode, d: Disk, k: nat, left: nat, j: nat)
    requires k <= j < 14 && n.blocks[j] == 0
    ensures |ReadFrom(n, d, k, 0, left, true)| <= 512 * (j - k)
    decreases j - k
  {
    if k < j && left > 0 && n.blocks[k] != 0 {
      ReadStopsAt(n, d, k + 1, left - Min(512, left), j);
    }
  }

  /** Without the stop at absent blocks the loop delivers all it is asked for, up to the last slot. */
  lemma {:induction false} ReadFromLength(n: Inode, d: Disk, k: nat, at: nat, left: nat)
    requires at < 512 && k <= 14 && (k == 14 ==> at == 0)
    ensures |ReadFrom(n, d, k, at, left, false)| == Min(left, 7168 - 512 * k - at)
    decreases 14 - k
  {
    if left > 0 && k < 14 {
      ReadFromLength(n, d, k + 1, 0, left - Min(512 - at, left));
    }
  }

  /** Asking for more than the slots can hold is asking for all they hold. */
  lemma {:induction false} ReadFromClip(n: Inode, d: Disk, k: nat, at: nat, left: nat)
    requires at < 512 && k <= 14 && (k == 14 ==> at == 0) && left >= 7168 - 512 * k - at
    ensures ReadFrom(n, d, k, at, left, false) == ReadFrom(n, d, k, at, 7168 - 512 * k - at, false)
    decreases 14 - k
  {
    if k < 14 {
      ReadFromClip(n, d, k + 1, 0, left - Min(512 - at, left));
    }
  }

  /** What a positional read of a file with contents `c` should return. */
  function ReadSlice(c: seq<byte>, offset: nat, size: nat): seq<byte> {
    if offset >= |c| then [] else c[offset .. Min(offset + size, |c|)]
  }

  /** `pafs_vfs_read` when the offset lies in the file and within the reach of its slots. */
  lemma VfsReadIs(fs: Fs, i: nat, offset: u32, size: u32)
    requires i < 128 && fs.inodes[i].kind == TYPE_FILE && offset < fs.inodes[i].size
    ensures var n := fs.inodes[i];
            var wanted: nat := if Wrap(offset + size) > n.size then n.size - offset else size;
            VfsRead(fs, i, offset, size) == ReadFrom(n, fs.disk, offset / 512, offset % 512, wanted, false)
  {
  }

  /** The loop asked for `wanted` bytes at `offset`: the contents from there, as far as the slots reach. */
  lemma LoopIsSlice(n: Inode, d: Disk, offset: nat, wanted: nat)
    requires offset < 7168 && (offset + wanted <= n.size || n.size >= 7168)
    ensures ReadFrom(n, d, offset / 512, offset % 512, wanted, false)
            == Contents(n, d)[offset .. Min(offset + wanted, 7168)]
  {
    hide Contents, ReadFrom;
    var k, at := offset / 512, offset % 512;
    if offset + wanted > 7168 {
      ReadFromClip(n, d, k, at, wanted);
      ReadFromSlice(n, d, k, at, 7168 - offset, false);
    } else {
      ReadFromSlice(n, d, k, at, wanted, false);
    }
  }

  lemma VfsReadFar(fs: Fs, i: nat, offset: u32, size: u32)
    requires i < 128 && offset >= 7168
    ensures VfsRead(fs, i, offset, size) == []
  {
  }

  /** A read whose end does not wrap around 32 bits returns the slice asked for. */
  lemma VfsReadInRange(fs: Fs, i: nat, offset: u32, size: u32)
    requires i < 128 && fs.inodes[i].kind == TYPE_FILE
    requires offset + size < TWO32
    ensures VfsRead(fs, i, offset, size) == ReadSlice(Contents(fs.inodes[i], fs.disk), offset, size)
  {
    hide Contents, ReadFrom, VfsRead;
    var n := fs.inodes[i];
    if offset >= n.size {
      VfsReadBehind(fs, i, offset, size);
    } else if offset >= 7168 {
      VfsReadFar(fs, i, offset, size);
    } else {
      VfsReadIs(fs, i, offset, size);
      WrapSmall(offset + size);
      LoopIsSlice(n, fs.disk, offset, Min(offset + size, n.size) - offset);
    }
  }

  lemma VfsReadBehind(fs: Fs, i: nat, offset: u32, size: u32)
    requires i < 128 && offset >= fs.inodes[i].size
    ensures VfsRead(fs, i, offset, size) == []
  {
  }

  /** A read whose end wraps around 32 bits runs on to the last slot. */
  lemma VfsReadWrapped(fs: Fs, i: nat, offset: u32, size: u32)
    requires i < 128 && fs.inodes[i].kind == TYPE_FILE
    requires offset < fs.inodes[i].size && offset < 7168 && offset + size >= TWO32
    ensures |VfsRead(fs, i, offset, size)| == 7168 - offset
    ensures fs.inodes[i].size >= 7168 ==> VfsRead(fs, i, offset, size) == Contents(fs.inodes[i], fs.disk)[offset..]
  {
    hide Contents, VfsRead, ReadFrom;
    var n := fs.inodes[i];
    var k, at := offset / 512, offset % 512;
    VfsReadIs(fs, i, offset, size);
    WrappedEnd(offset, size);
    ReadFromLength(n, fs.disk, k, at, size);
    if n.size >= 7168 {
      LoopIsSlice(n, fs.disk, offset, size);
      var c := Contents(n, fs.disk);
      assert c[offset .. 7168] == c[offset..];
    }
  }

  /** The end that `pafs_vfs_read` computes, when it wraps, lies before the offset. */
  lemma WrappedEnd(offset: u32, size: u32)
    requires offset + size >= TWO32
    ensures Wrap(offset + size) < offset && size >= TWO32 - offset
  {
  }

  /** What inode `i` has to read: the contents of a file, nothing of anything else. */
  function Readable(fs: Fs, i: nat): seq<byte>
    requires i < 128
  {
    if fs.inodes[i].kind == TYPE_FILE then Contents(fs.inodes[i], fs.disk) else []
  }

  /** A directory or a free inode reads as empty, whatever it holds. */
  lemma VfsReadNoFile(fs: Fs, i: nat, offset: u32, size: u32)
    requires i < 128 && fs.inodes[i].kind != TYPE_FILE
    ensures VfsRead(fs, i, offset, size) == []
  {
  }

  /**
    `pafs_vfs_read` of any inode returns the slice asked for of what there is to read, which for
    anything but a file is nothing, exactly when the inode is no file, `offset + size` does not wrap around 32
    bits, the offset lies behind the end, or the file is at its maximum; whether or not the file has holes.
   */
  lemma VfsReadIsSlice(fs: Fs, i: nat, offset: u32, size: u32)
    requires i < 128
    ensures VfsRead(fs, i, offset, size) == ReadSlice(Readable(fs, i), offset, size)
            <==> fs.inodes[i].kind != TYPE_FILE
                 || offset + size < TWO32 || offset >= fs.inodes[i].size || fs.inodes[i].size >= 7168
    ensures fs.inodes[i].kind != TYPE_FILE ==> VfsRead(fs, i, offset, size) == []
  {
    hide Contents, ReadFrom, VfsRead;
    if fs.inodes[i].kind != TYPE_FILE {
      VfsReadNoFile(fs, i, offset, size);
    } else if offset + size < TWO32 {
      VfsReadInRange(fs, i, offset, size);
    } else if offset >= fs.inodes[i].size {
      VfsReadBehind(fs, i, offset, size);
    } else if offset >= 7168 {
      VfsReadFar(fs, i, offset, size);
    } else {
      VfsReadWrapped(fs, i, offset, size);
    }
  }

  /** What goes wrong otherwise is only that too much is returned. */
  lemma VfsReadNeverShort(fs: Fs, i: nat, offset: u32, size: u32)
    requires i < 128
    ensures |VfsRead(fs, i, offset, size)| >= |ReadSlice(Readable(fs, i), offset, size)|
  {
    hide ReadFrom, VfsRead;
    VfsReadIsSlice(fs, i, offset, size);
    if fs.inodes[i].kind == TYPE_FILE && offset + size >= TWO32 && offset < fs.inodes[i].size && offset < 7168 {
      VfsReadWrapped(fs, i, offset, size);
    }
  }

  /** The bytes of `c` up to a caller's limit, which may be negative. */
  function UpTo(c: seq<byte>, maxLen: int): seq<byte> {
    if maxLen <= 0 then [] else if maxLen < |c| then c[..maxLen] else c
  }

  /** `pafs_read` of a file, whatever its size: the loop over the size taken as a signed number, up to the limit. */
  lemma ReadIs(fs: Fs, name: CString, maxLen: int, i: nat)
    requires Find(fs, RootOf(fs), name) == i < 128 && fs.inodes[i].kind == TYPE_FILE
    ensures var total := Min(Signed(fs.inodes[i].size), maxLen);
            Read(fs, name, maxLen) == Bytes(ReadFrom(fs.inodes[i], fs.disk, 0, 0, if total < 0 then 0 else total, true))
  {
  }

  /** A loop from the start that meets no absent block. */
  lemma ReadAll(n: Inode, d: Disk, total: nat)
    requires total <= n.size && NoHoleBefore(n, total)
    ensures ReadFrom(n, d, 0, 0, total, true) == UpTo(Contents(n, d), total)
  {
    hide Contents, ReadFrom;
    if total > 7168 {
      ClipStops(n, d, 0, total);
      ReadFromSlice(n, d, 0, 0, 7168, true);
    } else {
      ReadFromSlice(n, d, 0, 0, total, true);
    }
  }

  lemma {:induction false} ClipStops(n: Inode, d: Disk, k: nat, left: nat)
    requires k <= 14 && left >= 7168 - 512 * k && forall j :: k <= j < 14 ==> n.blocks[j] != 0
    ensures ReadFrom(n, d, k, 0, left, true) == ReadFrom(n, d, k, 0, 7168 - 512 * k, true)
    decreases 14 - k
  {
    if k < 14 {
      ClipStops(n, d, k + 1, left - 512);
    }
  }

  /**
    `pafs_read` returns the contents up to the caller's limit exactly when no slot before
    the end of what is asked for is without a block, and the size is no negative number.
   */
  lemma ReadIsPrefixIff(fs: Fs, name: CString, maxLen: int, i: nat)
    requires Find(fs, RootOf(fs), name) == i < 128 && fs.inodes[i].kind == TYPE_FILE
    ensures var n := fs.inodes[i];
            Read(fs, name, maxLen) == Bytes(UpTo(Contents(n, fs.disk), maxLen))
            <==> maxLen <= 0 || (n.size < 0x8000_0000 && NoHoleBefore(n, Min(n.size, maxLen)))
  {
    hide Read, Contents, ReadFrom;
    var n := fs.inodes[i];
    var c := Contents(n, fs.disk);
    ReadIs(fs, name, maxLen, i);
    if maxLen <= 0 || n.size >= 0x8000_0000 {
      ReadNothing(n, fs.disk, 0, 0, true);
    } else {
      var total: nat := Min(n.size, maxLen);
      if NoHoleBefore(n, total) {
        ReadAll(n, fs.disk, total);
      } else {
        var j :| 0 <= j < 14 && 512 * j < total && n.blocks[j] == 0;
        ReadStopsAt(n, fs.disk, 0, total, j);
      }
    }
  }

  /** In a file without holes that is always so. */
  lemma ReadIsPrefix(fs: Fs, name: CString, maxLen: int, i: nat)
    requires Find(fs, RootOf(fs), name) == i < 128 && fs.inodes[i].kind == TYPE_FILE && Dense(fs.inodes[i])
    ensures var c := Contents(fs.inodes[i], fs.disk);
            Read(fs, name, maxLen) == Bytes(UpTo(c, maxLen))
  {
    hide Read, Contents;
    ReadIsPrefixIff(fs, name, maxLen, i);
  }

  // ----- descriptors -----

  /** A descriptor on inode `ino`: the state of the volume and the offset kept in `fd_offset`. */
  datatype Descriptor = Descriptor(fs: Fs, offset: u32)

  /** `sys_read` on a file: the offset moves by the number of bytes returned. */
  function FdRead(s: Descriptor, i: nat, size: u32): (r: (seq<byte>, Descriptor))
    requires i < 128
  {
    var b := VfsRead(s.fs, i, s.offset, size);
    (b, s.(offset := Wrap(s.offset + |b|)))
  }

  /** `sys_write_fd` on a file, for a descriptor other than 1 and 2. */
  ghost function FdWrite(s: Descriptor, i: nat, data: seq<byte>): Descriptor
    requires i < 128
  {
    var r := VfsWrite(s.fs, i, s.offset, data);
    Descriptor(r.fs, if r.code > 0 then Wrap(s.offset + r.code) else s.offset)
  }

  /** A run of reads: all the bytes they return, one after the other. */
  function ReadRun(s: Descriptor, i: nat, sizes: seq<u32>): seq<byte>
    requires i < 128
    decreases |sizes|
  {
    if sizes == [] then []
    else
      var r := FdRead(s, i, sizes[0]);
      r.0 + ReadRun(r.1, i, sizes[1..])
  }

  function Sum(sizes: seq<u32>): nat {
    if sizes == [] then 0 else sizes[0] + Sum(sizes[1..])
  }

  /** A run of writes. */
  ghost function WriteRun(s: Descriptor, i: nat, chunks: seq<seq<byte>>): Descriptor
    requires i < 128
    decreases |chunks|
  {
    if chunks == [] then s else WriteRun(FdWrite(s, i, chunks[0]), i, chunks[1..])
  }

  function Concat(chunks: seq<seq<byte>>): seq<byte> {
    if chunks == [] then [] else chunks[0] + Concat(chunks[1..])
  }

  /**
    Reading on through a descriptor gives the file's bytes from the offset on, of a directory none,
    however the reads are sized, as long as no size reaches round 32 bits.
   */
  lemma {:induction false} ReadRunIsSlice(s: Descriptor, i: nat, sizes: seq<u32>)
    requires i < 128
    requires forall j :: 0 <= j < |sizes| ==> sizes[j] < TWO32 - 7168
    ensures ReadRun(s, i, sizes) == ReadSlice(Readable(s.fs, i), s.offset, Sum(sizes))
    decreases |sizes|
  {
    hide Contents, FdRead;
    if sizes != [] {
      var c := Readable(s.fs, i);
      if s.fs.inodes[i].kind != TYPE_FILE {
        FdReadNoFile(s, i, sizes[0]);
      } else if s.offset <= |c| {
        FdReadIs(s, i, sizes[0]);
        SliceThenSlice(c, s.offset, sizes[0], Sum(sizes[1..]));
      } else {
        FdReadBehind(s, i, sizes[0]);
      }
      ReadRunIsSlice(FdRead(s, i, sizes[0]).1, i, sizes[1..]);
    }
  }

  /** One `sys_read`: the slice at the offset, which then moves behind it. */
  lemma FdReadIs(s: Descriptor, i: nat, size: u32)
    requires i < 128 && s.fs.inodes[i].kind == TYPE_FILE
    requires s.offset <= Min(s.fs.inodes[i].size, 7168) && size < TWO32 - 7168
    ensures var c := Contents(s.fs.inodes[i], s.fs.disk);
            var r := FdRead(s, i, size);
            && r.0 == ReadSlice(c, s.offset, size)
            && r.1.fs == s.fs && r.1.offset == Min(s.offset + size, |c|)
  {
    hide Contents, VfsRead;
    VfsReadInRange(s.fs, i, s.offset, size);
  }

  /** Behind the end a read returns nothing and the offset stays. */
  lemma FdReadBehind(s: Descriptor, i: nat, size: u32)
    requires i < 128 && s.offset >= Min(s.fs.inodes[i].size, 7168)
    ensures FdRead(s, i, size) == ([], s)
  {
    hide VfsRead;
    if s.offset >= 7168 {
      VfsReadFar(s.fs, i, s.offset, size);
    } else {
      VfsReadBehind(s.fs, i, s.offset, size);
    }
    WrapSmall(s.offset);
  }

  /** Through a descriptor on anything but a file: nothing is read and the offset stays. */
  lemma FdReadNoFile(s: Descriptor, i: nat, size: u32)
    requires i < 128 && s.fs.inodes[i].kind != TYPE_FILE
    ensures FdRead(s, i, size) == ([], s)
  {
    hide VfsRead;
    VfsReadNoFile(s.fs, i, s.offset, size);
    WrapSmall(s.offset);
  }

  lemma SliceThenSlice(c: seq<byte>, o: nat, a: nat, b: nat)
    requires o <= |c|
    ensures o + |ReadSlice(c, o, a)| == Min(o + a, |c|)
    ensures ReadSlice(c, o, a) + ReadSlice(c, Min(o + a, |c|), b) == ReadSlice(c, o, a + b)
  {
  }

  /** Two ways of cutting up a read that ask for the same total return the same bytes. */
  lemma ChunkingDoesNotMatter(s: Descriptor, i: nat, sizes: seq<u32>, sizes': seq<u32>)
    requires i < 128 && Sum(sizes) == Sum(sizes')
    requires forall j :: 0 <= j < |sizes| ==> sizes[j] < TWO32 - 7168
    requires forall j :: 0 <= j < |sizes'| ==> sizes'[j] < TWO32 - 7168
    ensures ReadRun(s, i, sizes) == ReadRun(s, i, sizes')
  {
    ReadRunIsSlice(s, i, sizes);
    ReadRunIsSlice(s, i, sizes');
  }

  // ----- writing through a descriptor -----

  /** Where a file cannot grow, a write of anything there changes no contents. */
  lemma StuckWrite(fs: Fs, i: nat, offset: u32, data: seq<byte>)
    requires Inv(fs) && i < 128 && fs.inodes[i].kind == TYPE_FILE && Dense(fs.inodes[i])
    requires offset == fs.inodes[i].size && Stuck(fs, i, offset)
    ensures var r := VfsWrite(fs, i, offset, data);
            r.code == 0 && Stuck(r.fs, i, offset) && r.fs.inodes == fs.inodes && r.fs.bitmap == fs.bitmap
  {
    hide Contents, Dense;
    DenseSize(fs.inodes[i]);
    var w := WriteFrom(fs, i, offset / 512, offset % 512, data, 0, true);
    assert w == Res(fs, 0);
    VfsWriteIs(fs, i, offset, data);
    assert fs.inodes[i := fs.inodes[i]] == fs.inodes;
  }

  /** The file and the descriptor after the first `m` bytes of `all` have been appended to `c0`. */
  ghost predicate Appended(s: Descriptor, i: nat, c0: seq<byte>, all: seq<byte>, m: nat)
    requires i < 128
  {
    && Inv(s.fs) && s.fs.inodes[i].kind == TYPE_FILE && Dense(s.fs.inodes[i])
    && m <= |all| && Contents(s.fs.inodes[i], s.fs.disk) == c0 + all[..m]
    && s.offset == s.fs.inodes[i].size
    && (m < |all| ==> Stuck(s.fs, i, s.offset))
  }

  /** One `sys_write_fd` at the end of a file appends. */
  lemma FdWriteAppends(s: Descriptor, i: nat, data: seq<byte>)
    requires i < 128 && Inv(s.fs) && s.fs.inodes[i].kind == TYPE_FILE && Dense(s.fs.inodes[i])
    requires s.offset == s.fs.inodes[i].size
    ensures exists m :: 0 <= m <= |data| && Appended(FdWrite(s, i, data), i, Contents(s.fs.inodes[i], s.fs.disk), data, m)
    ensures Stuck(s.fs, i, s.offset) ==> Appended(FdWrite(s, i, data), i, Contents(s.fs.inodes[i], s.fs.disk), data, 0)
  {
    hide Core, DirsOk, Contents, VfsWrite;
    var c := Contents(s.fs.inodes[i], s.fs.disk);
    var r := VfsWrite(s.fs, i, s.offset, data);
    DenseSize(s.fs.inodes[i]);
    VfsWriteInv(s.fs, i, s.offset, data);
    VfsWriteSplice(s.fs, i, s.offset, data);
    assert Splice(c, s.offset, data[..r.code]) == c + data[..r.code];
    assert Appended(FdWrite(s, i, data), i, c, data, r.code);
    if Stuck(s.fs, i, s.offset) {
      StuckWrite(s.fs, i, s.offset, data);
    }
  }

  /** Once a file is stuck, later writes through the descriptor add nothing. */
  lemma {:induction false} StuckRun(s: Descriptor, i: nat, chunks: seq<seq<byte>>)
    requires i < 128 && Inv(s.fs) && s.fs.inodes[i].kind == TYPE_FILE && Dense(s.fs.inodes[i])
    requires s.offset == s.fs.inodes[i].size && Stuck(s.fs, i, s.offset)
    ensures var end := WriteRun(s, i, chunks);
            && Appended(end, i, Contents(s.fs.inodes[i], s.fs.disk), Concat(chunks), 0)
            && Stuck(end.fs, i, end.offset)
    decreases |chunks|
  {
    hide Inv, Dense, Contents, FdWrite, Stuck;
    var c := Contents(s.fs.inodes[i], s.fs.disk);
    assert c + Concat(chunks)[..0] == c;
    if chunks != [] {
      FdWriteAppends(s, i, chunks[0]);
      assert c + chunks[0][..0] == c;
      var s1 := FdWrite(s, i, chunks[0]);
      if chunks[0] == [] {
        FdWriteEmpty(s, i);
      }
      assert Stuck(s1.fs, i, s1.offset);
      StuckRun(s1, i, chunks[1..]);
      assert c + Concat(chunks[1..])[..0] == c;
    }
  }

  lemma FdWriteEmpty(s: Descriptor, i: nat)
    requires i < 128 && Inv(s.fs) && s.fs.inodes[i].kind == TYPE_FILE && Dense(s.fs.inodes[i])
    requires s.offset == s.fs.inodes[i].size && Stuck(s.fs, i, s.offset)
    ensures Stuck(FdWrite(s, i, []).fs, i, FdWrite(s, i, []).offset)
  {
    hide Contents, Dense;
    StuckWrite(s.fs, i, s.offset, []);
  }

  /**
    Writes through one descriptor at the end of a file append their bytes in order.
    What is missing at the end, if anything, is missing because the file has reached
    7168 bytes or there is no free block.
   */
  lemma {:induction false} WriteRunAppends(s: Descriptor, i: nat, chunks: seq<seq<byte>>)
    requires i < 128 && Inv(s.fs) && s.fs.inodes[i].kind == TYPE_FILE && Dense(s.fs.inodes[i])
    requires s.offset == s.fs.inodes[i].size
    ensures exists m :: 0 <= m <= |Concat(chunks)|
              && Appended(WriteRun(s, i, chunks), i, Contents(s.fs.inodes[i], s.fs.disk), Concat(chunks), m)
    decreases |chunks|
  {
    hide Inv, Dense, Contents, FdWrite, Stuck;
    var c := Contents(s.fs.inodes[i], s.fs.disk);
    var all := Concat(chunks);
    if chunks == [] {
      assert c + all[..0] == c;
      assert Appended(WriteRun(s, i, chunks), i, c, all, 0);
    } else {
      FdWriteAppends(s, i, chunks[0]);
      var s1 := FdWrite(s, i, chunks[0]);
      var m1: nat :| m1 <= |chunks[0]| && Appended(s1, i, c, chunks[0], m1);
      var c1 := Contents(s1.fs.inodes[i], s1.fs.disk);
      var rest := Concat(chunks[1..]);
      var end := WriteRun(s, i, chunks);
      if m1 < |chunks[0]| {
        StuckRun(s1, i, chunks[1..]);
        AppendedStuck(end, i, c, chunks[0], rest, m1, c1);
        assert Appended(end, i, c, all, m1);
      } else {
        WriteRunAppends(s1, i, chunks[1..]);
        var m2: nat :| m2 <= |rest| && Appended(end, i, c1, rest, m2);
        assert c + chunks[0][..m1] + rest[..m2] == c + all[..m1 + m2];
        assert Appended(end, i, c, all, m1 + m2);
      }
    }
  }

  lemma AppendedStuck(end: Descriptor, i: nat, c: seq<byte>, first: seq<byte>, rest: seq<byte>, m: nat, c1: seq<byte>)
    requires i < 128 && m < |first| && c1 == c + first[..m] && Appended(end, i, c1, rest, 0)
    requires Stuck(end.fs, i, end.offset)
    ensures Appended(end, i, c, first + rest, m)
  {
    assert c1 + rest[..0] == c + (first + rest)[..m];
  }
}
