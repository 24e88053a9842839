/**
  Files as byte strings: what the write operations leave in a file, and what the
  read operations return.
 */
module PafsFiles {
  import opened Words
  import opened PafsLayout
  import opened PafsState
  import opened PafsInv
  import opened PafsDirs
  import opened PafsOps
  import opened PafsData

  /** The whole of a file's size lies in allocated blocks. */
  ghost predicate Dense(n: Inode) {
    n.size <= 7168 && forall k :: 0 <= k < 14 && 512 * k < n.size ==> n.blocks[k] != 0
  }

  /** The bytes of a file. */
  function Contents(n: Inode, disk: Disk): (c: seq<byte>)
    ensures |c| == Min(n.size, 7168)
  {
    seq(Min(n.size, 7168), p requires 0 <= p < Min(n.size, 7168) => ByteAt(n, disk, p))
  }

  lemma ContentsFrame(n: Inode, d: Disk, d': Disk)
    requires Dense(n) && SameData(n, d, d')
    ensures Contents(n, d') == Contents(n, d)
  {
    forall p | 0 <= p < n.size
      ensures ByteAt(n, d', p) == ByteAt(n, d, p)
    {
      assert n.blocks[p / 512] != 0;
    }
  }

  // ----- the end of a write: the size is set and the inode saved -----

  lemma ResizeSaved(fs: Fs, i: nat, size: u32)
    requires i < 128 && Core(fs, {1 + i / 8}) && DirsOk(fs) && fs.inodes[i].kind == TYPE_FILE
    ensures var n := fs.inodes[i].(size := size);
            var r := SaveInode(WithInode(fs, i, n), i);
            Inv(r) && OthersSame(fs, r, i) && SameData(n, fs.disk, r.disk)
  {
    hide Own, Synced, FreeClean, DirOk, EncodeInodeSector;
    var n := fs.inodes[i].(size := size);
    var fs1 := WithInode(fs, i, n);
    CoreRetouch(fs, i, n, {1 + i / 8});
    DirsFromOthers(fs, fs1, i);
    SaveInodeQuiet(fs1, i, {1 + i / 8} + {1 + i / 8});
    assert {1 + i / 8} + {1 + i / 8} - {1 + i / 8} == {};
    assert SameData(fs1.inodes[i], fs1.disk, SaveInode(fs1, i).disk);
    forall j | 0 <= j < 128 && j != i
      ensures SameData(fs.inodes[j], fs.disk, SaveInode(fs1, i).disk)
    {
      assert SameData(fs1.inodes[j], fs1.disk, SaveInode(fs1, i).disk);
    }
  }

  /** The state in which the write loop of an operation on file `i` ends. */
  lemma WriteLoopDone(fs: Fs, i: nat, k: nat, at: nat, data: seq<byte>, readBack: bool)
    requires Inv(fs) && i < 128 && k <= 14 && at < 512 && fs.inodes[i].kind == TYPE_FILE
    ensures var r := WriteFrom(fs, i, k, at, data, 0, readBack);
            && Core(r.fs, {1 + i / 8}) && DirsOk(r.fs) && OthersSame(fs, r.fs, i) && SbSame(fs, r.fs)
            && r.fs.inodes[i].kind == TYPE_FILE
  {
    hide Own, Synced, FreeClean, DirOk, WriteFrom;
    MoreDirty(fs, {}, {1 + i / 8});
    WriteFromCore(fs, i, k, at, data, 0, readBack, {1 + i / 8});
    DirsFromOthers(fs, WriteFrom(fs, i, k, at, data, 0, readBack).fs, i);
  }

  lemma WriteLoopBytes(fs: Fs, i: nat, k: nat, at: nat, data: seq<byte>, readBack: bool)
    requires Inv(fs) && i < 128 && k <= 14 && at < 512 && (k == 14 ==> at == 0) && fs.inodes[i].kind == TYPE_FILE
    ensures var r := WriteFrom(fs, i, k, at, data, 0, readBack);
            Written(fs, r.fs, i, 512 * k + at, data, r.code, readBack)
  {
    hide Own, Synced, FreeClean, DirOk, WriteFrom, Written;
    MoreDirty(fs, {}, {1 + i / 8});
    WriteFromBytes(fs, i, k, at, data, 0, readBack, {1 + i / 8});
    assert data[0..] == data;
  }

  // ----- pafs_write -----

  lemma WriteInodeInv(fs: Fs, i: nat, data: seq<byte>)
    requires Inv(fs) && i < 128
    ensures var r := WriteInode(fs, i, data);
            && Inv(r.fs)
            && (fs.inodes[i].kind != TYPE_FILE <==> r.code == -1)
            && (r.code == -1 ==> r.fs == fs)
            && (r.code != -1 ==> OthersSame(fs, r.fs, i) && SbSame(fs, r.fs) && r.fs.inodes[i].kind == TYPE_FILE)
  {
    hide Core, DirsOk, OthersSame, WriteFrom;
    if fs.inodes[i].kind == TYPE_FILE {
      var r := WriteFrom(fs, i, 0, 0, data, 0, false);
      WriteLoopDone(fs, i, 0, 0, data, false);
      ResizeSaved(r.fs, i, Wrap(r.code));
      OthersTransitive(fs, r.fs, WriteInode(fs, i, data).fs, i);
    }
  }

  /** A file whose first `c` bytes are held and whose size is set to `c` has exactly those bytes. */
  lemma HeldIsContents(n: Inode, d: Disk, n': Inode, d': Disk, data: seq<byte>)
    requires Holds(n, d, 0, data) && n' == n.(size := |data|) && SameData(n', d, d')
    ensures Dense(n') && Contents(n', d') == data
  {
    forall k | 0 <= k < 14 && 512 * k < n'.size
      ensures n'.blocks[k] != 0
    {
      assert ByteAt(n, d, 512 * k) == data[512 * k];
      assert (512 * k) / 512 == k;
    }
    forall p | 0 <= p < |data|
      ensures ByteAt(n', d', p) == data[p]
    {
      assert ByteAt(n, d, p) == data[p];
      assert n.blocks[p / 512] != 0;
    }
  }

  /**
    Overwriting a file makes its contents the bytes that were written; they fall
    short of what was asked and of 7168 only when no block is free.
   */
  lemma WriteInodeContents(fs: Fs, i: nat, data: seq<byte>)
    requires Inv(fs) && i < 128 && fs.inodes[i].kind == TYPE_FILE
    ensures var r := WriteInode(fs, i, data);
            && 0 <= r.code <= Min(|data|, 7168)
            && Dense(r.fs.inodes[i]) && Contents(r.fs.inodes[i], r.fs.disk) == data[..r.code]
            && (r.code < Min(|data|, 7168) ==> FirstClear(r.fs.bitmap) == -1)
  {
    hide Core, DirsOk, OthersSame, WriteFrom, Contents, Dense;
    var w := WriteFrom(fs, i, 0, 0, data, 0, false);
    WriteLoopDone(fs, i, 0, 0, data, false);
    WriteLoopBytes(fs, i, 0, 0, data, false);
    ResizeSaved(w.fs, i, Wrap(w.code));
    var r := WriteInode(fs, i, data);
    HeldIsContents(w.fs.inodes[i], w.fs.disk, r.fs.inodes[i], r.fs.disk, data[..w.code]);
  }

  /** The write loop of `pafs_write` leaves zeros behind the last byte it writes, up to the end of that block. */
  lemma {:induction false} WriteFromZeroes(fs: Fs, i: nat, k: nat, data: seq<byte>, w: nat, q: nat)
    requires i < 128 && w <= |data| && q < 512
    ensures var r := WriteFrom(fs, i, k, 0, data, w, false);
            var m := r.code - w;
            0 < m % 512 <= q ==> k + m / 512 < 14 && r.fs.disk[BlockOf(r.fs.inodes[i], k + m / 512)][q] == 0
    decreases if k < 14 then 14 - k else 0
  {
    hide Ensure;
    if w < |data| && k < 14 && Ensure(fs, i, k).code != -1 {
      var fs1, t := AfterTurn(fs, i, k, 0, data, w, false), Turn(0, data, w);
      if t == 512 {
        WriteFromZeroes(fs1, i, k + 1, data, w + 512, q);
      } else if |data| - w <= q {
        LastTurnZeroes(fs, i, k, data, w, q);
      }
    }
  }

  lemma LastTurnZeroes(fs: Fs, i: nat, k: nat, data: seq<byte>, w: nat, q: nat)
    requires i < 128 && k < 14 && w < |data| && |data| - w < 512 && |data| - w <= q < 512
    ensures var fs1 := AfterTurn(fs, i, k, 0, data, w, false);
            fs1.disk[BlockOf(fs1.inodes[i], k)][q] == 0
  {
    hide Ensure;
  }

  /** So after `pafs_write` the rest of the file's last block is zeros, whatever was there before. */
  lemma WriteInodeZeroes(fs: Fs, i: nat, data: seq<byte>)
    requires Inv(fs) && i < 128 && fs.inodes[i].kind == TYPE_FILE
    ensures var r := WriteInode(fs, i, data);
            forall p: nat :: r.code <= p < 7168 && r.code % 512 != 0 && p / 512 == r.code / 512 ==> ByteAt(r.fs.inodes[i], r.fs.disk, p) == 0
  {
    hide Core, DirsOk, OthersSame, WriteFrom, Contents, Dense, WriteInode;
    var w := WriteFrom(fs, i, 0, 0, data, 0, false);
    WriteLoopDone(fs, i, 0, 0, data, false);
    WriteLoopBytes(fs, i, 0, 0, data, false);
    ResizeSaved(w.fs, i, Wrap(w.code));
    WriteInodeIs(fs, i, data);
    var r := WriteInode(fs, i, data);
    forall p: nat | r.code <= p < 7168 && r.code % 512 != 0 && p / 512 == r.code / 512
      ensures ByteAt(r.fs.inodes[i], r.fs.disk, p) == 0
    {
      WriteFromZeroes(fs, i, 0, data, 0, p % 512);
      LastHeld(w.fs.inodes[i], w.fs.disk, data[..w.code]);
    }
  }

  lemma WriteInodeIs(fs: Fs, i: nat, data: seq<byte>)
    requires i < 128 && fs.inodes[i].kind == TYPE_FILE
    ensures var w := WriteFrom(fs, i, 0, 0, data, 0, false);
            WriteInode(fs, i, data) == Res(SaveInode(WithInode(w.fs, i, w.fs.inodes[i].(size := Wrap(w.code))), i), w.code)
  {
    hide WriteFrom;
  }

  lemma LastHeld(n: Inode, d: Disk, data: seq<byte>)
    requires Holds(n, d, 0, data) && |data| % 512 != 0
    ensures |data| / 512 < 14 && n.blocks[|data| / 512] != 0
  {
    assert ByteAt(n, d, |data| - 1) == data[|data| - 1];
    assert (|data| - 1) / 512 == |data| / 512;
  }

  // ----- pafs_vfs_write -----

  lemma VfsWriteInv(fs: Fs, i: nat, offset: u32, data: seq<byte>)
    requires Inv(fs) && i < 128
    ensures var r := VfsWrite(fs, i, offset, data);
            && Inv(r.fs)
            && (fs.inodes[i].kind != TYPE_FILE ==> r == Res(fs, 0))
            && OthersSame(fs, r.fs, i) && SbSame(fs, r.fs) && r.fs.inodes[i].kind == fs.inodes[i].kind
  {
    hide Core, DirsOk, OthersSame, WriteFrom;
    if fs.inodes[i].kind == TYPE_FILE {
      var k, at := offset / 512, offset % 512;
      if k <= 14 {
        WriteLoopDone(fs, i, k, at, data, true);
      } else {
        NothingWritten(fs, i, k, at, data);
      }
      var r := WriteFrom(fs, i, k, at, data, 0, true);
      var n := r.fs.inodes[i];
      var end := Wrap(offset + r.code);
      ResizeSaved(r.fs, i, if end > n.size then end else n.size);
      OthersTransitive(fs, r.fs, VfsWrite(fs, i, offset, data).fs, i);
    } else {
      NothingChanged(fs, i);
    }
  }

  lemma NothingChanged(fs: Fs, i: nat)
    requires i < 128
    ensures OthersSame(fs, fs, i) && SbSame(fs, fs)
  {
  }

  /** Past the last block slot the write loop does nothing. */
  lemma NothingWritten(fs: Fs, i: nat, k: nat, at: nat, data: seq<byte>)
    requires Inv(fs) && i < 128 && k >= 14 && at < 512 && fs.inodes[i].kind == TYPE_FILE
    ensures var r := WriteFrom(fs, i, k, at, data, 0, true);
            && r == Res(fs, 0) && Core(r.fs, {1 + i / 8}) && OthersSame(fs, r.fs, i) && SbSame(fs, r.fs)
  {
    hide Own, Synced, FreeClean, DirOk;
    MoreDirty(fs, {}, {1 + i / 8});
  }

  /** `c` with `d` laid over it from position `o` on, growing it if need be. */
  function Splice(c: seq<byte>, o: nat, d: seq<byte>): seq<byte>
    requires o <= |c|
  {
    c[..o] + d + (if o + |d| <= |c| then c[o + |d|..] else [])
  }

  lemma SpliceContents(n: Inode, d: Disk, n1: Inode, d1: Disk, n2: Inode, d2: Disk, o: nat, data: seq<byte>)
    requires Dense(n) && o <= n.size && KeepsBlocks(n, n1) && n1 == n.(blocks := n1.blocks)
    requires Holds(n1, d1, o, data) && KeepsRest(n, d, n1, d1, o, |data|)
    requires SameData(n2, d1, d2)
    requires n2 == n1.(size := if o + |data| > n.size then o + |data| else n.size)
    ensures Dense(n2) && Contents(n2, d2) == Splice(Contents(n, d), o, data)
  {
    forall p {:trigger ByteAt(n2, d2, p)} | 0 <= p < n2.size
      ensures n2.blocks[p / 512] != 0
      ensures ByteAt(n2, d2, p) == (if o <= p < o + |data| then data[p - o] else ByteAt(n, d, p))
    {
      if o <= p < o + |data| {
        assert ByteAt(n1, d1, p) == data[p - o];
      } else {
        assert n.blocks[p / 512] != 0;
        assert ByteAt(n1, d1, p) == ByteAt(n, d, p);
      }
      assert n1.blocks[p / 512] != 0;
      assert d2[BlockOf(n2, p / 512)] == d1[BlockOf(n2, p / 512)];
    }
    forall k | 0 <= k < 14 && 512 * k < n2.size
      ensures n2.blocks[k] != 0
    {
      var p := 512 * k;
      assert p / 512 == k && 0 <= p < n2.size;
      var b := ByteAt(n2, d2, p);
      assert n2.blocks[p / 512] != 0;
    }
    var c := Contents(n, d);
    forall p | 0 <= p < n2.size
      ensures Contents(n2, d2)[p] == Splice(c, o, data)[p]
    {
      assert Contents(n2, d2)[p] == ByteAt(n2, d2, p);
    }
  }

  /**
    `pafs_vfs_write` at an offset within the file lays the written bytes over the
    contents; fewer bytes than asked are written only at the size limit or when no
    block is free.
   */
  lemma VfsWriteSplice(fs: Fs, i: nat, offset: u32, data: seq<byte>)
    requires Inv(fs) && i < 128 && fs.inodes[i].kind == TYPE_FILE
    requires Dense(fs.inodes[i]) && offset <= fs.inodes[i].size
    ensures var r := VfsWrite(fs, i, offset, data);
            var c := Contents(fs.inodes[i], fs.disk);
            && 0 <= r.code <= |data| && Dense(r.fs.inodes[i])
            && Contents(r.fs.inodes[i], r.fs.disk) == Splice(c, offset, data[..r.code])
            && (r.code < |data| ==>
                  offset + r.code == 7168
                  || (offset + r.code < 7168 && FirstClear(r.fs.bitmap) == -1
                      && r.fs.inodes[i].blocks[(offset + r.code) / 512] == 0))
  {
    hide Core, DirsOk, OthersSame, WriteFrom, Contents, Dense, KeepsBlocks, KeepsRest, Holds, SameData, VfsWrite, Splice;
    var k, at := offset / 512, offset % 512;
    DenseSize(fs.inodes[i]);
    var w := WriteFrom(fs, i, k, at, data, 0, true);
    WriteLoopDone(fs, i, k, at, data, true);
    WriteLoopBytes(fs, i, k, at, data, true);
    WrittenBound(fs, w.fs, i, offset, data, w.code);
    VfsWriteIs(fs, i, offset, data);
    var n, n1 := fs.inodes[i], w.fs.inodes[i];
    var size: u32 := if offset + w.code > n.size then offset + w.code else n.size;
    ResizeSaved(w.fs, i, size);
    var r := VfsWrite(fs, i, offset, data);
    SpliceContents(n, fs.disk, n1, w.fs.disk, r.fs.inodes[i], r.fs.disk, offset, data[..w.code]);
  }

  lemma WrittenBound(fs: Fs, fs': Fs, i: nat, start: nat, data: seq<byte>, c: int)
    requires i < 128 && Written(fs, fs', i, start, data, c, true)
    ensures start + c <= 7168 && fs'.inodes[i].size == fs.inodes[i].size
  {
  }

  lemma VfsWriteIs(fs: Fs, i: nat, offset: u32, data: seq<byte>)
    requires i < 128 && fs.inodes[i].kind == TYPE_FILE
    requires offset + WriteFrom(fs, i, offset / 512, offset % 512, data, 0, true).code < TWO32
    ensures var w := WriteFrom(fs, i, offset / 512, offset % 512, data, 0, true);
            var n := w.fs.inodes[i];
            var end: u32 := offset + w.code;
            VfsWrite(fs, i, offset, data)
            == Res(SaveInode(WithInode(w.fs, i, n.(size := if end > n.size then end else n.size)), i), w.code)
  {
    hide WriteFrom, SaveInode, WithInode, Wrap;
    WrapSmall(offset + WriteFrom(fs, i, offset / 512, offset % 512, data, 0, true).code);
  }

  lemma DenseSize(n: Inode)
    requires Dense(n)
    ensures n.size <= 7168
  {
  }
}
