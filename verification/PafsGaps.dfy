/**
  Positional writes anywhere: inside a file, behind its end, as a descriptor can be after
  `pafs_write` has made the file shorter, and into files that have holes already.  What every
  byte is afterwards, and when a hole is left.
 */
module PafsGaps {
  import opened Words
  import opened PafsLayout
  import opened PafsState
  import opened PafsInv
  import opened PafsDirs
  import opened PafsOps
  import opened PafsData
  import opened PafsFiles

  /** The write loop does not touch slots before the one it starts at. */
  lemma {:induction false} LowSlots(fs: Fs, i: nat, k: nat, at: nat, data: seq<byte>, w: nat, readBack: bool, j: nat)
    requires i < 128 && at < 512 && w <= |data| && j < 14 && j < k
    ensures WriteFrom(fs, i, k, at, data, w, readBack).fs.inodes[i].blocks[j] == fs.inodes[i].blocks[j]
    decreases if k < 14 then 14 - k else 0
  {
    hide TurnSector, Turn;
    if w < |data| && k < 14 && Ensure(fs, i, k).code != -1 {
      LowSlots(AfterTurn(fs, i, k, at, data, w, readBack), i, k + 1, 0, data, w + Turn(at, data, w), readBack, j);
    }
  }

  /** Nor the slots behind the last byte it writes. */
  lemma {:induction false} HighSlots(fs: Fs, i: nat, k: nat, at: nat, data: seq<byte>, w: nat, readBack: bool, j: nat)
    requires i < 128 && at < 512 && w <= |data| && j < 14
    requires 512 * j >= 512 * k + at + (WriteFrom(fs, i, k, at, data, w, readBack).code - w)
    ensures WriteFrom(fs, i, k, at, data, w, readBack).fs.inodes[i].blocks[j] == fs.inodes[i].blocks[j]
    decreases if k < 14 then 14 - k else 0
  {
    hide TurnSector;
    if w < |data| && k < 14 && Ensure(fs, i, k).code != -1 {
      HighSlots(AfterTurn(fs, i, k, at, data, w, readBack), i, k + 1, 0, data, w + Turn(at, data, w), readBack, j);
    }
  }

  /** A loop that wrote nothing changed nothing. */
  lemma NothingIsSame(fs: Fs, i: nat, k: nat, at: nat, data: seq<byte>, readBack: bool)
    requires i < 128 && at < 512 && WriteFrom(fs, i, k, at, data, 0, readBack).code == 0
    ensures WriteFrom(fs, i, k, at, data, 0, readBack).fs == fs
  {
  }

  // ----- bytes that are not written -----

  /** In slots that have a block now, bytes outside the ones written are what that block held before. */
  ghost predicate KeepsUnwritten(n': Inode, d: Disk, d': Disk, start: nat, c: nat) {
    forall p: nat {:trigger ByteAt(n', d', p)} {:trigger ByteAt(n', d, p)} ::
      p < 7168 && n'.blocks[p / 512] != 0 && !(start <= p < start + c) ==> ByteAt(n', d', p) == ByteAt(n', d, p)
  }

  /** One turn changes one data sector, and of that only the bytes it writes. */
  ghost predicate TurnOnly(d: Disk, d': Disk, b: nat, at: nat, m: nat) {
    && (forall l :: LBA_DATA_START <= l < 4096 && l != b ==> d'[l] == d[l])
    && b < 4096 && forall q :: 0 <= q < 512 && !(at <= q < at + m) ==> d'[b][q] == d[b][q]
  }

  lemma TurnSectors(fs: Fs, i: nat, k: nat, at: nat, data: seq<byte>, w: nat, dirty: set<int>)
    requires i < 128 && k < 14 && at < 512 && w < |data|
    requires Core(fs, dirty) && fs.inodes[i].kind == TYPE_FILE && Ensure(fs, i, k).code != -1
    ensures var fs1 := AfterTurn(fs, i, k, at, data, w, true);
            && LBA_DATA_START <= fs1.inodes[i].blocks[k] < 4096
            && TurnOnly(fs.disk, fs1.disk, fs1.inodes[i].blocks[k], at, Turn(at, data, w))
  {
    hide Core, EncodeSuperblock;
    EnsureCore(fs, i, k, dirty);
    var e := Ensure(fs, i, k).fs;
    TakenBlock(fs, i, k, dirty);
    var b := BlockOf(e.inodes[i], k);
    assert forall l :: LBA_DATA_START <= l < 4096 ==> e.disk[l] == fs.disk[l];
  }

  lemma TakenBlock(fs: Fs, i: nat, k: nat, dirty: set<int>)
    requires i < 128 && k < 14 && Core(fs, dirty) && fs.inodes[i].kind == TYPE_FILE && Ensure(fs, i, k).code != -1
    ensures LBA_DATA_START <= Ensure(fs, i, k).fs.inodes[i].blocks[k] < 4096
  {
    EnsureCore(fs, i, k, dirty);
    var e := Ensure(fs, i, k);
    OwnApart(e.fs.inodes, e.fs.bitmap, i);
  }

  /** One turn followed by the rest of the loop. */
  lemma ChainUnwritten(n: Inode, d: Disk, d1: Disk, d2: Disk, k: nat, at: nat, m: nat, c: nat)
    requires k < 14 && at + m <= 512 && m <= c && (c == m || at + m == 512)
    requires BlocksApart(n) && n.blocks[k] != 0 && TurnOnly(d, d1, n.blocks[k], at, m)
    requires KeepsUnwritten(n, d1, d2, 512 * (k + 1), c - m)
    ensures KeepsUnwritten(n, d, d2, 512 * k + at, c)
  {
    forall p: nat | p < 7168 && n.blocks[p / 512] != 0 && !(512 * k + at <= p < 512 * k + at + c)
      ensures ByteAt(n, d2, p) == ByteAt(n, d, p)
    {
      assert ByteAt(n, d2, p) == ByteAt(n, d1, p);
      OutsideTurn(n, d, d1, k, at, m, p);
    }
  }

  lemma OutsideTurn(n: Inode, d: Disk, d1: Disk, k: nat, at: nat, m: nat, p: nat)
    requires k < 14 && p < 7168 && n.blocks[p / 512] != 0 && !(512 * k + at <= p < 512 * k + at + m)
    requires BlocksApart(n) && n.blocks[k] != 0 && TurnOnly(d, d1, n.blocks[k], at, m)
    ensures ByteAt(n, d1, p) == ByteAt(n, d, p)
  {
    var j := p / 512;
    assert p == 512 * j + p % 512;
    if j != k {
      assert n.blocks[j] != n.blocks[k];
    }
  }

  /** The loop of `pafs_vfs_write`: bytes it does not write are what their blocks held. */
  lemma {:induction false} WriteFromUnwritten(fs: Fs, i: nat, k: nat, at: nat, data: seq<byte>, w: nat, dirty: set<int>)
    requires i < 128 && k <= 14 && at < 512 && w <= |data|
    requires Core(fs, dirty) && 1 + i / 8 in dirty && fs.inodes[i].kind == TYPE_FILE
    ensures var r := WriteFrom(fs, i, k, at, data, w, true);
            KeepsUnwritten(r.fs.inodes[i], fs.disk, r.fs.disk, 512 * k + at, r.code - w)
    decreases 14 - k
  {
    hide Core, Ensure, AfterTurn, KeepsUnwritten, TurnOnly, Turn;
    var r := WriteFrom(fs, i, k, at, data, w, true);
    if w == |data| || k == 14 || Ensure(fs, i, k).code == -1 {
      UnwrittenNothing(fs, i, 512 * k + at);
    } else {
      var w1, fs1 := w + Turn(at, data, w), AfterTurn(fs, i, k, at, data, w, true);
      TurnCore(fs, i, k, at, data, w, true, dirty);
      TurnSectors(fs, i, k, at, data, w, dirty);
      WriteFromUnwritten(fs1, i, k + 1, 0, data, w1, dirty);
      LowSlots(fs1, i, k + 1, 0, data, w1, true, k);
      WriteFromCore(fs1, i, k + 1, 0, data, w1, true, dirty);
      LoopApart(r.fs, i, dirty);
      TurnEnds(fs1, i, k + 1, at, data, w);
      ChainUnwritten(r.fs.inodes[i], fs.disk, fs1.disk, r.fs.disk, k, at, Turn(at, data, w), r.code - w);
    }
  }

  lemma UnwrittenNothing(fs: Fs, i: nat, start: nat)
    requires i < 128
    ensures KeepsUnwritten(fs.inodes[i], fs.disk, fs.disk, start, 0)
  {
  }

  lemma LoopApart(fs: Fs, i: nat, dirty: set<int>)
    requires i < 128 && Core(fs, dirty)
    ensures BlocksApart(fs.inodes[i])
  {
    OwnApart(fs.inodes, fs.bitmap, i);
  }

  lemma TurnEnds(fs: Fs, i: nat, k: nat, at: nat, data: seq<byte>, w: nat)
    requires i < 128 && at < 512 && w < |data|
    ensures var w1 := w + Turn(at, data, w);
            && at + Turn(at, data, w) <= 512
            && (WriteFrom(fs, i, k, 0, data, w1, true).code == w1 || at + Turn(at, data, w) == 512)
  {
  }

  // ----- pafs_vfs_write -----

  /** Whether the bytes written reach into slot `j`. */
  predicate Reaches(offset: nat, c: nat, j: nat) {
    c > 0 && 512 * j < offset + c && offset < 512 * (j + 1)
  }

  /** What a positional write does, with the result `r`, to the file `i`. */
  ghost predicate Wrote(fs: Fs, r: Res, i: nat, offset: nat, data: seq<byte>)
    requires i < 128
  {
    var n, n', d' := fs.inodes[i], r.fs.inodes[i], r.fs.disk;
    && 0 <= r.code <= |data| && (r.code > 0 ==> offset + r.code <= 7168)
    && n'.kind == n.kind && n'.size == (if offset + r.code > n.size then offset + r.code else n.size)
    && (r.code > 0 ==> Holds(n', d', offset, data[..r.code]))
    && KeepsUnwritten(n', fs.disk, d', offset, r.code)
    && (forall j :: 0 <= j < 14 && (n.blocks[j] != 0 || !Reaches(offset, r.code, j)) ==> n'.blocks[j] == n.blocks[j])
    && (r.code < |data| ==>
          offset + r.code >= 7168 || (FirstClear(r.fs.bitmap) == -1 && n'.blocks[(offset + r.code) / 512] == 0))
  }

  lemma LoopWrote(fs: Fs, i: nat, offset: u32, data: seq<byte>)
    requires Inv(fs) && i < 128 && fs.inodes[i].kind == TYPE_FILE
    ensures var w := WriteFrom(fs, i, offset / 512, offset % 512, data, 0, true);
            && 0 <= w.code <= |data| && (w.code > 0 ==> offset + w.code <= 7168) && offset + w.code < TWO32
            && Core(w.fs, {1 + i / 8}) && DirsOk(w.fs) && w.fs.inodes[i].kind == TYPE_FILE
            && w.fs.inodes[i] == fs.inodes[i].(blocks := w.fs.inodes[i].blocks)
            && KeepsBlocks(fs.inodes[i], w.fs.inodes[i])
            && (w.code > 0 ==> Holds(w.fs.inodes[i], w.fs.disk, offset, data[..w.code]))
            && (w.code < |data| ==> offset + w.code >= 7168 || Stuck(w.fs, i, offset + w.code))
  {
    hide Core, DirsOk, OthersSame, WriteFrom, KeepsBlocks, KeepsRest, KeepsLow;
    var k, at := offset / 512, offset % 512;
    if k >= 14 {
      NothingWritten(fs, i, k, at, data);
      InvDirs(fs);
      SameBlocks(fs.inodes[i]);
    } else {
      WriteLoopDone(fs, i, k, at, data, true);
      WriteLoopBytes(fs, i, k, at, data, true);
    }
  }

  lemma SameBlocks(n: Inode)
    ensures KeepsBlocks(n, n)
  {
  }

  lemma InvDirs(fs: Fs)
    requires Inv(fs)
    ensures DirsOk(fs)
  {
  }

  lemma LoopUnwritten(fs: Fs, i: nat, offset: u32, data: seq<byte>)
    requires Inv(fs) && i < 128 && fs.inodes[i].kind == TYPE_FILE
    ensures var w := WriteFrom(fs, i, offset / 512, offset % 512, data, 0, true);
            KeepsUnwritten(w.fs.inodes[i], fs.disk, w.fs.disk, offset, w.code)
  {
    hide Core, DirsOk, WriteFrom, KeepsUnwritten;
    if offset / 512 >= 14 {
      NothingWritten(fs, i, offset / 512, offset % 512, data);
      UnwrittenNothing(fs, i, offset);
    } else {
      MoreDirty(fs, {}, {1 + i / 8});
      WriteFromUnwritten(fs, i, offset / 512, offset % 512, data, 0, {1 + i / 8});
    }
  }

  lemma LoopSlots(fs: Fs, i: nat, offset: u32, data: seq<byte>)
    requires i < 128
    ensures var w := WriteFrom(fs, i, offset / 512, offset % 512, data, 0, true);
            forall j :: 0 <= j < 14 && !Reaches(offset, w.code, j) ==> w.fs.inodes[i].blocks[j] == fs.inodes[i].blocks[j]
  {
    hide WriteFrom;
    var k, at := offset / 512, offset % 512;
    var w := WriteFrom(fs, i, k, at, data, 0, true);
    forall j | 0 <= j < 14 && !Reaches(offset, w.code, j)
      ensures w.fs.inodes[i].blocks[j] == fs.inodes[i].blocks[j]
    {
      if j < k {
        LowSlots(fs, i, k, at, data, 0, true, j);
      } else if w.code == 0 {
        NothingIsSame(fs, i, k, at, data, true);
      } else {
        HighSlots(fs, i, k, at, data, 0, true, j);
      }
    }
  }

  /** Any positional write, wherever it starts and whatever holes the file has. */
  lemma VfsWriteAny(fs: Fs, i: nat, offset: u32, data: seq<byte>)
    requires Inv(fs) && i < 128 && fs.inodes[i].kind == TYPE_FILE
    ensures Wrote(fs, VfsWrite(fs, i, offset, data), i, offset, data)
  {
    hide Core, DirsOk, OthersSame, WriteFrom, SameData, VfsWrite, Holds, KeepsUnwritten, KeepsBlocks, Reaches;
    var k, at := offset / 512, offset % 512;
    var w := WriteFrom(fs, i, k, at, data, 0, true);
    LoopWrote(fs, i, offset, data);
    LoopUnwritten(fs, i, offset, data);
    LoopSlots(fs, i, offset, data);
    VfsWriteIs(fs, i, offset, data);
    var n, n1 := fs.inodes[i], w.fs.inodes[i];
    var size: u32 := if offset + w.code > n.size then offset + w.code else n.size;
    ResizeSaved(w.fs, i, size);
    var r := VfsWrite(fs, i, offset, data);
    var n' := r.fs.inodes[i];
    assert n' == n1.(size := size);
    if w.code > 0 {
      HeldSaved(n1, n', w.fs.disk, r.fs.disk, offset, data[..w.code]);
    }
    UnwrittenSaved(n1, n', fs.disk, w.fs.disk, r.fs.disk, offset, w.code);
    KeptSlots(n, n1);
    SavedBitmap(w.fs, i, n1.(size := size));
  }

  lemma KeptSlots(n: Inode, n': Inode)
    requires KeepsBlocks(n, n')
    ensures forall j :: 0 <= j < 14 && n.blocks[j] != 0 ==> n'.blocks[j] == n.blocks[j]
  {
  }

  lemma SavedBitmap(fs: Fs, i: nat, n: Inode)
    requires i < 128
    ensures SaveInode(WithInode(fs, i, n), i).bitmap == fs.bitmap
  {
  }

  /** Where blocks are, saving the inode does not change the bytes. */
  lemma SavedBytes(n: Inode, n': Inode, d: Disk, d': Disk)
    requires SameData(n', d, d') && n'.blocks == n.blocks
    ensures forall p {:trigger ByteAt(n', d', p)} {:trigger ByteAt(n, d, p)} ::
              0 <= p < 7168 && n.blocks[p / 512] != 0 ==> ByteAt(n', d', p) == ByteAt(n, d, p)
  {
  }

  lemma UnwrittenSaved(n: Inode, n': Inode, d: Disk, d1: Disk, d': Disk, start: nat, c: nat)
    requires KeepsUnwritten(n, d, d1, start, c) && SameData(n', d1, d') && n'.blocks == n.blocks
    ensures KeepsUnwritten(n', d, d', start, c)
  {
    SavedBytes(n, n', d1, d');
    forall p: nat | p < 7168 && n'.blocks[p / 512] != 0 && !(start <= p < start + c)
      ensures ByteAt(n', d', p) == ByteAt(n', d, p)
    {
      assert ByteAt(n, d1, p) == ByteAt(n, d, p);
    }
  }

  lemma HeldSaved(n: Inode, n': Inode, d: Disk, d': Disk, start: nat, data: seq<byte>)
    requires Holds(n, d, start, data) && SameData(n', d, d') && n'.blocks == n.blocks
    ensures Holds(n', d', start, data)
  {
    SavedBytes(n, n', d, d');
    forall p | start <= p < start + |data|
      ensures n'.blocks[p / 512] != 0 && ByteAt(n', d', p) == data[p - start]
    {
      assert ByteAt(n, d, p) == data[p - start];
    }
  }

  /** What a byte of the file is after a positional write of `c` bytes at `offset`. */
  function After(d: Disk, n': Inode, d': Disk, offset: nat, written: seq<byte>, p: nat): byte
    requires p < 7168
  {
    if offset <= p < offset + |written| then written[p - offset]
    else if n'.blocks[p / 512] == 0 then d'[0][p % 512]
    else d[BlockOf(n', p / 512)][p % 512]
  }

  /**
    The contents after any positional write: the bytes written; elsewhere what the
    block held on disk before, even if it was only now taken; and where there is no block, sector 0.
   */
  lemma VfsWriteContents(fs: Fs, i: nat, offset: u32, data: seq<byte>)
    requires Inv(fs) && i < 128 && fs.inodes[i].kind == TYPE_FILE
    ensures var r := VfsWrite(fs, i, offset, data);
            var n, n' := fs.inodes[i], r.fs.inodes[i];
            var c, c' := Contents(n, fs.disk), Contents(n', r.fs.disk);
            && 0 <= r.code <= |data|
            && |c'| == Min(if offset + r.code > n.size then offset + r.code else n.size, 7168)
            && (forall p :: 0 <= p < |c'| ==> c'[p] == After(fs.disk, n', r.fs.disk, offset, data[..r.code], p))
            && (forall p :: 0 <= p < |c| && n.blocks[p / 512] != 0 && !(offset <= p < offset + r.code) ==> p < |c'| && c'[p] == c[p])
  {
    hide VfsWrite, Core, DirsOk, Contents, KeepsUnwritten, Holds, ByteAt, After, Reaches;
    VfsWriteAny(fs, i, offset, data);
    var r := VfsWrite(fs, i, offset, data);
    var n, n' := fs.inodes[i], r.fs.inodes[i];
    var c, c' := Contents(n, fs.disk), Contents(n', r.fs.disk);
    forall p | 0 <= p < |c'|
      ensures c'[p] == After(fs.disk, n', r.fs.disk, offset, data[..r.code], p)
    {
      AfterIs(fs.disk, n', r.fs.disk, offset, data[..r.code], p);
      ContentsAt(n', r.fs.disk, p);
    }
    forall p | 0 <= p < |c| && n.blocks[p / 512] != 0 && !(offset <= p < offset + r.code)
      ensures c'[p] == c[p]
    {
      ContentsAt(n', r.fs.disk, p);
      ContentsAt(n, fs.disk, p);
      UnwrittenAt(n', fs.disk, r.fs.disk, offset, r.code, p);
      SameSlot(n, n', fs.disk, p);
    }
  }

  lemma ContentsAt(n: Inode, d: Disk, p: nat)
    requires p < Min(n.size, 7168)
    ensures Contents(n, d)[p] == ByteAt(n, d, p)
  {
  }

  lemma SameSlot(n: Inode, n': Inode, d: Disk, p: nat)
    requires p < 7168 && n'.blocks[p / 512] == n.blocks[p / 512]
    ensures ByteAt(n', d, p) == ByteAt(n, d, p)
  {
  }

  lemma UnwrittenAt(n: Inode, d: Disk, d': Disk, start: nat, c: nat, p: nat)
    requires KeepsUnwritten(n, d, d', start, c) && p < 7168 && n.blocks[p / 512] != 0 && !(start <= p < start + c)
    ensures ByteAt(n, d', p) == ByteAt(n, d, p)
  {
  }

  lemma AfterIs(d: Disk, n': Inode, d': Disk, offset: nat, written: seq<byte>, p: nat)
    requires p < 7168 && KeepsUnwritten(n', d, d', offset, |written|) && (written != [] ==> Holds(n', d', offset, written))
    ensures ByteAt(n', d', p) == After(d, n', d', offset, written, p)
  {
    if offset <= p < offset + |written| {
      assert ByteAt(n', d', p) == written[p - offset];
    } else if n'.blocks[p / 512] != 0 {
      UnwrittenAt(n', d, d', offset, |written|, p);
    }
  }

  // ----- behind the end -----

  /** Bytes before `offset` that have a block are as they were; slots before it are as they were. */
  ghost predicate GapKeeps(n: Inode, d: Disk, n': Inode, d': Disk, offset: nat) {
    && (forall p: nat {:trigger ByteAt(n', d', p)} ::
          p < offset && p < 7168 && n.blocks[p / 512] != 0 ==> ByteAt(n', d', p) == ByteAt(n, d, p))
    && (forall k :: 0 <= k < 14 && k < offset / 512 ==> n'.blocks[k] == n.blocks[k])
  }

  /** The slot at the offset got block `b`: before the offset it shows what `b` held. */
  ghost predicate GapShows(d: Disk, n': Inode, d': Disk, offset: nat, b: int) {
    && LBA_DATA_START <= b < 4096
    && forall p: nat {:trigger ByteAt(n', d', p)} ::
         p < offset && p < 7168 && p / 512 == offset / 512 ==> ByteAt(n', d', p) == d[b][p % 512]
  }

  lemma TakesFirst(fs: Fs, i: nat, k: nat, at: nat, data: seq<byte>)
    requires i < 128 && k < 14 && at < 512 && fs.inodes[i].blocks[k] == 0
    requires WriteFrom(fs, i, k, at, data, 0, true).code > 0
    ensures FirstClear(fs.bitmap) != -1
    ensures WriteFrom(fs, i, k, at, data, 0, true).fs.inodes[i].blocks[k] == FirstClear(fs.bitmap)
  {
    hide TurnSector, Turn;
    LowSlots(AfterTurn(fs, i, k, at, data, 0, true), i, k + 1, 0, data, Turn(at, data, 0), true, k);
  }

  /**
    A write behind the end: the file then ends behind the bytes written, even when no byte
    could be; old contents and the bytes of the gap that have a block are as the blocks held
    them, slots without a block stay so, and a block taken at the offset shows what it held.
   */
  lemma VfsWriteGap(fs: Fs, i: nat, offset: u32, data: seq<byte>)
    requires Inv(fs) && i < 128 && fs.inodes[i].kind == TYPE_FILE
    requires offset > fs.inodes[i].size
    ensures var r := VfsWrite(fs, i, offset, data);
            var n, n' := fs.inodes[i], r.fs.inodes[i];
            && 0 <= r.code <= |data| && (offset >= 7168 ==> r.code == 0)
            && n'.size == offset + r.code
            && (r.code > 0 ==> Holds(n', r.fs.disk, offset, data[..r.code]))
            && GapKeeps(n, fs.disk, n', r.fs.disk, offset)
            && (r.code > 0 && n.blocks[offset / 512] == 0 ==> GapShows(fs.disk, n', r.fs.disk, offset, FirstClear(fs.bitmap)))
  {
    hide Core, DirsOk, WriteFrom, VfsWrite, Holds, KeepsUnwritten, ByteAt;
    VfsWriteAny(fs, i, offset, data);
    var r := VfsWrite(fs, i, offset, data);
    var n, n' := fs.inodes[i], r.fs.inodes[i];
    forall p: nat | p < offset && p < 7168 && n.blocks[p / 512] != 0
      ensures ByteAt(n', r.fs.disk, p) == ByteAt(n, fs.disk, p)
    {
      UnwrittenAt(n', fs.disk, r.fs.disk, offset, r.code, p);
      SameSlot(n, n', fs.disk, p);
    }
    if r.code > 0 && n.blocks[offset / 512] == 0 {
      GapTaken(fs, i, offset, data);
    }
  }

  lemma GapTaken(fs: Fs, i: nat, offset: u32, data: seq<byte>)
    requires Inv(fs) && i < 128 && fs.inodes[i].kind == TYPE_FILE && offset < 7168 && fs.inodes[i].blocks[offset / 512] == 0
    requires VfsWrite(fs, i, offset, data).code > 0 && Wrote(fs, VfsWrite(fs, i, offset, data), i, offset, data)
    ensures var r := VfsWrite(fs, i, offset, data);
            GapShows(fs.disk, r.fs.inodes[i], r.fs.disk, offset, FirstClear(fs.bitmap))
  {
    hide Core, DirsOk, WriteFrom, KeepsUnwritten, Holds, EncodeInodeSector;
    TakesFirst(fs, i, offset / 512, offset % 512, data);
    var r := VfsWrite(fs, i, offset, data);
    forall p: nat | p < offset && p < 7168 && p / 512 == offset / 512
      ensures ByteAt(r.fs.inodes[i], r.fs.disk, p) == fs.disk[FirstClear(fs.bitmap)][p % 512]
    {
      UnwrittenAt(r.fs.inodes[i], fs.disk, r.fs.disk, offset, r.code, p);
    }
  }

  /**
    Every slot before the offset has a block, and so has the slot at the offset if the gap reaches
    into it, or it will be given one.
   */
  ghost predicate GapFilled(fs: Fs, i: nat, offset: nat, data: seq<byte>)
    requires i < 128
  {
    && offset <= 7168
    && (forall k :: 0 <= k < offset / 512 ==> fs.inodes[i].blocks[k] != 0)
    && (offset % 512 != 0 ==>
          fs.inodes[i].blocks[offset / 512] != 0 || (data != [] && FirstClear(fs.bitmap) != -1))
  }

  /**
    The file is left without a hole exactly when every slot before the offset has a block and
    the slot at the offset, if the gap reaches into it, has one or is given one.
   */
  lemma GapLeavesNoHoleIff(fs: Fs, i: nat, offset: u32, data: seq<byte>)
    requires Inv(fs) && i < 128 && fs.inodes[i].kind == TYPE_FILE
    requires Dense(fs.inodes[i]) && offset > fs.inodes[i].size
    ensures var r := VfsWrite(fs, i, offset, data);
            Dense(r.fs.inodes[i]) <==> GapFilled(fs, i, offset, data)
  {
    hide Core, DirsOk, KeepsUnwritten, Inv, VfsWrite, ByteAt;
    VfsWriteAny(fs, i, offset, data);
    var r := VfsWrite(fs, i, offset, data);
    if offset < 7168 {
      FirstByteIff(fs, i, offset, data);
    }
    if r.code > 0 {
      HeldSlots(r.fs.inodes[i], r.fs.disk, offset, data[..r.code]);
    }
  }

  /** The first byte is written exactly when there is one and a block for it. */
  lemma FirstByteIff(fs: Fs, i: nat, offset: u32, data: seq<byte>)
    requires Inv(fs) && i < 128 && fs.inodes[i].kind == TYPE_FILE && offset < 7168
    ensures VfsWrite(fs, i, offset, data).code > 0
            <==> data != [] && (fs.inodes[i].blocks[offset / 512] != 0 || FirstClear(fs.bitmap) != -1)
  {
    hide Core, DirsOk, TurnSector, EncodeInodeSector;
  }

  lemma HeldSlots(n: Inode, d: Disk, start: nat, data: seq<byte>)
    requires Holds(n, d, start, data) && data != []
    ensures forall k :: start / 512 <= k < 14 && 512 * k < start + |data| ==> n.blocks[k] != 0
  {
    forall k | start / 512 <= k < 14 && 512 * k < start + |data|
      ensures n.blocks[k] != 0
    {
      var p := if 512 * k < start then start else 512 * k;
      assert p / 512 == k;
      assert ByteAt(n, d, p) == data[p - start];
    }
  }
}
