/**
  File data: what the block-by-block write loop leaves in a file, byte by byte,
  and what it does to everything else.
 */
module PafsData {
  import opened Words
  import opened PafsLayout
  import opened PafsState
  import opened PafsInv
  import opened PafsDirs

  /** The byte a file holds at position `p`. */
  function ByteAt(n: Inode, disk: Disk, p: nat): byte
    requires p < 7168
  {
    disk[BlockOf(n, p / 512)][p % 512]
  }

  /** Slots that had a block still have the same one. */
  ghost predicate KeepsBlocks(n: Inode, n': Inode) {
    forall k :: 0 <= k < 14 && n.blocks[k] != 0 ==> n'.blocks[k] == n.blocks[k]
  }

  /** Positions `start ..` of a file now hold `data`. */
  ghost predicate Holds(n: Inode, disk: Disk, start: nat, data: seq<byte>) {
    && start + |data| <= 7168
    && (forall p {:trigger ByteAt(n, disk, p)} :: start <= p < start + |data| ==>
          n.blocks[p / 512] != 0 && ByteAt(n, disk, p) == data[p - start])
  }

  /** Positions outside `start .. start + c` that had a block are as before. */
  ghost predicate KeepsRest(n: Inode, d: Disk, n': Inode, d': Disk, start: nat, c: nat) {
    forall p {:trigger ByteAt(n', d', p)} {:trigger ByteAt(n, d, p)} ::
      0 <= p < 7168 && n.blocks[p / 512] != 0 && !(start <= p < start + c) ==> ByteAt(n', d', p) == ByteAt(n, d, p)
  }

  /** One turn of the write loop: slot `k` given a block and that block overwritten. */
  ghost predicate Stepped(fs: Fs, fs': Fs, i: nat, k: nat, s: Sector)
    requires i < 128 && k < 14
  {
    && fs'.inodes[i] == fs.inodes[i].(blocks := fs'.inodes[i].blocks)
    && KeepsBlocks(fs.inodes[i], fs'.inodes[i])
    && (forall l :: 0 <= l < 14 && l != k ==> fs'.inodes[i].blocks[l] == fs.inodes[i].blocks[l])
    && fs'.inodes[i].blocks[k] != 0
    && fs'.disk[BlockOf(fs'.inodes[i], k)] == s
    && (forall l :: 0 <= l < 14 && l != k && fs.inodes[i].blocks[l] != 0 ==>
          fs'.disk[BlockOf(fs.inodes[i], l)] == fs.disk[BlockOf(fs.inodes[i], l)])
  }

  lemma StepCore(fs: Fs, i: nat, k: nat, s: Sector, dirty: set<int>)
    requires i < 128 && k < 14 && Core(fs, dirty) && 1 + i / 8 in dirty
    requires fs.inodes[i].kind == TYPE_FILE && Ensure(fs, i, k).code != -1
    ensures var e := Ensure(fs, i, k).fs;
            var fs' := WithSector(e, BlockOf(e.inodes[i], k), s);
            Core(fs', dirty) && SbSame(fs, fs')
  {
    EnsureCore(fs, i, k, dirty);
    var e := Ensure(fs, i, k);
    assert dirty + {1 + i / 8} == dirty;
    OwnApart(e.fs.inodes, e.fs.bitmap, i);
    CoreSector(e.fs, BlockOf(e.fs.inodes[i], k), s, dirty);
  }

  lemma StepOthers(fs: Fs, i: nat, k: nat, s: Sector, dirty: set<int>)
    requires i < 128 && k < 14 && Core(fs, dirty)
    requires fs.inodes[i].kind == TYPE_FILE && Ensure(fs, i, k).code != -1
    ensures var e := Ensure(fs, i, k).fs;
            OthersSame(fs, WithSector(e, BlockOf(e.inodes[i], k), s), i)
  {
    EnsureCore(fs, i, k, dirty);
    var e := Ensure(fs, i, k);
    var b := BlockOf(e.fs.inodes[i], k);
    if fs.inodes[i].blocks[k] == 0 {
      forall j | 0 <= j < 128
        ensures SameData(fs.inodes[j], fs.disk, e.fs.disk[b := s])
      {
        GrownFrame(fs, e.fs, i, k, e.code, j, s);
      }
    } else {
      forall j | 0 <= j < 128 && j != i
        ensures SameData(fs.inodes[j], fs.disk, fs.disk[b := s])
      {
        BlockIsPrivate(fs, i, k, j, s);
      }
    }
  }

  lemma StepBlocks(fs: Fs, i: nat, k: nat, s: Sector, dirty: set<int>)
    requires i < 128 && k < 14 && Core(fs, dirty)
    requires fs.inodes[i].kind == TYPE_FILE && Ensure(fs, i, k).code != -1
    ensures var e := Ensure(fs, i, k).fs;
            var n, n' := fs.inodes[i], e.inodes[i];
            && n' == n.(blocks := n'.blocks) && KeepsBlocks(n, n') && n'.blocks[k] != 0
            && (forall l :: 0 <= l < 14 && l != k ==> n'.blocks[l] == n.blocks[l])
  {
    EnsureCore(fs, i, k, dirty);
  }

  lemma StepDisk(fs: Fs, i: nat, k: nat, s: Sector, dirty: set<int>)
    requires i < 128 && k < 14 && Core(fs, dirty)
    requires fs.inodes[i].kind == TYPE_FILE && Ensure(fs, i, k).code != -1
    ensures var e := Ensure(fs, i, k).fs;
            var d' := WithSector(e, BlockOf(e.inodes[i], k), s).disk;
            forall l :: 0 <= l < 14 && l != k && fs.inodes[i].blocks[l] != 0 ==>
              d'[BlockOf(fs.inodes[i], l)] == fs.disk[BlockOf(fs.inodes[i], l)]
  {
    EnsureCore(fs, i, k, dirty);
    var e := Ensure(fs, i, k);
    OwnApart(fs.inodes, fs.bitmap, i);
    if fs.inodes[i].blocks[k] == 0 {
      GrownFrame(fs, e.fs, i, k, e.code, i, s);
    }
  }

  lemma StepEffect(fs: Fs, i: nat, k: nat, s: Sector, dirty: set<int>)
    requires i < 128 && k < 14 && Core(fs, dirty)
    requires fs.inodes[i].kind == TYPE_FILE && Ensure(fs, i, k).code != -1
    ensures var e := Ensure(fs, i, k).fs;
            Stepped(fs, WithSector(e, BlockOf(e.inodes[i], k), s), i, k, s)
  {
    StepBlocks(fs, i, k, s, dirty);
    StepDisk(fs, i, k, s, dirty);
  }

  /** What one turn means for the bytes of the file. */
  lemma StepBytes(fs: Fs, fs': Fs, i: nat, k: nat, at: nat, data: seq<byte>, s: Sector, base: Sector)
    requires i < 128 && k < 14 && 0 < |data| <= 512 - at && at < 512
    requires s == Overlay(base, at, data) && Stepped(fs, fs', i, k, s)
    ensures Holds(fs'.inodes[i], fs'.disk, 512 * k + at, data)
    ensures fs.inodes[i].blocks[k] != 0 && (at > 0 || |data| < 512 ==> base == fs.disk[BlockOf(fs.inodes[i], k)]) ==>
              KeepsRest(fs.inodes[i], fs.disk, fs'.inodes[i], fs'.disk, 512 * k + at, |data|)
    ensures fs.inodes[i].blocks[k] == 0 ==>
              KeepsRest(fs.inodes[i], fs.disk, fs'.inodes[i], fs'.disk, 512 * k + at, |data|)
  {
    var n, n' := fs.inodes[i], fs'.inodes[i];
    forall p | 0 <= p < 7168
      ensures p / 512 == k ==> ByteAt(n', fs'.disk, p) == s[p % 512] && p == 512 * k + p % 512
      ensures p / 512 != k && n.blocks[p / 512] != 0 ==> ByteAt(n', fs'.disk, p) == ByteAt(n, fs.disk, p)
    {
    }
  }

  /** Blocks below slot `k` hold what they held. */
  ghost predicate KeepsLow(n: Inode, d: Disk, n': Inode, d': Disk, k: nat) {
    forall p {:trigger ByteAt(n', d', p)} {:trigger ByteAt(n, d, p)} ::
      0 <= p < 7168 && p / 512 < k && n.blocks[p / 512] != 0 ==> ByteAt(n', d', p) == ByteAt(n, d, p)
  }

  /** Why a write may fall short: the file is at its maximum, or there is no free block. */
  ghost predicate Stuck(fs: Fs, i: nat, at: nat)
    requires i < 128
  {
    at == 7168 || (at < 7168 && FirstClear(fs.bitmap) == -1 && fs.inodes[i].blocks[at / 512] == 0)
  }

  /** What the write loop has done by the time it stops. */
  ghost predicate Written(fs: Fs, fs': Fs, i: nat, start: nat, data: seq<byte>, c: int, readBack: bool)
    requires i < 128
  {
    && 0 <= c <= |data|
    && fs'.inodes[i] == fs.inodes[i].(blocks := fs'.inodes[i].blocks)
    && KeepsBlocks(fs.inodes[i], fs'.inodes[i])
    && Holds(fs'.inodes[i], fs'.disk, start, data[..c])
    && (readBack ==> KeepsRest(fs.inodes[i], fs.disk, fs'.inodes[i], fs'.disk, start, c))
    && KeepsLow(fs.inodes[i], fs.disk, fs'.inodes[i], fs'.disk, start / 512)
    && (c < |data| ==> Stuck(fs', i, start + c))
  }

  /** Bytes written by one turn stay in place while the loop goes on with later blocks. */
  lemma ChainHolds(n1: Inode, d1: Disk, n2: Inode, d2: Disk, start: nat, m: nat, data: seq<byte>)
    requires start < 7168 && 0 < m <= |data| && m <= 512 - start % 512
    requires m == |data| || (start + m) % 512 == 0
    requires Holds(n1, d1, start, data[..m])
    requires KeepsBlocks(n1, n2) && KeepsLow(n1, d1, n2, d2, start / 512 + 1)
    requires m < |data| ==> Holds(n2, d2, start + m, data[m..])
    ensures Holds(n2, d2, start, data)
  {
    forall p | start <= p < start + |data|
      ensures n2.blocks[p / 512] != 0 && ByteAt(n2, d2, p) == data[p - start]
    {
      if p < start + m {
        assert ByteAt(n1, d1, p) == data[..m][p - start];
        assert p / 512 < start / 512 + 1;
      } else {
        assert ByteAt(n2, d2, p) == data[m..][p - (start + m)];
      }
    }
  }

  lemma ChainLow(n: Inode, d: Disk, n1: Inode, d1: Disk, n2: Inode, d2: Disk, k: nat)
    requires KeepsLow(n, d, n1, d1, k) && KeepsLow(n1, d1, n2, d2, k + 1) && KeepsBlocks(n, n1)
    ensures KeepsLow(n, d, n2, d2, k)
  {
    forall p {:trigger ByteAt(n2, d2, p)} {:trigger ByteAt(n, d, p)} | 0 <= p < 7168 && p / 512 < k && n.blocks[p / 512] != 0
      ensures ByteAt(n2, d2, p) == ByteAt(n, d, p)
    {
      assert ByteAt(n1, d1, p) == ByteAt(n, d, p);
    }
  }

  lemma ChainRest(n: Inode, d: Disk, n1: Inode, d1: Disk, n2: Inode, d2: Disk, start: nat, m: nat, next: nat, c: nat)
    requires m <= c && KeepsRest(n, d, n1, d1, start, m) && KeepsRest(n1, d1, n2, d2, next, c - m) && KeepsBlocks(n, n1)
    requires (c > m ==> next == start + m)
    ensures KeepsRest(n, d, n2, d2, start, c)
  {
    forall p {:trigger ByteAt(n2, d2, p)} {:trigger ByteAt(n, d, p)} |
      0 <= p < 7168 && n.blocks[p / 512] != 0 && !(start <= p < start + c)
      ensures ByteAt(n2, d2, p) == ByteAt(n, d, p)
    {
      assert ByteAt(n1, d1, p) == ByteAt(n, d, p);
    }
  }

  lemma SteppedLow(fs: Fs, fs1: Fs, i: nat, k: nat, s: Sector)
    requires i < 128 && k < 14 && Stepped(fs, fs1, i, k, s)
    ensures KeepsLow(fs.inodes[i], fs.disk, fs1.inodes[i], fs1.disk, k)
  {
  }

  /** One turn followed by the rest of the loop. */
  lemma WrittenChain(fs: Fs, fs1: Fs, fs2: Fs, i: nat, start: nat, data: seq<byte>, m: nat, c: int, readBack: bool, s: Sector)
    requires i < 128 && start < 7168 && 0 < m <= |data| && m <= 512 - start % 512
    requires Stepped(fs, fs1, i, start / 512, s)
    requires Holds(fs1.inodes[i], fs1.disk, start, data[..m])
    requires readBack ==> KeepsRest(fs.inodes[i], fs.disk, fs1.inodes[i], fs1.disk, start, m)
    requires m == |data| || (start + m) % 512 == 0
    requires Written(fs1, fs2, i, 512 * (start / 512 + 1), data[m..], c - m, readBack)
    ensures Written(fs, fs2, i, start, data, c, readBack)
  {
    var n, n1, n2 := fs.inodes[i], fs1.inodes[i], fs2.inodes[i];
    var next := 512 * (start / 512 + 1);
    assert m < |data| ==> start + m == next;
    assert next / 512 == start / 512 + 1;
    assert data[..c][..m] == data[..m] && data[m..][..c - m] == data[..c][m..];
    assert m == c || (start + m) % 512 == 0;
    ChainHolds(n1, fs1.disk, n2, fs2.disk, start, m, data[..c]);
    SteppedLow(fs, fs1, i, start / 512, s);
    ChainLow(n, fs.disk, n1, fs1.disk, n2, fs2.disk, start / 512);
    if readBack {
      ChainRest(n, fs.disk, n1, fs1.disk, n2, fs2.disk, start, m, next, c);
    }
  }

  lemma WrittenNothing(fs: Fs, i: nat, start: nat, data: seq<byte>, readBack: bool)
    requires i < 128 && start <= 7168
    requires data == [] || Stuck(fs, i, start)
    ensures Written(fs, fs, i, start, data, 0, readBack)
  {
  }

  lemma TurnBytes(fs: Fs, i: nat, k: nat, at: nat, data: seq<byte>, w: nat, readBack: bool, dirty: set<int>)
    requires i < 128 && k < 14 && at < 512 && w < |data|
    requires Core(fs, dirty) && fs.inodes[i].kind == TYPE_FILE && Ensure(fs, i, k).code != -1
    ensures var fs1 := AfterTurn(fs, i, k, at, data, w, readBack);
            var m := Turn(at, data, w);
            && Stepped(fs, fs1, i, k, TurnSector(Ensure(fs, i, k).fs, i, k, at, data, w, readBack))
            && Holds(fs1.inodes[i], fs1.disk, 512 * k + at, data[w .. w + m])
            && (readBack ==> KeepsRest(fs.inodes[i], fs.disk, fs1.inodes[i], fs1.disk, 512 * k + at, m))
  {
    var e := Ensure(fs, i, k).fs;
    var s := TurnSector(e, i, k, at, data, w, readBack);
    var m := Turn(at, data, w);
    EnsureCore(fs, i, k, dirty);
    StepEffect(fs, i, k, s, dirty);
    StepBytes(fs, AfterTurn(fs, i, k, at, data, w, readBack), i, k, at, data[w .. w + m], s,
              Underlay(e, BlockOf(e.inodes[i], k), at, |data| - w, readBack));
  }

  lemma StuckHere(fs: Fs, i: nat, k: nat, at: nat, dirty: set<int>)
    requires i < 128 && k < 14 && at < 512 && Core(fs, dirty) && fs.inodes[i].kind == TYPE_FILE
    requires Ensure(fs, i, k).code == -1
    ensures Stuck(fs, i, 512 * k + at)
  {
    EnsureCore(fs, i, k, dirty);
  }

  /** One turn of the loop keeps the invariant and leaves everything but file `i` alone. */
  lemma TurnCore(fs: Fs, i: nat, k: nat, at: nat, data: seq<byte>, w: nat, readBack: bool, dirty: set<int>)
    requires i < 128 && k < 14 && at < 512 && w < |data|
    requires Core(fs, dirty) && 1 + i / 8 in dirty && fs.inodes[i].kind == TYPE_FILE && Ensure(fs, i, k).code != -1
    ensures var fs1 := AfterTurn(fs, i, k, at, data, w, readBack);
            Core(fs1, dirty) && OthersSame(fs, fs1, i) && SbSame(fs, fs1) && fs1.inodes[i].kind == TYPE_FILE
  {
    var s := TurnSector(Ensure(fs, i, k).fs, i, k, at, data, w, readBack);
    StepCore(fs, i, k, s, dirty);
    StepOthers(fs, i, k, s, dirty);
    StepEffect(fs, i, k, s, dirty);
  }

  lemma WrittenShift(fs: Fs, fs1: Fs, r: Fs, i: nat, k: nat, at: nat, data: seq<byte>, w: nat, m: nat, c: int, readBack: bool, s: Sector)
    requires i < 128 && k < 14 && at < 512 && w < |data| && 0 < m <= 512 - at && w + m <= |data|
    requires w + m == |data| || at + m == 512
    requires Stepped(fs, fs1, i, k, s) && Holds(fs1.inodes[i], fs1.disk, 512 * k + at, data[w .. w + m])
    requires readBack ==> KeepsRest(fs.inodes[i], fs.disk, fs1.inodes[i], fs1.disk, 512 * k + at, m)
    requires Written(fs1, r, i, 512 * (k + 1), data[w + m..], c - (w + m), readBack)
    ensures Written(fs, r, i, 512 * k + at, data[w..], c - w, readBack)
  {
    hide Written, Stepped, KeepsRest, Holds;
    var start := 512 * k + at;
    assert data[w..][..m] == data[w .. w + m] && data[w..][m..] == data[w + m..];
    assert start / 512 == k && start % 512 == at;
    WrittenChain(fs, fs1, r, i, start, data[w..], m, c - w, readBack, s);
  }

  /** What one turn and the turns after it have written together. */
  lemma WrittenTurn(fs: Fs, i: nat, k: nat, at: nat, data: seq<byte>, w: nat, readBack: bool, dirty: set<int>, r: Fs, c: int)
    requires i < 128 && k < 14 && at < 512 && w < |data|
    requires Core(fs, dirty) && fs.inodes[i].kind == TYPE_FILE && Ensure(fs, i, k).code != -1
    requires Written(AfterTurn(fs, i, k, at, data, w, readBack), r, i, 512 * (k + 1),
                     data[w + Turn(at, data, w)..], c - (w + Turn(at, data, w)), readBack)
    ensures Written(fs, r, i, 512 * k + at, data[w..], c - w, readBack)
  {
    hide Core, Written, Stepped, Holds, KeepsRest, Ensure;
    TurnBytes(fs, i, k, at, data, w, readBack, dirty);
    WrittenShift(fs, AfterTurn(fs, i, k, at, data, w, readBack), r, i, k, at, data, w, Turn(at, data, w), c, readBack,
                 TurnSector(Ensure(fs, i, k).fs, i, k, at, data, w, readBack));
  }

  /** The loop stops at the end of the data, at the last slot or when there is no block. */
  lemma WriteStops(fs: Fs, i: nat, k: nat, at: nat, data: seq<byte>, w: nat, readBack: bool, dirty: set<int>)
    requires i < 128 && k <= 14 && at < 512 && w <= |data| && (k == 14 ==> at == 0)
    requires Core(fs, dirty) && fs.inodes[i].kind == TYPE_FILE
    requires w == |data| || k == 14 || Ensure(fs, i, k).code == -1
    ensures WriteFrom(fs, i, k, at, data, w, readBack) == Res(fs, w)
    ensures Written(fs, fs, i, 512 * k + at, data[w..], 0, readBack)
  {
    if w < |data| && k < 14 {
      StuckHere(fs, i, k, at, dirty);
    }
    WrittenNothing(fs, i, 512 * k + at, data[w..], readBack);
  }

  /** The write loop, from any state inside an operation on file `i`: the bytes of the file. */
  lemma {:induction false} WriteFromBytes(fs: Fs, i: nat, k: nat, at: nat, data: seq<byte>, w: nat, readBack: bool, dirty: set<int>)
    requires i < 128 && k <= 14 && at < 512 && w <= |data| && (k == 14 ==> at == 0)
    requires Core(fs, dirty) && 1 + i / 8 in dirty && fs.inodes[i].kind == TYPE_FILE
    ensures var r := WriteFrom(fs, i, k, at, data, w, readBack);
            Written(fs, r.fs, i, 512 * k + at, data[w..], r.code - w, readBack)
    decreases 14 - k
  {
    hide Written, Core, Ensure, AfterTurn, Turn;
    if w == |data| || k == 14 || Ensure(fs, i, k).code == -1 {
      WriteStops(fs, i, k, at, data, w, readBack, dirty);
    } else {
      var w1 := w + Turn(at, data, w);
      var fs1 := AfterTurn(fs, i, k, at, data, w, readBack);
      var r := WriteFrom(fs1, i, k + 1, 0, data, w1, readBack);
      assert WriteFrom(fs, i, k, at, data, w, readBack) == r;
      TurnCore(fs, i, k, at, data, w, readBack, dirty);
      WriteFromBytes(fs1, i, k + 1, 0, data, w1, readBack, dirty);
      WrittenTurn(fs, i, k, at, data, w, readBack, dirty, r.fs, r.code);
    }
  }

  /** The write loop keeps the invariant and leaves everything but file `i` alone. */
  lemma {:induction false} WriteFromCore(fs: Fs, i: nat, k: nat, at: nat, data: seq<byte>, w: nat, readBack: bool, dirty: set<int>)
    requires i < 128 && k <= 14 && at < 512 && w <= |data|
    requires Core(fs, dirty) && 1 + i / 8 in dirty && fs.inodes[i].kind == TYPE_FILE
    ensures var r := WriteFrom(fs, i, k, at, data, w, readBack);
            Core(r.fs, dirty) && OthersSame(fs, r.fs, i) && SbSame(fs, r.fs) && r.fs.inodes[i].kind == TYPE_FILE
    decreases 14 - k
  {
    hide Core, Ensure, AfterTurn, Turn;
    if w < |data| && k < 14 && Ensure(fs, i, k).code != -1 {
      var fs1 := AfterTurn(fs, i, k, at, data, w, readBack);
      TurnCore(fs, i, k, at, data, w, readBack, dirty);
      WriteFromCore(fs1, i, k + 1, 0, data, w + Turn(at, data, w), readBack, dirty);
      OthersTransitive(fs, fs1, WriteFrom(fs, i, k, at, data, w, readBack).fs, i);
    }
  }
}
