/**
  Directories as lists of bindings: what adding and removing an entry does to
  that list, to the other directories and files, and to the invariant.
 */
module PafsDirs {
  import opened Words
  import opened PafsLayout
  import opened PafsState
  import opened PafsInv

  datatype Binding = Binding(ino: u32, name: CString)

  /** The bindings of a directory, in slot order. */
  function Entries(n: Inode, disk: Disk): (r: seq<Binding>)
    ensures |r| == EntryCount(n)
  {
    seq(EntryCount(n), s requires 0 <= s < EntryCount(n) =>
      Binding(Slot(n, disk, s).inode, NameOf(Slot(n, disk, s).name)))
  }

  /** Inodes other than `i` and their data are as before. */
  ghost predicate OthersSame(fs: Fs, fs': Fs, i: int) {
    forall j :: 0 <= j < 128 && j != i ==> fs'.inodes[j] == fs.inodes[j] && SameData(fs.inodes[j], fs.disk, fs'.disk)
  }

  lemma DirsFromOthers(fs: Fs, fs': Fs, i: nat)
    requires i < 128 && DirsOk(fs) && OthersSame(fs, fs', i)
    requires fs'.inodes[i].kind == TYPE_DIR ==> DirOk(fs'.inodes[i], fs'.disk)
    ensures DirsOk(fs')
  {
    forall j | 0 <= j < 128 && fs'.inodes[j].kind == TYPE_DIR
      ensures DirOk(fs'.inodes[j], fs'.disk)
    {
      if j != i {
        DirFrame(fs.inodes[j], fs.disk, fs'.disk);
      }
    }
  }

  lemma OthersTransitive(fs: Fs, fs': Fs, fs'': Fs, i: int)
    requires OthersSame(fs, fs', i) && OthersSame(fs', fs'', i)
    ensures OthersSame(fs, fs'', i)
  {
    forall j | 0 <= j < 128 && j != i
      ensures fs''.inodes[j] == fs.inodes[j] && SameData(fs.inodes[j], fs.disk, fs''.disk)
    {
      assert SameData(fs'.inodes[j], fs'.disk, fs''.disk);
    }
  }

  // ----- slots and blocks -----

  /** A directory seen through a disk that agrees on its blocks. */
  lemma EntriesFrame(n: Inode, d: Disk, d': Disk)
    requires DirOk(n, d) && SameData(n, d, d')
    ensures DirOk(n, d') && Entries(n, d') == Entries(n, d)
  {
    DirFrame(n, d, d');
  }

  /** Of the slots of `n`, only slot `s` differs between two disks: it now holds `e`. */
  ghost predicate OneSlot(n: Inode, d: Disk, d': Disk, s: nat, e: DirEntry) {
    forall p {:trigger Slot(n, d', p)} :: 0 <= p < 224 && n.blocks[p / 16] != 0 ==>
      Slot(n, d', p) == (if p == s then e else Slot(n, d, p))
  }

  /** Writing one entry changes that slot only. */
  lemma PutEntrySlots(fs: Fs, n: Inode, s: nat, e: DirEntry)
    requires s < 224 && n.blocks[s / 16] != 0 && BlocksApart(n)
    ensures OneSlot(n, fs.disk, PutEntry(fs, n, s, e).disk, s, e)
  {
    SetEntryAll(fs.disk[BlockOf(n, s / 16)], s % 16, e);
    forall p {:trigger Slot(n, PutEntry(fs, n, s, e).disk, p)} | 0 <= p < 224 && n.blocks[p / 16] != 0
      ensures Slot(n, PutEntry(fs, n, s, e).disk, p) == (if p == s then e else Slot(n, fs.disk, p))
    {
      if p / 16 == s / 16 {
        assert p == s <==> p % 16 == s % 16;
      } else {
        assert BlockOf(n, p / 16) != BlockOf(n, s / 16);
      }
    }
  }

  ghost predicate BlocksApart(n: Inode) {
    && (forall k, l :: 0 <= k < 14 && 0 <= l < 14 && n.blocks[k] != 0 && n.blocks[k] == n.blocks[l] ==> k == l)
    && (forall k :: 0 <= k < 14 && n.blocks[k] != 0 ==> LBA_DATA_START <= n.blocks[k] < 4096)
  }

  lemma OwnApart(t: InodeTable, bm: Sector, i: nat)
    requires Own(t, bm) && i < 128
    ensures BlocksApart(t[i])
  {
  }

  lemma ApartFromMetadata(n: Inode, d: Disk, l: nat, s: Sector)
    requires BlocksApart(n) && l < LBA_DATA_START
    ensures SameData(n, d, d[l := s])
  {
  }

  lemma ApartResized(n: Inode, size: u32, d: Disk, l: nat, s: Sector)
    requires BlocksApart(n) && l < LBA_DATA_START
    ensures SameData(n.(size := size), d, d[l := s])
  {
  }

  /** Entry `e` put right behind the last one keeps the directory well formed. */
  lemma AppendSlot(n: Inode, d: Disk, d': Disk, e: DirEntry)
    requires EntryCount(n) < 224 && DirOk(n, d)
    requires n.blocks[EntryCount(n) / 16] != 0
    requires OneSlot(n, d, d', EntryCount(n), e)
    requires 0 < e.inode < 128 && HasNul(e.name)
    ensures var n' := n.(size := n.size + 32);
            DirOk(n', d') && Entries(n', d') == Entries(n, d) + [Binding(e.inode, NameOf(e.name))]
  {
    var n' := n.(size := n.size + 32);
    assert EntryCount(n') == EntryCount(n) + 1;
    forall s {:trigger Slot(n', d', s)} | 0 <= s < 224 && n'.blocks[s / 16] != 0
      ensures Slot(n', d', s).inode != 0 <==> s < EntryCount(n')
      ensures Slot(n', d', s) == (if s == EntryCount(n) then e else Slot(n, d, s))
    {
      assert Slot(n', d', s) == Slot(n, d', s);
    }
    forall s {:trigger Slot(n', d', s)} | 0 <= s < EntryCount(n')
      ensures n'.blocks[s / 16] != 0 && Slot(n', d', s).inode < 128 && HasNul(Slot(n', d', s).name)
      ensures Slot(n', d', s) == (if s == EntryCount(n) then e else Slot(n, d, s))
    {
      if s < EntryCount(n) {
        assert Slot(n, d, s).inode < 128;
      }
    }
  }

  // ----- adding an entry -----

  /** Whether the next entry of a directory needs a new block. */
  predicate NeedsBlock(n: Inode) {
    EntryCount(n) < 224 && n.blocks[EntryCount(n) / 16] == 0
  }

  lemma EntryHasBlock(n: Inode, d: Disk, s: nat)
    requires DirOk(n, d) && s < EntryCount(n)
    ensures n.blocks[s / 16] != 0 && 0 < Slot(n, d, s).inode < 128
  {
    assert Slot(n, d, s).inode < 128;
  }

  lemma LastSlotBlock(n: Inode, d: Disk)
    requires DirOk(n, d)
    ensures EntryCount(n) > 0 ==> n.blocks[(EntryCount(n) - 1) / 16] != 0
  {
    if EntryCount(n) > 0 {
      assert Slot(n, d, EntryCount(n) - 1).inode < 128;
    }
  }

  /** The slots of a directory that has just been given a cleared block `b` at slot `k`. */
  lemma ClearedSlots(n: Inode, d: Disk, d': Disk, k: nat, b: u32)
    requires k < 14 && 0 < b < 4096 && SameData(n, d, d') && d'[b] == ZeroSector && n.blocks[k] == 0
    ensures var n' := n.(blocks := n.blocks[k := b]);
            forall s {:trigger Slot(n', d', s)} :: 0 <= s < 224 && n'.blocks[s / 16] != 0 ==>
              (if s / 16 == k then Slot(n', d', s).inode == 0 else Slot(n', d', s) == Slot(n, d, s))
  {
    var n' := n.(blocks := n.blocks[k := b]);
    ZeroSectorEntries();
    forall s {:trigger Slot(n', d', s)} | 0 <= s < 224 && n'.blocks[s / 16] != 0
      ensures if s / 16 == k then Slot(n', d', s).inode == 0 else Slot(n', d', s) == Slot(n, d, s)
    {
      if s / 16 == k {
        assert Slot(n', d', s) == EntryAt(ZeroSector, s % 16);
      } else {
        assert d'[BlockOf(n, s / 16)] == d[BlockOf(n, s / 16)];
      }
    }
  }

  /** A directory that has just been given a cleared block is still well formed. */
  lemma ClearedBlock(n: Inode, d: Disk, d': Disk, b: u32)
    requires DirOk(n, d) && EntryCount(n) < 224
    requires n.blocks[EntryCount(n) / 16] == 0 && 0 < b < 4096
    requires SameData(n, d, d') && d'[b] == ZeroSector
    ensures var n' := n.(blocks := n.blocks[EntryCount(n) / 16 := b]);
            DirOk(n', d') && Entries(n', d') == Entries(n, d)
  {
    hide HasNul, NameOf, SameData, EntryAt;
    var k := EntryCount(n) / 16;
    var n' := n.(blocks := n.blocks[k := b]);
    ClearedSlots(n, d, d', k, b);
    LastSlotBlock(n, d);
    assert EntryCount(n) % 16 == 0;
    assert forall l :: 0 <= l < k ==> n.blocks[l] != 0;
    forall s {:trigger Slot(n', d', s)} | 0 <= s < 224 && n'.blocks[s / 16] != 0
      ensures Slot(n', d', s).inode != 0 <==> s < EntryCount(n')
    {
      assert s / 16 != k ==> (Slot(n, d, s).inode != 0 <==> s < EntryCount(n));
    }
    forall s {:trigger Slot(n', d', s)} | 0 <= s < EntryCount(n')
      ensures n'.blocks[s / 16] != 0 && Slot(n', d', s) == Slot(n, d, s)
      ensures Slot(n', d', s).inode < 128 && HasNul(Slot(n', d', s).name)
    {
      assert Slot(n, d, s).inode < 128;
      assert s / 16 != k;
    }
    assert Entries(n', d') == Entries(n, d);
  }

  /** What `pafs_add_entry` leaves alone: everything but the directory and the free-block count. */
  ghost predicate SbSame(fs: Fs, fs': Fs) {
    fs'.sb == fs.sb.(freeBlocks := fs'.sb.freeBlocks)
  }

  /** Having a cleared block for the next entry. */
  lemma RoomForEntry(fs: Fs, dir: nat, dirty: set<int>)
    requires dir < 128 && Core(fs, dirty) && DirsOk(fs) && fs.inodes[dir].kind == TYPE_DIR
    requires EntryCount(fs.inodes[dir]) < 224
    ensures var r := EnsureCleared(fs, dir, EntryCount(fs.inodes[dir]) / 16);
            && (r.code == -1 ==> r.fs == fs && FirstClear(fs.bitmap) == -1)
            && (r.code != -1 ==>
                  && Core(r.fs, dirty + {1 + dir / 8}) && OthersSame(fs, r.fs, dir) && SbSame(fs, r.fs)
                  && r.fs.inodes[dir] == fs.inodes[dir].(blocks := r.fs.inodes[dir].blocks)
                  && r.fs.inodes[dir].blocks[EntryCount(fs.inodes[dir]) / 16] != 0
                  && DirOk(r.fs.inodes[dir], r.fs.disk) && BlocksApart(r.fs.inodes[dir])
                  && Entries(r.fs.inodes[dir], r.fs.disk) == Entries(fs.inodes[dir], fs.disk))
  {
    hide Own, Synced, FreeClean, Entries, DirOk;
    var n := fs.inodes[dir];
    var k := EntryCount(n) / 16;
    EnsureCore(fs, dir, k, dirty);
    if Ensure(fs, dir, k).code != -1 {
      OwnApart(Ensure(fs, dir, k).fs.inodes, Ensure(fs, dir, k).fs.bitmap, dir);
    }
    var e := Ensure(fs, dir, k);
    if n.blocks[k] == 0 && e.code != -1 {
      var r := EnsureCleared(fs, dir, k);
      CoreSector(e.fs, e.code, ZeroSector, dirty + {1 + dir / 8});
      forall j | 0 <= j < 128
        ensures SameData(fs.inodes[j], fs.disk, r.fs.disk)
      {
        GrownFrame(fs, e.fs, dir, k, e.code, j, ZeroSector);
      }
      ClearedBlock(n, fs.disk, r.fs.disk, e.code);
    }
  }

  /** Writing a block of inode `i`, then its inode, leaves other inodes alone. */
  lemma WroteDir(fs: Fs, i: nat, k: nat, s: Sector, n: Inode)
    requires i < 128 && k < 14 && Own(fs.inodes, fs.bitmap) && fs.inodes[i].blocks[k] != 0
    requires n.blocks == fs.inodes[i].blocks
    ensures var fs1 := WithInode(WithSector(fs, BlockOf(fs.inodes[i], k), s), i, n);
            && OthersSame(fs, SaveInode(fs1, i), i)
            && SameData(n, fs1.disk, SaveInode(fs1, i).disk)
  {
    var fs1 := WithInode(WithSector(fs, BlockOf(fs.inodes[i], k), s), i, n);
    forall j | 0 <= j < 128 && j != i
      ensures SameData(fs.inodes[j], fs.disk, SaveInode(fs1, i).disk)
    {
      BlockIsPrivate(fs, i, k, j, s);
    }
  }

  /** The state after entry `e` has been written behind the last one and the inode saved. */
  function Placed(fs: Fs, dir: nat, e: DirEntry): Fs
    requires dir < 128 && EntryCount(fs.inodes[dir]) < 224
  {
    var n := fs.inodes[dir];
    SaveInode(WithInode(PutEntry(fs, n, EntryCount(n), e), dir, n.(size := Wrap(n.size + 32))), dir)
  }

  lemma PlacedCore(fs: Fs, dir: nat, e: DirEntry, dirty: set<int>)
    requires dir < 128 && Core(fs, dirty) && fs.inodes[dir].kind == TYPE_DIR
    requires EntryCount(fs.inodes[dir]) < 224
    requires fs.inodes[dir].blocks[EntryCount(fs.inodes[dir]) / 16] != 0
    ensures Core(Placed(fs, dir, e), dirty - {1 + dir / 8}) && OthersSame(fs, Placed(fs, dir, e), dir)
  {
    hide Own, Synced, FreeClean, OthersSame, EncodeInodeSector, SetEntry;
    var n := fs.inodes[dir];
    var k := EntryCount(n) / 16;
    var fs1 := PutEntry(fs, n, EntryCount(n), e);
    var n2 := n.(size := Wrap(n.size + 32));
    OwnApart(fs.inodes, fs.bitmap, dir);
    CoreSector(fs, BlockOf(n, k), fs1.disk[BlockOf(n, k)], dirty);
    CoreRetouch(fs1, dir, n2, dirty);
    CoreSaveInode(WithInode(fs1, dir, n2), dir, dirty + {1 + dir / 8});
    assert dirty + {1 + dir / 8} - {1 + dir / 8} == dirty - {1 + dir / 8};
    WroteDir(fs, dir, k, fs1.disk[BlockOf(n, k)], n2);
  }

  lemma PlacedDir(fs: Fs, dir: nat, e: DirEntry)
    requires dir < 128 && BlocksApart(fs.inodes[dir])
    requires DirOk(fs.inodes[dir], fs.disk) && EntryCount(fs.inodes[dir]) < 224
    requires fs.inodes[dir].blocks[EntryCount(fs.inodes[dir]) / 16] != 0
    requires 0 < e.inode < 128 && HasNul(e.name)
    ensures var n, fs' := fs.inodes[dir], Placed(fs, dir, e);
            && fs'.inodes[dir] == n.(size := n.size + 32)
            && DirOk(fs'.inodes[dir], fs'.disk)
            && Entries(fs'.inodes[dir], fs'.disk) == Entries(n, fs.disk) + [Binding(e.inode, NameOf(e.name))]
  {
    hide DirOk, OneSlot, BlocksApart, SameData, SetEntry, EncodeInodeSector, HasNul, NameOf, Entries;
    var n := fs.inodes[dir];
    var s := EntryCount(n);
    var d1 := PutEntry(fs, n, s, e).disk;
    var n2 := n.(size := n.size + 32);
    var d3 := Placed(fs, dir, e).disk;
    PutEntrySlots(fs, n, s, e);
    AppendSlot(n, fs.disk, d1, e);
    ApartResized(n, n2.size, d1, 1 + dir / 8, d3[1 + dir / 8]);
    EntriesFrame(n2, d1, d3);
  }

  /** `pafs_add_entry`, case by case. */
  lemma AddEntryCases(fs: Fs, dir: nat, name: CString, ino: u32)
    requires dir < 128 && fs.inodes[dir].kind == TYPE_DIR && EntryCount(fs.inodes[dir]) < 224
    ensures var s := EntryCount(fs.inodes[dir]);
            var e := EnsureCleared(fs, dir, s / 16);
            AddEntry(fs, dir, name, ino) ==
              (if e.code == -1 then Res(fs, -1)
               else
                 var n := e.fs.inodes[dir];
                 var fs1 := PutEntry(e.fs, n, s, NewEntry(Slot(n, e.fs.disk, s), ino, name));
                 Res(SaveInode(WithInode(fs1, dir, n.(size := Wrap(n.size + 32))), dir), 0))
  {
  }

  lemma AddEntryEffect(fs: Fs, dir: nat, name: CString, ino: u32, dirty: set<int>)
    requires dir < 128 && Core(fs, dirty) && DirsOk(fs) && fs.inodes[dir].kind == TYPE_DIR
    requires 0 < ino < 128
    ensures var r := AddEntry(fs, dir, name, ino);
            && (r.code == 0 || r.code == -1)
            && (r.code == -1 ==> r.fs == fs && (EntryCount(fs.inodes[dir]) == 224 || FirstClear(fs.bitmap) == -1))
            && (r.code == 0 ==>
                  && Core(r.fs, dirty - {1 + dir / 8}) && DirsOk(r.fs) && OthersSame(fs, r.fs, dir) && SbSame(fs, r.fs)
                  && r.fs.inodes[dir].kind == TYPE_DIR
                  && r.fs.inodes[dir].size == fs.inodes[dir].size + 32
                  && Entries(r.fs.inodes[dir], r.fs.disk)
                     == Entries(fs.inodes[dir], fs.disk) + [Binding(ino, Kept(name))])
  {
    hide Core, DirOk, OthersSame, EnsureCleared, NameOf, StoreName, EncodeInodeSector;
    var s := EntryCount(fs.inodes[dir]);
    if s < 224 {
      RoomForEntry(fs, dir, dirty);
      AddEntryCases(fs, dir, name, ino);
      var e := EnsureCleared(fs, dir, s / 16);
      if e.code != -1 {
        var n1 := e.fs.inodes[dir];
        var entry := NewEntry(Slot(n1, e.fs.disk, s), ino, name);
        var r := Placed(e.fs, dir, entry);
        StoredName(Slot(n1, e.fs.disk, s).name, name);
        PlacedCore(e.fs, dir, entry, dirty + {1 + dir / 8});
        PlacedDir(e.fs, dir, entry);
        assert dirty + {1 + dir / 8} - {1 + dir / 8} == dirty - {1 + dir / 8};
        OthersTransitive(fs, e.fs, r, dir);
        DirsFromOthers(fs, r, dir);
      }
    }
  }

  // ----- taking an entry out -----

  /**
    The bindings that remain when entry `t` is taken out.  The last binding moves
    into its place only if the two lie in different blocks; within one block the
    second write undoes that copy, so the last binding disappears instead.
   */
  function Dropped(e: seq<Binding>, t: nat): seq<Binding>
    requires t < |e|
  {
    var l := |e| - 1;
    (if t / 16 != l / 16 then e[t := e[l]] else e)[..l]
  }

  /** What taking out entry `t` does to each slot of a directory whose last entry is `l`. */
  ghost predicate DroppedSlots(n: Inode, d: Disk, d': Disk, t: nat, l: nat)
    requires l < 224
  {
    forall p {:trigger Slot(n, d', p)} :: 0 <= p < 224 && n.blocks[p / 16] != 0 ==>
      Slot(n, d', p) == (if p == l then ZeroEntry
                         else if p == t && t / 16 != l / 16 then Slot(n, d, l)
                         else Slot(n, d, p))
  }

  lemma DropEntrySlots(fs: Fs, n: Inode, t: nat, l: nat)
    requires BlocksApart(n) && t <= l < 224 && n.blocks[t / 16] != 0 && n.blocks[l / 16] != 0
    ensures DroppedSlots(n, fs.disk, DropEntry(fs, n, t, l).disk, t, l)
  {
    var last := fs.disk[BlockOf(n, l / 16)];
    var e := EntryAt(last, l % 16);
    var target := fs.disk[BlockOf(n, t / 16)];
    var d' := DropEntry(fs, n, t, l).disk;
    SetEntryAll(last, l % 16, ZeroEntry);
    SetEntryAll(target, t % 16, e);
    forall p {:trigger Slot(n, d', p)} | 0 <= p < 224 && n.blocks[p / 16] != 0
      ensures Slot(n, d', p)
              == (if p == l then ZeroEntry
                  else if p == t && t / 16 != l / 16 then Slot(n, fs.disk, l)
                  else Slot(n, fs.disk, p))
    {
      if p / 16 == l / 16 {
        assert p == l <==> p % 16 == l % 16;
      } else if p / 16 == t / 16 {
        assert p == t <==> p % 16 == t % 16;
        assert BlockOf(n, p / 16) != BlockOf(n, l / 16);
      } else {
        assert BlockOf(n, p / 16) != BlockOf(n, l / 16);
        assert BlockOf(n, p / 16) != BlockOf(n, t / 16);
      }
    }
  }

  lemma ShrunkSlots(n: Inode, d: Disk, d': Disk, t: nat, l: nat)
    requires DirOk(n, d) && t <= l == EntryCount(n) - 1 && DroppedSlots(n, d, d', t, l)
    ensures forall s {:trigger Slot(n, d', s)} :: 0 <= s < l ==>
              && n.blocks[s / 16] != 0 && 0 < Slot(n, d', s).inode < 128 && HasNul(Slot(n, d', s).name)
              && Slot(n, d', s) == (if s == t && t / 16 != l / 16 then Slot(n, d, l) else Slot(n, d, s))
  {
    assert n.blocks[l / 16] != 0 && 0 < Slot(n, d, l).inode < 128 && HasNul(Slot(n, d, l).name);
    forall s {:trigger Slot(n, d', s)} | 0 <= s < l
      ensures n.blocks[s / 16] != 0 && 0 < Slot(n, d', s).inode < 128 && HasNul(Slot(n, d', s).name)
      ensures Slot(n, d', s) == (if s == t && t / 16 != l / 16 then Slot(n, d, l) else Slot(n, d, s))
    {
      assert n.blocks[s / 16] != 0 && 0 < Slot(n, d, s).inode < 128 && HasNul(Slot(n, d, s).name);
    }
  }

  lemma ShrunkFree(n: Inode, d: Disk, d': Disk, t: nat, l: nat)
    requires DirOk(n, d) && t <= l == EntryCount(n) - 1 && DroppedSlots(n, d, d', t, l)
    ensures forall s {:trigger Slot(n, d', s)} :: l <= s < 224 && n.blocks[s / 16] != 0 ==> Slot(n, d', s).inode == 0
  {
    forall s {:trigger Slot(n, d', s)} | l <= s < 224 && n.blocks[s / 16] != 0
      ensures Slot(n, d', s).inode == 0
    {
      assert s > l ==> Slot(n, d, s).inode == 0;
    }
  }

  lemma ShrunkDir(n: Inode, d: Disk, d': Disk, t: nat, l: nat)
    requires DirOk(n, d) && t <= l == EntryCount(n) - 1 && DroppedSlots(n, d, d', t, l)
    ensures var n' := n.(size := n.size - 32);
            DirOk(n', d') && Entries(n', d') == Dropped(Entries(n, d), t)
  {
    hide HasNul, NameOf, EntryAt;
    var n' := n.(size := n.size - 32);
    assert EntryCount(n') == l;
    ShrunkSlots(n, d, d', t, l);
    ShrunkFree(n, d, d', t, l);
    assert forall s {:trigger Slot(n', d', s)} :: 0 <= s < 224 ==> Slot(n', d', s) == Slot(n, d', s);
    var e, e' := Entries(n, d), Dropped(Entries(n, d), t);
    forall s | 0 <= s < l
      ensures Entries(n', d')[s] == e'[s]
    {
      assert Slot(n, d', s) == (if s == t && t / 16 != l / 16 then Slot(n, d, l) else Slot(n, d, s));
    }
  }

  /** A write to block `k` of `dir`, or to metadata, leaves the other inodes' data. */
  lemma DropOthers(fs: Fs, dir: nat, t: nat, l: nat)
    requires dir < 128 && Own(fs.inodes, fs.bitmap) && t < 224 && l < 224
    requires fs.inodes[dir].blocks[t / 16] != 0 && fs.inodes[dir].blocks[l / 16] != 0
    ensures OthersSame(fs, DropEntry(fs, fs.inodes[dir], t, l), dir)
  {
    var n := fs.inodes[dir];
    var last := fs.disk[BlockOf(n, l / 16)];
    var fs1 := PutEntry(fs, n, t, EntryAt(last, l % 16));
    forall j | 0 <= j < 128 && j != dir
      ensures SameData(fs.inodes[j], fs.disk, DropEntry(fs, n, t, l).disk)
    {
      BlockIsPrivate(fs, dir, t / 16, j, fs1.disk[BlockOf(n, t / 16)]);
      BlockIsPrivate(fs1, dir, l / 16, j, SetEntry(last, l % 16, ZeroEntry));
      BlockIsPrivate(fs, dir, l / 16, j, SetEntry(last, l % 16, ZeroEntry));
    }
  }

  lemma DropCore(fs: Fs, dir: nat, t: nat, l: nat, dirty: set<int>)
    requires dir < 128 && Core(fs, dirty) && t < 224 && l < 224
    requires fs.inodes[dir].blocks[t / 16] != 0 && fs.inodes[dir].blocks[l / 16] != 0
    ensures Core(DropEntry(fs, fs.inodes[dir], t, l), dirty)
  {
    var n := fs.inodes[dir];
    OwnApart(fs.inodes, fs.bitmap, dir);
    var last := fs.disk[BlockOf(n, l / 16)];
    var fs1 := if t == l then fs else PutEntry(fs, n, t, EntryAt(last, l % 16));
    CoreSector(fs, BlockOf(n, t / 16), fs1.disk[BlockOf(n, t / 16)], dirty);
    assert t == l ==> fs1 == fs;
    CoreSector(fs1, BlockOf(n, l / 16), SetEntry(last, l % 16, ZeroEntry), dirty);
  }

  lemma SavedOthers(fs: Fs, fs1: Fs, i: nat, n: Inode)
    requires i < 128 && Own(fs.inodes, fs.bitmap) && OthersSame(fs, fs1, i)
    ensures OthersSame(fs, SaveInode(WithInode(fs1, i, n), i), i)
  {
    var fs3 := SaveInode(WithInode(fs1, i, n), i);
    forall j | 0 <= j < 128 && j != i
      ensures SameData(fs.inodes[j], fs.disk, fs3.disk)
    {
      OwnApart(fs.inodes, fs.bitmap, j);
      ApartFromMetadata(fs.inodes[j], fs1.disk, 1 + i / 8, fs3.disk[1 + i / 8]);
    }
  }

  /** The state after entry `t` has been taken out and the directory's inode saved. */
  function Removed(fs: Fs, dir: nat, t: nat): Fs
    requires dir < 128 && t < EntryCount(fs.inodes[dir])
  {
    var n := fs.inodes[dir];
    SaveInode(WithInode(DropEntry(fs, n, t, EntryCount(n) - 1), dir, n.(size := n.size - 32)), dir)
  }

  lemma RemovedCore(fs: Fs, dir: nat, t: nat, dirty: set<int>)
    requires dir < 128 && Core(fs, dirty) && fs.inodes[dir].kind == TYPE_DIR && t < EntryCount(fs.inodes[dir])
    requires fs.inodes[dir].blocks[t / 16] != 0 && fs.inodes[dir].blocks[(EntryCount(fs.inodes[dir]) - 1) / 16] != 0
    ensures Core(Removed(fs, dir, t), dirty - {1 + dir / 8}) && OthersSame(fs, Removed(fs, dir, t), dir)
  {
    hide Own, Synced, FreeClean, OthersSame, DropEntry, EncodeInodeSector;
    var n := fs.inodes[dir];
    var l := EntryCount(n) - 1;
    var n2 := n.(size := n.size - 32);
    var fs1 := DropEntry(fs, n, t, l);
    DropCore(fs, dir, t, l, dirty);
    CoreRetouch(fs1, dir, n2, dirty);
    CoreSaveInode(WithInode(fs1, dir, n2), dir, dirty + {1 + dir / 8});
    assert dirty + {1 + dir / 8} - {1 + dir / 8} == dirty - {1 + dir / 8};
    DropOthers(fs, dir, t, l);
    SavedOthers(fs, fs1, dir, n2);
  }

  lemma RemovedDir(fs: Fs, dir: nat, t: nat)
    requires dir < 128 && BlocksApart(fs.inodes[dir]) && DirOk(fs.inodes[dir], fs.disk)
    requires t < EntryCount(fs.inodes[dir])
    ensures var n, fs' := fs.inodes[dir], Removed(fs, dir, t);
            && fs'.inodes[dir] == n.(size := n.size - 32)
            && DirOk(fs'.inodes[dir], fs'.disk)
            && Entries(fs'.inodes[dir], fs'.disk) == Dropped(Entries(n, fs.disk), t)
            && n.blocks[t / 16] != 0 && n.blocks[(EntryCount(n) - 1) / 16] != 0
  {
    hide DirOk, BlocksApart, SameData, DropEntry, DroppedSlots, EncodeInodeSector, Entries, Slot;
    var n := fs.inodes[dir];
    var l := EntryCount(n) - 1;
    var n2 := n.(size := n.size - 32);
    var d1, d3 := DropEntry(fs, n, t, l).disk, Removed(fs, dir, t).disk;
    EntryHasBlock(n, fs.disk, t);
    EntryHasBlock(n, fs.disk, l);
    DropEntrySlots(fs, n, t, l);
    ShrunkDir(n, fs.disk, d1, t, l);
    ApartResized(n, n2.size, d1, 1 + dir / 8, d3[1 + dir / 8]);
    EntriesFrame(n2, d1, d3);
  }

  lemma RemoveEntryIs(fs: Fs, dir: nat, name: CString)
    requires dir < 128 && fs.inodes[dir].size >= 32 && FindSlot(fs.inodes[dir], fs.disk, name, 0) != -1
    ensures RemoveEntry(fs, dir, name) == Res(Removed(fs, dir, FindSlot(fs.inodes[dir], fs.disk, name, 0)), 0)
    ensures RemoveEntry(fs, dir, name).fs.sb == fs.sb && RemoveEntry(fs, dir, name).fs.bitmap == fs.bitmap
  {
  }

  /** `pafs_remove_entry` on a directory that has the name at slot `t`. */
  lemma RemoveEntryEffect(fs: Fs, dir: nat, name: CString, dirty: set<int>)
    requires dir < 128 && Core(fs, dirty) && DirsOk(fs) && fs.inodes[dir].kind == TYPE_DIR
    requires FindSlot(fs.inodes[dir], fs.disk, name, 0) != -1
    ensures var r := RemoveEntry(fs, dir, name);
            var n := fs.inodes[dir];
            && r.code == 0 && Core(r.fs, dirty - {1 + dir / 8}) && DirsOk(r.fs)
            && OthersSame(fs, r.fs, dir) && r.fs.sb == fs.sb && r.fs.bitmap == fs.bitmap
            && n.size >= 32 && r.fs.inodes[dir] == n.(size := n.size - 32)
            && Entries(r.fs.inodes[dir], r.fs.disk) == Dropped(Entries(n, fs.disk), FindSlot(n, fs.disk, name, 0))
  {
    var t := FindSlot(fs.inodes[dir], fs.disk, name, 0);
    OwnApart(fs.inodes, fs.bitmap, dir);
    RemovedDir(fs, dir, t);
    RemovedCore(fs, dir, t, dirty);
    RemoveEntryIs(fs, dir, name);
    DirsFromOthers(fs, Removed(fs, dir, t), dir);
  }
}
