/**
  Every operation of the file system keeps the invariant, and what else each
  of them promises: the bindings it adds or removes and what it leaves alone.
 */
module PafsOps {
  import opened Words
  import opened Bitmaps
  import opened PafsLayout
  import opened PafsState
  import opened PafsInv
  import opened PafsDirs

  // ----- lookups -----

  /** The bindings of the directory numbered `dir`. */
  function DirEntries(fs: Fs, dir: nat): seq<Binding>
    requires dir < 128
  {
    if fs.inodes[dir].kind == TYPE_DIR then Entries(fs.inodes[dir], fs.disk) else []
  }

  /** The position of the first binding of `name` in a list, or -1. */
  function Search(e: seq<Binding>, name: CString, from: nat): (r: int)
    ensures r == -1 || from <= r < |e|
    ensures r != -1 ==> e[r].name == name
    ensures forall j :: from <= j < (if r == -1 then |e| else r) ==> e[j].name != name
    decreases |e| - from
  {
    if from >= |e| then -1 else if e[from].name == name then from else Search(e, name, from + 1)
  }

  lemma {:induction false} FindSlotIsSearch(n: Inode, d: Disk, name: CString, from: nat)
    ensures FindSlot(n, d, name, from) == Search(Entries(n, d), name, from)
    decreases EntryCount(n) - from
  {
    if from < EntryCount(n) {
      FindSlotIsSearch(n, d, name, from + 1);
    }
  }

  /** `pafs_find_entry` is a search in the directory's list of bindings. */
  lemma FindIsSearch(fs: Fs, dir: nat, name: CString)
    requires dir < 128 && DirsOk(fs)
    ensures var e := DirEntries(fs, dir);
            var s := Search(e, name, 0);
            && Find(fs, dir, name) == (if s == -1 then -1 else e[s].ino)
            && (s != -1 ==>
                  && 0 < Find(fs, dir, name) < 128 && fs.inodes[dir].size >= 32
                  && fs.inodes[dir].kind == TYPE_DIR && FindSlot(fs.inodes[dir], fs.disk, name, 0) == s)
  {
    var n := fs.inodes[dir];
    if n.kind == TYPE_DIR {
      FindSlotIsSearch(n, fs.disk, name, 0);
      var s := FindSlot(n, fs.disk, name, 0);
      if s != -1 {
        assert n.blocks[s / 16] != 0 && 0 < Slot(n, fs.disk, s).inode < 128;
      }
    }
  }

  // ----- create -----

  /** A directory entry list seen through a state in which the directory is untouched. */
  lemma EntriesKept(fs: Fs, fs': Fs, j: nat)
    requires j < 128 && DirsOk(fs) && fs'.inodes[j] == fs.inodes[j] && SameData(fs.inodes[j], fs.disk, fs'.disk)
    ensures DirEntries(fs', j) == DirEntries(fs, j)
  {
    if fs.inodes[j].kind == TYPE_DIR {
      DirFrame(fs.inodes[j], fs.disk, fs'.disk);
      assert Entries(fs'.inodes[j], fs'.disk) == Entries(fs.inodes[j], fs.disk);
    }
  }

  lemma ClaimCore(fs: Fs, i: nat, isDir: bool)
    requires Inv(fs) && fs.sb.freeInodes > 0 && 0 < i < 128 && fs.inodes[i].kind == TYPE_FREE
    ensures Core(Claim(fs, i, isDir), {1 + i / 8}) && DirsOk(Claim(fs, i, isDir))
    ensures OthersSame(fs, Claim(fs, i, isDir), i) && DirEntries(Claim(fs, i, isDir), i) == []
  {
    hide Own, DirOk, DecodeSuperblock, EncodeInodeSector;
    var n := Inode(KindFor(isDir), 0, NoBlocks());
    assert fs.inodes[i].blocks == NoBlocks();
    var fs1 := WithInode(fs, i, n);
    CoreRetouch(fs, i, n, {});
    assert Core(fs1, {1 + i / 8}) by { assert {} + {1 + i / 8} == {1 + i / 8}; }
    var fs2 := Claim(fs, i, isDir);
    assert SuperblockSynced(fs2);
    InodesStaySynced(fs1, fs2, {1 + i / 8});
    EmptyDirOk(n, fs.disk);
    DirsFromOthers(fs, fs2, i);
  }

  /** A directory without entries and blocks is well formed. */
  lemma EmptyDirOk(n: Inode, d: Disk)
    requires n.size == 0 && n.blocks == NoBlocks()
    ensures DirOk(n, d)
  {
    hide Slot, HasNul;
    forall s {:trigger Slot(n, d, s)} | 0 <= s < 224
      ensures n.blocks[s / 16] == 0
    {
      var k := s / 16;
      assert 0 <= k < 14 && NoBlocks()[k] == 0;
    }
    assert forall k :: 0 <= k < 14 ==> n.blocks[k] == 0;
    assert EntryCount(n) == 0;
  }

  /** Undoing a claim whose entry could not be added gives back the very state it started from. */
  lemma ClaimUndone(fs: Fs, i: nat, isDir: bool)
    requires Inv(fs) && 0 < fs.sb.freeInodes && 0 < i < 128 && fs.inodes[i].kind == TYPE_FREE
    ensures var a := Claim(fs, i, isDir);
            var b := WithInode(a, i, a.inodes[i].(kind := TYPE_FREE));
            b.(sb := b.sb.(freeInodes := Wrap(b.sb.freeInodes + 1))) == fs
  {
    var a := Claim(fs, i, isDir);
    assert fs.inodes[i] == Inode(TYPE_FREE, 0, NoBlocks());
    assert a.inodes[i := a.inodes[i].(kind := TYPE_FREE)] == fs.inodes;
  }

  /** Inodes other than the new one and its parent, and their data, are as before. */
  ghost predicate RestSame(fs: Fs, fs': Fs, i: int, parent: int) {
    forall j :: 0 <= j < 128 && j != i && j != parent ==>
      fs'.inodes[j] == fs.inodes[j] && SameData(fs.inodes[j], fs.disk, fs'.disk)
  }

  /** One inode fewer is counted free, and nothing but the free counts changed in the superblock. */
  ghost predicate InodeTaken(fs: Fs, fs': Fs) {
    fs.sb.freeInodes > 0 && fs'.sb == fs.sb.(freeInodes := fs.sb.freeInodes - 1, freeBlocks := fs'.sb.freeBlocks)
  }

  lemma ClaimTakes(fs: Fs, i: nat, isDir: bool, a: Fs)
    requires i < 128 && fs.sb.freeInodes > 0 && SbSame(Claim(fs, i, isDir), a)
    ensures InodeTaken(fs, a)
  {
  }

  /** What a successful create has done. */
  ghost predicate Created(fs: Fs, fs': Fs, parent: nat, name: CString, isDir: bool, i: int)
    requires parent < 128
  {
    && 0 < i < 128 && fs.inodes[i].kind == TYPE_FREE && fs.sb.freeInodes > 0
    && fs'.inodes[i].kind == KindFor(isDir) && (i != parent ==> fs'.inodes[i] == Inode(KindFor(isDir), 0, NoBlocks()))
    && RestSame(fs, fs', i, parent)
    && fs'.inodes[parent].kind == TYPE_DIR && (fs.inodes[parent].kind == TYPE_DIR || i == parent)
    && DirEntries(fs', parent) == DirEntries(fs, parent) + [Binding(i, Kept(name))]
    && InodeTaken(fs, fs')
  }

  lemma CreateFails(fs: Fs, parent: nat, name: CString, isDir: bool)
    requires Inv(fs) && parent < 128
    requires Create(fs, parent, name, isDir).code == -1
    ensures Create(fs, parent, name, isDir).fs == fs
  {
    hide Own, Synced, FreeClean, DirOk, OthersSame, DirEntries, Find;
    var i := FirstFree(fs.inodes);
    if fs.sb.freeInodes != 0 && Find(fs, parent, name) == -1 && i != -1 {
      var c := Claim(fs, i, isDir);
      ClaimCore(fs, i, isDir);
      if c.inodes[parent].kind == TYPE_DIR {
        AddEntryEffect(c, parent, name, i, {1 + i / 8});
      }
      ClaimUndone(fs, i, isDir);
    }
  }

  /** `pafs_create` either changes nothing or adds exactly one binding, to a fresh inode. */
  lemma CreateEffect(fs: Fs, parent: nat, name: CString, isDir: bool)
    requires Inv(fs) && parent < 128
    ensures var r := Create(fs, parent, name, isDir);
            && Inv(r.fs)
            && (r.code == -1 ==> r.fs == fs)
            && (r.code != -1 ==> Created(fs, r.fs, parent, name, isDir, r.code) && Find(fs, parent, name) == -1)
  {
    var r := Create(fs, parent, name, isDir);
    if r.code == -1 {
      CreateFails(fs, parent, name, isDir);
    } else {
      var i := FirstFree(fs.inodes);
      var c := Claim(fs, i, isDir);
      ClaimCore(fs, i, isDir);
      assert c.inodes[parent].kind == TYPE_DIR;
      AddEntryEffect(c, parent, name, i, {1 + i / 8});
      CreatedInv(fs, parent, name, isDir);
      CreatedRest(fs, parent, name, isDir);
    }
  }

  /** Saving an inode is invisible to every directory and file. */
  lemma SaveInodeQuiet(fs: Fs, i: nat, dirty: set<int>)
    requires i < 128 && Core(fs, dirty) && DirsOk(fs)
    ensures var r := SaveInode(fs, i);
            && Core(r, dirty - {1 + i / 8}) && DirsOk(r)
            && (forall j :: 0 <= j < 128 ==> SameData(fs.inodes[j], fs.disk, r.disk) && DirEntries(r, j) == DirEntries(fs, j))
  {
    var r := SaveInode(fs, i);
    CoreSaveInode(fs, i, dirty);
    forall j | 0 <= j < 128
      ensures SameData(fs.inodes[j], fs.disk, r.disk) && DirEntries(r, j) == DirEntries(fs, j)
    {
      MetadataIsNotData(fs, j, 1 + i / 8, r.disk[1 + i / 8]);
      EntriesKept(fs, r, j);
    }
    DirsFrame(fs, r.disk);
  }

  /** The steps of a successful create. */
  lemma CreateSteps(fs: Fs, parent: nat, name: CString, isDir: bool) returns (i: nat, c: Fs, a: Fs)
    requires Inv(fs) && parent < 128
    requires Create(fs, parent, name, isDir).code != -1
    ensures 0 < i < 128 && fs.inodes[i].kind == TYPE_FREE && fs.sb.freeInodes > 0
    ensures c == Claim(fs, i, isDir) && OthersSame(fs, c, i) && DirEntries(c, i) == []
    ensures AddEntry(c, parent, name, i) == Res(a, 0) && OthersSame(c, a, parent) && InodeTaken(fs, a)
    ensures Core(a, {1 + i / 8} - {1 + parent / 8}) && DirsOk(a)
    ensures c.inodes[parent].kind == TYPE_DIR && a.inodes[parent].kind == TYPE_DIR
    ensures DirEntries(a, parent) == DirEntries(c, parent) + [Binding(i, Kept(name))]
    ensures Create(fs, parent, name, isDir) == Res(SaveInode(a, i), i)
  {
    hide Own, Synced, FreeClean, DirOk, OthersSame, Find, Entries;
    i := FirstFree(fs.inodes);
    c := Claim(fs, i, isDir);
    ClaimCore(fs, i, isDir);
    assert c.inodes[parent].kind == TYPE_DIR;
    AddEntryEffect(c, parent, name, i, {1 + i / 8});
    a := AddEntry(c, parent, name, i).fs;
    ClaimTakes(fs, i, isDir, a);
  }

  lemma CreatedInv(fs: Fs, parent: nat, name: CString, isDir: bool)
    requires Inv(fs) && parent < 128
    requires Create(fs, parent, name, isDir).code != -1
    ensures Inv(Create(fs, parent, name, isDir).fs)
  {
    var i, c, a := CreateSteps(fs, parent, name, isDir);
    SaveInodeQuiet(a, i, {1 + i / 8} - {1 + parent / 8});
    assert {1 + i / 8} - {1 + parent / 8} - {1 + i / 8} == {};
  }

  /** Two steps, each of which leaves an inode and its data alone. */
  lemma KeptTwice(fs: Fs, fs': Fs, fs'': Fs, j: nat)
    requires j < 128
    requires fs'.inodes[j] == fs.inodes[j] && SameData(fs.inodes[j], fs.disk, fs'.disk)
    requires fs''.inodes[j] == fs'.inodes[j] && SameData(fs'.inodes[j], fs'.disk, fs''.disk)
    ensures fs''.inodes[j] == fs.inodes[j] && SameData(fs.inodes[j], fs.disk, fs''.disk)
  {
  }

  lemma RestSameChain(fs: Fs, c: Fs, a: Fs, r: Fs, i: nat, parent: nat)
    requires OthersSame(fs, c, i) && OthersSame(c, a, parent) && r.inodes == a.inodes
    requires forall j :: 0 <= j < 128 ==> SameData(a.inodes[j], a.disk, r.disk)
    ensures RestSame(fs, r, i, parent)
  {
    forall j | 0 <= j < 128 && j != i && j != parent
      ensures r.inodes[j] == fs.inodes[j] && SameData(fs.inodes[j], fs.disk, r.disk)
    {
      KeptTwice(fs, c, a, j);
      KeptTwice(fs, a, r, j);
    }
  }

  lemma NoEntries(fs: Fs, i: nat)
    requires i < 128 && fs.inodes[i].kind != TYPE_DIR
    ensures DirEntries(fs, i) == []
  {
  }

  lemma CreatedRest(fs: Fs, parent: nat, name: CString, isDir: bool)
    requires Inv(fs) && parent < 128
    requires Create(fs, parent, name, isDir).code != -1
    ensures var r := Create(fs, parent, name, isDir);
            Created(fs, r.fs, parent, name, isDir, r.code)
  {
    hide Create, Core, DirsOk, DirEntries, SameData, RestSame, EncodeInodeSector, AddEntry;
    var i, c, a := CreateSteps(fs, parent, name, isDir);
    var r := SaveInode(a, i);
    SaveInodeQuiet(a, i, {1 + i / 8} - {1 + parent / 8});
    RestSameChain(fs, c, a, r, i, parent);
    if parent != i {
      EntriesKept(fs, c, parent);
    } else {
      NoEntries(fs, i);
    }
    assert DirEntries(r, parent) == DirEntries(a, parent);
  }

  /** An entry for which the directory has a block already. */
  lemma AddEntryInPlace(fs: Fs, dir: nat, name: CString, ino: u32)
    requires dir < 128 && EntryCount(fs.inodes[dir]) < 224
    requires fs.inodes[dir].blocks[EntryCount(fs.inodes[dir]) / 16] != 0
    ensures AddEntry(fs, dir, name, ino).fs.bitmap == fs.bitmap
  {
    hide SetEntry, EncodeInodeSector, NewEntry, Slot;
    assert EnsureCleared(fs, dir, EntryCount(fs.inodes[dir]) / 16).fs == fs;
  }

  /** A create that needs no new block for its entry leaves the bitmap alone. */
  lemma CreateKeepsBitmap(fs: Fs, parent: nat, name: CString, isDir: bool)
    requires parent < 128 && Inv(fs)
    requires EntryCount(fs.inodes[parent]) < 224 && fs.inodes[parent].blocks[EntryCount(fs.inodes[parent]) / 16] != 0
    ensures Create(fs, parent, name, isDir).fs.bitmap == fs.bitmap
  {
    hide Own, Synced, DirOk, AddEntry, EncodeInodeSector, Find;
    var i := FirstFree(fs.inodes);
    if i != -1 {
      assert fs.inodes[i].blocks == NoBlocks();
      assert i != parent;
      AddEntryInPlace(Claim(fs, i, isDir), parent, name, i);
    }
  }

  // ----- delete -----

  lemma GiveBlock(fs: Fs, i: nat, k: nat, dirty: set<int>)
    requires i < 128 && k < 14 && Core(fs, dirty) && fs.inodes[i].kind != TYPE_FREE && fs.inodes[i].blocks[k] != 0
    requires {LBA_SUPERBLOCK, LBA_BITMAP, 1 + i / 8} <= dirty
    ensures Core(WithBlock(MarkBlock(fs, BlockOf(fs.inodes[i], k), false), i, k, 0), dirty)
  {
    var b := fs.inodes[i].blocks[k];
    var fs1 := MarkBlock(fs, b, false);
    CountPut(fs.bitmap, b, false, 4096);
    OwnGive(fs.inodes, fs.bitmap, i, k);
    InodesStaySynced(fs, fs1, dirty);
    SyncedWithInode(fs1, i, fs.inodes[i].(blocks := fs.inodes[i].blocks[k := 0]), dirty);
    assert dirty + {1 + i / 8} == dirty;
  }

  lemma {:induction false} FreeBlocksEffect(fs: Fs, i: nat, k: nat, dirty: set<int>)
    requires i < 128 && k <= 14 && Core(fs, dirty)
    requires {LBA_SUPERBLOCK, LBA_BITMAP, 1 + i / 8} <= dirty
    requires forall l :: 0 <= l < k ==> fs.inodes[i].blocks[l] == 0
    ensures var r := FreeBlocks(fs, i, k);
            && Core(r, dirty) && r.disk == fs.disk && SbSame(fs, r)
            && r.inodes == fs.inodes[i := fs.inodes[i].(blocks := NoBlocks())]
    decreases 14 - k
  {
    if k == 14 {
      assert fs.inodes[i].blocks == NoBlocks();
    } else if fs.inodes[i].blocks[k] == 0 {
      FreeBlocksEffect(fs, i, k + 1, dirty);
    } else {
      GiveBlock(fs, i, k, dirty);
      var fs1 := WithBlock(MarkBlock(fs, BlockOf(fs.inodes[i], k), false), i, k, 0);
      FreeBlocksEffect(fs1, i, k + 1, dirty);
    }
  }

  lemma MoreDirty(fs: Fs, dirty: set<int>, dirty': set<int>)
    requires Core(fs, dirty) && dirty <= dirty'
    ensures Core(fs, dirty')
  {
  }

  /** Releasing an inode gives back all its blocks and leaves it clean. */
  lemma ReleaseEffect(fs: Fs, i: nat)
    requires 0 < i < 128 && Inv(fs)
    ensures var r := Release(fs, i);
            && Core(r, {LBA_SUPERBLOCK, LBA_BITMAP, 1 + i / 8}) && r.disk == fs.disk
            && r.inodes == fs.inodes[i := FreeInode]
            && r.sb == fs.sb.(freeInodes := Wrap(fs.sb.freeInodes + 1), freeBlocks := r.sb.freeBlocks)
  {
    var dirty := {LBA_SUPERBLOCK, LBA_BITMAP, 1 + i / 8};
    MoreDirty(fs, {}, dirty);
    FreeBlocksEffect(fs, i, 0, dirty);
    var fs1 := FreeBlocks(fs, i, 0);
    CoreRetouch(fs1, i, FreeInode, dirty);
    assert dirty + {1 + i / 8} == dirty;
    InodesStaySynced(WithInode(fs1, i, FreeInode), Release(fs, i), dirty);
  }

  /** Saving superblock, bitmap and an inode is invisible to every directory and file. */
  lemma FlushQuiet(fs: Fs, i: nat, dirty: set<int>)
    requires i < 128 && Core(fs, dirty) && DirsOk(fs) && dirty <= {LBA_SUPERBLOCK, LBA_BITMAP, 1 + i / 8}
    ensures var r := SaveInode(SaveBitmap(SaveSuperblock(fs)), i);
            && Inv(r)
            && (forall j :: 0 <= j < 128 ==> SameData(fs.inodes[j], fs.disk, r.disk) && DirEntries(r, j) == DirEntries(fs, j))
  {
    var fs1 := SaveSuperblock(fs);
    var fs2 := SaveBitmap(fs1);
    SyncedSaveSuperblock(fs, dirty);
    SyncedSaveBitmap(fs1, dirty - {LBA_SUPERBLOCK});
    forall j | 0 <= j < 128
      ensures SameData(fs.inodes[j], fs.disk, fs2.disk) && DirEntries(fs2, j) == DirEntries(fs, j)
    {
      MetadataIsNotData(fs, j, LBA_SUPERBLOCK, fs1.disk[LBA_SUPERBLOCK]);
      MetadataIsNotData(fs1, j, LBA_BITMAP, fs.bitmap);
      EntriesKept(fs, fs2, j);
    }
    DirsFrame(fs, fs2.disk);
    SaveInodeQuiet(fs2, i, dirty - {LBA_SUPERBLOCK} - {LBA_BITMAP});
    assert dirty - {LBA_SUPERBLOCK} - {LBA_BITMAP} - {1 + i / 8} == {};
  }

  /** What a successful delete has done: inode `i`, bound at position `t`, is gone. */
  ghost predicate Deleted(fs: Fs, fs': Fs, parent: nat, t: nat, i: int)
    requires parent < 128 && t < |DirEntries(fs, parent)|
  {
    && 0 < i < 128 && i != parent && fs'.inodes[i] == FreeInode
    && fs.inodes[parent].kind == TYPE_DIR && fs.inodes[parent].size >= 32
    && fs'.inodes[parent] == fs.inodes[parent].(size := fs.inodes[parent].size - 32)
    && RestSame(fs, fs', i, parent)
    && DirEntries(fs', parent) == Dropped(DirEntries(fs, parent), t)
    && fs'.sb == fs.sb.(freeInodes := Wrap(fs.sb.freeInodes + 1), freeBlocks := fs'.sb.freeBlocks)
  }

  lemma DirsAfterRelease(fs: Fs, rel: Fs, i: nat)
    requires i < 128 && DirsOk(fs) && rel.disk == fs.disk && rel.inodes == fs.inodes[i := FreeInode]
    ensures DirsOk(rel)
  {
  }

  /** Whether a bound name may be deleted: a directory must be empty. */
  ghost predicate Deletable(fs: Fs, i: nat)
    requires i < 128
  {
    fs.inodes[i].kind == TYPE_DIR ==> fs.inodes[i].size == 0
  }

  /** `pafs_delete`, case by case. */
  lemma DeleteCases(fs: Fs, parent: nat, name: CString)
    requires Inv(fs) && parent < 128
    ensures var s := Search(DirEntries(fs, parent), name, 0);
            && (s == -1 ==> Delete(fs, parent, name) == Res(fs, -1))
            && (s != -1 ==>
                  var i := DirEntries(fs, parent)[s].ino;
                  && 0 < i < 128 && fs.inodes[parent].kind == TYPE_DIR && fs.inodes[parent].size >= 32
                  && (!Deletable(fs, i) ==> Delete(fs, parent, name) == Res(fs, -2))
                  && (Deletable(fs, i) ==>
                        var r := RemoveEntry(Release(fs, i), parent, name);
                        && i != parent
                        && Delete(fs, parent, name) == Res(SaveInode(SaveBitmap(SaveSuperblock(r.fs)), i), r.code)))
  {
    FindIsSearch(fs, parent, name);
  }

  lemma DeleteSteps(fs: Fs, parent: nat, name: CString, i: nat)
    requires Inv(fs) && parent < 128 && 0 < i < 128 && i != parent
    requires fs.inodes[parent].kind == TYPE_DIR && fs.inodes[parent].size >= 32
    requires Search(DirEntries(fs, parent), name, 0) != -1
    ensures var rel := Release(fs, i);
            var r := RemoveEntry(rel, parent, name);
            && r.code == 0
            && Core(r.fs, {LBA_SUPERBLOCK, LBA_BITMAP, 1 + i / 8} - {1 + parent / 8}) && DirsOk(r.fs)
            && OthersSame(rel, r.fs, parent) && r.fs.sb == rel.sb
            && r.fs.inodes[parent] == fs.inodes[parent].(size := fs.inodes[parent].size - 32)
            && DirEntries(r.fs, parent) == Dropped(DirEntries(fs, parent), Search(DirEntries(fs, parent), name, 0))
  {
    var rel := Release(fs, i);
    ReleaseEffect(fs, i);
    DirsAfterRelease(fs, rel, i);
    FindSlotIsSearch(fs.inodes[parent], fs.disk, name, 0);
    assert rel.inodes[parent] == fs.inodes[parent];
    RemoveEntryEffect(rel, parent, name, {LBA_SUPERBLOCK, LBA_BITMAP, 1 + i / 8});
  }

  lemma RestSameReleased(fs: Fs, rel: Fs, rem: Fs, r: Fs, i: nat, parent: nat)
    requires i < 128 && rel.disk == fs.disk && rel.inodes == fs.inodes[i := FreeInode]
    requires OthersSame(rel, rem, parent) && r.inodes == rem.inodes
    requires forall j :: 0 <= j < 128 ==> SameData(rem.inodes[j], rem.disk, r.disk)
    ensures RestSame(fs, r, i, parent) && (i != parent ==> r.inodes[i] == FreeInode)
  {
    assert OthersSame(fs, rel, i);
    RestSameChain(fs, rel, rem, r, i, parent);
  }

  /** `pafs_delete` either changes nothing or frees the inode found and drops its binding. */
  lemma DeleteEffect(fs: Fs, parent: nat, name: CString)
    requires Inv(fs) && parent < 128
    ensures var r := Delete(fs, parent, name);
            var t := Search(DirEntries(fs, parent), name, 0);
            && Inv(r.fs) && -2 <= r.code <= 0
            && (r.code == -1 <==> t == -1)
            && (r.code == -2 <==> t != -1 && DirEntries(fs, parent)[t].ino < 128 && !Deletable(fs, DirEntries(fs, parent)[t].ino))
            && (r.code != 0 ==> r.fs == fs)
            && (r.code == 0 ==> t != -1 && Deleted(fs, r.fs, parent, t, DirEntries(fs, parent)[t].ino))
  {
    DeleteCases(fs, parent, name);
    var t := Search(DirEntries(fs, parent), name, 0);
    if t != -1 {
      var i := DirEntries(fs, parent)[t].ino;
      if Deletable(fs, i) {
        DeleteDone(fs, parent, name, i);
      }
    }
  }

  lemma DeleteDone(fs: Fs, parent: nat, name: CString, i: nat)
    requires Inv(fs) && parent < 128 && 0 < i < 128 && i != parent
    requires fs.inodes[parent].kind == TYPE_DIR && fs.inodes[parent].size >= 32
    requires Search(DirEntries(fs, parent), name, 0) != -1
    ensures var rem := RemoveEntry(Release(fs, i), parent, name);
            var r := SaveInode(SaveBitmap(SaveSuperblock(rem.fs)), i);
            && rem.code == 0 && Inv(r) && Deleted(fs, r, parent, Search(DirEntries(fs, parent), name, 0), i)
  {
    var rel := Release(fs, i);
    ReleaseEffect(fs, i);
    DeleteSteps(fs, parent, name, i);
    var rem := RemoveEntry(rel, parent, name).fs;
    FlushQuiet(rem, i, {LBA_SUPERBLOCK, LBA_BITMAP, 1 + i / 8} - {1 + parent / 8});
    RestSameReleased(fs, rel, rem, SaveInode(SaveBitmap(SaveSuperblock(rem)), i), i, parent);
  }
}
