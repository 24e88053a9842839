/**
  Exactly when an operation on the root directory changes, in the map from names to bytes, the
  name it is asked to change and no other; that it always does in good states; and a run in
  which it does not.
 */
module PafsExact {
  import opened Words
  import opened PafsLayout
  import opened PafsState
  import opened PafsInv
  import opened PafsDirs
  import opened PafsOps
  import opened PafsFiles
  import opened PafsReads
  import opened PafsTree
  import opened PafsRuns
  import opened PafsRoom
  import opened PafsGaps
  import opened PafsGood
  import opened PafsMap
  import opened PafsNames
  import opened PafsCounts
  import opened PafsLength

  /** Every other name of inode `i` is, already, a file with the bytes `c`. */
  ghost predicate Alone(fs: Fs, name: CString, i: int, c: seq<byte>) {
    forall n: CString {:trigger n in Root(fs)} ::
      n in Root(fs) && n != name && Root(fs)[n] == i ==> n in Files(fs) && Files(fs)[n] == c
  }

  /** No name of the root stands for the inode that a create hands out next. */
  ghost predicate NoStale(fs: Fs) {
    forall n: CString {:trigger n in Root(fs)} :: n in Root(fs) ==> Root(fs)[n] != FirstFree(fs.inodes)
  }

  /** If `n` is a file of another inode than `i`, its holes show with `s0` in sector 0 what they show now. */
  predicate ShowsSame(fs: Fs, n: CString, i: int, s0: Sector) {
    n in Files(fs) && Root(fs)[n] != i && Root(fs)[n] < 128 ==> SeenWith(fs, Root(fs)[n], s0) == Files(fs)[n]
  }

  ghost predicate HolesShow(fs: Fs, i: int, s0: Sector) {
    forall n: CString :: ShowsSame(fs, n, i, s0)
  }

  /** Two maps say the same of a name. */
  predicate Agree(m: map<CString, seq<byte>>, m': map<CString, seq<byte>>, n: CString) {
    (n in m <==> n in m') && (n in m && n in m' ==> m[n] == m'[n])
  }

  lemma AgreeIff(m: map<CString, seq<byte>>, m': map<CString, seq<byte>>)
    ensures m == m' <==> forall n: CString :: Agree(m, m', n)
  {
    if forall n: CString :: Agree(m, m', n) {
      assert forall n: CString :: Agree(m, m', n) ==> (n in m <==> n in m');
      assert forall n: CString :: n in m && Agree(m, m', n) ==> m[n] == m'[n];
    }
  }

  // ----- one name -----

  /** If `n` is another name of inode `i`, it is, already, a file with the bytes `c`. */
  predicate SharesSame(fs: Fs, name: CString, i: int, c: seq<byte>, n: CString) {
    n in Root(fs) && n != name && Root(fs)[n] == i ==> n in Files(fs) && Files(fs)[n] == c
  }

  lemma AloneIs(fs: Fs, name: CString, i: int, c: seq<byte>)
    ensures Alone(fs, name, i, c) <==> forall n: CString :: SharesSame(fs, name, i, c, n)
  {
    hide Root, Files;
    if Alone(fs, name, i, c) {
      forall n: CString
        ensures SharesSame(fs, name, i, c, n)
      {
      }
    }
    if forall n: CString :: SharesSame(fs, name, i, c, n) {
      forall n: CString | n in Root(fs) && n != name && Root(fs)[n] == i
        ensures n in Files(fs) && Files(fs)[n] == c
      {
        assert SharesSame(fs, name, i, c, n);
      }
    }
  }

  /** The map that is meant: `name` is the file `c`, unless the name went to another inode before. */
  function Meant(fs: Fs, fs': Fs, name: CString, i: int, c: seq<byte>): map<CString, seq<byte>> {
    if name in Root(fs') && Root(fs')[name] == i then Files(fs)[name := c] else Files(fs)
  }

  lemma OneName(fs: Fs, fs': Fs, name: CString, i: u32, c: seq<byte>, n: CString)
    requires Inv(fs) && OneInode(fs, fs', i, true, c) && Root(fs') == Bind(Root(fs), name, i)
    ensures Agree(Meant(fs, fs', name, i, c), Files(fs'), n) <==>
            SharesSame(fs, name, i, c, n) && ShowsSame(fs, n, i, fs'.disk[LBA_SUPERBLOCK])
  {
    hide Inv, Root, Files, FileOf, SeenWith, OneInode;
    InFiles(fs, n);
    InFiles(fs', n);
    FindInRoot(fs, n);
    if n in Root(fs') {
      NowAt(fs, fs', n, i, true, c);
    }
  }

  /** One file changed: the map changes as meant exactly when the inode has no other name and holes show what they did. */
  lemma FilesExactIff(fs: Fs, fs': Fs, name: CString, i: u32, c: seq<byte>)
    requires Inv(fs) && OneInode(fs, fs', i, true, c) && Root(fs') == Bind(Root(fs), name, i)
    ensures Files(fs') == Meant(fs, fs', name, i, c)
            <==> Alone(fs, name, i, c) && HolesShow(fs, i, fs'.disk[LBA_SUPERBLOCK])
  {
    hide Inv, Root, Files, OneInode, Alone, Agree, SharesSame, ShowsSame, Bind, Meant;
    AgreeIff(Meant(fs, fs', name, i, c), Files(fs'));
    AloneIs(fs, name, i, c);
    forall n: CString
      ensures Agree(Meant(fs, fs', name, i, c), Files(fs'), n) <==>
            SharesSame(fs, name, i, c, n) && ShowsSame(fs, n, i, fs'.disk[LBA_SUPERBLOCK])
    {
      OneName(fs, fs', name, i, c, n);
    }
  }

  /** An inode that is no file, before and after. */
  lemma NoFileExactIff(fs: Fs, fs': Fs, name: CString, i: u32)
    requires Inv(fs) && 0 < i < 128 && OneInode(fs, fs', i, false, []) && Root(fs') == Bind(Root(fs), name, i)
    requires fs.inodes[i].kind != TYPE_FILE
    ensures Files(fs') == Files(fs) <==> HolesShow(fs, i, fs'.disk[LBA_SUPERBLOCK])
  {
    hide Inv, Root, Files, OneInode, Agree, ShowsSame, Bind;
    AgreeIff(Files(fs), Files(fs'));
    forall n: CString
      ensures Agree(Files(fs), Files(fs'), n) <==> ShowsSame(fs, n, i, fs'.disk[LBA_SUPERBLOCK])
    {
      NoFileName(fs, fs', name, i, n);
    }
  }

  lemma NoFileName(fs: Fs, fs': Fs, name: CString, i: u32, n: CString)
    requires Inv(fs) && 0 < i < 128 && OneInode(fs, fs', i, false, []) && Root(fs') == Bind(Root(fs), name, i)
    requires fs.inodes[i].kind != TYPE_FILE
    ensures Agree(Files(fs), Files(fs'), n) <==> ShowsSame(fs, n, i, fs'.disk[LBA_SUPERBLOCK])
  {
    hide Inv, Root, Files, FileOf, SeenWith, OneInode;
    InFiles(fs, n);
    InFiles(fs', n);
    FindInRoot(fs, n);
    if n in Root(fs') {
      NowAt(fs, fs', n, i, false, []);
    }
  }

  /** `n` is no other name of inode `i` and a file. */
  predicate NotAlso(fs: Fs, name: CString, i: int, n: CString) {
    n in Files(fs) && n != name ==> Root(fs)[n] != i
  }

  /** No name of a file but `name` stands for inode `i`. */
  ghost predicate OnlyName(fs: Fs, name: CString, i: int) {
    forall n: CString :: NotAlso(fs, name, i, n)
  }

  lemma GoneExactIff(fs: Fs, fs': Fs, name: CString, i: u32)
    requires Inv(fs) && OneInode(fs, fs', i, false, []) && name in Root(fs) && Root(fs)[name] == i && Root(fs') == Root(fs) - {name}
    ensures Files(fs') == Files(fs) - {name} <==> OnlyName(fs, name, i) && HolesShow(fs, i, fs'.disk[LBA_SUPERBLOCK])
  {
    hide Inv, Root, Files, OneInode, Agree, ShowsSame, NotAlso;
    AgreeIff(Files(fs) - {name}, Files(fs'));
    forall n: CString
      ensures Agree(Files(fs) - {name}, Files(fs'), n) <==>
              NotAlso(fs, name, i, n) && ShowsSame(fs, n, i, fs'.disk[LBA_SUPERBLOCK])
    {
      GoneName(fs, fs', name, i, n);
    }
  }

  lemma GoneName(fs: Fs, fs': Fs, name: CString, i: u32, n: CString)
    requires Inv(fs) && OneInode(fs, fs', i, false, []) && name in Root(fs) && Root(fs)[name] == i && Root(fs') == Root(fs) - {name}
    ensures Agree(Files(fs) - {name}, Files(fs'), n) <==>
            NotAlso(fs, name, i, n) && ShowsSame(fs, n, i, fs'.disk[LBA_SUPERBLOCK])
  {
    hide Inv, Root, Files, FileOf, SeenWith, OneInode;
    InFiles(fs, n);
    InFiles(fs', n);
    FindInRoot(fs, n);
    if n in Root(fs') {
      NowAt(fs, fs', n, i, false, []);
    }
  }

  // ----- the operations -----

  lemma RootNameShort(fs: Fs, n: CString)
    requires Inv(fs) && n in Root(fs)
    ensures |n| <= 27 && Kept(n) == n
  {
    hide Inv, BindingMap, DirEntries;
    InMap(DirEntries(fs, 0), n);
    EntryNamesShort(fs, 0, Search(DirEntries(fs, 0), n, 0));
  }

  /** A name of the inode that a create hands out is no file before. */
  lemma StaleIsNoFile(fs: Fs, n: CString)
    requires n in Files(fs)
    ensures Root(fs)[n] != FirstFree(fs.inodes)
  {
    InFiles(fs, n);
  }

  lemma StaleIff(fs: Fs, k: CString)
    requires k in Root(fs) ==> Root(fs)[k] != FirstFree(fs.inodes)
    ensures Alone(fs, k, FirstFree(fs.inodes), []) <==> NoStale(fs)
  {
    hide Root, Files;
    forall n: CString | n in Files(fs)
      ensures n in Root(fs) && Root(fs)[n] != FirstFree(fs.inodes)
    {
      InFiles(fs, n);
      StaleIsNoFile(fs, n);
    }
  }

  /**
    `pafs_create` adds an empty file, or leaves the files as they are for a directory, exactly when no name of the
    root stands for the inode handed out and holes show what they did; other names are files
    as before exactly when no name stands for that inode.
   */
  lemma CreateExactIff(fs: Fs, name: CString, isDir: bool)
    requires Inv(fs) && Create(fs, 0, name, isDir).code != -1
    ensures var r, k := Create(fs, 0, name, isDir), Kept(name);
            && (Files(r.fs) == (if isDir || k in Root(fs) then Files(fs) else Files(fs)[k := []])
                <==> (isDir || NoStale(fs)) && HolesShow(fs, r.code, r.fs.disk[LBA_SUPERBLOCK]))
            && ((forall n: CString {:trigger n in Root(fs)} :: n in Root(fs) ==> (n in Files(r.fs) <==> n in Files(fs)))
                <==> isDir || NoStale(fs))
            && r.fs.disk[LBA_SUPERBLOCK] == if NeedsBlock(fs.inodes[0]) then EncodeSuperblock(r.fs.sb) else fs.disk[LBA_SUPERBLOCK]
  {
    hide Inv, Create, Root, Files, Alone, HolesShow, OneInode, EncodeSuperblock, NeedsBlock;
    var r, k := Create(fs, 0, name, isDir), Kept(name);
    CreateRefines(fs, name, isDir);
    CreateSaved(fs, 0, name, isDir);
    CreateSameFiles(fs, r.fs, k, r.code, isDir);
    if isDir {
      NoFileExactIff(fs, r.fs, k, r.code);
    } else {
      FilesExactIff(fs, r.fs, k, r.code, []);
      if k in Root(fs) && Root(fs)[k] == r.code {
        NowAt(fs, r.fs, k, r.code, true, []);
        assert k !in Files(fs) by { if k in Files(fs) { StaleIsNoFile(fs, k); } }
      } else {
        StaleIff(fs, k);
      }
    }
  }

  lemma CreateSameFiles(fs: Fs, fs': Fs, k: CString, i: u32, isDir: bool)
    requires Inv(fs) && 0 < i < 128 && i == FirstFree(fs.inodes)
    requires OneInode(fs, fs', i, !isDir, []) && Root(fs') == Bind(Root(fs), k, i)
    ensures (forall n: CString {:trigger n in Root(fs)} :: n in Root(fs) ==> (n in Files(fs') <==> n in Files(fs)))
            <==> isDir || NoStale(fs)
  {
    hide Inv, Root, Files, OneInode;
    forall n: CString | n in Root(fs)
      ensures (n in Files(fs') <==> n in Files(fs)) <==> isDir || Root(fs)[n] != i
    {
      NowAt(fs, fs', n, i, !isDir, []);
      InFiles(fs, n);
      FindInRoot(fs, n);
    }
  }

  /** Whether a write saves the superblock. */
  ghost predicate WriteSaves(fs: Fs, name: CString, data: seq<byte>) {
    if name in Root(fs) then Target(fs, name) < 128 && TakesBlock(fs, Target(fs, name), 0, 0, |data|)
    else NeedsBlock(fs.inodes[0]) || (data != [] && FirstClear(fs.bitmap) != -1)
  }

  /** The superblock's sector after a write. */
  lemma WriteSector(fs: Fs, name: CString, data: seq<byte>)
    requires Inv(fs) && Write(fs, name, data).code >= 0
    ensures var r := Write(fs, name, data).fs;
            r.disk[LBA_SUPERBLOCK] == if WriteSaves(fs, name, data) then EncodeSuperblock(r.sb) else fs.disk[LBA_SUPERBLOCK]
  {
    hide Inv, Create, WriteInode, Write, Lacks, NoPlace, Root, EncodeSuperblock, NeedsBlock, OneInode;
    WriteCases(fs, name, data);
    FindInRoot(fs, name);
    if name in Root(fs) {
      WriteInodeInv(fs, Root(fs)[name], data);
      WriteInodeSaved(fs, Root(fs)[name], data);
    } else {
      CreateSaved(fs, 0, name, false);
      NewFileLacks(fs, name, |data|);
      var c := Create(fs, 0, name, false);
      WriteInodeSaved(c.fs, c.code, data);
      if !NeedsBlock(fs.inodes[0]) {
        CreateFreeBlocks(fs, 0, name, false);
        SameFree(fs, c.fs);
      }
    }
  }

  lemma SameFree(fs: Fs, fs': Fs)
    requires Inv(fs) && Inv(fs') && fs'.sb.freeBlocks == fs.sb.freeBlocks
    ensures FirstClear(fs'.bitmap) == -1 <==> FirstClear(fs.bitmap) == -1
  {
    hide Own, DirsOk;
    NoneFreeIff(fs, {});
    NoneFreeIff(fs', {});
  }

  /**
    `pafs_write` changes the file of the name and nothing else in the map exactly when no other name stands for its
    inode, unless for a file that has the very bytes written already, and holes show what
    they did.  How many bytes are written is known before, and so is when sector 0 is saved.
   */
  lemma WriteExactIff(fs: Fs, name: CString, data: seq<byte>)
    requires Inv(fs) && Write(fs, name, data).code >= 0
    ensures var r, k, i, n := Write(fs, name, data), Kept(name), Target(fs, name), WriteLength(fs, name, data);
            && r.code == n <= |data|
            && (Files(r.fs) == (if k in Root(fs) && Root(fs)[k] != i then Files(fs) else Files(fs)[k := data[..n]])
                <==> Alone(fs, k, i, data[..n]) && HolesShow(fs, i, r.fs.disk[LBA_SUPERBLOCK]))
            && r.fs.disk[LBA_SUPERBLOCK] == if WriteSaves(fs, name, data) then EncodeSuperblock(r.fs.sb) else fs.disk[LBA_SUPERBLOCK]
  {
    hide Inv, Write, Root, Files, Alone, HolesShow, OneInode, EncodeSuperblock, NeedsBlock, WriteSaves, WriteLength, Target, NoPlace;
    WriteRefines(fs, name, data);
    WriteLengthIs(fs, name, data);
    WriteSector(fs, name, data);
    if name in Root(fs) {
      RootNameShort(fs, name);
    }
    var r := Write(fs, name, data);
    FilesExactIff(fs, r.fs, Kept(name), Target(fs, name), data[..r.code]);
  }

  /** `pafs_vfs_write` on the inode of a root file: the same. */
  lemma VfsWriteExactIff(fs: Fs, name: CString, offset: u32, data: seq<byte>)
    requires Inv(fs) && IsFile(fs, name)
    ensures var i := Root(fs)[name];
            var r := VfsWrite(fs, i, offset, data);
            var c := Contents(r.fs.inodes[i], r.fs.disk);
            && r.code == Fits(fs.inodes[i], fs.sb.freeBlocks, offset / 512, offset % 512, |data|)
            && (Files(r.fs) == Files(fs)[name := c] <==> Alone(fs, name, i, c) && HolesShow(fs, i, r.fs.disk[LBA_SUPERBLOCK]))
            && r.fs.disk[LBA_SUPERBLOCK] == (if TakesBlock(fs, i, offset / 512, offset % 512, |data|) then EncodeSuperblock(r.fs.sb)
                                              else fs.disk[LBA_SUPERBLOCK])
  {
    hide Inv, VfsWrite, BindingMap, Files, Contents, Alone, HolesShow, OneInode, EncodeSuperblock, TakesBlock, Fits, Dense, Splice, After;
    var i := Root(fs)[name];
    var r := VfsWrite(fs, i, offset, data);
    VfsWriteRefines(fs, name, offset, data);
    VfsWriteLength(fs, i, offset, data);
    VfsWriteSaved(fs, i, offset, data);
    FilesExactIff(fs, r.fs, name, i, Contents(r.fs.inodes[i], r.fs.disk));
  }

  /**
    `pafs_delete` takes the name away, with its file, and nothing else exactly when the removal of the
    entry is clean, no other name of a file stands for the inode, and holes show what they did.
   */
  lemma DeleteFilesIff(fs: Fs, name: CString)
    requires Inv(fs) && Delete(fs, 0, name).code == 0
    ensures var r, e := Delete(fs, 0, name), DirEntries(fs, 0);
            var t := Search(e, name, 0);
            && name in Root(fs) && t != -1
            && (Root(r.fs) == Root(fs) - {name} && Files(r.fs) == Files(fs) - {name}
                <==> Clean(e, t) && OnlyName(fs, name, Root(fs)[name]) && HolesShow(fs, Root(fs)[name], r.fs.disk[LBA_SUPERBLOCK]))
            && r.fs.disk[LBA_SUPERBLOCK] == EncodeSuperblock(r.fs.sb)
  {
    hide Inv, Delete, BindingMap, Files, HolesShow, OneInode, EncodeSuperblock, Clean, Dropped, OnlyName;
    DeleteRefines(fs, name);
    DeleteSaved(fs, 0, name);
    var r := Delete(fs, 0, name);
    if Root(r.fs) == Root(fs) - {name} {
      GoneExactIff(fs, r.fs, name, Root(fs)[name]);
    }
  }

  // ----- good states -----

  /** Without holes a file shows the same whatever sector 0 holds. */
  lemma DenseSeen(fs: Fs, j: nat, s0: Sector)
    requires j < 128 && Dense(fs.inodes[j]) && Inv(fs)
    ensures SeenWith(fs, j, s0) == Contents(fs.inodes[j], fs.disk)
  {
    hide Contents, Synced, DirOk, Dense;
    var d' := fs.disk[LBA_SUPERBLOCK := s0];
    MetadataIsNotData(fs, j, LBA_SUPERBLOCK, s0);
    ContentsFrame(fs.inodes[j], fs.disk, d');
  }

  /** Two names of the root directory never stand for the same inode, and none for one that is free. */
  lemma RootInjective(fs: Fs, m: CString, n: CString)
    requires Named(fs) && m in Root(fs) && n in Root(fs)
    ensures Root(fs)[m] == Root(fs)[n] ==> m == n
    ensures 0 < Root(fs)[m] < 128 && fs.inodes[Root(fs)[m]].kind != TYPE_FREE
  {
    hide Inv;
    var e := DirEntries(fs, 0);
    assert TreeOf(fs)[0] == e;
    InMap(e, m);
    InMap(e, n);
    LiveOfRefs(TreeOf(fs), Live(fs.inodes), 0, Search(e, m, 0));
  }

  lemma DenseHolesShow(fs: Fs, i: int, s0: Sector)
    requires Inv(fs) && AllDense(fs)
    ensures HolesShow(fs, i, s0)
  {
    hide Inv, Root, Files, Dense, SeenWith;
    forall n: CString
      ensures ShowsSame(fs, n, i, s0)
    {
      InFiles(fs, n);
      if IsFile(fs, n) {
        FindInRoot(fs, n);
        DenseSeen(fs, Root(fs)[n], s0);
      }
    }
  }

  lemma NamedAlone(fs: Fs, name: CString, c: seq<byte>)
    requires Named(fs) && name in Root(fs)
    ensures Alone(fs, name, Root(fs)[name], c) && OnlyName(fs, name, Root(fs)[name])
  {
    hide Named, Root, Files;
    forall n: CString | n in Root(fs) && n != name
      ensures Root(fs)[n] != Root(fs)[name]
    {
      RootInjective(fs, n, name);
    }
    forall n: CString
      ensures NotAlso(fs, name, Root(fs)[name], n)
    {
      InFiles(fs, n);
    }
  }

  lemma NamedNoStale(fs: Fs)
    requires Named(fs)
    ensures NoStale(fs)
  {
    hide Named, Root;
    forall n: CString | n in Root(fs)
      ensures Root(fs)[n] != FirstFree(fs.inodes)
    {
      RootInjective(fs, n, n);
    }
  }

  /** In good states a create of a name that fits an entry adds an empty file or directory and changes nothing else. */
  lemma GoodCreate(fs: Fs, name: CString, isDir: bool)
    requires Good(fs) && |name| <= 27 && Create(fs, 0, name, isDir).code != -1
    ensures var r := Create(fs, 0, name, isDir);
            && name !in Root(fs) && 0 < r.code < 128 && Good(r.fs)
            && Root(r.fs) == Root(fs)[name := r.code]
            && Files(r.fs) == (if isDir then Files(fs) else Files(fs)[name := []])
  {
    hide Inv, Create, Root, Files, Named, AllDense, OneInode, HolesShow, NoStale, EncodeSuperblock, NeedsBlock, Find, Search, DirEntries, NoPlace;
    NamedParts(fs);
    assert Kept(name) == name;
    CreateRefines(fs, name, isDir);
    CreateExactIff(fs, name, isDir);
    NamedNoStale(fs);
    DenseHolesShow(fs, FirstFree(fs.inodes), Create(fs, 0, name, isDir).fs.disk[LBA_SUPERBLOCK]);
    NotInRoot(fs, name);
    GoodStepIff(fs, OpCreate(0, name, isDir));
  }

  lemma NotInRoot(fs: Fs, name: CString)
    requires Inv(fs) && name !in Root(fs)
    ensures Search(DirEntries(fs, 0), name, 0) == -1
  {
    hide Inv, BindingMap, DirEntries;
    InMap(DirEntries(fs, 0), name);
  }

  /** In good states a write sets that file and changes nothing else. */
  lemma GoodWrite(fs: Fs, name: CString, data: seq<byte>)
    requires Good(fs) && |name| <= 27 && Write(fs, name, data).code >= 0
    ensures var r := Write(fs, name, data);
            && r.code == WriteLength(fs, name, data) <= |data| && Good(r.fs)
            && Files(r.fs) == Files(fs)[name := data[..r.code]]
  {
    hide Inv, Write, Root, Files, Named, AllDense, OneInode, HolesShow, Alone, EncodeSuperblock, NeedsBlock, Find, Search, DirEntries, NoPlace, WriteSaves, WriteLength;
    NamedParts(fs);
    assert Kept(name) == name;
    WriteExactIff(fs, name, data);
    DenseHolesShow(fs, Target(fs, name), Write(fs, name, data).fs.disk[LBA_SUPERBLOCK]);
    var c := data[..Write(fs, name, data).code];
    if name in Root(fs) {
      NamedAlone(fs, name, c);
      FindInRoot(fs, name);
    } else {
      NamedNoStale(fs);
      AloneNew(fs, name, Target(fs, name), c);
      NotInRoot(fs, name);
    }
    GoodStepIff(fs, OpWrite(name, data));
  }

  lemma AloneNew(fs: Fs, name: CString, i: u32, c: seq<byte>)
    requires Inv(fs) && NoStale(fs) && name !in Root(fs) && i == Target(fs, name)
    ensures Alone(fs, name, i, c)
  {
    hide Inv, Root, Files;
    forall n: CString | n in Root(fs)
      ensures Root(fs)[n] != i
    {
      FindInRoot(fs, n);
    }
  }

  /** In good states a positional write within a file lays the bytes over it and changes nothing else. */
  lemma GoodVfsWrite(fs: Fs, name: CString, offset: u32, data: seq<byte>)
    requires Good(fs) && IsFile(fs, name) && offset <= |FileOf(fs, name)|
    ensures var r := VfsWrite(fs, Root(fs)[name], offset, data);
            && 0 <= r.code <= |data| && Good(r.fs) && Root(r.fs) == Root(fs)
            && Files(r.fs) == Files(fs)[name := Splice(FileOf(fs, name), offset, data[..r.code])]
  {
    hide Inv, VfsWrite, BindingMap, Files, Named, Contents, Dense, OneInode, HolesShow, Alone, EncodeSuperblock, TakesBlock, Fits, Splice, After, OnlyName;
    NamedParts(fs);
    var i := Root(fs)[name];
    var r := VfsWrite(fs, i, offset, data);
    VfsWriteRefines(fs, name, offset, data);
    VfsWriteExactIff(fs, name, offset, data);
    DenseHolesShow(fs, i, r.fs.disk[LBA_SUPERBLOCK]);
    NamedAlone(fs, name, Contents(r.fs.inodes[i], r.fs.disk));
    GoodStepIff(fs, OpVfsWrite(i, offset, data));
  }

  /** In good states an exact delete removes the name, and its file if it was one, and nothing else. */
  lemma GoodDelete(fs: Fs, name: CString)
    requires Good(fs) && Delete(fs, 0, name).code == 0
    requires Search(DirEntries(fs, 0), name, 0) == -1 || Exact(DirEntries(fs, 0), Search(DirEntries(fs, 0), name, 0))
    ensures var r := Delete(fs, 0, name);
            && Good(r.fs) && name in Root(fs)
            && Root(r.fs) == Root(fs) - {name} && Files(r.fs) == Files(fs) - {name}
  {
    hide Inv, Delete, BindingMap, Files, AllDense, HolesShow, EncodeSuperblock, Exact, Clean, OnlyName, Alone, Refs, Search, DirEntries;
    var e := DirEntries(fs, 0);
    assert TreeOf(fs)[0] == e;
    DeleteFilesIff(fs, name);
    CleanIsExact(e, Search(e, name, 0));
    NamedAlone(fs, name, []);
    DenseHolesShow(fs, Root(fs)[name], Delete(fs, 0, name).fs.disk[LBA_SUPERBLOCK]);
    GoodStepIff(fs, OpDelete(0, name));
  }

  /** In good states a read returns the mapped bytes up to the limit, or fails when the name is not a file. */
  lemma GoodRead(fs: Fs, name: CString, maxLen: int)
    requires Good(fs)
    ensures Read(fs, name, maxLen) == (if name in Files(fs) then Bytes(UpTo(Files(fs)[name], maxLen)) else NotFound)
  {
    hide Inv, Named, Root, Files, Read, Dense, NoHoleBefore;
    NamedParts(fs);
    ReadRefinesIff(fs, name, maxLen);
    InFiles(fs, name);
    if IsFile(fs, name) {
      DenseNoHole(fs.inodes[Root(fs)[name]], maxLen);
    }
  }

  // ----- a run that binds two names to one inode -----

  const NameC: CString := [99]

  /** Format, create `a`, create `b`, delete `a`: the deletion that goes wrong. */
  ghost function WrongDelete(disk: Disk): Fs {
    Delete(Create(Create(Format(disk), 0, NameA, false).fs, 0, NameB, false).fs, 0, NameA).fs
  }

  /**
    After that, creating `c` gives it the inode that `a` still names, and a write to `c` is a write to `a`.
   */
  lemma TwoNamesOneInode(disk: Disk, data: seq<byte>)
    ensures var c := Create(WrongDelete(disk), 0, NameC, false);
            var w := Write(c.fs, NameC, data);
            && c.code == 1 && Root(c.fs) == map[NameA := 1, NameC := 1]
            && 0 <= w.code <= |data|
            && NameA in Files(w.fs) && Files(w.fs)[NameA] == data[..w.code]
  {
    hide Inv, Create, Write, Root, Files, NoneFree, OneInode, NoPlace, FirstClear, Dense, WrongDelete;
    WrongDeleteIs(disk);
    var d := WrongDelete(disk);
    assert NameA[0] != NameC[0];
    CreateInFirstBlock(d, NameC);
    FirstInodeTaken(d, NameC);
    var c := Create(d, 0, NameC, false);
    InFiles(c.fs, NameC);
    WriteRefines(c.fs, NameC, data);
    var w := Write(c.fs, NameC, data);
    NowAt(c.fs, w.fs, NameA, 1, true, data[..w.code]);
  }

  lemma WrongDeleteIs(disk: Disk)
    ensures var d := WrongDelete(disk);
            && Inv(d) && Root(d) == map[NameA := 1] && |DirEntries(d, 0)| == 1 && d.sb.freeInodes > 0
            && d.inodes[0].kind == TYPE_DIR && d.inodes[0].blocks[0] != 0 && d.inodes[1].kind == TYPE_FREE && !NoneFree(d.inodes)
  {
    hide Inv, Create, Delete, BindingMap, Format, RestSame, Deletable, Search;
    var fs := Format(disk);
    FreshVolume(disk);
    RootIsDir(fs);
    FirstInodeTaken(fs, NameA);
    CreateInFirstBlock(fs, NameA);
    var c1 := Create(fs, 0, NameA, false);
    assert NameA[0] != NameB[0];
    assert !NoneFree(c1.fs.inodes) by { StillFree(fs, c1.fs, c1.code); }
    CreateInFirstBlock(c1.fs, NameB);
    var c2 := Create(c1.fs, 0, NameB, false);
    SameBlockDelete(c2.fs, c1.code, c2.code);
    DeleteEffect(c2.fs, 0, NameA);
    RootIsDir(WrongDelete(disk));
    WrapSmall(c2.fs.sb.freeInodes + 1);
    assert WrongDelete(disk).inodes[1].kind == TYPE_FREE;
  }
}
