/**
  The volume as a map from names to byte strings: how each operation on the root
  directory changes that map in any state that runs reach, names bound twice, names of
  free inodes and files with holes included; and that the volume survives a remount.
 */
module PafsMap {
  import opened Words
  import opened PafsLayout
  import opened PafsState
  import opened PafsInv
  import opened PafsDirs
  import opened PafsOps
  import opened PafsData
  import opened PafsFiles
  import opened PafsRoom
  import opened PafsGaps
  import opened PafsReads
  import opened PafsTree
  import opened PafsRuns
  import opened PafsGood
  import opened PafsMount

  /** The bindings of the root directory. */
  function Root(fs: Fs): map<CString, u32> {
    BindingMap(DirEntries(fs, 0))
  }

  /** Whether `n` names a file in the root directory. */
  predicate IsFile(fs: Fs, n: CString) {
    n in Root(fs) && Root(fs)[n] < 128 && fs.inodes[Root(fs)[n]].kind == TYPE_FILE
  }

  /** The bytes of the file that `n` names. */
  function FileOf(fs: Fs, n: CString): seq<byte>
    requires IsFile(fs, n)
  {
    Contents(fs.inodes[Root(fs)[n]], fs.disk)
  }

  /** The files of the root directory. */
  function Files(fs: Fs): map<CString, seq<byte>> {
    map n: CString | n in Root(fs) && IsFile(fs, n) :: FileOf(fs, n)
  }

  lemma InFiles(fs: Fs, n: CString)
    ensures n in Files(fs) <==> IsFile(fs, n)
    ensures n in Files(fs) ==> Files(fs)[n] == FileOf(fs, n)
  {
  }

  /** Looking a name up in the root directory is looking it up in the map. */
  lemma FindInRoot(fs: Fs, name: CString)
    requires Inv(fs)
    ensures Find(fs, 0, name) == (if name in Root(fs) then Root(fs)[name] else -1)
    ensures name in Root(fs) ==> 0 < Root(fs)[name] < 128
  {
    FindIsSearch(fs, 0, name);
    InMap(DirEntries(fs, 0), name);
  }

  // ----- what an operation on one inode does to the map -----

  /** What inode `j` shows as a file while sector 0, seen through holes, holds `s0`. */
  function SeenWith(fs: Fs, j: nat, s0: Sector): seq<byte>
    requires j < 128
  {
    Contents(fs.inodes[j], fs.disk[LBA_SUPERBLOCK := s0])
  }

  /**
    Every name bound to inode `i` is now the file `c`, or no file; every name bound to another
    inode is a file if that inode was one, with the same bytes but for holes, which show sector 0.
   */
  ghost predicate OneInode(fs: Fs, fs': Fs, i: int, isFile: bool, c: seq<byte>) {
    forall n: CString {:trigger n in Root(fs')} :: n in Root(fs') ==> NowIs(fs, fs', n, i, isFile, c)
  }

  predicate NowIs(fs: Fs, fs': Fs, n: CString, i: int, isFile: bool, c: seq<byte>)
    requires n in Root(fs')
  {
    var j := Root(fs')[n];
    if j == i then (n in Files(fs') <==> isFile) && (isFile ==> n in Files(fs') && Files(fs')[n] == c)
    else
      && 0 < j < 128 && (n in Files(fs') <==> fs.inodes[j].kind == TYPE_FILE)
      && (n in Files(fs') ==> Files(fs')[n] == SeenWith(fs, j, fs'.disk[LBA_SUPERBLOCK]))
  }

  lemma ContentsSeen(n: Inode, d: Disk, d': Disk)
    requires SameData(n, d, d')
    ensures Contents(n, d') == Contents(n, d[LBA_SUPERBLOCK := d'[LBA_SUPERBLOCK]])
  {
    var e := d[LBA_SUPERBLOCK := d'[LBA_SUPERBLOCK]];
    forall p | 0 <= p < Min(n.size, 7168)
      ensures ByteAt(n, d', p) == ByteAt(n, e, p)
    {
      assert n.blocks[p / 512] != 0 ==> d'[BlockOf(n, p / 512)] == d[BlockOf(n, p / 512)];
    }
  }

  /** Inodes other than `i` and the root, and their data, are as before. */
  ghost predicate OnlyInode(fs: Fs, fs': Fs, i: int) {
    forall j :: 0 < j < 128 && j != i ==> fs'.inodes[j] == fs.inodes[j] && SameData(fs.inodes[j], fs.disk, fs'.disk)
  }

  lemma OneInodeFrom(fs: Fs, fs': Fs, i: nat, isFile: bool, c: seq<byte>)
    requires Inv(fs') && 0 < i < 128 && OnlyInode(fs, fs', i)
    requires fs'.inodes[i].kind == TYPE_FILE <==> isFile
    requires isFile ==> Contents(fs'.inodes[i], fs'.disk) == c
    ensures OneInode(fs, fs', i, isFile, c)
  {
    hide Inv, BindingMap, Files, Contents, SameData;
    forall n: CString | n in Root(fs')
      ensures NowIs(fs, fs', n, i, isFile, c)
    {
      FindInRoot(fs', n);
      InFiles(fs', n);
      var j := Root(fs')[n];
      if j != i {
        ContentsSeen(fs.inodes[j], fs.disk, fs'.disk);
      }
    }
  }

  /** A map with a name bound, unless it is already. */
  function Bind(m: map<CString, u32>, n: CString, i: u32): map<CString, u32> {
    if n in m then m else m[n := i]
  }

  // ----- pafs_create -----

  /**
    `pafs_create` in the root directory binds the name, as far as an entry keeps it, to the lowest
    free inode, which becomes an empty file or directory; a name that stands there already keeps its inode.
   */
  lemma CreateRefines(fs: Fs, name: CString, isDir: bool)
    requires Inv(fs)
    ensures var r := Create(fs, 0, name, isDir);
            && Inv(r.fs) && (r.code == -1 ==> r.fs == fs)
            && (r.code != -1 ==>
                  && name !in Root(fs) && r.code == FirstFree(fs.inodes) && 0 < r.code < 128
                  && Root(r.fs) == Bind(Root(fs), Kept(name), r.code)
                  && OneInode(fs, r.fs, r.code, !isDir, []))
  {
    hide Inv, Create, Files, BindingMap, OneInode, Contents, SameData, DirEntries;
    CreateEffect(fs, 0, name, isDir);
    var r := Create(fs, 0, name, isDir);
    if r.code != -1 {
      RootIsDir(fs);
      RootIsDir(r.fs);
      CreateTakesFirst(fs, 0, name, isDir);
      FindInRoot(fs, name);
      var b := Binding(r.code, Kept(name));
      MapAppend(DirEntries(fs, 0), b);
      InMap(DirEntries(fs, 0), b.name);
      EmptyContents(r.fs.inodes[r.code], r.fs.disk, isDir);
      OneInodeFrom(fs, r.fs, r.code, !isDir, []);
    }
  }

  /** The inode handed out is the lowest that is free. */
  lemma CreateTakesFirst(fs: Fs, parent: nat, name: CString, isDir: bool)
    requires parent < 128
    ensures var i := Create(fs, parent, name, isDir).code;
            i == -1 || (i == FirstFree(fs.inodes) && 0 <= i < 128 && fs.inodes[i].kind == TYPE_FREE
                        && forall j :: 0 <= j < i ==> fs.inodes[j].kind != TYPE_FREE)
  {
    hide AddEntry, Find, SaveInode;
  }

  lemma EmptyContents(n: Inode, d: Disk, isDir: bool)
    requires n == Inode(KindFor(isDir), 0, NoBlocks())
    ensures Contents(n, d) == [] && (n.kind == TYPE_FILE <==> !isDir)
  {
  }

  // ----- pafs_write and pafs_read -----

  /** The inode that a write of `name` goes to. */
  ghost function Target(fs: Fs, name: CString): u32 {
    if name in Root(fs) then Root(fs)[name] else if FirstFree(fs.inodes) == -1 then 0 else FirstFree(fs.inodes)
  }

  /** Overwriting the file of an inode. */
  lemma OverwriteRefines(fs: Fs, i: nat, data: seq<byte>)
    requires Inv(fs) && 0 < i < 128 && fs.inodes[i].kind == TYPE_FILE
    ensures var r := WriteInode(fs, i, data);
            && 0 <= r.code <= Min(|data|, 7168) && Inv(r.fs) && Root(r.fs) == Root(fs)
            && OthersSame(fs, r.fs, i) && r.fs.inodes[i].kind == TYPE_FILE && Dense(r.fs.inodes[i])
            && Contents(r.fs.inodes[i], r.fs.disk) == data[..r.code]
            && (r.code < Min(|data|, 7168) ==> FirstClear(r.fs.bitmap) == -1)
  {
    hide Inv, WriteInode, BindingMap, Contents, Dense, OthersSame;
    WriteInodeInv(fs, i, data);
    WriteInodeContents(fs, i, data);
    var r := WriteInode(fs, i, data);
    TreeAfterDataInv(fs, r.fs, i);
    assert DirEntries(r.fs, 0) == TreeOf(r.fs)[0] == TreeOf(fs)[0] == DirEntries(fs, 0);
  }

  lemma TreeAfterDataInv(fs: Fs, fs': Fs, i: nat)
    requires i < 128 && Inv(fs) && OthersSame(fs, fs', i)
    requires fs.inodes[i].kind == TYPE_FILE && fs'.inodes[i].kind == TYPE_FILE
    ensures TreeOf(fs') == TreeOf(fs)
  {
    TreeAfterData(fs, fs', i);
  }

  /** Every name of the target inode is now the first bytes of `data`; nothing else has changed for any name. */
  ghost predicate WriteDone(fs: Fs, r: Res, name: CString, data: seq<byte>) {
    var i := Target(fs, name);
    && 0 < i < 128 && 0 <= r.code <= Min(|data|, 7168) && Inv(r.fs)
    && Root(r.fs) == (if name in Root(fs) then Root(fs) else Bind(Root(fs), Kept(name), i))
    && OneInode(fs, r.fs, i, true, data[..r.code]) && Dense(r.fs.inodes[i])
    && (r.code < Min(|data|, 7168) ==> FirstClear(r.fs.bitmap) == -1)
  }

  /**
    `pafs_write(name, data)` either fails and changes nothing, or sets the contents of the inode that `name`
    stands for, or of a new one, to the bytes written, and touches no other inode; fewer bytes than
    asked and than 7168 are written only when no block is free.
   */
  lemma WriteRefines(fs: Fs, name: CString, data: seq<byte>)
    requires Inv(fs)
    ensures var r := Write(fs, name, data);
            && (r.code < 0 ==> r.fs == fs && name !in Files(fs))
            && (r.code < 0 <==> name !in Files(fs) && (name in Root(fs) || NoPlace(fs, 0, false)))
            && (r.code >= 0 ==> WriteDone(fs, r, name, data))
  {
    hide Inv, Write, WriteInode, Create, Files, BindingMap, HasRoom, NoPlace, OneInode, Dense, Bind;
    CreateFailsIff(fs, 0, name, false);
    WriteCases(fs, name, data);
    FindInRoot(fs, name);
    InFiles(fs, name);
    if name in Root(fs) {
      if IsFile(fs, name) {
        WriteOld(fs, name, data);
      } else {
        WriteInodeInv(fs, Root(fs)[name], data);
      }
    } else {
      CreateRefines(fs, name, false);
      if Create(fs, 0, name, false).code != -1 {
        WriteNew(fs, name, data);
      }
    }
  }

  lemma WriteOld(fs: Fs, name: CString, data: seq<byte>)
    requires Inv(fs) && IsFile(fs, name)
    ensures var r := WriteInode(fs, Root(fs)[name], data);
            WriteDone(fs, r, name, data)
  {
    hide Inv, WriteInode, BindingMap, Contents, Dense, SameData, OneInode;
    FindInRoot(fs, name);
    var i := Root(fs)[name];
    OverwriteRefines(fs, i, data);
    var r := WriteInode(fs, i, data);
    OneInodeFrom(fs, r.fs, i, true, data[..r.code]);
  }

  lemma WriteNew(fs: Fs, name: CString, data: seq<byte>)
    requires Inv(fs) && name !in Root(fs) && Create(fs, 0, name, false).code != -1
    ensures var c := Create(fs, 0, name, false);
            0 < c.code < 128 && WriteDone(fs, WriteInode(c.fs, c.code, data), name, data)
  {
    hide Inv, WriteInode, Create, BindingMap, Contents, Dense, SameData, OneInode, DirEntries;
    CreateRefines(fs, name, false);
    CreateEffect(fs, 0, name, false);
    var c := Create(fs, 0, name, false);
    RootIsDir(c.fs);
    OverwriteRefines(c.fs, c.code, data);
    var r := WriteInode(c.fs, c.code, data);
    forall j | 0 < j < 128 && j != c.code
      ensures r.fs.inodes[j] == fs.inodes[j] && SameData(fs.inodes[j], fs.disk, r.fs.disk)
    {
      KeptTwice(fs, c.fs, r.fs, j);
    }
    OneInodeFrom(fs, r.fs, c.code, true, data[..r.code]);
  }

  /**
    In any state, holes or not: the mapped bytes up to the limit are what `pafs_read` returns exactly when
    no slot before the end of what is asked for lacks its block.
   */
  lemma ReadRefinesIff(fs: Fs, name: CString, maxLen: int)
    requires Inv(fs)
    ensures name !in Files(fs) ==> Read(fs, name, maxLen) == NotFound
    ensures name in Files(fs) ==>
              var n := fs.inodes[Root(fs)[name]];
              Read(fs, name, maxLen) == Bytes(UpTo(Files(fs)[name], maxLen))
              <==> maxLen <= 0 || (n.size < 0x8000_0000 && NoHoleBefore(n, Min(n.size, maxLen)))
  {
    hide Inv, BindingMap, Contents, ReadFrom, Files, NoHoleBefore;
    RootIsDir(fs);
    FindInRoot(fs, name);
    InFiles(fs, name);
    if IsFile(fs, name) {
      hide Read;
      ReadIsPrefixIff(fs, name, maxLen, Root(fs)[name]);
    }
  }

  /**
    Reading a name right after writing it gives back the bytes that were written exactly when the name
    fits an entry; a longer one is not found.
   */
  lemma WriteThenRead(fs: Fs, name: CString, data: seq<byte>, maxLen: int)
    requires Inv(fs) && Write(fs, name, data).code >= 0
    ensures var r := Write(fs, name, data);
            && r.code <= |data|
            && (Read(r.fs, name, maxLen) == Bytes(UpTo(data[..r.code], maxLen)) <==> |name| <= 27)
            && (|name| > 27 ==> Read(r.fs, name, maxLen) == NotFound)
  {
    hide Inv, Write, Files, Read, Root, OneInode, Dense, Contents, FirstClear, NoPlace;
    WriteRefines(fs, name, data);
    var r := Write(fs, name, data);
    RootIsDir(r.fs);
    if |name| <= 27 {
      assert Kept(name) == name;
      assert name in Root(r.fs) && Root(r.fs)[name] == Target(fs, name);
      assert NowIs(fs, r.fs, name, Target(fs, name), true, data[..r.code]) by { NowAt(fs, r.fs, name, Target(fs, name), true, data[..r.code]); }
      DenseNoHole(r.fs.inodes[Target(fs, name)], maxLen);
      ReadRefinesIff(r.fs, name, maxLen);
    } else {
      LongNameNotFound(r.fs, 0, name);
      ReadAbsent(r.fs, name, maxLen);
    }
  }

  lemma NowAt(fs: Fs, fs': Fs, n: CString, i: int, isFile: bool, c: seq<byte>)
    requires OneInode(fs, fs', i, isFile, c) && n in Root(fs')
    ensures NowIs(fs, fs', n, i, isFile, c)
  {
  }

  lemma DenseNoHole(n: Inode, maxLen: int)
    requires Dense(n)
    ensures n.size < 0x8000_0000 && NoHoleBefore(n, Min(n.size, maxLen))
  {
  }

  lemma ReadAbsent(fs: Fs, name: CString, maxLen: int)
    requires Find(fs, 0, name) == -1 && RootOf(fs) == 0
    ensures Read(fs, name, maxLen) == NotFound
  {
  }

  // ----- pafs_vfs_write -----

  /**
    `pafs_vfs_write` on the inode of a root file, at any offset: every name of that inode shows the new contents,
    byte by byte, and no other inode is touched; within a file without holes the bytes are laid over it.
   */
  lemma VfsWriteRefines(fs: Fs, name: CString, offset: u32, data: seq<byte>)
    requires Inv(fs) && IsFile(fs, name)
    ensures var i := Root(fs)[name];
            var r := VfsWrite(fs, i, offset, data);
            var c := Contents(r.fs.inodes[i], r.fs.disk);
            && 0 <= r.code <= |data| && Inv(r.fs) && Root(r.fs) == Root(fs) && OneInode(fs, r.fs, i, true, c)
            && |c| == Min(if offset + r.code > fs.inodes[i].size then offset + r.code else fs.inodes[i].size, 7168)
            && (forall p :: 0 <= p < |c| ==> c[p] == After(fs.disk, r.fs.inodes[i], r.fs.disk, offset, data[..r.code], p))
            && (Dense(fs.inodes[i]) && offset <= fs.inodes[i].size ==>
                  offset <= |FileOf(fs, name)| && c == Splice(FileOf(fs, name), offset, data[..r.code]))
  {
    hide Inv, VfsWrite, BindingMap, Contents, Dense, Splice, OneInode, SameData, After;
    var i := Root(fs)[name];
    var r := VfsWrite(fs, i, offset, data);
    FindInRoot(fs, name);
    VfsWriteInv(fs, i, offset, data);
    VfsWriteContents(fs, i, offset, data);
    TreeAfterDataInv(fs, r.fs, i);
    assert DirEntries(r.fs, 0) == TreeOf(r.fs)[0] == TreeOf(fs)[0] == DirEntries(fs, 0);
    OneInodeFrom(fs, r.fs, i, true, Contents(r.fs.inodes[i], r.fs.disk));
    if Dense(fs.inodes[i]) && offset <= fs.inodes[i].size {
      DenseSize(fs.inodes[i]);
      VfsWriteSplice(fs, i, offset, data);
    }
  }

  // ----- pafs_delete -----

  /**
    A delete in the root directory: the list of bindings without the entry, in the way of
    `Dropped`, and no name of the inode is a file any more; no other inode is touched.
   */
  lemma DeleteRefines(fs: Fs, name: CString)
    requires Inv(fs) && Delete(fs, 0, name).code == 0
    ensures var r := Delete(fs, 0, name);
            var e := DirEntries(fs, 0);
            var t := Search(e, name, 0);
            && Inv(r.fs) && name in Root(fs) && t != -1 && Root(fs)[name] == e[t].ino
            && Root(r.fs) == BindingMap(Dropped(e, t))
            && (Root(r.fs) == Root(fs) - {name} <==> Clean(e, t))
            && OneInode(fs, r.fs, Root(fs)[name], false, [])
  {
    hide Inv, Delete, BindingMap, Search, Dropped, Clean, OneInode, Contents, Files;
    var r := Delete(fs, 0, name);
    DeleteEffect(fs, 0, name);
    DeleteExactIff(fs, 0, name);
    InMap(DirEntries(fs, 0), name);
    FindInRoot(fs, name);
    OneInodeFrom(fs, r.fs, Root(fs)[name], false, []);
  }

  // ----- remount -----

  /** After any run, a remount shows the same directories and files. */
  lemma RemountKeepsFiles(fs: Fs)
    requires Inv(fs)
    ensures var m := Mount(fs.disk);
            && m.MountedFs?
            && TreeOf(m.fs) == TreeOf(fs) && Root(m.fs) == Root(fs) && Files(m.fs) == Files(fs)
            && m.fs.sb.freeBlocks == fs.sb.freeBlocks
  {
    hide Inv, Mount, Files;
    RemountIsSame(fs);
    var m := Mount(fs.disk);
    assert TreeOf(m.fs) == TreeOf(fs);
    assert DirEntries(m.fs, 0) == DirEntries(fs, 0);
    forall n: CString
      ensures n in Files(m.fs) <==> n in Files(fs)
      ensures n in Files(fs) ==> Files(m.fs)[n] == Files(fs)[n]
    {
      InFiles(fs, n);
      InFiles(m.fs, n);
    }
  }
}
