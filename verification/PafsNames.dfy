/**
  Names and listings: names too long for an entry are never found again, a
  directory listing gives each entry once, and the deletion that goes wrong.
 */
module PafsNames {
  import opened Words
  import opened PafsLayout
  import opened PafsState
  import opened PafsInv
  import opened PafsDirs
  import opened PafsOps
  import opened PafsTree
  import opened PafsRuns
  import opened PafsRoom
  import opened PafsGood
  import opened PafsMap

  // ----- long names -----

  /** A name that was just created is found again exactly when it fits an entry. */
  lemma CreatedIsFoundIff(fs: Fs, parent: nat, name: CString, isDir: bool)
    requires Inv(fs) && parent < 128 && Create(fs, parent, name, isDir).code != -1
    ensures var r := Create(fs, parent, name, isDir);
            Find(r.fs, parent, name) == r.code <==> |name| <= 27
  {
    hide Inv, Create, Find, DirEntries, RestSame;
    var r := Create(fs, parent, name, isDir);
    CreateEffect(fs, parent, name, isDir);
    if |name| > 27 {
      LongNameNotFound(r.fs, parent, name);
    } else {
      var e := DirEntries(fs, parent);
      FindIsSearchInv(fs, parent, name);
      SearchAppended(e, Binding(r.code, name));
      FindAfter(r.fs, parent, name);
    }
  }

  lemma SearchAppended(e: seq<Binding>, b: Binding)
    requires Search(e, b.name, 0) == -1
    ensures Search(e + [b], b.name, 0) == |e|
  {
    var s := Search(e + [b], b.name, 0);
    assert (e + [b])[|e|] == b;
    assert forall j :: 0 <= j < |e| ==> (e + [b])[j] == e[j];
  }

  lemma FindAfter(fs: Fs, d: nat, name: CString)
    requires Inv(fs) && d < 128 && Search(DirEntries(fs, d), name, 0) != -1
    ensures Find(fs, d, name) == DirEntries(fs, d)[Search(DirEntries(fs, d), name, 0)].ino
  {
    FindIsSearch(fs, d, name);
  }

  // ----- listing a directory -----

  datatype Dirent = NoEntry | Dirent(ino: u32, name: CString)

  /** `pafs_vfs_readdir` */
  function Readdir(fs: Fs, d: nat, index: u32): Dirent
    requires d < 128
  {
    var n := fs.inodes[d];
    if n.kind != TYPE_DIR || n.size == 0 || index >= 14 * PER_BLOCK then NoEntry
    else if n.blocks[index / PER_BLOCK] == 0 || Slot(n, fs.disk, index).inode == 0 then NoEntry
    else Dirent(Slot(n, fs.disk, index).inode, Kept(NameOf(Slot(n, fs.disk, index).name)))
  }

  /** Counting up from 0, a listing gives every entry once, in order, and then ends. */
  lemma ReaddirLists(fs: Fs, d: nat, index: u32)
    requires Inv(fs) && d < 128
    ensures var e := DirEntries(fs, d);
            Readdir(fs, d, index) == (if index < |e| then Dirent(e[index].ino, e[index].name) else NoEntry)
  {
    hide Own, Synced, NameOf;
    var n := fs.inodes[d];
    if n.kind == TYPE_DIR && index < 224 {
      if index < EntryCount(n) {
        EntryHasBlock(n, fs.disk, index);
        EntryNamesShort(fs, d, index);
      } else if n.blocks[index / 16] != 0 {
        assert Slot(n, fs.disk, index).inode == 0;
      }
    }
  }

  // ----- the deletion that goes wrong -----

  const NameA: CString := [97]
  const NameB: CString := [98]

  /** A new empty file in a root directory with at most 15 entries. */
  lemma CreateInFirstBlock(fs: Fs, name: CString)
    requires Inv(fs) && |name| <= 27 && name !in Root(fs) && fs.sb.freeInodes > 0 && !NoneFree(fs.inodes)
    requires fs.inodes[0].blocks[0] != 0 && |DirEntries(fs, 0)| < 15
    ensures var r := Create(fs, 0, name, false);
            && r.code != -1 && Inv(r.fs) && Root(r.fs) == Root(fs)[name := r.code]
            && DirEntries(r.fs, 0) == DirEntries(fs, 0) + [Binding(r.code, name)]
            && r.fs.inodes[0].blocks[0] != 0 && r.fs.sb.freeInodes == fs.sb.freeInodes - 1
            && r.fs.inodes[r.code] == Inode(TYPE_FILE, 0, NoBlocks()) && r.fs.bitmap == fs.bitmap
            && 0 < r.code < 128 && fs.inodes[r.code].kind == TYPE_FREE && r.fs.inodes[r.code].kind == TYPE_FILE
            && (forall j :: 0 < j < 128 && j != r.code ==> r.fs.inodes[j].kind == fs.inodes[j].kind)
  {
    hide Inv, Create, BindingMap, OneInode;
    RootIsDir(fs);
    CreateFailsIff(fs, 0, name, false);
    CreateRefines(fs, name, false);
    CreateEffect(fs, 0, name, false);
    assert Kept(name) == name;
    var r := Create(fs, 0, name, false).fs;
    RootIsDir(r);
    FirstEntryBlock(r);
    EntryBlockZero(fs);
    CreateKeepsBitmap(fs, 0, name, false);
  }

  lemma FirstInodeTaken(fs: Fs, name: CString)
    requires fs.inodes[0].kind != TYPE_FREE && fs.inodes[1].kind == TYPE_FREE
    ensures Create(fs, 0, name, false).code in {-1, 1}
  {
    hide AddEntry, Find, SaveInode;
  }

  lemma EntryBlockZero(fs: Fs)
    requires Inv(fs) && |DirEntries(fs, 0)| < 15
    ensures EntryCount(fs.inodes[0]) < 15
  {
  }

  lemma FirstEntryBlock(fs: Fs)
    requires Inv(fs) && |DirEntries(fs, 0)| > 0
    ensures fs.inodes[0].blocks[0] != 0
  {
    EntryHasBlock(fs.inodes[0], fs.disk, 0);
  }

  /**
    A concrete run: on a fresh volume create `a`, create `b`, delete `a`.  The
    deletion reports success, yet `a` stays bound, to an inode that is now free,
    and the binding of `b` is gone although its file lives on.
   */
  lemma DeleteGoesWrong(disk: Disk)
    ensures var c1 := Create(Format(disk), 0, NameA, false);
            var c2 := Create(c1.fs, 0, NameB, false);
            var d := Delete(c2.fs, 0, NameA);
            && 0 < c1.code < 128 && 0 < c2.code < 128 && d.code == 0
            && Root(c2.fs) == map[NameA := c1.code as u32, NameB := c2.code as u32]
            && Root(d.fs) == map[NameA := c1.code as u32]
            && d.fs.inodes[c1.code].kind == TYPE_FREE && d.fs.inodes[c2.code].kind == TYPE_FILE
  {
    hide Inv, Create, Delete, BindingMap, Format, RestSame, NoneFree;
    var fs := Format(disk);
    FreshVolume(disk);
    CreateInFirstBlock(fs, NameA);
    var c1 := Create(fs, 0, NameA, false);
    assert NameA[0] != NameB[0];
    assert !NoneFree(c1.fs.inodes) by { StillFree(fs, c1.fs, c1.code); }
    CreateInFirstBlock(c1.fs, NameB);
    var c2 := Create(c1.fs, 0, NameB, false);
    SameBlockDelete(c2.fs, c1.code, c2.code);
  }

  lemma FreshVolume(disk: Disk)
    ensures var fs := Format(disk);
            && Inv(fs) && Root(fs) == map[] && DirEntries(fs, 0) == [] && fs.sb.freeInodes == 127
            && fs.inodes[0].blocks[0] != 0 && fs.inodes[1].kind == TYPE_FREE && fs.inodes[2].kind == TYPE_FREE && !NoneFree(fs.inodes)
  {
    hide Inv, Format, BindingMap;
    FormatInv(disk);
    RootEmpty(Format(disk));
  }

  lemma StillFree(fs: Fs, fs': Fs, i: int)
    requires fs.inodes[1].kind == TYPE_FREE && fs.inodes[2].kind == TYPE_FREE
    requires forall j :: 0 < j < 128 && j != i ==> fs'.inodes[j].kind == fs.inodes[j].kind
    ensures !NoneFree(fs'.inodes)
  {
    assert fs'.inodes[if i == 1 then 2 else 1].kind == TYPE_FREE;
  }

  lemma RootEmpty(fs: Fs)
    requires DirEntries(fs, 0) == []
    ensures Root(fs) == map[]
  {
  }

  lemma SameBlockDelete(fs: Fs, a: u32, b: u32)
    requires Inv(fs) && 0 < a < 128 && 0 < b < 128
    requires DirEntries(fs, 0) == [Binding(a, NameA), Binding(b, NameB)]
    requires Root(fs) == map[NameA := a, NameB := b]
    requires fs.inodes[a].kind == TYPE_FILE && fs.inodes[b].kind == TYPE_FILE && a != b
    ensures var d := Delete(fs, 0, NameA);
            && d.code == 0 && Root(d.fs) == map[NameA := a]
            && d.fs.inodes[a].kind == TYPE_FREE && d.fs.inodes[b].kind == TYPE_FILE
  {
    hide Inv, Delete, BindingMap;
    var e := DirEntries(fs, 0);
    DeleteEffect(fs, 0, NameA);
    assert e[0].name == NameA;
    assert Search(e, NameA, 0) == 0;
    assert e[1].name[0] != NameA[0];
    DropEffect(e, 0);
  }
}
