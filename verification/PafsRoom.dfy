/**
  Which names can be found, and when a name can be created: exactly what `pafs_create` needs.
 */
module PafsRoom {
  import opened Words
  import opened PafsLayout
  import opened PafsState
  import opened PafsInv
  import opened PafsOps
  import opened PafsTree

  // ----- long names -----

  lemma {:induction false} NameLength(f: seq<byte>)
    requires HasNul(f)
    ensures |NameOf(f)| < |f|
  {
    if f[0] != 0 {
      var i :| 0 <= i < |f| && f[i] == 0;
      assert f[1..][i - 1] == 0;
      NameLength(f[1..]);
    }
  }

  /** No entry carries a name of more than 27 bytes. */
  lemma EntryNamesShort(fs: Fs, d: nat, s: nat)
    requires Inv(fs) && d < 128 && s < |DirEntries(fs, d)|
    ensures |DirEntries(fs, d)[s].name| <= 27
  {
    hide Own, Synced, NameOf;
    var n := fs.inodes[d];
    assert HasNul(Slot(n, fs.disk, s).name);
    NameLength(Slot(n, fs.disk, s).name);
  }

  /** A lookup of a name of more than 27 bytes never succeeds. */
  lemma LongNameNotFound(fs: Fs, d: nat, name: CString)
    requires Inv(fs) && d < 128 && |name| > 27
    ensures Find(fs, d, name) == -1
  {
    hide Own, Synced, Find, DirEntries;
    FindIsSearch(fs, d, name);
    var s := Search(DirEntries(fs, d), name, 0);
    if s != -1 {
      EntryNamesShort(fs, d, s);
    }
  }

  // ----- room -----

  /** No inode of the table is free. */
  predicate NoneFree(t: InodeTable) {
    forall i :: 0 <= i < 128 ==> t[i].kind != TYPE_FREE
  }

  /** Whether there is room for one more entry: a slot in an allocated block, or a block to be had. */
  ghost predicate HasRoom(fs: Fs, dir: nat)
    requires dir < 128
  {
    var s := EntryCount(fs.inodes[dir]);
    s < 224 && (fs.inodes[dir].blocks[s / 16] != 0 || FirstClear(fs.bitmap) != -1)
  }

  /**
    No inode is free, or none is counted as free, or there is no room for its entry.  A parent that
    is no directory has room only when it is itself the inode handed out, for a directory.
   */
  ghost predicate NoPlace(fs: Fs, dir: nat, isDir: bool)
    requires dir < 128
  {
    || fs.sb.freeInodes == 0 || NoneFree(fs.inodes)
    || (if fs.inodes[dir].kind == TYPE_DIR then !HasRoom(fs, dir)
        else !isDir || FirstFree(fs.inodes) != dir || FirstClear(fs.bitmap) == -1)
  }

  lemma AddEntryFailsIff(fs: Fs, dir: nat, name: CString, ino: u32)
    requires dir < 128
    ensures AddEntry(fs, dir, name, ino).code == (if fs.inodes[dir].kind == TYPE_DIR && HasRoom(fs, dir) then 0 else -1)
  {
  }

  lemma FindIsSearchInv(fs: Fs, dir: nat, name: CString)
    requires dir < 128 && Inv(fs)
    ensures Find(fs, dir, name) == -1 <==> Search(DirEntries(fs, dir), name, 0) == -1
  {
    FindIsSearch(fs, dir, name);
  }

  /** `pafs_create` fails exactly when it must: the name is taken, or an inode or room for the entry is missing. */
  lemma CreateFailsIff(fs: Fs, parent: nat, name: CString, isDir: bool)
    requires Inv(fs) && parent < 128
    ensures Create(fs, parent, name, isDir).code == -1
            <==> name in BindingMap(DirEntries(fs, parent)) || NoPlace(fs, parent, isDir)
  {
    hide Inv, DirEntries, BindingMap, AddEntry, HasRoom, Find;
    InMap(DirEntries(fs, parent), name);
    FindIsSearchInv(fs, parent, name);
    var i := FirstFree(fs.inodes);
    if i != -1 {
      var c := Claim(fs, i, isDir);
      AddEntryFailsIff(c, parent, name, i);
      if parent == i {
        SelfParent(fs, i, isDir);
      } else {
        RoomAlike(fs, c, parent);
      }
    }
  }

  lemma SelfParent(fs: Fs, i: nat, isDir: bool)
    requires Inv(fs) && i < 128 && fs.inodes[i].kind == TYPE_FREE
    ensures HasRoom(Claim(fs, i, isDir), i) <==> FirstClear(fs.bitmap) != -1
  {
    hide Own, Synced, DirOk;
    assert fs.inodes[i].blocks == NoBlocks();
  }

  lemma RoomAlike(fs: Fs, c: Fs, dir: nat)
    requires dir < 128 && c.inodes[dir] == fs.inodes[dir] && c.bitmap == fs.bitmap
    ensures HasRoom(c, dir) == HasRoom(fs, dir)
  {
  }
}
