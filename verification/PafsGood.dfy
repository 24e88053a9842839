/**
  Names that are unique, live inodes that are named exactly once, and files without holes: after
  which operations that stays so, and over which runs.
 */
module PafsGood {
  import opened Words
  import opened PafsLayout
  import opened PafsState
  import opened PafsInv
  import opened PafsDirs
  import opened PafsOps
  import opened PafsFiles
  import opened PafsTree
  import opened PafsMount
  import opened PafsRuns
  import opened PafsRoom
  import opened PafsGaps

  // ----- what operations do to the tree -----

  /** Tables that agree on which inodes are free, but perhaps for inode `i`. */
  ghost predicate FreeAlike(t: InodeTable, t': InodeTable, i: int) {
    forall j :: 0 <= j < 128 && j != i ==> (t'[j].kind == TYPE_FREE <==> t[j].kind == TYPE_FREE)
  }

  lemma TreeAfterCreate(fs: Fs, parent: nat, name: CString, isDir: bool)
    requires Inv(fs) && parent < 128 && Create(fs, parent, name, isDir).code != -1
    ensures var r := Create(fs, parent, name, isDir);
            && 0 < r.code < 128 && r.code !in Live(fs.inodes)
            && TreeOf(r.fs) == TreeOf(fs)[parent := TreeOf(fs)[parent] + [Binding(r.code, Kept(name))]]
            && Live(r.fs.inodes) == Live(fs.inodes) + {r.code}
            && FreeAlike(fs.inodes, r.fs.inodes, r.code)
  {
    hide Create, Own, Synced, FreeClean, Core;
    CreateEffect(fs, parent, name, isDir);
    var r := Create(fs, parent, name, isDir);
    forall d | 0 <= d < 128
      ensures d != parent ==> DirEntries(r.fs, d) == DirEntries(fs, d)
    {
      if d != parent && d != r.code {
        EntriesKept(fs, r.fs, d);
      } else if d != parent {
        EmptyEntries(r.fs, d);
      }
    }
  }

  lemma EmptyEntries(fs: Fs, d: nat)
    requires d < 128 && (fs.inodes[d].size == 0 || fs.inodes[d].kind != TYPE_DIR)
    ensures DirEntries(fs, d) == []
  {
  }

  lemma TreeAfterDelete(fs: Fs, parent: nat, name: CString)
    requires Inv(fs) && parent < 128 && Delete(fs, parent, name).code == 0
    ensures var r := Delete(fs, parent, name);
            var t := Search(DirEntries(fs, parent), name, 0);
            && t != -1
            && var i := DirEntries(fs, parent)[t].ino;
            && 0 < i < 128 && i != parent && r.fs.inodes[i] == FreeInode
            && TreeOf(r.fs) == TreeOf(fs)[parent := Dropped(TreeOf(fs)[parent], t)]
            && Live(r.fs.inodes) == Live(fs.inodes) - {i as int}
            && FreeAlike(fs.inodes, r.fs.inodes, i)
  {
    hide Delete, Core, DirsOk, Dropped, Search, DirEntries, SameData;
    DeleteEffect(fs, parent, name);
    var r := Delete(fs, parent, name);
    var t := Search(DirEntries(fs, parent), name, 0);
    var i := DirEntries(fs, parent)[t].ino;
    forall d | 0 <= d < 128
      ensures d != parent ==> DirEntries(r.fs, d) == DirEntries(fs, d)
    {
      if d != parent && d != i {
        EntriesKept(fs, r.fs, d);
      } else if d != parent {
        EmptyEntries(r.fs, d);
        DeletedWasEmpty(fs, parent, name, d);
      }
    }
  }

  lemma DeletedWasEmpty(fs: Fs, parent: nat, name: CString, i: nat)
    requires Inv(fs) && parent < 128 && Delete(fs, parent, name).code == 0 && i < 128
    requires var t := Search(DirEntries(fs, parent), name, 0); t != -1 && DirEntries(fs, parent)[t].ino == i
    ensures DirEntries(fs, i) == []
  {
    hide Delete, Inv;
    DeleteEffect(fs, parent, name);
    assert Deletable(fs, i);
    EmptyEntries(fs, i);
  }

  /** Operations on a file leave the tree alone. */
  lemma TreeAfterData(fs: Fs, fs': Fs, i: nat)
    requires i < 128 && DirsOk(fs) && OthersSame(fs, fs', i)
    requires fs.inodes[i].kind == TYPE_FILE && fs'.inodes[i].kind == TYPE_FILE
    ensures TreeOf(fs') == TreeOf(fs) && Live(fs'.inodes) == Live(fs.inodes) && FreeAlike(fs.inodes, fs'.inodes, -1)
  {
    forall d | 0 <= d < 128
      ensures DirEntries(fs', d) == DirEntries(fs, d)
    {
      if d != i {
        EntriesKept(fs, fs', d);
      }
    }
  }

  // ----- the stronger invariants -----

  /** Names are unique in each directory, and every live inode but the root is named by exactly one binding. */
  ghost predicate Named(fs: Fs) {
    && Inv(fs)
    && NamesUnique(TreeOf(fs))
    && Refs(TreeOf(fs), Live(fs.inodes))
  }

  ghost predicate AllDense(fs: Fs) {
    forall i :: 0 <= i < 128 && fs.inodes[i].kind == TYPE_FILE ==> Dense(fs.inodes[i])
  }

  ghost predicate Good(fs: Fs) {
    Named(fs) && AllDense(fs)
  }

  /** A create that fails, or whose name, as far as an entry keeps it, is new in its directory. */
  ghost predicate NewName(fs: Fs, parent: nat, name: CString, isDir: bool)
    requires parent < 128
  {
    || Find(fs, parent, name) != -1 || NoPlace(fs, parent, isDir)
    || Search(DirEntries(fs, parent), Kept(name), 0) == -1
  }

  /** Whether an operation leaves names unique and inodes named once, told from the state before. */
  ghost predicate KeepsNames(fs: Fs, op: Op) {
    match op
    case OpCreate(p, name, isDir) => NewName(fs, p, name, isDir)
    case OpWrite(name, data) => NewName(fs, 0, name, false)
    case OpDelete(p, name) =>
      var t := Search(DirEntries(fs, p), name, 0);
      t == -1 || Exact(DirEntries(fs, p), t) || !DeletableEntry(fs, DirEntries(fs, p)[t].ino)
    case _ => true
  }

  ghost predicate DeletableEntry(fs: Fs, i: u32) {
    i < 128 && Deletable(fs, i)
  }

  /** Whether an operation leaves files without holes, told from the state before. */
  ghost predicate KeepsDense(fs: Fs, op: Op) {
    match op
    case OpVfsWrite(i, offset, data) =>
      fs.inodes[i].kind == TYPE_FILE ==> offset <= fs.inodes[i].size || GapFilled(fs, i, offset, data)
    case _ => true
  }

  /** Operations a caller can check to be harmless before making them. */
  ghost predicate OpOk(fs: Fs, op: Op) {
    KeepsNames(fs, op) && KeepsDense(fs, op)
  }

  // ----- names -----

  lemma NamedFormat(disk: Disk)
    ensures Named(Format(disk))
  {
    hide Inv, Format;
    var fs := Format(disk);
    FormatInv(disk);
    assert forall d :: 0 <= d < 128 ==> TreeOf(fs)[d] == [];
    assert fs.inodes[0].kind == TYPE_DIR by { RootIsDir(fs); }
    assert forall i :: i in Live(fs.inodes) ==> i == 0;
  }

  lemma RootIsDir(fs: Fs)
    requires Inv(fs)
    ensures fs.inodes[0].kind == TYPE_DIR && RootOf(fs) == 0
  {
  }

  lemma NamedParts(fs: Fs)
    requires Named(fs)
    ensures Inv(fs) && NamesUnique(TreeOf(fs)) && Refs(TreeOf(fs), Live(fs.inodes))
  {
  }

  /** A binding whose name is there already makes names ambiguous. */
  lemma DistinctAppendIff(e: seq<Binding>, b: Binding)
    requires DistinctNames(e)
    ensures DistinctNames(e + [b]) <==> Search(e, b.name, 0) == -1
  {
    var s := Search(e, b.name, 0);
    if s != -1 {
      assert (e + [b])[s].name == (e + [b])[|e|].name;
    }
  }

  lemma NamedCreateIff(fs: Fs, parent: nat, name: CString, isDir: bool)
    requires Named(fs) && parent < 128
    ensures Named(Create(fs, parent, name, isDir).fs) <==> NewName(fs, parent, name, isDir)
  {
    hide Create, Inv, Refs, NoPlace, Find, BindingMap;
    CreateEffect(fs, parent, name, isDir);
    CreateFailsIff(fs, parent, name, isDir);
    FindIsSearchInv(fs, parent, name);
    InMap(DirEntries(fs, parent), name);
    var r := Create(fs, parent, name, isDir);
    if r.code != -1 {
      TreeAfterCreate(fs, parent, name, isDir);
      var e := DirEntries(fs, parent);
      assert TreeOf(fs)[parent] == e;
      DistinctAppendIff(e, Binding(r.code, Kept(name)));
      RefsAppend(TreeOf(fs), Live(fs.inodes), parent, Binding(r.code, Kept(name)));
      assert TreeOf(r.fs)[parent] == e + [Binding(r.code, Kept(name))];
      assert forall d :: 0 <= d < 128 && d != parent ==> TreeOf(r.fs)[d] == TreeOf(fs)[d];
    }
  }

  /** A deletion that is not exact leaves the entry of an inode that is now free. */
  lemma NamedDeleteIff(fs: Fs, parent: nat, name: CString)
    requires Named(fs) && parent < 128
    ensures Named(Delete(fs, parent, name).fs) <==> KeepsNames(fs, OpDelete(parent, name))
  {
    hide Delete, Inv, Refs, Exact, Dropped;
    DeleteEffect(fs, parent, name);
    var r := Delete(fs, parent, name);
    if r.code == 0 {
      TreeAfterDelete(fs, parent, name);
      var e := DirEntries(fs, parent);
      var t := Search(e, name, 0);
      assert TreeOf(fs)[parent] == e;
      LiveOfRefs(TreeOf(fs), Live(fs.inodes), parent, t);
      if Exact(e, t) {
        DistinctDrop(e, t);
        RefsDrop(TreeOf(fs), Live(fs.inodes), parent, t);
      } else {
        EntryStays(e, t);
        assert TreeOf(r.fs)[parent][t].ino !in Live(r.fs.inodes);
        NotLiveNotRefs(TreeOf(r.fs), Live(r.fs.inodes), parent, t);
      }
    }
  }

  lemma LiveOfRefs(tree: Tree, live: set<int>, d: nat, s: nat)
    requires Refs(tree, live) && d < 128 && s < |tree[d]|
    ensures tree[d][s].ino in live
  {
  }

  lemma NotLiveNotRefs(tree: Tree, live: set<int>, d: nat, s: nat)
    requires d < 128 && s < |tree[d]| && tree[d][s].ino !in live
    ensures !Refs(tree, live)
  {
  }

  lemma NamedData(fs: Fs, fs': Fs, i: nat)
    requires Named(fs) && i < 128 && Inv(fs') && OthersSame(fs, fs', i)
    requires fs.inodes[i].kind == TYPE_FILE && fs'.inodes[i].kind == TYPE_FILE
    ensures Named(fs')
  {
    hide Core, Refs, SameData;
    TreeAfterData(fs, fs', i);
  }

  lemma NamedBack(fs: Fs, fs': Fs, i: nat)
    requires Inv(fs) && i < 128 && OthersSame(fs, fs', i) && Named(fs')
    requires fs.inodes[i].kind == TYPE_FILE && fs'.inodes[i].kind == TYPE_FILE
    ensures Named(fs)
  {
    hide Core, Refs, SameData;
    TreeAfterData(fs, fs', i);
  }

  lemma NamedWriteIff(fs: Fs, name: CString, data: seq<byte>)
    requires Named(fs)
    ensures Named(Write(fs, name, data).fs) <==> NewName(fs, 0, name, false)
  {
    hide Named, Inv, Create, WriteInode, Write, Find, NoPlace, DirEntries, OthersSame;
    NamedParts(fs);
    WriteCases(fs, name, data);
    var found := Find(fs, 0, name);
    if found != -1 {
      NamedWriteInode(fs, found, data);
    } else {
      NamedCreateIff(fs, 0, name, false);
      var c := Create(fs, 0, name, false);
      if c.code != -1 {
        WriteInodeInv(c.fs, c.code, data);
        var r := WriteInode(c.fs, c.code, data);
        if Named(c.fs) {
          NamedData(c.fs, r.fs, c.code);
        }
        if Named(r.fs) {
          NamedBack(c.fs, r.fs, c.code);
        }
      } else {
        CreateEffect(fs, 0, name, false);
      }
    }
  }

  lemma NamedWriteInode(fs: Fs, i: nat, data: seq<byte>)
    requires Named(fs) && i < 128
    ensures Named(WriteInode(fs, i, data).fs)
  {
    hide Inv, Refs, WriteInode;
    WriteInodeInv(fs, i, data);
    if fs.inodes[i].kind == TYPE_FILE {
      NamedData(fs, WriteInode(fs, i, data).fs, i);
    }
  }

  lemma NamedVfsWrite(fs: Fs, i: nat, offset: u32, data: seq<byte>)
    requires Named(fs) && i < 128
    ensures Named(VfsWrite(fs, i, offset, data).fs)
  {
    hide Inv, Refs, VfsWrite;
    VfsWriteInv(fs, i, offset, data);
    if fs.inodes[i].kind == TYPE_FILE {
      NamedData(fs, VfsWrite(fs, i, offset, data).fs, i);
    }
  }

  lemma NamedRemount(fs: Fs)
    requires Named(fs)
    ensures Named(Remount(fs))
  {
    hide Inv, Mount, Refs, NamesUnique;
    RemountIsSame(fs);
    assert TreeOf(Remount(fs)) == TreeOf(fs);
  }

  /**
    Names stay unique and inodes named once exactly unless a name is created that its directory has
    already as far as an entry keeps it, or a deletion is not exact.
   */
  lemma NamedStepIff(fs: Fs, op: Op)
    requires Named(fs)
    ensures Named(Step(fs, op)) <==> KeepsNames(fs, op)
  {
    hide Named, Create, VfsWrite, Delete, Format, Write, Remount, Exact, NewName, DeletableEntry;
    match op
    case OpFormat => NamedFormat(fs.disk);
    case OpCreate(p, name, isDir) => NamedCreateIff(fs, p, name, isDir);
    case OpWrite(name, data) => NamedWriteIff(fs, name, data);
    case OpVfsWrite(i, offset, data) => NamedVfsWrite(fs, i, offset, data);
    case OpDelete(p, name) => NamedDeleteIff(fs, p, name);
    case OpRemount => NamedRemount(fs);
  }

  // ----- holes -----

  lemma DenseAfterCreate(fs: Fs, parent: nat, name: CString, isDir: bool)
    requires Inv(fs) && AllDense(fs) && parent < 128
    ensures AllDense(Create(fs, parent, name, isDir).fs)
  {
    hide Inv, Create, DirEntries;
    CreateEffect(fs, parent, name, isDir);
    var r := Create(fs, parent, name, isDir);
    if r.code != -1 {
      forall j | 0 <= j < 128 && r.fs.inodes[j].kind == TYPE_FILE
        ensures Dense(r.fs.inodes[j])
      {
        if j != r.code && j != parent {
          assert r.fs.inodes[j] == fs.inodes[j];
        }
      }
    }
  }

  lemma DenseAfterDelete(fs: Fs, parent: nat, name: CString)
    requires Inv(fs) && AllDense(fs) && parent < 128
    ensures AllDense(Delete(fs, parent, name).fs)
  {
    hide Inv, Delete, Dropped, DirEntries, Search, Deletable;
    DeleteEffect(fs, parent, name);
  }

  /** An operation on file `i` leaves all files dense exactly when it leaves that one so. */
  lemma DenseData(fs: Fs, fs': Fs, i: nat)
    requires AllDense(fs) && i < 128 && OthersSame(fs, fs', i) && fs'.inodes[i].kind == TYPE_FILE
    ensures AllDense(fs') <==> Dense(fs'.inodes[i])
  {
    hide Dense, SameData;
    forall j | 0 <= j < 128 && j != i && fs'.inodes[j].kind == TYPE_FILE
      ensures Dense(fs'.inodes[j])
    {
      assert fs'.inodes[j] == fs.inodes[j];
    }
  }

  lemma DenseWriteInode(fs: Fs, i: nat, data: seq<byte>)
    requires Inv(fs) && AllDense(fs) && i < 128
    ensures AllDense(WriteInode(fs, i, data).fs)
  {
    hide Inv, WriteInode, AllDense, Dense, OthersSame;
    WriteInodeInv(fs, i, data);
    if fs.inodes[i].kind == TYPE_FILE {
      WriteInodeContents(fs, i, data);
      DenseData(fs, WriteInode(fs, i, data).fs, i);
    }
  }

  lemma DenseWrite(fs: Fs, name: CString, data: seq<byte>)
    requires Inv(fs) && AllDense(fs)
    ensures AllDense(Write(fs, name, data).fs)
  {
    hide Inv, AllDense, Create, WriteInode, Write, Find;
    WriteCases(fs, name, data);
    if Find(fs, 0, name) != -1 {
      DenseWriteInode(fs, Find(fs, 0, name), data);
    } else {
      DenseAfterCreate(fs, 0, name, false);
      var c := Create(fs, 0, name, false);
      if c.code != -1 {
        DenseWriteInode(c.fs, c.code, data);
      }
    }
  }

  lemma DenseVfsWriteIff(fs: Fs, i: nat, offset: u32, data: seq<byte>)
    requires Inv(fs) && AllDense(fs) && i < 128
    ensures AllDense(VfsWrite(fs, i, offset, data).fs) <==> KeepsDense(fs, OpVfsWrite(i, offset, data))
  {
    hide Inv, VfsWrite, Dense, OthersSame, GapFilled, Contents;
    VfsWriteInv(fs, i, offset, data);
    if fs.inodes[i].kind == TYPE_FILE {
      DenseData(fs, VfsWrite(fs, i, offset, data).fs, i);
      if offset <= fs.inodes[i].size {
        VfsWriteSplice(fs, i, offset, data);
      } else {
        GapLeavesNoHoleIff(fs, i, offset, data);
      }
    }
  }

  /** A hole comes into being exactly in a positional write behind the end that does not fill its gap. */
  lemma DenseStepIff(fs: Fs, op: Op)
    requires Inv(fs) && AllDense(fs)
    ensures AllDense(Step(fs, op)) <==> KeepsDense(fs, op)
  {
    hide Inv, AllDense, Create, VfsWrite, Delete, Format, Write, Mount, GapFilled;
    match op
    case OpFormat => DenseFormat(fs.disk);
    case OpCreate(p, name, isDir) => DenseAfterCreate(fs, p, name, isDir);
    case OpWrite(name, data) => DenseWrite(fs, name, data);
    case OpVfsWrite(i, offset, data) => DenseVfsWriteIff(fs, i, offset, data);
    case OpDelete(p, name) => DenseAfterDelete(fs, p, name);
    case OpRemount => DenseRemount(fs);
  }

  lemma DenseFormat(disk: Disk)
    ensures AllDense(Format(disk))
  {
    hide Inv, Format, Dense;
    FormatInv(disk);
    RootIsDir(Format(disk));
  }

  lemma DenseRemount(fs: Fs)
    requires Inv(fs) && AllDense(fs)
    ensures AllDense(Remount(fs))
  {
    hide Inv, Mount, Dense;
    RemountIsSame(fs);
  }

  // ----- runs -----

  lemma GoodFormat(disk: Disk)
    ensures Good(Format(disk))
  {
    hide Named, AllDense, Format;
    NamedFormat(disk);
    DenseFormat(disk);
  }

  /** Exactly the operations that are harmless keep names unique, inodes named once and files without holes. */
  lemma GoodStepIff(fs: Fs, op: Op)
    requires Good(fs)
    ensures Good(Step(fs, op)) <==> OpOk(fs, op)
  {
    hide Named, AllDense, Step, KeepsNames, KeepsDense;
    NamedParts(fs);
    NamedStepIff(fs, op);
    DenseStepIff(fs, op);
  }

  /** Each operation of a run is harmless in the state it is made in. */
  ghost predicate RunOk(fs: Fs, ops: seq<Op>)
    decreases |ops|
  {
    ops == [] || (OpOk(fs, ops[0]) && RunOk(Step(fs, ops[0]), ops[1..]))
  }

  /** At every moment of a run. */
  ghost predicate AlwaysGood(fs: Fs, ops: seq<Op>)
    decreases |ops|
  {
    Good(fs) && (ops == [] || AlwaysGood(Step(fs, ops[0]), ops[1..]))
  }

  lemma {:induction false} AlwaysGoodIff(fs: Fs, ops: seq<Op>)
    requires Good(fs)
    ensures AlwaysGood(fs, ops) <==> RunOk(fs, ops)
    ensures RunOk(fs, ops) ==> Good(Run(fs, ops))
    decreases |ops|
  {
    hide Good, Step, OpOk;
    if ops != [] {
      GoodStepIff(fs, ops[0]);
      if OpOk(fs, ops[0]) {
        AlwaysGoodIff(Step(fs, ops[0]), ops[1..]);
      } else {
        NotAlwaysGood(Step(fs, ops[0]), ops[1..]);
      }
    }
  }

  lemma NotAlwaysGood(fs: Fs, ops: seq<Op>)
    requires !Good(fs)
    ensures !AlwaysGood(fs, ops)
  {
  }

  /** From a format on, every state of a run is good exactly when each of its operations is harmless. */
  lemma ReachableGoodIff(disk: Disk, ops: seq<Op>)
    ensures AlwaysGood(Format(disk), ops) <==> RunOk(Format(disk), ops)
    ensures RunOk(Format(disk), ops) ==> Good(Run(Format(disk), ops))
  {
    hide Good, Run, RunOk, AlwaysGood, Format;
    GoodFormat(disk);
    AlwaysGoodIff(Format(disk), ops);
  }
}
