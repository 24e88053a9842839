/**
  The name space of a volume: for every inode number the list of bindings of
  that directory.  Names are unique in a directory, and every live inode but the
  root is bound exactly once, as long as deletions are exact.
 */
module PafsTree {
  import opened Words
  import opened PafsLayout
  import opened PafsState
  import opened PafsInv
  import opened PafsDirs
  import opened PafsOps

  type Tree = t: seq<seq<Binding>> | |t| == 128 witness seq(128, _ => [])

  function TreeOf(fs: Fs): Tree {
    seq(128, d requires 0 <= d < 128 => DirEntries(fs, d))
  }

  /** The inodes in use. */
  function Live(t: InodeTable): set<int> {
    set i | 0 <= i < 128 && t[i].kind != TYPE_FREE
  }

  // ----- unique names -----

  ghost predicate DistinctNames(e: seq<Binding>) {
    forall s, u :: 0 <= s < u < |e| ==> e[s].name != e[u].name
  }

  ghost predicate NamesUnique(tree: Tree) {
    forall d :: 0 <= d < 128 ==> DistinctNames(tree[d])
  }

  lemma DistinctDrop(e: seq<Binding>, t: nat)
    requires DistinctNames(e) && t < |e|
    ensures DistinctNames(Dropped(e, t))
  {
  }

  // ----- bindings as a map -----

  /** The inode bound to each name of a directory (the first binding counts). */
  function BindingMap(e: seq<Binding>): map<CString, u32> {
    map n: CString | n in (set b | b in e :: b.name) && Search(e, n, 0) != -1 :: e[Search(e, n, 0)].ino
  }

  lemma InMap(e: seq<Binding>, n: CString)
    ensures n in BindingMap(e) <==> Search(e, n, 0) != -1
    ensures n in BindingMap(e) ==> BindingMap(e)[n] == e[Search(e, n, 0)].ino
  {
    var s := Search(e, n, 0);
    if s != -1 {
      assert e[s] in e;
    }
  }

  lemma MapLookup(e: seq<Binding>, s: nat)
    requires DistinctNames(e) && s < |e|
    ensures e[s].name in BindingMap(e) && BindingMap(e)[e[s].name] == e[s].ino && Search(e, e[s].name, 0) == s
  {
    InMap(e, e[s].name);
  }

  /** Appending a name adds one binding if the name is new, and otherwise changes nothing. */
  lemma MapAppend(e: seq<Binding>, b: Binding)
    ensures BindingMap(e + [b]) == if Search(e, b.name, 0) == -1 then BindingMap(e)[b.name := b.ino] else BindingMap(e)
  {
    hide BindingMap;
    var e' := e + [b];
    forall n: CString
      ensures n in BindingMap(e') <==> n in BindingMap(e) || n == b.name
      ensures n in BindingMap(e') ==> BindingMap(e')[n] == (if n in BindingMap(e) then BindingMap(e)[n] else b.ino)
    {
      InMap(e, n);
      InMap(e', n);
      SearchAppend(e, b, n);
    }
    InMap(e, b.name);
  }

  lemma SearchAppend(e: seq<Binding>, b: Binding, n: CString)
    ensures Search(e + [b], n, 0) ==
            if Search(e, n, 0) != -1 then Search(e, n, 0) else if b.name == n then |e| else -1
  {
    var s, s' := Search(e, n, 0), Search(e + [b], n, 0);
    assert (e + [b])[|e|] == b && forall j :: 0 <= j < |e| ==> (e + [b])[j] == e[j];
    if s != -1 {
      assert (e + [b])[s].name == n;
    }
  }

  /** The slots a deletion leaves: the target and the last entry trade places only across blocks. */
  ghost predicate Exact(e: seq<Binding>, t: nat) {
    t == |e| - 1 || t / 16 != (|e| - 1) / 16
  }

  lemma DropKeeps(e: seq<Binding>, t: nat, n: CString)
    requires DistinctNames(e) && t < |e|
    ensures var gone := Gone(e, t);
            && (n in BindingMap(Dropped(e, t)) <==> n in BindingMap(e) && n != gone)
            && (n in BindingMap(Dropped(e, t)) ==> BindingMap(Dropped(e, t))[n] == BindingMap(e)[n])
  {
    hide BindingMap;
    var e', l := Dropped(e, t), |e| - 1;
    DistinctDrop(e, t);
    InMap(e, n);
    InMap(e', n);
    var s := Search(e, n, 0);
    if s != -1 {
      if s < l && (s != t || t / 16 == l / 16) {
        assert e'[s] == e[s];
        MapLookup(e', s);
      } else if s == l && t != l && t / 16 != l / 16 {
        assert e'[t] == e[l];
        MapLookup(e', t);
      }
    }
    var s' := Search(e', n, 0);
    if s' != -1 {
      if s' == t && t / 16 != l / 16 {
        MapLookup(e, l);
      } else {
        MapLookup(e, s');
      }
    }
  }

  /** The name a deletion of entry `t` takes away. */
  function Gone(e: seq<Binding>, t: nat): CString
    requires t < |e|
  {
    if t == |e| - 1 || t / 16 != (|e| - 1) / 16 then e[t].name else e[|e| - 1].name
  }

  lemma MapMinus(m: map<CString, u32>, m': map<CString, u32>, k: CString)
    requires forall n: CString :: n in m' <==> n in m && n != k
    requires forall n: CString :: n in m' ==> m'[n] == m[n]
    ensures m' == m - {k}
  {
  }

  /** Which binding a deletion takes away. */
  lemma DropEffect(e: seq<Binding>, t: nat)
    requires DistinctNames(e) && t < |e|
    ensures BindingMap(Dropped(e, t)) == BindingMap(e) - {Gone(e, t)}
  {
    hide BindingMap, Dropped, Gone;
    forall n: CString
      ensures n in BindingMap(Dropped(e, t)) <==> n in BindingMap(e) && n != Gone(e, t)
      ensures n in BindingMap(Dropped(e, t)) ==> BindingMap(Dropped(e, t))[n] == BindingMap(e)[n]
    {
      DropKeeps(e, t, n);
    }
    MapMinus(BindingMap(e), BindingMap(Dropped(e, t)), Gone(e, t));
  }

  /** No other entry has the name of entry `t`. */
  ghost predicate OnlyEntry(e: seq<Binding>, t: nat)
    requires t < |e|
  {
    forall s :: 0 <= s < |e| && s != t ==> e[s].name != e[t].name
  }

  /** The last entry, moved to slot `t`, does not come to lie before another one of its name for another inode. */
  ghost predicate LastKeepsPlace(e: seq<Binding>, t: nat)
    requires t < |e|
  {
    var last := e[|e| - 1];
    var s := Search(e, last.name, 0);
    t == |e| - 1 || s <= t || s == |e| - 1 || e[s].ino == last.ino
  }

  /** Taking out entry `t` takes away its name and nothing else. */
  ghost predicate Clean(e: seq<Binding>, t: nat)
    requires t < |e|
  {
    Exact(e, t) && OnlyEntry(e, t) && LastKeepsPlace(e, t)
  }

  lemma CleanIsExact(e: seq<Binding>, t: nat)
    requires DistinctNames(e) && t < |e|
    ensures Clean(e, t) <==> Exact(e, t)
  {
  }

  lemma EntryStays(e: seq<Binding>, t: nat)
    requires t < |e| && !Exact(e, t)
    ensures t < |Dropped(e, t)| && Dropped(e, t)[t] == e[t]
  {
  }

  /** An entry of the list that is left means its name is still bound. */
  lemma StillBound(e: seq<Binding>, s: nat)
    requires s < |e|
    ensures e[s].name in BindingMap(e)
  {
    InMap(e, e[s].name);
  }

  /** What taking out entry `t` leaves at each place. */
  lemma DroppedAt(e: seq<Binding>, t: nat)
    requires t < |e|
    ensures var e', l := Dropped(e, t), |e| - 1;
            && |e'| == l
            && (forall j :: 0 <= j < l && j != t ==> e'[j] == e[j])
            && (t < l ==> e'[t] == if Exact(e, t) then e[l] else e[t])
  {
  }

  lemma NotOnlyDrop(e: seq<Binding>, t: nat)
    requires t < |e| && Search(e, e[t].name, 0) == t && Exact(e, t) && !OnlyEntry(e, t)
    ensures e[t].name in BindingMap(Dropped(e, t))
  {
    hide BindingMap, Dropped, Exact, Search;
    var e', l := Dropped(e, t), |e| - 1;
    DroppedAt(e, t);
    var s :| 0 <= s < |e| && s != t && e[s].name == e[t].name;
    var s' := if s == l then t else s;
    assert e'[s'].name == e[t].name;
    StillBound(e', s');
  }

  lemma LastMovesDrop(e: seq<Binding>, t: nat)
    requires t < |e| && Search(e, e[t].name, 0) == t && Exact(e, t) && !LastKeepsPlace(e, t)
    ensures var n := e[|e| - 1].name;
            && n != e[t].name && n in BindingMap(e) && n in BindingMap(Dropped(e, t))
            && BindingMap(Dropped(e, t))[n] != BindingMap(e)[n]
  {
    hide BindingMap, Dropped, Exact, Search;
    var e', l := Dropped(e, t), |e| - 1;
    var n, s := e[l].name, Search(e, e[l].name, 0);
    DroppedAt(e, t);
    InMap(e, n);
    InMap(e', n);
    assert e'[t].name == n && forall j :: 0 <= j < t ==> e'[j] == e[j];
    assert Search(e', n, 0) == t;
  }

  lemma NotCleanDrop(e: seq<Binding>, t: nat)
    requires t < |e| && Search(e, e[t].name, 0) == t && !Clean(e, t)
    ensures BindingMap(Dropped(e, t)) != BindingMap(e) - {e[t].name}
  {
    hide BindingMap, Dropped, Exact, OnlyEntry, LastKeepsPlace, Search;
    if !Exact(e, t) {
      EntryStays(e, t);
      StillBound(Dropped(e, t), t);
    } else if !OnlyEntry(e, t) {
      NotOnlyDrop(e, t);
    } else {
      LastMovesDrop(e, t);
      var n := e[|e| - 1].name;
      assert n in BindingMap(e) - {e[t].name} && (BindingMap(e) - {e[t].name})[n] == BindingMap(e)[n];
    }
  }

  /** Whatever names the list has: an entry taken out takes away exactly its name if and only if that is clean. */
  lemma DropExactIff(e: seq<Binding>, t: nat)
    requires t < |e| && Search(e, e[t].name, 0) == t
    ensures BindingMap(Dropped(e, t)) == BindingMap(e) - {e[t].name} <==> Clean(e, t)
  {
    hide BindingMap, Dropped, Clean;
    if Clean(e, t) {
      forall n: CString
        ensures n in BindingMap(Dropped(e, t)) <==> n in BindingMap(e) && n != e[t].name
        ensures n in BindingMap(Dropped(e, t)) ==> BindingMap(Dropped(e, t))[n] == BindingMap(e)[n]
      {
        CleanKeeps(e, t, n);
      }
      MapMinus(BindingMap(e), BindingMap(Dropped(e, t)), e[t].name);
    } else {
      NotCleanDrop(e, t);
    }
  }

  lemma CleanKeeps(e: seq<Binding>, t: nat, n: CString)
    requires t < |e| && Search(e, e[t].name, 0) == t && Clean(e, t)
    ensures var e' := Dropped(e, t);
            && (n in BindingMap(e') <==> n in BindingMap(e) && n != e[t].name)
            && (n in BindingMap(e') ==> BindingMap(e')[n] == BindingMap(e)[n])
  {
    hide BindingMap, Dropped, Exact, Search;
    var e', l := Dropped(e, t), |e| - 1;
    DroppedAt(e, t);
    InMap(e, n);
    InMap(e', n);
    var s, s' := Search(e, n, 0), Search(e', n, 0);
    if s != -1 && s != t {
      assert e'[if s == l then t else s].name == n;
    }
    if s' != -1 {
      assert e[if s' == t then l else s'].name == n;
    }
  }

  /**
    Deleting a name removes exactly its binding if and only if that is clean: it is the last one of the
    directory or lies in another block than the last one, and neither its name nor the last one's is bound again.
   */
  lemma DeleteExactIff(fs: Fs, parent: nat, name: CString)
    requires Inv(fs) && parent < 128 && Delete(fs, parent, name).code == 0
    ensures var e := DirEntries(fs, parent);
            && Search(e, name, 0) != -1
            && (BindingMap(DirEntries(Delete(fs, parent, name).fs, parent)) == BindingMap(e) - {name}
                <==> Clean(e, Search(e, name, 0)))
            && (DistinctNames(e) ==> (Clean(e, Search(e, name, 0)) <==> Exact(e, Search(e, name, 0))))
  {
    hide Inv, DirEntries, Delete, BindingMap, Dropped, RestSame, Clean, Exact, DistinctNames;
    var e := DirEntries(fs, parent);
    DeleteEffect(fs, parent, name);
    var t := Search(e, name, 0);
    DropExactIff(e, t);
    if DistinctNames(e) {
      CleanIsExact(e, t);
    }
  }

  // ----- every live inode is bound once -----

  ghost predicate Bound(tree: Tree, i: int) {
    exists d: int, s: int :: 0 <= d < 128 && 0 <= s < |tree[d]| && tree[d][s].ino == i
  }

  ghost predicate Unbound(tree: Tree, i: int) {
    forall d: int, s: int :: 0 <= d < 128 && 0 <= s < |tree[d]| ==> tree[d][s].ino != i
  }

  ghost predicate BindingsLive(tree: Tree, live: set<int>) {
    forall d: int, s: int :: 0 <= d < 128 && 0 <= s < |tree[d]| ==> tree[d][s].ino in live && tree[d][s].ino != 0
  }

  ghost predicate BoundOnce(tree: Tree) {
    forall d: int, s: int, e: int, u: int :: (0 <= d < 128 && 0 <= s < |tree[d]| && 0 <= e < 128 && 0 <= u < |tree[e]|
      && tree[d][s].ino == tree[e][u].ino) ==> d == e && s == u
  }

  ghost predicate LiveBound(tree: Tree, live: set<int>) {
    forall i :: i in live && i != 0 ==> Bound(tree, i)
  }

  /** Every live inode but the root is named by exactly one binding, and no other inode is named. */
  ghost predicate Refs(tree: Tree, live: set<int>) {
    BindingsLive(tree, live) && BoundOnce(tree) && LiveBound(tree, live)
  }

  lemma RefsAppend(tree: Tree, live: set<int>, p: nat, b: Binding)
    requires Refs(tree, live) && p < 128 && b.ino != 0 && b.ino !in live
    ensures Refs(tree[p := tree[p] + [b]], live + {b.ino as int})
  {
    var tree': Tree := tree[p := tree[p] + [b]];
    assert tree'[p][|tree[p]|] == b;
    forall i | i in live + {b.ino as int} && i != 0
      ensures Bound(tree', i)
    {
      if i != b.ino {
        var d: int, s: int :| 0 <= d < 128 && 0 <= s < |tree[d]| && tree[d][s].ino == i;
        assert tree'[d][s].ino == i;
      }
    }
  }

  lemma OnceDrop(tree: Tree, p: nat, t: nat)
    requires BoundOnce(tree) && p < 128 && t < |tree[p]| && Exact(tree[p], t)
    ensures BoundOnce(tree[p := Dropped(tree[p], t)])
    ensures Unbound(tree[p := Dropped(tree[p], t)], tree[p][t].ino)
  {
    var tree': Tree := tree[p := Dropped(tree[p], t)];
    var l := |tree[p]| - 1;
    forall d: int, s: int, e: int, u: int | 0 <= d < 128 && 0 <= s < |tree'[d]| && 0 <= e < 128 && 0 <= u < |tree'[e]|
      && tree'[d][s].ino == tree'[e][u].ino
      ensures d == e && s == u
    {
      var s0 := if d == p && s == t then l else s;
      var u0 := if e == p && u == t then l else u;
      assert tree'[d][s] == tree[d][s0] && tree'[e][u] == tree[e][u0];
    }
    forall d: int, s: int | 0 <= d < 128 && 0 <= s < |tree'[d]|
      ensures tree'[d][s].ino != tree[p][t].ino
    {
      var s0 := if d == p && s == t then l else s;
      assert tree'[d][s] == tree[d][s0];
    }
  }

  lemma BoundDrop(tree: Tree, p: nat, t: nat, i: int)
    requires p < 128 && t < |tree[p]| && Exact(tree[p], t) && Bound(tree, i) && i != tree[p][t].ino
    ensures Bound(tree[p := Dropped(tree[p], t)], i)
  {
    var tree': Tree := tree[p := Dropped(tree[p], t)];
    var d: int, s: int :| 0 <= d < 128 && 0 <= s < |tree[d]| && tree[d][s].ino == i;
    var s' := if d == p && s == |tree[p]| - 1 then t else s;
    assert tree'[d][s'].ino == i;
  }

  lemma RefsDrop(tree: Tree, live: set<int>, p: nat, t: nat)
    requires Refs(tree, live) && p < 128 && t < |tree[p]| && Exact(tree[p], t)
    ensures Refs(tree[p := Dropped(tree[p], t)], live - {tree[p][t].ino as int})
  {
    var tree': Tree := tree[p := Dropped(tree[p], t)];
    OnceDrop(tree, p, t);
    forall d: int, s: int | 0 <= d < 128 && 0 <= s < |tree'[d]|
      ensures tree'[d][s].ino in live - {tree[p][t].ino as int} && tree'[d][s].ino != 0
    {
      var s0 := if d == p && s == t then |tree[p]| - 1 else s;
      assert tree'[d][s] == tree[d][s0];
    }
    forall i | i in live - {tree[p][t].ino as int} && i != 0
      ensures Bound(tree', i)
    {
      BoundDrop(tree, p, t, i);
    }
  }
}
