/**
  The kernel heap as a list of blocks that tile its 4 MB, and what first-fit
  allocation with splitting and freeing with coalescing do to that list.
 */
module HeapLayout {

  const HEAP_SIZE := 4 * 1024 * 1024
  const HEADER := 16

  /** Size with header, and whether the block is free. */
  datatype Block = Block(size: nat, free: bool)

  type Layout = seq<Block>

  /** The offset of block `k`: the sizes of the blocks before it. */
  function Offset(l: Layout, k: nat): nat
    requires k <= |l|
  {
    if k == 0 then 0 else Offset(l, k - 1) + l[k - 1].size
  }

  ghost predicate SizesOk(l: Layout) {
    forall k :: 0 <= k < |l| ==> l[k].size % 4 == 0 && l[k].size >= HEADER + 4
  }

  /** No two neighbours are both free. */
  ghost predicate Coalesced(l: Layout) {
    forall k :: 0 <= k < |l| - 1 ==> !(l[k].free && l[k + 1].free)
  }

  /** Blocks tile the heap, are word aligned, can hold a header, and are coalesced. */
  ghost predicate Ok(l: Layout) {
    SizesOk(l) && Coalesced(l) && Offset(l, |l|) == HEAP_SIZE
  }

  const Initial: Layout := [Block(HEAP_SIZE, true)]

  // ----- offsets -----

  lemma {:induction false} OffsetPrefix(l: Layout, m: Layout, k: nat)
    requires k <= |l| && k <= |m| && l[..k] == m[..k]
    ensures Offset(l, k) == Offset(m, k)
  {
    if k > 0 {
      assert l[k - 1] == l[..k][k - 1] == m[..k][k - 1];
      assert l[..k - 1] == l[..k][..k - 1] == m[..k][..k - 1];
      OffsetPrefix(l, m, k - 1);
    }
  }

  /** Two layouts with equal tails, entered at equal offsets, have equal offsets all along. */
  lemma {:induction false} OffsetSuffix(l: Layout, m: Layout, i: nat, j: nat, k: nat)
    requires i <= |l| && j <= |m| && l[i..] == m[j..] && Offset(l, i) == Offset(m, j) && i + k <= |l|
    ensures Offset(l, i + k) == Offset(m, j + k)
  {
    if k > 0 {
      OffsetSuffix(l, m, i, j, k - 1);
      assert l[i + k - 1] == l[i..][k - 1] == m[j..][k - 1];
    }
  }

  lemma {:induction false} OffsetGrows(l: Layout, i: nat, j: nat)
    requires i <= j <= |l|
    ensures Offset(l, i) <= Offset(l, j)
    ensures i < j ==> Offset(l, i) + l[i].size <= Offset(l, j)
    decreases j
  {
    if i < j {
      OffsetGrows(l, i, j - 1);
    }
  }

  lemma OffsetInjective(l: Layout, i: nat, j: nat)
    requires SizesOk(l) && i < |l| && j < |l| && Offset(l, i) == Offset(l, j)
    ensures i == j
  {
    if i < j {
      OffsetGrows(l, i, j);
    } else if j < i {
      OffsetGrows(l, j, i);
    }
  }

  lemma {:induction false} OffsetAligned(l: Layout, k: nat)
    requires SizesOk(l) && k <= |l|
    ensures Offset(l, k) % 4 == 0
  {
    if k > 0 {
      OffsetAligned(l, k - 1);
    }
  }

  // ----- kmalloc -----

  /** The size of a block for a request of `n` bytes: rounded up to words, plus the header. */
  function Needed(n: nat): (t: nat)
    ensures t % 4 == 0 && n + HEADER <= t < n + HEADER + 4
  {
    (n + 3) / 4 * 4 + HEADER
  }

  predicate Fits(b: Block, t: nat) {
    b.free && b.size >= t
  }

  /** The first block from `k` on that fits, or `|l|`. */
  function FirstFit(l: Layout, t: nat, k: nat): (r: nat)
    requires k <= |l|
    ensures k <= r <= |l| && (r < |l| ==> Fits(l[r], t))
    ensures forall j :: k <= j < r ==> !Fits(l[j], t)
    decreases |l| - k
  {
    if k == |l| || Fits(l[k], t) then k else FirstFit(l, t, k + 1)
  }

  /** Block `i` taken for `t` bytes; a rest that can hold a header and a word becomes a block. */
  function Take(l: Layout, i: nat, t: nat): Layout
    requires i < |l| && Fits(l[i], t)
  {
    if l[i].size > t + HEADER + 4
    then l[..i] + [Block(t, false), Block(l[i].size - t, true)] + l[i + 1..]
    else l[i := Block(l[i].size, false)]
  }

  /** `kmalloc`: the layout left and the block handed out, or `|l|` when nothing fits. */
  function Kmalloc(l: Layout, n: nat): (Layout, nat) {
    var i := FirstFit(l, Needed(n), 0);
    if i == |l| then (l, i) else (Take(l, i, Needed(n)), i)
  }

  // ----- kfree -----

  /** Block `i` joined with its right neighbour if that is free. */
  function MergeRight(l: Layout, i: nat): Layout
    requires i < |l|
  {
    if i + 1 < |l| && l[i + 1].free
    then l[..i] + [Block(l[i].size + l[i + 1].size, l[i].free)] + l[i + 2..]
    else l
  }

  /** Block `i` joined with its left neighbour if that is free. */
  function MergeLeft(l: Layout, i: nat): Layout
    requires i < |l|
  {
    if i > 0 && l[i - 1].free
    then l[..i - 1] + [Block(l[i - 1].size + l[i].size, l[i - 1].free)] + l[i + 1..]
    else l
  }

  /** `kfree` of block `i`; freeing a free block does nothing. */
  function Kfree(l: Layout, i: nat): Layout
    requires i < |l|
  {
    if l[i].free then l else MergeLeft(MergeRight(l[i := Block(l[i].size, true)], i), i)
  }

  // ----- both keep the layout well formed -----

  lemma MergeRightOffsets(l: Layout, i: nat)
    requires i < |l|
    ensures var m := MergeRight(l, i);
            && |m| <= |l| && i < |m|
            && (forall k :: 0 <= k <= i ==> Offset(m, k) == Offset(l, k))
            && (forall k :: i < k <= |m| ==> Offset(m, k) == Offset(l, |l| - |m| + k))
  {
    var m := MergeRight(l, i);
    if |m| < |l| {
      forall k | 0 <= k <= i
        ensures Offset(m, k) == Offset(l, k)
      {
        OffsetPrefix(l, m, k);
      }
      assert Offset(l, i + 1) == Offset(l, i) + l[i].size;
      assert Offset(m, i + 1) == Offset(l, i + 2);
      assert l[i + 2..] == m[i + 1..];
      forall k | i < k <= |m|
        ensures Offset(m, k) == Offset(l, k + 1)
      {
        OffsetSuffix(l, m, i + 2, i + 1, k - i - 1);
      }
    }
  }

  lemma MergeLeftIsRight(l: Layout, i: nat)
    requires i < |l|
    ensures i > 0 && l[i - 1].free && l[i].free ==> MergeLeft(l, i) == MergeRight(l, i - 1)
  {
  }

  lemma FlipOffsets(l: Layout, i: nat, free: bool)
    requires i < |l|
    ensures forall k :: 0 <= k <= |l| ==> Offset(l[i := Block(l[i].size, free)], k) == Offset(l, k)
  {
    forall k | 0 <= k <= |l|
      ensures Offset(l[i := Block(l[i].size, free)], k) == Offset(l, k)
    {
      SameSizes(l, l[i := Block(l[i].size, free)], k);
    }
  }

  lemma {:induction false} SameSizes(l: Layout, m: Layout, k: nat)
    requires |l| == |m| && k <= |l| && forall j :: 0 <= j < |l| ==> l[j].size == m[j].size
    ensures Offset(l, k) == Offset(m, k)
  {
    if k > 0 {
      SameSizes(l, m, k - 1);
    }
  }

  /** Joining the two parts of a split block gives the block back, allocated. */
  lemma TakeThenMerge(l: Layout, i: nat, t: nat)
    requires i < |l| && Fits(l[i], t)
    ensures var m := Take(l, i, t);
            (if |m| > |l| then MergeRight(m, i) else m) == l[i := Block(l[i].size, false)]
  {
    if l[i].size > t + HEADER + 4 {
      var a, b := Block(t, false), Block(l[i].size - t, true);
      var m := l[..i] + [a, b] + l[i + 1..];
      Spliced(l, i, a, b);
      assert MergeRight(m, i) == l[..i] + [Block(l[i].size, false)] + l[i + 1..];
    }
  }

  lemma Spliced(l: Layout, i: nat, a: Block, b: Block)
    requires i < |l|
    ensures var m := l[..i] + [a, b] + l[i + 1..];
            |m| == |l| + 1 && m[..i] == l[..i] && m[i] == a && m[i + 1] == b && m[i + 2..] == l[i + 1..]
  {
  }

  lemma TakeSize(l: Layout, i: nat, t: nat)
    requires i < |l| && Fits(l[i], t)
    ensures |l| <= |Take(l, i, t)| <= |l| + 1
  {
  }

  lemma TakeOffsets(l: Layout, i: nat, t: nat)
    requires i < |l| && Fits(l[i], t)
    ensures var m := Take(l, i, t);
            && |l| <= |m| <= |l| + 1
            && (forall k :: 0 <= k <= i ==> Offset(m, k) == Offset(l, k))
            && (forall k :: i < k <= |l| ==> Offset(m, |m| - |l| + k) == Offset(l, k))
  {
    hide MergeRight, Take, Offset;
    var m := Take(l, i, t);
    TakeSize(l, i, t);
    TakeThenMerge(l, i, t);
    FlipOffsets(l, i, false);
    if |m| > |l| {
      MergeRightOffsets(m, i);
    }
  }

  /** Tiling and sizes, without coalescing. */
  ghost predicate Tiled(l: Layout) {
    SizesOk(l) && Offset(l, |l|) == HEAP_SIZE
  }

  /** Neighbours are not both free, except perhaps in the pairs at `i - 1` and `i`. */
  ghost predicate CoalescedBut(l: Layout, i: nat) {
    forall k :: 0 <= k < |l| - 1 && k != i && k != i - 1 ==> !(l[k].free && l[k + 1].free)
  }

  lemma MergeRightTiled(l: Layout, i: nat)
    requires i < |l| && Tiled(l)
    ensures Tiled(MergeRight(l, i))
  {
    hide Offset;
    MergeRightOffsets(l, i);
    MergeRightSizes(l, i);
  }

  lemma MergeRightSizes(l: Layout, i: nat)
    requires i < |l| && SizesOk(l)
    ensures SizesOk(MergeRight(l, i))
  {
  }

  /** Joining with the right neighbour leaves only the left pair in doubt. */
  lemma MergeRightCoalesced(l: Layout, i: nat)
    requires i < |l| && l[i].free && CoalescedBut(l, i)
    ensures var m := MergeRight(l, i);
            i < |m| && m[i].free && forall k :: 0 <= k < |m| - 1 && k != i - 1 ==> !(m[k].free && m[k + 1].free)
  {
  }

  lemma MergeLeftCoalesced(l: Layout, i: nat)
    requires i < |l| && l[i].free && forall k :: 0 <= k < |l| - 1 && k != i - 1 ==> !(l[k].free && l[k + 1].free)
    ensures Coalesced(MergeLeft(l, i))
  {
  }

  lemma TakeCoalesced(l: Layout, i: nat, t: nat)
    requires i < |l| && Fits(l[i], t) && Coalesced(l)
    ensures Coalesced(Take(l, i, t))
  {
  }

  lemma TakeSizes(l: Layout, i: nat, t: nat)
    requires i < |l| && Fits(l[i], t) && SizesOk(l) && t % 4 == 0 && t >= HEADER + 4
    ensures SizesOk(Take(l, i, t))
  {
  }

  lemma KmallocOk(l: Layout, n: nat)
    requires Ok(l) && n > 0
    ensures Ok(Kmalloc(l, n).0)
  {
    hide Take, SizesOk, Coalesced;
    var i := FirstFit(l, Needed(n), 0);
    if i < |l| {
      TakeOffsets(l, i, Needed(n));
      TakeCoalesced(l, i, Needed(n));
      TakeSizes(l, i, Needed(n));
      var m := Take(l, i, Needed(n));
      assert Offset(m, |m| - |l| + |l|) == Offset(l, |l|);
    }
  }

  lemma KfreeOk(l: Layout, i: nat)
    requires Ok(l) && i < |l|
    ensures Ok(Kfree(l, i))
  {
    hide MergeRight, MergeLeft, SizesOk;
    if !l[i].free {
      var l1 := l[i := Block(l[i].size, true)];
      FlipTiled(l, i);
      MergeRightTiled(l1, i);
      MergeRightCoalesced(l1, i);
      var l2 := MergeRight(l1, i);
      MergeLeftTiled(l2, i);
      MergeLeftCoalesced(l2, i);
    }
  }

  lemma FlipTiled(l: Layout, i: nat)
    requires i < |l| && Ok(l)
    ensures Tiled(l[i := Block(l[i].size, true)])
  {
    FlipOffsets(l, i, true);
  }

  lemma MergeLeftTiled(l: Layout, i: nat)
    requires i < |l| && l[i].free && Tiled(l)
    ensures Tiled(MergeLeft(l, i))
  {
    MergeLeftIsRight(l, i);
    if i > 0 && l[i - 1].free {
      MergeRightTiled(l, i - 1);
    }
  }

  /** Making the block taken free again and joining it with the rest behind it gives back the list. */
  lemma TakeUndone(l: Layout, i: nat, t: nat)
    requires i < |l| && Fits(l[i], t) && (i + 1 < |l| ==> !l[i + 1].free)
    ensures var m := Take(l, i, t);
            i < |m| && MergeRight(m[i := Block(m[i].size, true)], i) == l
  {
    if l[i].size > t + HEADER + 4 {
      FlipSplice(l, i, Block(t, false), Block(l[i].size - t, true), Block(t, true));
      PartsJoined(l, i, Block(t, true), Block(l[i].size - t, true));
    } else {
      assert Take(l, i, t)[i := Block(l[i].size, true)] == l;
    }
  }

  lemma FlipSplice(l: Layout, i: nat, a: Block, b: Block, a': Block)
    requires i < |l|
    ensures (l[..i] + [a, b] + l[i + 1..])[i := a'] == l[..i] + [a', b] + l[i + 1..]
  {
  }

  lemma PartsJoined(l: Layout, i: nat, a: Block, b: Block)
    requires i < |l| && l[i].free && a.free && b.free && a.size + b.size == l[i].size
    ensures MergeRight(l[..i] + [a, b] + l[i + 1..], i) == l
  {
    Spliced(l, i, a, b);
    assert l[..i] + [l[i]] + l[i + 1..] == l;
  }

  lemma TakeLeft(l: Layout, i: nat, t: nat)
    requires i < |l| && Fits(l[i], t)
    ensures var m := Take(l, i, t); i < |m| && !m[i].free && m[..i] == l[..i]
  {
  }

  /** Freeing what was just allocated gives back the very same layout. */
  lemma KfreeUndoesKmalloc(l: Layout, n: nat)
    requires Ok(l) && n > 0 && Kmalloc(l, n).1 < |l|
    ensures Kfree(Kmalloc(l, n).0, Kmalloc(l, n).1) == l
  {
    hide Take, MergeRight;
    var (m, i) := Kmalloc(l, n);
    TakeLeft(l, i, Needed(n));
    TakeUndone(l, i, Needed(n));
    assert i > 0 ==> !l[i - 1].free;
  }
}
