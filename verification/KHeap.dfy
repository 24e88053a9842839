/**
  The kernel heap as it is in memory: headers linked in both directions, walked
  from the first one by `kmalloc` and found from a payload address by `kfree`.
 */
module KHeap {
  import opened Words
  import opened HeapLayout
  import opened HeapRuns

  /** `struct heap_header`, standing at address `addr`. */
  class Header {
    const addr: nat
    var size: nat
    var isFree: bool
    var next: Header?
    var prev: Header?

    constructor (a: nat, s: nat, free: bool, n: Header?, p: Header?)
      ensures addr == a && size == s && isFree == free && next == n && prev == p
    {
      addr, size, isFree, next, prev := a, s, free, n, p;
    }
  }

  /** The view of a list of headers as a layout. */
  ghost function LayoutOf(blocks: seq<Header>): (l: Layout)
    reads blocks
    ensures |l| == |blocks|
  {
    seq(|blocks|, i requires 0 <= i < |blocks| reads blocks => Block(blocks[i].size, blocks[i].isFree))
  }

  ghost predicate Distinct(blocks: seq<Header>) {
    forall i, j :: 0 <= i < j < |blocks| ==> blocks[i] != blocks[j]
  }

  /** The links of block `i` lead to its neighbours in the list. */
  ghost predicate LinksAt(blocks: seq<Header>, i: int)
    requires 0 <= i < |blocks|
    reads blocks
  {
    && blocks[i].next == (if i + 1 < |blocks| then blocks[i + 1] else null)
    && blocks[i].prev == (if i > 0 then blocks[i - 1] else null)
  }

  /** `next` and `prev` are inverse and follow the list. */
  ghost predicate Linked(blocks: seq<Header>)
    reads blocks
  {
    forall i :: 0 <= i < |blocks| ==> LinksAt(blocks, i)
  }

  /** Each header stands where the blocks before it end. */
  ghost predicate Placed(blocks: seq<Header>, base: nat)
    reads blocks
  {
    forall i :: 0 <= i < |blocks| ==> blocks[i].addr == base + Offset(LayoutOf(blocks), i)
  }

  class Heap {
    /** Where the heap starts: `heap_space`, aligned to a page. */
    const base: nat
    var first: Header
    /** Which header stands at an address: what casting a pointer to a header gives. */
    var at: map<nat, Header>
    ghost var blocks: seq<Header>

    ghost predicate Valid()
      reads this, blocks
    {
      && 0 < base && base % 4096 == 0
      && |blocks| > 0 && first == blocks[0]
      && Distinct(blocks) && Linked(blocks) && Placed(blocks, base)
      && AtOk(blocks, at)
      && Ok(LayoutOf(blocks))
    }

    /** `init_kheap` */
    constructor (start: nat)
      requires 0 < start && start % 4096 == 0
      ensures Valid() && fresh(blocks) && base == start && LayoutOf(blocks) == Initial
    {
      base := start;
      var h := new Header(start, HEAP_SIZE, true, null, null);
      first := h;
      at := map[start := h];
      blocks := [h];
      new;
      assert LayoutOf(blocks) == Initial;
      InitialOk();
    }

    /** Cutting `total` bytes off the front of a larger block: a header for the rest is linked in behind it. */
    method Split(current: Header, ghost k: nat, total: nat) returns (rest: Header)
      requires Distinct(blocks) && Linked(blocks) && k < |blocks| && blocks[k] == current && current.size > total
      modifies current, if current.next == null then {} else {current.next}
      ensures fresh(rest) && rest.addr == current.addr + total
      ensures rest.size == old(current.size) - total && rest.isFree
      ensures current.size == total && current.isFree == old(current.isFree)
      ensures k + 1 < |blocks| ==> blocks[k + 1].size == old(blocks[k + 1].size) && blocks[k + 1].isFree == old(blocks[k + 1].isFree)
      ensures Linked(Inserted(blocks, k + 1, rest))
    {
      ghost var now := blocks;
      assert LinksAt(now, k);
      rest := new Header(current.addr + total, current.size - total, true, current.next, current);
      if current.next != null {
        current.next.prev := rest;
      }
      current.next := rest;
      current.size := total;
      ghost var list := Inserted(now, k + 1, rest);
      forall i | 0 <= i < |list|
        ensures LinksAt(list, i)
      {
        InsertedAt(now, k + 1, rest, i);
        if i + 1 < |list| {
          InsertedAt(now, k + 1, rest, i + 1);
        }
        if i > 0 {
          InsertedAt(now, k + 1, rest, i - 1);
        }
        if i != k + 1 {
          assert old(LinksAt(now, if i <= k then i else i - 1));
        }
      }
    }

    /** As `Split`, with the list of blocks and the map of addresses brought up to date. */
    method SplitBlock(current: Header, ghost k: nat, total: nat)
      requires Distinct(blocks) && Linked(blocks) && |blocks| > 0 && first == blocks[0] && AtOk(blocks, at)
      requires k < |blocks| && blocks[k] == current && current.size > total
      requires forall i :: 0 <= i < |blocks| ==> blocks[i].addr != current.addr + total
      modifies this, blocks
      ensures Distinct(blocks) && Linked(blocks) && AtOk(blocks, at)
      ensures |blocks| == |old(blocks)| + 1 && first == blocks[0] && blocks[k] == current
      ensures current.isFree == old(current.isFree) && current.size == total
      ensures forall i :: 0 <= i < |blocks| ==>
                blocks[i].addr == (if i == k + 1 then current.addr + total else old(blocks)[if i <= k then i else i - 1].addr)
      ensures LayoutOf(blocks)
              == Inserted(old(LayoutOf(blocks))[k := Block(total, current.isFree)], k + 1, Block(old(current.size) - total, true))
      ensures forall h :: h in blocks ==> h in old(blocks) || fresh(h)
    {
      hide Inserted, AtOk, Distinct, LinksAt;
      ghost var was, l := blocks, LayoutOf(blocks);
      NextLink(was, k);
      OthersApart(was, k);
      var rest := Split(current, k, total);
      assert forall j :: 0 <= j < |was| && j != k ==> was[j].size == l[j].size && was[j].isFree == l[j].free;
      InsertedParts(was, k + 1, rest, at);
      InsertedLayout(was, k, rest, l, total);
      blocks := Inserted(was, k + 1, rest);
      at := at[rest.addr := rest];
    }

    /** Handing out block `k`, which fits: the split, if the rest is worth it, and the mark. */
    method TakeBlock(current: Header, ghost k: nat, total: nat)
      requires Valid() && k < |blocks| && blocks[k] == current
      requires Fits(LayoutOf(blocks)[k], total) && total % 4 == 0 && total >= HEADER + 4
      modifies this, blocks
      ensures Valid() && LayoutOf(blocks) == Take(old(LayoutOf(blocks)), k, total)
      ensures k < |blocks| && blocks[k] == current
      ensures forall h :: h in blocks ==> h in old(blocks) || fresh(h)
    {
      hide Ok, Offset, Take, AtOk, Linked, Inserted;
      ghost var l, was := LayoutOf(blocks), blocks;
      TakeOk(l, k, total);
      if current.size > total + HEADER + 4 {
        SplitAddress(l, k, total);
        assert l[k] == Block(current.size, current.isFree);
        SplitBlock(current, k, total);
        MarkBlock(current, k);
        SplitIsTake(l, k, total);
        assert LayoutOf(blocks) == Take(l, k, total);
        forall i | 0 <= i < |blocks|
          ensures blocks[i].addr == base + Offset(LayoutOf(blocks), i)
        {
          SplitOffset(l, k, total, i);
        }
      } else {
        WholeIsTake(l, k, total);
        MarkBlock(current, k);
        FlipOffsets(l, k, false);
      }
    }

    /** `current->is_free = 0` */
    method MarkBlock(current: Header, ghost k: nat)
      requires Distinct(blocks) && Linked(blocks) && k < |blocks| && blocks[k] == current
      modifies current`isFree
      ensures Linked(blocks)
      ensures LayoutOf(blocks) == old(LayoutOf(blocks))[k := Block(current.size, false)]
    {
      ghost var was := blocks;
      current.isFree := false;
      forall i | 0 <= i < |blocks|
        ensures LinksAt(blocks, i)
      {
        assert old(LinksAt(was, i));
      }
    }

    /** `kmalloc`: the address of the payload, or 0. */
    method Kmalloc(n: u32) returns (p: nat)
      requires Valid() && n <= 0xFFFF_FFEC
      modifies this, blocks
      ensures Valid() && forall h :: h in blocks ==> h in old(blocks) || fresh(h)
      ensures n == 0 ==> p == 0 && LayoutOf(blocks) == old(LayoutOf(blocks))
      ensures n > 0 ==>
                var (m, i) := HeapLayout.Kmalloc(old(LayoutOf(blocks)), n);
                && LayoutOf(blocks) == m
                && p == (if i < |m| then base + PieceAt(m, i).start else 0)
    {
      hide Ok, Take, AtOk, Linked, Needed32, Offset;
      if n == 0 {
        return 0;
      }
      Needed32Iff(n);
      var total := Needed32(n);
      ghost var l := LayoutOf(blocks);
      var current: Header? := first;
      ghost var k := 0;
      while current != null && !(current.isFree && current.size >= total)
        invariant k <= |blocks| && current == (if k < |blocks| then blocks[k] else null)
        invariant FirstFit(l, total, 0) == FirstFit(l, total, k)
        modifies {}
        decreases |blocks| - k
      {
        assert l[k] == Block(current.size, current.isFree);
        NextHeader(k);
        current := current.next;
        k := k + 1;
      }
      if current == null {
        return 0;
      }
      assert l[k] == Block(current.size, current.isFree);
      TakeBlock(current, k, total);
      return current.addr + HEADER;
    }

    lemma NextHeader(k: nat)
      requires Linked(blocks) && k < |blocks|
      ensures blocks[k].next == (if k + 1 < |blocks| then blocks[k + 1] else null)
      ensures blocks[k].prev == (if k > 0 then blocks[k - 1] else null)
    {
      assert LinksAt(blocks, k);
    }

    /**
      Block `k` takes in its right neighbour: size added, neighbour unlinked.  Both merges
      of `kfree` are this step, once from the freed block and once from the block before it.
     */
    method Unlink(left: Header, ghost k: nat)
      requires Distinct(blocks) && Linked(blocks) && k + 1 < |blocks| && blocks[k] == left
      modifies left`size, left`next, if k + 2 < |blocks| then {blocks[k + 2]} else {}
      ensures Linked(Without(blocks, k + 1))
      ensures left.size == old(left.size) + old(blocks[k + 1].size)
      ensures k + 2 < |blocks| ==> blocks[k + 2].size == old(blocks[k + 2].size) && blocks[k + 2].isFree == old(blocks[k + 2].isFree)
    {
      hide Without;
      ghost var was := blocks;
      NextHeader(k);
      NextHeader(k + 1);
      var right := left.next;
      left.size := left.size + right.size;
      left.next := right.next;
      if left.next != null {
        left.next.prev := left;
      }
      ghost var list := Without(was, k + 1);
      forall i | 0 <= i < |list|
        ensures LinksAt(list, i)
      {
        WithoutAt(was, k + 1, i);
        if i + 1 < |list| {
          WithoutAt(was, k + 1, i + 1);
        }
        if i > 0 {
          WithoutAt(was, k + 1, i - 1);
        }
        assert old(LinksAt(was, if i <= k then i else i + 1));
      }
    }

    /** As `Unlink`, with the list of blocks brought up to date. */
    method Absorb(left: Header, ghost k: nat)
      requires k + 1 < |blocks| && blocks[k] == left && first == blocks[0] && blocks[k + 1].isFree
      requires Distinct(blocks) && Linked(blocks) && AtOk(blocks, at) && Placed(blocks, base)
      modifies this`blocks, blocks
      ensures blocks == Without(old(blocks), k + 1) && first == blocks[0]
      ensures Distinct(blocks) && Linked(blocks) && AtOk(blocks, at) && Placed(blocks, base)
      ensures LayoutOf(blocks) == Joined(old(LayoutOf(blocks)), k)
    {
      hide Without, Offset, Joined;
      ghost var was, l := blocks, LayoutOf(blocks);
      Unlink(left, k);
      assert forall j :: 0 <= j < |was| && j != k && j != k + 1 ==> was[j].size == l[j].size && was[j].isFree == l[j].free;
      WithoutHeaders(was, k + 1, at);
      WithoutLayout(was, k, l);
      blocks := Without(was, k + 1);
      forall i | 0 <= i < |blocks|
        ensures blocks[i].addr == base + Offset(LayoutOf(blocks), i)
      {
        WithoutAt(was, k + 1, i);
        JoinedOffset(l, k, i);
      }
    }

    /** `block->is_free = 1` */
    method ReleaseBlock(block: Header, ghost k: nat)
      requires Distinct(blocks) && Linked(blocks) && k < |blocks| && blocks[k] == block
      modifies block`isFree
      ensures Linked(blocks)
      ensures LayoutOf(blocks) == old(LayoutOf(blocks))[k := Block(block.size, true)]
    {
      ghost var was := blocks;
      block.isFree := true;
      forall i | 0 <= i < |blocks|
        ensures LinksAt(blocks, i)
      {
        assert old(LinksAt(was, i));
      }
    }

    /** The right merge of `kfree`. */
    method MergeNext(block: Header, ghost k: nat)
      requires k < |blocks| && blocks[k] == block && first == blocks[0]
      requires Distinct(blocks) && Linked(blocks) && AtOk(blocks, at) && Placed(blocks, base)
      modifies this`blocks, blocks
      ensures k < |blocks| && blocks[k] == block && first == blocks[0]
      ensures Distinct(blocks) && Linked(blocks) && AtOk(blocks, at) && Placed(blocks, base)
      ensures LayoutOf(blocks) == MergeRight(old(LayoutOf(blocks)), k)
      ensures forall h :: h in blocks ==> h in old(blocks)
      ensures block.isFree == old(block.isFree)
    {
      hide Distinct, AtOk, Placed, Linked, Joined, MergeRight, Without;
      ghost var l := LayoutOf(blocks);
      NextHeader(k);
      MergeRightIs(l, k);
      if block.next != null && block.next.isFree {
        WithoutParts(blocks, k + 1);
        Absorb(block, k);
        assert LayoutOf(blocks)[k].free == l[k].free by { JoinedFree(l, k); }
      }
    }

    /** The left merge of `kfree`. */
    method MergePrevious(block: Header, ghost k: nat)
      requires k < |blocks| && blocks[k] == block && first == blocks[0] && block.isFree
      requires Distinct(blocks) && Linked(blocks) && AtOk(blocks, at) && Placed(blocks, base)
      modifies this`blocks, blocks
      ensures |blocks| > 0 && first == blocks[0]
      ensures Distinct(blocks) && Linked(blocks) && AtOk(blocks, at) && Placed(blocks, base)
      ensures LayoutOf(blocks) == MergeLeft(old(LayoutOf(blocks)), k)
      ensures forall h :: h in blocks ==> h in old(blocks)
    {
      hide Distinct, AtOk, Placed, Linked, Joined, MergeLeft, Without;
      ghost var l := LayoutOf(blocks);
      NextHeader(k);
      MergeLeftIs(l, k);
      if block.prev != null && block.prev.isFree {
        WithoutParts(blocks, k);
        Absorb(block.prev, k - 1);
      }
    }

    /** `kfree` of a null pointer or of the payload of a block of the heap. */
    method Kfree(p: nat, ghost k: nat)
      requires Valid() && (p != 0 ==> k < |blocks| && p == base + PieceAt(LayoutOf(blocks), k).start)
      modifies this, blocks
      ensures Valid() && forall h :: h in blocks ==> h in old(blocks)
      ensures LayoutOf(blocks) == (if p == 0 then old(LayoutOf(blocks)) else HeapLayout.Kfree(old(LayoutOf(blocks)), k))
    {
      hide Ok, Distinct, AtOk, Linked, MergeRight, MergeLeft, Offset;
      if p == 0 {
        return;
      }
      ghost var l, was := LayoutOf(blocks), blocks;
      HeaderAt(blocks, at, k);
      var block := at[p - HEADER];
      assert block == blocks[k] && l[k] == Block(block.size, block.isFree);
      if block.isFree {
        return;
      }
      KfreeOk(l, k);
      FlipOffsets(l, k, true);
      ReleaseBlock(block, k);
      MergeNext(block, k);
      assert forall i :: 0 <= i < |blocks| ==> blocks[i] in blocks && blocks[i] in was;
      MergePrevious(block, k);
    }
  }

  lemma HeaderAt(blocks: seq<Header>, at: map<nat, Header>, k: nat)
    requires AtOk(blocks, at) && k < |blocks|
    ensures blocks[k].addr in at && at[blocks[k].addr] == blocks[k]
  {
  }

  lemma MergeRightIs(l: Layout, k: nat)
    requires k < |l|
    ensures MergeRight(l, k) == (if k + 1 < |l| && l[k + 1].free then Joined(l, k) else l)
  {
  }

  lemma MergeLeftIs(l: Layout, k: nat)
    requires k < |l|
    ensures MergeLeft(l, k) == (if k > 0 && l[k - 1].free then Joined(l, k - 1) else l)
  {
  }

  lemma JoinedFree(l: Layout, k: nat)
    requires k + 1 < |l|
    ensures |Joined(l, k)| == |l| - 1 && Joined(l, k)[k].free == l[k].free
  {
  }

  lemma JoinedOffset(l: Layout, k: nat, i: nat)
    requires k + 1 < |l| && l[k + 1].free && i < |l| - 1
    ensures |Joined(l, k)| == |l| - 1
    ensures Offset(Joined(l, k), i) == Offset(l, if i <= k then i else i + 1)
  {
    MergeRightIs(l, k);
    MergeRightOffsets(l, k);
  }

  lemma WithoutParts<T>(s: seq<T>, i: nat)
    requires i < |s|
    ensures forall j :: 0 <= j < i ==> Without(s, i)[j] == s[j]
    ensures forall x :: x in Without(s, i) ==> x in s
  {
  }

  function Without<T>(s: seq<T>, i: nat): (r: seq<T>)
    requires i < |s|
    ensures |r| == |s| - 1
  {
    s[..i] + s[i + 1..]
  }

  lemma WithoutAt<T>(s: seq<T>, i: nat, j: nat)
    requires i < |s| && j < |s| - 1
    ensures Without(s, i)[j] == (if j < i then s[j] else s[j + 1])
  {
  }

  /** Blocks `k` and `k + 1` as one. */
  function Joined(l: Layout, k: nat): Layout
    requires k + 1 < |l|
  {
    l[..k] + [Block(l[k].size + l[k + 1].size, l[k].free)] + l[k + 2..]
  }

  /** The address map leads to each header. */
  ghost predicate AtOk(blocks: seq<Header>, at: map<nat, Header>) {
    forall i :: 0 <= i < |blocks| ==> blocks[i].addr in at && at[blocks[i].addr] == blocks[i]
  }

  lemma OthersApart(blocks: seq<Header>, k: nat)
    requires Distinct(blocks) && k < |blocks|
    ensures forall j :: 0 <= j < |blocks| && j != k ==> blocks[j] != blocks[k]
    ensures k + 1 < |blocks| ==> forall j :: 0 <= j < |blocks| && j != k + 1 ==> blocks[j] != blocks[k + 1]
  {
  }

  lemma NextLink(blocks: seq<Header>, k: nat)
    requires Linked(blocks) && k < |blocks|
    ensures blocks[k].next == (if k + 1 < |blocks| then blocks[k + 1] else null)
  {
    assert LinksAt(blocks, k);
  }

  /** A list with a new header in it. */
  lemma InsertedParts(was: seq<Header>, i: nat, rest: Header, at: map<nat, Header>)
    requires i <= |was| && Distinct(was) && AtOk(was, at) && rest !in was
    requires forall j :: 0 <= j < |was| ==> was[j].addr != rest.addr
    ensures var now := Inserted(was, i, rest);
            && Distinct(now) && AtOk(now, at[rest.addr := rest])
            && (forall j :: 0 <= j < |now| ==> now[j] == (if j == i then rest else was[if j < i then j else j - 1]))
            && (forall h :: h in now ==> h in was || h == rest)
  {
    hide Inserted;
    var now := Inserted(was, i, rest);
    forall j | 0 <= j < |now|
      ensures now[j] == (if j == i then rest else was[if j < i then j else j - 1])
    {
      InsertedAt(was, i, rest, j);
    }
  }

  /** The layout after a split. */
  lemma InsertedLayout(was: seq<Header>, k: nat, rest: Header, l: Layout, total: nat)
    requires k < |was| == |l| && rest !in was && l[k].size > total
    requires forall j :: 0 <= j < |was| && j != k ==> was[j].size == l[j].size && was[j].isFree == l[j].free
    requires was[k].size == total && was[k].isFree == l[k].free && rest.size == l[k].size - total && rest.isFree
    ensures LayoutOf(Inserted(was, k + 1, rest))
            == Inserted(l[k := Block(total, was[k].isFree)], k + 1, Block(rest.size, true))
  {
    hide Inserted;
    var now, goal := Inserted(was, k + 1, rest), Inserted(l[k := Block(total, was[k].isFree)], k + 1, Block(rest.size, true));
    forall j | 0 <= j < |now|
      ensures LayoutOf(now)[j] == goal[j]
    {
      InsertedAt(was, k + 1, rest, j);
      InsertedAt(l[k := Block(total, was[k].isFree)], k + 1, Block(rest.size, true), j);
    }
  }

  /** A list with one header gone. */
  lemma WithoutHeaders(was: seq<Header>, i: nat, at: map<nat, Header>)
    requires i < |was| && Distinct(was) && AtOk(was, at)
    ensures var now := Without(was, i);
            && Distinct(now) && AtOk(now, at)
            && (forall j :: 0 <= j < |now| ==> now[j] == was[if j < i then j else j + 1])
  {
    hide Without;
    var now := Without(was, i);
    forall j | 0 <= j < |now|
      ensures now[j] == was[if j < i then j else j + 1]
    {
      WithoutAt(was, i, j);
    }
  }

  /** The layout after two blocks became one. */
  lemma WithoutLayout(was: seq<Header>, k: nat, l: Layout)
    requires k + 1 < |was| == |l|
    requires forall j :: 0 <= j < |was| && j != k && j != k + 1 ==> was[j].size == l[j].size && was[j].isFree == l[j].free
    requires was[k].size == l[k].size + l[k + 1].size && was[k].isFree == l[k].free
    ensures LayoutOf(Without(was, k + 1)) == Joined(l, k)
  {
    hide Without;
    var now := Without(was, k + 1);
    forall j | 0 <= j < |now|
      ensures LayoutOf(now)[j] == Joined(l, k)[j]
    {
      WithoutAt(was, k + 1, j);
    }
    assert |now| == |Joined(l, k)|;
  }

  /** The address of the rest of a split block is nobody's address yet. */
  lemma SplitAddress(l: Layout, k: nat, t: nat)
    requires Ok(l) && k < |l| && Fits(l[k], t) && l[k].size > t + HEADER + 4 && t > 0
    ensures forall i :: 0 <= i < |l| ==> Offset(l, i) != Offset(l, k) + t
    ensures Offset(Take(l, k, t), k + 1) == Offset(l, k) + t
  {
    forall i | 0 <= i < |l|
      ensures Offset(l, i) != Offset(l, k) + t
    {
      if i <= k {
        OffsetGrows(l, i, k);
      } else {
        OffsetGrows(l, k, i);
      }
    }
    TakeOffsets(l, k, t);
    assert Take(l, k, t)[k].size == t;
  }

  lemma TakeOk(l: Layout, k: nat, t: nat)
    requires Ok(l) && k < |l| && Fits(l[k], t) && t % 4 == 0 && t >= HEADER + 4
    ensures Ok(Take(l, k, t))
  {
    hide Take, SizesOk, Coalesced;
    TakeCoalesced(l, k, t);
    TakeSizes(l, k, t);
    TakeOffsets(l, k, t);
    var m := Take(l, k, t);
    assert Offset(m, |m| - |l| + |l|) == Offset(l, |l|);
  }

  /** Where the blocks of a split layout start. */
  lemma SplitOffset(l: Layout, k: nat, t: nat, i: nat)
    requires k < |l| && Fits(l[k], t) && l[k].size > t + HEADER + 4 && i <= |l|
    ensures Offset(Take(l, k, t), i)
            == (if i <= k then Offset(l, i) else if i == k + 1 then Offset(l, k) + t else Offset(l, i - 1))
  {
    TakeOffsets(l, k, t);
    var m := Take(l, k, t);
    assert m[k].size == t && |m| == |l| + 1;
    if i > k + 1 {
      assert Offset(m, |m| - |l| + (i - 1)) == Offset(l, i - 1);
    }
  }

  lemma SplitIsTake(l: Layout, k: nat, t: nat)
    requires k < |l| && Fits(l[k], t) && l[k].size > t + HEADER + 4
    ensures Take(l, k, t)
            == Inserted(l[k := Block(t, l[k].free)], k + 1, Block(l[k].size - t, true))[k := Block(t, false)]
    ensures |Take(l, k, t)| == |l| + 1
  {
  }

  lemma WholeIsTake(l: Layout, k: nat, t: nat)
    requires k < |l| && Fits(l[k], t) && l[k].size <= t + HEADER + 4
    ensures Take(l, k, t) == l[k := Block(l[k].size, false)]
  {
  }

  function Inserted<T>(s: seq<T>, i: nat, x: T): (r: seq<T>)
    requires i <= |s|
    ensures |r| == |s| + 1
  {
    s[..i] + [x] + s[i..]
  }

  lemma InsertedAt<T>(s: seq<T>, i: nat, x: T, j: nat)
    requires i <= |s| && j <= |s|
    ensures Inserted(s, i, x)[j] == (if j < i then s[j] else if j == i then x else s[j - 1])
  {
  }
}
