/**
  What holds over whole runs of the heap: live payloads are disjoint, aligned and
  large enough, freeing everything restores the initial block, and a request is
  refused only when no stretch of free bytes could hold it.
 */
module HeapRuns {
  import opened Words
  import opened HeapLayout

  // ----- live payloads -----

  function Payload(b: Block): nat {
    if b.size >= HEADER then b.size - HEADER else 0
  }

  /** A block handed out: where its payload starts and how long it is. */
  datatype Piece = Piece(start: nat, length: nat)

  function PieceAt(l: Layout, k: nat): Piece
    requires k < |l|
  {
    Piece(Offset(l, k) + HEADER, Payload(l[k]))
  }

  function LiveSet(l: Layout): set<Piece> {
    set k | 0 <= k < |l| && !l[k].free :: PieceAt(l, k)
  }

  lemma InLive(l: Layout, k: nat)
    requires k < |l| && !l[k].free
    ensures PieceAt(l, k) in LiveSet(l)
  {
  }

  lemma LiveAt(l: Layout, p: Piece) returns (j: nat)
    requires p in LiveSet(l)
    ensures j < |l| && !l[j].free && p == PieceAt(l, j)
  {
    j :| 0 <= j < |l| && !l[j].free && p == PieceAt(l, j);
  }

  /** Live payloads lie in the heap, are word aligned, and do not overlap. */
  lemma LiveApart(l: Layout, i: nat, j: nat)
    requires Ok(l) && i < |l| && j < |l|
    ensures var p := PieceAt(l, i);
            && p.start % 4 == 0 && p.length >= 4 && p.start + p.length <= HEAP_SIZE
            && (i < j ==> p.start + p.length + HEADER <= PieceAt(l, j).start)
  {
    OffsetAligned(l, i);
    OffsetGrows(l, i, |l|);
    if i < j {
      OffsetGrows(l, i, j);
    }
  }

  lemma LiveDisjoint(l: Layout, p: Piece, q: Piece)
    requires Ok(l) && p in LiveSet(l) && q in LiveSet(l)
    ensures p.start % 4 == 0 && p.start + p.length <= HEAP_SIZE
    ensures p != q ==> p.start + p.length <= q.start || q.start + q.length <= p.start
  {
    var i :| 0 <= i < |l| && !l[i].free && p == PieceAt(l, i);
    var j :| 0 <= j < |l| && !l[j].free && q == PieceAt(l, j);
    LiveApart(l, i, j);
    LiveApart(l, j, i);
  }

  // ----- kmalloc adds a piece, kfree takes one away -----

  lemma TakeParts(l: Layout, i: nat, t: nat)
    requires i < |l| && Fits(l[i], t)
    ensures var m := Take(l, i, t);
            && |l| <= |m| <= |l| + 1 && m[i].size >= t && !m[i].free
            && (|m| > |l| ==> m[i + 1].free)
            && (forall k :: 0 <= k < i ==> m[k] == l[k])
            && (forall k {:trigger l[k]} :: i < k < |l| ==> m[|m| - |l| + k] == l[k])
  {
    if l[i].size > t + HEADER + 4 {
      TwoForOne(l, i, Block(t, false), Block(l[i].size - t, true));
    } else {
      assert Take(l, i, t) == l[i := Block(l[i].size, false)];
    }
  }

  /** One block replaced by two. */
  lemma TwoForOne(l: Layout, i: nat, x: Block, y: Block)
    requires i < |l|
    ensures var m := l[..i] + [x, y] + l[i + 1..];
            && |m| == |l| + 1 && m[i] == x && m[i + 1] == y
            && (forall k :: 0 <= k < i ==> m[k] == l[k])
            && (forall k {:trigger l[k]} :: i < k < |l| ==> m[k + 1] == l[k])
  {
    var m := l[..i] + [x, y] + l[i + 1..];
    forall k | i < k < |l|
      ensures m[k + 1] == l[k]
    {
      assert m[k + 1] == l[i + 1..][k - i - 1];
    }
  }

  lemma TakeLiveBack(l: Layout, i: nat, t: nat, p: Piece)
    requires i < |l| && Fits(l[i], t) && i < |Take(l, i, t)| && p in LiveSet(Take(l, i, t))
    ensures p in LiveSet(l) || p == PieceAt(Take(l, i, t), i)
  {
    hide Take, Offset, Payload, LiveSet;
    var m := Take(l, i, t);
    TakeOffsets(l, i, t);
    TakeParts(l, i, t);
    var k := LiveAt(m, p);
    if k < i {
      assert p == PieceAt(l, k);
      InLive(l, k);
    } else if k > i {
      var k' := k - (|m| - |l|);
      if k' > i {
        assert m[|m| - |l| + k'] == l[k'];
        assert p == PieceAt(l, k');
        InLive(l, k');
      }
    }
  }

  lemma TakeLiveForth(l: Layout, i: nat, t: nat, p: Piece)
    requires i < |l| && Fits(l[i], t) && p in LiveSet(l)
    ensures p in LiveSet(Take(l, i, t))
  {
    hide Take, Offset, Payload, LiveSet;
    var m := Take(l, i, t);
    TakeOffsets(l, i, t);
    TakeParts(l, i, t);
    var k := LiveAt(l, p);
    var k' := if k < i then k else |m| - |l| + k;
    assert k != i && m[k'] == l[k] && PieceAt(m, k') == PieceAt(l, k);
    InLive(m, k');
  }

  lemma TakeLive(l: Layout, i: nat, t: nat)
    requires i < |l| && Fits(l[i], t)
    ensures var m := Take(l, i, t);
            i < |m| && LiveSet(m) == LiveSet(l) + {PieceAt(m, i)} && m[i].size >= t && !m[i].free
  {
    hide Take, Offset, Payload, LiveSet, PieceAt;
    var m := Take(l, i, t);
    TakeParts(l, i, t);
    InLive(m, i);
    forall p
      ensures p in LiveSet(m) <==> p in LiveSet(l) || p == PieceAt(m, i)
    {
      if p in LiveSet(l) {
        TakeLiveForth(l, i, t, p);
      }
      if p in LiveSet(m) {
        TakeLiveBack(l, i, t, p);
      }
    }
  }

  /** A successful `kmalloc` adds one piece, large enough and apart from all others. */
  lemma KmallocLive(l: Layout, n: nat)
    requires Ok(l) && n > 0 && Kmalloc(l, n).1 < |l|
    ensures var (m, i) := Kmalloc(l, n);
            && i < |m| && PieceAt(m, i) !in LiveSet(l) && PieceAt(m, i).length >= n
            && LiveSet(m) == LiveSet(l) + {PieceAt(m, i)}
  {
    hide Take;
    var i := FirstFit(l, Needed(n), 0);
    TakeLive(l, i, Needed(n));
    TakeOffsets(l, i, Needed(n));
    var m := Kmalloc(l, n).0;
    if PieceAt(m, i) in LiveSet(l) {
      var k :| 0 <= k < |l| && !l[k].free && PieceAt(m, i) == PieceAt(l, k);
      OffsetInjective(l, i, k);
    }
  }

  lemma MergeRightParts(l: Layout, i: nat)
    requires i < |l| && l[i].free && i + 1 < |l| && l[i + 1].free
    ensures var m := MergeRight(l, i);
            && |m| == |l| - 1 && m[i].free
            && (forall k :: 0 <= k < i ==> m[k] == l[k])
            && (forall k :: i + 1 < k < |l| ==> m[k - 1] == l[k])
            && (forall k :: i < k < |m| ==> m[k] == l[k + 1])
  {
  }

  lemma MergeRightBack(l: Layout, i: nat, k: nat)
    requires i + 1 < |l| && l[i].free && l[i + 1].free && k < |MergeRight(l, i)| && !MergeRight(l, i)[k].free
    ensures var k' := if k < i then k else k + 1;
            k' < |l| && !l[k'].free && PieceAt(l, k') == PieceAt(MergeRight(l, i), k)
  {
    hide MergeRight, Offset, Payload;
    MergeRightOffsets(l, i);
    MergeRightParts(l, i);
  }

  lemma MergeRightForth(l: Layout, i: nat, k: nat)
    requires i + 1 < |l| && l[i].free && l[i + 1].free && k < |l| && !l[k].free
    ensures var k' := if k < i then k else k - 1;
            0 <= k' < |MergeRight(l, i)| && !MergeRight(l, i)[k'].free && PieceAt(MergeRight(l, i), k') == PieceAt(l, k)
  {
    hide MergeRight, Offset, Payload;
    MergeRightOffsets(l, i);
    MergeRightParts(l, i);
  }

  lemma MergeRightLive(l: Layout, i: nat)
    requires i < |l| && l[i].free
    ensures LiveSet(MergeRight(l, i)) == LiveSet(l)
  {
    if i + 1 < |l| && l[i + 1].free {
      hide MergeRight, PieceAt;
      var m := MergeRight(l, i);
      forall p | p in LiveSet(m)
        ensures p in LiveSet(l)
      {
        var k :| 0 <= k < |m| && !m[k].free && p == PieceAt(m, k);
        MergeRightBack(l, i, k);
      }
      forall p | p in LiveSet(l)
        ensures p in LiveSet(m)
      {
        var k :| 0 <= k < |l| && !l[k].free && p == PieceAt(l, k);
        MergeRightForth(l, i, k);
      }
    }
  }

  lemma FlipLive(l: Layout, i: nat)
    requires SizesOk(l) && i < |l| && !l[i].free
    ensures LiveSet(l[i := Block(l[i].size, true)]) == LiveSet(l) - {PieceAt(l, i)}
  {
    var m := l[i := Block(l[i].size, true)];
    FlipOffsets(l, i, true);
    forall p
      ensures p in LiveSet(m) <==> p in LiveSet(l) && p != PieceAt(l, i)
    {
      if p in LiveSet(m) {
        var k :| 0 <= k < |m| && !m[k].free && p == PieceAt(m, k);
        assert p == PieceAt(l, k);
        if p == PieceAt(l, i) {
          OffsetInjective(l, i, k);
        }
      }
      if p in LiveSet(l) && p != PieceAt(l, i) {
        var k :| 0 <= k < |l| && !l[k].free && p == PieceAt(l, k);
        assert p == PieceAt(m, k);
      }
    }
  }

  /** `kfree` of a live block takes away exactly its piece. */
  lemma KfreeLive(l: Layout, i: nat)
    requires Ok(l) && i < |l| && !l[i].free
    ensures LiveSet(Kfree(l, i)) == LiveSet(l) - {PieceAt(l, i)}
  {
    hide LiveSet, MergeRight, MergeLeft;
    var l1 := l[i := Block(l[i].size, true)];
    FlipLive(l, i);
    MergeRightLive(l1, i);
    MergeRightKeeps(l1, i);
    var l2 := MergeRight(l1, i);
    MergeLeftLive(l2, i);
  }

  lemma MergeRightKeeps(l: Layout, i: nat)
    requires i < |l| && l[i].free
    ensures i < |MergeRight(l, i)| && MergeRight(l, i)[i].free
  {
  }

  lemma MergeLeftLive(l: Layout, i: nat)
    requires i < |l| && l[i].free
    ensures LiveSet(MergeLeft(l, i)) == LiveSet(l)
  {
    MergeLeftIsRight(l, i);
    if i > 0 && l[i - 1].free {
      MergeRightLive(l, i - 1);
    }
  }

  // ----- runs -----

  /** A call of `kmalloc` with a positive size, or of `kfree` on a live payload. */
  datatype HeapOp = Malloc(n: nat) | Free(start: nat)

  /** The block whose payload starts at `p`, or `|l|`. */
  function BlockAt(l: Layout, p: nat, k: nat): (r: nat)
    requires k <= |l|
    ensures k <= r <= |l| && (r < |l| ==> !l[r].free && Offset(l, r) + HEADER == p)
    ensures forall j :: k <= j < r ==> l[j].free || Offset(l, j) + HEADER != p
    decreases |l| - k
  {
    if k == |l| || (!l[k].free && Offset(l, k) + HEADER == p) then k else BlockAt(l, p, k + 1)
  }

  function HeapStep(l: Layout, op: HeapOp): Layout {
    match op
    case Malloc(n) => Kmalloc(l, n).0
    case Free(p) =>
      var i := BlockAt(l, p, 0);
      if i < |l| then Kfree(l, i) else l
  }

  function HeapRun(l: Layout, ops: seq<HeapOp>): Layout
    decreases |ops|
  {
    if ops == [] then l else HeapRun(HeapStep(l, ops[0]), ops[1..])
  }

  predicate HeapOpOk(op: HeapOp) {
    op.Malloc? ==> op.n > 0
  }

  lemma InitialOk()
    ensures Ok(Initial) && LiveSet(Initial) == {}
  {
    assert Offset(Initial, 1) == Offset(Initial, 0) + HEAP_SIZE;
  }

  /** In every state of every run the blocks tile the heap and are coalesced. */
  lemma {:induction false} HeapRunOk(l: Layout, ops: seq<HeapOp>)
    requires Ok(l) && forall j :: 0 <= j < |ops| ==> HeapOpOk(ops[j])
    ensures Ok(HeapRun(l, ops))
    decreases |ops|
  {
    hide Ok, Kmalloc, Kfree;
    if ops != [] {
      assert HeapOpOk(ops[0]);
      match ops[0]
      case Malloc(n) =>
        KmallocOk(l, n);
        HeapRunOk(HeapStep(l, ops[0]), ops[1..]);
      case Free(p) =>
        var i := BlockAt(l, p, 0);
        if i < |l| {
          KfreeOk(l, i);
        }
        HeapRunOk(HeapStep(l, ops[0]), ops[1..]);
    }
  }

  /** Frees of the pointers `ps`, in that order. */
  function FreeAll(l: Layout, ps: seq<nat>): Layout
    decreases |ps|
  {
    if ps == [] then l else FreeAll(HeapStep(l, Free(ps[0])), ps[1..])
  }

  function Starts(s: set<Piece>): set<nat> {
    set p | p in s :: p.start
  }

  lemma FreeOne(l: Layout, p: nat)
    requires Ok(l) && p in Starts(LiveSet(l))
    ensures Ok(HeapStep(l, Free(p))) && Starts(LiveSet(HeapStep(l, Free(p)))) == Starts(LiveSet(l)) - {p}
  {
    hide Kfree;
    var q :| q in LiveSet(l) && q.start == p;
    var j :| 0 <= j < |l| && !l[j].free && q == PieceAt(l, j);
    var i := BlockAt(l, p, 0);
    OffsetInjective(l, i, j);
    KfreeOk(l, i);
    KfreeLive(l, i);
    OthersStartElsewhere(l, i);
  }

  lemma OthersStartElsewhere(l: Layout, i: nat)
    requires Ok(l) && i < |l| && !l[i].free
    ensures Starts(LiveSet(l) - {PieceAt(l, i)}) == Starts(LiveSet(l)) - {PieceAt(l, i).start}
  {
    var q := PieceAt(l, i);
    forall p: Piece | p in LiveSet(l) && p.start == q.start
      ensures p == q
    {
      var k :| 0 <= k < |l| && !l[k].free && p == PieceAt(l, k);
      OffsetInjective(l, i, k);
    }
    forall s
      ensures s in Starts(LiveSet(l) - {q}) <==> s in Starts(LiveSet(l)) && s != q.start
    {
      if s in Starts(LiveSet(l)) && s != q.start {
        var p :| p in LiveSet(l) && p.start == s;
        assert p in LiveSet(l) - {q};
      }
    }
  }

  lemma LiveHas(l: Layout, k: nat)
    requires k < |l| && !l[k].free
    ensures Starts(LiveSet(l)) != {}
  {
    assert PieceAt(l, k) in LiveSet(l);
    assert PieceAt(l, k).start in Starts(LiveSet(l));
  }

  lemma FirstTwo(l: Layout)
    requires Coalesced(l) && |l| > 1
    ensures !(l[0].free && l[1].free)
  {
    assert 0 <= 0 < |l| - 1;
  }

  /** Without live blocks a well-formed heap is the initial one. */
  lemma NothingLive(l: Layout)
    requires Ok(l) && Starts(LiveSet(l)) == {}
    ensures l == Initial
  {
    if |l| > 1 {
      FirstTwo(l);
    }
    forall k | 0 <= k < |l|
      ensures l[k].free
    {
      if !l[k].free {
        LiveHas(l, k);
      }
    }
    assert |l| == 1;
    assert Offset(l, 1) == Offset(l, 0) + l[0].size;
  }

  /** Freeing every live pointer once, in any order, leaves the single block of the start. */
  lemma {:induction false} FreeAllRestores(l: Layout, ps: seq<nat>)
    requires Ok(l) && (set p | p in ps) == Starts(LiveSet(l))
    requires forall i, j :: 0 <= i < j < |ps| ==> ps[i] != ps[j]
    ensures FreeAll(l, ps) == Initial
    decreases |ps|
  {
    hide Ok, LiveSet, HeapStep;
    if ps == [] {
      NothingLive(l);
    } else {
      assert ps[0] in ps;
      FreeOne(l, ps[0]);
      var l1 := HeapStep(l, Free(ps[0]));
      forall p
        ensures p in ps[1..] <==> p in ps && p != ps[0]
      {
      }
      assert (set p | p in ps[1..]) == Starts(LiveSet(l1));
      FreeAllRestores(l1, ps[1..]);
    }
  }

  // ----- when kmalloc says no -----

  ghost predicate FreeByte(l: Layout, a: nat) {
    exists k :: 0 <= k < |l| && l[k].free && Offset(l, k) <= a < Offset(l, k) + l[k].size
  }

  /** `t` consecutive bytes from `a` on, all in free blocks. */
  ghost predicate FreeStretch(l: Layout, a: nat, t: nat) {
    forall b :: a <= b < a + t ==> FreeByte(l, b)
  }

  /** The block that holds the byte behind block `k` is block `k + 1`. */
  lemma NextBlock(l: Layout, k: nat, j: nat)
    requires SizesOk(l) && k < |l| && j < |l| && Offset(l, j) <= Offset(l, k + 1) < Offset(l, j) + l[j].size
    ensures j == k + 1
  {
    if j <= k {
      OffsetGrows(l, j, k + 1);
    } else if j > k + 1 {
      OffsetGrows(l, k + 1, j);
    }
  }

  /** The one block that a stretch lies in. */
  lemma StretchBlock(l: Layout, a: nat, t: nat) returns (k: nat)
    requires Ok(l) && t > 0 && FreeStretch(l, a, t)
    ensures k < |l| && Fits(l[k], t) && Offset(l, k) <= a && a + t <= Offset(l, k) + l[k].size
  {
    assert FreeByte(l, a);
    k :| 0 <= k < |l| && l[k].free && Offset(l, k) <= a < Offset(l, k) + l[k].size;
    var end := Offset(l, k + 1);
    if a + t > end {
      assert FreeByte(l, end);
      var j :| 0 <= j < |l| && l[j].free && Offset(l, j) <= end < Offset(l, j) + l[j].size;
      NextBlock(l, k, j);
      assert false;
    }
  }

  /** `kmalloc` refuses a request exactly when no stretch of free bytes can hold it with its header. */
  lemma KmallocRefusesIff(l: Layout, n: nat)
    requires Ok(l) && n > 0
    ensures Kmalloc(l, n).1 == |l| <==> forall a: nat :: !FreeStretch(l, a, Needed(n))
  {
    var i := Kmalloc(l, n).1;
    if i < |l| {
      var a := Offset(l, i);
      forall b | a <= b < a + Needed(n)
        ensures FreeByte(l, b)
      {
      }
      assert FreeStretch(l, a, Needed(n));
    } else {
      forall a: nat
        ensures !FreeStretch(l, a, Needed(n))
      {
        if FreeStretch(l, a, Needed(n)) {
          var k := StretchBlock(l, a, Needed(n));
          assert false;
        }
      }
    }
  }

  // ----- how much kmalloc takes -----

  /** The block handed out has the size needed, or up to 20 bytes more, which no block of their own could be made of. */
  lemma TakeExactly(l: Layout, n: nat)
    requires Ok(l) && n > 0 && Kmalloc(l, n).1 < |l|
    ensures var (m, i) := Kmalloc(l, n);
            && i < |m| && Needed(n) <= m[i].size <= Needed(n) + HEADER + 4
            && (m[i].size > Needed(n) ==> m[i].size == l[i].size)
  {
  }

  /** A request takes the bytes of its block, which were free, and no other: less than 24 bytes beyond what was asked. */
  lemma KmallocTakes(l: Layout, n: nat)
    requires Ok(l) && n > 0 && Kmalloc(l, n).1 < |l|
    ensures var (m, i) := Kmalloc(l, n);
            && i < |m| && n <= PieceAt(m, i).length < n + 4 + HEADER + 4
            && (forall a: nat :: Offset(m, i) <= a < Offset(m, i) + m[i].size ==> FreeByte(l, a))
            && (forall a: nat :: FreeByte(m, a) <==> FreeByte(l, a) && !(Offset(m, i) <= a < Offset(m, i) + m[i].size))
  {
    hide Take, Offset, FirstFit;
    var (m, i) := Kmalloc(l, n);
    TakeExactly(l, n);
    TakeOffsets(l, i, Needed(n));
    TakeParts(l, i, Needed(n));
    TakeWithin(l, i, Needed(n));
    forall a: nat | Offset(m, i) <= a < Offset(m, i) + m[i].size
      ensures FreeByte(l, a)
    {
      assert l[i].free && Offset(l, i) <= a < Offset(l, i) + l[i].size;
    }
    forall a: nat
      ensures FreeByte(m, a) <==> FreeByte(l, a) && !(Offset(m, i) <= a < Offset(m, i) + m[i].size)
    {
      FreeByteAfter(l, i, Needed(n), a);
    }
  }

  /** The block handed out and the rest behind it are the block found. */
  lemma TakeWithin(l: Layout, i: nat, t: nat)
    requires i < |l| && Fits(l[i], t)
    ensures var m := Take(l, i, t);
            && i < |m| && m[i].size <= l[i].size
            && (|m| == |l| ==> m[i].size == l[i].size)
            && (|m| > |l| ==> i + 1 < |m| && m[i].size + m[i + 1].size == l[i].size)
  {
  }

  lemma FreeByteAfter(l: Layout, i: nat, t: nat, a: nat)
    requires Ok(l) && i < |l| && Fits(l[i], t)
    ensures var m := Take(l, i, t);
            i < |m| && (FreeByte(m, a) <==> FreeByte(l, a) && !(Offset(m, i) <= a < Offset(m, i) + m[i].size))
  {
    hide Take, Ok;
    var m := Take(l, i, t);
    TakeOffsets(l, i, t);
    TakeParts(l, i, t);
    TakeWithin(l, i, t);
    SizesPositive(l);
    if FreeByte(l, a) && !(Offset(m, i) <= a < Offset(m, i) + m[i].size) {
      var k :| 0 <= k < |l| && l[k].free && Offset(l, k) <= a < Offset(l, k) + l[k].size;
      FreeByteForth(l, i, t, a, k);
    }
    if FreeByte(m, a) {
      var k :| 0 <= k < |m| && m[k].free && Offset(m, k) <= a < Offset(m, k) + m[k].size;
      FreeByteBack(l, i, t, a, k);
    }
  }

  lemma SizesPositive(l: Layout)
    requires Ok(l)
    ensures SizesOk(l)
  {
  }

  lemma FreeByteForth(l: Layout, i: nat, t: nat, a: nat, k: nat)
    requires SizesOk(l) && i < |l| && Fits(l[i], t) && k < |l| && l[k].free && Offset(l, k) <= a < Offset(l, k) + l[k].size
    requires var m := Take(l, i, t); i < |m| && !(Offset(m, i) <= a < Offset(m, i) + m[i].size)
    ensures FreeByte(Take(l, i, t), a)
  {
    hide Take, SizesOk;
    var m := Take(l, i, t);
    TakeOffsets(l, i, t);
    TakeParts(l, i, t);
    TakeWithin(l, i, t);
    var k' := if k < i then k else |m| - |l| + k;
    if k != i {
      assert m[k'] == l[k] && Offset(m, k') == Offset(l, k);
    } else {
      assert Offset(m, i + 1) == Offset(m, i) + m[i].size;
    }
  }

  lemma FreeByteBack(l: Layout, i: nat, t: nat, a: nat, k: nat)
    requires SizesOk(l) && i < |l| && Fits(l[i], t)
    requires var m := Take(l, i, t); k < |m| && m[k].free && Offset(m, k) <= a < Offset(m, k) + m[k].size
    ensures var m := Take(l, i, t);
            i < |m| && FreeByte(l, a) && !(Offset(m, i) <= a < Offset(m, i) + m[i].size)
  {
    hide Take, SizesOk;
    var m := Take(l, i, t);
    TakeOffsets(l, i, t);
    TakeParts(l, i, t);
    TakeWithin(l, i, t);
    if k < i {
      assert l[k] == m[k];
      OffsetGrows(m, k, i);
    } else {
      assert k > i;
      OffsetGrows(m, i, k);
      if k == i + 1 && |m| > |l| {
        assert Offset(m, i + 1) == Offset(m, i) + m[i].size;
        assert l[i].free && Offset(l, i) <= a < Offset(l, i) + l[i].size;
      } else {
        var k' := k - (|m| - |l|);
        assert k' > i && m[|m| - |l| + k'] == l[k'] && Offset(l, k') == Offset(m, k);
      }
    }
  }

  /** The block handed out begins where the first stretch begins that can hold the request with its header. */
  lemma KmallocIsFirst(l: Layout, n: nat)
    requires Ok(l) && n > 0 && Kmalloc(l, n).1 < |l|
    ensures var (m, i) := Kmalloc(l, n);
            && i < |m| && FreeStretch(l, Offset(m, i), Needed(n))
            && forall a: nat :: a < Offset(m, i) ==> !FreeStretch(l, a, Needed(n))
  {
    hide Take;
    var (m, i) := Kmalloc(l, n);
    TakeOffsets(l, i, Needed(n));
    forall b | Offset(l, i) <= b < Offset(l, i) + Needed(n)
      ensures FreeByte(l, b)
    {
    }
    forall a: nat | a < Offset(l, i)
      ensures !FreeStretch(l, a, Needed(n))
    {
      if FreeStretch(l, a, Needed(n)) {
        var k := StretchBlock(l, a, Needed(n));
        assert k >= i;
        OffsetGrows(l, i, k);
      }
    }
  }

  /** Every byte of the heap lies in a block. */
  lemma {:induction false} BlockAround(l: Layout, a: nat, n: nat) returns (k: nat)
    requires n <= |l| && a < Offset(l, n)
    ensures k < n && Offset(l, k) <= a < Offset(l, k) + l[k].size
  {
    if a < Offset(l, n - 1) {
      k := BlockAround(l, a, n - 1);
    } else {
      k := n - 1;
    }
  }

  /** A byte of a piece or of its header. */
  predicate Within(p: Piece, a: nat) {
    p.start <= a + HEADER && a < p.start + p.length
  }

  /** A byte of the heap is free exactly when it belongs to no live piece. */
  lemma FreeIffNotLive(l: Layout, a: nat)
    requires Ok(l)
    ensures FreeByte(l, a) <==> a < HEAP_SIZE && forall p :: p in LiveSet(l) ==> !Within(p, a)
  {
    hide LiveSet;
    if FreeByte(l, a) {
      var k :| 0 <= k < |l| && l[k].free && Offset(l, k) <= a < Offset(l, k) + l[k].size;
      OffsetGrows(l, k, |l|);
      forall p | p in LiveSet(l)
        ensures !Within(p, a)
      {
        var j := LiveAt(l, p);
        Apart(l, k, j, a);
      }
    } else if a < HEAP_SIZE {
      var k := BlockAround(l, a, |l|);
      assert PieceAt(l, k) in LiveSet(l) by { InLive(l, k); }
      assert Within(PieceAt(l, k), a);
    }
  }

  lemma Apart(l: Layout, k: nat, j: nat, a: nat)
    requires SizesOk(l) && k < |l| && j < |l| && k != j && Offset(l, k) <= a < Offset(l, k) + l[k].size
    ensures !Within(PieceAt(l, j), a)
  {
    if j < k {
      OffsetGrows(l, j, k);
    } else {
      OffsetGrows(l, k, j);
    }
  }

  /** Freeing a live block makes its bytes free, header included, and no other. */
  lemma KfreeGives(l: Layout, i: nat)
    requires Ok(l) && i < |l| && !l[i].free
    ensures forall a: nat :: FreeByte(Kfree(l, i), a) <==> FreeByte(l, a) || Within(PieceAt(l, i), a)
  {
    hide LiveSet, Kfree, Ok, FreeByte, PieceAt, Within;
    KfreeOk(l, i);
    KfreeLive(l, i);
    InLive(l, i);
    var m := Kfree(l, i);
    forall a: nat
      ensures FreeByte(m, a) <==> FreeByte(l, a) || Within(PieceAt(l, i), a)
    {
      FreeIffNotLive(l, a);
      FreeIffNotLive(m, a);
      WithinHeap(l, i, a);
      if Within(PieceAt(l, i), a) {
        forall p | p in LiveSet(m)
          ensures !Within(p, a)
        {
          NotTwice(l, PieceAt(l, i), p, a);
        }
      }
    }
  }

  lemma WithinHeap(l: Layout, i: nat, a: nat)
    requires Ok(l) && i < |l|
    ensures Within(PieceAt(l, i), a) ==> a < HEAP_SIZE
  {
    OffsetGrows(l, i, |l|);
  }

  lemma NotTwice(l: Layout, p: Piece, q: Piece, a: nat)
    requires Ok(l) && p in LiveSet(l) && q in LiveSet(l) && p != q
    ensures !(Within(p, a) && Within(q, a))
  {
    var i := LiveAt(l, p);
    var j := LiveAt(l, q);
    if i < j {
      OffsetGrows(l, i, j);
    } else {
      OffsetGrows(l, j, i);
    }
  }

  /** The room a second request needs behind the first: at least what a block of its own can be made of. */
  function Behind(n: nat): nat {
    if Needed(n) > HEADER + 8 then Needed(n) else HEADER + 8
  }

  /** Two requests that fit into one stretch, one behind the other, are both granted. */
  lemma BothGranted(l: Layout, n: nat, n': nat, a: nat)
    requires Ok(l) && n > 0 && n' > 0 && FreeStretch(l, a, Needed(n) + Behind(n'))
    ensures Kmalloc(l, n).1 < |l|
    ensures var m := Kmalloc(l, n).0; Kmalloc(m, n').1 < |m|
  {
    hide FreeStretch;
    var k := StretchBlock(l, a, Needed(n) + Behind(n'));
    var (m, i) := Kmalloc(l, n);
    assert Fits(l[k], Needed(n));
    SecondFits(l, n, n', i, k);
  }

  lemma SecondFits(l: Layout, n: nat, n': nat, i: nat, k: nat)
    requires i <= k < |l| && Fits(l[i], Needed(n)) && Kmalloc(l, n) == (Take(l, i, Needed(n)), i)
    requires l[k].free && l[k].size >= Needed(n) + Behind(n')
    ensures var m := Take(l, i, Needed(n)); Kmalloc(m, n').1 < |m|
  {
    hide Take, Needed;
    var m := Take(l, i, Needed(n));
    TakeParts(l, i, Needed(n));
    if k > i {
      assert m[|m| - |l| + k] == l[k];
      assert Fits(m[|m| - |l| + k], Needed(n'));
    } else {
      RestFits(l, i, Needed(n), Behind(n'));
      assert Fits(m[i + 1], Needed(n'));
    }
  }

  lemma RestFits(l: Layout, i: nat, t: nat, b: nat)
    requires i < |l| && Fits(l[i], t) && b >= HEADER + 8 && l[i].size >= t + b
    ensures var m := Take(l, i, t); |m| == |l| + 1 && Fits(m[i + 1], b)
  {
  }

  /** With only 20 bytes behind the first, which is just the need of the second, they go to the first. */
  lemma LastWordRefused()
    ensures Needed(HEAP_SIZE - 36) + Needed(4) == HEAP_SIZE
    ensures var (m, i) := Kmalloc(Initial, HEAP_SIZE - 36);
            i == 0 && m == [Block(HEAP_SIZE, false)] && Kmalloc(m, 4).1 == |m|
  {
    assert Fits(Initial[0], Needed(HEAP_SIZE - 36));
  }

  // ----- 32-bit sizes -----

  /** The block size as `kmalloc` computes it in 32-bit arithmetic. */
  function Needed32(n: u32): u32 {
    var aligned: u32 := if n % 4 != 0 then Wrap(n + (4 - n % 4)) else n;
    Wrap(aligned + HEADER)
  }

  /** The 32-bit computation is right exactly for requests up to 0xFFFFFFEC bytes. */
  lemma Needed32Iff(n: u32)
    ensures Needed32(n) == Needed(n) <==> n <= 0xFFFF_FFEC
  {
  }

  /** `kmalloc` with the size it computes, wrapped or not. */
  function Kmalloc32(l: Layout, n: u32): (Layout, nat) {
    var i := FirstFit(l, Needed32(n), 0);
    if i == |l| then (l, i) else (Take(l, i, Needed32(n)), i)
  }

  lemma BlockBound(l: Layout, i: nat)
    requires Ok(l) && i < |l|
    ensures l[i].size <= HEAP_SIZE
  {
    OffsetGrows(l, i + 1, |l|);
  }

  /**
    A payload that is granted is as long as asked exactly for requests up to 0xFFFFFFEC
    bytes; a larger request wraps to at most 16 bytes, and whatever block it gets is too short.
   */
  lemma GrantedLongEnoughIff(l: Layout, n: u32)
    requires Ok(l) && n > 0 && Kmalloc32(l, n).1 < |l|
    ensures var (m, i) := Kmalloc32(l, n);
            && i < |m| && (Payload(m[i]) >= n <==> n <= 0xFFFF_FFEC)
            && (n <= 0xFFFF_FFEC ==> Kmalloc32(l, n) == Kmalloc(l, n))
            && (n > 0xFFFF_FFEC ==> Needed32(n) <= HEADER)
  {
    hide Needed, Needed32, Offset;
    Needed32Iff(n);
    var i := FirstFit(l, Needed32(n), 0);
    BlockBound(l, i);
    if n <= 0xFFFF_FFEC {
      NeededCovers(n);
    } else {
      WrappedNeeded(n);
    }
  }

  lemma NeededCovers(n: nat)
    ensures Needed(n) >= n + HEADER
  {
  }

  lemma WrappedNeeded(n: u32)
    requires n > 0xFFFF_FFEC
    ensures Needed32(n) <= HEADER
  {
  }

  /** The largest request on the fresh heap: it is granted, with an empty payload. */
  lemma HugeRequestGetsNothing()
    ensures var (m, i) := Kmalloc32(Initial, 0xFFFF_FFFF);
            i == 0 && |m| == 2 && Payload(m[0]) == 0 && Needed32(0xFFFF_FFFF) == HEADER
  {
    assert Needed32(0xFFFF_FFFF) == HEADER;
    assert Fits(Initial[0], HEADER);
  }
}
