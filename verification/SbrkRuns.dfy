/**
  Runs of `sys_sbrk` that grow and shrink: the heap stays whole up to the highest end it had, and every
  frame used up is a heap page's, a page table's, or lost for good.
 */
module SbrkRuns {
  import opened Words
  import opened Bitmaps
  import opened Frames
  import opened Paging
  import opened Sbrk

  function Max(a: nat, b: nat): nat {
    if a >= b then a else b
  }

  /** The end after a call. */
  function EndAfter(end: u32, increment: int): u32 {
    Wrap(end + increment)
  }

  /** The calls one after the other, growing and shrinking. */
  function Calls(s: Space, end: u32, increments: seq<int>): (r: (Space, u32))
    requires Formed(s)
    ensures Formed(r.0)
    decreases |increments|
  {
    if increments == [] then (s, end)
    else
      var (s1, end1) := Sbrk.Sbrk(s, end, increments[0]);
      Calls(s1, end1, increments[1..])
  }

  /** No call ends below the first page of the heap, and each finds the frames it asks for. */
  ghost predicate Supplied(s: Space, end: u32, increments: seq<int>, first: nat)
    requires Formed(s)
    decreases |increments|
  {
    increments == [] ||
    (CallSupplied(s, end, increments[0], first)
     && var (s1, end1) := Sbrk.Sbrk(s, end, increments[0]);
        Supplied(s1, end1, increments[1..], first))
  }

  predicate CallSupplied(s: Space, end: u32, increment: int, first: nat)
    requires Formed(s)
  {
    var from, to := PagesTo(end), PagesTo(EndAfter(end, increment));
    first <= to && (from < to ==> EnoughFor(s, from, to - from))
  }

  /** The highest page count the heap has had. */
  function Highest(end: u32, high: nat, increments: seq<int>): nat
    decreases |increments|
  {
    if increments == [] then high
    else Highest(EndAfter(end, increments[0]), Max(high, PagesTo(EndAfter(end, increments[0]))), increments[1..])
  }

  /** Pages that a call maps although they are mapped already. */
  function Again(end: u32, high: nat, increment: int): nat {
    var from, to := PagesTo(end), PagesTo(EndAfter(end, increment));
    if from < to && from < high then (if to < high then to else high) - from else 0
  }

  /** Frames lost over a run: one for every page mapped again. */
  function Lost(end: u32, high: nat, increments: seq<int>): nat
    decreases |increments|
  {
    if increments == [] then 0
    else
      var end1 := EndAfter(end, increments[0]);
      Again(end, high, increments[0]) + Lost(end1, Max(high, PagesTo(end1)), increments[1..])
  }

  // ----- one call -----

  lemma SbrkIs(s: Space, end: u32, increment: int)
    requires Formed(s)
    ensures var from, to := PagesTo(end), PagesTo(EndAfter(end, increment));
            Sbrk.Sbrk(s, end, increment) == (if from < to then GrowPages(s, from, to - from) else s, EndAfter(end, increment))
  {
    hide GrowPages, PagesTo, Wrap, Formed;
    if increment == 0 {
      WrapSmall(end);
    }
  }

  /** Every round of a growth uses up a frame for its page, and one for its table if that is missing. */
  lemma {:induction false} GrowthCost(s: Space, from: nat, n: nat)
    requires Formed(s) && TestBit(s.pool.bits, 0) && from + n <= PAGES && AllGrown(s, from, n)
    ensures var s' := GrowPages(s, from, n);
            && TestBit(s'.pool.bits, 0)
            && Missing(s'.dir, 0, ENTRIES) - Available(s'.pool) == Missing(s.dir, 0, ENTRIES) - Available(s.pool) + n
  {
    hide TestBit, Available, Missing, GrowPage, GrowServed, Sound;
    if n > 0 {
      GrowthCost(s, from, n - 1);
      TableIndex((from + n - 1) * 4096);
      GrowPageCost(GrowPages(s, from, n - 1), from + n - 1, 0, ENTRIES);
    }
  }

  /** Growth over pages mapped already gives them other frames; the heap stays whole. */
  lemma RegrowHeap(s: Space, first: nat, from: nat, to: nat, high: nat, limit: nat)
    requires HeapOk(s, first, high, limit) && first <= from <= high && from <= to <= limit && AllGrown(s, from, to - from)
    ensures HeapOk(GrowPages(s, from, to - from), first, Max(high, to), limit)
  {
    hide Tidy, Translate, GrowPages, AllGrown, TestBit, Sound, Owns;
    TidyFormed(s);
    GrowPagesEffect(s, from, to - from);
    var s' := GrowPages(s, from, to - from);
    OwnsInUse(s, first, high - first);
    forall page | first <= page < Max(high, to)
      ensures Owns(s', page)
    {
      if !(from <= page < to) {
        assert Owns(s, page);
      }
    }
    forall p, q | first <= p < q < Max(high, to)
      ensures Translate(s', p) != Translate(s', q)
    {
      DifferentFrames(s, s', first, from, to, high, p, q);
    }
    forall page | Max(high, to) <= page < limit
      ensures Translate(s', page) == None
    {
      assert Translate(s', page) == Translate(s, page);
    }
  }

  lemma DifferentFrames(s: Space, s': Space, first: nat, from: nat, to: nat, high: nat, p: nat, q: nat)
    requires Formed(s) && Formed(s') && first <= from <= high <= PAGES && from <= to <= PAGES && Grown(s, s', from, to - from)
    requires forall page :: first <= page < high ==> Owns(s, page)
    requires forall a, b :: first <= a < b < high ==> Translate(s, a) != Translate(s, b)
    requires first <= p < q < Max(high, to)
    ensures Translate(s', p) != Translate(s', q)
  {
    hide Tidy, Translate, TestBit, Sound;
    var pIn, qIn := from <= p < to, from <= q < to;
    if !pIn {
      assert Owns(s, p) && Translate(s', p) == Translate(s, p);
    }
    if !qIn {
      assert Owns(s, q) && Translate(s', q) == Translate(s, q);
    }
    if pIn {
      assert Owns(s', p);
    }
    if qIn {
      assert Owns(s', q);
    }
  }

  /** One call: what it keeps, and what it uses up. */
  lemma CallKeeps(s: Space, end: u32, increment: int, first: nat, high: nat, limit: nat)
    requires HeapOk(s, first, high, limit) && first + LOW_FRAMES <= limit && first <= PagesTo(end) <= high
    requires Formed(s) && CallSupplied(s, end, increment, first)
    ensures var (s', end') := Sbrk.Sbrk(s, end, increment);
            var high' := Max(high, PagesTo(end'));
            && end' == EndAfter(end, increment) && first <= PagesTo(end') <= high'
            && HeapOk(s', first, high', limit)
            && Available(s.pool) + Missing(s'.dir, 0, ENTRIES)
               == Available(s'.pool) + Missing(s.dir, 0, ENTRIES) + (high' - high) + Again(end, high, increment)
  {
    hide Tidy, Translate, GrowPages, AllGrown, TestBit, Sound, Owns, EnoughFor, PagesTo, Wrap, Available, Missing;
    SbrkIs(s, end, increment);
    var from, to := PagesTo(end), PagesTo(EndAfter(end, increment));
    if from < to {
      EnoughStaysBelow(s, first, from, high, limit, to - from);
      EnoughGrows(s, from, to - from, to - from);
      RegrowHeap(s, first, from, to, high, limit);
      GrowthCost(s, from, to - from);
    }
  }

  // ----- runs -----

  /**
    Over any run that grows and shrinks, with frames for every call: the heap is whole up to the highest end it
    had; and every frame used up belongs to a page added there, to a table, or is lost.
   */
  lemma {:induction false} CallsKeep(s: Space, end: u32, increments: seq<int>, first: nat, high: nat, limit: nat)
    requires HeapOk(s, first, high, limit) && first + LOW_FRAMES <= limit && first <= PagesTo(end) <= high
    requires Formed(s) && Supplied(s, end, increments, first)
    ensures var (s', end') := Calls(s, end, increments);
            var high' := Highest(end, high, increments);
            && high <= high' && HeapOk(s', first, high', limit)
            && Available(s.pool) + Missing(s'.dir, 0, ENTRIES)
               == Available(s'.pool) + Missing(s.dir, 0, ENTRIES) + (high' - high) + Lost(end, high, increments)
    decreases |increments|
  {
    hide HeapOk, Sbrk.Sbrk, CallSupplied, PagesTo, Wrap, Available, Missing, Again, Formed;
    if increments != [] {
      CallKeeps(s, end, increments[0], first, high, limit);
      var (s1, end1) := Sbrk.Sbrk(s, end, increments[0]);
      CallsKeep(s1, end1, increments[1..], first, Max(high, PagesTo(end1)), limit);
    }
  }

  /** Every call that adds pages starts where the heap has ended highest. */
  predicate NeverRegrows(end: u32, high: nat, increments: seq<int>)
    decreases |increments|
  {
    increments == [] ||
    var end1 := EndAfter(end, increments[0]);
    (PagesTo(end) < PagesTo(end1) ==> PagesTo(end) >= high) && NeverRegrows(end1, Max(high, PagesTo(end1)), increments[1..])
  }

  /** Nothing is lost exactly when no call grows over pages that a shrink left mapped. */
  lemma {:induction false} NothingLostIff(end: u32, high: nat, increments: seq<int>)
    ensures Lost(end, high, increments) == 0 <==> NeverRegrows(end, high, increments)
    decreases |increments|
  {
    hide PagesTo, Wrap;
    if increments != [] {
      var end1 := EndAfter(end, increments[0]);
      NothingLostIff(end1, Max(high, PagesTo(end1)), increments[1..]);
    }
  }

  /** Every time a page is given back and taken again, a frame is lost. */
  lemma {:induction false} UpAndDown(n: nat)
    ensures Lost(HEAP_START + 4096, 65537, Bounces(n)) == n
    decreases n
  {
    HeapPages();
    if n > 0 {
      UpAndDown(n - 1);
      var b := Bounces(n);
      assert b[0] == -4096 && b[1..][0] == 4096 && b[1..][1..] == Bounces(n - 1);
      assert Lost(HEAP_START, 65537, b[1..]) == 1 + Lost(HEAP_START + 4096, 65537, b[1..][1..]);
    }
  }

  /** Down and up a page, `n` times. */
  function Bounces(n: nat): seq<int> {
    if n == 0 then [] else [-4096, 4096] + Bounces(n - 1)
  }
}
