/**
  Growing the heap of a program page by page.
 */
module Sbrk {
  import opened Words
  import opened Bitmaps
  import opened Frames
  import opened Paging
  import opened PagingRuns
  import PagingInit

  const HEAP_START := 0x10000000

  /** One round of the loop of `sys_sbrk`: a frame, whatever `alloc_frame` answers, for page `i`. */
  function GrowPage(s: Space, i: nat): (s': Space)
    requires Formed(s) && i < PAGES
    ensures Formed(s') && s'.dirFrame == s.dirFrame
  {
    AllocLow(s.pool);
    var g := Alloc(s.pool);
    MapPages(s.(pool := g.pool), g.addr, i * 4096, PageCount(4096))
  }

  function GrowPages(s: Space, from: nat, n: nat): (s': Space)
    requires Formed(s) && from + n <= PAGES
    ensures Formed(s') && s'.dirFrame == s.dirFrame
  {
    if n == 0 then s else GrowPage(GrowPages(s, from, n - 1), from + n - 1)
  }

  /** The pages up to an address, the last one counted whole. */
  function PagesTo(addr: u32): (n: nat)
    ensures n < PAGES
  {
    Wrap(addr + 4095) / 4096
  }

  /** The address space and the new end of the heap; the answer of the call is the old end. */
  function Sbrk(s: Space, end: u32, increment: int): (r: (Space, u32))
    requires Formed(s)
    ensures Formed(r.0)
  {
    if increment == 0 then (s, end)
    else
      var end' := Wrap(end + increment);
      var from, to := PagesTo(end), PagesTo(end');
      (if from < to then GrowPages(s, from, to - from) else s, end')
  }

  // ----- one page -----

  /** Page `page` has a frame of its own, in use, and neither a table nor the directory, that programs may read and write. */
  predicate Owns(s: Space, page: nat)
    requires Formed(s) && page < PAGES
  {
    match Translate(s, page)
    case None => false
    case Some(m) =>
      && m == UserPage(m.frame)
      && 0 < m.frame < LOW_FRAMES && TestBit(s.pool.bits, m.frame) && m.frame != s.dirFrame
      && forall d :: 0 <= d < ENTRIES && s.dir[d].present ==> s.dir[d].frame != m.frame
  }

  /** Neither the page nor a table it needs is refused a frame. */
  predicate GrowServed(s: Space, i: nat)
    requires Formed(s) && i < PAGES
  {
    AllocLow(s.pool);
    Alloc(s.pool).addr != 0 && Served(s.(pool := Alloc(s.pool).pool), i * 4096)
  }

  lemma GrowPageIs(s: Space, i: nat)
    requires Formed(s) && i < PAGES
    ensures Formed(s.(pool := Alloc(s.pool).pool))
    ensures GrowPage(s, i) == MapPage(s.(pool := Alloc(s.pool).pool), Alloc(s.pool).addr, i * 4096)
  {
    hide MapPage, Alloc;
    AllocLow(s.pool);
    var s1 := s.(pool := Alloc(s.pool).pool);
    assert Wrap(i * 4096 + (1 - 1) * 4096) == i * 4096;
    assert MapPages(s1, Alloc(s.pool).addr, i * 4096, 0) == s1;
    assert PageCount(4096) == 1;
  }

  /** Taking a frame for the page leaves the tables as they are. */
  lemma TakenTidy(s: Space)
    requires Tidy(s)
    ensures var s1 := s.(pool := Alloc(s.pool).pool);
            && Tidy(s1) && forall page :: 0 <= page < PAGES ==> Translate(s1, page) == Translate(s, page)
  {
    hide Sound, Alloc, TestBit, Count;
    AllocLow(s.pool);
    AllocGrows(s.pool);
  }

  lemma AllocGrows(p: Pool)
    requires Sound(p)
    ensures |Alloc(p).pool.bits| == |p.bits|
    ensures forall f :: 0 <= f < MAX_FRAMES && TestBit(p.bits, f) ==> TestBit(Alloc(p).pool.bits, f)
  {
    if Alloc(p).addr != 0 {
      AllocFresh(p);
    } else {
      var f := FirstClear(p.bits, 0, SearchLimit(p));
      if f < SearchLimit(p) {
        TakeSound(p, f);
      }
    }
  }

  /** The frames of tables after one round: as before, or one that was free. */
  lemma MapPageFrames(s: Space, p: u32, v: u32)
    requires Tidy(s) && Served(s, v)
    ensures var s' := MapPage(s, p, v);
            && |s'.pool.bits| == |s.pool.bits|
            && (forall f :: 0 <= f < MAX_FRAMES && TestBit(s.pool.bits, f) ==> TestBit(s'.pool.bits, f))
            && (forall d :: 0 <= d < ENTRIES && s'.dir[d].present ==>
                  (s.dir[d].present && s'.dir[d].frame == s.dir[d].frame) || !TestBit(s.pool.bits, s'.dir[d].frame))
  {
    hide SetEntry, Sound, Alloc, TestBit, Count;
    var d := v / 4194304;
    AllocGrows(s.pool);
    if !s.dir[d].present {
      AllocFresh(s.pool);
    }
  }

  /** A frame in use that is not a table stays so. */
  lemma StillOwns(s: Space, p: u32, v: u32, f: nat)
    requires Tidy(s) && Served(s, v) && 0 < f < LOW_FRAMES && TestBit(s.pool.bits, f) && f != s.dirFrame
    requires forall d :: 0 <= d < ENTRIES && s.dir[d].present ==> s.dir[d].frame != f
    ensures var s' := MapPage(s, p, v);
            && TestBit(s'.pool.bits, f) && f != s'.dirFrame
            && forall d :: 0 <= d < ENTRIES && s'.dir[d].present ==> s'.dir[d].frame != f
  {
    hide MapPage, TestBit, Sound, Count, Alloc, Served;
    MapPageFrames(s, p, v);
  }

  lemma AllocatedOwned(s: Space)
    requires Tidy(s) && Alloc(s.pool).addr != 0
    ensures var f, s1 := Alloc(s.pool).addr / FRAME_SIZE, s.(pool := Alloc(s.pool).pool);
            && Formed(s1)
            && 0 < f < LOW_FRAMES && !TestBit(s.pool.bits, f) && TestBit(s1.pool.bits, f) && f != s1.dirFrame
            && forall d :: 0 <= d < ENTRIES && s1.dir[d].present ==> s1.dir[d].frame != f
  {
    hide Sound, Alloc, TestBit, Count;
    AllocFresh(s.pool);
    AllocLow(s.pool);
  }

  /** The page gets a frame that was free, and nothing else changes hands. */
  lemma GrowPageEffect(s: Space, i: nat)
    requires Tidy(s) && i < PAGES && GrowServed(s, i)
    ensures var s' := GrowPage(s, i);
            && Tidy(s') && Owns(s', i)
            && !TestBit(s.pool.bits, Translate(s', i).value.frame)
            && (forall f :: 0 <= f < MAX_FRAMES && TestBit(s.pool.bits, f) ==> TestBit(s'.pool.bits, f))
            && (forall page :: 0 <= page < PAGES && page != i ==> Translate(s', page) == Translate(s, page))
            && (forall page :: 0 <= page < PAGES && page != i && Owns(s, page) ==> Owns(s', page))
  {
    hide Tidy, Translate, MapPage, TestBit, Alloc, Sound;
    TidyFormed(s);
    GrowPageIs(s, i);
    TakenTidy(s);
    AllocatedOwned(s);
    var s1, f := s.(pool := Alloc(s.pool).pool), Alloc(s.pool).addr / FRAME_SIZE;
    MapPageTranslates(s1, Alloc(s.pool).addr, i * 4096);
    StillOwns(s1, Alloc(s.pool).addr, i * 4096, f);
    var s' := GrowPage(s, i);
    AllocGrows(s.pool);
    MapPageFrames(s1, Alloc(s.pool).addr, i * 4096);
    forall page | 0 <= page < PAGES && page != i && Owns(s, page)
      ensures Owns(s', page)
    {
      StillOwns(s1, Alloc(s.pool).addr, i * 4096, Translate(s, page).value.frame);
    }
  }

  // ----- many pages -----

  predicate AllGrown(s: Space, from: nat, n: nat)
    requires Formed(s) && from + n <= PAGES
  {
    n == 0 || (AllGrown(s, from, n - 1) && GrowServed(GrowPages(s, from, n - 1), from + n - 1))
  }

  /** The pages `from .. from + n` have frames of their own that were free in `s`; the other pages are untouched. */
  ghost predicate Grown(s: Space, s': Space, from: nat, n: nat)
    requires Formed(s) && Formed(s') && from + n <= PAGES
  {
    && Tidy(s')
    && (forall page :: from <= page < from + n ==> Owns(s', page) && !TestBit(s.pool.bits, Translate(s', page).value.frame))
    && (forall p, q :: from <= p < q < from + n ==> Translate(s', p) != Translate(s', q))
    && (forall page :: 0 <= page < PAGES && !(from <= page < from + n) ==>
          Translate(s', page) == Translate(s, page) && (Owns(s, page) ==> Owns(s', page)))
    && (forall f :: 0 <= f < MAX_FRAMES && TestBit(s.pool.bits, f) ==> TestBit(s'.pool.bits, f))
  }

  lemma {:induction false} GrowPagesEffect(s: Space, from: nat, n: nat)
    requires Tidy(s) && from + n <= PAGES && AllGrown(s, from, n)
    ensures Grown(s, GrowPages(s, from, n), from, n)
  {
    hide Tidy, Translate, GrowPage, GrowServed, TestBit, Sound;
    TidyFormed(s);
    if n > 0 {
      GrowPagesEffect(s, from, n - 1);
      var s1 := GrowPages(s, from, n - 1);
      GrowPageEffect(s1, from + n - 1);
      OwnsInUse(s1, from, n - 1);
    }
  }

  lemma OwnsInUse(s: Space, from: nat, n: nat)
    requires Formed(s) && from + n <= PAGES && forall page :: from <= page < from + n ==> Owns(s, page)
    ensures forall page :: from <= page < from + n ==>
              Translate(s, page).Some? && Translate(s, page).value.frame < LOW_FRAMES && TestBit(s.pool.bits, Translate(s, page).value.frame)
  {
    hide Translate, TestBit;
    forall page | from <= page < from + n
      ensures Translate(s, page).Some? && Translate(s, page).value.frame < LOW_FRAMES && TestBit(s.pool.bits, Translate(s, page).value.frame)
    {
      assert Owns(s, page);
    }
  }

  // ----- the heap -----

  /** The heap pages `first .. high` have frames of their own; the pages from `high` to `limit` are unmapped. */
  ghost predicate HeapOk(s: Space, first: nat, high: nat, limit: nat) {
    && Tidy(s) && TestBit(s.pool.bits, 0) && first <= high <= limit <= KERNEL_PAGE
    && (forall page :: first <= page < high ==> Owns(s, page))
    && (forall p, q :: first <= p < q < high ==> Translate(s, p) != Translate(s, q))
    && (forall page :: high <= page < limit ==> Translate(s, page) == None)
  }

  /** After `init_paging` the heap of a new program, at 256 MB, is empty and everything up to the kernel is unmapped. */
  lemma FreshHeap(mem: seq<seq<Entry>>, pool: Pool, totalKb: u32, m: PagingInit.Image)
    requires Sound(pool) && TestBit(pool.bits, 0) && |mem| == LOW_FRAMES
    requires forall f {:trigger mem[f]} :: 0 <= f < LOW_FRAMES ==> |mem[f]| == ENTRIES
    requires 1 + PagingInit.DirectTables(totalKb) <= Available(pool)
    ensures Formed(PagingInit.Empty(mem, pool))
    ensures HeapOk(PagingInit.Start(mem, pool, totalKb, m), PagesTo(HEAP_START), PagesTo(HEAP_START), KERNEL_PAGE)
  {
    hide Tidy, Translate, TestBit, Available, Sound, PagingInit.Start, Owns;
    PagingInit.StartMaps(mem, pool, totalKb, m);
  }

  lemma GrowHeap(s: Space, first: nat, high: nat, limit: nat, n: nat)
    requires HeapOk(s, first, high, limit) && high + n <= limit && AllGrown(s, high, n)
    ensures HeapOk(GrowPages(s, high, n), first, high + n, limit)
    ensures forall page :: 0 <= page < PAGES && Translate(s, page).Some? && !(high <= page < limit) ==>
              Translate(GrowPages(s, high, n), page) == Translate(s, page)
  {
    hide Tidy, Translate, GrowPages, AllGrown, TestBit, Sound, Owns;
    TidyFormed(s);
    GrowPagesEffect(s, high, n);
    var s' := GrowPages(s, high, n);
    OwnsInUse(s, first, high - first);
    forall p, q | first <= p < q < high + n
      ensures Translate(s', p) != Translate(s', q)
    {
      if p < high <= q {
        assert Translate(s', p) == Translate(s, p);
      }
    }
  }

  // ----- exactly enough frames -----

  function LowEntry(from: nat): nat {
    from / ENTRIES
  }

  function HighEntry(from: nat, n: nat): nat
    requires n > 0
  {
    (from + n - 1) / ENTRIES + 1
  }

  /** A frame for every page and one for every table missing. */
  predicate EnoughFor(s: Space, from: nat, n: nat)
    requires Formed(s) && from + n <= PAGES
  {
    n == 0 || n + Missing(s.dir, LowEntry(from), HighEntry(from, n)) <= Available(s.pool)
  }

  lemma EntryInRange(from: nat, n: nat, i: nat)
    requires from + n <= PAGES && i < n
    ensures LowEntry(from) <= (from + i) * 4096 / 4194304 < HighEntry(from, n) <= ENTRIES
    ensures (from + i) * 4096 / 4194304 == (from + i) / ENTRIES
  {
    TableIndex((from + i) * 4096);
  }

  lemma GrowPageCost(s: Space, i: nat, lo: nat, hi: nat)
    requires Formed(s) && TestBit(s.pool.bits, 0) && i < PAGES && lo <= i * 4096 / 4194304 < hi <= ENTRIES
    requires GrowServed(s, i)
    ensures var s' := GrowPage(s, i);
            && TestBit(s'.pool.bits, 0)
            && Missing(s'.dir, lo, hi) - Available(s'.pool) == Missing(s.dir, lo, hi) - Available(s.pool) + 1
  {
    hide TestBit, Alloc, Available, WithTable, Missing, Sound;
    GrowPageIs(s, i);
    AllocAvailable(s.pool);
    WithTableCost(s.(pool := Alloc(s.pool).pool), i * 4096 / 4194304, lo, hi);
  }

  lemma {:induction false} GrowCost(s: Space, from: nat, n: nat, k: nat)
    requires Formed(s) && TestBit(s.pool.bits, 0) && from + n <= PAGES && k <= n && n > 0
    requires AllGrown(s, from, k)
    ensures var s', lo, hi := GrowPages(s, from, k), LowEntry(from), HighEntry(from, n);
            && TestBit(s'.pool.bits, 0) && lo <= hi <= ENTRIES
            && Missing(s'.dir, lo, hi) - Available(s'.pool) == Missing(s.dir, lo, hi) - Available(s.pool) + k
  {
    hide TestBit, Available, Missing, LowEntry, HighEntry, GrowPage, GrowServed, Sound;
    EntryInRange(from, n, 0);
    if k > 0 {
      GrowCost(s, from, n, k - 1);
      EntryInRange(from, n, k - 1);
      GrowPageCost(GrowPages(s, from, k - 1), from + k - 1, LowEntry(from), HighEntry(from, n));
    }
  }

  lemma GrowServedWhen(s: Space, i: nat, lo: nat, hi: nat)
    requires Formed(s) && TestBit(s.pool.bits, 0) && i < PAGES && lo <= i * 4096 / 4194304 < hi <= ENTRIES
    requires 1 + Missing(s.dir, lo, hi) <= Available(s.pool)
    ensures GrowServed(s, i)
  {
    hide TestBit, Alloc, Available, Missing, Sound;
    AllocLow(s.pool);
    AllocAvailable(s.pool);
    AllocAvailable(Alloc(s.pool).pool);
    MissingZeroIff(s.dir, lo, hi);
  }

  lemma {:induction false} EnoughGrows(s: Space, from: nat, n: nat, k: nat)
    requires Formed(s) && TestBit(s.pool.bits, 0) && from + n <= PAGES && k <= n
    requires EnoughFor(s, from, n)
    ensures AllGrown(s, from, k)
  {
    hide TestBit, Available, Missing, LowEntry, HighEntry, GrowPages, GrowServed, Sound;
    if k > 0 {
      EnoughGrows(s, from, n, k - 1);
      GrowCost(s, from, n, k - 1);
      EntryInRange(from, n, k - 1);
      GrowServedWhen(GrowPages(s, from, k - 1), from + k - 1, LowEntry(from), HighEntry(from, n));
    }
  }

  lemma GrownEnough(s: Space, from: nat, n: nat)
    requires Tidy(s) && TestBit(s.pool.bits, 0) && from + n <= PAGES && AllGrown(s, from, n)
    ensures EnoughFor(s, from, n)
  {
    hide Tidy, TestBit, Available, LowEntry, HighEntry, GrowPages, AllGrown, Sound, Missing;
    TidyFormed(s);
    if n > 0 {
      GrowPagesEffect(s, from, n);
      GrowCost(s, from, n, n);
      var s' := GrowPages(s, from, n);
      forall d | LowEntry(from) <= d < HighEntry(from, n)
        ensures s'.dir[d].present
      {
        var page := PageUnder(from, n, d);
        assert Owns(s', page);
      }
      MissingZeroIff(s'.dir, LowEntry(from), HighEntry(from, n));
    }
  }

  lemma PageUnder(from: nat, n: nat, d: nat) returns (page: nat)
    requires n > 0 && from + n <= PAGES && LowEntry(from) <= d < HighEntry(from, n)
    ensures from <= page < from + n && page / ENTRIES == d
  {
    page := if d * ENTRIES < from then from else d * ENTRIES;
  }

  // ----- a refusal leaves its mark -----

  /** A table, or one of the pages `from .. to`, in frame 0. */
  ghost predicate Spoiled(s: Space, from: nat, to: nat)
    requires Formed(s) && to <= PAGES
  {
    NullTable(s) || (Tidy(s) && exists page :: from <= page < to && Translate(s, page) == Some(UserPage(0)))
  }

  lemma GrowPageNull(s: Space, i: nat)
    requires Formed(s) && i < PAGES
    ensures var s1 := s.(pool := Alloc(s.pool).pool);
            Formed(s1) && (NullTable(s) || !Served(s1, i * 4096) ==> NullTable(GrowPage(s, i)))
  {
    hide Alloc, MapPage;
    AllocLow(s.pool);
    GrowPageIs(s, i);
    var s1 := s.(pool := Alloc(s.pool).pool);
    MapPageNull(s1, Alloc(s.pool).addr, i * 4096);
    if NullTable(s) {
      var e :| 0 <= e < ENTRIES && s.dir[e].present && s.dir[e].frame == 0;
      assert s1.dir[e] == s.dir[e];
    }
  }

  /** A tidy space after a round whose table is served, whatever frame the page got. */
  lemma GrowPageAnyFrame(s: Space, i: nat)
    requires Tidy(s) && i < PAGES
    ensures var s1, s' := s.(pool := Alloc(s.pool).pool), GrowPage(s, i);
            && Formed(s1) && Served(s1, i * 4096) ==>
                 && Tidy(s')
                 && forall page :: 0 <= page < PAGES ==>
                      Translate(s', page) == if page == i then Some(UserPage(Alloc(s.pool).addr / FRAME_SIZE)) else Translate(s, page)
  {
    hide Tidy, Alloc, MapPage, Translate, Sound;
    TidyFormed(s);
    AllocLow(s.pool);
    TakenTidy(s);
    GrowPageIs(s, i);
    var s1 := s.(pool := Alloc(s.pool).pool);
    TidyFormed(s1);
    if Served(s1, i * 4096) {
      MapPageTranslates(s1, Alloc(s.pool).addr, i * 4096);
    }
  }

  lemma SpoiledStays(s: Space, from: nat, i: nat)
    requires Formed(s) && from <= i < PAGES
    requires Spoiled(s, from, i) || (Tidy(s) && !GrowServed(s, i))
    ensures Spoiled(GrowPage(s, i), from, i + 1)
  {
    hide Tidy, Alloc, MapPage, Translate, Sound, NullTable, Served, GrowPage;
    AllocLow(s.pool);
    GrowPageNull(s, i);
    if Tidy(s) && !NullTable(GrowPage(s, i)) {
      GrowPageAnyFrame(s, i);
      if Spoiled(s, from, i) && !NullTable(s) {
        var page :| from <= page < i && Translate(s, page) == Some(UserPage(0));
        assert Translate(GrowPage(s, i), page) == Some(UserPage(0));
      } else {
        assert Translate(GrowPage(s, i), i) == Some(UserPage(0));
      }
    }
  }

  lemma {:induction false} RefusedSpoils(s: Space, from: nat, n: nat)
    requires Tidy(s) && from + n <= PAGES && !AllGrown(s, from, n)
    ensures Spoiled(GrowPages(s, from, n), from, from + n)
  {
    hide Tidy, GrowPage, GrowServed, Spoiled;
    TidyFormed(s);
    if AllGrown(s, from, n - 1) {
      GrowPagesEffect(s, from, n - 1);
    } else {
      RefusedSpoils(s, from, n - 1);
    }
    SpoiledStays(GrowPages(s, from, n - 1), from, from + n - 1);
  }

  // ----- there are not more frames than there are -----

  /** Marked bits and free ones are different ones. */
  lemma {:induction false} MarkedAndFree(bm: seq<byte>, n: nat, marked: set<nat>)
    requires n <= 8 * |bm| && forall f :: f in marked ==> f < n && TestBit(bm, f)
    ensures |marked| + Count(bm, n, false) <= n
  {
    if n == 0 {
      assert marked == {};
    } else {
      hide TestBit;
      MarkedAndFree(bm, n - 1, marked - {n - 1});
    }
  }

  lemma {:induction false} CountGrows(bm: seq<byte>, m: nat, n: nat, on: bool)
    requires m <= n <= 8 * |bm|
    ensures Count(bm, m, on) <= Count(bm, n, on)
  {
    if m < n {
      CountGrows(bm, m, n - 1, on);
    }
  }

  /** The frames of the pages `first .. high`. */
  lemma {:induction false} OwnedFrames(s: Space, first: nat, high: nat) returns (owned: set<nat>)
    requires Formed(s) && first <= high <= PAGES
    requires forall page :: first <= page < high ==> Owns(s, page)
    requires forall p, q :: first <= p < q < high ==> Translate(s, p) != Translate(s, q)
    ensures |owned| == high - first
    ensures forall f :: f in owned ==> f < LOW_FRAMES && TestBit(s.pool.bits, f)
    ensures forall f :: f in owned ==> exists page :: first <= page < high && Translate(s, page) == Some(UserPage(f))
  {
    hide Translate, TestBit, Sound;
    if first == high {
      owned := {};
    } else {
      var before := OwnedFrames(s, first, high - 1);
      assert Owns(s, high - 1);
      var f := Translate(s, high - 1).value.frame;
      owned := before + {f};
    }
  }

  /** The pages of the heap and the frames still available are together no more than the frames of 1 GB. */
  lemma HeapAndFree(s: Space, first: nat, high: nat, limit: nat)
    requires HeapOk(s, first, high, limit)
    ensures Formed(s) && high - first + Available(s.pool) <= LOW_FRAMES
  {
    hide Owns, Translate, TestBit;
    var owned := OwnedFrames(s, first, high);
    MarkedAndFree(s.pool.bits, LOW_FRAMES, owned);
    CountGrows(s.pool.bits, SearchLimit(s.pool), LOW_FRAMES, false);
  }

  /** So a growth for which there are enough frames stays far below the kernel. */
  lemma EnoughStaysBelow(s: Space, first: nat, from: nat, high: nat, limit: nat, n: nat)
    requires HeapOk(s, first, high, limit) && first + LOW_FRAMES <= limit && from <= high && from + n <= PAGES
    requires EnoughFor(s, from, n)
    ensures from + n <= limit
  {
    hide HeapOk, Available;
    HeapFormed(s, first, high, limit);
    HeapAndFree(s, first, high, limit);
  }

  lemma HeapFormed(s: Space, first: nat, high: nat, limit: nat)
    requires HeapOk(s, first, high, limit)
    ensures Formed(s) && first <= high <= limit <= KERNEL_PAGE
  {
  }

  // ----- sys_sbrk -----

  lemma Ends(end: u32, increment: nat, limit: nat)
    requires end <= limit * 4096 && limit <= KERNEL_PAGE && increment < 0x8000_0000
    ensures PagesTo(end) == (end + 4095) / 4096 <= limit
    ensures end + increment + 4095 < TWO32 ==>
              Wrap(end + increment) == end + increment && PagesTo(Wrap(end + increment)) == (end + increment + 4095) / 4096 >= PagesTo(end)
    ensures end + increment + 4095 >= TWO32 ==> PagesTo(Wrap(end + increment)) < PagesTo(end)
  {
  }

  /**
    A call that does not shrink the heap.  When the new end, rounded up to a page, stays within 32
    bits: every heap page keeps or gets a frame of its own exactly when there are enough free
    frames, and then no mapped page is mapped anew.  When it does not, nothing is mapped at all.
   */
  lemma SbrkIff(s: Space, end: u32, increment: nat, first: nat, limit: nat)
    requires HeapOk(s, first, PagesTo(end), limit) && first + LOW_FRAMES <= limit && end <= limit * 4096
    requires increment < 0x8000_0000
    ensures var (s', end') := Sbrk(s, end, increment);
            var from, to := PagesTo(end), PagesTo(end');
            && end' == Wrap(end + increment)
            && (end + increment + 4095 >= TWO32 ==> s' == s && to < from)
            && (end + increment + 4095 < TWO32 ==>
                  && end' == end + increment && from <= to
                  && (HeapOk(s', first, to, limit) <==> EnoughFor(s, from, to - from))
                  && (EnoughFor(s, from, to - from) ==>
                        to <= limit &&
                        forall page :: 0 <= page < PAGES && Translate(s, page).Some? ==> Translate(s', page) == Translate(s, page)))
  {
    hide Tidy, Translate, GrowPages, AllGrown, TestBit, Sound, Owns, EnoughFor, PagesTo, Wrap, Spoiled;
    TidyFormed(s);
    Ends(end, increment, limit);
    var from, to := PagesTo(end), PagesTo(Wrap(end + increment));
    if from <= to {
      GrowthIff(s, first, from, to, limit);
      NoGrowth(s, from);
    }
    if increment == 0 {
      WrapSmall(end);
    }
  }

  lemma GrowthIff(s: Space, first: nat, from: nat, to: nat, limit: nat)
    requires HeapOk(s, first, from, limit) && first + LOW_FRAMES <= limit && from <= to <= PAGES
    ensures var s' := GrowPages(s, from, to - from);
            && (HeapOk(s', first, to, limit) <==> EnoughFor(s, from, to - from))
            && (EnoughFor(s, from, to - from) ==>
                  to <= limit &&
                  forall page :: 0 <= page < PAGES && Translate(s, page).Some? ==> Translate(s', page) == Translate(s, page))
  {
    hide Tidy, Translate, GrowPages, AllGrown, TestBit, Sound, Owns, EnoughFor, Spoiled;
    TidyFormed(s);
    var n := to - from;
    if EnoughFor(s, from, n) {
      EnoughStaysBelow(s, first, from, from, limit, n);
      EnoughGrows(s, from, n, n);
      GrowHeap(s, first, from, limit, n);
    } else {
      if AllGrown(s, from, n) {
        GrownEnough(s, from, n);
      }
      RefusedSpoils(s, from, n);
      SpoiledNotOk(GrowPages(s, from, n), first, from, to, limit);
    }
  }

  lemma NoGrowth(s: Space, from: nat)
    requires Formed(s) && from <= PAGES
    ensures GrowPages(s, from, 0) == s && AllGrown(s, from, 0)
  {
  }

  lemma SpoiledNotOk(s: Space, first: nat, from: nat, to: nat, limit: nat)
    requires Formed(s) && first <= from <= to <= PAGES && Spoiled(s, from, to)
    ensures !HeapOk(s, first, to, limit)
  {
    hide Tidy, Translate, NullTable;
    if NullTable(s) {
      NullNotTidy(s);
    } else {
      var page :| from <= page < to && Translate(s, page) == Some(UserPage(0));
      assert !Owns(s, page);
    }
  }

  /**
    After a shrink the pages between the end and `high` stay mapped.  A call that has
    enough frames then leaves every mapped page alone exactly when it adds no page or starts
    at `high`; otherwise a page is given a second frame and its first one is lost.
   */
  lemma SbrkRemapsIff(s: Space, end: u32, increment: int, first: nat, high: nat, limit: nat)
    requires HeapOk(s, first, high, limit) && first + LOW_FRAMES <= limit && first <= PagesTo(end) <= high
    requires var from, to := PagesTo(end), PagesTo(Wrap(end + increment));
             from < to ==> EnoughFor(s, from, to - from)
    ensures var (s', end') := Sbrk(s, end, increment);
            (forall page :: 0 <= page < PAGES && Translate(s, page).Some? ==> Translate(s', page) == Translate(s, page))
            <==> PagesTo(end') <= PagesTo(end) || PagesTo(end) == high
  {
    hide Tidy, Translate, GrowPages, AllGrown, TestBit, Sound, Owns, EnoughFor, PagesTo, Wrap;
    TidyFormed(s);
    var from, to := PagesTo(end), PagesTo(Wrap(end + increment));
    if increment == 0 {
      WrapSmall(end);
    } else if from < to {
      EnoughStaysBelow(s, first, from, high, limit, to - from);
      EnoughGrows(s, from, to - from, to - from);
      GrowPagesEffect(s, from, to - from);
      var s' := GrowPages(s, from, to - from);
      OwnsInUse(s, first, high - first);
      OwnsInUse(s', from, to - from);
      if from < high {
        assert Owns(s, from) && Owns(s', from);
        assert Translate(s, from) != Translate(s', from);
      }
    }
  }

  /**
    The loss in a run: from an empty heap with two frames to spare, growing by a page, shrinking
    by it and growing again maps the first heap page to a second frame; the first one stays marked in use.
   */
  lemma GrowShrinkGrow(s: Space)
    requires HeapOk(s, PagesTo(HEAP_START), PagesTo(HEAP_START), KERNEL_PAGE)
    requires 2 + Missing(s.dir, 64, 65) <= Available(s.pool)
    ensures var (s1, end1) := Sbrk(s, HEAP_START, 4096);
            var (s2, end2) := Sbrk(s1, end1, -4096);
            var (s3, end3) := Sbrk(s2, end2, 4096);
            && end2 == HEAP_START && end3 == end1
            && Translate(s1, 65536).Some? && Translate(s3, 65536).Some?
            && Translate(s3, 65536).value.frame != Translate(s1, 65536).value.frame
            && InUse(s3.pool, Translate(s1, 65536).value.frame)
  {
    hide Tidy, Translate, TestBit, Available, GrowPages, Missing, Sound;
    TidyFormed(s);
    HeapPages();
    var s1, end1 := Sbrk(s, HEAP_START, 4096).0, Sbrk(s, HEAP_START, 4096).1;
    SbrkIff(s, HEAP_START, 4096, 65536, KERNEL_PAGE);
    EnoughGrows(s, 65536, 1, 1);
    GrowCost(s, 65536, 1, 1);
    GrowPagesEffect(s, 65536, 1);
    MissingZeroIff(s1.dir, 64, 65);
    EnoughGrows(s1, 65536, 1, 1);
    GrowPagesEffect(s1, 65536, 1);
    var s3 := GrowPages(s1, 65536, 1);
    OwnsInUse(s1, 65536, 1);
    OwnsInUse(s3, 65536, 1);
  }

  lemma HeapPages()
    ensures PagesTo(HEAP_START) == 65536 && PagesTo(HEAP_START + 4096) == 65537
    ensures LowEntry(65536) == 64 && HighEntry(65536, 1) == 65
    ensures Wrap(HEAP_START + 4096) == HEAP_START + 4096 && Wrap(HEAP_START + 4096 - 4096) == HEAP_START
  {
  }

  // ----- runs -----

  /** The calls one after the other. */
  function SbrkAll(s: Space, end: u32, increments: seq<nat>): (r: (Space, u32))
    requires Formed(s)
    ensures Formed(r.0)
    decreases |increments|
  {
    if increments == [] then (s, end)
    else
      var (s1, end1) := Sbrk(s, end, increments[0]);
      SbrkAll(s1, end1, increments[1..])
  }

  function Sum(increments: seq<nat>): nat {
    if increments == [] then 0 else increments[0] + Sum(increments[1..])
  }

  /** A call that grows the heap finds the frames it needs. */
  predicate CallEnough(s: Space, end: u32, end': u32)
    requires Formed(s)
  {
    PagesTo(end) <= PagesTo(end') && EnoughFor(s, PagesTo(end), PagesTo(end') - PagesTo(end))
  }

  /** Every call finds the frames it needs. */
  predicate AllEnough(s: Space, end: u32, increments: seq<nat>)
    requires Formed(s)
    decreases |increments|
  {
    increments == [] ||
    var (s1, end1) := Sbrk(s, end, increments[0]);
    CallEnough(s, end, end1) && AllEnough(s1, end1, increments[1..])
  }

  /** Over any run of calls that never shrink: the heap is whole, and no mapped page was ever mapped anew. */
  lemma {:induction false} SbrkRunKeeps(s: Space, end: u32, increments: seq<nat>, first: nat, limit: nat)
    requires HeapOk(s, first, PagesTo(end), limit) && first + LOW_FRAMES <= limit && end <= limit * 4096
    requires forall k :: 0 <= k < |increments| ==> increments[k] < 0x8000_0000
    requires AllEnough(s, end, increments)
    ensures var (s', end') := SbrkAll(s, end, increments);
            && end' == end + Sum(increments)
            && HeapOk(s', first, PagesTo(end'), limit)
            && forall page :: 0 <= page < PAGES && Translate(s, page).Some? ==> Translate(s', page) == Translate(s, page)
    decreases |increments|
  {
    hide HeapOk, Translate, Sbrk, EnoughFor, PagesTo, Formed;
    HeapFormed(s, first, PagesTo(end), limit);
    if increments != [] {
      SbrkIff(s, end, increments[0], first, limit);
      var (s1, end1) := Sbrk(s, end, increments[0]);
      EndBelow(end1, limit);
      SbrkRunKeeps(s1, end1, increments[1..], first, limit);
    }
  }

  lemma EndBelow(end: u32, limit: nat)
    requires PagesTo(end) <= limit && end + 4095 < TWO32
    ensures end <= limit * 4096
  {
  }
}
