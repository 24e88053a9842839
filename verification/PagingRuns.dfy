/**
  Mapping a stretch of memory, whole: what it makes of the address space, and exactly
  how many free frames it needs.
 */
module PagingRuns {
  import opened Words
  import opened Bitmaps
  import opened Frames
  import opened Paging

  /** `n` pages, from those of two addresses on, that do not wrap round. */
  predicate Stretch(phys: u32, virt: u32, n: nat) {
    phys / 4096 + n <= PAGES && virt / 4096 + n <= PAGES
  }

  /** The round for page `v` finds a table or gets a frame for one. */
  predicate Served(s: Space, v: u32)
    requires Formed(s)
  {
    s.dir[v / 4194304].present || Alloc(s.pool).addr != 0
  }

  /** None of the `n` rounds is refused a frame. */
  predicate AllServed(s: Space, phys: u32, virt: u32, n: nat)
    requires Formed(s)
  {
    n == 0 || (AllServed(s, phys, virt, n - 1) && Served(MapPages(s, phys, virt, n - 1), Wrap(virt + (n - 1) * 4096)))
  }

  lemma Round(phys: u32, virt: u32, n: nat, i: nat)
    requires Stretch(phys, virt, n) && i < n
    ensures Wrap(phys + i * 4096) / 4096 == phys / 4096 + i && Wrap(virt + i * 4096) / 4096 == virt / 4096 + i
    ensures Wrap(virt + i * 4096) / 4194304 == (virt / 4096 + i) / ENTRIES
    ensures virt / 4096 + i < PAGES
  {
    TableIndex(Wrap(virt + i * 4096));
  }

  /** Where page `page` ends up. */
  function Mapped(s: Space, phys: u32, virt: u32, n: nat, page: nat): Option<Mapping>
    requires Formed(s) && page < PAGES
  {
    if virt / 4096 <= page < virt / 4096 + n then Some(UserPage(phys / 4096 + (page - virt / 4096))) else Translate(s, page)
  }

  lemma {:induction false} MapPagesTranslate(s: Space, phys: u32, virt: u32, n: nat)
    requires Tidy(s) && Stretch(phys, virt, n) && AllServed(s, phys, virt, n)
    ensures var s' := MapPages(s, phys, virt, n);
            && Tidy(s')
            && forall page :: 0 <= page < PAGES ==> Translate(s', page) == Mapped(s, phys, virt, n, page)
  {
    hide Tidy, Formed, Translate, MapPage, Wrap;
    TidyFormed(s);
    if n > 0 {
      MapPagesTranslate(s, phys, virt, n - 1);
      Round(phys, virt, n, n - 1);
      MapPageTranslates(MapPages(s, phys, virt, n - 1), Wrap(phys + (n - 1) * 4096), Wrap(virt + (n - 1) * 4096));
    }
  }

  // ----- exactly enough frames -----

  /** The directory entries that `n` pages from `virt` fall under. */
  function Low(virt: u32): nat {
    virt / 4096 / ENTRIES
  }

  function High(virt: u32, n: nat): nat
    requires n > 0
  {
    (virt / 4096 + n - 1) / ENTRIES + 1
  }

  /** As many frames are available as tables are missing. */
  predicate Enough(s: Space, virt: u32, n: nat)
    requires Formed(s) && virt / 4096 + n <= PAGES
  {
    n == 0 || Missing(s.dir, Low(virt), High(virt, n)) <= Available(s.pool)
  }

  lemma IndexInRange(phys: u32, virt: u32, n: nat, i: nat)
    requires Stretch(phys, virt, n) && i < n
    ensures Low(virt) <= Wrap(virt + i * 4096) / 4194304 < High(virt, n) <= ENTRIES
  {
    Round(phys, virt, n, i);
  }

  /** Without refusals, the difference between tables missing and frames available stays. */
  lemma {:induction false} CostSoFar(s: Space, phys: u32, virt: u32, n: nat, k: nat)
    requires Formed(s) && TestBit(s.pool.bits, 0) && Stretch(phys, virt, n) && k <= n && n > 0
    requires AllServed(s, phys, virt, k)
    ensures var s', lo, hi := MapPages(s, phys, virt, k), Low(virt), High(virt, n);
            && TestBit(s'.pool.bits, 0) && lo <= hi <= ENTRIES
            && Missing(s'.dir, lo, hi) - Available(s'.pool) == Missing(s.dir, lo, hi) - Available(s.pool)
  {
    hide Wrap, TestBit, WithTable, Available, Missing, Alloc, Low, High;
    IndexInRange(phys, virt, n, 0);
    if k > 0 {
      CostSoFar(s, phys, virt, n, k - 1);
      IndexInRange(phys, virt, n, k - 1);
      WithTableCost(MapPages(s, phys, virt, k - 1), Wrap(virt + (k - 1) * 4096) / 4194304, Low(virt), High(virt, n));
    }
  }

  lemma {:induction false} EnoughServes(s: Space, phys: u32, virt: u32, n: nat, k: nat)
    requires Formed(s) && TestBit(s.pool.bits, 0) && Stretch(phys, virt, n) && k <= n
    requires Enough(s, virt, n)
    ensures AllServed(s, phys, virt, k)
  {
    hide Wrap, TestBit, MapPages, Available, Alloc, Low, High;
    if k > 0 {
      EnoughServes(s, phys, virt, n, k - 1);
      CostSoFar(s, phys, virt, n, k - 1);
      IndexInRange(phys, virt, n, k - 1);
      var s' := MapPages(s, phys, virt, k - 1);
      MissingZeroIff(s'.dir, Low(virt), High(virt, n));
      AllocAvailable(s'.pool);
    }
  }

  /** Some page of the stretch falls under directory entry `d`. */
  lemma SomePage(phys: u32, virt: u32, n: nat, d: nat) returns (page: nat)
    requires Stretch(phys, virt, n) && n > 0 && Low(virt) <= d < High(virt, n)
    ensures virt / 4096 <= page < virt / 4096 + n && page / ENTRIES == d && page < PAGES
  {
    page := if d * ENTRIES < virt / 4096 then virt / 4096 else d * ENTRIES;
  }

  lemma ServedEnough(s: Space, phys: u32, virt: u32, n: nat)
    requires Tidy(s) && TestBit(s.pool.bits, 0) && Stretch(phys, virt, n)
    requires AllServed(s, phys, virt, n)
    ensures Enough(s, virt, n)
  {
    hide Tidy, TestBit, MapPages, Available, AllServed, Low, High, Missing;
    TidyFormed(s);
    if n > 0 {
      MapPagesTranslate(s, phys, virt, n);
      CostSoFar(s, phys, virt, n, n);
      var s' := MapPages(s, phys, virt, n);
      forall d | Low(virt) <= d < High(virt, n)
        ensures s'.dir[d].present
      {
        var page := SomePage(phys, virt, n, d);
        assert Translate(s', page) == Mapped(s, phys, virt, n, page);
      }
      MissingZeroIff(s'.dir, Low(virt), High(virt, n));
    }
  }

  // ----- a refusal leaves its mark -----

  /** A table in frame 0, which nobody was given. */
  predicate NullTable(s: Space)
    requires Formed(s)
  {
    exists d :: 0 <= d < ENTRIES && s.dir[d].present && s.dir[d].frame == 0
  }

  lemma MapPageNull(s: Space, p: u32, v: u32)
    requires Formed(s)
    ensures NullTable(s) || !Served(s, v) ==> NullTable(MapPage(s, p, v))
  {
    hide SetEntry, Alloc;
    var d := v / 4194304;
    var s1 := WithTable(s, d);
    assert MapPage(s, p, v).dir == s1.dir;
    if !Served(s, v) {
      assert s1.dir[d].present && s1.dir[d].frame == 0;
    } else if NullTable(s) {
      var e :| 0 <= e < ENTRIES && s.dir[e].present && s.dir[e].frame == 0;
      assert s1.dir[e] == s.dir[e];
    }
  }

  lemma {:induction false} RefusedNull(s: Space, phys: u32, virt: u32, n: nat)
    requires Formed(s) && !AllServed(s, phys, virt, n)
    ensures NullTable(MapPages(s, phys, virt, n))
  {
    hide MapPage, Served, NullTable, Wrap;
    var before := MapPages(s, phys, virt, n - 1);
    MapPageNull(before, Wrap(phys + (n - 1) * 4096), Wrap(virt + (n - 1) * 4096));
    if !AllServed(s, phys, virt, n - 1) {
      RefusedNull(s, phys, virt, n - 1);
    }
  }

  lemma NullNotTidy(s: Space)
    requires Formed(s) && NullTable(s)
    ensures !Tidy(s)
  {
  }

  /**
    `paging_map_memory`, at aligned addresses or not: the tables stay in frames of their own exactly
    when as many frames are available as tables are missing, and then every page of the
    stretch is mapped where it should be, for programs to read and write, and no other page's mapping changes.
   */
  lemma MapMemoryIff(s: Space, phys: u32, virt: u32, n: nat)
    requires Tidy(s) && TestBit(s.pool.bits, 0) && Stretch(phys, virt, n)
    ensures Formed(s)
    ensures Tidy(MapPages(s, phys, virt, n)) <==> Enough(s, virt, n)
    ensures Enough(s, virt, n) ==> forall page :: 0 <= page < PAGES ==>
              Translate(MapPages(s, phys, virt, n), page) ==
                if virt / 4096 <= page < virt / 4096 + n then Some(UserPage(phys / 4096 + (page - virt / 4096))) else Translate(s, page)
  {
    hide Tidy, TestBit, MapPages, Enough, AllServed, NullTable, Translate, Formed;
    TidyFormed(s);
    if AllServed(s, phys, virt, n) {
      ServedEnough(s, phys, virt, n);
      MapPagesTranslate(s, phys, virt, n);
    } else {
      if Enough(s, virt, n) {
        EnoughServes(s, phys, virt, n, n);
      }
      RefusedNull(s, phys, virt, n);
      NullNotTidy(MapPages(s, phys, virt, n));
    }
  }

  // ----- bytes -----

  /** The physical address that the processor finds for an address. */
  function Physical(s: Space, addr: u32): Option<nat>
    requires Formed(s)
  {
    match Translate(s, addr / 4096)
    case None => None
    case Some(m) => Some(m.frame * 4096 + addr % 4096)
  }

  /** The number of pages the code computes reaches over `size` bytes from `virt`. */
  predicate Reaches(virt: u32, size: u32) {
    size == 0 || virt % 4096 + size <= 4096 * PageCount(size)
  }

  /** For sizes whose rounding does not wrap: exactly when start and length, each within its page, fit into one page. */
  lemma ReachesIff(virt: u32, size: u32)
    ensures Reaches(virt, size) <==> size == 0 || (size + 4095 < TWO32 && virt % 4096 + (size - 1) % 4096 < 4096)
  {
    if size + 4095 >= TWO32 {
      assert PageCount(size) == 0;
    } else if size > 0 {
      assert size + 4095 == (size - 1) / 4096 * 4096 + (size - 1) % 4096 + 4096;
      assert PageCount(size) == (size - 1) / 4096 + 1;
    }
  }

  /** The bytes `virt .. virt + size` are found at `phys .. phys + size`. */
  ghost predicate BytesAt(s: Space, phys: nat, virt: nat, size: nat)
    requires Formed(s)
  {
    forall a: u32 :: virt <= a < virt + size ==> Physical(s, a) == Some(phys + (a - virt))
  }

  /**
    `paging_map_memory` of bytes that were not mapped before: afterwards each of them is found where
    it should be exactly when both addresses lie equally in their pages and the pages counted reach.
   */
  lemma MapBytesIff(s: Space, phys: u32, virt: u32, size: u32)
    requires Tidy(s) && TestBit(s.pool.bits, 0) && Stretch(phys, virt, PageCount(size))
    requires Enough(s, virt, PageCount(size)) && virt + size <= TWO32
    requires forall page :: virt / 4096 <= page < PAGES && page * 4096 < virt + size ==> Translate(s, page) == None
    ensures Formed(s)
    ensures BytesAt(MapPages(s, phys, virt, PageCount(size)), phys, virt, size)
            <==> size == 0 || (phys % 4096 == virt % 4096 && Reaches(virt, size))
  {
    hide Tidy, TestBit, MapPages, Enough, Translate, Formed, PageCount;
    TidyFormed(s);
    MapMemoryIff(s, phys, virt, PageCount(size));
    var s' := MapPages(s, phys, virt, PageCount(size));
    if BytesAt(s', phys, virt, size) && size > 0 {
      var last: u32 := virt + size - 1;
      assert Physical(s', virt) == Some(phys + (virt - virt));
      assert Physical(s', last) == Some(phys + (last - virt));
      PageIn(virt, size, PageCount(size), last);
    }
    if phys % 4096 == virt % 4096 && Reaches(virt, size) {
      forall a: u32 | virt <= a < virt + size
        ensures Physical(s', a) == Some(phys + (a - virt))
      {
        PageIn(virt, size, PageCount(size), a);
      }
    }
  }

  /** Which of the bytes lie in the pages counted. */
  lemma PageIn(virt: u32, size: u32, n: nat, a: u32)
    requires virt <= a < virt + size
    ensures virt % 4096 + size <= 4096 * n ==> a / 4096 < virt / 4096 + n
    ensures a == virt + size - 1 && a / 4096 < virt / 4096 + n ==> virt % 4096 + size <= 4096 * n
    ensures a / 4096 < PAGES && a / 4096 * 4096 < virt + size
  {
  }

  /** A page's worth of bytes from one byte behind the start of a page on: the last byte stays unmapped. */
  lemma TailLeftOut(s: Space)
    requires Tidy(s) && TestBit(s.pool.bits, 0) && Enough(s, 0x1000_0001, 1)
    requires Translate(s, 0x10000) == None && Translate(s, 0x10001) == None
    ensures var s' := MapPages(s, 0x20_0001, 0x1000_0001, PageCount(4096));
            Physical(s', 0x1000_0001) == Some(0x20_0001) && Physical(s', 0x1000_1000) == None
  {
    hide Tidy, TestBit, MapPages, Enough, Translate, Formed;
    TidyFormed(s);
    assert PageCount(4096) == 1;
    MapMemoryIff(s, 0x20_0001, 0x1000_0001, 1);
  }

  /** A size whose rounding wraps maps nothing. */
  lemma WrappedSizeMapsNothing(s: Space, phys: u32, virt: u32)
    requires Formed(s)
    ensures MapPages(s, phys, virt, PageCount(0xFFFF_F001)) == s
  {
    assert PageCount(0xFFFF_F001) == 0;
  }
}
