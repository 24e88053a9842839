/**
  Two-level page tables kept in physical frames.  The first 1 GB of physical memory is
  seen as 262144 frames of 1024 page table entries; a table is whatever frame its
  directory entry names.
 */
module Paging {
  import opened Words
  import opened Bitmaps
  import opened Frames

  const ENTRIES := 1024
  const PAGES := 1048576
  const KERNEL_PAGE := 0xC0000

  datatype Entry = Entry(present: bool, rw: bool, user: bool, frame: nat)

  const NoEntry := Entry(false, false, false, 0)

  datatype Option<T> = None | Some(value: T)

  /** The directory, the frame it lies in, physical memory and its manager. */
  datatype Space = Space(dir: seq<Entry>, dirFrame: nat, mem: seq<seq<Entry>>, pool: Pool)

  predicate Formed(s: Space) {
    && |s.dir| == ENTRIES && |s.mem| == LOW_FRAMES
    && (forall f {:trigger s.mem[f]} :: 0 <= f < LOW_FRAMES ==> |s.mem[f]| == ENTRIES)
    && (forall d :: 0 <= d < ENTRIES ==> s.dir[d].frame < LOW_FRAMES)
    && Sound(s.pool)
  }

  /** What a page is mapped to: a frame, whether it may be written, and whether ring 3 may touch it. */
  datatype Mapping = Mapping(frame: nat, writable: bool, user: bool)

  /** A page that a program may read and write. */
  function UserPage(frame: nat): Mapping {
    Mapping(frame, true, true)
  }

  /** What the processor finds for a page, if anything: rights are those of both levels together. */
  function Translate(s: Space, page: nat): Option<Mapping>
    requires Formed(s) && page < PAGES
  {
    var d := s.dir[page / ENTRIES];
    if !d.present then None
    else
      var e := s.mem[d.frame][page % ENTRIES];
      if e.present then Some(Mapping(e.frame, d.rw && e.rw, d.user && e.user)) else None
  }

  // ----- paging_map_memory -----

  /** A frame with every entry marked absent. */
  function Cleared(table: seq<Entry>): (t: seq<Entry>)
    ensures |t| == |table|
  {
    seq(|table|, j requires 0 <= j < |table| => table[j].(present := false))
  }

  lemma AllocLow(p: Pool)
    requires Sound(p)
    ensures Alloc(p).addr / FRAME_SIZE < LOW_FRAMES && Alloc(p).addr % FRAME_SIZE == 0
    ensures Sound(Alloc(p).pool) && Alloc(p).pool.total == p.total
  {
    var f := FirstClear(p.bits, 0, SearchLimit(p));
    if f < SearchLimit(p) {
      TakeSound(p, f);
    }
  }

  /** The table for directory entry `d`, made if it is missing; `alloc_frame` is not checked for failure. */
  function WithTable(s: Space, d: nat): (s': Space)
    requires Formed(s) && d < ENTRIES
    ensures Formed(s') && s'.dir[d].present
    ensures s'.dirFrame == s.dirFrame
  {
    if s.dir[d].present then s
    else
      AllocLow(s.pool);
      var g := Alloc(s.pool);
      var f := g.addr / FRAME_SIZE;
      Space(s.dir[d := Entry(true, true, true, f)], s.dirFrame, s.mem[f := Cleared(s.mem[f])], g.pool)
  }

  function SetEntry(s: Space, d: nat, t: nat, frame: nat): (s': Space)
    requires Formed(s) && d < ENTRIES && t < ENTRIES
    ensures Formed(s') && s'.dir == s.dir && s'.pool == s.pool && s'.dirFrame == s.dirFrame
  {
    var table := s.dir[d].frame;
    s.(mem := s.mem[table := s.mem[table][t := Entry(true, true, true, frame)]])
  }

  /** One round of the loop of `paging_map_memory`. */
  function MapPage(s: Space, p: u32, v: u32): (s': Space)
    requires Formed(s)
    ensures Formed(s') && s'.dirFrame == s.dirFrame
  {
    SetEntry(WithTable(s, v / 4194304), v / 4194304, v / 4096 % 1024, p / 4096)
  }

  /** The first `n` rounds. */
  function MapPages(s: Space, phys: u32, virt: u32, n: nat): (s': Space)
    requires Formed(s)
    ensures Formed(s') && s'.dirFrame == s.dirFrame
  {
    if n == 0 then s
    else MapPage(MapPages(s, phys, virt, n - 1), Wrap(phys + (n - 1) * 4096), Wrap(virt + (n - 1) * 4096))
  }

  /** Pages that `size` bytes take, as the code rounds. */
  function PageCount(size: u32): nat {
    Wrap(size + 4095) / 4096
  }

  // ----- tables keep to themselves -----

  /**
    The directory and every table lie in frames of their own, above 0, that are in use, and no directory
    entry withholds a right that its table grants.
   */
  ghost predicate Tidy(s: Space) {
    && Formed(s)
    && 0 < s.dirFrame < LOW_FRAMES && TestBit(s.pool.bits, s.dirFrame)
    && (forall d :: 0 <= d < ENTRIES && s.dir[d].present ==>
          s.dir[d].frame > 0 && s.dir[d].frame != s.dirFrame && TestBit(s.pool.bits, s.dir[d].frame) && s.dir[d].rw && s.dir[d].user)
    && (forall d, e :: 0 <= d < e < ENTRIES && s.dir[d].present && s.dir[e].present ==> s.dir[d].frame != s.dir[e].frame)
  }

  lemma TidyFormed(s: Space)
    requires Tidy(s)
    ensures Formed(s) && Sound(s.pool)
  {
  }

  lemma TableIndex(v: u32)
    ensures v / 4194304 == v / 4096 / ENTRIES && v / 4096 % 1024 == v / 4096 % ENTRIES && v / 4096 < PAGES
  {
  }

  /** Frames that were free can be granted and nothing else changes. */
  lemma AllocFresh(p: Pool)
    requires Sound(p) && Alloc(p).addr != 0
    ensures var f := Alloc(p).addr / FRAME_SIZE;
            && 0 < f < LOW_FRAMES && f < p.total && !TestBit(p.bits, f)
            && (forall g :: 0 <= g < MAX_FRAMES ==> (TestBit(Alloc(p).pool.bits, g) <==> g == f || TestBit(p.bits, g)))
  {
    var f := FirstClear(p.bits, 0, SearchLimit(p));
    TakeSound(p, f);
  }

  lemma NewTableTidy(s: Space, d: nat)
    requires Tidy(s) && d < ENTRIES && !s.dir[d].present && Alloc(s.pool).addr != 0
    ensures Tidy(WithTable(s, d))
  {
    hide Sound, Alloc, TestBit, Cleared;
    AllocFresh(s.pool);
  }

  lemma NewTableTranslate(s: Space, d: nat, page: nat)
    requires Tidy(s) && d < ENTRIES && !s.dir[d].present && Alloc(s.pool).addr != 0 && page < PAGES
    ensures Translate(WithTable(s, d), page) == Translate(s, page)
  {
    hide Sound, Alloc, TestBit;
    AllocFresh(s.pool);
  }

  lemma WithTableTidy(s: Space, d: nat)
    requires Tidy(s) && d < ENTRIES && (s.dir[d].present || Alloc(s.pool).addr != 0)
    ensures Tidy(WithTable(s, d))
    ensures forall page :: 0 <= page < PAGES ==> Translate(WithTable(s, d), page) == Translate(s, page)
  {
    hide Tidy, Formed, Alloc, Translate;
    TidyFormed(s);
    if !IsPresent(s, d) {
      NewTableTidy(s, d);
      forall page | 0 <= page < PAGES
        ensures Translate(WithTable(s, d), page) == Translate(s, page)
      {
        NewTableTranslate(s, d, page);
      }
    }
  }

  predicate IsPresent(s: Space, d: nat)
    requires Formed(s) && d < ENTRIES
  {
    s.dir[d].present
  }

  lemma SetEntryTidy(s: Space, d: nat, t: nat, frame: nat)
    requires Tidy(s) && d < ENTRIES && t < ENTRIES && s.dir[d].present
    ensures Tidy(SetEntry(s, d, t, frame))
    ensures forall page :: 0 <= page < PAGES ==>
              Translate(SetEntry(s, d, t, frame), page) == if page == d * ENTRIES + t then Some(UserPage(frame)) else Translate(s, page)
  {
    hide Sound, TestBit;
    forall page | 0 <= page < PAGES
      ensures Translate(SetEntry(s, d, t, frame), page) == if page == d * ENTRIES + t then Some(UserPage(frame)) else Translate(s, page)
    {
      var pd, pt := page / ENTRIES, page % ENTRIES;
      assert page == pd * ENTRIES + pt;
    }
  }

  /** One round maps its page, for programs to read and write, and changes no other, when a table is there or can be made. */
  lemma MapPageTranslates(s: Space, p: u32, v: u32)
    requires Tidy(s) && (s.dir[v / 4194304].present || Alloc(s.pool).addr != 0)
    ensures Tidy(MapPage(s, p, v))
    ensures forall page :: 0 <= page < PAGES ==>
              Translate(MapPage(s, p, v), page) == if page == v / 4096 then Some(UserPage(p / 4096)) else Translate(s, page)
  {
    hide Tidy, Formed, Alloc, Translate, SetEntry, WithTable;
    TidyFormed(s);
    TableIndex(v);
    WithTableTidy(s, v / 4194304);
    SetEntryTidy(WithTable(s, v / 4194304), v / 4194304, v / 4096 % 1024, p / 4096);
  }

  // ----- how many frames it takes -----

  /** Tables missing among directory entries `lo .. hi`. */
  function Missing(dir: seq<Entry>, lo: nat, hi: nat): (n: nat)
    requires lo <= hi <= |dir|
  {
    if lo == hi then 0 else Missing(dir, lo, hi - 1) + (if dir[hi - 1].present then 0 else 1)
  }

  /** Frames `alloc_frame` can still hand out. */
  function Available(p: Pool): nat
    requires Sound(p)
  {
    Count(p.bits, SearchLimit(p), false)
  }

  /** `alloc_frame` fails exactly when nothing is available; otherwise one frame less is. */
  lemma AllocAvailable(p: Pool)
    requires Sound(p) && TestBit(p.bits, 0)
    ensures Alloc(p).addr == 0 <==> Available(p) == 0
    ensures Alloc(p).addr != 0 ==> Sound(Alloc(p).pool) && Available(Alloc(p).pool) == Available(p) - 1
    ensures TestBit(Alloc(p).pool.bits, 0)
  {
    hide TestBit;
    var f := FirstClear(p.bits, 0, SearchLimit(p));
    CountZeroIff(p.bits, SearchLimit(p), false);
    if f < SearchLimit(p) {
      TakeSound(p, f);
      CountPut(p.bits, f, true, SearchLimit(p));
    }
  }

  lemma {:induction false} MissingPut(dir: seq<Entry>, lo: nat, hi: nat, d: nat, e: Entry)
    requires lo <= d < hi <= |dir| && e.present
    ensures Missing(dir[d := e], lo, hi) == Missing(dir, lo, hi) - (if dir[d].present then 0 else 1)
  {
    if d < hi - 1 {
      MissingPut(dir, lo, hi - 1, d, e);
    } else {
      MissingSame(dir, dir[d := e], lo, d);
    }
  }

  lemma {:induction false} MissingSame(dir: seq<Entry>, dir': seq<Entry>, lo: nat, hi: nat)
    requires lo <= hi <= |dir| <= |dir'|
    requires forall d :: lo <= d < hi ==> dir[d] == dir'[d]
    ensures Missing(dir, lo, hi) == Missing(dir', lo, hi)
  {
    if lo < hi {
      MissingSame(dir, dir', lo, hi - 1);
    }
  }

  lemma {:induction false} MissingZeroIff(dir: seq<Entry>, lo: nat, hi: nat)
    requires lo <= hi <= |dir|
    ensures Missing(dir, lo, hi) == 0 <==> forall d :: lo <= d < hi ==> dir[d].present
  {
    if lo < hi {
      MissingZeroIff(dir, lo, hi - 1);
    }
  }

  /** Every table made costs one frame, as long as none is refused. */
  lemma WithTableCost(s: Space, d: nat, lo: nat, hi: nat)
    requires Formed(s) && TestBit(s.pool.bits, 0) && lo <= d < hi <= ENTRIES
    requires s.dir[d].present || Alloc(s.pool).addr != 0
    ensures var s' := WithTable(s, d);
            && TestBit(s'.pool.bits, 0)
            && Missing(s'.dir, lo, hi) - Available(s'.pool) == Missing(s.dir, lo, hi) - Available(s.pool)
  {
    hide TestBit, Alloc, Available;
    if !s.dir[d].present {
      AllocAvailable(s.pool);
      MissingPut(s.dir, lo, hi, d, Entry(true, true, true, Alloc(s.pool).addr / FRAME_SIZE));
    }
  }
}
