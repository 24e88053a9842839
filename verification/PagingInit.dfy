/**
  The address space `init_paging` sets up: physical memory seen from 0xC0000000 on.
 */
module PagingInit {
  import opened Words
  import opened Bitmaps
  import opened Frames
  import opened Paging
  import PagingRuns

  /** The bounds of the parts of the kernel image that are mapped read-only. */
  datatype Image = Image(textStart: u32, textEnd: u32, rodataStart: u32, rodataEnd: u32)

  const KERNEL_BASE := 0xC0000000
  const KERNEL_ENTRY := 768

  predicate ReadOnly(m: Image, frame: nat) {
    var v := Wrap(Wrap(frame * 4096) + KERNEL_BASE);
    m.textStart <= v < m.textEnd || m.rodataStart <= v < m.rodataEnd
  }

  /** Frames to be mapped: the size in bytes is computed in 32 bits. */
  function DirectFrames(totalKb: u32): nat {
    Wrap(totalKb * 1024) / 4096
  }

  /** Tables to be made; the directory has 256 places above 0xC0000000. */
  function DirectTables(totalKb: u32): (n: nat)
    ensures n <= 256
  {
    var n := (DirectFrames(totalKb) + 1023) / 1024;
    if n > 256 then 256 else n
  }

  /** The directory in a frame of its own, with no table. */
  function Empty(mem: seq<seq<Entry>>, pool: Pool): Space
    requires Sound(pool)
  {
    var g := Alloc(pool);
    Space(seq(ENTRIES, _ => NoEntry.(rw := true)), g.addr / FRAME_SIZE, mem, g.pool)
  }

  /** The entries of table `i`. */
  function Filled(table: seq<Entry>, i: nat, total: nat, m: Image): (t: seq<Entry>)
    requires |table| == ENTRIES
    ensures |t| == ENTRIES
  {
    seq(ENTRIES, j requires 0 <= j < ENTRIES =>
          if i * ENTRIES + j < total then Entry(true, !ReadOnly(m, i * ENTRIES + j), true, i * ENTRIES + j) else table[j].(present := false))
  }

  /** One round of the mapping loop of `init_paging`. */
  function AddTable(s: Space, i: nat, total: nat, m: Image): (s': Space)
    requires Formed(s) && i < 256
    ensures Formed(s') && s'.dirFrame == s.dirFrame
  {
    var s1 := WithTable(s, KERNEL_ENTRY + i);
    var f := s1.dir[KERNEL_ENTRY + i].frame;
    s1.(mem := s1.mem[f := Filled(s1.mem[f], i, total, m)])
  }

  function AddTables(s: Space, total: nat, m: Image, n: nat): (s': Space)
    requires Formed(s) && n <= 256
    ensures Formed(s') && s'.dirFrame == s.dirFrame
  {
    if n == 0 then s else AddTable(AddTables(s, total, m, n - 1), n - 1, total, m)
  }

  /** `init_paging`. */
  function Start(mem: seq<seq<Entry>>, pool: Pool, totalKb: u32, m: Image): (s: Space)
    requires Sound(pool) && Formed(Empty(mem, pool))
    ensures Formed(s)
  {
    AddTables(Empty(mem, pool), DirectFrames(totalKb), m, DirectTables(totalKb))
  }

  // ----- what it maps -----

  /** A page of the direct map: everything but text and constants may be written, and ring 3 may touch it. */
  function KernelPage(m: Image, frame: nat): Mapping {
    Mapping(frame, !ReadOnly(m, frame), true)
  }

  /** An address of the kernel's text or its constants. */
  predicate InText(m: Image, a: nat) {
    m.textStart <= a < m.textEnd || m.rodataStart <= a < m.rodataEnd
  }

  /** A page of the direct map is read-only exactly when it starts in text or constants. */
  lemma ReadOnlyIff(m: Image, frame: nat)
    requires frame < LOW_FRAMES
    ensures ReadOnly(m, frame) <==> InText(m, (KERNEL_PAGE + frame) * 4096)
  {
    WrapSmall(frame * 4096);
    WrapSmall(frame * 4096 + KERNEL_BASE);
  }

  lemma FilledTidy(s: Space, i: nat, total: nat, m: Image)
    requires Tidy(s) && i < 256 && s.dir[KERNEL_ENTRY + i].present
    ensures var f := s.dir[KERNEL_ENTRY + i].frame;
            var s' := s.(mem := s.mem[f := Filled(s.mem[f], i, total, m)]);
            && Tidy(s')
            && forall page :: 0 <= page < PAGES ==>
                 Translate(s', page) ==
                   if page / ENTRIES == KERNEL_ENTRY + i
                   then (if page - KERNEL_PAGE < total then Some(KernelPage(m, page - KERNEL_PAGE)) else None)
                   else Translate(s, page)
  {
    hide Sound, TestBit, ReadOnly;
    var f := s.dir[KERNEL_ENTRY + i].frame;
    var s' := s.(mem := s.mem[f := Filled(s.mem[f], i, total, m)]);
    forall page | 0 <= page < PAGES
      ensures Translate(s', page) ==
                if page / ENTRIES == KERNEL_ENTRY + i
                then (if page - KERNEL_PAGE < total then Some(KernelPage(m, page - KERNEL_PAGE)) else None)
                else Translate(s, page)
    {
      if page / ENTRIES == KERNEL_ENTRY + i {
        assert page - KERNEL_PAGE == i * ENTRIES + page % ENTRIES;
      }
    }
  }

  /** What the first `n` tables map. */
  function Direct(total: nat, m: Image, n: nat, page: nat): Option<Mapping> {
    if KERNEL_PAGE <= page < KERNEL_PAGE + n * ENTRIES && page - KERNEL_PAGE < total then Some(KernelPage(m, page - KERNEL_PAGE)) else None
  }

  predicate Absent(s: Space, from: nat)
    requires Formed(s)
  {
    forall d :: from <= d < ENTRIES ==> !s.dir[d].present
  }

  lemma WithTableDir(s: Space, d: nat)
    requires Formed(s) && d < ENTRIES && !s.dir[d].present
    ensures forall e :: 0 <= e < ENTRIES && e != d ==> WithTable(s, d).dir[e] == s.dir[e]
    ensures WithTable(s, d).pool == Alloc(s.pool).pool
    ensures WithTable(s, d).dir[d].frame == Alloc(s.pool).addr / FRAME_SIZE
  {
    hide Alloc, Sound;
  }

  lemma {:induction false} AddTablesMap(s: Space, total: nat, m: Image, n: nat)
    requires Tidy(s) && TestBit(s.pool.bits, 0) && n <= 256 && n <= Available(s.pool)
    requires Absent(s, KERNEL_ENTRY) && forall page :: 0 <= page < PAGES ==> Translate(s, page) == None
    ensures var s' := AddTables(s, total, m, n);
            && Tidy(s') && TestBit(s'.pool.bits, 0) && Available(s'.pool) == Available(s.pool) - n
            && Absent(s', KERNEL_ENTRY + n)
            && forall page :: 0 <= page < PAGES ==> Translate(s', page) == Direct(total, m, n, page)
  {
    hide Tidy, TestBit, Available, Alloc, WithTable, Translate, Filled;
    TidyFormed(s);
    if n > 0 {
      AddTablesMap(s, total, m, n - 1);
      var s1, d := AddTables(s, total, m, n - 1), KERNEL_ENTRY + (n - 1);
      AllocAvailable(s1.pool);
      WithTableTidy(s1, d);
      WithTableDir(s1, d);
      FilledTidy(WithTable(s1, d), n - 1, total, m);
    }
  }

  lemma {:induction false} AddTablesRefused(s: Space, total: nat, m: Image, n: nat)
    requires Formed(s) && TestBit(s.pool.bits, 0) && n <= 256 && n > Available(s.pool)
    requires Absent(s, KERNEL_ENTRY)
    ensures PagingRuns.NullTable(AddTables(s, total, m, n))
  {
    hide TestBit, Available, Alloc, WithTable, Filled;
    if n - 1 > Available(s.pool) {
      AddTablesRefused(s, total, m, n - 1);
      AddTablesCost(s, total, m, n - 1);
      var s1, d := AddTables(s, total, m, n - 1), KERNEL_ENTRY + (n - 1);
      WithTableDir(s1, d);
      var e :| 0 <= e < ENTRIES && s1.dir[e].present && s1.dir[e].frame == 0;
      assert AddTables(s, total, m, n).dir[e] == s1.dir[e];
    } else {
      AddTableRefused(s, total, m, n);
    }
  }

  /** The first table for which there is no frame is the null one. */
  lemma AddTableRefused(s: Space, total: nat, m: Image, n: nat)
    requires Formed(s) && TestBit(s.pool.bits, 0) && n <= 256 && n == Available(s.pool) + 1
    requires Absent(s, KERNEL_ENTRY)
    ensures PagingRuns.NullTable(AddTables(s, total, m, n))
  {
    hide TestBit, Available, Alloc, Filled;
    AddTablesCost(s, total, m, n - 1);
    var s1, d := AddTables(s, total, m, n - 1), KERNEL_ENTRY + (n - 1);
    AllocAvailable(s1.pool);
    WithTableDir(s1, d);
    assert AddTables(s, total, m, n).dir[d].present && AddTables(s, total, m, n).dir[d].frame == 0;
  }

  lemma {:induction false} AddTablesCost(s: Space, total: nat, m: Image, n: nat)
    requires Formed(s) && TestBit(s.pool.bits, 0) && n <= 256 && Absent(s, KERNEL_ENTRY)
    ensures var s' := AddTables(s, total, m, n);
            && TestBit(s'.pool.bits, 0) && Absent(s', KERNEL_ENTRY + n)
            && Available(s'.pool) == if n <= Available(s.pool) then Available(s.pool) - n else 0
  {
    hide TestBit, Available, Alloc, WithTable, Filled;
    if n > 0 {
      AddTablesCost(s, total, m, n - 1);
      var s1, d := AddTables(s, total, m, n - 1), KERNEL_ENTRY + (n - 1);
      AllocAvailable(s1.pool);
      AllocRefused(s1.pool);
      WithTableDir(s1, d);
    }
  }

  lemma AllocRefused(p: Pool)
    requires Sound(p) && TestBit(p.bits, 0)
    ensures Alloc(p).addr == 0 ==> Alloc(p).pool == p
  {
  }

  lemma EmptyTidy(mem: seq<seq<Entry>>, pool: Pool)
    requires Sound(pool) && TestBit(pool.bits, 0) && |mem| == LOW_FRAMES
    requires forall f {:trigger mem[f]} :: 0 <= f < LOW_FRAMES ==> |mem[f]| == ENTRIES
    ensures var s := Empty(mem, pool);
            && Formed(s) && TestBit(s.pool.bits, 0) && Absent(s, 0)
            && (Tidy(s) <==> Available(pool) > 0)
            && (Available(pool) > 0 ==> Available(s.pool) == Available(pool) - 1)
            && (Available(pool) == 0 ==> s.pool == pool)
            && forall page :: 0 <= page < PAGES ==> Translate(s, page) == None
  {
    hide Count, Available, Sound;
    AllocAvailable(pool);
    AllocLow(pool);
    AllocRefused(pool);
    if Alloc(pool).addr != 0 {
      AllocFresh(pool);
    }
  }

  lemma DirFrameKept(s: Space, total: nat, m: Image, n: nat)
    requires Formed(s) && n <= 256 && s.dirFrame == 0
    ensures !Tidy(AddTables(s, total, m, n))
  {
  }

  /**
    The direct map: with one free frame for the directory and one per table (and only
    then) the tables are in frames of their own, and frame `k` is seen at page
    `0xC0000 + k`, for every frame counted and below 1 GB, read-only exactly if the page starts in
    text or constants; nothing else is mapped.
   */
  lemma StartMaps(mem: seq<seq<Entry>>, pool: Pool, totalKb: u32, m: Image)
    requires Sound(pool) && TestBit(pool.bits, 0) && |mem| == LOW_FRAMES
    requires forall f {:trigger mem[f]} :: 0 <= f < LOW_FRAMES ==> |mem[f]| == ENTRIES
    ensures Formed(Empty(mem, pool))
    ensures Tidy(Start(mem, pool, totalKb, m)) <==> 1 + DirectTables(totalKb) <= Available(pool)
    ensures 1 + DirectTables(totalKb) <= Available(pool) ==> TestBit(Start(mem, pool, totalKb, m).pool.bits, 0)
    ensures 1 + DirectTables(totalKb) <= Available(pool) ==>
              forall page :: 0 <= page < PAGES ==>
                Translate(Start(mem, pool, totalKb, m), page) ==
                  if KERNEL_PAGE <= page && page - KERNEL_PAGE < DirectFrames(totalKb) then Some(Mapping(page - KERNEL_PAGE, !InText(m, page * 4096), true)) else None
  {
    hide Tidy, TestBit, Available, Translate, AddTables, Empty, Sound, DirectFrames, DirectTables, ReadOnly, InText;
    forall f: nat | f < LOW_FRAMES
      ensures KernelPage(m, f) == Mapping(f, !InText(m, (KERNEL_PAGE + f) * 4096), true)
    {
      ReadOnlyIff(m, f);
    }
    EmptyTidy(mem, pool);
    var s, total, n := Empty(mem, pool), DirectFrames(totalKb), DirectTables(totalKb);
    EnoughTables(totalKb);
    if Available(pool) == 0 {
      DirFrameZero(mem, pool);
      DirFrameKept(s, total, m, n);
    } else if n <= Available(s.pool) {
      AddTablesMap(s, total, m, n);
    } else {
      AddTablesRefused(s, total, m, n);
      PagingRuns.NullNotTidy(AddTables(s, total, m, n));
    }
  }

  lemma DirFrameZero(mem: seq<seq<Entry>>, pool: Pool)
    requires Sound(pool) && TestBit(pool.bits, 0) && Available(pool) == 0
    ensures Empty(mem, pool).dirFrame == 0
  {
    AllocAvailable(pool);
  }

  lemma EnoughTables(totalKb: u32)
    ensures DirectTables(totalKb) * ENTRIES >= DirectFrames(totalKb) || DirectTables(totalKb) == 256
  {
  }

  /** Multiplying by 1024 in 32 bits forgets every whole 4 GB: at exactly 4 GB nothing is mapped. */
  lemma DirectFramesIs(totalKb: u32)
    ensures DirectFrames(totalKb) == totalKb % 4194304 / 4
  {
  }

  /** The kernel sees frame `f` at 0xC0000000 plus its address. */
  predicate SeesFrame(s: Space, f: nat)
    requires Formed(s)
  {
    && KERNEL_PAGE + f < PAGES
    && Translate(s, KERNEL_PAGE + f).Some? && Translate(s, KERNEL_PAGE + f).value.frame == f
  }

  /**
    Every frame `alloc_frame` may hand out can be reached at 0xC0000000 plus its address
    exactly when the memory size without its whole 4 GB, which 32 bits forget, still covers them.
   */
  lemma ReachesEveryFrameIff(mem: seq<seq<Entry>>, pool: Pool, totalKb: u32, m: Image)
    requires Sound(pool) && TestBit(pool.bits, 0) && |mem| == LOW_FRAMES
    requires forall f {:trigger mem[f]} :: 0 <= f < LOW_FRAMES ==> |mem[f]| == ENTRIES
    requires 1 + DirectTables(totalKb) <= Available(pool)
    ensures Formed(Empty(mem, pool))
    ensures (forall f :: 0 <= f < SearchLimit(pool) ==> SeesFrame(Start(mem, pool, totalKb, m), f))
            <==> SearchLimit(pool) <= totalKb % 4194304 / 4
  {
    hide Tidy, TestBit, Available, Start, Sound, DirectFrames, DirectTables;
    DirectFramesIs(totalKb);
    StartMaps(mem, pool, totalKb, m);
    var s := Start(mem, pool, totalKb, m);
    if SearchLimit(pool) > DirectFrames(totalKb) {
      var f := DirectFrames(totalKb);
      assert !SeesFrame(s, f);
    } else {
      forall f | 0 <= f < SearchLimit(pool)
        ensures SeesFrame(s, f)
      {
        var page := KERNEL_PAGE + f;
        assert 0 <= page < PAGES && page - KERNEL_PAGE == f;
      }
    }
  }

  /** At exactly 4 GB the size wraps to 0: no frame can be reached. */
  lemma NothingMappedAt4Gb(mem: seq<seq<Entry>>, pool: Pool, m: Image)
    requires Sound(pool) && TestBit(pool.bits, 0) && |mem| == LOW_FRAMES && 0 < Available(pool)
    requires forall f {:trigger mem[f]} :: 0 <= f < LOW_FRAMES ==> |mem[f]| == ENTRIES
    ensures Formed(Empty(mem, pool))
    ensures forall page :: 0 <= page < PAGES ==> Translate(Start(mem, pool, 4194304, m), page) == None
  {
    hide Tidy, TestBit, Available, Start, Sound;
    DirectFramesIs(4194304);
    StartMaps(mem, pool, 4194304, m);
  }
}
