/**
  Physical memory: which frames are in use, who may be given one, and what stays true
  while frames are borrowed and given back.
 */
module Frames {
  import opened Words
  import opened Bitmaps

  const MAX_FRAMES := 1048576
  const FRAME_SIZE := 4096
  const LOW_FRAMES := 262144
  const RESERVED := 256

  datatype Pool = Pool(bits: seq<byte>, total: nat, used: nat)

  /** The counter is the number of frames in use. */
  predicate Sound(p: Pool) {
    8 * |p.bits| == MAX_FRAMES && p.total <= MAX_FRAMES && p.used == Count(p.bits, p.total, true)
  }

  predicate InUse(p: Pool, f: nat)
    requires 8 * |p.bits| == MAX_FRAMES
  {
    f < MAX_FRAMES && TestBit(p.bits, f)
  }

  // ----- single frames -----

  /** The lowest clear bit in `from .. limit`, or `limit`. */
  function FirstClear(bits: seq<byte>, from: nat, limit: nat): (f: nat)
    requires from <= limit <= 8 * |bits|
    ensures from <= f <= limit
    ensures f < limit ==> !TestBit(bits, f)
    ensures forall g :: from <= g < f ==> TestBit(bits, g)
    decreases limit - from
  {
    if from == limit || !TestBit(bits, from) then from else FirstClear(bits, from + 1, limit)
  }

  function SearchLimit(p: Pool): nat {
    if p.total > LOW_FRAMES then LOW_FRAMES else p.total
  }

  /** A pool and the address handed out, 0 for none. */
  datatype Grant = Grant(pool: Pool, addr: nat)

  function Take(p: Pool, f: nat): (p': Pool)
    requires f < 8 * |p.bits|
  {
    p.(bits := PutBit(p.bits, f, true), used := p.used + 1)
  }

  /** `alloc_frame`. */
  function Alloc(p: Pool): Grant
    requires Sound(p)
  {
    var f := FirstClear(p.bits, 0, SearchLimit(p));
    if f < SearchLimit(p) then Grant(Take(p, f), f * FRAME_SIZE) else Grant(p, 0)
  }

  /** `free_frame`. */
  function Free(p: Pool, addr: u32): Pool
    requires Sound(p)
  {
    var f := addr / FRAME_SIZE;
    if f < p.total && TestBit(p.bits, f) then
      CountPositive(p.bits, f, p.total, true);
      p.(bits := PutBit(p.bits, f, false), used := p.used - 1)
    else p
  }

  lemma TakeSound(p: Pool, f: nat)
    requires Sound(p) && f < p.total && !TestBit(p.bits, f)
    ensures Sound(Take(p, f))
    ensures forall g :: 0 <= g < MAX_FRAMES ==> (TestBit(Take(p, f).bits, g) <==> g == f || TestBit(p.bits, g))
  {
    CountPut(p.bits, f, true, p.total);
    PutBitOnly(p.bits, f, true);
  }

  lemma FreeSound(p: Pool, addr: u32)
    requires Sound(p)
    ensures Sound(Free(p, addr)) && Free(p, addr).total == p.total
    ensures forall g :: 0 <= g < MAX_FRAMES ==>
              (TestBit(Free(p, addr).bits, g) <==> TestBit(p.bits, g) && !(g == addr / FRAME_SIZE && g < p.total))
  {
    var f := addr / FRAME_SIZE;
    if f < p.total && TestBit(p.bits, f) {
      CountPut(p.bits, f, false, p.total);
      PutBitOnly(p.bits, f, false);
    }
  }

  /** A frame given back is as if it had never been taken. */
  lemma FreeUndoesAlloc(p: Pool)
    requires Sound(p) && Alloc(p).addr != 0
    ensures var g := Alloc(p);
            && Sound(g.pool) && Free(g.pool, g.addr).used == p.used
            && forall f :: 0 <= f < MAX_FRAMES ==> (TestBit(Free(g.pool, g.addr).bits, f) <==> TestBit(p.bits, f))
  {
    hide Take;
    var f := FirstClear(p.bits, 0, SearchLimit(p));
    TakeSound(p, f);
    var q := Alloc(p).pool;
    assert q.total == p.total by { TakeTotal(p, f); }
    FreeSound(q, f * FRAME_SIZE);
    var r := Free(q, f * FRAME_SIZE);
    CountSame(r.bits, p.bits, p.total, true);
  }

  lemma TakeTotal(p: Pool, f: nat)
    requires f < 8 * |p.bits|
    ensures Take(p, f).total == p.total
  {
  }

  // ----- contiguous frames -----

  /** `count` clear frames from `start`. */
  predicate ClearRun(p: Pool, start: nat, count: nat)
    requires 8 * |p.bits| == MAX_FRAMES && p.total <= MAX_FRAMES
  {
    start + count <= p.total && forall f :: start <= f < start + count ==> !TestBit(p.bits, f)
  }

  /** `count` frames from `start` taken, one after the other. */
  function TakeRun(p: Pool, start: nat, count: nat): (p': Pool)
    requires start + count <= 8 * |p.bits|
    ensures |p'.bits| == |p.bits| && p'.total == p.total
  {
    if count == 0 then p else Take(TakeRun(p, start, count - 1), start + count - 1)
  }

  lemma {:induction false} TakeRunSound(p: Pool, start: nat, count: nat)
    requires Sound(p) && ClearRun(p, start, count)
    ensures Sound(TakeRun(p, start, count))
    ensures forall g :: 0 <= g < MAX_FRAMES ==>
              (TestBit(TakeRun(p, start, count).bits, g) <==> start <= g < start + count || TestBit(p.bits, g))
  {
    hide Take;
    if count > 0 {
      TakeRunSound(p, start, count - 1);
      TakeSound(TakeRun(p, start, count - 1), start + count - 1);
    }
  }

  /** What `alloc_contiguous_frames` may answer: the lowest run of `count` frames, or 0 when there is none. */
  predicate Granted(p: Pool, count: int, g: Grant)
    requires Sound(p)
  {
    if g.pool == p then
      g.addr == 0 && (count <= 0 || forall s :: 0 <= s < p.total ==> !ClearRun(p, s, count))
    else
      && count > 0 && g.addr % FRAME_SIZE == 0
      && ClearRun(p, g.addr / FRAME_SIZE, count)
      && (forall s :: 0 <= s < g.addr / FRAME_SIZE ==> !ClearRun(p, s, count))
      && g.pool == TakeRun(p, g.addr / FRAME_SIZE, count)
  }

  // ----- the start -----

  /** An entry of the memory map. */
  datatype Region = Region(available: bool, baseHigh: u32, base: u32, length: u32)

  /** What the boot loader says: whether the sizes and the map are there, the sizes in KB, the map. */
  datatype BootInfo = BootInfo(hasSizes: bool, hasMap: bool, lower: u32, upper: u32, regions: seq<Region>)

  function TotalKb(m: BootInfo): u32 {
    if m.hasSizes then Wrap(m.lower + m.upper + 1024) else 0
  }

  function TotalFrames(m: BootInfo): nat {
    if TotalKb(m) / 4 > MAX_FRAMES then MAX_FRAMES else TotalKb(m) / 4
  }

  function RegionStart(r: Region): nat {
    Wrap(r.base + FRAME_SIZE - 1) / FRAME_SIZE
  }

  function RegionEnd(r: Region): nat {
    Wrap(r.base + r.length) / FRAME_SIZE
  }

  /** Frame `f` lies wholly in an available region below 4 GB. */
  predicate InRegion(r: Region, f: nat) {
    r.available && r.baseHigh == 0 && RegionStart(r) <= f < RegionEnd(r)
  }

  /** Frame `f` is free for the taking in the map, or, without a map, above 1 MB. */
  predicate Offered(m: BootInfo, f: nat) {
    && f < TotalFrames(m)
    && (if m.hasMap then exists i :: 0 <= i < |m.regions| && InRegion(m.regions[i], f)
        else RESERVED <= f < RESERVED + m.upper / 4)
  }

  /** The frames of the kernel image, given its physical bounds. */
  predicate InKernel(start: u32, end: u32, f: nat) {
    start / FRAME_SIZE <= f < Wrap(end + FRAME_SIZE - 1) / FRAME_SIZE
  }

  /** Frames that nobody may ever be given. */
  predicate Withheld(m: BootInfo, start: u32, end: u32, f: nat) {
    !Offered(m, f) || f < RESERVED || InKernel(start, end, f)
  }

  /** The pool `init_pmm` leaves: exactly the withheld frames are in use. */
  predicate Initial(p: Pool, m: BootInfo, start: u32, end: u32) {
    && Sound(p) && p.total == TotalFrames(m)
    && forall f :: 0 <= f < MAX_FRAMES ==> (TestBit(p.bits, f) <==> Withheld(m, start, end, f))
  }

  /**
    An offered frame of the map lies inside its region exactly when rounding the region's
    start up does not wrap round 4 GB, that is, unless the region starts in the last page.
   */
  lemma OfferedInsideIff(r: Region, f: nat)
    requires InRegion(r, f)
    ensures r.base <= f * FRAME_SIZE && (f + 1) * FRAME_SIZE <= r.base + r.length
            <==> r.base + FRAME_SIZE - 1 < TWO32
  {
  }

  /** Unless its start rounds up or its end lies behind 4 GB, a region offers exactly the frames that lie wholly inside it. */
  lemma InsideIsOffered(r: Region, f: nat)
    requires r.base + FRAME_SIZE - 1 < TWO32 && r.base + r.length < TWO32
    ensures InRegion(r, f) <==> r.available && r.baseHigh == 0 && r.base <= f * FRAME_SIZE && (f + 1) * FRAME_SIZE <= r.base + r.length
  {
    WrapSmall(r.base + FRAME_SIZE - 1);
    WrapSmall(r.base + r.length);
  }

  /** The frames withheld for the kernel are those with a byte of its image in them. */
  lemma KernelFrameIff(start: u32, end: u32, f: nat)
    requires start < end && end + FRAME_SIZE - 1 < TWO32
    ensures InKernel(start, end, f) <==> exists a: nat :: start <= a < end && a / FRAME_SIZE == f
  {
    WrapSmall(end + FRAME_SIZE - 1);
    if InKernel(start, end, f) {
      var a: nat := if start / FRAME_SIZE == f then start else f * FRAME_SIZE;
      assert start <= a < end && a / FRAME_SIZE == f;
    }
  }

  /** A frame is counted exactly when all of it lies within the sizes told, with 1 MB added to both of them. */
  lemma CountedIff(m: BootInfo, f: nat)
    requires m.lower + m.upper + 1024 < TWO32
    ensures f < TotalFrames(m) <==> m.hasSizes && 4 * (f + 1) <= m.lower + m.upper + 1024 && f < MAX_FRAMES
  {
    WrapSmall(m.lower + m.upper + 1024);
  }

  /** Without a map the frames of the memory above 1 MB are offered. */
  lemma OfferedWithoutMapIff(m: BootInfo, f: nat)
    requires !m.hasMap && m.lower + m.upper + 1024 < TWO32
    ensures Offered(m, f) <==> f < TotalFrames(m) && 1024 <= 4 * f && 4 * (f + 1) <= 1024 + m.upper
  {
  }

  /** A frame is withheld exactly when it is not offered, lies below 1 MB, or has a byte of the kernel in it. */
  lemma WithheldIff(m: BootInfo, start: u32, end: u32, f: nat)
    requires start < end && end + FRAME_SIZE - 1 < TWO32
    ensures Withheld(m, start, end, f)
            <==> !Offered(m, f) || f * FRAME_SIZE < 0x10_0000 || exists a: nat :: start <= a < end && a / FRAME_SIZE == f
  {
    hide Offered;
    KernelFrameIff(start, end, f);
  }

  /** A region that starts in the last page and ends behind 4 GB: frame 300, which lies far below it, counts as its own. */
  lemma OffersForeignFrame()
    ensures var r := Region(true, 0, 0xFFFF_F800, 0x20_0800);
            InRegion(r, 300) && !(r.base <= 300 * FRAME_SIZE)
  {
    OfferedInsideIff(Region(true, 0, 0xFFFF_F800, 0x20_0800), 300);
  }

  // ----- clients -----

  datatype Request = One | Several(count: int) | GiveBack(addr: u32)

  /** The pool and the frames out on loan. */
  datatype Ledger = Ledger(pool: Pool, loaned: set<nat>)

  /** `loaned'` is `loaned` with the frames granted, if any. */
  ghost predicate Lent(loaned: set<nat>, addr: nat, count: int, loaned': set<nat>) {
    if addr == 0 then loaned' == loaned
    else forall f: nat :: f in loaned' <==> f in loaned || addr / FRAME_SIZE <= f < addr / FRAME_SIZE + count
  }

  /** A client asks, or gives back a frame it was given. */
  ghost predicate Serves(a: Ledger, r: Request, b: Ledger)
    requires Sound(a.pool)
  {
    match r
    case One =>
      var g := Alloc(a.pool);
      b == if g.addr == 0 then Ledger(g.pool, a.loaned) else Ledger(g.pool, a.loaned + {g.addr / FRAME_SIZE})
    case Several(count) =>
      exists addr: nat :: Granted(a.pool, count, Grant(b.pool, addr)) && Lent(a.loaned, addr, count, b.loaned)
    case GiveBack(addr) =>
      addr / FRAME_SIZE in a.loaned && b == Ledger(Free(a.pool, addr), a.loaned - {addr / FRAME_SIZE})
  }

  /** In use is: withheld from the start, or on loan; and never both. */
  ghost predicate Books(l: Ledger, m: BootInfo, start: u32, end: u32) {
    && Sound(l.pool) && l.pool.total == TotalFrames(m)
    && (forall f :: f in l.loaned ==> f < l.pool.total && !Withheld(m, start, end, f))
    && (forall f :: 0 <= f < MAX_FRAMES ==> (TestBit(l.pool.bits, f) <==> Withheld(m, start, end, f) || f in l.loaned))
  }

  lemma LowFramesInUse(l: Ledger, m: BootInfo, start: u32, end: u32)
    requires Books(l, m, start, end)
    ensures TestBit(l.pool.bits, 0)
  {
  }

  /** One frame: refused exactly when every frame counted and below 1 GB is in use, else the lowest that is not is lent. */
  lemma ServesOne(a: Ledger, b: Ledger, m: BootInfo, start: u32, end: u32)
    requires Books(a, m, start, end) && Serves(a, One, b)
    ensures Books(b, m, start, end)
    ensures Alloc(a.pool).addr == 0 <==> forall f :: 0 <= f < a.pool.total && f < 262144 ==> InUse(a.pool, f)
    ensures Alloc(a.pool).addr != 0 ==>
              var f := Alloc(a.pool).addr / FRAME_SIZE;
              && f !in a.loaned && f * FRAME_SIZE == Alloc(a.pool).addr && f < a.pool.total && f < 262144
              && !InUse(a.pool, f) && (forall g :: 0 <= g < f ==> InUse(a.pool, g))
              && b.loaned == a.loaned + {f}
  {
    hide Withheld, Take, Count;
    LowFramesInUse(a, m, start, end);
    var f := FirstClear(a.pool.bits, 0, SearchLimit(a.pool));
    if f < SearchLimit(a.pool) {
      TakeSound(a.pool, f);
      TakeTotal(a.pool, f);
      assert f > 0 && Alloc(a.pool).addr == f * FRAME_SIZE && Alloc(a.pool).addr / FRAME_SIZE == f;
      assert !InUse(a.pool, f);
    }
  }

  /** Several frames: the lowest run of so many that are free, or none because there is none. */
  lemma ServesSeveral(a: Ledger, count: int, b: Ledger, m: BootInfo, start: u32, end: u32)
    requires Books(a, m, start, end) && Serves(a, Several(count), b)
    ensures Books(b, m, start, end)
    ensures forall f :: f in b.loaned && f !in a.loaned ==> !InUse(a.pool, f)
    ensures b.loaned == a.loaned <==> count <= 0 || forall s :: 0 <= s < a.pool.total ==> !ClearRun(a.pool, s, count)
    ensures b.loaned != a.loaned ==>
              exists s: nat :: && ClearRun(a.pool, s, count) && (forall t :: 0 <= t < s ==> !ClearRun(a.pool, t, count))
                               && forall f: nat :: f in b.loaned <==> f in a.loaned || s <= f < s + count
  {
    hide Withheld, TakeRun, Count;
    LowFramesInUse(a, m, start, end);
    var addr: nat :| Granted(a.pool, count, Grant(b.pool, addr)) && Lent(a.loaned, addr, count, b.loaned);
    if b.pool != a.pool {
      var s := addr / FRAME_SIZE;
      TakeRunSound(a.pool, s, count);
      assert !TestBit(a.pool.bits, s);
      assert s in b.loaned && s !in a.loaned;
      assert s < a.pool.total;
    }
  }

  lemma ServesGiveBack(a: Ledger, addr: u32, b: Ledger, m: BootInfo, start: u32, end: u32)
    requires Books(a, m, start, end) && Serves(a, GiveBack(addr), b)
    ensures Books(b, m, start, end)
  {
    hide Withheld, Count;
    FreeSound(a.pool, addr);
  }

  lemma ServesKeepsBooks(a: Ledger, r: Request, b: Ledger, m: BootInfo, start: u32, end: u32)
    requires Books(a, m, start, end) && Serves(a, r, b)
    ensures Books(b, m, start, end)
  {
    hide Books, Serves;
    match r
    case One => ServesOne(a, b, m, start, end);
    case Several(count) => ServesSeveral(a, count, b, m, start, end);
    case GiveBack(addr) => ServesGiveBack(a, addr, b, m, start, end);
  }

  /** A run: each ledger follows from the one before by its request. */
  ghost predicate IsRun(ledgers: seq<Ledger>, requests: seq<Request>) {
    && |ledgers| == |requests| + 1
    && forall i :: 0 <= i < |requests| ==> Sound(ledgers[i].pool) && Serves(ledgers[i], requests[i], ledgers[i + 1])
  }

  lemma {:induction false} RunKeepsBooks(ledgers: seq<Ledger>, requests: seq<Request>, m: BootInfo, start: u32, end: u32, n: nat)
    requires IsRun(ledgers, requests) && n < |ledgers|
    requires Initial(ledgers[0].pool, m, start, end) && ledgers[0].loaned == {}
    ensures Books(ledgers[n], m, start, end)
  {
    hide Withheld;
    if n > 0 {
      RunKeepsBooks(ledgers, requests, m, start, end, n - 1);
      ServesKeepsBooks(ledgers[n - 1], requests[n - 1], ledgers[n], m, start, end);
    }
  }

  /**
    Over every run: frames out on loan are above 1 MB, outside the kernel image, offered by
    the memory map; the counter is the number of frames in use; and a frame is in use exactly when
    it is withheld or on loan.
   */
  lemma LoansAreSafe(ledgers: seq<Ledger>, requests: seq<Request>, m: BootInfo, start: u32, end: u32, n: nat)
    requires IsRun(ledgers, requests) && n < |ledgers|
    requires Initial(ledgers[0].pool, m, start, end) && ledgers[0].loaned == {}
    ensures var l := ledgers[n];
            && (forall f :: f in l.loaned ==> f >= RESERVED && !InKernel(start, end, f) && Offered(m, f))
            && 8 * |l.pool.bits| == MAX_FRAMES && l.pool.total <= MAX_FRAMES
            && l.pool.used == Count(l.pool.bits, l.pool.total, true)
            && (forall f :: 0 <= f < l.pool.total ==> (InUse(l.pool, f) <==> Withheld(m, start, end, f) || f in l.loaned))
  {
    hide Offered, InKernel, Count;
    RunKeepsBooks(ledgers, requests, m, start, end, n);
  }
}
