/**
  The physical memory manager: a bitmap array, the number of frames and the counter.
 */
module Pmm {
  import opened Words
  import opened Bitmaps
  import opened Frames

  class Manager {
    const bitmap: array<byte>
    var totalFrames: nat
    var usedFrames: nat

    ghost function Contents(): (p: Pool)
      reads this, bitmap
    {
      Pool(bitmap[..], totalFrames, usedFrames)
    }

    constructor ()
      ensures fresh(bitmap) && bitmap.Length == MAX_FRAMES / 8 && totalFrames == 0 && usedFrames == 0
    {
      bitmap := new byte[MAX_FRAMES / 8](_ => 0);
      totalFrames, usedFrames := 0, 0;
    }

    method BitmapPut(frame: nat, on: bool)
      requires frame < 8 * bitmap.Length
      modifies bitmap
      ensures bitmap[..] == PutBit(old(bitmap[..]), frame, on)
    {
      bitmap[frame / 8] := BytePut(bitmap[frame / 8], frame % 8, on);
    }

    method BitmapTest(frame: nat) returns (on: bool)
      requires frame < 8 * bitmap.Length
      ensures on <==> TestBit(bitmap[..], frame)
    {
      return WordBit(bitmap[frame / 8], frame % 8);
    }

    /** The frames `from .. to` marked, all the others as they were. */
    method PutRange(from: nat, to: nat, on: bool)
      requires 8 * bitmap.Length == MAX_FRAMES && (from < to ==> to <= MAX_FRAMES)
      modifies bitmap
      ensures forall f :: 0 <= f < MAX_FRAMES ==>
                TestBit(bitmap[..], f) == if from <= f < to then on else TestBit(old(bitmap[..]), f)
    {
      ghost var was := bitmap[..];
      var f := from;
      while f < to
        invariant from <= f && (f <= to || f == from)
        invariant forall g :: 0 <= g < MAX_FRAMES ==> TestBit(bitmap[..], g) == if from <= g < f then on else TestBit(was, g)
      {
        PutBitOnly(bitmap[..], f, on);
        BitmapPut(f, on);
        f := f + 1;
      }
    }

    /** Every byte 0xFF. */
    method FillBitmap()
      requires 8 * bitmap.Length == MAX_FRAMES
      modifies bitmap
      ensures forall f :: 0 <= f < MAX_FRAMES ==> TestBit(bitmap[..], f)
    {
      for i := 0 to bitmap.Length
        invariant forall j :: 0 <= j < i ==> bitmap[j] == 0xFF
      {
        bitmap[i] := 0xFF;
      }
      forall f | 0 <= f < MAX_FRAMES
        ensures TestBit(bitmap[..], f)
      {
        assert Pow2(8) == 256;
        AllOnes(0xFF, 8, f % 8);
      }
    }

    /** The available regions of the memory map, or all above 1 MB. */
    method ClearOffered(m: BootInfo)
      requires 8 * bitmap.Length == MAX_FRAMES && totalFrames == TotalFrames(m)
      requires forall f :: 0 <= f < MAX_FRAMES ==> TestBit(bitmap[..], f)
      modifies bitmap
      ensures forall f :: 0 <= f < MAX_FRAMES ==> (TestBit(bitmap[..], f) <==> !Offered(m, f))
    {
      if m.hasMap {
        for i := 0 to |m.regions|
          invariant forall f :: 0 <= f < MAX_FRAMES ==>
                      (TestBit(bitmap[..], f) <==> !(f < totalFrames && exists k :: 0 <= k < i && InRegion(m.regions[k], f)))
        {
          var r := m.regions[i];
          if r.available && r.baseHigh == 0 {
            var end := RegionEnd(r);
            PutRange(RegionStart(r), if end < totalFrames then end else totalFrames, false);
          }
        }
      } else {
        var end := RESERVED + m.upper / 4;
        PutRange(RESERVED, if end < totalFrames then end else totalFrames, false);
      }
    }

    /** The last loop of `init_pmm`. */
    method CountUsed()
      requires 8 * bitmap.Length == MAX_FRAMES && totalFrames <= MAX_FRAMES
      modifies this`usedFrames
      ensures usedFrames == Count(bitmap[..], totalFrames, true)
    {
      usedFrames := 0;
      for f := 0 to totalFrames
        invariant usedFrames == Count(bitmap[..], f, true)
      {
        var on := BitmapTest(f);
        if on {
          usedFrames := usedFrames + 1;
        }
      }
    }

    /** `init_pmm`, with the physical bounds of the kernel image. */
    method Init(m: BootInfo, start: u32, end: u32)
      requires 8 * bitmap.Length == MAX_FRAMES
      modifies this, bitmap
      ensures Initial(Contents(), m, start, end)
    {
      hide Offered, Count, TestBit;
      FillBitmap();
      totalFrames := TotalFrames(m);
      ClearOffered(m);
      PutRange(0, RESERVED, true);
      var to := Wrap(end + FRAME_SIZE - 1) / FRAME_SIZE;
      ghost var before := bitmap[..];
      PutRange(start / FRAME_SIZE, if to < totalFrames then to else totalFrames, true);
      KernelMarked(before, bitmap[..], m, start, end);
      CountUsed();
    }

    /** `alloc_frame`. */
    method AllocFrame() returns (addr: u32)
      requires Sound(Contents())
      modifies this`usedFrames, bitmap
      ensures var g := Alloc(old(Contents()));
              addr == g.addr && Contents() == g.pool && Sound(Contents())
    {
      hide Count;
      ghost var p := Contents();
      var limit := if totalFrames > LOW_FRAMES then LOW_FRAMES else totalFrames;
      for f := 0 to limit
        invariant Contents() == p
        invariant FirstClear(p.bits, f, limit) == FirstClear(p.bits, 0, limit)
      {
        var on := BitmapTest(f);
        if !on {
          TakeSound(p, f);
          BitmapPut(f, true);
          usedFrames := usedFrames + 1;
          return f * FRAME_SIZE;
        }
      }
      return 0;
    }

    /** The inner loop of `alloc_contiguous_frames`. */
    method TakeFrames(start: nat, count: nat)
      requires Sound(Contents()) && ClearRun(Contents(), start, count)
      modifies this`usedFrames, bitmap
      ensures Contents() == TakeRun(old(Contents()), start, count)
    {
      hide Count;
      for i := 0 to count
        invariant bitmap.Length * 8 == MAX_FRAMES
        invariant Contents() == TakeRun(old(Contents()), start, i)
      {
        BitmapPut(start + i, true);
        usedFrames := usedFrames + 1;
      }
    }

    /** `alloc_contiguous_frames`. */
    method AllocContiguous(count: int) returns (addr: u32)
      requires Sound(Contents())
      modifies this`usedFrames, bitmap
      ensures Granted(old(Contents()), count, Grant(Contents(), addr)) && Sound(Contents())
    {
      hide Count, TestBit, TakeRun;
      ghost var p := Contents();
      var current, start: nat := 0, 0;
      for f := 0 to totalFrames
        invariant Contents() == p
        invariant current <= f && (current > 0 ==> start == f - current && (count <= 0 || current < count))
        invariant forall g :: f - current <= g < f ==> !TestBit(p.bits, g)
        invariant count > 0 ==> forall s :: 0 <= s < f - current ==> !ClearRun(p, s, count)
      {
        var on := BitmapTest(f);
        if !on {
          if current == 0 {
            start := f;
          }
          current := current + 1;
          if current == count {
            TakeRunSound(p, start, count);
            TakeFrames(start, count);
            assert Contents() != p by { Took(p, start, count); }
            return start * FRAME_SIZE;
          }
        } else {
          current := 0;
          assert count > 0 ==> forall s: nat :: f - count < s <= f ==> !ClearRun(p, s, count);
          assert count > 0 ==> forall s :: 0 <= s <= f ==> !ClearRun(p, s, count);
        }
      }
      return 0;
    }

    /** `free_frame`. */
    method FreeFrame(addr: u32)
      requires Sound(Contents())
      modifies this`usedFrames, bitmap
      ensures Contents() == Free(old(Contents()), addr) && Sound(Contents())
    {
      hide Count;
      ghost var p := Contents();
      FreeSound(p, addr);
      var frame := addr / FRAME_SIZE;
      if frame < totalFrames {
        var on := BitmapTest(frame);
        if on {
          CountPositive(p.bits, frame, p.total, true);
          BitmapPut(frame, false);
          usedFrames := usedFrames - 1;
        }
      }
    }
  }

  lemma {:induction false} AllOnes(x: nat, w: nat, k: nat)
    requires k < w && x + 1 == Pow2(w)
    ensures WordBit(x, k)
  {
    var half := Pow2(w - 1);
    assert x == 2 * (half - 1) + 1;
    HalfOf(x, half - 1);
    if k > 0 {
      AllOnes(x / 2, w - 1, k - 1);
    }
  }

  lemma HalfOf(x: nat, y: int)
    requires x == 2 * y + 1
    ensures x / 2 == y && x % 2 == 1
  {
  }

  lemma KernelMarked(before: seq<byte>, after: seq<byte>, m: BootInfo, start: u32, end: u32)
    requires 8 * |before| == MAX_FRAMES == 8 * |after|
    requires forall f :: 0 <= f < MAX_FRAMES ==> (TestBit(before, f) <==> f < RESERVED || !Offered(m, f))
    requires var to := Wrap(end + FRAME_SIZE - 1) / FRAME_SIZE;
             forall f :: 0 <= f < MAX_FRAMES ==>
               TestBit(after, f) == if start / FRAME_SIZE <= f < (if to < TotalFrames(m) then to else TotalFrames(m)) then true else TestBit(before, f)
    ensures forall f :: 0 <= f < MAX_FRAMES ==> (TestBit(after, f) <==> Withheld(m, start, end, f))
  {
    hide TestBit;
  }

  lemma Took(p: Pool, start: nat, count: nat)
    requires Sound(p) && ClearRun(p, start, count) && count > 0
    ensures TakeRun(p, start, count) != p
  {
    TakeRunSound(p, start, count);
    assert !TestBit(p.bits, start);
    assert TestBit(TakeRun(p, start, count).bits, start);
  }
}
