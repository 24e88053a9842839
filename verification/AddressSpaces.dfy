/**
  Paging as objects: the directory, physical memory page by page, and the frame manager.
 */
module AddressSpaces {
  import opened Words
  import opened Frames
  import opened Paging
  import opened PagingInit
  import Pmm
  import S = Sbrk

  class Task {
    var heapEnd: u32

    constructor (end: u32)
      ensures heapEnd == end
    {
      heapEnd := end;
    }
  }

  class AddressSpace {
    const dir: array<Entry>
    var dirFrame: nat
    const mem: array<seq<Entry>>
    const manager: Pmm.Manager

    ghost function Contents(): Space
      reads this, dir, mem, manager, manager.bitmap
    {
      Space(dir[..], dirFrame, mem[..], manager.Contents())
    }

    /** Physical memory has 1 GB of pages, the manager is set up. */
    ghost predicate Ready()
      reads this, mem, manager, manager.bitmap
    {
      && dir.Length == ENTRIES && mem.Length == LOW_FRAMES && Sound(manager.Contents())
      && forall f {:trigger mem[f]} :: 0 <= f < LOW_FRAMES ==> |mem[f]| == ENTRIES
    }

    constructor (manager: Pmm.Manager)
      ensures this.manager == manager && fresh(dir) && fresh(mem)
      ensures dir.Length == ENTRIES && mem.Length == LOW_FRAMES
      ensures forall f {:trigger mem[f]} :: 0 <= f < LOW_FRAMES ==> |mem[f]| == ENTRIES
    {
      dir := new Entry[ENTRIES](_ => NoEntry);
      dirFrame := 0;
      mem := new seq<Entry>[LOW_FRAMES](_ => seq(ENTRIES, _ => NoEntry));
      this.manager := manager;
    }

    /** The loop that marks every entry of a new table absent. */
    method ClearTable(f: nat)
      requires f < mem.Length && |mem[f]| == ENTRIES
      modifies mem
      ensures mem[..] == old(mem[..])[f := Cleared(old(mem[f]))]
    {
      ghost var was := mem[f];
      for j := 0 to ENTRIES
        invariant |mem[f]| == ENTRIES
        invariant forall k :: 0 <= k < ENTRIES ==> mem[f][k] == if k < j then was[k].(present := false) else was[k]
        invariant forall g :: 0 <= g < mem.Length && g != f ==> mem[g] == old(mem[g])
      {
        mem[f] := mem[f][j := mem[f][j].(present := false)];
      }
      assert mem[f] == Cleared(was);
    }

    /** The table for directory entry `d`, made when it is missing. */
    method FindTable(d: nat) returns (f: nat)
      requires Ready() && Formed(Contents()) && d < ENTRIES
      modifies dir, mem, manager`usedFrames, manager.bitmap
      ensures Ready() && Formed(Contents())
      ensures Contents() == WithTable(old(Contents()), d) && f == Contents().dir[d].frame
    {
      hide Alloc, Sound, Cleared;
      if dir[d].present {
        return dir[d].frame;
      }
      AllocLow(manager.Contents());
      var addr := manager.AllocFrame();
      f := addr / FRAME_SIZE;
      ClearTable(f);
      dir[d] := Entry(true, true, true, f);
    }

    /** One page of `paging_map_memory`. */
    method MapOne(p: u32, v: u32)
      requires Ready() && Formed(Contents())
      modifies dir, mem, manager`usedFrames, manager.bitmap
      ensures Ready() && Formed(Contents())
      ensures Contents() == MapPage(old(Contents()), p, v)
    {
      hide WithTable, Alloc, Sound, Wrap;
      var d, t := v / 4194304, v / 4096 % 1024;
      var f := FindTable(d);
      mem[f] := mem[f][t := Entry(true, true, true, p / 4096)];
    }

    /** `paging_map_memory`. */
    method MapMemory(phys: u32, virt: u32, size: u32)
      requires Ready() && Formed(Contents())
      modifies dir, mem, manager`usedFrames, manager.bitmap
      ensures Ready() && Formed(Contents())
      ensures Contents() == MapPages(old(Contents()), phys, virt, PageCount(size))
    {
      hide MapPage, Sound, Wrap;
      for i := 0 to Wrap(size + 4095) / 4096
        invariant Ready() && Formed(Contents())
        invariant Contents() == MapPages(old(Contents()), phys, virt, i)
      {
        MapOne(Wrap(phys + i * 4096), Wrap(virt + i * 4096));
      }
    }

    /** One table of `init_paging`. */
    method FillTable(f: nat, i: nat, total: nat, image: Image)
      requires f < mem.Length && |mem[f]| == ENTRIES && i < 256
      modifies mem
      ensures mem[..] == old(mem[..])[f := Filled(old(mem[f]), i, total, image)]
    {
      hide Wrap, ReadOnly;
      ghost var was := mem[f];
      for j := 0 to ENTRIES
        invariant |mem[f]| == ENTRIES
        invariant forall k :: 0 <= k < ENTRIES ==> mem[f][k] == if k < j then Filled(was, i, total, image)[k] else was[k]
        invariant forall g :: 0 <= g < mem.Length && g != f ==> mem[g] == old(mem[g])
      {
        var k := i * ENTRIES + j;
        var e := if k < total then Entry(true, !ReadOnly(image, k), true, k) else mem[f][j].(present := false);
        mem[f] := mem[f][j := e];
      }
      assert mem[f] == Filled(was, i, total, image);
    }

    /** The directory in a frame of its own, every entry absent. */
    method MakeDirectory()
      requires Ready()
      modifies this`dirFrame, dir, manager`usedFrames, manager.bitmap
      ensures Ready() && Formed(Contents())
      ensures Contents() == Empty(old(mem[..]), old(manager.Contents()))
    {
      hide Alloc, Sound;
      AllocLow(manager.Contents());
      var addr := manager.AllocFrame();
      dirFrame := addr / FRAME_SIZE;
      for i := 0 to ENTRIES
        modifies dir
        invariant forall k :: 0 <= k < i ==> dir[k] == NoEntry.(rw := true)
      {
        dir[i] := Entry(false, true, false, 0);
      }
      assert dir[..] == seq(ENTRIES, _ => NoEntry.(rw := true));
    }

    /** One round of the mapping loop: the table is filled before the directory names it. */
    method AddDirectTable(i: nat, total: nat, image: Image)
      requires Ready() && Formed(Contents()) && i < 256 && !dir[KERNEL_ENTRY + i].present
      modifies dir, mem, manager`usedFrames, manager.bitmap
      ensures Ready() && Formed(Contents())
      ensures Contents() == AddTable(old(Contents()), i, total, image)
    {
      hide Alloc, Sound, ReadOnly;
      ghost var was := mem[..];
      AllocLow(manager.Contents());
      var addr := manager.AllocFrame();
      var f := addr / FRAME_SIZE;
      FillTable(f, i, total, image);
      assert Filled(was[f], i, total, image) == Filled(Cleared(was[f]), i, total, image);
      dir[KERNEL_ENTRY + i] := Entry(true, true, true, f);
      assert mem[..] == was[f := Cleared(was[f])][f := Filled(Cleared(was[f]), i, total, image)];
    }

    /** `init_paging`. */
    method InitPaging(totalKb: u32, image: Image)
      requires Ready()
      modifies this`dirFrame, dir, mem, manager`usedFrames, manager.bitmap
      ensures Ready() && Formed(Contents()) && Formed(Empty(old(mem[..]), old(manager.Contents())))
      ensures Contents() == Start(old(mem[..]), old(manager.Contents()), totalKb, image)
    {
      hide Alloc, Sound, AddTable, Wrap;
      MakeDirectory();
      ghost var s := Contents();
      var total := DirectFrames(totalKb);
      var tables := (total + 1023) / 1024;
      var i: nat := 0;
      while i < tables && KERNEL_ENTRY + i < 1024
        invariant i <= 256 && i <= tables
        invariant Ready() && Formed(Contents())
        invariant Contents() == AddTables(s, total, image, i)
        invariant Absent(Contents(), KERNEL_ENTRY + i)
      {
        AddTableAbsent(Contents(), i, total, image);
        AddDirectTable(i, total, image);
        i := i + 1;
      }
    }

    /** `sys_sbrk`; the answer is the old end of the heap. */
    method Sbrk(task: Task, increment: int) returns (r: u32)
      requires Ready() && Formed(Contents())
      modifies task, dir, mem, manager`usedFrames, manager.bitmap
      ensures Ready() && Formed(Contents()) && r == old(task.heapEnd)
      ensures (Contents(), task.heapEnd) == S.Sbrk(old(Contents()), old(task.heapEnd), increment)
    {
      hide Alloc, Sound, MapPages;
      r := task.heapEnd;
      if increment == 0 {
        return;
      }
      var end := Wrap(r + increment);
      var from, to := S.PagesTo(r), S.PagesTo(end);
      var i: nat := from;
      while i < to
        invariant from <= i && (i <= to || i == from)
        invariant Ready() && Formed(Contents())
        invariant Contents() == if from < to then S.GrowPages(old(Contents()), from, i - from) else old(Contents())
      {
        ghost var s := Contents();
        AllocLow(s.pool);
        var frame := manager.AllocFrame();
        assert Contents() == s.(pool := Alloc(s.pool).pool);
        MapMemory(frame, i * 4096, 4096);
        assert Contents() == S.GrowPage(s, i);
        i := i + 1;
      }
      task.heapEnd := end;
    }
  }

  lemma AddTableAbsent(s: Space, i: nat, total: nat, m: Image)
    requires Formed(s) && i < 256 && Absent(s, KERNEL_ENTRY + i)
    ensures Absent(AddTable(s, i, total, m), KERNEL_ENTRY + (i + 1))
  {
    hide Filled;
    WithTableDir(s, KERNEL_ENTRY + i);
  }
}
