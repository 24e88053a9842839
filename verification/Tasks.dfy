/**
  Tasks as objects in a linked list, their first stack, and the scheduler that walks the list.
 */
module Tasks {
  import opened Words
  import opened Scheduling

  // ----- the first stack of a task -----

  const STACK_SIZE := 4096

  /** What the interrupt exit restores of a task: data segment, instruction, code segment, flags, and for ring 3 its stack. */
  datatype Context = Context(ds: u32, eip: u32, cs: u32, eflags: u32, userEsp: u32, userSs: u32)

  /** The exit path of the interrupt stub: `pop` of ds, `popa`, two words skipped, `iret`. */
  function Restore(words: seq<u32>): Context
    requires |words| >= 14 && (words[12] % 4 == 3 ==> |words| >= 16)
  {
    Context(words[0], words[11], words[12], words[13],
            if words[12] % 4 == 3 then words[14] else 0, if words[12] % 4 == 3 then words[15] else 0)
  }

  class Stack {
    const words: array<u32>
    const base: u32
    var top: nat

    ghost predicate Valid()
      reads this
    {
      words.Length == STACK_SIZE / 4 && top <= words.Length
    }

    constructor (base: u32)
      ensures Valid() && fresh(words) && this.base == base && top == words.Length
    {
      words := new u32[STACK_SIZE / 4](_ => 0);
      this.base := base;
      top := STACK_SIZE / 4;
    }

    ghost function Pushed(): seq<u32>
      reads this, words
      requires Valid()
    {
      words[top..]
    }

    /** `*(--esp) = x`. */
    method Push(x: u32)
      requires Valid() && top > 0
      modifies this`top, words
      ensures Valid() && top == old(top) - 1 && Pushed() == [x] + old(Pushed())
    {
      top := top - 1;
      words[top] := x;
    }

    method PushZeros(n: nat)
      requires Valid() && top >= n
      modifies this`top, words
      ensures Valid() && top == old(top) - n && Pushed() == seq(n, _ => 0) + old(Pushed())
    {
      ghost var was := Pushed();
      for i := 0 to n
        invariant Valid() && top == old(top) - i && Pushed() == seq(i, _ => 0) + was
      {
        Push(0);
        assert [0] + (seq(i, _ => 0) + was) == seq(i + 1, _ => 0) + was;
      }
    }

    /** The stack `create_task` prepares. */
    method Prepare(entry: u32, isUser: bool) returns (esp: u32)
      requires Valid() && top == words.Length && base + STACK_SIZE < TWO32
      modifies this`top, words
      ensures Valid() && esp == base + 4 * top
      ensures Pushed() == FirstFrame(entry, isUser, base + STACK_SIZE)
    {
      if isUser {
        Push(0x23);
        Push(base + STACK_SIZE);
        assert Pushed() == [base + STACK_SIZE, 0x23];
      }
      ghost var user := Pushed();
      assert user == if isUser then [base + STACK_SIZE, 0x23] else [];
      Push(0x202);
      Push(if isUser then 0x1B else 0x08);
      Push(entry);
      PushZeros(10);
      Push(if isUser then 0x23 else 0x10);
      FrameIs(entry, isUser, base + STACK_SIZE, user);
      return base + 4 * top;
    }
  }

  /** The words of the first stack, lowest first: data segment, eight registers, number and error code, and what `iret` takes. */
  function FirstFrame(entry: u32, isUser: bool, stackEnd: u32): (f: seq<u32>)
    ensures |f| == (if isUser then 16 else 14)
  {
    [if isUser then 0x23 else 0x10] + seq(10, _ => 0) + [entry, if isUser then 0x1B else 0x08, 0x202]
    + if isUser then [stackEnd, 0x23] else []
  }

  /** The frame as the pushes leave it, one word before the other. */
  lemma FrameIs(entry: u32, isUser: bool, stackEnd: u32, user: seq<u32>)
    requires user == if isUser then [stackEnd, 0x23] else []
    ensures [if isUser then 0x23 else 0x10] + (seq(10, _ => 0) + ([entry] + ([if isUser then 0x1B else 0x08] + ([0x202] + user))))
            == FirstFrame(entry, isUser, stackEnd)
  {
    var zeros: seq<u32> := seq(10, _ => 0);
    var cs: u32 := if isUser then 0x1B else 0x08;
    assert [entry] + ([cs] + ([0x202] + user)) == [entry, cs, 0x202] + user;
    assert zeros + ([entry, cs, 0x202] + user) == zeros + [entry, cs, 0x202] + user;
  }

  /** Restoring from the first stack enters the program in its ring, with interrupts on. */
  lemma FirstFrameRestores(entry: u32, isUser: bool, stackEnd: u32)
    ensures var f := FirstFrame(entry, isUser, stackEnd);
            && (f[12] % 4 == 3 <==> isUser)
            && Restore(f) == if isUser then Context(0x23, entry, 0x1B, 0x202, stackEnd, 0x23)
                             else Context(0x10, entry, 0x08, 0x202, 0, 0)
  {
  }

  // ----- the list -----

  class Task {
    const id: int
    const name: seq<byte>
    var state: State
    var esp: u32
    const kstackTop: u32
    var next: Task?

    ghost function Value(): (i: Info)
      reads this
    {
      Info(id, name, state, esp, kstackTop)
    }

    constructor (id: int, name: seq<byte>, state: State, esp: u32, kstackTop: u32)
      ensures Value() == Info(id, name, state, esp, kstackTop) && next == null
    {
      this.id, this.name, this.state, this.esp, this.kstackTop, next := id, name, state, esp, kstackTop, null;
    }
  }

  /** The tasks are linked in this order. */
  ghost predicate Linked(tasks: seq<Task>)
    reads tasks
  {
    && (forall i, j :: 0 <= i < j < |tasks| ==> tasks[i] != tasks[j])
    && (forall i {:trigger tasks[i].next} :: 0 <= i < |tasks| ==> tasks[i].next == if i + 1 < |tasks| then tasks[i + 1] else null)
  }

  ghost function Values(tasks: seq<Task>): (v: seq<Info>)
    reads tasks
    ensures |v| == |tasks|
  {
    seq(|tasks|, i requires 0 <= i < |tasks| reads tasks => tasks[i].Value())
  }

  class Scheduler {
    var currentTask: Task?
    var taskList: Task?
    var nextPid: int
    var kernelStack: u32
    ghost var tasks: seq<Task>
    ghost var place: nat

    ghost predicate Valid()
      reads this, tasks
    {
      && Linked(tasks)
      && (tasks == [] ==> currentTask == null && taskList == null)
      && (tasks != [] ==> taskList == tasks[0] && place < |tasks| && currentTask == tasks[place])
    }

    ghost function Contents(): (s: Sched)
      reads this, tasks
    {
      Sched(Values(tasks), place, nextPid, kernelStack)
    }

    constructor ()
      ensures Valid() && tasks == [] && nextPid == 1 && kernelStack == 0
    {
      currentTask, taskList, nextPid, kernelStack := null, null, 1, 0;
      tasks, place := [], 0;
    }

    /** `init_multitasking`, once. */
    method Init(esp: u32, stackTop: u32)
      requires Valid() && tasks == [] && nextPid == 1 && kernelStack == 0
      modifies this
      ensures Valid() && Contents() == Booted(esp, stackTop)
    {
      currentTask := new Task(nextPid, [107, 101, 114, 110, 101, 108], Running, esp, stackTop);
      nextPid := nextPid + 1;
      taskList := currentTask;
      tasks, place := [currentTask], 0;
      assert Values(tasks) == Booted(esp, stackTop).tasks;
    }

    /** The walk to the end of the list. */
    method Last() returns (t: Task)
      requires Valid() && tasks != []
      ensures t == tasks[|tasks| - 1]
    {
      t := taskList;
      ghost var i: nat := 0;
      while t.next != null
        invariant i < |tasks| && t == tasks[i]
        decreases |tasks| - i
      {
        t := t.next;
        i := i + 1;
      }
    }

    /** A task linked behind the last one. */
    method Append(t: Task)
      requires Valid() && tasks != [] && t !in tasks && t.next == null
      modifies this`tasks, tasks
      ensures Valid() && tasks == old(tasks) + [t]
      ensures Values(tasks) == old(Values(tasks)) + [old(t.Value())]
    {
      var last := Last();
      ghost var was := Values(tasks);
      last.next := t;
      tasks := tasks + [t];
      assert Values(tasks) == was + [t.Value()];
    }

    /** `create_task`, with the stack pointer and the kernel stack it prepared. */
    method CreateTask(name: CString, esp: u32, kstackTop: u32) returns (t: Task)
      requires Valid() && tasks != []
      modifies this`nextPid, this`tasks, tasks
      ensures Valid() && fresh(t) && tasks == old(tasks) + [t]
      ensures Contents() == Create(old(Contents()), name, esp, kstackTop)
    {
      hide Linked, NameOf;
      t := new Task(nextPid, NameOf(name), Ready, esp, kstackTop);
      assert Values(tasks) == old(Values(tasks));
      nextPid := nextPid + 1;
      Append(t);
    }

    /** The search loop of `schedule_internal`, starting behind the current task. */
    method Search() returns (next: Task, ghost n: nat)
      requires Valid() && tasks != [] && Sound(Contents())
      ensures n == Choice(Contents()) && next == tasks[n]
    {
      var t: Task? := currentTask.next;
      ghost var i: nat := place + 1;
      ghost var v := Values(tasks);
      while true
        invariant i <= |tasks| && t == if i < |tasks| then tasks[i] else null
        invariant LiveFrom(v, i) == Choice(Contents())
        decreases |tasks| - i
      {
        if t == null {
          t, i := taskList, 0;
          assert v[0].state != Dead;
          return t, 0;
        }
        if t.state != Dead {
          assert v[i].state != Dead;
          return t, i;
        }
        t, i := t.next, i + 1;
      }
    }

    method SaveEsp(esp: u32)
      requires Valid() && tasks != []
      modifies tasks
      ensures Valid()
      ensures var s := old(Contents()); Contents() == s.(tasks := s.tasks[place := s.tasks[place].(esp := esp)])
    {
      currentTask.esp := esp;
      ghost var v := old(Values(tasks));
      assert Values(tasks) == v[place := v[place].(esp := esp)];
    }

    method SwitchTo(next: Task, ghost n: nat)
      requires Valid() && n < |tasks| && next == tasks[n]
      modifies this`currentTask, this`kernelStack, this`place, tasks
      ensures Valid() && tasks == old(tasks) && currentTask == next && next.esp == old(next.esp)
      ensures var s := old(Contents());
              Contents() == Sched(s.tasks[n := s.tasks[n].(state := Running)], n, s.nextPid, s.tasks[n].kstackTop)
    {
      currentTask, place := next, n;
      currentTask.state := Running;
      kernelStack := currentTask.kstackTop;
      ghost var v := old(Values(tasks));
      assert Values(tasks) == v[n := v[n].(state := Running)];
    }

    /** `schedule_internal`. */
    method ScheduleInternal(esp: u32) returns (r: u32)
      requires Valid() && (tasks != [] ==> Sound(Contents()))
      modifies this`currentTask, this`kernelStack, this`place, tasks
      ensures Valid() && tasks == old(tasks)
      ensures if tasks == [] then r == esp else (Contents(), r) == Schedule(old(Contents()), esp)
    {
      hide LiveFrom, Choice, Sound, Linked;
      if currentTask == null {
        return esp;
      }
      ghost var s := Contents();
      SaveEsp(esp);
      SameChoice(s, s.tasks[s.current := s.tasks[s.current].(esp := esp)], esp);
      var next;
      ghost var n;
      next, n := Search();
      assert next.esp == Contents().tasks[n].esp;
      SwitchTo(next, n);
      return currentTask.esp;
    }

    /** The state change of `task_exit`. */
    method TaskExit()
      requires Valid() && tasks != [] && Sound(Contents())
      modifies tasks
      ensures Valid() && Contents() == Exit(old(Contents()))
    {
      ghost var s := Contents();
      if currentTask.id != 1 {
        currentTask.state := Dead;
        assert Values(tasks) == s.tasks[place := s.tasks[place].(state := Dead)];
      } else {
        assert Values(tasks) == s.tasks;
      }
    }
  }

  /** Saving the stack pointer does not change the choice. */
  lemma SameChoice(s: Sched, left: seq<Info>, esp: u32)
    requires Sound(s) && left == s.tasks[s.current := s.tasks[s.current].(esp := esp)]
    ensures Sound(s.(tasks := left)) && Choice(s.(tasks := left)) == Choice(s)
  {
    SameLive(s.tasks, left, s.current + 1);
  }

  lemma {:induction false} SameLive(a: seq<Info>, b: seq<Info>, i: nat)
    requires |a| == |b| > 0 && forall k :: 0 <= k < |a| ==> a[k].state == b[k].state
    ensures LiveFrom(a, i) == LiveFrom(b, i)
    decreases |a| - i
  {
    if i < |a| && a[i].state == Dead {
      SameLive(a, b, i + 1);
    }
  }
}
