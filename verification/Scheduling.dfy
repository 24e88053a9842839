/**
  Round-robin scheduling over a list of tasks that only grows at its end.
 */
module Scheduling {
  import opened Words

  datatype State = Ready | Running | Sleep | Dead

  datatype Info = Info(id: int, name: seq<byte>, state: State, esp: u32, kstackTop: u32)

  /** The tasks in list order and the place of the current one. */
  datatype Sched = Sched(tasks: seq<Info>, current: nat, nextPid: int, kernelStack: u32)

  /** PID 1 comes first and is never dead; no other task has its number. */
  predicate Sound(s: Sched) {
    && s.current < |s.tasks|
    && s.tasks[0].id == 1 && s.tasks[0].state != Dead && s.nextPid > 1
    && forall i :: 0 < i < |s.tasks| ==> 1 < s.tasks[i].id < s.nextPid
  }

  /** The first task from place `i` that is not dead, or the head of the list. */
  function LiveFrom(tasks: seq<Info>, i: nat): (j: nat)
    requires 0 < |tasks|
    ensures j < |tasks|
    decreases |tasks| - i
  {
    if i >= |tasks| then 0
    else if tasks[i].state != Dead then i
    else LiveFrom(tasks, i + 1)
  }

  /** The choice of `schedule_internal`. */
  function Choice(s: Sched): (n: nat)
    requires Sound(s)
    ensures n < |s.tasks|
  {
    LiveFrom(s.tasks, s.current + 1)
  }

  /** `schedule_internal`: the stack pointer of the task left is kept, that of the task chosen is the answer. */
  function Schedule(s: Sched, esp: u32): (r: (Sched, u32))
    requires Sound(s)
  {
    var n := Choice(s);
    var left := s.tasks[s.current := s.tasks[s.current].(esp := esp)];
    (Sched(left[n := left[n].(state := Running)], n, s.nextPid, left[n].kstackTop), left[n].esp)
  }

  /** The name kept of a task: at most 31 bytes. */
  function NameOf(name: CString): seq<byte> {
    if |name| > 31 then name[..31] else name
  }

  /** `create_task`: appended at the end of the list. */
  function Create(s: Sched, name: CString, esp: u32, kstackTop: u32): Sched {
    s.(tasks := s.tasks + [Info(s.nextPid, NameOf(name), Ready, esp, kstackTop)], nextPid := s.nextPid + 1)
  }

  /** The state change of `task_exit`. */
  function Exit(s: Sched): Sched
    requires Sound(s)
  {
    if s.tasks[s.current].id != 1 then s.(tasks := s.tasks[s.current := s.tasks[s.current].(state := Dead)]) else s
  }

  /** A task put to sleep or woken by other parts of the kernel, which do not look whether it is dead. */
  function Mark(s: Sched, i: nat, state: State): Sched {
    if i < |s.tasks| && state != Dead then s.(tasks := s.tasks[i := s.tasks[i].(state := state)]) else s
  }

  predicate Live(s: Sched, i: nat) {
    i < |s.tasks| && s.tasks[i].state != Dead
  }

  // ----- the choice -----

  lemma {:induction false} LiveFromIs(tasks: seq<Info>, i: nat)
    requires 0 < |tasks| && tasks[0].state != Dead
    ensures var j := LiveFrom(tasks, i);
            && tasks[j].state != Dead
            && (j >= i || (j == 0 && forall k :: i <= k < |tasks| ==> tasks[k].state == Dead))
            && (j >= i ==> forall k :: i <= k < j ==> tasks[k].state == Dead)
    decreases |tasks| - i
  {
    if i < |tasks| && tasks[i].state == Dead {
      LiveFromIs(tasks, i + 1);
    }
  }

  lemma ScheduleSound(s: Sched, esp: u32)
    requires Sound(s)
    ensures Sound(Schedule(s, esp).0)
    ensures forall i :: Live(Schedule(s, esp).0, i) <==> Live(s, i)
  {
    LiveFromIs(s.tasks, s.current + 1);
  }

  /** Place `k` steps further round the list. */
  function Ahead(s: Sched, k: nat): (i: nat)
    requires |s.tasks| > 0
    ensures i < |s.tasks|
  {
    (s.current + k) % |s.tasks|
  }

  lemma AheadIs(s: Sched, k: nat)
    requires s.current < |s.tasks| && k <= |s.tasks|
    ensures Ahead(s, k) == if s.current + k < |s.tasks| then s.current + k else s.current + k - |s.tasks|
  {
    var n := |s.tasks|;
    if s.current + k < n {
      Small(s.current + k, n);
    } else {
      Small(s.current + k - n, n);
      OneRound(s.current + k - n, n);
    }
  }

  lemma Small(x: nat, n: nat)
    requires x < n
    ensures x % n == x
  {
  }

  lemma OneRound(x: nat, n: nat)
    requires x < n
    ensures (x + n) % n == x
  {
    assert (x + n) / n == 1 by { assert n <= x + n < 2 * n; }
  }

  /** The task chosen is the next one round the list that is not dead; the search ends within one round. */
  lemma ChoiceIsNext(s: Sched) returns (k: nat)
    requires Sound(s)
    ensures 1 <= k <= |s.tasks| && Choice(s) == Ahead(s, k) && Live(s, Choice(s))
    ensures forall m :: 1 <= m < k ==> !Live(s, Ahead(s, m))
  {
    var n := Choice(s);
    LiveFromIs(s.tasks, s.current + 1);
    k := if n > s.current then n - s.current else n + |s.tasks| - s.current;
    AheadIs(s, k);
    forall m | 1 <= m < k
      ensures !Live(s, Ahead(s, m))
    {
      AheadIs(s, m);
    }
  }

  // ----- runs -----

  datatype Event = Tick(esp: u32) | Spawn(name: CString, esp: u32, kstackTop: u32) | Leave | Change(i: nat, state: State)

  function Next(s: Sched, v: Event): Sched
    requires Sound(s)
  {
    match v
    case Tick(esp) => Schedule(s, esp).0
    case Spawn(name, esp, kstackTop) => Create(s, name, esp, kstackTop)
    case Leave => Exit(s)
    case Change(i, state) => Mark(s, i, state)
  }

  lemma NextSound(s: Sched, v: Event)
    requires Sound(s)
    ensures Sound(Next(s, v)) && |s.tasks| <= |Next(s, v).tasks|
  {
    if v.Tick? {
      ScheduleSound(s, v.esp);
    }
  }

  function Run(s: Sched, events: seq<Event>): (s': Sched)
    requires Sound(s)
    ensures Sound(s') && |s.tasks| <= |s'.tasks|
    decreases |events|
  {
    if events == [] then s else NextSound(s, events[0]); Run(Next(s, events[0]), events[1..])
  }

  /** The multitasking system just started: the kernel task alone. */
  function Booted(esp: u32, kstackTop: u32): Sched {
    Sched([Info(1, [107, 101, 114, 110, 101, 108], Running, esp, kstackTop)], 0, 2, 0)
  }

  /** At the start the kernel task alone runs, as PID 1, named in ASCII. */
  lemma KernelStarts(esp: u32, kstackTop: u32)
    ensures var s := Booted(esp, kstackTop);
            && |s.tasks| == 1 && s.current == 0 && Live(s, 0) && s.tasks[0].state == Running && s.tasks[0].id == 1
            && |s.tasks[0].name| == |"kernel"| && forall k :: 0 <= k < 6 ==> s.tasks[0].name[k] == "kernel"[k] as int
  {
  }

  /** In every reachable state PID 1 is at the head and alive, so every search ends. */
  lemma ReachableSound(esp: u32, kstackTop: u32, events: seq<Event>)
    ensures Sound(Booted(esp, kstackTop))
    ensures var s := Run(Booted(esp, kstackTop), events);
            Sound(s) && s.tasks[0].id == 1 && Live(s, 0) && Live(s, Choice(s))
  {
    var s := Run(Booted(esp, kstackTop), events);
    LiveFromIs(s.tasks, s.current + 1);
  }

  // ----- what each operation does to the tasks -----

  /** Tasks other than the one at `i` are as they were, and none is missing. */
  predicate OthersKept(s: Sched, s': Sched, i: nat) {
    |s'.tasks| == |s.tasks| && s'.nextPid == s.nextPid && forall j :: 0 <= j < |s.tasks| && j != i ==> s'.tasks[j] == s.tasks[j]
  }

  /**
    A tick: the stack pointer of the task left is saved in it, the task chosen runs on its own kernel stack and
    with the stack pointer it had, or the one just saved if it goes on itself; nothing else of any task changes.
   */
  lemma ScheduleEffect(s: Sched, esp: u32)
    requires Sound(s)
    ensures var (s', answer) := Schedule(s, esp);
            var t, n := s.tasks, Choice(s);
            && s'.current == n && |s'.tasks| == |t| && s'.nextPid == s.nextPid
            && t[n].state != Dead && s'.tasks[n].state == Running && s'.kernelStack == t[n].kstackTop
            && s'.tasks[s.current].esp == esp && answer == s'.tasks[n].esp
            && (forall j :: 0 <= j < |t| ==>
                  && s'.tasks[j].id == t[j].id && s'.tasks[j].name == t[j].name && s'.tasks[j].kstackTop == t[j].kstackTop
                  && (j != s.current ==> s'.tasks[j].esp == t[j].esp)
                  && (j != n ==> s'.tasks[j].state == t[j].state))
  {
    LiveFromIs(s.tasks, s.current + 1);
  }

  /** From the first tick on the kernel stack is always that of the current task. */
  lemma {:induction false} KernelStackFollows(s: Sched, events: seq<Event>)
    requires Sound(s) && s.kernelStack == s.tasks[s.current].kstackTop
    ensures var s' := Run(s, events); s'.kernelStack == s'.tasks[s'.current].kstackTop
    decreases |events|
  {
    if events != [] {
      NextSound(s, events[0]);
      if events[0].Tick? {
        ScheduleEffect(s, events[0].esp);
      }
      KernelStackFollows(Next(s, events[0]), events[1..]);
    }
  }

  /** A new task stands at the end, ready to run, with a number nobody has; the others are as they were. */
  lemma CreateEffect(s: Sched, name: CString, esp: u32, kstackTop: u32)
    requires Sound(s)
    ensures var s', n := Create(s, name, esp, kstackTop), |s.tasks|;
            && |s'.tasks| == n + 1 && s'.tasks[..n] == s.tasks && s'.current == s.current && s'.kernelStack == s.kernelStack
            && Live(s', n) && s'.tasks[n].state == Ready && s'.tasks[n].esp == esp && s'.tasks[n].kstackTop == kstackTop
            && (forall j :: 0 <= j < n ==> s'.tasks[j].id != s'.tasks[n].id)
            && |s'.tasks[n].name| == (if |name| < 31 then |name| else 31) && s'.tasks[n].name <= name
  {
  }

  /** No two tasks ever have the same number. */
  predicate NumbersDiffer(s: Sched) {
    forall i, j :: 0 <= i < j < |s.tasks| ==> s.tasks[i].id != s.tasks[j].id
  }

  lemma {:induction false} NumbersStayDifferent(s: Sched, events: seq<Event>)
    requires Sound(s) && NumbersDiffer(s)
    ensures NumbersDiffer(Run(s, events))
    decreases |events|
  {
    if events != [] {
      NextSound(s, events[0]);
      if events[0].Tick? {
        ScheduleEffect(s, events[0].esp);
      }
      NumbersStayDifferent(Next(s, events[0]), events[1..]);
    }
  }

  /** The current task is dead after its exit, unless it is PID 1, for which nothing happens; no other task changes. */
  lemma ExitEffect(s: Sched)
    requires Sound(s)
    ensures var s' := Exit(s);
            && Sound(s') && OthersKept(s, s', s.current) && s'.current == s.current && s'.kernelStack == s.kernelStack
            && (s.tasks[s.current].id == 1 ==> s' == s)
            && (s.tasks[s.current].id != 1 ==> !Live(s', s.current) && s'.tasks[s.current] == s.tasks[s.current].(state := Dead))
  {
  }

  /** Waking or putting to sleep changes the state of that task and nothing else. */
  lemma MarkEffect(s: Sched, i: nat, state: State)
    requires Sound(s)
    ensures var s' := Mark(s, i, state);
            && OthersKept(s, s', i) && s'.current == s.current && s'.kernelStack == s.kernelStack
            && (i < |s.tasks| ==> s'.tasks[i] == s.tasks[i].(state := if state != Dead then state else s.tasks[i].state))
  {
  }

  /** Nobody marks task `i` in `events`. */
  predicate NeverMarked(events: seq<Event>, i: nat) {
    forall k :: 0 <= k < |events| && events[k].Change? ==> events[k].i != i
  }

  /** A task that is dead stays so and is never chosen, unless somebody marks it. */
  lemma {:induction false} DeadStaysDead(s: Sched, events: seq<Event>, i: nat)
    requires Sound(s) && i < |s.tasks| && s.tasks[i].state == Dead && NeverMarked(events, i)
    ensures var s' := Run(s, events); s'.tasks[i].state == Dead && Choice(s') != i
    decreases |events|
  {
    if events == [] {
      LiveFromIs(s.tasks, s.current + 1);
    } else {
      NextSound(s, events[0]);
      if events[0].Tick? {
        ScheduleEffect(s, events[0].esp);
      }
      assert forall k :: 0 <= k < |events| - 1 ==> events[1..][k] == events[k + 1];
      DeadStaysDead(Next(s, events[0]), events[1..], i);
    }
  }

  /** So a task that has exited never runs again, unless somebody marks it. */
  lemma ExitedNeverRuns(s: Sched, events: seq<Event>)
    requires Sound(s) && s.tasks[s.current].id != 1 && NeverMarked(events, s.current) && Sound(Exit(s))
    ensures Choice(Run(Exit(s), events)) != s.current
  {
    ExitEffect(s);
    DeadStaysDead(Exit(s), events, s.current);
  }

  // ----- a task gets back its stack pointer -----

  /** No tick in `events` leaves task `i`. */
  predicate NeverLeaves(s: Sched, events: seq<Event>, i: nat)
    requires Sound(s)
    decreases |events|
  {
    events == [] || (NextSound(s, events[0]); (events[0].Tick? ==> s.current != i) && NeverLeaves(Next(s, events[0]), events[1..], i))
  }

  lemma {:induction false} EspKept(s: Sched, events: seq<Event>, i: nat)
    requires Sound(s) && i < |s.tasks| && NeverLeaves(s, events, i)
    ensures Run(s, events).tasks[i].esp == s.tasks[i].esp
    decreases |events|
  {
    if events != [] {
      NextSound(s, events[0]);
      EspKept(Next(s, events[0]), events[1..], i);
    }
  }

  /** Whatever happens in between, the first tick that chooses a task again answers the `esp` saved when it was left. */
  lemma ResumesWhereLeft(s: Sched, esp: u32, events: seq<Event>, esp': u32)
    requires Sound(s)
    requires Sound(Schedule(s, esp).0) && NeverLeaves(Schedule(s, esp).0, events, s.current)
    requires Run(Schedule(s, esp).0, events).current != s.current
    requires Choice(Run(Schedule(s, esp).0, events)) == s.current
    ensures Schedule(Run(Schedule(s, esp).0, events), esp').1 == esp
  {
    var s1 := Schedule(s, esp).0;
    assert s1.tasks[s.current].esp == esp;
    EspKept(s1, events, s.current);
  }

  /** A new task starts with the stack pointer it was created with. */
  lemma StartsWhereCreated(s: Sched, name: CString, esp: u32, kstackTop: u32, events: seq<Event>, esp': u32)
    requires Sound(s) && Sound(Create(s, name, esp, kstackTop))
    requires NeverLeaves(Create(s, name, esp, kstackTop), events, |s.tasks|)
    requires Run(Create(s, name, esp, kstackTop), events).current != |s.tasks|
    requires Choice(Run(Create(s, name, esp, kstackTop), events)) == |s.tasks|
    ensures Schedule(Run(Create(s, name, esp, kstackTop), events), esp').1 == esp
  {
    var s1 := Create(s, name, esp, kstackTop);
    assert s1.tasks[|s.tasks|].esp == esp;
    EspKept(s1, events, |s.tasks|);
  }
}
