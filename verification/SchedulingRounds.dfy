/**
  Fairness of the scheduler: a round visits every live task once, and a waiting task is
  chosen within a bounded number of ticks whatever else happens.
 */
module SchedulingRounds {
  import opened Words
  import opened Scheduling

  // ----- one round -----

  /** The places below `n` whose task is not dead, in order. */
  function LivePlaces(tasks: seq<Info>, n: nat): (l: seq<nat>)
    requires n <= |tasks|
    ensures |l| <= n && forall i :: 0 <= i < |l| ==> l[i] < n && tasks[l[i]].state != Dead
  {
    if n == 0 then []
    else if tasks[n - 1].state != Dead then LivePlaces(tasks, n - 1) + [n - 1]
    else LivePlaces(tasks, n - 1)
  }

  lemma {:induction false} LivePlacesAll(tasks: seq<Info>, n: nat, j: nat)
    requires j < n <= |tasks| && tasks[j].state != Dead
    ensures j in LivePlaces(tasks, n)
  {
    if j < n - 1 {
      LivePlacesAll(tasks, n - 1, j);
    }
  }

  predicate Increasing(l: seq<nat>) {
    forall i, j :: 0 <= i < j < |l| ==> l[i] < l[j]
  }

  lemma {:induction false} LivePlacesSorted(tasks: seq<Info>, n: nat)
    requires n <= |tasks|
    ensures Increasing(LivePlaces(tasks, n))
  {
    if n > 0 {
      LivePlacesSorted(tasks, n - 1);
      var m := LivePlaces(tasks, n - 1);
      assert forall i :: 0 <= i < |m| ==> m[i] < n - 1;
      assert Increasing(m + [n - 1]);
    }
  }

  lemma {:induction false} LivePlacesPrefix(tasks: seq<Info>, m: nat, n: nat)
    requires m <= n <= |tasks|
    ensures |LivePlaces(tasks, m)| <= |LivePlaces(tasks, n)|
    ensures LivePlaces(tasks, n)[..|LivePlaces(tasks, m)|] == LivePlaces(tasks, m)
  {
    if m < n {
      LivePlacesPrefix(tasks, m, n - 1);
    }
  }

  lemma {:induction false} LivePlacesGap(tasks: seq<Info>, i: nat, j: nat)
    requires i <= j <= |tasks| && forall k :: i <= k < j ==> tasks[k].state == Dead
    ensures LivePlaces(tasks, j) == LivePlaces(tasks, i)
  {
    if i < j {
      LivePlacesGap(tasks, i, j - 1);
    }
  }

  lemma {:induction false} LivePlacesSame(s: Sched, s': Sched, n: nat)
    requires n <= |s.tasks| == |s'.tasks| && forall i :: Live(s', i) <==> Live(s, i)
    ensures LivePlaces(s'.tasks, n) == LivePlaces(s.tasks, n)
  {
    if n > 0 {
      LivePlacesSame(s, s', n - 1);
      assert Live(s', n - 1) <==> Live(s, n - 1);
    }
  }

  /** All the live tasks, and how many of them lie no further than the current one. */
  function Everyone(s: Sched): seq<nat> {
    LivePlaces(s.tasks, |s.tasks|)
  }

  function Rank(s: Sched): (p: nat)
    requires Sound(s)
  {
    |LivePlaces(s.tasks, s.current + 1)|
  }

  lemma EveryoneStartsWithHead(s: Sched)
    requires Sound(s)
    ensures Everyone(s) != [] && Everyone(s)[0] == 0 && Rank(s) <= |Everyone(s)|
  {
    LivePlacesPrefix(s.tasks, 1, |s.tasks|);
    LivePlacesPrefix(s.tasks, s.current + 1, |s.tasks|);
    assert LivePlaces(s.tasks, 0) == [];
    assert LivePlaces(s.tasks, 1) == [0];
  }

  /** The choice is the next entry of the list of live tasks, or its first. */
  lemma ChoiceInList(s: Sched, esp: u32)
    requires Sound(s)
    ensures var l, s' := Everyone(s), Schedule(s, esp).0;
            var p := if Rank(s) < |l| then Rank(s) else 0;
            && Rank(s) <= |l| && l != [] && Choice(s) == l[p]
            && Sound(s') && Everyone(s') == l && Rank(s') == p + 1
  {
    hide LivePlaces;
    var l, n, s' := Everyone(s), Choice(s), Schedule(s, esp).0;
    EveryoneStartsWithHead(s);
    ScheduleSound(s, esp);
    LivePlacesSame(s, s', |s.tasks|);
    LivePlacesSame(s, s', n + 1);
    LiveFromIs(s.tasks, s.current + 1);
    ChoiceEnds(s.tasks, n);
    LivePlacesPrefix(s.tasks, n + 1, |s.tasks|);
    if n > s.current {
      LivePlacesGap(s.tasks, s.current + 1, n);
    } else {
      LivePlacesGap(s.tasks, s.current + 1, |s.tasks|);
      NoneBelow(s.tasks);
    }
  }

  lemma NoneBelow(tasks: seq<Info>)
    ensures LivePlaces(tasks, 0) == []
  {
  }

  lemma ChoiceEnds(tasks: seq<Info>, n: nat)
    requires n < |tasks| && tasks[n].state != Dead
    ensures LivePlaces(tasks, n + 1) == LivePlaces(tasks, n) + [n]
  {
  }

  /** The tasks chosen by consecutive ticks. */
  function Chosen(s: Sched, esps: seq<u32>): (c: seq<nat>)
    requires Sound(s)
    ensures |c| == |esps|
    decreases |esps|
  {
    if esps == [] then []
    else
      ScheduleSound(s, esps[0]);
      [Choice(s)] + Chosen(Schedule(s, esps[0]).0, esps[1..])
  }

  /** `n` entries of a list from place `p` on, going on at its start. */
  function Round(l: seq<nat>, p: nat, n: nat): (r: seq<nat>)
    requires p <= |l| && n <= |l|
  {
    if n <= |l| - p then l[p .. p + n] else l[p..] + l[..n - (|l| - p)]
  }

  lemma RoundStep(l: seq<nat>, p: nat, n: nat)
    requires p < |l| && 0 < n <= |l|
    ensures Round(l, p, n) == [l[p]] + Round(l, if p + 1 < |l| then p + 1 else 0, n - 1)
  {
    if p + 1 < |l| {
      assert l[p..] == [l[p]] + l[p + 1..];
      if n <= |l| - p {
        assert l[p .. p + n] == [l[p]] + l[p + 1 .. p + n];
      }
    } else {
      assert l[p..] == [l[p]];
      assert n == 1 ==> l[p .. p + n] == [l[p]];
    }
  }

  lemma {:induction false} ChosenFollowsList(s: Sched, esps: seq<u32>)
    requires Sound(s) && |esps| <= |Everyone(s)|
    ensures Rank(s) <= |Everyone(s)|
    ensures Chosen(s, esps) == Round(Everyone(s), if Rank(s) < |Everyone(s)| then Rank(s) else 0, |esps|)
    decreases |esps|
  {
    hide Everyone, Rank, Schedule, Choice, Round;
    EveryoneStartsWithHead(s);
    var l := Everyone(s);
    var p := if Rank(s) < |l| then Rank(s) else 0;
    if esps != [] {
      ChoiceInList(s, esps[0]);
      ChosenFollowsList(Schedule(s, esps[0]).0, esps[1..]);
      RoundStep(l, p, |esps|);
    } else {
      RoundNone(l, p);
    }
  }

  lemma RoundNone(l: seq<nat>, p: nat)
    requires p <= |l|
    ensures Round(l, p, 0) == []
  {
  }

  /**
    With `k` tasks alive, `k` consecutive calls run each of them exactly once, in list
    order, starting after the current one.
   */
  lemma RoundVisitsEachOnce(s: Sched, esps: seq<u32>)
    requires Sound(s) && |esps| == |Everyone(s)|
    ensures var c := Chosen(s, esps);
            && (forall i :: Live(s, i) <==> i in c)
            && (forall i, j :: 0 <= i < j < |c| ==> c[i] != c[j])
  {
    hide LivePlaces, Chosen, Choice, Schedule;
    var l := Everyone(s);
    ChosenFollowsList(s, esps);
    LivePlacesSorted(s.tasks, |s.tasks|);
    EveryoneStartsWithHead(s);
    var p := if Rank(s) < |l| then Rank(s) else 0;
    assert Chosen(s, esps) == Round(l, p, |l|) == l[p..] + l[..p];
    Rotation(l, p);
    forall i
      ensures Live(s, i) <==> i in l
    {
      if Live(s, i) {
        LivePlacesAll(s.tasks, |s.tasks|, i);
      }
    }
  }

  lemma Rotation(l: seq<nat>, p: nat)
    requires p <= |l| && Increasing(l)
    ensures var c := l[p..] + l[..p];
            && (forall x :: x in c <==> x in l)
            && (forall i, j :: 0 <= i < j < |c| ==> c[i] != c[j])
  {
    assert l == l[..p] + l[p..];
  }

  // ----- bounded waiting -----

  /** Live tasks in the places `lo .. hi`. */
  function CountLive(tasks: seq<Info>, lo: nat, hi: nat): (n: nat)
    requires lo <= hi <= |tasks|
    ensures n <= hi - lo
  {
    if lo == hi then 0 else CountLive(tasks, lo, hi - 1) + (if tasks[hi - 1].state != Dead then 1 else 0)
  }

  lemma {:induction false} CountSplit(tasks: seq<Info>, lo: nat, mid: nat, hi: nat)
    requires lo <= mid <= hi <= |tasks|
    ensures CountLive(tasks, lo, hi) == CountLive(tasks, lo, mid) + CountLive(tasks, mid, hi)
  {
    if mid < hi {
      CountSplit(tasks, lo, mid, hi - 1);
    }
  }

  lemma {:induction false} CountDead(tasks: seq<Info>, lo: nat, hi: nat)
    requires lo <= hi <= |tasks| && forall k :: lo <= k < hi ==> tasks[k].state == Dead
    ensures CountLive(tasks, lo, hi) == 0
  {
    if lo < hi {
      CountDead(tasks, lo, hi - 1);
    }
  }

  lemma CountOne(tasks: seq<Info>, i: nat)
    requires i < |tasks| && tasks[i].state != Dead
    ensures CountLive(tasks, i, i + 1) == 1
  {
    assert CountLive(tasks, i, i) == 0;
  }

  /** Counts where at most place `x` became alive. */
  lemma {:induction false} CountGrows(tasks: seq<Info>, tasks': seq<Info>, lo: nat, hi: nat, x: int)
    requires lo <= hi <= |tasks| && hi <= |tasks'|
    requires forall k :: lo <= k < hi && k != x && tasks'[k].state != Dead ==> tasks[k].state != Dead
    ensures CountLive(tasks', lo, hi) <= CountLive(tasks, lo, hi) + (if lo <= x < hi then 1 else 0)
  {
    if lo < hi {
      CountGrows(tasks, tasks', lo, hi - 1, x);
    }
  }

  /** How many live tasks there are round the list from the current one up to `t`, itself included. */
  function Wait(s: Sched, t: nat): (w: nat)
    requires s.current < |s.tasks| && t < |s.tasks|
  {
    if t > s.current then CountLive(s.tasks, s.current + 1, t + 1)
    else CountLive(s.tasks, s.current + 1, |s.tasks|) + CountLive(s.tasks, 0, t + 1)
  }

  lemma WaitBound(s: Sched, t: nat)
    requires Sound(s) && t < |s.tasks|
    ensures Wait(s, t) <= CountLive(s.tasks, 0, |s.tasks|)
  {
    CountSplit(s.tasks, 0, t + 1, |s.tasks|);
    CountSplit(s.tasks, 0, s.current + 1, |s.tasks|);
    if t > s.current {
      CountSplit(s.tasks, 0, s.current + 1, t + 1);
    } else {
      CountSplit(s.tasks, 0, t + 1, s.current + 1);
    }
  }

  /** Counts do not depend on the stack pointers or on which live state a task is in. */
  lemma {:induction false} CountSame(s: Sched, s': Sched, lo: nat, hi: nat)
    requires lo <= hi <= |s.tasks| == |s'.tasks| && forall i :: Live(s', i) <==> Live(s, i)
    ensures CountLive(s'.tasks, lo, hi) == CountLive(s.tasks, lo, hi)
  {
    if lo < hi {
      CountSame(s, s', lo, hi - 1);
      assert Live(s', hi - 1) <==> Live(s, hi - 1);
    }
  }

  /** The count from the new current task, when another than `t` was chosen. */
  lemma TickCounts(s: Sched, t: nat)
    requires Sound(s) && Live(s, t) && Choice(s) != t
    ensures var n := Choice(s);
            Wait(s, t) == 1 + if t > n then CountLive(s.tasks, n + 1, t + 1)
                              else CountLive(s.tasks, n + 1, |s.tasks|) + CountLive(s.tasks, 0, t + 1)
  {
    hide CountLive;
    var n := Choice(s);
    LiveFromIs(s.tasks, s.current + 1);
    CountOne(s.tasks, n);
    if n > s.current {
      CountDead(s.tasks, s.current + 1, n);
      var hi := if t > s.current then t + 1 else |s.tasks|;
      assert n < hi;
      CountSplit(s.tasks, s.current + 1, n, hi);
      CountSplit(s.tasks, n, n + 1, hi);
    } else {
      CountDead(s.tasks, s.current + 1, |s.tasks|);
      assert t <= s.current;
      CountSplit(s.tasks, 0, n + 1, t + 1);
    }
  }

  /** A tick that chooses another task shortens the wait by one. */
  lemma TickWait(s: Sched, esp: u32, t: nat)
    requires Sound(s) && Live(s, t) && Choice(s) != t
    ensures Sound(Schedule(s, esp).0) && Wait(Schedule(s, esp).0, t) == Wait(s, t) - 1
  {
    hide CountLive, Choice;
    ScheduleSound(s, esp);
    TickCounts(s, t);
    var s', n := Schedule(s, esp).0, Choice(s);
    assert s'.current == n && |s'.tasks| == |s.tasks|;
    if t > n {
      CountSame(s, s', n + 1, t + 1);
    } else {
      CountSame(s, s', n + 1, |s.tasks|);
      CountSame(s, s', 0, t + 1);
    }
  }

  /** The event adds a task to those alive: a new one, or a dead one that is woken. */
  predicate Adds(s: Sched, v: Event) {
    v.Spawn? || (v.Change? && v.state != Dead && v.i < |s.tasks| && s.tasks[v.i].state == Dead)
  }

  /** Every other event lengthens the wait by at most one, and only one that adds a task does. */
  lemma OtherWait(s: Sched, v: Event, t: nat)
    requires Sound(s) && !v.Tick? && t < |s.tasks|
    ensures Sound(Next(s, v)) && |s.tasks| <= |Next(s, v).tasks|
    ensures Wait(Next(s, v), t) <= Wait(s, t) + (if Adds(s, v) then 1 else 0)
  {
    hide CountLive;
    NextSound(s, v);
    var s' := Next(s, v);
    var x := if v.Change? && Adds(s, v) then v.i else -1;
    if t > s.current {
      CountGrows(s.tasks, s'.tasks, s.current + 1, t + 1, x);
    } else {
      CountGrows(s.tasks, s'.tasks, s.current + 1, |s.tasks|, x);
      CountGrows(s.tasks, s'.tasks, 0, t + 1, x);
      CountSplit(s'.tasks, s.current + 1, |s.tasks|, |s'.tasks|);
    }
    LastOne(s, v);
  }

  lemma LastOne(s: Sched, v: Event)
    requires Sound(s) && !v.Tick? && |s.tasks| <= |Next(s, v).tasks|
    ensures CountLive(Next(s, v).tasks, |s.tasks|, |Next(s, v).tasks|) <= if v.Spawn? then 1 else 0
  {
  }

  function Ticks(events: seq<Event>): nat {
    if events == [] then 0 else (if events[0].Tick? then 1 else 0) + Ticks(events[1..])
  }

  /** Tasks added during the run; putting a live task to sleep or waking it adds none. */
  function Additions(s: Sched, events: seq<Event>): nat
    requires Sound(s)
    decreases |events|
  {
    if events == [] then 0
    else
      NextSound(s, events[0]);
      (if Adds(s, events[0]) then 1 else 0) + Additions(Next(s, events[0]), events[1..])
  }

  /** Task `t` is alive at every moment of the run. */
  predicate StaysLive(s: Sched, events: seq<Event>, t: nat)
    requires Sound(s)
    decreases |events|
  {
    Live(s, t) && (events == [] || (NextSound(s, events[0]); StaysLive(Next(s, events[0]), events[1..], t)))
  }

  /** Some tick of the run chooses task `t`. */
  predicate IsChosen(s: Sched, events: seq<Event>, t: nat)
    requires Sound(s)
    decreases |events|
  {
    events != [] &&
    ((events[0].Tick? && Choice(s) == t) || (NextSound(s, events[0]); IsChosen(Next(s, events[0]), events[1..], t)))
  }

  /**
    Bounded waiting: with tasks created, exiting, sleeping and waking in between in any
    way, a task that stays alive is chosen by the time the ticks exceed the live tasks in front of
    it and the tasks added meanwhile.
   */
  lemma {:induction false} BoundedWaiting(s: Sched, events: seq<Event>, t: nat)
    requires Sound(s) && StaysLive(s, events, t)
    requires Ticks(events) > 0 && Ticks(events) >= Wait(s, t) + Additions(s, events)
    ensures IsChosen(s, events, t)
    decreases |events|
  {
    hide Wait, Choice, Schedule, Sound, Live;
    NextSound(s, events[0]);
    assert t < |s.tasks| && s.current < |s.tasks| by { InRange(s, t); }
    if events[0].Tick? {
      if Choice(s) != t {
        TickWait(s, events[0].esp, t);
        var s' := Next(s, events[0]);
        StillWaiting(s', t);
        assert StaysLive(s', events[1..], t);
        BoundedWaiting(s', events[1..], t);
      }
    } else {
      OtherWait(s, events[0], t);
      BoundedWaiting(Next(s, events[0]), events[1..], t);
    }
  }

  lemma InRange(s: Sched, t: nat)
    requires Sound(s) && Live(s, t)
    ensures t < |s.tasks| && s.current < |s.tasks|
  {
  }

  /** A live task is always at least one choice away. */
  lemma StillWaiting(s: Sched, t: nat)
    requires Sound(s) && Live(s, t)
    ensures Wait(s, t) >= 1
  {
    CountOne(s.tasks, t);
    CountSplit(s.tasks, if t > s.current then s.current + 1 else 0, t, t + 1);
  }
}
