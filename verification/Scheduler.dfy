/** The round-robin scheduler as a state machine over ticks, yields, spawns and exits, and its bound on waiting. */
module Scheduler {
  // There are 8 tasks, and a slice is 10 ticks.
  datatype Task = FREE | READY | RUNNING

  datatype State = State(tasks: seq<Task>, current: int, slice: int)

  /** Exactly the current task runs, the others are ready or free, and task 0 is always there. */
  predicate Sound(s: State) {
    && |s.tasks| == 8 && 0 <= s.current < 8 && 0 <= s.slice < 10
    && (forall i :: 0 <= i < 8 ==> (s.tasks[i] == RUNNING <==> i == s.current))
    && s.tasks[0] != FREE
  }

  // ---- picking the next task ----

  /** The k-th task after `from`, going round. */
  function Round(from: int, k: nat): (r: int)
    ensures 0 <= r < 8
  {
    (from + k) % 8
  }

  /** The first ready task after `current` from the k-th on, or `current` if there is none. */
  function PickFrom(tasks: seq<Task>, current: int, k: nat): (r: int)
    requires |tasks| == 8 && 1 <= k <= 9
    decreases 9 - k
  {
    if k == 9 then current
    else if tasks[Round(current, k)] == READY then Round(current, k)
    else PickFrom(tasks, current, k + 1)
  }

  function Pick(tasks: seq<Task>, current: int): int
    requires |tasks| == 8
  {
    PickFrom(tasks, current, 1)
  }

  /** How many places after `current` task w comes. */
  function Distance(current: int, w: int): (d: nat)
    ensures d < 8
  {
    (w - current) % 8
  }

  lemma DistanceOfRound(current: int, w: int, k: nat)
    requires 0 <= current < 8 && 0 <= w < 8 && 1 <= k <= 8
    ensures Round(current, k) == w <==> k == Distance(current, w) || (k == 8 && w == current)
    ensures k < 8 ==> Distance(current, Round(current, k)) == k
  {
  }

  /** A ready task is passed over only for one that comes before it. */
  lemma {:induction false} PickedBefore(tasks: seq<Task>, current: int, w: int, k: nat)
    requires |tasks| == 8 && 0 <= current < 8 && 0 <= w < 8 && tasks[w] == READY && tasks[current] != READY
    requires 1 <= k <= Distance(current, w)
    ensures var next := PickFrom(tasks, current, k);
            && 0 <= next < 8 && tasks[next] == READY && next != current
            && k <= Distance(current, next) <= Distance(current, w)
            && (next != w ==> Distance(current, next) < Distance(current, w))
    decreases 9 - k
  {
    DistanceOfRound(current, w, k);
    if tasks[Round(current, k)] != READY {
      PickedBefore(tasks, current, w, k + 1);
    }
  }

  lemma ReadyIsAhead(tasks: seq<Task>, current: int, w: int)
    requires |tasks| == 8 && 0 <= current < 8 && 0 <= w < 8 && w != current
    ensures Distance(current, w) >= 1
  {
  }

  // ---- the steps ----

  /** The processor goes from the current task to `next`, if that is another one. */
  function Switch(s: State, next: int, slice: int): State
    requires |s.tasks| == 8 && 0 <= s.current < 8 && 0 <= next < 8
  {
    if next == s.current then s
    else
      var t := if s.tasks[s.current] == RUNNING then s.tasks[s.current := READY] else s.tasks;
      State(t[next := RUNNING], next, slice)
  }

  datatype Event = Tick | Yield | Spawn(stack: bool) | Exit

  function FirstFreeFrom(tasks: seq<Task>, i: nat): (k: nat)
    requires i <= |tasks|
    ensures i <= k <= |tasks| && (k < |tasks| ==> tasks[k] == FREE) && forall j :: i <= j < k ==> tasks[j] != FREE
    decreases |tasks| - i
  {
    if i == |tasks| || tasks[i] == FREE then i else FirstFreeFrom(tasks, i + 1)
  }

  lemma PickInRange(tasks: seq<Task>, current: int, k: nat)
    requires |tasks| == 8 && 0 <= current < 8 && 1 <= k <= 9
    ensures 0 <= PickFrom(tasks, current, k) < 8
    decreases 9 - k
  {
  }

  function Step(s: State, e: Event): State
    requires |s.tasks| == 8 && 0 <= s.current < 8
  {
    PickInRange(s.tasks, s.current, 1);
    match e
    case Yield => Switch(s, Pick(s.tasks, s.current), 0)
    case Tick =>
      if s.slice + 1 < 10 then s.(slice := s.slice + 1)
      else Switch(s.(slice := 0), Pick(s.tasks, s.current), 0)
    case Spawn(stack) =>
      var k := FirstFreeFrom(s.tasks, 1);
      if stack && k < 8 then s.(tasks := s.tasks[k := READY]) else s
    case Exit =>
      if s.current == 0 then s
      else
        var t := s.tasks[s.current := FREE];
        PickInRange(t, s.current, 1);
        var next := Pick(t, s.current);
        State(t[next := RUNNING], next, s.slice)
  }

  /** Whichever task runs, there is one to go on with when it ends, and it is not the one that ended. */
  lemma ExitFindsNext(s: State)
    requires Sound(s) && s.current != 0
    ensures var next := Pick(s.tasks[s.current := FREE], s.current);
            0 <= next < 8 && next != s.current && s.tasks[next] == READY
  {
    ReadyIsAhead(s.tasks, s.current, 0);
    PickedBefore(s.tasks[s.current := FREE], s.current, 0, 1);
  }

  lemma {:induction false} PickReady(tasks: seq<Task>, current: int, k: nat)
    requires |tasks| == 8 && 0 <= current < 8 && 1 <= k <= 9
    ensures var next := PickFrom(tasks, current, k); next == current || (0 <= next < 8 && tasks[next] == READY)
    decreases 9 - k
  {
    if k < 9 {
      PickReady(tasks, current, k + 1);
    }
  }

  /** Every step keeps the state sound. */
  lemma StepKeeps(s: State, e: Event)
    requires Sound(s)
    ensures Sound(Step(s, e))
  {
    PickReady(s.tasks, s.current, 1);
    if e.Exit? && s.current != 0 {
      ExitFindsNext(s);
    }
  }

  // ---- what the steps do to the table ----

  /** Task w is ready and not the one that runs. */
  predicate Waiting(s: State, w: int)
    requires |s.tasks| == 8
  {
    0 <= w < 8 && w != s.current && s.tasks[w] == READY
  }

  /** Of the waiting tasks, next is the one that comes first going round. */
  ghost predicate FirstWaiting(s: State, next: int)
    requires |s.tasks| == 8
  {
    Waiting(s, next) && forall w :: Waiting(s, w) ==> Distance(s.current, next) <= Distance(s.current, w)
  }

  /** The processor goes over: the waiting task that comes first going round runs now, the other one is ready. */
  ghost predicate HandsOver(s: State, s': State)
    requires |s.tasks| == 8 && 0 <= s.current < 8
  {
    && FirstWaiting(s, s'.current)
    && s'.tasks == s.tasks[s.current := READY][s'.current := RUNNING]
  }

  lemma {:induction false} NoneReady(tasks: seq<Task>, current: int, k: nat)
    requires |tasks| == 8 && 0 <= current < 8 && 1 <= k <= 9
    requires forall w :: 0 <= w < 8 && w != current ==> tasks[w] != READY
    ensures PickFrom(tasks, current, k) == current
    decreases 9 - k
  {
    if k < 9 {
      NoneReady(tasks, current, k + 1);
    }
  }

  /** The task that is picked when the current one is not ready itself. */
  lemma PickFirst(tasks: seq<Task>, s: State)
    requires |tasks| == |s.tasks| == 8 && 0 <= s.current < 8 && tasks[s.current] != READY
    requires forall w :: 0 <= w < 8 && w != s.current ==> tasks[w] == s.tasks[w]
    ensures if exists w :: Waiting(s, w) then FirstWaiting(s, Pick(tasks, s.current))
            else Pick(tasks, s.current) == s.current
  {
    if w :| Waiting(s, w) {
      forall w | Waiting(s, w)
        ensures Waiting(s, Pick(tasks, s.current))
        ensures Distance(s.current, Pick(tasks, s.current)) <= Distance(s.current, w)
      {
        ReadyIsAhead(tasks, s.current, w);
        PickedBefore(tasks, s.current, w, 1);
      }
    } else {
      NoneWaiting(tasks, s);
    }
  }

  lemma NoneWaiting(tasks: seq<Task>, s: State)
    requires |tasks| == |s.tasks| == 8 && 0 <= s.current < 8 && tasks[s.current] != READY
    requires forall w :: 0 <= w < 8 && w != s.current ==> tasks[w] == s.tasks[w]
    requires !exists w :: Waiting(s, w)
    ensures Pick(tasks, s.current) == s.current
  {
    forall w | 0 <= w < 8 && w != s.current
      ensures tasks[w] != READY
    {
      assert !Waiting(s, w);
    }
    NoneReady(tasks, s.current, 1);
  }

  /** A yield hands over to the next waiting task and starts its slice; without one it does nothing. */
  lemma YieldHandsOver(s: State)
    requires Sound(s)
    ensures var s' := Step(s, Yield);
            if exists w :: Waiting(s, w) then HandsOver(s, s') && s'.slice == 0 else s' == s
  {
    PickFirst(s.tasks, s);
  }

  /** A tick hands over exactly when it is the tenth of the slice and a task is waiting. */
  lemma TickHandsOver(s: State)
    requires Sound(s)
    ensures var s' := Step(s, Tick);
            && s'.slice == (s.slice + 1) % 10
            && (s'.current != s.current <==> s.slice == 9 && exists w :: Waiting(s, w))
            && (if s'.current != s.current then HandsOver(s, s') else s'.tasks == s.tasks)
  {
    PickFirst(s.tasks, s);
  }

  /** An ended task is free, and the waiting task that comes first goes on in its slice. Task 0 does not end. */
  lemma ExitHandsOver(s: State)
    requires Sound(s)
    ensures var s' := Step(s, Exit);
            if s.current == 0 then s' == s
            else && FirstWaiting(s, s'.current) && s'.slice == s.slice
                 && s'.tasks == s.tasks[s.current := FREE][s'.current := RUNNING]
  {
    if s.current != 0 {
      assert Waiting(s, 0);
      PickFirst(s.tasks[s.current := FREE], s);
    }
  }

  // ---- runs ----

  /** The state after the events es. */
  function After(s: State, es: seq<Event>): (r: State)
    requires Sound(s)
    ensures Sound(r)
    decreases |es|
  {
    if es == [] then s
    else
      StepKeeps(s, es[0]);
      After(Step(s, es[0]), es[1..])
  }

  /** w stays ready, and so does not run, from s on through all of es. */
  predicate Waits(s: State, es: seq<Event>, w: int)
    requires Sound(s) && 0 <= w < 8
    decreases |es|
  {
    s.tasks[w] == READY && (es == [] || (StepKeeps(s, es[0]); Waits(Step(s, es[0]), es[1..], w)))
  }

  function Ticks(es: seq<Event>): nat {
    if es == [] then 0 else (if es[0].Tick? then 1 else 0) + Ticks(es[1..])
  }

  function Switches(s: State, es: seq<Event>): nat
    requires Sound(s)
    decreases |es|
  {
    if es == [] then 0
    else
      StepKeeps(s, es[0]);
      var s' := Step(s, es[0]);
      (if s'.current != s.current then 1 else 0) + Switches(s', es[1..])
  }

  /** At most so many ticks before w runs. */
  function Patience(s: State, w: int): int {
    10 * (Distance(s.current, w) - 1) + (10 - s.slice)
  }

  /** A waiting task comes nearer with every switch and every tick. */
  lemma StepNearer(s: State, e: Event, w: int)
    requires Sound(s) && 0 <= w < 8 && s.tasks[w] == READY && Step(s, e).tasks[w] == READY
    ensures var s' := Step(s, e);
            && Distance(s'.current, w) + (if s'.current != s.current then 1 else 0) <= Distance(s.current, w)
            && Patience(s', w) + (if e.Tick? then 1 else 0) <= Patience(s, w)
  {
    ReadyIsAhead(s.tasks, s.current, w);
    PickedBefore(s.tasks, s.current, w, 1);
    if e.Exit? && s.current != 0 {
      PickedBefore(s.tasks[s.current := FREE], s.current, w, 1);
      Nearer(s.current, Pick(s.tasks[s.current := FREE], s.current), w);
    }
    if Pick(s.tasks, s.current) != w {
      Nearer(s.current, Pick(s.tasks, s.current), w);
    }
  }

  lemma Nearer(current: int, next: int, w: int)
    requires 0 <= current < 8 && 0 <= next < 8 && 0 <= w < 8
    requires 1 <= Distance(current, next) < Distance(current, w)
    ensures Distance(next, w) == Distance(current, w) - Distance(current, next)
  {
  }

  lemma {:induction false} WaitingAdds(s: State, es: seq<Event>, w: int)
    requires Sound(s) && 0 <= w < 8 && Waits(s, es, w)
    ensures Switches(s, es) + Distance(After(s, es).current, w) <= Distance(s.current, w)
    ensures Ticks(es) + Patience(After(s, es), w) <= Patience(s, w)
    decreases |es|
  {
    if es != [] {
      StepKeeps(s, es[0]);
      WaitingAdds(Step(s, es[0]), es[1..], w);
      StepNearer(s, es[0], w);
    }
  }

  lemma {:induction false} WaitsToTheEnd(s: State, es: seq<Event>, w: int)
    requires Sound(s) && 0 <= w < 8 && Waits(s, es, w)
    ensures After(s, es).tasks[w] == READY
    decreases |es|
  {
    if es != [] {
      StepKeeps(s, es[0]);
      WaitsToTheEnd(Step(s, es[0]), es[1..], w);
    }
  }

  /** In every interleaving, a task that is still waiting has seen fewer than 7 switches and fewer than 70 ticks. */
  lemma BoundedWaiting(s: State, es: seq<Event>, w: int)
    requires Sound(s) && 0 <= w < 8 && Waits(s, es, w)
    ensures Switches(s, es) < 7 && Ticks(es) < 70
  {
    WaitingAdds(s, es, w);
    WaitsToTheEnd(s, es, w);
    ReadyIsAhead(After(s, es).tasks, After(s, es).current, w);
  }

  /** A task that stops waiting does so by running. */
  lemma WaitingEndsRunning(s: State, e: Event, w: int)
    requires Sound(s) && 0 <= w < 8 && s.tasks[w] == READY && Step(s, e).tasks[w] != READY
    ensures Step(s, e).tasks[w] == RUNNING && Step(s, e).current == w
  {
    StepKeeps(s, e);
  }

  lemma {:induction false} RunsUnlessWaiting(s: State, es: seq<Event>, w: int) returns (k: nat)
    requires Sound(s) && 0 <= w < 8 && s.tasks[w] == READY && !Waits(s, es, w)
    ensures k <= |es| && After(s, es[..k]).tasks[w] == RUNNING && After(s, es[..k]).current == w
    decreases |es|
  {
    StepKeeps(s, es[0]);
    var s' := Step(s, es[0]);
    if s'.tasks[w] == READY {
      k := RunsUnlessWaiting(s', es[1..], w);
      k := k + 1;
      assert es[..k][1..] == es[1..][..k - 1];
    } else {
      WaitingEndsRunning(s, es[0], w);
      k := 1;
      assert es[..1][1..] == [];
    }
  }

  /** Every sequence of events with 70 ticks or 7 switches in it gives a ready task the processor on the way. */
  lemma EveryTaskRuns(s: State, es: seq<Event>, w: int) returns (k: nat)
    requires Sound(s) && 0 <= w < 8 && s.tasks[w] == READY && (Ticks(es) >= 70 || Switches(s, es) >= 7)
    ensures k <= |es| && After(s, es[..k]).tasks[w] == RUNNING && After(s, es[..k]).current == w
  {
    if Waits(s, es, w) {
      BoundedWaiting(s, es, w);
      assert false;
    }
    k := RunsUnlessWaiting(s, es, w);
  }

  // ---- the scheduler itself ----

  class Table {
    const tasks: array<Task>
    var current: int
    var slice: int

    ghost function Now(): State
      reads this, tasks
    {
      State(tasks[..], current, slice)
    }

    ghost predicate Valid()
      reads this, tasks
    {
      tasks.Length == 8 && Sound(Now())
    }

    /** sched_init: the shell runs alone. */
    constructor ()
      ensures Valid() && fresh(tasks) && current == 0 && slice == 0 && forall i :: 1 <= i < 8 ==> tasks[i] == FREE
    {
      tasks := new Task[8](i => if i == 0 then RUNNING else FREE);
      current, slice := 0, 0;
    }

    method PickNext() returns (next: int)
      requires tasks.Length == 8 && 0 <= current < 8
      ensures next == Pick(tasks[..], current)
    {
      var i := 1;
      while i <= 8
        invariant 1 <= i <= 9 && Pick(tasks[..], current) == PickFrom(tasks[..], current, i)
      {
        var idx := (current + i) % 8;
        if tasks[idx] == READY {
          return idx;
        }
        i := i + 1;
      }
      return current;
    }

    /** The part of schedule and sched_on_tick that hands the processor over. */
    method SwitchTo(next: int)
      requires Valid() && 0 <= next < 8 && next != current && tasks[next] == READY
      modifies this`current, tasks
      ensures Now() == Switch(old(Now()), next, slice)
    {
      var prev := current;
      if tasks[prev] == RUNNING {
        tasks[prev] := READY;
      }
      tasks[next] := RUNNING;
      current := next;
    }

    method Yield()
      requires Valid()
      modifies this`current, this`slice, tasks
      ensures Valid() && Now() == Step(old(Now()), Event.Yield)
      ensures if exists w :: Waiting(old(Now()), w) then HandsOver(old(Now()), Now()) && slice == 0
              else Now() == old(Now())
    {
      YieldHandsOver(Now());
      StepKeeps(Now(), Event.Yield);
      PickReady(tasks[..], current, 1);
      var next := PickNext();
      if next != current {
        SwitchTo(next);
        slice := 0;
      }
    }

    method OnTick()
      requires Valid()
      modifies this`current, this`slice, tasks
      ensures Valid() && Now() == Step(old(Now()), Tick) && slice == (old(slice) + 1) % 10
      ensures current != old(current) <==> old(slice) == 9 && exists w :: Waiting(old(Now()), w)
      ensures if current != old(current) then HandsOver(old(Now()), Now()) else tasks[..] == old(tasks[..])
    {
      TickHandsOver(Now());
      StepKeeps(Now(), Tick);
      PickReady(tasks[..], current, 1);
      slice := slice + 1;
      if slice >= 10 {
        slice := 0;
        var next := PickNext();
        if next != current {
          SwitchTo(next);
        }
      }
    }

    /** sched_spawn; `stack` tells whether memory for its stack was to be had. */
    method SpawnTask(stack: bool) returns (id: int)
      requires Valid()
      modifies tasks
      ensures Valid() && Now() == Step(old(Now()), Spawn(stack))
      ensures id == -1 <==> !stack || forall i :: 1 <= i < 8 ==> old(tasks[i]) != FREE
      ensures id == -1 ==> Now() == old(Now())
      ensures id != -1 ==> && 1 <= id < 8 && old(tasks[id]) == FREE
                           && (forall i :: 1 <= i < id ==> old(tasks[i]) != FREE)
                           && tasks[..] == old(tasks[..])[id := READY]
    {
      StepKeeps(Now(), Spawn(stack));
      var k := 1;
      while k < 8 && tasks[k] != FREE
        invariant 1 <= k <= 8 && FirstFreeFrom(tasks[..], 1) == FirstFreeFrom(tasks[..], k)
      {
        k := k + 1;
      }
      assert k == FirstFreeFrom(tasks[..], 1);
      if k == 8 || !stack {
        return -1;
      }
      tasks[k] := READY;
      return k;
    }

    method ExitTask()
      requires Valid()
      modifies this`current, tasks
      ensures Valid() && Now() == Step(old(Now()), Exit)
      ensures old(current) == 0 ==> Now() == old(Now())
      ensures old(current) != 0 ==>
                && FirstWaiting(old(Now()), current)
                && tasks[..] == old(tasks[..])[old(current) := FREE][current := RUNNING]
    {
      ExitHandsOver(Now());
      StepKeeps(Now(), Exit);
      if current == 0 {
        return;
      }
      ExitFindsNext(Now());
      tasks[current] := FREE;
      var next := PickNext();
      current := next;
      tasks[current] := RUNNING;
    }
  }
}
