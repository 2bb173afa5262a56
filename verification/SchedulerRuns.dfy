/** Theorems about whole runs of the scheduler. */
module SchedulerRuns {
  import opened Basics
  import opened Scheduling

  /** The states before, between and after the events. */
  ghost predicate Trace(states: seq<Sched>, events: seq<Event>) {
    && |states| == |events| + 1
    && forall i | 0 <= i < |events| :: Enabled(states[i], events[i]) && states[i + 1] == Step(states[i], events[i])
  }

  // ----- safety -----

  /** Along any run from a good state every state is good, or it is the last one and shut down. */
  lemma {:induction false} RunSafe(states: seq<Sched>, events: seq<Event>, n: nat)
    requires Trace(states, events) && Good(states[0]) && n <= |events|
    ensures if states[n].halted then ShutDown(states[n]) && n == |events| else Good(states[n])
  {
    hide Good, ShutDown, Step;
    if n > 0 {
      RunSafe(states, events, n - 1);
      StepKeeps(states[n - 1], events[n - 1]);
      if n < |events| { assert Enabled(states[n], events[n]); }
    } else {
      GoodRuns(states[0]);
    }
  }

  lemma GoodRuns(s: Sched)
    requires Good(s)
    ensures !s.halted && OneRunning(s.list, s.current)
  {
  }

  /** No event ever reaches the do_cleanup inside pick_next_context. */
  lemma PickNeverCleansUp(s: Sched, e: Event)
    requires Good(s) && Enabled(s, e)
    ensures e.Tick? ==> Pick(Accounted(s.list)).Next?
    ensures e.Exit? ==> Pick(s.list).Next?
    ensures e.Sleep? ==> Pick(s.list[s.current := s.list[s.current].(sleep := e.ticks, state := WAITING)]).Next?
  {
    hide Accounted, Pick, StacksOwned;
    match e {
      case Tick =>
        AccountedKeeps(s.list, s.current);
        if s.current == 0 {
          NoneRunning(Accounted(s.list));
          PickIdle(Accounted(s.list));
        } else {
          PickNearest(Accounted(s.list), s.current);
        }
      case Exit => PickNearest(s.list, s.current);
      case Sleep(ticks) =>
        var w := s.list[s.current := s.list[s.current].(sleep := ticks, state := WAITING)];
        assert w[s.current].state == WAITING;
        PickIdle(w);
      case Clone(slot, frame) =>
      case Alarm(ticks) =>
    }
  }

  // ----- the whole effect of each event, slot by slot -----

  /** Whose sleep ends with the next tick. */
  predicate Wakes(c: Ctx) { c.sleep == 1 }

  /** What a tick leaves of a slot that was `c`: its counters one lower, its state READY if it wakes or is
      preempted, RUNNING if it is chosen, and as it was otherwise. */
  predicate Ticked(c: Ctx, d: Ctx, chosen: bool, preempted: bool) {
    && d.state == (if chosen then RUNNING else if preempted || Wakes(c) then READY else c.state)
    && d.sleep == (if c.sleep > 0 then c.sleep - 1 else 0)
    && d.alarm == (if c.alarm > 1 then c.alarm - 1 else if c.alarm == 1 then c.config else 0)
    && d.config == c.config && d.stack == c.stack
  }

  lemma TickEffect(s: Sched)
    requires Good(s) && Enabled(s, Tick)
    ensures var t := Step(s, Tick);
            && !t.halted && t.current < |t.list| == |s.list| && t.pending == 0
            && t.frames == (if s.pending != 0 then s.frames - {s.pending} else s.frames)
            && forall i | 0 <= i < |s.list| :: Ticked(s.list[i], t.list[i], i == t.current, i == s.current)
  {
    hide Pick, Accounted, StacksOwned, Some;
    PickNeverCleansUp(s, Tick);
    AccountedKeeps(s.list, s.current);
    TickKeeps(s);
    var m, t := Accounted(s.list), Step(s, Tick);
    forall i | 0 <= i < |s.list| ensures Ticked(s.list[i], t.list[i], i == t.current, i == s.current) {
      AccountedAt(s.list, i);
    }
  }

  /** Whom a tick chooses: the nearest process after the running one that is READY or wakes, the running one
      itself if there is none; out of the idle swapper the lowest that wakes. */
  lemma TickChoice(s: Sched)
    requires Good(s) && Enabled(s, Tick)
    ensures var c := Step(s, Tick).current;
            && (c == s.current <==> forall j | 1 <= j < MAX_PROCESSES && j < |s.list| :: !Runnable(s.list[j]))
            && (c != s.current ==> 1 <= c < |s.list| && Runnable(s.list[c]))
            && forall j | 1 <= j < MAX_PROCESSES && j < |s.list| && Runnable(s.list[j]) ::
                 if s.current == 0 then c <= j else Distance(s.current, c) <= Distance(s.current, j)
  {
    hide Pick, Accounted, StacksOwned;
    PickNeverCleansUp(s, Tick);
    AccountedKeeps(s.list, s.current);
    var m := Accounted(s.list);
    forall j | 0 <= j < |s.list| ensures m[j].state == READY <==> Runnable(s.list[j]) {
      AccountedAt(s.list, j);
    }
    if s.current == 0 { NoneRunning(m); PickIdle(m); } else { PickNearest(m, s.current); }
  }

  predicate Runnable(c: Ctx) { c.state == READY || Wakes(c) }

  /** The exit of the running process frees its slot, leaves its stack to be freed, and hands over to the
      nearest READY process, else to the swapper if someone waits; nothing else changes. */
  lemma ExitEffect(s: Sched)
    requires Good(s) && Enabled(s, Exit)
    ensures var t := Step(s, Exit);
            && |t.list| == |s.list| && t.pending == s.list[s.current].stack && t.frames == s.frames
            && t.list[s.current] == s.list[s.current].(state := UNUSED)
            && (t.halted <==> !Some(s.list, READY) && !Some(s.list, WAITING))
            && (!t.halted ==>
                  && t.current < |t.list| && t.current != s.current
                  && t.list[t.current] == s.list[t.current].(state := RUNNING)
                  && (t.current == 0 <==> !Some(s.list, READY)))
            && forall i | 0 <= i < |s.list| && i != s.current && (t.halted || i != t.current) :: t.list[i] == s.list[i]
    ensures forall j | 1 <= j < MAX_PROCESSES && j < |s.list| && s.list[j].state == READY ::
              1 <= Step(s, Exit).current && Distance(s.current, Step(s, Exit).current) <= Distance(s.current, j)
  {
    hide Pick, StacksOwned;
    PickNearest(s.list, s.current);
    ExitKeeps(s);
    ExitWaiting(s);
    forall j | 1 <= j < MAX_PROCESSES && s.list[j].state == READY ensures Some(s.list, READY) {}
  }

  /** do_sleep(k) puts the running process to sleep for k ticks and hands over to the lowest READY process,
      else to the swapper; nothing else changes. */
  lemma SleepEffect(s: Sched, ticks: nat)
    requires Good(s) && Enabled(s, Sleep(ticks))
    ensures var t := Step(s, Sleep(ticks));
            && !t.halted && |t.list| == |s.list| && t.pending == s.pending && t.frames == s.frames
            && t.list[s.current] == s.list[s.current].(state := WAITING, sleep := ticks)
            && t.current < |t.list| && t.current != s.current
            && s.list[t.current].state == READY && t.list[t.current] == s.list[t.current].(state := RUNNING)
            && (forall i | 0 <= i < |s.list| && i != s.current && i != t.current :: t.list[i] == s.list[i])
            && (t.current == 0 <==> !Some(s.list, READY))
            && forall j | 1 <= j < |s.list| && s.list[j].state == READY :: t.current <= j
  {
    hide Pick, StacksOwned;
    var w := s.list[s.current := s.list[s.current].(sleep := ticks, state := WAITING)];
    assert w[s.current].state == WAITING;
    PickIdle(w);
    SleepKeeps(s, ticks);
    forall j | 1 <= j < |s.list| ensures w[j].state == READY <==> s.list[j].state == READY {}
    if Some(s.list, READY) {
      var j :| 1 <= j < |s.list| && s.list[j].state == READY;
      assert w[j].state == READY;
    }
  }

  /** The new process is READY, on the stack given, with no sleep, no alarm and no alarm period; no other slot
      changes, and the caller runs on. */
  lemma CloneEffect(s: Sched, slot: nat, frame: nat)
    requires Good(s) && Enabled(s, Clone(slot, frame))
    ensures var t := Step(s, Clone(slot, frame));
            && |t.list| == |s.list| && slot < |t.list| && t.current == s.current && !t.halted
            && t.list[slot].state == READY && t.list[slot].stack == frame
            && t.list[slot].sleep == 0 && t.list[slot].alarm == 0 && t.list[slot].config == 0
            && (forall i | 0 <= i < |s.list| && i != slot :: t.list[i] == s.list[i])
            && t.frames == s.frames + {frame} && t.pending == s.pending
  {
  }

  /** do_alarm(k) sets the counter and the period of the running process, and nothing else. */
  lemma AlarmEffect(s: Sched, ticks: nat)
    requires Good(s) && Enabled(s, Alarm(ticks))
    ensures var t := Step(s, Alarm(ticks));
            && |t.list| == |s.list| && t.current == s.current && !t.halted
            && t.list[s.current].alarm == ticks && t.list[s.current].config == ticks
            && t.list[s.current].state == RUNNING && t.list[s.current].sleep == s.list[s.current].sleep
            && t.list[s.current].stack == s.list[s.current].stack
            && (forall i | 0 <= i < |s.list| && i != s.current :: t.list[i] == s.list[i])
            && t.frames == s.frames && t.pending == s.pending
  {
  }

  // ----- bounded waiting -----

  /** Events that end the running process's turn. */
  predicate Turn(e: Event) { e.Tick? || e.Exit? || e.Sleep? }

  function Turns(events: seq<Event>): nat {
    if events == [] then 0 else Turns(events[..|events| - 1]) + if Turn(events[|events| - 1]) then 1 else 0
  }

  /** A sleep of the running process helps process `p`: the choice, which restarts at slot 1, does not fall
      back behind the running process. */
  predicate SleepHelps(s: Sched, p: nat) {
    s.current > p || forall j | 1 <= j < s.current && j < |s.list| :: s.list[j].state != READY
  }

  /** A sleep brings a READY process on exactly if it helps. */
  lemma SleepNearerIff(s: Sched, ticks: nat, p: nat)
    requires Good(s) && Enabled(s, Sleep(ticks)) && 1 <= p < MAX_PROCESSES && s.list[p].state == READY
    ensures var t := Step(s, Sleep(ticks));
            && |t.list| == MAX_PROCESSES && t.current != 0 && (t.list[p].state == RUNNING || t.list[p].state == READY)
            && (t.list[p].state == RUNNING || Distance(t.current, p) < Distance(s.current, p) <==> SleepHelps(s, p))
  {
    hide StacksOwned, Pick;
    var w := s.list[s.current := s.list[s.current].(sleep := ticks, state := WAITING)];
    assert w[p].state == READY;
    PickIdle(w);
    SleepKeeps(s, ticks);
    var f, c := Pick(w).slot, s.current;
    assert f <= p < MAX_PROCESSES && s.list[f].state == READY && f != c;
    forall j | 1 <= j < f ensures s.list[j].state != READY { assert w[j].state != READY; }
    assert SleepHelps(s, p) <==> c > p || f > c;
    assert Step(s, Sleep(ticks)).current == f;
  }

  /** One event brings a READY process strictly nearer if it is a turn, and never takes it further away,
      unless it is a sleep that does not help. */
  lemma StepNearer(s: Sched, e: Event, p: nat)
    requires Good(s) && Enabled(s, e) && 1 <= p < MAX_PROCESSES && s.list[p].state == READY
    requires e.Sleep? ==> SleepHelps(s, p)
    ensures var t := Step(s, e);
            && !t.halted && |t.list| == MAX_PROCESSES && (t.list[p].state == RUNNING || t.list[p].state == READY)
            && (t.list[p].state == READY ==>
                  s.current != 0 && t.current != 0
                  && Distance(t.current, p) <= Distance(s.current, p) - if Turn(e) then 1 else 0)
  {
    hide StacksOwned, Pick, Accounted;
    assert Some(s.list, READY);
    var t := Step(s, e);
    match e {
      case Tick =>
        AccountedKeeps(s.list, s.current);
        PickNearest(Accounted(s.list), s.current);
        assert Accounted(s.list)[p].state == READY;
      case Exit => PickNearest(s.list, s.current);
      case Sleep(ticks) =>
        SleepNearerIff(s, ticks, p);
        SleepKeeps(s, ticks);
      case Clone(slot, frame) =>
      case Alarm(ticks) =>
    }
  }

  /** Every sleep that comes while `p` is READY helps `p`. */
  ghost predicate SleepsHelp(states: seq<Sched>, events: seq<Event>, p: nat)
    requires |states| == |events| + 1
  {
    forall i | 0 <= i < |events| && events[i].Sleep? && p < |states[i].list| && states[i].list[p].state == READY ::
      SleepHelps(states[i], p)
  }

  /** While it has not run yet, a READY process gets nearer by at least the number of turns taken. */
  lemma {:induction false} Approaches(states: seq<Sched>, events: seq<Event>, p: nat, n: nat)
    requires Trace(states, events) && Good(states[0]) && SleepsHelp(states, events, p) && n <= |events|
    requires 1 <= p < MAX_PROCESSES && states[0].list[p].state == READY
    requires forall i | 0 <= i <= n :: p < |states[i].list| ==> states[i].list[p].state != RUNNING
    ensures Good(states[n]) && states[n].list[p].state == READY && states[n].current != 0
    ensures Distance(states[n].current, p) <= Distance(states[0].current, p) - Turns(events[..n])
  {
    hide Good, Step, Trace, SleepHelps;
    TraceLength(states, events);
    if n > 0 {
      Approaches(states, events, p, n - 1);
      RunSafe(states, events, n - 1);
      RunSafe(states, events, n);
      StepOf(states, events, n - 1);
      GoodRuns(states[n - 1]);
      StepNearer(states[n - 1], events[n - 1], p);
      assert events[..n][..n - 1] == events[..n - 1];
    } else {
      ReadyMeansBusy(states[0], p);
    }
  }

  lemma StepOf(states: seq<Sched>, events: seq<Event>, i: nat)
    requires Trace(states, events) && i < |events|
    ensures Enabled(states[i], events[i]) && states[i + 1] == Step(states[i], events[i])
  {
  }

  lemma ReadyMeansBusy(s: Sched, p: nat)
    requires Good(s) && 1 <= p < MAX_PROCESSES && s.list[p].state == READY
    ensures s.current != 0 && s.current < MAX_PROCESSES && s.current != p
            && 1 <= Distance(s.current, p) <= MAX_PROCESSES - 2
  {
    assert Some(s.list, READY);
  }

  lemma {:induction false} TurnsUpTo(events: seq<Event>, k: nat) returns (n: nat)
    requires k <= Turns(events)
    ensures n <= |events| && Turns(events[..n]) == k
    ensures forall i | 0 <= i <= n :: Turns(events[..i]) <= k
  {
    if Turns(events) == k {
      n := |events|;
      assert events[..n] == events;
      forall i | 0 <= i <= n ensures Turns(events[..i]) <= k { TurnsGrow(events, i); }
    } else {
      var shorter := events[..|events| - 1];
      n := TurnsUpTo(shorter, k);
      forall i | 0 <= i <= n ensures shorter[..i] == events[..i] {}
    }
  }

  lemma {:induction false} TurnsGrow(events: seq<Event>, i: nat)
    requires i <= |events|
    ensures Turns(events[..i]) <= Turns(events)
  {
    if i == |events| {
      assert events[..i] == events;
    } else {
      var shorter := events[..|events| - 1];
      TurnsGrow(shorter, i);
      assert shorter[..i] == events[..i];
    }
  }

  /** Process `p` runs within the first `k` turns. */
  ghost predicate RunsWithin(states: seq<Sched>, events: seq<Event>, p: nat, k: nat)
    requires |states| == |events| + 1
  {
    exists i | 0 <= i <= |events| && p < |states[i].list| ::
      states[i].list[p].state == RUNNING && Turns(events[..i]) <= k
  }

  /** A READY process runs within at most MAX_PROCESSES - 2 ticks, exits and sleeps, whatever clones and
      alarms come between, if every sleep that comes while it is READY helps it. */
  lemma BoundedWaiting(states: seq<Sched>, events: seq<Event>, p: nat)
    requires Trace(states, events) && Good(states[0]) && SleepsHelp(states, events, p)
    requires 1 <= p < MAX_PROCESSES && states[0].list[p].state == READY
    requires Turns(events) >= MAX_PROCESSES - 2
    ensures RunsWithin(states, events, p, MAX_PROCESSES - 2)
  {
    hide Good, Step, Trace, SleepsHelp;
    TraceLength(states, events);
    ReadyMeansBusy(states[0], p);
    var n := TurnsUpTo(events, MAX_PROCESSES - 2);
    if forall i | 0 <= i <= n :: p < |states[i].list| ==> states[i].list[p].state != RUNNING {
      Approaches(states, events, p, n);
      ReadyMeansBusy(states[n], p);
      assert false;
    }
  }

  lemma TraceLength(states: seq<Sched>, events: seq<Event>)
    requires Trace(states, events)
    ensures |states| == |events| + 1
  {
  }

  ghost predicate NoSleep(events: seq<Event>) {
    forall i | 0 <= i < |events| :: !events[i].Sleep?
  }

  /** So the bound holds in every run without sleeps, and for the processes in slots 1 and 2 in every run. */
  lemma BoundedAnyway(states: seq<Sched>, events: seq<Event>, p: nat)
    requires Trace(states, events) && Good(states[0]) && (NoSleep(events) || p <= 2)
    requires 1 <= p < MAX_PROCESSES && states[0].list[p].state == READY
    requires Turns(events) >= MAX_PROCESSES - 2
    ensures RunsWithin(states, events, p, MAX_PROCESSES - 2)
  {
    if p <= 2 {
      forall i | 0 <= i < |events| && events[i].Sleep? && p < |states[i].list| && states[i].list[p].state == READY
        ensures SleepHelps(states[i], p)
      {
        LowSlotsHelped(states, events, p, i);
      }
    }
    BoundedWaiting(states, events, p);
  }

  lemma LowSlotsHelped(states: seq<Sched>, events: seq<Event>, p: nat, i: nat)
    requires Trace(states, events) && Good(states[0]) && 1 <= p <= 2 && p < MAX_PROCESSES && i < |events|
    requires p < |states[i].list| && states[i].list[p].state == READY
    ensures SleepHelps(states[i], p)
  {
    hide Good, Step;
    RunSafe(states, events, i);
    ReadyMeansBusy(states[i], p);
  }

  /** A cloned process runs within MAX_PROCESSES - 2 turns of its creation, if the sleeps that come while it
      is READY help it. */
  lemma CloneRuns(states: seq<Sched>, events: seq<Event>, slot: nat, frame: nat)
    requires Trace(states, events) && Good(states[0]) && |events| > 0 && events[0] == Clone(slot, frame)
    requires SleepsHelp(states[1..], events[1..], slot) && Turns(events[1..]) >= MAX_PROCESSES - 2
    ensures RunsWithin(states[1..], events[1..], slot, MAX_PROCESSES - 2)
  {
    hide Step;
    StepOf(states, events, 0);
    StepKeeps(states[0], events[0]);
    CloneEffect(states[0], slot, frame);
    TailTrace(states, events);
    BoundedWaiting(states[1..], events[1..], slot);
  }

  lemma TailTrace(states: seq<Sched>, events: seq<Event>)
    requires Trace(states, events) && |events| > 0
    ensures Trace(states[1..], events[1..])
  {
    hide Step;
  }

  // ----- starvation -----

  /** Process 2 runs; process 1 and process `p`, in a later slot, are READY. */
  ghost predicate Starving(s: Sched, p: nat) {
    Good(s) && 3 <= p < MAX_PROCESSES && s.current == 2 && s.list[1].state == READY && s.list[p].state == READY
  }

  /** A table in which that is so. */
  lemma StarvingExists(p: nat) returns (s: Sched)
    requires 3 <= p < MAX_PROCESSES
    ensures Starving(s, p)
  {
    var states :=
      seq(MAX_PROCESSES, i => if i == 2 then RUNNING else if i == 0 || i == 1 || i == p then READY else UNUSED);
    var list := seq(MAX_PROCESSES, i requires 0 <= i < MAX_PROCESSES => Ctx(states[i], 0, 0, 0, i + 1));
    s := Sched(list, 2, 0, Stacks(list), false);
    assert list[1].state == READY && list[p].state == READY;
  }

  /** Process 2 sleeping one tick at a time brings the same situation back, and `p` does not run meanwhile. */
  lemma SleepsStarve(s: Sched, p: nat)
    requires Starving(s, p)
    ensures Enabled(s, Sleep(1))
    ensures var m := Step(s, Sleep(1)); Good(m) && m.current == 1 && m.list[p].state == READY && Enabled(m, Tick)
    ensures Starving(Step(Step(s, Sleep(1)), Tick), p)
  {
    hide StacksOwned, Accounted, Pick;
    var m := Step(s, Sleep(1));
    SleepKeeps(s, 1);
    var w := s.list[2 := s.list[2].(sleep := 1, state := WAITING)];
    assert w[1].state == READY;
    PickIdle(w);
    assert m.current == 1;
    var a := Accounted(m.list);
    AccountedKeeps(m.list, 1);
    TickKeeps(m);
    assert a[2].state == READY by { assert m.list[2].sleep == 1; AccountedAt(m.list, 2); }
    PickNearest(a, 1);
    assert Distance(1, 2) == 1;
    assert Step(m, Tick).current == 2;
  }

  /** `n` times a sleep of one tick and a tick. */
  lemma {:induction false} StarvesFor(s: Sched, p: nat, n: nat) returns (states: seq<Sched>, events: seq<Event>)
    requires Starving(s, p)
    ensures Trace(states, events) && states[0] == s && |events| == 2 * n && Turns(events) == 2 * n
    ensures Starving(states[2 * n], p)
    ensures forall i | 0 <= i <= 2 * n :: p < |states[i].list| && states[i].list[p].state == READY
  {
    hide Good, Step, Enabled;
    if n == 0 {
      states, events := [s], [];
      GoodRuns(s);
    } else {
      var before, past := StarvesFor(s, p, n - 1);
      var last := before[2 * n - 2];
      SleepsStarve(last, p);
      var m := Step(last, Sleep(1));
      var t := Step(m, Tick);
      GoodRuns(m);
      GoodRuns(t);
      states, events := before + [m, t], past + [Sleep(1), Tick];
      TurnsOfTwo(past, Sleep(1), Tick);
    }
  }

  lemma TurnsOfTwo(events: seq<Event>, d: Event, e: Event)
    requires Turn(d) && Turn(e)
    ensures Turns(events + [d, e]) == Turns(events) + 2
  {
    assert (events + [d, e])[..|events| + 1] == events + [d];
    assert (events + [d])[..|events|] == events;
  }

  /** So no number of turns bounds the waiting of a process in a slot from 3 on: there are runs of any length
      in which it stays READY throughout. */
  lemma WaitingUnbounded(p: nat, n: nat) returns (states: seq<Sched>, events: seq<Event>)
    requires 3 <= p < MAX_PROCESSES
    ensures Trace(states, events) && Good(states[0]) && Turns(events) == 2 * n
    ensures forall i | 0 <= i <= |events| :: p < |states[i].list| && states[i].list[p].state == READY
    ensures forall k :: !RunsWithin(states, events, p, k)
  {
    hide Good, Step;
    var s := StarvingExists(p);
    states, events := StarvesFor(s, p, n);
  }

  lemma AccountedAt(l: seq<Ctx>, i: nat)
    requires i < |l|
    ensures Accounted(l)[i] == Alarmed(Slept(l[i]))
  {
  }

  // ----- sleep -----

  function Ticks(events: seq<Event>): nat {
    if events == [] then 0 else Ticks(events[..|events| - 1]) + if events[|events| - 1].Tick? then 1 else 0
  }

  function Remaining(sleep: nat, e: Event): nat {
    if e.Tick? && sleep > 0 then sleep - 1 else sleep
  }

  /** What one event does to a waiting process: only a tick touches it. */
  lemma WaitingStep(s: Sched, e: Event, p: nat)
    requires Good(s) && Enabled(s, e) && 1 <= p < MAX_PROCESSES && s.list[p].state == WAITING
    ensures var t := Step(s, e);
            && |t.list| == MAX_PROCESSES && !t.halted
            && if e.Tick? && s.list[p].sleep == 1
               then t.list[p].state == READY || t.list[p].state == RUNNING
               else t.list[p].state == WAITING && t.list[p].sleep == Remaining(s.list[p].sleep, e)
  {
    hide StacksOwned, Pick, Accounted;
    assert Some(s.list, WAITING);
    var m := Accounted(s.list);
    match e {
      case Tick =>
        AccountedKeeps(s.list, s.current);
        AccountedAt(s.list, p);
        if s.current == 0 { NoneRunning(m); PickIdle(m); } else { PickNearest(m, s.current); }
      case Exit => PickNearest(s.list, s.current); ExitKeeps(s);
      case Sleep(ticks) =>
        var w := s.list[s.current := s.list[s.current].(sleep := ticks, state := WAITING)];
        assert w[p].state == WAITING;
        PickIdle(w);
      case Clone(slot, frame) =>
      case Alarm(ticks) =>
    }
  }

  /** After do_sleep(k) the process waits as long as fewer than k ticks have come, or for ever if k is 0. */
  lemma {:induction false} SleepsOn(states: seq<Sched>, events: seq<Event>, p: nat, k: nat, n: nat)
    requires Trace(states, events) && |events| >= 1 && Good(states[0])
    requires events[0] == Sleep(k) && p == states[0].current && 1 <= n <= |events|
    requires k == 0 || Ticks(events[..n]) < k
    ensures Good(states[n]) && 1 <= p < MAX_PROCESSES && states[n].list[p].state == WAITING
    ensures states[n].list[p].sleep == if k == 0 then 0 else k - Ticks(events[..n])
  {
    hide Good, Step, Trace;
    StepOf(states, events, 0);
    StepOf(states, events, n - 1);
    TraceLength(states, events);
    RunSafe(states, events, n - 1);
    RunSafe(states, events, n);
    assert events[..n][..n - 1] == events[..n - 1];
    if n == 1 {
      GoodRuns(states[0]);
      SleepStarts(states[0], k);
      StepKeeps(states[0], events[0]);
      assert Ticks(events[..1]) == 0 by { assert events[..1] == [events[0]]; }
    } else {
      SleepsOn(states, events, p, k, n - 1);
      WaitingStep(states[n - 1], events[n - 1], p);
      assert Ticks(events[..n]) == Ticks(events[..n - 1]) + if events[n - 1].Tick? then 1 else 0;
    }
  }

  lemma SleepStarts(s: Sched, k: nat)
    requires Good(s) && Enabled(s, Sleep(k))
    ensures var t := Step(s, Sleep(k));
            s.current < |t.list| && t.list[s.current].state == WAITING && t.list[s.current].sleep == k
  {
    hide StacksOwned, Pick;
    var w := s.list[s.current := s.list[s.current].(sleep := k, state := WAITING)];
    assert w[s.current].state == WAITING;
    PickIdle(w);
  }

  /** The k-th tick after do_sleep(k) wakes the process: it is READY, or already running. */
  lemma SleepEnds(states: seq<Sched>, events: seq<Event>, p: nat, k: nat, n: nat)
    requires Trace(states, events) && |events| >= 1 && Good(states[0])
    requires events[0] == Sleep(k) && p == states[0].current && 1 <= n < |events|
    requires k > 0 && Ticks(events[..n]) == k - 1 && events[n] == Tick
    ensures p < |states[n + 1].list| && (states[n + 1].list[p].state == READY || states[n + 1].list[p].state == RUNNING)
  {
    hide Good, Step, Trace;
    TraceLength(states, events);
    SleepsOn(states, events, p, k, n);
    StepOf(states, events, n);
    WaitingStep(states[n], events[n], p);
  }

  /** do_sleep(0) never returns, however many ticks come. */
  lemma SleepZeroForEver(states: seq<Sched>, events: seq<Event>, p: nat, n: nat)
    requires Trace(states, events) && |events| >= 1 && Good(states[0])
    requires events[0] == Sleep(0) && p == states[0].current && 1 <= n <= |events|
    ensures p < |states[n].list| && states[n].list[p].state == WAITING
  {
    hide Good, Step, Trace;
    TraceLength(states, events);
    SleepsOn(states, events, p, 0, n);
    GoodRuns(states[n]);
  }

  lemma {:induction false} NthTick(events: seq<Event>, k: nat) returns (n: nat)
    requires 0 < k <= Ticks(events)
    ensures n < |events| && events[n] == Tick && Ticks(events[..n]) == k - 1
  {
    var m := |events| - 1;
    if Ticks(events[..m]) >= k {
      n := NthTick(events[..m], k);
      assert events[..m][..n] == events[..n];
    } else {
      n := m;
    }
  }

  /** So do_sleep(k) comes back after k ticks, whatever else happens, exactly if k > 0. */
  lemma SleepReturnsIff(states: seq<Sched>, events: seq<Event>, p: nat, k: nat)
    requires Trace(states, events) && |events| >= 1 && Good(states[0])
    requires events[0] == Sleep(k) && p == states[0].current && Ticks(events) >= k
    ensures (exists n | 1 <= n <= |events| && p < |states[n].list| ::
               states[n].list[p].state == READY || states[n].list[p].state == RUNNING)
            <==> k > 0
  {
    hide Good, Step, Trace;
    TraceLength(states, events);
    if k > 0 {
      var n := NthTick(events, k);
      SleepEnds(states, events, p, k, n);
      assert 1 <= n + 1 <= |events|;
    } else {
      forall n | 1 <= n <= |events| ensures p < |states[n].list| && states[n].list[p].state == WAITING {
        SleepZeroForEver(states, events, p, n);
      }
    }
  }

  // ----- ticks_to_sleep > 0 iff WAITING -----

  /** Whoever waits has ticks left to sleep. */
  predicate SleepersTimed(l: seq<Ctx>) {
    forall i | 0 <= i < |l| && l[i].state == WAITING :: l[i].sleep > 0
  }

  predicate SleepIffWaiting(l: seq<Ctx>) {
    forall i | 0 <= i < |l| :: l[i].sleep > 0 <==> l[i].state == WAITING
  }

  /** Every event keeps the equivalence but do_sleep(0), which breaks it. */
  lemma TimedStep(s: Sched, e: Event)
    requires Good(s) && Enabled(s, e) && SleepersTimed(s.list)
    ensures SleepersTimed(Step(s, e).list) <==> e != Sleep(0)
    ensures SleepIffWaiting(s.list) && (e != Sleep(0) ==> SleepIffWaiting(Step(s, e).list))
  {
    hide StacksOwned, Pick, Some;
    PickNeverCleansUp(s, e);
    match e {
      case Tick => TimedTick(s);
      case Exit => PickNearest(s.list, s.current);
      case Sleep(ticks) => SleepStarts(s, ticks); TimedSleep(s, ticks);
      case Clone(slot, frame) =>
      case Alarm(ticks) =>
    }
  }

  lemma TimedTick(s: Sched)
    requires Good(s) && Enabled(s, Tick) && SleepersTimed(s.list)
    ensures SleepIffWaiting(Step(s, Tick).list)
  {
    hide StacksOwned, Pick, Some;
    var m := Accounted(s.list);
    forall i | 0 <= i < |m| ensures m[i].sleep > 0 <==> m[i].state == WAITING {}
    AccountedKeeps(s.list, s.current);
    PickNeverCleansUp(s, Tick);
    if s.current == 0 { NoneRunning(m); PickIdle(m); } else { PickNearest(m, s.current); }
    PickReadyOr(m, s.current);
  }

  /** pick_next_context never chooses a waiting process. */
  lemma PickReadyOr(l: seq<Ctx>, current: nat)
    requires OneRunning(l, current) && Pick(l).Next?
    ensures l[Pick(l).slot].state != WAITING
  {
  }

  lemma TimedSleep(s: Sched, ticks: nat)
    requires Good(s) && Enabled(s, Sleep(ticks)) && SleepersTimed(s.list)
    ensures ticks > 0 ==> SleepIffWaiting(Step(s, Sleep(ticks)).list)
  {
    hide StacksOwned, Pick;
    var w := s.list[s.current := s.list[s.current].(sleep := ticks, state := WAITING)];
    assert w[s.current].state == WAITING;
    PickIdle(w);
  }

  lemma {:induction false} TimedUpTo(states: seq<Sched>, events: seq<Event>, n: nat)
    requires Trace(states, events) && Good(states[0]) && SleepersTimed(states[0].list) && n <= |events|
    requires forall i | 0 <= i < n :: events[i] != Sleep(0)
    ensures SleepIffWaiting(states[n].list)
  {
    hide Good, Step, Trace;
    TraceLength(states, events);
    if n == 0 {
      TimedGood(states[0]);
    } else {
      TimedUpTo(states, events, n - 1);
      RunSafe(states, events, n - 1);
      StepOf(states, events, n - 1);
      EnabledRuns(states[n - 1], events[n - 1]);
      TimedStep(states[n - 1], events[n - 1]);
    }
  }

  lemma EnabledRuns(s: Sched, e: Event)
    requires Enabled(s, e)
    ensures !s.halted
  {
  }

  lemma TimedGood(s: Sched)
    requires Good(s) && SleepersTimed(s.list)
    ensures SleepIffWaiting(s.list)
  {
  }

  /** In a run, `ticks_to_sleep > 0` iff WAITING holds in every state exactly if nobody calls do_sleep(0). */
  lemma TimedRunIff(states: seq<Sched>, events: seq<Event>)
    requires Trace(states, events) && Good(states[0]) && SleepersTimed(states[0].list)
    ensures (forall n | 0 <= n <= |events| :: SleepIffWaiting(states[n].list))
            <==> (forall i | 0 <= i < |events| :: events[i] != Sleep(0))
  {
    hide Good, Step, Trace;
    TraceLength(states, events);
    if forall i | 0 <= i < |events| :: events[i] != Sleep(0) {
      forall n | 0 <= n <= |events| ensures SleepIffWaiting(states[n].list) { TimedUpTo(states, events, n); }
    }
    if forall n | 0 <= n <= |events| :: SleepIffWaiting(states[n].list) {
      forall i | 0 <= i < |events| ensures events[i] != Sleep(0) {
        RunSafe(states, events, i);
        StepOf(states, events, i);
        EnabledRuns(states[i], events[i]);
        assert SleepIffWaiting(states[i].list) && SleepIffWaiting(states[i + 1].list);
        TimedStep(states[i], events[i]);
      }
    }
  }

  // ----- the idle swapper -----

  function Idle(s: Sched, n: nat): Sched
    requires |s.list| == MAX_PROCESSES && s.current < MAX_PROCESSES
  {
    if n == 0 then s else
      var t := Idle(s, n - 1);
      if Enabled(t, Tick) then Step(t, Tick) else t
  }

  /** No process is due within `n` ticks. */
  ghost predicate NobodyDue(s: Sched, n: nat) {
    forall i | 1 <= i < |s.list| && s.list[i].state == WAITING :: s.list[i].sleep == 0 || s.list[i].sleep > n
  }

  /** An idle tick on which nobody is due leaves the swapper running. */
  lemma IdleTick(s: Sched, m: nat)
    requires Good(s) && s.current == 0 && NobodyDue(s, m + 1)
    ensures Enabled(s, Tick) && Good(Step(s, Tick)) && Step(s, Tick).current == 0 && NobodyDue(Step(s, Tick), m)
    ensures forall i | 1 <= i < MAX_PROCESSES :: Step(s, Tick).list[i].state == s.list[i].state
              && Step(s, Tick).list[i].sleep == if s.list[i].sleep > 0 then s.list[i].sleep - 1 else 0
  {
    hide StacksOwned, Pick;
    TickKeeps(s);
    AccountedKeeps(s.list, 0);
    var l := Accounted(s.list);
    NoneRunning(l);
    PickIdle(l);
    assert forall i | 1 <= i < MAX_PROCESSES :: l[i].state == s.list[i].state;
    assert !Some(l, READY);
  }

  /** The swapper idles on through every tick before the smallest remaining sleep. */
  lemma {:induction false} IdleLasts(s: Sched, n: nat, m: nat)
    requires Good(s) && s.current == 0 && NobodyDue(s, n + m)
    ensures Good(Idle(s, n)) && Idle(s, n).current == 0 && NobodyDue(Idle(s, n), m)
    ensures forall i | 1 <= i < MAX_PROCESSES :: Idle(s, n).list[i].state == s.list[i].state
              && Idle(s, n).list[i].sleep == if s.list[i].sleep > 0 then s.list[i].sleep - n else 0
  {
    hide Good, Step, NobodyDue;
    GoodRuns(s);
    GoodSleepers(s);
    if n > 0 {
      IdleLasts(s, n - 1, m + 1);
      IdleTick(Idle(s, n - 1), m);
      assert forall i | 1 <= i < MAX_PROCESSES && s.list[i].sleep > 0 :: s.list[i].sleep > n by { DueSleeps(s, n + m); }
    }
  }

  lemma GoodSleepers(s: Sched)
    requires Good(s)
    ensures forall i | 0 <= i < MAX_PROCESSES && s.list[i].sleep > 0 :: s.list[i].state == WAITING
  {
  }

  lemma DueSleeps(s: Sched, n: nat)
    requires Good(s) && NobodyDue(s, n)
    ensures forall i | 1 <= i < MAX_PROCESSES && s.list[i].sleep > 0 :: s.list[i].sleep > n
  {
  }

  /** The tick given by the smallest remaining sleep ends the idling: the lowest process due then runs. */
  lemma IdleEnds(s: Sched, n: nat, p: nat)
    requires Good(s) && s.current == 0 && NobodyDue(s, n)
    requires 1 <= p < MAX_PROCESSES && s.list[p].sleep == n + 1 && forall i | 1 <= i < p :: s.list[i].sleep != n + 1
    ensures Good(Idle(s, n + 1)) && Idle(s, n + 1).current == p && Idle(s, n).current == 0
  {
    hide StacksOwned, Pick, Idle;
    IdleUnfold(s, n);
    IdleLasts(s, n, 0);
    var t := Idle(s, n);
    TickKeeps(t);
    AccountedKeeps(t.list, 0);
    var l := Accounted(t.list);
    NoneRunning(l);
    assert l[p].state == READY;
    PickIdle(l);
    assert forall i | 1 <= i < p :: l[i].state != READY;
  }

  lemma IdleUnfold(s: Sched, n: nat)
    requires |s.list| == MAX_PROCESSES && s.current < MAX_PROCESSES
    ensures Idle(s, n + 1) == if Enabled(Idle(s, n), Tick) then Step(Idle(s, n), Tick) else Idle(s, n)
  {
  }

  // ----- alarms -----

  /** Only the current context is ever sent SIGALRM. */
  lemma AlarmsCurrent(s: Sched)
    requires Good(s)
    ensures Signalled(s.list) == if s.list[s.current].alarm == 1 then {s.current} else {}
  {
  }

  /** The alarm counter `n` ticks after do_alarm(k). */
  function AlarmCount(k: nat, n: nat): nat {
    if n == 0 then k else
      var a := AlarmCount(k, n - 1);
      if a == 0 then 0 else if a == 1 then k else a - 1
  }

  /** With k > 0 the counter runs from k down to 1 and starts again: after q whole periods and r more ticks
      it stands at k - r, so every k-th tick fires and no other. */
  lemma {:induction false} AlarmPeriodic(k: nat, q: nat, r: nat)
    requires r < k
    ensures AlarmCount(k, Mul(q, k) + r) == k - r
    decreases q, r
  {
    if r > 0 {
      AlarmPeriodic(k, q, r - 1);
    } else if q > 0 {
      AlarmPeriodic(k, q - 1, k - 1);
      assert Mul(q, k) - 1 == Mul(q - 1, k) + (k - 1);
    }
  }

  /** An event by which process `p` itself drops or resets its alarm. */
  predicate ResetsAlarm(s: Sched, e: Event, p: nat) {
    s.current == p && (e.Alarm? || e.Exit?)
  }

  lemma AlarmStep(s: Sched, e: Event, p: nat)
    requires Good(s) && Enabled(s, e) && p < MAX_PROCESSES && s.list[p].state != UNUSED && !ResetsAlarm(s, e, p)
    ensures var t := Step(s, e);
            && |t.list| == MAX_PROCESSES && t.list[p].state != UNUSED && t.list[p].config == s.list[p].config
            && t.list[p].alarm == if e.Tick? then Alarmed(s.list[p]).alarm else s.list[p].alarm
  {
    hide StacksOwned, Pick, Some;
    match e {
      case Tick => PickNeverCleansUp(s, e); AccountedAt(s.list, p);
      case Exit => PickNeverCleansUp(s, e);
      case Sleep(ticks) => PickNeverCleansUp(s, e);
      case Clone(slot, frame) =>
      case Alarm(ticks) =>
    }
  }

  /** Along any run, until the process exits or sets another alarm, the ticks since do_alarm(k) alone determine
      the counter: whether the process runs, sleeps or waits does not matter. */
  lemma {:induction false} AlarmRuns(states: seq<Sched>, events: seq<Event>, p: nat, k: nat, n: nat)
    requires Trace(states, events) && |events| >= 1 && Good(states[0])
    requires events[0] == Alarm(k) && p == states[0].current && 1 <= n <= |events|
    requires forall i | 1 <= i < n :: !ResetsAlarm(states[i], events[i], p)
    ensures p < |states[n].list| && states[n].list[p].state != UNUSED && states[n].list[p].config == k
    ensures states[n].list[p].alarm == AlarmCount(k, Ticks(events[..n]))
  {
    hide Good, Step, Trace, ResetsAlarm;
    StepOf(states, events, n - 1);
    TraceLength(states, events);
    GoodRuns(states[0]);
    RunSafe(states, events, n - 1);
    if n == 1 {
      AlarmStarts(states[0], k);
      assert Ticks(events[..1]) == 0 by { assert events[..1] == [events[0]]; }
    } else {
      AlarmRuns(states, events, p, k, n - 1);
      AlarmStep(states[n - 1], events[n - 1], p);
      assert events[..n][..n - 1] == events[..n - 1];
    }
  }

  lemma AlarmStarts(s: Sched, k: nat)
    requires Good(s) && Enabled(s, Alarm(k))
    ensures var c := Step(s, Alarm(k)).list; s.current < |c| && c[s.current].state != UNUSED
    ensures Step(s, Alarm(k)).list[s.current].config == Step(s, Alarm(k)).list[s.current].alarm == k
  {
  }

  // ----- kernel stacks -----

  /** The stacks of the live contexts. */
  function Stacks(l: seq<Ctx>): set<nat> {
    set i: nat | i < |l| && l[i].state != UNUSED :: l[i].stack
  }

  /** Allocated frames that no live context uses and that are not waiting to be freed. */
  function Orphans(s: Sched): set<nat> {
    s.frames - Stacks(s.list) - if s.pending != 0 then {s.pending} else {}
  }

  /** The only frame ever freed is an allocated one that no live context uses. */
  lemma FreeIsSafe(s: Sched)
    requires Good(s) && s.pending != 0
    ensures s.pending in s.frames && s.pending !in Stacks(s.list) && s.pending !in Step(s, Tick).frames
    ensures Step(s, Tick).pending == 0
  {
  }

  /** The frame `f` is given back to the allocator: only a tick frees, and it frees the pending frame. */
  predicate Frees(s: Sched, e: Event, f: nat) { e.Tick? && f != 0 && s.pending == f }

  /** A frame that is not allocated stays so until a clone takes it. */
  lemma {:induction false} StaysFree(states: seq<Sched>, events: seq<Event>, f: nat, i: nat, n: nat)
    requires Trace(states, events) && i <= n <= |events| && f !in states[i].frames
    requires forall k | i <= k < n :: !(events[k].Clone? && events[k].frame == f)
    ensures f !in states[n].frames
    decreases n - i
  {
    hide Pick, Accounted, Some;
    if i < n {
      assert states[n] == Step(states[n - 1], events[n - 1]);
      StaysFree(states, events, f, i, n - 1);
    }
  }

  /** No frame is freed twice in a run unless a clone has taken it in between. */
  lemma FreedOnce(states: seq<Sched>, events: seq<Event>, f: nat, i: nat, j: nat)
    requires Trace(states, events) && Good(states[0]) && i < j < |events|
    requires Frees(states[i], events[i], f) && Frees(states[j], events[j], f)
    ensures exists k :: i < k < j && events[k].Clone? && events[k].frame == f
  {
    hide Step, Good;
    StepOf(states, events, i);
    RunSafe(states, events, i);
    EnabledRuns(states[i], events[i]);
    FreeIsSafe(states[i]);
    StepOf(states, events, j);
    RunSafe(states, events, j);
    EnabledRuns(states[j], events[j]);
    FreeIsSafe(states[j]);
    if forall k | i + 1 <= k < j :: !(events[k].Clone? && events[k].frame == f) {
      StaysFree(states, events, f, i + 1, j);
    }
  }

  lemma StacksAre(l: seq<Ctx>, m: seq<Ctx>)
    requires |l| == |m| && forall i | 0 <= i < |l| ::
               (m[i].state == UNUSED <==> l[i].state == UNUSED) && m[i].stack == l[i].stack
    ensures Stacks(m) == Stacks(l)
  {
    forall f ensures f in Stacks(m) <==> f in Stacks(l) {
      if f in Stacks(l) { var i :| 0 <= i < |l| && l[i].state != UNUSED && l[i].stack == f; assert m[i].stack == f; }
      if f in Stacks(m) { var i :| 0 <= i < |m| && m[i].state != UNUSED && m[i].stack == f; assert l[i].stack == f; }
    }
  }

  lemma StacksWithout(l: seq<Ctx>, m: seq<Ctx>, c: nat, pending: nat, frames: set<nat>)
    requires StacksOwned(l, pending, frames) && c < |l| == |m| && l[c].state != UNUSED && m[c].state == UNUSED
    requires forall i | 0 <= i < |l| && i != c ::
               (m[i].state == UNUSED <==> l[i].state == UNUSED) && m[i].stack == l[i].stack
    ensures Stacks(m) == Stacks(l) - {l[c].stack} && l[c].stack in Stacks(l)
  {
    forall f ensures f in Stacks(m) <==> f in Stacks(l) && f != l[c].stack {
      if f in Stacks(l) && f != l[c].stack {
        var i :| 0 <= i < |l| && l[i].state != UNUSED && l[i].stack == f;
        assert m[i].stack == f;
      }
      if f in Stacks(m) { var i :| 0 <= i < |m| && m[i].state != UNUSED && m[i].stack == f; assert l[i].stack == f; }
    }
  }

  /** A frame is leaked exactly when a process exits while the stack of an earlier one still waits to be
      freed: that stack then joins the orphans. Nothing else ever does. */
  lemma LeakExactly(s: Sched, e: Event)
    requires Good(s) && Enabled(s, e)
    ensures Orphans(Step(s, e)) == Orphans(s) + if e.Exit? && s.pending != 0 then {s.pending} else {}
  {
    hide Pick, Some;
    var t := Step(s, e);
    StepKeeps(s, e);
    match e {
      case Tick =>
        TickStates(s);
        StacksAre(s.list, t.list);
      case Exit =>
        ExitStates(s);
        StacksWithout(s.list, t.list, s.current, s.pending, s.frames);
      case Sleep(ticks) =>
        SleepStates(s, ticks);
        StacksAre(s.list, t.list);
      case Clone(slot, frame) =>
        CloneStacks(s, slot, frame);
      case Alarm(ticks) => StacksAre(s.list, t.list);
    }
  }

  lemma TickStates(s: Sched)
    requires Good(s) && Enabled(s, Tick)
    ensures var t := Step(s, Tick);
            && |t.list| == |s.list| && t.pending == 0
               && t.frames == (if s.pending != 0 then s.frames - {s.pending} else s.frames)
            && forall i | 0 <= i < |s.list| ::
                 (t.list[i].state == UNUSED <==> s.list[i].state == UNUSED) && t.list[i].stack == s.list[i].stack
  {
    hide Pick, Accounted, StacksOwned;
    PickNeverCleansUp(s, Tick);
    AccountedKeeps(s.list, s.current);
    var m := Accounted(s.list);
    if s.current == 0 { NoneRunning(m); PickIdle(m); } else { PickNearest(m, s.current); }
  }

  lemma ExitStates(s: Sched)
    requires Good(s) && Enabled(s, Exit)
    ensures var t := Step(s, Exit);
            && |t.list| == |s.list| && t.pending == s.list[s.current].stack && t.frames == s.frames
               && t.list[s.current].state == UNUSED
            && forall i | 0 <= i < |s.list| && i != s.current ::
                 (t.list[i].state == UNUSED <==> s.list[i].state == UNUSED) && t.list[i].stack == s.list[i].stack
  {
    hide Pick, StacksOwned, Some;
    PickNearest(s.list, s.current);
  }

  lemma SleepStates(s: Sched, ticks: nat)
    requires Good(s) && Enabled(s, Sleep(ticks))
    ensures var t := Step(s, Sleep(ticks));
            && |t.list| == |s.list| && t.pending == s.pending && t.frames == s.frames
            && forall i | 0 <= i < |s.list| ::
                 (t.list[i].state == UNUSED <==> s.list[i].state == UNUSED) && t.list[i].stack == s.list[i].stack
  {
    hide Pick, StacksOwned;
    var w := s.list[s.current := s.list[s.current].(sleep := ticks, state := WAITING)];
    assert w[s.current].state == WAITING;
    PickIdle(w);
  }

  lemma CloneStacks(s: Sched, slot: nat, frame: nat)
    requires Good(s) && Enabled(s, Clone(slot, frame))
    ensures Stacks(Step(s, Clone(slot, frame)).list) == Stacks(s.list) + {frame}
  {
    var m := Step(s, Clone(slot, frame)).list;
    forall f ensures f in Stacks(m) <==> f in Stacks(s.list) || f == frame {
      if f in Stacks(s.list) {
        var i :| 0 <= i < |m| && s.list[i].state != UNUSED && s.list[i].stack == f;
        assert m[i].stack == f;
      }
      if f == frame { assert m[slot].stack == f; }
      if f in Stacks(m) && f != frame {
        var i :| 0 <= i < |m| && m[i].state != UNUSED && m[i].stack == f;
        assert s.list[i].stack == f;
      }
    }
  }
}
