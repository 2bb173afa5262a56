/** The process table of gemOS-a3/schedule.c as a value: what each routine does to it, and the
    invariant every routine keeps. Slot 0 is the swapper. */
module Scheduling {
  /** MAX_PROCESSES; the source has 16. */
  type ProcessCount = n: nat | 2 <= n witness 16

  const MAX_PROCESSES: ProcessCount

  datatype State = UNUSED | NEW | READY | RUNNING | WAITING | EXITING

  /** The fields of exec_context the scheduler works on: state, ticks_to_sleep, ticks_to_alarm,
      alarm_config_time and os_stack_pfn. */
  datatype Ctx = Ctx(state: State, sleep: nat, alarm: nat, config: nat, stack: nat)

  /** `pending` is stack_to_free, `frames` the allocated frames of OS_PT_REG, and `halted` says that
      do_cleanup has shut the machine down. */
  datatype Sched = Sched(list: seq<Ctx>, current: nat, pending: nat, frames: set<nat>, halted: bool)

  datatype Choice = Next(slot: nat) | Cleanup

  // ----- the scans -----

  /** The first slot from `i` on and below `n` in state `st`, or `n`. */
  function FirstIn(l: seq<Ctx>, st: State, i: nat, n: nat): (r: nat)
    requires i <= n <= |l|
    ensures i <= r <= n && (r < n ==> l[r].state == st) && forall k | i <= k < r :: l[k].state != st
    decreases n - i
  {
    if i == n || l[i].state == st then i else FirstIn(l, st, i + 1, n)
  }

  /** pick_next_context. */
  function Pick(l: seq<Ctx>): (c: Choice)
    requires |l| == MAX_PROCESSES
    ensures c.Next? ==> c.slot < MAX_PROCESSES
  {
    var n := MAX_PROCESSES;
    var running := FirstIn(l, RUNNING, 1, n);
    if running == n then
      if FirstIn(l, READY, 1, n) < n then Next(FirstIn(l, READY, 1, n))
      else if FirstIn(l, WAITING, 1, n) < n then Next(0) else Cleanup
    else if FirstIn(l, READY, running + 1, n) < n then Next(FirstIn(l, READY, running + 1, n))
    else if FirstIn(l, READY, 1, running) < running then Next(FirstIn(l, READY, 1, running))
    else Next(running)
  }

  /** Some process is in state `st`. */
  predicate Some(l: seq<Ctx>, st: State) {
    exists i | 1 <= i < |l| :: l[i].state == st
  }

  // ----- accounting of one tick -----

  function Slept(c: Ctx): Ctx {
    if c.sleep == 0 then c else if c.sleep == 1 then c.(sleep := 0, state := READY) else c.(sleep := c.sleep - 1)
  }

  function Alarmed(c: Ctx): Ctx {
    if c.alarm == 0 then c else if c.alarm == 1 then c.(alarm := c.config) else c.(alarm := c.alarm - 1)
  }

  function Accounted(l: seq<Ctx>): (m: seq<Ctx>)
    ensures |m| == |l|
  {
    seq(|l|, i requires 0 <= i < |l| => Alarmed(Slept(l[i])))
  }

  /** The slots that are sent SIGALRM by the accounting. */
  function Signalled(l: seq<Ctx>): set<nat> {
    set i: nat | i < |l| && l[i].alarm == 1 && Slept(l[i]).state == RUNNING
  }

  // ----- the steps -----

  datatype Event = Tick | Exit | Sleep(ticks: nat) | Clone(slot: nat, frame: nat) | Alarm(ticks: nat)

  /** Which step can happen: only processes make system calls; clone is given an unused slot and a
      frame that is not allocated. */
  predicate Enabled(s: Sched, e: Event) {
    && |s.list| == MAX_PROCESSES && s.current < MAX_PROCESSES && !s.halted
    && (e.Tick? || s.current != 0)
    && (e.Clone? ==>
          1 <= e.slot < MAX_PROCESSES && s.list[e.slot].state == UNUSED && e.frame != 0 && e.frame !in s.frames)
  }

  /** schedule_context: the state part. */
  function Scheduled(s: Sched, next: nat): Sched
    requires next < |s.list|
  {
    s.(list := s.list[next := s.list[next].(state := RUNNING)], current := next)
  }

  function InState(s: Sched, st: State): Sched
    requires s.current < |s.list|
  {
    s.(list := s.list[s.current := s.list[s.current].(state := st)])
  }

  function AfterTick(s: Sched): Sched
    requires Enabled(s, Tick)
  {
    var f := if s.pending != 0 then s.(frames := s.frames - {s.pending}, pending := 0) else s;
    var a := f.(list := Accounted(f.list));
    match Pick(a.list)
    case Cleanup => a.(halted := true)
    case Next(n) => if n == s.current then a else Scheduled(InState(a, READY), n)
  }

  function AfterExit(s: Sched): Sched
    requires Enabled(s, Exit)
  {
    var c := Pick(s.list);
    var u := InState(s, UNUSED).(pending := s.list[s.current].stack);
    if c.Cleanup? then s.(halted := true)
    else if c.slot != s.current then Scheduled(u, c.slot)
    else if Some(u.list, WAITING) then Scheduled(u, 0)
    else u.(halted := true)
  }

  function AfterSleep(s: Sched, ticks: nat): Sched
    requires Enabled(s, Sleep(ticks))
  {
    var w := s.(list := s.list[s.current := s.list[s.current].(sleep := ticks, state := WAITING)]);
    match Pick(w.list)
    case Cleanup => w.(halted := true)
    case Next(n) => Scheduled(w, n)
  }

  function AfterClone(s: Sched, slot: nat, frame: nat): Sched
    requires Enabled(s, Clone(slot, frame))
  {
    s.(list := s.list[slot := Ctx(READY, 0, 0, 0, frame)], frames := s.frames + {frame})
  }

  function AfterAlarm(s: Sched, ticks: nat): Sched
    requires Enabled(s, Alarm(ticks))
  {
    s.(list := s.list[s.current := s.list[s.current].(config := ticks, alarm := ticks)])
  }

  function Step(s: Sched, e: Event): Sched
    requires Enabled(s, e)
  {
    match e
    case Tick => AfterTick(s)
    case Exit => AfterExit(s)
    case Sleep(ticks) => AfterSleep(s, ticks)
    case Clone(slot, frame) => AfterClone(s, slot, frame)
    case Alarm(ticks) => AfterAlarm(s, ticks)
  }

  // ----- the invariant -----

  /** Exactly one context is RUNNING, and it is the current one; whoever has ticks left to sleep waits. */
  ghost predicate OneRunning(l: seq<Ctx>, current: nat) {
    && |l| == MAX_PROCESSES && current < MAX_PROCESSES
    && (forall i | 0 <= i < MAX_PROCESSES :: l[i].state == RUNNING <==> i == current)
    && (forall i | 0 <= i < MAX_PROCESSES && l[i].sleep > 0 :: l[i].state == WAITING)
    && (current != 0 ==> l[0].state == READY)
  }

  /** Live contexts have kernel stacks of their own, all allocated; the stack to free is allocated and
      belongs to none of them. */
  ghost predicate StacksOwned(l: seq<Ctx>, pending: nat, frames: set<nat>) {
    && (forall i | 0 <= i < |l| && l[i].state != UNUSED ::
          l[i].stack != 0 && l[i].stack in frames && l[i].stack != pending)
    && (forall i, j | 0 <= i < j < |l| && l[i].state != UNUSED && l[j].state != UNUSED :: l[i].stack != l[j].stack)
    && (pending != 0 ==> pending in frames)
  }

  /** The state while the machine runs. */
  ghost predicate Good(s: Sched) {
    && !s.halted && OneRunning(s.list, s.current)
    && (s.current == 0 ==> !Some(s.list, READY) && Some(s.list, WAITING))
    && StacksOwned(s.list, s.pending, s.frames)
  }

  /** The state after shutdown: nothing is left to run. */
  ghost predicate ShutDown(s: Sched) {
    s.halted && |s.list| == MAX_PROCESSES && !Some(s.list, READY) && !Some(s.list, RUNNING) && !Some(s.list, WAITING)
  }

  // ----- what pick_next_context chooses -----

  /** How far slot `i` comes after slot `r` in the cycle of the slots 1 .. MAX_PROCESSES - 1. */
  function Distance(r: nat, i: nat): int {
    if i > r then i - r else i - r + MAX_PROCESSES - 1
  }

  /** With process `r` running, the choice is the READY process that comes first after it in the cycle,
      and `r` itself if there is none. */
  lemma PickNearest(l: seq<Ctx>, r: nat)
    requires OneRunning(l, r) && r != 0
    ensures Pick(l).Next? && 1 <= Pick(l).slot < MAX_PROCESSES
    ensures Pick(l).slot == r <==> !Some(l, READY)
    ensures Pick(l).slot != r ==> l[Pick(l).slot].state == READY
    ensures forall j | 1 <= j < MAX_PROCESSES && l[j].state == READY :: Distance(r, Pick(l).slot) <= Distance(r, j)
  {
    assert l[r].state == RUNNING;
    var x := FirstIn(l, RUNNING, 1, MAX_PROCESSES);
    assert x == r;
  }

  /** With no process running, the choice is the lowest READY process, else the swapper if someone
      waits; do_cleanup is called exactly if nobody is READY or WAITING. */
  lemma PickIdle(l: seq<Ctx>)
    requires |l| == MAX_PROCESSES && !Some(l, RUNNING)
    ensures Pick(l).Cleanup? <==> !Some(l, READY) && !Some(l, WAITING)
    ensures Some(l, READY) ==> Pick(l).Next? && 1 <= Pick(l).slot && l[Pick(l).slot].state == READY
                               && forall j | 1 <= j < Pick(l).slot :: l[j].state != READY
    ensures !Some(l, READY) && Some(l, WAITING) ==> Pick(l) == Next(0)
  {
  }

  // ----- every step keeps the invariant -----

  lemma AccountedKeeps(l: seq<Ctx>, current: nat)
    requires OneRunning(l, current)
    ensures OneRunning(Accounted(l), current)
    ensures forall i | 0 <= i < |l| ::
              (Accounted(l)[i].state == UNUSED <==> l[i].state == UNUSED) && Accounted(l)[i].stack == l[i].stack
    ensures forall i | 0 <= i < |l| && l[i].state != WAITING :: Accounted(l)[i].state == l[i].state
    ensures Some(l, WAITING) ==> Some(Accounted(l), WAITING) || Some(Accounted(l), READY)
  {
    var m := Accounted(l);
    forall i | 0 <= i < |l|
      ensures m[i].state == (if l[i].sleep == 1 then READY else l[i].state) && m[i].stack == l[i].stack
      ensures m[i].sleep == if l[i].sleep > 0 then l[i].sleep - 1 else 0
    {}
    if Some(l, WAITING) {
      var i :| 1 <= i < |l| && l[i].state == WAITING;
      assert m[i].state == WAITING || m[i].state == READY;
    }
  }

  /** Moving the running mark from `current` to a READY slot `n` keeps everyone else. */
  lemma SwitchKeeps(l: seq<Ctx>, m: seq<Ctx>, current: nat, n: nat)
    requires OneRunning(l, current) && n < |l| == |m| && n != current
    requires m[current].state != RUNNING && (m[current].sleep > 0 ==> m[current].state == WAITING)
    requires current == 0 ==> m[0].state == READY
    requires l[n].state == READY && m[n] == l[n].(state := RUNNING)
    requires forall i | 0 <= i < |l| && i != n && i != current :: m[i] == l[i]
    ensures OneRunning(m, n)
  {
  }

  /** Freeing the pending frame keeps the stacks of contexts that stay as live as they were. */
  lemma StacksSurviveFree(l: seq<Ctx>, m: seq<Ctx>, pending: nat, frames: set<nat>)
    requires StacksOwned(l, pending, frames) && |m| == |l|
    requires forall i | 0 <= i < |l| :: (m[i].state == UNUSED <==> l[i].state == UNUSED) && m[i].stack == l[i].stack
    ensures StacksOwned(m, pending, frames) && StacksOwned(m, 0, frames - {pending})
  {
  }

  /** The context that stops being live hands its stack over. */
  lemma StackHandedOver(l: seq<Ctx>, m: seq<Ctx>, c: nat, pending: nat, frames: set<nat>)
    requires StacksOwned(l, pending, frames) && c < |l| == |m| && l[c].state != UNUSED && m[c].state == UNUSED
    requires forall i | 0 <= i < |l| && i != c ::
               (m[i].state == UNUSED <==> l[i].state == UNUSED) && m[i].stack == l[i].stack
    ensures StacksOwned(m, l[c].stack, frames)
  {
  }

  lemma TickKeeps(s: Sched)
    requires Good(s) && Enabled(s, Tick)
    ensures Good(AfterTick(s))
  {
    hide Accounted, StacksOwned, Pick, Some;
    var m := Accounted(s.list);
    AccountedKeeps(s.list, s.current);
    var t := AfterTick(s);
    if s.current == 0 { NoneRunning(m); PickIdle(m); } else { PickNearest(m, s.current); }
    var n := Pick(m).slot;
    if n != s.current {
      assert m[n].state == READY;
      SwitchKeeps(m, t.list, s.current, n);
    } else if n == 0 {
      assert !Some(m, READY);
    }
    StacksSurviveFree(s.list, t.list, s.pending, s.frames);
    assert s.frames - {s.pending} == t.frames || s.pending == 0;
  }

  /** If the swapper runs, no process does. */
  lemma NoneRunning(l: seq<Ctx>)
    requires OneRunning(l, 0)
    ensures !Some(l, RUNNING)
  {
  }

  lemma ExitKeeps(s: Sched)
    requires Good(s) && Enabled(s, Exit)
    ensures var t := AfterExit(s); if t.halted then ShutDown(t) else Good(t)
    ensures AfterExit(s).halted <==> !Some(s.list, READY) && !Some(s.list, WAITING)
  {
    hide StacksOwned, Pick;
    PickNearest(s.list, s.current);
    var n := Pick(s.list).slot;
    var u, t := InState(s, UNUSED), AfterExit(s);
    ExitWaiting(s);
    if n != s.current {
      SwitchKeeps(s.list, t.list, s.current, n);
      StackHandedOver(s.list, t.list, s.current, s.pending, s.frames);
    } else if Some(u.list, WAITING) {
      SwitchKeeps(s.list, t.list, s.current, 0);
      StackHandedOver(s.list, t.list, s.current, s.pending, s.frames);
      var i :| 1 <= i < |s.list| && u.list[i].state == WAITING;
      assert t.list[i].state == WAITING;
    }
  }

  lemma ExitWaiting(s: Sched)
    requires s.current < |s.list| && s.list[s.current].state == RUNNING
    ensures Some(InState(s, UNUSED).list, WAITING) <==> Some(s.list, WAITING)
  {
    if Some(s.list, WAITING) {
      var i :| 1 <= i < |s.list| && s.list[i].state == WAITING;
      assert InState(s, UNUSED).list[i].state == WAITING;
    }
  }

  lemma SleepKeeps(s: Sched, ticks: nat)
    requires Good(s) && Enabled(s, Sleep(ticks))
    ensures Good(AfterSleep(s, ticks))
  {
    var w := s.list[s.current := s.list[s.current].(sleep := ticks, state := WAITING)];
    PickIdle(w);
    assert w[s.current].state == WAITING;
    var n := Pick(w).slot;
    var t := AfterSleep(s, ticks);
    SwitchKeeps(s.list, t.list, s.current, n);
    if n == 0 { assert t.list[s.current].state == WAITING; }
  }

  /** Every step keeps the invariant, unless it is the exit of the last process, which shuts down. */
  lemma StepKeeps(s: Sched, e: Event)
    requires Good(s) && Enabled(s, e)
    ensures var t := Step(s, e); if t.halted then e.Exit? && ShutDown(t) else Good(t)
  {
    match e
    case Tick => TickKeeps(s);
    case Exit => ExitKeeps(s);
    case Sleep(ticks) => SleepKeeps(s, ticks);
    case Clone(slot, frame) =>
    case Alarm(ticks) =>
  }
}
