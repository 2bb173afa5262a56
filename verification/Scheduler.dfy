/** The scheduler as the program keeps it (gemOS-a3/schedule.c): a table of contexts and the current
    one, changed in place. Every routine is tied to its step in `Scheduling`. */
module Schedulers {
  import opened Scheduling

  class Scheduler {
    const list: array<Ctx>
    var current: nat
    var stackToFree: nat
    var frames: set<nat>
    var halted: bool

    /** A table in which the swapper runs or the process `current` does. */
    constructor (list: array<Ctx>, current: nat, frames: set<nat>)
      requires list.Length == MAX_PROCESSES && current < MAX_PROCESSES
      ensures this.list == list && St() == Sched(list[..], current, 0, frames, false)
    {
      this.list, this.current, this.frames := list, current, frames;
      stackToFree, halted := 0, false;
    }

    ghost function St(): Sched
      reads this, list
    {
      Sched(list[..], current, stackToFree, frames, halted)
    }

    /** The first slot from `from` on and below `to` in state `st`, or `to`: the body of each scan. */
    method Scan(st: State, from: nat, to: nat) returns (i: nat)
      requires from <= to <= list.Length
      ensures i == FirstIn(list[..], st, from, to)
    {
      i := from;
      while i < to && list[i].state != st
        invariant from <= i <= to && FirstIn(list[..], st, from, to) == FirstIn(list[..], st, i, to)
      {
        i := i + 1;
      }
    }

    method PickNextContext() returns (c: Choice)
      requires list.Length == MAX_PROCESSES
      ensures c == Pick(list[..])
    {
      var running := Scan(RUNNING, 1, MAX_PROCESSES);
      if running >= MAX_PROCESSES {
        var i := Scan(READY, 1, MAX_PROCESSES);
        if i < MAX_PROCESSES {
          return Next(i);
        }
        i := Scan(WAITING, 1, MAX_PROCESSES);
        return if i < MAX_PROCESSES then Next(0) else Cleanup;
      }
      var i := Scan(READY, running + 1, MAX_PROCESSES);
      if i < MAX_PROCESSES {
        return Next(i);
      }
      i := Scan(READY, 1, running);
      return Next(i);
    }

    method WaitingProcExists() returns (b: bool)
      requires list.Length == MAX_PROCESSES
      ensures b <==> Some(list[..], WAITING)
    {
      var i := Scan(WAITING, 1, MAX_PROCESSES);
      b := i < MAX_PROCESSES;
    }

    /** `signalled` are the slots for which SIGALRM is raised. */
    method DoSleepAndAlarmAccount() returns (signalled: set<nat>)
      requires list.Length == MAX_PROCESSES
      modifies list
      ensures list[..] == Accounted(old(list[..])) && signalled == Signalled(old(list[..]))
    {
      ghost var was := list[..];
      signalled := {};
      for i := 0 to MAX_PROCESSES
        invariant forall k | 0 <= k < i :: list[k] == Alarmed(Slept(was[k]))
        invariant forall k | i <= k < MAX_PROCESSES :: list[k] == was[k]
        invariant signalled == set k: nat | k < i && k in Signalled(was)
      {
        if list[i].sleep > 0 {
          list[i] := list[i].(sleep := list[i].sleep - 1);
          if list[i].sleep == 0 {
            list[i] := list[i].(state := READY);
          }
        }
        if list[i].alarm > 0 {
          list[i] := list[i].(alarm := list[i].alarm - 1);
          if list[i].alarm == 0 {
            list[i] := list[i].(alarm := list[i].config);
            if list[i].state == RUNNING {
              signalled := signalled + {i};
            }
          }
        }
      }
    }

    /** schedule_context. */
    method ScheduleContext(next: nat)
      requires next < list.Length
      modifies this`current, list
      ensures St() == Scheduled(old(St()), next)
    {
      list[next] := list[next].(state := RUNNING);
      current := next;
    }

    /** save_current_context. */
    method SaveCurrentContext(state: State)
      requires current < list.Length
      modifies list
      ensures St() == InState(old(St()), state)
    {
      list[current] := list[current].(state := state);
    }

    method HandleTimerTick() returns (signalled: set<nat>)
      requires Enabled(St(), Tick)
      modifies this`current, this`stackToFree, this`frames, this`halted, list
      ensures St() == AfterTick(old(St())) && signalled == Signalled(old(list[..]))
    {
      hide Pick, Accounted, Signalled;
      if stackToFree != 0 {
        frames := frames - {stackToFree};
        stackToFree := 0;
      }
      signalled := DoSleepAndAlarmAccount();
      var c := PickNextContext();
      if c.Cleanup? {
        halted := true;
      } else if c.slot != current {
        SaveCurrentContext(READY);
        ScheduleContext(c.slot);
      }
    }

    method DoExit()
      requires Enabled(St(), Exit)
      modifies this`current, this`stackToFree, this`halted, list
      ensures St() == AfterExit(old(St()))
    {
      hide Pick, Some;
      var c := PickNextContext();
      if c.Cleanup? {
        halted := true;
        return;
      }
      stackToFree := list[current].stack;
      SaveCurrentContext(UNUSED);
      if c.slot != current {
        ScheduleContext(c.slot);
      } else {
        var waiting := WaitingProcExists();
        if waiting {
          ScheduleContext(0);
        } else {
          halted := true;
        }
      }
    }

    method DoSleep(ticks: nat)
      requires Enabled(St(), Sleep(ticks))
      modifies this`current, this`halted, list
      ensures St() == AfterSleep(old(St()), ticks)
    {
      hide Pick;
      list[current] := list[current].(sleep := ticks);
      SaveCurrentContext(WAITING);
      assert list[..] == old(list[..])[current := old(list[..])[current].(sleep := ticks, state := WAITING)];
      var c := PickNextContext();
      if c.Cleanup? {
        halted := true;
      } else {
        ScheduleContext(c.slot);
      }
    }

    /** `slot` is what get_new_ctx returns and `frame` what os_pfn_alloc returns. */
    method DoClone(slot: nat, frame: nat)
      requires Enabled(St(), Clone(slot, frame))
      modifies this`frames, list
      ensures St() == AfterClone(old(St()), slot, frame)
    {
      list[slot] := list[slot].(sleep := 0, config := 0, alarm := 0);
      frames := frames + {frame};
      list[slot] := list[slot].(stack := frame);
      list[slot] := list[slot].(state := READY);
    }

    method DoAlarm(ticks: nat)
      requires Enabled(St(), Alarm(ticks))
      modifies list
      ensures St() == AfterAlarm(old(St()), ticks)
    {
      list[current] := list[current].(config := ticks, alarm := ticks);
    }
  }
}
