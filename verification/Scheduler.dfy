/**
 The scheduler's process table, changed in place (kernel/scheduler.c): `sched_init`, `proc_create`,
 `find_next_ready`, `sched_tick`, `proc_yield`, `proc_sleep`, `proc_exit`, `proc_kill`,
 `proc_get` and `proc_count`. Each method is one step of `SchedulerModel`.
 */
module KernelScheduler {
  import opened Word32
  import opened SchedulerModel

  class Scheduler {
    const procs: array<Proc>
    var current: nat
    var nextPid: int
    var initialized: bool

    ghost predicate Valid()
      reads this
    {
      procs.Length == MAX_PROCS && current < MAX_PROCS
    }

    ghost function State(): Sched
      reads this, procs
    {
      Sched(procs[..], current, nextPid)
    }

    constructor ()
      ensures Valid() && !initialized && State() == Sched(seq(MAX_PROCS, _ => Zeroed), 0, 1)
      ensures fresh(procs)
    {
      procs := new Proc[MAX_PROCS](_ => Zeroed);
      current, nextPid, initialized := 0, 1, false;
      new;
      assert procs[..] == seq(MAX_PROCS, _ => Zeroed);
    }

    method SchedInit()
      requires Valid() && nextPid == 1
      modifies this, procs
      ensures Valid() && initialized && State() == Initial
    {
      forall i | 0 <= i < MAX_PROCS { procs[i] := Zeroed; }
      procs[0] := procs[0].(pid := 0, status := Running);
      current := 0;
      initialized := true;
      assert procs[..] == Initial.procs;
    }

    // The result is -1 before initialisation and when no slot is DEAD.
    method ProcCreate() returns (pid: int)
      requires Valid()
      modifies this`nextPid, procs
      ensures Valid()
      ensures !initialized ==> pid == -1 && State() == old(State())
      ensures initialized ==> State() == DoCreate(old(State()))
      ensures initialized ==> pid == if DeadSlot(old(procs[..]), 1) == MAX_PROCS then -1 else old(nextPid)
    {
      if !initialized { return -1; }
      var slot := -1;
      var i := 1;
      while i < MAX_PROCS
        invariant 1 <= i <= MAX_PROCS && slot == -1
        invariant forall k :: 1 <= k < i ==> procs[k].status != Dead
      {
        if procs[i].status == Dead { slot := i; break; }
        i := i + 1;
      }
      ghost var ps := procs[..];
      if slot < 0 {
        assert DeadSlot(ps, 1) == MAX_PROCS;
        return -1;
      }
      assert ps[slot].status == Dead;
      assert DeadSlot(ps, 1) == slot;
      procs[slot] := Zeroed;
      procs[slot] := procs[slot].(pid := nextPid);
      pid := nextPid;
      nextPid := (nextPid + 1) % WORD;
      procs[slot] := procs[slot].(status := Ready);
      assert procs[..] == ps[slot := Proc(pid, Ready, 0, 0)];
    }

    method FindNextReady() returns (next: nat)
      requires Valid()
      ensures next == NextReady(procs[..], current) < MAX_PROCS
    {
      var n: nat := MAX_PROCS;
      var i := (current + 1) % MAX_PROCS;
      while n > 0
        invariant 0 <= i < MAX_PROCS
        invariant Scan(procs[..], i, n) == NextReady(procs[..], current)
      {
        if procs[i].status == Ready { return i; }
        i := (i + 1) % MAX_PROCS;
        n := n - 1;
      }
      return 0;
    }

    method WakeSleepers(now: int)
      requires Valid()
      modifies procs
      ensures procs[..] == Wake(old(procs[..]), now)
    {
      var i := 0;
      while i < MAX_PROCS
        invariant 0 <= i <= MAX_PROCS
        invariant forall k :: 0 <= k < i ==> procs[k] == WakeOne(old(procs[k]), now)
        invariant forall k :: i <= k < MAX_PROCS ==> procs[k] == old(procs[k])
      {
        if procs[i].status == Sleeping && now >= procs[i].sleepUntil {
          procs[i] := procs[i].(status := Ready);
        }
        i := i + 1;
      }
    }

    method SchedTick(now: int)
      requires Valid()
      modifies this`current, procs
      ensures Valid()
      ensures State() == if initialized then DoTick(old(State()), now) else old(State())
    {
      if !initialized { return; }
      WakeSleepers(now);
      ghost var woken := procs[..];
      procs[current] := procs[current].(ticks := (procs[current].ticks + 1) % WORD);
      ghost var charged := procs[..];
      assert charged == Charge(woken, current);
      if procs[current].ticks % 20 != 0 { return; }
      var next := FindNextReady();
      if next == current { return; }
      if procs[current].status == Running {
        procs[current] := procs[current].(status := Ready);
      }
      procs[next] := procs[next].(status := Running);
      assert procs[..] == Switch(charged, current, next);
      current := next;
    }

    method ProcYield()
      requires Valid()
      modifies procs
      ensures State() == DoYield(old(State()))
    {
      procs[current] := procs[current].(ticks := 19);
    }

    // Up to the wait for the wake-up, which only ticks can end
    method ProcSleep(now: int, ms: int)
      requires Valid()
      modifies procs
      ensures State() == DoSleep(old(State()), now, ms)
    {
      procs[current] := procs[current].(status := Sleeping);
      procs[current] := procs[current].(sleepUntil := (now + ms) % WORD);
      ProcYield();
    }

    method ProcExit()
      requires Valid()
      modifies procs
      ensures State() == DoExit(old(State()))
    {
      procs[current] := procs[current].(status := Dead);
      ProcYield();
    }

    method ProcKill(pid: int)
      requires Valid()
      modifies procs
      ensures State() == DoKill(old(State()), pid)
    {
      var i := 1;
      while i < MAX_PROCS
        invariant 1 <= i <= MAX_PROCS
        invariant procs[..] == old(procs[..])
        invariant forall k :: 1 <= k < i ==> procs[k].pid != pid
      {
        if procs[i].pid == pid {
          assert PidSlot(procs[..], pid, 1) == i;
          procs[i] := procs[i].(status := Dead);
          return;
        }
        i := i + 1;
      }
    }
  }
}
