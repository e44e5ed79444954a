/**
 The round-robin scheduler as a state machine (kernel/scheduler.c).

 Every API call and every timer tick is one atomic step. The PIT counter is an argument of the
 steps that read it, and a context switch is a change of `current`. Stacks, names and saved
 registers are not part of the state.
 */
module SchedulerModel {
  import opened Word32

  const MAX_PROCS: nat := 16
  const QUANTUM: nat := 20

  datatype Status = Dead | Ready | Running | Sleeping | Blocked

  datatype Proc = Proc(pid: int, status: Status, ticks: nat, sleepUntil: int)

  const Zeroed: Proc := Proc(0, Dead, 0, 0)

  datatype Sched = Sched(procs: seq<Proc>, current: nat, nextPid: int)

  ghost predicate Shape(s: Sched) { |s.procs| == MAX_PROCS && s.current < MAX_PROCS }

  datatype Event =
    | Create
    | Tick(now: int)
    | Yield
    | Sleep(now: int, ms: int)
    | Exit
    | Kill(pid: int)

  // ----- The steps -----

  // proc_create: lowest DEAD slot from 1 on, MAX_PROCS if there is none
  function DeadSlot(ps: seq<Proc>, from: nat): (i: nat)
    requires from <= |ps|
    ensures from <= i <= |ps|
    ensures i < |ps| ==> ps[i].status == Dead
    ensures forall k :: from <= k < i ==> ps[k].status != Dead
    decreases |ps| - from
  {
    if from == |ps| || ps[from].status == Dead then from else DeadSlot(ps, from + 1)
  }

  function DoCreate(s: Sched): Sched
    requires Shape(s)
  {
    var i := DeadSlot(s.procs, 1);
    if i == MAX_PROCS then s
    else s.(procs := s.procs[i := Proc(s.nextPid, Ready, 0, 0)], nextPid := (s.nextPid + 1) % WORD)
  }

  // find_next_ready: n slots starting at i, wrapping around; the idle slot 0 when none is READY
  function Scan(ps: seq<Proc>, i: nat, n: nat): (next: nat)
    requires |ps| == MAX_PROCS && i < MAX_PROCS
    ensures next < MAX_PROCS
    decreases n
  {
    if n == 0 then 0
    else if ps[i].status == Ready then i
    else Scan(ps, (i + 1) % MAX_PROCS, n - 1)
  }

  function NextReady(ps: seq<Proc>, current: nat): nat
    requires |ps| == MAX_PROCS && current < MAX_PROCS
  {
    Scan(ps, (current + 1) % MAX_PROCS, |ps|)
  }

  function WakeOne(p: Proc, now: int): Proc {
    if p.status == Sleeping && now >= p.sleepUntil then p.(status := Ready) else p
  }

  function Wake(ps: seq<Proc>, now: int): (r: seq<Proc>)
    ensures |r| == |ps| && forall i :: 0 <= i < |ps| ==> r[i] == WakeOne(ps[i], now)
  {
    seq(|ps|, i requires 0 <= i < |ps| => WakeOne(ps[i], now))
  }

  // procs[current_idx].ticks++
  function Charge(ps: seq<Proc>, current: nat): seq<Proc>
    requires current < |ps|
  {
    ps[current := ps[current].(ticks := (ps[current].ticks + 1) % WORD)]
  }

  function Switch(ps: seq<Proc>, current: nat, next: nat): seq<Proc>
    requires current < |ps| && next < |ps|
  {
    var old_ := if ps[current].status == Running then ps[current := ps[current].(status := Ready)] else ps;
    old_[next := old_[next].(status := Running)]
  }

  function DoTick(s: Sched, now: int): Sched
    requires Shape(s)
  {
    var ps := Charge(Wake(s.procs, now), s.current);
    var next := NextReady(ps, s.current);
    if ps[s.current].ticks % QUANTUM != 0 || next == s.current then s.(procs := ps)
    else s.(procs := Switch(ps, s.current, next), current := next)
  }

  function DoYield(s: Sched): Sched
    requires Shape(s)
  {
    s.(procs := s.procs[s.current := s.procs[s.current].(ticks := 19)])
  }

  function DoSleep(s: Sched, now: int, ms: int): Sched
    requires Shape(s)
  {
    var p := s.procs[s.current].(status := Sleeping, sleepUntil := (now + ms) % WORD);
    DoYield(s.(procs := s.procs[s.current := p]))
  }

  function DoExit(s: Sched): Sched
    requires Shape(s)
  {
    DoYield(s.(procs := s.procs[s.current := s.procs[s.current].(status := Dead)]))
  }

  // proc_kill: lowest slot from 1 on with the pid, |ps| if there is none
  function PidSlot(ps: seq<Proc>, pid: int, from: nat): (i: nat)
    requires from <= |ps|
    ensures from <= i <= |ps|
    ensures i < |ps| ==> ps[i].pid == pid
    ensures forall k :: from <= k < i ==> ps[k].pid != pid
    decreases |ps| - from
  {
    if from == |ps| || ps[from].pid == pid then from else PidSlot(ps, pid, from + 1)
  }

  function DoKill(s: Sched, pid: int): Sched
    requires Shape(s)
  {
    var i := PidSlot(s.procs, pid, 1);
    if i == MAX_PROCS then s else s.(procs := s.procs[i := s.procs[i].(status := Dead)])
  }

  function Step(s: Sched, e: Event): (r: Sched)
    requires Shape(s)
    ensures Shape(r)
  {
    match e
    case Create => DoCreate(s)
    case Tick(now) => DoTick(s, now)
    case Yield => DoYield(s)
    case Sleep(now, ms) => DoSleep(s, now, ms)
    case Exit => DoExit(s)
    case Kill(pid) => DoKill(s, pid)
  }

  function Run(s: Sched, es: seq<Event>): (r: Sched)
    requires Shape(s)
    ensures Shape(r)
    decreases |es|
  {
    if |es| == 0 then s else Run(Step(s, es[0]), es[1..])
  }

  const Initial: Sched :=
    Sched([Proc(0, Running, 0, 0)] + seq(MAX_PROCS - 1, _ => Zeroed), 0, 1)

  // ----- Safety -----

  ghost predicate Inv(s: Sched) {
    && Shape(s)
    && 1 <= s.nextPid < WORD
    && Turns(s.procs, s.current) && Pids(s.procs, s.nextPid)
    && (s.current > 0 ==> s.procs[s.current].pid > 0)
  }

  // At most one slot is RUNNING, and it is the current one; a slot that is not current stopped at a
  // quantum boundary.
  ghost predicate Turns(ps: seq<Proc>, current: nat)
    requires |ps| == MAX_PROCS
  {
    && (forall i :: 0 <= i < MAX_PROCS && ps[i].status == Running ==> i == current)
    && (forall i :: 0 <= i < MAX_PROCS && i != current ==> ps[i].ticks % QUANTUM == 0)
    && (forall i :: 0 <= i < MAX_PROCS ==> ps[i].ticks < WORD)
  }

  // Fresh, zero only in slot 0 and in slots never used, otherwise unique
  ghost predicate Pids(ps: seq<Proc>, next: int)
    requires |ps| == MAX_PROCS
  {
    && ps[0].pid == 0
    && (forall i :: 0 <= i < MAX_PROCS ==> 0 <= ps[i].pid < next)
    && (forall i :: 1 <= i < MAX_PROCS && ps[i].pid == 0 ==> ps[i].status == Dead)
    && (forall i, j :: 0 <= i < j < MAX_PROCS && ps[i].pid == ps[j].pid ==> ps[i].pid == 0)
  }

  // The pid counter does not wrap.
  predicate FreshPid(s: Sched, e: Event) { e.Create? ==> s.nextPid + 1 < WORD }

  predicate FreshRun(s: Sched, es: seq<Event>)
    requires Shape(s)
    decreases |es|
  {
    |es| == 0 || (FreshPid(s, es[0]) && FreshRun(Step(s, es[0]), es[1..]))
  }

  // Besides, every call comes from a process that is neither asleep nor dead.
  predicate Allowed(s: Sched, e: Event)
    requires Shape(s)
  {
    FreshPid(s, e) && (!e.Tick? ==> s.procs[s.current].status in {Running, Ready})
  }

  predicate AllowedRun(s: Sched, es: seq<Event>)
    requires Shape(s)
    decreases |es|
  {
    |es| == 0 || (Allowed(s, es[0]) && AllowedRun(Step(s, es[0]), es[1..]))
  }

  lemma InitialInv()
    ensures Inv(Initial)
  {
  }

  /** sched_init leaves process 0 running and every other slot free. */
  lemma InitialState()
    ensures Initial.current == 0 && Initial.nextPid == 1 && |Initial.procs| == 16
    ensures Initial.procs[0] == Proc(0, Running, 0, 0)
    ensures forall i :: 1 <= i < 16 ==> Initial.procs[i].status == Dead
  {
  }

  lemma CreateInv(s: Sched)
    requires Inv(s) && s.nextPid + 1 < WORD
    ensures Inv(DoCreate(s))
  {
    var i := DeadSlot(s.procs, 1);
    if i < MAX_PROCS {
      FreshPids(s.procs, s.nextPid, i);
      FreshTurns(s.procs, s.current, s.nextPid, i);
    }
  }

  lemma FreshTurns(ps: seq<Proc>, current: nat, pid: int, i: nat)
    requires |ps| == MAX_PROCS && i < MAX_PROCS && Turns(ps, current)
    ensures Turns(ps[i := Proc(pid, Ready, 0, 0)], current)
  {
  }

  lemma FreshPids(ps: seq<Proc>, next: int, i: nat)
    requires |ps| == MAX_PROCS && 1 <= i < MAX_PROCS && 1 <= next && Pids(ps, next)
    ensures Pids(ps[i := Proc(next, Ready, 0, 0)], next + 1)
  {
  }

  lemma KillInv(s: Sched, pid: int)
    requires Inv(s)
    ensures Inv(DoKill(s, pid))
  {
  }

  lemma YieldInv(s: Sched)
    requires Inv(s)
    ensures Inv(DoYield(s))
  {
  }

  // A process that sleeps or ends
  lemma StatusInv(s: Sched, status: Status, until: int)
    requires Inv(s) && status in {Sleeping, Dead}
    ensures Inv(s.(procs := s.procs[s.current := s.procs[s.current].(status := status, sleepUntil := until)]))
  {
  }

  lemma OwnInv(s: Sched, now: int, ms: int)
    requires Inv(s)
    ensures Inv(DoYield(s)) && Inv(DoSleep(s, now, ms)) && Inv(DoExit(s))
  {
    var asleep, ended := s.procs[s.current].(status := Sleeping, sleepUntil := (now + ms) % WORD),
        s.procs[s.current].(status := Dead);
    YieldInv(s);
    StatusInv(s, Sleeping, (now + ms) % WORD);
    YieldInv(s.(procs := s.procs[s.current := asleep]));
    StatusInv(s, Dead, s.procs[s.current].sleepUntil);
    YieldInv(s.(procs := s.procs[s.current := ended]));
  }

  // Waking and charging change neither pids nor the ticks of other slots.
  lemma ChargedInv(s: Sched, now: int)
    requires Inv(s)
    ensures Inv(s.(procs := Charge(Wake(s.procs, now), s.current)))
  {
    WokenInv(s, now);
    var woken := s.(procs := Wake(s.procs, now));
    ChargeInv(woken);
  }

  lemma WokenInv(s: Sched, now: int)
    requires Inv(s)
    ensures Inv(s.(procs := Wake(s.procs, now)))
  {
  }

  lemma ChargeInv(s: Sched)
    requires Inv(s)
    ensures Inv(s.(procs := Charge(s.procs, s.current)))
  {
  }

  lemma SwitchInv(s: Sched, next: nat)
    requires Inv(s) && next < MAX_PROCS && next != s.current
    requires s.procs[s.current].ticks % QUANTUM == 0
    requires next == 0 || s.procs[next].status == Ready
    ensures Inv(s.(procs := Switch(s.procs, s.current, next), current := next))
  {
  }

  lemma ScanReady(ps: seq<Proc>, i: nat, n: nat)
    requires |ps| == MAX_PROCS && i < MAX_PROCS
    ensures Scan(ps, i, n) == 0 || ps[Scan(ps, i, n)].status == Ready
    decreases n
  {
  }

  /** Every step keeps the invariant, from whatever caller, as long as the pid counter does not
      wrap. */
  lemma StepInv(s: Sched, e: Event)
    requires Inv(s) && FreshPid(s, e)
    ensures Inv(Step(s, e))
  {
    match e
    case Create => CreateInv(s);
    case Tick(now) =>
      ChargedInv(s, now);
      var ps := Charge(Wake(s.procs, now), s.current);
      ScanReady(ps, (s.current + 1) % MAX_PROCS, |ps|);
      var next := NextReady(ps, s.current);
      if ps[s.current].ticks % QUANTUM == 0 && next != s.current {
        SwitchInv(s.(procs := ps), next);
      }
    case Yield => OwnInv(s, 0, 0);
    case Sleep(now, ms) => OwnInv(s, now, ms);
    case Exit => OwnInv(s, 0, 0);
    case Kill(pid) => KillInv(s, pid);
  }

  lemma {:induction false} RunInv(s: Sched, es: seq<Event>)
    requires Inv(s) && FreshRun(s, es)
    ensures Inv(Run(s, es))
    decreases |es|
  {
    if |es| > 0 {
      StepInv(s, es[0]);
      RunInv(Step(s, es[0]), es[1..]);
    }
  }

  /** Safety of every run from `sched_init`, whoever makes the calls. */
  lemma SafeFromInit(es: seq<Event>)
    requires FreshRun(Initial, es)
    ensures Inv(Run(Initial, es))
  {
    InitialInv();
    RunInv(Initial, es);
  }

  // ----- Who changes a slot -----

  // How a switch treats slot i
  lemma SwitchSlot(ps: seq<Proc>, current: nat, next: nat, i: nat)
    requires current < |ps| && next < |ps| && i < |ps| && next != current
    ensures var r := Switch(ps, current, next);
      && |r| == |ps|
      && r[i] == if i == next then ps[i].(status := Running)
                 else if i == current && ps[i].status == Running then ps[i].(status := Ready)
                 else ps[i]
  {
  }

  lemma ChargedSlot(ps: seq<Proc>, now: int, current: nat, i: nat)
    requires current < |ps| && i < |ps|
    ensures var r, woken := Charge(Wake(ps, now), current), WakeOne(ps[i], now);
      |r| == |ps| && r[i] == if i == current then woken.(ticks := (woken.ticks + 1) % WORD) else woken
  {
  }

  // Where a tick goes
  lemma TickGoes(s: Sched, now: int)
    requires Shape(s)
    ensures var r, ps := DoTick(s, now), Charge(Wake(s.procs, now), s.current);
      && |ps| == MAX_PROCS
      && (r.current == s.current ==> r.procs == ps)
      && (r.current != s.current ==> r.procs == Switch(ps, s.current, r.current))
      && (r.current == s.current || r.current == 0 || ps[r.current].status == Ready)
  {
    var ps := Charge(Wake(s.procs, now), s.current);
    NextIsReady(ps, s.current);
  }

  lemma NextIsReady(ps: seq<Proc>, current: nat)
    requires |ps| == MAX_PROCS && current < MAX_PROCS
    ensures NextReady(ps, current) == 0 || ps[NextReady(ps, current)].status == Ready
  {
    ScanReady(ps, (current + 1) % MAX_PROCS, |ps|);
  }

  // How one tick treats slot i
  lemma TickSlot(s: Sched, now: int, i: nat)
    requires Shape(s) && i < MAX_PROCS
    ensures var r, woken := Step(s, Tick(now)), WakeOne(s.procs[i], now);
      && (r.current == s.current || r.current == 0 || WakeOne(s.procs[r.current], now).status == Ready)
      && (i != s.current && i != r.current ==> r.procs[i] == woken)
      && (i == r.current != s.current ==> r.procs[i] == woken.(status := Running))
      && (i == s.current ==> r.procs[i].sleepUntil == woken.sleepUntil)
      && (i == s.current ==>
        r.procs[i].status == if woken.status == Running && r.current != i then Ready else woken.status)
  {
    var ps, next := Charge(Wake(s.procs, now), s.current), Step(s, Tick(now)).current;
    TickGoes(s, now);
    ChargedSlot(s.procs, now, s.current, i);
    ChargedSlot(s.procs, now, s.current, next);
    if next != s.current { SwitchSlot(ps, s.current, next, i); }
  }

  /** proc_kill(pid) kills exactly the process with that pid; slot 0, and every slot when pid is 0,
      stays as it is. */
  lemma KillExact(s: Sched, pid: int, i: nat)
    requires Inv(s) && i < MAX_PROCS
    ensures Step(s, Kill(pid)).procs[i] ==
            if i >= 1 && s.procs[i].pid == pid then s.procs[i].(status := Dead) else s.procs[i]
    ensures pid == 0 ==> Step(s, Kill(pid)) == s
  {
    var k := PidSlot(s.procs, pid, 1);
    if k < MAX_PROCS && pid == 0 {
      assert s.procs[k := s.procs[k].(status := Dead)] == s.procs;
    }
  }

  /** A sleeper outside slot 0 stays asleep, and is not dispatched, until it is killed or a tick
      finds its time come; such a tick does wake it. */
  lemma SleeperStep(s: Sched, e: Event, i: nat)
    requires Inv(s) && (s.current == i ==> e.Tick? || e.Create? || e.Kill?)
    requires 1 <= i < MAX_PROCS && s.procs[i].status == Sleeping
    ensures var r := Step(s, e);
      && (r.procs[i].status == Sleeping <==> e != Kill(s.procs[i].pid) && !(e.Tick? && e.now >= s.procs[i].sleepUntil))
      && (r.procs[i].status == Sleeping ==>
        r.procs[i].sleepUntil == s.procs[i].sleepUntil && r.procs[i].pid == s.procs[i].pid)
      && (e == Kill(s.procs[i].pid) ==> r.procs[i].status == Dead)
      && (e.Tick? && e.now >= s.procs[i].sleepUntil ==> r.procs[i].status in {Ready, Running})
      && (r.procs[i].status == Sleeping && r.current == i ==> s.current == i)
  {
    match e
    case Tick(now) => TickSlot(s, now, i);
    case Kill(pid) => KillExact(s, pid, i);
    case _ =>
  }

  predicate Undisturbed(es: seq<Event>, pid: int, until: int) {
    forall e :: e in es ==> e != Kill(pid) && (e.Tick? ==> e.now < until)
  }

  // The process in slot i makes no call while it is current: it waits or halts.
  predicate Silent(s: Sched, es: seq<Event>, i: nat)
    requires Shape(s)
    decreases |es|
  {
    |es| == 0 ||
    (FreshPid(s, es[0]) && (s.current == i ==> es[0].Tick?) && Silent(Step(s, es[0]), es[1..], i))
  }

  // Ticks until a slot that cannot go on is switched out
  function Stay(s: Sched, i: nat): nat
    requires Shape(s) && i < MAX_PROCS
  {
    if s.current == i then QUANTUM - s.procs[i].ticks % QUANTUM else 0
  }

  // A tick on a current slot that is not READY after it
  lemma LeavingTick(s: Sched, now: int, i: nat)
    requires Shape(s) && 1 <= i == s.current && s.procs[i].ticks < WORD
    requires WakeOne(s.procs[i], now).status in {Sleeping, Dead}
    ensures Stay(Step(s, Tick(now)), i) < Stay(s, i)
  {
    TickCurrent(s, now);
    TickCount(s.procs[i].ticks);
    OthersNext(s, now);
  }

  lemma OthersNext(s: Sched, now: int)
    requires Shape(s) && 1 <= s.current && WakeOne(s.procs[s.current], now).status in {Sleeping, Dead}
    ensures NextReady(Charge(Wake(s.procs, now), s.current), s.current) != s.current
  {
    ChargedSlot(s.procs, now, s.current, s.current);
    NextIsReady(Charge(Wake(s.procs, now), s.current), s.current);
  }

  /** A sleeper outside slot 0 that is not killed stays asleep at ticks before its time, and is not
      dispatched; when it is still the current one it leaves at the end of its quantum. */
  lemma {:induction false} SleeperRun(s: Sched, es: seq<Event>, i: nat)
    requires Inv(s) && Silent(s, es, i)
    requires 1 <= i < MAX_PROCS && s.procs[i].status == Sleeping
    requires Undisturbed(es, s.procs[i].pid, s.procs[i].sleepUntil)
    ensures Run(s, es).procs[i].status == Sleeping
    ensures Ticks(es) >= Stay(s, i) ==> Run(s, es).current != i
    decreases |es|
  {
    if |es| > 0 {
      StepInv(s, es[0]);
      SleeperStep(s, es[0], i);
      if s.current == i { LeavingTick(s, es[0].now, i); }
      SleeperRun(Step(s, es[0]), es[1..], i);
    }
  }

  /** So a process that calls proc_sleep is switched out at the next tick and sleeps on while the counter
      is below now + ms in 32 bits; the first tick from there on wakes it. */
  lemma SleepRun(s: Sched, now: int, ms: int, es: seq<Event>, later: int)
    requires Inv(s) && 1 <= s.current && Silent(Step(s, Sleep(now, ms)), es, s.current)
    requires Undisturbed(es, s.procs[s.current].pid, (now + ms) % 0x1_0000_0000)
    requires later >= (now + ms) % 0x1_0000_0000
    ensures var i, r := s.current, Run(Step(s, Sleep(now, ms)), es);
      && r.procs[i].status == Sleeping && (Ticks(es) > 0 ==> r.current != i)
      && Step(r, Tick(later)).procs[i].status in {Ready, Running}
  {
    var i, r := s.current, Step(s, Sleep(now, ms));
    StepInv(s, Sleep(now, ms));
    SleeperRun(r, es, i);
    SilentFresh(r, es, i);
    RunInv(r, es);
    SleeperKeeps(r, es, i);
    SleeperStep(Run(r, es), Tick(later), i);
  }

  lemma {:induction false} SilentFresh(s: Sched, es: seq<Event>, i: nat)
    requires Shape(s) && Silent(s, es, i)
    ensures FreshRun(s, es)
    decreases |es|
  {
    if |es| > 0 { SilentFresh(Step(s, es[0]), es[1..], i); }
  }

  lemma {:induction false} SleeperKeeps(s: Sched, es: seq<Event>, i: nat)
    requires Inv(s) && Silent(s, es, i)
    requires 1 <= i < MAX_PROCS && s.procs[i].status == Sleeping
    requires Undisturbed(es, s.procs[i].pid, s.procs[i].sleepUntil)
    ensures Run(s, es).procs[i].sleepUntil == s.procs[i].sleepUntil
    decreases |es|
  {
    if |es| > 0 {
      StepInv(s, es[0]);
      SleeperStep(s, es[0], i);
      SleeperKeeps(Step(s, es[0]), es[1..], i);
    }
  }

  /** A DEAD slot other than 0 comes back exactly when `proc_create` takes it, or when the process
      in it was killed while current and then still calls `proc_sleep`. It is never dispatched. */
  lemma DeadStep(s: Sched, e: Event, i: nat)
    requires Inv(s)
    requires 1 <= i < MAX_PROCS && s.procs[i].status == Dead
    ensures var r := Step(s, e);
      && (r.procs[i].status == Dead <==> !(e.Create? && DeadSlot(s.procs, 1) == i) && !(e.Sleep? && s.current == i))
      && (r.current == i ==> s.current == i)
  {
    match e
    case Tick(now) => TickSlot(s, now, i);
    case Kill(pid) => KillExact(s, pid, i);
    case _ =>
  }

  // No proc_create of the run takes slot i.
  predicate NotReused(s: Sched, es: seq<Event>, i: nat)
    requires Shape(s)
    decreases |es|
  {
    |es| == 0 ||
    ((es[0].Create? ==> DeadSlot(s.procs, 1) != i) && NotReused(Step(s, es[0]), es[1..], i))
  }

  /** A dead slot stays dead until proc_create takes it, and is not dispatched; when it is still the
      current one it leaves at the end of its quantum. */
  lemma {:induction false} DeadRun(s: Sched, es: seq<Event>, i: nat)
    requires Inv(s) && Silent(s, es, i) && NotReused(s, es, i)
    requires 1 <= i < MAX_PROCS && s.procs[i].status == Dead
    ensures Run(s, es).procs[i].status == Dead
    ensures Ticks(es) >= Stay(s, i) ==> Run(s, es).current != i
    decreases |es|
  {
    if |es| > 0 {
      StepInv(s, es[0]);
      DeadStep(s, es[0], i);
      if s.current == i { LeavingTick(s, es[0].now, i); }
      DeadRun(Step(s, es[0]), es[1..], i);
    }
  }

  /** So a process that calls proc_exit is switched out at the next tick, for good. */
  lemma ExitRun(s: Sched, es: seq<Event>)
    requires Inv(s) && 1 <= s.current
    requires Silent(Step(s, Exit), es, s.current) && NotReused(Step(s, Exit), es, s.current)
    ensures var i, r := s.current, Run(Step(s, Exit), es);
      r.procs[i].status == Dead && (Ticks(es) > 0 ==> r.current != i)
  {
    StepInv(s, Exit);
    DeadRun(Step(s, Exit), es, s.current);
  }

  // ----- Bounded waiting -----

  // Slots from a on to b, going round: 0..MAX_PROCS-1
  function Gap(a: nat, b: nat): int {
    if b >= a then b - a else b + MAX_PROCS - a
  }

  // Slots after a up to b, going round: 1..MAX_PROCS
  function Distance(a: nat, b: nat): int {
    if b > a then b - a else b + MAX_PROCS - a
  }

  // The scan stops at or before a READY slot.
  lemma {:induction false} ScanStops(ps: seq<Proc>, i: nat, n: nat, j: nat)
    requires |ps| == MAX_PROCS && i < MAX_PROCS && j < MAX_PROCS
    requires ps[j].status == Ready && Gap(i, j) < n
    ensures ps[Scan(ps, i, n)].status == Ready && Gap(i, Scan(ps, i, n)) <= Gap(i, j)
    decreases n
  {
    if ps[i].status != Ready {
      ScanStops(ps, (i + 1) % MAX_PROCS, n - 1, j);
    }
  }

  lemma GapDistance(c: nat, n: nat, j: nat)
    requires c < MAX_PROCS && n < MAX_PROCS && j < MAX_PROCS && j != c
    requires Gap((c + 1) % MAX_PROCS, n) <= Gap((c + 1) % MAX_PROCS, j)
    ensures n != c && (n == j || Distance(n, j) < Distance(c, j))
  {
  }

  lemma NextReadyCloser(ps: seq<Proc>, current: nat, j: nat)
    requires |ps| == MAX_PROCS && current < MAX_PROCS && j < MAX_PROCS && j != current
    requires ps[j].status == Ready
    ensures var next := NextReady(ps, current);
      next != current && (next == j || Distance(next, j) < Distance(current, j))
  {
    ScanStops(ps, (current + 1) % MAX_PROCS, |ps|, j);
    GapDistance(current, NextReady(ps, current), j);
  }

  // Ticks that can still pass before slot i is dispatched
  function Patience(s: Sched, i: nat): int
    requires Shape(s)
  {
    QUANTUM * Distance(s.current, i) - s.procs[s.current].ticks % QUANTUM
  }

  predicate Harmless(s: Sched, e: Event, i: nat)
    requires Shape(s) && i < MAX_PROCS
  {
    && (e.Kill? ==> PidSlot(s.procs, e.pid, 1) != i)
    && (e.Create? ==> DeadSlot(s.procs, 1) != s.current)
  }

  /** While slot i is READY and waits, every step keeps it READY or dispatches it; a tick uses up
      patience and no other step adds any. */
  lemma WaitingStep(s: Sched, e: Event, i: nat)
    requires Inv(s) && i < MAX_PROCS && i != s.current && s.procs[i].status == Ready
    requires Harmless(s, e, i)
    ensures var r := Step(s, e);
      r.current == i ||
      (r.procs[i].status == Ready && Patience(r, i) + (if e.Tick? then 1 else 0) <= Patience(s, i))
  {
    match e
    case Tick(now) =>
      var ps := Charge(Wake(s.procs, now), s.current);
      NextReadyCloser(ps, s.current, i);
      TickSlot(s, now, i);
      TickPatience(s, now, i);
    case Create => assert DeadSlot(s.procs, 1) != i;
    case _ =>
  }

  lemma TickCount(t: nat)
    requires t < WORD
    ensures (t + 1) % WORD % QUANTUM == 0 || (t + 1) % WORD % QUANTUM == t % QUANTUM + 1
  {
    if t + 1 < WORD {
      assert (t + 1) % WORD == t + 1;
    }
  }

  // The two outcomes of a tick
  lemma TickCurrent(s: Sched, now: int)
    requires Shape(s)
    ensures var ps := Charge(Wake(s.procs, now), s.current);
      var r, t := Step(s, Tick(now)), (s.procs[s.current].ticks + 1) % WORD;
      var next := NextReady(ps, s.current);
      if t % QUANTUM != 0 || next == s.current then r.current == s.current && r.procs[r.current].ticks == t
      else r.current == next && r.procs[next].ticks == s.procs[next].ticks
  {
    var ps := Charge(Wake(s.procs, now), s.current);
    var next := NextReady(ps, s.current);
    ChargedSlot(s.procs, now, s.current, next);
    ChargedSlot(s.procs, now, s.current, s.current);
    if next != s.current { SwitchSlot(ps, s.current, next, next); }
  }

  // A READY slot has the scan stop at or before it.
  lemma TickNext(s: Sched, now: int, i: nat)
    requires Shape(s) && i < MAX_PROCS && i != s.current && s.procs[i].status == Ready
    ensures var next := NextReady(Charge(Wake(s.procs, now), s.current), s.current);
      next < MAX_PROCS && next != s.current && (next == i || Distance(next, i) < Distance(s.current, i))
  {
    var ps := Charge(Wake(s.procs, now), s.current);
    assert ps[i].status == Ready;
    NextReadyCloser(ps, s.current, i);
  }

  lemma TickPatience(s: Sched, now: int, i: nat)
    requires Shape(s) && s.procs[s.current].ticks < WORD
    requires forall k :: 0 <= k < MAX_PROCS && k != s.current ==> s.procs[k].ticks % QUANTUM == 0
    requires i < MAX_PROCS && i != s.current && s.procs[i].status == Ready
    ensures var r := Step(s, Tick(now)); r.current == i || Patience(r, i) < Patience(s, i)
  {
    TickNext(s, now, i);
    TickCurrent(s, now);
    TickCount(s.procs[s.current].ticks);
  }

  predicate HarmlessRun(s: Sched, es: seq<Event>, i: nat)
    requires Shape(s) && i < MAX_PROCS
    decreases |es|
  {
    |es| == 0 ||
    (FreshPid(s, es[0]) && Harmless(s, es[0], i) && HarmlessRun(Step(s, es[0]), es[1..], i))
  }

  function Ticks(es: seq<Event>): nat {
    if |es| == 0 then 0 else Ticks(es[1..]) + if es[0].Tick? then 1 else 0
  }

  // Slot i becomes current at some point of the run.
  predicate Dispatched(s: Sched, es: seq<Event>, i: nat)
    requires Shape(s)
    decreases |es|
  {
    s.current == i || (|es| > 0 && Dispatched(Step(s, es[0]), es[1..], i))
  }

  lemma {:induction false} WaitingRun(s: Sched, es: seq<Event>, i: nat)
    requires Inv(s) && i < MAX_PROCS && s.procs[i].status == Ready
    requires HarmlessRun(s, es, i) && Ticks(es) >= Patience(s, i)
    ensures Dispatched(s, es, i)
    decreases |es|
  {
    if i != s.current {
      assert |es| > 0;
      StepInv(s, es[0]);
      WaitingStep(s, es[0], i);
      if Step(s, es[0]).current != i {
        WaitingRun(Step(s, es[0]), es[1..], i);
      } else {
        assert Dispatched(Step(s, es[0]), es[1..], i);
      }
    }
  }

  // No proc_kill of the run hits slot i.
  predicate Unkilled(s: Sched, es: seq<Event>, i: nat)
    requires Shape(s)
    decreases |es|
  {
    |es| == 0 ||
    ((es[0].Kill? ==> PidSlot(s.procs, es[0].pid, 1) != i) && Unkilled(Step(s, es[0]), es[1..], i))
  }

  // The slot of a live caller is not reused.
  lemma LiveCaller(s: Sched, e: Event)
    requires Shape(s) && Allowed(s, e) && e.Create?
    ensures DeadSlot(s.procs, 1) != s.current
  {
  }

  lemma {:induction false} UnkilledHarmless(s: Sched, es: seq<Event>, i: nat)
    requires Shape(s) && i < MAX_PROCS && AllowedRun(s, es) && Unkilled(s, es, i)
    ensures HarmlessRun(s, es, i)
    decreases |es|
  {
    if |es| > 0 {
      if es[0].Create? { LiveCaller(s, es[0]); }
      UnkilledHarmless(Step(s, es[0]), es[1..], i);
    }
  }

  /** A READY process is dispatched within 300 ticks, whatever else happens in between, unless it is
      killed. */
  lemma BoundedWaiting(s: Sched, es: seq<Event>, i: nat)
    requires Inv(s) && i < MAX_PROCS && s.procs[i].status == Ready
    requires AllowedRun(s, es) && Unkilled(s, es, i) && Ticks(es) >= 300
    ensures Dispatched(s, es, i)
  {
    UnkilledHarmless(s, es, i);
    if i != s.current {
      assert Patience(s, i) <= 300;
      WaitingRun(s, es, i);
    }
  }

  /** The same for a process found READY at any point of any run from `sched_init`. */
  lemma WaitingFromInit(es: seq<Event>, rest: seq<Event>, i: nat)
    requires FreshRun(Initial, es) && i < MAX_PROCS
    requires var s := Run(Initial, es);
      && s.procs[i].status == Ready
      && AllowedRun(s, rest) && Unkilled(s, rest, i) && Ticks(rest) >= 300
    ensures Dispatched(Run(Initial, es), rest, i)
  {
    SafeFromInit(es);
    BoundedWaiting(Run(Initial, es), rest, i);
  }

  // ----- A new process -----

  // proc_create finds slot i: the lowest DEAD one from 1 on.
  predicate LowestDead(s: Sched, i: nat)
    requires Shape(s)
  {
    1 <= i < MAX_PROCS && s.procs[i].status == Dead && forall k :: 1 <= k < i ==> s.procs[k].status != Dead
  }

  /** proc_create makes the lowest dead slot from 1 on a READY process with the next pid and no ticks,
      and leaves all others as they are; without a dead slot it does nothing. */
  lemma CreateExact(s: Sched, i: nat)
    requires Inv(s) && s.nextPid + 1 < WORD
    ensures LowestDead(s, i) ==>
      var r := Step(s, Create);
      && r.procs[i].status == Ready && r.procs[i].pid == s.nextPid && r.procs[i].ticks == 0
      && r.current == s.current && r.nextPid == s.nextPid + 1
      && forall k :: 0 <= k < 16 && k != i ==> r.procs[k] == s.procs[k]
    ensures (forall k :: 1 <= k < 16 ==> s.procs[k].status != Dead) ==> Step(s, Create) == s
  {
    if LowestDead(s, i) { assert DeadSlot(s.procs, 1) == i; }
  }

  /** A process that a live caller creates is dispatched within 300 ticks, whatever else happens in
      between, unless it is killed. */
  lemma CreatedRuns(s: Sched, es: seq<Event>, i: nat)
    requires Inv(s) && Allowed(s, Create) && LowestDead(s, i)
    requires var r := Step(s, Create); AllowedRun(r, es) && Unkilled(r, es, i)
    requires Ticks(es) >= 300
    ensures Dispatched(Step(s, Create), es, i)
  {
    CreateExact(s, i);
    StepInv(s, Create);
    BoundedWaiting(Step(s, Create), es, i);
  }

  /** The same at any point of any run from sched_init. */
  lemma CreatedRunsFromInit(before: seq<Event>, es: seq<Event>, i: nat)
    requires FreshRun(Initial, before)
    requires var s := Run(Initial, before); Allowed(s, Create) && LowestDead(s, i)
    requires var r := Step(Run(Initial, before), Create); AllowedRun(r, es) && Unkilled(r, es, i)
    requires Ticks(es) >= 300
    ensures Dispatched(Step(Run(Initial, before), Create), es, i)
  {
    SafeFromInit(before);
    CreatedRuns(Run(Initial, before), es, i);
  }

  // ----- The quantum -----

  // No step of the run gives the processor up before its time.
  predicate NoYield(es: seq<Event>) { forall e :: e in es ==> !e.Yield? && !e.Sleep? && !e.Exit? }

  lemma NextTick(t: nat)
    requires t + 1 < WORD
    ensures (t + 1) % WORD == t + 1
    ensures (t + 1) % 20 == if t % 20 == 19 then 0 else t % 20 + 1
  {
  }

  lemma KeepsTick(s: Sched, now: int)
    requires Shape(s) && s.procs[s.current].ticks + 1 < WORD && s.procs[s.current].ticks % 20 != 19
    ensures var r := Step(s, Tick(now));
      r.current == s.current && r.procs[r.current].ticks == s.procs[s.current].ticks + 1
  {
    var t := s.procs[s.current].ticks;
    NextTick(t);
    assert (t + 1) % WORD % QUANTUM != 0;
    TickStays(s, now);
  }

  // A tick inside the quantum
  lemma TickStays(s: Sched, now: int)
    requires Shape(s) && (s.procs[s.current].ticks + 1) % WORD % QUANTUM != 0
    ensures var r := Step(s, Tick(now));
      r.current == s.current && r.procs[r.current].ticks == (s.procs[s.current].ticks + 1) % WORD
  {
    ChargedSlot(s.procs, now, s.current, s.current);
  }

  lemma RoomLeft(t: nat, n: nat)
    requires t % 20 + n < 20 && n > 0
    ensures t % 20 != 19 && (t + 1) % 20 + (n - 1) < 20
  {
  }

  // A proc_create can only take the slot of a dead current process, and then it starts anew.
  lemma KeepsCall(s: Sched, e: Event)
    requires Shape(s) && (e.Create? || e.Kill?)
    ensures var r := Step(s, e);
      r.current == s.current && (r.procs[r.current].ticks == s.procs[s.current].ticks || r.procs[r.current].ticks == 0)
  {
  }

  /** A process that does not yield, sleep or exit keeps the processor until its count of ticks is a
      multiple of 20 again: a dispatched one for 19 ticks. */
  lemma {:induction false} KeepsCpu(s: Sched, es: seq<Event>)
    requires Shape(s) && NoYield(es)
    requires s.procs[s.current].ticks % 20 + Ticks(es) < 20 && s.procs[s.current].ticks + Ticks(es) < WORD - 20
    ensures Run(s, es).current == s.current
    decreases |es|
  {
    if |es| > 0 {
      var e, rest := es[0], es[1..];
      assert e in es && NoYield(rest);
      if e.Tick? {
        RoomLeft(s.procs[s.current].ticks, Ticks(es));
        KeepsTick(s, e.now);
      } else {
        KeepsCall(s, e);
      }
      KeepsCpu(Step(s, e), rest);
    }
  }

  /** And at the tick that completes the 20, or the first one after proc_yield, a READY process takes
      over, the next one in turn. */
  lemma QuantumEnds(s: Sched, now: int, i: nat)
    requires Inv(s) && i < MAX_PROCS && i != s.current && s.procs[i].status == Ready
    requires s.procs[s.current].ticks % 20 == 19 && s.procs[s.current].ticks + 1 < WORD
    ensures var r := Step(s, Tick(now));
      && r.current != s.current && (r.current == i || Distance(r.current, i) < Distance(s.current, i))
      && r.procs[r.current].status == Running
  {
    TickLeaves(s, now, i);
    TickSlot(s, now, Step(s, Tick(now)).current);
  }

  lemma TickLeaves(s: Sched, now: int, i: nat)
    requires Shape(s) && i < MAX_PROCS && i != s.current && s.procs[i].status == Ready
    requires s.procs[s.current].ticks % 20 == 19 && s.procs[s.current].ticks + 1 < WORD
    ensures var r := Step(s, Tick(now));
      r.current != s.current && (r.current == i || Distance(r.current, i) < Distance(s.current, i))
  {
    TickNext(s, now, i);
    TickCurrent(s, now);
    NextTick(s.procs[s.current].ticks);
  }

  lemma YieldEnds(s: Sched, now: int, i: nat)
    requires Inv(s) && i < MAX_PROCS && i != s.current && s.procs[i].status == Ready
    ensures var r := Step(Step(s, Yield), Tick(now));
      && r.current != s.current && (r.current == i || Distance(r.current, i) < Distance(s.current, i))
      && r.procs[r.current].status == Running
  {
    StepInv(s, Yield);
    QuantumEnds(Step(s, Yield), now, i);
  }
}
