/**
 * Which processes a lock or semaphore call makes ready, blocks or leaves alone, told by
 * what each process is waiting for rather than by the lists the kernel keeps.
 */
module SyncEffects {
  import opened Sync
  import opened SyncRuns

  /** The release that gives the lock up: the last of its nested ones. */
  predicate Frees(sys: System, l: nat) {
    l in sys.locks && sys.locks[l].locked && sys.locks[l].heldBy == sys.cur && sys.locks[l].lcnt == 0
  }

  /** What the count is right after a signal; 0 makes it one, as cond_wake wants. */
  predicate EnoughAfter(sys: System, s: nat, n: nat, needed: nat) {
    s in sys.sems && if n == 0 then needed <= 1 else needed <= sys.sems[s].count + n
  }

  /** The event is what process p, blocked, was waiting for. */
  predicate Wakes(sys: System, e: Event, p: nat) {
    && p in sys.rs && p in sys.task && sys.rs[p] == Blocked
    && match sys.task[p]
       case Idle => false
       case WantLock(l) => e == Release(l) && Frees(sys, l)
       case WantSem(s, k) => e.Signal? && e.s == s && EnoughAfter(sys, s, e.n, k)
  }

  /** The call cannot be granted now: the lock is another's, or the count is too small. */
  predicate MustBlock(sys: System, e: Event) {
    match e
    case Acquire(l) => l in sys.locks && sys.locks[l].locked && sys.locks[l].heldBy != sys.cur
    case Wait(s, n) => s in sys.sems && sys.sems[s].count < if n == 0 then 1 else n
    case _ => false
  }

  /** What a step does to the state of process p. */
  ghost predicate StateAfter(sys: System, e: Event, sys': System, p: nat)
    requires p in sys.rs && p in sys'.rs
  {
    sys'.rs[p] ==
    if Wakes(sys, e, p) then Ready
    else if e == Switch(p) then Running
    else if p == sys.cur && e.Switch? && sys.rs[p] == Running then Ready
    else if p == sys.cur && MustBlock(sys, e) then Blocked
    else sys.rs[p]
  }

  lemma ReleaseStates(sys: System, l: nat, p: nat)
    requires Inv(sys) && Enabled(sys, Release(l)) && DoRelease(sys, l).Ok? && p in sys.rs
    ensures p in DoRelease(sys, l).sys.rs && StateAfter(sys, Release(l), DoRelease(sys, l).sys, p)
  {
    assert LockOk(sys, l);
    if sys.rs[p] == Blocked { assert Parked(sys, p); }
  }

  lemma SignalStates(sys: System, s: nat, n: nat, p: nat)
    requires Inv(sys) && s in sys.sems && p in sys.rs
    ensures DoSignal(sys, s, n).Ok? && p in DoSignal(sys, s, n).sys.rs
    ensures StateAfter(sys, Signal(s, n), DoSignal(sys, s, n).sys, p)
  {
    SignalKeeps(sys, s, n);
    assert SemOk(sys, s);
    var m := sys.sems[s];
    var count := Raised(m.count, n);
    if Wakes(sys, Signal(s, n), p) {
      assert Parked(sys, p);
      ListedIsSatisfied(m.lst, count, Waiter(p, sys.task[p].n));
    }
    if Satisfied(m.lst, count, p) {
      var i :| 0 <= i < |m.lst| && m.lst[i].pid == p && m.lst[i].needed <= count;
      assert m.lst[i] in m.lst;
    }
  }

  /**
   * One step: exactly the blocked processes it was to wake become ready, a call that
   * cannot be granted blocks its caller, a switch trades places, and nobody else changes.
   */
  lemma StepStates(sys: System, e: Event, p: nat)
    requires Inv(sys) && Enabled(sys, e) && Exec(sys, e).Ok? && p in sys.rs
    ensures p in Exec(sys, e).sys.rs && StateAfter(sys, e, Exec(sys, e).sys, p)
  {
    match e
    case Acquire(l) => assert LockOk(sys, l);
    case Release(l) => ReleaseStates(sys, l, p);
    case Signal(s, n) => SignalStates(sys, s, n, p);
    case Wait(s, n) => assert SemOk(sys, s);
    case Switch(q) =>
  }

  /** A call returns to its caller exactly when it need not block, and concerns nobody else's call. */
  lemma StepTasks(sys: System, e: Event, p: nat)
    requires Inv(sys) && Enabled(sys, e) && Exec(sys, e).Ok? && p in sys.task
    ensures var sys' := Exec(sys, e).sys;
            && sys'.rs.Keys == sys.rs.Keys && p in sys'.task
            && (p != sys.cur || e.Release? || e.Signal? || e.Switch? ==> sys'.task[p] == sys.task[p])
            && (p == sys.cur && (e.Acquire? || e.Wait?) ==> (sys'.task[p] == Idle <==> !MustBlock(sys, e)))
            && sys'.cur == (if e.Switch? then e.q else sys.cur)
            && (sys'.switching <==> MustBlock(sys, e) || (sys.switching && !e.Switch?))
  {
    assert sys.rs.Keys == sys.task.Keys;
    hide Inv, Keep, Satisfied, WakesBlocked;
  }

  /** In every run, a process that stops being blocked has become ready, for exactly what it waited for. */
  lemma RunWakesExactly(events: seq<Event>, states: seq<System>, k: nat, p: nat)
    requires Run(events, states) && Start(states[0]) && k < |events| && p in states[k].rs
    ensures p in states[k + 1].rs && StateAfter(states[k], events[k], states[k + 1], p)
    ensures states[k].rs[p] == Blocked ==>
              states[k + 1].rs[p] == if Wakes(states[k], events[k], p) then Ready else Blocked
  {
    hide Inv, Exec;
    RunInv(events, states, k);
    assert StepAt(events, states, k);
    StepStates(states[k], events[k], p);
    if states[k].rs[p] == Blocked { BlockedStays(states[k], events[k], p); }
  }

  /** Blocked processes are neither running nor picked by the scheduler. */
  lemma BlockedStays(sys: System, e: Event, p: nat)
    requires Inv(sys) && Enabled(sys, e) && p in sys.rs && sys.rs[p] == Blocked
    ensures e != Switch(p)
  {
  }

  // --------------------------------------------------------------- conditions

  /** cond_wake leaves the count at one and every process that waited on the condition ready. */
  lemma WakeReadiesAll(sys: System, s: nat, p: nat)
    requires Inv(sys) && s in sys.sems
    ensures DoSignal(sys, s, 0).Ok?
    ensures var sys' := DoSignal(sys, s, 0).sys;
            && s in sys'.sems && sys'.sems[s].count == 1
            && (BlockedIn(sys, p, WantSem(s, 1)) ==> p in sys'.rs && sys'.rs[p] == Ready)
  {
    SignalKeeps(sys, s, 0);
    if BlockedIn(sys, p, WantSem(s, 1)) { SignalStates(sys, s, 0, p); }
  }
}
