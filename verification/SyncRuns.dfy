/** Every interleaving of lock and semaphore calls. */
module SyncRuns {
  import opened Sync

  ghost predicate Run(events: seq<Event>, states: seq<System>) {
    && |states| == |events| + 1
    && forall k | 0 <= k < |events| :: StepAt(events, states, k)
  }

  ghost predicate StepAt(events: seq<Event>, states: seq<System>, k: nat)
    requires k < |events| && |states| == |events| + 1
  {
    && states[k].cur in states[k].rs && Enabled(states[k], events[k])
    && Exec(states[k], events[k]) == Ok(states[k + 1])
  }

  /** The system before any call: one running process, everything free. */
  ghost predicate Start(sys: System) {
    && sys.rs.Keys == sys.task.Keys && sys.cur in sys.rs && !sys.switching
    && (forall p | p in sys.rs :: sys.task[p] == Idle && sys.rs[p] == if p == sys.cur then Running else Ready)
    && (forall l | l in sys.locks :: sys.locks[l] == Lock(false, 0, 0, []))
    && (forall s | s in sys.sems :: sys.sems[s].lst == [])
  }

  /**
   * Neither assertion of the semaphore code can fail, and a lock call stops the kernel
   * exactly when the caller releases a lock it does not hold.
   */
  lemma ExecSafe(sys: System, e: Event)
    requires Inv(sys) && Enabled(sys, e)
    ensures Exec(sys, e).Panic? <==> e.Release? && !(sys.locks[e.l].locked && sys.locks[e.l].heldBy == sys.cur)
    ensures Exec(sys, e).Ok? ==> Inv(Exec(sys, e).sys)
  {
    hide Inv, DoSignal, DoWait, DoAcquire, DoSwitch;
    assert sys.cur in sys.rs by { InvCur(sys); }
    match e
    case Acquire(l) => AcquireKeeps(sys, l);
    case Release(l) => if DoRelease(sys, l).Ok? { ReleaseKeeps(sys, l); }
    case Signal(s, n) => SignalKeeps(sys, s, n);
    case Wait(s, n) => WaitKeeps(sys, s, n);
    case Switch(q) => SwitchKeeps(sys, q);
  }

  lemma InvCur(sys: System)
    requires Inv(sys)
    ensures sys.cur in sys.rs
  {
  }

  lemma {:induction false} RunInv(events: seq<Event>, states: seq<System>, k: nat)
    requires Run(events, states) && Start(states[0]) && k <= |events|
    ensures Inv(states[k])
  {
    if k > 0 {
      hide Inv;
      RunInv(events, states, k - 1);
      assert StepAt(events, states, k - 1);
      ExecSafe(states[k - 1], events[k - 1]);
    }
  }

  /**
   * No lost wakeups: in every reachable state a blocked process waits for exactly one
   * thing, which it cannot have yet: a lock somebody else holds, or more than the count.
   */
  lemma NobodyWaitsInVain(events: seq<Event>, states: seq<System>, k: nat, p: nat)
    requires Run(events, states) && Start(states[0]) && k <= |events|
    requires p in states[k].rs && states[k].rs[p] == Blocked
    ensures p in states[k].task
    ensures match states[k].task[p]
            case Idle => false
            case WantLock(l) =>
              l in states[k].locks && states[k].locks[l].locked && states[k].locks[l].heldBy != p
            case WantSem(s, n) => s in states[k].sems && states[k].sems[s].count < n
    ensures forall l | l in states[k].locks && p in states[k].locks[l].lst :: states[k].task[p] == WantLock(l)
    ensures forall s, w | s in states[k].sems && w in states[k].sems[s].lst && w.pid == p ::
              states[k].task[p] == WantSem(s, w.needed)
  {
    RunInv(events, states, k);
    var sys := states[k];
    assert Parked(sys, p);
    forall l | l in sys.locks && p in sys.locks[l].lst ensures sys.task[p] == WantLock(l) { assert LockOk(sys, l); }
    forall s, w | s in sys.sems && w in sys.sems[s].lst && w.pid == p ensures sys.task[p] == WantSem(s, w.needed) {
      assert SemOk(sys, s);
    }
    match sys.task[p]
    case Idle =>
    case WantLock(l) => assert LockOk(sys, l);
    case WantSem(s, n) => assert SemOk(sys, s);
  }

  // ------------------------------------------------------------------- locks

  predicate Got(e: Event, sys: System, sys': System, p: nat, l: nat) {
    e == Acquire(l) && sys.cur == p && p in sys'.task && sys'.task[p] == Idle
  }

  /** How many acquires of l by p have returned, less its releases, in the first k steps. */
  ghost function Depth(events: seq<Event>, states: seq<System>, k: nat, p: nat, l: nat): int
    requires Run(events, states) && k <= |events|
  {
    if k == 0 then 0
    else
      Depth(events, states, k - 1, p, l)
      + (if Got(events[k - 1], states[k - 1], states[k], p, l) then 1 else 0)
      - (if events[k - 1] == Release(l) && states[k - 1].cur == p then 1 else 0)
  }

  /** The nesting depth that the lock's own fields give p. */
  function Held(sys: System, p: nat, l: nat): nat
    requires l in sys.locks
  {
    if sys.locks[l].locked && sys.locks[l].heldBy == p then sys.locks[l].lcnt + 1 else 0
  }

  lemma StepHeld(sys: System, e: Event, p: nat, l: nat)
    requires Inv(sys) && Enabled(sys, e) && Exec(sys, e).Ok? && l in sys.locks
    ensures l in Exec(sys, e).sys.locks
    ensures var sys' := Exec(sys, e).sys;
            Held(sys', p, l) == Held(sys, p, l)
                              + (if Got(e, sys, sys', p, l) then 1 else 0)
                              - (if e == Release(l) && sys.cur == p then 1 else 0)
  {
    assert LockOk(sys, l);
  }

  /**
   * A lock is held by p exactly while p has acquired it more often than released it, so it
   * becomes free after as many releases as nested acquires, and never has two holders.
   */
  lemma {:induction false} DepthIsHeld(events: seq<Event>, states: seq<System>, k: nat, p: nat, l: nat)
    requires Run(events, states) && Start(states[0]) && k <= |events| && l in states[0].locks
    ensures l in states[k].locks && Depth(events, states, k, p, l) == Held(states[k], p, l)
  {
    if k > 0 {
      DepthIsHeld(events, states, k - 1, p, l);
      RunInv(events, states, k - 1);
      assert StepAt(events, states, k - 1);
      hide Inv, Exec;
      StepHeld(states[k - 1], events[k - 1], p, l);
    }
  }

  lemma MutualExclusion(events: seq<Event>, states: seq<System>, k: nat, p: nat, q: nat, l: nat)
    requires Run(events, states) && Start(states[0]) && k <= |events| && l in states[0].locks
    requires Depth(events, states, k, p, l) > 0 && Depth(events, states, k, q, l) > 0
    ensures p == q
  {
    DepthIsHeld(events, states, k, p, l);
    DepthIsHeld(events, states, k, q, l);
  }

  // -------------------------------------------------------------- semaphores

  predicate Took(e: Event, sys: System, sys': System, s: nat) {
    e.Wait? && e.s == s && sys.cur in sys'.task && sys'.task[sys.cur] == Idle
  }

  /** Total signalled less total acquired in the first k steps. */
  ghost function Balance(events: seq<Event>, states: seq<System>, k: nat, s: nat): int
    requires Run(events, states) && k <= |events|
  {
    if k == 0 then 0
    else
      Balance(events, states, k - 1, s)
      + (if events[k - 1].Signal? && events[k - 1].s == s then events[k - 1].n else 0)
      - (if Took(events[k - 1], states[k - 1], states[k], s) then Amount(events[k - 1].n) else 0)
  }

  /** With non-zero signals, the count is what was there plus signals less acquisitions. */
  lemma {:induction false} CountIsBalance(events: seq<Event>, states: seq<System>, k: nat, s: nat)
    requires Run(events, states) && k <= |events| && s in states[0].sems
    requires forall i | 0 <= i < k && events[i].Signal? && events[i].s == s :: events[i].n > 0
    ensures s in states[k].sems
    ensures states[k].sems[s].count == states[0].sems[s].count + Balance(events, states, k, s)
  {
    if k > 0 {
      CountIsBalance(events, states, k - 1, s);
      assert StepAt(events, states, k - 1);
      StepCount(states[k - 1], events[k - 1], s);
    }
  }

  lemma StepCount(sys: System, e: Event, s: nat)
    requires sys.cur in sys.rs && Enabled(sys, e) && Exec(sys, e).Ok? && s in sys.sems
    requires e.Signal? && e.s == s ==> e.n > 0
    ensures s in Exec(sys, e).sys.sems
    ensures var sys' := Exec(sys, e).sys;
            sys'.sems[s].count == sys.sems[s].count
                                + (if e.Signal? && e.s == s then e.n else 0)
                                - (if Took(e, sys, sys', s) then Amount(e.n) else 0)
  {
  }

  /** The count of a condition: one after a wake, zero after somebody got through. */
  ghost function Condition(events: seq<Event>, states: seq<System>, k: nat, s: nat): nat
    requires Run(events, states) && k <= |events| && s in states[0].sems
  {
    if k == 0 then states[0].sems[s].count
    else if events[k - 1].Signal? && events[k - 1].s == s then 1
    else if Took(events[k - 1], states[k - 1], states[k], s) then 0
    else Condition(events, states, k - 1, s)
  }

  /**
   * Signalled through cond_wake only, a semaphore that starts at 0 or 1 stays binary and
   * remembers one wake-up until a waiter takes it.
   */
  lemma {:induction false} ConditionsAreBinary(events: seq<Event>, states: seq<System>, k: nat, s: nat)
    requires Run(events, states) && k <= |events| && s in states[0].sems && states[0].sems[s].count <= 1
    requires forall i | 0 <= i < k && events[i].Signal? && events[i].s == s :: events[i].n == 0
    ensures s in states[k].sems && states[k].sems[s].count == Condition(events, states, k, s) <= 1
  {
    if k > 0 {
      ConditionsAreBinary(events, states, k - 1, s);
      assert StepAt(events, states, k - 1);
      ConditionStep(states[k - 1], events[k - 1], s);
    }
  }

  lemma ConditionStep(sys: System, e: Event, s: nat)
    requires sys.cur in sys.rs && Enabled(sys, e) && Exec(sys, e).Ok?
    requires s in sys.sems && sys.sems[s].count <= 1 && (e.Signal? && e.s == s ==> e.n == 0)
    ensures var sys' := Exec(sys, e).sys;
            && s in sys'.sems
            && sys'.sems[s].count == (if e.Signal? && e.s == s then 1 else if Took(e, sys, sys', s) then 0
                                      else sys.sems[s].count)
  {
    hide Keep, WakeSatisfied, WakesBlocked, WakeAll;
  }
}
