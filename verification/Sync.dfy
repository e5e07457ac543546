/**
 * The blocking primitives of kernel/sync.c as a transition system. Each stretch between
 * acquire_global and release_global is one step; scheduler locks are enabled and lock
 * calls come from process context. Signals may also come from interrupts.
 */
module Sync {
  datatype RunState = NoProc | Created | Ready | Running | Blocked | Terminated

  /** petix_lock_t; `lst` is its waiter list, newest first. */
  datatype Lock = Lock(locked: bool, heldBy: nat, lcnt: nat, lst: seq<nat>)

  datatype Waiter = Waiter(pid: nat, needed: nat)

  /** petix_sem_t. */
  datatype Sem = Sem(count: nat, lst: seq<Waiter>)

  /** What a process is in the middle of: a blocked call is retried when it runs again. */
  datatype Task = Idle | WantLock(l: nat) | WantSem(s: nat, n: nat)

  /** `switching`: the current process has blocked itself and is on its way into sched(). */
  datatype System = System(
    cur: nat,
    switching: bool,
    rs: map<nat, RunState>,
    task: map<nat, Task>,
    locks: map<nat, Lock>,
    sems: map<nat, Sem>)

  datatype Event =
    | Acquire(l: nat)
    | Release(l: nat)
    | Signal(s: nat, n: nat)
    | Wait(s: nat, n: nat)
    | Switch(q: nat)

  datatype Outcome = Ok(sys: System) | Panic

  // ------------------------------------------------------------------- effects

  /** sem_wait with 0 waits for 1. */
  function Amount(n: nat): nat { if n == 0 then 1 else n }

  /** The count after sem_signal: 0 means a binary semaphore. */
  function Raised(count: nat, n: nat): nat { if n == 0 then 1 else count + n }

  /** The list sem_signal leaves: waiters that need more, pushed onto `onto` one by one. */
  function Keep(lst: seq<Waiter>, count: nat, onto: seq<Waiter>): seq<Waiter> {
    if lst == [] then onto
    else if lst[0].needed <= count then Keep(lst[1..], count, onto)
    else Keep(lst[1..], count, [lst[0]] + onto)
  }

  predicate Satisfied(lst: seq<Waiter>, count: nat, p: nat) {
    exists i :: 0 <= i < |lst| && lst[i].pid == p && lst[i].needed <= count
  }

  function WakeSatisfied(rs: map<nat, RunState>, lst: seq<Waiter>, count: nat): map<nat, RunState> {
    map p | p in rs :: if Satisfied(lst, count, p) then Ready else rs[p]
  }

  function WakeAll(rs: map<nat, RunState>, lst: seq<nat>): map<nat, RunState> {
    map p | p in rs :: if p in lst then Ready else rs[p]
  }

  /** The assertion of sem_signal: everybody it wakes is blocked. */
  predicate WakesBlocked(rs: map<nat, RunState>, lst: seq<Waiter>, count: nat) {
    forall i | 0 <= i < |lst| && lst[i].needed <= count :: lst[i].pid in rs && rs[lst[i].pid] == Blocked
  }

  /** A call made by the current process, or (Signal) by anybody, or the scheduler's switch. */
  predicate Enabled(sys: System, e: Event) {
    match e
    case Acquire(l) => Executes(sys) && l in sys.locks && sys.task[sys.cur] in {Idle, WantLock(l)}
    case Release(l) => Executes(sys) && l in sys.locks && sys.task[sys.cur] == Idle
    case Signal(s, _) => s in sys.sems
    case Wait(s, n) => Executes(sys) && s in sys.sems && sys.task[sys.cur] in {Idle, WantSem(s, Amount(n))}
    case Switch(q) => q in sys.rs && (sys.rs[q] == Ready || (q == sys.cur && sys.rs[q] == Running))
  }

  predicate Executes(sys: System) {
    !sys.switching && sys.cur in sys.rs && sys.cur in sys.task
  }

  function DoAcquire(sys: System, l: nat): System
    requires Enabled(sys, Acquire(l))
  {
    var p, k := sys.cur, sys.locks[l];
    if k.locked && k.heldBy == p then
      sys.(locks := sys.locks[l := k.(lcnt := k.lcnt + 1)], task := sys.task[p := Idle])
    else if k.locked then
      sys.(locks := sys.locks[l := k.(lst := [p] + k.lst)], task := sys.task[p := WantLock(l)],
           rs := sys.rs[p := Blocked], switching := true)
    else
      sys.(locks := sys.locks[l := k.(locked := true, heldBy := p, lcnt := 0)], task := sys.task[p := Idle])
  }

  function DoRelease(sys: System, l: nat): Outcome
    requires Enabled(sys, Release(l))
  {
    var k := sys.locks[l];
    if !(k.locked && k.heldBy == sys.cur) then Panic
    else if k.lcnt == 0 then
      Ok(sys.(locks := sys.locks[l := Lock(false, 0, k.lcnt, [])], rs := WakeAll(sys.rs, k.lst)))
    else
      Ok(sys.(locks := sys.locks[l := k.(lcnt := k.lcnt - 1)]))
  }

  function DoSignal(sys: System, s: nat, n: nat): Outcome
    requires s in sys.sems
  {
    var m := sys.sems[s];
    var count := Raised(m.count, n);
    if !WakesBlocked(sys.rs, m.lst, count) then Panic
    else
      Ok(sys.(sems := sys.sems[s := Sem(count, Keep(m.lst, count, []))],
              rs := WakeSatisfied(sys.rs, m.lst, count)))
  }

  /** One round of the loop of sem_wait, with its assertion. */
  function DoWait(sys: System, s: nat, n: nat): Outcome
    requires Enabled(sys, Wait(s, n))
  {
    var p, m := sys.cur, sys.sems[s];
    if sys.rs[p] != Running then Panic
    else if m.count >= Amount(n) then
      Ok(sys.(sems := sys.sems[s := m.(count := m.count - Amount(n))], task := sys.task[p := Idle]))
    else
      Ok(sys.(sems := sys.sems[s := m.(lst := [Waiter(p, Amount(n))] + m.lst)],
              task := sys.task[p := WantSem(s, Amount(n))],
              rs := sys.rs[p := Blocked], switching := true))
  }

  /** sched(): a running process steps back to ready, and q takes over. */
  function DoSwitch(sys: System, q: nat): System
    requires q in sys.rs && sys.cur in sys.rs
  {
    var rs1 := if sys.rs[sys.cur] == Running then sys.rs[sys.cur := Ready] else sys.rs;
    sys.(rs := rs1[q := Running], cur := q, switching := false)
  }

  function Exec(sys: System, e: Event): Outcome
    requires Enabled(sys, e) && sys.cur in sys.rs
  {
    match e
    case Acquire(l) => Ok(DoAcquire(sys, l))
    case Release(l) => DoRelease(sys, l)
    case Signal(s, n) => DoSignal(sys, s, n)
    case Wait(s, n) => DoWait(sys, s, n)
    case Switch(q) => Ok(DoSwitch(sys, q))
  }

  // ----------------------------------------------------------------- invariant

  ghost predicate DistinctPids(lst: seq<Waiter>) {
    forall i, j | 0 <= i < j < |lst| :: lst[i].pid != lst[j].pid
  }

  ghost predicate DistinctNats(lst: seq<nat>) {
    forall i, j | 0 <= i < j < |lst| :: lst[i] != lst[j]
  }

  predicate BlockedIn(sys: System, p: nat, t: Task) {
    p in sys.rs && p in sys.task && sys.rs[p] == Blocked && sys.task[p] == t
  }

  /** A free lock has no waiters; the waiters of a held one are blocked in it, and none holds it. */
  ghost predicate LockOk(sys: System, l: nat)
    requires l in sys.locks
  {
    var k := sys.locks[l];
    && (!k.locked ==> k.lst == [] && k.lcnt == 0)
    && (forall p | p in k.lst :: BlockedIn(sys, p, WantLock(l)) && p != k.heldBy)
    && DistinctNats(k.lst)
  }

  /** Every listed waiter is blocked in this semaphore and needs more than the count. */
  ghost predicate SemOk(sys: System, s: nat)
    requires s in sys.sems
  {
    var m := sys.sems[s];
    && (forall w | w in m.lst :: BlockedIn(sys, w.pid, WantSem(s, w.needed)) && w.needed > m.count)
    && DistinctPids(m.lst)
  }

  /** A blocked process is on the list of what it waits for. */
  ghost predicate Parked(sys: System, p: nat)
    requires p in sys.task
  {
    match sys.task[p]
    case Idle => false
    case WantLock(l) => l in sys.locks && p in sys.locks[l].lst
    case WantSem(s, n) => s in sys.sems && Waiter(p, n) in sys.sems[s].lst
  }

  ghost predicate Inv(sys: System) {
    && sys.rs.Keys == sys.task.Keys && sys.cur in sys.rs
    && (!sys.switching ==> sys.rs[sys.cur] == Running)
    && (forall p | p in sys.rs && sys.rs[p] == Running :: p == sys.cur)
    && (forall l | l in sys.locks :: LockOk(sys, l))
    && (forall s | s in sys.sems :: SemOk(sys, s))
    && (forall p | p in sys.rs && sys.rs[p] == Blocked :: Parked(sys, p))
  }

  lemma {:induction false} KeepMembers(lst: seq<Waiter>, count: nat, onto: seq<Waiter>, w: Waiter)
    ensures w in Keep(lst, count, onto) <==> w in onto || (w in lst && w.needed > count)
  {
    if lst != [] {
      assert w in lst <==> w == lst[0] || w in lst[1..];
      KeepMembers(lst[1..], count, if lst[0].needed <= count then onto else [lst[0]] + onto, w);
    }
  }

  ghost predicate Apart(a: seq<Waiter>, b: seq<Waiter>) {
    forall i, j | 0 <= i < |a| && 0 <= j < |b| :: a[i].pid != b[j].pid
  }

  lemma {:induction false} KeepDistinct(lst: seq<Waiter>, count: nat, onto: seq<Waiter>)
    requires DistinctPids(lst) && DistinctPids(onto) && Apart(lst, onto)
    ensures DistinctPids(Keep(lst, count, onto))
  {
    if lst != [] {
      var onto' := if lst[0].needed <= count then onto else [lst[0]] + onto;
      assert forall i | 0 <= i < |lst[1..]| :: lst[1..][i] == lst[i + 1];
      KeepDistinct(lst[1..], count, onto');
    }
  }

  lemma ListedIsSatisfied(lst: seq<Waiter>, count: nat, w: Waiter)
    requires DistinctPids(lst) && w in lst
    ensures Satisfied(lst, count, w.pid) <==> w.needed <= count
  {
  }

  // ------------------------------------------------------------------- safety

  ghost predicate BlockedKept(sys: System, sys': System) {
    forall p, t | BlockedIn(sys, p, t) :: BlockedIn(sys', p, t)
  }

  lemma LockFrame(sys: System, sys': System, l: nat)
    requires l in sys.locks && LockOk(sys, l) && BlockedKept(sys, sys')
    requires l in sys'.locks && sys'.locks[l].lst == sys.locks[l].lst
    requires sys'.locks[l].heldBy == sys.locks[l].heldBy
    requires !sys'.locks[l].locked ==> !sys.locks[l].locked && sys'.locks[l].lcnt == sys.locks[l].lcnt
    ensures LockOk(sys', l)
  {
  }

  lemma SemFrame(sys: System, sys': System, s: nat)
    requires s in sys.sems && SemOk(sys, s) && BlockedKept(sys, sys')
    requires s in sys'.sems && sys'.sems[s].lst == sys.sems[s].lst && sys'.sems[s].count <= sys.sems[s].count
    ensures SemOk(sys', s)
  {
  }

  /** The current process does not appear on any list while it executes. */
  lemma CurUnlisted(sys: System)
    requires Inv(sys) && !sys.switching
    ensures forall l | l in sys.locks :: sys.cur !in sys.locks[l].lst
    ensures forall s, w | s in sys.sems && w in sys.sems[s].lst :: w.pid != sys.cur
  {
  }

  lemma AcquireKeeps(sys: System, l: nat)
    requires Inv(sys) && Enabled(sys, Acquire(l))
    ensures Inv(DoAcquire(sys, l))
  {
    var sys' := DoAcquire(sys, l);
    CurUnlisted(sys);
    AcquireFrame(sys, l);
    hide LockOk, SemOk, Parked, BlockedKept;
    forall k | k in sys'.locks ensures LockOk(sys', k) {
      if k == l { AcquiredLock(sys, l); } else { LockFrame(sys, sys', k); }
    }
    forall s | s in sys'.sems ensures SemOk(sys', s) { SemFrame(sys, sys', s); }
    forall q | q in sys'.rs && sys'.rs[q] == Blocked ensures Parked(sys', q) {
      AcquireParked(sys, l, q);
    }
  }

  lemma AcquireFrame(sys: System, l: nat)
    requires Enabled(sys, Acquire(l)) && sys.cur in sys.rs && sys.cur in sys.task && sys.rs[sys.cur] == Running
    ensures BlockedKept(sys, DoAcquire(sys, l))
  {
  }

  lemma AcquiredLock(sys: System, l: nat)
    requires Enabled(sys, Acquire(l)) && sys.cur in sys.rs && sys.cur in sys.task
    requires LockOk(sys, l) && sys.cur !in sys.locks[l].lst && BlockedKept(sys, DoAcquire(sys, l))
    ensures LockOk(DoAcquire(sys, l), l)
  {
  }

  lemma AcquireParked(sys: System, l: nat, q: nat)
    requires Enabled(sys, Acquire(l)) && q in DoAcquire(sys, l).rs && DoAcquire(sys, l).rs[q] == Blocked
    requires sys.cur in sys.rs && sys.rs[sys.cur] == Running && q in sys.task
    requires q in sys.rs && sys.rs[q] == Blocked ==> Parked(sys, q)
    ensures q in DoAcquire(sys, l).task && Parked(DoAcquire(sys, l), q)
  {
  }

  lemma ReleaseKeeps(sys: System, l: nat)
    requires Inv(sys) && Enabled(sys, Release(l)) && DoRelease(sys, l).Ok?
    ensures Inv(DoRelease(sys, l).sys)
  {
    var sys' := DoRelease(sys, l).sys;
    assert LockOk(sys, l);
    forall k | k in sys'.locks ensures LockOk(sys', k) {
      assert LockOk(sys, k);
    }
    forall s | s in sys'.sems ensures SemOk(sys', s) {
      assert SemOk(sys, s);
    }
    forall q | q in sys'.rs && sys'.rs[q] == Blocked ensures Parked(sys', q) {
      assert Parked(sys, q);
    }
  }

  /** The assertion in sem_signal never fires. */
  lemma SignalKeeps(sys: System, s: nat, n: nat)
    requires Inv(sys) && s in sys.sems
    ensures DoSignal(sys, s, n).Ok? && Inv(DoSignal(sys, s, n).sys)
  {
    var m := sys.sems[s];
    var count := Raised(m.count, n);
    assert SemOk(sys, s);
    assert forall i | 0 <= i < |m.lst| :: m.lst[i] in m.lst;
    var sys' := DoSignal(sys, s, n).sys;
    var lst' := Keep(m.lst, count, []);
    forall w ensures w in lst' <==> w in m.lst && w.needed > count { KeepMembers(m.lst, count, [], w); }
    forall w | w in m.lst ensures Satisfied(m.lst, count, w.pid) <==> w.needed <= count {
      ListedIsSatisfied(m.lst, count, w);
    }
    KeepDistinct(m.lst, count, []);
    SignalOthers(sys, sys', s, count);
  }

  lemma SignalOthers(sys: System, sys': System, s: nat, count: nat)
    requires Inv(sys) && s in sys.sems
    requires s in sys'.sems
    requires var m := sys.sems[s];
             && sys' == sys.(sems := sys.sems[s := Sem(count, sys'.sems[s].lst)],
                            rs := WakeSatisfied(sys.rs, m.lst, count))
             && (forall w :: w in sys'.sems[s].lst <==> w in m.lst && w.needed > count)
             && (forall w | w in m.lst :: Satisfied(m.lst, count, w.pid) <==> w.needed <= count)
             && DistinctPids(sys'.sems[s].lst)
    ensures Inv(sys')
  {
    hide Keep, DoSignal;
    var m := sys.sems[s];
    assert SemOk(sys, s);
    forall p | Satisfied(m.lst, count, p) ensures exists k :: BlockedIn(sys, p, WantSem(s, k)) {
      var i :| 0 <= i < |m.lst| && m.lst[i].pid == p && m.lst[i].needed <= count;
      assert m.lst[i] in m.lst;
      assert BlockedIn(sys, p, WantSem(s, m.lst[i].needed));
    }
    forall k | k in sys'.locks ensures LockOk(sys', k) {
      assert LockOk(sys, k);
    }
    forall t | t in sys'.sems ensures SemOk(sys', t) {
      assert SemOk(sys, t);
    }
    forall q | q in sys'.rs && sys'.rs[q] == Blocked ensures Parked(sys', q) {
      assert Parked(sys, q);
    }
  }

  /** The assertion in sem_wait never fires. */
  lemma WaitKeeps(sys: System, s: nat, n: nat)
    requires Inv(sys) && Enabled(sys, Wait(s, n))
    ensures DoWait(sys, s, n).Ok? && Inv(DoWait(sys, s, n).sys)
  {
    var sys' := DoWait(sys, s, n).sys;
    CurUnlisted(sys);
    WaitFrame(sys, s, n);
    WaitOthers(sys, s, n);
    hide LockOk, SemOk, Parked, BlockedKept, DoWait;
    forall k | k in sys'.locks ensures LockOk(sys', k) { LockFrame(sys, sys', k); }
    forall t | t in sys'.sems ensures SemOk(sys', t) {
      if t == s { WaitedSem(sys, s, n); } else { SemFrame(sys, sys', t); }
    }
    forall q | q in sys'.rs && sys'.rs[q] == Blocked ensures Parked(sys', q) {
      WaitParked(sys, s, n, q);
    }
  }

  lemma WaitFrame(sys: System, s: nat, n: nat)
    requires Enabled(sys, Wait(s, n)) && sys.cur in sys.rs && sys.cur in sys.task && sys.rs[sys.cur] == Running
    ensures DoWait(sys, s, n).Ok? && BlockedKept(sys, DoWait(sys, s, n).sys)
  {
  }

  /** The parts of the invariant that do not look at the lists, and what a wait leaves alone. */
  lemma WaitOthers(sys: System, s: nat, n: nat)
    requires Enabled(sys, Wait(s, n)) && sys.rs.Keys == sys.task.Keys && sys.cur in sys.rs
    requires sys.rs[sys.cur] == Running && forall p | p in sys.rs && sys.rs[p] == Running :: p == sys.cur
    ensures DoWait(sys, s, n).Ok?
    ensures var sys' := DoWait(sys, s, n).sys;
            && sys'.rs.Keys == sys'.task.Keys == sys.rs.Keys && sys'.cur == sys.cur && sys'.cur in sys'.rs
            && (!sys'.switching ==> sys'.rs[sys'.cur] == Running)
            && (forall p | p in sys'.rs && sys'.rs[p] == Running :: p == sys'.cur)
            && sys'.locks == sys.locks && sys'.sems.Keys == sys.sems.Keys
            && (forall t | t in sys.sems && t != s :: sys'.sems[t] == sys.sems[t])
  {
  }

  lemma WaitedSem(sys: System, s: nat, n: nat)
    requires Enabled(sys, Wait(s, n)) && sys.cur in sys.rs && sys.cur in sys.task && sys.rs[sys.cur] == Running
    requires SemOk(sys, s) && (forall w | w in sys.sems[s].lst :: w.pid != sys.cur)
    requires BlockedKept(sys, DoWait(sys, s, n).sys)
    ensures SemOk(DoWait(sys, s, n).sys, s)
  {
  }

  lemma WaitParked(sys: System, s: nat, n: nat, q: nat)
    requires Enabled(sys, Wait(s, n)) && sys.cur in sys.rs && sys.rs[sys.cur] == Running
    requires DoWait(sys, s, n).Ok? && q in DoWait(sys, s, n).sys.rs && DoWait(sys, s, n).sys.rs[q] == Blocked
    requires q in sys.task && (q in sys.rs && sys.rs[q] == Blocked ==> Parked(sys, q))
    ensures q in DoWait(sys, s, n).sys.task && Parked(DoWait(sys, s, n).sys, q)
  {
  }

  lemma SwitchKeeps(sys: System, q: nat)
    requires Inv(sys) && Enabled(sys, Switch(q))
    ensures Inv(DoSwitch(sys, q))
  {
    var sys' := DoSwitch(sys, q);
    forall k | k in sys'.locks ensures LockOk(sys', k) {
      assert LockOk(sys, k);
    }
    forall t | t in sys'.sems ensures SemOk(sys', t) {
      assert SemOk(sys, t);
    }
    forall p | p in sys'.rs && sys'.rs[p] == Blocked ensures Parked(sys', p) {
      assert Parked(sys, p);
    }
  }
}
