/** kernel/sync.c as it runs: lock and semaphore fields updated in place, loops over waiters. */
module SyncPrimitives {
  import opened Sync

  class KernelSync {
    var cur: nat
    var rs: map<nat, RunState>
    var locks: map<nat, Lock>
    var sems: map<nat, Sem>
    ghost var switching: bool
    ghost var task: map<nat, Task>

    ghost function Sys(): System
      reads this
    {
      System(cur, switching, rs, task, locks, sems)
    }

    /** acquire_lock up to its return or its call of sched(); true when the lock was taken. */
    method AcquireLock(l: nat) returns (taken: bool)
      requires Enabled(Sys(), Acquire(l))
      modifies this
      ensures Sys() == DoAcquire(old(Sys()), l)
      ensures taken <==> cur in task && task[cur] == Idle
    {
      var lock := locks[l];
      if lock.locked && lock.heldBy == cur {
        locks := locks[l := lock.(lcnt := lock.lcnt + 1)];
        task := task[cur := Idle];
        taken := true;
      } else if lock.locked {
        locks := locks[l := lock.(lst := [cur] + lock.lst)];
        rs := rs[cur := Blocked];
        task, switching := task[cur := WantLock(l)], true;
        taken := false;
      } else {
        locks := locks[l := lock.(locked := true, heldBy := cur, lcnt := 0)];
        task := task[cur := Idle];
        taken := true;
      }
    }

    /** release_lock; false stands for the panic over a lock the caller does not hold. */
    method ReleaseLock(l: nat) returns (ok: bool)
      requires Inv(Sys()) && Enabled(Sys(), Release(l))
      modifies this`locks, this`rs
      ensures ok <==> old(locks[l].locked && locks[l].heldBy == cur)
      ensures DoRelease(old(Sys()), l) == if ok then Ok(Sys()) else Panic
      ensures !ok ==> Sys() == old(Sys())
    {
      assert LockOk(Sys(), l);
      hide Inv, LockOk;
      var lock := locks[l];
      ok := lock.locked && lock.heldBy == cur;
      if !ok { return; }
      if lock.lcnt == 0 {
        locks := locks[l := lock.(locked := false, heldBy := 0)];
        ReadyWaiters(lock.lst);
        locks := locks[l := locks[l].(lst := [])];
      } else {
        locks := locks[l := lock.(lcnt := lock.lcnt - 1)];
      }
    }

    /** The loop of release_lock. */
    method ReadyWaiters(lst: seq<nat>)
      requires forall p | p in lst :: p in rs
      modifies this`rs
      ensures rs == WakeAll(old(rs), lst)
      ensures forall p | p in rs :: p in old(rs) && rs[p] == if p in lst then Ready else old(rs[p])
    {
      var i := 0;
      while i < |lst|
        invariant 0 <= i <= |lst|
        invariant rs == WakeAll(old(rs), lst[..i])
      {
        rs := rs[lst[i] := Ready];
        i := i + 1;
        assert lst[..i] == lst[..i - 1] + [lst[i - 1]];
      }
      assert lst[..i] == lst;
    }

    /** sem_signal. */
    method SemSignal(s: nat, n: nat)
      requires Inv(Sys()) && s in sems
      modifies this`sems, this`rs
      ensures Ok(Sys()) == DoSignal(old(Sys()), s, n)
    {
      hide Inv, Keep, WakeSatisfied, WakesBlocked, DistinctPids, BlockedIn;
      SignalKeeps(Sys(), s, n);
      Waiters(Sys(), s);
      var count := if n == 0 then 1 else sems[s].count + n;
      sems := sems[s := sems[s].(count := count)];
      var onto := WakeWaiters(sems[s].lst, count);
      sems := sems[s := sems[s].(lst := onto)];
      assert sems == old(sems)[s := Sem(count, onto)];
    }

    /** The loop of sem_signal: wake the waiters that have enough now, relist the others. */
    method WakeWaiters(lst: seq<Waiter>, count: nat) returns (onto: seq<Waiter>)
      requires DistinctPids(lst)
      requires forall w | w in lst :: w.pid in rs && rs[w.pid] == Blocked
      modifies this`rs
      ensures onto == Keep(lst, count, [])
      ensures rs == WakeSatisfied(old(rs), lst, count)
      ensures forall w | w in lst :: w.pid in rs && rs[w.pid] == if w.needed <= count then Ready else Blocked
    {
      onto := [];
      var i := 0;
      assert lst[0..] == lst;
      while i < |lst|
        invariant 0 <= i <= |lst|
        invariant Keep(lst[i..], count, onto) == Keep(lst, count, [])
        invariant rs == WakeSatisfied(old(rs), lst[..i], count)
      {
        assert lst[i] in lst;
        assert lst[i..][0] == lst[i] && lst[i..][1..] == lst[i + 1..];
        NotYetSatisfied(lst, count, i);
        SatisfiedSnoc(lst, count, i);
        if lst[i].needed <= count {
          assert rs[lst[i].pid] == Blocked;
          rs := rs[lst[i].pid := Ready];
        } else {
          onto := [lst[i]] + onto;
        }
        i := i + 1;
      }
      assert lst[..i] == lst;
      forall w | w in lst ensures Satisfied(lst, count, w.pid) <==> w.needed <= count {
        ListedIsSatisfied(lst, count, w);
      }
    }

    /** One round of the loop of sem_wait; true when the amount was taken. */
    method SemTryWait(s: nat, n: nat) returns (taken: bool)
      requires Inv(Sys()) && Enabled(Sys(), Wait(s, n))
      modifies this
      ensures Ok(Sys()) == DoWait(old(Sys()), s, n)
      ensures taken <==> cur in task && task[cur] == Idle
    {
      var amount := if n == 0 then 1 else n;
      assert rs[cur] == Running;
      if sems[s].count >= amount {
        sems := sems[s := sems[s].(count := sems[s].count - amount)];
        task := task[cur := Idle];
        return true;
      }
      sems := sems[s := sems[s].(lst := [Waiter(cur, amount)] + sems[s].lst)];
      rs := rs[cur := Blocked];
      task, switching := task[cur := WantSem(s, amount)], true;
      taken := false;
    }
  }

  lemma Waiters(sys: System, s: nat)
    requires Inv(sys) && s in sys.sems
    ensures DistinctPids(sys.sems[s].lst)
    ensures forall w | w in sys.sems[s].lst :: w.pid in sys.rs && sys.rs[w.pid] == Blocked
  {
  }

  /** A pid is listed once, so the waiters before it say nothing about it. */
  lemma NotYetSatisfied(lst: seq<Waiter>, count: nat, i: nat)
    requires DistinctPids(lst) && i < |lst|
    ensures !Satisfied(lst[..i], count, lst[i].pid)
  {
  }

  lemma SatisfiedSnoc(lst: seq<Waiter>, count: nat, i: nat)
    requires i < |lst|
    ensures forall p :: Satisfied(lst[..i + 1], count, p) <==>
                        Satisfied(lst[..i], count, p) || (lst[i].pid == p && lst[i].needed <= count)
  {
    forall p
      ensures Satisfied(lst[..i + 1], count, p) <==>
              Satisfied(lst[..i], count, p) || (lst[i].pid == p && lst[i].needed <= count)
    {
      if Satisfied(lst[..i + 1], count, p) {
        var k :| 0 <= k < i + 1 && lst[..i + 1][k].pid == p && lst[..i + 1][k].needed <= count;
        assert k < i ==> lst[..i][k] == lst[..i + 1][k];
      }
      if Satisfied(lst[..i], count, p) {
        var k :| 0 <= k < i && lst[..i][k].pid == p && lst[..i][k].needed <= count;
        assert lst[..i + 1][k] == lst[..i][k];
      }
      if lst[i].pid == p && lst[i].needed <= count { assert lst[..i + 1][i] == lst[i]; }
    }
  }
}
