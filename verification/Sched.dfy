/** The round-robin scheduler sched() of kernel/proc.c. */
module Sched {
  import opened Sync
  import opened ProcTable

  type States = rs: seq<RunState> | |rs| == PTABLE_SIZE witness seq(PTABLE_SIZE, _ => NoProc)

  /** A running process first steps back to ready. */
  function StepBack(rs: States, cur: nat): States
    requires cur < PTABLE_SIZE
  {
    if rs[cur] == Running then rs[cur := Ready] else rs
  }

  /** How far the scan from slot `cur` has to go to reach slot q: 1 for the next, 1024 for cur itself. */
  function Distance(cur: nat, q: nat): (d: nat)
    requires cur < PTABLE_SIZE && q < PTABLE_SIZE
    ensures 1 <= d <= PTABLE_SIZE
  {
    if q > cur then q - cur else q - cur + PTABLE_SIZE
  }

  /** What one pass of the scan finds. */
  datatype Pick = Chosen(off: nat) | Halt | NoProcess

  /** The scan from distance d on; `blocked` records whether a blocked process was seen. */
  function Scan(rs: States, cur: nat, d: nat, blocked: bool): (r: Pick)
    requires cur < PTABLE_SIZE && 1 <= d <= PTABLE_SIZE + 1
    ensures r.Chosen? ==> r.off < PTABLE_SIZE
    decreases PTABLE_SIZE + 1 - d
  {
    if d == PTABLE_SIZE + 1 then if blocked then Halt else NoProcess
    else
      var off := Round(cur, d);
      if rs[off] == Ready then Chosen(off)
      else Scan(rs, cur, d + 1, blocked || rs[off] == Blocked)
  }

  /** One scheduling decision: the chosen process runs, and nobody else changes. */
  function Decide(rs: States, cur: nat, off: nat): States
    requires cur < PTABLE_SIZE && off < PTABLE_SIZE
  {
    StepBack(rs, cur)[off := Running]
  }

  // ---------------------------------------------------------------- the choice

  lemma RoundDistance(cur: nat, d: nat)
    requires cur < PTABLE_SIZE && 1 <= d <= PTABLE_SIZE
    ensures Distance(cur, Round(cur, d)) == d
  {
  }

  lemma DistanceRound(cur: nat, q: nat)
    requires cur < PTABLE_SIZE && q < PTABLE_SIZE
    ensures Round(cur, Distance(cur, q)) == q
  {
  }

  /** The scan chooses the ready slot nearest ahead. */
  lemma {:induction false} ScanNearest(rs: States, cur: nat, d: nat, blocked: bool)
    requires cur < PTABLE_SIZE && 1 <= d <= PTABLE_SIZE + 1
    ensures var r := Scan(rs, cur, d, blocked);
            if r.Chosen? then
              && rs[r.off] == Ready && Distance(cur, r.off) >= d
              && (forall q: nat | q < PTABLE_SIZE && rs[q] == Ready && Distance(cur, q) >= d ::
                    Distance(cur, r.off) <= Distance(cur, q))
            else
              && (forall q: nat | q < PTABLE_SIZE && Distance(cur, q) >= d :: rs[q] != Ready)
              && (r == Halt <==>
                    blocked || exists q: nat :: q < PTABLE_SIZE && Distance(cur, q) >= d && rs[q] == Blocked)
    decreases PTABLE_SIZE + 1 - d
  {
    if d <= PTABLE_SIZE {
      var off := Round(cur, d);
      RoundDistance(cur, d);
      forall q: nat | q < PTABLE_SIZE && Distance(cur, q) == d ensures q == off { DistanceRound(cur, q); }
      hide Round, Distance;
      if rs[off] != Ready {
        ScanNearest(rs, cur, d + 1, blocked || rs[off] == Blocked);
      }
    }
  }

  /** q could run next: it is ready, or it is the current process and still running. */
  predicate Runnable(rs: States, cur: nat, q: nat)
    requires q < PTABLE_SIZE
  {
    rs[q] == Ready || (q == cur && rs[q] == Running)
  }

  /** What a pass over the states rs promises, for its answer p and the states rs' it leaves. */
  ghost predicate Switched(rs: States, cur: nat, p: Pick, rs': States)
    requires cur < PTABLE_SIZE
  {
    if p.Chosen? then
      && p.off < PTABLE_SIZE && Runnable(rs, cur, p.off) && rs'[p.off] == Running
      && (forall q: nat | q < PTABLE_SIZE && Runnable(rs, cur, q) :: Distance(cur, p.off) <= Distance(cur, q))
      && (forall q: nat | q < PTABLE_SIZE && q != p.off ::
            rs'[q] == if q == cur && rs[q] == Running then Ready else rs[q])
    else
      && rs' == rs
      && (forall q: nat | q < PTABLE_SIZE :: !Runnable(rs, cur, q))
      && (p == Halt <==> exists q: nat :: q < PTABLE_SIZE && rs[q] == Blocked)
  }

  /**
   * A pass picks the runnable process nearest ahead, the current one last; a preempted
   * process is left ready and everybody else as they were. It picks nobody only when
   * nobody can run, and then halts if somebody is blocked.
   */
  lemma PassSwitches(rs: States, cur: nat)
    requires cur < PTABLE_SIZE
    ensures var p := Scan(StepBack(rs, cur), cur, 1, false);
            Switched(rs, cur, p, if p.Chosen? then Decide(rs, cur, p.off) else StepBack(rs, cur))
  {
    var t := StepBack(rs, cur);
    ScanNearest(t, cur, 1, false);
    var p := Scan(t, cur, 1, false);
    hide Scan, Distance;
    assert forall q: nat | q < PTABLE_SIZE :: t[q] == Ready <==> Runnable(rs, cur, q);
    if !p.Chosen? {
      assert !Runnable(rs, cur, cur);
      assert t == rs;
    }
  }

  /** A current process that is still running is never lost: somebody is chosen, and it runs or is ready. */
  lemma RunningIsKept(rs: States, cur: nat)
    requires cur < PTABLE_SIZE && rs[cur] == Running
    ensures var p := Scan(StepBack(rs, cur), cur, 1, false);
            p.Chosen? && Decide(rs, cur, p.off)[cur] == if p.off == cur then Running else Ready
  {
    PassSwitches(rs, cur);
    assert Runnable(rs, cur, cur);
  }

  // ---------------------------------------------------------------------- runs

  /** `before[k]` is the table when decision k starts; between decisions anything may change. */
  ghost predicate Decisions(before: seq<States>, curs: seq<nat>) {
    && |curs| == |before| + 1
    && (forall k | 0 <= k < |curs| :: curs[k] < PTABLE_SIZE)
    && (forall k: nat | k < |before| :: DecisionAt(before, curs, k))
  }

  ghost predicate DecisionAt(before: seq<States>, curs: seq<nat>, k: nat)
    requires k < |before| && |curs| == |before| + 1 && curs[k] < PTABLE_SIZE
  {
    Scan(StepBack(before[k], curs[k]), curs[k], 1, false) == Chosen(curs[k + 1])
  }

  /** q wants the processor at decision k. */
  predicate Waiting(before: seq<States>, curs: seq<nat>, k: nat, q: nat)
    requires k < |before| && k < |curs| && curs[k] < PTABLE_SIZE && q < PTABLE_SIZE
  {
    Runnable(before[k], curs[k], q)
  }

  /** Skipping q brings the scan strictly closer to it. */
  lemma Closer(cur: nat, c: nat, q: nat)
    requires cur < PTABLE_SIZE && c < PTABLE_SIZE && q < PTABLE_SIZE && c != q
    requires Distance(cur, c) <= Distance(cur, q)
    ensures Distance(c, q) < Distance(cur, q)
  {
  }

  lemma {:induction false} SkippedIsCloser(before: seq<States>, curs: seq<nat>, n: nat, q: nat)
    requires Decisions(before, curs) && n <= |before| && q < PTABLE_SIZE
    requires forall k: nat | k < n :: Waiting(before, curs, k, q) && curs[k + 1] != q
    ensures Distance(curs[n], q) + n <= Distance(curs[0], q)
  {
    if n > 0 {
      SkippedIsCloser(before, curs, n - 1, q);
      assert DecisionAt(before, curs, n - 1) && Waiting(before, curs, n - 1, q);
      PassSwitches(before[n - 1], curs[n - 1]);
      Closer(curs[n - 1], curs[n], q);
    }
  }

  /**
   * Starvation freedom: a process that is ready or running at each decision is chosen within
   * PTABLE_SIZE decisions, whatever the other processes do in between.
   */
  lemma ChosenWithinOneRound(before: seq<States>, curs: seq<nat>, q: nat)
    requires Decisions(before, curs) && q < PTABLE_SIZE && |before| >= PTABLE_SIZE
    requires forall k: nat | k < |before| :: Waiting(before, curs, k, q)
    ensures exists k :: 1 <= k <= PTABLE_SIZE && curs[k] == q
  {
    if forall k | 1 <= k <= PTABLE_SIZE :: curs[k] != q {
      SkippedIsCloser(before, curs, PTABLE_SIZE, q);
      assert false;
    }
  }

  /** Between decisions, only decisions change the state of q: it never blocks and nobody ends it. */
  ghost predicate LeftAlone(before: seq<States>, curs: seq<nat>, q: nat)
    requires Decisions(before, curs) && q < PTABLE_SIZE
  {
    forall k: nat | k + 1 < |before| :: KeptBetween(before, curs, k, q)
  }

  ghost predicate KeptBetween(before: seq<States>, curs: seq<nat>, k: nat, q: nat)
    requires Decisions(before, curs) && k + 1 < |before| && q < PTABLE_SIZE
  {
    before[k + 1][q] == Decide(before[k], curs[k], curs[k + 1])[q]
  }

  lemma {:induction false} StaysRunnable(before: seq<States>, curs: seq<nat>, q: nat, k: nat)
    requires Decisions(before, curs) && q < PTABLE_SIZE && LeftAlone(before, curs, q)
    requires k < |before| && Waiting(before, curs, 0, q)
    ensures Waiting(before, curs, k, q)
  {
    if k > 0 {
      StaysRunnable(before, curs, q, k - 1);
      assert KeptBetween(before, curs, k - 1, q) && DecisionAt(before, curs, k - 1);
      hide Scan, Distance;
      PassSwitches(before[k - 1], curs[k - 1]);
    }
  }

  /** A process that is only ever preempted runs again in every round of PTABLE_SIZE decisions. */
  lemma PreemptedRunsAgain(before: seq<States>, curs: seq<nat>, q: nat, k: nat)
    requires Decisions(before, curs) && q < PTABLE_SIZE && LeftAlone(before, curs, q)
    requires k + PTABLE_SIZE <= |before| && Waiting(before, curs, 0, q)
    ensures exists l :: k < l <= k + PTABLE_SIZE && curs[l] == q
  {
    var b, c := before[k..], curs[k..];
    forall l: nat | l < |b| ensures DecisionAt(b, c, l) && Waiting(b, c, l, q) {
      assert b[l] == before[k + l] && c[l] == curs[k + l] && c[l + 1] == curs[k + l + 1];
      assert DecisionAt(before, curs, k + l);
      StaysRunnable(before, curs, q, k + l);
    }
    ChosenWithinOneRound(b, c, q);
    var l :| 1 <= l <= PTABLE_SIZE && c[l] == q;
    assert curs[k + l] == q;
  }

  /** After a decision exactly the current process is running. */
  lemma OnlyCurrentRuns(rs: States, cur: nat)
    requires cur < PTABLE_SIZE
    requires forall q | 0 <= q < PTABLE_SIZE && rs[q] == Running :: q == cur
    ensures var p := Scan(StepBack(rs, cur), cur, 1, false);
            p.Chosen? ==>
              && rs[p.off] in {Ready, Running}
              && (forall q | 0 <= q < PTABLE_SIZE :: Decide(rs, cur, p.off)[q] == Running <==> q == p.off)
              && (forall q | 0 <= q < PTABLE_SIZE && q != p.off && q != cur :: Decide(rs, cur, p.off)[q] == rs[q])
  {
    ScanNearest(StepBack(rs, cur), cur, 1, false);
    hide Scan, Distance;
  }

  // ---------------------------------------------------------------- operations

  class Scheduler {
    const rs: array<RunState>
    var cur: nat

    ghost predicate Valid()
      reads this
    {
      rs.Length == PTABLE_SIZE && cur < PTABLE_SIZE
    }

    ghost function R(): States
      reads this, rs
      requires Valid()
    {
      rs[..]
    }

    constructor ()
      ensures Valid() && fresh(rs) && cur == 0
      ensures forall q | 0 <= q < PTABLE_SIZE :: R()[q] == NoProc
    {
      rs := new RunState[PTABLE_SIZE](_ => NoProc);
      cur := 0;
    }

    /** One pass of sched(): a switch, or a full round without a ready process. */
    method Pass() returns (p: Pick)
      requires Valid()
      modifies this`cur, rs
      ensures Valid() && p == Scan(StepBack(old(R()), old(cur)), old(cur), 1, false)
      ensures R() == if p.Chosen? then Decide(old(R()), old(cur), p.off) else StepBack(old(R()), old(cur))
      ensures cur == if p.Chosen? then p.off else old(cur)
      ensures Switched(old(R()), old(cur), p, R())
    {
      hide Round, Scan, Switched;
      PassSwitches(R(), cur);
      if rs[cur] == Running {
        rs[cur] := Ready;
      }
      ghost var t := StepBack(old(R()), old(cur));
      assert R() == t;
      var ioff := Round(cur, 1);
      var off := ioff;
      var blocked := false;
      ghost var d := 1;
      while rs[off] != Ready
        invariant Valid() && R() == t && cur == old(cur) && 1 <= d <= PTABLE_SIZE && off == Round(cur, d)
        invariant Scan(t, cur, 1, false) == Scan(t, cur, d, blocked)
        decreases PTABLE_SIZE - d
      {
        ScanUnfold(t, cur, d, blocked);
        NextRound(cur, d);
        blocked := blocked || rs[off] == Blocked;
        off := Round(off, 1);
        d := d + 1;
        if off == ioff {
          ScanUnfold(t, cur, d, blocked);
          return if blocked then Halt else NoProcess;
        }
      }
      ScanUnfold(t, cur, d, blocked);
      rs[off] := Running;
      cur := off;
      p := Chosen(off);
      assert rs[..] == t[off := Running];
    }
  }

  lemma ScanUnfold(rs: States, cur: nat, d: nat, blocked: bool)
    requires cur < PTABLE_SIZE && 1 <= d <= PTABLE_SIZE + 1
    ensures Scan(rs, cur, d, blocked) ==
            if d == PTABLE_SIZE + 1 then (if blocked then Halt else NoProcess)
            else if rs[Round(cur, d)] == Ready then Chosen(Round(cur, d))
            else Scan(rs, cur, d + 1, blocked || rs[Round(cur, d)] == Blocked)
  {
  }

  lemma NextRound(cur: nat, d: nat)
    requires cur < PTABLE_SIZE && 1 <= d <= PTABLE_SIZE
    ensures Round(Round(cur, d), 1) == Round(cur, d + 1)
    ensures Round(cur, d + 1) == Round(cur, 1) <==> d == PTABLE_SIZE
  {
    hide Round;
    RoundIs(cur, d);
    RoundIs(cur, d + 1);
    RoundIs(cur, 1);
    RoundIs(Round(cur, d), 1);
  }
}
