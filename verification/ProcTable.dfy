/** Process slots and process ids of kernel/proc.c. */
module ProcTable {
  import opened Common
  import opened Sync

  const PTABLE_SIZE: nat := 1024
  const TWO31: nat := 0x8000_0000
  const TWO32: nat := 0x1_0000_0000
  /** How many generations a 32-bit pid can tell apart. */
  const GENERATIONS: nat := 0x40_0000

  // --------------------------------------------------------------------- pids

  /** The value a 32-bit pid_t keeps of x. */
  function Wrap32(x: int): int { (x + TWO31) % TWO32 - TWO31 }

  function PidGen(pid: int): int { pid / 1024 }
  function PidOff(pid: int): nat { pid % 1024 }
  function MakePid(gen: int, off: nat): int { Wrap32(gen * 1024 + off) }

  /** A generation as the 22 bits above the slot number hold it. */
  function Wrap22(g: int): int { (g + GENERATIONS / 2) % GENERATIONS - GENERATIONS / 2 }

  /** The pid of the k-th process in slot off. */
  function PidOf(k: nat, off: nat): int { Wrap22(k) * 1024 + off }

  lemma MakePidWraps(g: int, off: nat)
    requires off < PTABLE_SIZE
    ensures MakePid(g, off) == Wrap22(g) * 1024 + off
  {
  }

  /** The low ten bits of a pid name its slot, and the rest its generation. */
  lemma PidParts(k: nat, off: nat)
    requires off < PTABLE_SIZE
    ensures PidOff(PidOf(k, off)) == off && PidGen(PidOf(k, off)) == Wrap22(k)
  {
  }

  /** Adding one to the stored generation moves on to the next pid of the slot, across the wrap too. */
  lemma NextPid(k: nat, off: nat)
    requires off < PTABLE_SIZE
    ensures MakePid(PidGen(PidOf(k, off)) + 1, off) == PidOf(k + 1, off)
  {
    PidParts(k, off);
    MakePidWraps(Wrap22(k) + 1, off);
    Wrap22Next(k);
  }

  lemma Wrap22Next(k: int)
    ensures Wrap22(Wrap22(k) + 1) == Wrap22(k + 1)
  {
  }

  /** Two pids agree exactly when slot and generation modulo 2^22 agree. */
  lemma PidsDiffer(k: nat, off: nat, k': nat, off': nat)
    requires off < PTABLE_SIZE && off' < PTABLE_SIZE
    ensures PidOf(k, off) == PidOf(k', off') <==> off == off' && k % GENERATIONS == k' % GENERATIONS
  {
    PidParts(k, off);
    PidParts(k', off');
    Wrap22Same(k, k');
  }

  lemma Wrap22Same(k: nat, k': nat)
    ensures Wrap22(k) == Wrap22(k') <==> k % GENERATIONS == k' % GENERATIONS
  {
  }

  // --------------------------------------------------------------------- table

  datatype Pcb = Pcb(pid: int, rs: RunState)

  datatype Table = Table(slots: seq<Pcb>, ptFree: nat)

  ghost predicate WellFormed(t: Table) {
    |t.slots| == PTABLE_SIZE && t.ptFree < PTABLE_SIZE
  }

  /** get_pcb: the slot of a pid, or None for NULL. */
  function GetPcb(t: Table, pid: int): Option<nat>
    requires WellFormed(t)
  {
    var off := PidOff(pid);
    if t.slots[off].rs == NoProc || t.slots[off].pid != pid then None else Some(off)
  }

  /** The slot d places after a, going round. */
  function Round(a: nat, d: nat): (r: nat)
    ensures r < PTABLE_SIZE
  {
    (a + d) % PTABLE_SIZE
  }

  /** The first free slot at distance d, d + 1, ... from ptFree, going round. */
  function FindFree(t: Table, d: nat): (r: Option<nat>)
    requires WellFormed(t) && d <= PTABLE_SIZE
    ensures r.Some? ==> r.value < PTABLE_SIZE && t.slots[r.value].rs == NoProc
    decreases PTABLE_SIZE - d
  {
    if d == PTABLE_SIZE then None
    else
      var off := Round(t.ptFree, d);
      if t.slots[off].rs == NoProc then Some(off) else FindFree(t, d + 1)
  }

  function AfterAlloc(t: Table, off: nat): Table
    requires off < |t.slots|
  {
    Table(t.slots[off := Pcb(MakePid(PidGen(t.slots[off].pid) + 1, off), Created)], off)
  }

  function AfterRelease(t: Table, off: nat): Table
    requires off < |t.slots|
  {
    t.(slots := t.slots[off := t.slots[off].(rs := NoProc)])
  }

  lemma {:induction false} FindFreeMisses(t: Table, d: nat, off: nat)
    requires WellFormed(t) && d <= PTABLE_SIZE && FindFree(t, d).None?
    requires off < PTABLE_SIZE && d <= (off - t.ptFree) % PTABLE_SIZE
    ensures t.slots[off].rs != NoProc
    decreases PTABLE_SIZE - d
  {
    var e := (off - t.ptFree) % PTABLE_SIZE;
    if d == e {
      AroundTo(t.ptFree, off);
    } else {
      FindFreeMisses(t, d + 1, off);
    }
  }

  /** Going round from a by the distance to b arrives at b. */
  lemma AroundTo(a: nat, b: nat)
    requires a < PTABLE_SIZE && b < PTABLE_SIZE
    ensures Round(a, (b - a) % PTABLE_SIZE) == b
  {
  }

  /** alloc_proc finds a slot exactly when one is free. */
  lemma AllocFindsFree(t: Table)
    requires WellFormed(t)
    ensures FindFree(t, 0).Some? <==> exists off :: 0 <= off < PTABLE_SIZE && t.slots[off].rs == NoProc
  {
    if FindFree(t, 0).None? {
      forall off | 0 <= off < PTABLE_SIZE ensures t.slots[off].rs != NoProc { FindFreeMisses(t, 0, off); }
    }
  }

  /** The slot taken is the nearest free one, going round from where the last search ended. */
  lemma {:induction false} FindsNearest(t: Table, d: nat, e: nat)
    requires WellFormed(t) && d <= PTABLE_SIZE && FindFree(t, d).Some?
    requires d <= e < PTABLE_SIZE && t.slots[Round(t.ptFree, e)].rs == NoProc
    ensures exists f: nat :: d <= f <= e && FindFree(t, d).value == Round(t.ptFree, f)
    decreases PTABLE_SIZE - d
  {
    hide Round;
    if t.slots[Round(t.ptFree, d)].rs == NoProc {
      assert FindFree(t, d).value == Round(t.ptFree, d);
    } else {
      FindsNearest(t, d + 1, e);
    }
  }

  /** Going round without the remainder. */
  lemma RoundIs(a: nat, d: nat)
    requires a < PTABLE_SIZE && d <= PTABLE_SIZE + 1
    ensures Round(a, d) == if a + d < PTABLE_SIZE then a + d
                           else if a + d < 2 * PTABLE_SIZE then a + d - PTABLE_SIZE else 0
  {
  }

  lemma RoundBack(a: nat, f: nat)
    requires a < PTABLE_SIZE && f < PTABLE_SIZE
    ensures (Round(a, f) - a) % PTABLE_SIZE == f
  {
    RoundIs(a, f);
    hide Round;
  }

  /** After an allocation the search goes on from there: the next slot is the nearest free one ahead of it. */
  lemma SlotsGoRound(t: Table, off: nat, q: nat)
    requires WellFormed(t) && FindFree(t, 0) == Some(off) && q < PTABLE_SIZE
    requires AfterAlloc(t, off).slots[q].rs == NoProc
    ensures var next := FindFree(AfterAlloc(t, off), 0);
            && next.Some? && next.value != off
            && (next.value - off) % PTABLE_SIZE <= (q - off) % PTABLE_SIZE
  {
    hide FindFree, Round;
    var t' := AfterAlloc(t, off);
    var e := (q - off) % PTABLE_SIZE;
    AllocFindsFree(t');
    AroundTo(off, q);
    FindsNearest(t', 0, e);
    var f: nat :| 0 <= f <= e && FindFree(t', 0).value == Round(off, f);
    RoundBack(off, f);
  }

  // ---------------------------------------------------------------------- runs

  datatype Event = Allocated(off: nat) | Released(off: nat) | Moved(off: nat, rs: RunState)

  /** alloc_proc, release_proc, or any other change of a live process's state. */
  ghost predicate Step(t: Table, e: Event, t': Table) {
    && WellFormed(t)
    && match e
       case Allocated(off) => FindFree(t, 0) == Some(off) && t' == AfterAlloc(t, off)
       case Released(off) => off < PTABLE_SIZE && t.slots[off].rs != NoProc && t' == AfterRelease(t, off)
       case Moved(off, rs) =>
         && off < PTABLE_SIZE && t.slots[off].rs != NoProc && rs != NoProc
         && t' == t.(slots := t.slots[off := t.slots[off].(rs := rs)])
  }

  /** The zeroed static table. */
  function Boot(): Table {
    Table(seq(PTABLE_SIZE, _ => Pcb(0, NoProc)), 0)
  }

  ghost predicate Run(events: seq<Event>, tables: seq<Table>) {
    && |tables| == |events| + 1 && tables[0] == Boot()
    && forall k: nat | k < |events| :: StepAt(events, tables, k)
  }

  ghost predicate StepAt(events: seq<Event>, tables: seq<Table>, k: nat)
    requires k < |events| && |tables| == |events| + 1
  {
    Step(tables[k], events[k], tables[k + 1])
  }

  /** How often slot off was allocated in the first k events. */
  ghost function Count(events: seq<Event>, k: nat, off: nat): nat
    requires k <= |events|
  {
    if k == 0 then 0 else Count(events, k - 1, off) + if events[k - 1] == Allocated(off) then 1 else 0
  }

  ghost predicate SlotOk(t: Table, off: nat, n: nat)
    requires WellFormed(t) && off < PTABLE_SIZE
  {
    if n == 0 then t.slots[off] == Pcb(0, NoProc) else t.slots[off].pid == PidOf(n, off)
  }

  /** The pid in a slot is determined by how often the slot was allocated. */
  lemma {:induction false} RunPids(events: seq<Event>, tables: seq<Table>, k: nat, off: nat)
    requires Run(events, tables) && k <= |events| && off < PTABLE_SIZE
    ensures WellFormed(tables[k]) && SlotOk(tables[k], off, Count(events, k, off))
  {
    if k > 0 {
      RunPids(events, tables, k - 1, off);
      assert StepAt(events, tables, k - 1);
      hide PidOf, MakePid, PidGen;
      var n := Count(events, k - 1, off);
      if events[k - 1] == Allocated(off) {
        if n > 0 { NextPid(n, off); } else { FirstPid(off); }
      }
    }
  }

  lemma FirstPid(off: nat)
    requires off < PTABLE_SIZE
    ensures MakePid(PidGen(0) + 1, off) == PidOf(1, off)
  {
  }

  /** The pid that event k issued. */
  ghost function Issued(events: seq<Event>, tables: seq<Table>, k: nat): int
    requires Run(events, tables) && k < |events| && events[k].Allocated?
  {
    assert StepAt(events, tables, k);
    tables[k + 1].slots[events[k].off].pid
  }

  /** No slot is allocated more often than pids can tell apart. */
  ghost predicate FewAllocations(events: seq<Event>) {
    forall off: nat | off < PTABLE_SIZE :: Count(events, |events|, off) <= GENERATIONS
  }

  lemma {:induction false} CountGrows(events: seq<Event>, i: nat, j: nat, off: nat)
    requires i <= j <= |events|
    ensures Count(events, i, off) <= Count(events, j, off)
    decreases j
  {
    if i < j { CountGrows(events, i, j - 1, off); }
  }

  lemma IssuedPid(events: seq<Event>, tables: seq<Table>, k: nat)
    requires Run(events, tables) && k < |events| && events[k].Allocated?
    ensures events[k].off < PTABLE_SIZE
    ensures Issued(events, tables, k) == PidOf(Count(events, k + 1, events[k].off), events[k].off)
    ensures PidOff(Issued(events, tables, k)) == events[k].off
  {
    assert StepAt(events, tables, k);
    hide FindFree;
    RunPids(events, tables, k + 1, events[k].off);
    PidParts(Count(events, k + 1, events[k].off), events[k].off);
  }

  /** No pid is issued twice, in any run with at most 2^22 allocations per slot. */
  lemma NoPidTwice(events: seq<Event>, tables: seq<Table>, i: nat, j: nat)
    requires Run(events, tables) && FewAllocations(events)
    requires i < j < |events| && events[i].Allocated? && events[j].Allocated?
    ensures Issued(events, tables, i) != Issued(events, tables, j)
  {
    IssuedPid(events, tables, i);
    IssuedPid(events, tables, j);
    var off := events[i].off;
    if events[j].off == off {
      CountGrows(events, i + 1, j, off);
      CountGrows(events, j + 1, |events|, off);
      hide PidOf;
      PidsDiffer(Count(events, i + 1, off), off, Count(events, j + 1, off), off);
    }
  }

  /**
   * A released pid stays dead: get_pcb never resolves it to a later process, even in the
   * same slot.
   */
  lemma ReleasedPidStaysDead(events: seq<Event>, tables: seq<Table>, i: nat, r: nat, k: nat)
    requires Run(events, tables) && FewAllocations(events)
    requires i < r < k <= |events| && events[i].Allocated? && events[r] == Released(events[i].off)
    ensures WellFormed(tables[k]) && GetPcb(tables[k], Issued(events, tables, i)) == None
  {
    IssuedPid(events, tables, i);
    var off := events[i].off;
    RunPids(events, tables, k, off);
    if tables[k].slots[off].rs != NoProc {
      Reallocated(events, tables, r, k, off);
      CountGrows(events, i + 1, r, off);
      CountGrows(events, k, |events|, off);
      hide PidOf;
      PidsDiffer(Count(events, i + 1, off), off, Count(events, k, off), off);
    }
  }

  /** A released slot is in use again only after another allocation of it. */
  lemma {:induction false} Reallocated(events: seq<Event>, tables: seq<Table>, r: nat, k: nat, off: nat)
    requires Run(events, tables) && r < k <= |events| && events[r] == Released(off) && off < PTABLE_SIZE
    ensures WellFormed(tables[k])
    ensures tables[k].slots[off].rs != NoProc ==> Count(events, k, off) > Count(events, r, off)
    decreases k
  {
    RunPids(events, tables, k, off);
    assert StepAt(events, tables, k - 1);
    hide FindFree, MakePid, PidOf, SlotOk;
    if k > r + 1 {
      Reallocated(events, tables, r, k - 1, off);
      CountGrows(events, r, k - 1, off);
    }
  }

  /** Until its slot is released, an issued pid resolves to that slot, whatever happens to the others. */
  lemma {:induction false} LivePidResolves(events: seq<Event>, tables: seq<Table>, i: nat, k: nat)
    requires Run(events, tables) && i < k <= |events| && events[i].Allocated?
    requires forall r | i < r < k :: events[r] != Released(events[i].off)
    ensures WellFormed(tables[k]) && GetPcb(tables[k], Issued(events, tables, i)) == Some(events[i].off)
    ensures k == i + 1 ==> tables[k].slots[events[i].off].rs == Created
    decreases k
  {
    var off := events[i].off;
    IssuedPid(events, tables, i);
    RunPids(events, tables, k, off);
    assert StepAt(events, tables, k - 1);
    hide MakePid, PidOf, SlotOk, PidOff;
    if k > i + 1 { LivePidResolves(events, tables, i, k - 1); }
  }

  /** An event concerns its slot only, and an allocation takes a slot that was free. */
  lemma OthersStay(t: Table, e: Event, t': Table, q: nat)
    requires Step(t, e, t') && q < PTABLE_SIZE && q != e.off
    ensures WellFormed(t') && t'.slots[q] == t.slots[q]
    ensures e.Allocated? ==> t.slots[e.off].rs == NoProc
  {
  }

  /** The n-th allocation of a slot is one of the events. */
  lemma {:induction false} NthAllocation(events: seq<Event>, k: nat, off: nat, n: nat) returns (i: nat)
    requires k <= |events| && 0 < n <= Count(events, k, off)
    ensures i < k && events[i] == Allocated(off) && Count(events, i + 1, off) == n
  {
    if Count(events, k - 1, off) < n {
      i := k - 1;
    } else {
      i := NthAllocation(events, k - 1, off, n);
    }
  }

  ghost predicate AllPidsDiffer(events: seq<Event>, tables: seq<Table>)
    requires Run(events, tables)
  {
    forall i: nat, j: nat | i < j < |events| && events[i].Allocated? && events[j].Allocated? ::
      Issued(events, tables, i) != Issued(events, tables, j)
  }

  /** One allocation more, and the slot's first pid comes again. */
  lemma PidRepeats(events: seq<Event>, tables: seq<Table>, off: nat)
    requires Run(events, tables) && off < PTABLE_SIZE && Count(events, |events|, off) > GENERATIONS
    ensures !AllPidsDiffer(events, tables)
  {
    var i := NthAllocation(events, |events|, off, 1);
    var j := NthAllocation(events, |events|, off, GENERATIONS + 1);
    if j < i { CountGrows(events, j + 1, i + 1, off); }
    IssuedPid(events, tables, i);
    IssuedPid(events, tables, j);
    hide PidOf;
    PidsDiffer(1, off, GENERATIONS + 1, off);
  }

  /** In every run, no pid is issued twice if and only if no slot is allocated more than 2^22 times. */
  lemma NoPidTwiceIff(events: seq<Event>, tables: seq<Table>)
    requires Run(events, tables)
    ensures AllPidsDiffer(events, tables) <==> FewAllocations(events)
  {
    if FewAllocations(events) {
      forall i: nat, j: nat | i < j < |events| && events[i].Allocated? && events[j].Allocated?
        ensures Issued(events, tables, i) != Issued(events, tables, j)
      {
        NoPidTwice(events, tables, i, j);
      }
    } else {
      var off: nat :| off < PTABLE_SIZE && Count(events, |events|, off) > GENERATIONS;
      PidRepeats(events, tables, off);
    }
  }

  /**
   * A released pid resolves again exactly while its slot is in use by a process a multiple of 2^22
   * allocations later.
   */
  lemma ResolvesIff(events: seq<Event>, tables: seq<Table>, i: nat, r: nat, k: nat)
    requires Run(events, tables)
    requires i < r < k <= |events| && events[i].Allocated? && events[r] == Released(events[i].off)
    ensures WellFormed(tables[k]) && events[i].off < PTABLE_SIZE
    ensures var off := events[i].off;
            GetPcb(tables[k], Issued(events, tables, i)).Some? <==>
            && tables[k].slots[off].rs != NoProc
            && Count(events, i + 1, off) % GENERATIONS == Count(events, k, off) % GENERATIONS
  {
    IssuedPid(events, tables, i);
    var off := events[i].off;
    RunPids(events, tables, k, off);
    CountGrows(events, i + 1, k, off);
    hide PidOf;
    PidsDiffer(Count(events, i + 1, off), off, Count(events, k, off), off);
  }

  /** Slot 0 has been allocated n times, and is free and next in turn again. */
  ghost predicate Busy(events: seq<Event>, tables: seq<Table>, n: nat) {
    && Run(events, tables) && Count(events, |events|, 0) == n
    && var t := tables[|events|]; WellFormed(t) && t.slots[0].rs == NoProc && t.ptFree == 0
  }

  /** Allocations and releases in turn use slot 0 as often as one likes, more than 2^22 times too. */
  lemma {:induction false} BusyRun(n: nat) returns (events: seq<Event>, tables: seq<Table>)
    ensures Busy(events, tables, n)
  {
    if n == 0 {
      events, tables := [], [Boot()];
    } else {
      events, tables := BusyRun(n - 1);
      var m := |events|;
      var t := tables[m];
      var t1 := AfterAlloc(t, 0);
      var t2 := AfterRelease(t1, 0);
      var es, ts := events + [Allocated(0), Released(0)], tables + [t1, t2];
      FindsZero(t);
      CountPrefix(events, es, m, 0);
      forall k: nat | k < |es| ensures StepAt(es, ts, k) {
        if k < m { assert StepAt(events, tables, k); }
      }
      events, tables := es, ts;
    }
  }

  lemma FindsZero(t: Table)
    requires WellFormed(t) && t.slots[0].rs == NoProc && t.ptFree == 0
    ensures FindFree(t, 0) == Some(0)
  {
  }

  lemma {:induction false} CountPrefix(events: seq<Event>, longer: seq<Event>, k: nat, off: nat)
    requires k <= |events| && events <= longer
    ensures Count(longer, k, off) == Count(events, k, off)
  {
    if k > 0 { CountPrefix(events, longer, k - 1, off); }
  }

  /** Pids are positive for the first 2^21 - 1 allocations of a slot. */
  lemma EarlyPidsPositive(k: nat, off: nat)
    requires 0 < k < GENERATIONS / 2 && off < PTABLE_SIZE
    ensures 1024 <= PidOf(k, off) < TWO31 && PidOf(k, off) == k * 1024 + off
  {
  }

  // ---------------------------------------------------------------- operations

  /** The static variables ptable and pt_free. */
  class ProcessTable {
    const ptable: array<Pcb>
    var ptFree: nat

    ghost predicate Valid()
      reads this
    {
      ptable.Length == PTABLE_SIZE && ptFree < PTABLE_SIZE
    }

    ghost function T(): Table
      reads this, ptable
    {
      Table(ptable[..], ptFree)
    }

    constructor ()
      ensures Valid() && fresh(ptable) && T() == Boot()
    {
      ptable := new Pcb[PTABLE_SIZE](_ => Pcb(0, NoProc));
      ptFree := 0;
    }

    /** alloc_proc; None when every slot is taken. */
    method AllocProc() returns (off: Option<nat>)
      requires Valid()
      modifies this`ptFree, ptable
      ensures Valid() && off == FindFree(old(T()), 0)
      ensures T() == if off.Some? then AfterAlloc(old(T()), off.value) else old(T())
    {
      hide MakePid, PidGen, Round;
      var initOff := ptFree;
      StepRound(initOff, 0);
      ghost var t := T();
      ghost var d := 0;
      while ptable[ptFree].rs != NoProc
        invariant Valid() && ptable[..] == old(ptable[..])
        invariant 0 <= d < PTABLE_SIZE && ptFree == Round(initOff, d)
        invariant FindFree(t, 0) == FindFree(t, d)
        decreases PTABLE_SIZE - d
      {
        StepRound(initOff, d);
        ptFree := Round(ptFree, 1);
        d := d + 1;
        if ptFree == initOff {
          assert FindFree(t, PTABLE_SIZE).None?;
          return None;
        }
      }
      ptable[ptFree] := Pcb(MakePid(PidGen(ptable[ptFree].pid) + 1, ptFree), Created);
      off := Some(ptFree);
      assert ptable[..] == t.slots[ptFree := ptable[ptFree]];
    }

    /** release_proc. */
    method ReleaseProc(off: nat)
      requires Valid() && off < PTABLE_SIZE
      modifies ptable
      ensures T() == AfterRelease(old(T()), off)
    {
      ptable[off] := ptable[off].(rs := NoProc);
      assert ptable[..] == old(ptable[..])[off := ptable[off]];
    }
  }

  /** One more step round the table, and a full round comes back to the start. */
  lemma StepRound(a: nat, d: nat)
    requires a < PTABLE_SIZE && d < PTABLE_SIZE
    ensures Round(Round(a, d), 1) == Round(a, d + 1)
    ensures Round(a, d) == a <==> d == 0
    ensures Round(a, d + 1) == a <==> d + 1 == PTABLE_SIZE
  {
  }
}
