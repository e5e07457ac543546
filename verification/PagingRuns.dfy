/** Whole runs of address-space operations: safety, no leaks, isolation. */
module PagingRuns {
  import opened Common
  import opened Paging
  import opened PagingOps
  import opened PagingFork
  import opened PagingFree
  import Frames

  datatype Op =
    | DoCreate
    | DoFault(d: nat, i: nat, j: nat, errorCode: nat)
    | DoRemap(d: nat, i: nat, j: nat, phys: nat)
    | DoLock(d: nat, i: nat, j: nat)
    | DoStore(d: nat, i: nat, j: nat, off: nat, b: Byte)
    | DoFork(d: nat)
    | DoFree(d: nat)

  /** Addresses are split by shifting and masking, and callers pass live spaces. */
  ghost predicate Enabled(m: Machine, op: Op) {
    match op
    case DoCreate => true
    case DoFault(d, i, j, _) => d in m.spaces && i < PDIR_SIZE && j < PTAB_SIZE
    case DoRemap(d, i, j, _) => d in m.spaces && i < PDIR_SIZE && j < PTAB_SIZE
    case DoLock(d, i, j) => d in m.spaces && InRegion(i, j)
    case DoStore(d, i, j, off, _) => d in m.spaces && InRegion(i, j) && off < PAGE_SIZE
    case DoFork(d) => d in m.spaces
    case DoFree(d) => d in m.spaces
  }

  ghost function Exec(m: Machine, op: Op): Outcome
    requires Enabled(m, op) && |m.kernel.dir| == PDIR_SIZE
  {
    match op
    case DoCreate => Create(m)
    case DoFault(d, i, j, errorCode) => PageFault(m, d, i, j, errorCode)
    case DoRemap(d, i, j, phys) => RemapUser(m, d, i, j, phys)
    case DoLock(d, i, j) => LockPage(m, d, i, j)
    case DoStore(d, i, j, off, b) => Store(m, d, i, j, off, b)
    case DoFork(d) => Fork(m, d)
    case DoFree(d) => FreeSpace(m, d)
  }

  /** The operation acts for space e, so e may see a difference. */
  predicate Touches(op: Op, e: nat) {
    match op
    case DoCreate => false
    case DoFork(_) => false
    case DoFault(_, _, _, _) => false
    case DoRemap(d, _, _, _) => d == e
    case DoLock(d, _, _) => d == e
    case DoStore(d, _, _, _, _) => d == e
    case DoFree(d) => d == e
  }

  ghost predicate Run(m0: Machine, ops: seq<Op>, states: seq<Machine>) {
    && |states| == |ops| + 1 && states[0] == m0
    && (forall k | 0 <= k < |states| :: |states[k].kernel.dir| == PDIR_SIZE)
    && forall k | 0 <= k < |ops| ::
         && Enabled(states[k], ops[k])
         && Exec(states[k], ops[k]).Done? && Exec(states[k], ops[k]).m == states[k + 1]
  }

  /** The ways an operation may stop the kernel; corrupt tables and double frees are not among them. */
  predicate Excused(op: Op, reason: Reason) {
    match op
    case DoCreate => reason == OutOfPages
    case DoFork(_) => reason == OutOfPages
    case DoRemap(_, _, _, _) => reason == OutOfPages
    case DoFree(_) => false
    case DoStore(_, _, _, _, _) => reason == Unrecoverable
    case DoLock(_, _, _) => reason == FailedAssert
    case DoFault(_, i, _, errorCode) =>
      if BadAccess(errorCode) then reason == Unrecoverable
      else if i < IDENTITY_LEN then reason == Segfault else reason == OutOfPages
  }

  /** One operation on a sound machine. */
  lemma ExecSound(m: Machine, op: Op)
    requires Inv(m) && Enabled(m, op)
    ensures Exec(m, op).Panic? ==> Excused(op, Exec(m, op).reason)
    ensures Exec(m, op).Done? ==>
              && Inv(Exec(m, op).m) && Foreign(Exec(m, op).m) == Foreign(m)
              && Exec(m, op).m.kernel == m.kernel
    ensures forall e | Exec(m, op).Done? && e in m.spaces && !Touches(op, e) ::
              e in Exec(m, op).m.spaces && SameViews(m, Exec(m, op).m, e)
  {
    hide Frames.Allocated, Frames.Inv, Foreign, Marked, SpaceOk, BackOk, KernelOk, View;
    hide PageFault, RemapUser, LockPage, Store, Fork, FreeSpace, Create;
    match op
    case DoCreate => CreateShowsZeros(m);
    case DoFault(d, i, j, errorCode) => FaultSound(m, d, i, j, errorCode);
    case DoRemap(d, i, j, phys) => RemapUserShowsDevice(m, d, i, j, phys);
    case DoLock(d, i, j) => LockSound(m, d, i, j);
    case DoStore(d, i, j, off, b) => StoreIsPrivate(m, d, i, j, off, b);
    case DoFork(d) => ForkCopies(m, d);
    case DoFree(d) => FreeSpaceExact(m, d);
  }

  lemma LockSound(m: Machine, d: nat, i: nat, j: nat)
    requires Inv(m) && d in m.spaces && InRegion(i, j)
    ensures LockPage(m, d, i, j).Panic? ==> LockPage(m, d, i, j).reason == FailedAssert
    ensures LockPage(m, d, i, j).Done? ==>
              Inv(LockPage(m, d, i, j).m) && OnlySeenAt(m, LockPage(m, d, i, j).m, d, i, j)
  {
    if LockPage(m, d, i, j).Done? { LockPageOnly(m, d, i, j); }
  }

  lemma FaultSound(m: Machine, d: nat, i: nat, j: nat, errorCode: nat)
    requires Inv(m) && d in m.spaces && i < PDIR_SIZE && j < PTAB_SIZE
    ensures var r := PageFault(m, d, i, j, errorCode);
            if r.Panic? then Excused(DoFault(d, i, j, errorCode), r.reason)
            else Inv(r.m) && Invisible(m, r.m)
  {
    if InRegion(i, j) {
      PageFaultIsInvisible(m, d, i, j, errorCode);
    } else if !BadAccess(errorCode) {
      KernelFault(m, d, i, j, errorCode);
    }
  }

  /**
   * In every run, the tables stay sound, pages held by other users of the allocator are
   * never touched, and the next operation can only stop the kernel for an excused reason.
   */
  lemma {:induction false} RunSound(m0: Machine, ops: seq<Op>, states: seq<Machine>, k: nat)
    requires Inv(m0) && Run(m0, ops, states) && k <= |ops|
    ensures Inv(states[k]) && Foreign(states[k]) == Foreign(m0)
    ensures forall op | Enabled(states[k], op) && Exec(states[k], op).Panic? ::
              Excused(op, Exec(states[k], op).reason)
  {
    hide Foreign, Exec, Inv;
    if k > 0 {
      RunSound(m0, ops, states, k - 1);
      assert Enabled(states[k - 1], ops[k - 1]);
      ExecSound(states[k - 1], ops[k - 1]);
    }
    forall op | Enabled(states[k], op) && Exec(states[k], op).Panic?
      ensures Excused(op, Exec(states[k], op).reason)
    {
      ExecSound(states[k], op);
    }
  }

  /** However the others run, a space that no operation acts for sees nothing change. */
  lemma {:induction false} RunIsolates(m0: Machine, ops: seq<Op>, states: seq<Machine>, k: nat, e: nat)
    requires Inv(m0) && Run(m0, ops, states) && k <= |ops| && e in m0.spaces
    requires forall l | 0 <= l < k :: !Touches(ops[l], e)
    ensures e in states[k].spaces && SameViews(m0, states[k], e)
  {
    hide Exec, Inv, View;
    if k > 0 {
      RunIsolates(m0, ops, states, k - 1, e);
      RunSound(m0, ops, states, k - 1);
      assert Enabled(states[k - 1], ops[k - 1]);
      ExecSound(states[k - 1], ops[k - 1]);
    }
  }

  /** No process page is ever marked global, so a change of address space forgets its translation. */
  lemma ProcessPagesNotGlobal(m0: Machine, ops: seq<Op>, states: seq<Machine>, k: nat, d: nat, i: nat, j: nat)
    requires Inv(m0) && Run(m0, ops, states) && k <= |ops| && d in states[k].spaces && InRegion(i, j)
    ensures var te := EntryAt(states[k], d, i, j); te.Some? ==> !te.value.global
  {
    hide Inv;
    RunSound(m0, ops, states, k);
    if EntryAt(states[k], d, i, j).Some? { EntryFacts(states[k], d, i, j); }
  }

  /**
   * After a fork, parent and child drift apart only through their own operations: whatever
   * the parent and everybody else do, the child keeps seeing what the parent saw at the fork.
   */
  lemma ForkThenApart(m: Machine, d: nat, ops: seq<Op>, states: seq<Machine>, k: nat)
    requires Inv(m) && d in m.spaces && Fork(m, d).Done?
    requires Run(Fork(m, d).m, ops, states) && k <= |ops|
    ensures var c := Fork(m, d).ret;
            && c > 0
            && ((forall l | 0 <= l < k :: !Touches(ops[l], c)) ==>
                  forall i: nat, j: nat | InRegion(i, j) :: View(states[k], c, i, j) == View(m, d, i, j))
            && ((forall l | 0 <= l < k :: !Touches(ops[l], d)) ==> SameViews(m, states[k], d))
  {
    hide Inv, View, Fork, Foreign, Frames.Allocated, Exec;
    ForkCopies(m, d);
    var c: nat := Fork(m, d).ret;
    if forall l | 0 <= l < k :: !Touches(ops[l], c) {
      RunIsolates(Fork(m, d).m, ops, states, k, c);
    }
    if forall l | 0 <= l < k :: !Touches(ops[l], d) {
      RunIsolates(Fork(m, d).m, ops, states, k, d);
    }
  }

  // ----------------------------------------------------------------- the start

  /** init_paging: the identity map of the kernel half, with page zero unmapped. */
  function KernelInit(tabBase: nat): Kernel {
    Kernel(
      seq(PDIR_SIZE, i requires 0 <= i => if i < IDENTITY_LEN then DirEnt(true, true, false, false, tabBase + i)
                          else DirEnt(false, false, false, false, 0)),
      seq(IDENTITY_LEN, i requires 0 <= i =>
        seq(PTAB_SIZE, j requires 0 <= j => TabEnt(i != 0 || j != 0, true, false, true, false, i * PTAB_SIZE + j))))
  }

  function Boot(tabBase: nat, base: nat, nframes: nat): Machine {
    Machine(KernelInit(tabBase), Frames.Init(base, nframes), map[], map[], {})
  }

  /** From boot, every run owns disjoint frames and hands each back exactly once. */
  lemma BootRunSound(tabBase: nat, base: nat, nframes: nat, ops: seq<Op>, states: seq<Machine>, k: nat)
    requires base > 0 && Run(Boot(tabBase, base, nframes), ops, states) && k <= |ops|
    ensures Inv(states[k]) && Frames.Allocated(states[k].fa) == states[k].own.Keys
    ensures forall s1: Slot, s2: Slot, f |
              && s1.d in states[k].spaces && s2.d in states[k].spaces
              && SlotHolds(states[k], s1, f) && SlotHolds(states[k], s2, f) :: s1 == s2
  {
    var m0 := Boot(tabBase, base, nframes);
    Frames.InitIsFree(base, nframes);
    assert Inv(m0);
    RunSound(m0, ops, states, k);
    forall s1: Slot, s2: Slot, f |
      s1.d in states[k].spaces && s2.d in states[k].spaces
      && SlotHolds(states[k], s1, f) && SlotHolds(states[k], s2, f) ensures s1 == s2
    {
      FootprintsDisjoint(states[k], s1, s2, f);
    }
    AllOwned(states[k], m0);
  }

  lemma AllOwned(m: Machine, m0: Machine)
    requires Marked(m) && Foreign(m) == Foreign(m0) && Frames.Allocated(m0.fa) == {}
    ensures Frames.Allocated(m.fa) == m.own.Keys
  {
    hide Frames.Allocated, Frames.Inv;
    forall f | f in Frames.Allocated(m.fa) ensures f in m.own { assert f !in Foreign(m0); }
  }

  /** The table entry the processor finds for a linear address of the kernel half. */
  function KernelEntry(k: Kernel, addr: nat): (te: TabEnt)
    requires KernelOk(k) && addr < IDENTITY_LEN * PTAB_SIZE * PAGE_SIZE
  {
    k.tabs[addr / PAGE_SIZE / PTAB_SIZE][addr / PAGE_SIZE % PTAB_SIZE]
  }

  /**
   * However the processes run, the kernel half of every space maps each address to itself,
   * except that the page of the null pointer is not mapped.
   */
  lemma {:induction false} KernelHalfIsIdentity(tabBase: nat, base: nat, nframes: nat,
                                                ops: seq<Op>, states: seq<Machine>, k: nat, addr: nat)
    requires base > 0 && Run(Boot(tabBase, base, nframes), ops, states) && k <= |ops|
    requires addr < IDENTITY_LEN * PTAB_SIZE * PAGE_SIZE
    ensures Inv(states[k])
    ensures var te := KernelEntry(states[k].kernel, addr);
            && (te.present <==> addr >= PAGE_SIZE)
            && te.addr * PAGE_SIZE + addr % PAGE_SIZE == addr
            && te.rw && !te.user && te.global
    ensures forall d | d in states[k].spaces ::
              && IsDir(states[k], d)
              && states[k].mem[d].dents[addr / PAGE_SIZE / PTAB_SIZE] ==
                 DirEnt(true, true, false, false, tabBase + addr / PAGE_SIZE / PTAB_SIZE)
  {
    var m0 := Boot(tabBase, base, nframes);
    assert Inv(m0) by { Frames.InitIsFree(base, nframes); }
    RunSound(m0, ops, states, k);
    KernelStays(m0, ops, states, k);
    forall d | d in states[k].spaces ensures SpaceOk(states[k], d) {}
  }

  lemma {:induction false} KernelStays(m0: Machine, ops: seq<Op>, states: seq<Machine>, k: nat)
    requires Inv(m0) && Run(m0, ops, states) && k <= |ops|
    ensures states[k].kernel == m0.kernel
  {
    hide Exec, Inv, Foreign;
    if k > 0 {
      KernelStays(m0, ops, states, k - 1);
      RunSound(m0, ops, states, k - 1);
      assert Enabled(states[k - 1], ops[k - 1]);
      ExecSound(states[k - 1], ops[k - 1]);
    }
  }
}
