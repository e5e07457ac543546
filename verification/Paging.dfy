/**
 * Address spaces of kernel/arch/i686/paging.c: two-level page tables whose process half
 * is filled on demand, copied by fork and torn down by exit, on top of the frame allocator.
 *
 * Physical frames carry typed contents. The machine also records, for the proofs, which
 * slot of which address space each frame belongs to.
 */
module Paging {
  import opened Common
  import Frames

  const PAGE_SIZE: nat := 4096
  const PDIR_SIZE: nat := 1024
  const PTAB_SIZE: nat := 1024
  /** PROC_REGION / PAGE_SIZE / PTAB_SIZE: directory entries below this map the kernel. */
  const IDENTITY_LEN: nat := 768

  datatype DirEnt = DirEnt(present: bool, rw: bool, user: bool, petixAlloc: bool, table: nat)
  datatype TabEnt = TabEnt(present: bool, rw: bool, user: bool, global: bool, petixAlloc: bool, addr: nat)

  datatype Frame =
    | Dir(dents: seq<DirEnt>)
    | Tab(tents: seq<TabEnt>)
    | Page(bytes: seq<Byte>)

  /** The place in address space d that a frame backs. */
  datatype Slot =
    | DirOf(d: nat)
    | TabOf(d: nat, i: nat)
    | PageOf(d: nat, i: nat, j: nat)

  /** The static kernel directory and its identity tables, kpagedir and page_tabs. */
  datatype Kernel = Kernel(dir: seq<DirEnt>, tabs: seq<seq<TabEnt>>)

  /** `spaces` are the page directories of the live address spaces. */
  datatype Machine = Machine(
    kernel: Kernel,
    fa: Frames.State,
    mem: map<nat, Frame>,
    own: map<nat, Slot>,
    spaces: set<nat>)

  // --------------------------------------------------------------- invariant

  predicate IsDir(m: Machine, f: nat) {
    f in m.mem && m.mem[f].Dir? && |m.mem[f].dents| == PDIR_SIZE
  }

  predicate IsTab(m: Machine, f: nat) {
    f in m.mem && m.mem[f].Tab? && |m.mem[f].tents| == PTAB_SIZE
  }

  predicate IsPage(m: Machine, f: nat) {
    f in m.mem && m.mem[f].Page? && |m.mem[f].bytes| == PAGE_SIZE
  }

  predicate PageOk(m: Machine, d: nat, i: nat, j: nat, f: nat) {
    f in m.own && m.own[f] == PageOf(d, i, j) && IsPage(m, f)
  }

  predicate PteOk(m: Machine, d: nat, i: nat, j: nat, te: TabEnt) {
    && (te.present || te.petixAlloc) && !te.global
    && (te.present && te.petixAlloc ==> PageOk(m, d, i, j, te.addr))
  }

  ghost predicate TabOk(m: Machine, d: nat, i: nat, t: nat) {
    && t in m.own && m.own[t] == TabOf(d, i) && IsTab(m, t)
    && forall j: nat | j < PTAB_SIZE :: PteOk(m, d, i, j, m.mem[t].tents[j])
  }

  ghost predicate PdeOk(m: Machine, d: nat, i: nat, de: DirEnt) {
    && de.petixAlloc
    && (de.present ==> TabOk(m, d, i, de.table))
  }

  /** The kernel half is the kernel's own, and every process entry is absent or owned by d. */
  ghost predicate SpaceOk(m: Machine, d: nat) {
    && d in m.own && m.own[d] == DirOf(d) && IsDir(m, d)
    && |m.kernel.dir| == PDIR_SIZE
    && (forall i: nat | i < IDENTITY_LEN :: m.mem[d].dents[i] == m.kernel.dir[i])
    && (forall i: nat | IDENTITY_LEN <= i < PDIR_SIZE :: PdeOk(m, d, i, m.mem[d].dents[i]))
  }

  /** The slot recorded for frame f really holds f. */
  predicate SlotHolds(m: Machine, slot: Slot, f: nat) {
    match slot
    case DirOf(d) => f == d
    case TabOf(d, i) =>
      && IDENTITY_LEN <= i < PDIR_SIZE && IsDir(m, d)
      && m.mem[d].dents[i].present && m.mem[d].dents[i].table == f
    case PageOf(d, i, j) =>
      && IDENTITY_LEN <= i < PDIR_SIZE && j < PTAB_SIZE && IsDir(m, d)
      && m.mem[d].dents[i].present
      && var t := m.mem[d].dents[i].table;
      && IsTab(m, t)
      && m.mem[t].tents[j].present && m.mem[t].tents[j].petixAlloc && m.mem[t].tents[j].addr == f
  }

  predicate BackOk(m: Machine, f: nat)
    requires f in m.own
  {
    m.own[f].d in m.spaces && SlotHolds(m, m.own[f], f)
  }

  /** The kernel half is always mapped and never filled on demand. */
  ghost predicate KernelOk(k: Kernel) {
    && |k.dir| == PDIR_SIZE && |k.tabs| == IDENTITY_LEN
    && (forall i | 0 <= i < IDENTITY_LEN ::
          k.dir[i].present && !k.dir[i].petixAlloc && |k.tabs[i]| == PTAB_SIZE)
    && (forall i, j | 0 <= i < IDENTITY_LEN && 0 <= j < PTAB_SIZE :: !k.tabs[i][j].petixAlloc)
  }

  /** Every owned frame is marked in the bitmap. */
  ghost predicate Marked(m: Machine) {
    Frames.Inv(m.fa) && m.own.Keys <= Frames.Allocated(m.fa)
  }

  ghost predicate Inv(m: Machine) {
    && KernelOk(m.kernel)
    && Marked(m)
    && (forall d | d in m.spaces :: SpaceOk(m, d))
    && (forall f | f in m.own :: BackOk(m, f))
  }

  // -------------------------------------------------------------------- view

  function ZeroPage(): (z: seq<Byte>)
    ensures |z| == PAGE_SIZE
  {
    seq(PAGE_SIZE, _ => 0)
  }

  /**
   * What a process sees at a page: bytes of its own, with zeros where nothing has been
   * faulted in yet, or a device frame. Which frame backs private bytes is not visible.
   */
  datatype PageView =
    | Private(bytes: seq<Byte>, rw: bool, user: bool)
    | Device(frame: nat, rw: bool, user: bool)
    | Unmapped

  function BytesAt(m: Machine, f: nat): seq<Byte> {
    if IsPage(m, f) then m.mem[f].bytes else []
  }

  function PteView(m: Machine, te: TabEnt): PageView {
    if te.present then
      if te.petixAlloc then Private(BytesAt(m, te.addr), te.rw, te.user)
      else Device(te.addr, te.rw, te.user)
    else if te.petixAlloc then Private(ZeroPage(), te.rw, te.user)
    else Unmapped
  }

  function PdeView(m: Machine, de: DirEnt, j: nat): PageView
    requires j < PTAB_SIZE
  {
    if de.present then
      if IsTab(m, de.table) then PteView(m, m.mem[de.table].tents[j]) else Unmapped
    else if de.petixAlloc then Private(ZeroPage(), de.rw, de.user)
    else Unmapped
  }

  predicate InRegion(i: nat, j: nat) {
    IDENTITY_LEN <= i < PDIR_SIZE && j < PTAB_SIZE
  }

  function View(m: Machine, d: nat, i: nat, j: nat): PageView
    requires InRegion(i, j)
  {
    if IsDir(m, d) then PdeView(m, m.mem[d].dents[i], j) else Unmapped
  }

  ghost predicate SameViews(m: Machine, m': Machine, d: nat) {
    forall i: nat, j: nat | InRegion(i, j) :: View(m', d, i, j) == View(m, d, i, j)
  }

  // ------------------------------------------------------------------ framing

  /** The frame keeps its contents and its owner. */
  predicate Kept(m: Machine, m': Machine, f: nat) {
    && (f in m.own ==> f in m'.own && m'.own[f] == m.own[f])
    && (f in m.mem ==> f in m'.mem && m'.mem[f] == m.mem[f])
  }

  predicate InRow(s: Slot, d: nat, i: nat) {
    s.d == d && (s.TabOf? || s.PageOf?) && s.i == i
  }

  ghost predicate SpaceKept(m: Machine, m': Machine, d: nat) {
    && m'.kernel == m.kernel
    && forall f | f in m.own && m.own[f].d == d :: Kept(m, m', f)
  }

  ghost predicate RowKept(m: Machine, m': Machine, d: nat, i: nat) {
    forall f | f in m.own && InRow(m.own[f], d, i) :: Kept(m, m', f)
  }

  lemma TabFrame(m: Machine, m': Machine, d: nat, i: nat, t: nat)
    requires TabOk(m, d, i, t) && RowKept(m, m', d, i)
    ensures TabOk(m', d, i, t) && m'.mem[t] == m.mem[t]
    ensures forall j: nat | j < PTAB_SIZE :: PteView(m', m.mem[t].tents[j]) == PteView(m, m.mem[t].tents[j])
  {
  }

  lemma RowFrame(m: Machine, m': Machine, d: nat, i: nat, de: DirEnt)
    requires PdeOk(m, d, i, de) && RowKept(m, m', d, i)
    ensures PdeOk(m', d, i, de)
    ensures forall j: nat | j < PTAB_SIZE :: PdeView(m', de, j) == PdeView(m, de, j)
  {
  }

  /** A space whose frames are all kept stays well formed and looks the same. */
  lemma SpaceFrame(m: Machine, m': Machine, d: nat)
    requires SpaceOk(m, d) && SpaceKept(m, m', d)
    ensures SpaceOk(m', d) && SameViews(m, m', d)
  {
  }

  lemma BackFrame(m: Machine, m': Machine, f: nat)
    requires f in m.own && BackOk(m, f)
    requires SpaceOk(m, m.own[f].d) && SpaceKept(m, m', m.own[f].d) && m.own[f].d in m'.spaces
    ensures f in m'.own && BackOk(m', f)
  {
  }

  /** Only frames of d, or frames nobody owns, have changed. */
  ghost predicate OthersKept(m: Machine, m': Machine, d: nat) {
    && m'.kernel == m.kernel
    && forall f | f in m.own && m.own[f].d != d :: Kept(m, m', f)
  }

  /** Isolation: a change confined to d's frames leaves every other space as it was. */
  lemma OtherSpaces(m: Machine, m': Machine, d: nat)
    requires Inv(m) && OthersKept(m, m', d)
    requires m.spaces - {d} <= m'.spaces
    ensures forall e | e in m.spaces && e != d :: SpaceOk(m', e) && SameViews(m, m', e)
    ensures forall f | f in m.own && m.own[f].d != d :: f in m'.own && BackOk(m', f)
  {
    forall e | e in m.spaces && e != d ensures SpaceOk(m', e) && SameViews(m, m', e) {
      SpaceFrame(m, m', e);
    }
    forall f | f in m.own && m.own[f].d != d ensures f in m'.own && BackOk(m', f) {
      assert BackOk(m, f);
      BackFrame(m, m', f);
    }
  }

  /** Apart from entry i of d's directory and the frames below it, owned frames are kept. */
  ghost predicate OnlyRow(m: Machine, m': Machine, d: nat, i: nat)
    requires IsDir(m, d)
  {
    && m'.kernel == m.kernel && m'.spaces == m.spaces
    && d in m'.own && m'.own[d] == DirOf(d) && IsDir(m', d)
    && (forall k: nat | k < PDIR_SIZE && k != i :: m'.mem[d].dents[k] == m.mem[d].dents[k])
    && (forall f | f in m.own && f != d && !InRow(m.own[f], d, i) :: Kept(m, m', f))
  }

  lemma RowUpdateSelf(m: Machine, m': Machine, d: nat, i: nat)
    requires Inv(m) && d in m.spaces && IDENTITY_LEN <= i < PDIR_SIZE && IsDir(m, d)
    requires OnlyRow(m, m', d, i)
    requires PdeOk(m', d, i, m'.mem[d].dents[i])
    ensures SpaceOk(m', d)
    ensures forall k: nat, j: nat | InRegion(k, j) && k != i :: View(m', d, k, j) == View(m, d, k, j)
  {
    assert SpaceOk(m, d);
    forall k: nat | IDENTITY_LEN <= k < PDIR_SIZE && k != i
      ensures PdeOk(m', d, k, m'.mem[d].dents[k])
      ensures forall j: nat | j < PTAB_SIZE :: View(m', d, k, j) == View(m, d, k, j)
    {
      assert PdeOk(m, d, k, m.mem[d].dents[k]);
      RowFrame(m, m', d, k, m.mem[d].dents[k]);
    }
  }

  lemma RowUpdateBack(m: Machine, m': Machine, d: nat, i: nat, f: nat)
    requires Inv(m) && d in m.spaces && IDENTITY_LEN <= i < PDIR_SIZE && IsDir(m, d)
    requires OnlyRow(m, m', d, i)
    requires f in m.own && m.own[f].d == d && !InRow(m.own[f], d, i)
    ensures f in m'.own && BackOk(m', f)
  {
  }

  /** To re-establish the invariant after changing one row, look at that row only. */
  lemma RowUpdate(m: Machine, m': Machine, d: nat, i: nat)
    requires Inv(m) && d in m.spaces && IDENTITY_LEN <= i < PDIR_SIZE && IsDir(m, d)
    requires OnlyRow(m, m', d, i)
    requires PdeOk(m', d, i, m'.mem[d].dents[i])
    requires Marked(m')
    requires forall f | f in m'.own && (f in m.own ==> InRow(m.own[f], d, i)) :: BackOk(m', f)
    ensures Inv(m')
    ensures forall e | e in m.spaces && e != d :: SameViews(m, m', e)
    ensures forall k: nat, j: nat | InRegion(k, j) && k != i :: View(m', d, k, j) == View(m, d, k, j)
  {
    assert SpaceOk(m, d);
    RowUpdateSelf(m, m', d, i);
    OtherSpaces(m, m', d);
    forall f | f in m'.own ensures BackOk(m', f) {
      if f in m.own && !InRow(m.own[f], d, i) && m.own[f].d == d {
        RowUpdateBack(m, m', d, i, f);
      }
    }
  }

  /** Apart from entry j of table i of space d and the page in it, owned frames are kept. */
  ghost predicate OnlyPte(m: Machine, m': Machine, d: nat, i: nat, j: nat, t: nat)
    requires IsTab(m, t)
  {
    && m'.kernel == m.kernel && m'.spaces == m.spaces
    && t in m'.own && m'.own[t] == TabOf(d, i) && IsTab(m', t)
    && (forall k: nat | k < PTAB_SIZE && k != j :: m'.mem[t].tents[k] == m.mem[t].tents[k])
    && (forall f | f in m.own && f != t && m.own[f] != PageOf(d, i, j) :: Kept(m, m', f))
  }

  ghost predicate TableAt(m: Machine, d: nat, i: nat, t: nat) {
    && d in m.spaces && IDENTITY_LEN <= i < PDIR_SIZE && IsDir(m, d)
    && m.mem[d].dents[i].present && m.mem[d].dents[i].table == t
  }

  lemma PteUpdateRow(m: Machine, m': Machine, d: nat, i: nat, j: nat, t: nat)
    requires Inv(m) && TableAt(m, d, i, t) && j < PTAB_SIZE && TabOk(m, d, i, t)
    requires OnlyPte(m, m', d, i, j, t)
    requires PteOk(m', d, i, j, m'.mem[t].tents[j])
    ensures TabOk(m', d, i, t)
    ensures forall k: nat | k < PTAB_SIZE && k != j ::
              PteView(m', m'.mem[t].tents[k]) == PteView(m, m.mem[t].tents[k])
  {
    forall k: nat | k < PTAB_SIZE && k != j
      ensures PteOk(m', d, i, k, m'.mem[t].tents[k])
      ensures PteView(m', m'.mem[t].tents[k]) == PteView(m, m.mem[t].tents[k])
    {
      assert PteOk(m, d, i, k, m.mem[t].tents[k]);
    }
  }

  lemma PteUpdateBack(m: Machine, m': Machine, d: nat, i: nat, j: nat, t: nat, f: nat)
    requires Inv(m) && TableAt(m, d, i, t) && j < PTAB_SIZE && TabOk(m, d, i, t)
    requires OnlyPte(m, m', d, i, j, t)
    requires f in m.own && InRow(m.own[f], d, i) && m.own[f] != PageOf(d, i, j)
    ensures f in m'.own && BackOk(m', f)
  {
  }

  /** To re-establish the invariant after changing one page table entry, look at that entry only. */
  lemma PteUpdate(m: Machine, m': Machine, d: nat, i: nat, j: nat, t: nat)
    requires Inv(m) && TableAt(m, d, i, t) && j < PTAB_SIZE && IsTab(m, t)
    requires OnlyPte(m, m', d, i, j, t)
    requires PteOk(m', d, i, j, m'.mem[t].tents[j])
    requires Marked(m')
    requires forall f | f in m'.own && (f in m.own ==> m.own[f] == PageOf(d, i, j)) :: BackOk(m', f)
    ensures Inv(m') && TableAt(m', d, i, t)
    ensures forall e | e in m.spaces && e != d :: SameViews(m, m', e)
    ensures forall k: nat, l: nat | InRegion(k, l) && !(k == i && l == j) :: View(m', d, k, l) == View(m, d, k, l)
  {
    assert SpaceOk(m, d) && PdeOk(m, d, i, m.mem[d].dents[i]);
    PteUpdateRow(m, m', d, i, j, t);
    assert Kept(m, m', d);
    forall f | f in m'.own && (f in m.own ==> InRow(m.own[f], d, i)) ensures BackOk(m', f) {
      if f in m.own && m.own[f] != PageOf(d, i, j) { PteUpdateBack(m, m', d, i, j, t, f); }
    }
    PteUpdateOnlyRow(m, m', d, i, j, t);
    RowUpdate(m, m', d, i);
    hide Inv, PteView, PdeView, View, BackOk, TabOk, Marked;
    forall k: nat, l: nat | InRegion(k, l) && !(k == i && l == j) ensures View(m', d, k, l) == View(m, d, k, l) {
      if k == i {
        TableView(m, d, i, l, t);
        TableView(m', d, i, l, t);
      }
    }
  }

  lemma PteUpdateOnlyRow(m: Machine, m': Machine, d: nat, i: nat, j: nat, t: nat)
    requires Inv(m) && TableAt(m, d, i, t) && IsTab(m, t) && OnlyPte(m, m', d, i, j, t) && Kept(m, m', d)
    requires t in m.own && m.own[t] == TabOf(d, i)
    ensures OnlyRow(m, m', d, i) && TableAt(m', d, i, t)
  {
  }

  lemma TableView(m: Machine, d: nat, i: nat, l: nat, t: nat)
    requires TableAt(m, d, i, t) && IsTab(m, t) && l < PTAB_SIZE
    ensures View(m, d, i, l) == PteView(m, m.mem[t].tents[l])
  {
  }

  // ---------------------------------------------------------------- footprints

  /** Frame f is reached by walking the tables of space d. */
  ghost predicate Reaches(m: Machine, d: nat, f: nat) {
    exists slot: Slot :: slot.d == d && SlotHolds(m, slot, f)
  }

  /** The walk finds exactly the frames recorded for d. */
  lemma ReachesIffOwned(m: Machine, d: nat, f: nat)
    requires Inv(m) && d in m.spaces
    ensures Reaches(m, d, f) <==> f in m.own && m.own[f].d == d
  {
  }

  /** No frame serves two address spaces or two slots of one, and every one of them is marked. */
  lemma FootprintsDisjoint(m: Machine, s1: Slot, s2: Slot, f: nat)
    requires Inv(m) && s1.d in m.spaces && s2.d in m.spaces
    requires SlotHolds(m, s1, f) && SlotHolds(m, s2, f)
    ensures s1 == s2 && f in Frames.Allocated(m.fa)
  {
  }

}
