/**
 * The operations of kernel/arch/i686/paging.c on the machine of module Paging: what each
 * does, and that every run of them keeps the tables sound, leaks no frame and keeps
 * address spaces apart.
 */
module PagingOps {
  import opened Common
  import opened Paging
  import Frames

  /** Why the kernel stopped. StrayAccess: a table pointer that does not lead to a table. */
  datatype Reason = Unrecoverable | Segfault | OutOfPages | FailedAssert | StrayAccess

  datatype Outcome = Done(m: Machine, ret: int) | Panic(reason: Reason)

  // ------------------------------------------------------------- small steps

  function SetDent(m: Machine, d: nat, i: nat, de: DirEnt): Machine
    requires IsDir(m, d) && i < PDIR_SIZE
  {
    m.(mem := m.mem[d := Dir(m.mem[d].dents[i := de])])
  }

  function SetTent(m: Machine, t: nat, j: nat, te: TabEnt): Machine
    requires IsTab(m, t) && j < PTAB_SIZE
  {
    m.(mem := m.mem[t := Tab(m.mem[t].tents[j := te])])
  }

  /** alloc_page_ptr followed by filling the frame; Done returns the frame. */
  function Grab(m: Machine, contents: Frame, slot: Slot): Outcome {
    var page := Frames.NextPage(m.fa);
    if page.None? then Panic(OutOfPages)
    else if !Frames.InRange(m.fa, page.value) then Panic(StrayAccess)
    else
      Done(m.(fa := Frames.AfterAlloc(m.fa),
              mem := m.mem[page.value := contents],
              own := m.own[page.value := slot]),
           page.value)
  }

  /** alloc_page_ptr for a directory, which is its own slot. */
  function GrabDir(m: Machine, dents: seq<DirEnt>): Outcome {
    var page := Frames.NextPage(m.fa);
    if page.None? then Panic(OutOfPages) else Grab(m, Dir(dents), DirOf(page.value))
  }

  /** free_page, with its double-free assertion. */
  function Drop(m: Machine, f: nat): Outcome {
    if f == 0 then Done(m, 0)
    else if !Frames.Taken(m.fa, f) then Panic(FailedAssert)
    else Done(m.(fa := Frames.AfterFree(m.fa, f), own := m.own - {f}), 0)
  }

  /** The pages held outside the address spaces, by other users of the allocator. */
  ghost function Foreign(m: Machine): set<nat> {
    Frames.Allocated(m.fa) - m.own.Keys
  }

  lemma GrabIsFresh(m: Machine, contents: Frame, slot: Slot)
    requires Marked(m)
    ensures Grab(m, contents, slot).Panic? ==> Grab(m, contents, slot) == Panic(OutOfPages)
    ensures Grab(m, contents, slot).Done? ==>
              var m' := Grab(m, contents, slot).m;
              var f := Grab(m, contents, slot).ret;
              && f > 0 && f !in m.own && f !in Frames.Allocated(m.fa) && Marked(m')
              && m' == m.(fa := m'.fa, mem := m.mem[f := contents], own := m.own[f := slot])
              && Foreign(m') == Foreign(m)
              && (forall g | g in m.own :: Kept(m, m', g))
  {
    hide Frames.Inv, Frames.Allocated, Frames.NextPage, Frames.InRange, Frames.AfterAlloc;
    Frames.AllocTakesOneFreePage(m.fa);
  }

  lemma DropOwned(m: Machine, f: nat)
    requires Marked(m) && f in m.own
    ensures Drop(m, f).Done?
    ensures var m' := Drop(m, f).m;
            && m' == m.(fa := m'.fa, own := m.own - {f}) && Marked(m')
            && Frames.Allocated(m'.fa) == Frames.Allocated(m.fa) - {f}
            && Foreign(m') == Foreign(m) && Frames.SameRange(m.fa, m'.fa)
  {
    assert f in Frames.Allocated(m.fa);
    Frames.FreeReleasesOnePage(m.fa, f);
  }

  // -------------------------------------------------------------- page faults

  /** The table a fault installs: every entry absent, to be filled on demand. */
  function DemandTable(de: DirEnt): (tents: seq<TabEnt>)
    ensures |tents| == PTAB_SIZE
  {
    seq(PTAB_SIZE, _ => TabEnt(false, de.rw, de.user, false, true, 0))
  }

  function EnsureTable(m: Machine, d: nat, i: nat): Outcome
    requires IsDir(m, d) && i < PDIR_SIZE
  {
    var de := m.mem[d].dents[i];
    if de.present then Done(m, 0)
    else if !de.petixAlloc then Panic(Segfault)
    else
      var g := Grab(m, Tab(DemandTable(de)), TabOf(d, i));
      if g.Panic? then g
      else if !IsDir(g.m, d) || g.ret < 0 then Panic(StrayAccess)
      else Done(SetDent(g.m, d, i, de.(present := true, table := g.ret)), 0)
  }

  function EnsurePage(m: Machine, d: nat, i: nat, j: nat): Outcome
    requires IsDir(m, d) && i < PDIR_SIZE && j < PTAB_SIZE
  {
    var t := m.mem[d].dents[i].table;
    if !m.mem[d].dents[i].present then Panic(FailedAssert)
    else if !IsTab(m, t) then Panic(StrayAccess)
    else
      var te := m.mem[t].tents[j];
      if te.present then Done(m, 0)
      else if !te.petixAlloc then Panic(Segfault)
      else
        var g := Grab(m, Page(ZeroPage()), PageOf(d, i, j));
        if g.Panic? then g
        else if !IsTab(g.m, t) || g.ret < 0 then Panic(StrayAccess)
        else Done(SetTent(g.m, t, j, te.(present := true, global := false, addr := g.ret)), 0)
  }

  /** error_code & 0x9: a protection violation or a reserved bit. */
  predicate BadAccess(errorCode: nat) {
    errorCode % 2 == 1 || errorCode / 8 % 2 == 1
  }

  /** page_fault_handler on the address space d, for page j of directory entry i. */
  function PageFault(m: Machine, d: nat, i: nat, j: nat, errorCode: nat): Outcome
    requires i < PDIR_SIZE && j < PTAB_SIZE
  {
    if BadAccess(errorCode) then Panic(Unrecoverable)
    else if !IsDir(m, d) then Panic(StrayAccess)
    else if i < IDENTITY_LEN && m.mem[d].dents[i].present then
      // the static tables: nothing to allocate
      if i < |m.kernel.tabs| && j < |m.kernel.tabs[i]| && m.kernel.tabs[i][j].present
      then Done(m, 0) else Panic(Segfault)
    else
      var r := EnsureTable(m, d, i);
      if r.Panic? then r
      else if !IsDir(r.m, d) then Panic(StrayAccess)
      else EnsurePage(r.m, d, i, j)
  }

  /** The entry an operation on page (i, j) of d works on, or None where the kernel asserts. */
  function EntryAt(m: Machine, d: nat, i: nat, j: nat): Option<TabEnt>
    requires i < PDIR_SIZE && j < PTAB_SIZE
  {
    if !IsDir(m, d) || !m.mem[d].dents[i].present || !IsTab(m, m.mem[d].dents[i].table) then None
    else Some(m.mem[m.mem[d].dents[i].table].tents[j])
  }

  /** m' differs from m by bookkeeping nobody can see: all views equal, no frame leaked. */
  ghost predicate Invisible(m: Machine, m': Machine) {
    && m'.spaces == m.spaces && m'.kernel == m.kernel
    && Foreign(m') == Foreign(m)
    && (forall e | e in m.spaces :: SameViews(m, m', e))
  }

  lemma EnsureTableRow(m: Machine, d: nat, i: nat)
    requires Inv(m) && d in m.spaces && IDENTITY_LEN <= i < PDIR_SIZE && IsDir(m, d)
    requires !m.mem[d].dents[i].present && EnsureTable(m, d, i).Done?
    ensures var m' := EnsureTable(m, d, i).m;
            && OnlyRow(m, m', d, i) && Marked(m') && Foreign(m') == Foreign(m)
            && IsDir(m', d) && m'.mem[d].dents[i].present
            && PdeOk(m', d, i, m'.mem[d].dents[i])
            && m'.own == m.own[m'.mem[d].dents[i].table := TabOf(d, i)]
            && m'.mem[d].dents[i].table !in m.own
            && m'.mem[m'.mem[d].dents[i].table] == Tab(DemandTable(m.mem[d].dents[i]))
  {
    hide Frames.Inv, Frames.Allocated, Frames.NextPage, Frames.InRange, Frames.AfterAlloc;
    var de := m.mem[d].dents[i];
    assert SpaceOk(m, d);
    GrabIsFresh(m, Tab(DemandTable(de)), TabOf(d, i));
    var m' := EnsureTable(m, d, i).m;
    var t := m'.mem[d].dents[i].table;
    forall j: nat | j < PTAB_SIZE ensures PteOk(m', d, i, j, m'.mem[t].tents[j]) {}
  }

  lemma EnsureTableInvisible(m: Machine, d: nat, i: nat)
    requires Inv(m) && d in m.spaces && IDENTITY_LEN <= i < PDIR_SIZE && IsDir(m, d)
    ensures EnsureTable(m, d, i).Panic? ==> EnsureTable(m, d, i) == Panic(OutOfPages)
    ensures EnsureTable(m, d, i).Done? ==>
              var m' := EnsureTable(m, d, i).m;
              Inv(m') && Invisible(m, m') && IsDir(m', d) && m'.mem[d].dents[i].present
  {
    hide Frames.Inv, Frames.Allocated, Frames.NextPage, Frames.InRange, Frames.AfterAlloc;
    assert SpaceOk(m, d) && PdeOk(m, d, i, m.mem[d].dents[i]);
    var r := EnsureTable(m, d, i);
    if !m.mem[d].dents[i].present {
      GrabIsFresh(m, Tab(DemandTable(m.mem[d].dents[i])), TabOf(d, i));
      if r.Done? {
        EnsureTableRow(m, d, i);
        RowUpdate(m, r.m, d, i);
      }
    }
  }

  lemma EnsurePageInvisible(m: Machine, d: nat, i: nat, j: nat)
    requires Inv(m) && d in m.spaces && InRegion(i, j) && IsDir(m, d)
    requires m.mem[d].dents[i].present
    ensures EnsurePage(m, d, i, j).Panic? ==> EnsurePage(m, d, i, j) == Panic(OutOfPages)
    ensures EnsurePage(m, d, i, j).Done? ==>
              var m' := EnsurePage(m, d, i, j).m;
              && Inv(m') && Invisible(m, m')
              && TableAt(m', d, i, m.mem[d].dents[i].table) && IsTab(m', m.mem[d].dents[i].table)
              && m'.mem[m.mem[d].dents[i].table].tents[j].present
  {
    hide Frames.Inv, Frames.Allocated, Frames.NextPage, Frames.InRange, Frames.AfterAlloc;
    var t := m.mem[d].dents[i].table;
    assert SpaceOk(m, d) && PdeOk(m, d, i, m.mem[d].dents[i]);
    assert PteOk(m, d, i, j, m.mem[t].tents[j]);
    var r := EnsurePage(m, d, i, j);
    if !m.mem[t].tents[j].present {
      GrabIsFresh(m, Page(ZeroPage()), PageOf(d, i, j));
      if r.Done? {
        assert OnlyPte(m, r.m, d, i, j, t);
        PteUpdate(m, r.m, d, i, j, t);
      }
    }
  }

  /**
   * A page fault in the process half is never a segfault: it fills in the page, or runs
   * out of frames, and no process sees any difference.
   */
  lemma PageFaultIsInvisible(m: Machine, d: nat, i: nat, j: nat, errorCode: nat)
    requires Inv(m) && d in m.spaces && InRegion(i, j)
    ensures var r := PageFault(m, d, i, j, errorCode);
            && (r == Panic(Unrecoverable) <==> BadAccess(errorCode))
            && (r.Panic? ==> r.reason in {Unrecoverable, OutOfPages})
            && (r.Done? ==>
                  && Inv(r.m) && Invisible(m, r.m)
                  && EntryAt(r.m, d, i, j).Some? && EntryAt(r.m, d, i, j).value.present)
  {
    hide Frames.Inv, Frames.Allocated, Frames.NextPage, Frames.InRange, Frames.AfterAlloc;
    assert SpaceOk(m, d);
    if !BadAccess(errorCode) {
      EnsureTableInvisible(m, d, i);
      var r := EnsureTable(m, d, i);
      if r.Done? { EnsurePageInvisible(r.m, d, i, j); }
    }
  }

  /** In the kernel half the handler allocates nothing, and stops on exactly the unmapped pages. */
  lemma KernelFault(m: Machine, d: nat, i: nat, j: nat, errorCode: nat)
    requires Inv(m) && d in m.spaces && i < IDENTITY_LEN && j < PTAB_SIZE && !BadAccess(errorCode)
    ensures PageFault(m, d, i, j, errorCode) ==
            if m.kernel.tabs[i][j].present then Done(m, 0) else Panic(Segfault)
  {
  }

  // --------------------------------------------- locking, remapping, storing

  /** lock_page: the page stops being accessible from user mode. */
  function LockPage(m: Machine, d: nat, i: nat, j: nat): Outcome
    requires InRegion(i, j)
  {
    var te := EntryAt(m, d, i, j);
    if te.None? || !te.value.present then Panic(FailedAssert)
    else Done(SetTent(m, m.mem[d].dents[i].table, j, te.value.(user := false)), 0)
  }

  /** The bounds test of remap_page_user: user pages only, the kernel stack page excluded. */
  predicate UserPage(i: nat, j: nat) {
    IDENTITY_LEN <= i < PDIR_SIZE && j < PTAB_SIZE && (i, j) != (PDIR_SIZE - 1, PTAB_SIZE - 1)
  }

  /** The second half of remap_page_user, once the entry is present. */
  function PointAt(m: Machine, d: nat, i: nat, j: nat, phys: nat): Outcome
    requires InRegion(i, j)
  {
    var te := EntryAt(m, d, i, j);
    if te.None? || !te.value.present then Panic(FailedAssert)
    else
      var t := m.mem[d].dents[i].table;
      if te.value.petixAlloc then
        var r := Drop(m, te.value.addr);
        if r.Panic? then r
        else if !IsTab(r.m, t) then Panic(StrayAccess)
        else Done(SetTent(r.m, t, j, te.value.(petixAlloc := false, addr := phys)), 0)
      else Done(SetTent(m, t, j, te.value.(addr := phys)), 0)
  }

  /** remap_page_user on the running space d; the read of *virt faults the page in first. */
  function RemapUser(m: Machine, d: nat, i: nat, j: nat, phys: nat): Outcome
    requires i < PDIR_SIZE && j < PTAB_SIZE
  {
    if !UserPage(i, j) then Done(m, -1)
    else
      var te := EntryAt(m, d, i, j);
      if te.Some? && te.value.present then PointAt(m, d, i, j, phys)
      else
        var r := PageFault(m, d, i, j, 0);
        if r.Panic? then r else PointAt(r.m, d, i, j, phys)
  }

  /** A store by the processor to a present, writable page of the process's own. */
  function Store(m: Machine, d: nat, i: nat, j: nat, off: nat, b: Byte): Outcome
    requires InRegion(i, j) && off < PAGE_SIZE
  {
    var te := EntryAt(m, d, i, j);
    if te.None? || !te.value.present || !te.value.rw || !te.value.petixAlloc then Panic(Unrecoverable)
    else if !IsPage(m, te.value.addr) then Panic(StrayAccess)
    else Done(m.(mem := m.mem[te.value.addr := Page(m.mem[te.value.addr].bytes[off := b])]), 0)
  }

  /** The entry exists, and nothing but the page at (i, j) of d looks different in m'. */
  ghost predicate OnlySeenAt(m: Machine, m': Machine, d: nat, i: nat, j: nat) {
    && m'.spaces == m.spaces && m'.kernel == m.kernel
    && Foreign(m') == Foreign(m)
    && (forall e | e in m.spaces && e != d :: SameViews(m, m', e))
    && (forall k: nat, l: nat | InRegion(k, l) && !(k == i && l == j) :: View(m', d, k, l) == View(m, d, k, l))
  }

  lemma EntryFacts(m: Machine, d: nat, i: nat, j: nat)
    requires Inv(m) && d in m.spaces && InRegion(i, j)
    requires EntryAt(m, d, i, j).Some?
    ensures IsDir(m, d) && TableAt(m, d, i, m.mem[d].dents[i].table)
    ensures TabOk(m, d, i, m.mem[d].dents[i].table)
    ensures PteOk(m, d, i, j, EntryAt(m, d, i, j).value)
    ensures View(m, d, i, j) == PteView(m, EntryAt(m, d, i, j).value)
  {
  }

  /** lock_page takes away user access to one page and changes nothing else. */
  lemma LockPageOnly(m: Machine, d: nat, i: nat, j: nat)
    requires Inv(m) && d in m.spaces && InRegion(i, j)
    requires LockPage(m, d, i, j).Done?
    ensures var m' := LockPage(m, d, i, j).m;
            && Inv(m') && OnlySeenAt(m, m', d, i, j)
            && View(m', d, i, j) == (match View(m, d, i, j)
                                     case Private(b, rw, _) => Private(b, rw, false)
                                     case Device(f, rw, _) => Device(f, rw, false)
                                     case Unmapped => Unmapped)
  {
    hide Frames.Inv, Frames.Allocated, Frames.NextPage, Frames.InRange;
    hide Frames.AfterAlloc, Frames.Taken, Frames.AfterFree;
    EntryFacts(m, d, i, j);
    LockFrame(m, d, i, j);
    hide Inv, SameViews, BackOk, TabOk;
    PteUpdate(m, LockPage(m, d, i, j).m, d, i, j, m.mem[d].dents[i].table);
  }

  lemma LockFrame(m: Machine, d: nat, i: nat, j: nat)
    requires Inv(m) && d in m.spaces && InRegion(i, j) && LockPage(m, d, i, j).Done?
    ensures IsDir(m, d) && TableAt(m, d, i, m.mem[d].dents[i].table) && IsTab(m, m.mem[d].dents[i].table)
    ensures var m', t := LockPage(m, d, i, j).m, m.mem[d].dents[i].table;
            && OnlyPte(m, m', d, i, j, t) && PteOk(m', d, i, j, m'.mem[t].tents[j]) && Marked(m')
            && Foreign(m') == Foreign(m)
            && (forall f | f in m'.own && (f in m.own ==> m.own[f] == PageOf(d, i, j)) :: BackOk(m', f))
  {
    hide Frames.Inv, Frames.Allocated;
    EntryFacts(m, d, i, j);
    var t := m.mem[d].dents[i].table;
    var m' := LockPage(m, d, i, j).m;
    var te := m.mem[t].tents[j];
    assert te.present && te.petixAlloc ==> te.addr in m.own && m.own[te.addr] == PageOf(d, i, j);
    forall f | f in m'.own && (f in m.own ==> m.own[f] == PageOf(d, i, j)) ensures BackOk(m', f) {
      assert BackOk(m, f);
    }
  }

  /** Page (i, j) of d now shows device frame phys, with the permissions it had. */
  ghost predicate NowDevice(m: Machine, m': Machine, d: nat, i: nat, j: nat, phys: nat)
    requires InRegion(i, j)
  {
    && View(m, d, i, j) != Unmapped
    && View(m', d, i, j) == Device(phys, View(m, d, i, j).rw, View(m, d, i, j).user)
  }

  lemma PointAtPte(m: Machine, d: nat, i: nat, j: nat, phys: nat, t: nat)
    requires Inv(m) && TableAt(m, d, i, t) && TabOk(m, d, i, t) && InRegion(i, j)
    requires PteOk(m, d, i, j, m.mem[t].tents[j]) && m.mem[t].tents[j].present
    ensures PointAt(m, d, i, j, phys).Done? && PointAt(m, d, i, j, phys).ret == 0
    ensures var m' := PointAt(m, d, i, j, phys).m;
            && OnlyPte(m, m', d, i, j, t) && Marked(m') && Foreign(m') == Foreign(m)
            && m'.mem[t].tents[j] == m.mem[t].tents[j].(petixAlloc := false, addr := phys)
            && (forall f | f in m'.own :: f in m.own && m.own[f] != PageOf(d, i, j))
  {
    hide Frames.Inv, Frames.Allocated, Frames.NextPage, Frames.InRange;
    hide Frames.AfterAlloc, Frames.Taken, Frames.AfterFree;
    var te := m.mem[t].tents[j];
    if te.petixAlloc { DropOwned(m, te.addr); }
    var m' := PointAt(m, d, i, j, phys).m;
    forall f | f in m.own && m.own[f] == PageOf(d, i, j) ensures te.petixAlloc && f == te.addr {
      assert BackOk(m, f);
    }
  }

  /** After the remap the page shows the device frame, with the permissions it had. */
  lemma PointAtShowsDevice(m: Machine, d: nat, i: nat, j: nat, phys: nat)
    requires Inv(m) && d in m.spaces && InRegion(i, j)
    requires EntryAt(m, d, i, j).Some? && EntryAt(m, d, i, j).value.present
    ensures PointAt(m, d, i, j, phys).Done? && PointAt(m, d, i, j, phys).ret == 0
    ensures var m' := PointAt(m, d, i, j, phys).m;
            Inv(m') && OnlySeenAt(m, m', d, i, j) && NowDevice(m, m', d, i, j, phys)
  {
    hide PointAt, Marked, Foreign;
    EntryFacts(m, d, i, j);
    var t := m.mem[d].dents[i].table;
    PointAtPte(m, d, i, j, phys, t);
    PteUpdate(m, PointAt(m, d, i, j, phys).m, d, i, j, t);
  }

  /** A store shows at its own byte, and at no other page of any address space. */
  lemma StoreIsPrivate(m: Machine, d: nat, i: nat, j: nat, off: nat, b: Byte)
    requires Inv(m) && d in m.spaces && InRegion(i, j) && off < PAGE_SIZE
    ensures var r := Store(m, d, i, j, off, b);
            r.Panic? ==> r.reason == Unrecoverable
    ensures var r := Store(m, d, i, j, off, b);
            r.Done? ==>
              && Inv(r.m) && OnlySeenAt(m, r.m, d, i, j)
              && View(m, d, i, j).Private? && |View(m, d, i, j).bytes| == PAGE_SIZE
              && View(r.m, d, i, j) == View(m, d, i, j).(bytes := View(m, d, i, j).bytes[off := b])
  {
    hide Frames.Inv, Frames.Allocated, Frames.NextPage, Frames.InRange;
    hide Frames.AfterAlloc, Frames.Taken, Frames.AfterFree;
    if EntryAt(m, d, i, j).Some? {
      EntryFacts(m, d, i, j);
      var r := Store(m, d, i, j, off, b);
      if r.Done? {
        var t := m.mem[d].dents[i].table;
        StoreFrame(m, d, i, j, off, b);
        hide Inv, SameViews, BackOk, TabOk;
        PteUpdate(m, r.m, d, i, j, t);
      }
    }
  }

  lemma StoreFrame(m: Machine, d: nat, i: nat, j: nat, off: nat, b: Byte)
    requires Inv(m) && d in m.spaces && InRegion(i, j) && off < PAGE_SIZE
    requires Store(m, d, i, j, off, b).Done? && EntryAt(m, d, i, j).Some?
    ensures IsDir(m, d) && TableAt(m, d, i, m.mem[d].dents[i].table) && IsTab(m, m.mem[d].dents[i].table)
    ensures var m', t := Store(m, d, i, j, off, b).m, m.mem[d].dents[i].table;
            && OnlyPte(m, m', d, i, j, t) && PteOk(m', d, i, j, m'.mem[t].tents[j]) && Marked(m')
            && Foreign(m') == Foreign(m) && m'.mem[t] == m.mem[t]
            && (forall f | f in m'.own && (f in m.own ==> m.own[f] == PageOf(d, i, j)) :: BackOk(m', f))
  {
    hide Frames.Inv, Frames.Allocated;
    EntryFacts(m, d, i, j);
    var m' := Store(m, d, i, j, off, b).m;
    forall f | f in m'.own && (f in m.own ==> m.own[f] == PageOf(d, i, j)) ensures BackOk(m', f) {
      assert BackOk(m, f);
    }
  }

  /** remap_page_user refuses the kernel half and the kernel stack page, and else never asserts. */
  lemma RemapUserShowsDevice(m: Machine, d: nat, i: nat, j: nat, phys: nat)
    requires Inv(m) && d in m.spaces && i < PDIR_SIZE && j < PTAB_SIZE
    ensures var r := RemapUser(m, d, i, j, phys);
            if UserPage(i, j) then
              r == Panic(OutOfPages) ||
              (&& r.Done? && r.ret == 0 && Inv(r.m)
               && OnlySeenAt(m, r.m, d, i, j) && NowDevice(m, r.m, d, i, j, phys))
            else r == Done(m, -1)
  {
    hide PageFault, PointAt, Inv, Foreign, PteOk, PdeOk, PdeView, PteView;
    if UserPage(i, j) {
      var te := EntryAt(m, d, i, j);
      if te.Some? && te.value.present {
        PointAtShowsDevice(m, d, i, j, phys);
      } else {
        PageFaultIsInvisible(m, d, i, j, 0);
        var r := PageFault(m, d, i, j, 0);
        if r.Done? { PointAtShowsDevice(r.m, d, i, j, phys); }
      }
    }
  }
}
