/** kernel/arch/i686/paging.c as it runs: tables edited in place by loops. */
module AddressSpaces {
  import opened Paging
  import opened PagingOps
  import opened PagingFork
  import opened PagingFree
  import Frames

  /** A call either returns or stops the kernel. */
  datatype Status = Ok(ret: int) | Stop(reason: Reason)

  ghost predicate Agrees(r: Status, m: Machine, o: Outcome) {
    match o
    case Done(m', ret) => r == Ok(ret) && m == m'
    case Panic(reason) => r == Stop(reason)
  }

  class AddressSpaceManager {
    const kernel: Kernel
    const fa: Frames.FrameAllocator
    var mem: map<nat, Frame>
    ghost var own: map<nat, Slot>
    ghost var spaces: set<nat>

    ghost function M(): Machine
      reads this, fa, fa.frames, fa.freeStack
      requires fa.Wf()
    {
      Machine(kernel, fa.Model(), mem, own, spaces)
    }

    constructor (kernel: Kernel, fa: Frames.FrameAllocator)
      requires fa.Valid() && KernelOk(kernel)
      ensures this.kernel == kernel && this.fa == fa
      ensures Inv(M()) && M() == Machine(kernel, fa.Model(), map[], map[], {})
    {
      this.kernel, this.fa := kernel, fa;
      mem, own, spaces := map[], map[], {};
    }

    /** alloc_page_ptr and the memset or memcpy that follows it. */
    method GrabFrame(contents: Frame, ghost slot: Slot) returns (r: Status)
      requires fa.Valid()
      modifies this, fa`freeStackTop, fa.frames
      ensures fa.Valid() && Agrees(r, M(), Grab(old(M()), contents, slot)) && (r.Ok? ==> r.ret >= 0)
    {
      hide Frames.Inv, Frames.NextPage, Frames.InRange, Frames.AfterAlloc;
      ghost var m0 := M();
      var page := fa.AllocPage();
      if page.None? {
        return Stop(OutOfPages);
      }
      mem := mem[page.value := contents];
      own := own[page.value := slot];
      r := Ok(page.value);
    }

    /** free_page. */
    method DropFrame(f: nat)
      requires fa.Valid() && Marked(M()) && f in own
      modifies this`own, fa`freeStackTop, fa.frames, fa.freeStack
      ensures fa.Valid() && Done(M(), 0) == Drop(old(M()), f)
    {
      hide Frames.AfterFree;
      assert f in Frames.Allocated(M().fa);
      fa.FreePage(f);
      own := own - {f};
    }

    /** memset to zero, then the loop that marks every entry for demand filling. */
    method FillTable(de: DirEnt) returns (tents: seq<TabEnt>)
      ensures tents == DemandTable(de)
    {
      tents := seq(PTAB_SIZE, _ => TabEnt(false, false, false, false, false, 0));
      for i := 0 to PTAB_SIZE
        invariant |tents| == PTAB_SIZE
        invariant forall k | 0 <= k < i :: tents[k] == DemandTable(de)[k]
        invariant forall k | i <= k < PTAB_SIZE :: tents[k] == TabEnt(false, false, false, false, false, 0)
      {
        tents := tents[i := tents[i].(petixAlloc := true, present := false, rw := de.rw, user := de.user)];
      }
    }

    /** page_fault_handler. */
    method HandleFault(d: nat, i: nat, j: nat, errorCode: nat) returns (r: Status)
      requires fa.Valid() && Inv(M()) && d in spaces
      requires i < PDIR_SIZE && j < PTAB_SIZE
      modifies this, fa`freeStackTop, fa.frames
      ensures fa.Valid() && Agrees(r, M(), PageFault(old(M()), d, i, j, errorCode))
    {
      hide Frames.Inv, Frames.NextPage, Frames.InRange, Frames.AfterAlloc, Frames.Allocated, Grab;
      assert SpaceOk(M(), d);
      if BadAccess(errorCode) {
        return Stop(Unrecoverable);
      }
      if i < IDENTITY_LEN {
        return if kernel.tabs[i][j].present then Ok(0) else Stop(Segfault);
      }
      EnsureTableInvisible(M(), d, i);
      r := InstallTable(d, i);
      if r.Ok? {
        EnsurePageInvisible(M(), d, i, j);
        r := InstallPage(d, i, j);
      }
    }

    method InstallTable(d: nat, i: nat) returns (r: Status)
      requires fa.Valid() && Inv(M()) && d in spaces && IsDir(M(), d)
      requires IDENTITY_LEN <= i < PDIR_SIZE
      modifies this, fa`freeStackTop, fa.frames
      ensures fa.Valid() && Agrees(r, M(), EnsureTable(old(M()), d, i))
    {
      hide Frames.Inv, Frames.NextPage, Frames.InRange, Frames.AfterAlloc, Frames.Allocated, Grab;
      assert SpaceOk(M(), d) && PdeOk(M(), d, i, mem[d].dents[i]);
      var de := mem[d].dents[i];
      if de.present {
        return Ok(0);
      }
      var tents := FillTable(de);
      GrabIsFresh(M(), Tab(tents), TabOf(d, i));
      r := GrabFrame(Tab(tents), TabOf(d, i));
      if r.Ok? {
        mem := mem[d := Dir(mem[d].dents[i := de.(present := true, table := r.ret)])];
        r := Ok(0);
      }
    }

    method InstallPage(d: nat, i: nat, j: nat) returns (r: Status)
      requires fa.Valid() && Inv(M()) && d in spaces && IsDir(M(), d)
      requires InRegion(i, j) && mem[d].dents[i].present
      modifies this, fa`freeStackTop, fa.frames
      ensures fa.Valid() && Agrees(r, M(), EnsurePage(old(M()), d, i, j))
    {
      hide Frames.Inv, Frames.NextPage, Frames.InRange, Frames.AfterAlloc, Frames.Allocated, Grab;
      assert SpaceOk(M(), d) && PdeOk(M(), d, i, mem[d].dents[i]);
      var t := mem[d].dents[i].table;
      var te := mem[t].tents[j];
      assert PteOk(M(), d, i, j, te);
      if te.present {
        return Ok(0);
      }
      GrabIsFresh(M(), Page(ZeroPage()), PageOf(d, i, j));
      r := GrabFrame(Page(ZeroPage()), PageOf(d, i, j));
      if r.Ok? {
        mem := mem[t := Tab(mem[t].tents[j := te.(present := true, global := false, addr := r.ret)])];
        r := Ok(0);
      }
    }

    /** create_proc_addr_space: copy the kernel directory, then reset its process half. */
    method CreateSpace() returns (r: Status)
      requires fa.Valid() && Inv(M())
      modifies this, fa`freeStackTop, fa.frames
      ensures fa.Valid() && Agrees(r, M(), Create(old(M())))
    {
      hide Frames.Inv, Frames.InRange, Frames.AfterAlloc, Frames.Allocated, Frames.NextPage;
      ghost var page := Frames.NextPage(M().fa);
      ghost var slot := if page.Some? then DirOf(page.value) else DirOf(0);
      GrabIsFresh(M(), Dir(kernel.dir), slot);
      r := GrabFrame(Dir(kernel.dir), slot);
      if r.Stop? {
        return;
      }
      var d: nat := r.ret;
      label Copied:
      for i := IDENTITY_LEN to PDIR_SIZE
        invariant fa.Valid() && fa.Model() == old@Copied(fa.Model())
        invariant d in mem && mem[d].Dir? && |mem[d].dents| == PDIR_SIZE
        invariant own == old@Copied(own) && spaces == old(spaces)
        invariant mem == old@Copied(mem)[d := mem[d]]
        invariant forall k | 0 <= k < i :: mem[d].dents[k] == ProcDir(kernel.dir)[k]
        invariant forall k | i <= k < PDIR_SIZE :: mem[d].dents[k] == kernel.dir[k]
      {
        var pde := mem[d].dents[i];
        mem := mem[d := Dir(mem[d].dents[i := pde.(present := false, rw := true, user := true, petixAlloc := true)])];
      }
      assert mem[d].dents == ProcDir(kernel.dir);
      spaces := spaces + {d};
    }

    /** The inner loop of fork_proc_addr_space, over the entries of one copied table. */
    method CopyTablePages(c: nat, i: nat, t: nat, ghost d: nat, ghost pt: nat) returns (r: Status)
      requires fa.Valid() && Copying(M(), d, c, i, pt, t, 0)
      modifies this, fa`freeStackTop, fa.frames
      ensures fa.Valid() && Agrees(r, M(), CopyPages(old(M()), c, i, t, 0))
    {
      hide Frames.Inv, Frames.NextPage, Frames.InRange, Frames.AfterAlloc, Frames.Allocated, Foreign, PteOk;
      for j := 0 to PTAB_SIZE
        invariant fa.Valid() && Copying(M(), d, c, i, pt, t, j)
        invariant CopyPages(old(M()), c, i, t, 0) == CopyPages(M(), c, i, t, j)
      {
        CopyPageStep(M(), d, c, i, pt, t, j);
        r := CopyOnePage(c, i, t, j, d, pt);
        if r.Stop? {
          return;
        }
      }
      r := Ok(0);
    }

    method CopyOnePage(c: nat, i: nat, t: nat, j: nat, ghost d: nat, ghost pt: nat) returns (r: Status)
      requires fa.Valid() && j < PTAB_SIZE && Copying(M(), d, c, i, pt, t, j)
      modifies this, fa`freeStackTop, fa.frames
      ensures fa.Valid() && Agrees(r, M(), CopyPage(old(M()), c, i, t, j))
    {
      hide Frames.Inv, Frames.NextPage, Frames.InRange, Frames.AfterAlloc, Frames.Allocated, Grab;
      var te := mem[t].tents[j];
      if !(te.present && te.petixAlloc) {
        return Ok(0);
      }
      assert PteOk(M(), d, i, j, mem[pt].tents[j]);
      GrabIsFresh(M(), mem[te.addr], PageOf(c, i, j));
      r := GrabFrame(mem[te.addr], PageOf(c, i, j));
      if r.Ok? {
        mem := mem[t := Tab(mem[t].tents[j := te.(addr := r.ret)])];
        r := Ok(0);
      }
    }

    /** One round of the outer loop of fork_proc_addr_space. */
    method CopyOneRow(d: nat, c: nat, i: nat) returns (r: Status)
      requires fa.Valid() && IDENTITY_LEN <= i < PDIR_SIZE && Cloning(M(), d, c, i) && IsDir(M(), d)
      modifies this, fa`freeStackTop, fa.frames
      ensures fa.Valid() && Agrees(r, M(), CopyRow(old(M()), d, c, i))
    {
      hide Frames.Inv, Frames.NextPage, Frames.InRange, Frames.AfterAlloc, Frames.Allocated, Grab, CopyPages;
      var de := mem[d].dents[i];
      if !(de.present && de.petixAlloc) {
        return Ok(0);
      }
      assert PdeOk(M(), d, i, de);
      var t := de.table;
      CopyTableStep(M(), d, c, i);
      GrabIsFresh(M(), mem[t], TabOf(c, i));
      r := GrabFrame(mem[t], TabOf(c, i));
      if r.Ok? {
        mem := mem[c := Dir(mem[c].dents[i := mem[c].dents[i].(table := r.ret)])];
        r := CopyTablePages(c, i, r.ret, d, t);
      }
    }

    /** The outer loop of fork_proc_addr_space. */
    method CopyAllRows(d: nat, c: nat) returns (r: Status)
      requires fa.Valid() && Cloning(M(), d, c, IDENTITY_LEN)
      modifies this, fa`freeStackTop, fa.frames
      ensures fa.Valid() && Agrees(r, M(), CopyRows(old(M()), d, c, IDENTITY_LEN))
    {
      hide Frames.Inv, Frames.Allocated, CopyRow, CopyRows, Cloning, RowGrown;
      ghost var all := CopyRows(M(), d, c, IDENTITY_LEN);
      for i := IDENTITY_LEN to PDIR_SIZE
        invariant fa.Valid() && Cloning(M(), d, c, i) && CopyRows(M(), d, c, i) == all
      {
        CloningDir(M(), d, c, i);
        CopyRowStep(M(), d, c, i);
        CopyRowsNext(M(), d, c, i);
        r := CopyOneRow(d, c, i);
        if r.Stop? {
          return;
        }
      }
      CopyRowsEnd(M(), d, c);
      r := Ok(0);
    }

    /** fork_proc_addr_space. */
    method ForkSpace(d: nat) returns (r: Status)
      requires fa.Valid() && Inv(M()) && d in spaces
      modifies this, fa`freeStackTop, fa.frames
      ensures fa.Valid() && Agrees(r, M(), Fork(old(M()), d))
    {
      hide Frames.Inv, Frames.InRange, Frames.AfterAlloc, Frames.Allocated, Frames.NextPage, CopyRows, Cloning;
      assert SpaceOk(M(), d);
      ghost var page := Frames.NextPage(M().fa);
      ghost var slot := if page.Some? then DirOf(page.value) else DirOf(0);
      ForkStart(M(), d);
      hide Inv, SpaceOk, TreeGrown;
      r := GrabFrame(Dir(mem[d].dents), slot);
      if r.Stop? {
        return;
      }
      var c: nat := r.ret;
      r := CopyAllRows(d, c);
      if r.Stop? {
        return;
      }
      spaces := spaces + {c};
      r := Ok(c);
    }

    /** The inner loop of free_proc_addr_space. */
    method FreeTablePages(t: nat, ghost d: nat, ghost i: nat)
      requires fa.Valid() && Marked(M()) && PagesLeft(M(), d, i, t, 0)
      modifies this`own, fa`freeStackTop, fa.frames, fa.freeStack
      ensures fa.Valid() && Done(M(), 0) == FreePages(old(M()), t, 0)
    {
      hide Frames.Inv, Frames.Allocated, Foreign, Drop;
      for j := 0 to PTAB_SIZE
        invariant fa.Valid() && Marked(M()) && PagesLeft(M(), d, i, t, j)
        invariant FreePages(old(M()), t, 0) == FreePages(M(), t, j)
      {
        var te := mem[t].tents[j];
        FreePageStep(M(), d, i, t, j);
        if te.present && te.petixAlloc {
          assert PteOk(M(), d, i, j, te);
          DropFrame(te.addr);
        }
      }
    }

    /** One round of the outer loop of free_proc_addr_space. */
    method FreeOneRow(d: nat, i: nat)
      requires fa.Valid() && Marked(M()) && i < PDIR_SIZE && RowsLeft(M(), d, i)
      modifies this`own, fa`freeStackTop, fa.frames, fa.freeStack
      ensures fa.Valid() && Done(M(), 0) == FreeRow(old(M()), d, i)
    {
      hide Frames.Inv, Frames.Allocated, Foreign, Drop, FreePages;
      var de := mem[d].dents[i];
      assert PdeOk(M(), d, i, de);
      if de.present && de.petixAlloc {
        RowIsTableAndPages(M(), d, i, de.table);
        FreePagesAll(M(), d, i, de.table, 0);
        FreeTablePages(de.table, d, i);
        DropFrame(de.table);
      }
    }

    /** free_proc_addr_space. */
    method FreeAll(d: nat)
      requires fa.Valid() && Inv(M()) && (d == 0 || d in spaces)
      modifies this`own, this`spaces, fa`freeStackTop, fa.frames, fa.freeStack
      ensures fa.Valid() && Done(M(), 0) == FreeSpace(old(M()), d)
    {
      hide Frames.Inv, Frames.Allocated, Foreign, Drop, FreeRow, PdeOk;
      if d == 0 {
        return;
      }
      FreeStart(M(), d);
      assert SpaceOk(M(), d);
      spaces := spaces - {d};
      ghost var m0 := M();
      FreeRowsAll(m0, d, IDENTITY_LEN);
      for i := IDENTITY_LEN to PDIR_SIZE
        invariant fa.Valid() && Marked(M()) && RowsLeft(M(), d, i)
        invariant FreeRows(m0, d, IDENTITY_LEN) == FreeRows(M(), d, i)
      {
        FreeRowStep(M(), d, i);
        FreeOneRow(d, i);
      }
      DropFrame(d);
    }

    /** lock_page. */
    method Lock(d: nat, i: nat, j: nat) returns (r: Status)
      requires fa.Wf() && InRegion(i, j)
      modifies this`mem
      ensures Agrees(r, M(), LockPage(old(M()), d, i, j))
    {
      var mapped := Walk(d, i, j);
      if !mapped {
        return Stop(FailedAssert);
      }
      var t := mem[d].dents[i].table;
      mem := mem[t := Tab(mem[t].tents[j := mem[t].tents[j].(user := false)])];
      r := Ok(0);
    }

    /** The second half of remap_page_user. */
    method Redirect(d: nat, i: nat, j: nat, phys: nat)
      requires fa.Valid() && Inv(M()) && d in spaces && InRegion(i, j)
      requires EntryAt(M(), d, i, j).Some? && EntryAt(M(), d, i, j).value.present
      modifies this, fa`freeStackTop, fa.frames, fa.freeStack
      ensures fa.Valid() && Done(M(), 0) == PointAt(old(M()), d, i, j, phys)
    {
      hide Frames.Inv, Frames.Allocated, Foreign, Drop;
      EntryFacts(M(), d, i, j);
      var t := mem[d].dents[i].table;
      var te := mem[t].tents[j];
      if te.petixAlloc {
        DropOwned(M(), te.addr);
        DropFrame(te.addr);
        mem := mem[t := Tab(mem[t].tents[j := te.(petixAlloc := false)])];
      }
      mem := mem[t := Tab(mem[t].tents[j := mem[t].tents[j].(addr := phys)])];
      assert mem[t].tents == old(mem)[t].tents[j := te.(petixAlloc := false, addr := phys)];
      assert mem == old(mem)[t := mem[t]];
    }

    /** The processor's walk: is the page present? */
    method Walk(d: nat, i: nat, j: nat) returns (present: bool)
      requires fa.Wf() && i < PDIR_SIZE && j < PTAB_SIZE
      ensures present <==> EntryAt(M(), d, i, j).Some? && EntryAt(M(), d, i, j).value.present
    {
      if !(d in mem && mem[d].Dir? && |mem[d].dents| == PDIR_SIZE && mem[d].dents[i].present) {
        return false;
      }
      var t := mem[d].dents[i].table;
      present := t in mem && mem[t].Tab? && |mem[t].tents| == PTAB_SIZE && mem[t].tents[j].present;
    }

    /** remap_page_user on the running space; reading *virt faults an absent page in. */
    method Remap(d: nat, i: nat, j: nat, phys: nat) returns (r: Status)
      requires fa.Valid() && Inv(M()) && d in spaces
      requires i < PDIR_SIZE && j < PTAB_SIZE
      modifies this, fa`freeStackTop, fa.frames, fa.freeStack
      ensures fa.Valid() && Agrees(r, M(), RemapUser(old(M()), d, i, j, phys))
    {
      hide Frames.Inv, Frames.Allocated, Foreign, PageFault, PointAt, SpaceOk, BackOk, KernelOk;
      if !UserPage(i, j) {
        return Ok(-1);
      }
      var mapped := Walk(d, i, j);
      if !mapped {
        PageFaultIsInvisible(M(), d, i, j, 0);
        r := HandleFault(d, i, j, 0);
        if r.Stop? {
          return;
        }
      }
      Redirect(d, i, j, phys);
      r := Ok(0);
    }
  }
}
