/**
 * How many free frames each address-space operation takes: an operation stops the kernel
 * for want of memory exactly when fewer frames are free than it needs.
 */
module PagingRoom {
  import opened Common
  import opened Paging
  import opened PagingOps
  import opened PagingFork
  import opened PagingFree
  import opened PagingRuns
  import Frames

  /** The number of frames nobody holds. */
  ghost function Room(m: Machine): nat {
    |Frames.Unused(m.fa)|
  }

  lemma GrabRoom(m: Machine, contents: Frame, slot: Slot)
    requires Marked(m)
    ensures Grab(m, contents, slot).Done? <==> Room(m) >= 1
    ensures Grab(m, contents, slot).Done? ==> Room(Grab(m, contents, slot).m) == Room(m) - 1
  {
    hide Frames.Inv, Frames.Unused, Frames.NextPage, Frames.InRange, Frames.AfterAlloc;
    Frames.AllocUsesOne(m.fa);
  }

  lemma GrabDirRoom(m: Machine, dents: seq<DirEnt>)
    requires Marked(m)
    ensures GrabDir(m, dents).Done? <==> Room(m) >= 1
    ensures GrabDir(m, dents).Done? ==> Room(GrabDir(m, dents).m) == Room(m) - 1
  {
    hide Frames.Inv, Frames.Unused, Frames.NextPage, Frames.InRange, Frames.AfterAlloc, Grab;
    var page := Frames.NextPage(m.fa);
    if page.None? {
      GrabRoom(m, Dir(dents), DirOf(0));
      assert Grab(m, Dir(dents), DirOf(0)).Panic? by { NoneGrabbed(m, Dir(dents), DirOf(0)); }
    } else {
      GrabRoom(m, Dir(dents), DirOf(page.value));
    }
  }

  lemma NoneGrabbed(m: Machine, contents: Frame, slot: Slot)
    requires Frames.NextPage(m.fa).None?
    ensures Grab(m, contents, slot).Panic?
  {
  }

  lemma DropRoom(m: Machine, f: nat)
    requires Marked(m) && f in m.own
    ensures Drop(m, f).Done? && Room(Drop(m, f).m) == Room(m) + 1
  {
    DropOwned(m, f);
    assert f in Frames.Allocated(m.fa);
    Frames.FreeGivesBack(m.fa, f);
  }

  // ------------------------------------------------------------------- faults

  /** What a fault on page (i, j) of d has to allocate: the page, and its table if that is missing too. */
  function FaultNeeds(m: Machine, d: nat, i: nat, j: nat): nat
    requires InRegion(i, j)
  {
    if !IsDir(m, d) || !m.mem[d].dents[i].present then 2
    else if IsTab(m, m.mem[d].dents[i].table) && m.mem[m.mem[d].dents[i].table].tents[j].present then 0
    else 1
  }

  lemma EnsureTableRoom(m: Machine, d: nat, i: nat)
    requires Inv(m) && d in m.spaces && IDENTITY_LEN <= i < PDIR_SIZE && IsDir(m, d)
    ensures var need := if m.mem[d].dents[i].present then 0 else 1;
            && (EnsureTable(m, d, i).Done? <==> Room(m) >= need)
            && (EnsureTable(m, d, i).Done? ==> Room(EnsureTable(m, d, i).m) == Room(m) - need)
  {
    hide Frames.Inv, Frames.Unused, Frames.Allocated, Frames.NextPage, Frames.InRange, Frames.AfterAlloc, Grab;
    assert SpaceOk(m, d) && PdeOk(m, d, i, m.mem[d].dents[i]);
    var contents := Tab(DemandTable(m.mem[d].dents[i]));
    GrabIsFresh(m, contents, TabOf(d, i));
    GrabRoom(m, contents, TabOf(d, i));
  }

  lemma EnsurePageRoom(m: Machine, d: nat, i: nat, j: nat)
    requires Inv(m) && d in m.spaces && InRegion(i, j) && IsDir(m, d) && m.mem[d].dents[i].present
    ensures var r := EnsurePage(m, d, i, j);
            && (r.Done? <==> Room(m) >= FaultNeeds(m, d, i, j))
            && (r.Done? ==> Room(r.m) == Room(m) - FaultNeeds(m, d, i, j))
  {
    hide Frames.Inv, Frames.Unused, Frames.Allocated, Frames.NextPage, Frames.InRange, Frames.AfterAlloc, Grab;
    var t := m.mem[d].dents[i].table;
    assert SpaceOk(m, d) && PdeOk(m, d, i, m.mem[d].dents[i]);
    assert PteOk(m, d, i, j, m.mem[t].tents[j]);
    GrabIsFresh(m, Page(ZeroPage()), PageOf(d, i, j));
    GrabRoom(m, Page(ZeroPage()), PageOf(d, i, j));
  }

  /** A table just installed has no page yet. */
  lemma NewTableIsEmpty(m: Machine, d: nat, i: nat, j: nat)
    requires Inv(m) && d in m.spaces && InRegion(i, j) && IsDir(m, d)
    requires !m.mem[d].dents[i].present && EnsureTable(m, d, i).Done?
    ensures FaultNeeds(EnsureTable(m, d, i).m, d, i, j) == 1
  {
    hide Frames.Inv, Frames.Allocated, Marked, Foreign, EnsureTable;
    EnsureTableRow(m, d, i);
  }

  /**
   * A legal fault in the process half succeeds exactly when enough frames are free: two if
   * the table is missing, one if only the page is, none if the page is there.
   */
  lemma FaultDoneIff(m: Machine, d: nat, i: nat, j: nat, errorCode: nat)
    requires Inv(m) && d in m.spaces && InRegion(i, j) && !BadAccess(errorCode)
    ensures var r := PageFault(m, d, i, j, errorCode);
            && (r.Done? <==> Room(m) >= FaultNeeds(m, d, i, j))
            && (r.Done? ==> Room(r.m) == Room(m) - FaultNeeds(m, d, i, j))
            && (r.Panic? ==> r.reason == OutOfPages)
  {
    assert SpaceOk(m, d);
    hide Frames.Inv, Frames.Allocated, Marked, Foreign, EnsureTable, EnsurePage, Room, View, KernelOk, BackOk;
    PageFaultIsInvisible(m, d, i, j, errorCode);
    EnsureTableInvisible(m, d, i);
    EnsureTableRoom(m, d, i);
    var r := EnsureTable(m, d, i);
    if m.mem[d].dents[i].present {
      assert r == Done(m, 0) by { PresentTable(m, d, i); }
      EnsurePageRoom(m, d, i, j);
    } else if r.Done? {
      NewTableIsEmpty(m, d, i, j);
      EnsurePageRoom(r.m, d, i, j);
    }
  }

  lemma PresentTable(m: Machine, d: nat, i: nat)
    requires IsDir(m, d) && i < PDIR_SIZE && m.mem[d].dents[i].present
    ensures EnsureTable(m, d, i) == Done(m, 0)
  {
  }

  /** Creating a space takes one frame, its directory. */
  lemma CreateDoneIff(m: Machine)
    requires Inv(m)
    ensures Create(m).Done? <==> Room(m) >= 1
    ensures Create(m).Done? ==> Room(Create(m).m) == Room(m) - 1
    ensures Create(m).Panic? ==> Create(m).reason == OutOfPages
  {
    hide Frames.Inv, Frames.Allocated, GrabDir, View, BackOk;
    CreateShowsZeros(m);
    GrabDirRoom(m, ProcDir(m.kernel.dir));
    GrabDirPositive(m, ProcDir(m.kernel.dir));
  }

  lemma GrabDirPositive(m: Machine, dents: seq<DirEnt>)
    requires Marked(m)
    ensures GrabDir(m, dents).Done? ==> GrabDir(m, dents).ret > 0
  {
    hide Frames.Inv, Frames.Allocated, Frames.NextPage, Frames.InRange, Frames.AfterAlloc;
    var page := Frames.NextPage(m.fa);
    if page.Some? { GrabIsFresh(m, Dir(dents), DirOf(page.value)); }
  }

  // --------------------------------------------------------------------- fork

  lemma PagesSplit(m: Machine, d: nat, i: nat, t: nat, j: nat)
    requires j < PTAB_SIZE && PagesLeft(m, d, i, t, j)
    ensures PagesLeft(m, d, i, t, j + 1)
    ensures var te := m.mem[t].tents[j];
            |PagesFrom(m, d, i, j)| ==
            |PagesFrom(m, d, i, j + 1)| + if te.present && te.petixAlloc then 1 else 0
  {
    var te := m.mem[t].tents[j];
    assert PteOk(m, d, i, j, te);
    assert PagesFrom(m, d, i, j + 1) <= PagesFrom(m, d, i, j);
    forall f | f in PagesFrom(m, d, i, j) && f !in PagesFrom(m, d, i, j + 1)
      ensures te.present && te.petixAlloc && f == te.addr {}
    if te.present && te.petixAlloc {
      assert te.addr in PagesFrom(m, d, i, j);
      assert PagesFrom(m, d, i, j) == PagesFrom(m, d, i, j + 1) + {te.addr};
    } else {
      assert PagesFrom(m, d, i, j) == PagesFrom(m, d, i, j + 1);
    }
  }

  /** Frames added for c leave the rest of row i of d as it was. */
  lemma PagesKept(m: Machine, m': Machine, d: nat, c: nat, i: nat, pt: nat, t: nat, j: nat)
    requires d != c && pt in m.own && pt != t && t in m.own && m.own[t].d == c && t in m'.own && m'.own[t].d == c
    requires RowGrown(m, m', c, i, t) && PagesLeft(m, d, i, pt, j)
    ensures PagesLeft(m', d, i, pt, j) && PagesFrom(m', d, i, j) == PagesFrom(m, d, i, j)
  {
    hide Foreign, Frames.Allocated;
    assert Kept(m, m', pt);
    forall f | f in PagesFrom(m', d, i, j) ensures f in PagesFrom(m, d, i, j) { assert f in m.own && f != t; }
    forall f | f in PagesFrom(m, d, i, j) ensures f in PagesFrom(m', d, i, j) { assert Kept(m, m', f); }
    forall k: nat | j <= k < PTAB_SIZE ensures PteOk(m', d, i, k, m'.mem[pt].tents[k]) {
      assert PteOk(m, d, i, k, m.mem[pt].tents[k]);
    }
  }

  lemma CopyPageRoom(m: Machine, d: nat, c: nat, i: nat, pt: nat, t: nat, j: nat)
    requires j < PTAB_SIZE && Copying(m, d, c, i, pt, t, j)
    ensures var te := m.mem[pt].tents[j];
            var need := if te.present && te.petixAlloc then 1 else 0;
            var r := CopyPage(m, c, i, t, j);
            && (r.Done? <==> Room(m) >= need)
            && (r.Done? ==> Room(r.m) == Room(m) - need)
  {
    hide Frames.Inv, Frames.Allocated, Frames.Unused, Frames.NextPage, Frames.InRange, Frames.AfterAlloc, Grab;
    var te := m.mem[t].tents[j];
    assert PteOk(m, d, i, j, m.mem[pt].tents[j]);
    if te.present && te.petixAlloc {
      GrabIsFresh(m, m.mem[te.addr], PageOf(c, i, j));
      GrabRoom(m, m.mem[te.addr], PageOf(c, i, j));
    }
  }

  lemma CopyingOwners(m: Machine, d: nat, c: nat, i: nat, pt: nat, t: nat, j: nat)
    requires Copying(m, d, c, i, pt, t, j)
    ensures IsTab(m, t) && IsTab(m, pt) && d != c && pt in m.own && pt != t && t in m.own && m.own[t].d == c
  {
  }

  lemma {:induction false} CopyPagesRoom(m: Machine, d: nat, c: nat, i: nat, pt: nat, t: nat, j: nat)
    requires j <= PTAB_SIZE && Copying(m, d, c, i, pt, t, j) && PagesLeft(m, d, i, pt, j)
    ensures var r := CopyPages(m, c, i, t, j);
            var need := |PagesFrom(m, d, i, j)|;
            && (r.Done? <==> Room(m) >= need)
            && (r.Done? ==> Room(r.m) == Room(m) - need)
    decreases PTAB_SIZE - j
  {
    hide Copying, CopyPage, Foreign, Room, PteOk, Frames.Allocated;
    CopyingOwners(m, d, c, i, pt, t, j);
    if j == PTAB_SIZE {
      assert PagesFrom(m, d, i, j) == {};
    } else {
      CopyPageStep(m, d, c, i, pt, t, j);
      CopyPageRoom(m, d, c, i, pt, t, j);
      PagesSplit(m, d, i, pt, j);
      var r := CopyPage(m, c, i, t, j);
      if r.Done? {
        CopyingOwners(r.m, d, c, i, pt, t, j + 1);
        PagesKept(m, r.m, d, c, i, pt, t, j + 1);
        CopyPagesRoom(r.m, d, c, i, pt, t, j + 1);
      }
    }
  }

  lemma RowsKept(m: Machine, m': Machine, d: nat, c: nat, i: nat, k: nat)
    requires d != c && d in m.own && c in m.own && m.own[c] == DirOf(c) && c in m'.own && m'.own[c] == DirOf(c)
    requires RowGrown(m, m', c, i, c) && RowsLeft(m, d, k)
    ensures RowsLeft(m', d, k) && RowsFrom(m', d, k) == RowsFrom(m, d, k)
  {
    hide Foreign, Frames.Allocated;
    assert Kept(m, m', d);
    forall f | f in RowsFrom(m', d, k) ensures f in RowsFrom(m, d, k) { assert f in m.own; }
    forall f | f in RowsFrom(m, d, k) ensures f in RowsFrom(m', d, k) { assert Kept(m, m', f); }
    forall l: nat | k <= l < PDIR_SIZE ensures PdeOk(m', d, l, m.mem[d].dents[l]) {
      assert PdeOk(m, d, l, m.mem[d].dents[l]);
      RowFrame(m, m', d, l, m.mem[d].dents[l]);
    }
    forall f | f in RowsFrom(m', d, k) ensures SlotHolds(m', m'.own[f], f) {
      assert f in RowsFrom(m, d, k);
      assert Kept(m, m', f);
      var l := m.own[f].i;
      assert PdeOk(m, d, l, m.mem[d].dents[l]);
    }
  }

  lemma CloningOwners(m: Machine, d: nat, c: nat, i: nat)
    requires Cloning(m, d, c, i)
    ensures IsDir(m, d) && IsDir(m, c) && d != c && d in m.own && c in m.own && m.own[c] == DirOf(c)
    ensures forall k: nat | IDENTITY_LEN <= k < PDIR_SIZE :: PdeOk(m, d, k, m.mem[d].dents[k])
  {
  }

  /** How many frames row i of d holds: its table and its pages. */
  lemma RowSize(m: Machine, d: nat, i: nat)
    requires i < PDIR_SIZE && RowsLeft(m, d, i)
    ensures RowsLeft(m, d, i + 1)
    ensures |RowsFrom(m, d, i)| == |RowsFrom(m, d, i + 1)|
              + if m.mem[d].dents[i].present then 1 + |PagesFrom(m, d, i, 0)| else 0
  {
    if m.mem[d].dents[i].present {
      var t := m.mem[d].dents[i].table;
      RowIsTableAndPages(m, d, i, t);
      assert t !in PagesFrom(m, d, i, 0) + RowsFrom(m, d, i + 1);
      assert PagesFrom(m, d, i, 0) !! RowsFrom(m, d, i + 1);
      assert RowsFrom(m, d, i) == (PagesFrom(m, d, i, 0) + RowsFrom(m, d, i + 1)) + {t};
    } else {
      EmptyRow(m, d, i);
    }
  }

  lemma CopyTableRoom(m: Machine, d: nat, c: nat, i: nat)
    requires IDENTITY_LEN <= i < PDIR_SIZE && Cloning(m, d, c, i) && m.mem[d].dents[i].present
    ensures var r := CopyTable(m, d, c, i);
            && (r.Done? <==> Room(m) >= 1)
            && (r.Done? ==> Room(r.m) == Room(m) - 1)
  {
    hide Frames.Inv, Frames.Allocated, Frames.Unused, Frames.NextPage, Frames.InRange, Frames.AfterAlloc, Grab;
    var pt := m.mem[d].dents[i].table;
    assert PdeOk(m, d, i, m.mem[d].dents[i]);
    GrabIsFresh(m, m.mem[pt], TabOf(c, i));
    GrabRoom(m, m.mem[pt], TabOf(c, i));
  }

  lemma CopyRowRoom(m: Machine, d: nat, c: nat, i: nat)
    requires IDENTITY_LEN <= i < PDIR_SIZE && Cloning(m, d, c, i) && RowsLeft(m, d, i)
    ensures var r := CopyRow(m, d, c, i);
            var need := |RowsFrom(m, d, i)| - |RowsFrom(m, d, i + 1)|;
            && need >= 0
            && (r.Done? <==> Room(m) >= need)
            && (r.Done? ==> Room(r.m) == Room(m) - need)
  {
    hide Foreign, Frames.Allocated, Room, CopyTable, CopyPages, Copying, SlotHolds;
    CloningOwners(m, d, c, i);
    RowSize(m, d, i);
    var de := m.mem[d].dents[i];
    assert PdeOk(m, d, i, de);
    if de.present {
      CopyTableStep(m, d, c, i);
      CopyTableRoom(m, d, c, i);
      var g := CopyTable(m, d, c, i);
      if g.Done? {
        TablePagesKept(m, g.m, d, c, i, de.table, g.ret);
        CopyPagesRoom(g.m, d, c, i, de.table, g.ret, 0);
      }
    }
  }

  lemma TablePagesKept(m: Machine, m': Machine, d: nat, c: nat, i: nat, pt: nat, t: nat)
    requires Cloning(m, d, c, i) && IDENTITY_LEN <= i < PDIR_SIZE && RowsLeft(m, d, i)
    requires m.mem[d].dents[i].present && m.mem[d].dents[i].table == pt
    requires RowGrown(m, m', c, i, c) && m'.own == m.own[t := TabOf(c, i)] && t !in m.own
    ensures PagesLeft(m', d, i, pt, 0) && PagesFrom(m', d, i, 0) == PagesFrom(m, d, i, 0)
  {
    hide Foreign, Frames.Allocated, Frames.Inv;
    CloningOwners(m, d, c, i);
    RowIsTableAndPages(m, d, i, pt);
    PagesKept(m, m', d, c, i, pt, c, 0);
  }

  lemma {:induction false} CopyRowsRoom(m: Machine, d: nat, c: nat, i: nat)
    requires IDENTITY_LEN <= i <= PDIR_SIZE && Cloning(m, d, c, i) && RowsLeft(m, d, i)
    ensures var r := CopyRows(m, d, c, i);
            var need := |RowsFrom(m, d, i)|;
            && (r.Done? <==> Room(m) >= need)
            && (r.Done? ==> Room(r.m) == Room(m) - need)
    decreases PDIR_SIZE - i
  {
    hide Foreign, Frames.Allocated, Room, CopyRow, Cloning, PdeOk;
    CloningOwners(m, d, c, i);
    if i == PDIR_SIZE {
      assert RowsFrom(m, d, i) == {};
    } else {
      CopyRowStep(m, d, c, i);
      CopyRowRoom(m, d, c, i);
      RowSize(m, d, i);
      var r := CopyRow(m, d, c, i);
      if r.Done? {
        CloningOwners(r.m, d, c, i + 1);
        RowsKept(m, r.m, d, c, i, i + 1);
        CopyRowsRoom(r.m, d, c, i + 1);
      }
    }
  }

  lemma ParentRows(m: Machine, m': Machine, d: nat, c: nat)
    requires Inv(m) && d in m.spaces && c !in m.own
    requires TreeGrown(m, m', c) && m'.own == m.own[c := DirOf(c)]
    ensures RowsLeft(m', d, IDENTITY_LEN) && |RowsFrom(m', d, IDENTITY_LEN)| == |Footprint(m, d)| - 1
  {
    hide Foreign, Frames.Allocated, Frames.Inv, Footprint;
    FootprintIsOwned(m, d);
    assert SpaceOk(m, d) && Kept(m, m', d);
    FreeStart(m, d);
    var rows := RowsFrom(m, d, IDENTITY_LEN);
    assert RowsFrom(m', d, IDENTITY_LEN) == rows;
    forall k: nat | IDENTITY_LEN <= k < PDIR_SIZE ensures PdeOk(m', d, k, m.mem[d].dents[k]) {
      RowFrame(m, m', d, k, m.mem[d].dents[k]);
    }
    forall f | f in rows ensures SlotHolds(m', m'.own[f], f) {
      assert BackOk(m, f) && Kept(m, m', f);
    }
    assert d !in rows;
  }

  /** fork takes as many frames as the parent's tables reach, and succeeds exactly when so many are free. */
  lemma ForkDoneIff(m: Machine, d: nat)
    requires Inv(m) && d in m.spaces
    ensures var r := Fork(m, d);
            && (r.Done? <==> Room(m) >= |Footprint(m, d)|)
            && (r.Done? ==> Room(r.m) == Room(m) - |Footprint(m, d)|)
            && (r.Panic? ==> r.reason == OutOfPages)
  {
    hide Foreign, Frames.Allocated, Frames.Inv, Footprint, CopyRows, GrabDir, Cloning, RowsLeft, BackOk, View;
    assert SpaceOk(m, d);
    ForkCopies(m, d);
    ForkStart(m, d);
    GrabDirRoom(m, m.mem[d].dents);
    var g := GrabDir(m, m.mem[d].dents);
    assert |Footprint(m, d)| >= 1 by { FootprintIsOwned(m, d); assert d in Footprint(m, d); }
    if g.Done? {
      ParentRows(m, g.m, d, g.ret);
      CopyRowsRoom(g.m, d, g.ret, IDENTITY_LEN);
    }
  }

  // --------------------------------------------- teardown, remapping, locking

  /** Teardown gives back as many frames as the tables of d reached. */
  lemma FreeSpaceRoom(m: Machine, d: nat)
    requires Inv(m) && d in m.spaces
    ensures FreeSpace(m, d).Done? && Room(FreeSpace(m, d).m) == Room(m) + |Footprint(m, d)|
  {
    hide Frames.Inv, Frames.Allocated, Frames.InRange, Foreign, FreeSpace, Reaches, SpaceOk, BackOk, View;
    FreeSpaceExact(m, d);
    var s, s' := m.fa, FreeSpace(m, d).m.fa;
    forall f | f in Footprint(m, d)
      ensures f < s.base + Frames.WORD_BITS * |s.words| && Frames.InRange(s, f) && f !in Frames.Unused(s)
    {
      AllocatedInRange(s, f);
    }
    assert Frames.Unused(s') == Frames.Unused(s) + Footprint(m, d) by {
      forall f: nat ensures Frames.InRange(s', f) == Frames.InRange(s, f) { SameInRange(s, s', f); }
    }
  }

  lemma AllocatedInRange(s: Frames.State, f: nat)
    requires f in Frames.Allocated(s)
    ensures f < s.base + Frames.WORD_BITS * |s.words| && Frames.InRange(s, f)
  {
  }

  lemma SameInRange(s: Frames.State, s': Frames.State, f: nat)
    requires Frames.SameRange(s, s')
    ensures Frames.InRange(s', f) == Frames.InRange(s, f)
  {
  }

  /** A page is there when neither its table nor the page itself has to be faulted in. */
  lemma EntryIffNoNeed(m: Machine, d: nat, i: nat, j: nat)
    requires Inv(m) && d in m.spaces && InRegion(i, j)
    ensures EntryAt(m, d, i, j).Some? && EntryAt(m, d, i, j).value.present <==> FaultNeeds(m, d, i, j) == 0
  {
  }

  lemma PointAtRoom(m: Machine, d: nat, i: nat, j: nat, phys: nat)
    requires Inv(m) && d in m.spaces && InRegion(i, j)
    requires EntryAt(m, d, i, j).Some? && EntryAt(m, d, i, j).value.present
    ensures var r := PointAt(m, d, i, j, phys);
            r.Done? && Room(r.m) == Room(m) + if View(m, d, i, j).Private? then 1 else 0
  {
    hide Frames.Inv, Frames.Allocated, Frames.Unused, Foreign, Drop;
    EntryFacts(m, d, i, j);
    PointAtShowsDevice(m, d, i, j, phys);
    var te := EntryAt(m, d, i, j).value;
    if te.petixAlloc { DropRoom(m, te.addr); }
  }

  /** Remapping needs what a fault on the page needs, and gives the private page back. */
  lemma RemapDoneIff(m: Machine, d: nat, i: nat, j: nat, phys: nat)
    requires Inv(m) && d in m.spaces && UserPage(i, j)
    ensures var r := RemapUser(m, d, i, j, phys);
            && (r.Done? <==> Room(m) >= FaultNeeds(m, d, i, j))
            && (r.Done? ==> Room(r.m) == Room(m) - FaultNeeds(m, d, i, j)
                              + if View(m, d, i, j).Private? then 1 else 0)
            && (r.Panic? ==> r.reason == OutOfPages)
  {
    hide PageFault, PointAt, Inv, Foreign, Room, View, FaultNeeds;
    RemapUserShowsDevice(m, d, i, j, phys);
    EntryIffNoNeed(m, d, i, j);
    if FaultNeeds(m, d, i, j) == 0 {
      PointAtRoom(m, d, i, j, phys);
    } else {
      FaultDoneIff(m, d, i, j, 0);
      PageFaultIsInvisible(m, d, i, j, 0);
      var r := PageFault(m, d, i, j, 0);
      if r.Done? { PointAtRoom(r.m, d, i, j, phys); }
    }
  }

  /** lock_page asserts exactly that the page is there, and neither takes nor gives a frame. */
  lemma LockDoneIff(m: Machine, d: nat, i: nat, j: nat)
    requires Inv(m) && d in m.spaces && InRegion(i, j)
    ensures LockPage(m, d, i, j).Done? <==> FaultNeeds(m, d, i, j) == 0
    ensures LockPage(m, d, i, j).Done? ==> Room(LockPage(m, d, i, j).m) == Room(m)
  {
    EntryIffNoNeed(m, d, i, j);
  }

  /** A store goes through exactly on a private page that is there and writable. */
  lemma StoreDoneIff(m: Machine, d: nat, i: nat, j: nat, off: nat, b: Byte)
    requires Inv(m) && d in m.spaces && InRegion(i, j) && off < PAGE_SIZE
    ensures var r := Store(m, d, i, j, off, b);
            && (r.Done? <==> FaultNeeds(m, d, i, j) == 0 && View(m, d, i, j).Private? && View(m, d, i, j).rw)
            && (r.Done? ==> Room(r.m) == Room(m))
  {
    EntryIffNoNeed(m, d, i, j);
    if EntryAt(m, d, i, j).Some? { EntryFacts(m, d, i, j); }
  }

  // --------------------------------------------------------------------- runs

  /** The frames an operation takes from the allocator. */
  ghost function OpNeeds(m: Machine, op: Op): nat {
    match op
    case DoCreate => 1
    case DoFork(d) => |Footprint(m, d)|
    case DoFault(d, i, j, _) => if InRegion(i, j) then FaultNeeds(m, d, i, j) else 0
    case DoRemap(d, i, j, _) => if UserPage(i, j) then FaultNeeds(m, d, i, j) else 0
    case DoLock(_, _, _) => 0
    case DoStore(_, _, _, _, _) => 0
    case DoFree(_) => 0
  }

  /** The frames an operation gives back. */
  ghost function OpReturns(m: Machine, op: Op): nat {
    match op
    case DoFree(d) => |Footprint(m, d)|
    case DoRemap(d, i, j, _) => if UserPage(i, j) && View(m, d, i, j).Private? then 1 else 0
    case _ => 0
  }

  /** The operation is one the kernel does not stop for reasons other than memory. */
  ghost predicate Legal(m: Machine, op: Op)
    requires Enabled(m, op) && Inv(m)
  {
    match op
    case DoFault(d, i, j, errorCode) => !BadAccess(errorCode) && (InRegion(i, j) || m.kernel.tabs[i][j].present)
    case DoLock(d, i, j) => FaultNeeds(m, d, i, j) == 0
    case DoStore(d, i, j, _, _) =>
      FaultNeeds(m, d, i, j) == 0 && View(m, d, i, j).Private? && View(m, d, i, j).rw
    case _ => true
  }

  /** An operation completes exactly when it is legal and enough frames are free. */
  lemma ExecDoneIff(m: Machine, op: Op)
    requires Inv(m) && Enabled(m, op)
    ensures Exec(m, op).Done? <==> Legal(m, op) && Room(m) >= OpNeeds(m, op)
    ensures Exec(m, op).Done? ==> Room(Exec(m, op).m) == Room(m) - OpNeeds(m, op) + OpReturns(m, op)
    ensures Exec(m, op).Panic? ==>
              (Exec(m, op).reason == OutOfPages <==> Legal(m, op) && Room(m) < OpNeeds(m, op))
  {
    hide PageFault, RemapUser, LockPage, Store, Fork, FreeSpace, Create, Room, View, FaultNeeds, Footprint;
    hide Marked, SpaceOk, BackOk, Foreign;
    ExecSound(m, op);
    match op
    case DoCreate => CreateDoneIff(m);
    case DoFault(d, i, j, errorCode) =>
      if BadAccess(errorCode) {
        BadFault(m, d, i, j, errorCode);
      } else if InRegion(i, j) {
        FaultDoneIff(m, d, i, j, errorCode);
      } else {
        KernelFault(m, d, i, j, errorCode);
      }
    case DoRemap(d, i, j, phys) =>
      if UserPage(i, j) { RemapDoneIff(m, d, i, j, phys); } else { RemapUserShowsDevice(m, d, i, j, phys); }
    case DoLock(d, i, j) => LockDoneIff(m, d, i, j);
    case DoStore(d, i, j, off, b) => StoreDoneIff(m, d, i, j, off, b);
    case DoFork(d) => ForkDoneIff(m, d);
    case DoFree(d) => FreeSpaceRoom(m, d);
  }

  lemma BadFault(m: Machine, d: nat, i: nat, j: nat, errorCode: nat)
    requires i < PDIR_SIZE && j < PTAB_SIZE && BadAccess(errorCode)
    ensures PageFault(m, d, i, j, errorCode) == Panic(Unrecoverable)
  {
  }

  /**
   * In every run, the next operation stops the kernel for want of memory exactly when it
   * needs more frames than are free.
   */
  lemma RunStopsIffShort(m0: Machine, ops: seq<Op>, states: seq<Machine>, k: nat, op: Op)
    requires Inv(m0) && Run(m0, ops, states) && k <= |ops| && Enabled(states[k], op)
    ensures Inv(states[k])
    ensures Exec(states[k], op) == Panic(OutOfPages) <==>
            Legal(states[k], op) && Room(states[k]) < OpNeeds(states[k], op)
  {
    hide Exec, Inv, Room, OpNeeds, Legal;
    RunSound(m0, ops, states, k);
    ExecDoneIff(states[k], op);
  }

  /** At boot the room is the whole bitmap. */
  lemma BootRoom(tabBase: nat, base: nat, nframes: nat)
    requires base > 0
    ensures Room(Boot(tabBase, base, nframes)) >= nframes
  {
    Frames.InitRoom(base, nframes);
  }
}
