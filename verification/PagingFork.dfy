/**
 * create_proc_addr_space and fork_proc_addr_space: a new space is disjoint from the old
 * ones, and a fork shows its child exactly what the parent sees.
 */
module PagingFork {
  import opened Paging
  import opened PagingOps
  import Frames

  // ------------------------------------------------------------------- create

  /** The directory of a fresh process: the kernel half shared, the rest filled on demand. */
  function ProcDir(dir: seq<DirEnt>): (dents: seq<DirEnt>)
    requires |dir| == PDIR_SIZE
    ensures |dents| == PDIR_SIZE
  {
    seq(PDIR_SIZE, i requires 0 <= i < PDIR_SIZE =>
      if i < IDENTITY_LEN then dir[i]
      else dir[i].(present := false, rw := true, user := true, petixAlloc := true))
  }

  /** create_proc_addr_space; Done returns the new directory. */
  function Create(m: Machine): Outcome
    requires |m.kernel.dir| == PDIR_SIZE
  {
    var g := GrabDir(m, ProcDir(m.kernel.dir));
    if g.Panic? then g
    else if g.ret < 0 then Panic(StrayAccess)
    else Done(g.m.(spaces := g.m.spaces + {g.ret}), g.ret)
  }

  /** m' is m plus one space c built from frames that were free. */
  ghost predicate Grown(m: Machine, m': Machine, c: nat) {
    && c !in m.own && m'.kernel == m.kernel && m'.spaces == m.spaces + {c}
    && (forall f | f in m.own :: Kept(m, m', f))
    && (forall f | f in m'.own && f !in m.own :: m'.own[f].d == c && f !in Frames.Allocated(m.fa))
  }

  lemma NewSpace(m: Machine, m': Machine, c: nat)
    requires Inv(m) && Grown(m, m', c)
    requires Marked(m') && SpaceOk(m', c)
    requires forall f | f in m'.own && f !in m.own :: SlotHolds(m', m'.own[f], f)
    ensures Inv(m') && c !in m.spaces
    ensures forall e | e in m.spaces :: SameViews(m, m', e)
  {
    hide Marked;
    forall d | d in m.spaces ensures d != c { assert SpaceOk(m, d); }
    forall f | f in m.own ensures m.own[f].d != c { assert BackOk(m, f); }
    OtherSpaces(m, m', c);
  }

  /** A created space shows zeros everywhere in the process half, writable from user mode. */
  lemma CreateShowsZeros(m: Machine)
    requires Inv(m)
    ensures var r := Create(m);
            if r.Panic? then r.reason == OutOfPages
            else
              && r.ret > 0 && Inv(r.m) && Grown(m, r.m, r.ret)
              && Foreign(r.m) == Foreign(m)
              && (forall e | e in m.spaces :: SameViews(m, r.m, e))
              && (forall i: nat, j: nat | InRegion(i, j) ::
                    View(r.m, r.ret, i, j) == Private(ZeroPage(), true, true))
  {
    hide Frames.Inv, Frames.Allocated, Frames.NextPage, Frames.InRange, Frames.AfterAlloc;
    var page := Frames.NextPage(m.fa);
    if page.Some? {
      GrabIsFresh(m, Dir(ProcDir(m.kernel.dir)), DirOf(page.value));
      var r := Create(m);
      assert r.Done? ==> SpaceOk(r.m, r.ret);
      if r.Done? { NewSpace(m, r.m, r.ret); }
    }
  }

  // --------------------------------------------------------------------- fork

  /** The inner loop of fork: copy the demand pages of table t, slot i of space c, from j on. */
  function CopyPages(m: Machine, c: nat, i: nat, t: nat, j: nat): Outcome
    requires j <= PTAB_SIZE
    decreases PTAB_SIZE - j
  {
    if j == PTAB_SIZE then Done(m, 0)
    else if !IsTab(m, t) then Panic(StrayAccess)
    else
      var r := CopyPage(m, c, i, t, j);
      if r.Panic? then r else CopyPages(r.m, c, i, t, j + 1)
  }

  function CopyPage(m: Machine, c: nat, i: nat, t: nat, j: nat): Outcome
    requires IsTab(m, t) && j < PTAB_SIZE
  {
    var te := m.mem[t].tents[j];
    if !(te.present && te.petixAlloc) then Done(m, 0)
    else if !IsPage(m, te.addr) then Panic(StrayAccess)
    else
      var g := Grab(m, m.mem[te.addr], PageOf(c, i, j));
      if g.Panic? then g
      else if !IsTab(g.m, t) || g.ret < 0 then Panic(StrayAccess)
      else Done(SetTent(g.m, t, j, te.(addr := g.ret)), 0)
  }

  /** The outer loop of fork: copy the demand tables of d into c from directory entry i on. */
  function CopyRows(m: Machine, d: nat, c: nat, i: nat): Outcome
    requires i <= PDIR_SIZE
    decreases PDIR_SIZE - i
  {
    if i == PDIR_SIZE then Done(m, 0)
    else if !IsDir(m, d) || !IsDir(m, c) then Panic(StrayAccess)
    else
      var r := CopyRow(m, d, c, i);
      if r.Panic? then r else CopyRows(r.m, d, c, i + 1)
  }

  function CopyTable(m: Machine, d: nat, c: nat, i: nat): Outcome
    requires IsDir(m, d) && IsDir(m, c) && i < PDIR_SIZE
  {
    var t := m.mem[d].dents[i].table;
    if !IsTab(m, t) then Panic(StrayAccess)
    else
      var g := Grab(m, m.mem[t], TabOf(c, i));
      if g.Panic? then g
      else if !IsDir(g.m, c) || g.ret < 0 then Panic(StrayAccess)
      else Done(SetDent(g.m, c, i, m.mem[c].dents[i].(table := g.ret)), g.ret)
  }

  function CopyRow(m: Machine, d: nat, c: nat, i: nat): Outcome
    requires IsDir(m, d) && IsDir(m, c) && i < PDIR_SIZE
  {
    var de := m.mem[d].dents[i];
    if !(de.present && de.petixAlloc) then Done(m, 0)
    else
      var g := CopyTable(m, d, c, i);
      if g.Panic? then g
      else if g.ret < 0 then Panic(StrayAccess)
      else CopyPages(g.m, c, i, g.ret, 0)
  }

  /** fork_proc_addr_space; Done returns the child's directory. */
  function Fork(m: Machine, d: nat): Outcome {
    if !IsDir(m, d) then Panic(StrayAccess)
    else
      var g := GrabDir(m, m.mem[d].dents);
      if g.Panic? then g
      else if g.ret < 0 then Panic(StrayAccess)
      else
        var r := CopyRows(g.m, d, g.ret, IDENTITY_LEN);
        if r.Panic? then r else Done(r.m.(spaces := r.m.spaces + {g.ret}), g.ret)
  }

  // ------------------------------------------------------------ one table copied

  /** Half-way through copying table pt of d into table t of c: entries below j are done. */
  ghost predicate Copying(m: Machine, d: nat, c: nat, i: nat, pt: nat, t: nat, j: nat) {
    && Marked(m) && d != c && TabOk(m, d, i, pt)
    && t in m.own && m.own[t] == TabOf(c, i) && IsTab(m, t)
    && (forall k: nat | k < j && k < PTAB_SIZE ::
          PteOk(m, c, i, k, m.mem[t].tents[k]) && PteView(m, m.mem[t].tents[k]) == PteView(m, m.mem[pt].tents[k]))
    && (forall k: nat | j <= k < PTAB_SIZE :: m.mem[t].tents[k] == m.mem[pt].tents[k])
    && (forall f | f in m.own && m.own[f] == TabOf(c, i) :: f == t)
    && (forall f | f in m.own && m.own[f].PageOf? && InRow(m.own[f], c, i) ::
          && m.own[f].j < j && m.own[f].j < PTAB_SIZE
          && var te := m.mem[t].tents[m.own[f].j];
          te.present && te.petixAlloc && te.addr == f)
  }

  /** m' is m with more frames in row i of c, all of them free before; t may have changed. */
  ghost predicate RowGrown(m: Machine, m': Machine, c: nat, i: nat, t: nat) {
    && m'.kernel == m.kernel && m'.spaces == m.spaces && Foreign(m') == Foreign(m)
    && m.own.Keys <= m'.own.Keys
    && (forall f | f in m.own && f != t :: Kept(m, m', f))
    && (forall f | f in m'.own && f !in m.own :: InRow(m'.own[f], c, i) && f !in Frames.Allocated(m.fa))
  }

  lemma CopyPageGrows(m: Machine, d: nat, c: nat, i: nat, pt: nat, t: nat, j: nat)
    requires j < PTAB_SIZE && Copying(m, d, c, i, pt, t, j)
    requires m.mem[t].tents[j].present && m.mem[t].tents[j].petixAlloc
    ensures CopyPage(m, c, i, t, j).Panic? ==> CopyPage(m, c, i, t, j) == Panic(OutOfPages)
    ensures CopyPage(m, c, i, t, j).Done? ==>
              var m' := CopyPage(m, c, i, t, j).m;
              && RowGrown(m, m', c, i, t) && Marked(m') && IsTab(m', t)
              && var f := m'.mem[t].tents[j].addr;
              && f !in m.own && m'.own == m.own[f := PageOf(c, i, j)]
              && m'.mem[t].tents == m.mem[t].tents[j := m.mem[t].tents[j].(addr := f)]
              && PageOk(m', c, i, j, f) && BytesAt(m', f) == BytesAt(m, m.mem[t].tents[j].addr)
  {
    hide Frames.Inv, Frames.Allocated, Frames.NextPage, Frames.InRange, Frames.AfterAlloc;
    var te := m.mem[t].tents[j];
    assert PteOk(m, d, i, j, m.mem[pt].tents[j]);
    GrabIsFresh(m, m.mem[te.addr], PageOf(c, i, j));
  }

  lemma CopyPageStep(m: Machine, d: nat, c: nat, i: nat, pt: nat, t: nat, j: nat)
    requires j < PTAB_SIZE && Copying(m, d, c, i, pt, t, j)
    ensures CopyPage(m, c, i, t, j).Panic? ==> CopyPage(m, c, i, t, j) == Panic(OutOfPages)
    ensures CopyPage(m, c, i, t, j).Done? ==>
              Copying(CopyPage(m, c, i, t, j).m, d, c, i, pt, t, j + 1)
              && RowGrown(m, CopyPage(m, c, i, t, j).m, c, i, t)
  {
    hide Marked, Foreign, Frames.Allocated;
    assert PteOk(m, d, i, j, m.mem[pt].tents[j]);
    if m.mem[t].tents[j].present && m.mem[t].tents[j].petixAlloc {
      CopyPageGrows(m, d, c, i, pt, t, j);
      var r := CopyPage(m, c, i, t, j);
      if r.Done? { CopyPageDone(m, r.m, d, c, i, pt, t, j); }
    }
  }

  lemma CopyPageDone(m: Machine, m': Machine, d: nat, c: nat, i: nat, pt: nat, t: nat, j: nat)
    requires j < PTAB_SIZE && Copying(m, d, c, i, pt, t, j)
    requires m.mem[t].tents[j].present && m.mem[t].tents[j].petixAlloc
    requires RowGrown(m, m', c, i, t) && Marked(m') && IsTab(m', t)
    requires var f := m'.mem[t].tents[j].addr;
             && f !in m.own && m'.own == m.own[f := PageOf(c, i, j)]
             && m'.mem[t].tents == m.mem[t].tents[j := m.mem[t].tents[j].(addr := f)]
             && PageOk(m', c, i, j, f) && BytesAt(m', f) == BytesAt(m, m.mem[t].tents[j].addr)
    ensures Copying(m', d, c, i, pt, t, j + 1)
  {
    hide Marked, Foreign, Frames.Allocated;
    TabFrame(m, m', d, i, pt);
    forall k: nat | k < j
      ensures PteOk(m', c, i, k, m'.mem[t].tents[k])
      ensures PteView(m', m'.mem[t].tents[k]) == PteView(m', m'.mem[pt].tents[k])
    {
      assert PteOk(m, c, i, k, m.mem[t].tents[k]);
    }
  }

  lemma {:induction false} CopyPagesAll(m: Machine, d: nat, c: nat, i: nat, pt: nat, t: nat, j: nat)
    requires j <= PTAB_SIZE && Copying(m, d, c, i, pt, t, j)
    ensures CopyPages(m, c, i, t, j).Panic? ==> CopyPages(m, c, i, t, j) == Panic(OutOfPages)
    ensures CopyPages(m, c, i, t, j).Done? ==>
              Copying(CopyPages(m, c, i, t, j).m, d, c, i, pt, t, PTAB_SIZE)
              && RowGrown(m, CopyPages(m, c, i, t, j).m, c, i, t)
    decreases PTAB_SIZE - j
  {
    if j < PTAB_SIZE {
      hide Copying, CopyPage, Foreign;
      assert IsTab(m, t) by { CopyingTab(m, d, c, i, pt, t, j); }
      CopyPageStep(m, d, c, i, pt, t, j);
      var r := CopyPage(m, c, i, t, j);
      if r.Done? {
        CopyPagesAll(r.m, d, c, i, pt, t, j + 1);
        var r2 := CopyPages(r.m, c, i, t, j + 1);
        if r2.Done? { RowGrownTwice(m, r.m, r2.m, c, i, t); }
      }
    }
  }

  lemma CopyingTab(m: Machine, d: nat, c: nat, i: nat, pt: nat, t: nat, j: nat)
    requires Copying(m, d, c, i, pt, t, j)
    ensures IsTab(m, t)
  {
  }

  lemma RowGrownTwice(m: Machine, m1: Machine, m2: Machine, c: nat, i: nat, t: nat)
    requires t in m.own
    requires RowGrown(m, m1, c, i, t) && RowGrown(m1, m2, c, i, t)
    ensures RowGrown(m, m2, c, i, t)
  {
  }

  // ------------------------------------------------------- the whole directory

  /** Child entry k shows what parent entry k shows, from frames of the child. */
  ghost predicate RowCopied(m: Machine, d: nat, c: nat, k: nat)
    requires IsDir(m, d) && IsDir(m, c) && k < PDIR_SIZE
  {
    && PdeOk(m, c, k, m.mem[c].dents[k])
    && forall j: nat | j < PTAB_SIZE :: PdeView(m, m.mem[c].dents[k], j) == PdeView(m, m.mem[d].dents[k], j)
  }

  /** Half-way through fork: entries below i of the child are done, the rest still the parent's. */
  ghost predicate Cloning(m: Machine, d: nat, c: nat, i: nat) {
    && Marked(m) && d != c && SpaceOk(m, d)
    && c in m.own && m.own[c] == DirOf(c) && IsDir(m, c)
    && (forall k: nat | k < PDIR_SIZE && (k < IDENTITY_LEN || i <= k) :: m.mem[c].dents[k] == m.mem[d].dents[k])
    && (forall k: nat | IDENTITY_LEN <= k < i && k < PDIR_SIZE :: RowCopied(m, d, c, k))
    && (forall f | f in m.own && m.own[f].d == c && f != c ::
          !m.own[f].DirOf? && IDENTITY_LEN <= m.own[f].i < i && SlotHolds(m, m.own[f], f))
  }

  lemma CopyTableStep(m: Machine, d: nat, c: nat, i: nat)
    requires IDENTITY_LEN <= i < PDIR_SIZE && Cloning(m, d, c, i)
    requires m.mem[d].dents[i].present
    ensures CopyTable(m, d, c, i).Panic? ==> CopyTable(m, d, c, i) == Panic(OutOfPages)
    ensures CopyTable(m, d, c, i).Done? ==>
              var m1 := CopyTable(m, d, c, i).m;
              var t := CopyTable(m, d, c, i).ret;
              && t > 0 && t !in m.own && RowGrown(m, m1, c, i, c) && IsDir(m1, c)
              && m1.own == m.own[t := TabOf(c, i)]
              && m1.mem[c].dents == m.mem[c].dents[i := m.mem[d].dents[i].(table := t)]
              && Copying(m1, d, c, i, m.mem[d].dents[i].table, t, 0)
  {
    hide Frames.Inv, Frames.Allocated, Frames.NextPage, Frames.InRange, Frames.AfterAlloc;
    var pt := m.mem[d].dents[i].table;
    assert PdeOk(m, d, i, m.mem[d].dents[i]);
    GrabIsFresh(m, m.mem[pt], TabOf(c, i));
    var r := CopyTable(m, d, c, i);
    if r.Done? { TabFrame(m, r.m, d, i, pt); }
  }

  lemma CopyRowGrows(m: Machine, m1: Machine, m2: Machine, c: nat, i: nat, t: nat)
    requires c in m.own && t !in m.own && t in m1.own && InRow(m1.own[t], c, i) && c != t
    requires RowGrown(m, m1, c, i, c) && RowGrown(m1, m2, c, i, t) && m2.own[t] == m1.own[t]
    ensures RowGrown(m, m2, c, i, c)
  {
  }

  lemma OldRowsStay(m: Machine, m': Machine, d: nat, c: nat, i: nat, k: nat)
    requires IDENTITY_LEN <= k < PDIR_SIZE && k < i && Cloning(m, d, c, i)
    requires RowGrown(m, m', c, i, c) && IsDir(m', c) && IsDir(m', d)
    requires m'.mem[c].dents[k] == m.mem[c].dents[k] && m'.mem[d].dents[k] == m.mem[d].dents[k]
    ensures RowCopied(m', d, c, k)
  {
    hide Marked, Foreign, Frames.Allocated;
    assert RowCopied(m, d, c, k) && PdeOk(m, d, k, m.mem[d].dents[k]);
    RowFrame(m, m', c, k, m.mem[c].dents[k]);
    RowFrame(m, m', d, k, m.mem[d].dents[k]);
  }

  lemma OldSlotsStay(m: Machine, m': Machine, d: nat, c: nat, i: nat, f: nat)
    requires Cloning(m, d, c, i) && i < PDIR_SIZE
    requires RowGrown(m, m', c, i, c) && IsDir(m', c)
    requires forall k: nat | k < i :: m'.mem[c].dents[k] == m.mem[c].dents[k]
    requires f in m.own && m.own[f].d == c && f != c
    ensures f in m'.own && m'.own[f] == m.own[f] && SlotHolds(m', m.own[f], f)
  {
    hide Marked, Foreign, Frames.Allocated;
    var k := m.own[f].i;
    assert Kept(m, m', f);
    assert RowCopied(m, d, c, k);
    assert Kept(m, m', m.mem[c].dents[k].table);
  }

  /** Once its table is finished, row i of the child is a copy of row i of the parent. */
  lemma RowFinished(m: Machine, m': Machine, d: nat, c: nat, i: nat, t: nat)
    requires IDENTITY_LEN <= i < PDIR_SIZE && Cloning(m, d, c, i) && m.mem[d].dents[i].present
    requires RowGrown(m, m', c, i, c) && IsDir(m', c)
    requires m'.mem[c].dents == m.mem[c].dents[i := m.mem[d].dents[i].(table := t)]
    requires Copying(m', d, c, i, m.mem[d].dents[i].table, t, PTAB_SIZE)
    requires c in m'.own && m'.own[c] == DirOf(c)
    ensures Cloning(m', d, c, i + 1)
  {
    hide Marked, Foreign, Frames.Allocated;
    SpaceFrame(m, m', d);
    assert Kept(m, m', d);
    forall k: nat | IDENTITY_LEN <= k < i ensures RowCopied(m', d, c, k) {
      OldRowsStay(m, m', d, c, i, k);
    }
    assert PdeOk(m, d, i, m.mem[d].dents[i]);
    assert RowCopied(m', d, c, i);
    forall f | f in m'.own && m'.own[f].d == c && f != c
      ensures !m'.own[f].DirOf? && IDENTITY_LEN <= m'.own[f].i < i + 1 && SlotHolds(m', m'.own[f], f)
    {
      if f in m.own { assert Kept(m, m', f); OldSlotsStay(m, m', d, c, i, f); }
    }
  }

  lemma CopyRowStep(m: Machine, d: nat, c: nat, i: nat)
    requires IDENTITY_LEN <= i < PDIR_SIZE && Cloning(m, d, c, i)
    ensures CopyRow(m, d, c, i).Panic? ==> CopyRow(m, d, c, i) == Panic(OutOfPages)
    ensures CopyRow(m, d, c, i).Done? ==>
              Cloning(CopyRow(m, d, c, i).m, d, c, i + 1) && RowGrown(m, CopyRow(m, d, c, i).m, c, i, c)
  {
    hide Marked, Foreign, Frames.Allocated, CopyTable, CopyPages;
    assert PdeOk(m, d, i, m.mem[d].dents[i]);
    if m.mem[d].dents[i].present {
      CopyTableStep(m, d, c, i);
      var g := CopyTable(m, d, c, i);
      if g.Done? {
        CopyPagesAll(g.m, d, c, i, m.mem[d].dents[i].table, g.ret, 0);
        var r := CopyPages(g.m, c, i, g.ret, 0);
        if r.Done? {
          assert Kept(g.m, r.m, c);
          CopyRowGrows(m, g.m, r.m, c, i, g.ret);
          RowFinished(m, r.m, d, c, i, g.ret);
        }
      }
    } else {
      assert RowCopied(m, d, c, i);
    }
  }

  /** m' is m with more frames for c, all of them free before; only c itself may have changed. */
  ghost predicate TreeGrown(m: Machine, m': Machine, c: nat) {
    && m'.kernel == m.kernel && m'.spaces == m.spaces && Foreign(m') == Foreign(m)
    && m.own.Keys <= m'.own.Keys
    && (forall f | f in m.own && f != c :: Kept(m, m', f))
    && (forall f | f in m'.own && f !in m.own :: m'.own[f].d == c && f !in Frames.Allocated(m.fa))
  }

  lemma TreeGrownTwice(m: Machine, m1: Machine, m2: Machine, c: nat)
    requires c in m.own && TreeGrown(m, m1, c) && TreeGrown(m1, m2, c)
    ensures TreeGrown(m, m2, c)
  {
  }

  lemma {:induction false} CopyRowsAll(m: Machine, d: nat, c: nat, i: nat)
    requires IDENTITY_LEN <= i <= PDIR_SIZE && Cloning(m, d, c, i)
    ensures CopyRows(m, d, c, i).Panic? ==> CopyRows(m, d, c, i) == Panic(OutOfPages)
    ensures CopyRows(m, d, c, i).Done? ==>
              Cloning(CopyRows(m, d, c, i).m, d, c, PDIR_SIZE) && TreeGrown(m, CopyRows(m, d, c, i).m, c)
    decreases PDIR_SIZE - i
  {
    hide Marked, Foreign, Frames.Allocated, CopyRow, SpaceOk, RowCopied;
    if i < PDIR_SIZE {
      assert IsDir(m, d) by { CloningDir(m, d, c, i); }
      CopyRowStep(m, d, c, i);
      var r := CopyRow(m, d, c, i);
      if r.Done? {
        CopyRowsAll(r.m, d, c, i + 1);
        var r2 := CopyRows(r.m, d, c, i + 1);
        if r2.Done? { TreeGrownTwice(m, r.m, r2.m, c); }
      }
    }
  }

  lemma CloningDir(m: Machine, d: nat, c: nat, i: nat)
    requires Cloning(m, d, c, i)
    ensures IsDir(m, d) && IsDir(m, c)
  {
  }

  lemma CopyRowsEnd(m: Machine, d: nat, c: nat)
    ensures CopyRows(m, d, c, PDIR_SIZE) == Done(m, 0)
  {
  }

  lemma CopyRowsNext(m: Machine, d: nat, c: nat, i: nat)
    requires i < PDIR_SIZE && IsDir(m, d) && IsDir(m, c)
    ensures var r := CopyRow(m, d, c, i);
            CopyRows(m, d, c, i) == if r.Panic? then r else CopyRows(r.m, d, c, i + 1)
  {
  }

  lemma ForkStart(m: Machine, d: nat)
    requires Inv(m) && d in m.spaces && IsDir(m, d)
    ensures GrabDir(m, m.mem[d].dents).Panic? ==> GrabDir(m, m.mem[d].dents) == Panic(OutOfPages)
    ensures GrabDir(m, m.mem[d].dents).Done? ==>
              var g := GrabDir(m, m.mem[d].dents);
              && g.ret > 0 && g.ret !in m.own && g.ret !in Frames.Allocated(m.fa)
              && TreeGrown(m, g.m, g.ret) && g.m.own == m.own[g.ret := DirOf(g.ret)]
              && Cloning(g.m, d, g.ret, IDENTITY_LEN)
  {
    hide Frames.Inv, Frames.Allocated, Frames.NextPage, Frames.InRange, Frames.AfterAlloc;
    assert SpaceOk(m, d);
    var page := Frames.NextPage(m.fa);
    if page.Some? {
      GrabIsFresh(m, Dir(m.mem[d].dents), DirOf(page.value));
      var g := GrabDir(m, m.mem[d].dents);
      if g.Done? {
        SpaceFrame(m, g.m, d);
        forall f | f in m.own ensures m.own[f].d != g.ret { assert BackOk(m, f) && SpaceOk(m, m.own[f].d); }
      }
    }
  }

  lemma ChildIsSpace(m: Machine, d: nat, c: nat)
    requires Cloning(m, d, c, PDIR_SIZE)
    ensures SpaceOk(m, c)
    ensures forall i: nat, j: nat | InRegion(i, j) :: View(m, c, i, j) == View(m, d, i, j)
  {
    hide Marked;
    forall k: nat | IDENTITY_LEN <= k < PDIR_SIZE ensures PdeOk(m, c, k, m.mem[c].dents[k]) {
      assert RowCopied(m, d, c, k);
    }
    forall i: nat, j: nat | InRegion(i, j) ensures View(m, c, i, j) == View(m, d, i, j) {
      assert RowCopied(m, d, c, i);
    }
  }

  /**
   * fork builds the child from free frames only, leaves what every existing process sees
   * as it was, and shows the child the parent's bytes, devices and permissions.
   */
  lemma ForkCopies(m: Machine, d: nat)
    requires Inv(m) && d in m.spaces
    ensures var r := Fork(m, d);
            if r.Panic? then r.reason == OutOfPages
            else
              && r.ret > 0 && Inv(r.m) && Grown(m, r.m, r.ret)
              && Foreign(r.m) == Foreign(m)
              && (forall e | e in m.spaces :: SameViews(m, r.m, e))
              && (forall i: nat, j: nat | InRegion(i, j) :: View(r.m, r.ret, i, j) == View(m, d, i, j))
  {
    hide Frames.Allocated, Marked, CopyRows, GrabDir, PdeView, PteView, SlotHolds;
    assert SpaceOk(m, d);
    ForkStart(m, d);
    var g := GrabDir(m, m.mem[d].dents);
    if g.Done? {
      var c: nat := g.ret;
      CopyRowsAll(g.m, d, c, IDENTITY_LEN);
      var r := CopyRows(g.m, d, c, IDENTITY_LEN);
      if r.Done? { ForkEnds(m, g.m, r.m, d, c); }
    }
  }

  lemma ForkEnds(m: Machine, m1: Machine, m2: Machine, d: nat, c: nat)
    requires Inv(m) && d in m.spaces && c !in m.own && c !in Frames.Allocated(m.fa)
    requires TreeGrown(m, m1, c) && m1.own == m.own[c := DirOf(c)]
    requires TreeGrown(m1, m2, c) && Cloning(m2, d, c, PDIR_SIZE)
    ensures var m' := m2.(spaces := m2.spaces + {c});
            && Inv(m') && Grown(m, m', c) && Foreign(m') == Foreign(m)
            && (forall e | e in m.spaces :: SameViews(m, m', e))
            && (forall i: nat, j: nat | InRegion(i, j) :: View(m', c, i, j) == View(m, d, i, j))
  {
    hide Frames.Allocated, Frames.Inv;
    var m' := m2.(spaces := m2.spaces + {c});
    ForkGrown(m, m1, m2, c);
    ChildIsSpace(m2, d, c);
    SpaceFrame(m2, m', c);
    NewSpace(m, m', c);
    SpaceFrame(m2, m', d);
    assert SameViews(m, m', d);
  }

  lemma ForkGrown(m: Machine, m1: Machine, m2: Machine, c: nat)
    requires c !in m.own && c !in Frames.Allocated(m.fa)
    requires TreeGrown(m, m1, c) && m1.own == m.own[c := DirOf(c)] && TreeGrown(m1, m2, c)
    requires c in m2.own && m2.own[c] == DirOf(c)
    ensures Grown(m, m2.(spaces := m2.spaces + {c}), c)
  {
  }
}
