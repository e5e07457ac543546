/** free_proc_addr_space: teardown releases exactly the frames of the space, each once. */
module PagingFree {
  import opened Paging
  import opened PagingOps
  import Frames

  /** The inner loop: release the demand pages of table t from entry j on. */
  function FreePages(m: Machine, t: nat, j: nat): Outcome
    requires j <= PTAB_SIZE
    decreases PTAB_SIZE - j
  {
    if j == PTAB_SIZE then Done(m, 0)
    else if !IsTab(m, t) then Panic(StrayAccess)
    else
      var te := m.mem[t].tents[j];
      if te.present && te.petixAlloc then
        var r := Drop(m, te.addr);
        if r.Panic? then r else FreePages(r.m, t, j + 1)
      else FreePages(m, t, j + 1)
  }

  function FreeRow(m: Machine, d: nat, i: nat): Outcome
    requires IsDir(m, d) && i < PDIR_SIZE
  {
    var de := m.mem[d].dents[i];
    if !(de.present && de.petixAlloc) then Done(m, 0)
    else
      var r := FreePages(m, de.table, 0);
      if r.Panic? then r else Drop(r.m, de.table)
  }

  /** The outer loop, from directory entry i on. */
  function FreeRows(m: Machine, d: nat, i: nat): Outcome
    requires i <= PDIR_SIZE
    decreases PDIR_SIZE - i
  {
    if i == PDIR_SIZE then Done(m, 0)
    else if !IsDir(m, d) then Panic(StrayAccess)
    else
      var r := FreeRow(m, d, i);
      if r.Panic? then r else FreeRows(r.m, d, i + 1)
  }

  /** free_proc_addr_space; d == 0 stands for NULL. */
  function FreeSpace(m: Machine, d: nat): Outcome {
    if d == 0 then Done(m, 0)
    else
      var r := FreeRows(m.(spaces := m.spaces - {d}), d, IDENTITY_LEN);
      if r.Panic? then r else Drop(r.m, d)
  }

  /** m' is m without the frames satisfying `gone`, which are free now. */
  ghost predicate Released(m: Machine, m': Machine, gone: set<nat>) {
    && gone <= m.own.Keys
    && m' == m.(fa := m'.fa, own := m.own - gone)
    && Marked(m') && Foreign(m') == Foreign(m) && Frames.SameRange(m.fa, m'.fa)
    && Frames.Allocated(m'.fa) == Frames.Allocated(m.fa) - gone
  }

  lemma ReleasedTwice(m: Machine, m1: Machine, m2: Machine, g1: set<nat>, g2: set<nat>)
    requires Released(m, m1, g1) && Released(m1, m2, g2)
    ensures Released(m, m2, g1 + g2)
  {
  }

  lemma DropReleases(m: Machine, f: nat)
    requires Marked(m) && f in m.own
    ensures Drop(m, f).Done? && Released(m, Drop(m, f).m, {f})
  {
    hide Frames.Allocated, Frames.Inv, Frames.Taken, Frames.AfterFree;
    DropOwned(m, f);
  }

  ghost function PagesFrom(m: Machine, d: nat, i: nat, j: nat): set<nat> {
    set f | f in m.own && m.own[f].PageOf? && InRow(m.own[f], d, i) && j <= m.own[f].j
  }

  /** What is left of row i once the pages below j are gone. */
  ghost predicate PagesLeft(m: Machine, d: nat, i: nat, t: nat, j: nat) {
    && IsTab(m, t)
    && (forall k: nat | j <= k < PTAB_SIZE :: PteOk(m, d, i, k, m.mem[t].tents[k]))
    && (forall f | f in PagesFrom(m, d, i, j) ::
          && m.own[f].j < PTAB_SIZE
          && var te := m.mem[t].tents[m.own[f].j];
          te.present && te.petixAlloc && te.addr == f)
  }

  lemma FreePageStep(m: Machine, d: nat, i: nat, t: nat, j: nat)
    requires Marked(m) && j < PTAB_SIZE && PagesLeft(m, d, i, t, j)
    ensures var te := m.mem[t].tents[j];
            if te.present && te.petixAlloc then
              && Drop(m, te.addr).Done?
              && var m' := Drop(m, te.addr).m;
              && Released(m, m', {te.addr}) && PagesLeft(m', d, i, t, j + 1)
              && PagesFrom(m, d, i, j) == {te.addr} + PagesFrom(m', d, i, j + 1)
            else PagesLeft(m, d, i, t, j + 1) && PagesFrom(m, d, i, j) == PagesFrom(m, d, i, j + 1)
  {
    hide Frames.Allocated, Frames.Inv, Marked, Drop, Foreign;
    var te := m.mem[t].tents[j];
    assert PteOk(m, d, i, j, te);
    if te.present && te.petixAlloc {
      assert te.addr in PagesFrom(m, d, i, j);
      DropReleases(m, te.addr);
      var m' := Drop(m, te.addr).m;
      forall k: nat | j + 1 <= k < PTAB_SIZE ensures PteOk(m', d, i, k, m.mem[t].tents[k]) {
        assert PteOk(m, d, i, k, m.mem[t].tents[k]);
      }
      assert PagesFrom(m', d, i, j + 1) <= PagesFrom(m, d, i, j);
      forall f | f in PagesFrom(m, d, i, j) && f != te.addr ensures f in PagesFrom(m', d, i, j + 1) {
        assert m.own[f].j != j;
      }
    } else {
      forall f | f in PagesFrom(m, d, i, j) ensures m.own[f].j != j {}
      assert PagesFrom(m, d, i, j) == PagesFrom(m, d, i, j + 1);
    }
  }

  lemma {:induction false} FreePagesAll(m: Machine, d: nat, i: nat, t: nat, j: nat)
    requires Marked(m) && j <= PTAB_SIZE && PagesLeft(m, d, i, t, j)
    ensures FreePages(m, t, j).Done? && Released(m, FreePages(m, t, j).m, PagesFrom(m, d, i, j))
    decreases PTAB_SIZE - j
  {
    hide Frames.Allocated, Frames.Inv, Drop, Foreign, PteOk;
    if j == PTAB_SIZE {
      forall f | f in PagesFrom(m, d, i, j) ensures false {}
      assert PagesFrom(m, d, i, j) == {};
      assert m.own - {} == m.own;
    } else {
      FreePageStep(m, d, i, t, j);
      var te := m.mem[t].tents[j];
      if te.present && te.petixAlloc {
        var m' := Drop(m, te.addr).m;
        FreePagesAll(m', d, i, t, j + 1);
        ReleasedTwice(m, m', FreePages(m', t, j + 1).m, {te.addr}, PagesFrom(m', d, i, j + 1));
      } else {
        FreePagesAll(m, d, i, t, j + 1);
      }
    }
  }

  // ------------------------------------------------------------- whole rows

  ghost function RowsFrom(m: Machine, d: nat, i: nat): set<nat> {
    set f | f in m.own && !m.own[f].DirOf? && m.own[f].d == d && i <= m.own[f].i
  }

  /** What is left of the space once the rows below i are gone. */
  ghost predicate RowsLeft(m: Machine, d: nat, i: nat) {
    && IsDir(m, d)
    && (forall k: nat | i <= k < PDIR_SIZE :: PdeOk(m, d, k, m.mem[d].dents[k]))
    && (forall f | f in RowsFrom(m, d, i) :: SlotHolds(m, m.own[f], f))
  }

  lemma RowIsTableAndPages(m: Machine, d: nat, i: nat, t: nat)
    requires i < PDIR_SIZE && RowsLeft(m, d, i)
    requires m.mem[d].dents[i].present && m.mem[d].dents[i].table == t
    ensures t in m.own && m.own[t] == TabOf(d, i) && PagesLeft(m, d, i, t, 0)
    ensures RowsFrom(m, d, i) == PagesFrom(m, d, i, 0) + {t} + RowsFrom(m, d, i + 1)
  {
  }

  lemma EmptyRow(m: Machine, d: nat, i: nat)
    requires i < PDIR_SIZE && RowsLeft(m, d, i) && !m.mem[d].dents[i].present
    ensures RowsLeft(m, d, i + 1) && RowsFrom(m, d, i) == RowsFrom(m, d, i + 1)
  {
  }

  lemma RowsLeftAfter(m: Machine, m': Machine, d: nat, i: nat, gone: set<nat>)
    requires i < PDIR_SIZE && RowsLeft(m, d, i)
    requires Released(m, m', gone)
    requires RowsFrom(m, d, i) == gone + RowsFrom(m, d, i + 1) && gone !! RowsFrom(m, d, i + 1)
    ensures RowsLeft(m', d, i + 1) && RowsFrom(m', d, i + 1) == RowsFrom(m, d, i + 1)
  {
    hide Frames.Allocated, Frames.Inv, Marked, Foreign;
    assert RowsFrom(m', d, i + 1) == RowsFrom(m, d, i + 1);
    forall k: nat | i + 1 <= k < PDIR_SIZE ensures PdeOk(m', d, k, m.mem[d].dents[k]) {
      assert PdeOk(m, d, k, m.mem[d].dents[k]);
      forall f | f in m.own && InRow(m.own[f], d, k) ensures Kept(m, m', f) {
        assert f in RowsFrom(m, d, i + 1);
      }
      RowFrame(m, m', d, k, m.mem[d].dents[k]);
    }
    forall f | f in RowsFrom(m', d, i + 1) ensures SlotHolds(m', m'.own[f], f) {
      assert f in RowsFrom(m, d, i);
    }
  }

  lemma FreeRowStep(m: Machine, d: nat, i: nat)
    requires Marked(m) && i < PDIR_SIZE && RowsLeft(m, d, i)
    ensures FreeRow(m, d, i).Done?
    ensures var m' := FreeRow(m, d, i).m;
            && RowsLeft(m', d, i + 1) && RowsFrom(m', d, i + 1) <= RowsFrom(m, d, i)
            && Released(m, m', RowsFrom(m, d, i) - RowsFrom(m', d, i + 1))
  {
    hide Frames.Allocated, Frames.Inv, Foreign, FreePages, Drop;
    var de := m.mem[d].dents[i];
    assert PdeOk(m, d, i, de);
    if de.present {
      var t := de.table;
      RowIsTableAndPages(m, d, i, t);
      var pages := PagesFrom(m, d, i, 0);
      FreePagesAll(m, d, i, t, 0);
      var m1 := FreePages(m, t, 0).m;
      DropReleases(m1, t);
      var m2 := Drop(m1, t).m;
      ReleasedTwice(m, m1, m2, pages, {t});
      RowsLeftAfter(m, m2, d, i, pages + {t});
      assert RowsFrom(m, d, i) - RowsFrom(m2, d, i + 1) == pages + {t};
    } else {
      EmptyRow(m, d, i);
      assert RowsFrom(m, d, i) - RowsFrom(m, d, i + 1) == {};
      assert m.own - {} == m.own;
    }
  }

  lemma {:induction false} FreeRowsAll(m: Machine, d: nat, i: nat)
    requires Marked(m) && i <= PDIR_SIZE && RowsLeft(m, d, i)
    ensures FreeRows(m, d, i).Done? && Released(m, FreeRows(m, d, i).m, RowsFrom(m, d, i))
    decreases PDIR_SIZE - i
  {
    hide Frames.Allocated, Frames.Inv, Foreign, FreeRow, PdeOk;
    if i == PDIR_SIZE {
      forall f | f in RowsFrom(m, d, i) ensures false {}
      assert RowsFrom(m, d, i) == {};
      assert m.own - {} == m.own;
    } else {
      FreeRowStep(m, d, i);
      var m' := FreeRow(m, d, i).m;
      FreeRowsAll(m', d, i + 1);
      var gone := RowsFrom(m, d, i) - RowsFrom(m', d, i + 1);
      ReleasedTwice(m, m', FreeRows(m', d, i + 1).m, gone, RowsFrom(m', d, i + 1));
      assert gone + RowsFrom(m', d, i + 1) == RowsFrom(m, d, i);
    }
  }

  /** The frames reached by walking the tables of d. */
  ghost function Footprint(m: Machine, d: nat): set<nat> {
    set f | f in Frames.Allocated(m.fa) && Reaches(m, d, f)
  }

  lemma FootprintIsOwned(m: Machine, d: nat)
    requires Inv(m) && d in m.spaces
    ensures forall f :: f in Footprint(m, d) <==> f in m.own && m.own[f].d == d
    ensures Footprint(m, d) == RowsFrom(m, d, IDENTITY_LEN) + {d}
    ensures forall f :: Reaches(m, d, f) ==> f in Footprint(m, d)
  {
    hide Frames.Allocated, Frames.Inv, Reaches;
    assert SpaceOk(m, d);
    forall f: nat ensures f in Footprint(m, d) <==> f in m.own && m.own[f].d == d {
      ReachesIffOwned(m, d, f);
    }
    forall f: nat | Reaches(m, d, f) ensures f in Footprint(m, d) { ReachesIffOwned(m, d, f); }
    forall f | f in m.own && m.own[f].d == d && f != d ensures f in RowsFrom(m, d, IDENTITY_LEN) {
      assert BackOk(m, f);
    }
  }

  /**
   * Teardown never trips the double-free assertion and releases exactly the frames that
   * the tables of d reach; every other process sees what it saw.
   */
  lemma FreeSpaceExact(m: Machine, d: nat)
    requires Inv(m) && d in m.spaces
    ensures FreeSpace(m, d).Done?
    ensures var m' := FreeSpace(m, d).m;
            && Inv(m') && m'.spaces == m.spaces - {d} && m'.kernel == m.kernel
            && Frames.Allocated(m'.fa) == Frames.Allocated(m.fa) - Footprint(m, d)
            && Foreign(m') == Foreign(m) && Frames.SameRange(m.fa, m'.fa)
            && (forall e | e in m'.spaces :: SameViews(m, m', e))
  {
    hide Frames.Allocated, FreeRows, Drop, Frames.Inv, Reaches;
    FootprintIsOwned(m, d);
    assert SpaceOk(m, d);
    assert d > 0 by { Positive(m, d); }
    var m0 := m.(spaces := m.spaces - {d});
    FreeStart(m, d);
    FreeRowsAll(m0, d, IDENTITY_LEN);
    var m1 := FreeRows(m0, d, IDENTITY_LEN).m;
    DropReleases(m1, d);
    var m2 := Drop(m1, d).m;
    ReleasedTwice(m0, m1, m2, RowsFrom(m0, d, IDENTITY_LEN), {d});
    FreeEnds(m, m2, d);
  }

  lemma Positive(m: Machine, f: nat)
    requires Marked(m) && f in m.own
    ensures f > 0
  {
  }

  lemma FreeStart(m: Machine, d: nat)
    requires Inv(m) && d in m.spaces
    ensures var m0 := m.(spaces := m.spaces - {d});
            && RowsLeft(m0, d, IDENTITY_LEN) && RowsFrom(m0, d, IDENTITY_LEN) == RowsFrom(m, d, IDENTITY_LEN)
            && Marked(m0) && Foreign(m0) == Foreign(m)
  {
  }

  lemma FreeEnds(m: Machine, m': Machine, d: nat)
    requires Inv(m) && d in m.spaces
    requires Released(m.(spaces := m.spaces - {d}), m', RowsFrom(m, d, IDENTITY_LEN) + {d})
    ensures Inv(m')
    ensures forall e | e in m'.spaces :: SameViews(m, m', e)
  {
    hide Frames.Allocated, Frames.Inv, Reaches;
    FootprintIsOwned(m, d);
    OtherSpaces(m, m', d);
  }
}
