/** The descriptor code of kernel/proc.c and kernel/syscall.c as it runs, with its loops. */
module DescriptorTables {
  import opened Common
  import opened Descriptors
  import opened Syscalls

  class FileTables {
    var procs: map<nat, seq<Fd>>
    var refcnt: map<nat, int>
    var kinds: map<nat, Kind>
    var pipes: map<nat, PipeObj>
    var nextFile: nat
    var nextPipe: nat
    ghost var closes: map<nat, nat>

    ghost function W(): World
      reads this
    {
      World(procs, refcnt, kinds, closes, pipes, nextFile, nextPipe)
    }

    constructor (p: nat)
      ensures W() == Boot(p)
    {
      procs := map[p := EmptyTable()];
      refcnt, kinds, closes, pipes, nextFile, nextPipe := map[], map[], map[], map[], 0, 0;
    }

    /** alloc_fd. */
    method AllocateFd(p: nat) returns (fd: int)
      requires Inv(W()) && p in procs
      modifies this
      ensures var i := AllocFd(old(W()), p);
              if i.Some? then fd == i.value && ValidFd(old(W()), p, fd) && W() == NewFile(old(W()), p, fd)
              else fd == -EMFILE && W() == old(W())
    {
      TableSize(W(), p);
      hide Inv;
      for i := 0 to MAX_FDS
        invariant AllocFd(old(W()), p) == FreeSlot(procs[p], i) && W() == old(W())
      {
        if procs[p][i].file.None? {
          procs := procs[p := procs[p][i := Fd(Some(nextFile), false)]];
          refcnt, kinds, closes := refcnt[nextFile := 1], kinds[nextFile := NoHook], closes[nextFile := 0];
          nextFile := nextFile + 1;
          return i;
        }
      }
      fd := -EMFILE;
    }

    /** The close hook of file f, if it has one. */
    method Hook(f: nat)
      requires f in kinds && f in closes && (kinds[f].PipeEnd? ==> kinds[f].q in pipes)
      modifies this`closes, this`pipes
      ensures W() == RunHook(old(W()), f)
    {
      if kinds[f] == NoHook {
        return;
      }
      closes := closes[f := closes[f] + 1];
      if kinds[f].PipeEnd? {
        var q := kinds[f].q;
        if kinds[f].readEnd {
          pipes := pipes[q := pipes[q].(oread := false)];
        } else {
          pipes := pipes[q := pipes[q].(owrite := false)];
        }
      }
    }

    lemma Facts(p: nat, i: nat)
      requires Inv(W()) && IsOpen(W(), p, i)
      ensures var f := procs[p][i].file.value;
              && f in refcnt && refcnt[f] > 0 && f in kinds && f in closes
              && (kinds[f].PipeEnd? ==> kinds[f].q in pipes)
    {
      var f := procs[p][i].file.value;
      OpenFileCounted(W(), p, i);
      CountAt(W(), f);
      HookEffect(W(), f);
    }

    /** release_fd. */
    method Release(p: nat, i: nat)
      requires Inv(W()) && IsOpen(W(), p, i)
      modifies this
      ensures Inv(W()) && Some(W()) == ReleaseFd(old(W()), p, i)
      ensures W().procs == SetSlot(old(W()), p, i, Fd(None, false)).procs
    {
      hide Inv, RunHook;
      Facts(p, i);
      ReleaseInv(W(), p, i);
      var f := procs[p][i].file.value;
      refcnt := refcnt[f := refcnt[f] - 1];
      HookTables(W(), f);
      if refcnt[f] == 0 {
        Hook(f);
        refcnt := refcnt - {f};
      }
      procs := procs[p := procs[p][i := Fd(None, false)]];
    }

    /** sys_close. */
    method Close(p: nat, fd: int) returns (ret: int)
      requires Inv(W()) && p in procs
      modifies this
      ensures Inv(W()) && Reply(W(), ret) == SysClose(old(W()), p, fd)
    {
      TableSize(W(), p);
      hide Inv, ReleaseFd;
      if fd >= MAX_FDS || fd < 0 || procs[p][fd].file.None? {
        return -EBADF;
      }
      Release(p, fd);
      ret := 0;
    }

    /** sys_dup2. */
    method Dup2(p: nat, fd: int, fd2: int) returns (ret: int)
      requires Inv(W()) && p in procs
      modifies this
      ensures Inv(W()) && Reply(W(), ret) == SysDup2(old(W()), p, fd, fd2)
    {
      TableSize(W(), p);
      Dup2Inv(W(), p, fd, fd2);
      hide Inv, SysClose, Share;
      if fd >= MAX_FDS || fd < 0 || procs[p][fd].file.None? || fd2 >= MAX_FDS || fd2 < 0 {
        return -EBADF;
      }
      if fd == fd2 {
        return fd;
      }
      if procs[p][fd2].file.Some? {
        CloseInv(W(), p, fd2);
        ret := Close(p, fd2);
      }
      OpenFileCounted(W(), p, fd);
      ShareSlot(p, fd, fd2);
      ret := fd2;
    }

    /** dup_fd, and the pointer copy after it. */
    method ShareSlot(p: nat, fd: nat, fd2: nat)
      requires IsOpen(W(), p, fd) && ValidFd(W(), p, fd2) && procs[p][fd].file.value in refcnt
      modifies this`procs, this`refcnt
      ensures W() == Share(old(W()), p, fd2, old(procs[p][fd].file.value), old(procs[p][fd2].cloexec))
    {
      var f := procs[p][fd].file.value;
      refcnt := refcnt[f := refcnt[f] + 1];
      procs := procs[p := procs[p][fd2 := procs[p][fd2].(file := Some(f))]];
    }

    /** The loops of sys_exec (all == false) and sys_exit (all == true). */
    method CloseAll(p: nat, all: bool)
      requires Inv(W()) && p in procs
      modifies this
      ensures Inv(W()) && Some(W()) == CloseFrom(old(W()), p, 0, all)
    {
      hide Inv, ReleaseFd;
      for i := 0 to MAX_FDS
        invariant Inv(W()) && p in procs
        invariant CloseFrom(old(W()), p, 0, all) == CloseFrom(W(), p, i, all)
      {
        TableSize(W(), p);
        if procs[p][i].file.Some? && (all || procs[p][i].cloexec) {
          Release(p, i);
        }
      }
    }

    /** sys_fork: the table is copied whole, then every file in it is counted once more. */
    method ForkTable(p: nat, c: nat)
      requires Inv(W()) && p in procs && c !in procs
      modifies this`procs, this`refcnt
      ensures Inv(W()) && Reply(W(), c) == SysFork(old(W()), p, c)
    {
      hide Inv, CopyFrom;
      ForkInv(W(), p, c);
      TableSize(W(), p);
      AddProcInv(W(), c);
      ghost var parent, done := procs[p], EmptyTable();
      ghost var w0 := W().(procs := procs[c := done]);
      ghost var w := w0;
      procs := procs[c := procs[p]];
      for i := 0 to MAX_FDS
        invariant Inv(w) && w == w0.(procs := old(procs)[c := done], refcnt := refcnt)
        invariant procs == old(procs)[c := parent] && |done| == |parent| == MAX_FDS
        invariant forall k | 0 <= k < i :: done[k] == parent[k]
        invariant forall k | i <= k < MAX_FDS :: done[k] == Fd(None, false)
        invariant CopyFrom(w0, p, c, 0) == CopyFrom(w, p, c, i)
      {
        CopyUnfold(w, p, c, i);
        if procs[c][i].file.Some? {
          var f := procs[c][i].file.value;
          refcnt := refcnt[f := refcnt[f] + 1];
          w := Share(w, c, i, f, parent[i].cloexec);
        }
        assert old(procs)[c := done][c := done[i := parent[i]]] == old(procs)[c := done[i := parent[i]]];
        assert parent[i].file.None? ==> done[i := parent[i]] == done;
        done := done[i := parent[i]];
      }
      CopyUnfold(w, p, c, MAX_FDS);
      assert done == parent;
    }
  }

  /** One round of the copying loop, on a world where the child's slot i is still empty. */
  lemma CopyUnfold(w: World, p: nat, c: nat, i: nat)
    requires Inv(w) && p in w.procs && c in w.procs && p != c && i <= MAX_FDS
    requires i < |w.procs[c]| ==> w.procs[c][i] == Fd(None, false)
    ensures |w.procs[p]| == |w.procs[c]| == MAX_FDS
    ensures i == MAX_FDS ==> CopyFrom(w, p, c, i) == Some(w)
    ensures i < MAX_FDS ==>
              var slot := w.procs[p][i];
              if slot.file.Some? then
                && slot.file.value in w.refcnt
                && var w' := Share(w, c, i, slot.file.value, slot.cloexec);
                && Inv(w') && CopyFrom(w, p, c, i) == CopyFrom(w', p, c, i + 1)
                && w'.procs == w.procs[c := w.procs[c][i := slot]]
              else slot == Fd(None, false) && CopyFrom(w, p, c, i) == CopyFrom(w, p, c, i + 1)
  {
    hide Inv;
    TableSize(w, p);
    TableSize(w, c);
    if i < MAX_FDS {
      var slot := w.procs[p][i];
      if slot.file.Some? {
        OpenFileCounted(w, p, i);
        ShareInv(w, c, i, slot.file.value, slot.cloexec);
        ShareProcs(w, c, i, slot.file.value, slot.cloexec);
      } else {
        EmptyUnmarked(w, p, i);
      }
    }
  }
}
