/** The descriptor effects of open, close, dup2, pipe, fork, exec and exit, over whole runs. */
module Syscalls {
  import opened Common
  import opened Descriptors

  const EBADF: int := 9
  const EMFILE: int := 24

  /** Crash: an assertion of release_fd failed. */
  datatype Reply = Reply(w: World, ret: int) | Crash

  predicate IsOpen(w: World, p: nat, fd: int) {
    ValidFd(w, p, fd) && w.procs[p][fd].file.Some?
  }

  function SysClose(w: World, p: nat, fd: int): Reply {
    if !IsOpen(w, p, fd) then Reply(w, -EBADF)
    else
      var r := ReleaseFd(w, p, fd);
      if r.None? then Crash else Reply(r.value, 0)
  }

  function SysDup2(w: World, p: nat, fd: int, fd2: int): Reply {
    if !IsOpen(w, p, fd) || !ValidFd(w, p, fd2) then Reply(w, -EBADF)
    else if fd == fd2 then Reply(w, fd)
    else
      var r := if IsOpen(w, p, fd2) then SysClose(w, p, fd2) else Reply(w, 0);
      if r.Crash? then Crash
      else if !IsOpen(r.w, p, fd) || !ValidFd(r.w, p, fd2) || r.w.procs[p][fd].file.value !in r.w.refcnt then Crash
      else Reply(Share(r.w, p, fd2, r.w.procs[p][fd].file.value, r.w.procs[p][fd2].cloexec), fd2)
  }

  function AllocFd(w: World, p: nat): Option<nat>
    requires p in w.procs
  {
    FreeSlot(w.procs[p], 0)
  }

  function SetKind(w: World, f: nat, k: Kind): World {
    w.(kinds := w.kinds[f := k])
  }

  function SetCloexec(w: World, p: nat, i: nat): World
    requires ValidFd(w, p, i)
  {
    SetSlot(w, p, i, w.procs[p][i].(cloexec := true))
  }

  /** What fs_open does to the new file: sets its operations and succeeds, or fails before or after. */
  datatype OpenResult = Opened(hook: bool) | FailedEarly(err: int) | FailedLate(err: int, hook: bool)

  /** sys_open up to the return of fs_open: a new file in slot i, marked and given its operations. */
  function Prepared(w: World, p: nat, i: nat, cloexec: bool, result: OpenResult): (w': World)
    requires ValidFd(w, p, i)
    ensures ValidFd(w', p, i)
  {
    var w1 := NewFile(w, p, i);
    var w2 := if cloexec then SetCloexec(w1, p, i) else w1;
    var hooked := (result.Opened? || result.FailedLate?) && result.hook;
    if hooked then SetKind(w2, w.nextFile, Hooked) else w2
  }

  /** sys_open once the path has been found. */
  function SysOpen(w: World, p: nat, cloexec: bool, result: OpenResult): Reply
    requires p in w.procs
  {
    var i := AllocFd(w, p);
    if i.None? then Reply(w, -EMFILE)
    else
      var w1 := Prepared(w, p, i.value, cloexec, result);
      if result.Opened? then Reply(w1, i.value)
      else
        var r := ReleaseFd(w1, p, i.value);
        if r.None? then Crash else Reply(r.value, result.err)
  }

  /** open_pipe on the files r and u. */
  function OpenPipe(w: World, r: nat, u: nat): World {
    var q := w.nextPipe;
    w.(kinds := w.kinds[r := PipeEnd(q, true)][u := PipeEnd(q, false)],
       pipes := w.pipes[q := PipeObj(r, u, true, true)], nextPipe := q + 1)
  }

  /** sys_pipe; when only one slot is free, that slot stays taken by a file without operations. */
  function SysPipe(w: World, p: nat, cloexec: bool): Reply
    requires p in w.procs
  {
    var i1 := AllocFd(w, p);
    if i1.None? then Reply(w, -EMFILE)
    else
      var w1 := NewFile(w, p, i1.value);
      var i2 := AllocFd(w1, p);
      if i2.None? then Reply(w1, -EMFILE)
      else
        var w2 := NewFile(w1, p, i2.value);
        var w3 := OpenPipe(w2, w.nextFile, w1.nextFile);
        Reply(if cloexec then SetCloexec(SetCloexec(w3, p, i1.value), p, i2.value) else w3, 0)
  }

  /** The loops of sys_exec and sys_exit from slot i on: release the slots marked, or all. */
  function CloseFrom(w: World, p: nat, i: nat, all: bool): Option<World>
    requires i <= MAX_FDS
    decreases MAX_FDS - i
  {
    if i == MAX_FDS then Some(w)
    else if !ValidFd(w, p, i) then None
    else if w.procs[p][i].file.Some? && (all || w.procs[p][i].cloexec) then
      var r := ReleaseFd(w, p, i);
      if r.None? then None else CloseFrom(r.value, p, i + 1, all)
    else CloseFrom(w, p, i + 1, all)
  }

  function SysExec(w: World, p: nat): Reply {
    var r := CloseFrom(w, p, 0, false);
    if r.None? then Crash else Reply(r.value, 0)
  }

  function SysExit(w: World, p: nat): Reply {
    var r := CloseFrom(w, p, 0, true);
    if r.None? then Crash else Reply(r.value.(procs := r.value.procs - {p}), 0)
  }

  function EmptyTable(): seq<Fd> {
    seq(MAX_FDS, _ => Fd(None, false))
  }

  /** The loop of sys_fork from slot i on: give the child c every open descriptor of p. */
  function CopyFrom(w: World, p: nat, c: nat, i: nat): Option<World>
    requires i <= MAX_FDS
    decreases MAX_FDS - i
  {
    if i == MAX_FDS then Some(w)
    else if !ValidFd(w, p, i) || !ValidFd(w, c, i) then None
    else
      var slot := w.procs[p][i];
      if slot.file.None? then CopyFrom(w, p, c, i + 1)
      else if slot.file.value !in w.refcnt then None
      else CopyFrom(Share(w, c, i, slot.file.value, slot.cloexec), p, c, i + 1)
  }

  /** sys_fork of p into the new process c. */
  function SysFork(w: World, p: nat, c: nat): Reply {
    var r := CopyFrom(w.(procs := w.procs[c := EmptyTable()]), p, c, 0);
    if r.None? then Crash else Reply(r.value, c)
  }

  // ---------------------------------------------------------------- soundness

  /** close empties the slot of an open descriptor, and only reports anything else. */
  lemma CloseInv(w: World, p: nat, fd: int)
    requires Inv(w)
    ensures SysClose(w, p, fd).Reply? && Inv(SysClose(w, p, fd).w)
    ensures SysClose(w, p, fd).w.kinds == w.kinds
    ensures if IsOpen(w, p, fd) then
              SysClose(w, p, fd).ret == 0 && SysClose(w, p, fd).w.procs == SetSlot(w, p, fd, Fd(None, false)).procs
            else SysClose(w, p, fd) == Reply(w, -EBADF)
  {
    hide Inv, ReleaseFd;
    if IsOpen(w, p, fd) { ReleaseInv(w, p, fd); }
  }

  lemma OpenFileCounted(w: World, p: nat, i: nat)
    requires Inv(w) && IsOpen(w, p, i)
    ensures w.procs[p][i].file.value in w.refcnt
  {
    assert Holds(w, p, i, w.procs[p][i].file.value);
  }

  /**
   * After dup2 both descriptors name the same file, and no other slot has changed; a bad
   * descriptor is reported, and neither that nor equal descriptors change anything.
   */
  lemma Dup2Inv(w: World, p: nat, fd: int, fd2: int)
    requires Inv(w)
    ensures SysDup2(w, p, fd, fd2).Reply? && Inv(SysDup2(w, p, fd, fd2).w)
    ensures SysDup2(w, p, fd, fd2).w.kinds == w.kinds
    ensures if !IsOpen(w, p, fd) || !ValidFd(w, p, fd2) then SysDup2(w, p, fd, fd2) == Reply(w, -EBADF)
            else if fd == fd2 then SysDup2(w, p, fd, fd2) == Reply(w, fd2)
            else
              && SysDup2(w, p, fd, fd2).ret == fd2
              && SysDup2(w, p, fd, fd2).w.procs == w.procs[p := w.procs[p][fd2 := Fd(w.procs[p][fd].file, false)]]
  {
    hide Inv, SysClose;
    if IsOpen(w, p, fd) && ValidFd(w, p, fd2) && fd != fd2 {
      CloseInv(w, p, fd2);
      var r := if IsOpen(w, p, fd2) then SysClose(w, p, fd2) else Reply(w, 0);
      OpenFileCounted(r.w, p, fd);
      assert !r.w.procs[p][fd2].cloexec by { EmptyUnmarked(r.w, p, fd2); }
      ShareInv(r.w, p, fd2, r.w.procs[p][fd].file.value, r.w.procs[p][fd2].cloexec);
      var fds := SysDup2(w, p, fd, fd2).w.procs[p];
      assert fds == w.procs[p][fd2 := Fd(w.procs[p][fd].file, false)];
      assert SysDup2(w, p, fd, fd2).w.procs == w.procs[p := fds];
    }
  }

  lemma SetCloexecInv(w: World, p: nat, i: nat)
    requires Inv(w) && IsOpen(w, p, i)
    ensures Inv(SetCloexec(w, p, i))
  {
    var w' := SetCloexec(w, p, i);
    forall q: nat, k: nat, f: nat ensures Holds(w', q, k, f) <==> Holds(w, q, k, f) {}
    assert TablesOk(w') by {
      forall q: nat, k: int | ValidFd(w', q, k) ensures w'.procs[q][k].file.None? ==> !w'.procs[q][k].cloexec {
        assert ValidFd(w, q, k);
      }
    }
    forall f | Counted(w', f) ensures w'.refcnt[f] == |Holders(w', f)| && w'.refcnt[f] > 0 {
      assert Counted(w, f);
      assert Holders(w', f) == Holders(w, f);
    }
    hide TablesOk, CountsOk, HistoryOk, PipesOk;
    SameHistory(w, w');
  }

  lemma SetKindInv(w: World, f: nat)
    requires Inv(w) && f in w.refcnt && f in w.kinds && w.kinds[f] == NoHook
    ensures Inv(SetKind(w, f, Hooked))
  {
    var w' := SetKind(w, f, Hooked);
    SameTables(w, w');
    hide TablesOk, CountsOk;
    forall q | q in w'.pipes ensures PipeOk(w', q) { assert PipeOk(w, q); }
  }

  lemma SameTables(w: World, w': World)
    requires TablesOk(w) && CountsOk(w) && w'.procs == w.procs && w'.refcnt == w.refcnt
    ensures TablesOk(w') && CountsOk(w')
  {
    forall f | Counted(w', f) ensures w'.refcnt[f] == |Holders(w', f)| && w'.refcnt[f] > 0 {
      assert Counted(w, f);
      HoldersOnlyTables(w, w', f);
    }
    forall p: nat, i: nat, f: nat | Holds(w', p, i, f) ensures f in w'.refcnt { assert Holds(w, p, i, f); }
    forall p: nat, i: int | ValidFd(w', p, i) ensures w'.procs[p][i].file.None? ==> !w'.procs[p][i].cloexec {
      assert ValidFd(w, p, i);
    }
  }

  lemma EmptyUnmarked(w: World, p: nat, i: int)
    requires Inv(w) && ValidFd(w, p, i) && w.procs[p][i].file.None?
    ensures !w.procs[p][i].cloexec
  {
  }

  /** The close hook of a file that fs_open gave its operations. */
  function OpenedKind(result: OpenResult): Kind {
    match result
    case Opened(hook) => if hook then Hooked else NoHook
    case FailedEarly(_) => NoHook
    case FailedLate(_, hook) => if hook then Hooked else NoHook
  }

  lemma PreparedInv(w: World, p: nat, i: nat, cloexec: bool, result: OpenResult)
    requires Inv(w) && ValidFd(w, p, i) && w.procs[p][i].file.None?
    ensures Inv(Prepared(w, p, i, cloexec, result))
    ensures Prepared(w, p, i, cloexec, result).procs == SetSlot(w, p, i, Fd(Some(w.nextFile), cloexec)).procs
    ensures Prepared(w, p, i, cloexec, result).procs[p][i] == Fd(Some(w.nextFile), cloexec)
    ensures w.nextFile in Prepared(w, p, i, cloexec, result).refcnt
    ensures Prepared(w, p, i, cloexec, result).kinds == w.kinds[w.nextFile := OpenedKind(result)]
  {
    hide Inv;
    PreparedKind(w, p, i, cloexec, result);
    NewFileInv(w, p, i);
    var w1 := NewFile(w, p, i);
    SetCloexecInv(w1, p, i);
    var w2 := if cloexec then SetCloexec(w1, p, i) else w1;
    assert w2.procs[p] == w.procs[p][i := Fd(Some(w.nextFile), cloexec)];
    SetKindInv(w2, w.nextFile);
  }

  lemma PreparedKind(w: World, p: nat, i: nat, cloexec: bool, result: OpenResult)
    requires ValidFd(w, p, i)
    ensures Prepared(w, p, i, cloexec, result).kinds == w.kinds[w.nextFile := OpenedKind(result)]
  {
    var k := OpenedKind(result);
    assert w.kinds[w.nextFile := NoHook][w.nextFile := k] == w.kinds[w.nextFile := k];
  }

  lemma OpenInv(w: World, p: nat, cloexec: bool, result: OpenResult)
    requires Inv(w) && p in w.procs
    ensures SysOpen(w, p, cloexec, result).Reply? && Inv(SysOpen(w, p, cloexec, result).w)
  {
    hide Inv, ReleaseFd, Prepared;
    var i := AllocFd(w, p);
    if i.Some? {
      PreparedInv(w, p, i.value, cloexec, result);
      ReleaseInv(Prepared(w, p, i.value, cloexec, result), p, i.value);
    }
  }

  /**
   * A successful open puts the new file in the lowest free slot and returns its number; a failing
   * one leaves every table as it was.
   */
  lemma OpenNames(w: World, p: nat, cloexec: bool, result: OpenResult)
    requires Inv(w) && p in w.procs
    ensures var r := SysOpen(w, p, cloexec, result);
            && r.Reply?
            && match AllocFd(w, p)
               case None => r == Reply(w, -EMFILE)
               case Some(i) =>
                 && r.w.kinds == w.kinds[w.nextFile := OpenedKind(result)]
                 && if result.Opened? then
                   && r.ret == i && (forall k | 0 <= k < i :: w.procs[p][k].file.Some?)
                   && r.w.procs == SetSlot(w, p, i, Fd(Some(w.nextFile), cloexec)).procs
                   && w.nextFile in r.w.refcnt && w.nextFile !in w.refcnt
                 else r.ret == result.err && r.w.procs == w.procs
  {
    hide Inv, ReleaseFd, Prepared, SetSlot;
    NewIsNew(w);
    var i := AllocFd(w, p);
    if i.Some? {
      EmptyUnmarked(w, p, i.value);
      PreparedInv(w, p, i.value, cloexec, result);
      var w1 := Prepared(w, p, i.value, cloexec, result);
      if !result.Opened? {
        ReleaseInv(w1, p, i.value);
        SlotRestored(w, w1, p, i.value, Fd(Some(w.nextFile), cloexec));
      }
    }
  }

  lemma SlotRestored(w: World, w1: World, p: nat, i: nat, fd: Fd)
    requires ValidFd(w, p, i) && ValidFd(w1, p, i) && w1.procs == SetSlot(w, p, i, fd).procs
    requires w.procs[p][i] == Fd(None, false)
    ensures SetSlot(w1, p, i, Fd(None, false)).procs == w.procs
  {
    assert w1.procs[p][i := Fd(None, false)] == w.procs[p];
  }

  lemma NewIsNew(w: World)
    requires Inv(w)
    ensures w.nextFile !in w.refcnt
  {
  }

  lemma OpenPipePipes(w: World, r: nat, u: nat)
    requires PipesOk(w) && r in w.refcnt && u in w.refcnt && r != u
    requires r in w.kinds && u in w.kinds && w.kinds[r] == NoHook && w.kinds[u] == NoHook
    ensures PipesOk(OpenPipe(w, r, u))
  {
  }

  lemma OpenPipeInv(w: World, r: nat, u: nat)
    requires Inv(w) && r in w.refcnt && u in w.refcnt && r != u
    requires r in w.kinds && u in w.kinds && w.kinds[r] == NoHook && w.kinds[u] == NoHook
    ensures Inv(OpenPipe(w, r, u))
  {
    hide TablesOk, CountsOk, PipesOk;
    SameTables(w, OpenPipe(w, r, u));
    OpenPipePipes(w, r, u);
  }

  lemma PipeInv(w: World, p: nat, cloexec: bool)
    requires Inv(w) && p in w.procs
    ensures SysPipe(w, p, cloexec).Reply? && Inv(SysPipe(w, p, cloexec).w)
  {
    hide Inv;
    var i1 := AllocFd(w, p);
    if i1.Some? {
      NewFileInv(w, p, i1.value);
      var w1 := NewFile(w, p, i1.value);
      var i2 := AllocFd(w1, p);
      if i2.Some? {
        NewFileInv(w1, p, i2.value);
        var w2 := NewFile(w1, p, i2.value);
        OpenPipeInv(w2, w.nextFile, w1.nextFile);
        var w3 := OpenPipe(w2, w.nextFile, w1.nextFile);
        SetCloexecInv(w3, p, i1.value);
        SetCloexecInv(SetCloexec(w3, p, i1.value), p, i2.value);
      }
    }
  }

  /** The two lowest free slots, which sys_pipe hands out, or none. */
  ghost predicate LowestTwo(fds: seq<Fd>, i: int, j: int) {
    && 0 <= i < j < |fds| && fds[i].file.None? && fds[j].file.None?
    && forall k | 0 <= k < j && k != i :: fds[k].file.Some?
  }

  lemma FirstFree(fds: seq<Fd>, i: nat)
    requires i < |fds| && fds[i].file.None? && forall k | 0 <= k < i :: fds[k].file.Some?
    ensures FreeSlot(fds, 0) == Some(i)
  {
  }

  /** A successful pipe call puts the read end in the lowest free slot and the write end in the next. */
  lemma PipeNames(w: World, p: nat, cloexec: bool, i: nat, j: nat)
    requires Inv(w) && p in w.procs && LowestTwo(w.procs[p], i, j)
    ensures var r := SysPipe(w, p, cloexec);
            && r.Reply? && r.ret == 0
            && r.w.procs == w.procs[p := w.procs[p][i := Fd(Some(w.nextFile), cloexec)]
                                                   [j := Fd(Some(w.nextFile + 1), cloexec)]]
            && w.nextFile in r.w.kinds && r.w.kinds[w.nextFile] == PipeEnd(w.nextPipe, true)
            && w.nextFile + 1 in r.w.kinds && r.w.kinds[w.nextFile + 1] == PipeEnd(w.nextPipe, false)
  {
    hide Inv;
    FirstFree(w.procs[p], i);
    var w1 := NewFile(w, p, i);
    FirstFree(w1.procs[p], j);
    var fds := SysPipe(w, p, cloexec).w.procs[p];
    assert fds == w.procs[p][i := Fd(Some(w.nextFile), cloexec)][j := Fd(Some(w.nextFile + 1), cloexec)];
    assert SysPipe(w, p, cloexec).w.procs == w.procs[p := fds];
  }

  /** With one slot free, the call fails and that slot is lost to a file without operations. */
  lemma PipeLosesSlot(w: World, p: nat, cloexec: bool, i: nat)
    requires Inv(w) && p in w.procs && i < |w.procs[p]| && w.procs[p][i].file.None?
    requires forall k | 0 <= k < |w.procs[p]| && k != i :: w.procs[p][k].file.Some?
    ensures SysPipe(w, p, cloexec) == Reply(NewFile(w, p, i), -EMFILE)
    ensures IsOpen(NewFile(w, p, i), p, i) && NewFile(w, p, i).kinds[w.nextFile] == NoHook
  {
    FirstFree(w.procs[p], i);
  }

  /**
   * A failing sys_pipe leaves the process as it was exactly when no descriptor was free; with
   * one free, that slot is taken by a file nobody can use.
   */
  lemma PipeFailsCleanlyIff(w: World, p: nat, cloexec: bool)
    requires Inv(w) && p in w.procs && SysPipe(w, p, cloexec) != Crash && SysPipe(w, p, cloexec).ret == -EMFILE
    ensures SysPipe(w, p, cloexec).w.procs == w.procs <==>
            forall i | 0 <= i < |w.procs[p]| :: w.procs[p][i].file.Some?
  {
  }

  /** The slot that the loops of sys_exec and sys_exit leave. */
  function Left(fd: Fd, all: bool): Fd {
    if fd.file.Some? && (all || fd.cloexec) then Fd(None, false) else fd
  }

  lemma {:induction false} CloseFromInv(w: World, p: nat, i: nat, all: bool)
    requires Inv(w) && p in w.procs && i <= MAX_FDS && |w.procs[p]| == MAX_FDS
    ensures CloseFrom(w, p, i, all).Some? && Inv(CloseFrom(w, p, i, all).value)
    ensures var w' := CloseFrom(w, p, i, all).value;
            && w'.procs.Keys == w.procs.Keys && |w'.procs[p]| == MAX_FDS && w'.kinds == w.kinds
            && (forall q | q in w.procs && q != p :: w'.procs[q] == w.procs[q])
            && (forall k | 0 <= k < MAX_FDS ::
                  w'.procs[p][k] == if k < i then w.procs[p][k] else Left(w.procs[p][k], all))
    decreases MAX_FDS - i
  {
    hide Inv, ReleaseFd;
    if i < MAX_FDS {
      if w.procs[p][i].file.Some? && (all || w.procs[p][i].cloexec) {
        ReleaseInv(w, p, i);
        CloseFromInv(ReleaseFd(w, p, i).value, p, i + 1, all);
      } else {
        CloseFromInv(w, p, i + 1, all);
      }
    }
  }

  lemma TableSize(w: World, p: nat)
    requires Inv(w) && p in w.procs
    ensures |w.procs[p]| == MAX_FDS
  {
  }

  /** exec closes exactly the descriptors marked close-on-exec. */
  lemma ExecInv(w: World, p: nat)
    requires Inv(w) && p in w.procs
    ensures SysExec(w, p).Reply? && Inv(SysExec(w, p).w)
    ensures p in SysExec(w, p).w.procs && |w.procs[p]| == |SysExec(w, p).w.procs[p]| == MAX_FDS
    ensures forall k | 0 <= k < MAX_FDS ::
              SysExec(w, p).w.procs[p][k] == if w.procs[p][k].cloexec then Fd(None, false) else w.procs[p][k]
    ensures SysExec(w, p).w.procs.Keys == w.procs.Keys && SysExec(w, p).w.kinds == w.kinds
    ensures forall q | q in w.procs && q != p :: SysExec(w, p).w.procs[q] == w.procs[q]
  {
    hide Inv, CloseFrom;
    TableSize(w, p);
    CloseFromInv(w, p, 0, false);
    forall k | 0 <= k < MAX_FDS && w.procs[p][k].file.None? ensures !w.procs[p][k].cloexec { EmptyUnmarked(w, p, k); }
  }

  lemma DropProcInv(w: World, p: nat)
    requires Inv(w) && p in w.procs
    requires forall k | 0 <= k < |w.procs[p]| :: w.procs[p][k].file.None?
    ensures Inv(w.(procs := w.procs - {p}))
  {
    var w' := w.(procs := w.procs - {p});
    forall q: nat, k: nat, f: nat ensures Holds(w', q, k, f) <==> Holds(w, q, k, f) {}
    forall f | Counted(w', f) ensures w'.refcnt[f] == |Holders(w', f)| && w'.refcnt[f] > 0 {
      assert Counted(w, f);
      assert Holders(w', f) == Holders(w, f);
    }
    assert TablesOk(w') by {
      forall q: nat, k: int | ValidFd(w', q, k) ensures w'.procs[q][k].file.None? ==> !w'.procs[q][k].cloexec {
        assert ValidFd(w, q, k);
      }
    }
    hide TablesOk, CountsOk, HistoryOk, PipesOk;
    SameHistory(w, w');
  }

  /** exit takes the process and all its references away, and touches no other table. */
  lemma ExitInv(w: World, p: nat)
    requires Inv(w) && p in w.procs
    ensures SysExit(w, p).Reply? && Inv(SysExit(w, p).w)
    ensures SysExit(w, p).w.procs == w.procs - {p} && SysExit(w, p).w.kinds == w.kinds
  {
    hide Inv, CloseFrom;
    TableSize(w, p);
    CloseFromInv(w, p, 0, true);
    var w1 := CloseFrom(w, p, 0, true).value;
    DropProcInv(w1, p);
    assert w1.procs - {p} == w.procs - {p};
  }

  lemma AddProcInv(w: World, c: nat)
    requires Inv(w) && c !in w.procs
    ensures Inv(w.(procs := w.procs[c := EmptyTable()]))
  {
    var w' := w.(procs := w.procs[c := EmptyTable()]);
    forall q: nat, k: nat, f: nat ensures Holds(w', q, k, f) <==> Holds(w, q, k, f) {}
    forall f | Counted(w', f) ensures w'.refcnt[f] == |Holders(w', f)| && w'.refcnt[f] > 0 {
      assert Counted(w, f);
      assert Holders(w', f) == Holders(w, f);
    }
    assert TablesOk(w') by {
      forall q: nat, k: int | ValidFd(w', q, k) ensures w'.procs[q][k].file.None? ==> !w'.procs[q][k].cloexec {
        assert q != c ==> ValidFd(w, q, k);
      }
    }
    hide TablesOk, CountsOk, HistoryOk, PipesOk;
    SameHistory(w, w');
  }

  lemma ShareProcs(w: World, p: nat, i: nat, f: nat, cloexec: bool)
    requires ValidFd(w, p, i) && f in w.refcnt
    ensures Share(w, p, i, f, cloexec).procs == w.procs[p := w.procs[p][i := Fd(Some(f), cloexec)]]
    ensures Share(w, p, i, f, cloexec).kinds == w.kinds
  {
  }

  /** The child's slots below i as they were, the others as the parent's. */
  ghost predicate Copied(w: World, w': World, p: nat, c: nat, i: nat) {
    && p in w.procs && c in w.procs && |w.procs[p]| == |w.procs[c]| == MAX_FDS
    && w'.procs.Keys == w.procs.Keys && |w'.procs[c]| == MAX_FDS
    && (forall q | q in w.procs && q != c :: w'.procs[q] == w.procs[q]) && w'.kinds == w.kinds
    && (forall k | 0 <= k < MAX_FDS :: w'.procs[c][k] == if k < i then w.procs[c][k] else w.procs[p][k])
  }

  lemma {:induction false} CopyFromInv(w: World, p: nat, c: nat, i: nat)
    requires Inv(w) && p in w.procs && c in w.procs && p != c && i <= MAX_FDS
    requires forall k | i <= k < |w.procs[c]| :: w.procs[c][k] == Fd(None, false)
    ensures CopyFrom(w, p, c, i).Some? && Inv(CopyFrom(w, p, c, i).value)
    ensures Copied(w, CopyFrom(w, p, c, i).value, p, c, i)
    decreases MAX_FDS - i
  {
    hide Inv;
    TableSize(w, p);
    TableSize(w, c);
    if i < MAX_FDS {
      var slot := w.procs[p][i];
      if slot.file.Some? {
        var f := slot.file.value;
        OpenFileCounted(w, p, i);
        ShareInv(w, c, i, f, slot.cloexec);
        ShareProcs(w, c, i, f, slot.cloexec);
        hide Share;
        var w1 := Share(w, c, i, f, slot.cloexec);
        assert CopyFrom(w, p, c, i) == CopyFrom(w1, p, c, i + 1);
        hide CopyFrom;
        CopyFromInv(w1, p, c, i + 1);
        CopiedStep(w, w1, CopyFrom(w1, p, c, i + 1).value, p, c, i);
      } else {
        EmptyUnmarked(w, p, i);
        assert CopyFrom(w, p, c, i) == CopyFrom(w, p, c, i + 1);
        hide CopyFrom;
        CopyFromInv(w, p, c, i + 1);
      }
    }
  }

  lemma CopiedStep(w: World, w1: World, w2: World, p: nat, c: nat, i: nat)
    requires p in w.procs && c in w.procs && p != c && |w.procs[p]| == |w.procs[c]| == MAX_FDS && i < MAX_FDS
    requires w1.procs == w.procs[c := w.procs[c][i := w.procs[p][i]]] && w1.kinds == w.kinds
    requires Copied(w1, w2, p, c, i + 1)
    ensures Copied(w, w2, p, c, i)
  {
  }

  /** The child of a fork has exactly the parent's descriptors, flags included. */
  lemma ForkInv(w: World, p: nat, c: nat)
    requires Inv(w) && p in w.procs && c !in w.procs
    ensures SysFork(w, p, c).Reply? && Inv(SysFork(w, p, c).w)
    ensures SysFork(w, p, c).ret == c && SysFork(w, p, c).w.procs == w.procs[c := w.procs[p]]
    ensures SysFork(w, p, c).w.kinds == w.kinds
  {
    hide Inv, CopyFrom;
    AddProcInv(w, c);
    var w0 := w.(procs := w.procs[c := EmptyTable()]);
    CopyFromInv(w0, p, c, 0);
    var w' := CopyFrom(w0, p, c, 0).value;
    assert w'.procs[c] == w.procs[p];
  }

  // ---------------------------------------------------------------------- runs

  datatype Call =
    | Open(p: nat, cloexec: bool, result: OpenResult)
    | Close(p: nat, fd: int)
    | Dup2(p: nat, fd: int, fd2: int)
    | MakePipe(p: nat, cloexec: bool)
    | Fork(p: nat, c: nat)
    | Exec(p: nat)
    | Exit(p: nat)

  /** A live process calls, and fork gets an unused slot. */
  predicate Enabled(w: World, e: Call) {
    e.p in w.procs && (e.Fork? ==> e.c !in w.procs)
  }

  function Do(w: World, e: Call): Reply
    requires Enabled(w, e)
  {
    match e
    case Open(p, cloexec, result) => SysOpen(w, p, cloexec, result)
    case Close(p, fd) => SysClose(w, p, fd)
    case Dup2(p, fd, fd2) => SysDup2(w, p, fd, fd2)
    case MakePipe(p, cloexec) => SysPipe(w, p, cloexec)
    case Fork(p, c) => SysFork(w, p, c)
    case Exec(p) => SysExec(w, p)
    case Exit(p) => SysExit(w, p)
  }

  lemma DoInv(w: World, e: Call)
    requires Inv(w) && Enabled(w, e)
    ensures Do(w, e).Reply? && Inv(Do(w, e).w)
  {
    hide Inv, SysOpen, SysClose, SysDup2, SysPipe, SysFork, SysExec, SysExit;
    match e
    case Open(p, cloexec, result) => OpenInv(w, p, cloexec, result);
    case Close(p, fd) => CloseInv(w, p, fd);
    case Dup2(p, fd, fd2) => Dup2Inv(w, p, fd, fd2);
    case MakePipe(p, cloexec) => PipeInv(w, p, cloexec);
    case Fork(p, c) => ForkInv(w, p, c);
    case Exec(p) => ExecInv(w, p);
    case Exit(p) => ExitInv(w, p);
  }

  /** What a file is, and so whether its last close runs a hook, is settled once it has been made. */
  lemma KindsAreFixed(w: World, e: Call, f: nat)
    requires Inv(w) && Enabled(w, e) && f in w.kinds
    ensures Do(w, e).Reply? && f in Do(w, e).w.kinds && Do(w, e).w.kinds[f] == w.kinds[f]
  {
    OldFile(w, f);
    hide Inv, SysOpen, SysClose, SysDup2, SysPipe, SysFork, SysExec, SysExit, SetSlot, Left;
    match e
    case Open(p, cloexec, result) => OpenKinds(w, p, cloexec, result, f);
    case Close(p, fd) => CloseInv(w, p, fd);
    case Dup2(p, fd, fd2) => Dup2Inv(w, p, fd, fd2);
    case MakePipe(p, cloexec) => PipeKinds(w, p, cloexec, f);
    case Fork(p, c) => ForkInv(w, p, c);
    case Exec(p) => ExecInv(w, p);
    case Exit(p) => ExitInv(w, p);
  }

  lemma OpenKinds(w: World, p: nat, cloexec: bool, result: OpenResult, f: nat)
    requires Inv(w) && p in w.procs && f in w.kinds && f < w.nextFile
    ensures var r := SysOpen(w, p, cloexec, result); r.Reply? && f in r.w.kinds && r.w.kinds[f] == w.kinds[f]
  {
    hide Inv, SysOpen, SetSlot;
    OpenNames(w, p, cloexec, result);
  }

  lemma PipeKinds(w: World, p: nat, cloexec: bool, f: nat)
    requires p in w.procs && f in w.kinds && f < w.nextFile
    ensures var r := SysPipe(w, p, cloexec); r.Reply? && f in r.w.kinds && r.w.kinds[f] == w.kinds[f]
  {
  }

  lemma OldFile(w: World, f: nat)
    requires Inv(w) && f in w.kinds
    ensures f < w.nextFile
  {
  }

  /** The first process, with no descriptors. */
  function Boot(p: nat): World {
    World(map[p := EmptyTable()], map[], map[], map[], map[], 0, 0)
  }

  ghost predicate Run(p0: nat, calls: seq<Call>, worlds: seq<World>) {
    && |worlds| == |calls| + 1 && worlds[0] == Boot(p0)
    && forall k: nat | k < |calls| :: CallAt(calls, worlds, k)
  }

  ghost predicate CallAt(calls: seq<Call>, worlds: seq<World>, k: nat)
    requires k < |calls| && |worlds| == |calls| + 1
  {
    Enabled(worlds[k], calls[k]) && Do(worlds[k], calls[k]).Reply? && Do(worlds[k], calls[k]).w == worlds[k + 1]
  }

  lemma {:induction false} RunInv(p0: nat, calls: seq<Call>, worlds: seq<World>, k: nat)
    requires Run(p0, calls, worlds) && k <= |calls|
    ensures Inv(worlds[k])
  {
    if k == 0 {
      BootInv(p0);
    } else {
      hide Inv, Do;
      RunInv(p0, calls, worlds, k - 1);
      assert CallAt(calls, worlds, k - 1);
      DoInv(worlds[k - 1], calls[k - 1]);
    }
  }

  lemma BootInv(p0: nat)
    ensures Inv(Boot(p0))
  {
  }

  /**
   * In every run, each file's count is the number of descriptor slots that point at it, no
   * file is kept or lost, and no call trips an assertion of release_fd.
   */
  lemma CountsAreReferences(p0: nat, calls: seq<Call>, worlds: seq<World>, k: nat, f: nat)
    requires Run(p0, calls, worlds) && k <= |calls|
    ensures var w := worlds[k];
            && (f in w.refcnt <==> Holders(w, f) != {})
            && (f in w.refcnt ==> w.refcnt[f] == |Holders(w, f)|)
    ensures forall e | Enabled(worlds[k], e) :: Do(worlds[k], e).Reply?
  {
    RunInv(p0, calls, worlds, k);
    var w := worlds[k];
    if f in w.refcnt {
      assert Counted(w, f);
    } else {
      NoHolders(w, f);
    }
    hide Inv, Do, Holders;
    forall e | Enabled(w, e) ensures Do(w, e).Reply? { DoInv(w, e); }
  }

  /** A file's close hook has run exactly once when the last reference is gone, and never before. */
  lemma HookRunsOnce(p0: nat, calls: seq<Call>, worlds: seq<World>, k: nat, f: nat)
    requires Run(p0, calls, worlds) && k <= |calls| && f < worlds[k].nextFile
    ensures var w := worlds[k];
            && f in w.closes && f in w.kinds
            && (Holders(w, f) != {} ==> w.closes[f] == 0)
            && (Holders(w, f) == {} && w.kinds[f] != NoHook ==> w.closes[f] == 1)
  {
    RunInv(p0, calls, worlds, k);
    CountsAreReferences(p0, calls, worlds, k, f);
  }

  ghost predicate SomeoneHolds(w: World, q: nat, readEnd: bool) {
    exists p, i, f :: Holds(w, p, i, f) && f in w.kinds && w.kinds[f] == PipeEnd(q, readEnd)
  }

  /**
   * A pipe's write end is open exactly while some process holds a descriptor for it, and
   * likewise its read end; the closing section of an end has run once when nobody holds that
   * end any more, and never before.
   */
  lemma EndsOpenWhileHeld(p0: nat, calls: seq<Call>, worlds: seq<World>, k: nat, q: nat)
    requires Run(p0, calls, worlds) && k <= |calls| && q in worlds[k].pipes
    ensures var w := worlds[k];
            var o := w.pipes[q];
            && (o.owrite <==> SomeoneHolds(w, q, false))
            && (o.oread <==> SomeoneHolds(w, q, true))
            && o.rfile in w.closes && w.closes[o.rfile] == (if o.oread then 0 else 1)
            && o.wfile in w.closes && w.closes[o.wfile] == (if o.owrite then 0 else 1)
  {
    RunInv(p0, calls, worlds, k);
    var w := worlds[k];
    assert PipeOk(w, q);
    EndHeld(w, q, true);
    EndHeld(w, q, false);
  }

  lemma EndHeld(w: World, q: nat, readEnd: bool)
    requires Inv(w) && q in w.pipes && PipeOk(w, q)
    ensures SomeoneHolds(w, q, readEnd) <==> (if readEnd then w.pipes[q].rfile else w.pipes[q].wfile) in w.refcnt
  {
  }
}
