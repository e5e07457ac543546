/**
 * Descriptor tables and file reference counts of kernel/proc.c and kernel/syscall.c, and
 * the pipe ends that hang on them. Every system call is one step.
 */
module Descriptors {
  import opened Common

  const MAX_FDS: nat := 16

  datatype Fd = Fd(file: Option<nat>, cloexec: bool)

  /** The close hook a file has: none (yet), that of a device or file system, or that of a pipe end. */
  datatype Kind = NoHook | Hooked | PipeEnd(q: nat, readEnd: bool)

  /** One pipe: its two files and its two flags. */
  datatype PipeObj = PipeObj(rfile: nat, wfile: nat, oread: bool, owrite: bool)

  /**
   * `refcnt` has the files in memory. `kinds` and `closes` remember, for every file ever
   * made, what it was and how often its close hook ran.
   */
  datatype World = World(
    procs: map<nat, seq<Fd>>,
    refcnt: map<nat, int>,
    kinds: map<nat, Kind>,
    closes: map<nat, nat>,
    pipes: map<nat, PipeObj>,
    nextFile: nat,
    nextPipe: nat)

  // -------------------------------------------------------------- small steps

  predicate ValidFd(w: World, p: nat, i: int) {
    p in w.procs && 0 <= i < |w.procs[p]|
  }

  function SetSlot(w: World, p: nat, i: nat, fd: Fd): World
    requires ValidFd(w, p, i)
  {
    w.(procs := w.procs[p := w.procs[p][i := fd]])
  }

  /** The locked section of pclose marks the end closed; the test for freeing comes after it. */
  function ClosePipe(o: PipeObj, readEnd: bool): PipeObj {
    if readEnd then o.(oread := false) else o.(owrite := false)
  }

  /** The close hook of a file, if it has one. */
  function RunHook(w: World, f: nat): World {
    if f !in w.kinds || f !in w.closes || w.kinds[f] == NoHook then w
    else
      var w1 := w.(closes := w.closes[f := w.closes[f] + 1]);
      match w.kinds[f]
      case PipeEnd(q, readEnd) =>
        if q in w.pipes then w1.(pipes := w.pipes[q := ClosePipe(w.pipes[q], readEnd)]) else w1
      case _ => w1
  }

  /** release_fd; None where one of its assertions fails. */
  function ReleaseFd(w: World, p: nat, i: nat): Option<World>
    requires ValidFd(w, p, i)
  {
    var slot := w.procs[p][i];
    if slot.file.None? || slot.file.value !in w.refcnt || w.refcnt[slot.file.value] == 0 then None
    else
      var f := slot.file.value;
      var w1 := w.(refcnt := w.refcnt[f := w.refcnt[f] - 1]);
      var w2 := if w1.refcnt[f] == 0 then RunHook(w1, f).(refcnt := w1.refcnt - {f}) else w1;
      if !ValidFd(w2, p, i) then None else Some(SetSlot(w2, p, i, Fd(None, false)))
  }

  /** The first empty slot from i on. */
  function FreeSlot(fds: seq<Fd>, i: nat): (r: Option<nat>)
    requires i <= |fds|
    ensures r.Some? ==>
              && i <= r.value < |fds| && fds[r.value].file.None?
              && forall k | i <= k < r.value :: fds[k].file.Some?
    ensures r.None? ==> forall k | i <= k < |fds| :: fds[k].file.Some?
    decreases |fds| - i
  {
    if i == |fds| then None else if fds[i].file.None? then Some(i) else FreeSlot(fds, i + 1)
  }

  /** alloc_fd once a slot is found: a zeroed file with one reference. */
  function NewFile(w: World, p: nat, i: nat): World
    requires ValidFd(w, p, i)
  {
    var f := w.nextFile;
    SetSlot(w, p, i, Fd(Some(f), false)).(
      refcnt := w.refcnt[f := 1], kinds := w.kinds[f := NoHook], closes := w.closes[f := 0], nextFile := f + 1)
  }

  /** Another slot for file f: dup_fd and the pointer copy. */
  function Share(w: World, p: nat, i: nat, f: nat, cloexec: bool): World
    requires ValidFd(w, p, i) && f in w.refcnt
  {
    SetSlot(w, p, i, Fd(Some(f), cloexec)).(refcnt := w.refcnt[f := w.refcnt[f] + 1])
  }

  // ----------------------------------------------------------------- invariant

  predicate Holds(w: World, p: nat, i: nat, f: nat) {
    p in w.procs && i < |w.procs[p]| && w.procs[p][i].file == Some(f)
  }

  /** The descriptor slots, in all processes, that point at file f. */
  ghost function Holders(w: World, f: nat): set<(nat, nat)> {
    set p, i: nat | p in w.procs && i < |w.procs[p]| && Holds(w, p, i, f) :: (p, i)
  }

  ghost predicate TablesOk(w: World) {
    && (forall p | p in w.procs :: |w.procs[p]| == MAX_FDS)
    && (forall p, i | ValidFd(w, p, i) :: w.procs[p][i].file.None? ==> !w.procs[p][i].cloexec)
    && (forall p, i, f | Holds(w, p, i, f) :: f in w.refcnt)
  }

  predicate Counted(w: World, f: nat) {
    f in w.refcnt
  }

  ghost predicate CountsOk(w: World) {
    forall f | Counted(w, f) :: w.refcnt[f] == |Holders(w, f)| && w.refcnt[f] > 0
  }

  /** The hook of a file runs once, when the file goes; files without a hook have none. */
  ghost predicate HistoryOk(w: World) {
    && (forall f | f in w.refcnt :: f < w.nextFile)
    && (forall f: nat | f < w.nextFile :: f in w.kinds && f in w.closes)
    && (forall f | f in w.kinds :: f < w.nextFile)
    && (forall f: nat | f < w.nextFile ::
          w.closes[f] == if f in w.refcnt || w.kinds[f] == NoHook then 0 else 1)
  }

  ghost predicate PipeOk(w: World, q: nat)
    requires q in w.pipes
  {
    var o := w.pipes[q];
    && o.rfile in w.kinds && w.kinds[o.rfile] == PipeEnd(q, true)
    && o.wfile in w.kinds && w.kinds[o.wfile] == PipeEnd(q, false)
    && (o.oread <==> o.rfile in w.refcnt) && (o.owrite <==> o.wfile in w.refcnt)
  }

  ghost predicate PipesOk(w: World) {
    && (forall q | q in w.pipes :: q < w.nextPipe && PipeOk(w, q))
    && (forall f | f in w.kinds && w.kinds[f].PipeEnd? ::
          var q := w.kinds[f].q;
          q in w.pipes && f == if w.kinds[f].readEnd then w.pipes[q].rfile else w.pipes[q].wfile)
  }

  ghost predicate Inv(w: World) {
    TablesOk(w) && CountsOk(w) && HistoryOk(w) && PipesOk(w)
  }

  lemma SetSlotHolders(w: World, p: nat, i: nat, fd: Fd, f: nat)
    requires ValidFd(w, p, i)
    ensures Holders(SetSlot(w, p, i, fd), f) ==
            (Holders(w, f) - {(p, i)}) + (if fd.file == Some(f) then {(p, i)} else {})
    ensures (p, i) in Holders(w, f) <==> w.procs[p][i].file == Some(f)
  {
  }

  lemma HoldersOnlyTables(w: World, w': World, f: nat)
    requires w'.procs == w.procs
    ensures Holders(w', f) == Holders(w, f)
  {
  }

  // ------------------------------------------------------------ steps are sound

  lemma NewFileHolders(w: World, p: nat, i: nat, f: nat)
    requires TablesOk(w) && w.nextFile !in w.refcnt && ValidFd(w, p, i) && w.procs[p][i].file.None?
    ensures |Holders(NewFile(w, p, i), f)| == if f == w.nextFile then 1 else |Holders(w, f)|
  {
    var fd := Fd(Some(w.nextFile), false);
    SetSlotHolders(w, p, i, fd, f);
    HoldersOnlyTables(SetSlot(w, p, i, fd), NewFile(w, p, i), f);
    if f == w.nextFile { NoHolders(w, f); }
    hide Holders, Holds, TablesOk;
    assert Holders(w, f) - {(p, i)} == Holders(w, f);
  }

  lemma NewFileCounts(w: World, p: nat, i: nat)
    requires TablesOk(w) && CountsOk(w) && HistoryOk(w) && ValidFd(w, p, i) && w.procs[p][i].file.None?
    ensures CountsOk(NewFile(w, p, i))
  {
    hide Holders, Holds;
    var w' := NewFile(w, p, i);
    forall f | Counted(w', f) ensures w'.refcnt[f] == |Holders(w', f)| && w'.refcnt[f] > 0 {
      NewFileHolders(w, p, i, f);
      if f != w.nextFile { assert Counted(w, f); }
    }
  }

  lemma NoHolders(w: World, f: nat)
    requires TablesOk(w) && f !in w.refcnt
    ensures Holders(w, f) == {}
  {
  }

  lemma NewFileHistory(w: World, p: nat, i: nat)
    requires HistoryOk(w) && PipesOk(w) && ValidFd(w, p, i)
    ensures HistoryOk(NewFile(w, p, i)) && PipesOk(NewFile(w, p, i))
  {
    var w' := NewFile(w, p, i);
    forall q | q in w'.pipes ensures PipeOk(w', q) { assert PipeOk(w, q); }
  }

  lemma NewFileInv(w: World, p: nat, i: nat)
    requires Inv(w) && ValidFd(w, p, i) && w.procs[p][i].file.None?
    ensures Inv(NewFile(w, p, i))
  {
    hide TablesOk, CountsOk, HistoryOk, PipesOk, NewFile;
    NewFileTables(w, p, i);
    NewFileCounts(w, p, i);
    NewFileHistory(w, p, i);
  }

  lemma NewFileTables(w: World, p: nat, i: nat)
    requires TablesOk(w) && ValidFd(w, p, i)
    ensures TablesOk(NewFile(w, p, i))
  {
    var w' := NewFile(w, p, i);
    forall q: nat, k: nat, f: nat | Holds(w', q, k, f) ensures f in w'.refcnt {
      if (q, k) != (p, i) { assert Holds(w, q, k, f); }
    }
    forall q: nat, k: int | ValidFd(w', q, k) ensures w'.procs[q][k].file.None? ==> !w'.procs[q][k].cloexec {
      assert ValidFd(w, q, k);
    }
  }

  lemma ShareCounts(w: World, p: nat, i: nat, f: nat, cloexec: bool)
    requires CountsOk(w) && ValidFd(w, p, i) && w.procs[p][i].file.None? && f in w.refcnt
    ensures CountsOk(Share(w, p, i, f, cloexec))
  {
    var w' := Share(w, p, i, f, cloexec);
    var fd := Fd(Some(f), cloexec);
    forall g | Counted(w', g) ensures w'.refcnt[g] == |Holders(w', g)| && w'.refcnt[g] > 0 {
      SetSlotHolders(w, p, i, fd, g);
      HoldersOnlyTables(SetSlot(w, p, i, fd), w', g);
      hide Holders;
      assert Counted(w, g);
      assert Holders(w, g) - {(p, i)} == Holders(w, g);
      if g == f { assert |Holders(w, g) + {(p, i)}| == |Holders(w, g)| + 1; }
    }
  }

  lemma ShareTables(w: World, p: nat, i: nat, f: nat, cloexec: bool)
    requires TablesOk(w) && ValidFd(w, p, i) && f in w.refcnt
    ensures TablesOk(Share(w, p, i, f, cloexec))
  {
    var w' := Share(w, p, i, f, cloexec);
    forall q: nat, k: nat, g: nat | Holds(w', q, k, g) ensures g in w'.refcnt {
      if (q, k) != (p, i) { assert Holds(w, q, k, g); }
    }
    forall q: nat, k: int | ValidFd(w', q, k) ensures w'.procs[q][k].file.None? ==> !w'.procs[q][k].cloexec {
      assert ValidFd(w, q, k);
    }
  }

  lemma ShareInv(w: World, p: nat, i: nat, f: nat, cloexec: bool)
    requires Inv(w) && ValidFd(w, p, i) && w.procs[p][i].file.None? && f in w.refcnt
    ensures Inv(Share(w, p, i, f, cloexec))
  {
    hide TablesOk, CountsOk, HistoryOk, PipesOk;
    ShareTables(w, p, i, f, cloexec);
    ShareCounts(w, p, i, f, cloexec);
    SameHistory(w, Share(w, p, i, f, cloexec));
  }

  // release_fd, in two cases

  lemma ReleaseTables(w: World, w': World, p: nat, i: nat)
    requires TablesOk(w) && ValidFd(w, p, i) && w.procs[p][i].file.Some?
    requires w'.procs == SetSlot(w, p, i, Fd(None, false)).procs
    requires forall f | f in w.refcnt :: f in w'.refcnt || Holders(w, f) <= {(p, i)}
    ensures TablesOk(w')
  {
    forall q: nat, k: nat, f: nat | Holds(w', q, k, f) ensures f in w'.refcnt {
      assert (q, k) != (p, i) && Holds(w, q, k, f);
      assert (q, k) in Holders(w, f);
    }
    forall q: nat, k: int | ValidFd(w', q, k) ensures w'.procs[q][k].file.None? ==> !w'.procs[q][k].cloexec {
      assert ValidFd(w, q, k);
    }
  }

  lemma ReleaseHolders(w: World, w': World, p: nat, i: nat, f: nat, g: nat)
    requires ValidFd(w, p, i) && w.procs[p][i].file == Some(f)
    requires w'.procs == SetSlot(w, p, i, Fd(None, false)).procs
    ensures Holders(w', g) == if g == f then Holders(w, g) - {(p, i)} else Holders(w, g)
    ensures |Holders(w', g)| == if g == f then |Holders(w, g)| - 1 else |Holders(w, g)|
    ensures (p, i) in Holders(w, f)
  {
  }

  lemma ReleaseCounts(w: World, w': World, p: nat, i: nat, f: nat)
    requires CountsOk(w) && ValidFd(w, p, i) && w.procs[p][i].file == Some(f) && f in w.refcnt
    requires w'.procs == SetSlot(w, p, i, Fd(None, false)).procs
    requires w'.refcnt == if w.refcnt[f] == 1 then w.refcnt - {f} else w.refcnt[f := w.refcnt[f] - 1]
    ensures CountsOk(w')
    ensures w.refcnt[f] == 1 ==> Holders(w, f) <= {(p, i)}
  {
    hide Holders, Holds;
    assert Counted(w, f);
    ReleaseHolders(w, w', p, i, f, f);
    forall g | Counted(w', g) ensures w'.refcnt[g] == |Holders(w', g)| && w'.refcnt[g] > 0 {
      assert Counted(w, g);
      ReleaseHolders(w, w', p, i, f, g);
    }
    if w.refcnt[f] == 1 {
      assert Holders(w, f) - {(p, i)} == {};
    }
  }

  /** What the hook leaves behind, for a file it has not run on. */
  lemma HookEffect(w: World, f: nat)
    requires HistoryOk(w) && PipesOk(w) && f in w.refcnt
    ensures f in w.kinds && f in w.closes && w.closes[f] == 0
    ensures var w1 := RunHook(w, f);
            && w1 == w.(closes := w1.closes, pipes := w1.pipes)
            && w1.closes == (if w.kinds[f] == NoHook then w.closes else w.closes[f := 1])
            && (w.kinds[f].PipeEnd? ==> w.kinds[f].q in w.pipes)
            && w1.pipes == (if w.kinds[f].PipeEnd?
                            then w.pipes[w.kinds[f].q := ClosePipe(w.pipes[w.kinds[f].q], w.kinds[f].readEnd)]
                            else w.pipes)
  {
  }

  lemma HookHistory(w: World, w': World, f: nat)
    requires HistoryOk(w) && PipesOk(w) && f in w.refcnt
    requires w' == RunHook(w, f).(procs := w'.procs, refcnt := w.refcnt - {f})
    ensures HistoryOk(w')
  {
    HookEffect(w, f);
    hide PipesOk, RunHook;
  }

  lemma HookPipes(w: World, w': World, f: nat)
    requires HistoryOk(w) && PipesOk(w) && f in w.refcnt
    requires w' == RunHook(w, f).(procs := w'.procs, refcnt := w.refcnt - {f})
    ensures PipesOk(w')
  {
    HookEffect(w, f);
    hide HistoryOk, RunHook;
    forall q | q in w'.pipes ensures q < w'.nextPipe && PipeOk(w', q) {
      assert PipeOk(w, q);
      if w.kinds[f].PipeEnd? && w.kinds[f].q == q {
        ClosedEnd(w, w', f, q);
      }
    }
  }

  lemma ClosedEnd(w: World, w': World, f: nat, q: nat)
    requires q in w.pipes && PipeOk(w, q) && f in w.refcnt && f in w.kinds && w.kinds[f].PipeEnd? && w.kinds[f].q == q
    requires f == if w.kinds[f].readEnd then w.pipes[q].rfile else w.pipes[q].wfile
    requires w'.kinds == w.kinds && w'.refcnt == w.refcnt - {f}
    requires q in w'.pipes && w'.pipes[q] == ClosePipe(w.pipes[q], w.kinds[f].readEnd)
    ensures PipeOk(w', q)
  {
  }

  /** release_fd of an open descriptor never trips an assertion and keeps all counts exact. */
  lemma ReleaseInv(w: World, p: nat, i: nat)
    requires Inv(w) && ValidFd(w, p, i) && w.procs[p][i].file.Some?
    ensures ReleaseFd(w, p, i).Some? && Inv(ReleaseFd(w, p, i).value)
    ensures ReleaseFd(w, p, i).value.procs == SetSlot(w, p, i, Fd(None, false)).procs
    ensures ReleaseFd(w, p, i).value.kinds == w.kinds
  {
    hide CountsOk, HistoryOk, PipesOk;
    var f := w.procs[p][i].file.value;
    assert Holds(w, p, i, f);
    CountAt(w, f);
    var w' := ReleaseFd(w, p, i).value;
    HookTables(w.(refcnt := w.refcnt[f := w.refcnt[f] - 1]), f);
    ReleaseCounts(w, w', p, i, f);
    ReleaseTables(w, w', p, i);
    if w.refcnt[f] == 1 {
      HookIgnoresCounts(w, w.refcnt[f := w.refcnt[f] - 1], f);
      HookHistory(w, w', f);
      HookPipes(w, w', f);
    } else {
      SameHistory(w, w');
    }
  }

  lemma CountAt(w: World, f: nat)
    requires CountsOk(w) && f in w.refcnt
    ensures w.refcnt[f] > 0
  {
  }

  lemma HookTables(w: World, f: nat)
    ensures RunHook(w, f).procs == w.procs
  {
  }

  lemma HookIgnoresCounts(w: World, refcnt: map<nat, int>, f: nat)
    ensures RunHook(w.(refcnt := refcnt), f).(refcnt := w.refcnt) == RunHook(w, f)
  {
  }

  lemma SameHistory(w: World, w': World)
    requires HistoryOk(w) && PipesOk(w)
    requires w' == w.(procs := w'.procs, refcnt := w'.refcnt) && w'.refcnt.Keys == w.refcnt.Keys
    ensures HistoryOk(w') && PipesOk(w')
  {
  }
}
