/**
 * Any number of processes on one pipe. Each pipe-lock critical section, each round of
 * cond_wait and each unlocked test is one step, in any order.
 */
module PipeRuns {
  import opened Common
  import opened Sync
  import opened Pipe

  /** Where a process is inside pread or pwrite. */
  datatype Phase =
    | Idle
    | ReadTop(want: nat, got: seq<Byte>)        // about to take the lock
    | ReadPend(want: nat, got: seq<Byte>)       // lock released, about to test rcond
    | ReadSleep(want: nat, got: seq<Byte>)      // asleep on rcond
    | ReadDone(asked: nat, got: seq<Byte>)      // returned |got|
    | WriteTop(left: seq<Byte>, asked: nat)     // about to test oread
    | WriteIn(left: seq<Byte>, asked: nat)      // about to take the lock
    | WritePend(left: seq<Byte>, asked: nat)    // lock released, about to test wcond
    | WriteSleep(left: seq<Byte>, asked: nat)   // asleep on wcond
    | WriteDone(asked: nat, wrote: int)         // returned wrote
  {
    predicate Reading() { ReadTop? || ReadPend? || ReadSleep? }
    predicate Writing() { WriteTop? || WriteIn? || WritePend? || WriteSleep? }
    predicate Resting() { Idle? || ReadDone? || WriteDone? }
  }

  /** Whether the closer of an end has made its test for freeing the pipe, and how often it was freed. */
  datatype Teardown = Teardown(rtested: bool, wtested: bool, frees: nat)

  /** `put` and `taken` record all bytes in critical-section order. */
  datatype State = State(
    ring: seq<Byte>,
    oread: bool,
    owrite: bool,
    down: Teardown,
    rcond: Sem,
    wcond: Sem,
    phase: map<nat, Phase>,
    put: seq<Byte>,
    taken: seq<Byte>)

  datatype Event =
    | BeginRead(p: nat, n: nat)
    | ReadSection(p: nat)
    | ReadWait(p: nat)
    | BeginWrite(p: nat, bytes: seq<Byte>)
    | WriteTest(p: nat)
    | WriteSection(p: nat)
    | WriteWait(p: nat)
    | CloseRead
    | TestRead
    | CloseWrite
    | TestWrite

  // ------------------------------------------------------------------- effects

  function Woken(f: Phase): Phase {
    match f
    case ReadSleep(want, got) => ReadPend(want, got)
    case WriteSleep(left, asked) => WritePend(left, asked)
    case _ => f
  }

  /** cond_wake: the waiters it satisfies go back to testing the condition. */
  function Rouse(phase: map<nat, Phase>, m: Sem): map<nat, Phase> {
    map p | p in phase :: if Satisfied(m.lst, Raised(m.count, 0), p) then Woken(phase[p]) else phase[p]
  }

  function Raise(m: Sem): Sem {
    Sem(Raised(m.count, 0), Keep(m.lst, Raised(m.count, 0), []))
  }

  function WakeReaders(s: State): State {
    s.(rcond := Raise(s.rcond), phase := Rouse(s.phase, s.rcond))
  }

  function WakeWriters(s: State): State {
    s.(wcond := Raise(s.wcond), phase := Rouse(s.phase, s.wcond))
  }

  /** A process works on a pipe end only while that end is open. */
  ghost predicate Enabled(s: State, e: Event) {
    match e
    case BeginRead(p, _) => p in s.phase && s.phase[p].Resting() && s.oread
    case BeginWrite(p, _) => p in s.phase && s.phase[p].Resting() && s.owrite
    case ReadSection(p) => p in s.phase && s.phase[p].ReadTop?
    case ReadWait(p) => p in s.phase && s.phase[p].ReadPend?
    case WriteTest(p) => p in s.phase && s.phase[p].WriteTop?
    case WriteSection(p) => p in s.phase && s.phase[p].WriteIn?
    case WriteWait(p) => p in s.phase && s.phase[p].WritePend?
    case CloseRead => s.oread && forall p | p in s.phase :: !s.phase[p].Reading()
    case CloseWrite => s.owrite && forall p | p in s.phase :: !s.phase[p].Writing()
    case TestRead => !s.oread && !s.down.rtested
    case TestWrite => !s.owrite && !s.down.wtested
  }

  /** The end of pclose, after the pipe lock is dropped: the pipe is freed if both ends are closed. */
  function Freed(s: State): nat {
    if !s.oread && !s.owrite then s.down.frees + 1 else s.down.frees
  }

  function DoReadSection(s: State, p: nat): State
    requires p in s.phase && s.phase[p].ReadTop?
  {
    var f := s.phase[p];
    var k := Min(f.want, |s.ring|);
    var got := f.got + s.ring[..k];
    var s1 := s.(ring := s.ring[k..], taken := s.taken + s.ring[..k]);
    var s2 := if |s1.ring| < CAPACITY then WakeWriters(s1) else s1;
    s2.(phase := s2.phase[p :=
      if (!s.owrite && s1.ring == []) || f.want == k then ReadDone(|f.got| + f.want, got)
      else ReadPend(f.want - k, got)])
  }

  function DoWriteSection(s: State, p: nat): State
    requires p in s.phase && s.phase[p].WriteIn? && |s.ring| <= CAPACITY
  {
    var f := s.phase[p];
    var k := Min(|f.left|, CAPACITY - |s.ring|);
    var s1 := s.(ring := s.ring + f.left[..k], put := s.put + f.left[..k]);
    var s2 := if s1.ring != [] then WakeReaders(s1) else s1;
    s2.(phase := s2.phase[p :=
      if k == |f.left| then WriteDone(f.asked, f.asked) else WritePend(f.left[k..], f.asked)])
  }

  /** One round of cond_wait on rcond. */
  function DoReadWait(s: State, p: nat): State
    requires p in s.phase && s.phase[p].ReadPend?
  {
    var f := s.phase[p];
    if s.rcond.count >= 1 then
      s.(rcond := s.rcond.(count := s.rcond.count - 1), phase := s.phase[p := ReadTop(f.want, f.got)])
    else
      s.(rcond := s.rcond.(lst := [Waiter(p, 1)] + s.rcond.lst), phase := s.phase[p := ReadSleep(f.want, f.got)])
  }

  function DoWriteWait(s: State, p: nat): State
    requires p in s.phase && s.phase[p].WritePend?
  {
    var f := s.phase[p];
    if s.wcond.count >= 1 then
      s.(wcond := s.wcond.(count := s.wcond.count - 1), phase := s.phase[p := WriteTop(f.left, f.asked)])
    else
      s.(wcond := s.wcond.(lst := [Waiter(p, 1)] + s.wcond.lst), phase := s.phase[p := WriteSleep(f.left, f.asked)])
  }

  function Exec(s: State, e: Event): State
    requires Enabled(s, e) && |s.ring| <= CAPACITY
  {
    match e
    case BeginRead(p, n) => s.(phase := s.phase[p := if n == 0 then ReadDone(0, []) else ReadTop(n, [])])
    case BeginWrite(p, bytes) =>
      s.(phase := s.phase[p := if bytes == [] then WriteDone(0, 0) else WriteTop(bytes, |bytes|)])
    case ReadSection(p) => DoReadSection(s, p)
    case ReadWait(p) => DoReadWait(s, p)
    case WriteTest(p) =>
      var f := s.phase[p];
      s.(phase := s.phase[p := if !s.oread then WriteDone(f.asked, f.asked - |f.left|) else WriteIn(f.left, f.asked)])
    case WriteSection(p) => DoWriteSection(s, p)
    case WriteWait(p) => DoWriteWait(s, p)
    case CloseRead => WakeReaders(WakeWriters(s.(oread := false)))
    case CloseWrite => WakeReaders(WakeWriters(s.(owrite := false)))
    case TestRead => s.(down := s.down.(rtested := true, frees := Freed(s)))
    case TestWrite => s.(down := s.down.(wtested := true, frees := Freed(s)))
  }

  // ----------------------------------------------------------------- invariant

  /** The waiters of rcond are exactly the readers asleep, and then its count is zero. */
  ghost predicate ReadersListed(s: State) {
    && s.rcond.count <= 1 && (s.rcond.lst != [] ==> s.rcond.count == 0)
    && (forall w | w in s.rcond.lst :: w.needed == 1 && w.pid in s.phase && s.phase[w.pid].ReadSleep?)
    && (forall p | p in s.phase && s.phase[p].ReadSleep? :: Waiter(p, 1) in s.rcond.lst)
  }

  ghost predicate WritersListed(s: State) {
    && s.wcond.count <= 1 && (s.wcond.lst != [] ==> s.wcond.count == 0)
    && (forall w | w in s.wcond.lst :: w.needed == 1 && w.pid in s.phase && s.phase[w.pid].WriteSleep?)
    && (forall p | p in s.phase && s.phase[p].WriteSleep? :: Waiter(p, 1) in s.wcond.lst)
  }

  /** What holds of one process, whatever the others do. */
  predicate PhaseOk(s: State, f: Phase) {
    && (f.Reading() ==> s.oread && f.want > 0)
    && (f.Writing() ==> s.owrite && f.left != [] && |f.left| <= f.asked)
    && (f.ReadDone? ==> |f.got| <= f.asked && (|f.got| < f.asked ==> !s.owrite && s.ring == []))
    && (f.WriteDone? ==> 0 <= f.wrote <= f.asked && (f.wrote < f.asked ==> !s.oread))
  }

  ghost predicate Inv(s: State) {
    && |s.ring| <= CAPACITY && s.taken + s.ring == s.put
    && ReadersListed(s) && WritersListed(s) && PhasesOk(s)
  }

  ghost predicate PhasesOk(s: State) {
    forall p | p in s.phase :: PhaseOk(s, s.phase[p])
  }

  lemma {:induction false} KeepNone(lst: seq<Waiter>, onto: seq<Waiter>)
    requires forall w | w in lst :: w.needed == 1
    ensures Keep(lst, 1, onto) == onto
  {
    if lst != [] {
      assert lst[0] in lst;
      KeepNone(lst[1..], onto);
    }
  }

  function AwakeReader(f: Phase): Phase { if f.ReadSleep? then ReadPend(f.want, f.got) else f }
  function AwakeWriter(f: Phase): Phase { if f.WriteSleep? then WritePend(f.left, f.asked) else f }

  /** cond_wake on rcond wakes every sleeping reader and leaves the condition raised. */
  lemma WakeReadersAll(s: State)
    requires ReadersListed(s)
    ensures WakeReaders(s) == s.(rcond := Sem(1, []), phase := map p | p in s.phase :: AwakeReader(s.phase[p]))
  {
    KeepNone(s.rcond.lst, []);
    forall p | p in s.phase ensures Satisfied(s.rcond.lst, 1, p) <==> s.phase[p].ReadSleep? {
      if Satisfied(s.rcond.lst, 1, p) {
        var i :| 0 <= i < |s.rcond.lst| && s.rcond.lst[i].pid == p && s.rcond.lst[i].needed <= 1;
        assert s.rcond.lst[i] in s.rcond.lst;
      }
      if s.phase[p].ReadSleep? {
        assert Waiter(p, 1) in s.rcond.lst;
      }
    }
  }

  lemma WakeWritersAll(s: State)
    requires WritersListed(s)
    ensures WakeWriters(s) == s.(wcond := Sem(1, []), phase := map p | p in s.phase :: AwakeWriter(s.phase[p]))
  {
    KeepNone(s.wcond.lst, []);
    forall p | p in s.phase ensures Satisfied(s.wcond.lst, 1, p) <==> s.phase[p].WriteSleep? {
      if Satisfied(s.wcond.lst, 1, p) {
        var i :| 0 <= i < |s.wcond.lst| && s.wcond.lst[i].pid == p && s.wcond.lst[i].needed <= 1;
        assert s.wcond.lst[i] in s.wcond.lst;
      }
      if s.phase[p].WriteSleep? {
        assert Waiter(p, 1) in s.wcond.lst;
      }
    }
  }

  predicate Asleep(f: Phase) { f.ReadSleep? || f.WriteSleep? }

  function SetPhase(s: State, p: nat, f: Phase): State {
    s.(phase := s.phase[p := f])
  }

  lemma SetPhaseListed(s: State, p: nat, f: Phase)
    requires p in s.phase && !Asleep(s.phase[p]) && !Asleep(f) && ReadersListed(s) && WritersListed(s)
    ensures ReadersListed(SetPhase(s, p, f)) && WritersListed(SetPhase(s, p, f))
  {
  }

  lemma SetPhaseOk(s: State, p: nat, f: Phase)
    requires PhasesOk(s) && PhaseOk(s, f)
    ensures PhasesOk(SetPhase(s, p, f))
  {
  }

  lemma WakeReadersListed(s: State)
    requires ReadersListed(s) && WritersListed(s)
    ensures ReadersListed(WakeReaders(s)) && WritersListed(WakeReaders(s))
  {
    hide WakeReaders;
    WakeReadersAll(s);
  }

  lemma WakeWritersListed(s: State)
    requires ReadersListed(s) && WritersListed(s)
    ensures ReadersListed(WakeWriters(s)) && WritersListed(WakeWriters(s))
  {
    hide WakeWriters;
    WakeWritersAll(s);
  }

  lemma WakeReadersOk(s: State)
    requires ReadersListed(s) && PhasesOk(s)
    ensures PhasesOk(WakeReaders(s))
  {
  }

  lemma WakeWritersOk(s: State)
    requires WritersListed(s) && PhasesOk(s)
    ensures PhasesOk(WakeWriters(s))
  {
  }

  /** Moving bytes keeps every phase sound: an empty ring fills only while the write end is open. */
  lemma MoveBytesOk(s: State, ring: seq<Byte>, put: seq<Byte>, taken: seq<Byte>)
    requires PhasesOk(s) && (s.ring == [] && ring != [] ==> s.owrite)
    ensures PhasesOk(s.(ring := ring, put := put, taken := taken))
  {
  }

  lemma ReadSectionInv(s: State, p: nat)
    requires Inv(s) && Enabled(s, ReadSection(p))
    ensures Inv(DoReadSection(s, p))
  {
    hide ReadersListed, WritersListed, PhasesOk, WakeWriters;
    var f := s.phase[p];
    assert PhaseOk(s, f) by { OneOk(s, p); }
    var k := Min(f.want, |s.ring|);
    assert s.ring[..k] + s.ring[k..] == s.ring;
    assert s.taken + s.ring[..k] + s.ring[k..] == s.taken + s.ring;
    var s1 := s.(ring := s.ring[k..], taken := s.taken + s.ring[..k]);
    assert ReadersListed(s1) && WritersListed(s1) by { SameListed(s, s1); }
    MoveBytesOk(s, s1.ring, s1.put, s1.taken);
    WakeWritersListed(s1);
    WakeWritersOk(s1);
    WakeKeeps(s1, p);
    var s2 := if |s1.ring| < CAPACITY then WakeWriters(s1) else s1;
    var s' := DoReadSection(s, p);
    assert s' == SetPhase(s2, p, s'.phase[p]);
    SetPhaseListed(s2, p, s'.phase[p]);
    SetPhaseOk(s2, p, s'.phase[p]);
  }

  lemma OneOk(s: State, p: nat)
    requires PhasesOk(s) && p in s.phase
    ensures PhaseOk(s, s.phase[p])
  {
  }

  lemma SameListed(s: State, s': State)
    requires ReadersListed(s) && WritersListed(s)
    requires s'.phase == s.phase && s'.rcond == s.rcond && s'.wcond == s.wcond
    ensures ReadersListed(s') && WritersListed(s')
  {
  }

  /** Waking others leaves a process that is awake where it is, and touches no byte. */
  lemma WakeKeeps(s: State, p: nat)
    requires p in s.phase && !Asleep(s.phase[p])
    ensures p in WakeWriters(s).phase && WakeWriters(s).phase[p] == s.phase[p]
    ensures WakeWriters(s) == s.(wcond := WakeWriters(s).wcond, phase := WakeWriters(s).phase)
    ensures p in WakeReaders(s).phase && WakeReaders(s).phase[p] == s.phase[p]
    ensures WakeReaders(s) == s.(rcond := WakeReaders(s).rcond, phase := WakeReaders(s).phase)
  {
  }

  lemma WriteSectionInv(s: State, p: nat)
    requires Inv(s) && Enabled(s, WriteSection(p))
    ensures Inv(DoWriteSection(s, p))
  {
    hide ReadersListed, WritersListed, PhasesOk, WakeReaders;
    var f := s.phase[p];
    assert PhaseOk(s, f) by { OneOk(s, p); }
    var k := Min(|f.left|, CAPACITY - |s.ring|);
    var s1 := s.(ring := s.ring + f.left[..k], put := s.put + f.left[..k]);
    assert s1.taken + s1.ring == s.taken + s.ring + f.left[..k];
    assert ReadersListed(s1) && WritersListed(s1) by { SameListed(s, s1); }
    MoveBytesOk(s, s1.ring, s1.put, s1.taken);
    WakeReadersListed(s1);
    WakeReadersOk(s1);
    WakeKeeps(s1, p);
    var s2 := if s1.ring != [] then WakeReaders(s1) else s1;
    var s' := DoWriteSection(s, p);
    assert s' == SetPhase(s2, p, s'.phase[p]);
    SetPhaseListed(s2, p, s'.phase[p]);
    SetPhaseOk(s2, p, s'.phase[p]);
  }

  lemma ReadWaitInv(s: State, p: nat)
    requires Inv(s) && Enabled(s, ReadWait(p))
    ensures Inv(DoReadWait(s, p))
  {
    hide PhasesOk;
    assert PhaseOk(s, s.phase[p]) by { OneOk(s, p); }
    var s' := DoReadWait(s, p);
    SetPhaseOk(s, p, s'.phase[p]);
    assert PhasesOk(s') by { PhasesOnly(SetPhase(s, p, s'.phase[p]), s'); }
  }

  lemma WriteWaitInv(s: State, p: nat)
    requires Inv(s) && Enabled(s, WriteWait(p))
    ensures Inv(DoWriteWait(s, p))
  {
    hide PhasesOk;
    assert PhaseOk(s, s.phase[p]) by { OneOk(s, p); }
    var s' := DoWriteWait(s, p);
    SetPhaseOk(s, p, s'.phase[p]);
    assert PhasesOk(s') by { PhasesOnly(SetPhase(s, p, s'.phase[p]), s'); }
  }

  lemma PhasesOnly(s: State, s': State)
    requires PhasesOk(s) && s'.phase == s.phase && s'.ring == s.ring && s'.oread == s.oread && s'.owrite == s.owrite
    ensures PhasesOk(s')
  {
  }

  lemma BeginInv(s: State, e: Event)
    requires Inv(s) && Enabled(s, e) && (e.BeginRead? || e.BeginWrite? || e.WriteTest?)
    ensures Inv(Exec(s, e))
  {
    hide PhasesOk, ReadersListed, WritersListed;
    assert PhaseOk(s, s.phase[e.p]) by { OneOk(s, e.p); }
    var s' := Exec(s, e);
    assert s' == SetPhase(s, e.p, s'.phase[e.p]);
    SetPhaseListed(s, e.p, s'.phase[e.p]);
    SetPhaseOk(s, e.p, s'.phase[e.p]);
  }

  lemma CloseInv(s: State, e: Event)
    requires Inv(s) && Enabled(s, e) && (e.CloseRead? || e.CloseWrite?)
    ensures Inv(Exec(s, e))
  {
    var s1 := if e.CloseRead? then s.(oread := false) else s.(owrite := false);
    forall q | q in s1.phase ensures PhaseOk(s1, s1.phase[q]) { assert PhaseOk(s, s.phase[q]); }
    hide PhasesOk, ReadersListed, WritersListed, WakeReaders, WakeWriters;
    SameListed(s, s1);
    WakeWritersListed(s1);
    WakeWritersOk(s1);
    var s2 := WakeWriters(s1);
    WakeReadersListed(s2);
    WakeReadersOk(s2);
    WakeBytes(s1);
    WakeBytes(s2);
  }

  lemma WakeBytes(s: State)
    ensures WakeWriters(s) == s.(wcond := WakeWriters(s).wcond, phase := WakeWriters(s).phase)
    ensures WakeReaders(s) == s.(rcond := WakeReaders(s).rcond, phase := WakeReaders(s).phase)
  {
  }

  lemma ExecInv(s: State, e: Event)
    requires Inv(s) && Enabled(s, e)
    ensures Inv(Exec(s, e))
  {
    hide Inv, DoReadSection, DoWriteSection, DoReadWait, DoWriteWait;
    match e
    case ReadSection(p) => ReadSectionInv(s, p);
    case WriteSection(p) => WriteSectionInv(s, p);
    case ReadWait(p) => ReadWaitInv(s, p);
    case WriteWait(p) => WriteWaitInv(s, p);
    case CloseRead => CloseInv(s, e);
    case CloseWrite => CloseInv(s, e);
    case BeginRead(_, _) => BeginInv(s, e);
    case BeginWrite(_, _) => BeginInv(s, e);
    case WriteTest(_) => BeginInv(s, e);
    case TestRead => TestInv(s, e);
    case TestWrite => TestInv(s, e);
  }

  lemma TestInv(s: State, e: Event)
    requires Inv(s) && Enabled(s, e) && (e.TestRead? || e.TestWrite?)
    ensures Inv(Exec(s, e))
  {
    hide PhasesOk, ReadersListed, WritersListed;
    SameListed(s, Exec(s, e));
    PhasesOnly(s, Exec(s, e));
  }
}
