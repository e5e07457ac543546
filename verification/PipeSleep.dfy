/** What every run of a pipe delivers, and when a sleeping process is asleep for good reason. */
module PipeSleep {
  import opened Common
  import Sync
  import opened Pipe
  import opened PipeRuns

  /** open_pipe: empty, both ends open, conditions down, and processes that do nothing yet. */
  function Fresh(procs: set<nat>): State {
    State([], true, true, Teardown(false, false, 0), Sync.Sem(0, []), Sync.Sem(0, []),
          map p | p in procs :: Idle, [], [])
  }

  ghost predicate StepAt(events: seq<Event>, states: seq<State>, k: nat)
    requires k < |events| && |states| == |events| + 1
  {
    Enabled(states[k], events[k]) && |states[k].ring| <= CAPACITY && states[k + 1] == Exec(states[k], events[k])
  }

  ghost predicate Run(procs: set<nat>, events: seq<Event>, states: seq<State>) {
    && |states| == |events| + 1 && states[0] == Fresh(procs)
    && forall k: nat | k < |events| :: StepAt(events, states, k)
  }

  lemma {:induction false} RunInv(procs: set<nat>, events: seq<Event>, states: seq<State>, k: nat)
    requires Run(procs, events, states) && k <= |events|
    ensures Inv(states[k])
  {
    if k > 0 {
      hide Inv, Exec, Enabled;
      RunInv(procs, events, states, k - 1);
      assert StepAt(events, states, k - 1);
      ExecInv(states[k - 1], events[k - 1]);
    }
  }

  /**
   * For any number of readers and writers: the bytes taken so far, then the bytes in the
   * ring, are the bytes put so far, in order; the ring never overflows; and a read comes
   * back short only at the end, when the write end is closed and every byte was taken.
   */
  lemma NothingLostOrReordered(procs: set<nat>, events: seq<Event>, states: seq<State>, k: nat, p: nat)
    requires Run(procs, events, states) && k <= |events|
    ensures var s := states[k];
            && s.taken + s.ring == s.put && |s.ring| <= CAPACITY
            && (p in s.phase && s.phase[p].ReadDone? && |s.phase[p].got| < s.phase[p].asked ==>
                  !s.owrite && s.taken == s.put)
            && (p in s.phase && s.phase[p].WriteDone? && s.phase[p].wrote < s.phase[p].asked ==> !s.oread)
  {
    RunInv(procs, events, states, k);
    var s := states[k];
    if p in s.phase { OneOk(s, p); }
    assert s.ring == [] ==> s.taken + s.ring == s.taken;
  }

  // ------------------------------------------------------------ the only reader

  /** r is the only reader, and once bytes or the end are there its condition is up. */
  ghost predicate ReaderHalf(s: State, r: nat) {
    && (forall p | p in s.phase && p != r :: !s.phase[p].Reading())
    && (r in s.phase && (s.phase[r].ReadPend? || s.phase[r].ReadSleep?) && (s.ring != [] || !s.owrite) ==>
          s.rcond.count == 1)
  }

  ghost predicate WriterHalf(s: State, w: nat) {
    && (forall p | p in s.phase && p != w :: !s.phase[p].Writing())
    && (w in s.phase && (s.phase[w].WriteIn? || s.phase[w].WritePend? || s.phase[w].WriteSleep?) && !s.oread ==>
          s.wcond.count == 1)
    && (w in s.phase && (s.phase[w].WritePend? || s.phase[w].WriteSleep?) && |s.ring| < CAPACITY ==>
          s.wcond.count == 1)
  }

  lemma ReaderHalfStep(s: State, e: Event, r: nat)
    requires Inv(s) && Enabled(s, e) && ReaderHalf(s, r) && (e.BeginRead? ==> e.p == r)
    ensures ReaderHalf(Exec(s, e), r)
  {
    hide Sync.Keep, Sync.Satisfied, ReadersListed, WritersListed, PhasesOk;
    match e
    case ReadSection(p) => ReaderHalfReads(s, p, r);
    case WriteSection(p) => ReaderHalfWrites(s, p, r);
    case _ => hide DoReadSection, DoWriteSection;
  }

  lemma ReaderHalfReads(s: State, p: nat, r: nat)
    requires p in s.phase && s.phase[p].ReadTop? && ReaderHalf(s, r)
    ensures ReaderHalf(DoReadSection(s, p), r)
  {
  }

  lemma ReaderHalfWrites(s: State, p: nat, r: nat)
    requires Inv(s) && p in s.phase && s.phase[p].WriteIn? && ReaderHalf(s, r)
    ensures ReaderHalf(DoWriteSection(s, p), r)
  {
  }

  lemma WriterHalfStep(s: State, e: Event, w: nat)
    requires Inv(s) && Enabled(s, e) && WriterHalf(s, w) && (e.BeginWrite? ==> e.p == w)
    ensures WriterHalf(Exec(s, e), w)
  {
    hide Sync.Keep, Sync.Satisfied, ReadersListed, WritersListed, PhasesOk;
    match e
    case ReadSection(p) => WriterHalfReads(s, p, w);
    case WriteSection(p) => WriterHalfWrites(s, p, w);
    case _ => hide DoReadSection, DoWriteSection;
  }

  lemma WriterHalfReads(s: State, p: nat, w: nat)
    requires p in s.phase && s.phase[p].ReadTop? && WriterHalf(s, w)
    ensures WriterHalf(DoReadSection(s, p), w)
  {
    hide Sync.Keep, Sync.Satisfied;
  }

  lemma WriterHalfWrites(s: State, p: nat, w: nat)
    requires p in s.phase && s.phase[p].WriteIn? && WriterHalf(s, w) && |s.ring| <= CAPACITY
    ensures WriterHalf(DoWriteSection(s, p), w)
  {
  }

  ghost predicate ReadersIn(events: seq<Event>, readers: set<nat>) {
    forall k | 0 <= k < |events| && events[k].BeginRead? :: events[k].p in readers
  }

  ghost predicate WritersIn(events: seq<Event>, writers: set<nat>) {
    forall k | 0 <= k < |events| && events[k].BeginWrite? :: events[k].p in writers
  }

  lemma {:induction false} ReaderHalfRun(procs: set<nat>, events: seq<Event>, states: seq<State>, k: nat, r: nat)
    requires Run(procs, events, states) && k <= |events| && ReadersIn(events, {r})
    ensures ReaderHalf(states[k], r)
  {
    if k > 0 {
      ReaderHalfRun(procs, events, states, k - 1, r);
      RunInv(procs, events, states, k - 1);
      hide Inv, Exec, Enabled, ReaderHalf;
      assert StepAt(events, states, k - 1);
      ReaderHalfStep(states[k - 1], events[k - 1], r);
    }
  }

  lemma {:induction false} WriterHalfRun(procs: set<nat>, events: seq<Event>, states: seq<State>, k: nat, w: nat)
    requires Run(procs, events, states) && k <= |events| && WritersIn(events, {w})
    ensures WriterHalf(states[k], w)
  {
    if k > 0 {
      WriterHalfRun(procs, events, states, k - 1, w);
      RunInv(procs, events, states, k - 1);
      hide Inv, Exec, Enabled, WriterHalf;
      assert StepAt(events, states, k - 1);
      WriterHalfStep(states[k - 1], events[k - 1], w);
    }
  }

  /** A sleeping reader has nothing to read, and more may still come. */
  predicate ReaderRightlyAsleep(s: State, p: nat) {
    p in s.phase && s.phase[p].ReadSleep? ==> s.ring == [] && s.owrite
  }

  /** A sleeping writer has no room, and somebody may still make some. */
  predicate WriterRightlyAsleep(s: State, p: nat) {
    p in s.phase && s.phase[p].WriteSleep? ==> |s.ring| == CAPACITY && s.oread
  }

  lemma OneReaderSleepsRightly(procs: set<nat>, events: seq<Event>, states: seq<State>, k: nat, r: nat, p: nat)
    requires Run(procs, events, states) && k <= |events| && ReadersIn(events, {r})
    ensures ReaderRightlyAsleep(states[k], p)
  {
    ReaderHalfRun(procs, events, states, k, r);
    RunInv(procs, events, states, k);
    var s := states[k];
    if p in s.phase && s.phase[p].ReadSleep? {
      assert Sync.Waiter(p, 1) in s.rcond.lst;
      assert s.phase[p].Reading();
    }
  }

  lemma OneWriterSleepsRightly(procs: set<nat>, events: seq<Event>, states: seq<State>, k: nat, w: nat, p: nat)
    requires Run(procs, events, states) && k <= |events| && WritersIn(events, {w})
    ensures WriterRightlyAsleep(states[k], p)
  {
    WriterHalfRun(procs, events, states, k, w);
    RunInv(procs, events, states, k);
    var s := states[k];
    if p in s.phase && s.phase[p].WriteSleep? {
      assert Sync.Waiter(p, 1) in s.wcond.lst;
      assert s.phase[p].Writing();
    }
  }

  /**
   * With one reading and one writing process, in every interleaving: sleep is justified on
   * both sides, the two never sleep at once, and a closed end leaves nobody asleep.
   */
  lemma NeverBothAsleep(procs: set<nat>, events: seq<Event>, states: seq<State>, k: nat, r: nat, w: nat)
    requires Run(procs, events, states) && k <= |events| && ReadersIn(events, {r}) && WritersIn(events, {w})
    requires r in procs && w in procs
    ensures var s := states[k];
            && r in s.phase && w in s.phase
            && ReaderRightlyAsleep(s, r) && WriterRightlyAsleep(s, w)
            && !(s.phase[r].ReadSleep? && s.phase[w].WriteSleep?)
            && (!s.owrite ==> !s.phase[r].ReadSleep?) && (!s.oread ==> !s.phase[w].WriteSleep?)
  {
    OneReaderSleepsRightly(procs, events, states, k, r, r);
    OneWriterSleepsRightly(procs, events, states, k, w, w);
    SameProcs(procs, events, states, k);
  }

  lemma ExecProcs(s: State, e: Event)
    requires Enabled(s, e) && |s.ring| <= CAPACITY
    ensures Exec(s, e).phase.Keys == s.phase.Keys
  {
    hide Sync.Keep, Sync.Satisfied, Woken;
  }

  lemma {:induction false} SameProcs(procs: set<nat>, events: seq<Event>, states: seq<State>, k: nat)
    requires Run(procs, events, states) && k <= |events|
    ensures states[k].phase.Keys == procs
  {
    if k > 0 {
      hide Exec, Enabled;
      SameProcs(procs, events, states, k - 1);
      assert StepAt(events, states, k - 1);
      ExecProcs(states[k - 1], events[k - 1]);
    }
  }

  // ----------------------------------------------------- more than one of a kind

  ghost predicate ReadersSafe(procs: set<nat>, readers: set<nat>) {
    forall events, states, k, p ::
      Run(procs, events, states) && ReadersIn(events, readers) && 0 <= k <= |events| ==>
        ReaderRightlyAsleep(states[k], p)
  }

  ghost predicate WritersSafe(procs: set<nat>, writers: set<nat>) {
    forall events, states, k, p ::
      Run(procs, events, states) && WritersIn(events, writers) && 0 <= k <= |events| ==>
        WriterRightlyAsleep(states[k], p)
  }

  /** e is possible in s and leads to s'. */
  ghost predicate Goes(s: State, e: Event, s': State) {
    Enabled(s, e) && |s.ring| <= CAPACITY && s' == Exec(s, e)
  }

  lemma BeginReadGoes(s: State, p: nat, n: nat)
    requires p in s.phase && s.phase[p].Resting() && s.oread && n > 0 && |s.ring| <= CAPACITY
    ensures Goes(s, BeginRead(p, n), SetPhase(s, p, ReadTop(n, [])))
  {
  }

  lemma BeginWriteGoes(s: State, p: nat, x: seq<Byte>)
    requires p in s.phase && s.phase[p].Resting() && s.owrite && s.oread && x != [] && |s.ring| <= CAPACITY
    ensures Goes(s, BeginWrite(p, x), SetPhase(s, p, WriteTop(x, |x|)))
    ensures Goes(SetPhase(s, p, WriteTop(x, |x|)), WriteTest(p), SetPhase(s, p, WriteIn(x, |x|)))
  {
  }

  lemma ReadWaitGoes(s: State, p: nat)
    requires p in s.phase && s.phase[p].ReadPend? && |s.ring| <= CAPACITY && s.rcond.count <= 1
    ensures var f := s.phase[p];
            Goes(s, ReadWait(p),
                 if s.rcond.count == 1 then SetPhase(s, p, ReadTop(f.want, f.got)).(rcond := Sync.Sem(0, s.rcond.lst))
                 else SetPhase(s, p, ReadSleep(f.want, f.got)).(
                        rcond := Sync.Sem(0, [Sync.Waiter(p, 1)] + s.rcond.lst)))
  {
  }

  /** A run so far, with the processes that read and write in it, and the state it has reached. */
  ghost predicate Reached(procs: set<nat>, events: seq<Event>, states: seq<State>, rs: set<nat>, ws: set<nat>) {
    Run(procs, events, states) && ReadersIn(events, rs) && WritersIn(events, ws)
  }

  lemma Then(procs: set<nat>, events: seq<Event>, states: seq<State>, rs: set<nat>, ws: set<nat>, e: Event, s: State)
      returns (events': seq<Event>, states': seq<State>)
    requires Reached(procs, events, states, rs, ws) && |states| > 0 && Goes(states[|states| - 1], e, s)
    requires (e.BeginRead? ==> e.p in rs) && (e.BeginWrite? ==> e.p in ws)
    ensures Reached(procs, events', states', rs, ws)
    ensures |events'| == |events| + 1 && |states'| == |states| + 1 && states'[|states|] == s
  {
    hide Exec, Enabled;
    events', states' := events + [e], states + [s];
    forall k: nat | k < |events'| ensures StepAt(events', states', k) {
      if k < |events| { assert StepAt(events, states, k); }
    }
  }

  lemma Begin(procs: set<nat>, rs: set<nat>, ws: set<nat>) returns (events: seq<Event>, states: seq<State>)
    ensures Reached(procs, events, states, rs, ws) && |events| == 0 && states == [Fresh(procs)]
  {
    events, states := [], [Fresh(procs)];
  }

  /** Two readers find the pipe empty; one wakeup for two bytes serves the first and leaves the second asleep. */
  lemma TwoReadersMiss(procs: set<nat>, a: nat, b: nat, w: nat) returns (events: seq<Event>, states: seq<State>)
    requires {a, b, w} <= procs && a != b && a != w && b != w
    ensures Run(procs, events, states) && ReadersIn(events, {a, b}) && |events| == 9
    ensures !ReaderRightlyAsleep(states[9], b)
  {
    hide Exec, Enabled, Goes, Reached;
    var z := Fresh(procs);
    var x: seq<Byte> := [7, 8];
    var rs, ws := {a, b}, {w};
    events, states := Begin(procs, rs, ws);
    BeginReadGoes(z, a, 1);
    var s1 := SetPhase(z, a, ReadTop(1, []));
    events, states := Then(procs, events, states, rs, ws, BeginRead(a, 1), s1);
    BeginReadGoes(s1, b, 1);
    var s2 := SetPhase(s1, b, ReadTop(1, []));
    events, states := Then(procs, events, states, rs, ws, BeginRead(b, 1), s2);
    EmptyRead(s2, a);
    var s3 := SetPhase(s2, a, ReadPend(1, [])).(wcond := Sync.Sem(1, []));
    events, states := Then(procs, events, states, rs, ws, ReadSection(a), s3);
    EmptyRead(s3, b);
    var s4 := SetPhase(s3, b, ReadPend(1, [])).(wcond := Sync.Sem(1, []));
    events, states := Then(procs, events, states, rs, ws, ReadSection(b), s4);
    BeginWriteGoes(s4, w, x);
    events, states := Then(procs, events, states, rs, ws, BeginWrite(w, x), SetPhase(s4, w, WriteTop(x, 2)));
    var s6 := SetPhase(s4, w, WriteIn(x, 2));
    events, states := Then(procs, events, states, rs, ws, WriteTest(w), s6);
    ShortWrite(s6, w);
    var s7 := SetPhase(s6, w, WriteDone(2, 2)).(ring := x, put := x, rcond := Sync.Sem(1, []));
    events, states := Then(procs, events, states, rs, ws, WriteSection(w), s7);
    ReadWaitGoes(s7, a);
    var s8 := SetPhase(s7, a, ReadTop(1, [])).(rcond := Sync.Sem(0, []));
    events, states := Then(procs, events, states, rs, ws, ReadWait(a), s8);
    ReadWaitGoes(s8, b);
    assert [Sync.Waiter(b, 1)] + s8.rcond.lst == [Sync.Waiter(b, 1)];
    var s9 := SetPhase(s8, b, ReadSleep(1, [])).(rcond := Sync.Sem(0, [Sync.Waiter(b, 1)]));
    events, states := Then(procs, events, states, rs, ws, ReadWait(b), s9);
    ReachedParts(procs, events, states, rs, ws);
  }

  lemma ReachedParts(procs: set<nat>, events: seq<Event>, states: seq<State>, rs: set<nat>, ws: set<nat>)
    requires Reached(procs, events, states, rs, ws)
    ensures Run(procs, events, states) && ReadersIn(events, rs) && WritersIn(events, ws)
  {
  }

  /** A read section that finds the pipe empty and nobody asleep. */
  lemma EmptyRead(s: State, p: nat)
    requires p in s.phase && s.phase[p].ReadTop? && s.phase[p].want > 0 && s.ring == [] && s.owrite
    requires s.wcond.lst == []
    ensures Goes(s, ReadSection(p),
                 SetPhase(s, p, ReadPend(s.phase[p].want, s.phase[p].got)).(wcond := Sync.Sem(1, [])))
  {
    var f := s.phase[p];
    assert forall q :: !Sync.Satisfied([], 1, q);
    assert Rouse(s.phase, s.wcond) == s.phase;
    assert f.got + s.ring[..0] == f.got && s.taken + s.ring[..0] == s.taken && s.ring[0..] == s.ring;
  }

  /** A write section that fits into an empty pipe, with nobody asleep. */
  lemma ShortWrite(s: State, p: nat)
    requires p in s.phase && s.phase[p].WriteIn? && s.ring == [] && s.put == []
    requires 0 < |s.phase[p].left| <= CAPACITY && s.rcond.lst == []
    ensures var f := s.phase[p];
            Goes(s, WriteSection(p),
                 SetPhase(s, p, WriteDone(f.asked, f.asked)).(ring := f.left, put := f.left, rcond := Sync.Sem(1, [])))
  {
  }

  /** Sleep on the read side is justified in every run exactly when there is at most one reader. */
  lemma ReadersSafeIff(procs: set<nat>, readers: set<nat>, w: nat)
    requires readers <= procs && w in procs && w !in readers
    ensures ReadersSafe(procs, readers) <==> |readers| <= 1
  {
    if |readers| <= 1 {
      var r := SoleMember(readers);
      forall events, states, k, p | Run(procs, events, states) && ReadersIn(events, readers) && 0 <= k <= |events|
        ensures ReaderRightlyAsleep(states[k], p)
      {
        assert ReadersIn(events, {r});
        OneReaderSleepsRightly(procs, events, states, k, r, p);
      }
    } else {
      var a, b := TwoMembers(readers);
      var events, states := TwoReadersMiss(procs, a, b, w);
      assert ReadersIn(events, readers);
      assert !ReaderRightlyAsleep(states[9], b);
    }
  }

  lemma WriteWaitGoes(s: State, p: nat)
    requires p in s.phase && s.phase[p].WritePend? && |s.ring| <= CAPACITY && s.wcond.count <= 1
    ensures var f := s.phase[p];
            Goes(s, WriteWait(p),
                 if s.wcond.count == 1 then SetPhase(s, p, WriteTop(f.left, f.asked)).(
                   wcond := Sync.Sem(0, s.wcond.lst))
                 else SetPhase(s, p, WriteSleep(f.left, f.asked)).(
                        wcond := Sync.Sem(0, [Sync.Waiter(p, 1)] + s.wcond.lst)))
  {
  }

  /** A write section that does not fit, with nobody asleep on the read side. */
  lemma LongWrite(s: State, p: nat)
    requires p in s.phase && s.phase[p].WriteIn? && |s.ring| <= CAPACITY && s.rcond.lst == []
    requires CAPACITY - |s.ring| < |s.phase[p].left|
    ensures var f := s.phase[p];
            var k := CAPACITY - |s.ring|;
            Goes(s, WriteSection(p),
                 SetPhase(s, p, WritePend(f.left[k..], f.asked)).(
                   ring := s.ring + f.left[..k], put := s.put + f.left[..k], rcond := Sync.Sem(1, [])))
  {
  }

  /** A read section that empties the pipe and is satisfied, with nobody asleep on the write side. */
  lemma WholeRead(s: State, p: nat)
    requires p in s.phase && s.phase[p].ReadTop? && s.phase[p].want == |s.ring| <= CAPACITY
    requires s.wcond.lst == []
    ensures var f := s.phase[p];
            Goes(s, ReadSection(p),
                 SetPhase(s, p, ReadDone(|f.got| + f.want, f.got + s.ring)).(
                   ring := [], taken := s.taken + s.ring, wcond := Sync.Sem(1, [])))
  {
    assert forall q :: !Sync.Satisfied([], 1, q);
    assert Rouse(s.phase, s.wcond) == s.phase;
    assert s.ring[..|s.ring|] == s.ring && s.ring[|s.ring|..] == [];
  }

  /** A full pipe, both writers about to wait for room, the reader at rest. */
  ghost predicate Filled(s: State, a: nat, b: nat, r: nat) {
    && |s.ring| == CAPACITY && s.oread && s.owrite && s.wcond == Sync.Sem(0, [])
    && a in s.phase && s.phase[a].WritePend? && b in s.phase && s.phase[b].WritePend?
    && r in s.phase && s.phase[r].Resting()
  }

  lemma FillPipe(procs: set<nat>, a: nat, b: nat, r: nat, rs: set<nat>, ws: set<nat>)
      returns (events: seq<Event>, states: seq<State>)
    requires {a, b, r} <= procs && a != b && a != r && b != r && ws == {a, b}
    ensures Reached(procs, events, states, rs, ws) && |events| == 6 && |states| == 7 && Filled(states[6], a, b, r)
  {
    hide Exec, Enabled, Goes, Reached;
    var z := Fresh(procs);
    var x: seq<Byte> := seq(PIPE_SIZE, _ => 0);
    var y: seq<Byte> := [9];
    events, states := Begin(procs, rs, ws);
    BeginWriteGoes(z, a, x);
    events, states := Then(procs, events, states, rs, ws, BeginWrite(a, x), SetPhase(z, a, WriteTop(x, |x|)));
    var s2 := SetPhase(z, a, WriteIn(x, |x|));
    events, states := Then(procs, events, states, rs, ws, WriteTest(a), s2);
    LongWrite(s2, a);
    var full := x[..CAPACITY];
    var s3 := SetPhase(s2, a, WritePend(x[CAPACITY..], |x|)).(
      ring := [] + full, put := [] + full, rcond := Sync.Sem(1, []));
    events, states := Then(procs, events, states, rs, ws, WriteSection(a), s3);
    BeginWriteGoes(s3, b, y);
    events, states := Then(procs, events, states, rs, ws, BeginWrite(b, y), SetPhase(s3, b, WriteTop(y, |y|)));
    var s5 := SetPhase(s3, b, WriteIn(y, |y|));
    events, states := Then(procs, events, states, rs, ws, WriteTest(b), s5);
    LongWrite(s5, b);
    var s6 := SetPhase(s5, b, WritePend(y[0..], |y|)).(
      ring := s5.ring + y[..0], put := s5.put + y[..0], rcond := Sync.Sem(1, []));
    events, states := Then(procs, events, states, rs, ws, WriteSection(b), s6);
  }

  /** Two writers find the pipe full; one wakeup for an emptied pipe serves the first and leaves the second asleep. */
  lemma TwoWritersMiss(procs: set<nat>, a: nat, b: nat, r: nat) returns (events: seq<Event>, states: seq<State>)
    requires {a, b, r} <= procs && a != b && a != r && b != r
    ensures Run(procs, events, states) && WritersIn(events, {a, b}) && |events| == 10
    ensures !WriterRightlyAsleep(states[10], b)
  {
    hide Exec, Enabled, Goes, Reached;
    var rs, ws := {r}, {a, b};
    events, states := FillPipe(procs, a, b, r, rs, ws);
    var s6 := states[6];
    BeginReadGoes(s6, r, CAPACITY);
    var s7 := SetPhase(s6, r, ReadTop(CAPACITY, []));
    events, states := Then(procs, events, states, rs, ws, BeginRead(r, CAPACITY), s7);
    WholeRead(s7, r);
    var s8 := SetPhase(s7, r, ReadDone(0 + CAPACITY, [] + s7.ring)).(
      ring := [], taken := s7.taken + s7.ring, wcond := Sync.Sem(1, []));
    events, states := Then(procs, events, states, rs, ws, ReadSection(r), s8);
    WriteWaitGoes(s8, a);
    var f, g := s6.phase[a], s6.phase[b];
    var s9 := SetPhase(s8, a, WriteTop(f.left, f.asked)).(wcond := Sync.Sem(0, []));
    events, states := Then(procs, events, states, rs, ws, WriteWait(a), s9);
    WriteWaitGoes(s9, b);
    var s10 := SetPhase(s9, b, WriteSleep(g.left, g.asked)).(wcond := Sync.Sem(0, [Sync.Waiter(b, 1)] + []));
    events, states := Then(procs, events, states, rs, ws, WriteWait(b), s10);
    ReachedParts(procs, events, states, rs, ws);
  }

  /** Sleep on the write side is justified in every run exactly when there is at most one writer. */
  lemma WritersSafeIff(procs: set<nat>, writers: set<nat>, r: nat)
    requires writers <= procs && r in procs && r !in writers
    ensures WritersSafe(procs, writers) <==> |writers| <= 1
  {
    if |writers| <= 1 {
      var w := SoleMember(writers);
      forall events, states, k, p | Run(procs, events, states) && WritersIn(events, writers) && 0 <= k <= |events|
        ensures WriterRightlyAsleep(states[k], p)
      {
        assert WritersIn(events, {w});
        OneWriterSleepsRightly(procs, events, states, k, w, p);
      }
    } else {
      var a, b := TwoMembers(writers);
      var events, states := TwoWritersMiss(procs, a, b, r);
      assert WritersIn(events, writers);
      assert !WriterRightlyAsleep(states[10], b);
    }
  }

  lemma SoleMember(t: set<nat>) returns (r: nat)
    requires |t| <= 1
    ensures t <= {r}
  {
    if t == {} {
      r := 0;
    } else {
      r :| r in t;
      assert |t - {r}| == 0;
      assert t - {r} == {};
    }
  }

  lemma TwoMembers(t: set<nat>) returns (a: nat, b: nat)
    requires |t| > 1
    ensures a in t && b in t && a != b
  {
    a :| a in t;
    assert |t - {a}| > 0;
    b :| b in t - {a};
  }
}
