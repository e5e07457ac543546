/** How often closing the two ends of a pipe frees it (the end of pclose in kernel/pipe.c). */
module PipeFree {
  import opened Pipe
  import opened PipeRuns
  import opened PipeSleep

  /** What a step does to the two ends: a closer's locked section and, later, its unlocked test. */
  lemma StepEnds(s: State, e: Event)
    requires Enabled(s, e) && |s.ring| <= CAPACITY
    ensures var s' := Exec(s, e);
            && s'.oread == (s.oread && !e.CloseRead?) && s'.owrite == (s.owrite && !e.CloseWrite?)
            && s'.down == match e
                          case TestRead => s.down.(rtested := true, frees := Freed(s))
                          case TestWrite => s.down.(wtested := true, frees := Freed(s))
                          case _ => s.down
  {
    hide WakeReaders, WakeWriters;
    match e
    case ReadSection(p) => SectionEnds(s, p);
    case WriteSection(p) => SectionEnds(s, p);
    case CloseRead =>
      WakeBytes(s.(oread := false));
      WakeBytes(WakeWriters(s.(oread := false)));
    case CloseWrite =>
      WakeBytes(s.(owrite := false));
      WakeBytes(WakeWriters(s.(owrite := false)));
    case _ =>
  }

  lemma SectionEnds(s: State, p: nat)
    requires |s.ring| <= CAPACITY && p in s.phase && (s.phase[p].ReadTop? || s.phase[p].WriteIn?)
    ensures var s' := if s.phase[p].ReadTop? then DoReadSection(s, p) else DoWriteSection(s, p);
            s'.oread == s.oread && s'.owrite == s.owrite && s'.down == s.down
  {
  }

  /** An end that is open has not been tested, and the pipe is not freed while one is open. */
  ghost predicate DownOk(s: State) {
    && (s.oread ==> !s.down.rtested) && (s.owrite ==> !s.down.wtested)
    && (s.oread || s.owrite ==> s.down.frees == 0)
  }

  lemma {:induction false} RunDown(procs: set<nat>, events: seq<Event>, states: seq<State>, k: nat)
    requires Run(procs, events, states) && k <= |events|
    ensures DownOk(states[k])
  {
    if k > 0 {
      hide Enabled, Exec;
      RunDown(procs, events, states, k - 1);
      assert StepAt(events, states, k - 1);
      StepEnds(states[k - 1], events[k - 1]);
    }
  }

  function Tests(d: Teardown): nat {
    (if d.rtested then 1 else 0) + if d.wtested then 1 else 0
  }

  /** Event k is the locked section of the second closer. */
  ghost predicate LastSection(events: seq<Event>, states: seq<State>, k: nat) {
    && |states| == |events| + 1 && k < |events|
    && (states[k].oread || states[k].owrite) && !states[k + 1].oread && !states[k + 1].owrite
  }

  /** From the second closer's section on, every test frees the pipe. */
  lemma {:induction false} TestsFree(procs: set<nat>, events: seq<Event>, states: seq<State>, k: nat, n: nat)
    requires Run(procs, events, states) && LastSection(events, states, k) && k < n <= |events|
    ensures !states[n].oread && !states[n].owrite
    ensures states[n].down.frees + Tests(states[k].down) == Tests(states[n].down)
  {
    hide Enabled, Exec;
    assert StepAt(events, states, n - 1);
    StepEnds(states[n - 1], events[n - 1]);
    RunDown(procs, events, states, n - 1);
    if n > k + 1 {
      TestsFree(procs, events, states, k, n - 1);
      TestOnce(states[n - 1], events[n - 1]);
    }
  }

  lemma TestOnce(s: State, e: Event)
    requires Enabled(s, e)
    ensures (e.TestRead? ==> !s.down.rtested) && (e.TestWrite? ==> !s.down.wtested)
  {
  }

  /** The closer of the end that is closed already has made its test. */
  predicate FirstHasTested(s: State) {
    (!s.oread ==> s.down.rtested) && (!s.owrite ==> s.down.wtested)
  }

  /**
   * In every run in which both ends are closed and both closers have finished, the pipe is freed
   * once or twice: once if and only if the first closer's test came before the second closer's
   * locked section.
   */
  lemma FreedOnceIff(procs: set<nat>, events: seq<Event>, states: seq<State>, k: nat)
    requires Run(procs, events, states) && LastSection(events, states, k)
    requires states[|events|].down.rtested && states[|events|].down.wtested
    ensures states[|events|].down.frees == if FirstHasTested(states[k]) then 1 else 2
  {
    RunDown(procs, events, states, k);
    TestsFree(procs, events, states, k, |events|);
    assert StepAt(events, states, k);
    StepEnds(states[k], events[k]);
  }

  /** A closer has tested exactly when its test is among the events so far. */
  lemma {:induction false} TestedIff(procs: set<nat>, events: seq<Event>, states: seq<State>, n: nat)
    requires Run(procs, events, states) && n <= |events|
    ensures states[n].down.rtested <==> TestRead in events[..n]
    ensures states[n].down.wtested <==> TestWrite in events[..n]
  {
    if n > 0 {
      hide Enabled, Exec;
      TestedIff(procs, events, states, n - 1);
      assert StepAt(events, states, n - 1);
      StepEnds(states[n - 1], events[n - 1]);
      assert events[..n] == events[..n - 1] + [events[n - 1]];
    }
  }

  /** Until its first end is closed, and as long as one is open, the pipe is never freed. */
  lemma OpenIsNotFreed(procs: set<nat>, events: seq<Event>, states: seq<State>, k: nat)
    requires Run(procs, events, states) && k <= |events| && (states[k].oread || states[k].owrite)
    ensures states[k].down.frees == 0
  {
    RunDown(procs, events, states, k);
  }

  /** The closer of the read end is preempted before its test: both closers free the pipe. */
  lemma FreedTwice(procs: set<nat>) returns (events: seq<Event>, states: seq<State>)
    ensures Run(procs, events, states) && events == [CloseRead, CloseWrite, TestWrite, TestRead]
    ensures states[4].down == Teardown(true, true, 2)
  {
    var s0 := Fresh(procs);
    var s1 := Exec(s0, CloseRead);
    StepEnds(s0, CloseRead);
    CloseKeepsIdle(s0, CloseRead);
    var s2 := Exec(s1, CloseWrite);
    StepEnds(s1, CloseWrite);
    CloseKeepsIdle(s1, CloseWrite);
    var s3 := Exec(s2, TestWrite);
    var s4 := Exec(s3, TestRead);
    events, states := [CloseRead, CloseWrite, TestWrite, TestRead], [s0, s1, s2, s3, s4];
    forall k: nat | k < |events| ensures StepAt(events, states, k) {
      assert k == 0 || k == 1 || k == 2 || k == 3;
    }
  }

  /** Where nobody works on the pipe, closing an end changes no phase and no byte. */
  lemma CloseKeepsIdle(s: State, e: Event)
    requires Enabled(s, e) && (e.CloseRead? || e.CloseWrite?) && |s.ring| <= CAPACITY
    requires forall p | p in s.phase :: s.phase[p] == Idle
    ensures Exec(s, e).ring == s.ring && forall p | p in Exec(s, e).phase :: Exec(s, e).phase[p] == Idle
  {
  }
}
