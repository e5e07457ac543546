/**
 * release_fd of kernel/proc.c with preemption between its decrement and its test. A holder is a
 * descriptor slot that names the file. While it does, it may be copied to a new slot; then it is
 * released: first the count is decremented, and in a step of its own it is tested, and the close
 * hook runs if it is zero.
 */
module LastReference {
  datatype Stage = Holding | Dropped | Tested

  datatype State = State(refcnt: int, stage: map<nat, Stage>, hooks: nat)

  datatype Event = Share(p: nat, q: nat) | Drop(p: nat) | Test(p: nat)

  predicate At(s: State, p: nat, g: Stage) {
    p in s.stage && s.stage[p] == g
  }

  predicate Enabled(s: State, e: Event) {
    match e
    case Share(p, q) => At(s, p, Holding) && q !in s.stage
    case Drop(p) => At(s, p, Holding)
    case Test(p) => At(s, p, Dropped)
  }

  function Exec(s: State, e: Event): State {
    match e
    case Share(_, q) => s.(refcnt := s.refcnt + 1, stage := s.stage[q := Holding])
    case Drop(p) => s.(refcnt := s.refcnt - 1, stage := s.stage[p := Dropped])
    case Test(p) => s.(stage := s.stage[p := Tested], hooks := s.hooks + if s.refcnt == 0 then 1 else 0)
  }

  /** The holders at a stage. */
  function In(s: State, g: Stage): set<nat> {
    set p | p in s.stage && s.stage[p] == g
  }

  ghost predicate StepAt(events: seq<Event>, states: seq<State>, k: nat)
    requires k < |events| && |states| == |events| + 1
  {
    Enabled(states[k], events[k]) && states[k + 1] == Exec(states[k], events[k])
  }

  /** A run from the moment slot p0 opens the file. */
  ghost predicate Run(p0: nat, events: seq<Event>, states: seq<State>) {
    && |states| == |events| + 1 && states[0] == State(1, map[p0 := Holding], 0)
    && forall k: nat | k < |events| :: StepAt(events, states, k)
  }

  /** The count is the number of holders, and nobody has run the hook while there is one. */
  ghost predicate Inv(s: State) {
    s.refcnt == |In(s, Holding)| && (s.refcnt > 0 ==> s.hooks == 0)
  }

  /** Moving one holder from a stage to another. */
  lemma MoveSizes(s: State, s': State, p: nat, g: Stage, h: Stage, other: Stage)
    requires At(s, p, g) && s'.stage == s.stage[p := h] && g != h && other != g && other != h
    ensures |In(s', g)| == |In(s, g)| - 1 && |In(s', h)| == |In(s, h)| + 1 && In(s', other) == In(s, other)
  {
    assert In(s', g) == In(s, g) - {p};
    assert In(s', h) == In(s, h) + {p};
  }

  lemma ShareSizes(s: State, s': State, q: nat)
    requires q !in s.stage && s'.stage == s.stage[q := Holding]
    ensures |In(s', Holding)| == |In(s, Holding)| + 1 && In(s', Dropped) == In(s, Dropped)
  {
    assert In(s', Holding) == In(s, Holding) + {q};
  }

  lemma ExecInv(s: State, e: Event)
    requires Inv(s) && Enabled(s, e)
    ensures Inv(Exec(s, e))
  {
    hide In;
    var s' := Exec(s, e);
    match e
    case Share(p, q) =>
      HolderCounts(s, p);
      ShareSizes(s, s', q);
    case Drop(p) =>
      HolderCounts(s, p);
      MoveSizes(s, s', p, Holding, Dropped, Tested);
    case Test(p) =>
      MoveSizes(s, s', p, Dropped, Tested, Holding);
  }

  lemma HolderCounts(s: State, p: nat)
    requires At(s, p, Holding)
    ensures |In(s, Holding)| > 0
  {
    assert p in In(s, Holding);
  }

  lemma {:induction false} RunInv(p0: nat, events: seq<Event>, states: seq<State>, k: nat)
    requires Run(p0, events, states) && k <= |events|
    ensures Inv(states[k])
  {
    if k == 0 {
      assert In(states[0], Holding) == {p0};
    } else {
      hide Inv, Exec, Enabled;
      RunInv(p0, events, states, k - 1);
      assert StepAt(events, states, k - 1);
      ExecInv(states[k - 1], events[k - 1]);
    }
  }

  /** Event k drops the last reference. */
  ghost predicate LastDrop(events: seq<Event>, states: seq<State>, k: nat) {
    |states| == |events| + 1 && k < |events| && events[k].Drop? && states[k + 1].refcnt == 0
  }

  /** From then on, every release between its decrement and its test will run the hook. */
  lemma {:induction false} PendingRun(p0: nat, events: seq<Event>, states: seq<State>, k: nat, n: nat)
    requires Run(p0, events, states) && LastDrop(events, states, k) && k < n <= |events|
    ensures states[n].refcnt == 0 && states[n].hooks + |In(states[n], Dropped)| == |In(states[k], Dropped)| + 1
  {
    hide Enabled, In, Inv;
    assert StepAt(events, states, n - 1);
    if n == k + 1 {
      DropLast(p0, events, states, k);
    } else {
      PendingRun(p0, events, states, k, n - 1);
      RunInv(p0, events, states, n - 1);
      AfterLast(states[n - 1], events[n - 1]);
    }
  }

  lemma DropLast(p0: nat, events: seq<Event>, states: seq<State>, k: nat)
    requires Run(p0, events, states) && LastDrop(events, states, k)
    ensures states[k + 1].hooks == 0 && |In(states[k + 1], Dropped)| == |In(states[k], Dropped)| + 1
  {
    hide In;
    assert StepAt(events, states, k);
    RunInv(p0, events, states, k);
    MoveSizes(states[k], states[k + 1], events[k].p, Holding, Dropped, Tested);
  }

  lemma AfterLast(s: State, e: Event)
    requires Inv(s) && Enabled(s, e) && s.refcnt == 0
    ensures Exec(s, e).refcnt == 0
    ensures Exec(s, e).hooks + |In(Exec(s, e), Dropped)| == s.hooks + |In(s, Dropped)|
  {
    hide In;
    if e.Test? {
      MoveSizes(s, Exec(s, e), e.p, Dropped, Tested, Holding);
    } else {
      HolderCounts(s, e.p);
    }
  }

  /** Every slot that ever named the file has finished its release. */
  ghost predicate Finished(s: State) {
    forall p | p in s.stage :: s.stage[p] == Tested
  }

  /**
   * In every run in which all references are dropped and all releases finished, the close hook has
   * run at least once; it has run exactly once if and only if, when the last reference was
   * dropped, no other release was between its decrement and its test.
   */
  lemma HookOnceIff(p0: nat, events: seq<Event>, states: seq<State>, k: nat)
    requires Run(p0, events, states) && LastDrop(events, states, k) && Finished(states[|events|])
    ensures states[|events|].hooks == |In(states[k], Dropped)| + 1
    ensures states[|events|].hooks == 1 <==> In(states[k], Dropped) == {}
  {
    PendingRun(p0, events, states, k, |events|);
    assert In(states[|events|], Dropped) == {};
  }

  /** Whole releases, one after the other, as when no release is preempted inside. */
  ghost predicate Unsplit(events: seq<Event>) {
    forall k | 0 <= k < |events| && events[k].Drop? ::
      k + 1 < |events| && events[k + 1] == Test(events[k].p)
  }

  /** Without preemption inside a release, nobody is between decrement and test when another one starts. */
  lemma {:induction false} UnsplitPending(p0: nat, events: seq<Event>, states: seq<State>, k: nat)
    requires Run(p0, events, states) && Unsplit(events) && k <= |events|
    requires k > 0 ==> !events[k - 1].Drop?
    ensures In(states[k], Dropped) == {}
  {
    if k > 0 {
      assert StepAt(events, states, k - 1);
      if events[k - 1].Share? {
        UnsplitPending(p0, events, states, k - 1);
      } else if k > 1 && events[k - 2].Drop? {
        assert StepAt(events, states, k - 2);
        UnsplitPending(p0, events, states, k - 2);
      } else {
        UnsplitPending(p0, events, states, k - 1);
      }
    }
  }

  /** Then the hook runs once, in every run. */
  lemma UnsplitHookOnce(p0: nat, events: seq<Event>, states: seq<State>, k: nat)
    requires Run(p0, events, states) && Unsplit(events)
    requires LastDrop(events, states, k) && Finished(states[|events|])
    ensures states[|events|].hooks == 1
  {
    HookOnceIff(p0, events, states, k);
    UnsplitPending(p0, events, states, k);
  }

  /** Two holders, the first one preempted before its test: both run the hook. */
  lemma HookTwice(a: nat, b: nat) returns (events: seq<Event>, states: seq<State>)
    requires a != b
    ensures Run(a, events, states) && events == [Share(a, b), Drop(a), Drop(b), Test(b), Test(a)]
    ensures Finished(states[5]) && states[5].hooks == 2
  {
    var s0 := State(1, map[a := Holding], 0);
    var s1 := State(2, map[a := Holding, b := Holding], 0);
    var s2 := State(1, map[a := Dropped, b := Holding], 0);
    var s3 := State(0, map[a := Dropped, b := Dropped], 0);
    var s4 := State(0, map[a := Dropped, b := Tested], 1);
    var s5 := State(0, map[a := Tested, b := Tested], 2);
    events, states := [Share(a, b), Drop(a), Drop(b), Test(b), Test(a)], [s0, s1, s2, s3, s4, s5];
    assert StepAt(events, states, 0) && StepAt(events, states, 1) && StepAt(events, states, 2);
    assert StepAt(events, states, 3) && StepAt(events, states, 4);
  }
}
