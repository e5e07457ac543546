/**
 * Who gets and who gives which bytes: in every run of a pipe, what a call of pread has
 * returned so far is exactly what its own sections took out of the ring, and what a call
 * of pwrite counts as written is exactly what its own sections put in.
 */
module PipeDelivery {
  import opened Common
  import opened Pipe
  import opened PipeRuns
  import opened PipeSleep

  /** One critical section of process pid, and the bytes that moved in it. */
  datatype Section = Section(pid: nat, bytes: seq<Byte>)

  function Concat(sections: seq<Section>): seq<Byte> {
    if sections == [] then [] else Concat(sections[..|sections| - 1]) + sections[|sections| - 1].bytes
  }

  /** What a record has grown by. */
  function Added(before: seq<Byte>, after: seq<Byte>): seq<Byte> {
    if |before| <= |after| then after[|before|..] else []
  }

  predicate MadeBy(e: Event, p: nat) {
    match e
    case BeginRead(q, _) => q == p
    case BeginWrite(q, _) => q == p
    case ReadSection(q) => q == p
    case ReadWait(q) => q == p
    case WriteTest(q) => q == p
    case WriteSection(q) => q == p
    case WriteWait(q) => q == p
    case _ => false
  }

  // ----------------------------------------------------------------- the record

  /** The sections of the first k steps in which somebody read. */
  ghost function Reads(events: seq<Event>, states: seq<State>, k: nat): seq<Section>
    requires |states| == |events| + 1 && k <= |events|
  {
    if k == 0 then []
    else if events[k - 1].ReadSection? then
      Reads(events, states, k - 1) + [Section(events[k - 1].p, Added(states[k - 1].taken, states[k].taken))]
    else Reads(events, states, k - 1)
  }

  ghost function Writes(events: seq<Event>, states: seq<State>, k: nat): seq<Section>
    requires |states| == |events| + 1 && k <= |events|
  {
    if k == 0 then []
    else if events[k - 1].WriteSection? then
      Writes(events, states, k - 1) + [Section(events[k - 1].p, Added(states[k - 1].put, states[k].put))]
    else Writes(events, states, k - 1)
  }

  /** What the sections of p took since p last called pread. */
  ghost function Got(events: seq<Event>, states: seq<State>, k: nat, p: nat): seq<Byte>
    requires |states| == |events| + 1 && k <= |events|
  {
    if k == 0 then [] else NextGot(events[k - 1], states[k - 1], states[k], p, Got(events, states, k - 1, p))
  }

  function NextGot(e: Event, s: State, s': State, p: nat, got: seq<Byte>): seq<Byte> {
    if e.BeginRead? && e.p == p then []
    else if e == ReadSection(p) then got + Added(s.taken, s'.taken)
    else got
  }

  /** How many bytes p last called pread for. */
  function Asked(events: seq<Event>, k: nat, p: nat): nat
    requires k <= |events|
  {
    if k == 0 then 0 else NextAsked(events[k - 1], p, Asked(events, k - 1, p))
  }

  function NextAsked(e: Event, p: nat, asked: nat): nat {
    if e.BeginRead? && e.p == p then e.n else asked
  }

  /** What the sections of p put since p last called pwrite. */
  ghost function Given(events: seq<Event>, states: seq<State>, k: nat, p: nat): seq<Byte>
    requires |states| == |events| + 1 && k <= |events|
  {
    if k == 0 then [] else NextGiven(events[k - 1], states[k - 1], states[k], p, Given(events, states, k - 1, p))
  }

  function NextGiven(e: Event, s: State, s': State, p: nat, given: seq<Byte>): seq<Byte> {
    if e.BeginWrite? && e.p == p then []
    else if e == WriteSection(p) then given + Added(s.put, s'.put)
    else given
  }

  /** What p last called pwrite with. */
  function Offered(events: seq<Event>, k: nat, p: nat): seq<Byte>
    requires k <= |events|
  {
    if k == 0 then [] else NextOffered(events[k - 1], p, Offered(events, k - 1, p))
  }

  function NextOffered(e: Event, p: nat, bytes: seq<Byte>): seq<Byte> {
    if e.BeginWrite? && e.p == p then e.bytes else bytes
  }

  // ---------------------------------------------------------------- one step

  lemma AddedAppended(a: seq<Byte>, b: seq<Byte>)
    ensures Added(a, a + b) == b
  {
  }

  /** A process that does not act is woken at most. */
  lemma OthersWoken(s: State, e: Event, p: nat)
    requires Enabled(s, e) && |s.ring| <= CAPACITY && p in s.phase && !MadeBy(e, p)
    ensures p in Exec(s, e).phase && (Exec(s, e).phase[p] == s.phase[p] || Exec(s, e).phase[p] == Woken(s.phase[p]))
  {
  }

  /** A section moves bytes off the front of the ring, as many as wanted or all there are. */
  lemma ReadSectionMoves(s: State, p: nat)
    requires p in s.phase && s.phase[p].ReadTop?
    ensures var s' := DoReadSection(s, p);
            var f := s.phase[p];
            var bytes := Added(s.taken, s'.taken);
            && s'.taken == s.taken + bytes && s.ring == bytes + s'.ring && s'.put == s.put
            && |bytes| == Min(f.want, |s.ring|)
            && p in s'.phase
            && s'.phase[p] == if |bytes| == f.want || (s'.ring == [] && !s.owrite)
                              then ReadDone(f.want + |f.got|, f.got + bytes)
                              else ReadPend(f.want - |bytes|, f.got + bytes)
  {
    var k := Min(s.phase[p].want, |s.ring|);
    AddedAppended(s.taken, s.ring[..k]);
    assert s.ring == s.ring[..k] + s.ring[k..];
  }

  /** A section moves bytes onto the end of the ring, as many as left or as fit. */
  lemma WriteSectionMoves(s: State, p: nat)
    requires p in s.phase && s.phase[p].WriteIn? && |s.ring| <= CAPACITY
    ensures var s' := DoWriteSection(s, p);
            var f := s.phase[p];
            var bytes := Added(s.put, s'.put);
            && s'.put == s.put + bytes && s'.ring == s.ring + bytes && s'.taken == s.taken
            && |bytes| == Min(|f.left|, CAPACITY - |s.ring|) && bytes <= f.left
            && p in s'.phase
            && s'.phase[p] == if bytes == f.left then WriteDone(f.asked, f.asked)
                              else WritePend(f.left[|bytes|..], f.asked)
  {
    var k := Min(|s.phase[p].left|, CAPACITY - |s.ring|);
    AddedAppended(s.put, s.phase[p].left[..k]);
  }

  lemma OthersMoveNothing(s: State, e: Event)
    requires Enabled(s, e) && |s.ring| <= CAPACITY
    ensures !e.ReadSection? ==> Exec(s, e).taken == s.taken
    ensures !e.WriteSection? ==> Exec(s, e).put == s.put
    ensures !e.ReadSection? && !e.WriteSection? ==> Exec(s, e).ring == s.ring
  {
  }

  /** The phase of a reader tells what it has got and still wants. */
  predicate ReadTold(f: Phase, asked: nat, got: seq<Byte>) {
    && (f.Reading() ==> f.got == got && f.want + |got| == asked)
    && (f.ReadDone? ==> f.got == got && f.asked == asked)
  }

  /** The phase of a writer tells what it has given and still holds. */
  predicate WriteTold(f: Phase, bytes: seq<Byte>, given: seq<Byte>) {
    && (f.Writing() ==> given + f.left == bytes && f.asked == |bytes|)
    && (f.WriteDone? ==> f.asked == |bytes| && 0 <= f.wrote <= |bytes| && given == bytes[..f.wrote])
  }

  lemma ReadToldStep(s: State, e: Event, p: nat, asked: nat, got: seq<Byte>)
    requires Enabled(s, e) && |s.ring| <= CAPACITY && p in s.phase && ReadTold(s.phase[p], asked, got)
    ensures p in Exec(s, e).phase
    ensures ReadTold(Exec(s, e).phase[p], NextAsked(e, p, asked), NextGot(e, s, Exec(s, e), p, got))
  {
    if !MadeBy(e, p) {
      hide Exec;
      OthersWoken(s, e, p);
    } else {
      hide DoReadSection, DoWriteSection;
      match e
      case ReadSection(_) => ReadSectionMoves(s, p);
      case WriteSection(_) => WriteSectionMoves(s, p);
      case _ =>
    }
  }

  lemma WriteToldStep(s: State, e: Event, p: nat, bytes: seq<Byte>, given: seq<Byte>)
    requires Enabled(s, e) && |s.ring| <= CAPACITY && p in s.phase && WriteTold(s.phase[p], bytes, given)
    ensures p in Exec(s, e).phase
    ensures WriteTold(Exec(s, e).phase[p], NextOffered(e, p, bytes), NextGiven(e, s, Exec(s, e), p, given))
  {
    if !MadeBy(e, p) {
      hide Exec;
      OthersWoken(s, e, p);
    } else {
      hide DoReadSection, DoWriteSection;
      match e
      case ReadSection(_) => ReadSectionMoves(s, p);
      case WriteSection(_) => WriteSectionTold(s, p, bytes, given);
      case WriteTest(_) => PrefixGiven(given, s.phase[p].left);
      case _ =>
    }
  }

  lemma PrefixGiven(given: seq<Byte>, left: seq<Byte>)
    ensures (given + left)[..|given|] == given && |given + left| - |left| == |given|
  {
  }

  lemma MoveOn(given: seq<Byte>, left: seq<Byte>, k: nat)
    requires k <= |left|
    ensures given + left[..k] + left[k..] == given + left
  {
  }

  lemma WriteSectionTold(s: State, p: nat, bytes: seq<Byte>, given: seq<Byte>)
    requires p in s.phase && s.phase[p].WriteIn? && |s.ring| <= CAPACITY && WriteTold(s.phase[p], bytes, given)
    ensures var s' := DoWriteSection(s, p);
            p in s'.phase && WriteTold(s'.phase[p], bytes, given + Added(s.put, s'.put))
  {
    hide DoWriteSection;
    WriteSectionMoves(s, p);
    var b := Added(s.put, DoWriteSection(s, p).put);
    MoveOn(given, s.phase[p].left, |b|);
  }

  // --------------------------------------------------------------------- runs

  /**
   * In every run: what a process holds of its current pread is what its own sections took,
   * in order, and what it still wants is the rest of what it asked for.
   */
  lemma {:induction false} ReadersGetTheirSections(procs: set<nat>, events: seq<Event>, states: seq<State>,
                                                   k: nat, p: nat)
    requires Run(procs, events, states) && k <= |events| && p in procs
    ensures p in states[k].phase && ReadTold(states[k].phase[p], Asked(events, k, p), Got(events, states, k, p))
  {
    if k > 0 {
      hide Exec, Enabled, ReadTold;
      ReadersGetTheirSections(procs, events, states, k - 1, p);
      assert StepAt(events, states, k - 1);
      ReadToldStep(states[k - 1], events[k - 1], p, Asked(events, k - 1, p), Got(events, states, k - 1, p));
    }
  }

  /**
   * In every run: what a process has given of its current pwrite is what its own sections
   * put, a prefix of what it offered, and pwrite returns the length of that prefix.
   */
  lemma {:induction false} WritersGiveTheirBytes(procs: set<nat>, events: seq<Event>, states: seq<State>,
                                                 k: nat, p: nat)
    requires Run(procs, events, states) && k <= |events| && p in procs
    ensures p in states[k].phase
    ensures WriteTold(states[k].phase[p], Offered(events, k, p), Given(events, states, k, p))
  {
    if k > 0 {
      hide Exec, Enabled, WriteTold;
      WritersGiveTheirBytes(procs, events, states, k - 1, p);
      assert StepAt(events, states, k - 1);
      WriteToldStep(states[k - 1], events[k - 1], p, Offered(events, k - 1, p), Given(events, states, k - 1, p));
    }
  }

  lemma ConcatSnoc(sections: seq<Section>, last: Section)
    ensures Concat(sections + [last]) == Concat(sections) + last.bytes
  {
    assert (sections + [last])[..|sections|] == sections;
  }

  /**
   * In every run the bytes read, section by section, followed by what is still in the
   * ring, are the bytes written, section by section.
   */
  lemma {:induction false} SectionsInterleave(procs: set<nat>, events: seq<Event>, states: seq<State>, k: nat)
    requires Run(procs, events, states) && k <= |events|
    ensures states[k].taken == Concat(Reads(events, states, k))
    ensures states[k].put == Concat(Writes(events, states, k))
    ensures Concat(Reads(events, states, k)) + states[k].ring == Concat(Writes(events, states, k))
  {
    if k > 0 {
      SectionsInterleave(procs, events, states, k - 1);
      var s, e := states[k - 1], events[k - 1];
      assert StepAt(events, states, k - 1);
      OthersMoveNothing(s, e);
      hide Exec, Concat;
      if e.ReadSection? {
        ReadSectionStep(s, e);
        ConcatSnoc(Reads(events, states, k - 1), Section(e.p, Added(s.taken, states[k].taken)));
      } else if e.WriteSection? {
        WriteSectionStep(s, e);
        ConcatSnoc(Writes(events, states, k - 1), Section(e.p, Added(s.put, states[k].put)));
      }
    }
    RunInv(procs, events, states, k);
  }

  lemma ReadSectionStep(s: State, e: Event)
    requires Enabled(s, e) && |s.ring| <= CAPACITY && e.ReadSection?
    ensures Exec(s, e).taken == s.taken + Added(s.taken, Exec(s, e).taken)
    ensures Exec(s, e).put == s.put
  {
    ReadSectionMoves(s, e.p);
  }

  lemma WriteSectionStep(s: State, e: Event)
    requires Enabled(s, e) && |s.ring| <= CAPACITY && e.WriteSection?
    ensures Exec(s, e).put == s.put + Added(s.put, Exec(s, e).put)
    ensures Exec(s, e).taken == s.taken
  {
    WriteSectionMoves(s, e.p);
  }

  /**
   * When calls end. A section ends its pread when it has all that was asked for, or has
   * emptied a pipe whose write end is closed. A pwrite ends when everything is given, or
   * when a round finds the read end closed.
   */
  lemma CallsEndIff(procs: set<nat>, events: seq<Event>, states: seq<State>, k: nat, p: nat)
    requires Run(procs, events, states) && k < |events| && p in procs
    ensures p in states[k + 1].phase
    ensures events[k] == ReadSection(p) ==>
              (states[k + 1].phase[p].ReadDone? <==>
               || |Got(events, states, k + 1, p)| == Asked(events, k + 1, p)
               || (states[k + 1].ring == [] && !states[k + 1].owrite))
    ensures events[k] == WriteSection(p) ==>
              (states[k + 1].phase[p].WriteDone? <==>
               Given(events, states, k + 1, p) == Offered(events, k + 1, p))
    ensures events[k] == WriteTest(p) ==> (states[k + 1].phase[p].WriteDone? <==> !states[k].oread)
  {
    ReadersGetTheirSections(procs, events, states, k, p);
    ReadersGetTheirSections(procs, events, states, k + 1, p);
    WritersGiveTheirBytes(procs, events, states, k, p);
    WritersGiveTheirBytes(procs, events, states, k + 1, p);
    RunInv(procs, events, states, k);
    assert StepAt(events, states, k);
    var s := states[k];
    assert PhaseOk(s, s.phase[p]);
    hide DoReadSection, DoWriteSection, Inv, Got, Given, Asked, Offered, DoReadWait, DoWriteWait;
    if events[k] == ReadSection(p) {
      ReadSectionMoves(s, p);
      SameEnds(s, p);
    } else if events[k] == WriteSection(p) {
      WriteSectionMoves(s, p);
    }
  }

  lemma SameEnds(s: State, p: nat)
    requires p in s.phase && s.phase[p].ReadTop?
    ensures DoReadSection(s, p).owrite == s.owrite
  {
  }

  // ------------------------------------------------------- the loops themselves

  /** The pipe in memory holds what state s says. */
  ghost predicate Holds(pipe: PipeRing, s: State)
    reads pipe, pipe.buffer
  {
    pipe.Valid() && pipe.Contents() == s.ring && pipe.oread == s.oread && pipe.owrite == s.owrite
  }

  /** One round of pread between taking and dropping the lock; `wake`: the writers are signalled. */
  method ReadRound(pipe: PipeRing, want: nat, ghost s: State, ghost p: nat)
    returns (buf: seq<Byte>, wake: bool, done: bool)
    requires Holds(pipe, s) && p in s.phase && s.phase[p].ReadTop? && s.phase[p].want == want
    modifies pipe`lo
    ensures Holds(pipe, DoReadSection(s, p))
    ensures s.taken + buf == DoReadSection(s, p).taken
    ensures p in DoReadSection(s, p).phase && DoReadSection(s, p).phase[p].ReadDone? == done
    ensures DoReadSection(s, p).wcond == if wake then Raise(s.wcond) else s.wcond
  {
    ReadSectionMoves(s, p);
    buf := pipe.Take(want);
    RingSize(pipe.buffer[..], pipe.lo, pipe.hi);
    wake := Next(pipe.hi) != pipe.lo;
    done := (!pipe.owrite && pipe.hi == pipe.lo) || |buf| == want;
  }

  /** One round of pwrite between taking and dropping the lock; `wake`: the readers are signalled. */
  method WriteRound(pipe: PipeRing, left: seq<Byte>, ghost s: State, ghost p: nat)
    returns (n: nat, wake: bool, done: bool)
    requires Holds(pipe, s) && p in s.phase && s.phase[p].WriteIn? && s.phase[p].left == left
    modifies pipe`hi, pipe.buffer
    ensures |s.ring| <= CAPACITY && Holds(pipe, DoWriteSection(s, p))
    ensures n <= |left| && s.put + left[..n] == DoWriteSection(s, p).put
    ensures p in DoWriteSection(s, p).phase && DoWriteSection(s, p).phase[p].WriteDone? == done
    ensures DoWriteSection(s, p).rcond == if wake then Raise(s.rcond) else s.rcond
  {
    RingSize(pipe.buffer[..], pipe.lo, pipe.hi);
    WriteSectionMoves(s, p);
    n := pipe.Put(left);
    RingSize(pipe.buffer[..], pipe.lo, pipe.hi);
    wake := pipe.hi != pipe.lo;
    done := n == |left|;
  }
}
