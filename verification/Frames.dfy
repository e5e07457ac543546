/**
 * The physical frame allocator of kernel/mem.c: a bitmap of 32-bit words plus a
 * stack of at most 128 recently freed frames.
 */
module Frames {
  import opened Common

  const WORD_BITS: nat := 32
  const FREE_STACK_SIZE: nat := 128
  /** (size_t)-1 on i686. */
  const FULL: nat := 0xffff_ffff

  // ---------------------------------------------------------------- one word
  // A size_t is a number below 2^32, and its bits are read off by halving.

  predicate Bit(w: nat, b: nat) {
    if b == 0 then w % 2 == 1 else Bit(w / 2, b - 1)
  }

  /** w | (1 << b), or w & ~(1 << b). */
  function WithBit(w: nat, b: nat, v: bool): nat {
    if b == 0 then w / 2 * 2 + (if v then 1 else 0)
    else WithBit(w / 2, b - 1, v) * 2 + w % 2
  }

  /** Writing a bit sets that bit and no other. */
  lemma {:induction false} WithBitFrame(w: nat, b: nat, v: bool, c: nat)
    ensures Bit(WithBit(w, b, v), c) == if c == b then v else Bit(w, c)
  {
    if b > 0 && c > 0 {
      WithBitFrame(w / 2, b - 1, v, c - 1);
    }
  }

  function Pow2(n: nat): (p: nat)
    ensures p > 0
  {
    if n == 0 then 1 else 2 * Pow2(n - 1)
  }

  lemma Pow2Word()
    ensures Pow2(WORD_BITS) == FULL + 1
  {
    assert Pow2(8) == 256;
    assert Pow2(16) == 65536;
    assert Pow2(24) == 0x100_0000;
  }

  lemma {:induction false} WithBitRange(w: nat, b: nat, v: bool, n: nat)
    requires b < n && w < Pow2(n)
    ensures WithBit(w, b, v) < Pow2(n)
  {
    if b > 0 {
      WithBitRange(w / 2, b - 1, v, n - 1);
    }
  }

  lemma {:induction false} OnesHaveAllBits(n: nat, b: nat)
    requires b < n
    ensures Bit(Pow2(n) - 1, b)
  {
    if b > 0 {
      assert (Pow2(n) - 1) / 2 == Pow2(n - 1) - 1;
      OnesHaveAllBits(n - 1, b - 1);
    }
  }

  ghost predicate AllBits(w: nat, n: nat) {
    forall b: nat | b < n :: Bit(w, b)
  }

  lemma {:induction false} AllBitsAreOnes(w: nat, n: nat)
    requires w < Pow2(n)
    requires AllBits(w, n)
    ensures w == Pow2(n) - 1
  {
    if n > 0 {
      assert Bit(w, 0);
      forall b: nat | b < n - 1 ensures Bit(w / 2, b) { assert Bit(w, b + 1); }
      AllBitsAreOnes(w / 2, n - 1);
    }
  }

  lemma OnesIffAllBits(w: nat, n: nat)
    requires w < Pow2(n)
    ensures w == Pow2(n) - 1 <==> AllBits(w, n)
  {
    if w == Pow2(n) - 1 {
      forall b: nat | b < n ensures Bit(w, b) { OnesHaveAllBits(n, b); }
    } else if AllBits(w, n) {
      AllBitsAreOnes(w, n);
    }
  }

  /** The comparison with (size_t)-1 decides whether every bit is set. */
  lemma FullIsAllBits(w: nat)
    requires w <= FULL
    ensures w == FULL <==> AllBits(w, WORD_BITS)
  {
    Pow2Word();
    OnesIffAllBits(w, WORD_BITS);
  }

  /** The first clear bit at or above b: what __builtin_ctzl(~w) finds from 0. */
  function FirstClear(w: nat, b: nat): (r: nat)
    requires b <= WORD_BITS
    ensures b <= r <= WORD_BITS
    ensures forall c | b <= c < r :: Bit(w, c)
    ensures r < WORD_BITS ==> !Bit(w, r)
    decreases WORD_BITS - b
  {
    if b == WORD_BITS || !Bit(w, b) then b else FirstClear(w, b + 1)
  }

  // ------------------------------------------------------------- the allocator

  /**
   * `base` is mem_base/PAGE_SIZE, `words` the bitmap, `stack` the free stack up to
   * its top. Frame numbers are page numbers: bit k stands for page base + k.
   */
  datatype State = State(base: nat, words: seq<nat>, stack: seq<nat>)

  predicate InRange(s: State, page: nat) {
    s.base <= page < s.base + WORD_BITS * |s.words|
  }

  predicate IsSet(words: seq<nat>, k: nat)
    requires k < WORD_BITS * |words|
  {
    Bit(words[k / WORD_BITS], k % WORD_BITS)
  }

  function SetTo(words: seq<nat>, k: nat, v: bool): seq<nat>
    requires k < WORD_BITS * |words|
  {
    words[k / WORD_BITS := WithBit(words[k / WORD_BITS], k % WORD_BITS, v)]
  }

  predicate Taken(s: State, page: nat) {
    InRange(s, page) && IsSet(s.words, page - s.base)
  }

  /** The pages whose bit is set. */
  ghost function Allocated(s: State): set<nat> {
    set page: nat | page < s.base + WORD_BITS * |s.words| && Taken(s, page)
  }

  ghost predicate WordsOk(words: seq<nat>) {
    forall i | 0 <= i < |words| :: words[i] <= FULL
  }

  /** The free stack holds distinct pages of the region, all of them free. */
  ghost predicate StackOk(s: State) {
    && |s.stack| <= FREE_STACK_SIZE
    && (forall i | 0 <= i < |s.stack| :: InRange(s, s.stack[i]) && s.stack[i] !in Allocated(s))
    && (forall i, j | 0 <= i < j < |s.stack| :: s.stack[i] != s.stack[j])
  }

  ghost predicate Inv(s: State) {
    s.base > 0 && WordsOk(s.words) && StackOk(s)
  }

  lemma SetToBit(words: seq<nat>, k: nat, v: bool, q: nat)
    requires k < WORD_BITS * |words| && q < WORD_BITS * |words|
    ensures IsSet(SetTo(words, k, v), q) == if q == k then v else IsSet(words, q)
  {
    if q / WORD_BITS == k / WORD_BITS {
      WithBitFrame(words[k / WORD_BITS], k % WORD_BITS, v, q % WORD_BITS);
    }
  }

  lemma SetToWordsOk(words: seq<nat>, k: nat, v: bool)
    requires k < WORD_BITS * |words| && WordsOk(words)
    ensures WordsOk(SetTo(words, k, v))
  {
    Pow2Word();
    WithBitRange(words[k / WORD_BITS], k % WORD_BITS, v, WORD_BITS);
  }

  lemma SetToFrame(s: State, page: nat, v: bool)
    requires InRange(s, page)
    ensures var s' := s.(words := SetTo(s.words, page - s.base, v));
            Allocated(s') == if v then Allocated(s) + {page} else Allocated(s) - {page}
  {
    var s' := s.(words := SetTo(s.words, page - s.base, v));
    forall p: nat | InRange(s, p)
      ensures Taken(s', p) == if p == page then v else Taken(s, p)
    {
      SetToBit(s.words, page - s.base, v, p - s.base);
    }
  }

  /** The index of the last word below n that is not full, or -1. */
  function ScanDown(words: seq<nat>, n: nat): (r: int)
    requires n <= |words|
    ensures -1 <= r < n
    ensures r >= 0 ==> words[r] != FULL
    ensures forall i | r < i < n :: words[i] == FULL
  {
    if n == 0 then -1 else if words[n - 1] != FULL then n - 1 else ScanDown(words, n - 1)
  }

  /** alloc_page: the page on top of the stack, else the first clear bit of the last word with one. */
  function NextPage(s: State): Option<nat> {
    if |s.stack| > 0 then Some(s.stack[|s.stack| - 1])
    else
      var i := ScanDown(s.words, |s.words|);
      if i < 0 then None else Some(s.base + i * WORD_BITS + FirstClear(s.words[i], 0))
  }

  lemma NextPageIsFree(s: State)
    requires Inv(s)
    ensures NextPage(s).Some? ==> InRange(s, NextPage(s).value) && NextPage(s).value !in Allocated(s)
    ensures NextPage(s).None? ==> forall p: nat | InRange(s, p) :: p in Allocated(s)
  {
    if |s.stack| == 0 {
      var i := ScanDown(s.words, |s.words|);
      if i >= 0 {
        FullIsAllBits(s.words[i]);
        var b := FirstClear(s.words[i], 0);
        assert (i * WORD_BITS + b) / WORD_BITS == i && (i * WORD_BITS + b) % WORD_BITS == b;
      } else {
        forall p: nat | InRange(s, p) ensures p in Allocated(s) {
          var k := (p - s.base) / WORD_BITS;
          assert s.words[k] == FULL;
          FullIsAllBits(s.words[k]);
          assert Bit(s.words[k], (p - s.base) % WORD_BITS);
        }
      }
    }
  }

  /** The state after alloc_page has returned NextPage(s). */
  function AfterAlloc(s: State): State
    requires NextPage(s).Some? && InRange(s, NextPage(s).value)
  {
    s.(words := SetTo(s.words, NextPage(s).value - s.base, true),
       stack := if |s.stack| > 0 then s.stack[..|s.stack| - 1] else [])
  }

  /** free_page: page 0 is ignored, and a full stack only loses the shortcut, not the page. */
  function AfterFree(s: State, page: nat): State
    requires page == 0 || InRange(s, page)
  {
    if page == 0 then s
    else
      s.(words := SetTo(s.words, page - s.base, false),
         stack := if |s.stack| < FREE_STACK_SIZE then s.stack + [page] else s.stack)
  }

  lemma InRangeOf(s: State, page: nat)
    requires page in Allocated(s)
    ensures InRange(s, page)
  {
  }

  /**
   * alloc_page hands out a page that was free and marks that page only, whether it
   * comes from the stack or from the bitmap; it fails only when every page is taken.
   */
  lemma AllocTakesOneFreePage(s: State)
    requires Inv(s)
    ensures NextPage(s).None? <==> forall p: nat | InRange(s, p) :: p in Allocated(s)
    ensures NextPage(s).Some? ==>
              var page := NextPage(s).value;
              && page > 0 && InRange(s, page) && page !in Allocated(s)
              && var s' := AfterAlloc(s);
              && Allocated(s') == Allocated(s) + {page}
              && s'.base == s.base && |s'.words| == |s.words|
              && Inv(s')
  {
    NextPageIsFree(s);
    if NextPage(s).Some? {
      SetToFrame(s, NextPage(s).value, true);
      SetToWordsOk(s.words, NextPage(s).value - s.base, true);
      var s' := AfterAlloc(s);
      SameAllocated(s.(words := s'.words), s');
      hide Allocated, WordsOk;
      AllocKeepsStack(s);
    }
  }

  lemma SameAllocated(s: State, s': State)
    requires s'.base == s.base && s'.words == s.words
    ensures Allocated(s') == Allocated(s)
  {
  }

  lemma AllocKeepsStack(s: State)
    requires StackOk(s) && NextPage(s).Some? && InRange(s, NextPage(s).value)
    requires |AfterAlloc(s).words| == |s.words|
    requires Allocated(AfterAlloc(s)) == Allocated(s) + {NextPage(s).value}
    ensures StackOk(AfterAlloc(s))
  {
    hide Allocated, SetTo;
  }

  /** free_page of an allocated page releases that page only; the stack never repeats a page. */
  lemma FreeReleasesOnePage(s: State, page: nat)
    requires Inv(s)
    requires page in Allocated(s)
    ensures var s' := AfterFree(s, page);
            && Allocated(s') == Allocated(s) - {page}
            && s'.base == s.base && |s'.words| == |s.words|
            && Inv(s')
  {
    SetToFrame(s, page, false);
    SetToWordsOk(s.words, page - s.base, false);
    var s' := AfterFree(s, page);
    assert Allocated(s') == Allocated(s.(words := s'.words));
  }

  /** While the stack has room, the page freed last is the next one handed out, and that undoes the free. */
  lemma FreeThenAlloc(s: State, page: nat)
    requires Inv(s) && page in Allocated(s) && |s.stack| < FREE_STACK_SIZE
    ensures InRange(s, page)
    ensures var s' := AfterFree(s, page);
            NextPage(s') == Some(page) && InRange(s', page) && AfterAlloc(s').stack == s.stack
            && Allocated(AfterAlloc(s')) == Allocated(s)
  {
    InRangeOf(s, page);
    FreeReleasesOnePage(s, page);
    hide Allocated, Inv, SetTo;
    AllocTakesOneFreePage(AfterFree(s, page));
  }

  predicate SameRange(s: State, s': State) {
    s'.base == s.base && |s'.words| == |s.words|
  }

  /** The pages of the range that nobody holds. */
  ghost function Unused(s: State): set<nat> {
    set page: nat | page < s.base + WORD_BITS * |s.words| && InRange(s, page) && page !in Allocated(s)
  }

  /** alloc_page succeeds exactly while a page is unused, and uses up one. */
  lemma AllocUsesOne(s: State)
    requires Inv(s)
    ensures NextPage(s).Some? <==> |Unused(s)| > 0
    ensures NextPage(s).Some? ==>
              && InRange(s, NextPage(s).value) && NextPage(s).value in Unused(s)
              && Unused(AfterAlloc(s)) == Unused(s) - {NextPage(s).value}
              && |Unused(AfterAlloc(s))| == |Unused(s)| - 1
  {
    hide Allocated, NextPage, AfterAlloc, Inv;
    AllocTakesOneFreePage(s);
    if NextPage(s).Some? {
      assert Unused(AfterAlloc(s)) == Unused(s) - {NextPage(s).value};
    } else {
      assert Unused(s) == {};
    }
  }

  /** free_page makes exactly that page unused again. */
  lemma FreeGivesBack(s: State, page: nat)
    requires Inv(s) && page in Allocated(s)
    ensures InRange(s, page)
    ensures Unused(AfterFree(s, page)) == Unused(s) + {page}
    ensures |Unused(AfterFree(s, page))| == |Unused(s)| + 1
  {
    InRangeOf(s, page);
    hide Allocated, AfterFree, Inv;
    FreeReleasesOnePage(s, page);
    assert Unused(AfterFree(s, page)) == Unused(s) + {page};
  }

  // -------------------------------------------------------------------- runs

  datatype Event = Issued(page: nat) | Released(page: nat)

  /**
   * One call. Released(p) is enabled only where the double-free assertion holds, and
   * Issued(p) only where alloc_page really returns p.
   */
  ghost predicate Step(s: State, e: Event, s': State) {
    match e
    case Issued(p) => NextPage(s) == Some(p) && InRange(s, p) && s' == AfterAlloc(s)
    case Released(p) => (p == 0 || Taken(s, p)) && s' == AfterFree(s, p)
  }

  ghost predicate Run(s0: State, trace: seq<Event>, states: seq<State>) {
    && |states| == |trace| + 1
    && states[0] == s0
    && forall k | 0 <= k < |trace| :: Step(states[k], trace[k], states[k + 1])
  }

  /** What the callers hold, read off the trace alone. */
  ghost function Outstanding(trace: seq<Event>): set<nat> {
    if trace == [] then {}
    else
      var before := Outstanding(trace[..|trace| - 1]);
      match trace[|trace| - 1]
      case Issued(p) => before + {p}
      case Released(p) => before - {p}
  }

  function WordCount(nframes: nat): nat {
    (nframes + WORD_BITS - 1) / WORD_BITS
  }

  function Init(base: nat, nframes: nat): State {
    State(base, seq(WordCount(nframes), _ => 0), [])
  }

  lemma {:induction false} ZeroHasNoBits(b: nat)
    ensures !Bit(0, b)
  {
    if b > 0 { ZeroHasNoBits(b - 1); }
  }

  lemma InitIsFree(base: nat, nframes: nat)
    requires base > 0
    ensures Inv(Init(base, nframes)) && Allocated(Init(base, nframes)) == {}
  {
    var s := Init(base, nframes);
    forall p: nat | InRange(s, p) ensures !Taken(s, p) {
      ZeroHasNoBits((p - base) % WORD_BITS);
    }
  }

  ghost function Interval(lo: nat, n: nat): (pages: set<nat>)
    ensures |pages| == n
    ensures forall page :: page in pages <==> lo <= page < lo + n
  {
    if n == 0 then {} else Interval(lo, n - 1) + {lo + n - 1}
  }

  /** At the start every page of the bitmap is unused, the padding of the last word included. */
  lemma InitRoom(base: nat, nframes: nat)
    requires base > 0
    ensures |Unused(Init(base, nframes))| == WORD_BITS * WordCount(nframes)
  {
    hide Allocated;
    var s := Init(base, nframes);
    InitIsFree(base, nframes);
    assert Unused(s) == Interval(base, WORD_BITS * |s.words|);
  }

  lemma StepKeeps(s: State, e: Event, s': State)
    requires Inv(s) && Step(s, e, s')
    ensures Inv(s') && s'.base == s.base && |s'.words| == |s.words|
    ensures Allocated(s') == match e
                             case Issued(p) => Allocated(s) + {p}
                             case Released(p) => Allocated(s) - {p}
    ensures e.Issued? ==> e.page !in Allocated(s)
  {
    match e
    case Issued(p) => AllocTakesOneFreePage(s);
    case Released(p) => if p != 0 { FreeReleasesOnePage(s, p); }
  }

  /**
   * Over every run the bitmap is exactly the set of outstanding pages, the stack stays
   * consistent with it, and no page is issued while somebody still holds it.
   */
  lemma {:induction false} RunIssuesFreshPages(base: nat, nframes: nat, trace: seq<Event>, states: seq<State>, k: nat)
    requires base > 0 && Run(Init(base, nframes), trace, states)
    requires k <= |trace|
    ensures Inv(states[k]) && states[k].base == base && |states[k].words| == WordCount(nframes)
    ensures Allocated(states[k]) == Outstanding(trace[..k])
    ensures k < |trace| && trace[k].Issued? ==> trace[k].page !in Outstanding(trace[..k])
  {
    if k == 0 {
      InitIsFree(base, nframes);
    } else {
      RunIssuesFreshPages(base, nframes, trace, states, k - 1);
      StepKeeps(states[k - 1], trace[k - 1], states[k]);
      assert trace[..k][..k - 1] == trace[..k - 1];
    }
    if k < |trace| {
      StepKeeps(states[k], trace[k], states[k + 1]);
    }
  }

  // ------------------------------------------------ the tail of the last word

  lemma {:induction false} OnesFirstClear(k: nat, b: nat)
    requires b <= k < WORD_BITS
    ensures FirstClear(Pow2(k) - 1, b) == k
    decreases k - b
  {
    if b < k {
      OnesHaveAllBits(k, b);
      OnesFirstClear(k, b + 1);
    } else {
      OnesNextBit(k);
    }
  }

  lemma {:induction false} OnesNextBit(k: nat)
    ensures !Bit(Pow2(k) - 1, k)
    ensures WithBit(Pow2(k) - 1, k, true) == Pow2(k + 1) - 1
  {
    if k > 0 {
      HalveOnes(k);
      OnesNextBit(k - 1);
      hide Pow2;
    }
  }

  lemma HalveOnes(k: nat)
    requires k > 0
    ensures Pow2(k) == 2 * Pow2(k - 1) && Pow2(k + 1) == 2 * Pow2(k)
    ensures (Pow2(k) - 1) / 2 == Pow2(k - 1) - 1 && (Pow2(k) - 1) % 2 == 1
  {
  }

  lemma {:induction false} Pow2Grows(m: nat, n: nat)
    requires m < n
    ensures Pow2(m) < Pow2(n)
  {
    if m + 1 < n { Pow2Grows(m, n - 1); }
  }

  /** The state after k allocations from a fresh region, while the last word lasts. */
  function Filled(base: nat, nframes: nat, k: nat): State
    requires nframes > 0
  {
    var zero := Init(base, nframes);
    zero.(words := zero.words[|zero.words| - 1 := Pow2(k) - 1])
  }

  lemma FilledNext(base: nat, nframes: nat, k: nat)
    requires nframes > 0 && k < WORD_BITS
    ensures NextPage(Filled(base, nframes, k)) == Some(base + WORD_BITS * (WordCount(nframes) - 1) + k)
  {
    var s := Filled(base, nframes, k);
    Pow2Word();
    Pow2Grows(k, WORD_BITS);
    assert ScanDown(s.words, |s.words|) == |s.words| - 1;
    OnesFirstClear(k, 0);
  }

  lemma FilledSet(base: nat, nframes: nat, k: nat)
    requires nframes > 0 && k < WORD_BITS
    ensures SetTo(Filled(base, nframes, k).words, WORD_BITS * (WordCount(nframes) - 1) + k, true)
         == Filled(base, nframes, k + 1).words
  {
    var last := WordCount(nframes) - 1;
    OnesNextBit(k);
    assert (WORD_BITS * last + k) / WORD_BITS == last && (WORD_BITS * last + k) % WORD_BITS == k;
  }

  lemma FilledStep(base: nat, nframes: nat, k: nat)
    requires nframes > 0 && k < WORD_BITS
    ensures Step(Filled(base, nframes, k),
                 Issued(base + WORD_BITS * (WordCount(nframes) - 1) + k),
                 Filled(base, nframes, k + 1))
  {
    FilledNext(base, nframes, k);
    FilledSet(base, nframes, k);
  }

  ghost predicate IssuesBelow(trace: seq<Event>, limit: nat) {
    forall k | 0 <= k < |trace| && trace[k].Issued? :: trace[k].page < limit
  }

  ghost predicate KeepsToRegion(base: nat, nframes: nat) {
    forall trace: seq<Event>, states: seq<State> ::
      Run(Init(base, nframes), trace, states) ==> IssuesBelow(trace, base + nframes)
  }

  lemma WholeWordsKeep(base: nat, nframes: nat, trace: seq<Event>, states: seq<State>)
    requires base > 0 && nframes % WORD_BITS == 0
    requires Run(Init(base, nframes), trace, states)
    ensures IssuesBelow(trace, base + nframes)
  {
    assert WORD_BITS * WordCount(nframes) == nframes;
    forall k | 0 <= k < |trace| && trace[k].Issued? ensures trace[k].page < base + nframes {
      RunIssuesFreshPages(base, nframes, trace, states, k);
      assert Step(states[k], trace[k], states[k + 1]);
    }
  }

  /** A run that issues the page just past the region. */
  lemma TailRun(base: nat, nframes: nat) returns (trace: seq<Event>, states: seq<State>)
    requires base > 0 && nframes % WORD_BITS != 0
    ensures Run(Init(base, nframes), trace, states)
    ensures !IssuesBelow(trace, base + nframes)
  {
    var t := nframes % WORD_BITS;
    trace := seq(t + 1, k requires 0 <= k <= t => Issued(base + WORD_BITS * (WordCount(nframes) - 1) + k));
    states := seq(t + 2, k requires 0 <= k => Filled(base, nframes, k));
    forall k | 0 <= k < |trace| ensures Step(states[k], trace[k], states[k + 1]) {
      FilledStep(base, nframes, k);
    }
    assert states[0] == Init(base, nframes);
    assert trace[t].page == base + nframes;
  }

  /**
   * The scan ignores that the last word may be partly used, so the pages issued stay
   * inside the region in every run exactly when its size is a whole number of words.
   */
  lemma RegionKeptIffWholeWords(base: nat, nframes: nat)
    requires base > 0
    ensures KeepsToRegion(base, nframes) <==> nframes % WORD_BITS == 0
  {
    if nframes % WORD_BITS == 0 {
      forall trace: seq<Event>, states: seq<State> | Run(Init(base, nframes), trace, states)
        ensures IssuesBelow(trace, base + nframes)
      {
        WholeWordsKeep(base, nframes, trace, states);
      }
    } else {
      var trace, states := TailRun(base, nframes);
    }
  }

  // ------------------------------------------------------------ the operations

  /** The allocator's static variables: the bitmap, the stack and its top. */
  class FrameAllocator {
    const basePage: nat
    const nframes: nat
    const frames: array<nat>
    const freeStack: array<nat>
    var freeStackTop: nat

    ghost predicate Wf()
      reads this, frames, freeStack
    {
      && frames != freeStack
      && frames.Length == WordCount(nframes) && nframes > 0
      && freeStack.Length == FREE_STACK_SIZE
      && freeStackTop <= FREE_STACK_SIZE
    }

    ghost function Model(): State
      reads this, frames, freeStack
      requires Wf()
    {
      State(basePage, frames[..], freeStack[..freeStackTop])
    }

    ghost predicate Valid()
      reads this, frames, freeStack
    {
      Wf() && Inv(Model())
    }

    constructor (base: nat, length: nat)
      requires base > 0 && length > 0
      ensures Valid() && fresh(frames) && fresh(freeStack)
      ensures Model() == Init(base, length) && Allocated(Model()) == {}
    {
      basePage := base;
      nframes := length;
      frames := new nat[WordCount(length)](_ => 0);
      freeStack := new nat[FREE_STACK_SIZE];
      freeStackTop := 0;
      new;
      assert Model() == Init(base, length);
      InitIsFree(base, length);
    }

    method SetBit(k: nat, v: bool)
      requires k < WORD_BITS * frames.Length
      modifies frames
      ensures frames[..] == SetTo(old(frames[..]), k, v)
    {
      frames[k / WORD_BITS] := WithBit(frames[k / WORD_BITS], k % WORD_BITS, v);
    }

    /** The loop of alloc_page, from the last word down to word 0. */
    method LastWordWithRoom() returns (i: int)
      requires Wf()
      ensures i == ScanDown(frames[..], frames.Length)
    {
      i := (nframes - 1) / WORD_BITS;
      while i >= 0
        invariant -1 <= i < frames.Length
        invariant ScanDown(frames[..], frames.Length) == ScanDown(frames[..], i + 1)
      {
        if frames[i] != FULL {
          return;
        }
        i := i - 1;
      }
    }

    /** The stack half of alloc_page; its two assertions are what the middle clauses say. */
    method PopFrame() returns (frame: nat)
      requires Valid() && freeStackTop > 0
      modifies this`freeStackTop, frames
      ensures Wf() && Some(frame) == NextPage(old(Model()))
      ensures frame !in old(Allocated(Model())) && frame != 0 && InRange(old(Model()), frame)
      ensures Model() == AfterAlloc(old(Model()))
    {
      AllocTakesOneFreePage(Model());
      hide Inv, Allocated, SetTo, ScanDown;
      ghost var top := freeStackTop - 1;
      assert freeStack[..freeStackTop][..top] == freeStack[..top];
      freeStackTop := freeStackTop - 1;
      frame := freeStack[freeStackTop];
      SetBit(frame - basePage, true);
      assert Model() == AfterAlloc(old(Model()));
    }

    /** None stands for the scan running off the bottom of a full bitmap. */
    method TakeFromBitmap() returns (page: Option<nat>)
      requires Wf() && freeStackTop == 0
      requires NextPage(Model()).Some? ==> InRange(Model(), NextPage(Model()).value)
      modifies frames
      ensures Wf() && page == NextPage(old(Model()))
      ensures Model() == if page.Some? then AfterAlloc(old(Model())) else old(Model())
    {
      var i := LastWordWithRoom();
      if i < 0 {
        return None;
      }
      var bit := FirstClear(frames[i], 0);
      SetBit(i * WORD_BITS + bit, true);
      return Some(basePage + i * WORD_BITS + bit);
    }

    /** alloc_page. */
    method AllocPage() returns (page: Option<nat>)
      requires Valid()
      modifies this`freeStackTop, frames
      ensures Valid()
      ensures page == NextPage(old(Model()))
      ensures page.Some? ==> InRange(old(Model()), page.value)
      ensures Model() == if page.Some? then AfterAlloc(old(Model())) else old(Model())
    {
      AllocTakesOneFreePage(Model());
      if freeStackTop > 0 {
        var frame := PopFrame();
        page := Some(frame);
      } else {
        page := TakeFromBitmap();
      }
    }

    /** free_page; the double-free assertion is the precondition. */
    method FreePage(page: nat)
      requires Valid()
      requires page == 0 || page in Allocated(Model())
      modifies this`freeStackTop, frames, freeStack
      ensures Valid()
      ensures Model() == AfterFree(old(Model()), page)
    {
      if page == 0 {
        return;
      }
      ghost var s := Model();
      FreeReleasesOnePage(s, page);
      InRangeOf(s, page);
      hide Inv, Allocated;
      if freeStackTop < FREE_STACK_SIZE {
        freeStack[freeStackTop] := page;
        freeStackTop := freeStackTop + 1;
        assert freeStack[..freeStackTop] == s.stack + [page];
      }
      SetBit(page - basePage, false);
      assert Model() == AfterFree(s, page);
    }
  }
}
