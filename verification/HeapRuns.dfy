/** Coalescing in the kernel heap, and whole runs of heap calls. */
module HeapRuns {
  import opened Common
  import opened Heap
  import opened HeapOps

  // --------------------------------------------------------------- coalescing

  lemma TakeFreeCoalesced(s: State, i: nat, size: nat)
    requires NoFreeNeighbours(s.blocks) && i < |s.blocks| && !s.blocks[i].used
    ensures NoFreeNeighbours(TakeFree(s, i, size).blocks)
  {
  }

  lemma MallocCoalesced(s: State, size: nat)
    requires NoFreeNeighbours(s.blocks)
    ensures NoFreeNeighbours(Malloc(s, size).s.blocks)
  {
    var i := FindFree(s.blocks, size, |s.blocks|);
    if size > 0 && i >= 0 { TakeFreeCoalesced(s, i, size); }
  }

  lemma MergeNextCoalesced(s: State, i: nat)
    requires NoFreeNeighbours(s.blocks) && i < |s.blocks|
    requires i + 1 < |s.blocks| ==> s.blocks[i].addr <= s.blocks[i + 1].addr
    ensures var bs := MergeIfFree(SetUsed(s, i, false), i).blocks;
            && i < |bs| && bs[..i] == s.blocks[..i] && bs[i].addr == s.blocks[i].addr
            && !FreeAt(bs, i + 1)
            && (forall k | i < k < |bs| - 1 :: bs[k].used || bs[k + 1].used)
  {
  }

  lemma FreeBlockCoalesced(s: State, i: nat)
    requires Inv(s) && NoFreeNeighbours(s.blocks) && i < |s.blocks| && s.blocks[i].used
    ensures NoFreeNeighbours(FreeBlock(s, i).blocks)
  {
    hide Aligned8, HeadersClean, MergeIfFree, MergeNext, NoFreeNeighbours;
    MergeNextCoalesced(s, i);
    var s1 := MergeIfFree(SetUsed(s, i, false), i);
    if i > 0 {
      assert s1.blocks[i - 1] == s1.blocks[..i][i - 1] == s.blocks[..i][i - 1];
      Ordered(s.blocks, i - 1, i);
    }
    MergePrevCoalesced(s, s1, i);
  }

  lemma MergePrevCoalesced(s: State, s1: State, i: nat)
    requires NoFreeNeighbours(s.blocks) && i < |s.blocks| && i < |s1.blocks|
    requires s1.blocks[..i] == s.blocks[..i] && (i > 0 ==> s1.blocks[i - 1].addr <= s1.blocks[i].addr)
    requires !FreeAt(s1.blocks, i + 1)
    requires forall k | i < k < |s1.blocks| - 1 :: s1.blocks[k].used || s1.blocks[k + 1].used
    ensures NoFreeNeighbours((if FreeAt(s1.blocks, i - 1) then MergeNext(s1, i - 1) else s1).blocks)
  {
    var bs := s1.blocks;
    forall k | 0 <= k < i - 1 ensures bs[k].used || bs[k + 1].used {
      assert bs[k] == s1.blocks[..i][k] && bs[k + 1] == s1.blocks[..i][k + 1];
      assert s.blocks[k].used || s.blocks[k + 1].used;
    }
    if FreeAt(bs, i - 1) {
      var r := MergeNext(s1, i - 1).blocks;
      forall k | 0 <= k < |r| - 1 ensures r[k].used || r[k + 1].used {
        if k + 1 < i {
          assert r[k] == bs[k];
        } else if k + 1 == i {
          assert r[k + 1] == bs[i + 1];
        } else {
          assert r[k] == bs[k + 1] && r[k + 1] == bs[k + 2];
        }
      }
    }
  }

  lemma FreeCoalesced(s: State, ptr: nat)
    requires Inv(s) && NoFreeNeighbours(s.blocks) && (ptr == 0 || Live(s, ptr))
    ensures NoFreeNeighbours(Free(s, ptr).blocks)
  {
    if ptr != 0 { FreeBlockCoalesced(s, At(s, ptr)); }
  }

  /** The one call that leaves two free neighbours: krealloc cutting a block whose next one is free. */
  predicate LeavesGap(s: State, ptr: nat, size: nat) {
    ptr != 0 && At(s, ptr) >= 0 && Splits(s.blocks[At(s, ptr)], size) && FreeAt(s.blocks, At(s, ptr) + 1)
  }

  lemma ShrinkCoalesced(s: State, i: nat, size: nat)
    requires NoFreeNeighbours(s.blocks) && i < |s.blocks| && s.blocks[i].used
    ensures NoFreeNeighbours(Shrink(s, i, size).blocks) <==>
            !(Splits(s.blocks[i], size) && FreeAt(s.blocks, i + 1))
  {
    hide AlignUp;
    var r := Shrink(s, i, size).blocks;
    if Splits(s.blocks[i], size) {
      assert r[i + 1] == Rest(s.blocks[i], size) && !r[i + 1].used;
      assert i + 1 < |s.blocks| ==> r[i + 2] == s.blocks[i + 1];
      assert FreeAt(s.blocks, i + 1) ==> !(r[i + 1].used || r[i + 1 + 1].used);
      forall k | 0 <= k < |r| - 1 && k != i + 1 ensures r[k].used || r[k + 1].used {
        if k + 1 < i {
          assert r[k] == s.blocks[k] && r[k + 1] == s.blocks[k + 1];
        } else if k > i + 1 {
          assert r[k] == s.blocks[k - 1] && r[k + 1] == s.blocks[k];
        }
      }
    }
  }

  lemma AbsorbCoalesced(s: State, i: nat)
    requires NoFreeNeighbours(s.blocks) && i + 1 < |s.blocks| && s.blocks[i].used
    requires s.blocks[i].addr <= s.blocks[i + 1].addr
    ensures NoFreeNeighbours(MergeNext(s, i).blocks)
  {
  }

  lemma MoveCoalesced(s: State, i: nat, size: nat)
    requires Inv(s) && NoFreeNeighbours(s.blocks) && i < |s.blocks| && s.blocks[i].used && size >= s.blocks[i].len
    requires size > 0
    ensures var r := Malloc(s, size);
            var b := s.blocks[i];
            var s1 := r.s.(data := CopyBytes(r.s.data, r.ptr, Payload(b), b.len));
            NoFreeNeighbours(Free(s1, Payload(b)).blocks)
  {
    hide Inv, Malloc, CopyBytes, Aligned8, SameByte, Free, NoFreeNeighbours;
    var b0 := s.blocks[i];
    MallocCoalesced(s, size);
    MoveCopies(s, i, size);
    var r := Malloc(s, size);
    var s1 := r.s.(data := CopyBytes(r.s.data, r.ptr, Payload(b0), b0.len));
    var l :| 0 <= l < |s1.blocks| && s1.blocks[l] == b0;
    LiveAt(s1, l);
    FreeCoalesced(s1, Payload(b0));
  }

  /** krealloc keeps free blocks coalesced exactly when it does not cut a block before a free one. */
  lemma ReallocCoalescedIff(s: State, ptr: nat, size: nat)
    requires Inv(s) && NoFreeNeighbours(s.blocks) && (ptr == 0 || Live(s, ptr))
    ensures NoFreeNeighbours(Realloc(s, ptr, size).s.blocks) <==> !LeavesGap(s, ptr, size)
  {
    hide Shrink, MergeNext, Free, CopyBytes, Aligned8;
    if ptr == 0 {
      MallocCoalesced(s, size);
    } else {
      var i := At(s, ptr);
      var b := s.blocks[i];
      if size < b.len {
        ShrinkCoalesced(s, i, size);
      } else if i == |s.blocks| - 1 {
      } else if FreeAt(s.blocks, i + 1) && s.blocks[i + 1].addr - b.addr + s.blocks[i + 1].len >= size {
        assert b.addr <= s.blocks[i + 1].addr;
        AbsorbCoalesced(s, i);
      } else if size > 0 {
        MoveCopies(s, i, size);
        MoveCoalesced(s, i, size);
      } else {
        FreeCoalesced(s, ptr);
      }
    }
  }

  // --------------------------------------------------------------------- runs

  datatype Op =
    | DoMalloc(size: nat)
    | DoRealloc(ptr: nat, size: nat)
    | DoFree(ptr: nat)
    | DoWrite(ptr: nat, off: nat, b: Byte)

  /** Callers pass NULL or a live pointer, and write inside their region. */
  predicate Enabled(s: State, op: Op) {
    match op
    case DoMalloc(_) => true
    case DoRealloc(ptr, _) => ptr == 0 || Live(s, ptr)
    case DoFree(ptr) => ptr == 0 || Live(s, ptr)
    case DoWrite(ptr, off, _) => ptr != 0 && Live(s, ptr) && off < s.blocks[At(s, ptr)].len
  }

  function Exec(s: State, op: Op): State {
    match op
    case DoMalloc(size) => Malloc(s, size).s
    case DoRealloc(ptr, size) => Realloc(s, ptr, size).s
    case DoFree(ptr) => Free(s, ptr)
    case DoWrite(ptr, off, b) => s.(data := s.data[ptr + off := b])
  }

  predicate ActsOn(op: Op, ptr: nat) {
    match op
    case DoMalloc(_) => false
    case DoRealloc(p, _) => p == ptr
    case DoFree(p) => p == ptr
    case DoWrite(p, _, _) => p == ptr
  }

  ghost predicate Run(s0: State, ops: seq<Op>, states: seq<State>) {
    && |states| == |ops| + 1 && states[0] == s0
    && forall k | 0 <= k < |ops| :: Enabled(states[k], ops[k]) && states[k + 1] == Exec(states[k], ops[k])
  }

  lemma WriteInside(s: State, ptr: nat, off: nat, v: Byte)
    requires Inv(s) && Enabled(s, DoWrite(ptr, off, v))
    ensures var s' := Exec(s, DoWrite(ptr, off, v));
            Inv(s') && forall b | b in s.blocks && Payload(b) != ptr :: Keeps(s, s', b)
  {
    hide Aligned8;
    var i := At(s, ptr);
    var s' := Exec(s, DoWrite(ptr, off, v));
    forall k, a | 0 <= k < |s.blocks| && InHeader(s.blocks[k], a) ensures a !in s'.data {
      if k != i { OutsideOthers(s, i, k, ptr + off); }
    }
    forall b | b in s.blocks && Payload(b) != ptr ensures Keeps(s, s', b) {
      var k :| 0 <= k < |s.blocks| && s.blocks[k] == b;
      OutsideOthers(s, i, k, ptr + off);
    }
  }

  lemma MallocSound(s: State, size: nat)
    requires Inv(s)
    ensures Inv(Malloc(s, size).s)
    ensures forall b | b in s.blocks && b.used :: Keeps(s, Malloc(s, size).s, b)
  {
    hide Inv, SameByte;
    if size > 0 {
      hide Malloc;
      MallocFresh(s, size);
    } else {
      forall b | b in s.blocks ensures Keeps(s, s, b) { SameDataSamePayload(s, s, b); }
    }
  }

  lemma ExecSound(s: State, op: Op)
    requires Inv(s) && Enabled(s, op)
    ensures Inv(Exec(s, op))
    ensures forall b | b in s.blocks && b.used && !ActsOn(op, Payload(b)) :: Keeps(s, Exec(s, op), b)
  {
    hide Inv, Malloc, Realloc, Free, Keeps, Live;
    match op
    case DoMalloc(size) => MallocSound(s, size);
    case DoRealloc(ptr, size) => ReallocSound(s, ptr, size);
    case DoFree(ptr) => FreeExact(s, ptr);
    case DoWrite(ptr, off, b) => WriteInside(s, ptr, off, b);
  }

  lemma ReallocSound(s: State, ptr: nat, size: nat)
    requires Inv(s) && (ptr == 0 || Live(s, ptr))
    ensures Inv(Realloc(s, ptr, size).s)
    ensures forall b | b in s.blocks && b.used && Payload(b) != ptr :: Keeps(s, Realloc(s, ptr, size).s, b)
  {
    hide Inv, Keeps, Malloc;
    if ptr == 0 {
      MallocSound(s, size);
    } else {
      hide Realloc, BytesMoved;
      ReallocKeepsBytes(s, ptr, size);
    }
  }

  /** mem_init leaves an empty heap at the break. */
  function Boot(brk: nat, data: map<nat, Byte>): State {
    State([], brk, data)
  }

  /** In every run the blocks tile the heap exactly up to the break. */
  lemma {:induction false} RunTiled(brk: nat, data: map<nat, Byte>, ops: seq<Op>, states: seq<State>, k: nat)
    requires brk > 0 && Run(Boot(brk, data), ops, states) && k <= |ops|
    ensures Inv(states[k])
  {
    hide Inv, Exec, Enabled;
    if k == 0 {
      assert Inv(Boot(brk, data)) by { BootInv(brk, data); }
    } else {
      RunTiled(brk, data, ops, states, k - 1);
      ExecSound(states[k - 1], ops[k - 1]);
    }
  }

  lemma BootInv(brk: nat, data: map<nat, Byte>)
    requires brk > 0
    ensures Inv(Boot(brk, data))
  {
  }

  /** A region nobody acts on keeps its block and its bytes through any run of other calls. */
  lemma {:induction false} RunKeepsRegion(s0: State, ops: seq<Op>, states: seq<State>, k: nat, b: Block)
    requires Inv(s0) && Run(s0, ops, states) && k <= |ops|
    requires b in s0.blocks && b.used
    requires forall l | 0 <= l < k :: !ActsOn(ops[l], Payload(b))
    ensures Inv(states[k]) && Keeps(s0, states[k], b)
  {
    hide Inv, Exec, Enabled, SameByte;
    if k == 0 {
      SameDataSamePayload(s0, s0, b);
    } else {
      RunKeepsRegion(s0, ops, states, k - 1, b);
      ExecSound(states[k - 1], ops[k - 1]);
      assert Keeps(states[k - 1], states[k], b);
      SamePayloadTwice(s0, states[k - 1], states[k], b);
    }
  }

  /** Free blocks stay coalesced through any run in which no krealloc leaves a gap. */
  lemma {:induction false} RunCoalesced(brk: nat, data: map<nat, Byte>, ops: seq<Op>, states: seq<State>, k: nat)
    requires brk > 0 && Run(Boot(brk, data), ops, states) && k <= |ops|
    requires forall l | 0 <= l < k && ops[l].DoRealloc? :: !LeavesGap(states[l], ops[l].ptr, ops[l].size)
    ensures NoFreeNeighbours(states[k].blocks)
  {
    hide Inv, Malloc, Realloc, Free, Live;
    if k > 0 {
      RunCoalesced(brk, data, ops, states, k - 1);
      RunTiled(brk, data, ops, states, k - 1);
      var s := states[k - 1];
      hide NoFreeNeighbours;
      match ops[k - 1]
      case DoMalloc(size) => MallocCoalesced(s, size);
      case DoRealloc(ptr, size) => ReallocCoalescedIff(s, ptr, size);
      case DoFree(ptr) => FreeCoalesced(s, ptr);
      case DoWrite(_, _, _) =>
    }
  }

  /** A run of five calls that ends with two free neighbours. */
  lemma GapRun() returns (ops: seq<Op>, states: seq<State>)
    ensures Run(Boot(1024, map[]), ops, states) && |ops| == 5
    ensures !NoFreeNeighbours(states[5].blocks)
  {
    var s0 := Boot(1024, map[]);
    var b1, b2, b3 := Block(1024, 200, true), Block(1248, 200, true), Block(1472, 8, true);
    var s1 := State([b1], 1248, map[]);
    var s2 := State([b1, b2], 1472, map[]);
    var s3 := State([b1, b2, b3], 1504, map[]);
    var s4 := State([b1, b2.(used := false), b3], 1504, map[]);
    ops := [DoMalloc(200), DoMalloc(200), DoMalloc(8), DoFree(1272), DoRealloc(1048, 10)];
    states := [s0, s1, s2, s3, s4, Exec(s4, ops[4])];
    MallocPushes(s0, 200);
    MallocPushes(s1, 200);
    MallocPushes(s2, 8);
    assert IndexOf(s3.blocks, 1272, 2) == 1 && At(s3, 1272) == 1;
    assert Free(s3, 1272) == s4;
    assert IndexOf(s4.blocks, 1048, 2) == 0 && At(s4, 1048) == 0;
    assert LeavesGap(s4, 1048, 10);
    var r := Shrink(s4, 0, 10).blocks;
    assert r[1] == Rest(b1, 10) && r[1 + 1] == b2.(used := false);
  }

  lemma MallocPushes(s: State, size: nat)
    requires size > 0 && s.data == map[] && s.brk % 8 == 0
    requires forall k | 0 <= k < |s.blocks| :: s.blocks[k].used
    ensures Malloc(s, size).s == State(s.blocks + [Block(s.brk, size, true)], s.brk + HEADER + size, map[])
  {
  }
}
