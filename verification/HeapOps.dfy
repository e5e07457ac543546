/** What kmalloc, kfree and krealloc promise their callers, over single calls and whole runs. */
module HeapOps {
  import opened Common
  import opened Heap

  // ------------------------------------------------------------------ kmalloc

  lemma SetUsedInv(s: State, i: nat, used: bool)
    requires Inv(s) && i < |s.blocks|
    ensures Inv(SetUsed(s, i, used))
    ensures forall k | 0 <= k < |s.blocks| && k != i ::
              s.blocks[k] in SetUsed(s, i, used).blocks && s.blocks[k].addr != s.blocks[i].addr
    ensures forall b | b in SetUsed(s, i, used).blocks && b != s.blocks[i].(used := used) ::
              b in s.blocks && b.addr != s.blocks[i].addr
  {
    hide Aligned8;
    var s' := SetUsed(s, i, used);
    forall k | 0 <= k < |s.blocks| && k != i
      ensures s.blocks[k] in s'.blocks && s.blocks[k].addr != s.blocks[i].addr
    {
      assert s'.blocks[k] == s.blocks[k];
      AddrsDiffer(s.blocks, i, k);
    }
  }

  /** Block i of s is the region ptr, and it holds at least size bytes. */
  ghost predicate Holds(s: State, i: nat, ptr: nat, size: nat) {
    i < |s.blocks| && s.blocks[i].used && Payload(s.blocks[i]) == ptr && s.blocks[i].len >= size
  }

  lemma SamePayloadTwice(s: State, s1: State, s2: State, b: Block)
    requires SamePayload(s, s1, b) && SamePayload(s1, s2, b)
    ensures SamePayload(s, s2, b)
  {
  }

  lemma MarkKept(s: State, s1: State, i: nat, size: nat)
    requires Inv(s1) && i < |s.blocks| && !s.blocks[i].used && ShrinkPost(s, s1, i, size)
    ensures OthersKept(s, SetUsed(s1, i, true), 0, Payload(s.blocks[i]))
  {
    SetUsedInv(s1, i, true);
    hide Inv, SameByte;
    var s' := SetUsed(s1, i, true);
    forall b | b in s.blocks && b.used ensures Keeps(s, s', b) {
      var k :| 0 <= k < |s.blocks| && s.blocks[k] == b;
      assert Keeps(s, s1, b);
      var l :| 0 <= l < |s1.blocks| && s1.blocks[l] == b;
      assert s1.blocks[l] in s'.blocks;
      assert SamePayload(s1, s', b) by { SameDataSamePayload(s1, s', b); }
      SamePayloadTwice(s, s1, s', b);
    }
  }

  lemma SameDataSamePayload(s: State, s': State, b: Block)
    requires s'.data == s.data
    ensures SamePayload(s, s', b)
  {
  }

  lemma ShrinkSize(s: State, i: nat, size: nat)
    requires i < |s.blocks| && s.blocks[i].len >= size
    ensures var s' := Shrink(s, i, size);
            && s'.brk == s.brk && i < |s'.blocks| && s'.blocks[i].addr == s.blocks[i].addr
            && size <= s'.blocks[i].len < size + MIN_SPLIT_SIZE
  {
  }

  lemma TakeFreeWorks(s: State, i: nat, size: nat)
    requires Inv(s) && i < |s.blocks| && Fits(s.blocks[i], size)
    ensures var s' := TakeFree(s, i, size);
            && Inv(s') && s'.brk == s.brk && Holds(s', i, Payload(s.blocks[i]), size)
            && OthersKept(s, s', 0, Payload(s.blocks[i]))
  {
    hide Inv, Shrink, OthersKept, Keeps;
    ShrinkInv(s, i, size);
    ShrinkSize(s, i, size);
    SetUsedInv(Shrink(s, i, size), i, true);
    MarkKept(s, Shrink(s, i, size), i, size);
  }

  lemma LiveAt(s: State, i: nat)
    requires Inv(s) && i < |s.blocks|
    ensures At(s, Payload(s.blocks[i])) == i
  {
    var l := At(s, Payload(s.blocks[i]));
    if l != i { AddrsDiffer(s.blocks, i, l); }
  }

  /** Two different live regions do not overlap, nor do their headers. */
  lemma LiveDisjoint(s: State, b: Block, c: Block)
    requires Inv(s) && b in s.blocks && c in s.blocks && b != c
    ensures End(b) <= c.addr || End(c) <= b.addr
  {
    var i :| 0 <= i < |s.blocks| && s.blocks[i] == b;
    var j :| 0 <= j < |s.blocks| && s.blocks[j] == c;
    if i < j { Ordered(s.blocks, i, j); } else { Ordered(s.blocks, j, i); }
  }

  ghost predicate HasRoom(s: State, size: nat) {
    exists b :: b in s.blocks && Fits(b, size)
  }

  /**
   * kmalloc returns an aligned region of at least the requested size that was not live and
   * overlaps no live region; every live region keeps its bytes; and the break moves exactly
   * when no free block is large enough.
   */
  lemma MallocFresh(s: State, size: nat)
    requires Inv(s) && size > 0
    ensures var r := Malloc(s, size);
            && FreshRegion(s, r.s, r.ptr, size)
            && (r.s.brk == s.brk <==> HasRoom(s, size)) && r.s.brk >= s.brk
  {
    hide OthersKept, TakeFree, Aligned8;
    var i := FindFree(s.blocks, size, |s.blocks|);
    if i >= 0 {
      ReuseFresh(s, i, size);
    } else {
      PushFresh(s, size);
      forall b | b in s.blocks ensures !Fits(b, size) {
        var k :| 0 <= k < |s.blocks| && s.blocks[k] == b;
      }
    }
  }

  ghost predicate FreshRegion(s: State, s': State, ptr: nat, size: nat) {
    && Inv(s') && ptr > 0 && Aligned8(ptr)
    && !Live(s, ptr) && Live(s', ptr) && s'.blocks[At(s', ptr)].len >= size
    && OthersKept(s, s', 0, ptr)
  }

  lemma ReuseFresh(s: State, i: nat, size: nat)
    requires Inv(s) && i < |s.blocks| && Fits(s.blocks[i], size)
    ensures FreshRegion(s, TakeFree(s, i, size), Payload(s.blocks[i]), size)
    ensures TakeFree(s, i, size).brk == s.brk && HasRoom(s, size)
  {
    hide OthersKept, TakeFree;
    TakeFreeWorks(s, i, size);
    LiveAt(s, i);
    LiveAt(TakeFree(s, i, size), i);
    AlignedAt(s, i);
    assert s.blocks[i] in s.blocks;
  }

  lemma PushFresh(s: State, size: nat)
    requires Inv(s)
    ensures FreshRegion(s, Push(s, size), AlignUp(s.brk) + HEADER, size)
    ensures Push(s, size).brk > s.brk
  {
    hide OthersKept, AlignUp;
    var ptr := AlignUp(s.brk) + HEADER;
    PushInv(s, size);
    LiveAt(Push(s, size), |s.blocks|);
    forall k | 0 <= k < |s.blocks| ensures Payload(s.blocks[k]) != ptr { assert s.blocks[k] in s.blocks; }
  }

  // -------------------------------------------------------------------- kfree

  ghost predicate FreePost(s: State, s': State, ptr: nat) {
    Inv(s') && s'.brk == s.brk && s'.data == s.data && OthersKept(s, s', ptr, 0)
  }

  lemma MergeFree(s: State, i: nat)
    requires Inv(s) && i + 1 < |s.blocks| && !s.blocks[i].used && !s.blocks[i + 1].used
    ensures s.blocks[i].addr <= s.blocks[i + 1].addr
    ensures Inv(MergeNext(s, i)) && MergePost(s, MergeNext(s, i), i)
    ensures OthersKept(s, MergeNext(s, i), 0, 0)
  {
    hide Inv, MergeNext, SameByte;
    MergeInv(s, i);
    var s' := MergeNext(s, i);
    forall b | b in s.blocks && b.used ensures Keeps(s, s', b) {
      var k :| 0 <= k < |s.blocks| && s.blocks[k] == b;
      SameDataSamePayload(s, s', b);
    }
  }

  lemma FreePostTwice(s: State, s1: State, s2: State, p: nat)
    requires FreePost(s, s1, p) && Inv(s2) && s2.brk == s1.brk && s2.data == s1.data && OthersKept(s1, s2, 0, 0)
    ensures FreePost(s, s2, p)
  {
  }

  lemma Release(s: State, i: nat)
    requires Inv(s) && i < |s.blocks| && s.blocks[i].used
    ensures FreePost(s, SetUsed(s, i, false), Payload(s.blocks[i]))
  {
    hide Inv, SameByte;
    SetUsedInv(s, i, false);
    var s' := SetUsed(s, i, false);
    forall b | b in s.blocks && b.used && Payload(b) != Payload(s.blocks[i]) ensures Keeps(s, s', b) {
      var k :| 0 <= k < |s.blocks| && s.blocks[k] == b;
      SameDataSamePayload(s, s', b);
    }
  }

  lemma MergeAfterRelease(s: State, s0: State, i: nat, p: nat)
    requires FreePost(s, s0, p) && i < |s0.blocks| && !s0.blocks[i].used
    ensures FreePost(s, MergeIfFree(s0, i), p)
    ensures i < |MergeIfFree(s0, i).blocks| && !MergeIfFree(s0, i).blocks[i].used
    ensures i > 0 ==> MergeIfFree(s0, i).blocks[i - 1] == s0.blocks[i - 1]
  {
    if FreeAt(s0.blocks, i + 1) {
      hide OthersKept, Inv;
      MergeFree(s0, i);
      FreePostTwice(s, s0, MergeNext(s0, i), p);
    }
  }

  lemma FreeBlockWorks(s: State, i: nat)
    requires Inv(s) && i < |s.blocks| && s.blocks[i].used
    ensures FreePost(s, FreeBlock(s, i), Payload(s.blocks[i]))
  {
    hide OthersKept, MergeIfFree, Inv, MergeNext;
    var p := Payload(s.blocks[i]);
    Release(s, i);
    MergeAfterRelease(s, SetUsed(s, i, false), i, p);
    var s1 := MergeIfFree(SetUsed(s, i, false), i);
    if FreeAt(s1.blocks, i - 1) {
      MergeFree(s1, i - 1);
      FreePostTwice(s, s1, MergeNext(s1, i - 1), p);
    }
  }

  /** kfree takes exactly its region out of the live ones and touches no byte. */
  lemma FreeExact(s: State, ptr: nat)
    requires Inv(s) && (ptr == 0 || Live(s, ptr))
    ensures FreePost(s, Free(s, ptr), ptr)
    ensures forall b | b in Free(s, ptr).blocks && b.used :: Payload(b) != ptr
  {
    var s' := Free(s, ptr);
    if ptr != 0 {
      hide FreeBlock;
      FreeBlockWorks(s, At(s, ptr));
    }
  }

  // ----------------------------------------------------------------- krealloc

  /** The first n bytes at p in s are the first n bytes at q in s'. */
  ghost predicate BytesMoved(s: State, s': State, p: nat, q: nat, n: nat) {
    forall k: nat | k < n :: ByteMoved(s, s', p, q, k)
  }

  predicate ByteMoved(s: State, s': State, p: nat, q: nat, k: nat) {
    if p + k in s.data then q + k in s'.data && s'.data[q + k] == s.data[p + k] else q + k !in s'.data
  }

  /** What krealloc of the live region ptr to size promises, for the block b behind ptr. */
  ghost predicate Resized(s: State, s': State, b: Block, q: nat, size: nat) {
    && Inv(s') && OthersKept(s, s', Payload(b), q)
    && (q == 0 ==> size == 0)
    && (q != 0 ==>
          && Live(s', q) && Aligned8(q) && s'.blocks[At(s', q)].len >= size
          && BytesMoved(s, s', Payload(b), q, Min(b.len, size)))
  }

  lemma ReallocShrink(s: State, i: nat, size: nat)
    requires Inv(s) && i < |s.blocks| && s.blocks[i].used && size < s.blocks[i].len
    ensures Resized(s, Shrink(s, i, size), s.blocks[i], Payload(s.blocks[i]), size)
  {
    hide Inv, Shrink;
    var s' := Shrink(s, i, size);
    ShrinkInv(s, i, size);
    ShrinkSize(s, i, size);
    LiveAt(s', i);
    AlignedAt(s, i);
    forall k: nat | k < size ensures ByteMoved(s, s', Payload(s.blocks[i]), Payload(s.blocks[i]), k) {
      assert Min(size, s.blocks[i].len) == size;
      assert SameByte(s, s', Payload(s.blocks[i]) + k) by {
        assert Within(Payload(s.blocks[i]) + k, Payload(s.blocks[i]), size);
      }
    }
    forall b | b in s.blocks && Payload(b) != Payload(s.blocks[i]) ensures Keeps(s, s', b) {
      var k :| 0 <= k < |s.blocks| && s.blocks[k] == b;
    }
  }

  lemma GrowInv(s: State, size: nat)
    requires Inv(s) && |s.blocks| > 0 && size >= s.blocks[|s.blocks| - 1].len
    ensures var i := |s.blocks| - 1;
            var b := s.blocks[i];
            var s' := s.(blocks := s.blocks[i := b.(len := size)], brk := s.brk + (size - b.len));
            Inv(s') && forall k | 0 <= k < i :: s.blocks[k].addr != b.addr && s.blocks[k] in s'.blocks
  {
    hide Aligned8;
    var i := |s.blocks| - 1;
    var b := s.blocks[i];
    var s' := s.(blocks := s.blocks[i := b.(len := size)], brk := s.brk + (size - b.len));
    forall k | 0 <= k < i ensures s.blocks[k].addr != b.addr && s.blocks[k] in s'.blocks {
      AddrsDiffer(s.blocks, i, k);
      assert s'.blocks[k] == s.blocks[k];
    }
  }

  lemma ReallocGrow(s: State, size: nat)
    requires Inv(s) && |s.blocks| > 0 && s.blocks[|s.blocks| - 1].used && size >= s.blocks[|s.blocks| - 1].len
    ensures var i := |s.blocks| - 1;
            var b := s.blocks[i];
            Resized(s, s.(blocks := s.blocks[i := b.(len := size)], brk := s.brk + (size - b.len)), b, Payload(b), size)
  {
    hide Inv, SameByte;
    var i := |s.blocks| - 1;
    var b0 := s.blocks[i];
    var s' := s.(blocks := s.blocks[i := b0.(len := size)], brk := s.brk + (size - b0.len));
    GrowInv(s, size);
    LiveAt(s', i);
    AlignedAt(s, i);
    forall b | b in s.blocks && Payload(b) != Payload(b0) ensures Keeps(s, s', b) {
      var k :| 0 <= k < |s.blocks| && s.blocks[k] == b;
      SameDataSamePayload(s, s', b);
    }
  }

  lemma ReallocAbsorb(s: State, i: nat, size: nat)
    requires Inv(s) && i + 1 < |s.blocks| && s.blocks[i].used && !s.blocks[i + 1].used
    requires size <= s.blocks[i + 1].addr - s.blocks[i].addr + s.blocks[i + 1].len
    ensures s.blocks[i].addr <= s.blocks[i + 1].addr
    ensures Resized(s, MergeNext(s, i), s.blocks[i], Payload(s.blocks[i]), size)
  {
    hide Inv, MergeNext, SameByte;
    var b0 := s.blocks[i];
    MergeInv(s, i);
    var s' := MergeNext(s, i);
    LiveAt(s', i);
    AlignedAt(s, i);
    forall b | b in s.blocks && b.used && Payload(b) != Payload(b0) ensures Keeps(s, s', b) {
      var k :| 0 <= k < |s.blocks| && s.blocks[k] == b;
      SameDataSamePayload(s, s', b);
    }
  }

  /** Filling part of block l leaves every other block, and all headers, alone. */
  lemma CopyInto(s: State, l: nat, src: nat, n: nat)
    requires Inv(s) && l < |s.blocks| && n <= s.blocks[l].len
    ensures var s' := s.(data := CopyBytes(s.data, Payload(s.blocks[l]), src, n));
            && Inv(s')
            && (forall k | 0 <= k < |s.blocks| && k != l :: SamePayload(s, s', s.blocks[k]))
            && BytesMoved(s, s', src, Payload(s.blocks[l]), n)
  {
    hide Aligned8;
    var dst := Payload(s.blocks[l]);
    var s' := s.(data := CopyBytes(s.data, dst, src, n));
    forall k, a | 0 <= k < |s.blocks| && InHeader(s.blocks[k], a) ensures a !in s'.data {
      if Within(a, dst, n) {
        if k != l { OutsideOthers(s, l, k, a); }
      }
    }
    forall k | 0 <= k < |s.blocks| && k != l ensures SamePayload(s, s', s.blocks[k]) {
      forall a | InPayload(s.blocks[k], a) ensures SameByte(s, s', a) {
        if Within(a, dst, n) { OutsideOthers(s, l, k, a); }
      }
    }
    forall k: nat | k < n ensures ByteMoved(s, s', src, dst, k) {
      assert Within(dst + k, dst, n) && Shifted(dst + k, dst, src) == src + k;
    }
  }

  /** The copy before the old region is freed. */
  lemma MoveCopies(s: State, i: nat, size: nat)
    requires Inv(s) && i < |s.blocks| && s.blocks[i].used && size >= s.blocks[i].len && size > 0
    ensures var r := Malloc(s, size);
            var b := s.blocks[i];
            var s1 := r.s.(data := CopyBytes(r.s.data, r.ptr, Payload(b), b.len));
            && Inv(s1) && OthersKept(s, s1, 0, r.ptr) && Live(s1, r.ptr) && Aligned8(r.ptr) && r.ptr > 0
            && s1.blocks[At(s1, r.ptr)].len >= size && b in s1.blocks && r.ptr != Payload(b)
            && BytesMoved(s, s1, Payload(b), r.ptr, b.len)
  {
    hide Inv, Malloc, CopyBytes, Aligned8, SameByte;
    MallocFresh(s, size);
    var r := Malloc(s, size);
    var b0 := s.blocks[i];
    var l := At(r.s, r.ptr);
    LiveAt(s, i);
    assert Keeps(s, r.s, b0) by { assert b0 in s.blocks; }
    CopyInto(r.s, l, Payload(b0), b0.len);
    var s1 := r.s.(data := CopyBytes(r.s.data, r.ptr, Payload(b0), b0.len));
    forall k: nat | k < b0.len ensures ByteMoved(s, s1, Payload(b0), r.ptr, k) {
      assert ByteMoved(r.s, s1, Payload(b0), r.ptr, k);
      assert SameByte(s, r.s, Payload(b0) + k) by { assert InPayload(b0, Payload(b0) + k); }
      SameByteThenMoved(s, r.s, s1, Payload(b0), r.ptr, k);
    }
    forall b | b in s.blocks && b.used ensures Keeps(s, s1, b) {
      assert Keeps(s, r.s, b);
      var k :| 0 <= k < |r.s.blocks| && r.s.blocks[k] == b;
      assert k != l by {
        var m :| 0 <= m < |s.blocks| && s.blocks[m] == b;
        LiveAt(s, m);
      }
      SamePayloadTwice(s, r.s, s1, b);
    }
  }

  lemma SameByteThenMoved(s: State, s1: State, s2: State, p: nat, q: nat, k: nat)
    requires SameByte(s, s1, p + k) && ByteMoved(s1, s2, p, q, k)
    ensures ByteMoved(s, s2, p, q, k)
  {
  }

  lemma ReallocMove(s: State, i: nat, size: nat)
    requires Inv(s) && i < |s.blocks| && s.blocks[i].used && size >= s.blocks[i].len && size > 0
    ensures var r := Malloc(s, size);
            var b := s.blocks[i];
            var s1 := r.s.(data := CopyBytes(r.s.data, r.ptr, Payload(b), b.len));
            Resized(s, Free(s1, Payload(b)), b, r.ptr, size)
  {
    hide Inv, Malloc, CopyBytes, Aligned8, SameByte, Free;
    var b0 := s.blocks[i];
    MoveCopies(s, i, size);
    var q := Malloc(s, size).ptr;
    var s1 := Malloc(s, size).s.(data := CopyBytes(Malloc(s, size).s.data, q, Payload(b0), b0.len));
    var l :| 0 <= l < |s1.blocks| && s1.blocks[l] == b0;
    LiveAt(s1, l);
    FreeExact(s1, Payload(b0));
    MoveEnds(s, s1, Free(s1, Payload(b0)), b0, q, size);
  }

  lemma MoveEnds(s: State, s1: State, s2: State, b0: Block, q: nat, size: nat)
    requires Inv(s1) && OthersKept(s, s1, 0, q) && Live(s1, q) && Aligned8(q) && q > 0 && q != Payload(b0)
    requires s1.blocks[At(s1, q)].len >= size && BytesMoved(s, s1, Payload(b0), q, b0.len) && b0.len <= size
    requires FreePost(s1, s2, Payload(b0))
    requires forall b | b in s2.blocks && b.used :: Payload(b) != Payload(b0)
    ensures Resized(s, s2, b0, q, size)
  {
    hide Inv, Aligned8, SameByte;
    var nb := s1.blocks[At(s1, q)];
    assert nb in s1.blocks;
    assert Keeps(s1, s2, nb);
    var l :| 0 <= l < |s2.blocks| && s2.blocks[l] == nb;
    LiveAt(s2, l);
    forall b | b in s.blocks && b.used && Payload(b) != Payload(b0) ensures Keeps(s, s2, b) {
      assert Keeps(s, s1, b);
      if Payload(b) == q { SameAddr(s1, At(s1, q), b); }
      assert Keeps(s1, s2, b);
      SamePayloadTwice(s, s1, s2, b);
    }
    forall k: nat | k < b0.len ensures ByteMoved(s, s2, Payload(b0), q, k) {
      assert ByteMoved(s, s1, Payload(b0), q, k);
    }
  }

  lemma MoveToNull(s: State, i: nat)
    requires Inv(s) && i < |s.blocks| && s.blocks[i].used
    ensures Resized(s, Free(s, Payload(s.blocks[i])), s.blocks[i], 0, 0)
  {
    LiveAt(s, i);
    hide Free, Inv, Live;
    FreeExact(s, Payload(s.blocks[i]));
  }

  /**
   * krealloc of a live region keeps its first min(old, new) bytes on every path, changes no
   * other live region, and answers NULL only for size zero.
   */
  lemma ReallocKeepsBytes(s: State, ptr: nat, size: nat)
    requires Inv(s) && ptr != 0 && Live(s, ptr)
    ensures var r := Realloc(s, ptr, size);
            Resized(s, r.s, s.blocks[At(s, ptr)], r.ptr, size)
  {
    hide Resized, Shrink, MergeNext, Free, CopyBytes, Inv;
    var i := At(s, ptr);
    var b := s.blocks[i];
    if size < b.len {
      ReallocShrink(s, i, size);
    } else if i == |s.blocks| - 1 {
      ReallocGrow(s, size);
    } else if FreeAt(s.blocks, i + 1) && s.blocks[i + 1].addr - b.addr + s.blocks[i + 1].len >= size {
      ReallocAbsorb(s, i, size);
    } else if size > 0 {
      MoveCopies(s, i, size);
      ReallocMove(s, i, size);
    } else {
      MoveToNull(s, i);
    }
  }

  /** krealloc(NULL, size) is an allocation: a fresh region, or NULL and no change for size zero. */
  lemma ReallocNullAllocates(s: State, size: nat)
    requires Inv(s)
    ensures size == 0 ==> Realloc(s, 0, size) == Result(s, 0)
    ensures size > 0 ==>
              var r := Realloc(s, 0, size);
              && FreshRegion(s, r.s, r.ptr, size)
              && (r.s.brk == s.brk <==> HasRoom(s, size)) && r.s.brk >= s.brk
  {
    hide FreshRegion;
    if size > 0 { MallocFresh(s, size); }
  }

  // ------------------------------------------------------------ no more than asked

  /** kmalloc hands out less than a splittable block more than asked, and moves the break no further than needed. */
  lemma MallocTight(s: State, size: nat)
    requires Inv(s) && size > 0
    ensures var r := Malloc(s, size);
            && Live(r.s, r.ptr)
            && var b := r.s.blocks[At(r.s, r.ptr)];
            && size <= b.len < size + MIN_SPLIT_SIZE
            && (!HasRoom(s, size) ==> b.len == size && s.brk <= b.addr < s.brk + 8 && r.s.brk == End(b))
  {
    hide Aligned8, Inv;
    MallocFresh(s, size);
    var i := FindFree(s.blocks, size, |s.blocks|);
    var r := Malloc(s, size);
    if i >= 0 {
      assert s.blocks[i] in s.blocks;
      ShrinkSize(s, i, size);
      LiveAt(r.s, i);
    } else {
      LiveAt(r.s, |s.blocks|);
    }
  }

  /** Where krealloc can keep the region: it shrinks, is the last block, or the next is free and large enough. */
  predicate FitsInPlace(s: State, i: nat, size: nat)
    requires i < |s.blocks|
  {
    || size < s.blocks[i].len
    || i == |s.blocks| - 1
    || (FreeAt(s.blocks, i + 1) && End(s.blocks[i + 1]) >= Payload(s.blocks[i]) + size)
  }

  /** What an in-place krealloc of block i leaves behind: no more than it must take. */
  ghost predicate InPlace(s: State, s': State, i: nat, size: nat)
    requires i < |s.blocks|
  {
    var b := s.blocks[i];
    && Live(s', Payload(b))
    && var len := s'.blocks[At(s', Payload(b))].len;
    if size < b.len then len < size + MIN_SPLIT_SIZE && s'.brk == s.brk
    else if i == |s.blocks| - 1 then len == size && s'.brk == s.brk + (size - b.len)
    else Payload(b) + len == End(s.blocks[i + 1]) && s'.brk == s.brk
  }

  lemma ShrinkInPlace(s: State, i: nat, size: nat)
    requires Inv(s) && i < |s.blocks| && s.blocks[i].used && size < s.blocks[i].len
    ensures InPlace(s, Shrink(s, i, size), i, size)
  {
    hide Inv, Shrink;
    ShrinkInv(s, i, size);
    ShrinkSize(s, i, size);
    LiveAt(Shrink(s, i, size), i);
  }

  lemma GrowInPlace(s: State, size: nat)
    requires Inv(s) && |s.blocks| > 0 && s.blocks[|s.blocks| - 1].used && size >= s.blocks[|s.blocks| - 1].len
    ensures var i := |s.blocks| - 1;
            var b := s.blocks[i];
            InPlace(s, s.(blocks := s.blocks[i := b.(len := size)], brk := s.brk + (size - b.len)), i, size)
  {
    hide Inv;
    var i := |s.blocks| - 1;
    var b := s.blocks[i];
    GrowInv(s, size);
    LiveAt(s.(blocks := s.blocks[i := b.(len := size)], brk := s.brk + (size - b.len)), i);
  }

  lemma AbsorbInPlace(s: State, i: nat, size: nat)
    requires Inv(s) && i + 1 < |s.blocks| && s.blocks[i].used && !s.blocks[i + 1].used && size >= s.blocks[i].len
    ensures s.blocks[i].addr <= s.blocks[i + 1].addr && InPlace(s, MergeNext(s, i), i, size)
  {
    hide Inv;
    MergeInv(s, i);
    LiveAt(MergeNext(s, i), i);
  }

  /**
   * krealloc keeps the pointer exactly where the region can stay, taking no more than it
   * must; otherwise it answers a region that was not live, reusing a free block if one fits.
   */
  lemma ReallocInPlaceIff(s: State, ptr: nat, size: nat)
    requires Inv(s) && ptr != 0 && Live(s, ptr)
    ensures var i := At(s, ptr);
            var r := Realloc(s, ptr, size);
            && (r.ptr == ptr <==> FitsInPlace(s, i, size))
            && (r.ptr == ptr ==> InPlace(s, r.s, i, size))
            && (r.ptr != ptr ==>
                  if size == 0 then r.ptr == 0
                  else !Live(s, r.ptr) && (r.s.brk == s.brk <==> HasRoom(s, size)))
  {
    var i := At(s, ptr);
    if i + 1 < |s.blocks| { Ordered(s.blocks, i, i + 1); }
    hide Free, CopyBytes, Aligned8, Inv, HasRoom, InPlace, Shrink, MergeNext, Malloc, Resized, OthersKept;
    if size < s.blocks[i].len {
      ShrinkInPlace(s, i, size);
    } else if i == |s.blocks| - 1 {
      GrowInPlace(s, size);
    } else if FitsInPlace(s, i, size) {
      AbsorbInPlace(s, i, size);
    } else if size > 0 {
      MallocFresh(s, size);
      MoveBreak(s, i, size);
    } else {
      NullForZero(s);
    }
  }

  lemma NullForZero(s: State)
    ensures Malloc(s, 0) == Result(s, 0)
  {
  }

  lemma MoveBreak(s: State, i: nat, size: nat)
    requires Inv(s) && i < |s.blocks| && s.blocks[i].used && size >= s.blocks[i].len && size > 0
    ensures var r := Malloc(s, size);
            var b := s.blocks[i];
            var s1 := r.s.(data := CopyBytes(r.s.data, r.ptr, Payload(b), b.len));
            Free(s1, Payload(b)).brk == r.s.brk
  {
    hide Inv, Malloc, CopyBytes, Aligned8, SameByte, Free;
    var b0 := s.blocks[i];
    MoveCopies(s, i, size);
    var q := Malloc(s, size).ptr;
    var s1 := Malloc(s, size).s.(data := CopyBytes(Malloc(s, size).s.data, q, Payload(b0), b0.len));
    var l :| 0 <= l < |s1.blocks| && s1.blocks[l] == b0;
    LiveAt(s1, l);
    FreeExact(s1, Payload(b0));
  }
}
