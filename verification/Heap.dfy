/**
 * The kernel heap of kernel/kmalloc.c seen as the sequence of its blocks in address order.
 *
 * `data` holds the payload bytes that have a value. Writing a block header over a place
 * takes the bytes there away, so an operation that put a header inside a live region
 * would show as lost bytes.
 */
module Heap {
  import opened Common

  /** sizeof(struct block) on i686. */
  const HEADER: nat := 24
  const MIN_SPLIT_SIZE: nat := 128

  datatype Block = Block(addr: nat, len: nat, used: bool)

  datatype State = State(blocks: seq<Block>, brk: nat, data: map<nat, Byte>)

  /** The payload address that kmalloc returns, and one past its last byte. */
  function Payload(b: Block): nat { b.addr + HEADER }
  function End(b: Block): nat { b.addr + HEADER + b.len }

  predicate Aligned8(a: nat) { a % 8 == 0 }

  /** i + align8(i). */
  function AlignUp(i: nat): (r: nat)
    ensures i <= r < i + 8 && Aligned8(r)
  {
    PadTo8(i);
    i + (8 - i % 8) % 8
  }

  lemma PadTo8(i: nat)
    ensures i <= i + (8 - i % 8) % 8 < i + 8 && (i + (8 - i % 8) % 8) % 8 == 0
  {
    var q, r := i / 8, i % 8;
    assert i == 8 * q + r;
    if r == 0 {
      assert (8 - r) % 8 == 0;
    } else {
      assert (8 - r) % 8 == 8 - r;
      assert i + (8 - r) == 8 * (q + 1);
    }
  }

  // --------------------------------------------------------------- invariant

  ghost predicate Aligned(bs: seq<Block>) {
    forall i | 0 <= i < |bs| :: bs[i].addr > 0 && Aligned8(bs[i].addr)
  }

  /** Neighbours are at most the alignment padding apart. */
  ghost predicate Chained(bs: seq<Block>) {
    forall i | 0 <= i < |bs| - 1 :: End(bs[i]) <= bs[i + 1].addr < End(bs[i]) + 8
  }

  ghost predicate Tiled(bs: seq<Block>, brk: nat) {
    && brk > 0 && Aligned(bs) && Chained(bs)
    && (|bs| > 0 ==> End(bs[|bs| - 1]) == brk)
  }

  predicate InHeader(b: Block, a: nat) {
    b.addr <= a < b.addr + HEADER
  }

  predicate InPayload(b: Block, a: nat) {
    Payload(b) <= a < End(b)
  }

  ghost predicate HeadersClean(s: State) {
    forall i, a | 0 <= i < |s.blocks| && InHeader(s.blocks[i], a) :: a !in s.data
  }

  ghost predicate Inv(s: State) {
    Tiled(s.blocks, s.brk) && HeadersClean(s)
  }

  ghost predicate NoFreeNeighbours(bs: seq<Block>) {
    forall i | 0 <= i < |bs| - 1 :: bs[i].used || bs[i + 1].used
  }

  /** Blocks never overlap, header included. */
  lemma {:induction false} Ordered(bs: seq<Block>, i: nat, j: nat)
    requires Chained(bs) && i < j < |bs|
    ensures End(bs[i]) <= bs[j].addr
    decreases j
  {
    if i + 1 < j { Ordered(bs, i, j - 1); }
  }

  lemma AddrsDiffer(bs: seq<Block>, i: nat, j: nat)
    requires Chained(bs) && i < |bs| && j < |bs| && i != j
    ensures bs[i].addr != bs[j].addr
  {
    if i < j { Ordered(bs, i, j); } else { Ordered(bs, j, i); }
  }

  // -------------------------------------------------------------- operations

  predicate Within(a: nat, start: nat, n: nat) {
    start <= a < start + n
  }

  function Range(start: nat, n: nat): set<nat> {
    set a: nat | a < start + n && Within(a, start, n)
  }

  function HeaderRange(start: nat): set<nat> {
    Range(start, HEADER)
  }

  /** push_block. */
  function Push(s: State, size: nat): State {
    var a := AlignUp(s.brk);
    State(s.blocks + [Block(a, size, true)], a + HEADER + size, s.data - HeaderRange(a))
  }

  /** The test at the head of shrink_block. */
  predicate Splits(b: Block, size: nat) {
    b.len - size >= MIN_SPLIT_SIZE
  }

  /** The free block that shrink_block cuts off. */
  function Rest(b: Block, size: nat): Block
    requires Splits(b, size)
  {
    var a := AlignUp(b.addr + HEADER + size);
    Block(a, b.addr + b.len - a, false)
  }

  /** shrink_block on block i. */
  function Shrink(s: State, i: nat, size: nat): State
    requires i < |s.blocks|
  {
    var b := s.blocks[i];
    if !Splits(b, size) then s
    else
      s.(blocks := s.blocks[..i] + [b.(len := size), Rest(b, size)] + s.blocks[i + 1..],
         data := s.data - HeaderRange(Rest(b, size).addr))
  }

  /** block_merge_next on block i. */
  function MergeNext(s: State, i: nat): State
    requires i + 1 < |s.blocks|
    requires s.blocks[i].addr <= s.blocks[i + 1].addr
  {
    var b, n := s.blocks[i], s.blocks[i + 1];
    s.(blocks := s.blocks[..i] + [b.(len := n.addr - b.addr + n.len)] + s.blocks[i + 2..])
  }

  function SetUsed(s: State, i: nat, used: bool): State
    requires i < |s.blocks|
  {
    s.(blocks := s.blocks[i := s.blocks[i].(used := used)])
  }

  predicate Fits(b: Block, size: nat) {
    !b.used && b.len >= size
  }

  /** The walk of get_free_block from the last block down: the index found below n, or -1. */
  function FindFree(bs: seq<Block>, size: nat, n: nat): (r: int)
    requires n <= |bs|
    ensures -1 <= r < n
    ensures r >= 0 ==> Fits(bs[r], size)
    ensures forall k | r < k < n :: !Fits(bs[k], size)
  {
    if n == 0 then -1 else if Fits(bs[n - 1], size) then n - 1 else FindFree(bs, size, n - 1)
  }

  /** get_free_block on block i, then on to kmalloc. */
  function TakeFree(s: State, i: nat, size: nat): State
    requires i < |s.blocks|
  {
    SetUsed(Shrink(s, i, size), i, true)
  }

  datatype Result = Result(s: State, ptr: nat)

  /** kmalloc; pointer 0 is NULL. */
  function Malloc(s: State, size: nat): Result {
    if size == 0 then Result(s, 0)
    else
      var i := FindFree(s.blocks, size, |s.blocks|);
      if i >= 0 then Result(TakeFree(s, i, size), Payload(s.blocks[i]))
      else Result(Push(s, size), AlignUp(s.brk) + HEADER)
  }

  /** The index of the block with payload ptr, searched from n down, or -1. */
  function IndexOf(bs: seq<Block>, ptr: nat, n: nat): (r: int)
    requires n <= |bs|
    ensures -1 <= r < n
    ensures r >= 0 ==> Payload(bs[r]) == ptr
    ensures r < 0 ==> forall k | 0 <= k < n :: Payload(bs[k]) != ptr
  {
    if n == 0 then -1 else if Payload(bs[n - 1]) == ptr then n - 1 else IndexOf(bs, ptr, n - 1)
  }

  function At(s: State, ptr: nat): (r: int)
    ensures -1 <= r < |s.blocks|
    ensures r >= 0 ==> Payload(s.blocks[r]) == ptr
  {
    IndexOf(s.blocks, ptr, |s.blocks|)
  }

  /** ptr is what kmalloc returned and has not been freed. */
  predicate Live(s: State, ptr: nat) {
    At(s, ptr) >= 0 && s.blocks[At(s, ptr)].used
  }

  predicate FreeAt(bs: seq<Block>, i: int) {
    0 <= i < |bs| && !bs[i].used
  }

  function MergeIfFree(s: State, i: nat): State
    requires i < |s.blocks|
  {
    if FreeAt(s.blocks, i + 1) && s.blocks[i].addr <= s.blocks[i + 1].addr then MergeNext(s, i) else s
  }

  /** kfree of block i: merge with the next block if free, then the previous one with it. */
  function FreeBlock(s: State, i: nat): State
    requires i < |s.blocks|
  {
    var s1 := MergeIfFree(SetUsed(s, i, false), i);
    if FreeAt(s1.blocks, i - 1) && s1.blocks[i - 1].addr <= s1.blocks[i].addr then MergeNext(s1, i - 1) else s1
  }

  function Free(s: State, ptr: nat): State {
    if ptr == 0 || At(s, ptr) < 0 then s else FreeBlock(s, At(s, ptr))
  }

  function Shifted(a: nat, dst: nat, src: nat): int { a - dst + src }

  /** memcpy of n bytes; bytes without a value stay without one. */
  function CopyBytes(data: map<nat, Byte>, dst: nat, src: nat, n: nat): map<nat, Byte> {
    (data - Range(dst, n)) +
    (map a: nat | a < dst + n && Within(a, dst, n) && Shifted(a, dst, src) in data :: data[Shifted(a, dst, src)])
  }

  /** krealloc: shrink, grow at the break, absorb the next block, or move. */
  function Realloc(s: State, ptr: nat, size: nat): Result {
    if ptr == 0 then Malloc(s, size)
    else if At(s, ptr) < 0 then Result(s, 0)
    else
      var i := At(s, ptr);
      var b := s.blocks[i];
      if size < b.len then Result(Shrink(s, i, size), ptr)
      else if i == |s.blocks| - 1 then
        Result(s.(blocks := s.blocks[i := b.(len := size)], brk := s.brk + (size - b.len)), ptr)
      else if FreeAt(s.blocks, i + 1) && b.addr <= s.blocks[i + 1].addr
              && s.blocks[i + 1].addr - b.addr + s.blocks[i + 1].len >= size then
        Result(MergeNext(s, i), ptr)
      else
        var r := Malloc(s, size);
        var s1 := r.s.(data := if r.ptr == 0 then r.s.data else CopyBytes(r.s.data, r.ptr, ptr, b.len));
        Result(Free(s1, ptr), r.ptr)
  }

  // ------------------------------------------------------------------- tiling

  function Splice(bs: seq<Block>, i: nat, j: nat, mid: seq<Block>): seq<Block>
    requires i <= j <= |bs|
  {
    bs[..i] + mid + bs[j..]
  }

  lemma SpliceAt(bs: seq<Block>, i: nat, j: nat, mid: seq<Block>, k: nat)
    requires i <= j <= |bs| && k < |bs| + |mid| - (j - i)
    ensures |Splice(bs, i, j, mid)| == |bs| + |mid| - (j - i)
    ensures Splice(bs, i, j, mid)[k] ==
            if k < i then bs[k] else if k < i + |mid| then mid[k - i] else bs[k - i - |mid| + j]
  {
  }

  /** Replacing a stretch of blocks by another that spans the same bytes keeps the tiling. */
  lemma SpliceTiled(bs: seq<Block>, brk: nat, i: nat, j: nat, mid: seq<Block>)
    requires Tiled(bs, brk) && i < j <= |bs|
    requires |mid| > 0 && Aligned(mid) && Chained(mid)
    requires mid[0].addr == bs[i].addr && End(mid[|mid| - 1]) == End(bs[j - 1])
    ensures Tiled(Splice(bs, i, j, mid), brk)
  {
    hide Aligned8;
    var r := Splice(bs, i, j, mid);
    forall k | 0 <= k < |r| ensures r[k].addr > 0 && Aligned8(r[k].addr) {
      if i + |mid| <= k { assert r[k] == bs[k - |mid| - i + j]; }
    }
    forall k | 0 <= k < |r| - 1 ensures End(r[k]) <= r[k + 1].addr < End(r[k]) + 8 {
      if k + 1 < i {
        assert r[k] == bs[k] && r[k + 1] == bs[k + 1];
      } else if k + 1 == i {
        assert r[k] == bs[k] && r[k + 1] == mid[0];
      } else if k + 1 < i + |mid| {
        assert r[k] == mid[k - i] && r[k + 1] == mid[k - i + 1];
      } else if k + 1 == i + |mid| {
        assert r[k] == mid[|mid| - 1] && r[k + 1] == bs[j];
      } else {
        assert r[k] == bs[k - |mid| - i + j] && r[k + 1] == bs[k + 1 - |mid| - i + j];
      }
    }
  }

  lemma RestSpans(b: Block, size: nat)
    requires Splits(b, size) && b.addr > 0 && Aligned8(b.addr)
    ensures Aligned([b.(len := size), Rest(b, size)]) && Chained([b.(len := size), Rest(b, size)])
    ensures End(Rest(b, size)) == End(b) && Rest(b, size).addr + HEADER <= End(b)
  {
  }

  lemma ShrinkTiled(s: State, i: nat, size: nat)
    requires Tiled(s.blocks, s.brk) && i < |s.blocks|
    ensures Tiled(Shrink(s, i, size).blocks, s.brk)
  {
    var b := s.blocks[i];
    if Splits(b, size) {
      RestSpans(b, size);
      var mid := [b.(len := size), Rest(b, size)];
      SpliceTiled(s.blocks, s.brk, i, i + 1, mid);
      assert Shrink(s, i, size).blocks == Splice(s.blocks, i, i + 1, mid);
    }
  }

  lemma MergeTiled(s: State, i: nat)
    requires Tiled(s.blocks, s.brk) && i + 1 < |s.blocks|
    ensures s.blocks[i].addr <= s.blocks[i + 1].addr && Tiled(MergeNext(s, i).blocks, s.brk)
  {
    var b, n := s.blocks[i], s.blocks[i + 1];
    assert End(b) <= n.addr;
    var mid := [b.(len := n.addr - b.addr + n.len)];
    SpliceTiled(s.blocks, s.brk, i, i + 2, mid);
    assert MergeNext(s, i).blocks == Splice(s.blocks, i, i + 2, mid);
  }

  lemma PushTiled(s: State, size: nat)
    requires Tiled(s.blocks, s.brk)
    ensures Tiled(Push(s, size).blocks, Push(s, size).brk)
  {
    hide AlignUp, Aligned8;
  }

  // -------------------------------------------------------- what clients keep

  predicate SameByte(s: State, s': State, a: nat) {
    if a in s.data then a in s'.data && s'.data[a] == s.data[a] else a !in s'.data
  }

  ghost predicate SamePayload(s: State, s': State, b: Block) {
    forall a | InPayload(b, a) :: SameByte(s, s', a)
  }

  /** Block b is still there, with the same payload. */
  ghost predicate Keeps(s: State, s': State, b: Block) {
    b in s'.blocks && SamePayload(s, s', b)
  }

  /**
   * Live regions other than p stay as they are, and the live regions of s' are those of s
   * without p, plus q. A pointer 0 stands for no region.
   */
  ghost predicate OthersKept(s: State, s': State, p: nat, q: nat) {
    && (forall b | b in s.blocks && b.used && Payload(b) != p :: Keeps(s, s', b))
    && (forall b | b in s'.blocks && b.used && Payload(b) != q :: b in s.blocks && Payload(b) != p)
  }

  lemma BelowBreak(bs: seq<Block>, brk: nat, i: nat)
    requires Tiled(bs, brk) && i < |bs|
    ensures End(bs[i]) <= brk
  {
    if i < |bs| - 1 { Ordered(bs, i, |bs| - 1); }
  }

  lemma PushInv(s: State, size: nat)
    requires Inv(s)
    ensures Inv(Push(s, size))
    ensures OthersKept(s, Push(s, size), 0, AlignUp(s.brk) + HEADER)
    ensures forall b | b in s.blocks :: End(b) <= AlignUp(s.brk)
  {
    hide AlignUp, Aligned8;
    var s' := Push(s, size);
    PushTiled(s, size);
    forall b | b in s.blocks ensures End(b) <= s.brk && b in s'.blocks {
      var i :| 0 <= i < |s.blocks| && s.blocks[i] == b;
      BelowBreak(s.blocks, s.brk, i);
      assert s'.blocks[i] == b;
    }
    hide Tiled;
    forall i, a | 0 <= i < |s'.blocks| && InHeader(s'.blocks[i], a) ensures a !in s'.data {
      if i < |s.blocks| { assert s'.blocks[i] == s.blocks[i]; }
    }
    forall b | b in s.blocks ensures SamePayload(s, s', b) {}
  }

  /** The blocks of a splice are the new ones and the old ones outside the stretch. */
  lemma SpliceMembers(bs: seq<Block>, i: nat, j: nat, mid: seq<Block>)
    requires i <= j <= |bs|
    ensures forall b | b in mid :: b in Splice(bs, i, j, mid)
    ensures forall k | 0 <= k < |bs| && !(i <= k < j) :: bs[k] in Splice(bs, i, j, mid)
    ensures forall b | b in Splice(bs, i, j, mid) ::
              b in mid || exists k :: 0 <= k < |bs| && !(i <= k < j) && bs[k] == b
  {
  }

  /** A stretch of block i never meets another block. */
  lemma OutsideOthers(s: State, i: nat, k: nat, a: nat)
    requires Tiled(s.blocks, s.brk) && i < |s.blocks| && k < |s.blocks| && i != k
    requires s.blocks[i].addr <= a < End(s.blocks[i])
    ensures !InHeader(s.blocks[k], a) && !InPayload(s.blocks[k], a)
  {
    if i < k { Ordered(s.blocks, i, k); } else { Ordered(s.blocks, k, i); }
  }

  lemma SplitData(s: State, i: nat, size: nat)
    requires Inv(s) && i < |s.blocks| && Splits(s.blocks[i], size)
    ensures HeadersClean(Shrink(s, i, size))
    ensures forall k, a | 0 <= k < |s.blocks| && k != i && InPayload(s.blocks[k], a) ::
              SameByte(s, Shrink(s, i, size), a)
    ensures forall a | Within(a, Payload(s.blocks[i]), size) :: SameByte(s, Shrink(s, i, size), a)
  {
    hide AlignUp, Tiled, Aligned8;
    var b0 := s.blocks[i];
    var s' := Shrink(s, i, size);
    var mid := [b0.(len := size), Rest(b0, size)];
    assert b0.addr > 0 && Aligned8(b0.addr) by { AlignedAt(s, i); }
    RestSpans(b0, size);
    SpliceMembers(s.blocks, i, i + 1, mid);
    assert s'.blocks == Splice(s.blocks, i, i + 1, mid);
    forall l, a | 0 <= l < |s'.blocks| && InHeader(s'.blocks[l], a) ensures a !in s'.data {
      assert s'.blocks[l] in s'.blocks;
      if s'.blocks[l] !in mid {
        var k :| 0 <= k < |s.blocks| && k != i && s.blocks[k] == s'.blocks[l];
      } else if s'.blocks[l] == mid[0] {
        assert InHeader(b0, a);
      }
    }
    forall k, a | 0 <= k < |s.blocks| && k != i && InPayload(s.blocks[k], a) ensures SameByte(s, s', a) {
      if a in HeaderRange(mid[1].addr) { OutsideOthers(s, i, k, a); }
    }
  }

  lemma AlignedAt(s: State, i: nat)
    requires Inv(s) && i < |s.blocks|
    ensures s.blocks[i].addr > 0 && Aligned8(s.blocks[i].addr)
  {
  }

  /** Blocks are identified by their address. */
  lemma SameAddr(s: State, i: nat, b: Block)
    requires Inv(s) && i < |s.blocks| && b in s.blocks && b.addr == s.blocks[i].addr
    ensures b == s.blocks[i]
  {
    var k :| 0 <= k < |s.blocks| && s.blocks[k] == b;
    if k != i { AddrsDiffer(s.blocks, i, k); }
  }

  ghost predicate ShrinkPost(s: State, s': State, i: nat, size: nat)
    requires i < |s.blocks|
  {
    && i < |s'.blocks| && s'.blocks[i].addr == s.blocks[i].addr
    && s'.blocks[i].used == s.blocks[i].used
    && (forall k | 0 <= k < |s.blocks| && k != i :: Keeps(s, s', s.blocks[k]))
    && (forall b | b in s'.blocks && b.used && b != s'.blocks[i] :: b in s.blocks && b.addr != s.blocks[i].addr)
    && (forall a | Within(a, Payload(s.blocks[i]), Min(size, s.blocks[i].len)) :: SameByte(s, s', a))
  }

  lemma SplitPost(s: State, i: nat, size: nat)
    requires Inv(s) && i < |s.blocks| && Splits(s.blocks[i], size)
    ensures ShrinkPost(s, Shrink(s, i, size), i, size)
  {
    hide AlignUp, Aligned8;
    var b0 := s.blocks[i];
    SplitData(s, i, size);
    forall k | 0 <= k < |s.blocks| && k != i ensures s.blocks[k].addr != b0.addr { AddrsDiffer(s.blocks, i, k); }
    hide Inv, HeadersClean;
    var s' := Shrink(s, i, size);
    var mid := [b0.(len := size), Rest(b0, size)];
    SpliceMembers(s.blocks, i, i + 1, mid);
    assert s'.blocks == Splice(s.blocks, i, i + 1, mid);
    forall b | b in s'.blocks && b.used && b != s'.blocks[i] ensures b in s.blocks && b.addr != b0.addr {
      assert b in mid || exists k :: 0 <= k < |s.blocks| && k != i && s.blocks[k] == b;
    }
    hide Shrink, Splice;
    forall k | 0 <= k < |s.blocks| && k != i ensures Keeps(s, s', s.blocks[k]) {}
  }

  lemma ShrinkInv(s: State, i: nat, size: nat)
    requires Inv(s) && i < |s.blocks|
    ensures Inv(Shrink(s, i, size)) && ShrinkPost(s, Shrink(s, i, size), i, size)
  {
    hide AlignUp, Aligned8;
    ShrinkTiled(s, i, size);
    if Splits(s.blocks[i], size) {
      hide ShrinkPost, Rest;
      SplitPost(s, i, size);
      SplitData(s, i, size);
    } else {
      forall b | b in s.blocks && b.addr == s.blocks[i].addr ensures b == s.blocks[i] { SameAddr(s, i, b); }
    }
  }

  ghost predicate MergePost(s: State, s': State, i: nat)
    requires i + 1 < |s.blocks|
  {
    && s'.data == s.data && s'.brk == s.brk
    && i < |s'.blocks| && s'.blocks[i].addr == s.blocks[i].addr && s'.blocks[i].used == s.blocks[i].used
    && End(s'.blocks[i]) == End(s.blocks[i + 1])
    && (forall k | 0 <= k < |s.blocks| && k != i && k != i + 1 :: s.blocks[k] in s'.blocks)
    && (forall b | b in s'.blocks && b != s'.blocks[i] ::
          b in s.blocks && b.addr != s.blocks[i].addr && b.addr != s.blocks[i + 1].addr)
  }

  function Merged(b: Block, n: Block): Block
    requires b.addr <= n.addr
  {
    b.(len := n.addr - b.addr + n.len)
  }

  lemma MergeMembers(s: State, i: nat)
    requires i + 1 < |s.blocks| && s.blocks[i].addr <= s.blocks[i + 1].addr
    ensures var s' := MergeNext(s, i);
            && s'.blocks[i] == Merged(s.blocks[i], s.blocks[i + 1])
            && (forall k | 0 <= k < |s.blocks| && k != i && k != i + 1 :: s.blocks[k] in s'.blocks)
            && (forall b | b in s'.blocks && b != s'.blocks[i] ::
                  exists k :: 0 <= k < |s.blocks| && !(i <= k < i + 2) && s.blocks[k] == b)
  {
  }

  lemma MergeClean(s: State, i: nat)
    requires HeadersClean(s) && i + 1 < |s.blocks| && s.blocks[i].addr <= s.blocks[i + 1].addr
    ensures HeadersClean(MergeNext(s, i))
  {
  }

  lemma MergeData(s: State, i: nat)
    requires i + 1 < |s.blocks| && s.blocks[i].addr <= s.blocks[i + 1].addr
    ensures MergeNext(s, i).data == s.data && MergeNext(s, i).brk == s.brk
  {
  }

  lemma MergeInv(s: State, i: nat)
    requires Inv(s) && i + 1 < |s.blocks|
    ensures s.blocks[i].addr <= s.blocks[i + 1].addr
    ensures Inv(MergeNext(s, i)) && MergePost(s, MergeNext(s, i), i)
  {
    hide Aligned8;
    MergeTiled(s, i);
    forall k | 0 <= k < |s.blocks| && !(i <= k < i + 2)
      ensures s.blocks[k].addr != s.blocks[i].addr && s.blocks[k].addr != s.blocks[i + 1].addr
    {
      AddrsDiffer(s.blocks, i, k);
      AddrsDiffer(s.blocks, i + 1, k);
    }
    hide Tiled, HeadersClean;
    MergeClean(s, i);
    MergeMembers(s, i);
    MergeData(s, i);
    hide MergeNext;
  }
}
