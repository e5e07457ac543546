/** kernel/kmalloc.c as it runs: headers in memory, doubly linked, updated in place. */
module KernelHeap {
  import opened Common
  import opened Heap
  import opened HeapOps

  /** struct block. `mag` is the address the position-dependent magic number was made for. */
  datatype Header = Header(prev: nat, next: nat, mag: nat, len: nat, used: bool)

  /** The header that block i of the list must have; address 0 is NULL. */
  ghost function HeaderOf(bs: seq<Block>, i: nat): Header
    requires i < |bs|
  {
    Header(if i == 0 then 0 else bs[i - 1].addr,
           if i + 1 == |bs| then 0 else bs[i + 1].addr,
           bs[i].addr, bs[i].len, bs[i].used)
  }

  /** Memory holds exactly this list: both directions of every link, and `base` the last block. */
  ghost predicate Linked(base: nat, hdr: map<nat, Header>, bs: seq<Block>) {
    && base == (if |bs| == 0 then 0 else bs[|bs| - 1].addr)
    && AllLinked(hdr, bs)
  }

  ghost predicate LinkedAt(hdr: map<nat, Header>, bs: seq<Block>, i: nat)
    requires i < |bs|
  {
    bs[i].addr in hdr && hdr[bs[i].addr] == HeaderOf(bs, i)
  }

  ghost predicate AllLinked(hdr: map<nat, Header>, bs: seq<Block>) {
    forall i: nat | i < |bs| :: LinkedAt(hdr, bs, i)
  }

  ghost predicate Distinct(bs: seq<Block>) {
    forall i, j | 0 <= i < j < |bs| :: bs[i].addr != bs[j].addr
  }

  lemma DistinctAddrs(s: State)
    requires Inv(s)
    ensures Distinct(s.blocks) && forall i | 0 <= i < |s.blocks| :: s.blocks[i].addr > 0
  {
    hide Aligned8;
    forall i, j | 0 <= i < j < |s.blocks| ensures s.blocks[i].addr != s.blocks[j].addr {
      AddrsDiffer(s.blocks, i, j);
    }
  }

  // ----------------------------------------------------------- link surgery

  function PushHdr(base: nat, hdr: map<nat, Header>, nb: Block): map<nat, Header> {
    (if base != 0 && base in hdr then hdr[base := hdr[base].(next := nb.addr)] else hdr)
      [nb.addr := Header(base, 0, nb.addr, nb.len, nb.used)]
  }

  lemma LinkPush(base: nat, hdr: map<nat, Header>, bs: seq<Block>, nb: Block)
    requires Linked(base, hdr, bs) && Distinct(bs + [nb])
    requires forall i | 0 <= i < |bs| :: bs[i].addr > 0
    ensures Linked(nb.addr, PushHdr(base, hdr, nb), bs + [nb])
  {
    var r := bs + [nb];
    forall k: nat | k < |r| ensures LinkedAt(PushHdr(base, hdr, nb), r, k) {
      if k < |bs| {
        assert LinkedAt(hdr, bs, k);
        assert r[k].addr != r[|bs|].addr;
        if k < |bs| - 1 { assert r[k].addr != r[|bs| - 1].addr; }
      }
    }
  }

  /** Rewriting length and flag of one header leaves the links alone. */
  lemma LinkUpdate(base: nat, hdr: map<nat, Header>, bs: seq<Block>, i: nat, b: Block)
    requires Linked(base, hdr, bs) && Distinct(bs) && i < |bs| && b.addr == bs[i].addr
    ensures b.addr in hdr
    ensures Linked(base, hdr[b.addr := hdr[b.addr].(len := b.len, used := b.used)], bs[i := b])
  {
    assert LinkedAt(hdr, bs, i);
    var h := hdr[b.addr := hdr[b.addr].(len := b.len, used := b.used)];
    var r := bs[i := b];
    forall k: nat | k < |bs| ensures LinkedAt(h, r, k) {
      assert LinkedAt(hdr, bs, k);
      if k != i { Differ(bs, k, i); }
      hide Distinct, AllLinked;
      assert HeaderOf(r, k) == if k == i then HeaderOf(bs, k).(len := b.len, used := b.used) else HeaderOf(bs, k);
    }
  }

  /** The three header writes of shrink_block, for block b cut to size with rest n. */
  function SplitHdr(hdr: map<nat, Header>, b: nat, n: Block, size: nat): map<nat, Header>
    requires b in hdr
  {
    var next := hdr[b].next;
    var h1 := hdr[n.addr := Header(b, next, n.addr, n.len, n.used)];
    var h2 := if next in h1 && next != 0 then h1[next := h1[next].(prev := n.addr)] else h1;
    h2[b := hdr[b].(next := n.addr, len := size)]
  }

  lemma Differ(bs: seq<Block>, i: nat, j: nat)
    requires Distinct(bs) && i < |bs| && j < |bs| && i != j
    ensures bs[i].addr != bs[j].addr
  {
  }

  lemma SplitHdrAt(hdr: map<nat, Header>, bs: seq<Block>, i: nat, n: Block, size: nat, k: nat)
    requires i < |bs| && k < |bs| && Distinct(bs)
    requires AllLinked(hdr, bs)
    requires forall l | 0 <= l < |bs| :: bs[l].addr > 0 && bs[l].addr != n.addr
    ensures bs[i].addr in hdr
    ensures var h := SplitHdr(hdr, bs[i].addr, n, size);
            && bs[k].addr in h
            && h[bs[k].addr] == if k == i then HeaderOf(bs, i).(next := n.addr, len := size)
                                else if k == i + 1 then HeaderOf(bs, k).(prev := n.addr)
                                else HeaderOf(bs, k)
    ensures n.addr in SplitHdr(hdr, bs[i].addr, n, size)
    ensures SplitHdr(hdr, bs[i].addr, n, size)[n.addr] ==
            Header(bs[i].addr, HeaderOf(bs, i).next, n.addr, n.len, n.used)
  {
    if k != i { Differ(bs, k, i); }
    if i + 1 < |bs| && k != i + 1 { Differ(bs, k, i + 1); }
    if i + 1 < |bs| { Differ(bs, i, i + 1); assert LinkedAt(hdr, bs, i + 1); }
    assert LinkedAt(hdr, bs, i) && LinkedAt(hdr, bs, k);
    hide Distinct, AllLinked;
  }

  lemma SplitHeaderOf(bs: seq<Block>, i: nat, n: Block, size: nat, k: nat)
    requires i < |bs| && k <= |bs|
    ensures var r := Splice(bs, i, i + 1, [bs[i].(len := size), n]);
            && |r| == |bs| + 1
            && r[k].addr == (if k <= i then bs[k].addr else if k == i + 1 then n.addr else bs[k - 1].addr)
            && HeaderOf(r, k) == if k < i then HeaderOf(bs, k)
                                 else if k == i then HeaderOf(bs, i).(next := n.addr, len := size)
                                 else if k == i + 1 then Header(bs[i].addr, HeaderOf(bs, i).next, n.addr, n.len, n.used)
                                 else if k == i + 2 then HeaderOf(bs, k - 1).(prev := n.addr)
                                 else HeaderOf(bs, k - 1)
  {
  }

  lemma SplitLinkedAt(hdr: map<nat, Header>, bs: seq<Block>, i: nat, n: Block, size: nat, k: nat)
    requires i < |bs| && k <= |bs| && Distinct(bs) && AllLinked(hdr, bs)
    requires forall l | 0 <= l < |bs| :: bs[l].addr > 0 && bs[l].addr != n.addr
    ensures bs[i].addr in hdr && |Splice(bs, i, i + 1, [bs[i].(len := size), n])| == |bs| + 1
    ensures LinkedAt(SplitHdr(hdr, bs[i].addr, n, size), Splice(bs, i, i + 1, [bs[i].(len := size), n]), k)
  {
    hide Splice, Distinct, SplitHdr, AllLinked, HeaderOf;
    SplitHeaderOf(bs, i, n, size, k);
    if k <= i {
      SplitHdrAt(hdr, bs, i, n, size, k);
    } else {
      SplitHdrAt(hdr, bs, i, n, size, k - 1);
    }
  }

  lemma LinkSplit(base: nat, hdr: map<nat, Header>, bs: seq<Block>, i: nat, n: Block, size: nat)
    requires i < |bs| && Linked(base, hdr, bs) && Distinct(bs)
    requires forall k | 0 <= k < |bs| :: bs[k].addr > 0 && bs[k].addr != n.addr
    ensures bs[i].addr in hdr
    ensures Linked(if base == bs[i].addr then n.addr else base, SplitHdr(hdr, bs[i].addr, n, size),
                   Splice(bs, i, i + 1, [bs[i].(len := size), n]))
  {
    var r := Splice(bs, i, i + 1, [bs[i].(len := size), n]);
    if i + 1 < |bs| { Differ(bs, i, |bs| - 1); }
    SpliceAt(bs, i, i + 1, [bs[i].(len := size), n], |bs|);
    SplitLinkedAt(hdr, bs, i, n, size, 0);
    hide LinkedAt, Splice, SplitHdr, Distinct;
    forall k: nat | k < |r| ensures LinkedAt(SplitHdr(hdr, bs[i].addr, n, size), r, k) {
      SplitLinkedAt(hdr, bs, i, n, size, k);
    }
  }

  /** The header writes of block_merge_next. */
  function MergeHdr(hdr: map<nat, Header>, b: nat): map<nat, Header>
    requires b in hdr && hdr[b].next in hdr && b <= hdr[b].next
  {
    var n := hdr[hdr[b].next];
    var h1 := hdr[b := hdr[b].(len := hdr[b].next - b + n.len, next := n.next)];
    if n.next in h1 && n.next != 0 then h1[n.next := h1[n.next].(prev := b)] else h1
  }

  lemma MergeHdrAt(hdr: map<nat, Header>, bs: seq<Block>, i: nat, k: nat)
    requires i + 1 < |bs| && k < |bs| && k != i + 1 && Distinct(bs)
    requires AllLinked(hdr, bs)
    requires forall l | 0 <= l < |bs| :: bs[l].addr > 0
    requires bs[i].addr <= bs[i + 1].addr
    ensures bs[i].addr in hdr && hdr[bs[i].addr].next == bs[i + 1].addr && bs[i + 1].addr in hdr
    ensures var h := MergeHdr(hdr, bs[i].addr);
            && bs[k].addr in h
            && h[bs[k].addr] ==
               if k == i then
                 HeaderOf(bs, i).(next := HeaderOf(bs, i + 1).next, len := bs[i + 1].addr - bs[i].addr + bs[i + 1].len)
               else if k == i + 2 then HeaderOf(bs, k).(prev := bs[i].addr)
               else HeaderOf(bs, k)
  {
    if k != i { Differ(bs, k, i); }
    Differ(bs, k, i + 1);
    if i + 2 < |bs| && k != i + 2 { Differ(bs, k, i + 2); }
    if i + 2 < |bs| { Differ(bs, i, i + 2); assert LinkedAt(hdr, bs, i + 2); }
    assert LinkedAt(hdr, bs, i) && LinkedAt(hdr, bs, i + 1) && LinkedAt(hdr, bs, k);
    hide Distinct, AllLinked;
  }

  lemma MergeHeaderOf(bs: seq<Block>, i: nat, k: nat)
    requires i + 1 < |bs| && k < |bs| - 1 && bs[i].addr <= bs[i + 1].addr
    ensures var r := Splice(bs, i, i + 2, [Merged(bs[i], bs[i + 1])]);
            && |r| == |bs| - 1
            && r[k].addr == (if k <= i then bs[k].addr else bs[k + 1].addr)
            && HeaderOf(r, k) ==
               if k < i then HeaderOf(bs, k)
               else if k == i then
                 HeaderOf(bs, i).(next := HeaderOf(bs, i + 1).next, len := bs[i + 1].addr - bs[i].addr + bs[i + 1].len)
               else if k == i + 1 then HeaderOf(bs, k + 1).(prev := bs[i].addr)
               else HeaderOf(bs, k + 1)
  {
  }

  lemma MergeLinkedAt(hdr: map<nat, Header>, bs: seq<Block>, i: nat, k: nat)
    requires i + 1 < |bs| && k < |bs| - 1 && Distinct(bs) && AllLinked(hdr, bs)
    requires forall l | 0 <= l < |bs| :: bs[l].addr > 0
    requires bs[i].addr <= bs[i + 1].addr
    ensures bs[i].addr in hdr && hdr[bs[i].addr].next == bs[i + 1].addr && bs[i + 1].addr in hdr
    ensures |Splice(bs, i, i + 2, [Merged(bs[i], bs[i + 1])])| == |bs| - 1
    ensures LinkedAt(MergeHdr(hdr, bs[i].addr), Splice(bs, i, i + 2, [Merged(bs[i], bs[i + 1])]), k)
  {
    hide Splice, Distinct, MergeHdr, AllLinked, HeaderOf;
    MergeHeaderOf(bs, i, k);
    if k <= i {
      MergeHdrAt(hdr, bs, i, k);
    } else {
      MergeHdrAt(hdr, bs, i, k + 1);
    }
  }

  lemma LinkMerge(base: nat, hdr: map<nat, Header>, bs: seq<Block>, i: nat)
    requires i + 1 < |bs| && Linked(base, hdr, bs) && Distinct(bs)
    requires forall k | 0 <= k < |bs| :: bs[k].addr > 0
    requires bs[i].addr <= bs[i + 1].addr
    ensures bs[i].addr in hdr && hdr[bs[i].addr].next == bs[i + 1].addr && bs[i + 1].addr in hdr
    ensures Linked(if base == bs[i + 1].addr then bs[i].addr else base, MergeHdr(hdr, bs[i].addr),
                   Splice(bs, i, i + 2, [Merged(bs[i], bs[i + 1])]))
  {
    var r := Splice(bs, i, i + 2, [Merged(bs[i], bs[i + 1])]);
    if i + 2 < |bs| { Differ(bs, i + 1, |bs| - 1); }
    SpliceAt(bs, i, i + 2, [Merged(bs[i], bs[i + 1])], |bs| - 2);
    MergeLinkedAt(hdr, bs, i, 0);
    hide LinkedAt, Splice, MergeHdr, Distinct;
    forall k: nat | k < |r| ensures LinkedAt(MergeHdr(hdr, bs[i].addr), r, k) {
      MergeLinkedAt(hdr, bs, i, k);
    }
  }

  /** The header cut out of block i lies where no header was. */
  lemma RestIsNew(s: State, i: nat, size: nat)
    requires Inv(s) && i < |s.blocks| && Splits(s.blocks[i], size)
    ensures forall k | 0 <= k < |s.blocks| :: s.blocks[k].addr > 0 && s.blocks[k].addr != Rest(s.blocks[i], size).addr
  {
    hide AlignUp, Aligned8;
    var n := Rest(s.blocks[i], size);
    AlignedAt(s, i);
    RestSpans(s.blocks[i], size);
    forall k | 0 <= k < |s.blocks| ensures s.blocks[k].addr > 0 && s.blocks[k].addr != n.addr {
      AlignedAt(s, k);
      if k != i { OutsideOthers(s, i, k, n.addr); }
    }
  }

  class KmallocHeap {
    var base: nat
    var brk: nat
    var hdr: map<nat, Header>
    var data: map<nat, Byte>
    ghost var blocks: seq<Block>

    ghost function S(): State
      reads this
    {
      State(blocks, brk, data)
    }

    ghost predicate Valid()
      reads this
    {
      Inv(S()) && Linked(base, hdr, blocks)
    }

    constructor (initbrk: nat, raw: map<nat, Byte>)
      requires initbrk > 0
      ensures Valid() && S() == State([], initbrk, raw)
    {
      base, brk, hdr, data, blocks := 0, initbrk, map[], raw, [];
    }

    /** What Linked says about one block, for the reads below. */
    lemma Facts(i: nat)
      requires Linked(base, hdr, blocks) && Inv(S()) && i < |blocks|
      ensures blocks[i].addr in hdr && hdr[blocks[i].addr] == HeaderOf(blocks, i) && blocks[i].addr > 0
    {
      AlignedAt(S(), i);
      assert LinkedAt(hdr, blocks, i);
    }

    method PushBlock(size: nat) returns (nb: nat)
      requires Valid()
      modifies this
      ensures Valid() && S() == Push(old(S()), size) && nb == AlignUp(old(brk))
    {
      hide AlignUp, Inv, LinkedAt, AllLinked, Distinct;
      ghost var block := Block(AlignUp(brk), size, true);
      PushInv(S(), size);
      DistinctAddrs(S());
      DistinctAddrs(Push(S(), size));
      if |blocks| > 0 { Facts(|blocks| - 1); }
      var start := brk;
      nb := AlignUp(start);
      brk := nb + HEADER + size;
      if base != 0 {
        hdr := hdr[base := hdr[base].(next := nb)];
      }
      hdr := hdr[nb := Header(base, 0, nb, size, true)];
      data := data - HeaderRange(nb);
      LinkPush(old(base), old(hdr), blocks, block);
      base := nb;
      blocks := blocks + [block];
    }

    /** All that shrink_block needs to know about the list before it cuts block i. */
    lemma BeforeCut(i: nat, size: nat)
      requires Valid() && i < |blocks|
      ensures Inv(Shrink(S(), i, size)) && blocks[i].addr in hdr && hdr[blocks[i].addr].len == blocks[i].len
      ensures Splits(blocks[i], size) ==>
                var b := blocks[i].addr;
                var rest := Rest(blocks[i], size);
                && b != rest.addr && hdr[b].next != rest.addr && hdr[b].next != b
                && (hdr[b].next != 0 ==> hdr[b].next in hdr)
                && Linked(if base == b then rest.addr else base,
                          SplitHdr(hdr, b, rest, size), Shrink(S(), i, size).blocks)
    {
      hide AlignUp, Inv, LinkedAt, AllLinked, Distinct, ShrinkPost, HeaderRange, Splice;
      Facts(i);
      if i + 1 < |blocks| { Facts(i + 1); }
      ShrinkInv(S(), i, size);
      DistinctAddrs(S());
      if Splits(blocks[i], size) {
        RestIsNew(S(), i, size);
        LinkSplit(base, hdr, blocks, i, Rest(blocks[i], size), size);
        ShrinkIsSplice(S(), i, size);
        if i + 1 < |blocks| { Differ(blocks, i, i + 1); }
      }
    }

    method ShrinkBlock(b: nat, size: nat, ghost i: nat)
      requires Valid() && i < |blocks| && blocks[i].addr == b
      modifies this
      ensures Valid() && S() == Shrink(old(S()), i, size)
    {
      hide AlignUp, Inv, Linked, HeaderRange;
      BeforeCut(i, size);
      if hdr[b].len - size >= MIN_SPLIT_SIZE {
        ghost var rest := Rest(blocks[i], size);
        var nb := AlignUp(b + HEADER + size);
        hdr := hdr[nb := Header(b, hdr[b].next, nb, b + hdr[b].len - nb, false)];
        data := data - HeaderRange(nb);
        if b == base {
          base := nb;
        }
        if hdr[b].next != 0 {
          hdr := hdr[hdr[b].next := hdr[hdr[b].next].(prev := nb)];
        }
        hdr := hdr[b := hdr[b].(next := nb)];
        hdr := hdr[b := hdr[b].(len := size)];
        assert hdr == SplitHdr(old(hdr), b, rest, size);
        blocks := Shrink(old(S()), i, size).blocks;
      }
    }

    /** All that block_merge_next needs to know about the list before it merges block i. */
    lemma BeforeMerge(i: nat)
      requires Valid() && i + 1 < |blocks|
      ensures blocks[i].addr <= blocks[i + 1].addr && Inv(MergeNext(S(), i))
      ensures var b, n := blocks[i].addr, blocks[i + 1].addr;
              && b in hdr && n in hdr && hdr[b].next == n && n != b && hdr[n].next != b && hdr[n].next != n
              && (hdr[n].next != 0 ==> hdr[n].next in hdr)
              && Linked(if base == n then b else base, MergeHdr(hdr, b), MergeNext(S(), i).blocks)
    {
      hide Inv, LinkedAt, AllLinked, Distinct, MergePost, Splice;
      Facts(i);
      Facts(i + 1);
      if i + 2 < |blocks| { Facts(i + 2); }
      MergeInv(S(), i);
      DistinctAddrs(S());
      LinkMerge(base, hdr, blocks, i);
      MergeIsSplice(S(), i);
      Differ(blocks, i, i + 1);
      if i + 2 < |blocks| { Differ(blocks, i, i + 2); Differ(blocks, i + 1, i + 2); }
    }

    method MergeWithNext(b: nat, ghost i: nat)
      requires Valid() && i + 1 < |blocks| && blocks[i].addr == b
      modifies this
      ensures Valid() && old(blocks[i].addr <= blocks[i + 1].addr) && S() == MergeNext(old(S()), i)
    {
      hide Inv, Linked;
      BeforeMerge(i);
      var n := hdr[b].next;
      hdr := hdr[b := hdr[b].(len := n - b + hdr[n].len)];
      if n == base {
        base := b;
      }
      hdr := hdr[b := hdr[b].(next := hdr[n].next)];
      if hdr[b].next != 0 {
        hdr := hdr[hdr[b].next := hdr[hdr[b].next].(prev := b)];
      }
      assert hdr == MergeHdr(old(hdr), b);
      blocks := MergeNext(old(S()), i).blocks;
    }

    /** The walk of get_free_block, from `base` along the prev links. */
    method FindFreeBlock(size: nat) returns (b: nat, ghost i: int)
      requires Valid()
      ensures i == FindFree(blocks, size, |blocks|)
      ensures if i >= 0 then i < |blocks| && b == blocks[i].addr && b != 0 else b == 0
    {
      hide Inv, FindFree;
      b := base;
      i := |blocks| - 1;
      FindFreeUnfold(blocks, size, |blocks|);
      if i >= 0 { Facts(i); }
      while b != 0
        invariant -1 <= i < |blocks|
        invariant if i >= 0 then b == blocks[i].addr && b != 0 else b == 0
        invariant FindFree(blocks, size, |blocks|) == FindFree(blocks, size, i + 1)
        decreases i
      {
        Facts(i);
        FindFreeUnfold(blocks, size, i + 1);
        if !hdr[b].used && hdr[b].len >= size {
          return;
        }
        b := hdr[b].prev;
        i := i - 1;
        if i >= 0 { Facts(i); }
      }
      FindFreeUnfold(blocks, size, 0);
    }

    method SetUsedFlag(b: nat, used: bool, ghost i: nat)
      requires Valid() && i < |blocks| && blocks[i].addr == b
      modifies this`hdr, this`blocks
      ensures Valid() && S() == SetUsed(old(S()), i, used)
    {
      hide Inv, Linked, Distinct;
      Facts(i);
      SetUsedInv(S(), i, used);
      DistinctAddrs(S());
      LinkUpdate(base, hdr, blocks, i, blocks[i].(used := used));
      hdr := hdr[b := hdr[b].(used := used)];
      blocks := blocks[i := blocks[i].(used := used)];
    }

    /** kmalloc; NULL is 0. */
    method Kmalloc(size: nat) returns (ptr: nat)
      requires Valid()
      modifies this
      ensures Valid() && Result(S(), ptr) == Malloc(old(S()), size)
    {
      hide Inv, FindFree, Shrink, Linked, Push;
      if size == 0 {
        return 0;
      }
      var b, i := FindFreeBlock(size);
      if b != 0 {
        ShrinkKeepsIndex(S(), i, size);
        ShrinkBlock(b, size, i);
        SetUsedFlag(b, true, i);
      } else {
        b := PushBlock(size);
      }
      ptr := b + HEADER;
    }

    /** kfree. */
    method Kfree(ptr: nat)
      requires Valid() && (ptr == 0 || Live(S(), ptr))
      modifies this
      ensures Valid() && S() == Free(old(S()), ptr)
    {
      hide Inv, Linked, MergeNext;
      if ptr == 0 {
        return;
      }
      var b := ptr - HEADER;
      ghost var i: nat := At(S(), ptr);
      Facts(i);
      if hdr[b].mag == b {
        SetUsedFlag(b, false, i);
        Facts(i);
        if i + 1 < |blocks| { Facts(i + 1); BeforeMerge(i); }
        if hdr[b].next != 0 && !hdr[hdr[b].next].used {
          MergeKeepsIndex(S(), i);
          MergeWithNext(b, i);
        }
        Facts(i);
        if i > 0 { Facts(i - 1); BeforeMerge(i - 1); }
        if hdr[b].prev != 0 && !hdr[hdr[b].prev].used {
          MergeWithNext(hdr[b].prev, i - 1);
        }
      }
    }

    /** The branch of krealloc that moves the break. */
    method GrowLast(b: nat, size: nat)
      requires Valid() && |blocks| > 0 && blocks[|blocks| - 1].addr == b && size >= blocks[|blocks| - 1].len
      modifies this
      ensures Valid()
      ensures var i := old(|blocks|) - 1;
              S() == old(S()).(blocks := old(blocks)[i := old(blocks)[i].(len := size)],
                               brk := old(brk) + (size - old(blocks)[i].len))
    {
      hide Inv, Linked, Distinct;
      ghost var i := |blocks| - 1;
      Facts(i);
      GrowInv(S(), size);
      DistinctAddrs(S());
      LinkUpdate(base, hdr, blocks, i, blocks[i].(len := size));
      brk := brk + (size - hdr[b].len);
      hdr := hdr[b := hdr[b].(len := size)];
      blocks := blocks[i := blocks[i].(len := size)];
    }

    /** The branch of krealloc that moves the region. */
    method MoveRegion(ptr: nat, size: nat) returns (newPtr: nat)
      requires Valid() && ptr != 0 && Live(S(), ptr) && size >= blocks[At(S(), ptr)].len
      modifies this
      ensures Valid()
      ensures var r := Malloc(old(S()), size);
              var n := old(blocks[At(S(), ptr)].len);
              && newPtr == r.ptr
              && S() == Free(r.s.(data := if r.ptr == 0 then r.s.data else CopyBytes(r.s.data, r.ptr, ptr, n)), ptr)
    {
      hide Inv, Linked, Free, Malloc, CopyBytes;
      ghost var i := At(S(), ptr);
      ghost var block := blocks[i];
      var b := ptr - HEADER;
      Facts(i);
      newPtr := Kmalloc(size);
      if newPtr != 0 {
        assert size > 0 by { MallocZero(old(S()), size); }
        MoveCopies(old(S()), i, size);
        assert Live(S(), ptr) && hdr[b].len == block.len by { StillThere(block); }
        data := CopyBytes(data, newPtr, ptr, hdr[b].len);
        StillThere(block);
      } else {
        MallocZero(old(S()), size);
      }
      Kfree(ptr);
    }

    lemma StillThere(block: Block)
      requires Inv(S()) && Linked(base, hdr, blocks) && block in blocks && block.used
      ensures Live(S(), Payload(block)) && block.addr in hdr && hdr[block.addr].len == block.len
    {
      var k :| 0 <= k < |blocks| && blocks[k] == block;
      LiveAt(S(), k);
      Facts(k);
    }

    /** krealloc. */
    method Krealloc(ptr: nat, size: nat) returns (newPtr: nat)
      requires Valid() && (ptr == 0 || Live(S(), ptr))
      modifies this
      ensures Valid() && Result(S(), newPtr) == Realloc(old(S()), ptr, size)
    {
      hide Inv, Linked, Free, Malloc, CopyBytes, Shrink, MergeNext;
      if ptr == 0 {
        newPtr := Kmalloc(size);
        return;
      }
      var b := ptr - HEADER;
      ghost var i: nat := At(S(), ptr);
      Facts(i);
      if i + 1 < |blocks| { Facts(i + 1); BeforeMerge(i); }
      newPtr := 0;
      if hdr[b].mag != b {
        return;
      }
      if size < hdr[b].len {
        ShrinkBlock(b, size, i);
        newPtr := ptr;
      } else if hdr[b].next == 0 {
        GrowLast(b, size);
        newPtr := ptr;
      } else if !hdr[hdr[b].next].used && hdr[b].next - b + hdr[hdr[b].next].len >= size {
        MergeWithNext(b, i);
        newPtr := ptr;
      } else {
        newPtr := MoveRegion(ptr, size);
      }
    }
  }

  lemma MallocZero(s: State, size: nat)
    requires Inv(s)
    ensures Malloc(s, size).ptr == 0 <==> size == 0
    ensures size == 0 ==> Malloc(s, size).s == s
  {
  }

  lemma FindFreeUnfold(bs: seq<Block>, size: nat, n: nat)
    requires n <= |bs|
    ensures FindFree(bs, size, n) ==
            if n == 0 then -1 else if Fits(bs[n - 1], size) then n - 1 else FindFree(bs, size, n - 1)
  {
  }

  lemma ShrinkKeepsIndex(s: State, i: nat, size: nat)
    requires i < |s.blocks|
    ensures i < |Shrink(s, i, size).blocks| && Shrink(s, i, size).blocks[i].addr == s.blocks[i].addr
  {
  }

  lemma MergeKeepsIndex(s: State, i: nat)
    requires i + 1 < |s.blocks| && s.blocks[i].addr <= s.blocks[i + 1].addr
    ensures i < |MergeNext(s, i).blocks| && MergeNext(s, i).blocks[i].addr == s.blocks[i].addr
  {
  }

  lemma ShrinkIsSplice(s: State, i: nat, size: nat)
    requires i < |s.blocks| && Splits(s.blocks[i], size)
    ensures Shrink(s, i, size).blocks ==
            Splice(s.blocks, i, i + 1, [s.blocks[i].(len := size), Rest(s.blocks[i], size)])
  {
  }

  lemma MergeIsSplice(s: State, i: nat)
    requires i + 1 < |s.blocks| && s.blocks[i].addr <= s.blocks[i + 1].addr
    ensures MergeNext(s, i).blocks == Splice(s.blocks, i, i + 2, [Merged(s.blocks[i], s.blocks[i + 1])])
  {
  }
}
