/** The ring buffer of kernel/pipe.c and the two loops that move bytes through it. */
module Pipe {
  import opened Common

  const PIPE_SIZE: nat := 4096
  /** One slot always stays empty, so that full and empty differ. */
  const CAPACITY: nat := PIPE_SIZE - 1

  /** The slot after i. */
  function Next(i: nat): (r: nat)
    requires i < PIPE_SIZE
    ensures r == if i + 1 == PIPE_SIZE then 0 else i + 1
  {
    (i + 1) % PIPE_SIZE
  }

  /** The bytes from lo up to hi, going round. */
  function RingBytes(buffer: seq<Byte>, lo: nat, hi: nat): seq<Byte>
    requires lo < |buffer| && hi < |buffer|
  {
    if lo <= hi then buffer[lo..hi] else buffer[lo..] + buffer[..hi]
  }

  lemma RingSize(buffer: seq<Byte>, lo: nat, hi: nat)
    requires |buffer| == PIPE_SIZE && lo < PIPE_SIZE && hi < PIPE_SIZE
    ensures |RingBytes(buffer, lo, hi)| <= CAPACITY
    ensures hi == lo <==> |RingBytes(buffer, lo, hi)| == 0
    ensures Next(hi) == lo <==> |RingBytes(buffer, lo, hi)| == CAPACITY
  {
  }

  lemma RingTake(buffer: seq<Byte>, lo: nat, hi: nat)
    requires |buffer| == PIPE_SIZE && lo < PIPE_SIZE && hi < PIPE_SIZE && lo != hi
    ensures var ring := RingBytes(buffer, lo, hi);
            |ring| > 0 && ring[0] == buffer[lo] && RingBytes(buffer, Next(lo), hi) == ring[1..]
  {
    NextIs(lo);
    hide Next;
    if lo + 1 == PIPE_SIZE {
      assert buffer[lo..] == [buffer[lo]];
      assert buffer[0..hi] == buffer[..hi];
    }
  }

  lemma NextIs(i: nat)
    requires i < PIPE_SIZE
    ensures Next(i) == if i + 1 == PIPE_SIZE then 0 else i + 1
  {
  }

  lemma RingPut(buffer: seq<Byte>, lo: nat, hi: nat, b: Byte)
    requires |buffer| == PIPE_SIZE && lo < PIPE_SIZE && hi < PIPE_SIZE && Next(hi) != lo
    ensures RingBytes(buffer[hi := b], lo, Next(hi)) == RingBytes(buffer, lo, hi) + [b]
  {
  }

  class PipeRing {
    const buffer: array<Byte>
    var lo: nat
    var hi: nat
    var oread: bool
    var owrite: bool

    ghost predicate Valid()
      reads this
    {
      buffer.Length == PIPE_SIZE && lo < PIPE_SIZE && hi < PIPE_SIZE
    }

    ghost function Contents(): seq<Byte>
      reads this, buffer
      requires Valid()
    {
      RingBytes(buffer[..], lo, hi)
    }

    /** open_pipe: a zeroed pipe with both ends open. */
    constructor ()
      ensures Valid() && fresh(buffer) && Contents() == [] && oread && owrite
    {
      buffer := new Byte[PIPE_SIZE](_ => 0);
      lo, hi, oread, owrite := 0, 0, true, true;
    }

    /** The inner loop of pread: as many bytes as are there, up to count. */
    method Take(count: nat) returns (buf: seq<Byte>)
      requires Valid()
      modifies this`lo
      ensures Valid()
      ensures buf == old(Contents())[..Min(count, |old(Contents())|)]
      ensures Contents() == old(Contents())[Min(count, |old(Contents())|)..]
    {
      hide RingBytes, Next;
      buf := [];
      var left := count;
      ghost var all := Contents();
      while hi != lo && left > 0
        invariant Valid() && 0 <= left <= count && |buf| == count - left && |buf| <= |all|
        invariant buf == all[..|buf|] && Contents() == all[|buf|..]
        decreases left
      {
        RingTake(buffer[..], lo, hi);
        buf := buf + [buffer[lo]];
        left := left - 1;
        lo := Next(lo);
      }
      RingSize(buffer[..], lo, hi);
      assert |Contents()| == |all| - |buf|;
      assert |buf| == Min(count, |all|);
    }

    /** The inner loop of pwrite: as many bytes as fit. */
    method Put(bytes: seq<Byte>) returns (n: nat)
      requires Valid()
      modifies this`hi, buffer
      ensures Valid()
      ensures n == Min(|bytes|, CAPACITY - |old(Contents())|)
      ensures Contents() == old(Contents()) + bytes[..n]
    {
      hide RingBytes, Next;
      n := 0;
      ghost var all := Contents();
      RingSize(buffer[..], lo, hi);
      while Next(hi) != lo && n < |bytes|
        invariant Valid() && n <= |bytes| && |all| + n <= CAPACITY
        invariant Contents() == all + bytes[..n]
        decreases |bytes| - n
      {
        ghost var before := buffer[..];
        RingPut(before, lo, hi, bytes[n]);
        RingSize(before, lo, hi);
        buffer[hi] := bytes[n];
        assert buffer[..] == before[hi := bytes[n]];
        hi := Next(hi);
        n := n + 1;
        assert bytes[..n] == bytes[..n - 1] + [bytes[n - 1]];
      }
      RingSize(buffer[..], lo, hi);
      assert n == Min(|bytes|, CAPACITY - |all|);
    }
  }
}
