/** Buffered streams of the C library (libc/stdio/fwrite.c, fflush.c, fread.c). */
module Stdio {
  import opened Common

  const BUFSIZ: nat := 4096
  const NEWLINE: Byte := 10

  datatype Buffering = Unbuffered | LineBuffered | FullyBuffered

  // ---- what writing does, on values ----

  /** The bytes the descriptor has received and the bytes still in the buffer. */
  datatype Output = Output(out: seq<Byte>, buf: seq<Byte>)

  /** Whether fwrite writes the buffer out and then the data, instead of appending. */
  predicate Spills(bf: Buffering, o: Output, data: seq<Byte>) {
    |data| + |o.buf| > BUFSIZ || (bf == LineBuffered && NEWLINE in data)
  }

  function Written(bf: Buffering, o: Output, data: seq<Byte>): Output {
    if bf == Unbuffered then o.(out := o.out + data)
    else if Spills(bf, o, data) then Output(o.out + o.buf + data, [])
    else o.(buf := o.buf + data)
  }

  function Flushed(o: Output): Output {
    Output(o.out + o.buf, [])
  }

  datatype Call = Write(data: seq<Byte>) | Flush

  function Apply(bf: Buffering, o: Output, c: Call): Output {
    match c
    case Write(data) => Written(bf, o, data)
    case Flush => Flushed(o)
  }

  function Run(bf: Buffering, calls: seq<Call>): Output {
    if calls == [] then Output([], [])
    else Apply(bf, Run(bf, calls[..|calls| - 1]), calls[|calls| - 1])
  }

  /** Everything the program wrote, in order. */
  function Total(calls: seq<Call>): seq<Byte> {
    if calls == [] then []
    else
      var c := calls[|calls| - 1];
      Total(calls[..|calls| - 1]) + if c.Write? then c.data else []
  }

  /** The descriptor never lags by more than a buffer, and in line mode never by a complete line. */
  ghost predicate Bounded(bf: Buffering, o: Output) {
    && |o.buf| <= BUFSIZ
    && (bf == Unbuffered ==> o.buf == [])
    && (bf == LineBuffered ==> NEWLINE !in o.buf)
  }

  /** Descriptor bytes followed by the buffer are everything written, after any mix of calls. */
  lemma {:induction false} RunConserves(bf: Buffering, calls: seq<Call>)
    ensures Run(bf, calls).out + Run(bf, calls).buf == Total(calls)
    ensures Bounded(bf, Run(bf, calls))
  {
    if calls != [] {
      RunConserves(bf, calls[..|calls| - 1]);
      ApplyKeeps(bf, Run(bf, calls[..|calls| - 1]), calls[|calls| - 1]);
    }
  }

  lemma ApplyKeeps(bf: Buffering, o: Output, c: Call)
    requires Bounded(bf, o)
    ensures Bounded(bf, Apply(bf, o, c))
    ensures Apply(bf, o, c).out + Apply(bf, o, c).buf == o.out + o.buf + if c.Write? then c.data else []
  {
  }

  /** A buffered stream that is flushed at the end shows what an unbuffered one shows. */
  lemma FlushedIsUnbuffered(bf: Buffering, calls: seq<Call>)
    ensures Run(bf, calls + [Flush]).out == Run(Unbuffered, calls).out
  {
    assert (calls + [Flush])[..|calls|] == calls;
    RunConserves(bf, calls);
    RunConserves(Unbuffered, calls);
  }

  /** The descriptor is written to only when the data does not fit, or ends a line in line mode. */
  lemma {:induction false} NothingEarly(bf: Buffering, calls: seq<Call>)
    requires bf != Unbuffered && |Total(calls)| <= BUFSIZ && (bf == LineBuffered ==> NEWLINE !in Total(calls))
    requires Flush !in calls
    ensures Run(bf, calls) == Output([], Total(calls))
  {
    if calls != [] {
      var last := calls[|calls| - 1];
      assert last in calls;
      NothingEarly(bf, calls[..|calls| - 1]);
    }
  }

  method Memcpy(dst: array<Byte>, at: nat, bytes: seq<Byte>)
    requires at + |bytes| <= dst.Length
    modifies dst
    ensures dst[..at] == old(dst[..at]) && dst[at + |bytes|..] == old(dst[at + |bytes|..])
    ensures dst[at..at + |bytes|] == bytes && dst[..at + |bytes|] == old(dst[..at]) + bytes
  {
    forall i | 0 <= i < |bytes| { dst[at + i] := bytes[i]; }
  }

  /** The next part of the source follows what has been read of it. */
  lemma NextPart(src: seq<Byte>, a: nat, b: nat)
    requires a <= b <= |src|
    ensures src[..a] + src[a..b] == src[..b]
  {
  }

  lemma Regroup(a: seq<Byte>, b: seq<Byte>, c: seq<Byte>)
    ensures a + b + c == a + (b + c)
  {
  }

  lemma Split(s: seq<Byte>, k: nat)
    requires k <= |s|
    ensures s == s[..k] + s[k..]
  {
  }

  lemma TailOfTail(s: seq<Byte>, a: nat, b: nat)
    requires a + b <= |s|
    ensures s[a..][b..] == s[a + b..]
  {
  }

  /** An output stream: its buffer, and the descriptor it writes to. */
  class Writer {
    const bf: Buffering
    const valid: bool
    const buffer: array<Byte>
    var end: nat
    var badFd: bool
    var out: seq<Byte>

    /** A fresh stream. */
    constructor (bf: Buffering, valid: bool)
      ensures Valid() && State() == Output([], []) && this.bf == bf && this.valid == valid && fresh(buffer)
    {
      this.bf, this.valid := bf, valid;
      buffer := new Byte[BUFSIZ](_ => 0);
      end, badFd, out := 0, false, [];
    }

    ghost predicate Valid()
      reads this, buffer
    {
      buffer.Length == BUFSIZ && end <= BUFSIZ && Bounded(bf, State())
    }

    ghost function State(): Output
      requires buffer.Length == BUFSIZ && end <= BUFSIZ
      reads this, buffer
    {
      Output(out, buffer[..end])
    }

    /** write(2), taking everything it is given. */
    method WriteFd(data: seq<Byte>) returns (r: nat)
      modifies this`out
      ensures out == old(out) + data && r == |data|
    {
      out := out + data;
      r := |data|;
    }

    /**
     * fwrite. The number returned is that of the bytes handed to the descriptor, which on the
     * spilling path counts the old buffer as well.
     */
    method Fwrite(data: seq<Byte>) returns (r: Option<nat>)
      requires Valid()
      modifies this`out, this`end, this`badFd, buffer
      ensures Valid()
      ensures !valid ==> r == None && badFd && State() == old(State())
      ensures valid ==>
                && State() == Written(bf, old(State()), data)
                && r == Some(|data| + if bf != Unbuffered && Spills(bf, old(State()), data) then old(end) else 0)
    {
      hide Bounded;
      ApplyKeeps(bf, State(), Write(data));
      if !valid {
        badFd := true;
        return None;
      }
      if bf == Unbuffered {
        var ret := WriteFd(data);
        return Some(ret);
      }
      var flushnl := bf == LineBuffered && NEWLINE in data;
      if |data| + end <= BUFSIZ && !flushnl {
        Memcpy(buffer, end, data);
        end := end + |data|;
        return Some(|data|);
      }
      var r1 := WriteFd(buffer[..end]);
      end := 0;
      var r2 := WriteFd(data);
      return Some(r1 + r2);
    }

    /** fflush. */
    method Fflush() returns (ok: bool)
      requires Valid()
      modifies this`out, this`end, this`badFd
      ensures Valid() && ok == valid
      ensures State() == if valid then Flushed(old(State())) else old(State())
      ensures badFd == (old(badFd) || !valid)
    {
      if !valid {
        badFd := true;
        return false;
      }
      var _ := WriteFd(buffer[..end]);
      end := 0;
      return true;
    }
  }

  /** An input stream over a source that may deliver any part of what it is asked for. */
  class Reader {
    const bf: Buffering
    const valid: bool
    const buffer: array<Byte>
    var start: nat
    var end: nat
    var eof: bool
    var badFd: bool
    /** The descriptor: all its bytes, and how many have been read from it. */
    const src: seq<Byte>
    var pos: nat
    /** Everything that fread has handed to the program. */
    ghost var delivered: seq<Byte>

    constructor (bf: Buffering, valid: bool, src: seq<Byte>)
      ensures Valid() && delivered == [] && this.bf == bf && this.valid == valid && this.src == src && fresh(buffer)
    {
      this.bf, this.valid, this.src := bf, valid, src;
      buffer := new Byte[BUFSIZ](_ => 0);
      start, end, eof, badFd, pos, delivered := 0, 0, false, false, 0, [];
    }

    /** The program has a prefix of the source, the buffer holds what comes next, the rest is unread. */
    ghost predicate Valid()
      reads this, buffer
    {
      && buffer.Length == BUFSIZ && start <= end <= BUFSIZ && pos <= |src|
      && (bf == Unbuffered ==> start == end)
      && delivered + buffer[start..end] == src[..pos]
    }

    /** read(2): some of the bytes asked for, and none only at the end of the source. */
    method ReadFd(n: nat) returns (data: seq<Byte>)
      requires pos <= |src|
      modifies this`pos
      ensures pos == old(pos) + |data| <= |src| && data == src[old(pos)..pos]
      ensures |data| <= n && (data == [] ==> n == 0 || old(pos) == |src|)
    {
      var most := Min(n, |src| - pos);
      var r: nat :| r <= most && (r == 0 ==> most == 0);
      data := src[pos..pos + r];
      pos := pos + r;
    }

    /**
     * fread of n bytes: the next r bytes of the source arrive in order, whatever the pattern of
     * short reads, and the loop ends. Fewer than n arrive only at the end of the source, or when
     * what the buffer could not supply is more than a buffer (or there is no buffer) and the one
     * direct read is short.
     */
    method Fread(ptr: array<Byte>, n: nat) returns (r: Option<nat>)
      requires Valid() && n <= ptr.Length && ptr != buffer
      modifies this`start, this`end, this`eof, this`badFd, this`pos, this`delivered, buffer, ptr
      ensures Valid()
      ensures !valid ==> r == None && badFd && delivered == old(delivered) && ptr[..] == old(ptr[..])
      ensures valid ==>
                && r.Some? && r.value <= n && delivered == old(delivered) + ptr[..r.value]
                && ptr[r.value..] == old(ptr[r.value..])
                && (r.value < n ==> delivered == src || bf == Unbuffered || n - old(end - start) > BUFSIZ)
                && eof == (old(eof) || r.value == 0)
    {
      if !valid {
        badFd := true;
        return None;
      }
      var got := 0;
      ghost var before, orig := delivered, ptr[..];
      if bf == Unbuffered {
        got := Direct(ptr, 0, n, before, orig);
      } else {
        ghost var held := end - start;
        while got < n
          invariant 0 <= got <= n && Valid() && Handed(ptr, got, before, orig) && eof == old(eof)
          invariant held <= got || got == n || (got == 0 && end - start == held)
          decreases n - got + |src| - pos
        {
          got := CopyOut(ptr, got, n, before, orig);
          if n - got > BUFSIZ {
            got := Direct(ptr, got, n, before, orig);
            break;
          } else if n - got > 0 {
            var some := Refill();
            if !some { break; }
          }
        }
      }
      if got == 0 { eof := true; }
      return Some(got);
    }

    /** The first `got` bytes at ptr have been handed over since `before`; the rest is as it was. */
    ghost predicate Handed(ptr: array<Byte>, got: nat, before: seq<Byte>, orig: seq<Byte>)
      reads this, ptr
    {
      && got <= ptr.Length == |orig|
      && delivered == before + ptr[..got] && ptr[got..] == orig[got..]
    }

    /** The part of the loop that empties the buffer into the caller's. */
    method CopyOut(ptr: array<Byte>, got: nat, n: nat, ghost before: seq<Byte>, ghost orig: seq<Byte>)
        returns (got': nat)
      requires Valid() && got <= n <= ptr.Length && ptr != buffer && Handed(ptr, got, before, orig)
      modifies this`start, this`delivered, ptr
      ensures Valid() && Handed(ptr, got', before, orig)
      ensures got' == got + Min(old(end - start), n - got) && (got' < n ==> start == end)
    {
      var bufread := Min(end - start, n - got);
      var held := buffer[start..end];
      var chunk := held[..bufread];
      Split(held, bufread);
      Regroup(delivered, chunk, held[bufread..]);
      Regroup(before, ptr[..got], chunk);
      TailOfTail(ptr[..], got, bufread);
      TailOfTail(orig, got, bufread);
      assert ptr[..][got..] == ptr[got..];
      Memcpy(ptr, got, chunk);
      got' := got + bufread;
      delivered := delivered + chunk;
      start := start + bufread;
      assert buffer[start..end] == held[bufread..];
    }

    /** One read straight into the caller's buffer, with nothing left in the stream's. */
    method Direct(ptr: array<Byte>, got: nat, n: nat, ghost before: seq<Byte>, ghost orig: seq<Byte>)
        returns (got': nat)
      requires Valid() && got <= n <= ptr.Length && ptr != buffer && start == end && Handed(ptr, got, before, orig)
      modifies this`pos, this`delivered, ptr
      ensures Valid() && Handed(ptr, got', before, orig) && got <= got' <= n
    {
      assert buffer[start..end] == [] && delivered == src[..pos];
      var data := ReadFd(n - got);
      NextPart(src, old(pos), pos);
      Regroup(before, ptr[..got], data);
      TailOfTail(ptr[..], got, |data|);
      TailOfTail(orig, got, |data|);
      assert ptr[..][got..] == ptr[got..];
      Memcpy(ptr, got, data);
      got' := got + |data|;
      delivered := delivered + data;
      assert buffer[start..end] == [];
    }

    /** Fills the empty buffer again; false at the end of the source. */
    method Refill() returns (some: bool)
      requires Valid() && start == end && bf != Unbuffered
      modifies this`start, this`end, this`pos, buffer
      ensures Valid() && old(pos) <= pos && start == 0
      ensures if some then pos > old(pos) && end > 0 else delivered == src && end == 0
    {
      assert buffer[start..end] == [] && delivered == src[..pos];
      start := 0;
      var data := ReadFd(BUFSIZ);
      NextPart(src, old(pos), pos);
      Memcpy(buffer, 0, data);
      end := |data|;
      some := data != [];
    }
  }
}
