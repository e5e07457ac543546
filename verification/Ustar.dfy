/** The ustar archive as kernel/tar.c and kernel/fs/tarfs.c read it. */
module Ustar {
  import opened Strtok

  const BLOCK: nat := 512
  const NAME_LEN: nat := 100
  const MODE_AT: nat := 100
  const SIZE_AT: nat := 124
  const FLAG_AT: nat := 156
  const MAJOR_AT: nat := 329
  const MINOR_AT: nat := 337
  /** size_t is 32 bits wide. */
  const WORD: nat := 0x1_0000_0000

  /** A C string: what stands before the first NUL. */
  function Until(s: string): (r: string)
    ensures r <= s && NUL !in r
    ensures |r| < |s| ==> s[|r|] == NUL
  {
    if s == [] || s[0] == NUL then [] else [s[0]] + Until(s[1..])
  }

  /** The text before the first NUL is the only NUL-free prefix that stops at a NUL. */
  lemma UntilIs(s: string, n: nat)
    requires n <= |s| && NUL !in s[..n] && (n < |s| ==> s[n] == NUL)
    ensures Until(s) == s[..n]
  {
  }

  /** The value of a byte as a char, which is signed on i686. */
  function Signed(c: char): int {
    var b := c as int % 256;
    if b < 128 then b else b - 256
  }

  function Digit(c: char): int {
    Signed(c) - '0' as int
  }

  /** The number that a string of octal digits stands for. */
  function Octal(s: string): int {
    if s == [] then 0 else 8 * Octal(s[..|s| - 1]) + Digit(s[|s| - 1])
  }

  /** The digits that an archiver writes for n. */
  function Digits(n: nat): string {
    if n < 8 then [(n + '0' as int) as char] else Digits(n / 8) + [(n % 8 + '0' as int) as char]
  }

  function Zeros(k: nat): string {
    seq(k, _ => '0')
  }

  lemma {:induction false} OctalZeros(k: nat)
    ensures Octal(Zeros(k)) == 0
  {
    if k > 0 {
      OctalZeros(k - 1);
      assert Zeros(k)[..k - 1] == Zeros(k - 1);
    }
  }

  lemma DigitOf(n: nat)
    requires n < 8
    ensures Digit((n + '0' as int) as char) == n
  {
  }

  /** Reading back what was written, padded with zeros or not. */
  lemma {:induction false} OctalOfDigits(k: nat, n: nat)
    ensures Octal(Zeros(k) + Digits(n)) == n
    decreases n
  {
    DigitOf(n % 8);
    hide Digit;
    var s := Zeros(k) + Digits(n);
    var m := |s| - 1;
    if n < 8 {
      assert s[..m] == Zeros(k);
      OctalZeros(k);
    } else {
      assert s[..m] == Zeros(k) + Digits(n / 8);
      OctalOfDigits(k, n / 8);
    }
  }

  lemma WrapStep(a: int, d: int)
    ensures (8 * (a % WORD) + d) % WORD == (8 * a + d) % WORD
  {
  }

  lemma FieldStep(f: string, i: nat)
    requires i < |f|
    ensures (8 * (Octal(f[..i]) % WORD) + Digit(f[i])) % WORD == Octal(f[..i + 1]) % WORD
  {
    assert f[..i + 1][..i] == f[..i];
    WrapStep(Octal(f[..i]), Digit(f[i]));
  }

  /** tar_field: the octal number in a NUL-terminated field, in 32 bits. */
  method TarField(f: string) returns (n: nat)
    requires NUL in f
    ensures n == Octal(Until(f)) % WORD
  {
    n := 0;
    var i := 0;
    ghost var stop :| 0 <= stop < |f| && f[stop] == NUL;
    assert Octal(f[..0]) == 0;
    hide Octal, Until;
    while f[i] != NUL
      invariant 0 <= i <= stop && NUL !in f[..i]
      invariant n == Octal(f[..i]) % WORD
      decreases stop - i
    {
      assert f[..i + 1] == f[..i] + [f[i]];
      FieldStep(f, i);
      n := (8 * n + Digit(f[i])) % WORD;
      i := i + 1;
    }
    UntilIs(f, i);
  }

  /** A member of the archive: the header fields that the kernel looks at. */
  datatype Entry = Entry(name: string, mode: nat, size: nat, flag: char, major: nat, minor: nat)

  function Blocks(size: nat): nat {
    (size + BLOCK - 1) / BLOCK
  }

  /** The block of the header of entry i. */
  function Pos(es: seq<Entry>, i: nat): (b: nat)
    requires i <= |es|
  {
    if i == 0 then 0 else Pos(es, i - 1) + 1 + Blocks(es[i - 1].size)
  }

  ghost predicate FieldIs(h: string, off: nat, v: nat) {
    off <= |h| && NUL in h[off..] && Octal(Until(h[off..])) % WORD == v
  }

  /** The header block h describes e; a full 100-byte name without its NUL is not covered. */
  ghost predicate Describes(h: string, e: Entry) {
    && |h| == BLOCK && Until(h[..NAME_LEN]) == e.name && 0 < |e.name| < NAME_LEN
    && FieldIs(h, MODE_AT, e.mode) && FieldIs(h, SIZE_AT, e.size) && h[FLAG_AT] == e.flag
    && FieldIs(h, MAJOR_AT, e.major) && FieldIs(h, MINOR_AT, e.minor)
  }

  ghost predicate BlockWithin(disk: string, blk: int) {
    0 <= blk && blk * BLOCK + BLOCK <= |disk|
  }

  function BlockAt(disk: string, blk: int): (h: string)
    requires BlockWithin(disk, blk)
    ensures |h| == BLOCK
  {
    disk[blk * BLOCK..blk * BLOCK + BLOCK]
  }

  ghost predicate EntryAt(disk: string, es: seq<Entry>, i: int)
    requires 0 <= i < |es|
  {
    && BlockWithin(disk, Pos(es, i)) && Describes(BlockAt(disk, Pos(es, i)), es[i])
    && (Pos(es, i) + 1) * BLOCK + es[i].size <= |disk|
  }

  /** The disk holds the entries one after the other, and then a block without a name. */
  ghost predicate Archive(disk: string, es: seq<Entry>) {
    && |disk| < WORD / 2
    && (forall i | 0 <= i < |es| :: EntryAt(disk, es, i))
    && BlockWithin(disk, Pos(es, |es|)) && BlockAt(disk, Pos(es, |es|))[0] == NUL
  }

  /** tar_next_blk, in 32 bits. */
  method TarNextBlk(h: string, blk: nat) returns (next: nat)
    requires |h| == BLOCK && NUL in h[SIZE_AT..]
    ensures var size := Octal(Until(h[SIZE_AT..])) % WORD;
            next == (blk + (size + BLOCK - 1) % WORD / BLOCK + 1) % WORD
  {
    var size := TarField(h[SIZE_AT..]);
    var nblocks := (size + BLOCK - 1) % WORD / BLOCK;
    next := (blk + nblocks + 1) % WORD;
  }

  /** On an archive the arithmetic never wraps, and the next block is the next header. */
  lemma NextIsNext(disk: string, es: seq<Entry>, i: nat)
    requires Archive(disk, es) && i < |es|
    ensures (Pos(es, i) + (es[i].size + BLOCK - 1) % WORD / BLOCK + 1) % WORD == Pos(es, i + 1)
  {
    hide Describes, Pos, Blocks;
    assert EntryAt(disk, es, i);
    hide Archive, EntryAt;
    NoWrap(Pos(es, i), es[i].size);
    PosNext(es, i);
  }

  lemma PosNext(es: seq<Entry>, i: nat)
    requires i < |es|
    ensures Pos(es, i + 1) == Pos(es, i) + 1 + Blocks(es[i].size)
  {
  }

  /** The contents of a member fit the blocks before the next header, with less than one block to spare. */
  lemma BlocksTight(es: seq<Entry>, i: nat)
    requires i < |es|
    ensures var room := (Pos(es, i + 1) - Pos(es, i) - 1) * BLOCK; es[i].size <= room < es[i].size + BLOCK
  {
    PosNext(es, i);
  }

  lemma NoWrap(b: nat, size: nat)
    requires (b + 1) * BLOCK + size < WORD / 2
    ensures (b + (size + BLOCK - 1) % WORD / BLOCK + 1) % WORD == b + 1 + Blocks(size)
  {
  }

  /** The two kinds of block that a scan can meet. */
  lemma HeaderBlock(disk: string, es: seq<Entry>, i: nat)
    requires Archive(disk, es) && i <= |es|
    ensures BlockWithin(disk, Pos(es, i))
    ensures i == |es| <==> BlockAt(disk, Pos(es, i))[0] == NUL
    ensures i < |es| ==> Describes(BlockAt(disk, Pos(es, i)), es[i])
    ensures i < |es| ==> (Pos(es, i) + 1) * BLOCK + es[i].size <= |disk|
  {
    if i < |es| {
      assert EntryAt(disk, es, i);
      NamedBlock(BlockAt(disk, Pos(es, i)), es[i]);
    }
  }

  lemma NamedBlock(h: string, e: Entry)
    requires Describes(h, e)
    ensures h[0] == e.name[0] != NUL
  {
  }
}
