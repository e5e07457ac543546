/** The read-only file system over a ustar archive (kernel/fs/tarfs.c). */
module TarFs {
  import opened Common
  import opened Strtok
  import opened Ustar

  const FILE_NAME_LEN: nat := 256
  const ID_ROOT: nat := 0xffff_ffff

  datatype FileType = Directory | Special | Regular
  /** dev is set for special files only. */
  datatype Inode = Inode(exec: bool, ftype: FileType, dev: Option<nat>, size: nat, id: nat)
  datatype Lookup = Found(inode: Inode) | NoEntry | Unsupported
  datatype Dirent = Dirent(id: nat, kind: Option<FileType>, name: string)
  datatype Answer = NotDir | Absent | Present(dirent: Dirent)

  /** What the typeflag says; None for the kinds the kernel does not know. */
  function KindOf(flag: char): Option<FileType> {
    if flag == '0' then Some(Regular)
    else if flag == '5' then Some(Directory)
    else if flag == '3' || flag == '4' then Some(Special)
    else None
  }

  // the bitwise operators of C on unsigned numbers

  function BitAnd(a: nat, b: nat): nat {
    if a == 0 || b == 0 then 0 else 2 * BitAnd(a / 2, b / 2) + if a % 2 == 1 && b % 2 == 1 then 1 else 0
  }

  function BitOr(a: nat, b: nat): nat
    decreases a + b
  {
    if a == 0 && b == 0 then 0 else 2 * BitOr(a / 2, b / 2) + if a % 2 == 1 || b % 2 == 1 then 1 else 0
  }

  function ShiftLeft(a: nat, n: nat): nat {
    if n == 0 then a else 2 * ShiftLeft(a, n - 1)
  }

  /** mode & 0111, where the mask is 0x49. */
  predicate Executable(mode: nat) {
    BitAnd(mode, 0x49) != 0
  }

  lemma AndStep(a: nat, b: nat)
    ensures BitAnd(a, b) == 2 * BitAnd(a / 2, b / 2) + if a % 2 == 1 && b % 2 == 1 then 1 else 0
  {
  }

  /** Of a mode shifted by one octal digit, and a mask of that digit's execute bit and those above. */
  lemma AndDigit(a: nat, mask: nat)
    ensures BitAnd(a, 8 * mask + 1) != 0 <==> a % 2 == 1 || BitAnd(a / 8, mask) != 0
  {
    AndStep(a, 8 * mask + 1);
    AndStep(a / 2, 4 * mask);
    AndStep(a / 2 / 2, 2 * mask);
    assert a / 2 / 2 / 2 == a / 8;
  }

  /** A file is executable when its owner, its group or everybody else may execute it. */
  lemma ExecutableIff(mode: nat)
    ensures Executable(mode) <==> mode % 2 == 1 || mode / 8 % 2 == 1 || mode / 64 % 2 == 1
  {
    AndDigit(mode, 9);
    AndDigit(mode / 8, 1);
    AndDigit(mode / 8 / 8, 0);
    assert mode / 8 / 8 == mode / 64;
  }

  /** MKDEV, in 32 bits. */
  function MakeDev(major: nat, minor: nat): nat {
    BitOr(ShiftLeft(major, 16) % WORD, minor % WORD)
  }

  /** MAJOR and MINOR. */
  function MajorOf(dev: nat): nat { dev / 0x10000 % 0x10000 }
  function MinorOf(dev: nat): nat { dev % 0x10000 }

  lemma {:induction false} ShiftIsTimes(a: nat, n: nat)
    ensures ShiftLeft(a, n) == a * ShiftLeft(1, n)
  {
    if n > 0 { ShiftIsTimes(a, n - 1); }
  }

  lemma {:induction false} OrBelow(a: nat, b: nat, n: nat)
    requires b < ShiftLeft(1, n)
    ensures BitOr(ShiftLeft(a, n), b) == ShiftLeft(a, n) + b
  {
    if n == 0 {
      OrNothing(a);
    } else {
      OrBelow(a, b / 2, n - 1);
    }
  }

  lemma {:induction false} OrNothing(a: nat)
    ensures BitOr(a, 0) == a
  {
    if a > 0 { OrNothing(a / 2); }
  }

  /** Device numbers of 16 bits each come back out of the number made of them. */
  lemma DeviceHalves(major: nat, minor: nat)
    requires major < 0x10000 && minor < 0x10000
    ensures MajorOf(MakeDev(major, minor)) == major && MinorOf(MakeDev(major, minor)) == minor
  {
    hide BitOr, ShiftLeft;
    ShiftIsTimes(major, 16);
    ShiftOne();
    OrBelow(major, minor, 16);
    ModUnique(major * 0x10000 + minor, 0x10000, major, minor);
  }

  lemma ShiftOne()
    ensures ShiftLeft(1, 16) == 0x10000
  {
    assert ShiftLeft(1, 8) == 256;
    assert ShiftLeft(1, 16) == 2 * 2 * 2 * 2 * 2 * 2 * 2 * 2 * ShiftLeft(1, 8);
  }

  function InodeOf(e: Entry, kind: FileType, id: nat): Inode {
    Inode(Executable(e.mode), kind, if kind == Special then Some(MakeDev(e.major, e.minor)) else None, e.size, id)
  }

  /** What a caller reads off the inode of an entry, field by field, told by the header's own fields. */
  lemma InodeFields(e: Entry, id: nat)
    ensures KindOf(e.flag).Some? <==> e.flag in {'0', '3', '4', '5'}
    ensures KindOf(e.flag).Some? ==>
              var inode := InodeOf(e, KindOf(e.flag).value, id);
              && (inode.ftype == Regular <==> e.flag == '0') && (inode.ftype == Directory <==> e.flag == '5')
              && (inode.dev.Some? <==> e.flag in {'3', '4'})
              && (inode.dev.Some? && e.major < 0x10000 && e.minor < 0x10000 ==>
                    MajorOf(inode.dev.value) == e.major && MinorOf(inode.dev.value) == e.minor)
              && (inode.exec <==> e.mode % 2 == 1 || e.mode / 8 % 2 == 1 || e.mode / 64 % 2 == 1)
              && inode.size == e.size && inode.id == id
  {
    hide Executable, MakeDev, MajorOf, MinorOf;
    ExecutableIff(e.mode);
    if e.major < 0x10000 && e.minor < 0x10000 { DeviceHalves(e.major, e.minor); }
  }

  // ---- looking up a path ----

  /** The entry is the path itself, or the path as a directory. */
  predicate Matches(name: string, path: string) {
    name == path || name == path + "/"
  }

  /** strncmp(a, b, n) == 0 */
  predicate SameUpTo(a: string, b: string, n: nat) {
    a[..Min(|a|, n)] == b[..Min(|b|, n)]
  }

  /** The comparison of lookup_all is Matches, on every name that fits its field. */
  lemma ComparesWhole(name: string, path: string)
    requires |name| < NAME_LEN
    ensures Matches(name, path) <==>
            || SameUpTo(name, path, NAME_LEN)
            || (var n := Min(|path|, NAME_LEN + 1); SameUpTo(name, path, n) && |name| == n + 1 && name[n] == '/')
  {
  }

  /** The first entry from i on that matches, or the number of entries. */
  function FirstMatch(es: seq<Entry>, path: string, i: nat): (j: nat)
    requires i <= |es|
    ensures i <= j <= |es|
    ensures forall k | i <= k < j :: !Matches(es[k].name, path)
    ensures j < |es| ==> Matches(es[j].name, path)
    decreases |es| - i
  {
    if i == |es| || Matches(es[i].name, path) then i else FirstMatch(es, path, i + 1)
  }

  lemma FirstMatchStep(es: seq<Entry>, path: string, i: nat)
    requires i < |es|
    ensures FirstMatch(es, path, i) == if Matches(es[i].name, path) then i else FirstMatch(es, path, i + 1)
  {
  }

  lemma FirstMatchEnd(es: seq<Entry>, path: string)
    ensures FirstMatch(es, path, |es|) == |es|
  {
  }

  /** strnlen, which looks at one character more than its bound. */
  method StrnLen(s: string, max: nat) returns (n: nat)
    ensures n == Min(|s|, max + 1)
  {
    n := 0;
    while n <= max && n < |s|
      invariant 0 <= n <= max + 1 && n <= |s|
    {
      n := n + 1;
    }
  }

  /** The C string in a field of the given width. */
  method NameIn(f: string, max: nat) returns (name: string)
    requires max <= |f|
    ensures name == Until(f[..max])
  {
    var n := 0;
    while n < max && f[n] != NUL
      invariant 0 <= n <= max && NUL !in f[..n]
    {
      assert f[..n + 1] == f[..n] + [f[n]];
      n := n + 1;
    }
    assert f[..max][..n] == f[..n];
    UntilIs(f[..max], n);
    name := f[..n];
  }

  /** The inode that a header describes, or a panic over its type. */
  method ReadInode(h: string, blk: nat, ghost e: Entry) returns (r: Lookup)
    requires Describes(h, e)
    ensures r == match KindOf(e.flag) case None => Unsupported case Some(kind) => Found(InodeOf(e, kind, blk))
  {
    hide Octal, Until, Executable, MakeDev;
    var mode := TarField(h[MODE_AT..]);
    var kind := KindOf(h[FLAG_AT]);
    if kind.None? { return Unsupported; }
    var dev := None;
    if kind.value == Special {
      var major := TarField(h[MAJOR_AT..]);
      var minor := TarField(h[MINOR_AT..]);
      dev := Some(MakeDev(major, minor));
    }
    var size := TarField(h[SIZE_AT..]);
    r := Found(Inode(Executable(mode), kind.value, dev, size, blk));
  }

  /** What a path is looked up as: the first matching entry, or an error when there is none. */
  function LookedUp(es: seq<Entry>, path: string): Lookup {
    var j := FirstMatch(es, path, 0);
    if j == |es| then NoEntry
    else match KindOf(es[j].flag)
      case None => Unsupported
      case Some(kind) => Found(InodeOf(es[j], kind, Pos(es, j)))
  }

  /** lookup_all. */
  method LookupAll(disk: string, path: string, ghost es: seq<Entry>) returns (r: Lookup)
    requires Archive(disk, es) && NUL !in path
    ensures r == LookedUp(es, path)
  {
    hide Archive, Octal, Until, Matches, SameUpTo, Executable, InodeOf, Pos, FirstMatch;
    AfterHeader(es, 0);
    var blk := 0;
    ghost var i := 0;
    while true
      invariant 0 <= i <= |es| && blk == Pos(es, i) && FirstMatch(es, path, i) == FirstMatch(es, path, 0)
      decreases |es| - i
    {
      HeaderBlock(disk, es, i);
      var h := BlockAt(disk, blk);
      if h[0] == NUL {
        FirstMatchEnd(es, path);
        return NoEntry;
      }
      var name := NameIn(h, NAME_LEN);
      FirstMatchStep(es, path, i);
      ComparesWhole(name, path);
      var n := StrnLen(path, NAME_LEN);
      if SameUpTo(name, path, NAME_LEN) || (SameUpTo(name, path, n) && |name| == n + 1 && name[n] == '/') {
        r := ReadInode(h, blk, es[i]);
        return;
      }
      NextIsNext(disk, es, i);
      blk := TarNextBlk(h, blk);
      i := i + 1;
    }
  }

  // ---- listing a directory ----

  /** A name without a slash. */
  predicate IsComponent(c: string) {
    c != "" && '/' !in c
  }

  /** The directory's name is empty, for the root, or ends in a slash. */
  predicate Slashed(dir: string) {
    dir == "" || dir[|dir| - 1] == '/'
  }

  /** What the names of everything in the directory start with. */
  function DirPrefix(dir: string): string {
    if Slashed(dir) then dir else dir + "/"
  }

  function Unslash(rest: string): string {
    if rest != "" && rest[|rest| - 1] == '/' then rest[..|rest| - 1] else rest
  }

  /** Entry j lies directly in the directory: one more component, with or without a final slash. */
  predicate IsChild(es: seq<Entry>, dir: string, j: nat) {
    && j < |es| && DirPrefix(dir) <= es[j].name
    && IsComponent(Unslash(es[j].name[|DirPrefix(dir)|..]))
  }

  lemma ChildInside(es: seq<Entry>, dir: string, j: nat)
    requires IsChild(es, dir, j)
    ensures j < |es|
  {
  }

  /** The children of a directory are what a lookup of its path, a slash and a component can find. */
  lemma ChildIsLookedUp(es: seq<Entry>, dir: string, j: nat)
    requires j < |es|
    ensures IsChild(es, dir, j) <==> exists c :: IsComponent(c) && Matches(es[j].name, DirPrefix(dir) + c)
  {
    var p, name := DirPrefix(dir), es[j].name;
    if IsChild(es, dir, j) {
      var c := Unslash(name[|p|..]);
      assert name == p + name[|p|..];
      assert Matches(name, p + c);
    }
    forall c | IsComponent(c) && Matches(name, p + c) ensures IsChild(es, dir, j) {
      assert name[|p|..] == c || name[|p|..] == c + "/";
    }
  }

  /** What getdent tests: no slash after the directory's name, or only a final one. */
  predicate Single(rest: string) {
    forall k | 0 <= k < |rest| - 1 :: rest[k] != '/'
  }

  /** Under a name with its slash, getdent's test accepts the children and the directory itself. */
  lemma ChildIffSingle(es: seq<Entry>, dir: string, j: nat)
    requires j < |es| && Slashed(dir)
    ensures IsChild(es, dir, j) <==>
            && dir <= es[j].name && es[j].name != dir && es[j].name != dir + "/"
            && Single(es[j].name[|dir|..])
  {
    var name := es[j].name;
    if dir <= name {
      var rest := name[|dir|..];
      assert name == dir + rest;
      SingleIff(rest);
      hide IsComponent, Unslash, Single;
      assert rest == "/" ==> name == dir + "/";
      assert name == dir + "/" ==> rest == "/";
    }
  }

  lemma SingleIff(rest: string)
    ensures IsComponent(Unslash(rest)) <==> rest != "" && rest != "/" && Single(rest)
  {
    if IsComponent(Unslash(rest)) {
      forall k | 0 <= k < |rest| - 1 ensures rest[k] != '/' {
        assert rest[k] == Unslash(rest)[k];
      }
    }
  }

  /** Under a name without its slash, the test rejects every child. */
  lemma ChildNotSingle(es: seq<Entry>, dir: string, j: nat)
    requires IsChild(es, dir, j) && !Slashed(dir)
    ensures dir <= es[j].name && !Single(es[j].name[|dir|..])
  {
    assert es[j].name[|dir|] == (dir + "/")[|dir|];
  }

  /** The children of dir from entry i on, in archive order. */
  function Children(es: seq<Entry>, dir: string, i: nat): (js: seq<nat>)
    requires i <= |es|
    decreases |es| - i
  {
    if i == |es| then [] else (if IsChild(es, dir, i) then [i] else []) + Children(es, dir, i + 1)
  }

  /** What successive getdent calls report from entry i on: they stop at the first name outside dir. */
  function Listing(es: seq<Entry>, dir: string, i: nat): (js: seq<nat>)
    requires i <= |es|
    decreases |es| - i
  {
    if i == |es| || !(dir <= es[i].name) then []
    else (if Single(es[i].name[|dir|..]) then [i] else []) + Listing(es, dir, i + 1)
  }

  lemma {:induction false} ChildrenMember(es: seq<Entry>, dir: string, i: nat, j: nat)
    requires i <= |es|
    ensures j in Children(es, dir, i) <==> i <= j && IsChild(es, dir, j)
    decreases |es| - i
  {
    hide IsChild;
    if IsChild(es, dir, j) { ChildInside(es, dir, j); }
    if i < |es| { ChildrenMember(es, dir, i + 1, j); }
  }

  /** Every entry from i to j lies in dir. */
  ghost predicate InRun(es: seq<Entry>, dir: string, i: nat, j: nat) {
    i <= j < |es| && forall k | i <= k <= j :: dir <= es[k].name
  }

  lemma {:induction false} ListingMember(es: seq<Entry>, dir: string, i: nat, j: nat)
    requires i <= |es|
    ensures j in Listing(es, dir, i) <==> InRun(es, dir, i, j) && Single(es[j].name[|dir|..])
    decreases |es| - i
  {
    if i < |es| && dir <= es[i].name {
      ListingMember(es, dir, i + 1, j);
      assert j > i ==> (InRun(es, dir, i, j) <==> InRun(es, dir, i + 1, j));
    }
  }

  /** The run from i on holds every child of dir, and no second entry for dir itself. */
  ghost predicate RunHasAll(es: seq<Entry>, dir: string, i: nat, from: nat) {
    && (forall j: nat | from <= j && IsChild(es, dir, j) :: InRun(es, dir, i, j))
    && (forall j: nat | InRun(es, dir, i, j) :: es[j].name != dir && es[j].name != dir + "/")
  }

  lemma {:induction false} ListingIsChildren(es: seq<Entry>, dir: string, i: nat)
    requires i <= |es| && Slashed(dir) && RunHasAll(es, dir, i, i)
    ensures Listing(es, dir, i) == Children(es, dir, i)
    decreases |es| - i
  {
    hide IsChild, Single;
    if i < |es| {
      ChildIffSingle(es, dir, i);
      if dir <= es[i].name {
        RunShrinks(es, dir, i);
        ListingIsChildren(es, dir, i + 1);
        assert InRun(es, dir, i, i);
      } else {
        NoChildren(es, dir, i);
      }
    }
  }

  lemma RunShrinks(es: seq<Entry>, dir: string, i: nat)
    requires i < |es| && dir <= es[i].name && RunHasAll(es, dir, i, i)
    ensures RunHasAll(es, dir, i + 1, i + 1)
  {
    hide IsChild;
    forall j: nat | i + 1 <= j && IsChild(es, dir, j) ensures InRun(es, dir, i + 1, j) {
      assert InRun(es, dir, i, j);
    }
    forall j: nat | InRun(es, dir, i + 1, j) ensures es[j].name != dir && es[j].name != dir + "/" {
      assert InRun(es, dir, i, j);
    }
  }

  lemma NoChildren(es: seq<Entry>, dir: string, i: nat)
    requires i < |es| && !(dir <= es[i].name) && RunHasAll(es, dir, i, i)
    ensures Children(es, dir, i) == []
  {
    hide IsChild;
    if Children(es, dir, i) != [] {
      var j := Children(es, dir, i)[0];
      ChildrenMember(es, dir, i, j);
    }
  }

  lemma {:induction false} ChildrenFrom(es: seq<Entry>, dir: string, i: nat)
    requires i <= |es| && forall j: nat | j < i :: !IsChild(es, dir, j)
    ensures Children(es, dir, 0) == Children(es, dir, i)
  {
    hide IsChild;
    if i > 0 { ChildrenFrom(es, dir, i - 1); }
  }

  /** The layout a listing from entry i on needs, for a directory recorded under the name dir. */
  ghost predicate Listed(es: seq<Entry>, dir: string, i: nat) {
    if Slashed(dir) then RunHasAll(es, dir, i, 0)
    else
      && (forall j: nat :: !IsChild(es, dir, j))
      && (forall j: nat | InRun(es, dir, i, j) :: !Single(es[j].name[|dir|..]))
  }

  /**
   * A listing that starts at entry i reports exactly the children of the directory, once each and
   * in order, if and only if: its recorded name ends in a slash, the entries from i on run through
   * all children before the first name outside it, and none of them repeats the directory itself;
   * or, without the slash, there is no child at all and nothing in the run passes for one.
   */
  lemma ListingExactIff(es: seq<Entry>, dir: string, i: nat)
    requires i <= |es|
    ensures Listing(es, dir, i) == Children(es, dir, 0) <==> Listed(es, dir, i)
  {
    hide IsChild, Single, Slashed;
    if Slashed(dir) { SlashedExactIff(es, dir, i); } else { SlashlessExactIff(es, dir, i); }
  }

  lemma SlashedExactIff(es: seq<Entry>, dir: string, i: nat)
    requires i <= |es| && Slashed(dir)
    ensures Listing(es, dir, i) == Children(es, dir, 0) <==> RunHasAll(es, dir, i, 0)
  {
    hide IsChild, Single, Slashed;
    if RunHasAll(es, dir, i, 0) {
      forall j: nat | j < i ensures !IsChild(es, dir, j) {
        assert !InRun(es, dir, i, j);
      }
      ChildrenFrom(es, dir, i);
      ListingIsChildren(es, dir, i);
    }
    if Listing(es, dir, i) == Children(es, dir, 0) {
      forall j: nat ensures IsChild(es, dir, j) ==> InRun(es, dir, i, j)
                    ensures InRun(es, dir, i, j) ==> es[j].name != dir && es[j].name != dir + "/"
      {
        ChildrenMember(es, dir, 0, j);
        ListingMember(es, dir, i, j);
        if j < |es| {
          ChildIffSingle(es, dir, j);
          SelfIsSingle(es[j].name, dir);
        }
      }
    }
  }

  lemma SelfIsSingle(name: string, dir: string)
    ensures name == dir || name == dir + "/" ==> Single(name[|dir|..])
  {
  }

  lemma SlashlessExactIff(es: seq<Entry>, dir: string, i: nat)
    requires i <= |es| && !Slashed(dir)
    ensures Listing(es, dir, i) == Children(es, dir, 0) <==> Listed(es, dir, i)
  {
    hide IsChild, Single, Slashed;
    forall j: nat
      ensures j in Children(es, dir, 0) <==> IsChild(es, dir, j)
      ensures j in Listing(es, dir, i) <==> InRun(es, dir, i, j) && Single(es[j].name[|dir|..])
      ensures !(j in Children(es, dir, 0) && j in Listing(es, dir, i))
    {
      ChildrenMember(es, dir, 0, j);
      ListingMember(es, dir, i, j);
      if IsChild(es, dir, j) { ChildNotSingle(es, dir, j); }
    }
    ApartNotEqual(Listing(es, dir, i), Children(es, dir, 0));
  }

  /** Sequences without a common member are equal only if neither has any. */
  lemma ApartNotEqual(a: seq<nat>, b: seq<nat>)
    requires forall j: nat :: !(j in a && j in b)
    ensures a == b <==> (forall j: nat :: j !in a) && (forall j: nat :: j !in b)
  {
    if a != [] { assert a[0] in a; }
    if b != [] { assert b[0] in b; }
  }

  /** Without the slash, nothing that is listed is a child, and no child is listed. */
  lemma SlashlessMisses(es: seq<Entry>, dir: string, i: nat, j: nat)
    requires i <= |es| && !Slashed(dir)
    ensures !(j in Listing(es, dir, i) && IsChild(es, dir, j))
  {
    ListingMember(es, dir, i, j);
    if IsChild(es, dir, j) { ChildNotSingle(es, dir, j); }
  }

  /** In a directory recorded as a, the entry a/x is found by its path and not listed. */
  lemma SlashlessHides(e: Entry)
    ensures var es := [e.(name := "a", flag := '5'), e.(name := "a/x")];
            && FirstMatch(es, "a", 0) == 0 && FirstMatch(es, "a/x", 0) == 1
            && 1 in Children(es, "a", 0) && Listing(es, "a", 1) == []
  {
    var es := [e.(name := "a", flag := '5'), e.(name := "a/x")];
    assert es[1].name[2..] == "x";
    ChildrenMember(es, "a", 0, 1);
    ChildNotSingle(es, "a", 1);
  }

  /** And the entry ab, which is not in it, is listed. */
  lemma SlashlessAdds(e: Entry)
    ensures var es := [e.(name := "a", flag := '5'), e.(name := "ab")];
            Listing(es, "a", 1) == [1] && 1 !in Children(es, "a", 0)
  {
    var es := [e.(name := "a", flag := '5'), e.(name := "ab")];
    ChildrenMember(es, "a", 0, 1);
    assert es[1].name[1] != DirPrefix("a")[1];
    assert es[1].name[1..] == "b";
  }

  /** The root needs no order; a name that is only a slash is the one thing it must not hold. */
  lemma RootListsIff(es: seq<Entry>)
    requires forall j | 0 <= j < |es| :: es[j].name != ""
    ensures Listing(es, "", 0) == Children(es, "", 0) <==> forall j | 0 <= j < |es| :: es[j].name != "/"
  {
    hide IsChild;
    ListingExactIff(es, "", 0);
    forall j: nat | j < |es| ensures InRun(es, "", 0, j) {}
    assert "" + "/" == "/";
    forall j: nat | IsChild(es, "", j) ensures j < |es| { ChildInside(es, "", j); }
  }

  /** Out of depth-first order, children are missed. */
  lemma OutOfOrderMisses(e: Entry)
    ensures var es := [e.(name := "a/"), e.(name := "b"), e.(name := "a/x")];
            Listing(es, "a/", 1) == [] && 2 in Children(es, "a/", 0)
  {
    var es := [e.(name := "a/"), e.(name := "b"), e.(name := "a/x")];
    ChildrenMember(es, "a/", 0, 2);
    assert es[2].name[2..] == "x";
  }

  /** The name without the trailing slash, as strtok_r leaves it. */
  function TrimSlash(rest: string): string {
    if |rest| > 1 && rest[|rest| - 1] == '/' then rest[..|rest| - 1] else rest
  }

  /** strtok_r on the name in the directory entry, which cuts off a final slash in place. */
  method CutName(rest: string) returns (name: string)
    requires Single(rest) && NUL !in rest && |rest| < NAME_LEN
    ensures name == TrimSlash(rest)
  {
    hide Tokens, Skip, Span, Single, TrimSlash, Until;
    CutPoint(rest);
    var buf := new char[FILE_NAME_LEN](i => if 0 <= i < |rest| then rest[i] else NUL);
    assert rest[0..] == rest;
    var found, b, e, _ := StrtokR(buf, "/", 0, rest);
    if found {
      assert |rest[b..]| == |rest|;
    } else {
      e := |rest|;
    }
    ghost var text := buf[..];
    assert text[..|text|] == text;
    CutText(text, rest, e);
    name := NameIn(buf[..], buf.Length);
  }

  /** A buffer that holds the first e characters and then a NUL. */
  lemma CutText(text: string, rest: string, e: nat)
    requires e <= |rest| && e < |text| && text[e] == NUL && NUL !in rest
    requires forall k | 0 <= k < e :: text[k] == rest[k]
    ensures Until(text) == rest[..e]
  {
    assert text[..e] == rest[..e];
    assert forall c | c in rest[..e] :: c in rest;
    UntilIs(text, e);
  }

  lemma CutPoint(rest: string)
    requires Single(rest)
    ensures |TrimSlash(rest)| <= |rest| && TrimSlash(rest) == rest[..|TrimSlash(rest)|]
    ensures Tokens(rest, "/") == [] ==> TrimSlash(rest) == rest
    ensures Tokens(rest, "/") != [] ==> Skip(rest, "/") == rest && Span(rest, "/") == |TrimSlash(rest)|
  {
    hide Tokens, Skip, Span;
    TokensUnfold(rest, "/");
    if rest == "" || rest == "/" {
      SkipIs(rest, "/", |rest|);
    } else {
      assert rest[0] != '/';
      SkipIs(rest, "/", 0);
      SpanIs(rest, "/", |TrimSlash(rest)|);
    }
  }

  function DirentOf(es: seq<Entry>, dir: string, j: nat): Dirent
    requires j < |es| && |dir| <= |es[j].name|
  {
    Dirent(Pos(es, j), KindOf(es[j].flag), TrimSlash(es[j].name[|dir|..]))
  }

  /** ds describes the entries js, in order. */
  ghost predicate Shown(es: seq<Entry>, dir: string, js: seq<nat>, ds: seq<Dirent>) {
    && |ds| == |js|
    && forall k | 0 <= k < |js| ::
         js[k] < |es| && |dir| <= |es[js[k]].name| && ds[k] == DirentOf(es, dir, js[k])
  }

  /** strchr for a slash, and the test on what it finds. */
  method HasSingle(rest: string) returns (single: bool)
    ensures single == Single(rest)
  {
    var s := 0;
    while s < |rest| && rest[s] != '/'
      invariant 0 <= s <= |rest| && forall k | 0 <= k < s :: rest[k] != '/'
    {
      s := s + 1;
    }
    single := s == |rest| || s + 1 == |rest|;
  }

  /** Reads the header at blk: whether it ends the archive, its name and type, and where the next one is. */
  method ReadHeader(disk: string, blk: nat, ghost es: seq<Entry>, ghost i: nat)
      returns (end: bool, name: string, flag: char, next: nat)
    requires Archive(disk, es) && i <= |es| && blk == Pos(es, i)
    ensures end <==> i == |es|
    ensures i < |es| ==> name == es[i].name && flag == es[i].flag && next == Pos(es, i + 1)
    ensures NUL !in name && |name| < NAME_LEN
  {
    hide Archive, Octal, Until, Pos;
    HeaderBlock(disk, es, i);
    var h := BlockAt(disk, blk);
    end, name, flag, next := h[0] == NUL, "", h[FLAG_AT], 0;
    if !end {
      name := NameIn(h, NAME_LEN);
      NextIsNext(disk, es, i);
      next := TarNextBlk(h, blk);
    }
  }

  /** The first entry of a listing, and the rest of it. */
  lemma ListingHead(es: seq<Entry>, dir: string, i: nat)
    requires i < |es| && dir <= es[i].name
    ensures Single(es[i].name[|dir|..]) ==> Listing(es, dir, i) == [i] + Listing(es, dir, i + 1)
    ensures !Single(es[i].name[|dir|..]) ==> Listing(es, dir, i) == Listing(es, dir, i + 1)
  {
  }

  /** The loop of getdent: the first entry of the listing from entry i on, or the block it stops at. */
  method Scan(disk: string, name: string, start: nat, ghost es: seq<Entry>, ghost i: nat)
      returns (blk: nat, entry: string, flag: char, next: nat, hit: bool, ghost j: nat)
    requires Archive(disk, es) && i <= |es| && start == Pos(es, i)
    ensures j <= |es| && blk == Pos(es, j) && (hit <==> Listing(es, name, i) != [])
    ensures hit ==>
              && j < |es| && Listing(es, name, i) == [j] + Listing(es, name, j + 1)
              && entry == es[j].name && name <= entry && Single(entry[|name|..]) && flag == es[j].flag
              && next == Pos(es, j + 1) && NUL !in entry && |entry| < NAME_LEN
  {
    hide Archive, Single, Listing, Pos;
    blk, j := start, i;
    while true
      invariant j <= |es| && blk == Pos(es, j) && Listing(es, name, j) == Listing(es, name, i)
      decreases |es| - j
    {
      var end;
      end, entry, flag, next := ReadHeader(disk, blk, es, j);
      hit := !end && name <= entry;
      if !hit {
        NoListing(es, name, j);
        return;
      }
      ListingHead(es, name, j);
      hit := HasSingle(entry[|name|..]);
      if hit { return; }
      blk, j := next, j + 1;
    }
  }

  // ---- reading a file ----

  function Sum(ns: seq<nat>): nat {
    if ns == [] then 0 else ns[0] + Sum(ns[1..])
  }

  /** What reads of the given sizes return, one after the other, from offset off on. */
  function ReadRun(content: string, off: nat, ns: seq<nat>): string
    requires off <= |content|
    decreases |ns|
  {
    if ns == [] then ""
    else var next := Min(off + ns[0], |content|); content[off..next] + ReadRun(content, next, ns[1..])
  }

  /** Together they return the contents, without gap or repetition, until everything is read. */
  lemma {:induction false} ReadRunIsContent(content: string, off: nat, ns: seq<nat>)
    requires off <= |content|
    ensures ReadRun(content, off, ns) == content[off..Min(off + Sum(ns), |content|)]
    decreases |ns|
  {
    if ns != [] {
      var next := Min(off + ns[0], |content|);
      ReadRunIsContent(content, next, ns[1..]);
      assert Min(next + Sum(ns[1..]), |content|) == Min(off + Sum(ns), |content|);
    }
  }

  lemma NoSum()
    ensures Sum([]) == 0
  {
  }

  lemma {:induction false} SumSnoc(ns: seq<nat>, i: nat)
    requires i < |ns|
    ensures Sum(ns[..i + 1]) == Sum(ns[..i]) + ns[i]
  {
    if i > 0 {
      SumSnoc(ns[1..], i - 1);
      assert ns[..i + 1][1..] == ns[1..][..i] && ns[..i][1..] == ns[1..][..i - 1];
    }
  }

  lemma OneRead(content: string, off: nat, n: nat)
    requires off <= |content|
    ensures ReadRun(content, off, [n]) == content[off..Min(off + n, |content|)]
  {
  }

  lemma AfterHeader(es: seq<Entry>, i: nat)
    ensures Pos(es, 0) == 0
    ensures i < |es| ==> (Pos(es, i + 1) == Pos(es, i) + 1 <==> es[i].size == 0)
  {
  }

  lemma SizeFits(disk: string, es: seq<Entry>, i: nat)
    requires Archive(disk, es) && i < |es|
    ensures (Pos(es, i) + 1) * BLOCK + es[i].size <= |disk|
  {
    HeaderBlock(disk, es, i);
  }

  /** The bytes that follow the header of entry i. */
  ghost function ContentOf(disk: string, es: seq<Entry>, i: nat): (s: string)
    requires Archive(disk, es) && i < |es|
    ensures |s| == es[i].size
  {
    SizeFits(disk, es, i);
    var start := (Pos(es, i) + 1) * BLOCK;
    disk[start..start + es[i].size]
  }

  /** struct file, opened on an archive. */
  class TarFile {
    const disk: string
    const inode: Inode
    const size: nat
    const priv: nat
    var offset: int
    ghost const es: seq<Entry>
    /** The entry the file was opened on. */
    ghost const self: nat
    /** The entry that the next getdent looks at first. */
    ghost var at: nat

    /**
     * fs_open and topen, on an inode that lookup_all or getroot gave out. A listing starts at the
     * block after the header, which is the next header exactly when the entry records no contents.
     */
    constructor (disk: string, inode: Inode, ghost es: seq<Entry>, ghost self: nat)
      requires Archive(disk, es)
      requires inode.id != ID_ROOT ==> self < |es| && inode.id == Pos(es, self) && inode.size == es[self].size
      ensures this.disk == disk && this.inode == inode && this.es == es && this.self == self && offset == 0
      ensures inode.id == ID_ROOT ==> at == 0 && Listable()
      ensures inode.id != ID_ROOT ==> at == self + 1 && (Listable() <==> es[self].size == 0)
      ensures inode.id != ID_ROOT ==> Readable() && Content() == ContentOf(disk, es, self)
    {
      this.disk, this.inode, this.es, this.self := disk, inode, es, self;
      size := inode.size;
      priv := if inode.id == ID_ROOT then 0 else (inode.id + 1) * BLOCK;
      offset := 0;
      at := if inode.id == ID_ROOT then 0 else self + 1;
      new;
      hide Archive, Describes, Pos, BlockAt;
      AfterHeader(es, self);
      if inode.id != ID_ROOT { SizeFits(disk, es, self); }
    }

    ghost predicate Listable()
      reads this
    {
      && Archive(disk, es) && at <= |es|
      && priv + offset == Pos(es, at) * BLOCK
      && (if inode.id == ID_ROOT then priv == 0
          else self < |es| && inode.id == Pos(es, self) && priv == (inode.id + 1) * BLOCK)
    }

    ghost function Dir(): string
      requires Listable()
      reads this
    {
      if inode.id == ID_ROOT then "" else es[self].name
    }

    /**
     * getdent: the next entry of the listing, or Absent when there is none left. After Absent
     * the offset is the position of the block itself, so the directory is no longer Listable.
     */
    method Getdent() returns (r: Answer)
      requires Listable()
      modifies this`offset, this`at
      ensures inode.ftype != Directory ==> r == NotDir && Listable() && at == old(at)
      ensures inode.ftype == Directory ==>
                var js := Listing(es, old(Dir()), old(at));
                if js == [] then r == Absent
                else
                  && Listable() && Dir() == old(Dir()) && js[0] < |es| && Dir() <= es[js[0]].name
                  && r == Present(DirentOf(es, Dir(), js[0]))
                  && at == js[0] + 1 && Listing(es, Dir(), at) == js[1..]
    {
      if inode.ftype != Directory { return NotDir; }
      hide Archive, Single, Listing, Pos;
      var name := "";
      if inode.id != ID_ROOT {
        var _, dir, _, _ := ReadHeader(disk, priv / BLOCK - 1, es, self);
        name := dir;
      }
      assert name == Dir();
      var blk, entry, flag, next, hit, _ := Scan(disk, name, (priv + offset) / BLOCK, es, at);
      offset := blk * BLOCK;
      if !hit { return Absent; }
      var shown := CutName(entry[|name|..]);
      r := Present(Dirent(blk, KindOf(flag), shown));
      offset := next * BLOCK - priv;
      at := Listing(es, name, at)[0] + 1;
    }

    /** Calls of getdent until the first Absent, as a program lists a directory. */
    method ListAll() returns (ds: seq<Dirent>)
      requires Listable() && inode.ftype == Directory
      modifies this`offset, this`at
      ensures Shown(es, old(Dir()), Listing(es, old(Dir()), old(at)), ds)
    {
      hide Archive, Pos, Listing, DirentOf;
      ds := [];
      ghost var dir, all := Dir(), Listing(es, Dir(), at);
      while true
        invariant Listable() && Dir() == dir && |ds| <= |all|
        invariant Listing(es, dir, at) == all[|ds|..] && Shown(es, dir, all[..|ds|], ds)
        decreases |all| - |ds|
      {
        var r := Getdent();
        if r == Absent {
          assert all[..|ds|] == all;
          return;
        }
        ghost var k := |ds|;
        assert all[k..][1..] == all[k + 1..] && all[..k + 1] == all[..k] + [all[k]];
        ds := ds + [r.dirent];
      }
    }

    ghost predicate Readable()
      reads this
    {
      0 <= offset <= size && priv + size <= |disk|
    }

    ghost function Content(): string
      requires Readable()
      reads this
    {
      disk[priv..priv + size]
    }

    /** Reads of the given sizes, one after the other. */
    method ReadAll(ns: seq<nat>) returns (s: string)
      requires Readable()
      modifies this`offset
      ensures Readable() && s == ReadRun(Content(), old(offset), ns)
      ensures s == Content()[old(offset)..Min(old(offset) + Sum(ns), size)]
    {
      hide ReadRun, Sum;
      s := "";
      ghost var content, start := Content(), offset;
      NoSum();
      for i := 0 to |ns|
        invariant Readable() && start <= offset && s == content[start..offset]
        invariant offset == Min(start + Sum(ns[..i]), size)
      {
        SumSnoc(ns, i);
        var t := Tread(ns[i]);
        s := s + t;
      }
      assert ns[..|ns|] == ns;
      ReadRunIsContent(content, start, ns);
    }

    /** tread: the next bytes of the contents, as many as asked for or as are left. */
    method Tread(n: nat) returns (s: string)
      requires Readable()
      modifies this`offset
      ensures Readable() && offset == Min(old(offset) + n, size)
      ensures s == Content()[old(offset)..offset] && s == ReadRun(Content(), old(offset), [n])
    {
      var len := Min(size - offset, n);
      var off := priv + offset;
      s := disk[off..off + Min(|disk| - off, len)];
      assert s == Content()[offset..offset + len];
      OneRead(Content(), offset, n);
      if |s| > 0 { offset := offset + |s|; }
    }
  }

  lemma NoListing(es: seq<Entry>, dir: string, i: nat)
    requires i <= |es| && (i == |es| || !(dir <= es[i].name))
    ensures Listing(es, dir, i) == []
  {
  }
}
