/** fs_getfs, fs_mount and unmount_child of kernel/fs.c, against the mount table. */
module MountPoints {
  import opened Common
  import opened Strtok
  import opened Mounts

  // ---- the nodes that unmount_child frees ----

  /** The nodes at or below one of ks. */
  ghost function Doomed(sh: Shape, ks: seq<nat>): set<nat> {
    set m | m in sh.place && AtOrBelow(sh, ks, m)
  }

  ghost predicate AtOrBelow(sh: Shape, ks: seq<nat>, m: nat)
    requires m in sh.place
  {
    exists k :: k in ks && k in sh.place && sh.place[k] <= sh.place[m]
  }

  /** A node strictly below k is at or below one of the children of k. */
  lemma BelowIsBelowKid(ns: Nodes, sh: Shape, k: nat, m: nat)
    requires Domains(ns, sh) && Links(ns, sh) && k in ns && m in ns
    ensures AtOrBelow(sh, sh.kids[k], m) <==> sh.place[k] < sh.place[m]
  {
    hide Links;
    var p, q := sh.place[k], sh.place[m];
    if p < q {
      PrefixPlace(ns, sh, q, |p| + 1);
      assert q[..|p| + 1] == p + [q[|p|]];
      OnlyChild(ns, sh, k, q[|p|]);
    }
    forall c | c in sh.kids[k] && c in sh.place && sh.place[c] <= q ensures p < q {
      FoundChild(ns, sh, k, c);
    }
  }

  /** Two different children of one node have nothing below them in common. */
  lemma KidsApart(ns: Nodes, sh: Shape, n: nat, a: nat, b: nat, m: nat)
    requires Domains(ns, sh) && Links(ns, sh) && n in ns && a in sh.kids[n] && b in sh.kids[n] && m in ns
    requires a in ns && b in ns && sh.place[a] <= sh.place[m] && sh.place[b] <= sh.place[m]
    ensures a == b
  {
    FoundChild(ns, sh, n, a);
    FoundChild(ns, sh, n, b);
    assert sh.at[sh.place[a]] == a && sh.at[sh.place[b]] == b;
    hide Links, Inverse;
    assert sh.place[a] == sh.place[m][..|sh.place[n]| + 1] == sh.place[b];
  }

  ghost predicate IsSuffix(ns: Nodes, sh: Shape, ks: seq<nat>, q: nat, i: int) {
    q in ns && q in sh.kids && 0 <= i <= |sh.kids[q]| && ks == sh.kids[q][i..]
  }

  /** The first sibling and the rest have nothing below them in common. */
  lemma RestApart(ns: Nodes, sh: Shape, ks: seq<nat>, q: nat, i: int, m: nat)
    requires Domains(ns, sh) && Links(ns, sh) && IsSuffix(ns, sh, ks, q, i) && ks != [] && m in ns
    requires AtOrBelow(sh, ks[1..], m)
    ensures ks[0] in ns && !(sh.place[ks[0]] <= sh.place[m])
  {
    KidsAreNodes(ns, sh, q);
    assert Listed(ns, sh, q);
    hide Links, Inverse;
    var k :| k in ks[1..] && k in sh.place && sh.place[k] <= sh.place[m];
    assert k in sh.kids[q] && ks[0] in sh.kids[q];
    var j :| 0 <= j < |ks[1..]| && ks[1..][j] == k;
    assert sh.kids[q][i + j + 1] == k && sh.kids[q][i] == ks[0];
    if sh.place[ks[0]] <= sh.place[m] {
      KidsApart(ns, sh, q, k, ks[0], m);
    }
  }

  lemma InRest(ns: Nodes, sh: Shape, ks: seq<nat>, m: nat)
    requires ks != [] && ks[0] in sh.place && m in sh.place
    ensures AtOrBelow(sh, ks, m) <==> AtOrBelow(sh, ks[1..], m) || sh.place[ks[0]] <= sh.place[m]
  {
  }

  lemma HeadIsNode(ns: Nodes, sh: Shape, ks: seq<nat>, q: nat, i: int)
    requires Domains(ns, sh) && Links(ns, sh) && IsSuffix(ns, sh, ks, q, i) && ks != []
    ensures ks[0] in ns
  {
    KidsAreNodes(ns, sh, q);
    assert ks[0] in sh.kids[q];
  }

  /** The three parts that one activation of unmount_child frees are disjoint and make up the whole. */
  lemma DoomedSplit(ns: Nodes, sh: Shape, ks: seq<nat>, q: nat, i: int)
    requires Domains(ns, sh) && Links(ns, sh) && IsSuffix(ns, sh, ks, q, i) && ks != []
    ensures ks[0] in ns
    ensures Doomed(sh, ks) == {ks[0]} + Doomed(sh, sh.kids[ks[0]]) + Doomed(sh, ks[1..])
    ensures ks[0] !in Doomed(sh, sh.kids[ks[0]]) && ks[0] !in Doomed(sh, ks[1..])
    ensures Doomed(sh, sh.kids[ks[0]]) !! Doomed(sh, ks[1..])
  {
    hide AtOrBelow, Links;
    var k := ks[0];
    HeadIsNode(ns, sh, ks, q, i);
    forall m | m in ns
      ensures m in Doomed(sh, ks) <==> m == k || m in Doomed(sh, sh.kids[k]) || m in Doomed(sh, ks[1..])
      ensures !(m in Doomed(sh, sh.kids[k]) && m in Doomed(sh, ks[1..]))
      ensures m == k ==> m !in Doomed(sh, sh.kids[k]) && m !in Doomed(sh, ks[1..])
    {
      InRest(ns, sh, ks, m);
      if AtOrBelow(sh, ks[1..], m) { RestApart(ns, sh, ks, q, i, m); }
      BelowIsBelowKid(ns, sh, k, m);
      assert sh.place[k] == sh.place[m] ==> k == m;
    }
  }

  /** The whole child list of n: everything strictly below n. */
  lemma DoomedIsBelow(ns: Nodes, sh: Shape, n: nat)
    requires Domains(ns, sh) && Links(ns, sh) && n in ns
    ensures Doomed(sh, sh.kids[n]) == set m | m in ns && m in sh.place && sh.place[n] < sh.place[m]
  {
    hide AtOrBelow, Links, Inverse;
    forall m | m in ns ensures m in Doomed(sh, sh.kids[n]) <==> sh.place[n] < sh.place[m] {
      BelowIsBelowKid(ns, sh, n, m);
    }
  }

  // ---- when mounting leaves a dangling link ----

  /** No mounted path lies strictly below p. */
  ghost predicate NothingBelow(table: map<Path, Fs>, p: Path) {
    forall q | q in table :: !(p < q)
  }

  /** The node at p has children exactly when something is mounted strictly below p. */
  lemma ChildlessIff(ns: Nodes, sh: Shape, table: map<Path, Fs>, n: nat)
    requires n in ns && n in sh.place && Inv(ns, sh, table, table.Keys + {sh.place[n]})
    ensures n in sh.kids
    ensures sh.kids[n] == [] <==> NothingBelow(table, sh.place[n])
  {
    hide Links, Inverse;
    var p := sh.place[n];
    if sh.kids[n] != [] {
      var k := sh.kids[n][0];
      FoundChild(ns, sh, n, k);
      KidIsNotRoot(ns, sh, n, k);
      assert Below(sh.place[k], table.Keys + {p});
      var q :| q in table.Keys + {p} && sh.place[k] <= q;
      assert q in table && p < q;
    }
    forall q | q in table && p < q ensures sh.kids[n] != [] {
      PrefixPlace(ns, sh, q, |p| + 1);
      assert q[..|p| + 1] == p + [q[|p|]];
      OnlyChild(ns, sh, n, q[|p|]);
    }
  }

  lemma KidIsNotRoot(ns: Nodes, sh: Shape, n: nat, k: nat)
    requires Domains(ns, sh) && Links(ns, sh) && n in ns && k in sh.kids[n]
    ensures k != 0
  {
    assert ChildOf(ns, sh, n, k);
  }

  ghost predicate DanglesAt(ns: Nodes, n: nat) {
    n in ns && ns[n].child.Some? && ns[n].child.value !in ns
  }

  /** Some child link leads to a node that has been freed. */
  ghost predicate Dangling(ns: Nodes) {
    exists n :: DanglesAt(ns, n)
  }

  /** No tree and no table explain links that dangle. */
  lemma TreeHasNoDangling(ns: Nodes, sh: Shape)
    requires Domains(ns, sh) && Links(ns, sh)
    ensures !Dangling(ns)
  {
    forall n | n in ns && ns[n].child.Some? ensures ns[n].child.value in ns {
      assert Listed(ns, sh, n);
      assert Chained(ns, sh.kids[n], 0);
    }
  }

  // ---- the longest mounted prefix ----

  /** The length of the longest mounted prefix of cs among those up to `upto`, or -1. */
  ghost function Longest(table: map<Path, Fs>, cs: Path, upto: nat): (k: int)
    requires upto <= |cs|
    ensures -1 <= k <= upto
    ensures k >= 0 ==> cs[..k] in table
    ensures forall j | k < j <= upto :: cs[..j] !in table
  {
    if cs[..upto] in table then upto else if upto == 0 then -1 else Longest(table, cs, upto - 1)
  }

  lemma LongestStep(ns: Nodes, sh: Shape, table: map<Path, Fs>, cs: Path, k: nat, n: nat)
    requires Domains(ns, sh) && Marked(ns, sh, table) && k <= |cs| && n in ns && sh.place[n] == cs[..k]
    ensures ns[n].mount.Some? ==> Longest(table, cs, k) == k && ns[n].mount == Some(table[cs[..k]])
    ensures ns[n].mount.None? ==> Longest(table, cs, k) == if k == 0 then -1 else Longest(table, cs, k - 1)
  {
  }

  /** Past a missing place there is no longer mounted prefix. */
  lemma {:induction false} LongestStops(ns: Nodes, sh: Shape, table: map<Path, Fs>, cs: Path, k: nat, upto: nat)
    requires Domains(ns, sh) && Links(ns, sh) && Marked(ns, sh, table)
    requires k < upto <= |cs| && cs[..k + 1] !in sh.at
    ensures Longest(table, cs, upto) == Longest(table, cs, k)
  {
    hide Domains, Links;
    if cs[..upto] in table { MountedPrefix(ns, sh, table, cs, k + 1, upto); }
    if upto > k + 1 { LongestStops(ns, sh, table, cs, k, upto - 1); }
  }

  /** Every prefix of a mounted path is a place in the tree. */
  lemma MountedPrefix(ns: Nodes, sh: Shape, table: map<Path, Fs>, cs: Path, k: nat, upto: nat)
    requires Domains(ns, sh) && Links(ns, sh) && Marked(ns, sh, table)
    requires k <= upto <= |cs| && cs[..upto] in table
    ensures cs[..k] in sh.at
  {
    hide Links, Inverse;
    PrefixPlace(ns, sh, cs[..upto], k);
    assert cs[..upto][..k] == cs[..k];
  }

  /** One token further on in the path. */
  lemma NextComponent(p: string, from: nat, save: nat, tok: string, k: nat)
    requires from <= |p| && save <= |p| && k <= |Tokens(p, "/")|
    requires Tokens(p[from..], "/") == Tokens(p, "/")[k..]
    requires Tokens(p[from..], "/") == [tok] + Tokens(p[save..], "/")
    ensures k < |Components(p)| && Components(p)[k] == Trunc(tok)
    ensures Tokens(p[save..], "/") == Tokens(p, "/")[k + 1..]
    ensures Components(p)[..k + 1] == Components(p)[..k] + [Trunc(tok)]
  {
    hide Tokens, Trunc;
    var ts := Tokens(p, "/");
    assert ts[k..][0] == tok && ts[k..][1..] == ts[k + 1..];
    assert ([tok] + Tokens(p[save..], "/"))[1..] == Tokens(p[save..], "/");
  }

  lemma NoneDoomed(sh: Shape)
    ensures Doomed(sh, []) == {}
  {
  }

  /** The links that unmount_child follows from the first of ks. */
  lemma NodeLinks(ns: Nodes, sh: Shape, ks: seq<nat>, q: nat, i: int)
    requires Domains(ns, sh) && Links(ns, sh) && IsSuffix(ns, sh, ks, q, i) && ks != []
    ensures ks[0] in ns && ks[0] in sh.kids && ns[ks[0]].child == Head(sh.kids[ks[0]])
    ensures ns[ks[0]].sibling == Head(ks[1..]) && IsSuffix(ns, sh, ks[1..], q, i + 1)
    ensures IsSuffix(ns, sh, sh.kids[ks[0]], ks[0], 0)
  {
    HeadIsNode(ns, sh, ks, q, i);
    assert Listed(ns, sh, q) && Listed(ns, sh, ks[0]);
    assert Chained(ns, sh.kids[q], i);
    assert sh.kids[q][i + 1..] == ks[1..];
  }

  lemma ChildLink(ns: Nodes, sh: Shape, n: nat)
    requires Domains(ns, sh) && Links(ns, sh) && n in ns
    ensures ns[n].child == Head(sh.kids[n]) && IsSuffix(ns, sh, sh.kids[n], n, 0)
  {
  }

  lemma NextSibling(ns: Nodes, sh: Shape, n: nat, i: nat)
    requires Domains(ns, sh) && Links(ns, sh) && n in ns && i < |sh.kids[n]|
    ensures sh.kids[n][i] in ns && ns[sh.kids[n][i]].sibling == Head(sh.kids[n][i + 1..])
  {
    assert Listed(ns, sh, n);
    assert Chained(ns, sh.kids[n], i);
  }

  /** The search has come to child i of n. */
  ghost predicate Cursor(ns: Nodes, sh: Shape, n: nat, j: Option<nat>, i: nat) {
    n in sh.kids && i <= |sh.kids[n]| && j == Head(sh.kids[n][i..])
  }

  lemma CursorStart(ns: Nodes, sh: Shape, n: nat)
    requires Domains(ns, sh) && Links(ns, sh) && n in ns
    ensures Cursor(ns, sh, n, ns[n].child, 0)
  {
    ChildLink(ns, sh, n);
    assert sh.kids[n][0..] == sh.kids[n];
  }

  lemma CursorStep(ns: Nodes, sh: Shape, n: nat, j: Option<nat>, i: nat)
    requires Domains(ns, sh) && Links(ns, sh) && n in ns && Cursor(ns, sh, n, j, i)
    ensures j.Some? ==>
              && i < |sh.kids[n]| && j.value == sh.kids[n][i] && j.value in sh.kids[n] && j.value in ns
              && Cursor(ns, sh, n, ns[j.value].sibling, i + 1)
    ensures j.None? ==> i == |sh.kids[n]|
  {
    if j.Some? { NextSibling(ns, sh, n, i); }
  }

  /** None of the first i children of n is called c. */
  ghost predicate NoneNamed(ns: Nodes, sh: Shape, n: nat, i: nat, c: string) {
    n in sh.kids && forall x: nat | x < i && x < |sh.kids[n]| :: sh.kids[n][x] in ns ==> ns[sh.kids[n][x]].name != c
  }

  lemma NamedStep(ns: Nodes, sh: Shape, n: nat, i: nat, c: string)
    requires NoneNamed(ns, sh, n, i, c) && i < |sh.kids[n]|
    requires sh.kids[n][i] in ns && ns[sh.kids[n][i]].name != c
    ensures NoneNamed(ns, sh, n, i + 1, c)
  {
  }

  lemma NoneNamedAll(ns: Nodes, sh: Shape, n: nat, c: string)
    requires Domains(ns, sh) && Links(ns, sh) && n in ns && NoneNamed(ns, sh, n, |sh.kids[n]|, c)
    ensures sh.place[n] + [c] !in sh.at
  {
    hide Links, Inverse;
    MissingChild(ns, sh, n, c);
  }

  lemma DoomedAreNodes(ns: Nodes, sh: Shape, ks: seq<nat>)
    requires Domains(ns, sh)
    ensures forall m | m in Doomed(sh, ks) :: m in ns
  {
  }

  /** A node is not below itself, but its first child is. */
  lemma NotBelowSelf(ns: Nodes, sh: Shape, n: nat)
    requires Domains(ns, sh) && Links(ns, sh) && n in ns
    ensures n !in Doomed(sh, sh.kids[n])
    ensures sh.kids[n] != [] ==> sh.kids[n][0] in Doomed(sh, sh.kids[n])
  {
    DoomedIsBelow(ns, sh, n);
    if sh.kids[n] != [] { FoundChild(ns, sh, n, sh.kids[n][0]); }
  }

  lemma MoreLive(ns: Nodes, sh: Shape, table: map<Path, Fs>, live: set<Path>, live': set<Path>)
    requires Inv(ns, sh, table, live) && live <= live'
    ensures Inv(ns, sh, table, live')
  {
  }

  /** There is always an address that is not in use. */
  lemma FreshNat(used: set<nat>)
    ensures exists a: nat :: a !in used
  {
    var bound := UpperBound(used);
    assert bound !in used;
  }

  lemma {:induction false} UpperBound(used: set<nat>) returns (bound: nat)
    ensures forall a | a in used :: a < bound
  {
    if used == {} {
      bound := 0;
    } else {
      var a :| a in used;
      bound := UpperBound(used - {a});
      assert forall x | x in used :: x == a || x in used - {a};
      if bound <= a { bound := a + 1; }
    }
  }

  lemma InvParts(ns: Nodes, sh: Shape, table: map<Path, Fs>, live: set<Path>)
    requires Inv(ns, sh, table, live)
    ensures Domains(ns, sh) && Links(ns, sh)
  {
  }

  /** What is left when the nodes below n are freed and n is marked. */
  ghost function Mounted(ns: Nodes, sh: Shape, n: nat, fs: Fs): Nodes
    requires n in ns && n in sh.kids && n !in Doomed(sh, sh.kids[n])
  {
    MarkNodes(ns - Doomed(sh, sh.kids[n]), n, fs)
  }

  /** The tree stays whole exactly when nothing was mounted below the target. */
  lemma MountEffect(ns: Nodes, sh: Shape, table: map<Path, Fs>, n: nat, fs: Fs)
    requires n in ns && n in sh.place && Inv(ns, sh, table, table.Keys + {sh.place[n]})
    ensures n in sh.kids && n !in Doomed(sh, sh.kids[n])
    ensures Dangling(Mounted(ns, sh, n, fs)) <==> !NothingBelow(table, sh.place[n])
    ensures var table' := table[sh.place[n] := fs];
            NothingBelow(table, sh.place[n]) ==> Inv(Mounted(ns, sh, n, fs), sh, table', table'.Keys)
  {
    hide Inv, Links, Domains, Doomed, Mounted, NothingBelow, Dangling;
    InvParts(ns, sh, table, table.Keys + {sh.place[n]});
    ChildlessIff(ns, sh, table, n);
    NotBelowSelf(ns, sh, n);
    if sh.kids[n] == [] {
      MountClean(ns, sh, table, n, fs);
    } else {
      MountDangles(ns, sh, n, fs);
    }
  }

  lemma MountClean(ns: Nodes, sh: Shape, table: map<Path, Fs>, n: nat, fs: Fs)
    requires n in ns && n in sh.place && Inv(ns, sh, table, table.Keys + {sh.place[n]})
    requires n in sh.kids && sh.kids[n] == [] && n !in Doomed(sh, sh.kids[n])
    ensures !Dangling(Mounted(ns, sh, n, fs))
    ensures var table' := table[sh.place[n] := fs]; Inv(Mounted(ns, sh, n, fs), sh, table', table'.Keys)
  {
    hide Inv, Links, Domains, Doomed, Dangling, MarkNodes;
    NoneDoomed(sh);
    assert ns - {} == ns;
    MarkInv(ns, sh, table, n, fs);
    ghost var table' := table[sh.place[n] := fs];
    InvParts(Mounted(ns, sh, n, fs), sh, table', table'.Keys);
    TreeHasNoDangling(Mounted(ns, sh, n, fs), sh);
  }

  lemma MountDangles(ns: Nodes, sh: Shape, n: nat, fs: Fs)
    requires Domains(ns, sh) && Links(ns, sh) && n in ns && sh.kids[n] != [] && n !in Doomed(sh, sh.kids[n])
    ensures Dangling(Mounted(ns, sh, n, fs))
  {
    ChildLink(ns, sh, n);
    NotBelowSelf(ns, sh, n);
    hide Links, Domains, Doomed;
    assert DanglesAt(Mounted(ns, sh, n, fs), n);
  }

  // ---- runs of mounts ----

  /** A call of fs_mount, its target split into components. */
  datatype MountCall = MountCall(at: Path, fs: Fs)

  datatype Request = Request(targ: string, fs: Fs)

  /** The requests that fs_mount can take: paths that fit its buffer. */
  ghost predicate Fit(rs: seq<Request>) {
    forall i | 0 <= i < |rs| :: NUL !in rs[i].targ && |rs[i].targ| < PATH_MAX
  }

  ghost function Calls(rs: seq<Request>): (ops: seq<MountCall>)
    ensures |ops| == |rs|
    ensures forall i | 0 <= i < |rs| :: ops[i] == MountCall(Components(rs[i].targ), rs[i].fs)
  {
    seq(|rs|, i requires 0 <= i < |rs| => MountCall(Components(rs[i].targ), rs[i].fs))
  }

  /** The table that a run of mounts builds up. */
  ghost function TableAfter(ops: seq<MountCall>): map<Path, Fs> {
    if ops == [] then map[]
    else var n := |ops| - 1; TableAfter(ops[..n])[ops[n].at := ops[n].fs]
  }

  /** The last call of the run that names p, or -1. */
  ghost function LastCall(ops: seq<MountCall>, p: Path): (i: int)
    ensures -1 <= i < |ops|
    ensures i >= 0 ==> ops[i].at == p
    ensures forall j | i < j < |ops| :: ops[j].at != p
  {
    if ops == [] then -1
    else var n := |ops| - 1; if ops[n].at == p then n else LastCall(ops[..n], p)
  }

  /** The table holds at p what was mounted there last, and nothing where no call named p. */
  lemma {:induction false} LastMountWins(ops: seq<MountCall>, p: Path)
    ensures p in TableAfter(ops) <==> LastCall(ops, p) >= 0
    ensures p in TableAfter(ops) ==> TableAfter(ops)[p] == ops[LastCall(ops, p)].fs
  {
    if ops != [] { LastMountWins(ops[..|ops| - 1], p); }
  }

  /** Every call of the run finds nothing mounted below its target. */
  ghost predicate NeverAbove(ops: seq<MountCall>) {
    forall i | 0 <= i < |ops| :: NothingBelow(TableAfter(ops[..i]), ops[i].at)
  }

  lemma {:induction false} NamedIsMounted(ops: seq<MountCall>, i: nat)
    requires i < |ops|
    ensures ops[i].at in TableAfter(ops)
  {
    var n := |ops| - 1;
    if i < n { NamedIsMounted(ops[..n], i); }
  }

  /** In terms of the targets alone: no call's target is a proper prefix of an earlier one's. */
  lemma NeverAboveIff(ops: seq<MountCall>)
    ensures NeverAbove(ops) <==>
            forall i, j | 0 <= i < j < |ops| :: !(ops[j].at < ops[i].at)
  {
    if NeverAbove(ops) {
      forall i, j | 0 <= i < j < |ops| ensures !(ops[j].at < ops[i].at) {
        NamedIsMounted(ops[..j], i);
      }
    }
    if forall i, j | 0 <= i < j < |ops| :: !(ops[j].at < ops[i].at) {
      forall j, q | 0 <= j < |ops| && q in TableAfter(ops[..j]) ensures !(ops[j].at < q) {
        LastMountWins(ops[..j], q);
        assert ops[LastCall(ops[..j], q)].at == q;
      }
    }
  }

  /** The components of the paths of the run below. */
  lemma NestedPaths()
    ensures Components("a/b") == ["a", "b"] && Components("a") == ["a"]
  {
    hide Tokens, Skip, Span;
    OneToken("a");
    TwoTokens("a", "b");
    assert "a" + "/" + "b" == "a/b";
  }

  lemma TwoTokens(c: string, d: string)
    requires c != "" && '/' !in c && d != "" && '/' !in d
    ensures Tokens(c + "/" + d, "/") == [c, d]
  {
    hide Tokens, Skip, Span;
    var s := c + "/" + d;
    assert s[0..] == s && s[0..|c|] == c && s[|c| + 1..] == d;
    SkipIs(s, "/", 0);
    SpanIs(s, "/", |c|);
    SplitToken(s, "/", 0, 0, |c|);
    SkipOne(s, "/", 0, |c|);
    OneToken(d);
  }

  /** A path of one component. */
  lemma OneToken(c: string)
    requires c != "" && '/' !in c
    ensures Tokens(c, "/") == [c]
  {
    hide Tokens, Skip, Span;
    assert c[0..] == c && c[0..|c|] == c && c[|c|..] == "";
    SkipIs(c, "/", 0);
    SpanIs(c, "/", |c|);
    SplitToken(c, "/", 0, 0, |c|);
    NoTokens("/");
  }

  /**
   * What fs_getfs selects after a run: the file system of the last call that named the selected
   * prefix, and no call named a longer prefix of the path (none at all when it fails).
   */
  lemma SelectedIsLast(ops: seq<MountCall>, cs: Path, i: nat)
    ensures var k := Longest(TableAfter(ops), cs, |cs|);
            && (i < |ops| && ops[i].at <= cs ==> |ops[i].at| <= k)
            && (k >= 0 ==> var last := LastCall(ops, cs[..k]);
                           last >= 0 && TableAfter(ops)[cs[..k]] == ops[last].fs)
  {
    var k := Longest(TableAfter(ops), cs, |cs|);
    if i < |ops| && ops[i].at <= cs {
      NamedIsMounted(ops, i);
      assert cs[..|ops[i].at|] == ops[i].at;
    }
    if k >= 0 { LastMountWins(ops, cs[..k]); }
  }

  class MountTree {
    var nodes: Nodes
    const path: array<char>
    ghost var shape: Shape
    ghost var table: map<Path, Fs>

    ghost predicate Valid()
      reads this
    {
      path.Length == PATH_MAX && Inv(nodes, shape, table, table.Keys)
    }

    /** mount_root before the first mount. */
    constructor ()
      ensures Valid() && table == map[] && fresh(path)
    {
      nodes := map[0 := Node("", None, None, None)];
      shape := Shape(map[0 := []], map[0 := []], map[[] := 0], map[]);
      table := map[];
      path := new char[PATH_MAX](_ => NUL);
    }

    /** strncpy of an argument into the shared path buffer. */
    method LoadPath(p: string)
      requires path.Length == PATH_MAX && NUL !in p && |p| < PATH_MAX
      modifies path
      ensures HoldsFrom(path, p, 0)
    {
      forall i | 0 <= i < path.Length {
        path[i] := if i < |p| then p[i] else NUL;
      }
    }

    /** strtok_r on the shared buffer. */
    method NextToken(p: string, save: nat) returns (tok: Option<string>, next: nat)
      requires HoldsFrom(path, p, save)
      modifies path
      ensures HoldsFrom(path, p, next) && save <= next <= |p|
      ensures tok.None? ==> Tokens(p[save..], "/") == []
      ensures tok.Some? ==> Tokens(p[save..], "/") == [tok.value] + Tokens(p[next..], "/")
    {
      hide Tokens, Skip, Span;
      var found, b, e, rest := StrtokR(path, "/", save, p);
      next := rest;
      tok := if found then Some(path[b..e]) else None;
    }

    /** The search of fs_getfs, which stops at the first match. */
    method FindChild(n: nat, tok: string) returns (r: Option<nat>)
      requires Domains(nodes, shape) && Links(nodes, shape) && n in nodes
      ensures r.Some? ==> r.value in nodes && shape.place[r.value] == shape.place[n] + [Trunc(tok)]
      ensures r.None? ==> shape.place[n] + [Trunc(tok)] !in shape.at
    {
      assert n in shape.place && n in shape.kids && NoneNamed(nodes, shape, n, 0, Trunc(tok));
      hide Links, Domains, Cursor, NoneNamed, Trunc;
      CursorStart(nodes, shape, n);
      ghost var i := 0;
      var j := nodes[n].child;
      CursorStep(nodes, shape, n, j, i);
      while j.Some?
        invariant 0 <= i <= |shape.kids[n]| && Cursor(nodes, shape, n, j, i)
        invariant NoneNamed(nodes, shape, n, i, Trunc(tok)) && (j.None? ==> i == |shape.kids[n]|)
        decreases |shape.kids[n]| - i
      {
        CursorStep(nodes, shape, n, j, i);
        if nodes[j.value].name == Trunc(tok) {
          FoundChild(nodes, shape, n, j.value);
          return j;
        }
        NamedStep(nodes, shape, n, i, Trunc(tok));
        j, i := nodes[j.value].sibling, i + 1;
        CursorStep(nodes, shape, n, j, i);
      }
      NoneNamedAll(nodes, shape, n, Trunc(tok));
      r := None;
    }

    /** The search of fs_mount, which looks at the whole list. */
    method FindLastChild(n: nat, tok: string) returns (r: Option<nat>)
      requires Domains(nodes, shape) && Links(nodes, shape) && n in nodes
      ensures r.Some? ==> r.value in nodes && shape.place[r.value] == shape.place[n] + [Trunc(tok)]
      ensures r.None? ==> shape.place[n] + [Trunc(tok)] !in shape.at
    {
      assert n in shape.place && n in shape.kids && NoneNamed(nodes, shape, n, 0, Trunc(tok));
      hide Links, Domains, Cursor, NoneNamed, Trunc;
      CursorStart(nodes, shape, n);
      ghost var i := 0;
      var j := nodes[n].child;
      r := None;
      CursorStep(nodes, shape, n, j, i);
      while j.Some?
        invariant 0 <= i <= |shape.kids[n]| && Cursor(nodes, shape, n, j, i) && (j.None? ==> i == |shape.kids[n]|)
        invariant r.None? ==> NoneNamed(nodes, shape, n, i, Trunc(tok))
        invariant r.Some? ==> r.value in shape.kids[n] && r.value in nodes && nodes[r.value].name == Trunc(tok)
        decreases |shape.kids[n]| - i
      {
        CursorStep(nodes, shape, n, j, i);
        if nodes[j.value].name == Trunc(tok) {
          r := j;
        } else if r.None? {
          NamedStep(nodes, shape, n, i, Trunc(tok));
        }
        j, i := nodes[j.value].sibling, i + 1;
        CursorStep(nodes, shape, n, j, i);
      }
      if r.None? {
        NoneNamedAll(nodes, shape, n, Trunc(tok));
      } else {
        FoundChild(nodes, shape, n, r.value);
      }
    }

    /** fs_getfs: the file system at the longest mounted prefix, and where the rest of the path starts. */
    method GetFs(p: string) returns (fs: Option<Fs>, reloff: int)
      requires Valid() && NUL !in p && |p| < PATH_MAX
      modifies path
      ensures var cs := Components(p);
              var k := Longest(table, cs, |cs|);
              && (fs.None? <==> k < 0)
              && (k >= 0 ==>
                    && fs == Some(table[cs[..k]])
                    && 0 <= reloff <= |p| && Tokens(p[reloff..], "/") == Tokens(p, "/")[k..])
    {
      hide Tokens, Links, Inverse, Trunc, Below, Grown, Longest, HoldsFrom, MountAt, Components;
      LoadPath(p);
      ghost var cs := Components(p);
      ghost var k := 0;
      var node := 0;
      fs, reloff := nodes[0].mount, -1;
      LongestStep(nodes, shape, table, cs, 0, 0);
      if fs.Some? { reloff := 0; }
      var save := 0;
      assert p[0..] == p && cs[..0] == [];
      var tok, next := NextToken(p, save);
      while tok.Some?
        invariant 0 <= k <= |cs| && node in nodes && shape.place[node] == cs[..k]
        invariant 0 <= next <= |p| && HoldsFrom(path, p, next) && 0 <= save <= |p|
        invariant Tokens(p[save..], "/") == Tokens(p, "/")[k..]
        invariant tok.Some? ==> Tokens(p[save..], "/") == [tok.value] + Tokens(p[next..], "/")
        invariant tok.None? ==> Tokens(p[save..], "/") == []
        invariant Best(p, cs, k, fs, reloff)
        decreases |cs| - k
      {
        NextComponent(p, save, next, tok.value, k);
        var child := FindChild(node, tok.value);
        if child.None? {
          LongestStops(nodes, shape, table, cs, k, |cs|);
          return;
        }
        node := child.value;
        if nodes[node].mount.Some? {
          fs, reloff := nodes[node].mount, next;
        }
        LongestStep(nodes, shape, table, cs, k + 1, node);
        k, save := k + 1, next;
        tok, next := NextToken(p, save);
      }
    }

    /** What fs_getfs knows after k components. */
    ghost predicate Best(p: string, cs: Path, k: nat, fs: Option<Fs>, reloff: int)
      requires k <= |cs|
      reads this
    {
      var best := Longest(table, cs, k);
      && (fs.None? <==> best < 0)
      && (best >= 0 ==>
            && fs == Some(table[cs[..best]])
            && 0 <= reloff <= |p| && best <= |Tokens(p, "/")| && Tokens(p[reloff..], "/") == Tokens(p, "/")[best..])
    }

    /** unmount_child: frees exactly the nodes at or below the given siblings, each of them once. */
    method UnmountChild(node: Option<nat>, ghost ns: Nodes, ghost ks: seq<nat>, ghost q: nat, ghost i: int)
      requires Domains(ns, shape) && Links(ns, shape) && IsSuffix(ns, shape, ks, q, i) && node == Head(ks)
      requires forall m | m in Doomed(shape, ks) :: m in ns && m in nodes && nodes[m] == ns[m]
      modifies this`nodes
      ensures nodes == old(nodes) - Doomed(shape, ks)
      decreases Doomed(shape, ks)
    {
      hide AtOrBelow, Doomed, Domains;
      if node.None? {
        NoneDoomed(shape);
        return;
      }
      var n := node.value;
      ghost var rest := ks[1..];
      DoomedSplit(ns, shape, ks, q, i);
      NodeLinks(ns, shape, ks, q, i);
      hide Links;
      UnmountChild(nodes[n].child, ns, shape.kids[n], n, 0);
      UnmountChild(nodes[n].sibling, ns, rest, q, i + 1);
      nodes := nodes - {n};
    }

    /** The walk of fs_mount, inserting what is missing. */
    method Descend(targ: string) returns (node: nat)
      requires Valid() && NUL !in targ && |targ| < PATH_MAX
      modifies path, this`nodes, this`shape
      ensures Inv(nodes, shape, table, table.Keys + {Components(targ)})
      ensures node in nodes && node in shape.place && shape.place[node] == Components(targ)
    {
      hide Tokens, Links, Inverse, Trunc, Marked, Below, Grown, HoldsFrom, Components;
      hide InsertNodes, InsertShape;
      ghost var cs := Components(targ);
      ghost var live := table.Keys + {cs};
      MoreLive(nodes, shape, table, table.Keys, live);
      LoadPath(targ);
      ghost var k := 0;
      node := 0;
      var save := 0;
      assert targ[0..] == targ && cs[..0] == [];
      var tok, next := NextToken(targ, save);
      while tok.Some?
        invariant 0 <= k <= |cs| && Inv(nodes, shape, table, live)
        invariant node in nodes && shape.place[node] == cs[..k]
        invariant 0 <= next <= |targ| && HoldsFrom(path, targ, next) && 0 <= save <= |targ|
        invariant Tokens(targ[save..], "/") == Tokens(targ, "/")[k..]
        invariant tok.Some? ==> Tokens(targ[save..], "/") == [tok.value] + Tokens(targ[next..], "/")
        invariant tok.None? ==> Tokens(targ[save..], "/") == []
        decreases |cs| - k
      {
        NextComponent(targ, save, next, tok.value, k);
        node := Enter(node, tok.value, live, cs, k);
        k, save := k + 1, next;
        tok, next := NextToken(targ, save);
      }
      assert cs[..k] == cs;
    }

    /** One component of the walk: the child of that name, made if there is none. */
    method Enter(node: nat, tok: string, ghost live: set<Path>, ghost cs: Path, ghost k: nat) returns (child: nat)
      requires Inv(nodes, shape, table, live) && node in nodes
      requires k < |cs| && cs in live && shape.place[node] == cs[..k] && cs[..k + 1] == cs[..k] + [Trunc(tok)]
      modifies this`nodes, this`shape
      ensures Inv(nodes, shape, table, live)
      ensures child in nodes && child in shape.place && shape.place[child] == cs[..k + 1]
    {
      hide Links, Inverse, Trunc, Marked, Grown;
      var found := FindLastChild(node, tok);
      if found.Some? { return found.value; }
      FreshNat(nodes.Keys);
      child :| child !in nodes;
      assert cs[..k + 1] <= cs;
      InsertInv(nodes, shape, table, live, node, child, Trunc(tok));
      nodes, shape := InsertNodes(nodes, node, child, Trunc(tok)), InsertShape(shape, node, child, Trunc(tok));
    }

    /**
     * fs_mount: fs is mounted at targ and nowhere else; but the children of the target are freed
     * with the link to them kept, so a link dangles exactly when something was mounted below targ.
     */
    method Mount(targ: string, fs: Fs)
      requires Valid() && NUL !in targ && |targ| < PATH_MAX
      modifies path, this`nodes, this`shape, this`table
      ensures Dangling(nodes) <==> !NothingBelow(old(table), Components(targ))
      ensures table == old(table)[Components(targ) := fs]
      ensures !Dangling(nodes) ==> Valid()
    {
      hide Inv, Links, Domains, Doomed, Components, MarkNodes, NothingBelow, Dangling, Tokens;
      var node := Descend(targ);
      MountEffect(nodes, shape, table, node, fs);
      InvParts(nodes, shape, table, table.Keys + {Components(targ)});
      ChildLink(nodes, shape, node);
      DoomedAreNodes(nodes, shape, shape.kids[node]);
      UnmountChild(nodes[node].child, nodes, shape.kids[node], node, 0);
      nodes := MarkNodes(nodes, node, fs);
      table := table[shape.place[node] := fs];
    }

    /** A run of mounts on a fresh tree, none of them above an earlier one. */
    method MountAll(rs: seq<Request>)
      requires Valid() && table == map[] && Fit(rs) && NeverAbove(Calls(rs))
      modifies path, this`nodes, this`shape, this`table
      ensures Valid() && table == TableAfter(Calls(rs))
    {
      hide Components, Inv, Calls, NothingBelow, Dangling, Tokens;
      ghost var ops := Calls(rs);
      for i := 0 to |rs|
        invariant Valid() && table == TableAfter(ops[..i])
      {
        assert ops[..i + 1][..i] == ops[..i];
        Mount(rs[i].targ, rs[i].fs);
      }
      assert ops[..|rs|] == ops;
    }

    /**
     * fs_getfs after such a run: the file system that the last call for the longest named prefix
     * of the path mounted, with the rest of the path; none exactly when no call named a prefix.
     */
    method MountAllThenGet(rs: seq<Request>, p: string) returns (fs: Option<Fs>, reloff: int, ghost last: int)
      requires Valid() && table == map[] && Fit(rs) && NeverAbove(Calls(rs)) && NUL !in p && |p| < PATH_MAX
      modifies path, this`nodes, this`shape, this`table
      ensures Valid() && -1 <= last < |rs| && (fs.None? <==> last < 0)
      ensures forall i | 0 <= i < |rs| && Components(rs[i].targ) <= Components(p) ::
                last >= 0 && |Components(rs[i].targ)| <= |Components(rs[last].targ)|
      ensures last >= 0 ==>
                var prefix := Components(rs[last].targ);
                && prefix <= Components(p) && fs == Some(rs[last].fs)
                && (forall i | last < i < |rs| :: Components(rs[i].targ) != prefix)
                && 0 <= reloff <= |p| && Tokens(p[reloff..], "/") == Tokens(p, "/")[|prefix|..]
    {
      hide Components, Inv, Calls, NothingBelow, NeverAbove, TableAfter, Longest, LastCall, Tokens;
      ghost var ops, cs := Calls(rs), Components(p);
      MountAll(rs);
      fs, reloff := GetFs(p);
      ghost var k := Longest(table, cs, |cs|);
      last := if k < 0 then -1 else LastCall(ops, cs[..k]);
      SelectedIsLast(ops, cs, 0);
      forall i: nat | i < |rs| && Components(rs[i].targ) <= cs ensures |Components(rs[i].targ)| <= k {
        SelectedIsLast(ops, cs, i);
      }
    }
  }

  /** Mounting at a/b and then above it, at a, leaves a link to a node that has been freed. */
  method MountsAbove(f: Fs, g: Fs) returns (t: MountTree)
    ensures fresh(t) && Dangling(t.nodes)
  {
    hide Components, Inv, Tokens, Dangling;
    NestedPaths();
    t := new MountTree();
    t.Mount("a/b", f);
    t.Mount("a", g);
    assert ["a"] < ["a", "b"];
    assert ["a", "b"] in map[["a", "b"] := f];
  }
}
