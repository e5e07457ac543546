/** The shape of the mount tree of kernel/fs.c, and what every insertion and mount keeps. */
module Mounts {
  import opened Common
  import opened Strtok

  const FILE_NAME_LEN: nat := 256
  const PATH_MAX: nat := 4096

  type Path = seq<string>
  type Fs = nat

  /** What strncpy and strncmp with a bound of FILE_NAME_LEN see of a component. */
  function Trunc(c: string): string {
    if |c| <= FILE_NAME_LEN then c else c[..FILE_NAME_LEN]
  }

  function Components(p: string): (cs: Path)
    ensures |cs| == |Tokens(p, "/")|
  {
    seq(|Tokens(p, "/")|, i requires 0 <= i < |Tokens(p, "/")| => Trunc(Tokens(p, "/")[i]))
  }

  /** struct mount_tree, at an address; address 0 is mount_root. */
  datatype Node = Node(name: string, mount: Option<Fs>, child: Option<nat>, sibling: Option<nat>)
  type Nodes = map<nat, Node>

  /** The tree the links spell out: child lists, the place of a node, the node at a place, parents. */
  datatype Shape = Shape(kids: map<nat, seq<nat>>, place: map<nat, Path>, at: map<Path, nat>, up: map<nat, nat>)

  function Head(ks: seq<nat>): Option<nat> {
    if ks == [] then None else Some(ks[0])
  }

  ghost predicate Chained(ns: Nodes, ks: seq<nat>, i: int) {
    0 <= i < |ks| ==> ks[i] in ns && ns[ks[i]].sibling == Head(ks[i + 1..])
  }

  /** The chain of siblings from `first` is ks, without repetition. */
  ghost predicate Spells(ns: Nodes, first: Option<nat>, ks: seq<nat>) {
    && first == Head(ks)
    && (forall i | 0 <= i < |ks| :: Chained(ns, ks, i))
    && (forall i, j | 0 <= i < j < |ks| :: ks[i] != ks[j])
  }

  ghost predicate Listed(ns: Nodes, sh: Shape, n: nat) {
    n in ns && n in sh.kids && Spells(ns, ns[n].child, sh.kids[n])
  }

  /** k is a child of n, and its place says so. */
  ghost predicate ChildOf(ns: Nodes, sh: Shape, n: nat, k: nat)
    requires n in sh.place
  {
    && k in ns && k in sh.place && k in sh.up && k != 0 && sh.up[k] == n
    && sh.place[k] == sh.place[n] + [ns[k].name]
  }

  /** place and at are inverse to each other. */
  ghost predicate Inverse(sh: Shape) {
    && (forall n | n in sh.place :: sh.place[n] in sh.at && sh.at[sh.place[n]] == n)
    && (forall p | p in sh.at :: sh.at[p] in sh.place && sh.place[sh.at[p]] == p)
  }

  ghost predicate Domains(ns: Nodes, sh: Shape) {
    && 0 in ns && 0 in sh.place && sh.place[0] == []
    && (forall n | n in ns :: n in sh.kids && n in sh.place)
    && (forall n | n in sh.place :: n in ns)
    && Inverse(sh)
  }

  ghost predicate Links(ns: Nodes, sh: Shape)
    requires Domains(ns, sh)
  {
    && (forall n | n in ns :: Listed(ns, sh, n))
    && (forall n, k | n in ns && k in sh.kids[n] :: ChildOf(ns, sh, n, k))
    && (forall n | n in ns && n != 0 :: n in sh.up && sh.up[n] in ns && n in sh.kids[sh.up[n]])
  }

  function MountAt(table: map<Path, Fs>, p: Path): Option<Fs> {
    if p in table then Some(table[p]) else None
  }

  ghost predicate Below(p: Path, live: set<Path>) {
    exists q :: q in live && p <= q
  }

  ghost predicate Marked(ns: Nodes, sh: Shape, table: map<Path, Fs>)
    requires Domains(ns, sh)
  {
    && (forall n | n in ns :: ns[n].mount == MountAt(table, sh.place[n]))
    && (forall p | p in table :: p in sh.at)
  }

  ghost predicate Grown(ns: Nodes, sh: Shape, live: set<Path>)
    requires Domains(ns, sh)
  {
    forall n | n in ns && n != 0 :: Below(sh.place[n], live)
  }

  /** The links form the tree `sh`, the marks are the mount table, and no branch ends without a live path. */
  ghost predicate Inv(ns: Nodes, sh: Shape, table: map<Path, Fs>, live: set<Path>) {
    Domains(ns, sh) && Links(ns, sh) && Marked(ns, sh, table) && Grown(ns, sh, live)
  }

  /** A child list search that finds c is at the place it should be. */
  lemma FoundChild(ns: Nodes, sh: Shape, n: nat, k: nat)
    requires Domains(ns, sh) && Links(ns, sh) && n in ns && k in sh.kids[n]
    ensures k in ns && sh.place[k] == sh.place[n] + [ns[k].name]
  {
    assert ChildOf(ns, sh, n, k);
  }

  /** The node at place n/c is on the child list of n, under the name c. */
  lemma OnlyChild(ns: Nodes, sh: Shape, n: nat, c: string)
    requires Domains(ns, sh) && Links(ns, sh) && n in ns && sh.place[n] + [c] in sh.at
    ensures var m := sh.at[sh.place[n] + [c]]; m in sh.kids[n] && m in ns && ns[m].name == c
  {
    var p := sh.place[n] + [c];
    var m := sh.at[p];
    var q := sh.up[m];
    assert ChildOf(ns, sh, q, m);
    assert p[..|p| - 1] == sh.place[q] && p[..|p| - 1] == sh.place[n];
  }

  /** A child list search that fails means there is no such place. */
  lemma MissingChild(ns: Nodes, sh: Shape, n: nat, c: string)
    requires Domains(ns, sh) && Links(ns, sh) && n in ns
    requires forall k | k in sh.kids[n] && k in ns :: ns[k].name != c
    ensures sh.place[n] + [c] !in sh.at
  {
    if sh.place[n] + [c] in sh.at { OnlyChild(ns, sh, n, c); }
  }

  lemma ParentPlace(ns: Nodes, sh: Shape, p: Path)
    requires Domains(ns, sh) && Links(ns, sh) && p in sh.at && p != []
    ensures p[..|p| - 1] in sh.at
  {
    var m := sh.at[p];
    assert ChildOf(ns, sh, sh.up[m], m);
    assert p[..|p| - 1] == sh.place[sh.up[m]];
  }

  lemma {:induction false} PrefixPlace(ns: Nodes, sh: Shape, p: Path, j: nat)
    requires Domains(ns, sh) && Links(ns, sh) && p in sh.at && j <= |p|
    ensures p[..j] in sh.at
    decreases |p|
  {
    hide Domains, Links;
    if j == |p| {
      assert p[..j] == p;
    } else {
      ParentPlace(ns, sh, p);
      PrefixPlace(ns, sh, p[..|p| - 1], j);
      assert p[..|p| - 1][..j] == p[..j];
    }
  }

  // ---- inserting a node at the head of a child list ----

  function InsertNodes(ns: Nodes, n: nat, nn: nat, c: string): Nodes
    requires n in ns
  {
    ns[nn := Node(c, None, None, ns[n].child)][n := ns[n].(child := Some(nn))]
  }

  ghost function InsertShape(sh: Shape, n: nat, nn: nat, c: string): Shape
    requires n in sh.kids && n in sh.place
  {
    var p := sh.place[n] + [c];
    Shape(sh.kids[nn := []][n := [nn] + sh.kids[n]], sh.place[nn := p], sh.at[p := nn], sh.up[nn := n])
  }

  lemma InsertDomains(ns: Nodes, sh: Shape, n: nat, nn: nat, c: string)
    requires Domains(ns, sh) && n in ns && nn !in ns && sh.place[n] + [c] !in sh.at
    ensures Domains(InsertNodes(ns, n, nn, c), InsertShape(sh, n, nn, c))
  {
  }

  ghost predicate SameSiblings(ns: Nodes, ns': Nodes, ks: seq<nat>) {
    forall k | k in ks && k in ns :: k in ns' && ns'[k].sibling == ns[k].sibling
  }

  lemma SpellsKept(ns: Nodes, ns': Nodes, first: Option<nat>, ks: seq<nat>)
    requires Spells(ns, first, ks) && SameSiblings(ns, ns', ks)
    ensures Spells(ns', first, ks)
  {
    forall i | 0 <= i < |ks| ensures Chained(ns', ks, i) {
      assert Chained(ns, ks, i);
    }
  }

  lemma SpellsPush(ns: Nodes, ns': Nodes, first: Option<nat>, ks: seq<nat>, nn: nat)
    requires Spells(ns, first, ks) && SameSiblings(ns, ns', ks)
    requires nn !in ks && nn in ns' && ns'[nn].sibling == first
    ensures Spells(ns', Some(nn), [nn] + ks)
  {
    var ks' := [nn] + ks;
    forall i | 0 <= i < |ks'| ensures Chained(ns', ks', i) {
      if i == 0 {
        assert ks'[1..] == ks;
      } else {
        assert Chained(ns, ks, i - 1);
        assert ks'[i + 1..] == ks[i..];
      }
    }
  }

  /** Every listed child is a node. */
  lemma KidsAreNodes(ns: Nodes, sh: Shape, n: nat)
    requires Domains(ns, sh) && Links(ns, sh) && n in ns
    ensures forall k | k in sh.kids[n] :: k in ns
  {
  }

  lemma InsertListed(ns: Nodes, sh: Shape, n: nat, nn: nat, c: string, m: nat)
    requires n in ns && n in sh.kids && n in sh.place && nn !in ns && (m in ns || m == nn)
    requires m in ns ==> Listed(ns, sh, m) && forall k | k in sh.kids[m] :: k in ns
    ensures Listed(InsertNodes(ns, n, nn, c), InsertShape(sh, n, nn, c), m)
  {
    var ns' := InsertNodes(ns, n, nn, c);
    if m == n {
      hide Spells;
      SpellsPush(ns, ns', ns[m].child, sh.kids[m], nn);
    } else if m != nn {
      hide Spells;
      SpellsKept(ns, ns', ns[m].child, sh.kids[m]);
    }
  }

  lemma InsertChildren(ns: Nodes, sh: Shape, n: nat, nn: nat, c: string)
    requires Domains(ns, sh) && Links(ns, sh) && n in ns && nn !in ns && sh.place[n] + [c] !in sh.at
    requires Domains(InsertNodes(ns, n, nn, c), InsertShape(sh, n, nn, c))
    ensures var ns', sh' := InsertNodes(ns, n, nn, c), InsertShape(sh, n, nn, c);
            forall m, k | m in ns' && k in sh'.kids[m] :: ChildOf(ns', sh', m, k)
  {
    var ns', sh' := InsertNodes(ns, n, nn, c), InsertShape(sh, n, nn, c);
    forall m, k | m in ns' && k in sh'.kids[m] ensures ChildOf(ns', sh', m, k) {
      if k != nn || m != n {
        assert k in sh.kids[m];
        assert ChildOf(ns, sh, m, k);
      }
    }
  }

  lemma InsertLinks(ns: Nodes, sh: Shape, n: nat, nn: nat, c: string)
    requires Domains(ns, sh) && Links(ns, sh) && n in ns && nn !in ns && sh.place[n] + [c] !in sh.at
    ensures Domains(InsertNodes(ns, n, nn, c), InsertShape(sh, n, nn, c))
    ensures Links(InsertNodes(ns, n, nn, c), InsertShape(sh, n, nn, c))
  {
    InsertDomains(ns, sh, n, nn, c);
    InsertChildren(ns, sh, n, nn, c);
    var ns', sh' := InsertNodes(ns, n, nn, c), InsertShape(sh, n, nn, c);
    hide Domains, Listed, ChildOf;
    forall m | m in ns' ensures Listed(ns', sh', m) {
      if m in ns { KidsAreNodes(ns, sh, m); }
      InsertListed(ns, sh, n, nn, c, m);
    }
    forall m | m in ns' && m != 0 ensures m in sh'.up && sh'.up[m] in ns' && m in sh'.kids[sh'.up[m]] {
      if m != nn {
        assert m in sh.kids[sh.up[m]];
      } else {
        assert sh'.kids[n][0] == nn;
      }
    }
  }

  /** A new unmounted node on the way to a live path keeps the invariant. */
  lemma InsertInv(ns: Nodes, sh: Shape, table: map<Path, Fs>, live: set<Path>, n: nat, nn: nat, c: string)
    requires Inv(ns, sh, table, live) && n in ns && nn !in ns && sh.place[n] + [c] !in sh.at
    requires Below(sh.place[n] + [c], live)
    ensures Inv(InsertNodes(ns, n, nn, c), InsertShape(sh, n, nn, c), table, live)
  {
    InsertLinks(ns, sh, n, nn, c);
    hide Links, Below;
    InsertMarked(ns, sh, table, n, nn, c);
  }

  lemma InsertMarked(ns: Nodes, sh: Shape, table: map<Path, Fs>, n: nat, nn: nat, c: string)
    requires Domains(ns, sh) && Marked(ns, sh, table) && n in ns && nn !in ns && sh.place[n] + [c] !in sh.at
    requires Domains(InsertNodes(ns, n, nn, c), InsertShape(sh, n, nn, c))
    ensures Marked(InsertNodes(ns, n, nn, c), InsertShape(sh, n, nn, c), table)
  {
  }

  // ---- marking a node as a mount point ----

  function MarkNodes(ns: Nodes, n: nat, fs: Fs): Nodes
    requires n in ns
  {
    ns[n := ns[n].(mount := Some(fs))]
  }

  lemma MarkListed(ns: Nodes, sh: Shape, n: nat, fs: Fs, m: nat)
    requires n in ns && Listed(ns, sh, m)
    ensures Listed(MarkNodes(ns, n, fs), sh, m)
  {
    hide Spells;
    SpellsKept(ns, MarkNodes(ns, n, fs), ns[m].child, sh.kids[m]);
  }

  lemma MarkLinks(ns: Nodes, sh: Shape, n: nat, fs: Fs)
    requires Domains(ns, sh) && Links(ns, sh) && n in ns
    ensures Domains(MarkNodes(ns, n, fs), sh) && Links(MarkNodes(ns, n, fs), sh)
  {
    hide Listed, Inverse;
    var ns' := MarkNodes(ns, n, fs);
    assert Domains(ns', sh);
    hide Domains;
    forall m | m in ns' ensures Listed(ns', sh, m) {
      MarkListed(ns, sh, n, fs, m);
    }
    forall m, k | m in ns' && k in sh.kids[m] ensures ChildOf(ns', sh, m, k) {
      assert ChildOf(ns, sh, m, k);
    }
  }

  /** Marking the node at p mounts fs at p and changes nothing else in the table. */
  lemma MarkInv(ns: Nodes, sh: Shape, table: map<Path, Fs>, n: nat, fs: Fs)
    requires n in ns && n in sh.place && Inv(ns, sh, table, table.Keys + {sh.place[n]})
    ensures var table' := table[sh.place[n] := fs];
            Inv(MarkNodes(ns, n, fs), sh, table', table'.Keys)
  {
    hide Inverse, Links, Below;
    MarkLinks(ns, sh, n, fs);
    MarkMarked(ns, sh, table, n, fs);
    assert Grown(MarkNodes(ns, n, fs), sh, table.Keys + {sh.place[n]});
    hide Domains, Marked, Grown;
    assert table[sh.place[n] := fs].Keys == table.Keys + {sh.place[n]};
  }

  lemma MarkMarked(ns: Nodes, sh: Shape, table: map<Path, Fs>, n: nat, fs: Fs)
    requires Domains(ns, sh) && Marked(ns, sh, table) && n in ns && Domains(MarkNodes(ns, n, fs), sh)
    ensures Marked(MarkNodes(ns, n, fs), sh, table[sh.place[n] := fs])
  {
  }
}
