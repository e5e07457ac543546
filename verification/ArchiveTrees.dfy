/** Archives written from a directory tree in pre-order, and what a listing of one shows. */
module ArchiveTrees {
  import opened Common
  import opened Strtok
  import opened Ustar
  import opened TarFs

  /** A directory's contents: its first member, what is in it, and the members that follow. */
  datatype Forest =
    | Nil
    | File(name: string, mode: nat, size: nat, flag: char, major: nat, minor: nat, next: Forest)
    | Dir(name: string, mode: nat, major: nat, minor: nat, kids: Forest, next: Forest)

  /** The names in the directory itself. */
  function Names(f: Forest): seq<string> {
    if f.Nil? then [] else [f.name] + Names(f.next)
  }

  /** Names are components, and no directory holds the same name twice. */
  predicate WellNamed(f: Forest) {
    f.Nil? || (&& IsComponent(f.name) && f.name !in Names(f.next) && WellNamed(f.next)
               && if f.Dir? then WellNamed(f.kids) else f.flag != '5')
  }

  lemma WellParts(f: Forest)
    requires WellNamed(f) && !f.Nil?
    ensures IsComponent(f.name) && f.name !in Names(f.next) && WellNamed(f.next) && (f.Dir? ==> WellNamed(f.kids))
  {
  }

  /** Pre-order: a directory's entry, with its slash, comes right before all that is in it. */
  function Flatten(p: string, f: Forest): (es: seq<Entry>)
    ensures |es| == Count(f)
    decreases f
  {
    match f
    case Nil => []
    case File(name, mode, size, flag, ma, mi, next) => [Entry(p + name, mode, size, flag, ma, mi)] + Flatten(p, next)
    case Dir(name, mode, ma, mi, kids, next) =>
      [Entry(p + name + "/", mode, 0, '5', ma, mi)] + Flatten(p + name + "/", kids) + Flatten(p, next)
  }

  function Count(f: Forest): nat {
    match f
    case Nil => 0
    case File(_, _, _, _, _, _, next) => 1 + Count(next)
    case Dir(_, _, _, _, kids, next) => 1 + Count(kids) + Count(next)
  }

  /** How many entries the first member takes. */
  function Extent(f: Forest): nat
    requires !f.Nil?
  {
    if f.File? then 1 else 1 + Count(f.kids)
  }

  /** The entries of the members themselves, if the first one is entry `at`. */
  function Heads(f: Forest, at: nat): (js: seq<nat>)
    ensures |js| == |Names(f)|
  {
    match f
    case Nil => []
    case File(_, _, _, _, _, _, next) => [at] + Heads(next, at + 1)
    case Dir(_, _, _, _, kids, next) => [at] + Heads(next, at + 1 + Count(kids))
  }

  /** A directory: its recorded name, its contents, and the entry its contents start at. */
  datatype Place = Place(dir: string, kids: Forest, at: nat)

  /** The directory that a path of names leads to. */
  function Find(p: string, f: Forest, at: nat, path: seq<string>): Option<Place>
    decreases |path|, f
  {
    if path == [] then Some(Place(p, f, at))
    else match f
      case Nil => None
      case File(_, _, _, _, _, _, next) => Find(p, next, at + 1, path)
      case Dir(name, _, _, _, kids, next) =>
        if name == path[0] then Find(p + name + "/", kids, at + 1, path[1..])
        else Find(p, next, at + 1 + Count(kids), path)
  }

  // ---- names and prefixes ----

  /** name is p/m or lies below it. */
  predicate Under(p: string, m: string, name: string) {
    name == p + m || p + m + "/" <= name
  }

  /** The text before the first slash. */
  function Head(s: string): string {
    if s == "" || s[0] == '/' then "" else [s[0]] + Head(s[1..])
  }

  lemma {:induction false} HeadIs(m: string, rest: string)
    requires '/' !in m && (rest == m || m + "/" <= rest)
    ensures Head(rest) == m
  {
    if m != "" {
      assert m == [m[0]] + m[1..];
      assert (m + "/")[1..] == m[1..] + "/";
      assert rest[0] == m[0];
      HeadIs(m[1..], rest[1..]);
    } else if rest != "" {
      assert rest[0] == (m + "/")[0];
    }
  }

  /** The component after p is determined by the name. */
  lemma UnderHead(p: string, m: string, name: string)
    requires IsComponent(m) && Under(p, m, name)
    ensures p <= name && |p| < |name| && Head(name[|p|..]) == m
  {
    var rest := name[|p|..];
    if name == p + m {
      assert rest == m;
    } else {
      assert p + m + "/" == p + (m + "/");
      assert m + "/" <= rest;
    }
    HeadIs(m, rest);
  }

  /** Different components lead to different places. */
  lemma UnderOne(p: string, m: string, n: string, name: string)
    requires IsComponent(m) && IsComponent(n) && Under(p, m, name) && Under(p, n, name)
    ensures m == n
  {
    UnderHead(p, m, name);
    UnderHead(p, n, name);
  }

  /** Every entry of the flattened tree lies at or below one of its names. */
  lemma {:induction false} FlattenUnder(p: string, f: Forest, i: nat) returns (m: string)
    requires WellNamed(f) && i < Count(f)
    ensures m in Names(f) && IsComponent(m) && Under(p, m, Flatten(p, f)[i].name)
    decreases f
  {
    m := f.name;
    var es := Flatten(p, f);
    if i > 0 {
      if f.File? {
        m := FlattenUnder(p, f.next, i - 1);
      } else if i <= Count(f.kids) {
        var q := p + f.name + "/";
        var _ := FlattenUnder(q, f.kids, i - 1);
        assert es[i] == Flatten(q, f.kids)[i - 1];
      } else {
        m := FlattenUnder(p, f.next, i - 1 - Count(f.kids));
        assert es[i] == Flatten(p, f.next)[i - 1 - Count(f.kids)];
      }
    }
  }

  // ---- where a tree sits in an archive ----

  ghost predicate SameAt(es: seq<Entry>, at: nat, all: seq<Entry>, i: nat) {
    i < |all| && at + i < |es| && es[at + i] == all[i]
  }

  /** The entries from `at` on are the flattened tree. */
  ghost predicate Holds(es: seq<Entry>, p: string, f: Forest, at: nat) {
    at + Count(f) <= |es| && forall i: nat | i < Count(f) :: SameAt(es, at, Flatten(p, f), i)
  }

  lemma HoldsAt(es: seq<Entry>, p: string, f: Forest, at: nat, j: nat)
    requires Holds(es, p, f, at) && at <= j < at + Count(f)
    ensures j < |es| && es[j] == Flatten(p, f)[j - at]
  {
    assert SameAt(es, at, Flatten(p, f), j - at);
  }

  lemma HoldsParts(es: seq<Entry>, p: string, f: Forest, at: nat)
    requires Holds(es, p, f, at) && !f.Nil?
    ensures at + Count(f) <= |es| && Holds(es, p, f.next, at + Extent(f))
    ensures f.File? ==> es[at] == Entry(p + f.name, f.mode, f.size, f.flag, f.major, f.minor)
    ensures f.Dir? ==>
              && es[at] == Entry(p + f.name + "/", f.mode, 0, '5', f.major, f.minor)
              && Holds(es, p + f.name + "/", f.kids, at + 1)
  {
    hide Flatten, Count, SameAt;
    HeadAt(p, f);
    HoldsAt(es, p, f, at, at);
    var next, b, c := Flatten(p, f.next), at + Extent(f), at + 1;
    forall i: nat | i < Count(f.next) ensures SameAt(es, b, next, i) {
      NextSame(es, p, f, at, i);
    }
    if f.Dir? {
      var kids := Flatten(p + f.name + "/", f.kids);
      forall i: nat | i < Count(f.kids) ensures SameAt(es, c, kids, i) {
        KidSame(es, p, f, at, i);
      }
    }
  }

  lemma NextSame(es: seq<Entry>, p: string, f: Forest, at: nat, i: nat)
    requires Holds(es, p, f, at) && !f.Nil? && i < Count(f.next)
    ensures SameAt(es, at + Extent(f), Flatten(p, f.next), i)
  {
    NextAt(p, f, i);
    HoldsAt(es, p, f, at, at + Extent(f) + i);
  }

  lemma KidSame(es: seq<Entry>, p: string, f: Forest, at: nat, i: nat)
    requires Holds(es, p, f, at) && f.Dir? && i < Count(f.kids)
    ensures SameAt(es, at + 1, Flatten(p + f.name + "/", f.kids), i)
  {
    KidAt(p, f, i);
    HoldsAt(es, p, f, at, at + 1 + i);
  }

  lemma HeadAt(p: string, f: Forest)
    requires !f.Nil?
    ensures Count(f) == Extent(f) + Count(f.next) && Extent(f) > 0
    ensures f.File? ==> Flatten(p, f)[0] == Entry(p + f.name, f.mode, f.size, f.flag, f.major, f.minor)
    ensures f.Dir? ==> Flatten(p, f)[0] == Entry(p + f.name + "/", f.mode, 0, '5', f.major, f.minor)
  {
  }

  lemma NextAt(p: string, f: Forest, i: nat)
    requires !f.Nil? && i < Count(f.next)
    ensures Extent(f) + i < Count(f) && Flatten(p, f)[Extent(f) + i] == Flatten(p, f.next)[i]
  {
  }

  lemma KidAt(p: string, f: Forest, i: nat)
    requires f.Dir? && i < Count(f.kids)
    ensures Flatten(p, f)[1 + i] == Flatten(p + f.name + "/", f.kids)[i]
  {
  }

  /** No entry elsewhere lies at or below one of the names in f. */
  ghost predicate Alone(es: seq<Entry>, p: string, f: Forest, at: nat) {
    forall j: nat, m | j < |es| && !(at <= j < at + Count(f)) && m in Names(f) :: !Under(p, m, es[j].name)
  }

  /** The contents of the directory are all there is under its name, apart from its own entry. */
  ghost predicate Settled(es: seq<Entry>, pl: Place) {
    && Holds(es, pl.dir, pl.kids, pl.at) && WellNamed(pl.kids) && Slashed(pl.dir)
    && forall j: nat | j < |es| && !(pl.at <= j < pl.at + Count(pl.kids)) && pl.dir <= es[j].name ::
         j + 1 == pl.at && es[j].name == pl.dir
  }

  /** Right before the contents stands the directory's own, empty entry, the only one for its path. */
  ghost predicate Headed(es: seq<Entry>, pl: Place) {
    && 0 < pl.at <= |es| && es[pl.at - 1].name == pl.dir
    && es[pl.at - 1].size == 0 && es[pl.at - 1].flag == '5'
    && forall j: nat | j < |es| && Matches(es[j].name, Unslash(pl.dir)) :: j + 1 == pl.at
  }

  lemma {:induction false} NamesAreComponents(f: Forest, m: string)
    requires WellNamed(f) && m in Names(f)
    ensures IsComponent(m)
  {
    hide IsComponent;
    if m != f.name { NamesAreComponents(f.next, m); }
  }

  /** The entries of the first member lie at or below its name. */
  lemma HeadUnder(es: seq<Entry>, p: string, f: Forest, at: nat, j: nat)
    requires Holds(es, p, f, at) && WellNamed(f) && !f.Nil? && at <= j < at + Extent(f)
    ensures j < |es| && Under(p, f.name, es[j].name)
  {
    WellParts(f);
    HoldsParts(es, p, f, at);
    hide Holds, WellNamed, Flatten, IsComponent;
    if j > at {
      var q := p + f.name + "/";
      HoldsAt(es, q, f.kids, at + 1, j);
      var m := FlattenUnder(q, f.kids, j - at - 1);
      UnderHead(q, m, es[j].name);
    }
  }

  /** What the first member takes does not disturb the others. */
  lemma AloneNext(es: seq<Entry>, p: string, f: Forest, at: nat)
    requires Holds(es, p, f, at) && WellNamed(f) && !f.Nil? && Alone(es, p, f, at)
    ensures Holds(es, p, f.next, at + Extent(f)) && Alone(es, p, f.next, at + Extent(f))
  {
    HoldsParts(es, p, f, at);
    hide Holds, Under, IsComponent;
    forall j: nat, m | j < |es| && !(at + Extent(f) <= j < at + Count(f)) && m in Names(f.next)
      ensures !Under(p, m, es[j].name)
    {
      assert m in Names(f);
      NamesAreComponents(f, m);
      if at <= j < at + Extent(f) {
        HeadUnder(es, p, f, at, j);
        if Under(p, m, es[j].name) { UnderOne(p, f.name, m, es[j].name); }
      }
    }
  }

  /** The entry of the first member, or of what is in it, is not among the others. */
  lemma NotNext(es: seq<Entry>, p: string, f: Forest, at: nat, j: nat)
    requires !f.Nil? && Holds(es, p, f, at) && WellNamed(f) && at + Extent(f) <= j < at + Count(f)
    ensures j < |es| && !Under(p, f.name, es[j].name)
  {
    hide Holds, Under, IsComponent, WellNamed, Flatten, Count;
    WellParts(f);
    HeadAt(p, f);
    HoldsParts(es, p, f, at);
    HoldsAt(es, p, f.next, at + Extent(f), j);
    var m := FlattenUnder(p, f.next, j - at - Extent(f));
    if Under(p, f.name, es[j].name) { UnderOne(p, m, f.name, es[j].name); }
  }

  /** Whatever lies at or below the first member is one of its entries. */
  lemma OnlyHere(es: seq<Entry>, p: string, f: Forest, at: nat, j: nat)
    requires !f.Nil? && Holds(es, p, f, at) && WellNamed(f) && Alone(es, p, f, at)
    requires j < |es| && Under(p, f.name, es[j].name)
    ensures at <= j < at + Extent(f)
  {
    assert f.name in Names(f);
    hide Holds, Under, WellNamed, Flatten;
    if at + Extent(f) <= j < at + Count(f) { NotNext(es, p, f, at, j); }
  }

  /** A directory among the members is settled. */
  lemma DirSettled(es: seq<Entry>, p: string, f: Forest, at: nat)
    requires f.Dir? && Holds(es, p, f, at) && WellNamed(f) && Alone(es, p, f, at)
    ensures Settled(es, Place(p + f.name + "/", f.kids, at + 1))
    ensures Headed(es, Place(p + f.name + "/", f.kids, at + 1))
  {
    var q := p + f.name + "/";
    WellParts(f);
    HoldsParts(es, p, f, at);
    hide Holds, Alone, WellNamed, Flatten;
    forall j: nat | j < |es| && !(at + 1 <= j < at + 1 + Count(f.kids)) && q <= es[j].name
      ensures j == at && es[j].name == q
    {
      OnlyHere(es, p, f, at, j);
    }
    assert Unslash(q) == p + f.name;
    forall j: nat | j < |es| && Matches(es[j].name, p + f.name) ensures j == at {
      OnlyHere(es, p, f, at, j);
      if j > at { InsideTree(es, q, f.kids, at + 1, j); }
    }
  }

  lemma Longer(p: string, m: string, name: string)
    requires IsComponent(m)
    ensures Under(p, m, name) ==> p <= name && name != p
  {
    if Under(p, m, name) { UnderHead(p, m, name); }
  }

  lemma SettledAlone(es: seq<Entry>, pl: Place)
    requires Settled(es, pl)
    ensures Alone(es, pl.dir, pl.kids, pl.at)
  {
    hide Holds, WellNamed;
    forall j: nat, m | j < |es| && !(pl.at <= j < pl.at + Count(pl.kids)) && m in Names(pl.kids)
      ensures !Under(pl.dir, m, es[j].name)
    {
      NamesAreComponents(pl.kids, m);
      Longer(pl.dir, m, es[j].name);
    }
  }

  lemma {:induction false} FindSettled(es: seq<Entry>, p: string, f: Forest, at: nat, path: seq<string>)
    requires Holds(es, p, f, at) && WellNamed(f) && Alone(es, p, f, at)
    requires path != [] && Find(p, f, at, path).Some?
    ensures Settled(es, Find(p, f, at, path).value) && Headed(es, Find(p, f, at, path).value)
    decreases |path|, f
  {
    hide Holds, Alone, Settled, Headed;
    if f.Dir? && f.name == path[0] {
      var pl := Place(p + f.name + "/", f.kids, at + 1);
      DirSettled(es, p, f, at);
      if |path| > 1 {
        SettledParts(es, pl);
        FindSettled(es, pl.dir, pl.kids, pl.at, path[1..]);
      }
    } else {
      AloneNext(es, p, f, at);
      FindSettled(es, p, f.next, at + Extent(f), path);
    }
  }

  lemma SettledParts(es: seq<Entry>, pl: Place)
    requires Settled(es, pl)
    ensures Holds(es, pl.dir, pl.kids, pl.at) && WellNamed(pl.kids) && Slashed(pl.dir)
    ensures Alone(es, pl.dir, pl.kids, pl.at)
  {
    SettledAlone(es, pl);
  }

  // ---- what a listing shows ----

  /** The member's own entry passes getdent's test, and shows the member's name. */
  lemma HeadIsSingle(p: string, m: string, name: string)
    requires IsComponent(m) && (name == p + m || name == p + m + "/")
    ensures p <= name && Single(name[|p|..]) && TrimSlash(name[|p|..]) == m
  {
    assert name[|p|..] == m || name[|p|..] == m + "/";
  }

  /** What lies deeper does not. */
  lemma DeepIsNotSingle(p: string, m: string, name: string)
    requires IsComponent(m) && p + m + "/" < name
    ensures p <= name && !Single(name[|p|..])
  {
    assert p <= p + m + "/";
    assert name[|p| + |m|] == (p + m + "/")[|p| + |m|];
    assert name[|p|..][|m|] == '/';
  }

  /** A listing passes over a stretch of entries that are deeper in the directory. */
  lemma {:induction false} SkipDeep(es: seq<Entry>, p: string, i: nat, k: nat)
    requires i <= k <= |es|
    requires forall j: nat | i <= j < k :: p <= es[j].name && !Single(es[j].name[|p|..])
    ensures Listing(es, p, i) == Listing(es, p, k)
    decreases k - i
  {
    hide Single, Listing;
    if i < k {
      ListingHead(es, p, i);
      SkipDeep(es, p, i + 1, k);
    }
  }

  lemma KidsAreDeep(es: seq<Entry>, p: string, f: Forest, at: nat, j: nat)
    requires f.Dir? && Holds(es, p, f, at) && WellNamed(f) && at < j < at + Extent(f)
    ensures j < |es| && p <= es[j].name && !Single(es[j].name[|p|..])
  {
    HoldsParts(es, p, f, at);
    var q := p + f.name + "/";
    HoldsAt(es, q, f.kids, at + 1, j);
    var m := FlattenUnder(q, f.kids, j - at - 1);
    UnderHead(q, m, es[j].name);
    DeepIsNotSingle(p, f.name, es[j].name);
  }

  /** A listing over the flattened tree reports the members' own entries, in order. */
  lemma {:induction false} ListsHeads(es: seq<Entry>, p: string, f: Forest, at: nat)
    requires Holds(es, p, f, at) && WellNamed(f)
    requires at + Count(f) == |es| || !(p <= es[at + Count(f)].name)
    ensures Listing(es, p, at) == Heads(f, at)
    decreases f
  {
    hide Single, Listing, IsComponent;
    if f.Nil? {
      NoListing(es, p, at);
    } else {
      HoldsParts(es, p, f, at);
      HeadsUnfold(f, at);
      WellParts(f);
      hide Holds, WellNamed, Heads, Names;
      HeadIsSingle(p, f.name, es[at].name);
      ListingHead(es, p, at);
      if f.Dir? {
        forall j: nat | at + 1 <= j < at + Extent(f) ensures p <= es[j].name && !Single(es[j].name[|p|..]) {
          KidsAreDeep(es, p, f, at, j);
        }
        SkipDeep(es, p, at + 1, at + Extent(f));
      }
      ListsHeads(es, p, f.next, at + Extent(f));
    }
  }

  lemma HeadsUnfold(f: Forest, at: nat)
    requires !f.Nil?
    ensures Heads(f, at) == [at] + Heads(f.next, at + Extent(f)) && Names(f) == [f.name] + Names(f.next)
    ensures Count(f) == Extent(f) + Count(f.next)
  {
  }

  /** All entries of the tree lie in p, and none of them is p itself. */
  lemma InsideTree(es: seq<Entry>, p: string, f: Forest, at: nat, j: nat)
    requires Holds(es, p, f, at) && WellNamed(f) && at <= j < at + Count(f)
    ensures j < |es| && p <= es[j].name && es[j].name != p && es[j].name != p + "/"
  {
    HoldsAt(es, p, f, at, j);
    var m := FlattenUnder(p, f, j - at);
    UnderHead(p, m, es[j].name);
    assert (p + "/")[|p|..] == "/" && Head("/") == "";
  }

  lemma AfterSettled(es: seq<Entry>, pl: Place)
    requires Settled(es, pl)
    ensures var end := pl.at + Count(pl.kids); end <= |es| && (end < |es| ==> !(pl.dir <= es[end].name))
  {
  }

  /** The run of a listing in a settled directory stays within its contents. */
  lemma RunWithin(es: seq<Entry>, pl: Place, j: nat)
    requires Settled(es, pl) && InRun(es, pl.dir, pl.at, j)
    ensures pl.at <= j < pl.at + Count(pl.kids)
  {
    AfterSettled(es, pl);
  }

  lemma ChildWithin(es: seq<Entry>, pl: Place, j: nat)
    requires Settled(es, pl) && IsChild(es, pl.dir, j)
    ensures InRun(es, pl.dir, pl.at, j)
  {
    ChildInside(es, pl.dir, j);
    ChildIffSingle(es, pl.dir, j);
    hide IsChild;
    forall k: nat | pl.at <= k <= j ensures pl.dir <= es[k].name {
      InsideTree(es, pl.dir, pl.kids, pl.at, k);
    }
  }

  /** The contents of a settled directory are exactly the run that a listing needs. */
  lemma SettledRun(es: seq<Entry>, pl: Place)
    requires Settled(es, pl)
    ensures RunHasAll(es, pl.dir, pl.at, 0)
  {
    SettledParts(es, pl);
    hide Settled, IsChild, InRun, Holds;
    forall j: nat | IsChild(es, pl.dir, j) ensures InRun(es, pl.dir, pl.at, j) {
      ChildWithin(es, pl, j);
    }
    forall j: nat | InRun(es, pl.dir, pl.at, j)
      ensures j < |es| && es[j].name != pl.dir && es[j].name != pl.dir + "/"
    {
      RunWithin(es, pl, j);
      InsideTree(es, pl.dir, pl.kids, pl.at, j);
    }
  }

  /** In a settled directory the listing, the children and the members are the same. */
  lemma SettledLists(es: seq<Entry>, pl: Place)
    requires Settled(es, pl)
    ensures pl.at <= |es| && Listing(es, pl.dir, pl.at) == Heads(pl.kids, pl.at)
    ensures Children(es, pl.dir, 0) == Heads(pl.kids, pl.at)
  {
    SettledParts(es, pl);
    AfterSettled(es, pl);
    SettledRun(es, pl);
    hide Settled, Holds, WellNamed, RunHasAll, Slashed;
    SlashedExactIff(es, pl.dir, pl.at);
    ListsHeads(es, pl.dir, pl.kids, pl.at);
  }

  /** Entry j lies in p and shows the name m. */
  ghost predicate Shows(es: seq<Entry>, p: string, j: nat, m: string) {
    j < |es| && p <= es[j].name && TrimSlash(es[j].name[|p|..]) == m
  }

  lemma HeadShows(es: seq<Entry>, p: string, f: Forest, at: nat)
    requires !f.Nil? && Holds(es, p, f, at) && WellNamed(f)
    ensures Shows(es, p, at, f.name)
  {
    WellParts(f);
    HeadAt(p, f);
    HoldsParts(es, p, f, at);
    hide Holds, WellNamed, Flatten, Count;
    HeadIsSingle(p, f.name, es[at].name);
  }

  /** The entry of the k-th member shows its name. */
  lemma {:induction false} HeadsShowNames(es: seq<Entry>, p: string, f: Forest, at: nat, k: nat)
    requires Holds(es, p, f, at) && WellNamed(f) && k < |Names(f)|
    ensures Shows(es, p, Heads(f, at)[k], Names(f)[k])
    decreases f
  {
    assert !f.Nil?;
    hide Holds, WellNamed, Shows, Heads, Names;
    WellParts(f);
    HoldsParts(es, p, f, at);
    HeadShows(es, p, f, at);
    HeadsUnfold(f, at);
    if k > 0 { HeadsShowNames(es, p, f.next, at + Extent(f), k - 1); }
  }

  /**
   * In an archive written in pre-order from any tree, take the root or any directory that a path
   * leads to. The listing from its first entry reports its members, once each, in order and under
   * their names; and those are all its children anywhere in the archive.
   */
  lemma PreorderLists(f: Forest, path: seq<string>)
    requires WellNamed(f) && Find("", f, 0, path).Some?
    ensures var es := Flatten("", f);
            var pl := Find("", f, 0, path).value;
            && pl.at <= |es| && Listing(es, pl.dir, pl.at) == Heads(pl.kids, pl.at) == Children(es, pl.dir, 0)
            && (forall k: nat | k < |Names(pl.kids)| ::
                  Shows(es, pl.dir, Heads(pl.kids, pl.at)[k], Names(pl.kids)[k]))
            && (path != [] ==> Headed(es, pl))
  {
    var es := Flatten("", f);
    var pl := Find("", f, 0, path).value;
    WholeSettled(f);
    if path != [] {
      SettledParts(es, Place("", f, 0));
      hide Settled, Flatten, Heads, Names, Find;
      FindSettled(es, "", f, 0, path);
    }
    hide Settled, Flatten, Heads, Names, Find;
    SettledLists(es, pl);
    SettledParts(es, pl);
    forall k: nat | k < |Names(pl.kids)|
      ensures Shows(es, pl.dir, Heads(pl.kids, pl.at)[k], Names(pl.kids)[k])
    {
      HeadsShowNames(es, pl.dir, pl.kids, pl.at, k);
    }
  }

  lemma WholeSettled(f: Forest)
    requires WellNamed(f)
    ensures Settled(Flatten("", f), Place("", f, 0))
  {
    var es := Flatten("", f);
    forall i: nat | i < Count(f) ensures SameAt(es, 0, es, i) {}
  }

  /** The names of a path, each with its slash. */
  function PathText(path: seq<string>): string {
    if path == [] then "" else path[0] + "/" + PathText(path[1..])
  }

  lemma {:induction false} FindName(p: string, f: Forest, at: nat, path: seq<string>)
    requires Find(p, f, at, path).Some?
    ensures Find(p, f, at, path).value.dir == p + PathText(path)
    decreases |path|, f
  {
    if path == [] {
    } else if f.Dir? && f.name == path[0] {
      FindName(p + f.name + "/", f.kids, at + 1, path[1..]);
    } else {
      FindName(p, f.next, at + Extent(f), path);
    }
  }

  /** The path of a directory of the tree is looked up at the directory's own entry. */
  lemma PathLeadsTo(f: Forest, path: seq<string>)
    requires WellNamed(f) && path != [] && Find("", f, 0, path).Some?
    ensures var es := Flatten("", f);
            var pl := Find("", f, 0, path).value;
            && pl.at > 0 && FirstMatch(es, Unslash(PathText(path)), 0) == pl.at - 1
            && pl.at <= |es| && es[pl.at - 1].flag == '5'
  {
    hide Settled, Flatten, Find, PathText, Headed;
    var es, pl := Flatten("", f), Find("", f, 0, path).value;
    WholeSettled(f);
    SettledParts(es, Place("", f, 0));
    FindSettled(es, "", f, 0, path);
    FindName("", f, 0, path);
    assert "" + PathText(path) == PathText(path);
    HeadedMatch(es, pl);
  }

  lemma HeadedMatch(es: seq<Entry>, pl: Place)
    requires Headed(es, pl)
    ensures 0 < pl.at <= |es| && FirstMatch(es, Unslash(pl.dir), 0) == pl.at - 1 && es[pl.at - 1].flag == '5'
  {
    var j := FirstMatch(es, Unslash(pl.dir), 0);
    assert pl.dir == Unslash(pl.dir) || pl.dir == Unslash(pl.dir) + "/";
    assert Matches(es[pl.at - 1].name, Unslash(pl.dir));
  }

  // ---- looking up, opening and listing a directory ----

  lemma IdIsNotRoot(disk: string, es: seq<Entry>, i: nat)
    requires Archive(disk, es) && i < |es|
    ensures Pos(es, i) != ID_ROOT
  {
    HeaderBlock(disk, es, i);
  }

  /** The members of a directory, as ListAll shows them. */
  lemma ShownNames(es: seq<Entry>, pl: Place, ds: seq<Dirent>, k: nat)
    requires Shown(es, pl.dir, Heads(pl.kids, pl.at), ds) && k < |Names(pl.kids)| == |ds|
    requires Shows(es, pl.dir, Heads(pl.kids, pl.at)[k], Names(pl.kids)[k])
    ensures ds[k].name == Names(pl.kids)[k]
  {
  }

  lemma ShownCount(es: seq<Entry>, pl: Place, ds: seq<Dirent>)
    requires Shown(es, pl.dir, Heads(pl.kids, pl.at), ds)
    ensures |ds| == |Names(pl.kids)|
  {
  }

  lemma PathTextNonEmpty(path: seq<string>)
    requires path != [] && path[0] != ""
    ensures Unslash(PathText(path)) != ""
  {
    assert |PathText(path)| >= 2;
  }

  lemma {:induction false} FoundHead(p: string, f: Forest, at: nat, path: seq<string>)
    requires WellNamed(f) && path != [] && Find(p, f, at, path).Some?
    ensures path[0] != ""
    decreases f
  {
    if !(f.Dir? && f.name == path[0]) { FoundHead(p, f.next, at + Extent(f), path); }
  }

  /** The lookup of fs_lookup and the open that follows, on the path of a directory of the tree. */
  method OpenPath(disk: string, text: string, ghost f: Forest, ghost path: seq<string>) returns (file: TarFile)
    requires WellNamed(f) && Find("", f, 0, path).Some? && Archive(disk, Flatten("", f))
    requires text == Unslash(PathText(path)) && NUL !in text
    ensures fresh(file) && file.es == Flatten("", f) && file.Listable() && file.inode.ftype == Directory
    ensures var pl := Find("", f, 0, path).value; file.Dir() == pl.dir && file.at == pl.at
  {
    hide Archive, Flatten, Find, Pos, PathText, FirstMatch, Executable, MakeDev, Unslash, WellNamed;
    ghost var es := Flatten("", f);
    OpenFacts(f, path);
    var inode := Inode(false, Directory, None, 0, ID_ROOT);
    ghost var self := 0;
    if text != "" {
      var r := LookupAll(disk, text, es);
      inode := r.inode;
      self := Find("", f, 0, path).value.at - 1;
      IdIsNotRoot(disk, es, self);
    }
    file := new TarFile(disk, inode, es, self);
  }

  /** What the open relies on. */
  lemma OpenFacts(f: Forest, path: seq<string>)
    requires WellNamed(f) && Find("", f, 0, path).Some?
    ensures var es, pl, text := Flatten("", f), Find("", f, 0, path).value, Unslash(PathText(path));
            && (text == "" ==> pl.dir == "" && pl.at == 0)
            && (text != "" ==>
                  && 0 < pl.at <= |es| && FirstMatch(es, text, 0) == pl.at - 1
                  && es[pl.at - 1].flag == '5' && es[pl.at - 1].name == pl.dir && es[pl.at - 1].size == 0)
  {
    if path == [] {
      assert PathText(path) == "" && Find("", f, 0, path).value == Place("", f, 0);
    } else {
      hide Flatten, Find, PathText, FirstMatch, Listing, Children, Heads, Names, Unslash;
      FoundHead("", f, 0, path);
      PathTextNonEmpty(path);
      PathLeadsTo(f, path);
      PreorderLists(f, path);
    }
  }

  /** What ListAll shows of a directory of the tree are the names in it. */
  lemma ShownPath(f: Forest, path: seq<string>, ds: seq<Dirent>)
    requires WellNamed(f) && Find("", f, 0, path).Some?
    requires var es, pl := Flatten("", f), Find("", f, 0, path).value;
             pl.at <= |es| && Shown(es, pl.dir, Listing(es, pl.dir, pl.at), ds)
    ensures var kids := Find("", f, 0, path).value.kids;
            |ds| == |Names(kids)| && forall k | 0 <= k < |ds| :: ds[k].name == Names(kids)[k]
  {
    hide Flatten, Find, Heads, Names, Listing, Children, Headed, Shown, Shows;
    PreorderLists(f, path);
    var es, pl := Flatten("", f), Find("", f, 0, path).value;
    ShownCount(es, pl, ds);
    forall k: nat | k < |ds| ensures ds[k].name == Names(pl.kids)[k] {
      ShownNames(es, pl, ds, k);
    }
  }

  // ---- what is listed is what is looked up ----

  /** The first member's own entry is the one its path is looked up at. */
  lemma HeadLookedUp(es: seq<Entry>, p: string, f: Forest, at: nat)
    requires !f.Nil? && Holds(es, p, f, at) && WellNamed(f) && Alone(es, p, f, at)
    ensures at < |es| && FirstMatch(es, p + f.name, 0) == at
  {
    hide Alone, WellNamed, Settled;
    HoldsParts(es, p, f, at);
    HeadAt(p, f);
    hide Holds, Flatten, Count;
    if f.Dir? {
      DirSettled(es, p, f, at);
      assert Unslash(p + f.name + "/") == p + f.name;
      HeadedMatch(es, Place(p + f.name + "/", f.kids, at + 1));
    } else {
      FileOnly(es, p, f, at);
    }
  }

  lemma {:induction false} HeadsLookedUp(es: seq<Entry>, p: string, f: Forest, at: nat, k: nat)
    requires Holds(es, p, f, at) && WellNamed(f) && Alone(es, p, f, at) && k < |Names(f)|
    ensures Heads(f, at)[k] < |es| && FirstMatch(es, p + Names(f)[k], 0) == Heads(f, at)[k]
    decreases f
  {
    assert !f.Nil?;
    hide Holds, WellNamed, Alone, Heads, Names, FirstMatch;
    WellParts(f);
    HeadsUnfold(f, at);
    HeadLookedUp(es, p, f, at);
    if k > 0 {
      AloneNext(es, p, f, at);
      HeadsLookedUp(es, p, f.next, at + Extent(f), k - 1);
    }
  }

  /** The directory entry tells the inode number and the type that a lookup tells. */
  predicate Agrees(d: Dirent, l: Lookup) {
    match l
    case Found(inode) => d.id == inode.id && d.kind == Some(inode.ftype)
    case Unsupported => d.kind == None
    case NoEntry => false
  }

  lemma ShownAgrees(es: seq<Entry>, pl: Place, ds: seq<Dirent>, k: nat)
    requires Settled(es, pl) && Shown(es, pl.dir, Heads(pl.kids, pl.at), ds) && k < |Names(pl.kids)| == |ds|
    requires ds[k].name == Names(pl.kids)[k]
    ensures Agrees(ds[k], LookedUp(es, pl.dir + ds[k].name))
  {
    hide Settled, FirstMatch, Pos, Executable, MakeDev, Heads, Names;
    SettledParts(es, pl);
    HeadsLookedUp(es, pl.dir, pl.kids, pl.at, k);
  }

  /** Looking up a listed name in its directory finds what the listing said. */
  lemma ListedIsLookedUp(f: Forest, path: seq<string>, ds: seq<Dirent>, k: nat)
    requires WellNamed(f) && Find("", f, 0, path).Some? && k < |ds|
    requires var es, pl := Flatten("", f), Find("", f, 0, path).value;
             pl.at <= |es| && Shown(es, pl.dir, Listing(es, pl.dir, pl.at), ds)
    ensures Agrees(ds[k], LookedUp(Flatten("", f), PathText(path) + ds[k].name))
  {
    hide Flatten, Find, Heads, Names, Listing, Children, Headed, Shown, Shows, Settled, LookedUp, Agrees;
    var es, pl := Flatten("", f), Find("", f, 0, path).value;
    PreorderLists(f, path);
    ShownPath(f, path, ds);
    FoundSettled(f, path);
    FindName("", f, 0, path);
    assert "" + PathText(path) == PathText(path);
    ShownAgrees(es, pl, ds, k);
  }

  lemma FoundSettled(f: Forest, path: seq<string>)
    requires WellNamed(f) && Find("", f, 0, path).Some?
    ensures Settled(Flatten("", f), Find("", f, 0, path).value)
  {
    var es := Flatten("", f);
    WholeSettled(f);
    if path != [] {
      SettledParts(es, Place("", f, 0));
      hide Settled, Flatten, Find;
      FindSettled(es, "", f, 0, path);
    }
  }

  /**
   * Lookup, open and repeated getdent calls on the path of any directory of the tree: the names
   * reported are the names in that directory, once each and in order, and each comes with the
   * inode number and type that looking it up gives.
   */
  method ListPath(disk: string, text: string, ghost f: Forest, ghost path: seq<string>) returns (ds: seq<Dirent>)
    requires WellNamed(f) && Find("", f, 0, path).Some? && Archive(disk, Flatten("", f))
    requires text == Unslash(PathText(path)) && NUL !in text
    ensures var kids := Find("", f, 0, path).value.kids;
            |ds| == |Names(kids)| && forall k | 0 <= k < |ds| :: ds[k].name == Names(kids)[k]
    ensures forall k | 0 <= k < |ds| :: Agrees(ds[k], LookedUp(Flatten("", f), PathText(path) + ds[k].name))
  {
    hide Archive, Flatten, Find, Pos, PathText, Listing, Names, Shown, WellNamed, Unslash, LookedUp;
    var file := OpenPath(disk, text, f, path);
    ds := file.ListAll();
    ShownPath(f, path, ds);
    forall k | 0 <= k < |ds| ensures Agrees(ds[k], LookedUp(Flatten("", f), PathText(path) + ds[k].name)) {
      ListedIsLookedUp(f, path, ds, k);
    }
  }

  // ---- looking up, opening and reading a file ----

  /** The names of a path, with slashes between them. */
  function Join(path: seq<string>): string {
    if path == [] then "" else if |path| == 1 then path[0] else path[0] + "/" + Join(path[1..])
  }

  /** The entry of the file that a path of names leads to. */
  function FindFile(f: Forest, at: nat, path: seq<string>): Option<nat>
    decreases |path|, f
  {
    if path == [] || f.Nil? then None
    else if f.File? && |path| == 1 && f.name == path[0] then Some(at)
    else if f.Dir? && |path| > 1 && f.name == path[0] then FindFile(f.kids, at + 1, path[1..])
    else FindFile(f.next, at + Extent(f), path)
  }

  /** Entry j has the name, and no other entry is accepted for it. */
  ghost predicate OnlyEntry(es: seq<Entry>, name: string, j: nat) {
    j < |es| && es[j].name == name && forall i: nat | i < |es| && Matches(es[i].name, name) :: i == j
  }

  lemma FileOnly(es: seq<Entry>, p: string, f: Forest, at: nat)
    requires f.File? && Holds(es, p, f, at) && WellNamed(f) && Alone(es, p, f, at)
    ensures OnlyEntry(es, p + f.name, at)
  {
    HoldsParts(es, p, f, at);
    hide Holds, Alone, WellNamed;
    forall i: nat | i < |es| && Matches(es[i].name, p + f.name) ensures i == at {
      OnlyHere(es, p, f, at, i);
    }
  }

  lemma {:induction false} FindFileOnly(es: seq<Entry>, p: string, f: Forest, at: nat, path: seq<string>)
    requires Holds(es, p, f, at) && WellNamed(f) && Alone(es, p, f, at) && FindFile(f, at, path).Some?
    ensures OnlyEntry(es, p + Join(path), FindFile(f, at, path).value)
    decreases |path|, f
  {
    hide Holds, Alone, WellNamed, Settled, OnlyEntry;
    if f.File? && |path| == 1 && f.name == path[0] {
      FileOnly(es, p, f, at);
    } else if f.Dir? && |path| > 1 && f.name == path[0] {
      var q := p + f.name + "/";
      DirSettled(es, p, f, at);
      SettledParts(es, Place(q, f.kids, at + 1));
      FindFileOnly(es, q, f.kids, at + 1, path[1..]);
      assert q + Join(path[1..]) == p + (f.name + "/" + Join(path[1..]));
    } else {
      WellParts(f);
      AloneNext(es, p, f, at);
      FindFileOnly(es, p, f.next, at + Extent(f), path);
    }
  }

  /** The path of every file of the tree is looked up at its own entry. */
  lemma FileLeadsTo(f: Forest, path: seq<string>)
    requires WellNamed(f) && FindFile(f, 0, path).Some?
    ensures var es, j := Flatten("", f), FindFile(f, 0, path).value;
            j < |es| && es[j].name == Join(path) && FirstMatch(es, Join(path), 0) == j
  {
    hide Flatten, FindFile, Join;
    var es := Flatten("", f);
    WholeSettled(f);
    SettledParts(es, Place("", f, 0));
    FindFileOnly(es, "", f, 0, path);
    assert "" + Join(path) == Join(path);
  }

  /**
   * Lookup, open and reads of any sizes on the path of any regular file of the tree: together they
   * return the first bytes of its contents, as many as asked for or as there are.
   */
  method ReadPath(disk: string, text: string, ns: seq<nat>, ghost f: Forest, ghost path: seq<string>)
      returns (s: string)
    requires WellNamed(f) && FindFile(f, 0, path).Some? && Archive(disk, Flatten("", f))
    requires text == Join(path) && NUL !in text
    requires var es, j := Flatten("", f), FindFile(f, 0, path).value; j < |es| ==> es[j].flag == '0'
    ensures var es, j := Flatten("", f), FindFile(f, 0, path).value;
            j < |es| && s == ContentOf(disk, es, j)[..Min(Sum(ns), es[j].size)]
  {
    hide Archive, Flatten, FindFile, Pos, Join, FirstMatch, Executable, MakeDev, WellNamed, ReadRun, Sum;
    ghost var es, j := Flatten("", f), FindFile(f, 0, path).value;
    FileLeadsTo(f, path);
    var r := LookupAll(disk, text, es);
    IdIsNotRoot(disk, es, j);
    var file := new TarFile(disk, r.inode, es, j);
    s := file.ReadAll(ns);
  }
}
