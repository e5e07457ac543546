/** The open-addressing hash map of kernel/container/hashmap.c. */
module HashMap {
  import opened Common

  const MIN_BUCKETS: nat := 32

  datatype Bucket<K, V> = Empty | Tomb | Full(key: K, value: V)

  // ------------------------------------------------------------------ growth

  /** The load-factor test, with its guard against an empty table; x / 0 is infinite in C. */
  predicate MustGrow(entries: nat, buckets: nat) {
    buckets == 0 || (entries as real + 0.00000000001) / (buckets as real) > 0.8
  }

  /** In whole numbers: the table grows once four fifths of it are taken. */
  lemma MustGrowIff(entries: nat, buckets: nat)
    ensures MustGrow(entries, buckets) <==> buckets == 0 || 5 * entries >= 4 * buckets
  {
    if buckets > 0 {
      var e, b := entries as real, buckets as real;
      var x := e + 0.00000000001;
      RatioIff(x, 0.8, b);
      assert x > 0.8 * b <==> 5.0 * e > 4.0 * b - 0.00000000005;
      assert (5 * entries) as real == 5.0 * e && (4 * buckets) as real == 4.0 * b;
      WholeGap(5 * entries, 4 * buckets);
    }
  }

  /** Between whole numbers a tiny margin makes no difference. */
  lemma WholeGap(m: int, n: int)
    ensures m as real > n as real - 0.00000000005 <==> m >= n
  {
  }

  lemma RatioIff(x: real, c: real, b: real)
    requires b > 0.0
    ensures x / b > c <==> x > c * b
  {
    var y := x / b;
    DivideThenMultiply(x, b);
    if y > c { MulLess(c, y, b); } else { MulLeq(y, c, b); }
  }

  lemma DivideThenMultiply(x: real, b: real)
    requires b > 0.0
    ensures (x / b) * b == x
  {
  }

  lemma MulLess(a: real, c: real, b: real)
    requires a < c && b > 0.0
    ensures a * b < c * b
  {
  }

  lemma MulLeq(a: real, c: real, b: real)
    requires a <= c && b > 0.0
    ensures a * b <= c * b
  {
  }

  // ------------------------------------------------------------------ probing

  function At(home: nat, d: nat, n: nat): (r: nat)
    requires n > 0
    ensures r < n
  {
    (home + d) % n
  }

  /** Every bucket on the way from home to distance d (excluded) is taken. */
  ghost predicate PathTaken<K, V>(data: seq<Bucket<K, V>>, home: nat, d: nat) {
    |data| > 0 && forall e: nat | e < d :: data[At(home, e, |data|)] != Empty
  }

  /** Bucket i can be reached from home without crossing an empty bucket. */
  ghost predicate Reachable<K, V>(data: seq<Bucket<K, V>>, home: nat, i: nat) {
    exists d: nat :: d < |data| && PathTaken(data, home, d) && At(home, d, |data|) == i
  }

  function Taken<K, V>(data: seq<Bucket<K, V>>): nat {
    if data == [] then 0
    else Taken(data[..|data| - 1]) + if data[|data| - 1].Empty? then 0 else 1
  }

  /** Each key sits in one bucket, reachable from its home, and `m` is what the buckets say. */
  ghost predicate Represents<K(!new), V>(hash: K -> nat, data: seq<Bucket<K, V>>, m: map<K, V>) {
    && (forall i: nat | i < |data| && data[i].Full? ::
          && data[i].key in m && m[data[i].key] == data[i].value
          && Reachable(data, hash(data[i].key) % |data|, i))
    && (forall i: nat, j: nat | i < j < |data| && data[i].Full? && data[j].Full? :: data[i].key != data[j].key)
    && (forall k | k in m :: exists i: nat :: i < |data| && data[i].Full? && data[i].key == k)
  }

  ghost predicate Inv<K(!new), V>(hash: K -> nat, data: seq<Bucket<K, V>>, entries: nat, m: map<K, V>) {
    && Represents(hash, data, m)
    && entries == Taken(data)
    && (|data| == 0 || (|data| >= MIN_BUCKETS && entries < |data|))
  }

  lemma {:induction false} TakenBound<K, V>(data: seq<Bucket<K, V>>)
    ensures Taken(data) <= |data|
    ensures Taken(data) == |data| <==> forall i | 0 <= i < |data| :: !data[i].Empty?
  {
    if data != [] {
      TakenBound(data[..|data| - 1]);
      assert forall i | 0 <= i < |data| - 1 :: data[..|data| - 1][i] == data[i];
    }
  }

  lemma {:induction false} TakenUpdate<K, V>(data: seq<Bucket<K, V>>, i: nat, b: Bucket<K, V>)
    requires i < |data|
    ensures Taken(data[i := b]) == Taken(data) - (if data[i].Empty? then 0 else 1) + (if b.Empty? then 0 else 1)
  {
    var last := |data| - 1;
    if i == last {
      assert data[i := b][..last] == data[..last];
    } else {
      assert data[i := b][..last] == data[..last][i := b];
      TakenUpdate(data[..last], i, b);
    }
  }

  /** Going round from home, every bucket comes up within one round. */
  lemma AtHits(home: nat, i: nat, n: nat)
    requires home < n && i < n
    ensures exists d: nat :: d < n && At(home, d, n) == i
  {
    var d := if i >= home then i - home else i - home + n;
    ModUnique(home + d, n, if i >= home then 0 else 1, i);
    assert At(home, d, n) == i;
  }

  /** With a bucket to spare, the probe ends. */
  lemma EmptyAhead<K, V>(data: seq<Bucket<K, V>>, home: nat)
    requires home < |data| && Taken(data) < |data|
    ensures exists d: nat :: d < |data| && data[At(home, d, |data|)].Empty?
  {
    TakenBound(data);
    var i :| 0 <= i < |data| && data[i].Empty?;
    AtHits(home, i, |data|);
  }

  /** If the probe for k has met only other buckets up to an empty one, k is nowhere. */
  lemma AbsentAtEmpty<K(!new), V>(hash: K -> nat, data: seq<Bucket<K, V>>, m: map<K, V>, k: K, d: nat)
    requires Represents(hash, data, m) && d < |data|
    requires var home := hash(k) % |data|;
             && PathTaken(data, home, d) && data[At(home, d, |data|)].Empty?
             && forall e: nat | e < d :: !(data[At(home, e, |data|)].Full? && data[At(home, e, |data|)].key == k)
    ensures k !in m
  {
  }

  lemma ReachableKept<K, V>(data: seq<Bucket<K, V>>, data': seq<Bucket<K, V>>, home: nat, i: nat)
    requires |data'| == |data| && Reachable(data, home, i)
    requires forall j | 0 <= j < |data| && data[j] != Empty :: data'[j] != Empty
    ensures Reachable(data', home, i)
  {
  }

  /** Writing k into its own bucket, or into a reachable bucket no key uses, adds it to the map. */
  lemma InsertRepresents<K(!new), V>(hash: K -> nat, data: seq<Bucket<K, V>>, m: map<K, V>, k: K, v: V, i: nat)
    requires Represents(hash, data, m) && i < |data|
    requires Reachable(data, hash(k) % |data|, i)
    requires if data[i].Full? then data[i].key == k else k !in m
    ensures Represents(hash, data[i := Full(k, v)], m[k := v])
  {
    var data' := data[i := Full(k, v)];
    var m' := m[k := v];
    forall j: nat | j < |data'| && data'[j].Full?
      ensures data'[j].key in m' && m'[data'[j].key] == data'[j].value
      ensures Reachable(data', hash(data'[j].key) % |data'|, j)
    {
      if j != i { assert data[j].key != k; }
      ReachableKept(data, data', hash(data'[j].key) % |data|, j);
    }
    forall x | x in m' ensures exists j: nat :: j < |data'| && data'[j].Full? && data'[j].key == x {
      if x == k {
        assert data'[i].key == k;
      } else {
        var j: nat :| j < |data| && data[j].Full? && data[j].key == x;
        assert data'[j].key == x;
      }
    }
  }

  /** A tombstone over k's bucket takes k out of the map. */
  lemma DeleteRepresents<K(!new), V>(hash: K -> nat, data: seq<Bucket<K, V>>, m: map<K, V>, i: nat)
    requires Represents(hash, data, m) && i < |data| && data[i].Full?
    ensures Represents(hash, data[i := Tomb], m - {data[i].key})
  {
    var k := data[i].key;
    var data' := data[i := Tomb];
    var m' := m - {k};
    forall j: nat | j < |data'| && data'[j].Full?
      ensures data'[j].key in m' && m'[data'[j].key] == data'[j].value
      ensures Reachable(data', hash(data'[j].key) % |data'|, j)
    {
      ReachableKept(data, data', hash(data'[j].key) % |data|, j);
    }
    forall x | x in m' ensures exists j: nat :: j < |data'| && data'[j].Full? && data'[j].key == x {
      var j: nat :| j < |data| && data[j].Full? && data[j].key == x;
      assert data'[j].key == x;
    }
  }

  /** A tombstone over an empty bucket changes nothing in the map. */
  lemma TombRepresents<K(!new), V>(hash: K -> nat, data: seq<Bucket<K, V>>, m: map<K, V>, i: nat)
    requires Represents(hash, data, m) && i < |data| && data[i].Empty?
    ensures Represents(hash, data[i := Tomb], m)
  {
    var data' := data[i := Tomb];
    forall j: nat | j < |data'| && data'[j].Full? ensures Reachable(data', hash(data'[j].key) % |data'|, j) {
      ReachableKept(data, data', hash(data'[j].key) % |data|, j);
    }
    forall x | x in m ensures exists j: nat :: j < |data'| && data'[j].Full? && data'[j].key == x {
      var j: nat :| j < |data| && data[j].Full? && data[j].key == x;
      assert data'[j].key == x;
    }
  }

  /** What a tombstone at the end of the probe for k does. */
  lemma DeleteEffect<K(!new), V>(hash: K -> nat, data: seq<Bucket<K, V>>, m: map<K, V>, k: K, i: nat)
    requires Represents(hash, data, m) && i < |data|
    requires if k in m then data[i].Full? && data[i].key == k else data[i].Empty?
    ensures Represents(hash, data[i := Tomb], m - {k})
    ensures Taken(data[i := Tomb]) == Taken(data) + if k in m then 0 else 1
  {
    hide Represents, Taken;
    TakenUpdate(data, i, Tomb);
    if k in m {
      DeleteRepresents(hash, data, m, i);
    } else {
      TombRepresents(hash, data, m, i);
      assert m - {k} == m;
    }
  }

  /**
   * hashmap_delete_value writes a tombstone at the bucket the probe ends in, whatever is
   * there. It keeps the table sound exactly when the value is present: otherwise an empty
   * bucket is used up without being counted.
   */
  lemma DeleteSoundIff<K(!new), V>(hash: K -> nat, data: seq<Bucket<K, V>>, entries: nat, m: map<K, V>, k: K, i: nat)
    requires Inv(hash, data, entries, m) && i < |data|
    requires if k in m then data[i].Full? && data[i].key == k else data[i].Empty?
    ensures Inv(hash, data[i := Tomb], entries, m - {k}) <==> k in m
  {
    hide Represents, Taken;
    DeleteEffect(hash, data, m, k, i);
  }

  lemma EmptyTable<K(!new), V>(hash: K -> nat, data: seq<Bucket<K, V>>, m: map<K, V>)
    requires Represents(hash, data, m) && data == []
    ensures m == map[]
  {
  }

  /** Without an empty bucket, no step of the probe for an absent value ends it. */
  lemma EndlessProbe<K(!new), V>(hash: K -> nat, data: seq<Bucket<K, V>>, m: map<K, V>, k: K, d: nat)
    requires Represents(hash, data, m) && Taken(data) == |data| > 0 && k !in m
    ensures var b := data[At(hash(k) % |data|, d, |data|)]; !b.Empty? && !(b.Full? && b.key == k)
  {
    hide Taken, At;
    TakenBound(data);
  }

  // ---------------------------------------------------------------- operations

  /** struct hashmap; buckets is the length of data. */
  class Map<K(==, !new), V> {
    const hash: K -> nat
    var data: array<Bucket<K, V>>
    var entries: nat
    ghost var m: map<K, V>

    ghost predicate Valid()
      reads this, data
    {
      Inv(hash, data[..], entries, m)
    }

    /** hashmap_init. */
    constructor (hash: K -> nat)
      ensures Valid() && m == map[] && fresh(data) && this.hash == hash
    {
      this.hash := hash;
      data := new Bucket<K, V>[0];
      entries, m := 0, map[];
    }

    /** All that a probe relies on: the buckets say what is in the map, and one is empty. */
    ghost predicate Probes()
      reads this, data
    {
      Represents(hash, data[..], m) && Taken(data[..]) < data.Length
    }

    /** get_bucket: the bucket of k, or else the bucket where k would go. */
    method GetBucket(k: K, allowTs: bool) returns (index: nat)
      requires Probes()
      ensures index < data.Length
      ensures k in m ==> data[index] == Full(k, m[k])
      ensures k !in m ==> !data[index].Full? && (data[index].Tomb? ==> allowTs)
      ensures Reachable(data[..], hash(k) % data.Length, index)
    {
      hide Taken, Represents, Reachable, At;
      var n := data.Length;
      var home := hash(k) % n;
      index := home;
      ghost var s := data[..];
      ghost var limit := Limit(s, home);
      ghost var d: nat := 0;
      var tsIndex: Option<nat> := None;
      AtZero(home, n);
      while !data[index].Empty?
        invariant d <= limit && index == At(home, d, n) && PathTaken(s, home, d)
        invariant forall e: nat | e < d :: !(s[At(home, e, n)].Full? && s[At(home, e, n)].key == k)
        invariant tsIndex.Some? ==> tsIndex.value < n && s[tsIndex.value].Tomb? && Reachable(s, home, tsIndex.value)
        decreases limit - d
      {
        assert d < limit;
        PathReaches(s, home, d);
        if data[index].Tomb? && tsIndex.None? {
          tsIndex := Some(index);
        }
        if data[index].Full? && data[index].key == k {
          Content(hash, s, m);
          return;
        }
        AtNext(home, d, n);
        index := (index + 1) % n;
        d := d + 1;
      }
      AbsentAtEmpty(hash, s, m, k, d);
      PathReaches(s, home, d);
      if allowTs && tsIndex.Some? {
        index := tsIndex.value;
      }
    }

    /** insert_op. */
    method InsertOp(k: K, v: V)
      requires Valid() && entries + 1 < data.Length
      modifies this`entries, this`m, data
      ensures Valid() && m == old(m)[k := v] && entries <= old(entries) + 1
    {
      hide Taken;
      var index := GetBucket(k, true);
      InsertRepresents(hash, data[..], m, k, v, index);
      TakenUpdate(data[..], index, Full(k, v));
      if data[index].Empty? {
        entries := entries + 1;
      }
      data[index] := Full(k, v);
      m := m[k := v];
      assert data[..] == old(data[..])[index := Full(k, v)];
    }

    /** rehash: every live entry goes into a larger, empty table. */
    method Rehash(newBuckets: nat)
      requires Valid() && newBuckets > data.Length + 1 && newBuckets >= MIN_BUCKETS
      modifies this
      ensures Valid() && m == old(m) && fresh(data) && data.Length == newBuckets
      ensures entries <= old(data.Length)
    {
      var oldData := data;
      ghost var all := m;
      Content(hash, data[..], m);
      data := new Bucket<K, V>[newBuckets](_ => Empty);
      entries, m := 0, map[];
      FreshInv(hash, data[..]);
      hide Inv;
      InsertAll(oldData, all);
    }

    /** The loop of rehash. */
    method InsertAll(oldData: array<Bucket<K, V>>, ghost all: map<K, V>)
      requires Valid() && m == map[] && entries == 0 && data.Length > oldData.Length + 1 && oldData != data
      requires forall i: nat | i < oldData.Length && oldData[i].Full? ::
                 oldData[i].key in all && all[oldData[i].key] == oldData[i].value
      requires forall k | k in all :: exists i: nat :: i < oldData.Length && oldData[i].Full? && oldData[i].key == k
      modifies this`entries, this`m, data
      ensures Valid() && m == all && entries <= oldData.Length
    {
      hide Inv;
      var i := 0;
      while i < oldData.Length
        invariant 0 <= i <= oldData.Length
        invariant Valid() && entries <= i
        invariant m.Keys <= all.Keys && forall k | k in m :: m[k] == all[k]
        invariant forall j: nat | j < i && oldData[j].Full? :: oldData[j].key in m
      {
        if oldData[i].Full? {
          InsertOp(oldData[i].key, oldData[i].value);
        }
        i := i + 1;
      }
      assert m.Keys == all.Keys;
    }

    /** hashmap_insert_value and hashmap_insert. */
    method Insert(k: K, v: V)
      requires Valid()
      modifies this, data
      ensures Valid() && m == old(m)[k := v] && (data == old(data) || fresh(data))
      ensures data.Length == if old(data.Length) == 0 then MIN_BUCKETS
                             else if 5 * old(entries) >= 4 * old(data.Length) then 2 * old(data.Length)
                             else old(data.Length)
    {
      MustGrowIff(entries, data.Length);
      if MustGrow(entries, data.Length) {
        Rehash(if data.Length > 0 then 2 * data.Length else MIN_BUCKETS);
      }
      InsertOp(k, v);
    }

    /**
     * hashmap_delete_value. The map loses k either way; an absent k costs an empty bucket that
     * is not counted, so the table stays sound exactly when k is present or there are no buckets.
     */
    method Delete(k: K)
      requires Probes() || Valid()
      modifies this`m, data
      ensures Represents(hash, data[..], m) && m == old(m) - {k}
      ensures Taken(data[..]) == old(Taken(data[..])) + if k in old(m) || data.Length == 0 then 0 else 1
      ensures old(Valid()) ==> (Valid() <==> k in old(m) || data.Length == 0)
    {
      hide Taken, Represents;
      if data.Length == 0 {
        EmptyTable(hash, data[..], m);
        return;
      }
      var index := GetBucket(k, false);
      DeleteEffect(hash, data[..], m, k, index);
      data[index] := Tomb;
      m := m - {k};
      assert data[..] == old(data[..])[index := Tomb];
    }

    /**
     * Deletes of as many absent values as there are empty buckets: afterwards no bucket is empty,
     * and by EndlessProbe the next probe for an absent value never ends.
     */
    method DeleteAbsent(ks: seq<K>)
      requires Probes() && |ks| == data.Length - Taken(data[..]) && forall k | k in ks :: k !in m
      modifies this`m, data
      ensures m == old(m) && Represents(hash, data[..], m) && Taken(data[..]) == data.Length
      ensures forall i | 0 <= i < data.Length :: !data[i].Empty?
    {
      hide Taken, Represents;
      for i := 0 to |ks|
        invariant m == old(m) && Represents(hash, data[..], m)
        invariant Taken(data[..]) == old(Taken(data[..])) + i
      {
        assert ks[i] in ks;
        Delete(ks[i]);
      }
      TakenBound(data[..]);
    }

    /** hashmap_has_value. */
    method Has(k: K) returns (found: bool)
      requires Valid()
      ensures found <==> k in m
    {
      if data.Length == 0 {
        assert k !in m;
        return false;
      }
      var index := GetBucket(k, false);
      found := !data[index].Empty?;
    }

    /** hashmap_get. */
    method Get(k: K) returns (v: Option<V>)
      requires Valid()
      ensures v == if k in m then Some(m[k]) else None
    {
      if data.Length == 0 {
        assert k !in m;
        return None;
      }
      var index := GetBucket(k, false);
      match data[index]
      case Full(_, value) => v := Some(value);
      case _ => v := None;
    }
  }

  lemma PathReaches<K, V>(data: seq<Bucket<K, V>>, home: nat, d: nat)
    requires d < |data| && PathTaken(data, home, d)
    ensures Reachable(data, home, At(home, d, |data|))
  {
  }

  lemma Content<K(!new), V>(hash: K -> nat, data: seq<Bucket<K, V>>, m: map<K, V>)
    requires Represents(hash, data, m)
    ensures forall i: nat | i < |data| && data[i].Full? :: data[i].key in m && m[data[i].key] == data[i].value
    ensures forall k | k in m :: exists i: nat :: i < |data| && data[i].Full? && data[i].key == k
  {
  }

  lemma FreshInv<K(!new), V>(hash: K -> nat, data: seq<Bucket<K, V>>)
    requires |data| >= MIN_BUCKETS && forall i | 0 <= i < |data| :: data[i].Empty?
    ensures Inv(hash, data, 0, map[])
  {
    NoneTaken(data);
  }

  /** How far the probe from home goes at most. */
  ghost function Limit<K, V>(data: seq<Bucket<K, V>>, home: nat): (d: nat)
    requires home < |data| && Taken(data) < |data|
    ensures d < |data| && data[At(home, d, |data|)].Empty?
  {
    EmptyAhead(data, home);
    var d: nat :| d < |data| && data[At(home, d, |data|)].Empty?;
    d
  }

  lemma AtZero(home: nat, n: nat)
    requires home < n
    ensures At(home, 0, n) == home
  {
  }

  lemma AtNext(home: nat, d: nat, n: nat)
    requires home < n && d < n
    ensures (At(home, d, n) + 1) % n == At(home, d + 1, n)
  {
    var x := home + d;
    var q, r := x / n, x % n;
    assert x == q * n + r;
    if r + 1 < n {
      ModUnique(x + 1, n, q, r + 1);
      ModUnique(r + 1, n, 0, r + 1);
    } else {
      assert x + 1 == (q + 1) * n + 0;
      ModUnique(x + 1, n, q + 1, 0);
      ModUnique(n, n, 1, 0);
    }
  }

  lemma {:induction false} NoneTaken<K, V>(data: seq<Bucket<K, V>>)
    requires forall i | 0 <= i < |data| :: data[i].Empty?
    ensures Taken(data) == 0
  {
    if data != [] { NoneTaken(data[..|data| - 1]); }
  }
}
