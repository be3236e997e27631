/** The sharded map: a fixed power-of-two number of tables, a key's table chosen by the high
    bits of its hash.  Every operation is proved to act as on one finite map. */
module ShardMap {
  import opened Options
  import opened Ring
  import opened RobinHoodLayout
  import opened RobinHoodTable
  import opened Shards
  import opened TableScan

  /** Table `t` stores exactly `c`. */
  ghost predicate Holding<K(0, !new), V(0)>(t: Table<K, V>, hash: K -> Hash, c: map<K, V>)
    reads t, t.meta, t.keys, t.vals, t.hashes
  {
    t.Valid() && t.hash == hash && t.contents == c
  }

  /** How many shards, as a power of two, and each shard's share of the hint. */
  method Sizes(want: int, procs: nat, hint: int) returns (n: nat, bits: nat, each: nat)
    requires want <= Exp2(64) && 4 * procs <= Exp2(64)
    ensures n == Exp2(bits) && 0 < n && bits <= 64 && each == if hint > 0 then (hint + n - 1) / n else 0
    ensures var k := if want < 1 then 4 * procs else want; n >= k && (n == 1 || n / 2 < k)
  {
    var k := if want < 1 then 4 * procs else want;
    n, bits := NextPow2(k);
    assert bits <= 64 by { BitsBounded(bits, k); }
    each := if hint > 0 then (hint + n - 1) / n else 0;
  }

  /** `t` is an empty table made of `parts`, with room for `each` entries. */
  ghost predicate New<K(0, !new), V(0)>(t: Table<K, V>, hash: K -> Hash, each: nat, parts: set<object>)
    reads parts
  {
    t in parts && t.Repr() <= parts && Holding(t, hash, map[]) && each <= |t.slots| * 3 / 4
  }

  ghost predicate Separate<K(0, !new), V(0)>(ts: seq<Table<K, V>>, hash: K -> Hash, each: nat, parts: set<object>)
    reads parts
  {
    && (forall i :: 0 <= i < |ts| ==> New(ts[i], hash, each, parts))
    && (forall i, j :: 0 <= i < j < |ts| ==> ts[i].Repr() !! ts[j].Repr())
  }

  method NewTables<K(==, 0, !new), V(0)>(h: K -> Hash, each: nat, n: nat)
    returns (ts: seq<Table<K, V>>, ghost parts: set<object>)
    ensures |ts| == n && fresh(parts) && Separate(ts, h, each, parts)
  {
    ts, parts := [], {};
    while |ts| < n
      invariant |ts| <= n && fresh(parts) && Separate(ts, h, each, parts)
    {
      ghost var before := parts;
      var t := new Table<K, V>(each, h);
      assert Separate(ts, h, each, before);
      OneMore(ts, h, each, parts, t);
      ts := ts + [t];
      parts := parts + t.Repr();
    }
  }

  lemma OneMore<K(0, !new), V(0)>(ts: seq<Table<K, V>>, hash: K -> Hash, each: nat, parts: set<object>, t: Table<K, V>)
    requires Separate(ts, hash, each, parts) && t.Repr() !! parts && Holding(t, hash, map[])
      && each <= |t.slots| * 3 / 4
    ensures Separate(ts + [t], hash, each, parts + t.Repr())
  {
    hide Holding;
    var all := ts + [t];
    forall i | 0 <= i < |all|
      ensures New(all[i], hash, each, parts + t.Repr())
    {
      if i < |ts| {
        assert New(ts[i], hash, each, parts);
      }
    }
    forall i, j | 0 <= i < j < |all|
      ensures all[i].Repr() !! all[j].Repr()
    {
      assert New(ts[i], hash, each, parts);
    }
  }

  /** An even share, rounded up, of each of `n` is enough for all. */
  lemma Split(hint: int, n: nat, each: nat, room: nat)
    requires n > 0 && each == (if hint > 0 then (hint + n - 1) / n else 0) && each <= room
    ensures hint <= n * room
  {
    if hint > 0 {
      var q := (hint + n - 1) / n;
      assert hint + n - 1 < n * q + n;
      MulLe(n, q, room);
    }
  }

  lemma MulLe(n: nat, a: nat, b: nat)
    requires a <= b
    ensures n * a <= n * b
  {
  }

  class Map<K(==, 0, !new), V(0)> {
    const hash: K -> Hash
    const shift: nat
    const shards: seq<Table<K, V>>
    /** What each table stores, and every object the tables are made of. */
    ghost var maps: seq<map<K, V>>
    ghost var repr: set<object>

    ghost predicate Owned(i: nat)
      requires i < |shards|
      reads this, repr
    {
      shards[i] in repr && shards[i].Repr() <= repr
    }

    ghost predicate Apart(i: nat, j: nat)
      requires i < |shards| && j < |shards|
      reads this, repr
    {
      Owned(i) && Owned(j) && shards[i].Repr() !! shards[j].Repr()
    }

    ghost predicate Good(i: nat)
      requires i < |shards| && i < |maps|
      reads this, repr
    {
      Owned(i) && Holding(shards[i], hash, maps[i])
    }

    /** The tables are valid, share nothing, and store `maps`. */
    ghost predicate Tables()
      reads this, repr
    {
      && this !in repr && |maps| == |shards|
      && (forall i :: 0 <= i < |shards| ==> Good(i))
      && (forall i, j :: 0 <= i < j < |shards| ==> Apart(i, j))
    }

    ghost predicate Valid(m: map<K, V>)
      reads this, repr
    {
      Tables() && Whole(maps, hash, shift, m)
    }

    /** `want` shards, or four per processor when none are asked for, rounded up to a power of
        two; together the empty map, with room for `hint` entries split evenly. */
    constructor (h: K -> Hash, want: int, procs: nat, hint: int)
      requires want <= Exp2(64) && 4 * procs <= Exp2(64)
      ensures Valid(map[]) && hash == h && fresh(repr)
      ensures var n := if want < 1 then 4 * procs else want;
        shift <= 64 && |shards| == Exp2(64 - shift) >= n && (|shards| == 1 || |shards| / 2 < n)
      ensures forall i :: 0 <= i < |shards| ==> hint <= |shards| * (|shards[i].slots| * 3 / 4)
    {
      hide *;
      var n, bits, each := Sizes(want, procs, hint);
      hash, shift := h, 64 - bits;
      var ts, parts := NewTables<K, V>(h, each, n);
      shards, maps, repr := ts, seq(n, _ => map[]), parts;
      new;
      Built(each);
      WholeEmpty(maps, hash, bits);
      Parts(map[]);
      forall i | 0 <= i < |shards|
        ensures hint <= |shards| * (|shards[i].slots| * 3 / 4)
      {
        Split(hint, |shards|, each, |shards[i].slots| * 3 / 4);
      }
    }

    lemma Built(each: nat)
      requires this !in repr && |maps| == |shards| && Separate(shards, hash, each, repr)
      requires forall i :: 0 <= i < |maps| ==> maps[i] == map[]
      ensures Tables() && forall i :: 0 <= i < |shards| ==> each <= |shards[i].slots| * 3 / 4
    {
      forall i | 0 <= i < |shards|
        ensures Good(i) && each <= |shards[i].slots| * 3 / 4
      {
        assert New(shards[i], hash, each, repr);
      }
      forall i, j | 0 <= i < j < |shards|
        ensures Apart(i, j)
      {
        assert New(shards[i], hash, each, repr) && New(shards[j], hash, each, repr);
      }
    }

    /** A table nobody touched is still good. */
    twostate lemma StillGood(j: nat)
      requires j < |shards| && j < |old(maps)| && j < |maps| && old(Good(j)) && maps[j] == old(maps[j])
        && old(repr) <= repr
      requires unchanged(shards[j]) && unchanged(old(shards[j].meta)) && unchanged(old(shards[j].keys))
      requires unchanged(old(shards[j].vals)) && unchanged(old(shards[j].hashes))
      ensures Good(j) && shards[j].Repr() == old(shards[j].Repr())
    {
    }

    lemma GoodAt(j: nat)
      requires Tables() && j < |shards|
      ensures this !in repr && |maps| == |shards| && shards[j].Valid() && shards[j].hash == hash
        && shards[j].contents == maps[j]
      ensures var t := shards[j]; {t, t.meta, t.keys, t.vals, t.hashes} <= repr
    {
      assert Good(j);
    }

    lemma ApartAt(i: nat, j: nat)
      requires Tables() && i < |shards| && j < |shards| && i != j
      ensures var t, u := shards[i], shards[j];
        {t, t.meta, t.keys, t.vals, t.hashes} !! {u, u.meta, u.keys, u.vals, u.hashes}
    {
      if i < j {
        assert Apart(i, j);
      } else {
        assert Apart(j, i);
      }
    }

    /** Only table `x` changed, and what it is made of now is its own old parts or new objects. */
    twostate lemma TablesAgain(x: nat)
      requires old(Tables()) && this !in repr && x < |shards| && |maps| == |shards| && old(repr) <= repr && Good(x)
      requires forall j :: 0 <= j < |shards| && j != x ==>
        && maps[j] == old(maps)[j] && unchanged(shards[j]) && unchanged(old(shards[j].meta))
        && unchanged(old(shards[j].keys))
        && unchanged(old(shards[j].vals)) && unchanged(old(shards[j].hashes))
      requires var t := shards[x];
        || (t.meta == old(t.meta) && t.keys == old(t.keys) && t.vals == old(t.vals) && t.hashes == old(t.hashes))
        || (fresh(t.meta) && fresh(t.keys) && fresh(t.vals) && fresh(t.hashes))
      ensures Tables()
    {
      hide Holding;
      forall j | 0 <= j < |shards|
        ensures Good(j) && (j != x ==> shards[j].Repr() == old(shards[j].Repr()))
      {
        if j != x {
          StillGood(j);
        }
      }
      forall i, j | 0 <= i < j < |shards|
        ensures Apart(i, j)
      {
        assert old(Apart(i, j));
        assert Owned(i) && Owned(j);
        if i == x || j == x {
          var y := if i == x then j else i;
          forall o | o in shards[x].Repr()
            ensures o !in old(shards[y].Repr())
          {
          }
        }
      }
    }

    /** Store in one table; the others are untouched. */
    method PutIn(x: nat, h: Hash, k: K, v: V, limit: nat) returns (ok: bool)
      requires Tables() && x < |shards| && h == hash(k) && IsPow2(limit) && |shards[x].slots| <= limit
      modifies this`maps, this`repr, repr
      ensures ok <==>
        InsertCap(old(|shards[x].slots|), old(|maps[x]|)) <= limit && Fits(old(maps)[x].Keys + {k}, hash, limit)
      ensures ok ==> Tables() && maps == old(maps)[x := old(maps)[x][k := v]] && |shards[x].slots| <= limit
      ensures forall j :: 0 <= j < |shards| && j != x ==> shards[j].slots == old(shards[j].slots)
    {
      hide *;
      var t := shards[x];
      forall j | 0 <= j < |shards| && j != x
        ensures var u := shards[j]; {t, t.meta, t.keys, t.vals, t.hashes} !! {u, u.meta, u.keys, u.vals, u.hashes}
      {
        ApartAt(x, j);
      }
      GoodAt(x);
      t.Unfold();
      ok := t.Insert(h, k, v, limit);
      if ok {
        maps := maps[x := maps[x][k := v]];
        repr := repr + {t.meta, t.keys, t.vals, t.hashes};
        GoodAgain(x);
        TablesAgain(x);
      }
    }

    lemma GoodAgain(x: nat)
      requires x < |shards| && x < |maps| && shards[x].Valid() && shards[x].hash == hash
        && shards[x].contents == maps[x]
      requires var t := shards[x]; {t, t.meta, t.keys, t.vals, t.hashes} <= repr
      ensures Good(x)
    {
    }

    /** Remove from one table; the others are untouched. */
    method RemoveFrom(x: nat, h: Hash, k: K) returns (r: Option<V>)
      requires Tables() && x < |shards| && h == hash(k)
      modifies this`maps, this`repr, repr
      ensures Tables() && maps == old(maps)[x := old(maps)[x] - {k}] && |shards[x].slots| <= old(|shards[x].slots|)
      ensures r == if k in old(maps)[x] then Some(old(maps)[x][k]) else None
    {
      hide *;
      var t := shards[x];
      forall j | 0 <= j < |shards| && j != x
        ensures var u := shards[j]; {t, t.meta, t.keys, t.vals, t.hashes} !! {u, u.meta, u.keys, u.vals, u.hashes}
      {
        ApartAt(x, j);
      }
      GoodAt(x);
      r := t.Delete(h, k);
      maps := maps[x := maps[x] - {k}];
      repr := repr + {t.meta, t.keys, t.vals, t.hashes};
      GoodAgain(x);
      TablesAgain(x);
    }

    method Get(k: K, ghost m: map<K, V>) returns (r: Option<V>)
      requires Valid(m)
      ensures r == if k in m then Some(m[k]) else None
    {
      Parts(m);
      hide *;
      WholeAt(maps, hash, shift, m, k);
      var x := ShardIndex(hash(k), shift);
      GoodAt(x);
      r := shards[x].Lookup(hash(k), k);
    }

    lemma Parts(m: map<K, V>)
      ensures Valid(m) <==> Tables() && Whole(maps, hash, shift, m)
      ensures Tables() ==> |maps| == |shards|
    {
    }

    /** Store `v` under `k` and return what it replaced.  It comes back exactly when the shard's
        keys fit an allocatable capacity. */
    method Swap(k: K, v: V, limit: nat, ghost m: map<K, V>) returns (r: Option<V>, ok: bool)
      requires Valid(m) && IsPow2(limit) && forall i :: 0 <= i < |shards| ==> |shards[i].slots| <= limit
      modifies this`maps, this`repr, repr
      ensures ok ==> Valid(m[k := v]) && r == if k in m then Some(m[k]) else None
      ensures ok ==> forall i :: 0 <= i < |shards| ==> |shards[i].slots| <= limit
      ensures var x := ShardIndex(hash(k), shift);
        && x < |shards| == |old(maps)|
        && (ok <==>
            InsertCap(old(|shards[x].slots|), old(|maps[x]|)) <= limit && Fits(old(maps)[x].Keys + {k}, hash, limit))
    {
      Parts(m);
      hide *;
      WholeAt(maps, hash, shift, m, k);
      WholePut(maps, hash, shift, m, k, v);
      var x := ShardIndex(hash(k), shift);
      GoodAt(x);
      r := shards[x].Lookup(hash(k), k);
      ok := PutIn(x, hash(k), k, v, limit);
      Parts(m[k := v]);
    }

    method Delete(k: K, ghost m: map<K, V>) returns (r: Option<V>)
      requires Valid(m)
      modifies this`maps, this`repr, repr
      ensures Valid(m - {k}) && r == if k in m then Some(m[k]) else None
    {
      Parts(m);
      hide *;
      WholeAt(maps, hash, shift, m, k);
      WholeRemove(maps, hash, shift, m, k);
      var x := ShardIndex(hash(k), shift);
      r := RemoveFrom(x, hash(k), k);
      Parts(m - {k});
    }

    /** The sum of the shards' counts. */
    method Len(ghost m: map<K, V>) returns (n: nat)
      requires Valid(m)
      ensures n == |m|
    {
      Parts(m);
      hide *;
      WholeSize(maps, hash, shift, m);
      NoShards(maps);
      n := 0;
      var i := 0;
      while i < |shards|
        invariant 0 <= i <= |shards| && n == Total(maps, i)
      {
        GoodAt(i);
        shards[i].Unfold();
        NextTotal(maps, i);
        n := n + shards[i].count;
        i := i + 1;
      }
    }

    /** A walk that has come to shard `i`. */
    ghost predicate Ranging(m: map<K, V>, i: nat, v: seq<(K, V)>, go: seq<(K, V)> -> bool)
      reads this`maps
    {
      i <= |maps| && Visits(v, m, KeysBelow(maps, i)) && Approved(v, go)
    }

    method WalkShard(i: nat, go: seq<(K, V)> -> bool, was: seq<(K, V)>, ghost m: map<K, V>)
      returns (v: seq<(K, V)>, all: bool)
      requires Valid(m) && i < |shards| && Ranging(m, i, was, go)
      ensures Visited(v, m) && (all ==> Ranging(m, i + 1, v, go))
      ensures !all ==> |v| > 0 && !go(v) && Approved(v[..|v| - 1], go)
    {
      hide *;
      Parts(m);
      RangingIs(m, i, was, go);
      GoodAt(i);
      WholeShard(maps, hash, shift, m, i);
      NextShard(maps, i);
      ghost var ks;
      v, all, ks := Walk(shards[i], go, was, m, KeysBelow(maps, i));
      ContinuesIs(was, v, m, ks);
      RangingIs(m, i + 1, v, go);
    }

    lemma RangingIs(m: map<K, V>, i: nat, v: seq<(K, V)>, go: seq<(K, V)> -> bool)
      ensures Ranging(m, i, v, go) <==> i <= |maps| && Visits(v, m, KeysBelow(maps, i)) && Approved(v, go)
    {
    }

    /** Walk every shard, asking `go` after each visit whether to go on.  A walk that is never
        stopped visits each entry exactly once; a stopped one stops at once. */
    method Range(go: seq<(K, V)> -> bool, ghost m: map<K, V>) returns (v: seq<(K, V)>, all: bool)
      requires Valid(m)
      ensures Visited(v, m) && (all ==> Visits(v, m, m.Keys) && Approved(v, go))
      ensures !all ==> |v| > 0 && !go(v) && Approved(v[..|v| - 1], go)
    {
      hide *;
      Parts(m);
      WholeSize(maps, hash, shift, m);
      NoShards(maps);
      NoVisits(m, go);
      v, all := [], true;
      RangingIs(m, 0, v, go);
      var i := 0;
      while i < |shards|
        invariant 0 <= i <= |shards| && Ranging(m, i, v, go) && Visited(v, m)
      {
        v, all := WalkShard(i, go, v, m);
        if !all {
          return;
        }
        i := i + 1;
      }
      RangingIs(m, i, v, go);
    }
  }

  /** Genuine bindings of `m`, no key twice. */
  ghost predicate Visited<K(!new), V>(v: seq<(K, V)>, m: map<K, V>)
  {
    exists ks :: Visits(v, m, ks)
  }

  lemma NoVisits<K(!new), V>(m: map<K, V>, go: seq<(K, V)> -> bool)
    ensures Visits([], m, {}) && Approved([], go) && Visited([], m)
  {
    assert Visits([], m, {});
  }

  lemma ContinuesIs<K(!new), V>(was: seq<(K, V)>, v: seq<(K, V)>, m: map<K, V>, ks: set<K>)
    requires Continues(was, v, m, ks)
    ensures Visits(v, m, ks) && Visited(v, m)
  {
  }
}
