/** Splitting one finite map over shards by the high bits of a hash, and putting it together again. */
module Shards {
  import opened Ring

  function Exp2(n: nat): (r: nat)
    ensures r > 0
  {
    if n == 0 then 1 else 2 * Exp2(n - 1)
  }

  lemma {:induction false} Exp2Add(a: nat, b: nat)
    ensures Exp2(a + b) == Exp2(a) * Exp2(b)
  {
    if a > 0 {
      Exp2Add(a - 1, b);
      assert Exp2(a + b) == 2 * Exp2(a - 1 + b);
      assert 2 * (Exp2(a - 1) * Exp2(b)) == (2 * Exp2(a - 1)) * Exp2(b);
    }
  }

  lemma Exp2Of64()
    ensures Exp2(64) == 0x1_0000_0000_0000_0000
  {
    Exp2Add(8, 8);
    Exp2Add(16, 16);
    Exp2Add(32, 32);
    assert Exp2(8) == 256;
  }

  /** `h >> shift`, one bit at a time. */
  function ShardIndex(h: nat, shift: nat): nat
  {
    if shift == 0 then h else ShardIndex(h / 2, shift - 1)
  }

  lemma {:induction false} ShiftedBelow(h: nat, shift: nat, n: nat)
    requires h < n * Exp2(shift)
    ensures ShardIndex(h, shift) < n
    decreases shift
  {
    if shift > 0 {
      assert n * Exp2(shift) == 2 * (n * Exp2(shift - 1));
      ShiftedBelow(h / 2, shift - 1, n);
    }
  }

  /** With `2^bits` shards and a shift of `64 - bits` the index is always in range, one shard
      included. */
  lemma ShardInRange(h: Hash, bits: nat)
    requires bits <= 64
    ensures ShardIndex(h, 64 - bits) < Exp2(bits)
  {
    Exp2Of64();
    Exp2Add(bits, 64 - bits);
    ShiftedBelow(h, 64 - bits, Exp2(bits));
  }

  /** Every shard owns one stretch of the hash values, all of the same length. */
  lemma {:induction false} OwnsStretch(h: nat, shift: nat, x: nat)
    ensures ShardIndex(h, shift) == x <==> x * Exp2(shift) <= h < (x + 1) * Exp2(shift)
    decreases shift
  {
    if shift > 0 {
      OwnsStretch(h / 2, shift - 1, x);
      TwiceExp2(x, shift);
      TwiceExp2(x + 1, shift);
      HalfBetween(h, x * Exp2(shift - 1), (x + 1) * Exp2(shift - 1));
      hide Exp2;
    } else {
      assert Exp2(0) == 1;
    }
  }

  lemma TwiceExp2(x: nat, shift: nat)
    requires shift > 0
    ensures x * Exp2(shift) == 2 * (x * Exp2(shift - 1))
  {
    assert Exp2(shift) == 2 * Exp2(shift - 1);
  }

  lemma HalfBetween(h: nat, a: nat, b: nat)
    ensures a <= h / 2 < b <==> 2 * a <= h < 2 * b
  {
  }

  /** Smallest power of two at least `n`. */
  method NextPow2(n: int) returns (p: nat, bits: nat)
    ensures p == Exp2(bits) && p >= n && (p == 1 || p / 2 < n)
  {
    p, bits := 1, 0;
    while p < n
      invariant p == Exp2(bits) && (p == 1 || p / 2 < n)
      decreases n - p
    {
      p, bits := 2 * p, bits + 1;
    }
  }

  // ---- Gluing shards together ----

  /** Shard `i` holds only keys that it owns. */
  ghost predicate Routed<K(!new), V>(shards: seq<map<K, V>>, hash: K -> Hash, shift: nat)
  {
    forall i, k :: 0 <= i < |shards| && k in shards[i] ==> ShardIndex(hash(k), shift) == i
  }

  /** `m` is the map the shards make up together. */
  ghost predicate Glued<K(!new), V>(shards: seq<map<K, V>>, m: map<K, V>)
  {
    && (forall i, k :: 0 <= i < |shards| && k in shards[i] ==> k in m && m[k] == shards[i][k])
    && (forall k :: k in m ==> Somewhere(shards, k))
  }

  ghost predicate Somewhere<K(!new), V>(shards: seq<map<K, V>>, k: K)
  {
    exists i :: 0 <= i < |shards| && k in shards[i]
  }

  /** A key lives in the shard its hash names, or nowhere. */
  lemma OnlyInOwner<K(!new), V>(shards: seq<map<K, V>>, m: map<K, V>, hash: K -> Hash, shift: nat, k: K)
    requires Routed(shards, hash, shift) && Glued(shards, m) && ShardIndex(hash(k), shift) < |shards|
    ensures k in m <==> k in shards[ShardIndex(hash(k), shift)]
    ensures k in m ==> m[k] == shards[ShardIndex(hash(k), shift)][k]
  {
    if k in m {
      assert Somewhere(shards, k);
    }
  }

  /** Writing one key in its owner is writing it in the whole map. */
  lemma GluedPut<K(!new), V>(shards: seq<map<K, V>>, m: map<K, V>, hash: K -> Hash, shift: nat, k: K, v: V)
    requires Routed(shards, hash, shift) && Glued(shards, m) && ShardIndex(hash(k), shift) < |shards|
    ensures var x := ShardIndex(hash(k), shift);
      var next := shards[x := shards[x][k := v]];
      Routed(next, hash, shift) && Glued(next, m[k := v])
  {
    hide ShardIndex;
    var x := ShardIndex(hash(k), shift);
    var next := shards[x := shards[x][k := v]];
    forall l | l in m[k := v] ensures Somewhere(next, l) {
      if l == k {
        assert k in next[x];
      } else {
        assert Somewhere(shards, l);
        var i :| 0 <= i < |shards| && l in shards[i];
        assert l in next[i];
      }
    }
  }

  lemma GluedRemove<K(!new), V>(shards: seq<map<K, V>>, m: map<K, V>, hash: K -> Hash, shift: nat, k: K)
    requires Routed(shards, hash, shift) && Glued(shards, m) && ShardIndex(hash(k), shift) < |shards|
    ensures var x := ShardIndex(hash(k), shift);
      var next := shards[x := shards[x] - {k}];
      Routed(next, hash, shift) && Glued(next, m - {k})
  {
    hide ShardIndex;
    var x := ShardIndex(hash(k), shift);
    var next := shards[x := shards[x] - {k}];
    forall l | l in m - {k} ensures Somewhere(next, l) {
      assert Somewhere(shards, l);
      var i :| 0 <= i < |shards| && l in shards[i];
      assert l in next[i];
    }
  }

  /** The keys of the first `i` shards. */
  ghost function KeysBelow<K(!new), V>(shards: seq<map<K, V>>, i: nat): set<K>
    requires i <= |shards|
  {
    if i == 0 then {} else KeysBelow(shards, i - 1) + shards[i - 1].Keys
  }

  lemma {:induction false} KeysBelowOwned<K(!new), V>(shards: seq<map<K, V>>, hash: K -> Hash, shift: nat, i: nat)
    requires i <= |shards| && Routed(shards, hash, shift)
    ensures forall k :: k in KeysBelow(shards, i) <==>
      ShardIndex(hash(k), shift) < i && k in shards[ShardIndex(hash(k), shift)]
  {
    if i > 0 {
      KeysBelowOwned(shards, hash, shift, i - 1);
    }
  }

  /** Together, the shards' keys are the whole map's. */
  lemma AllKeys<K(!new), V>(shards: seq<map<K, V>>, m: map<K, V>, hash: K -> Hash, shift: nat)
    requires Routed(shards, hash, shift) && Glued(shards, m)
    requires forall k :: ShardIndex(hash(k), shift) < |shards|
    ensures KeysBelow(shards, |shards|) == m.Keys
  {
    KeysBelowOwned(shards, hash, shift, |shards|);
    forall k ensures k in KeysBelow(shards, |shards|) <==> k in m {
      OnlyInOwner(shards, m, hash, shift, k);
    }
  }

  function Total<K, V>(shards: seq<map<K, V>>, i: nat): nat
    requires i <= |shards|
  {
    if i == 0 then 0 else Total(shards, i - 1) + |shards[i - 1]|
  }

  lemma DisjointSize<T>(a: set<T>, b: set<T>, c: set<T>)
    requires a !! b && c == a + b
    ensures |c| == |a| + |b|
  {
  }

  /** Shards share no key, so their sizes add up. */
  lemma {:induction false} TotalIsSize<K(!new), V>(shards: seq<map<K, V>>, hash: K -> Hash, shift: nat, i: nat)
    requires Routed(shards, hash, shift) && i <= |shards|
    ensures Total(shards, i) == |KeysBelow(shards, i)|
  {
    hide *;
    if i == 0 {
      NoShards(shards);
    } else {
      TotalIsSize(shards, hash, shift, i - 1);
      NextSize(shards, hash, shift, i - 1);
      NextTotal(shards, i - 1);
    }
  }

  lemma NextSize<K(!new), V>(shards: seq<map<K, V>>, hash: K -> Hash, shift: nat, i: nat)
    requires Routed(shards, hash, shift) && i < |shards|
    ensures |KeysBelow(shards, i + 1)| == |KeysBelow(shards, i)| + |shards[i].Keys|
  {
    hide *;
    ShardApart(shards, hash, shift, i);
    NextShard(shards, i);
    DisjointSize(KeysBelow(shards, i), shards[i].Keys, KeysBelow(shards, i + 1));
  }

  lemma NoShards<K(!new), V>(shards: seq<map<K, V>>)
    ensures KeysBelow(shards, 0) == {} && Total(shards, 0) == 0
  {
  }

  lemma NextShard<K(!new), V>(shards: seq<map<K, V>>, i: nat)
    requires i < |shards|
    ensures KeysBelow(shards, i + 1) == KeysBelow(shards, i) + shards[i].Keys
  {
  }

  lemma NextTotal<K, V>(shards: seq<map<K, V>>, i: nat)
    requires i < |shards|
    ensures Total(shards, i + 1) == Total(shards, i) + |shards[i].Keys|
  {
  }

  lemma ShardApart<K(!new), V>(shards: seq<map<K, V>>, hash: K -> Hash, shift: nat, i: nat)
    requires Routed(shards, hash, shift) && i < |shards|
    ensures KeysBelow(shards, i) !! shards[i].Keys
  {
    hide ShardIndex;
    KeysBelowOwned(shards, hash, shift, i);
    hide KeysBelow;
  }

  // ---- Visiting every entry ----

  /** The visits so far: genuine bindings of `m`, no key twice, exactly the keys of `ks`. */
  ghost predicate Visits<K(!new), V>(v: seq<(K, V)>, m: map<K, V>, ks: set<K>)
  {
    && (forall i :: 0 <= i < |v| ==> v[i].0 in m && m[v[i].0] == v[i].1 && v[i].0 in ks)
    && (forall i, j :: 0 <= i < j < |v| ==> v[i].0 != v[j].0)
    && (forall k :: k in ks ==> exists i :: 0 <= i < |v| && v[i].0 == k)
  }

  lemma VisitOne<K(!new), V>(v: seq<(K, V)>, m: map<K, V>, ks: set<K>, k: K)
    requires Visits(v, m, ks) && k in m && k !in ks
    ensures Visits(v + [(k, m[k])], m, ks + {k})
  {
    var w := v + [(k, m[k])];
    forall l | l in ks + {k} ensures exists i :: 0 <= i < |w| && w[i].0 == l {
      if l == k {
        assert w[|v|].0 == k;
      } else {
        var i :| 0 <= i < |v| && v[i].0 == l;
        assert w[i].0 == l;
      }
    }
  }

  /** Every visit so far was followed by a request to go on. */
  ghost predicate Approved<T>(v: seq<T>, go: seq<T> -> bool)
  {
    forall i :: 0 < i <= |v| ==> go(v[..i])
  }

  lemma ApprovedNext<T>(v: seq<T>, x: T, go: seq<T> -> bool)
    requires Approved(v, go)
    ensures var w := v + [x]; w[..|v|] == v && (go(w) ==> Approved(w, go))
  {
    var w := v + [x];
    assert w[..|w|] == w;
    forall i | 0 < i <= |w| && go(w)
      ensures go(w[..i])
    {
      if i < |w| {
        assert w[..i] == v[..i];
      }
    }
  }

  // ---- The shards of one map ----

  /** The shards of `m`: every key in the shard its hash names. */
  ghost predicate Whole<K(!new), V>(shards: seq<map<K, V>>, hash: K -> Hash, shift: nat, m: map<K, V>)
  {
    && |shards| > 0 && (forall k :: ShardIndex(hash(k), shift) < |shards|)
    && Routed(shards, hash, shift) && Glued(shards, m)
  }

  lemma WholeEmpty<K(!new), V>(shards: seq<map<K, V>>, hash: K -> Hash, bits: nat)
    requires bits <= 64 && |shards| == Exp2(bits) && forall i :: 0 <= i < |shards| ==> shards[i] == map[]
    ensures Whole(shards, hash, 64 - bits, map[])
  {
    hide ShardIndex;
    forall k ensures ShardIndex(hash(k), 64 - bits) < |shards| {
      ShardInRange(hash(k), bits);
    }
  }

  lemma WholeAt<K(!new), V>(shards: seq<map<K, V>>, hash: K -> Hash, shift: nat, m: map<K, V>, k: K)
    requires Whole(shards, hash, shift, m)
    ensures var x := ShardIndex(hash(k), shift);
      x < |shards| && (k in m <==> k in shards[x]) && (k in m ==> m[k] == shards[x][k])
  {
    hide ShardIndex;
    OnlyInOwner(shards, m, hash, shift, k);
  }

  lemma WholePut<K(!new), V>(shards: seq<map<K, V>>, hash: K -> Hash, shift: nat, m: map<K, V>, k: K, v: V)
    requires Whole(shards, hash, shift, m)
    ensures var x := ShardIndex(hash(k), shift);
      x < |shards| && Whole(shards[x := shards[x][k := v]], hash, shift, m[k := v])
  {
    hide ShardIndex;
    hide Routed;
    hide Glued;
    GluedPut(shards, m, hash, shift, k, v);
  }

  lemma WholeRemove<K(!new), V>(shards: seq<map<K, V>>, hash: K -> Hash, shift: nat, m: map<K, V>, k: K)
    requires Whole(shards, hash, shift, m)
    ensures var x := ShardIndex(hash(k), shift);
      x < |shards| && Whole(shards[x := shards[x] - {k}], hash, shift, m - {k})
  {
    hide ShardIndex;
    hide Routed;
    hide Glued;
    GluedRemove(shards, m, hash, shift, k);
  }

  lemma WholeSize<K(!new), V>(shards: seq<map<K, V>>, hash: K -> Hash, shift: nat, m: map<K, V>)
    requires Whole(shards, hash, shift, m)
    ensures Total(shards, |shards|) == |m| && KeysBelow(shards, |shards|) == m.Keys
  {
    AllKeys(shards, m, hash, shift);
    TotalIsSize(shards, hash, shift, |shards|);
  }

  /** Shard `i` holds bindings of the whole map, and none that an earlier shard holds. */
  lemma WholeShard<K(!new), V>(shards: seq<map<K, V>>, hash: K -> Hash, shift: nat, m: map<K, V>, i: nat)
    requires Whole(shards, hash, shift, m) && i < |shards|
    ensures KeysBelow(shards, i) !! shards[i].Keys && forall k :: k in shards[i] ==> k in m && m[k] == shards[i][k]
  {
    ShardApart(shards, hash, shift, i);
  }

  lemma {:induction false} Exp2Mono(a: nat, b: nat)
    requires a < b
    ensures 2 * Exp2(a) <= Exp2(b)
  {
    if a + 1 < b {
      Exp2Mono(a, b - 1);
    }
  }

  lemma BitsBounded(bits: nat, n: int)
    requires n <= Exp2(64) && (Exp2(bits) == 1 || Exp2(bits) / 2 < n)
    ensures bits <= 64
  {
    if bits > 64 {
      Exp2Mono(64, bits);
    }
  }
}
