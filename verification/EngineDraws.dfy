/** The draws of the cache engine are the samples of the sharded map under it. */
module EngineDraws {
  import Ring
  import L = RobinHoodLayout
  import opened Shards
  import opened ShardMap
  import opened Sampling
  import opened CacheCost
  import opened CacheEngine

  /** How the sharded map spreads keys over its tables. */
  ghost function RouteOf(t: Map<Key, Entry>): Route
  {
    Route(|t.shards|, k => ShardIndex(t.hash(k), t.shift))
  }

  function KeysOf(v: seq<(Key, Entry)>): (ks: seq<Key>)
    ensures |ks| == |v| && forall i :: 0 <= i < |v| ==> ks[i] == v[i].0
  {
    seq(|v|, (i: nat) requires i < |v| => v[i].0)
  }

  /** The keys of `cands` with what `m` binds them to. */
  ghost function EntriesOf(cands: seq<Key>, m: map<Key, Entry>): (v: seq<(Key, Entry)>)
    requires forall i :: 0 <= i < |cands| ==> cands[i] in m
    ensures |v| == |cands| && forall i :: 0 <= i < |v| ==> v[i] == (cands[i], m[cands[i]])
  {
    seq(|cands|, (i: nat) requires i < |cands| => (cands[i], m[cands[i]]))
  }

  /** A slot of table `x` holds what shard `x` binds. */
  lemma SlotsBind(t: Map<Key, Entry>, m: map<Key, Entry>, x: nat)
    requires t.Valid(m) && x < |t.shards|
    ensures x < |t.maps| && L.Holds(Snapshot(t)[x], t.maps[x], t.hash)
  {
    t.Parts(m);
    hide *;
    ShowsAt(t, Snapshot(t), x);
    t.shards[x].Unfold();
  }

  lemma ResidentBound(t: Map<Key, Entry>, m: map<Key, Entry>, p: (Key, Entry))
    requires t.Valid(m)
    ensures t.Tables() && (Resident(Snapshot(t), p) <==> p.0 in m && m[p.0] == p.1)
  {
    t.Parts(m);
    hide ShardIndex;
    hide Map<Key, Entry>.Valid;
    hide Map<Key, Entry>.Tables;
    hide L.Holds;
    if Resident(Snapshot(t), p) {
      var x: nat, i: nat :| SlotHolds(Snapshot(t), x, i, p);
      SlotsBind(t, m, x);
      L.HoldsAt(Snapshot(t)[x], t.maps[x], t.hash, i);
      WholeShard(t.maps, t.hash, t.shift, m, x);
    }
    if p.0 in m && m[p.0] == p.1 {
      WholeAt(t.maps, t.hash, t.shift, m, p.0);
      var x := ShardIndex(t.hash(p.0), t.shift);
      SlotsBind(t, m, x);
      var i := SlotOf(Snapshot(t)[x], t.maps[x], t.hash, p.0);
      assert SlotHolds(Snapshot(t), x, i, p);
    }
  }

  lemma SlotOf(s: seq<L.Slot<Key, Entry>>, c: map<Key, Entry>, hash: Key -> Ring.Hash, k: Key) returns (i: nat)
    requires L.Holds(s, c, hash) && k in c
    ensures i < |s| && s[i].Full? && s[i].e.key == k && s[i].e.val == c[k]
  {
    assert L.At(s, k);
    i :| 0 <= i < |s| && s[i].Full? && s[i].e.key == k;
    L.HoldsAt(s, c, hash, i);
  }

  lemma EmptyShards(t: Map<Key, Entry>, m: map<Key, Entry>, x: nat)
    requires t.Valid(m) && x < |t.shards|
    ensures t.Tables() && (AllEmpty(Snapshot(t)[x]) <==> IsEmptyShard(m, RouteOf(t), x))
  {
    t.Parts(m);
    SlotsBind(t, m, x);
    EmptyTab(Snapshot(t)[x], t.maps[x], t.hash);
    hide ShardIndex;
    hide Map<Key, Entry>.Valid;
    hide Map<Key, Entry>.Tables;
    hide AllEmpty;
    hide L.Holds;
    WholeShard(t.maps, t.hash, t.shift, m, x);
    forall k
      ensures k in m && ShardIndex(t.hash(k), t.shift) == x ==> k in t.maps[x]
    {
      WholeAt(t.maps, t.hash, t.shift, m, k);
    }
    if |t.maps[x]| > 0 {
      var k :| k in t.maps[x].Keys;
      assert ShardIndex(t.hash(k), t.shift) == x;
      assert k in m && RouteOf(t).of(k) == x;
    } else {
      assert t.maps[x].Keys == {};
    }
  }

  /** What the sampler can return, over all random streams, is exactly what the engine's model draws. */
  lemma EngineSampleIff(t: Map<Key, Entry>, m: map<Key, Entry>, cands: seq<Key>)
    requires t.Valid(m)
    requires t.Tables() && Addressable(Snapshot(t))
    ensures IsSample(cands, m, RouteOf(t))
       <==> exists rand :: KeysOf(SampleOf(Snapshot(t), rand, SAMPLE_N)) == cands
  {
    var tabs := Snapshot(t);
    hide Map<Key, Entry>.Valid;
    hide Map<Key, Entry>.Tables;
    hide SampleOf;
    hide ShardIndex;
    forall x | 0 <= x < |t.shards|
      ensures AllEmpty(tabs[x]) <==> IsEmptyShard(m, RouteOf(t), x)
    {
      EmptyShards(t, m, x);
    }
    assert SomeEmptyTab(tabs) <==> HasEmptyShard(m, RouteOf(t));
    hide SomeEmptyTab;
    hide HasEmptyShard;
    forall p
      ensures Resident(tabs, p) <==> p.0 in m && m[p.0] == p.1
    {
      ResidentBound(t, m, p);
    }
    hide Resident;
    if IsSample(cands, m, RouteOf(t)) {
      var v := EntriesOf(cands, m);
      SampleIff(tabs, SAMPLE_N, v);
      var rand :| SampleOf(tabs, rand, SAMPLE_N) == v;
      assert KeysOf(v) == cands;
    }
    if rand :| KeysOf(SampleOf(tabs, rand, SAMPLE_N)) == cands {
      SamplePossible(tabs, rand, SAMPLE_N);
    }
  }
}
