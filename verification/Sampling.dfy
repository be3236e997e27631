/** Random sampling of the sharded map: what a sample returns, as a function of the tables and of the
    stream of random numbers, and exactly when it falls short. */
module Sampling {
  import opened Finite
  import opened Options
  import opened Ring
  import opened RobinHoodLayout
  import opened Shards
  import opened TableScan
  import opened ShardMap

  /** The slots of every table, taken at one moment. */
  type Tabs<K, V> = seq<seq<Slot<K, V>>>

  ghost predicate AllEmpty<K, V>(s: seq<Slot<K, V>>)
  {
    forall i :: 0 <= i < |s| ==> s[i].Empty?
  }

  ghost predicate Sized<K, V>(tabs: Tabs<K, V>)
  {
    |tabs| > 0 && forall i :: 0 <= i < |tabs| ==> |tabs[i]| > 0
  }

  /** What a draw from the random numbers at `pos` on offers, and where the next draw starts. */
  ghost function DrawAt<K, V>(tabs: Tabs<K, V>, rand: nat -> Hash, pos: nat): (Option<(K, V)>, nat)
    requires Sized(tabs)
  {
    var s := tabs[Home(rand(pos), |tabs|)];
    if AllEmpty(s) then (None, pos + 1)
    else
      var (i, next) := Drawn(s, rand, pos + 1);
      (if s[i].Full? then Some((s[i].e.key, s[i].e.val)) else None, next)
  }

  /** The first `n` draws from the start of the stream, and the position after them. */
  ghost function DrawsTo<K, V>(tabs: Tabs<K, V>, rand: nat -> Hash, n: nat): (r: (seq<Option<(K, V)>>, nat))
    requires Sized(tabs)
    ensures |r.0| == n
  {
    if n == 0 then ([], 0)
    else
      var (ds, pos) := DrawsTo(tabs, rand, n - 1);
      var (d, next) := DrawAt(tabs, rand, pos);
      (ds + [d], next)
  }

  ghost function Draws<K, V>(tabs: Tabs<K, V>, rand: nat -> Hash, n: nat): (ds: seq<Option<(K, V)>>)
    requires Sized(tabs)
    ensures |ds| == n
  {
    DrawsTo(tabs, rand, n).0
  }

  /** The keys a list of draws offers. */
  ghost function Offered<K, V>(ds: seq<Option<(K, V)>>): set<K>
  {
    set i | 0 <= i < |ds| && ds[i].Some? :: ds[i].value.0
  }

  /** What is new in each draw, in order. */
  ghost function Firsts<K, V>(ds: seq<Option<(K, V)>>): seq<(K, V)>
  {
    if ds == [] then []
    else
      var init, d := ds[..|ds| - 1], ds[|ds| - 1];
      if d.None? || d.value.0 in Offered(init) then Firsts(init) else Firsts(init) + [d.value]
  }

  function DrawBudget(n: nat): nat
  {
    n * 8 + 16
  }

  lemma OfferedNext<K, V>(ds: seq<Option<(K, V)>>, d: Option<(K, V)>)
    ensures Offered(ds + [d]) == Offered(ds) + if d.Some? then {d.value.0} else {}
    ensures Firsts(ds + [d]) == if d.None? || d.value.0 in Offered(ds) then Firsts(ds) else Firsts(ds) + [d.value]
  {
    var all := ds + [d];
    assert all[..|all| - 1] == ds && all[|ds|] == d;
    forall k | k in Offered(ds)
      ensures k in Offered(all)
    {
      var i :| 0 <= i < |ds| && ds[i].Some? && ds[i].value.0 == k;
      assert all[i].Some? && all[i].value.0 == k;
    }
    forall k | k in Offered(all)
      ensures k in Offered(ds) || (d.Some? && k == d.value.0)
    {
      var i :| 0 <= i < |all| && all[i].Some? && all[i].value.0 == k;
      if i < |ds| {
        assert ds[i].Some? && ds[i].value.0 == k;
      }
    }
  }

  /** As many firsts as keys offered. */
  lemma {:induction false} FirstsCount<K, V>(ds: seq<Option<(K, V)>>)
    ensures |Firsts(ds)| == |Offered(ds)|
  {
    if ds != [] {
      var init, d := ds[..|ds| - 1], ds[|ds| - 1];
      assert ds == init + [d];
      FirstsCount(init);
      OfferedNext(init, d);
      hide Offered;
      hide Firsts;
      if d.Some? && d.value.0 in Offered(init) {
        assert Offered(init) + {d.value.0} == Offered(init);
      }
    } else {
      assert Offered(ds) == {};
    }
  }

  /** Later draws only add firsts at the end. */
  lemma {:induction false} FirstsGrow<K, V>(tabs: Tabs<K, V>, rand: nat -> Hash, i: nat, n: nat)
    requires Sized(tabs) && i <= n
    ensures Firsts(Draws(tabs, rand, i)) <= Firsts(Draws(tabs, rand, n))
    decreases n - i
  {
    if i < n {
      FirstsGrow(tabs, rand, i, n - 1);
      var ds, d := Draws(tabs, rand, n - 1), DrawAt(tabs, rand, DrawsTo(tabs, rand, n - 1).1).0;
      assert Draws(tabs, rand, n) == ds + [d];
      hide DrawAt;
      hide DrawsTo;
      hide Draws;
      OfferedNext(ds, d);
    }
  }

  ghost function Taken<T>(s: seq<T>, n: nat): seq<T>
  {
    if n <= |s| then s[..n] else s
  }

  // ---- The sampler ----

  /** `tabs` are the slots of `t`'s tables. */
  ghost predicate Shows<K(0, !new), V(0)>(t: Map<K, V>, tabs: Tabs<K, V>)
    reads t, t.repr, t.shards
  {
    t.Tables() && |tabs| == |t.shards| && forall i :: 0 <= i < |tabs| ==> tabs[i] == t.shards[i].slots
  }

  ghost function Snapshot<K(0, !new), V(0)>(t: Map<K, V>): (tabs: Tabs<K, V>)
    requires t.Tables()
    reads t, t.repr, t.shards
    ensures Shows(t, tabs) && |tabs| == |t.shards|
  {
    seq(|t.shards|, (i: nat) requires i < |t.shards| reads t.shards => t.shards[i].slots)
  }

  lemma WholeSome<K(0, !new), V(0)>(t: Map<K, V>, m: map<K, V>)
    requires t.Valid(m)
    ensures |t.shards| > 0
  {
  }

  lemma ShowsAt<K(0, !new), V(0)>(t: Map<K, V>, tabs: Tabs<K, V>, x: nat)
    requires Shows(t, tabs) && x < |tabs|
    ensures t.Tables() && |t.maps| == |t.shards| == |tabs| && t.shards[x].slots == tabs[x] && t.shards[x].Valid()
    ensures t.shards[x].contents == t.maps[x] && t.shards[x].hash == t.hash
  {
    t.GoodAt(x);
  }

  lemma ShowsSized<K(0, !new), V(0)>(t: Map<K, V>, tabs: Tabs<K, V>)
    requires Shows(t, tabs) && |tabs| > 0
    ensures Sized(tabs)
  {
    forall i | 0 <= i < |tabs|
      ensures |tabs[i]| > 0
    {
      t.GoodAt(i);
      t.shards[i].Unfold();
    }
  }

  lemma EmptyTab<K(!new), V>(s: seq<Slot<K, V>>, c: map<K, V>, hash: K -> Hash)
    requires Holds(s, c, hash)
    ensures |c| == 0 <==> AllEmpty(s)
  {
    if |c| > 0 {
      var z := SomeFull(s, c, hash);
    }
    if !AllEmpty(s) {
      var i :| 0 <= i < |s| && s[i].Full?;
      assert Bound(s[i].e, c, hash);
      assert s[i].e.key in c.Keys;
    }
  }

  lemma DrawNothing<K, V>(tabs: Tabs<K, V>, rand: nat -> Hash, pos: nat)
    requires Sized(tabs) && AllEmpty(tabs[Home(rand(pos), |tabs|)])
    ensures DrawAt(tabs, rand, pos) == (None, pos + 1)
  {
  }

  lemma DrawSome<K, V>(tabs: Tabs<K, V>, rand: nat -> Hash, pos: nat, i: nat, next: nat)
    requires Sized(tabs)
    requires var s := tabs[Home(rand(pos), |tabs|)];
      !AllEmpty(s) && (i, next) == Drawn(s, rand, pos + 1) && i < |s| && s[i].Full?
    ensures var e := tabs[Home(rand(pos), |tabs|)][i].e; DrawAt(tabs, rand, pos) == (Some((e.key, e.val)), next)
  {
  }

  /** One draw: the shard the first random number names, and a resident of it. */
  method DrawOne<K(==, 0, !new), V(0)>(t: Map<K, V>, rand: nat -> Hash, pos: nat, ghost m: map<K, V>,
                                       ghost tabs: Tabs<K, V>)
    returns (d: Option<(K, V)>, next: nat)
    requires t.Valid(m) && Shows(t, tabs) && Sized(tabs)
    ensures (d, next) == DrawAt(tabs, rand, pos)
    ensures d.Some? ==> d.value.0 in m && m[d.value.0] == d.value.1
  {
    hide *;
    t.Parts(m);
    ShowsSome(t, tabs);
    var x := Home(rand(pos), |t.shards|);
    ShowsAt(t, tabs, x);
    var tab := t.shards[x];
    tab.Unfold();
    EmptyTab(tab.slots, tab.contents, tab.hash);
    if tab.count == 0 {
      DrawNothing(tabs, rand, pos);
      return None, pos + 1;
    }
    var i;
    i, next := SampleSlot(tab, rand, pos + 1);
    tab.Read(i, -1);
    HoldsAt(tab.slots, tab.contents, tab.hash, i);
    WholeShard(t.maps, t.hash, t.shift, m, x);
    DrawSome(tabs, rand, pos, i, next);
    d := Some((tab.keys[i], tab.vals[i]));
  }

  lemma ShowsSome<K(0, !new), V(0)>(t: Map<K, V>, tabs: Tabs<K, V>)
    requires Shows(t, tabs) && Sized(tabs)
    ensures |t.shards| == |tabs| > 0
  {
  }

  /** A sample of a list of draws in progress. */
  ghost predicate Sampled<K(!new), V>(out: seq<(K, V)>, seen: set<K>, ds: seq<Option<(K, V)>>, m: map<K, V>)
  {
    out == Firsts(ds) && seen == Offered(ds) && Visits(out, m, seen)
  }

  lemma SampledNext<K(!new), V>(out: seq<(K, V)>, seen: set<K>, ds: seq<Option<(K, V)>>, m: map<K, V>,
                                d: Option<(K, V)>)
    requires Sampled(out, seen, ds, m) && (d.Some? ==> d.value.0 in m && m[d.value.0] == d.value.1)
    ensures if d.None? || d.value.0 in seen then Sampled(out, seen, ds + [d], m)
            else Sampled(out + [d.value], seen + {d.value.0}, ds + [d], m)
  {
    hide Visits;
    OfferedNext(ds, d);
    hide Offered;
    hide Firsts;
    if d.Some? {
      if d.value.0 in seen {
        assert seen + {d.value.0} == seen;
      } else {
        VisitOne(out, m, seen, d.value.0);
        assert (d.value.0, m[d.value.0]) == d.value;
      }
    }
  }

  lemma SampledStarts<K(!new), V>(m: map<K, V>)
    ensures Sampled([], {}, [], m)
  {
    var ds: seq<Option<(K, V)>> := [];
    assert Offered(ds) == {};
  }

  lemma DrawsNext<K, V>(tabs: Tabs<K, V>, rand: nat -> Hash, n: nat)
    requires Sized(tabs)
    ensures Draws(tabs, rand, n + 1) == Draws(tabs, rand, n) + [DrawAt(tabs, rand, DrawsTo(tabs, rand, n).1).0]
    ensures DrawsTo(tabs, rand, n + 1).1 == DrawAt(tabs, rand, DrawsTo(tabs, rand, n).1).1
    ensures Draws(tabs, rand, 0) == [] && DrawsTo(tabs, rand, 0).1 == 0
  {
    hide DrawAt;
  }

  lemma SampledEnds<K(!new), V>(out: seq<(K, V)>, seen: set<K>, tabs: Tabs<K, V>, rand: nat -> Hash, i: nat,
                                m: map<K, V>, n: nat)
    requires Sized(tabs) && Sampled(out, seen, Draws(tabs, rand, i), m) && |out| <= n
    requires i <= DrawBudget(n) && (|out| < n ==> i == DrawBudget(n))
    ensures out == Taken(Firsts(Draws(tabs, rand, DrawBudget(n))), n) && Visited(out, m)
    ensures |out| < n <==> |Offered(Draws(tabs, rand, DrawBudget(n)))| < n
  {
    hide Firsts;
    hide Offered;
    hide Draws;
    hide DrawBudget;
    FirstsGrow(tabs, rand, i, DrawBudget(n));
    FirstsCount(Draws(tabs, rand, DrawBudget(n)));
  }

  /** Up to `n` distinct entries: the first `n` different ones that the budget's draws from this stream
      offer.  The sample is short exactly when those draws offer fewer than `n` keys. */
  method Sample<K(==, 0, !new), V(0)>(t: Map<K, V>, n: int, rand: nat -> Hash, ghost m: map<K, V>)
    returns (out: seq<(K, V)>)
    requires t.Valid(m)
    ensures n <= 0 ==> out == []
    ensures t.Tables() && Sized(Snapshot(t))
    ensures n > 0 ==>
      var tabs := Snapshot(t);
      && out == Taken(Firsts(Draws(tabs, rand, DrawBudget(n))), n) && Visited(out, m)
      && (|out| < n <==> |Offered(Draws(tabs, rand, DrawBudget(n)))| < n)
  {
    hide *;
    t.Parts(m);
    ghost var tabs := Snapshot(t);
    WholeSome(t, m);
    ShowsSized(t, tabs);
    out := [];
    if n <= 0 {
      return;
    }
    var seen: set<K>, budget, pos := {}, DrawBudget(n), 0;
    ghost var i := 0;
    SampledStarts(m);
    DrawsNext(tabs, rand, 0);
    while |out| < n && budget > 0
      invariant 0 <= budget && i + budget == DrawBudget(n) && |out| <= n
      invariant pos == DrawsTo(tabs, rand, i).1 && Sampled(out, seen, Draws(tabs, rand, i), m)
      decreases budget
    {
      DrawsNext(tabs, rand, i);
      var d;
      d, pos := DrawOne(t, rand, pos, m, tabs);
      SampledNext(out, seen, Draws(tabs, rand, i), m, d);
      if d.Some? && d.value.0 !in seen {
        seen := seen + {d.value.0};
        out := out + [d.value];
      }
      budget, i := budget - 1, i + 1;
    }
    SampledEnds(out, seen, tabs, rand, i, m, n);
  }

  // ---- Falling short ----

  lemma {:induction false} ProbedConstant<K, V>(s: seq<Slot<K, V>>, rand: nat -> Hash, p: nat, q: nat, t: nat)
    requires |s| > 0 && t <= SLOT_TRIES && forall i, j :: rand(i) == rand(j)
    ensures Probed(s, rand, p, t).0 == Probed(s, rand, q, t).0
    decreases SLOT_TRIES - t
  {
    assert rand(p + t) == rand(q + t);
    if t < SLOT_TRIES {
      ProbedConstant(s, rand, p, q, t + 1);
    }
  }

  lemma {:induction false} ConstantDraws<K, V>(tabs: Tabs<K, V>, rand: nat -> Hash, n: nat, i: nat)
    requires Sized(tabs) && i < n && forall i, j :: rand(i) == rand(j)
    ensures Draws(tabs, rand, n)[i] == DrawAt(tabs, rand, 0).0
    decreases n
  {
    hide DrawAt;
    hide DrawsTo;
    hide Draws;
    DrawsNext(tabs, rand, n - 1);
    if i < n - 1 {
      ConstantDraws(tabs, rand, n - 1, i);
    } else {
      ConstantDraw(tabs, rand, DrawsTo(tabs, rand, n - 1).1);
    }
  }

  lemma ConstantDraw<K, V>(tabs: Tabs<K, V>, rand: nat -> Hash, pos: nat)
    requires Sized(tabs) && forall i, j :: rand(i) == rand(j)
    ensures DrawAt(tabs, rand, pos).0 == DrawAt(tabs, rand, 0).0
  {
    hide Probed;
    assert rand(pos) == rand(0);
    ProbedConstant(tabs[Home(rand(0), |tabs|)], rand, pos + 1, 1, 0);
  }

  /** However many entries the tables hold, a random stream that keeps giving one number yields a
      sample of at most one of them. */
  lemma SampleMayFallShort<K(!new), V>(tabs: Tabs<K, V>, rand: nat -> Hash, n: nat)
    requires Sized(tabs) && forall i, j :: rand(i) == rand(j)
    ensures |Offered(Draws(tabs, rand, DrawBudget(n)))| <= 1
  {
    var ds, d := Draws(tabs, rand, DrawBudget(n)), DrawAt(tabs, rand, 0).0;
    forall i | 0 <= i < |ds|
      ensures ds[i] == d
    {
      ConstantDraws(tabs, rand, DrawBudget(n), i);
    }
    hide Draws;
    hide DrawAt;
    var one: set<K> := if d.Some? then {d.value.0} else {};
    assert Offered(ds) <= one;
    SubsetSize(Offered(ds), one);
  }

  // ---- Which lists a sample can be ----

  /** Every shard and every slot can be named by a random number. */
  ghost predicate Addressable<K, V>(tabs: Tabs<K, V>)
  {
    && Sized(tabs) && |tabs| <= 0x1_0000_0000_0000_0000
    && (forall i :: 0 <= i < |tabs| ==> |tabs[i]| <= 0x1_0000_0000_0000_0000)
  }

  ghost predicate SomeEmptyTab<K, V>(tabs: Tabs<K, V>)
  {
    exists x :: 0 <= x < |tabs| && AllEmpty(tabs[x])
  }

  ghost predicate SlotHolds<K, V>(tabs: Tabs<K, V>, x: nat, i: nat, p: (K, V))
  {
    x < |tabs| && i < |tabs[x]| && tabs[x][i].Full? && p == (tabs[x][i].e.key, tabs[x][i].e.val)
  }

  /** Some slot holds this entry. */
  ghost predicate Resident<K, V>(tabs: Tabs<K, V>, p: (K, V))
  {
    exists x, i :: SlotHolds(tabs, x, i, p)
  }

  ghost predicate Distinct<K(!new), V>(v: seq<(K, V)>)
  {
    forall i, j :: 0 <= i < j < |v| ==> v[i].0 != v[j].0
  }

  /** What a sample of at most `n` can be: distinct stored entries, and some entry unless a shard is empty. */
  ghost predicate Possible<K(!new), V>(tabs: Tabs<K, V>, n: nat, v: seq<(K, V)>)
  {
    && |v| <= n && Distinct(v) && (forall i :: 0 <= i < |v| ==> Resident(tabs, v[i]))
    && (v == [] ==> SomeEmptyTab(tabs))
  }

  /** The sample of `n` that the stream determines. */
  ghost function SampleOf<K, V>(tabs: Tabs<K, V>, rand: nat -> Hash, n: nat): seq<(K, V)>
    requires Sized(tabs)
  {
    Taken(Firsts(Draws(tabs, rand, DrawBudget(n))), n)
  }

  lemma DrawResident<K, V>(tabs: Tabs<K, V>, rand: nat -> Hash, pos: nat)
    requires Sized(tabs)
    ensures var d := DrawAt(tabs, rand, pos).0; d.Some? ==> Resident(tabs, d.value)
  {
    var x := Home(rand(pos), |tabs|);
    hide Home;
    hide Drawn;
    if DrawAt(tabs, rand, pos).0.Some? {
      assert SlotHolds(tabs, x, Drawn(tabs[x], rand, pos + 1).0, DrawAt(tabs, rand, pos).0.value);
    }
  }

  lemma {:induction false} FirstsResident<K(!new), V>(tabs: Tabs<K, V>, rand: nat -> Hash, n: nat)
    requires Sized(tabs)
    ensures var v := Firsts(Draws(tabs, rand, n));
      && Distinct(v) && (forall i :: 0 <= i < |v| ==> Resident(tabs, v[i]))
      && (forall i :: 0 <= i < |v| ==> v[i].0 in Offered(Draws(tabs, rand, n)))
  {
    hide DrawAt;
    hide DrawsTo;
    hide Draws;
    hide Resident;
    DrawsNext(tabs, rand, if n > 0 then n - 1 else 0);
    if n > 0 {
      FirstsResident(tabs, rand, n - 1);
      DrawResident(tabs, rand, DrawsTo(tabs, rand, n - 1).1);
      OfferedNext(Draws(tabs, rand, n - 1), DrawAt(tabs, rand, DrawsTo(tabs, rand, n - 1).1).0);
      hide Offered;
      hide Firsts;
    }
  }

  /** With no empty shard, the first draw already offers an entry. */
  lemma FirstDrawOffers<K(!new), V>(tabs: Tabs<K, V>, rand: nat -> Hash, n: nat)
    requires Sized(tabs) && !SomeEmptyTab(tabs) && n > 0
    ensures |Firsts(Draws(tabs, rand, n))| > 0
  {
    FirstsGrow(tabs, rand, 1, n);
    DrawsNext(tabs, rand, 0);
    var x := Home(rand(0), |tabs|);
    assert !AllEmpty(tabs[x]);
    var z :| 0 <= z < |tabs[x]| && tabs[x][z].Full?;
    ProbedFull(tabs[x], rand, 1, 0, z);
    hide Probed;
    var d := DrawAt(tabs, rand, 0).0;
    assert d.Some?;
    hide DrawAt;
    OfferedNext([], d);
    assert [] + [d] == [d];
  }

  // ---- A stream for every list ----

  /** Random numbers that name these slots one after another, and the last one for ever. */
  function Stream(at: seq<(Hash, Hash)>): nat -> Hash
    requires |at| > 0
  {
    (p: nat) => var j := Last(|at|, p / 2); if p % 2 == 0 then at[j].0 else at[j].1
  }

  function Last(n: nat, j: nat): (i: nat)
    requires n > 0
    ensures i < n
  {
    if j < n then j else n - 1
  }

  lemma StreamAt(at: seq<(Hash, Hash)>, j: nat)
    requires |at| > 0
    ensures Stream(at)(2 * j) == at[Last(|at|, j)].0 && Stream(at)(2 * j + 1) == at[Last(|at|, j)].1
  {
    assert 2 * j / 2 == j && (2 * j + 1) / 2 == j && 2 * j % 2 == 0 && (2 * j + 1) % 2 == 1;
  }

  lemma DrawNamed<K, V>(tabs: Tabs<K, V>, rand: nat -> Hash, pos: nat, p: (K, V))
    requires Sized(tabs) && SlotHolds(tabs, rand(pos), rand(pos + 1), p)
    ensures DrawAt(tabs, rand, pos) == (Some(p), pos + 2)
  {
    hide Home;
    var x, i := rand(pos), rand(pos + 1);
    HomeSmall(x, |tabs|);
    HomeSmall(i, |tabs[x]|);
    assert Drawn(tabs[x], rand, pos + 1) == (i, pos + 2);
    hide Drawn;
  }

  lemma {:induction false} StreamDraws<K, V>(tabs: Tabs<K, V>, at: seq<(Hash, Hash)>, v: seq<(K, V)>, n: nat)
    requires Sized(tabs) && |at| == |v| > 0 && forall i :: 0 <= i < |v| ==> SlotHolds(tabs, at[i].0, at[i].1, v[i])
    ensures DrawsTo(tabs, Stream(at), n).1 == 2 * n
    ensures forall j :: 0 <= j < n ==> Draws(tabs, Stream(at), n)[j] == Some(v[Last(|v|, j)])
  {
    hide DrawAt;
    hide DrawsTo;
    hide Draws;
    hide Stream;
    hide SlotHolds;
    if n == 0 {
      DrawsNext(tabs, Stream(at), 0);
    } else {
      StreamDraws(tabs, at, v, n - 1);
      DrawsNext(tabs, Stream(at), n - 1);
      StreamAt(at, n - 1);
      DrawNamed(tabs, Stream(at), 2 * (n - 1), v[Last(|v|, n - 1)]);
    }
  }

  /** Drawing through a list of distinct entries and then its last one again and again. */
  lemma {:induction false} FirstsOfRepeats<K(!new), V>(ds: seq<Option<(K, V)>>, v: seq<(K, V)>)
    requires |v| > 0 && Distinct(v) && forall j :: 0 <= j < |ds| ==> ds[j] == Some(v[Last(|v|, j)])
    ensures Firsts(ds) == Taken(v, |ds|)
    ensures forall k :: k in Offered(ds) <==> exists i :: 0 <= i < |v| && i < |ds| && v[i].0 == k
  {
    if ds != [] {
      var n := |ds| - 1;
      FirstsOfRepeats(ds[..n], v);
      assert ds == ds[..n] + [ds[n]];
      OfferedNext(ds[..n], ds[n]);
      hide Offered;
      hide Firsts;
      var k := v[Last(|v|, n)].0;
      assert k in Offered(ds[..n]) <==> n >= |v|;
      if n < |v| {
        assert v[..n + 1] == v[..n] + [v[n]];
      }
      forall l
        ensures l in Offered(ds) <==> exists i :: 0 <= i < |v| && i < |ds| && v[i].0 == l
      {
        if l in Offered(ds) && l !in Offered(ds[..n]) {
          assert v[Last(|v|, n)].0 == l;
        }
      }
    }
  }

  lemma {:induction false} Places<K(!new), V>(tabs: Tabs<K, V>, v: seq<(K, V)>) returns (at: seq<(Hash, Hash)>)
    requires Addressable(tabs) && forall i :: 0 <= i < |v| ==> Resident(tabs, v[i])
    ensures |at| == |v| && forall i :: 0 <= i < |v| ==> SlotHolds(tabs, at[i].0, at[i].1, v[i])
  {
    if v == [] {
      at := [];
    } else {
      var n := |v| - 1;
      at := Places(tabs, v[..n]);
      assert Resident(tabs, v[n]);
      var x, i :| SlotHolds(tabs, x, i, v[n]);
      assert x < 0x1_0000_0000_0000_0000 && i < 0x1_0000_0000_0000_0000;
      at := at + [(x as Hash, i as Hash)];
    }
  }

  lemma EmptyStream<K(!new), V>(tabs: Tabs<K, V>, n: nat) returns (rand: nat -> Hash)
    requires Addressable(tabs) && SomeEmptyTab(tabs)
    ensures Firsts(Draws(tabs, rand, n)) == [] && Offered(Draws(tabs, rand, n)) == {}
  {
    hide Home;
    hide Draws;
    hide Firsts;
    hide Offered;
    var x :| 0 <= x < |tabs| && AllEmpty(tabs[x]);
    var h: Hash := x;
    rand := _ => h;
    HomeSmall(h, |tabs|);
    NothingDrawn(tabs, rand, n);
  }

  lemma {:induction false} NothingDrawn<K(!new), V>(tabs: Tabs<K, V>, rand: nat -> Hash, n: nat)
    requires Sized(tabs) && (forall i, j :: rand(i) == rand(j)) && AllEmpty(tabs[Home(rand(0), |tabs|)])
    ensures Firsts(Draws(tabs, rand, n)) == [] && Offered(Draws(tabs, rand, n)) == {}
  {
    DrawsNext(tabs, rand, if n > 0 then n - 1 else 0);
    if n > 0 {
      NothingDrawn(tabs, rand, n - 1);
      var pos := DrawsTo(tabs, rand, n - 1).1;
      assert rand(pos) == rand(0);
      DrawNothing(tabs, rand, pos);
      OfferedNext(Draws(tabs, rand, n - 1), None);
    }
  }

  /** The lists a sample can be, over all random streams, are exactly the possible ones. */
  lemma SampleIff<K(!new), V>(tabs: Tabs<K, V>, n: nat, v: seq<(K, V)>)
    requires Addressable(tabs) && n > 0
    ensures (exists rand :: SampleOf(tabs, rand, n) == v) <==> Possible(tabs, n, v)
  {
    if rand :| SampleOf(tabs, rand, n) == v {
      SamplePossible(tabs, rand, n);
    }
    if Possible(tabs, n, v) {
      var rand := StreamFor(tabs, n, v);
    }
  }

  lemma SamplePossible<K(!new), V>(tabs: Tabs<K, V>, rand: nat -> Hash, n: nat)
    requires Sized(tabs) && n > 0
    ensures Possible(tabs, n, SampleOf(tabs, rand, n))
  {
    hide Firsts;
    hide Draws;
    hide Resident;
    FirstsResident(tabs, rand, DrawBudget(n));
    if !SomeEmptyTab(tabs) {
      FirstDrawOffers(tabs, rand, DrawBudget(n));
    }
  }

  lemma StreamFor<K(!new), V>(tabs: Tabs<K, V>, n: nat, v: seq<(K, V)>) returns (rand: nat -> Hash)
    requires Addressable(tabs) && n > 0 && Possible(tabs, n, v)
    ensures SampleOf(tabs, rand, n) == v
  {
    hide Firsts;
    hide Draws;
    hide Offered;
    if v == [] {
      rand := EmptyStream(tabs, DrawBudget(n));
    } else {
      var at := Places(tabs, v);
      rand := Stream(at);
      StreamDraws(tabs, at, v, DrawBudget(n));
      FirstsOfRepeats(Draws(tabs, rand, DrawBudget(n)), v);
    }
  }

  /** A sample of `n` is short only when fewer than `n` are stored, whatever the random stream, if and only
      if fewer than `n` are stored anyway, or one is asked for and no shard is empty.  `stored` is any
      count; that of the map is the one meant. */
  lemma SamplePromiseIff<K(!new), V>(tabs: Tabs<K, V>, n: nat, stored: nat)
    requires Addressable(tabs) && n > 0
    ensures (forall rand :: |SampleOf(tabs, rand, n)| < n ==> stored < n)
       <==> stored < n || (n == 1 && !SomeEmptyTab(tabs))
  {
    if stored >= n {
      if n == 1 && !SomeEmptyTab(tabs) {
        forall rand: nat -> Hash
          ensures |SampleOf(tabs, rand, n)| >= n
        {
          SamplePossible(tabs, rand, n);
          assert SampleOf(tabs, rand, n) != [];
        }
      } else {
        var v := ShortSample(tabs, n);
        var rand := StreamFor(tabs, n, v);
        assert |SampleOf(tabs, rand, n)| < n;
      }
    }
  }

  lemma ShortSample<K(!new), V>(tabs: Tabs<K, V>, n: nat) returns (v: seq<(K, V)>)
    requires Sized(tabs) && (n > 1 || (n == 1 && SomeEmptyTab(tabs)))
    ensures Possible(tabs, n, v) && |v| < n
  {
    v := [];
    if !SomeEmptyTab(tabs) {
      assert !AllEmpty(tabs[0]);
      var i :| 0 <= i < |tabs[0]| && tabs[0][i].Full?;
      var p := (tabs[0][i].e.key, tabs[0][i].e.val);
      assert SlotHolds(tabs, 0, i, p);
      v := [p];
    }
  }
}
