/** The slot layout of a Robin Hood table, as a value: which sequences of slots are
    well formed, what a probe may conclude from them, and which sets of keys fit a
    capacity at all. */
module RobinHoodLayout {
  import opened Finite
  import opened Ring

  /** The largest displacement the metadata word can hold. */
  const MAX_DIB: nat := 254

  datatype Entry<K, V> = Entry(hash: Hash, key: K, val: V)

  /** One slot; `dib` is the displacement recorded in the metadata word. */
  datatype Slot<K, V> = Empty | Full(e: Entry<K, V>, dib: nat)

  // ---- What a table holds ----

  /** `s` stores exactly the bindings of `m`, one slot per key, each with its key's hash. */
  ghost predicate Holds<K(!new), V>(s: seq<Slot<K, V>>, m: map<K, V>, hash: K -> Hash)
  {
    && (forall i :: 0 <= i < |s| && s[i].Full? ==> Bound(s[i].e, m, hash))
    && (forall i, j :: 0 <= i < j < |s| && s[i].Full? && s[j].Full? ==> s[i].e.key != s[j].e.key)
    && (forall k :: k in m ==> At(s, k))
  }

  ghost predicate Bound<K(!new), V>(e: Entry<K, V>, m: map<K, V>, hash: K -> Hash)
  {
    e.key in m && e.val == m[e.key] && e.hash == hash(e.key)
  }

  ghost predicate At<K(!new), V>(s: seq<Slot<K, V>>, k: K)
  {
    exists i :: 0 <= i < |s| && s[i].Full? && s[i].e.key == k
  }

  ghost function Blank<K, V>(n: nat): (s: seq<Slot<K, V>>)
    ensures |s| == n && forall i :: 0 <= i < n ==> s[i].Empty?
  {
    if n == 0 then [] else Blank(n - 1) + [Empty]
  }

  lemma EmptyTable<K(!new), V>(s: seq<Slot<K, V>>, hash: K -> Hash)
    requires forall i :: 0 <= i < |s| ==> s[i].Empty?
    ensures Holds(s, map[], hash) && Layout(s)
  {
  }

  lemma HoldsAt<K(!new), V>(s: seq<Slot<K, V>>, m: map<K, V>, hash: K -> Hash, i: nat)
    requires Holds(s, m, hash) && i < |s| && s[i].Full?
    ensures s[i].e.key in m && s[i].e.val == m[s[i].e.key] && s[i].e.hash == hash(s[i].e.key)
  {
    assert Bound(s[i].e, m, hash);
  }

  /** Filling an empty slot with a new key. */
  lemma HoldsPlace<K(!new), V>(s: seq<Slot<K, V>>, m: map<K, V>, hash: K -> Hash, i: nat, e: Entry<K, V>, d: nat)
    requires Holds(s, m, hash) && i < |s| && s[i].Empty? && e.key !in m && e.hash == hash(e.key)
    ensures Holds(s[i := Full(e, d)], m[e.key := e.val], hash)
  {
    var t, m' := s[i := Full(e, d)], m[e.key := e.val];
    forall k | k in m' ensures At(t, k) {
      if k == e.key {
        assert t[i].e.key == k;
      } else {
        var j :| 0 <= j < |s| && s[j].Full? && s[j].e.key == k;
        assert t[j] == s[j];
      }
    }
  }

  /** Emptying the slot of one key. */
  lemma HoldsVacate<K(!new), V>(s: seq<Slot<K, V>>, m: map<K, V>, hash: K -> Hash, i: nat)
    requires Holds(s, m, hash) && i < |s| && s[i].Full?
    ensures Holds(s[i := Empty], m - {s[i].e.key}, hash)
  {
    var t, m' := s[i := Empty], m - {s[i].e.key};
    forall k | k in m' ensures At(t, k) {
      var j :| 0 <= j < |s| && s[j].Full? && s[j].e.key == k;
      assert t[j] == s[j];
    }
  }

  /** Exchanging the entry of slot `i` for a new one. */
  lemma HoldsRob<K(!new), V>(s: seq<Slot<K, V>>, m: map<K, V>, hash: K -> Hash, i: nat, e: Entry<K, V>, d: nat)
    requires Holds(s, m, hash) && i < |s| && s[i].Full?
    requires (e.key !in m || e.key == s[i].e.key) && e.hash == hash(e.key)
    ensures Holds(s[i := Full(e, d)], (m - {s[i].e.key})[e.key := e.val], hash)
  {
    HoldsVacate(s, m, hash, i);
    HoldsPlace(s[i := Empty], m - {s[i].e.key}, hash, i, e, d);
    assert s[i := Empty][i := Full(e, d)] == s[i := Full(e, d)];
  }

  // ---- Keys by home ----

  /** Is `h`'s home one of the `len` slots that start at `a`? */
  predicate InWindow(h: nat, a: nat, len: nat, cap: nat)
    requires a < cap
  {
    Dist(a, Home(h, cap), cap) < len
  }

  /** The keys whose home lies in the window. */
  ghost function KeysIn<K>(ks: set<K>, hash: K -> Hash, a: nat, len: nat, cap: nat): set<K>
    requires a < cap
  {
    set k | k in ks && InWindow(hash(k), a, len, cap)
  }

  /** The slots whose resident's home lies in the window. */
  ghost function SlotsIn<K, V>(s: seq<Slot<K, V>>, a: nat, len: nat): set<nat>
    requires a < |s|
  {
    set i | 0 <= i < |s| && s[i].Full? && InWindow(s[i].e.hash, a, len, |s|)
  }

  lemma {:induction false} Matched<A, B>(f: map<A, B>)
    requires forall x, y :: x in f && y in f && x != y ==> f[x] != f[y]
    ensures |f.Keys| == |f.Values|
  {
    if f.Keys == {} {
      assert f.Values == {};
    } else {
      var x :| x in f;
      var g := f - {x};
      Matched(g);
      assert f.Keys == g.Keys + {x};
      assert f.Values == g.Values + {f[x]};
    }
  }

  lemma SlotsInCount<K(!new), V>(s: seq<Slot<K, V>>, m: map<K, V>, hash: K -> Hash, a: nat, len: nat)
    requires Holds(s, m, hash) && a < |s|
    ensures |SlotsIn(s, a, len)| == |KeysIn(m.Keys, hash, a, len, |s|)|
  {
    hide InWindow;
    var f := map i | i in SlotsIn(s, a, len) :: s[i].e.key;
    assert f.Keys == SlotsIn(s, a, len);
    forall k | k in KeysIn(m.Keys, hash, a, len, |s|) ensures k in f.Values {
      assert At(s, k);
      var i :| 0 <= i < |s| && s[i].Full? && s[i].e.key == k;
      assert Bound(s[i].e, m, hash);
      assert i in f && f[i] == k;
    }
    forall k | k in f.Values ensures k in KeysIn(m.Keys, hash, a, len, |s|) {
      var i :| i in f && f[i] == k;
      assert Bound(s[i].e, m, hash);
    }
    assert f.Values == KeysIn(m.Keys, hash, a, len, |s|);
    Matched(f);
  }

  /** A table that holds fewer keys than it has slots has an empty slot. */
  lemma SomeEmpty<K(!new), V>(s: seq<Slot<K, V>>, m: map<K, V>, hash: K -> Hash) returns (z: nat)
    requires Holds(s, m, hash) && |m| < |s|
    ensures z < |s| && s[z].Empty?
  {
    SlotsInCount(s, m, hash, 0, |s|);
    ArcSize(0, |s|, |s|);
    SubsetSize(KeysIn(m.Keys, hash, 0, |s|, |s|), m.Keys);
    if forall i :: 0 <= i < |s| ==> s[i].Full? {
      forall i | i in Arc(0, |s|, |s|) ensures i in SlotsIn(s, 0, |s|) {
        assert s[i].Full?;
      }
      SubsetSize(Arc(0, |s|, |s|), SlotsIn(s, 0, |s|));
    }
    z :| 0 <= z < |s| && s[z].Empty?;
  }

  // ---- Layout ----

  /** The Robin Hood invariant, slot by slot: a filled slot records its true distance
      from home, which fits the metadata word, and a displaced entry follows a filled
      slot displaced by at most one less. */
  ghost predicate Layout<K, V>(s: seq<Slot<K, V>>)
  {
    forall i :: 0 <= i < |s| ==> SlotOk(s, i)
  }

  ghost predicate SlotOk<K, V>(s: seq<Slot<K, V>>, i: nat)
    requires i < |s|
  {
    s[i].Full? ==> Placed(s, i) && Chained(s, i)
  }

  ghost predicate Placed<K, V>(s: seq<Slot<K, V>>, i: nat)
    requires i < |s| && s[i].Full?
  {
    s[i].dib == Dist(Home(s[i].e.hash, |s|), i, |s|) <= MAX_DIB
  }

  ghost predicate Chained<K, V>(s: seq<Slot<K, V>>, i: nat)
    requires i < |s| && s[i].Full?
  {
    s[i].dib > 0 ==> var p := Back(i, 1, |s|); s[p].Full? && s[p].dib >= s[i].dib - 1
  }

  /** Walking back from a displaced entry toward its home never meets an empty slot, nor
      a resident closer to its own home than the probe is. */
  lemma {:induction false} Chain<K, V>(s: seq<Slot<K, V>>, i: nat, k: nat)
    requires Layout(s) && i < |s| && s[i].Full? && k <= s[i].dib
    ensures k <= |s|
    ensures var j := Back(i, k, |s|); s[j].Full? && s[j].dib >= s[i].dib - k
    decreases k
  {
    hide Home;
    assert SlotOk(s, i);
    if k > 0 {
      var p := Back(i, 1, |s|);
      assert s[p].Full?;
      Chain(s, p, k - 1);
      assert Back(p, k - 1, |s|) == Back(i, k, |s|);
    }
  }

  /** The early exit is sound: had `k` been at slot `i`, a probe from its home would find
      every slot before `i` filled and no closer to home than the probe. */
  lemma ProbeReaches<K, V>(s: seq<Slot<K, V>>, i: nat, d: nat)
    requires Layout(s) && i < |s| && s[i].Full? && d <= s[i].dib
    ensures d < |s|
    ensures exists j :: 0 <= j < |s| && Dist(Home(s[i].e.hash, |s|), j, |s|) == d && s[j].Full? && s[j].dib >= d
  {
    assert SlotOk(s, i);
    var k := s[i].dib - d;
    Chain(s, i, k);
    var j := Back(i, k, |s|);
    assert Dist(Home(s[i].e.hash, |s|), j, |s|) == d;
  }

  /** Seen from an empty slot `z` the ring is a line: no entry's chain crosses `z`. */
  lemma NoCrossing<K, V>(s: seq<Slot<K, V>>, z: nat, i: nat)
    requires Layout(s) && z < |s| && s[z].Empty? && i < |s| && s[i].Full?
    ensures s[i].dib < Dist(z, i, |s|)
    ensures Dist(z, Home(s[i].e.hash, |s|), |s|) == Dist(z, i, |s|) - s[i].dib
  {
    assert SlotOk(s, i);
    if s[i].dib >= Dist(z, i, |s|) {
      Chain(s, i, Dist(z, i, |s|));
      assert false;
    }
  }

  /** Along that line, homes never decrease. */
  lemma {:induction false} HomesSorted<K, V>(s: seq<Slot<K, V>>, z: nat, i: nat, j: nat)
    requires Layout(s) && z < |s| && s[z].Empty?
    requires i < |s| && s[i].Full? && j < |s| && s[j].Full?
    requires Dist(z, i, |s|) <= Dist(z, j, |s|)
    ensures Dist(z, i, |s|) - s[i].dib <= Dist(z, j, |s|) - s[j].dib
    decreases Dist(z, j, |s|)
  {
    assert SlotOk(s, j);
    NoCrossing(s, z, j);
    if i != j && s[j].dib > 0 {
      var p := Back(j, 1, |s|);
      assert Dist(z, p, |s|) == Dist(z, j, |s|) - 1;
      HomesSorted(s, z, i, p);
    }
  }

  /** The first slot of the run that holds slot `i`: at home, with every slot up to `i` filled. */
  lemma {:induction false} RunStart<K, V>(s: seq<Slot<K, V>>, z: nat, i: nat) returns (a: nat)
    requires Layout(s) && z < |s| && s[z].Empty? && i < |s| && s[i].Full?
    ensures a < |s| && s[a].Full? && s[a].dib == 0
    ensures Dist(z, a, |s|) <= Dist(z, i, |s|)
    ensures forall j :: 0 <= j < |s| && Dist(z, a, |s|) <= Dist(z, j, |s|) <= Dist(z, i, |s|) ==> s[j].Full?
    decreases Dist(z, i, |s|)
  {
    assert SlotOk(s, i);
    if s[i].dib == 0 {
      a := i;
    } else {
      NoCrossing(s, z, i);
      var p := Back(i, 1, |s|);
      assert Dist(z, p, |s|) == Dist(z, i, |s|) - 1;
      a := RunStart(s, z, p);
    }
  }

  // ---- When a set of keys fits a capacity ----

  /** No window of homes is asked for by more keys than its own slots plus the
      displacement the metadata can record. */
  ghost predicate Fits<K>(ks: set<K>, hash: K -> Hash, cap: nat)
  {
    forall a, len :: 0 <= a < cap && 1 <= len <= cap ==> |KeysIn(ks, hash, a, len, cap)| <= len + MAX_DIB
  }

  /** A well-formed table is a witness that its own keys fit. */
  lemma LayoutFits<K(!new), V>(s: seq<Slot<K, V>>, m: map<K, V>, hash: K -> Hash)
    requires Layout(s) && Holds(s, m, hash)
    ensures Fits(m.Keys, hash, |s|)
  {
    hide Home;
    var cap := |s|;
    forall a, len | 0 <= a < cap && 1 <= len <= cap
      ensures |KeysIn(m.Keys, hash, a, len, cap)| <= len + MAX_DIB
    {
      SlotsInCount(s, m, hash, a, len);
      var n := if len + MAX_DIB <= cap then len + MAX_DIB else cap;
      ArcSize(a, n, cap);
      forall i | i in SlotsIn(s, a, len) ensures i in Arc(a, n, cap) {
        assert SlotOk(s, i);
      }
      SubsetSize(SlotsIn(s, a, len), Arc(a, n, cap));
    }
  }

  lemma FitsSubset<K>(ks: set<K>, ls: set<K>, hash: K -> Hash, cap: nat)
    requires ks <= ls && Fits(ls, hash, cap)
    ensures Fits(ks, hash, cap)
  {
    hide InWindow;
    forall a, len | 0 <= a < cap && 1 <= len <= cap ensures |KeysIn(ks, hash, a, len, cap)| <= len + MAX_DIB {
      SubsetSize(KeysIn(ks, hash, a, len, cap), KeysIn(ls, hash, a, len, cap));
    }
  }

  lemma WindowDouble(h: nat, a: nat, len: nat, cap: nat)
    requires a < 2 * cap && InWindow(h, a, len, 2 * cap)
    ensures InWindow(h, if a < cap then a else a - cap, if len <= cap then len else cap, cap)
  {
    HomeDouble(h, cap);
    hide Home;
  }

  /** Doubling the table never makes keys that fit stop fitting. */
  lemma FitsDouble<K>(ks: set<K>, hash: K -> Hash, cap: nat)
    requires Fits(ks, hash, cap)
    ensures Fits(ks, hash, 2 * cap)
  {
    hide InWindow;
    forall a, len | 0 <= a < 2 * cap && 1 <= len <= 2 * cap
      ensures |KeysIn(ks, hash, a, len, 2 * cap)| <= len + MAX_DIB
    {
      var a' := if a < cap then a else a - cap;
      var len' := if len <= cap then len else cap;
      forall k | k in KeysIn(ks, hash, a, len, 2 * cap) ensures k in KeysIn(ks, hash, a', len', cap) {
        WindowDouble(hash(k), a, len, cap);
      }
      SubsetSize(KeysIn(ks, hash, a, len, 2 * cap), KeysIn(ks, hash, a', len', cap));
    }
  }

  lemma {:induction false} FitsLarger<K>(ks: set<K>, hash: K -> Hash, cap: nat, cap': nat)
    requires IsPow2(cap) && IsPow2(cap') && cap <= cap' && Fits(ks, hash, cap)
    ensures Fits(ks, hash, cap')
    decreases cap' - cap
  {
    if cap < cap' {
      Pow2Double(cap, cap');
      FitsDouble(ks, hash, cap);
      FitsLarger(ks, hash, 2 * cap, cap');
    }
  }

  // ---- Probing ----

  /** A probe for `h` has reached slot `i`, `d` steps from home, without meeting the empty
      slot `z`: every slot it passed is filled and at least as displaced as the probe was. */
  ghost predicate Probe<K, V>(s: seq<Slot<K, V>>, z: nat, h: Hash, i: nat, d: nat)
  {
    && z < |s| && s[z].Empty? && i < |s|
    && Dist(Home(h, |s|), i, |s|) == d
    && Dist(Home(h, |s|), z, |s|) == d + Dist(i, z, |s|)
    && (forall j :: 0 <= j < |s| && Dist(Home(h, |s|), j, |s|) < d
          ==> s[j].Full? && s[j].dib >= Dist(Home(h, |s|), j, |s|))
  }

  ghost predicate NoMatch<K, V>(s: seq<Slot<K, V>>, h: Hash, k: K, d: nat)
    requires |s| > 0
  {
    forall j :: 0 <= j < |s| && Dist(Home(h, |s|), j, |s|) < d && s[j].Full? ==> s[j].e.key != k
  }

  lemma ProbePast<K, V>(s: seq<Slot<K, V>>, z: nat, h: Hash, i: nat, d: nat)
    requires Probe(s, z, h, i, d) && s[i].Full? && s[i].dib >= d
    ensures Probe(s, z, h, Next(i, |s|), d + 1)
    ensures Dist(Next(i, |s|), z, |s|) == Dist(i, z, |s|) - 1
  {
    forall j | 0 <= j < |s| && Dist(Home(h, |s|), j, |s|) < d + 1
      ensures s[j].Full? && s[j].dib >= Dist(Home(h, |s|), j, |s|)
    {
      if Dist(Home(h, |s|), j, |s|) == d {
        assert j == i;
      }
    }
  }

  /** Robbing: the probing entry takes slot `i` and its resident is carried on. */
  lemma ProbeRob<K, V>(s: seq<Slot<K, V>>, z: nat, e: Entry<K, V>, i: nat, d: nat)
    requires Layout(s) && Probe(s, z, e.hash, i, d) && s[i].Full? && s[i].dib < d <= MAX_DIB
    ensures Layout(s[i := Full(e, d)])
    ensures Probe(s[i := Full(e, d)], z, s[i].e.hash, Next(i, |s|), s[i].dib + 1)
    ensures Dist(Next(i, |s|), z, |s|) == Dist(i, z, |s|) - 1
  {
    PlaceKeepsLayout(s, z, e, i, d);
    NoCrossing(s, z, i);
    hide Home;
    hide Layout;
    var t := s[i := Full(e, d)];
    var home := Home(s[i].e.hash, |s|);
    forall j | 0 <= j < |s| && Dist(home, j, |s|) < s[i].dib + 1
      ensures t[j].Full? && t[j].dib >= Dist(home, j, |s|)
    {
      if j != i {
        ResidentTrail(s, i, j);
      }
    }
    assert Dist(home, i, |s|) == s[i].dib by { HomeOf(s, i); }
  }

  lemma HomeOf<K, V>(s: seq<Slot<K, V>>, i: nat)
    requires Layout(s) && i < |s| && s[i].Full?
    ensures Dist(Home(s[i].e.hash, |s|), i, |s|) == s[i].dib <= MAX_DIB
  {
    assert SlotOk(s, i);
  }

  /** The slots between a resident's home and itself are filled, none richer than the resident was there. */
  lemma ResidentTrail<K, V>(s: seq<Slot<K, V>>, i: nat, j: nat)
    requires Layout(s) && i < |s| && s[i].Full? && j < |s|
    requires Dist(Home(s[i].e.hash, |s|), j, |s|) <= s[i].dib
    ensures s[j].Full? && s[j].dib >= Dist(Home(s[i].e.hash, |s|), j, |s|)
  {
    HomeOf(s, i);
    hide Home;
    hide Layout;
    var k := s[i].dib - Dist(Home(s[i].e.hash, |s|), j, |s|);
    Chain(s, i, k);
    assert j == Back(i, k, |s|);
  }

  lemma PlaceKeepsLayout<K, V>(s: seq<Slot<K, V>>, z: nat, e: Entry<K, V>, i: nat, d: nat)
    requires Layout(s) && Probe(s, z, e.hash, i, d) && d <= MAX_DIB
    requires s[i].Empty? || s[i].dib < d
    ensures Layout(s[i := Full(e, d)])
  {
    var t := s[i := Full(e, d)];
    forall j | 0 <= j < |t| ensures SlotOk(t, j) {
      assert SlotOk(s, j);
      var p := Back(j, 1, |s|);
      if j == i {
        assert d > 0 ==> Dist(Home(e.hash, |s|), p, |s|) == d - 1;
      }
    }
  }

  /** The early exit never misses: a probe that meets an empty slot, a resident closer to
      home than itself, or the end of the displacement range proves the key absent. */
  lemma ProbeAbsent<K(!new), V>(s: seq<Slot<K, V>>, m: map<K, V>, hash: K -> Hash, z: nat, k: K, i: nat, d: nat)
    requires Layout(s) && Holds(s, m, hash) && Probe(s, z, hash(k), i, d) && NoMatch(s, hash(k), k, d)
    requires s[i].Empty? || s[i].dib < d || d > MAX_DIB
    ensures k !in m
  {
    hide Home;
    if k in m {
      assert At(s, k);
      var j :| 0 <= j < |s| && s[j].Full? && s[j].e.key == k;
      assert SlotOk(s, j) && Bound(s[j].e, m, hash);
      assert s[j].dib >= d;
      ProbeReaches(s, j, d);
    }
  }

  /** Every slot from the start `a` of the probe's run up to the probe has its home
      between `a` and the probe's own home. */
  lemma RunHomes<K, V>(s: seq<Slot<K, V>>, z: nat, h: Hash, i: nat, d: nat, a: nat, j: nat)
    requires Layout(s) && Probe(s, z, h, i, d) && d > 0
    requires a < |s| && s[a].Full? && s[a].dib == 0 && Dist(z, a, |s|) <= Dist(z, Home(h, |s|), |s|)
    requires forall x :: 0 <= x < |s| && Dist(z, a, |s|) <= Dist(z, x, |s|) <= Dist(z, Home(h, |s|), |s|) ==> s[x].Full?
    requires j < |s| && Dist(a, j, |s|) < Dist(a, Home(h, |s|), |s|) + d
    ensures s[j].Full? && InWindow(s[j].e.hash, a, Dist(a, Home(h, |s|), |s|) + 1, |s|)
  {
    hide Home;
    var cap := |s|;
    var home := Home(h, cap);
    assert Dist(z, j, cap) == Dist(z, a, cap) + Dist(a, j, cap);
    if Dist(z, j, cap) > Dist(z, home, cap) {
      assert Dist(home, j, cap) < d;
    }
    HomesSorted(s, z, a, j);
    NoCrossing(s, z, j);
  }

  /** A probe `d` steps from home shows a window, holding that home, whose slots are
      already asked for by `d - 1` more residents than the window has slots. */
  lemma ProbeCrowds<K(!new), V>(s: seq<Slot<K, V>>, z: nat, h: Hash, i: nat, d: nat) returns (a: nat, len: nat)
    requires Layout(s) && Probe(s, z, h, i, d) && d > 0
    ensures a < |s| && 1 <= len <= |s| && InWindow(h, a, len, |s|)
    ensures |SlotsIn(s, a, len)| >= len - 1 + d
  {
    hide Home;
    var cap := |s|;
    var home := Home(h, cap);
    assert Dist(home, home, cap) == 0;
    a := RunStart(s, z, home);
    len := Dist(a, home, cap) + 1;
    var run := Arc(a, len - 1 + d, cap);
    forall j | j in run ensures j in SlotsIn(s, a, len) {
      RunHomes(s, z, h, i, d, a, j);
    }
    assert len - 1 + d <= cap by {
      assert Dist(a, z, cap) >= Dist(a, home, cap) + d;
    }
    ArcSize(a, len - 1 + d, cap);
    SubsetSize(run, SlotsIn(s, a, len));
  }

  /** When the valve opens, the keys in the table and the carried one do not fit the
      capacity: growing is unavoidable, whatever order they had been inserted in. */
  lemma ValveOverflows<K(!new), V>(s: seq<Slot<K, V>>, m: map<K, V>, hash: K -> Hash, z: nat, k: K, i: nat, d: nat)
    requires Layout(s) && Holds(s, m, hash) && Probe(s, z, hash(k), i, d) && d > MAX_DIB && k !in m
    ensures !Fits(m.Keys + {k}, hash, |s|)
  {
    var a, len := ProbeCrowds(s, z, hash(k), i, d);
    hide InWindow;
    SlotsInCount(s, m, hash, a, len);
    assert KeysIn(m.Keys + {k}, hash, a, len, |s|) == KeysIn(m.Keys, hash, a, len, |s|) + {k};
  }

  lemma ProbeStart<K, V>(s: seq<Slot<K, V>>, z: nat, h: Hash, k: K)
    requires z < |s| && s[z].Empty?
    ensures Probe(s, z, h, Home(h, |s|), 0) && NoMatch(s, h, k, 0)
  {
  }

  lemma NoMatchPast<K, V>(s: seq<Slot<K, V>>, z: nat, h: Hash, k: K, i: nat, d: nat)
    requires Probe(s, z, h, i, d) && NoMatch(s, h, k, d) && (s[i].Full? ==> s[i].e.key != k)
    ensures NoMatch(s, h, k, d + 1)
  {
    hide Home;
    forall j | 0 <= j < |s| && Dist(Home(h, |s|), j, |s|) < d + 1 && s[j].Full? ensures s[j].e.key != k {
      if Dist(Home(h, |s|), j, |s|) == d {
        assert j == i;
      }
    }
  }

  /** Storing another value under the same key moves nothing. */
  lemma RevalueKeepsLayout<K, V>(s: seq<Slot<K, V>>, i: nat, e: Entry<K, V>)
    requires Layout(s) && i < |s| && s[i].Full? && e.hash == s[i].e.hash
    ensures Layout(s[i := Full(e, s[i].dib)])
  {
    hide Home;
    var t := s[i := Full(e, s[i].dib)];
    forall j | 0 <= j < |t| ensures SlotOk(t, j) {
      assert SlotOk(s, j);
    }
  }

  // ---- Backward shift ----

  /** A table with a hole at `i`: well formed everywhere except that the entry after the
      hole may be displaced, in which case pulling it back one slot is legal. */
  ghost predicate Gap<K, V>(s: seq<Slot<K, V>>, i: nat)
  {
    && |s| >= 3 && i < |s| && s[i].Empty?
    && (forall j :: 0 <= j < |s| && j != Next(i, |s|) ==> SlotOk(s, j))
    && var j, p := Next(i, |s|), Back(i, 1, |s|);
       s[j].Full? ==> Placed(s, j) && (s[j].dib >= 2 ==> s[p].Full? && s[p].dib >= s[j].dib - 2)
  }

  lemma GapOpen<K, V>(s: seq<Slot<K, V>>, i: nat)
    requires Layout(s) && |s| >= 3 && i < |s| && s[i].Full?
    ensures Gap(s[i := Empty], i)
  {
    hide Home;
    var t := s[i := Empty];
    forall j | 0 <= j < |t| && j != Next(i, |s|) ensures SlotOk(t, j) {
      assert SlotOk(s, j);
    }
    assert SlotOk(s, i) && SlotOk(s, Next(i, |s|)) && SlotOk(s, Back(i, 1, |s|));
    assert Back(Next(i, |s|), 1, |s|) == i;
  }

  /** Pull the entry after the hole back one slot; the hole moves on. */
  ghost function Shift<K, V>(s: seq<Slot<K, V>>, i: nat): seq<Slot<K, V>>
    requires i < |s| && s[Next(i, |s|)].Full? && s[Next(i, |s|)].dib > 0
  {
    var j := Next(i, |s|);
    s[i := Full(s[j].e, s[j].dib - 1)][j := Empty]
  }

  lemma GapShift<K, V>(s: seq<Slot<K, V>>, i: nat)
    requires Gap(s, i) && s[Next(i, |s|)].Full? && s[Next(i, |s|)].dib > 0
    ensures Gap(Shift(s, i), Next(i, |s|))
  {
    hide Home;
    var t, j := Shift(s, i), Next(i, |s|);
    var n := Next(j, |s|);
    assert Back(j, 1, |s|) == i && Back(n, 1, |s|) == j;
    assert SlotOk(s, n);
    forall x | 0 <= x < |t| && x != n ensures SlotOk(t, x) {
      if x != j && x != i {
        assert SlotOk(s, x);
        assert Back(x, 1, |s|) != i && Back(x, 1, |s|) != j;
      }
    }
  }

  lemma GapClose<K, V>(s: seq<Slot<K, V>>, i: nat)
    requires Gap(s, i) && (s[Next(i, |s|)].Full? ==> s[Next(i, |s|)].dib == 0)
    ensures Layout(s)
  {
    hide Home;
    forall j | 0 <= j < |s| ensures SlotOk(s, j) {
      if j != Next(i, |s|) {
        assert SlotOk(s, j);
      }
    }
  }

  lemma ShiftHolds<K(!new), V>(s: seq<Slot<K, V>>, m: map<K, V>, hash: K -> Hash, i: nat)
    requires Holds(s, m, hash) && i < |s| && s[i].Empty? && s[Next(i, |s|)].Full? && s[Next(i, |s|)].dib > 0
    ensures Holds(Shift(s, i), m, hash)
  {
    var j := Next(i, |s|);
    assert Bound(s[j].e, m, hash);
    HoldsVacate(s, m, hash, j);
    var u, n := s[j := Empty], m - {s[j].e.key};
    HoldsPlace(u, n, hash, i, s[j].e, s[j].dib - 1);
    hide Holds;
    assert u[i := Full(s[j].e, s[j].dib - 1)] == Shift(s, i);
    assert n[s[j].e.key := s[j].e.val] == m;
  }

  // ---- Reinsertion ----

  /** Is `k` in one of the first `n` slots? */
  ghost predicate AtBefore<K(!new), V>(s: seq<Slot<K, V>>, n: nat, k: K)
    requires n <= |s|
  {
    exists i :: 0 <= i < n && s[i].Full? && s[i].e.key == k
  }

  /** `c` is the part of `m` that the first `n` slots hold. */
  ghost predicate Held<K(!new), V>(s: seq<Slot<K, V>>, m: map<K, V>, n: nat, c: map<K, V>)
  {
    && n <= |s|
    && (forall k :: k in c ==> k in m && c[k] == m[k] && AtBefore(s, n, k))
    && (forall k :: k in m && AtBefore(s, n, k) ==> k in c)
  }

  /** An entry of `m` that its part `c` does not have yet. */
  ghost predicate Missing<K, V>(c: map<K, V>, m: map<K, V>, hash: K -> Hash, e: Entry<K, V>)
  {
    e.key !in c && e.hash == hash(e.key) && c.Keys + {e.key} <= m.Keys && |c| < |m|
  }

  lemma HeldStart<K(!new), V>(s: seq<Slot<K, V>>, m: map<K, V>)
    ensures Held(s, m, 0, map[])
  {
  }

  lemma HeldDone<K(!new), V>(s: seq<Slot<K, V>>, m: map<K, V>, hash: K -> Hash, c: map<K, V>)
    requires Holds(s, m, hash) && Held(s, m, |s|, c)
    ensures c == m
  {
    forall k | k in m ensures k in c {
      assert At(s, k);
      assert AtBefore(s, |s|, k);
    }
  }

  lemma HeldEmpty<K(!new), V>(s: seq<Slot<K, V>>, m: map<K, V>, i: nat, c: map<K, V>)
    requires i < |s| && Held(s, m, i, c) && s[i].Empty?
    ensures Held(s, m, i + 1, c)
  {
    assert forall k :: AtBefore(s, i + 1, k) <==> AtBefore(s, i, k);
  }

  lemma HeldFull<K(!new), V>(s: seq<Slot<K, V>>, m: map<K, V>, hash: K -> Hash, i: nat, c: map<K, V>)
    requires Holds(s, m, hash) && i < |s| && Held(s, m, i, c) && s[i].Full?
    ensures Missing(c, m, hash, s[i].e) && Held(s, m, i + 1, c[s[i].e.key := s[i].e.val])
  {
    HoldsAt(s, m, hash, i);
    NotBefore(s, m, hash, i);
    hide Holds;
    hide AtBefore;
    assert c.Keys <= m.Keys;
    SubsetSize(c.Keys, m.Keys);
  }

  lemma NotBefore<K(!new), V>(s: seq<Slot<K, V>>, m: map<K, V>, hash: K -> Hash, i: nat)
    requires Holds(s, m, hash) && i < |s| && s[i].Full?
    ensures !AtBefore(s, i, s[i].e.key)
    ensures forall k :: AtBefore(s, i + 1, k) <==> AtBefore(s, i, k) || k == s[i].e.key
  {
    hide Bound;
    assert AtBefore(s, i + 1, s[i].e.key);
  }
}
