/** The per-shard table: four parallel arrays updated in place.  Every method is proved
    against the finite map `contents` and the layout invariant.

    Growing is bounded by `limit`, the largest capacity the allocator can provide.  A call
    that would need more reports `ok == false`; the source would go on doubling.  Whether a
    call succeeds is characterised exactly by `Fits`, so "for every limit, not ok" is
    precisely the source's endless growth. */
module RobinHoodTable {
  import opened Options
  import opened Ring
  import opened RobinHoodLayout
  import opened RobinHoodRestore

  /** A uint16. */
  type Word16 = w: nat | w < 0x1_0000

  const FRAG: nat := 0x100
  const MIN_CAP: nat := 8

  /** The low eight bits of the hash. */
  function FragOf(h: Hash): (f: Word16)
    ensures f < FRAG
  {
    h % FRAG
  }

  /** `(m >> 8) - 1` in 16-bit arithmetic. */
  function DibOf(m: Word16): Word16
  {
    (m / FRAG + 0xFFFF) % 0x1_0000
  }

  /** `(dib + 1) << 8 | frag` in 16-bit arithmetic; the shift leaves the low byte clear. */
  function PackMeta(dib: Word16, frag: Word16): Word16
    requires frag < FRAG
  {
    (dib + 1) * FRAG % 0x1_0000 + frag
  }

  /** The metadata word is read back exactly for displacements up to 254; at 255 the shift
      overflows into an empty-looking word, which is what the valve prevents. */
  lemma MetaRoundTrip(d: Word16, f: Word16)
    requires d <= MAX_DIB + 1 && f < FRAG
    ensures d <= MAX_DIB <==> DibOf(PackMeta(d, f)) == d
    ensures d <= MAX_DIB ==> PackMeta(d, f) != 0 && PackMeta(d, f) % FRAG == f
    ensures d > MAX_DIB && f == 0 ==> PackMeta(d, f) == 0
  {
    var w := (d + 1) * FRAG;
    if d <= MAX_DIB {
      assert w % 0x1_0000 == w;
      assert (w + f) / FRAG == d + 1;
    }
  }

  /** The word, key, value and hash at one index say what the slot says. */
  ghost predicate Stored<K, V>(m: Word16, k: K, v: V, h: Hash, x: Slot<K, V>)
  {
    match x
    case Empty => m == 0
    case Full(e, d) => d <= MAX_DIB && m == PackMeta(d, FragOf(e.hash)) && k == e.key && v == e.val && h == e.hash
  }

  lemma StoredRead<K, V>(m: Word16, k: K, v: V, h: Hash, x: Slot<K, V>)
    requires Stored(m, k, v, h, x)
    ensures x.Empty? <==> m == 0
    ensures x.Full? ==> DibOf(m) == x.dib <= MAX_DIB && m % FRAG == FragOf(x.e.hash) && x.e == Entry(h, k, v)
  {
    if x.Full? {
      MetaRoundTrip(x.dib, FragOf(x.e.hash));
    }
  }

  /** The smallest power of two, at least 8, three quarters of which reach `hint`. */
  method CapacityFor(hint: int) returns (c: nat)
    ensures IsPow2(c) && c >= MIN_CAP && c * 3 / 4 >= hint
    ensures c == MIN_CAP || c / 2 * 3 / 4 < hint
  {
    c := MIN_CAP;
    while c * 3 / 4 < hint
      invariant IsPow2(c) && c >= MIN_CAP
      invariant c == MIN_CAP || c / 2 * 3 / 4 < hint
      decreases 2 * hint - c
    {
      c := c * 2;
    }
  }

  /** Four zeroed arrays of one length. */
  method NewArrays<K(0), V(0)>(n: nat) returns (ms: array<Word16>, ks: array<K>, vs: array<V>, hs: array<Hash>)
    ensures fresh(ms) && fresh(ks) && fresh(vs) && fresh(hs)
    ensures ms.Length == ks.Length == vs.Length == hs.Length == n
    ensures ms as object != ks && ms as object != vs && ms as object != hs
    ensures ks as object != vs && ks as object != hs && vs as object != hs
    ensures forall i :: 0 <= i < n ==> ms[i] == 0
  {
    ms := new Word16[n](_ => 0);
    ks := new K[n];
    vs := new V[n];
    hs := new Hash[n];
  }

  lemma ExchangeKey<K, V>(m: map<K, V>, out: K, k: K, v: V)
    requires out in m && k !in m
    ensures (m - {out})[k := v][out := m[out]] == m[k := v]
    ensures out !in (m - {out})[k := v] && |(m - {out})[k := v]| == |m|
  {
    var n := (m - {out})[k := v];
    assert n.Keys == m.Keys - {out} + {k};
  }

  lemma SameKeys<K, V>(m: map<K, V>, k: K, v: V, n: map<K, V>, l: K, w: V)
    requires m[k := v] == n[l := w]
    ensures m.Keys + {k} == n.Keys + {l}
  {
    assert m[k := v].Keys == m.Keys + {k} && n[l := w].Keys == n.Keys + {l};
  }

  /** Four arrays that together spell out `s`. */
  ghost predicate Copied<K, V>(ms: array<Word16>, ks: array<K>, vs: array<V>, hs: array<Hash>, s: seq<Slot<K, V>>)
    reads ms, ks, vs, hs
  {
    && ms.Length == ks.Length == vs.Length == hs.Length == |s|
    && (forall i :: 0 <= i < |s| ==> Stored(ms[i], ks[i], vs[i], hs[i], s[i]))
  }

  lemma ReadCopy<K, V>(ms: array<Word16>, ks: array<K>, vs: array<V>, hs: array<Hash>, s: seq<Slot<K, V>>, i: nat)
    requires Copied(ms, ks, vs, hs, s) && i < |s|
    ensures ms.Length == ks.Length == vs.Length == hs.Length == |s|
    ensures s[i].Empty? <==> ms[i] == 0
    ensures s[i].Full? ==> s[i].e == Entry(hs[i], ks[i], vs[i])
  {
    StoredRead(ms[i], ks[i], vs[i], hs[i], s[i]);
  }

  lemma NotFits<K>(ks: set<K>, ls: set<K>, hash: K -> Hash, cap: nat)
    requires ks <= ls
    ensures !Fits(ks, hash, cap) ==> !Fits(ls, hash, cap)
  {
    if Fits(ls, hash, cap) {
      FitsSubset(ks, ls, hash, cap);
    }
  }

  /** The capacity an insertion works at: doubled once the count has reached three quarters. */
  function InsertCap(cap: nat, count: nat): nat
  {
    if count >= cap * 3 / 4 then 2 * cap else cap
  }

  /** The capacity after a deletion that leaves `n` entries: halved below a quarter, never under 8. */
  function DeleteCap(cap: nat, n: nat): nat
  {
    if cap > MIN_CAP && n < cap / 4 then cap / 2 else cap
  }

  lemma NothingToRemove<K, V>(m: map<K, V>, k: K)
    requires k !in m
    ensures m - {k} == m
  {
  }

  /** One robbery is one step of `Place`. */
  lemma PlaceRob<K, V>(s: seq<Slot<K, V>>, z: nat, i: nat, e: Entry<K, V>, d: nat)
    requires i < |s| && z < |s| && s[z].Empty? && s[i].Full? && s[i].dib < d
    ensures s[i := Full(e, d)][z].Empty?
    ensures Place(s, z, i, e, d) == Place(s[i := Full(e, d)], z, Next(i, |s|), s[i].e, s[i].dib + 1)
  {
  }

  lemma InsertedBy<K, V>(s: seq<Slot<K, V>>, t: seq<Slot<K, V>>, e: Entry<K, V>, z: nat, goal: seq<Slot<K, V>>)
    requires z < |s| && s[z].Empty? && goal == Place(s, z, Home(e.hash, |s|), e, 0)
    ensures t == goal ==> Inserted(s, t, e)
  {
  }

  lemma DeletedBy<K, V>(s: seq<Slot<K, V>>, at: nat, y: nat, goal: seq<Slot<K, V>>)
    requires at < |s| && y < |s| && s[y].Empty? && y != at && goal == Close(s[at := Empty], y, at)
    ensures Deleted(s, goal, at)
  {
  }

  class Table<K(==, 0, !new), V(0)> {
    ghost const hash: K -> Hash

    var meta: array<Word16>
    var keys: array<K>
    var vals: array<V>
    var hashes: array<Hash>
    var count: nat
    var capm1: nat
    var growAt: nat

    ghost var slots: seq<Slot<K, V>>
    ghost var contents: map<K, V>
    /** How often the valve has opened, and how many entries resizes have reinserted. */
    ghost var valves: nat
    ghost var moved: nat

    ghost function Repr(): set<object>
      reads this
    {
      {this, meta, keys, vals, hashes}
    }

    ghost predicate Arrays()
      reads this`meta, this`keys, this`vals, this`hashes, this`slots, this`capm1, this`growAt
    {
      && meta.Length == keys.Length == vals.Length == hashes.Length == |slots|
      && meta as object != keys && meta as object != vals && meta as object != hashes
      && keys as object != vals && keys as object != hashes && vals as object != hashes
      && |slots| >= MIN_CAP && IsPow2(|slots|)
      && capm1 == |slots| - 1 && growAt == |slots| * 3 / 4
    }

    /** The arrays agree with `slots` everywhere except perhaps at `hole`. */
    ghost predicate RepExcept(hole: int)
      reads this`meta, this`keys, this`vals, this`hashes, this`slots, this`capm1, this`growAt
      reads meta, keys, vals, hashes
    {
      && Arrays()
      && (forall i :: 0 <= i < |slots| && i != hole ==> Stored(meta[i], keys[i], vals[i], hashes[i], slots[i]))
    }

    ghost predicate Valid()
      reads this`meta, this`keys, this`vals, this`hashes, this`slots, this`capm1, this`growAt
      reads this`count, this`contents, meta, keys, vals, hashes
    {
      && RepExcept(-1)
      && Layout(slots) && Holds(slots, contents, hash)
      && count == |contents| <= growAt
    }

    /** An empty table that takes `hint` entries before it must grow, in the smallest
        power-of-two capacity that does. */
    constructor (hint: int, ghost h: K -> Hash)
      ensures Valid() && fresh(Repr()) && hash == h && contents == map[]
      ensures hint <= |slots| * 3 / 4 && valves == moved == 0
      ensures |slots| == MIN_CAP || |slots| / 2 * 3 / 4 < hint
    {
      hash := h;
      valves, moved := 0, 0;
      var ms, ks, vs, hs := NewArrays<K, V>(0);
      meta, keys, vals, hashes := ms, ks, vs, hs;
      new;
      var c := CapacityFor(hint);
      hide *;
      Alloc(c);
    }

    /** Fresh, empty arrays. */
    method Alloc(capacity: nat)
      requires IsPow2(capacity) && capacity >= MIN_CAP
      modifies this
      ensures Valid() && fresh(meta) && fresh(keys) && fresh(vals) && fresh(hashes)
      ensures |slots| == capacity && contents == map[] && valves == old(valves) && moved == old(moved)
    {
      assert capacity > 0;
      hide *;
      meta, keys, vals, hashes := NewArrays<K, V>(capacity);
      capm1 := capacity - 1;
      growAt := capacity * 3 / 4;
      count := 0;
      slots := Blank(capacity);
      contents := map[];
      EmptyTable(slots, hash);
      BlankArrays();
      Fold();
    }

    lemma BlankArrays()
      requires meta.Length == keys.Length == vals.Length == hashes.Length == |slots|
      requires meta as object != keys && meta as object != vals && meta as object != hashes
      requires keys as object != vals && keys as object != hashes && vals as object != hashes
      requires |slots| >= MIN_CAP && IsPow2(|slots|) && capm1 == |slots| - 1 && growAt == |slots| * 3 / 4
      requires forall i :: 0 <= i < |slots| ==> meta[i] == 0 && slots[i].Empty?
      ensures RepExcept(-1)
    {
    }

    lemma Unfold()
      requires Valid()
      ensures RepExcept(-1) && Arrays() && Layout(slots) && Holds(slots, contents, hash)
      ensures count == |contents| <= growAt == |slots| * 3 / 4 && growAt < |slots| == meta.Length == capm1 + 1
      ensures |slots| >= MIN_CAP && IsPow2(|slots|)
    {
    }

    lemma Fold()
      requires RepExcept(-1) && Layout(slots) && Holds(slots, contents, hash) && count == |contents| <= growAt
      ensures Valid()
    {
    }

    lemma CopyStored()
      requires RepExcept(-1)
      ensures Copied(meta, keys, vals, hashes, slots)
    {
    }

    /** What the four words at index `i` tell. */
    lemma Read(i: nat, hole: int)
      requires RepExcept(hole) && i < |slots| && i != hole
      ensures |slots| == meta.Length == keys.Length == vals.Length == hashes.Length
      ensures slots[i].Empty? <==> meta[i] == 0
      ensures slots[i].Full? ==>
        && DibOf(meta[i]) == slots[i].dib <= MAX_DIB && meta[i] % FRAG == FragOf(slots[i].e.hash)
        && slots[i].e == Entry(hashes[i], keys[i], vals[i])
    {
      StoredRead(meta[i], keys[i], vals[i], hashes[i], slots[i]);
    }

    /** Write one filled slot. */
    method Store(i: nat, e: Entry<K, V>, d: nat)
      requires RepExcept(i) || RepExcept(-1)
      requires i < |slots| && d <= MAX_DIB
      modifies meta, keys, vals, hashes, this`slots
      ensures RepExcept(-1) && slots == old(slots)[i := Full(e, d)]
    {
      meta[i] := PackMeta(d, FragOf(e.hash));
      keys[i] := e.key;
      vals[i] := e.val;
      hashes[i] := e.hash;
      slots := slots[i := Full(e, d)];
    }

    /** Probe for `k`: its slot, or proof of its absence at an empty slot or the early exit. */
    method Locate(h: Hash, k: K) returns (found: bool, i: nat)
      requires Valid() && h == hash(k)
      ensures found <==> k in contents
      ensures found ==>
        i < |slots| == meta.Length == vals.Length && slots[i].Full? && slots[i].e.key == k && vals[i] == contents[k]
    {
      Unfold();
      hide *;
      var frag := FragOf(h);
      i := Home(h, capm1 + 1);
      var dib: nat := 0;
      ghost var z := SomeEmpty(slots, contents, hash);
      ProbeStart(slots, z, h, k);
      while true
        invariant i < |slots| && z < |slots| && dib <= MAX_DIB + 1
        invariant Probe(slots, z, h, i, dib) && NoMatch(slots, h, k, dib)
        decreases Dist(i, z, |slots|)
      {
        Read(i, -1);
        var m := meta[i];
        if m == 0 || dib > DibOf(m) {
          ProbeAbsent(slots, contents, hash, z, k, i, dib);
          return false, i;
        }
        HoldsAt(slots, contents, hash, i);
        if m % FRAG == frag && keys[i] == k {
          return true, i;
        }
        NoMatchPast(slots, z, h, k, i, dib);
        ProbePast(slots, z, h, i, dib);
        i := Next(i, capm1 + 1);
        dib := dib + 1;
      }
    }

    /** Early-exit lookup answers as the finite map does. */
    method Lookup(h: Hash, k: K) returns (r: Option<V>)
      requires Valid() && h == hash(k)
      ensures r == if k in contents then Some(contents[k]) else None
    {
      var found, i := Locate(h, k);
      r := if found then Some(vals[i]) else None;
    }

    /** The carried entry lands in an empty slot. */
    method Land(e: Entry<K, V>, ghost z: nat, i: nat, d: nat)
      requires Valid() && count < growAt && e.hash == hash(e.key) && e.key !in contents
      requires i < |slots| && d <= MAX_DIB && Probe(slots, z, e.hash, i, d) && slots[i].Empty?
      modifies meta, keys, vals, hashes, this`slots, this`count, this`contents
      ensures Valid() && contents == old(contents)[e.key := e.val] && slots == old(slots)[i := Full(e, d)]
    {
      Unfold();
      hide *;
      PlaceKeepsLayout(slots, z, e, i, d);
      HoldsPlace(slots, contents, hash, i, e, d);
      Store(i, e, d);
      count := count + 1;
      contents := contents[e.key := e.val];
      Fold();
    }

    /** The key is already at slot `i`: replace its value. */
    method Overwrite(e: Entry<K, V>, i: nat)
      requires Valid() && i < |slots| && slots[i].Full? && slots[i].e.key == e.key && e.hash == hash(e.key)
      modifies meta, keys, vals, hashes, this`slots, this`contents
      ensures Valid() && contents == old(contents)[e.key := e.val] && |slots| == old(|slots|)
    {
      Unfold();
      Read(i, -1);
      hide *;
      HoldsAt(slots, contents, hash, i);
      RevalueKeepsLayout(slots, i, e);
      HoldsRob(slots, contents, hash, i, e, slots[i].dib);
      assert (contents - {e.key})[e.key := e.val] == contents[e.key := e.val];
      Store(i, e, DibOf(meta[i]));
      contents := contents[e.key := e.val];
      Fold();
    }

    /** The carried entry robs the richer resident of slot `i`, which is carried on. */
    method Rob(e: Entry<K, V>, ghost z: nat, i: nat, d: nat) returns (r: Entry<K, V>)
      requires Valid() && e.hash == hash(e.key) && e.key !in contents
      requires i < |slots| && Probe(slots, z, e.hash, i, d) && slots[i].Full? && slots[i].dib < d <= MAX_DIB
      modifies meta, keys, vals, hashes, this`slots, this`contents
      ensures Valid() && slots == old(slots)[i := Full(e, d)] && |contents| == |old(contents)|
      ensures r == old(slots[i].e) && r.hash == hash(r.key)
      ensures r.key !in contents && contents[r.key := r.val] == old(contents)[e.key := e.val]
      ensures z < |slots| && Probe(slots, z, r.hash, Next(i, |slots|), old(slots[i].dib) + 1)
      ensures Dist(Next(i, |slots|), z, |slots|) == Dist(i, z, |slots|) - 1
    {
      Unfold();
      Read(i, -1);
      assert z < |slots|;
      hide *;
      HoldsAt(slots, contents, hash, i);
      ProbeRob(slots, z, e, i, d);
      HoldsRob(slots, contents, hash, i, e, d);
      r := Entry(hashes[i], keys[i], vals[i]);
      Store(i, e, d);
      ExchangeKey(contents, r.key, e.key, e.val);
      contents := (contents - {r.key})[e.key := e.val];
      Fold();
    }

    /** Mid-insertion of `k := v` into a table that held `was`: the table is valid and, with
        the carried entry, holds exactly the target map; the probe for the carried entry
        stands at slot `i`, `d` steps from home.  Until the first robbery the table is
        untouched and `k` has not been met.  A new key is on its way to the slots `goal`. */
    ghost predicate Carrying(was: map<K, V>, k: K, v: V, cur: Entry<K, V>, i: nat, d: nat, swapped: bool, z: nat,
                             goal: seq<Slot<K, V>>)
      reads this`meta, this`keys, this`vals, this`hashes, this`slots, this`capm1, this`growAt
      reads this`count, this`contents, meta, keys, vals, hashes
    {
      && Valid()
      && i < |slots| == capm1 + 1 == meta.Length == keys.Length && z < |slots| && d <= MAX_DIB + 1
      && cur.hash == hash(cur.key) && Probe(slots, z, cur.hash, i, d)
      && (if swapped then cur.key !in contents && contents[cur.key := cur.val] == was[k := v]
          else contents == was && cur == Entry(hash(k), k, v) && NoMatch(slots, cur.hash, k, d))
      && slots[z].Empty? && (cur.key !in contents ==> Place(slots, z, i, cur, d) == goal)
    }

    lemma CarryStart(h: Hash, k: K, v: V) returns (z: nat)
      requires Valid() && h == hash(k)
      ensures Home(h, capm1 + 1) < |slots| && z < |slots|
      ensures slots[z].Empty?
        && Carrying(contents, k, v, Entry(h, k, v), Home(h, capm1 + 1), 0, false, z,
          Place(slots, z, Home(h, |slots|), Entry(h, k, v), 0))
    {
      Unfold();
      z := SomeEmpty(slots, contents, hash);
      ProbeStart(slots, z, h, k);
    }

    /** A carried entry that can rob, land or fall to the valve is not in the table. */
    lemma CarriedAbsent(was: map<K, V>, k: K, v: V, cur: Entry<K, V>, i: nat, d: nat, swapped: bool, z: nat,
                        goal: seq<Slot<K, V>>)
      requires Carrying(was, k, v, cur, i, d, swapped, z, goal)
      requires slots[i].Empty? || slots[i].dib < d || d > MAX_DIB
      ensures cur.key !in contents && contents[cur.key := cur.val] == was[k := v]
      ensures i < |slots| && z < |slots| && slots[z].Empty? && Place(slots, z, i, cur, d) == goal
    {
      Unfold();
      if !swapped {
        ProbeAbsent(slots, contents, hash, z, k, i, d);
      }
    }

    /** One step past a filled slot that is neither the original key's nor richer. */
    lemma CarryPast(was: map<K, V>, k: K, v: V, cur: Entry<K, V>, i: nat, d: nat, swapped: bool, z: nat,
                    goal: seq<Slot<K, V>>)
      requires Carrying(was, k, v, cur, i, d, swapped, z, goal) && d <= MAX_DIB
      requires slots[i].Full? && slots[i].dib >= d && (swapped || slots[i].e.key != cur.key)
      ensures Carrying(was, k, v, cur, Next(i, |slots|), d + 1, swapped, z, goal)
      ensures Dist(Next(i, |slots|), z, |slots|) == Dist(i, z, |slots|) - 1
    {
      hide Layout;
      hide Holds;
      hide Probe;
      hide NoMatch;
      hide RepExcept;
      ProbePast(slots, z, cur.hash, i, d);
      if !swapped {
        NoMatchPast(slots, z, cur.hash, k, i, d);
      }
    }

    lemma CarryRobbed(was: map<K, V>, k: K, v: V, cur: Entry<K, V>, i: nat, d: nat, z: nat, goal: seq<Slot<K, V>>)
      requires Valid() && i < |slots| && z < |slots| && d <= MAX_DIB + 1 && slots[z].Empty?
        && Place(slots, z, i, cur, d) == goal
      requires cur.hash == hash(cur.key) && Probe(slots, z, cur.hash, i, d)
      requires cur.key !in contents && contents[cur.key := cur.val] == was[k := v]
      ensures Carrying(was, k, v, cur, i, d, true, z, goal)
    {
      Unfold();
    }

    /** One step past a filled slot that does not hold the original key: rob it if its
        resident is closer to home, and move on. */
    method Step(ghost was: map<K, V>, ghost k: K, ghost v: V, c: Entry<K, V>, i: nat, d: nat, sw: bool, ghost z: nat,
                ghost goal: seq<Slot<K, V>>)
      returns (cur: Entry<K, V>, j: nat, d': nat, swapped: bool)
      requires i < |slots| && z < |slots|
      requires Carrying(was, k, v, c, i, d, sw, z, goal) && d <= MAX_DIB
      requires slots[i].Full? && (sw || slots[i].e.key != c.key)
      modifies meta, keys, vals, hashes, this`slots, this`contents
      ensures |slots| == old(|slots|) && z < |slots| && j < |slots|
      ensures Carrying(was, k, v, cur, j, d', swapped, z, goal)
      ensures Dist(j, z, |slots|) == Dist(i, z, |slots|) - 1
    {
      hide *;
      CarryRead(was, k, v, c, i, d, sw, z, goal);
      var rDib: nat := DibOf(meta[i]);
      if d > rDib {
        CarriedAbsent(was, k, v, c, i, d, sw, z, goal);
        PlaceRob(slots, z, i, c, d);
        cur := Rob(c, z, i, d);
        d' := rDib + 1;
        swapped := true;
        j := Next(i, capm1 + 1);
        CarryRobbed(was, k, v, cur, j, d', z, goal);
      } else {
        CarryPast(was, k, v, c, i, d, sw, z, goal);
        cur, d', swapped := c, d + 1, sw;
        j := Next(i, capm1 + 1);
      }
    }

    /** The displacement loop: walk from home, robbing richer residents, until the carried
        entry can land, meets its own key, or runs out of displacement range. */
    method Displace(h: Hash, k: K, v: V)
      returns (cur: Entry<K, V>, i: nat, d: nat, swapped: bool, ghost z: nat, ghost goal: seq<Slot<K, V>>)
      requires Valid() && h == hash(k)
      modifies meta, keys, vals, hashes, this`slots, this`contents
      ensures |slots| == old(|slots|) && i < |slots| && z < |slots| && old(slots)[z].Empty?
      ensures goal == Place(old(slots), z, Home(h, |slots|), Entry(h, k, v), 0)
      ensures Carrying(old(contents), k, v, cur, i, d, swapped, z, goal)
      ensures d <= MAX_DIB ==> slots[i].Empty? || (!swapped && slots[i].e.key == cur.key)
    {
      cur, d, swapped := Entry(h, k, v), 0, false;
      i := Home(h, capm1 + 1);
      Unfold();
      z := CarryStart(h, k, v);
      goal := Place(slots, z, i, cur, 0);
      hide *;
      while true
        invariant |slots| == old(|slots|) && i < |slots| && z < |slots|
        invariant Carrying(old(contents), k, v, cur, i, d, swapped, z, goal)
        decreases Dist(i, z, |slots|)
      {
        CarryRead(old(contents), k, v, cur, i, d, swapped, z, goal);
        if d > MAX_DIB {
          return;
        }
        var m := meta[i];
        if m == 0 || (!swapped && m % FRAG == FragOf(cur.hash) && keys[i] == cur.key) {
          return;
        }
        cur, i, d, swapped := Step(old(contents), k, v, cur, i, d, swapped, z, goal);
      }
    }

    lemma CarryRead(was: map<K, V>, k: K, v: V, cur: Entry<K, V>, i: nat, d: nat, swapped: bool, z: nat,
                    goal: seq<Slot<K, V>>)
      requires Carrying(was, k, v, cur, i, d, swapped, z, goal) && i < |slots|
      ensures d <= MAX_DIB + 1 && i < meta.Length == keys.Length == |slots| == capm1 + 1
      ensures Valid() && cur.hash == hash(cur.key) && Probe(slots, z, cur.hash, i, d)
      ensures slots[i].Empty? <==> meta[i] == 0
      ensures slots[i].Full? ==> slots[i].dib == DibOf(meta[i]) <= MAX_DIB
      ensures slots[i].Full? ==> slots[i].e.key == keys[i] && meta[i] % FRAG == FragOf(slots[i].e.hash)
      ensures slots[i].Full? && keys[i] == cur.key ==> meta[i] % FRAG == FragOf(cur.hash)
    {
      Unfold();
      Read(i, -1);
      if slots[i].Full? {
        HoldsAt(slots, contents, hash, i);
      }
    }

    /** Place `(h, k, v)` by the Robin Hood rule, or overwrite `k`'s value.  The valve opens
        exactly when the resulting keys do not fit this capacity, and the call completes
        exactly when they fit the limit. */
    method Set(h: Hash, k: K, v: V, limit: nat) returns (ok: bool)
      requires Valid() && h == hash(k) && count < growAt
      requires IsPow2(limit) && |slots| <= limit
      modifies this, meta, keys, vals, hashes
      ensures || (meta == old(meta) && keys == old(keys) && vals == old(vals) && hashes == old(hashes))
        || (fresh(meta) && fresh(keys) && fresh(vals) && fresh(hashes))
      ensures ok <==> Fits(old(contents).Keys + {k}, hash, limit)
      ensures ok ==> Valid() && contents == old(contents)[k := v] && old(|slots|) <= |slots| <= limit
      ensures valves == old(valves) <==> Fits(old(contents).Keys + {k}, hash, old(|slots|))
      ensures valves == old(valves) ==> ok && |slots| == old(|slots|) && moved == old(moved)
      ensures valves == old(valves) && k !in old(contents) ==> Inserted(old(slots), slots, Entry(h, k, v))
      ensures old(valves) <= valves
      decreases limit - |slots|, 1
    {
      hide *;
      var cur, i, d, swapped, z, goal := Displace(h, k, v);
      CarryRead(old(contents), k, v, cur, i, d, swapped, z, goal);
      if d > MAX_DIB {
        CarriedAbsent(old(contents), k, v, cur, i, d, swapped, z, goal);
        Unfold();
        ValveOverflows(slots, contents, hash, z, cur.key, i, d);
        SameKeys(contents, cur.key, cur.val, old(contents), k, v);
        ok := Reinsert(cur, limit);
      } else {
        Finish(old(contents), k, v, cur, i, d, swapped, z, goal);
        InsertedBy(old(slots), slots, Entry(h, k, v), z, goal);
        Completed(old(contents), k, v, limit);
        ok := true;
      }
    }

    /** The end of a probe: land in the empty slot, or overwrite the original key. */
    method Finish(ghost was: map<K, V>, ghost k: K, ghost v: V, cur: Entry<K, V>, i: nat, d: nat, swapped: bool,
                  ghost z: nat, ghost goal: seq<Slot<K, V>>)
      requires i < |slots| && Carrying(was, k, v, cur, i, d, swapped, z, goal) && d <= MAX_DIB && count < growAt
      requires slots[i].Empty? || (!swapped && slots[i].e.key == cur.key)
      modifies meta, keys, vals, hashes, this`slots, this`contents, this`count
      ensures Valid() && contents == was[k := v] && |slots| == old(|slots|)
      ensures k !in was ==> slots == goal
    {
      CarryRead(was, k, v, cur, i, d, swapped, z, goal);
      if meta[i] == 0 {
        CarriedAbsent(was, k, v, cur, i, d, swapped, z, goal);
        hide *;
        Land(cur, z, i, d);
      } else {
        assert contents[cur.key := cur.val] == was[k := v];
        hide *;
        Overwrite(cur, i);
      }
    }

    lemma FitsAll(limit: nat)
      requires Valid() && IsPow2(limit) && |slots| <= limit
      ensures Fits(contents.Keys, hash, limit) && Fits(contents.Keys, hash, |slots|)
    {
      LayoutFits(slots, contents, hash);
      FitsLarger(contents.Keys, hash, |slots|, limit);
    }

    lemma Completed(was: map<K, V>, k: K, v: V, limit: nat)
      requires Valid() && contents == was[k := v] && IsPow2(limit) && |slots| <= limit
      ensures Fits(was.Keys + {k}, hash, limit) && Fits(was.Keys + {k}, hash, |slots|)
    {
      assert contents.Keys == was.Keys + {k};
      FitsAll(limit);
    }

    /** The valve: double the table and re-home the carried entry. */
    method Reinsert(e: Entry<K, V>, limit: nat) returns (ok: bool)
      requires Valid() && e.hash == hash(e.key) && count < growAt && e.key !in contents
      requires IsPow2(limit) && |slots| <= limit && !Fits(contents.Keys + {e.key}, hash, |slots|)
      modifies this, meta, keys, vals, hashes
      ensures || (meta == old(meta) && keys == old(keys) && vals == old(vals) && hashes == old(hashes))
        || (fresh(meta) && fresh(keys) && fresh(vals) && fresh(hashes))
      ensures ok <==> Fits(old(contents).Keys + {e.key}, hash, limit)
      ensures ok ==> Valid() && contents == old(contents)[e.key := e.val] && old(|slots|) <= |slots| <= limit
      ensures old(valves) < valves
      decreases limit - |slots|, 0
    {
      Unfold();
      hide *;
      valves := valves + 1;
      if 2 * meta.Length > limit {
        if |slots| < limit {
          Pow2Double(|slots|, limit);
        }
        return false;
      }
      Pow2Twice(|slots|);
      NotFits(contents.Keys, contents.Keys + {e.key}, hash, limit);
      ok := Grow(limit);
      if !ok {
        return;
      }
      Unfold();
      ok := Set(e.hash, e.key, e.val, limit);
    }

    /** Double the capacity. */
    method Grow(limit: nat) returns (ok: bool)
      requires Valid() && IsPow2(limit) && 2 * |slots| <= limit
      modifies this
      ensures fresh(meta) && fresh(keys) && fresh(vals) && fresh(hashes)
      ensures ok <==> Fits(old(contents).Keys, hash, limit)
      ensures ok ==> Valid() && contents == old(contents) && 2 * old(|slots|) <= |slots| <= limit
      ensures valves == old(valves) <==> Fits(old(contents).Keys, hash, 2 * old(|slots|))
      ensures valves == old(valves) ==> ok && |slots| == 2 * old(|slots|) && moved == old(moved) + |old(contents)|
      ensures old(valves) <= valves
      decreases limit - 2 * |slots|, 5
    {
      Unfold();
      hide *;
      Pow2Twice(|slots|);
      ok := Resize(2 * meta.Length, limit);
    }

    /** Mid-resize toward `newCap` of a table that held `m`: if the valve has stayed shut since
        it counted `v0`, the capacity is still `newCap` and every reinsertion was one move;
        if it opened, that was because `m` does not fit `newCap`. */
    ghost predicate Resizing(m: map<K, V>, newCap: nat, limit: nat, v0: nat, moved0: nat)
      reads this`meta, this`keys, this`vals, this`hashes, this`slots, this`capm1, this`growAt
      reads this`count, this`contents, this`valves, this`moved, meta, keys, vals, hashes
    {
      && Valid() && IsPow2(limit) && newCap <= |slots| <= limit && |m| <= newCap * 3 / 4
      && v0 <= valves
      && (valves == v0 ==> |slots| == newCap && moved == moved0 + |contents|)
      && (valves != v0 ==> !Fits(m.Keys, hash, newCap))
    }

    lemma Resized(m: map<K, V>, newCap: nat, limit: nat, v0: nat, moved0: nat)
      requires Resizing(m, newCap, limit, v0, moved0) && contents == m
      ensures Valid() && newCap <= |slots| <= limit && v0 <= valves && Fits(m.Keys, hash, limit)
      ensures valves == v0 <==> Fits(m.Keys, hash, newCap)
      ensures valves == v0 ==> |slots| == newCap && moved == moved0 + |m|
    {
      FitsAll(limit);
    }

    lemma CanReadd(m: map<K, V>, newCap: nat, limit: nat, v0: nat, moved0: nat)
      requires Resizing(m, newCap, limit, v0, moved0) && |contents| < |m|
      ensures Valid() && count < growAt && IsPow2(limit) && newCap <= |slots| <= limit
    {
      Unfold();
    }

    /** Reinsert one entry of `m` that is not in the table yet. */
    method Readd(e: Entry<K, V>, ghost m: map<K, V>, ghost newCap: nat, limit: nat, ghost v0: nat, ghost moved0: nat)
      returns (ok: bool)
      requires Resizing(m, newCap, limit, v0, moved0)
      requires Missing(contents, m, hash, e)
      modifies this, meta, keys, vals, hashes
      ensures || (meta == old(meta) && keys == old(keys) && vals == old(vals) && hashes == old(hashes))
        || (fresh(meta) && fresh(keys) && fresh(vals) && fresh(hashes))
      ensures ok ==> Resizing(m, newCap, limit, v0, moved0) && contents == old(contents)[e.key := e.val]
      ensures !ok ==> !Fits(m.Keys, hash, limit) && !Fits(m.Keys, hash, newCap) && valves > v0
      decreases limit - newCap, 2
    {
      CanReadd(m, newCap, limit, v0, moved0);
      hide Valid;
      hide Fits;
      hide IsPow2;
      ghost var ls, cap := contents.Keys + {e.key}, |slots|;
      NotFits(ls, m.Keys, hash, limit);
      NotFits(ls, m.Keys, hash, cap);
      ok := Set(e.hash, e.key, e.val, limit);
      moved := moved + 1;
      if !ok {
        return;
      }
    }

    /** Reinsert what slot `i` of the old arrays holds, if anything. */
    method ReaddSlot(ms: array<Word16>, ks: array<K>, vs: array<V>, hs: array<Hash>, ghost src: seq<Slot<K, V>>, i: nat,
                     ghost m: map<K, V>, ghost newCap: nat, limit: nat, ghost v0: nat, ghost moved0: nat)
      returns (ok: bool)
      requires Copied(ms, ks, vs, hs, src) && Holds(src, m, hash) && i < |src|
      requires Held(src, m, i, contents) && Resizing(m, newCap, limit, v0, moved0)
      modifies this, meta, keys, vals, hashes
      ensures || (meta == old(meta) && keys == old(keys) && vals == old(vals) && hashes == old(hashes))
        || (fresh(meta) && fresh(keys) && fresh(vals) && fresh(hashes))
      ensures ok ==> Held(src, m, i + 1, contents) && Resizing(m, newCap, limit, v0, moved0)
      ensures !ok ==> !Fits(m.Keys, hash, limit) && !Fits(m.Keys, hash, newCap) && valves > v0
      decreases limit - newCap, 3
    {
      hide *;
      ReadCopy(ms, ks, vs, hs, src, i);
      if ms[i] == 0 {
        HeldEmpty(src, m, i, contents);
        ok := true;
      } else {
        HeldFull(src, m, hash, i, contents);
        ok := Readd(Entry(hs[i], ks[i], vs[i]), m, newCap, limit, v0, moved0);
      }
    }

    /** Reallocate at `newCap` and reinsert every entry by its cached hash.  Nothing is lost
        or duplicated even when the valve opens during a reinsertion and grows further. */
    method Resize(newCap: nat, limit: nat) returns (ok: bool)
      requires Valid() && IsPow2(newCap) && MIN_CAP <= newCap <= limit && IsPow2(limit) && count <= newCap * 3 / 4
      modifies this
      ensures fresh(meta) && fresh(keys) && fresh(vals) && fresh(hashes)
      ensures ok <==> Fits(old(contents).Keys, hash, limit)
      ensures ok ==> Valid() && contents == old(contents) && newCap <= |slots| <= limit
      ensures valves == old(valves) <==> Fits(old(contents).Keys, hash, newCap)
      ensures valves == old(valves) ==> ok && |slots| == newCap && moved == old(moved) + |old(contents)|
      ensures old(valves) <= valves
      decreases limit - newCap, 4
    {
      hide *;
      var ms, ks, vs, hs := meta, keys, vals, hashes;
      ghost var src, m, v0, moved0 := slots, contents, valves, moved;
      Unfold();
      CopyStored();
      HeldStart(src, m);
      Alloc(newCap);
      ResizeStart(m, newCap, limit);
      var i: nat := 0;
      ok := true;
      while i < ms.Length && ok
        invariant i <= |src| && fresh(meta) && fresh(keys) && fresh(vals) && fresh(hashes)
        invariant ok ==> Held(src, m, i, contents) && Resizing(m, newCap, limit, v0, moved0)
        invariant !ok ==> !Fits(m.Keys, hash, limit) && !Fits(m.Keys, hash, newCap) && valves > v0
      {
        ok := ReaddSlot(ms, ks, vs, hs, src, i, m, newCap, limit, v0, moved0);
        i := i + 1;
      }
      if ok {
        HeldDone(src, m, hash, contents);
        Resized(m, newCap, limit, v0, moved0);
      }
    }

    lemma ResizeStart(m: map<K, V>, newCap: nat, limit: nat)
      requires Valid() && contents == map[] && IsPow2(limit) && newCap == |slots| <= limit && |m| <= newCap * 3 / 4
      ensures Resizing(m, newCap, limit, valves, moved)
    {
    }

    /** Store `v` under `k`, growing first when the count has reached the threshold.  The call
        completes exactly when the allocator can provide that doubling and the resulting
        keys fit the limit; the valve opens exactly when they do not fit the capacity that
        the load factor alone would choose. */
    method Insert(h: Hash, k: K, v: V, limit: nat) returns (ok: bool)
      requires Valid() && h == hash(k) && IsPow2(limit) && |slots| <= limit
      modifies this, meta, keys, vals, hashes
      ensures || (meta == old(meta) && keys == old(keys) && vals == old(vals) && hashes == old(hashes))
        || (fresh(meta) && fresh(keys) && fresh(vals) && fresh(hashes))
      ensures ok <==> InsertCap(old(|slots|), old(count)) <= limit && Fits(old(contents).Keys + {k}, hash, limit)
      ensures ok ==> Valid() && contents == old(contents)[k := v] && old(|slots|) <= |slots| <= limit
      ensures ok ==> (valves == old(valves) <==>
        Fits(old(contents).Keys + {k}, hash, InsertCap(old(|slots|), old(count))))
      ensures ok && valves == old(valves) ==>
        && |slots| == InsertCap(old(|slots|), old(count))
        && moved == old(moved) + if |slots| != old(|slots|) then old(count) else 0
      ensures ok && valves == old(valves) && |slots| == old(|slots|) && k !in old(contents) ==>
        Inserted(old(slots), slots, Entry(h, k, v))
      ensures old(valves) <= valves
    {
      Unfold();
      FitsAll(limit);
      FitsDouble(contents.Keys, hash, |slots|);
      Pow2Twice(|slots|);
      assert InsertCap(|slots|, count) == if count >= growAt then 2 * |slots| else |slots|;
      hide *;
      if count >= growAt {
        if 2 * meta.Length > limit {
          return false;
        }
        ok := Grow(limit);
        Unfold();
      }
      ok := Set(h, k, v, limit);
    }

    /** Mid-deletion: slot `i` is vacated but still holds stale words, everything else is in
        place, the empty slot `z` lies ahead, and the gap closes to the slots `goal`. */
    ghost predicate Shifting(i: nat, z: nat, goal: seq<Slot<K, V>>)
      reads this`meta, this`keys, this`vals, this`hashes, this`slots, this`capm1, this`growAt
      reads this`contents, meta, keys, vals, hashes
    {
      && RepExcept(i) && i < |slots| == capm1 + 1 && slots[i].Empty?
      && z < |slots| && slots[z].Empty? && z != i
      && Gap(slots, i) && Holds(slots, contents, hash) && Close(slots, z, i) == goal
    }

    lemma ShiftStart(at: nat) returns (z: nat)
      requires Valid() && at < |slots| && slots[at].Full?
      ensures z < |slots| && slots[z].Empty? && z != at
      ensures Gap(slots[at := Empty], at) && RepExcept(at)
      ensures Holds(slots[at := Empty], contents - {slots[at].e.key}, hash)
      ensures |contents - {slots[at].e.key}| == |contents| - 1
    {
      Unfold();
      z := SomeEmpty(slots, contents, hash);
      GapOpen(slots, at);
      HoldsVacate(slots, contents, hash, at);
      HoldsAt(slots, contents, hash, at);
      var rest := contents - {slots[at].e.key};
      assert contents.Keys == rest.Keys + {slots[at].e.key};
    }

    /** Give slot `at` up: its key is no longer among the contents. */
    ghost method Vacate(at: nat) returns (z: nat, goal: seq<Slot<K, V>>)
      requires Valid() && at < |slots| && slots[at].Full?
      modifies this`slots, this`contents
      ensures |slots| == old(|slots|) && z < |slots| && Shifting(at, z, goal)
      ensures Deleted(old(slots), goal, at)
      ensures contents == old(contents) - {old(slots[at].e.key)} && |contents| + 1 == count <= growAt
    {
      hide *;
      Unfold();
      z := ShiftStart(at);
      goal := Close(slots[at := Empty], z, at);
      DeletedBy(slots, at, z, goal);
      contents := contents - {slots[at].e.key};
      Punch(at);
      ShiftFold(at, z, goal);
    }

    lemma ShiftFacts(i: nat, z: nat, goal: seq<Slot<K, V>>)
      requires Shifting(i, z, goal) && slots[Next(i, |slots|)].Full? && slots[Next(i, |slots|)].dib > 0
      ensures var j := Next(i, |slots|);
        && j != z && j != i && Dist(j, z, |slots|) == Dist(i, z, |slots|) - 1
        && slots[j].e == Entry(hashes[j], keys[j], vals[j]) && slots[j].dib == DibOf(meta[j]) <= MAX_DIB
        && slots[z].Empty? && RepExcept(i)
        && Shift(slots, i) == slots[i := Full(slots[j].e, slots[j].dib - 1)][j := Empty]
    {
      Read(Next(i, |slots|), i);
    }

    lemma ShiftKeeps(i: nat, z: nat, goal: seq<Slot<K, V>>)
      requires Shifting(i, z, goal) && slots[Next(i, |slots|)].Full? && slots[Next(i, |slots|)].dib > 0
      ensures Gap(Shift(slots, i), Next(i, |slots|)) && Holds(Shift(slots, i), contents, hash)
      ensures z < |slots| && Shift(slots, i)[z].Empty? && Next(i, |slots|) != z
      ensures Close(Shift(slots, i), z, Next(i, |slots|)) == goal
    {
      GapShift(slots, i);
      ShiftHolds(slots, contents, hash, i);
    }

    /** Forget slot `j`; its words are now stale. */
    ghost method Punch(j: nat)
      requires RepExcept(-1) && j < |slots|
      modifies this`slots
      ensures RepExcept(j) && slots == old(slots)[j := Empty]
    {
      slots := slots[j := Empty];
    }

    lemma ShiftFold(j: nat, z: nat, goal: seq<Slot<K, V>>)
      requires RepExcept(j) && j < |slots| == capm1 + 1 && slots[j].Empty? && z < |slots| && slots[z].Empty? && z != j
      requires Gap(slots, j) && Holds(slots, contents, hash) && Close(slots, z, j) == goal
      ensures Shifting(j, z, goal)
    {
    }

    /** Pull the entry after the hole back by one slot. */
    method ShiftOne(i: nat, ghost z: nat, ghost goal: seq<Slot<K, V>>) returns (j: nat)
      requires i < |slots| && z < |slots| && Shifting(i, z, goal)
      requires slots[Next(i, |slots|)].Full? && slots[Next(i, |slots|)].dib > 0
      modifies meta, keys, vals, hashes, this`slots
      ensures |slots| == old(|slots|) && j < |slots| && z < |slots| && Shifting(j, z, goal)
      ensures Dist(j, z, |slots|) == Dist(i, z, |slots|) - 1
    {
      hide *;
      ShiftRead(i, z, goal);
      ShiftKeeps(i, z, goal);
      ShiftFacts(i, z, goal);
      j := Next(i, capm1 + 1);
      Store(i, Entry(hashes[j], keys[j], vals[j]), DibOf(meta[j]) - 1);
      Punch(j);
      ShiftFold(j, z, goal);
    }

    /** Pull displaced entries back over the vacated slot `at` until a home entry or an empty
        slot, then clear the slot left over. */
    method BackwardShift(at: nat)
      requires Valid() && at < |slots| && slots[at].Full?
      modifies meta, keys, vals, hashes, this`slots, this`contents, this`count
      ensures Valid() && contents == old(contents) - {old(slots[at].e.key)} && |slots| == old(|slots|)
      ensures Deleted(old(slots), slots, at)
    {
      hide *;
      ghost var z, goal := Vacate(at);
      var i: nat := at;
      ghost var n := |slots|;
      while true
        invariant i < |slots| == n && z < n && Shifting(i, z, goal)
        invariant contents == old(contents) - {old(slots[at].e.key)} && |contents| + 1 == count <= growAt
        decreases Dist(i, z, n)
      {
        ShiftRead(i, z, goal);
        var j: nat := Next(i, capm1 + 1);
        if meta[j] == 0 || DibOf(meta[j]) == 0 {
          break;
        }
        i := ShiftOne(i, z, goal);
      }
      ShiftEnd(i, z, goal);
      Clear(i);
      count := count - 1;
      Fold();
    }

    lemma ShiftEnd(i: nat, z: nat, goal: seq<Slot<K, V>>)
      requires Shifting(i, z, goal) && (slots[Next(i, |slots|)].Full? ==> slots[Next(i, |slots|)].dib == 0)
      ensures i < |slots| && slots[i].Empty? && RepExcept(i) && Layout(slots) && Holds(slots, contents, hash)
        && slots == goal
    {
      GapClose(slots, i);
    }

    /** Clear the stale words of a vacated slot. */
    method Clear(i: nat)
      requires RepExcept(i) && i < |slots| && slots[i].Empty?
      modifies meta, keys, vals, hashes
      ensures RepExcept(-1)
    {
      meta[i] := 0;
      keys[i] := *;
      vals[i] := *;
      hashes[i] := 0;
    }

    lemma ShiftRead(i: nat, z: nat, goal: seq<Slot<K, V>>)
      requires Shifting(i, z, goal)
      ensures i < |slots| == capm1 + 1 == meta.Length == keys.Length == vals.Length == hashes.Length
      ensures var j := Next(i, |slots|);
        && (slots[j].Empty? <==> meta[j] == 0) && (slots[j].Full? ==> slots[j].dib == DibOf(meta[j]))
    {
      assert Next(i, |slots|) != i;
      Read(Next(i, |slots|), i);
    }

    /** Remove `k`, repair the chain, and halve the table when the load falls below a quarter.
        A delete never needs more room than the table already has. */
    method Delete(h: Hash, k: K) returns (r: Option<V>)
      requires Valid() && h == hash(k)
      modifies this, meta, keys, vals, hashes
      ensures || (meta == old(meta) && keys == old(keys) && vals == old(vals) && hashes == old(hashes))
        || (fresh(meta) && fresh(keys) && fresh(vals) && fresh(hashes))
      ensures Valid() && contents == old(contents) - {k} && |slots| <= old(|slots|)
      ensures r == if k in old(contents) then Some(old(contents)[k]) else None
      ensures r.None? ==> slots == old(slots) && valves == old(valves) && moved == old(moved)
      ensures r.Some? ==> (valves == old(valves) <==> Fits(contents.Keys, hash, DeleteCap(old(|slots|), |contents|)))
      ensures r.Some? && |slots| == old(|slots|) == DeleteCap(old(|slots|), |contents|) ==>
        exists at :: 0 <= at < old(|slots|) && old(slots)[at].Full? && old(slots)[at].e.key == k
          && Deleted(old(slots), slots, at)
      ensures r.Some? && valves == old(valves) ==>
        && |slots| == DeleteCap(old(|slots|), |contents|)
        && moved == old(moved) + if |slots| != old(|slots|) then |contents| else 0
      ensures old(valves) <= valves
    {
      hide *;
      Unfold();
      var found, i := Locate(h, k);
      if found {
        r := Some(vals[i]);
        BackwardShift(i);
        Shrink();
      } else {
        NothingToRemove(contents, k);
        r := None;
      }
    }

    /** Halve the table when fewer than a quarter of its slots are filled. */
    method Shrink()
      requires Valid()
      modifies this
      ensures || (meta == old(meta) && keys == old(keys) && vals == old(vals) && hashes == old(hashes))
        || (fresh(meta) && fresh(keys) && fresh(vals) && fresh(hashes))
      ensures Valid() && contents == old(contents) && |slots| <= old(|slots|)
      ensures old(|slots|) == DeleteCap(old(|slots|), |contents|) ==> slots == old(slots)
      ensures valves == old(valves) <==> Fits(contents.Keys, hash, DeleteCap(old(|slots|), |contents|))
      ensures valves == old(valves) ==>
        && |slots| == DeleteCap(old(|slots|), |contents|)
        && moved == old(moved) + if |slots| != old(|slots|) then |contents| else 0
      ensures old(valves) <= valves
    {
      Unfold();
      ghost var cap := |slots|;
      FitsAll(cap);
      var curCap := meta.Length;
      if curCap <= MIN_CAP || count >= curCap / 4 {
        return;
      }
      Pow2Half(cap);
      assert MIN_CAP <= curCap / 2 && count <= curCap / 2 * 3 / 4;
      assert DeleteCap(cap, |contents|) == curCap / 2;
      hide *;
      var ok := Resize(curCap / 2, curCap);
    }
  }
}
