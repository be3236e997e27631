/** Scans over the slots of one table: the walk behind Range, and the draw of one random resident
    behind Sample. */
module TableScan {
  import opened Ring
  import opened RobinHoodLayout
  import opened RobinHoodTable
  import opened Shards

  // ---- The walk ----

  /** The keys resident in the first `i` slots. */
  ghost function KeysBefore<K, V>(s: seq<Slot<K, V>>, i: nat): set<K>
    requires i <= |s|
  {
    set j | 0 <= j < i && s[j].Full? :: s[j].e.key
  }

  lemma KeysBeforeNext<K(!new), V>(s: seq<Slot<K, V>>, c: map<K, V>, hash: K -> Hash, i: nat)
    requires Holds(s, c, hash) && i < |s|
    ensures s[i].Empty? ==> KeysBefore(s, i + 1) == KeysBefore(s, i)
    ensures s[i].Full? ==>
      var e := s[i].e;
      KeysBefore(s, i + 1) == KeysBefore(s, i) + {e.key} && e.key !in KeysBefore(s, i) && e.key in c
        && c[e.key] == e.val
  {
    if s[i].Full? {
      assert Bound(s[i].e, c, hash);
    }
  }

  lemma KeysBeforeAll<K(!new), V>(s: seq<Slot<K, V>>, c: map<K, V>, hash: K -> Hash)
    requires Holds(s, c, hash)
    ensures KeysBefore(s, |s|) == c.Keys && KeysBefore(s, 0) == {}
  {
    forall k | k in c.Keys
      ensures k in KeysBefore(s, |s|)
    {
      assert At(s, k);
    }
    forall k | k in KeysBefore(s, |s|)
      ensures k in c.Keys
    {
      var j :| 0 <= j < |s| && s[j].Full? && s[j].e.key == k;
      assert Bound(s[j].e, c, hash);
    }
  }

  /** `v` continues `was` with bindings of `m` from beyond `ks`. */
  ghost predicate Continues<K(!new), V>(was: seq<(K, V)>, v: seq<(K, V)>, m: map<K, V>, ks: set<K>)
  {
    was <= v && Visits(v, m, ks)
  }

  lemma ContinueOne<K(!new), V>(was: seq<(K, V)>, v: seq<(K, V)>, m: map<K, V>, ks: set<K>, k: K, x: V)
    requires Continues(was, v, m, ks) && k in m && m[k] == x && k !in ks
    ensures Continues(was, v + [(k, x)], m, ks + {k})
  {
    hide Visits;
    VisitOne(v, m, ks, k);
  }

  /** A walk over the table of `c` that has come to slot `i`. */
  ghost predicate Walking<K(!new), V>(s: seq<Slot<K, V>>, c: map<K, V>, hash: K -> Hash, i: nat,
                                      go: seq<(K, V)> -> bool, was: seq<(K, V)>, v: seq<(K, V)>,
                                      m: map<K, V>, ks: set<K>, seen: set<K>)
  {
    && Holds(s, c, hash) && i <= |s| && c.Keys !! ks && (forall k :: k in c ==> k in m && m[k] == c[k])
    && seen == ks + KeysBefore(s, i) && Continues(was, v, m, seen) && Approved(v, go)
  }

  lemma WalkStarts<K(!new), V>(s: seq<Slot<K, V>>, c: map<K, V>, hash: K -> Hash, go: seq<(K, V)> -> bool,
                               was: seq<(K, V)>, m: map<K, V>, ks: set<K>)
    requires Holds(s, c, hash) && c.Keys !! ks && forall k :: k in c ==> k in m && m[k] == c[k]
    requires Visits(was, m, ks) && Approved(was, go)
    ensures Walking(s, c, hash, 0, go, was, was, m, ks, ks)
  {
    hide Holds;
    hide Visits;
    assert KeysBefore(s, 0) == {};
  }

  lemma WalkEmpty<K(!new), V>(s: seq<Slot<K, V>>, c: map<K, V>, hash: K -> Hash, i: nat, go: seq<(K, V)> -> bool,
    was: seq<(K, V)>, v: seq<(K, V)>, m: map<K, V>, ks: set<K>, seen: set<K>)
    requires Walking(s, c, hash, i, go, was, v, m, ks, seen) && i < |s| && s[i].Empty?
    ensures Walking(s, c, hash, i + 1, go, was, v, m, ks, seen)
  {
    hide Holds;
    hide KeysBefore;
    KeysBeforeNext(s, c, hash, i);
  }

  lemma WalkFull<K(!new), V>(s: seq<Slot<K, V>>, c: map<K, V>, hash: K -> Hash, i: nat, go: seq<(K, V)> -> bool,
    was: seq<(K, V)>, v: seq<(K, V)>, m: map<K, V>, ks: set<K>, seen: set<K>)
    requires Walking(s, c, hash, i, go, was, v, m, ks, seen) && i < |s| && s[i].Full?
    ensures var w, more := v + [(s[i].e.key, s[i].e.val)], seen + {s[i].e.key};
      && Continues(was, w, m, more) && w[..|w| - 1] == v && Approved(v, go)
      && (go(w) ==> Walking(s, c, hash, i + 1, go, was, w, m, ks, more))
  {
    hide Holds;
    hide KeysBefore;
    hide Continues;
    hide Approved;
    KeysBeforeNext(s, c, hash, i);
    ContinueOne(was, v, m, seen, s[i].e.key, s[i].e.val);
    ApprovedNext(v, (s[i].e.key, s[i].e.val), go);
  }

  lemma WalkEnds<K(!new), V>(s: seq<Slot<K, V>>, c: map<K, V>, hash: K -> Hash, go: seq<(K, V)> -> bool,
    was: seq<(K, V)>, v: seq<(K, V)>, m: map<K, V>, ks: set<K>, seen: set<K>)
    requires Walking(s, c, hash, |s|, go, was, v, m, ks, seen)
    ensures Continues(was, v, m, seen) && seen == ks + c.Keys && Approved(v, go)
  {
    KeysBeforeAll(s, c, hash);
  }

  /** Visit every occupied slot after `was`, asking `go` after each whether to go on. */
  method Walk<K(==, 0, !new), V(0)>(t: Table<K, V>, go: seq<(K, V)> -> bool, was: seq<(K, V)>, ghost m: map<K, V>,
                                    ghost ks: set<K>)
    returns (v: seq<(K, V)>, all: bool, ghost seen: set<K>)
    requires t.Valid() && Visits(was, m, ks) && Approved(was, go)
    requires t.contents.Keys !! ks && forall k :: k in t.contents ==> k in m && m[k] == t.contents[k]
    ensures Continues(was, v, m, seen)
    ensures all ==> seen == ks + t.contents.Keys && Approved(v, go)
    ensures !all ==> |v| > 0 && !go(v) && Approved(v[..|v| - 1], go)
  {
    hide *;
    t.Unfold();
    v, all, seen := was, true, ks;
    ghost var s, c, hash := t.slots, t.contents, t.hash;
    WalkStarts(s, c, hash, go, was, m, ks);
    var i := 0;
    while i < t.capm1 + 1
      invariant 0 <= i <= |s| && Walking(s, c, hash, i, go, was, v, m, ks, seen)
    {
      t.Read(i, -1);
      if t.meta[i] == 0 {
        WalkEmpty(s, c, hash, i, go, was, v, m, ks, seen);
      } else {
        WalkFull(s, c, hash, i, go, was, v, m, ks, seen);
        v := v + [(t.keys[i], t.vals[i])];
        seen := seen + {t.keys[i]};
        if !go(v) {
          all := false;
          return;
        }
      }
      i := i + 1;
    }
    WalkEnds(s, c, hash, go, was, v, m, ks, seen);
  }

  // ---- The draw ----

  const SLOT_TRIES: nat := 8

  /** The first full slot from `i` on, within `n` steps. */
  function NextFull<K, V>(s: seq<Slot<K, V>>, i: nat, n: nat): (r: nat)
    requires i < |s|
    ensures r < |s|
    decreases n
  {
    if n == 0 || s[i].Full? then i else NextFull(s, Next(i, |s|), n - 1)
  }

  /** The slot drawn, and how many random numbers are used up with it: `t` tries have failed. */
  function Probed<K, V>(s: seq<Slot<K, V>>, rand: nat -> Hash, pos: nat, t: nat): (r: (nat, nat))
    requires |s| > 0 && t <= SLOT_TRIES
    ensures r.0 < |s|
    decreases SLOT_TRIES - t
  {
    var i := Home(rand(pos + t), |s|);
    if t == SLOT_TRIES then (NextFull(s, i, |s|), pos + t + 1)
    else if s[i].Full? then (i, pos + t + 1)
    else Probed(s, rand, pos, t + 1)
  }

  /** The slot `sampleSlot` draws from the random numbers at `pos` on. */
  function Drawn<K, V>(s: seq<Slot<K, V>>, rand: nat -> Hash, pos: nat): (r: (nat, nat))
    requires |s| > 0
    ensures r.0 < |s|
  {
    Probed(s, rand, pos, 0)
  }

  lemma {:induction false} NextFullIs<K, V>(s: seq<Slot<K, V>>, i: nat, n: nat, z: nat)
    requires i < |s| && z < |s| && s[z].Full? && Dist(i, z, |s|) <= n
    ensures s[NextFull(s, i, n)].Full?
    decreases n
  {
    if n > 0 && s[i].Empty? {
      NextFullIs(s, Next(i, |s|), n - 1, z);
    }
  }

  lemma {:induction false} ProbedFull<K, V>(s: seq<Slot<K, V>>, rand: nat -> Hash, pos: nat, t: nat, z: nat)
    requires z < |s| && s[z].Full? && t <= SLOT_TRIES
    ensures s[Probed(s, rand, pos, t).0].Full?
    decreases SLOT_TRIES - t
  {
    var i := Home(rand(pos + t), |s|);
    if t == SLOT_TRIES {
      NextFullIs(s, i, |s|, z);
    } else if s[i].Empty? {
      ProbedFull(s, rand, pos, t + 1, z);
    }
  }

  lemma SomeFull<K(!new), V>(s: seq<Slot<K, V>>, c: map<K, V>, hash: K -> Hash) returns (z: nat)
    requires Holds(s, c, hash) && |c| > 0
    ensures z < |s| && s[z].Full?
  {
    assert c.Keys != {} by { assert |c.Keys| == |c|; }
    var k :| k in c.Keys;
    assert At(s, k);
    z :| 0 <= z < |s| && s[z].Full? && s[z].e.key == k;
  }

  /** The scan stops at the first full slot: every slot it passes is empty. */
  lemma {:induction false} NextFullFirst<K, V>(s: seq<Slot<K, V>>, i: nat, n: nat, y: nat)
    requires i < |s| && y < |s| && s[NextFull(s, i, n)].Full?
    requires Dist(i, y, |s|) < Dist(i, NextFull(s, i, n), |s|)
    ensures s[y].Empty?
    decreases n
  {
    if n > 0 && s[i].Empty? && y != i {
      NextFullFirst(s, Next(i, |s|), n - 1, y);
    }
  }

  /** Random number `p` names a full slot. */
  predicate Hits<K, V>(s: seq<Slot<K, V>>, rand: nat -> Hash, p: nat)
    requires |s| > 0
  {
    s[Home(rand(p), |s|)].Full?
  }

  lemma {:induction false} ProbedIsFirst<K, V>(s: seq<Slot<K, V>>, rand: nat -> Hash, pos: nat, t: nat)
    requires |s| > 0 && t <= SLOT_TRIES
    ensures var (i, next) := Probed(s, rand, pos, t);
      && pos + t < next <= pos + SLOT_TRIES + 1 && (forall p :: pos + t <= p < next - 1 ==> !Hits(s, rand, p))
      && (if next <= pos + SLOT_TRIES then Hits(s, rand, next - 1) && i == Home(rand(next - 1), |s|)
          else i == NextFull(s, Home(rand(next - 1), |s|), |s|))
    decreases SLOT_TRIES - t
  {
    hide Home;
    if t < SLOT_TRIES && !Hits(s, rand, pos + t) {
      ProbedIsFirst(s, rand, pos, t + 1);
    }
  }

  /** The draw takes the first of eight random numbers that names a full slot; if none does, the first full
      slot at or after the one the ninth names.  It uses up just the numbers it has looked at. */
  lemma DrawnIsFirst<K, V>(s: seq<Slot<K, V>>, rand: nat -> Hash, pos: nat, y: nat)
    requires |s| > 0 && y < |s|
    ensures var (i, next) := Drawn(s, rand, pos);
      && pos < next <= pos + 9 && (forall p :: pos <= p < next - 1 ==> !Hits(s, rand, p))
      && (next <= pos + 8 ==> Hits(s, rand, next - 1) && i == Home(rand(next - 1), |s|))
      && (next == pos + 9 && s[i].Full? ==>
          var start := Home(rand(next - 1), |s|); Dist(start, y, |s|) < Dist(start, i, |s|) ==> s[y].Empty?)
  {
    ProbedIsFirst(s, rand, pos, 0);
    var (i, next) := Drawn(s, rand, pos);
    hide Home;
    if next == pos + 9 && s[i].Full? {
      var start := Home(rand(next - 1), |s|);
      if Dist(start, y, |s|) < Dist(start, i, |s|) {
        NextFullFirst(s, start, |s|, y);
      }
    }
    hide Probed;
  }

  lemma ProbedMore<K, V>(s: seq<Slot<K, V>>, rand: nat -> Hash, pos: nat, t: nat)
    requires |s| > 0 && t < SLOT_TRIES && s[Home(rand(pos + t), |s|)].Empty?
    ensures Probed(s, rand, pos, t) == Probed(s, rand, pos, t + 1)
  {
  }

  lemma ProbedHere<K, V>(s: seq<Slot<K, V>>, rand: nat -> Hash, pos: nat, t: nat)
    requires |s| > 0 && t < SLOT_TRIES && s[Home(rand(pos + t), |s|)].Full?
    ensures Probed(s, rand, pos, t) == (Home(rand(pos + t), |s|), pos + t + 1)
  {
  }

  /** A few random probes, then a scan that cannot miss. */
  method SampleSlot<K(==, 0, !new), V(0)>(t: Table<K, V>, rand: nat -> Hash, pos: nat) returns (i: nat, next: nat)
    requires t.Valid() && t.count > 0
    ensures |t.slots| > 0 && (i, next) == Drawn(t.slots, rand, pos) && t.slots[i].Full?
  {
    hide *;
    t.Unfold();
    ghost var z := SomeFull(t.slots, t.contents, t.hash);
    ProbedFull(t.slots, rand, pos, 0, z);
    DrawnIs(t.slots, rand, pos);
    var found;
    found, i, next := TrySlots(t, rand, pos);
    if !found {
      i := ScanFrom(t, i, z);
      ProbedLast(t.slots, rand, pos);
    }
  }

  lemma DrawnIs<K, V>(s: seq<Slot<K, V>>, rand: nat -> Hash, pos: nat)
    requires |s| > 0
    ensures Drawn(s, rand, pos) == Probed(s, rand, pos, 0)
  {
  }

  lemma EightTries()
    ensures SLOT_TRIES == 8
  {
  }

  /** The random probes: a full slot, or where the scan is to start. */
  method TrySlots<K(==, 0, !new), V(0)>(t: Table<K, V>, rand: nat -> Hash, pos: nat)
    returns (found: bool, i: nat, next: nat)
    requires t.Valid()
    ensures i < |t.slots|
    ensures found ==> (i, next) == Probed(t.slots, rand, pos, 0)
    ensures !found ==> Probed(t.slots, rand, pos, 0) == Probed(t.slots, rand, pos, SLOT_TRIES)
    ensures !found ==> i == Home(rand(pos + SLOT_TRIES), |t.slots|) && next == pos + SLOT_TRIES + 1
  {
    hide *;
    t.Unfold();
    EightTries();
    var tries := 0;
    while tries < 8
      invariant 0 <= tries <= 8 && Probed(t.slots, rand, pos, 0) == Probed(t.slots, rand, pos, tries)
    {
      i := Home(rand(pos + tries), t.capm1 + 1);
      t.Read(i, -1);
      if t.meta[i] != 0 {
        ProbedHere(t.slots, rand, pos, tries);
        return true, i, pos + tries + 1;
      }
      ProbedMore(t.slots, rand, pos, tries);
      tries := tries + 1;
    }
    return false, Home(rand(pos + tries), t.capm1 + 1), pos + tries + 1;
  }

  lemma ProbedLast<K, V>(s: seq<Slot<K, V>>, rand: nat -> Hash, pos: nat)
    requires |s| > 0
    ensures Probed(s, rand, pos, SLOT_TRIES)
      == (NextFull(s, Home(rand(pos + SLOT_TRIES), |s|), |s|), pos + SLOT_TRIES + 1)
  {
  }

  lemma DistBelow(i: nat, z: nat, cap: nat)
    requires i < cap && z < cap
    ensures Dist(i, z, cap) <= cap
  {
  }

  lemma NextFullStep<K, V>(s: seq<Slot<K, V>>, i: nat, n: nat, z: nat)
    requires i < |s| && z < |s| && s[z].Full? && Dist(i, z, |s|) <= n
    ensures s[i].Full? ==> NextFull(s, i, n) == i
    ensures s[i].Empty? ==>
      n > 0 && NextFull(s, i, n) == NextFull(s, Next(i, |s|), n - 1) && Dist(Next(i, |s|), z, |s|) <= n - 1
  {
  }

  method ScanFrom<K(==, 0, !new), V(0)>(t: Table<K, V>, start: nat, ghost z: nat) returns (i: nat)
    requires t.Valid() && start < |t.slots| && z < |t.slots| && t.slots[z].Full?
    ensures i == NextFull(t.slots, start, |t.slots|)
  {
    hide *;
    t.Unfold();
    i := start;
    ghost var n := |t.slots|;
    DistBelow(i, z, n);
    while true
      invariant i < |t.slots| && Dist(i, z, |t.slots|) <= n
      invariant NextFull(t.slots, i, n) == NextFull(t.slots, start, |t.slots|)
      decreases n
    {
      t.Read(i, -1);
      NextFullStep(t.slots, i, n, z);
      if t.meta[i] != 0 {
        return;
      }
      i := Next(i, t.capm1 + 1);
      n := n - 1;
    }
  }
}
