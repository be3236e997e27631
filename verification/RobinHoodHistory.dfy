/** What the layout remembers of the past: nothing.  The set of keys alone decides which
    slots are filled and how far each is from its home. */
module RobinHoodHistory {
  import opened Finite
  import opened Ring
  import opened RobinHoodLayout

  ghost predicate SameShape<K, V>(s: seq<Slot<K, V>>, t: seq<Slot<K, V>>)
  {
    && |s| == |t|
    && (forall i :: 0 <= i < |s| ==> SameSlotShape(s, t, i))
  }

  ghost predicate SameSlotShape<K, V>(s: seq<Slot<K, V>>, t: seq<Slot<K, V>>, i: nat)
    requires i < |s| && i < |t|
  {
    && (s[i].Full? <==> t[i].Full?)
    && (s[i].Full? ==> s[i].dib == t[i].dib && Home(s[i].e.hash, |s|) == Home(t[i].e.hash, |t|))
  }

  /** No window that ends at `z` is asked for by as many keys as it has slots. */
  ghost predicate Slack<K>(ks: set<K>, hash: K -> Hash, z: nat, cap: nat)
    requires z < cap
  {
    forall len :: 1 <= len <= cap ==> SlackAt(ks, hash, z, len, cap)
  }

  ghost predicate SlackAt<K>(ks: set<K>, hash: K -> Hash, z: nat, len: nat, cap: nat)
    requires z < cap && 1 <= len <= cap
  {
    |KeysIn(ks, hash, Back(z, len - 1, cap), len, cap)| < len
  }

  /** Entries that ask for a window ending at an empty slot sit inside the window, before that slot. */
  lemma EmptyHasSlack<K(!new), V>(s: seq<Slot<K, V>>, m: map<K, V>, hash: K -> Hash, z: nat)
    requires Layout(s) && Holds(s, m, hash) && z < |s| && s[z].Empty?
    ensures Slack(m.Keys, hash, z, |s|)
  {
    hide Home;
    var cap := |s|;
    forall len | 1 <= len <= cap ensures SlackAt(m.Keys, hash, z, len, cap) {
      var a := Back(z, len - 1, cap);
      SlotsInCount(s, m, hash, a, len);
      forall i | i in SlotsIn(s, a, len) ensures i in Arc(a, len - 1, cap) {
        NoCrossing(s, z, i);
      }
      ArcSize(a, len - 1, cap);
      SubsetSize(SlotsIn(s, a, len), Arc(a, len - 1, cap));
    }
  }

  /** The run up to a filled slot is asked for by as many keys as it has slots. */
  lemma FullHasNoSlack<K(!new), V>(s: seq<Slot<K, V>>, m: map<K, V>, hash: K -> Hash, y: nat, z: nat)
    requires Layout(s) && Holds(s, m, hash) && y < |s| && s[y].Empty? && z < |s| && s[z].Full?
    ensures !Slack(m.Keys, hash, z, |s|)
  {
    hide Home;
    var cap := |s|;
    var a := RunStart(s, y, z);
    var len := Dist(a, z, cap) + 1;
    assert a == Back(z, len - 1, cap);
    forall i | i in Arc(a, len, cap) ensures i in SlotsIn(s, a, len) {
      assert Dist(y, i, cap) == Dist(y, a, cap) + Dist(a, i, cap);
      assert s[i].Full?;
      HomesSorted(s, y, a, i);
      NoCrossing(s, y, i);
    }
    ArcSize(a, len, cap);
    SubsetSize(Arc(a, len, cap), SlotsIn(s, a, len));
    SlotsInCount(s, m, hash, a, len);
    assert !SlackAt(m.Keys, hash, z, len, cap);
  }

  lemma SameOccupancy<K(!new), V>(s: seq<Slot<K, V>>, t: seq<Slot<K, V>>, m: map<K, V>, n: map<K, V>, hash: K -> Hash,
                                  i: nat)
    requires Layout(s) && Layout(t) && Holds(s, m, hash) && Holds(t, n, hash)
    requires m.Keys == n.Keys && |s| == |t| && |m| < |s| && i < |s|
    ensures s[i].Full? <==> t[i].Full?
  {
    assert |m| == |m.Keys| && |n| == |n.Keys|;
    var y := SomeEmpty(s, m, hash);
    var y' := SomeEmpty(t, n, hash);
    if s[i].Full? {
      FullHasNoSlack(s, m, hash, y, i);
    } else {
      EmptyHasSlack(s, m, hash, i);
    }
    if t[i].Full? {
      FullHasNoSlack(t, n, hash, y', i);
    } else {
      EmptyHasSlack(t, n, hash, i);
    }
  }

  /** The filled slots up to `p`, seen from the empty slot `z`. */
  ghost function FilledTo<K, V>(s: seq<Slot<K, V>>, z: nat, n: nat): set<nat>
    requires z < |s|
  {
    set i | 0 <= i < |s| && s[i].Full? && Dist(z, i, |s|) <= n
  }

  /** If `p`'s home is `x` past `z`, everything filled up to `p` asks for the first `x` slots. */
  lemma FilledAsk<K, V>(s: seq<Slot<K, V>>, z: nat, p: nat, x: nat)
    requires Layout(s) && z < |s| && s[z].Empty? && p < |s| && s[p].Full?
    requires x == Dist(z, p, |s|) - s[p].dib
    ensures FilledTo(s, z, Dist(z, p, |s|)) <= SlotsIn(s, Next(z, |s|), x)
  {
    hide Home;
    forall i | i in FilledTo(s, z, Dist(z, p, |s|)) ensures i in SlotsIn(s, Next(z, |s|), x) {
      HomesSorted(s, z, i, p);
      NoCrossing(s, z, i);
    }
  }

  /** If `p`'s home is more than `x` past `z`, whoever asks for the first `x` slots sits before `p`. */
  lemma AskedBefore<K, V>(s: seq<Slot<K, V>>, z: nat, p: nat, x: nat)
    requires Layout(s) && z < |s| && s[z].Empty? && p < |s| && s[p].Full?
    requires 1 <= x < Dist(z, p, |s|) - s[p].dib
    ensures SlotsIn(s, Next(z, |s|), x) <= FilledTo(s, z, Dist(z, p, |s|) - 1)
  {
    hide Home;
    forall i | i in SlotsIn(s, Next(z, |s|), x) ensures i in FilledTo(s, z, Dist(z, p, |s|) - 1) {
      NoCrossing(s, z, i);
      if Dist(z, i, |s|) >= Dist(z, p, |s|) {
        HomesSorted(s, z, p, i);
      }
    }
  }

  /** Equal filled slots, and as many asking for the first `x` of them: `t`'s `p` cannot
      have its home beyond `x` when `s`'s `p` has its home at `x`. */
  lemma HomeNotBeyond<K, V>(s: seq<Slot<K, V>>, t: seq<Slot<K, V>>, z: nat, p: nat, x: nat)
    requires Layout(s) && Layout(t) && |s| == |t|
    requires forall i :: 0 <= i < |s| ==> (s[i].Full? <==> t[i].Full?)
    requires z < |s| && s[z].Empty? && p < |s| && s[p].Full?
    requires 1 <= x == Dist(z, p, |s|) - s[p].dib
    requires |SlotsIn(s, Next(z, |s|), x)| == |SlotsIn(t, Next(z, |s|), x)|
    ensures t[p].dib >= s[p].dib
  {
    hide InWindow;
    hide Layout;
    var a, w := Next(z, |s|), Dist(z, p, |s|);
    if t[p].dib < s[p].dib {
      FilledAsk(s, z, p, x);
      AskedBefore(t, z, p, x);
      SubsetSize(FilledTo(s, z, w), SlotsIn(s, a, x));
      SubsetSize(SlotsIn(t, a, x), FilledTo(t, z, w - 1));
      assert FilledTo(t, z, w - 1) <= FilledTo(s, z, w);
      assert p in FilledTo(s, z, w) && p !in FilledTo(t, z, w - 1);
      SubsetSize(FilledTo(t, z, w - 1), FilledTo(s, z, w));
    }
  }

  lemma DibAtLeast<K(!new), V>(s: seq<Slot<K, V>>, t: seq<Slot<K, V>>, m: map<K, V>, n: map<K, V>, hash: K -> Hash,
                               z: nat, p: nat)
    requires Layout(s) && Layout(t) && Holds(s, m, hash) && Holds(t, n, hash)
    requires m.Keys == n.Keys && |s| == |t|
    requires forall i :: 0 <= i < |s| ==> (s[i].Full? <==> t[i].Full?)
    requires z < |s| && s[z].Empty? && p < |s| && s[p].Full?
    ensures t[p].dib >= s[p].dib
  {
    NoCrossing(s, z, p);
    hide Layout;
    hide Holds;
    var a, x := Next(z, |s|), Dist(z, p, |s|) - s[p].dib;
    SlotsInCount(s, m, hash, a, x);
    SlotsInCount(t, n, hash, a, x);
    HomeNotBeyond(s, t, z, p, x);
  }

  lemma HomeFromDib<K, V>(s: seq<Slot<K, V>>, i: nat)
    requires Layout(s) && i < |s| && s[i].Full?
    ensures s[i].dib < |s| && Home(s[i].e.hash, |s|) == Back(i, s[i].dib, |s|)
  {
    hide Home;
    assert SlotOk(s, i);
  }

  /** Layout is history-independent: two well-formed tables of one capacity that hold the
      same keys fill the same slots at the same displacements, whatever inserts, robberies,
      overwrites and deletes led to them. */
  lemma HistoryIndependent<K(!new), V>(s: seq<Slot<K, V>>, t: seq<Slot<K, V>>, m: map<K, V>, n: map<K, V>,
                                       hash: K -> Hash)
    requires Layout(s) && Layout(t) && Holds(s, m, hash) && Holds(t, n, hash)
    requires m.Keys == n.Keys && |s| == |t| && |m| < |s|
    ensures SameShape(s, t)
  {
    hide Home;
    hide Layout;
    hide Holds;
    forall i | 0 <= i < |s| ensures s[i].Full? <==> t[i].Full? {
      SameOccupancy(s, t, m, n, hash, i);
    }
    var z := SomeEmpty(s, m, hash);
    forall i | 0 <= i < |s| ensures SameSlotShape(s, t, i) {
      if s[i].Full? {
        DibAtLeast(s, t, m, n, hash, z, i);
        DibAtLeast(t, s, n, m, hash, z, i);
        HomeFromDib(s, i);
        HomeFromDib(t, i);
      }
    }
  }
}
