/** Does deleting a key restore the table exactly?  Insertion and backward shift as functions
    on slot sequences, and the exact condition under which the second undoes the first. */
module RobinHoodRestore {
  import opened Ring
  import opened RobinHoodLayout

  /** The displacement loop when the valve stays shut and the key is new: the final slots. */
  ghost function Place<K, V>(s: seq<Slot<K, V>>, z: nat, i: nat, e: Entry<K, V>, d: nat): seq<Slot<K, V>>
    requires i < |s| && z < |s| && s[z].Empty?
    decreases if z < |s| && i < |s| then Dist(i, z, |s|) else 0
  {
    if s[i].Empty? then s[i := Full(e, d)]
    else if s[i].dib < d then Place(s[i := Full(e, d)], z, Next(i, |s|), s[i].e, s[i].dib + 1)
    else Place(s, z, Next(i, |s|), e, d + 1)
  }

  /** Backward shift from the hole at `i`: the final slots. */
  ghost function Close<K, V>(s: seq<Slot<K, V>>, y: nat, i: nat): seq<Slot<K, V>>
    requires i < |s| && y < |s| && s[y].Empty? && y != i
    decreases if y < |s| && i < |s| then Dist(i, y, |s|) else 0
  {
    var j := Next(i, |s|);
    if s[j].Full? && s[j].dib > 0 then Close(Shift(s, i), y, j) else s
  }

  /** `t` is what inserting the new entry `e` makes of `s`. */
  ghost predicate Inserted<K, V>(s: seq<Slot<K, V>>, t: seq<Slot<K, V>>, e: Entry<K, V>)
  {
    exists z :: 0 <= z < |s| && s[z].Empty? && t == Place(s, z, Home(e.hash, |s|), e, 0)
  }

  /** `t` is what deleting the key of slot `at` makes of `s`. */
  ghost predicate Deleted<K, V>(s: seq<Slot<K, V>>, t: seq<Slot<K, V>>, at: nat)
  {
    at < |s| && exists y :: 0 <= y < |s| && s[y].Empty? && y != at && t == Close(s[at := Empty], y, at)
  }

  /** From slot `i` on, with `d` one more than the displacement just before it, no entry up to
      the next empty slot shares its predecessor's home. */
  ghost predicate Calm<K, V>(s: seq<Slot<K, V>>, z: nat, i: nat, d: nat)
    requires i < |s| && z < |s| && s[z].Empty?
    decreases if z < |s| && i < |s| then Dist(i, z, |s|) else 0
  {
    s[i].Full? ==> s[i].dib < d && Calm(s, z, Next(i, |s|), s[i].dib + 1)
  }

  /** Slot `j` may be followed by what slot `Next(j)` holds. */
  ghost predicate StepOk<K, V>(s: seq<Slot<K, V>>, j: nat)
    requires j < |s|
  {
    var n := s[Next(j, |s|)];
    n.Full? ==> n.dib <= if s[j].Empty? then 0 else s[j].dib + 1
  }

  /** Every slot from just after `b` to before `y` may be followed by its successor. */
  ghost predicate Tail<K, V>(s: seq<Slot<K, V>>, b: nat, y: nat)
    requires b < |s| && y < |s|
  {
    forall j :: 0 <= j < |s| && 1 <= Dist(b, j, |s|) < Dist(b, y, |s|) ==> StepOk(s, j)
  }

  lemma {:induction false} PlaceFrame<K, V>(s: seq<Slot<K, V>>, z: nat, i: nat, e: Entry<K, V>, d: nat, b: nat,
                                            x: Slot<K, V>)
    requires i < |s| && z < |s| && s[z].Empty? && b < |s| && Dist(i, z, |s|) < Dist(i, b, |s|)
    ensures |Place(s, z, i, e, d)| == |s|
    ensures Place(s, z, i, e, d)[b] == s[b]
    ensures s[b := x][z].Empty? && Place(s[b := x], z, i, e, d) == Place(s, z, i, e, d)[b := x]
    decreases Dist(i, z, |s|)
  {
    var n := Next(i, |s|);
    if s[i].Empty? {
      assert s[b := x][i := Full(e, d)] == s[i := Full(e, d)][b := x];
    } else if s[i].dib < d {
      PlaceFrame(s[i := Full(e, d)], z, n, s[i].e, s[i].dib + 1, b, x);
      assert s[b := x][i := Full(e, d)] == s[i := Full(e, d)][b := x];
    } else {
      PlaceFrame(s, z, n, e, d + 1, b, x);
    }
  }

  /** Closing a gap touches nothing before the hole. */
  lemma {:induction false} CloseFrame<K, V>(s: seq<Slot<K, V>>, y: nat, i: nat, b: nat)
    requires i < |s| && y < |s| && s[y].Empty? && y != i && b < |s| && Dist(i, y, |s|) < Dist(i, b, |s|)
    ensures |Close(s, y, i)| == |s| && Close(s, y, i)[b] == s[b]
    decreases Dist(i, y, |s|)
  {
    var j := Next(i, |s|);
    if s[j].Full? && s[j].dib > 0 {
      CloseFrame(Shift(s, i), y, j, b);
    }
  }

  lemma {:induction false} CalmFrame<K, V>(s: seq<Slot<K, V>>, z: nat, i: nat, d: nat, b: nat, x: Slot<K, V>)
    requires i < |s| && z < |s| && s[z].Empty? && b < |s| && Dist(i, z, |s|) < Dist(i, b, |s|)
    ensures s[b := x][z].Empty? && (Calm(s[b := x], z, i, d) <==> Calm(s, z, i, d))
    decreases Dist(i, z, |s|)
  {
    if s[i].Full? {
      CalmFrame(s, z, Next(i, |s|), s[i].dib + 1, b, x);
    }
  }

  /** The setting of the restoring argument: `c` has been taken out of slot `b`, the first
      empty slot ahead is at or before `z`, and `y` is an empty slot beyond. */
  ghost predicate Taken<K, V>(s: seq<Slot<K, V>>, z: nat, y: nat, b: nat, c: Entry<K, V>, d: nat)
  {
    && b < |s| && z < |s| && y < |s| && s[z].Empty? && s[y].Empty?
    && 1 <= Dist(b, z, |s|) < Dist(b, y, |s|) && Tail(s, b, y)
    && d >= 1 && (s[Next(b, |s|)].Full? ==> s[Next(b, |s|)].dib <= d)
    && (forall j :: 0 <= j < |s| && s[j].Full? && j != b ==> s[j].e != c)
    && (forall j, k :: 0 <= j < k < |s| && j != b && k != b && s[j].Full? && s[k].Full? ==> s[j].e != s[k].e)
  }

  lemma CarryLands<K, V>(s: seq<Slot<K, V>>, z: nat, y: nat, b: nat, c: Entry<K, V>, d: nat)
    requires Taken(s, z, y, b, c, d) && s[Next(b, |s|)].Empty?
    ensures var t := s[Next(b, |s|) := Full(c, d)];
      t[y].Empty? && Close(t[b := Empty], y, b) == s[b := Full(c, d - 1)]
  {
    var i := Next(b, |s|);
    assert Dist(b, i, |s|) == 1 && StepOk(s, i);
    var t := s[i := Full(c, d)][b := Empty];
    var u := s[b := Full(c, d - 1)];
    assert Shift(t, b) == u;
    hide Tail;
    assert u[Next(i, |s|)] == s[Next(i, |s|)];
    assert Close(u, y, i) == u;
    assert Close(t, y, b) == Close(Shift(t, b), y, i);
  }

  lemma TakenNext<K, V>(s: seq<Slot<K, V>>, z: nat, y: nat, b: nat, c: Entry<K, V>, d: nat)
    requires Taken(s, z, y, b, c, d) && s[Next(b, |s|)].Full?
    ensures var i := Next(b, |s|); Taken(s[b := Full(c, d - 1)], z, y, i, s[i].e, s[i].dib + 1)
  {
    var i := Next(b, |s|);
    var u := s[b := Full(c, d - 1)];
    assert StepOk(s, i);
    forall j | 0 <= j < |u| && 1 <= Dist(i, j, |u|) < Dist(i, y, |u|) ensures StepOk(u, j) {
      assert StepOk(s, j);
      assert j != b && Next(j, |s|) != b;
    }
  }

  /** After a robbery at the next slot, closing the gap continues one slot further on. */
  lemma CarryRobs<K, V>(s: seq<Slot<K, V>>, z: nat, y: nat, b: nat, c: Entry<K, V>, d: nat)
    requires Taken(s, z, y, b, c, d) && s[Next(b, |s|)].Full? && s[Next(b, |s|)].dib < d
    ensures var i, u := Next(b, |s|), s[b := Full(c, d - 1)];
      var t, v := Place(s, z, i, c, d), Place(u, z, Next(i, |s|), s[i].e, s[i].dib + 1);
      && |t| == |v| == |s| && t[y].Empty? && v[y].Empty?
      && Close(t[b := Empty], y, b) == Close(v[i := Empty], y, i)
      && (Calm(u, z, Next(i, |s|), s[i].dib + 1) <==> Calm(s, z, Next(i, |s|), s[i].dib + 1))
  {
    var i, n, r := Next(b, |s|), Next(Next(b, |s|), |s|), s[Next(b, |s|)].dib + 1;
    var u := s[b := Full(c, d - 1)];
    var p := Place(s, z, n, s[i].e, r);
    PlaceFrame(s, z, n, s[i].e, r, i, Full(c, d));
    PlaceFrame(s, z, n, s[i].e, r, b, Full(c, d - 1));
    PlaceFrame(s, z, n, s[i].e, r, y, Empty);
    CalmFrame(s, z, n, r, b, Full(c, d - 1));
    hide Taken;
    var t := Place(s, z, i, c, d);
    assert t == p[i := Full(c, d)];
    assert Place(u, z, n, s[i].e, r) == p[b := Full(c, d - 1)];
    assert Shift(t[b := Empty], b) == p[b := Full(c, d - 1)][i := Empty];
  }

  /** Passing an entry of the same home leaves that entry, not `c`, to be pulled into `b`. */
  lemma CarryPasses<K, V>(s: seq<Slot<K, V>>, z: nat, y: nat, b: nat, c: Entry<K, V>, d: nat)
    requires Taken(s, z, y, b, c, d) && s[Next(b, |s|)].Full? && s[Next(b, |s|)].dib >= d
    ensures var t := Place(s, z, Next(b, |s|), c, d);
      |t| == |s| && t[y].Empty? && Close(t[b := Empty], y, b) != s[b := Full(c, d - 1)]
  {
    var i := Next(b, |s|);
    var n := Next(i, |s|);
    PlaceFrame(s, z, n, c, d + 1, i, Empty);
    PlaceFrame(s, z, n, c, d + 1, y, Empty);
    assert s[i].e != c;
    hide Taken;
    var t := Place(s, z, i, c, d);
    assert t == Place(s, z, n, c, d + 1) && t[i] == s[i];
    hide Place;
    var u := Shift(t[b := Empty], b);
    CloseFrame(u, y, i, b);
    assert Close(t[b := Empty], y, b)[b] == Full(s[i].e, s[i].dib - 1);
  }

  /** Carrying `c` out of slot `b` and then closing the gap at `b` puts `c` back and restores
      every later slot, exactly when no later entry shares its predecessor's home. */
  lemma {:induction false} CarryRestores<K, V>(s: seq<Slot<K, V>>, z: nat, y: nat, b: nat, c: Entry<K, V>, d: nat)
    requires Taken(s, z, y, b, c, d)
    ensures var t := Place(s, z, Next(b, |s|), c, d);
      && |t| == |s| && t[y].Empty?
      && (Close(t[b := Empty], y, b) == s[b := Full(c, d - 1)] <==> Calm(s, z, Next(b, |s|), d))
    decreases Dist(b, z, |s|)
  {
    hide Tail;
    hide Shift;
    var i := Next(b, |s|);
    if s[i].Empty? {
      CarryLands(s, z, y, b, c, d);
    } else if s[i].dib < d {
      var u := s[b := Full(c, d - 1)];
      TakenNext(s, z, y, b, c, d);
      CarryRestores(u, z, y, i, s[i].e, s[i].dib + 1);
      CarryRobs(s, z, y, b, c, d);
      assert u[i := Full(s[i].e, s[i].dib)] == u;
    } else {
      CarryPasses(s, z, y, b, c, d);
    }
  }

  // ---- The whole insertion ----

  lemma {:induction false} PlaceAnyEmpty<K, V>(s: seq<Slot<K, V>>, z: nat, f: nat, i: nat, e: Entry<K, V>, d: nat)
    requires i < |s| && z < |s| && f < |s| && s[z].Empty? && s[f].Empty?
    ensures Place(s, z, i, e, d) == Place(s, f, i, e, d)
    decreases Dist(i, z, |s|)
  {
    var n := Next(i, |s|);
    if s[i].Full? {
      if s[i].dib < d {
        PlaceAnyEmpty(s[i := Full(e, d)], z, f, n, s[i].e, s[i].dib + 1);
      } else {
        PlaceAnyEmpty(s, z, f, n, e, d + 1);
      }
    }
  }

  lemma {:induction false} FirstEmpty<K, V>(s: seq<Slot<K, V>>, z: nat, i: nat) returns (f: nat)
    requires i < |s| && z < |s| && s[z].Empty?
    ensures f < |s| && s[f].Empty? && Dist(i, f, |s|) <= Dist(i, z, |s|)
    ensures forall x :: 0 <= x < |s| && Dist(i, x, |s|) < Dist(i, f, |s|) ==> s[x].Full?
    decreases Dist(i, z, |s|)
  {
    if s[i].Empty? {
      f := i;
    } else {
      f := FirstEmpty(s, z, Next(i, |s|));
      forall x | 0 <= x < |s| && Dist(i, x, |s|) < Dist(i, f, |s|) ensures s[x].Full? {
        if x != i {
          assert Dist(Next(i, |s|), x, |s|) < Dist(Next(i, |s|), f, |s|);
        }
      }
    }
  }

  /** Placing fills the first empty slot ahead and no other. */
  lemma {:induction false} PlaceFills<K, V>(s: seq<Slot<K, V>>, f: nat, i: nat, e: Entry<K, V>, d: nat, j: nat)
    requires i < |s| && f < |s| && s[f].Empty? && j < |s|
    requires forall x :: 0 <= x < |s| && Dist(i, x, |s|) < Dist(i, f, |s|) ==> s[x].Full?
    ensures var t := Place(s, f, i, e, d); |t| == |s| && (t[j].Full? <==> s[j].Full? || j == f)
    decreases Dist(i, f, |s|)
  {
    var n := Next(i, |s|);
    if s[i].Full? {
      var u := s[i := Full(e, d)];
      forall x | 0 <= x < |s| && Dist(n, x, |s|) < Dist(n, f, |s|) ensures s[x].Full? && u[x].Full? {
        assert Dist(i, x, |s|) < Dist(i, f, |s|);
      }
      if s[i].dib < d {
        PlaceFills(u, f, n, s[i].e, s[i].dib + 1, j);
      } else {
        PlaceFills(s, f, n, e, d + 1, j);
      }
    } else {
      assert i == f;
    }
  }

  /** Where the new entry lands or robs first; up to there nothing changes. */
  lemma {:induction false} Landing<K, V>(s: seq<Slot<K, V>>, z: nat, e: Entry<K, V>, i: nat, d: nat)
    returns (p: nat, dp: nat)
    requires Probe(s, z, e.hash, i, d)
    ensures Probe(s, z, e.hash, p, dp) && (s[p].Empty? || s[p].dib < dp)
    ensures Place(s, z, i, e, d) == Place(s, z, p, e, dp)
    decreases Dist(i, z, |s|)
  {
    if s[i].Empty? || s[i].dib < d {
      p, dp := i, d;
    } else {
      ProbePast(s, z, e.hash, i, d);
      p, dp := Landing(s, z, e, Next(i, |s|), d + 1);
    }
  }

  /** Every slot from the home of `h` up to `j` is filled. */
  ghost predicate InRun<K, V>(s: seq<Slot<K, V>>, h: Hash, j: nat)
    requires j < |s|
  {
    forall x :: 0 <= x < |s| && Dist(Home(h, |s|), x, |s|) <= Dist(Home(h, |s|), j, |s|) ==> s[x].Full?
  }

  /** Beyond the entries at least as displaced as a probe for `h`, no two neighbours of the
      run that `h` would join share a home: an insertion would move none past its twin. */
  ghost predicate NoTwins<K, V>(s: seq<Slot<K, V>>, h: Hash)
  {
    forall j :: 0 <= j < |s| && InRun(s, h, j) && s[j].dib < Dist(Home(h, |s|), j, |s|) && InRun(s, h, Next(j, |s|))
      ==> Home(s[j].e.hash, |s|) != Home(s[Next(j, |s|)].e.hash, |s|)
  }

  ghost predicate NoTwinsFrom<K, V>(s: seq<Slot<K, V>>, h: Hash, b: nat)
    requires b < |s|
  {
    forall j :: 0 <= j < |s| && Dist(Home(h, |s|), b, |s|) <= Dist(Home(h, |s|), j, |s|) && InRun(s, h, j)
      && InRun(s, h, Next(j, |s|))
      ==> Home(s[j].e.hash, |s|) != Home(s[Next(j, |s|)].e.hash, |s|)
  }

  lemma NeighbourHomes<K, V>(s: seq<Slot<K, V>>, z: nat, b: nat)
    requires Layout(s) && z < |s| && s[z].Empty? && b < |s| && s[b].Full? && s[Next(b, |s|)].Full?
    ensures s[Next(b, |s|)].dib <= s[b].dib + 1
    ensures s[Next(b, |s|)].dib < s[b].dib + 1 <==> Home(s[b].e.hash, |s|) != Home(s[Next(b, |s|)].e.hash, |s|)
  {
    hide Home;
    var i := Next(b, |s|);
    assert SlotOk(s, b) && SlotOk(s, i) && Back(i, 1, |s|) == b;
    NoCrossing(s, z, b);
    NoCrossing(s, z, i);
  }

  /** Along the run, `Calm` says that neighbours have different homes. */
  lemma {:induction false} CalmMeans<K, V>(s: seq<Slot<K, V>>, h: Hash, f: nat, b: nat)
    requires Layout(s) && b < |s| && f < |s| && s[f].Empty? && InRun(s, h, b)
    requires Dist(Home(h, |s|), b, |s|) < Dist(Home(h, |s|), f, |s|)
    requires forall x :: 0 <= x < |s| && Dist(Home(h, |s|), x, |s|) < Dist(Home(h, |s|), f, |s|) ==> s[x].Full?
    ensures Calm(s, f, Next(b, |s|), s[b].dib + 1) <==> NoTwinsFrom(s, h, b)
    decreases Dist(b, f, |s|)
  {
    hide Home;
    hide Layout;
    var n, i := |s|, Next(b, |s|);
    var home := Home(h, n);
    assert s[b].Full?;
    if s[i].Full? {
      assert Dist(home, i, n) == Dist(home, b, n) + 1;
      assert InRun(s, h, i);
      NeighbourHomes(s, f, b);
      CalmMeans(s, h, f, i);
      assert NoTwinsFrom(s, h, b) <==> NoTwinsFrom(s, h, i) && Home(s[b].e.hash, n) != Home(s[i].e.hash, n) by {
        TwinsSplit(s, h, b);
      }
    } else {
      assert i == f;
    }
  }

  lemma TwinsSplit<K, V>(s: seq<Slot<K, V>>, h: Hash, b: nat)
    requires b < |s| && InRun(s, h, b) && InRun(s, h, Next(b, |s|)) && s[b].Full? && s[Next(b, |s|)].Full?
    requires Dist(Home(h, |s|), Next(b, |s|), |s|) == Dist(Home(h, |s|), b, |s|) + 1
    ensures NoTwinsFrom(s, h, b) <==>
      NoTwinsFrom(s, h, Next(b, |s|)) && Home(s[b].e.hash, |s|) != Home(s[Next(b, |s|)].e.hash, |s|)
  {
    hide Home;
    hide InRun;
  }

  /** Deleting a freshly inserted key restores the table slot for slot exactly when, beyond
      the point where it was inserted, no two neighbours of its run share a home. */
  lemma DeleteRestores<K(!new), V>(s: seq<Slot<K, V>>, m: map<K, V>, hash: K -> Hash, e: Entry<K, V>, z: nat, y: nat,
                                   at: nat)
    requires Layout(s) && Holds(s, m, hash) && e.hash == hash(e.key) && e.key !in m
    requires z < |s| && s[z].Empty?
    requires var t := Place(s, z, Home(e.hash, |s|), e, 0);
      && |t| == |s| && Holds(t, m[e.key := e.val], hash) && at < |s| && t[at].Full? && t[at].e.key == e.key
      && y < |s| && t[y].Empty?
    ensures var t := Place(s, z, Home(e.hash, |s|), e, 0);
      Close(t[at := Empty], y, at) == s <==> NoTwins(s, e.hash)
  {
    var home := Home(e.hash, |s|);
    ProbeStart(s, z, e.hash, e.key);
    var f := FirstEmpty(s, z, home);
    PlaceAnyEmpty(s, z, f, home, e, 0);
    PlaceFills(s, f, home, e, 0, y);
    ProbeStart(s, f, e.hash, e.key);
    var p, dp := Landing(s, f, e, home, 0);
    var t := Place(s, f, p, e, dp);
    assert t[p].Full? && t[p].e == e by { LandsAt(s, f, e, p, dp); }
    assert p == at by { assert Holds(t, m[e.key := e.val], hash); }
    RestoresFrom(s, m, hash, e, f, y, p, dp);
    TwinsFromLanding(s, e.hash, f, p, dp);
  }

  lemma LandsAt<K, V>(s: seq<Slot<K, V>>, f: nat, e: Entry<K, V>, p: nat, dp: nat)
    requires p < |s| && f < |s| && s[f].Empty? && (s[p].Empty? || s[p].dib < dp)
    ensures var t := Place(s, f, p, e, dp); |t| == |s| && t[p].Full? && t[p].e == e
  {
    if s[p].Full? {
      var u := s[p := Full(e, dp)];
      PlaceFrame(u, f, Next(p, |s|), s[p].e, s[p].dib + 1, p, Empty);
    }
  }

  ghost predicate Restored<K, V>(s: seq<Slot<K, V>>, f: nat, p: nat)
    requires p < |s| && f < |s| && s[f].Empty?
  {
    s[p].Full? ==> Calm(s, f, Next(p, |s|), s[p].dib + 1)
  }

  lemma RestoresFrom<K(!new), V>(s: seq<Slot<K, V>>, m: map<K, V>, hash: K -> Hash, e: Entry<K, V>, f: nat, y: nat,
                                 p: nat, dp: nat)
    requires Layout(s) && Holds(s, m, hash) && e.key !in m
    requires Probe(s, f, e.hash, p, dp) && (s[p].Empty? || s[p].dib < dp)
    requires forall x :: 0 <= x < |s| && Dist(Home(e.hash, |s|), x, |s|) < Dist(Home(e.hash, |s|), f, |s|) ==>
      s[x].Full?
    requires y < |s| && s[y].Empty? && y != f
    ensures var t := Place(s, f, p, e, dp);
      && |t| == |s| && t[y].Empty? && y != p
      && (Close(t[p := Empty], y, p) == s <==> Restored(s, f, p))
  {
    hide Home;
    assert forall j :: 0 <= j < |s| ==> StepOk(s, j) by { LayoutSteps(s); }
    hide Layout;
    if s[p].Empty? {
      assert p == f;
      assert s[p := Full(e, dp)][p := Empty] == s;
      assert StepOk(s, p);
    } else {
      assert Dist(p, f, |s|) < Dist(p, y, |s|);
      assert StepOk(s, p);
      assert Taken(s, f, y, p, s[p].e, s[p].dib + 1);
      RobRestores(s, e, f, y, p, dp);
    }
  }

  lemma RobRestores<K, V>(s: seq<Slot<K, V>>, e: Entry<K, V>, f: nat, y: nat, p: nat, dp: nat)
    requires p < |s| && s[p].Full? && s[p].dib < dp && Taken(s, f, y, p, s[p].e, s[p].dib + 1)
    ensures var t := Place(s, f, p, e, dp);
      && |t| == |s| && t[y].Empty? && y != p
      && (Close(t[p := Empty], y, p) == s <==> Restored(s, f, p))
  {
    var n, c, d := Next(p, |s|), s[p].e, s[p].dib + 1;
    PlaceFrame(s, f, n, c, d, p, Full(e, dp));
    CarryRestores(s, f, y, p, c, d);
    assert s[p := Full(c, d - 1)] == s;
    var q := Place(s, f, n, c, d);
    assert Place(s, f, p, e, dp) == q[p := Full(e, dp)];
    SetTwice(q, p, Full(e, dp), Empty);
    hide Restored;
    hide Close;
  }

  lemma SetTwice<T>(q: seq<T>, p: nat, x: T, y: T)
    requires p < |q|
    ensures q[p := x][p := y] == q[p := y]
  {
  }

  lemma LayoutSteps<K, V>(s: seq<Slot<K, V>>)
    requires Layout(s)
    ensures forall j :: 0 <= j < |s| ==> StepOk(s, j)
  {
    hide Home;
    forall j | 0 <= j < |s| ensures StepOk(s, j) {
      assert SlotOk(s, Next(j, |s|));
    }
  }

  /** In the run, exactly the slots from the landing slot on are closer to home than the probe. */
  lemma BeyondLanding<K, V>(s: seq<Slot<K, V>>, h: Hash, f: nat, p: nat, dp: nat, j: nat)
    requires Layout(s) && Probe(s, f, h, p, dp) && s[p].Full? && s[p].dib < dp && j < |s| && InRun(s, h, j)
    ensures s[j].dib < Dist(Home(h, |s|), j, |s|) <==> dp <= Dist(Home(h, |s|), j, |s|)
  {
    hide Home;
    hide Layout;
    var n, home := |s|, Home(h, |s|);
    assert Dist(home, j, n) < Dist(home, f, n);
    if dp <= Dist(home, j, n) {
      assert s[j].Full?;
      HomesSorted(s, f, p, j);
    }
  }

  lemma TwinsFromLanding<K, V>(s: seq<Slot<K, V>>, h: Hash, f: nat, p: nat, dp: nat)
    requires Layout(s) && Probe(s, f, h, p, dp) && (s[p].Empty? || s[p].dib < dp)
    requires forall x :: 0 <= x < |s| && Dist(Home(h, |s|), x, |s|) < Dist(Home(h, |s|), f, |s|) ==> s[x].Full?
    ensures Restored(s, f, p) <==> NoTwins(s, h)
  {
    hide Home;
    hide Layout;
    if s[p].Full? {
      assert InRun(s, h, p);
      CalmMeans(s, h, f, p);
      forall j | 0 <= j < |s| && InRun(s, h, j)
        ensures s[j].dib < Dist(Home(h, |s|), j, |s|) <==> dp <= Dist(Home(h, |s|), j, |s|)
      {
        BeyondLanding(s, h, f, p, dp, j);
      }
      hide InRun;
      hide Probe;
      hide Calm;
    } else {
      assert p == f;
    }
  }
}
