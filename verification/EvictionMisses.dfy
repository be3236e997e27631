/** When an eviction pass gives up: its misses need not be consecutive, and there may be keys left
    to evict.  For both, exactly when. */
module EvictionMisses {
  import opened Finite
  import opened Options
  import opened CacheCost
  import opened CacheEngine

  /** The misses of a pass that gives up are its last 101 draws. */
  ghost predicate Consecutive(draws: seq<seq<Key>>, r: Rule)
  {
    forall i :: 0 <= i < |draws| && |draws| - MAX_EVICT_MISSES - 1 <= i ==> Picked(draws[i], r).None?
  }

  // ---- When a draw can miss ----

  predicate SparedStored(m: map<Key, Entry>, r: Rule)
  {
    r.exclude.Some? && r.exclude.value in m
  }

  /** A draw can offer the spared key alone, or nothing from an empty shard. */
  predicate CanMiss(m: map<Key, Entry>, r: Rule)
  {
    SparedStored(m, r) || HasEmptyShard(m, r.route)
  }

  /** A draw without a victim. */
  function Blank(m: map<Key, Entry>, r: Rule): seq<Key>
  {
    if SparedStored(m, r) then [r.exclude.value] else []
  }

  lemma BlankMisses(m: map<Key, Entry>, r: Rule)
    requires CanMiss(m, r)
    ensures IsSample(Blank(m, r), m, r.route) && Picked(Blank(m, r), r).None?
  {
    var b := Blank(m, r);
    assert forall i :: 0 <= i < |b| ==> !Eligible(b[i], r.exclude) && !Takes(b, r, i);
  }

  lemma MissMeansCan(cands: seq<Key>, m: map<Key, Entry>, r: Rule)
    requires IsSample(cands, m, r.route) && Picked(cands, r).None?
    ensures CanMiss(m, r)
  {
    if cands != [] {
      NothingPicked(cands, r, 0);
    }
  }

  function Outside(m: map<Key, Entry>, route: Route, x: nat): map<Key, Entry>
  {
    map k | k in m && route.of(k) != x :: m[k]
  }

  /** `n` is what is left of `m` when a draw first can miss: all of it if the spared key is stored,
      otherwise everything outside some shard. */
  ghost predicate Base(m: map<Key, Entry>, r: Rule, n: map<Key, Entry>)
  {
    if SparedStored(m, r) then n == m
    else exists x :: 0 <= x < r.route.shards && n == Outside(m, r.route, x)
  }

  lemma BaseCanMiss(m: map<Key, Entry>, r: Rule, n: map<Key, Entry>)
    requires Base(m, r, n)
    ensures CanMiss(n, r) && Survivors(n, m) && forall k :: k in m && k !in n ==> Eligible(k, r.exclude)
  {
    if !SparedStored(m, r) {
      var x :| 0 <= x < r.route.shards && n == Outside(m, r.route, x);
      assert IsEmptyShard(n, r.route, x);
    }
  }

  /** Whatever is left when a draw misses is part of such a rest. */
  lemma MissBelowBase(m: map<Key, Entry>, r: Rule, n: map<Key, Entry>) returns (b: map<Key, Entry>)
    requires Survivors(n, m) && CanMiss(n, r)
    ensures Base(m, r, b) && Survivors(n, b) && Survivors(b, m)
  {
    if SparedStored(m, r) {
      b := m;
    } else {
      var x :| 0 <= x < r.route.shards && IsEmptyShard(n, r.route, x);
      b := Outside(m, r.route, x);
    }
  }

  lemma StillCanMiss(m: map<Key, Entry>, r: Rule, k: Key)
    requires CanMiss(m, r) && Eligible(k, r.exclude)
    ensures CanMiss(m - {k}, r)
  {
    if !SparedStored(m, r) {
      var x :| 0 <= x < r.route.shards && IsEmptyShard(m, r.route, x);
      assert IsEmptyShard(m - {k}, r.route, x);
    }
  }

  // ---- Passes put together draw by draw ----

  /** `draws` are a pass over `m` so far: `n` is left, and `b` of them have missed. */
  ghost predicate Pass(m: map<Key, Entry>, draws: seq<seq<Key>>, r: Rule, ceiling: int, n: map<Key, Entry>, b: nat)
  {
    Genuine(m, draws, r) && OverUntil(m, draws, r, ceiling) && Evicted(m, draws, r) == n && Barren(draws, r) == b
  }

  lemma NoDraws(m: map<Key, Entry>, r: Rule, ceiling: int)
    ensures Pass(m, [], r, ceiling, m, 0)
  {
  }

  lemma AddDraw(m: map<Key, Entry>, draws: seq<seq<Key>>, r: Rule, ceiling: int, n: map<Key, Entry>, b: nat,
                cands: seq<Key>)
    requires Pass(m, draws, r, ceiling, n, b) && IsSample(cands, n, r.route) && TotalCost(n) > ceiling
    ensures var k := Picked(cands, r);
      if k.None? then Pass(m, draws + [cands], r, ceiling, n, b + 1)
      else Pass(m, draws + [cands], r, ceiling, n - {k.value}, b)
  {
    hide Picked;
    hide IsSample;
    hide Evicted;
    hide Genuine;
    hide OverUntil;
    hide TotalCost;
    hide Barren;
    OneMoreDraw(m, draws, cands, r);
    OneMoreGenuine(m, draws, cands, r);
    OneMoreOver(m, draws, cands, r, ceiling);
  }

  lemma OnlyOne(m: map<Key, Entry>, k: Key, r: Rule)
    requires k in m && Eligible(k, r.exclude)
    ensures Picked([k], r) == Some(k) && IsSample([k], m, r.route)
  {
    var c := [k];
    assert c[0] == k;
    PickIsPicked(c, r, 0);
  }

  /** One more victim. */
  lemma Evict(m: map<Key, Entry>, draws: seq<seq<Key>>, r: Rule, ceiling: int, n: map<Key, Entry>, b: nat, k: Key)
    requires Pass(m, draws, r, ceiling, n, b) && TotalCost(n) > ceiling && k in n && Eligible(k, r.exclude)
    ensures Pass(m, draws + [[k]], r, ceiling, n - {k}, b)
  {
    hide *;
    OnlyOne(n, k, r);
    AddDraw(m, draws, r, ceiling, n, b, [k]);
  }

  /** Victim after victim, until `n` is left. */
  lemma {:induction false} PurgeTo(m: map<Key, Entry>, draws: seq<seq<Key>>, r: Rule, ceiling: int,
                                   cur: map<Key, Entry>, b: nat, n: map<Key, Entry>)
    returns (more: seq<seq<Key>>)
    requires Pass(m, draws, r, ceiling, cur, b) && Survivors(n, cur) && TotalCost(n) > ceiling
    requires forall k :: k in cur && k !in n ==> Eligible(k, r.exclude)
    ensures draws <= more && Pass(m, more, r, ceiling, n, b)
    decreases |cur|
  {
    hide Pass;
    hide TotalCost;
    hide Eligible;
    if k :| k in cur && k !in n {
      CostOfSubmap(n, cur);
      Evict(m, draws, r, ceiling, cur, b, k);
      Fewer(cur, k);
      more := PurgeTo(m, draws + [[k]], r, ceiling, cur - {k}, b, n);
    } else {
      assert cur == n;
      more := draws;
    }
  }

  /** `count` more misses. */
  lemma {:induction false} Miss(m: map<Key, Entry>, draws: seq<seq<Key>>, r: Rule, ceiling: int,
                                n: map<Key, Entry>, b: nat, count: nat)
    returns (more: seq<seq<Key>>)
    requires Pass(m, draws, r, ceiling, n, b) && TotalCost(n) > ceiling && CanMiss(n, r)
    ensures draws <= more && |more| == |draws| + count && Pass(m, more, r, ceiling, n, b + count)
    ensures count > 0 ==> Picked(more[|more| - 1], r).None?
  {
    hide *;
    more := draws;
    if count > 0 {
      more := Miss(m, draws, r, ceiling, n, b, count - 1);
      BlankMisses(n, r);
      AddDraw(m, more, r, ceiling, n, b + count - 1, Blank(n, r));
      more := more + [Blank(n, r)];
    }
  }

  lemma PassGivesUp(m: map<Key, Entry>, draws: seq<seq<Key>>, r: Rule, ceiling: int, n: map<Key, Entry>)
    requires Pass(m, draws, r, ceiling, n, MAX_EVICT_MISSES + 1) && draws != [] && Picked(draws[|draws| - 1], r).None?
    ensures GivesUp(m, draws, r, ceiling) && Evicted(m, draws, r) == n
  {
  }

  lemma HundredAndOne()
    ensures MAX_EVICT_MISSES == 100
  {
  }

  /** From a rest over the ceiling, a pass can give up without another victim. */
  lemma GiveUpAt(m: map<Key, Entry>, r: Rule, ceiling: int, n: map<Key, Entry>) returns (draws: seq<seq<Key>>)
    requires Base(m, r, n) && TotalCost(n) > ceiling
    ensures GivesUp(m, draws, r, ceiling) && Evicted(m, draws, r) == n
  {
    hide *;
    HundredAndOne();
    BaseCanMiss(m, r, n);
    NoDraws(m, r, ceiling);
    draws := PurgeTo(m, [], r, ceiling, m, 0, n);
    draws := Miss(m, draws, r, ceiling, n, 0, 101);
    PassGivesUp(m, draws, r, ceiling, n);
  }

  /** From a rest over the ceiling by more than `k`, it can miss, evict `k` and give up. */
  lemma StutterAt(m: map<Key, Entry>, r: Rule, ceiling: int, n: map<Key, Entry>, k: Key) returns (draws: seq<seq<Key>>)
    requires Base(m, r, n) && k in n && Eligible(k, r.exclude) && TotalCost(n) - Cost(k, n[k]) > ceiling
    ensures GivesUp(m, draws, r, ceiling) && Evicted(m, draws, r) == n - {k} && !Consecutive(draws, r)
  {
    hide *;
    HundredAndOne();
    BaseCanMiss(m, r, n);
    StillCanMiss(n, r, k);
    CostWithout(n, k);
    NoDraws(m, r, ceiling);
    var start := PurgeTo(m, [], r, ceiling, m, 0, n);
    start := Miss(m, start, r, ceiling, n, 0, 1);
    Evict(m, start, r, ceiling, n, 1, k);
    draws := Miss(m, start + [[k]], r, ceiling, n - {k}, 1, 100);
    PassGivesUp(m, draws, r, ceiling, n - {k});
    OnlyOne(n, k, r);
    assert draws[|start|] == (start + [[k]])[|start|] == [k];
    NotConsecutive(draws, r, |start|);
  }

  lemma NotConsecutive(draws: seq<seq<Key>>, r: Rule, i: nat)
    requires i < |draws| && |draws| - MAX_EVICT_MISSES - 1 <= i && Picked(draws[i], r).Some?
    ensures !Consecutive(draws, r)
  {
  }

  /** Three keys, the newcomer spared: one miss, one victim, a hundred misses, and the pass gives
      up over the ceiling with the third key still there to evict. */
  lemma GivesUpTooSoon(freq: Key -> nat, route: Route)
    ensures exists m: map<Key, Entry>, r: Rule, ceiling: int, draws: seq<seq<Key>> ::
      && ceiling > 0 && SparedStored(m, r) && GivesUp(m, draws, r, ceiling)
      && !Consecutive(draws, r) && AnyEligible(Evicted(m, draws, r), r.exclude)
  {
    var e := Entry([], None);
    var m: map<Key, Entry>, r := map[[] := e, [1] := e, [2] := e], Rule(AllKeysRandom, Some([]), freq, route);
    assert SparedStored(m, r) && Base(m, r, m) && Eligible([1], r.exclude) && Eligible([2], r.exclude);
    hide *;
    CostWithout(m, [1]);
    SomeLeft(m - {[1]}, [2], r);
    var draws := StutterAt(m, r, 1, m, [1]);
    assert 1 > 0 && SparedStored(m, r);
  }

  lemma SomeLeft(m: map<Key, Entry>, k: Key, r: Rule)
    requires k in m && Eligible(k, r.exclude)
    ensures TotalCost(m) > 1 && AnyEligible(m, r.exclude)
  {
    CostAtLeast(m, k);
  }

  // ---- What every pass does ----

  /** The state before and after draw `i`. */
  lemma DrawAt(m: map<Key, Entry>, draws: seq<seq<Key>>, r: Rule, i: nat)
    requires Genuine(m, draws, r) && i < |draws|
    ensures IsSample(draws[i], Evicted(m, draws[..i], r), r.route)
    ensures var k, was := Picked(draws[i], r), Evicted(m, draws[..i], r);
      Evicted(m, draws[..i + 1], r) == if k.None? then was else was - {k.value}
  {
    hide Picked;
    assert draws[..i + 1] == draws[..i] + [draws[i]];
    OneMoreDraw(m, draws[..i], draws[i], r);
  }

  /** What is left later was there before. */
  lemma {:induction false} EvictedShrinks(m: map<Key, Entry>, draws: seq<seq<Key>>, r: Rule, i: nat, j: nat)
    requires Genuine(m, draws, r) && i <= j <= |draws|
    ensures Survivors(Evicted(m, draws[..j], r), Evicted(m, draws[..i], r))
    decreases j
  {
    hide Evicted;
    hide Picked;
    hide Genuine;
    hide IsSample;
    if i < j {
      EvictedShrinks(m, draws, r, i, j - 1);
      DrawAt(m, draws, r, j - 1);
    }
  }

  lemma Ends(m: map<Key, Entry>, draws: seq<seq<Key>>, r: Rule)
    ensures draws[..|draws|] == draws && Evicted(m, draws[..0], r) == m
  {
    assert draws[..|draws|] == draws;
  }

  /** At a miss, no more is left than at some base. */
  lemma MissAt(m: map<Key, Entry>, draws: seq<seq<Key>>, r: Rule, i: nat) returns (b: map<Key, Entry>)
    requires Genuine(m, draws, r) && i < |draws| && Picked(draws[i], r).None?
    ensures Base(m, r, b) && Survivors(b, m) && Survivors(Evicted(m, draws[..i], r), b)
  {
    hide *;
    DrawAt(m, draws, r, i);
    MissMeansCan(draws[i], Evicted(m, draws[..i], r), r);
    EvictedShrinks(m, draws, r, 0, i);
    Ends(m, draws, r);
    b := MissBelowBase(m, r, Evicted(m, draws[..i], r));
  }

  /** A pass that gives up ends on a miss, over the ceiling. */
  lemma LastDraw(m: map<Key, Entry>, draws: seq<seq<Key>>, r: Rule, ceiling: int)
    requires GivesUp(m, draws, r, ceiling)
    ensures Genuine(m, draws, r) && |draws| > 0 && Picked(draws[|draws| - 1], r).None?
    ensures TotalCost(Evicted(m, draws, r)) > ceiling && Evicted(m, draws[..|draws| - 1], r) == Evicted(m, draws, r)
  {
    hide Picked;
    hide TotalCost;
    var n := |draws| - 1;
    DrawAt(m, draws, r, n);
    Ends(m, draws, r);
    assert TotalCost(Evicted(m, draws[..n], r)) > ceiling;
  }

  // ---- Exactly when ----

  /** A pass that gives up leaves nothing to evict, whatever the draws, if and only if no rest at which
      draws can miss has a key to evict and is over the ceiling.  For a Set, whose newcomer is
      stored, that is: usage is no higher than the ceiling, or only the newcomer is there. */
  lemma NothingLeftIff(m: map<Key, Entry>, r: Rule, ceiling: int)
    ensures (forall draws :: GivesUp(m, draws, r, ceiling) ==> !AnyEligible(Evicted(m, draws, r), r.exclude))
       <==> (forall n :: Base(m, r, n) && AnyEligible(n, r.exclude) ==> TotalCost(n) <= ceiling)
    ensures SparedStored(m, r) ==>
      ((forall draws :: GivesUp(m, draws, r, ceiling) ==> !AnyEligible(Evicted(m, draws, r), r.exclude))
       <==> TotalCost(m) <= ceiling || !AnyEligible(m, r.exclude))
  {
    hide GivesUp;
    hide Evicted;
    hide TotalCost;
    hide Base;
    SparedBase(m, r);
    if n :| Base(m, r, n) && AnyEligible(n, r.exclude) && TotalCost(n) > ceiling {
      var draws := GiveUpAt(m, r, ceiling, n);
      assert AnyEligible(Evicted(m, draws, r), r.exclude);
    } else {
      forall draws | GivesUp(m, draws, r, ceiling)
        ensures !AnyEligible(Evicted(m, draws, r), r.exclude)
      {
        if AnyEligible(Evicted(m, draws, r), r.exclude) {
          var b := LeftAt(m, draws, r, ceiling);
        }
      }
    }
  }

  lemma SparedBase(m: map<Key, Entry>, r: Rule)
    ensures SparedStored(m, r) ==> forall n :: Base(m, r, n) <==> n == m
  {
  }

  lemma LeftAt(m: map<Key, Entry>, draws: seq<seq<Key>>, r: Rule, ceiling: int) returns (b: map<Key, Entry>)
    requires GivesUp(m, draws, r, ceiling) && AnyEligible(Evicted(m, draws, r), r.exclude)
    ensures Base(m, r, b) && AnyEligible(b, r.exclude) && TotalCost(b) > ceiling
  {
    hide GivesUp;
    hide Evicted;
    hide Genuine;
    hide TotalCost;
    hide Base;
    hide Picked;
    LastDraw(m, draws, r, ceiling);
    b := MissAt(m, draws, r, |draws| - 1);
    CostOfSubmap(Evicted(m, draws, r), b);
  }

  /** Whatever the draws, the misses of a pass that gives up are consecutive, if and only if from every
      rest at which draws can miss, removing any one eligible entry reaches the ceiling.  For a Set
      the rest is everything stored. */
  lemma MissesConsecutiveIff(m: map<Key, Entry>, r: Rule, ceiling: int)
    ensures (forall draws :: GivesUp(m, draws, r, ceiling) ==> Consecutive(draws, r))
       <==> (forall n, k :: Base(m, r, n) && k in n && Eligible(k, r.exclude) ==>
         TotalCost(n) - Cost(k, n[k]) <= ceiling)
  {
    hide GivesUp;
    hide Cost;
    hide TotalCost;
    hide Base;
    hide Consecutive;
    if n, k :| Base(m, r, n) && k in n && Eligible(k, r.exclude) && TotalCost(n) - Cost(k, n[k]) > ceiling {
      var draws := StutterAt(m, r, ceiling, n, k);
    } else {
      forall draws | GivesUp(m, draws, r, ceiling)
        ensures Consecutive(draws, r)
      {
        if !Consecutive(draws, r) {
          var n, k := VictimAfterMiss(m, draws, r, ceiling);
        }
      }
    }
  }

  /** Misses that are not consecutive have a victim between them. */
  lemma VictimAfterMiss(m: map<Key, Entry>, draws: seq<seq<Key>>, r: Rule, ceiling: int)
    returns (b: map<Key, Entry>, k: Key)
    requires GivesUp(m, draws, r, ceiling) && !Consecutive(draws, r)
    ensures Base(m, r, b) && k in b && Eligible(k, r.exclude) && TotalCost(b) - Cost(k, b[k]) > ceiling
  {
    hide Picked;
    LastDraw(m, draws, r, ceiling);
    var i :| 0 <= i < |draws| && |draws| - MAX_EVICT_MISSES - 1 <= i && Picked(draws[i], r).Some?;
    var j := FirstMiss(draws, r);
    if j > i {
      FewMisses(draws, r, i + 1);
    }
    assert j < i;
    k := Picked(draws[i], r).value;
    b := Between(m, draws, r, ceiling, j, i);
  }

  lemma Between(m: map<Key, Entry>, draws: seq<seq<Key>>, r: Rule, ceiling: int, j: nat, i: nat)
    returns (b: map<Key, Entry>)
    requires Genuine(m, draws, r) && TotalCost(Evicted(m, draws, r)) > ceiling && j < i < |draws|
    requires Picked(draws[j], r).None? && Picked(draws[i], r).Some?
    ensures var k := Picked(draws[i], r).value;
      Base(m, r, b) && k in b && Eligible(k, r.exclude) && TotalCost(b) - Cost(k, b[k]) > ceiling
  {
    var k := Picked(draws[i], r).value;
    hide Evicted;
    hide Genuine;
    hide Picked;
    hide TotalCost;
    hide Cost;
    hide Base;
    hide IsSample;
    DrawAt(m, draws, r, i);
    PickedStored(draws[i], Evicted(m, draws[..i], r), r, k);
    b := MissAt(m, draws, r, j);
    EvictedShrinks(m, draws, r, j, i);
    EvictedShrinks(m, draws, r, i + 1, |draws|);
    Ends(m, draws, r);
    CostWithout(b, k);
    CostOfSubmap(Evicted(m, draws, r), b - {k});
  }

  /** Once a fair draw has missed, nothing eligible is left, so nothing is evicted any more. */
  lemma {:induction false} FairMissIsLast(m: map<Key, Entry>, draws: seq<seq<Key>>, r: Rule, i: nat, j: nat)
    requires Genuine(m, draws, r) && i < j <= |draws|
    requires Picked(draws[i], r).None? && Fair(draws[i], Evicted(m, draws[..i], r), r.exclude)
    ensures !AnyEligible(Evicted(m, draws[..j], r), r.exclude) && (j < |draws| ==> Picked(draws[j], r).None?)
    decreases j
  {
    hide Picked;
    hide Evicted;
    hide Genuine;
    hide IsSample;
    DrawAt(m, draws, r, j - 1);
    if j == i + 1 {
      FairMiss(draws[i], Evicted(m, draws[..i], r), r);
    } else {
      FairMissIsLast(m, draws, r, i, j - 1);
    }
    if j < |draws| && Picked(draws[j], r).Some? {
      DrawAt(m, draws, r, j);
      PickedStored(draws[j], Evicted(m, draws[..j], r), r, Picked(draws[j], r).value);
    }
  }

  lemma FairMiss(cands: seq<Key>, m: map<Key, Entry>, r: Rule)
    requires Picked(cands, r).None? && Fair(cands, m, r.exclude)
    ensures !AnyEligible(m, r.exclude)
  {
    hide Picked;
    if AnyEligible(m, r.exclude) {
      var i :| 0 <= i < |cands| && Eligible(cands[i], r.exclude);
      NothingPicked(cands, r, i);
    }
  }

  /** With fair draws the misses are consecutive, and nothing eligible is left when the pass gives up. */
  lemma FairMissesConsecutive(m: map<Key, Entry>, draws: seq<seq<Key>>, r: Rule, ceiling: int)
    requires GivesUp(m, draws, r, ceiling) && FairPass(m, draws, r)
    ensures Consecutive(draws, r) && !AnyEligible(Evicted(m, draws, r), r.exclude)
  {
    hide Picked;
    hide Evicted;
    hide Fair;
    hide Barren;
    hide Genuine;
    hide OverUntil;
    var i := FirstMiss(draws, r);
    assert Fair(draws[i], Evicted(m, draws[..i], r), r.exclude);
    hide FairPass;
    FewMisses(draws, r, i);
    forall j | 0 <= j < |draws| && |draws| - MAX_EVICT_MISSES - 1 <= j
      ensures Picked(draws[j], r).None?
    {
      if j > i {
        FairMissIsLast(m, draws, r, i, j);
      }
    }
    assert draws[..|draws|] == draws;
    FairMissIsLast(m, draws, r, i, |draws|);
  }

  /** The first draw without a victim. */
  lemma {:induction false} FirstMiss(draws: seq<seq<Key>>, r: Rule) returns (i: nat)
    requires Barren(draws, r) > 0
    ensures i < |draws| && Picked(draws[i], r).None? && forall j :: 0 <= j < i ==> Picked(draws[j], r).Some?
  {
    hide Picked;
    var n := |draws| - 1;
    if Barren(draws[..n], r) > 0 {
      i := FirstMiss(draws[..n], r);
    } else {
      NoMisses(draws[..n], r);
      i := n;
    }
  }

  lemma {:induction false} NoMisses(draws: seq<seq<Key>>, r: Rule)
    requires Barren(draws, r) == 0
    ensures forall j :: 0 <= j < |draws| ==> Picked(draws[j], r).Some?
  {
    hide Picked;
    if draws != [] {
      NoMisses(draws[..|draws| - 1], r);
    }
  }

  /** Draws before the first miss do not count. */
  lemma {:induction false} FewMisses(draws: seq<seq<Key>>, r: Rule, i: nat)
    requires i <= |draws| && forall j :: 0 <= j < i ==> Picked(draws[j], r).Some?
    ensures Barren(draws, r) <= |draws| - i
    decreases |draws|
  {
    hide Picked;
    if draws != [] {
      var n := |draws| - 1;
      FewMisses(draws[..n], r, if i <= n then i else n);
    }
  }
}
