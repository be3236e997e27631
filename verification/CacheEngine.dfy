/** The engine run by one caller at a time: lazy expiry, the byte counter, and eviction by
    sampling.  Readings of the clock are passed in; what a sample offers is left to chance. */
module CacheEngine {
  import opened Finite
  import opened Options
  import opened CacheCost

  datatype Policy = AllKeysLFU | AllKeysRandom | NoEviction

  const SAMPLE_N: nat := 5
  const MAX_EVICT_MISSES: nat := 100

  /** An entry is dead from its expiry instant on. */
  predicate Expired(e: Entry, now: int)
  {
    e.expiresAt.Some? && now >= e.expiresAt.value
  }

  /** The entries a reader can see. */
  function Live(m: map<Key, Entry>, now: int): map<Key, Entry>
  {
    map k | k in m && !Expired(m[k], now) :: m[k]
  }

  /** How keys are spread over the shards that a sample draws from. */
  datatype Route = Route(shards: nat, of: Key -> nat)

  predicate HasEmptyShard(m: map<Key, Entry>, route: Route)
  {
    exists x :: 0 <= x < route.shards && IsEmptyShard(m, route, x)
  }

  predicate IsEmptyShard(m: map<Key, Entry>, route: Route, x: nat)
  {
    forall k :: k in m ==> route.of(k) != x
  }

  /** What a sample may offer: at most `SAMPLE_N` distinct stored keys, and some key unless a draw
      can hit an empty shard. */
  predicate IsSample(cands: seq<Key>, m: map<Key, Entry>, route: Route)
  {
    && |cands| <= SAMPLE_N && (cands == [] ==> HasEmptyShard(m, route))
    && (forall i :: 0 <= i < |cands| ==> cands[i] in m)
    && (forall i, j :: 0 <= i < j < |cands| ==> cands[i] != cands[j])
  }

  predicate Eligible(k: Key, exclude: Option<Key>)
  {
    exclude != Some(k)
  }

  /** One victim from the candidates: never the excluded key; under `AllKeysRandom` the first
      eligible one, otherwise the first of least estimated frequency.  None only when every
      candidate is excluded. */
  method PickVictim(cands: seq<Key>, pol: Policy, exclude: Option<Key>, freq: Key -> nat, ghost route: Route)
    returns (victim: Option<Key>)
    ensures victim.None? <==> forall i :: 0 <= i < |cands| ==> !Eligible(cands[i], exclude)
    ensures victim.Some? ==>
      exists v :: 0 <= v < |cands| && IsPick(cands, pol, exclude, freq, v) && victim == Some(cands[v])
    ensures victim == Picked(cands, Rule(pol, exclude, freq, route))
  {
    victim := None;
    ghost var v := 0;
    for i := 0 to |cands|
      invariant victim.None? <==> forall j :: 0 <= j < i ==> !Eligible(cands[j], exclude)
      invariant victim.Some? ==>
        !pol.AllKeysRandom? && 0 <= v < i && IsPick(cands[..i], pol, exclude, freq, v) && victim == Some(cands[v])
    {
      assert cands[..i + 1][..i] == cands[..i];
      if !Eligible(cands[i], exclude) {
        continue;
      }
      if pol.AllKeysRandom? {
        PickIsPicked(cands, Rule(pol, exclude, freq, route), i);
        return Some(cands[i]);
      }
      if victim.None? || freq(cands[i]) < freq(victim.value) {
        victim, v := Some(cands[i]), i;
      }
    }
    assert cands[..|cands|] == cands;
    if victim.Some? {
      PickIsPicked(cands, Rule(pol, exclude, freq, route), v);
    }
  }

  /** Candidate `v` is the one the policy takes. */
  ghost predicate IsPick(cands: seq<Key>, pol: Policy, exclude: Option<Key>, freq: Key -> nat, v: nat)
    requires v < |cands|
  {
    && Eligible(cands[v], exclude)
    && (forall i :: 0 <= i < v && Eligible(cands[i], exclude) ==>
          !pol.AllKeysRandom? && freq(cands[i]) > freq(cands[v]))
    && (!pol.AllKeysRandom? ==> forall i :: 0 <= i < |cands| && Eligible(cands[i], exclude) ==>
          freq(cands[i]) >= freq(cands[v]))
  }

  /** How a pass draws and chooses: the policy, the key it must spare, the frequency estimates and the
      shards. */
  datatype Rule = Rule(pol: Policy, exclude: Option<Key>, freq: Key -> nat, route: Route)

  ghost function Picked(cands: seq<Key>, r: Rule): Option<Key>
  {
    if exists v :: 0 <= v < |cands| && Takes(cands, r, v) then
      var v :| 0 <= v < |cands| && Takes(cands, r, v);
      Some(cands[v])
    else None
  }

  ghost predicate Takes(cands: seq<Key>, r: Rule, v: nat)
    requires v < |cands|
  {
    IsPick(cands, r.pol, r.exclude, r.freq, v)
  }

  /** The policy leaves no choice: at most one candidate is the pick. */
  lemma PickIsPicked(cands: seq<Key>, r: Rule, v: nat)
    requires v < |cands| && IsPick(cands, r.pol, r.exclude, r.freq, v)
    ensures Picked(cands, r) == Some(cands[v])
  {
    assert Takes(cands, r, v);
    var w :| 0 <= w < |cands| && Takes(cands, r, w) && Picked(cands, r) == Some(cands[w]);
    PickUnique(cands, r, v, w);
  }

  lemma PickUnique(cands: seq<Key>, r: Rule, v: nat, w: nat)
    requires v < |cands| && w < |cands| && Takes(cands, r, v) && Takes(cands, r, w)
    ensures v == w
  {
    assert Eligible(cands[v], r.exclude) && Eligible(cands[w], r.exclude);
  }

  // ---- A pass, given what its draws offered ----

  /** What is left of `m` after the victims of `draws` are gone. */
  ghost function Evicted(m: map<Key, Entry>, draws: seq<seq<Key>>, r: Rule): map<Key, Entry>
  {
    if draws == [] then m
    else
      var before := Evicted(m, draws[..|draws| - 1], r);
      match Picked(draws[|draws| - 1], r)
      case None => before
      case Some(k) => before - {k}
  }

  /** Draw `i` offered `k` at place `v`, and `k` is not the spared key: under `AllKeysRandom` no candidate
      before it could be taken, otherwise no candidate that could be taken is estimated to be rarer. */
  ghost predicate WorstOf(draws: seq<seq<Key>>, r: Rule, k: Key, i: nat, v: nat)
  {
    && i < |draws| && v < |draws[i]| && draws[i][v] == k && r.exclude != Some(k)
    && (forall w :: 0 <= w < |draws[i]| && r.exclude != Some(draws[i][w]) ==>
          if r.pol.AllKeysRandom? then w >= v else r.freq(k) <= r.freq(draws[i][w]))
  }

  /** Whatever a pass has evicted, some draw of it had that key as its worst candidate. */
  lemma {:induction false} EvictedWasWorst(m: map<Key, Entry>, draws: seq<seq<Key>>, r: Rule, k: Key)
    returns (i: nat, v: nat)
    requires k in m && k !in Evicted(m, draws, r)
    ensures WorstOf(draws, r, k, i, v)
  {
    var n := |draws| - 1;
    var before := Evicted(m, draws[..n], r);
    if k in before {
      i := n;
      v :| 0 <= v < |draws[n]| && Takes(draws[n], r, v) && draws[n][v] == k;
    } else {
      i, v := EvictedWasWorst(m, draws[..n], r, k);
      assert draws[..n][i] == draws[i];
    }
  }

  /** How many draws offered no victim. */
  ghost function Barren(draws: seq<seq<Key>>, r: Rule): nat
  {
    if draws == [] then 0
    else Barren(draws[..|draws| - 1], r) + if Picked(draws[|draws| - 1], r).None? then 1 else 0
  }

  /** Every draw was a sample of what was stored when it was made. */
  ghost predicate Genuine(m: map<Key, Entry>, draws: seq<seq<Key>>, r: Rule)
  {
    forall i :: 0 <= i < |draws| ==> IsSample(draws[i], Evicted(m, draws[..i], r), r.route)
  }

  /** Every draw offered an eligible key if there was one. */
  ghost predicate FairPass(m: map<Key, Entry>, draws: seq<seq<Key>>, r: Rule)
  {
    forall i :: 0 <= i < |draws| ==> Fair(draws[i], Evicted(m, draws[..i], r), r.exclude)
  }

  /** Usage was over the ceiling before every draw. */
  ghost predicate OverUntil(m: map<Key, Entry>, draws: seq<seq<Key>>, r: Rule, ceiling: int)
  {
    forall i :: 0 <= i < |draws| ==> TotalCost(Evicted(m, draws[..i], r)) > ceiling
  }

  /** A whole pass that ends by giving up: more than 100 draws without a victim, the last one among them. */
  ghost predicate GivesUp(m: map<Key, Entry>, draws: seq<seq<Key>>, r: Rule, ceiling: int)
  {
    && Genuine(m, draws, r) && OverUntil(m, draws, r, ceiling)
    && Barren(draws, r) == MAX_EVICT_MISSES + 1 && draws != [] && Picked(draws[|draws| - 1], r).None?
  }

  lemma OneMoreOver(m: map<Key, Entry>, draws: seq<seq<Key>>, cands: seq<Key>, r: Rule, ceiling: int)
    requires OverUntil(m, draws, r, ceiling) && TotalCost(Evicted(m, draws, r)) > ceiling
    ensures OverUntil(m, draws + [cands], r, ceiling)
  {
    hide Evicted;
    hide TotalCost;
    var all := draws + [cands];
    forall i | 0 <= i < |all|
      ensures TotalCost(Evicted(m, all[..i], r)) > ceiling
    {
      assert all[..i] == draws[..i];
      if i == |draws| {
        assert draws[..i] == draws;
      }
    }
  }

  lemma OneMoreDraw(m: map<Key, Entry>, draws: seq<seq<Key>>, cands: seq<Key>, r: Rule)
    ensures var all, k := draws + [cands], Picked(cands, r);
      && Evicted(m, all, r) == (if k.None? then Evicted(m, draws, r) else Evicted(m, draws, r) - {k.value})
      && Barren(all, r) == Barren(draws, r) + (if k.None? then 1 else 0)
  {
    hide Picked;
    var all := draws + [cands];
    assert all[..|all| - 1] == draws;
  }

  lemma OneMoreGenuine(m: map<Key, Entry>, draws: seq<seq<Key>>, cands: seq<Key>, r: Rule)
    requires Genuine(m, draws, r) && IsSample(cands, Evicted(m, draws, r), r.route)
    ensures Genuine(m, draws + [cands], r)
  {
    hide Evicted;
    hide IsSample;
    var all := draws + [cands];
    forall i | 0 <= i < |all|
      ensures IsSample(all[i], Evicted(m, all[..i], r), r.route)
    {
      assert all[..i] == draws[..i];
      if i == |draws| {
        assert draws[..i] == draws;
      }
    }
  }

  lemma FairBefore(m: map<Key, Entry>, draws: seq<seq<Key>>, cands: seq<Key>, r: Rule)
    requires FairPass(m, draws + [cands], r)
    ensures FairPass(m, draws, r) && Fair(cands, Evicted(m, draws, r), r.exclude)
  {
    hide Evicted;
    hide Fair;
    var all := draws + [cands];
    assert all[..|draws|] == draws && all[|draws|] == cands;
    forall i | 0 <= i < |draws|
      ensures Fair(draws[i], Evicted(m, draws[..i], r), r.exclude)
    {
      assert all[..i] == draws[..i] && all[i] == draws[i];
    }
  }

  /** `n` keeps some of `m`'s bindings, unchanged. */
  ghost predicate Survivors(n: map<Key, Entry>, m: map<Key, Entry>)
  {
    forall k :: k in n ==> k in m && n[k] == m[k]
  }

  ghost predicate AnyEligible(m: map<Key, Entry>, exclude: Option<Key>)
  {
    exists k :: k in m && Eligible(k, exclude)
  }

  /** The draw offered an eligible key if the map has one. */
  ghost predicate Fair(cands: seq<Key>, m: map<Key, Entry>, exclude: Option<Key>)
  {
    AnyEligible(m, exclude) ==> exists i :: 0 <= i < |cands| && Eligible(cands[i], exclude)
  }

  /** Eviction stopped no earlier than it had to: without the last victim gone, usage was over. */
  ghost predicate NotOverdone(m: map<Key, Entry>, was: map<Key, Entry>, usage: int, ceiling: int)
  {
    m == was || exists k :: k in was && k !in m && usage + Cost(k, was[k]) > ceiling
  }

  /** What a pass over `was` keeps while usage is still over the ceiling. */
  ghost predicate InPass(was: map<Key, Entry>, draws: seq<seq<Key>>, r: Rule, m: map<Key, Entry>, usage: int,
                         ceiling: int)
  {
    && Survivors(m, was) && NotOverdone(m, was, usage, ceiling) && Genuine(was, draws, r)
    && OverUntil(was, draws, r, ceiling)
    && (r.exclude.Some? && r.exclude.value in was ==> r.exclude.value in m)
    && (FairPass(was, draws, r) && Barren(draws, r) > 0 ==> !AnyEligible(m, r.exclude))
  }

  lemma PassStarts(m: map<Key, Entry>, usage: int, ceiling: int, r: Rule)
    ensures InPass(m, [], r, m, usage, ceiling) && Evicted(m, [], r) == m && Barren([], r) == 0
  {
  }

  lemma PassEnds(was: map<Key, Entry>, draws: seq<seq<Key>>, r: Rule, m: map<Key, Entry>, usage: int, ceiling: int)
    requires InPass(was, draws, r, m, usage, ceiling)
    ensures Survivors(m, was) && NotOverdone(m, was, usage, ceiling) && Genuine(was, draws, r)
    ensures Barren(draws, r) == MAX_EVICT_MISSES + 1 && draws != [] && Picked(draws[|draws| - 1], r).None? ==>
      GivesUp(was, draws, r, ceiling)
    ensures r.exclude.Some? && r.exclude.value in was ==> r.exclude.value in m
    ensures FairPass(was, draws, r) && Barren(draws, r) > 0 ==> !AnyEligible(m, r.exclude)
  {
  }

  /** A pick is stored, eligible, and gone or not according to the draw. */
  lemma PickedStored(cands: seq<Key>, m: map<Key, Entry>, r: Rule, k: Key)
    requires IsSample(cands, m, r.route) && Picked(cands, r) == Some(k)
    ensures k in m && Eligible(k, r.exclude)
  {
    var v :| 0 <= v < |cands| && Takes(cands, r, v) && Some(cands[v]) == Picked(cands, r);
  }

  lemma NothingPicked(cands: seq<Key>, r: Rule, i: nat)
    requires Picked(cands, r).None? && i < |cands|
    ensures !Eligible(cands[i], r.exclude)
  {
    var victim := Chosen(cands, r, |cands|);
    assert cands[..|cands|] == cands;
  }

  /** Some candidate is taken as soon as one is eligible. */
  lemma {:induction false} Chosen(cands: seq<Key>, r: Rule, n: nat) returns (v: nat)
    requires n <= |cands|
    ensures (exists i :: 0 <= i < n && Eligible(cands[i], r.exclude)) ==> v < n && Takes(cands[..n], r, v)
  {
    v := 0;
    if n > 0 {
      v := Chosen(cands, r, n - 1);
      assert cands[..n][..n - 1] == cands[..n - 1];
      if Eligible(cands[n - 1], r.exclude) {
        if forall i :: 0 <= i < n - 1 ==> !Eligible(cands[i], r.exclude) {
          v := n - 1;
        } else if !r.pol.AllKeysRandom? && r.freq(cands[n - 1]) < r.freq(cands[v]) {
          v := n - 1;
        }
      }
    }
  }

  lemma PassGoesOn(was: map<Key, Entry>, draws: seq<seq<Key>>, r: Rule, m: map<Key, Entry>, usage: int, ceiling: int,
                   cands: seq<Key>)
    requires InPass(was, draws, r, m, usage, ceiling) && m == Evicted(was, draws, r) && IsSample(cands, m, r.route)
    requires usage == TotalCost(m) > ceiling
    ensures var k := Picked(cands, r);
      if k.None? then InPass(was, draws + [cands], r, m, usage, ceiling)
      else k.value in m && InPass(was, draws + [cands], r, m - {k.value}, usage - Cost(k.value, m[k.value]), ceiling)
  {
    hide Evicted;
    hide Picked;
    hide Genuine;
    hide FairPass;
    hide IsSample;
    hide Cost;
    hide OverUntil;
    hide TotalCost;
    var k := Picked(cands, r);
    OneMoreOver(was, draws, cands, r, ceiling);
    OneMoreGenuine(was, draws, cands, r);
    OneMoreDraw(was, draws, cands, r);
    if k.Some? {
      PickedStored(cands, m, r, k.value);
    }
    if FairPass(was, draws + [cands], r) {
      FairBefore(was, draws, cands, r);
      if k.None? && AnyEligible(m, r.exclude) {
        var i :| 0 <= i < |cands| && Eligible(cands[i], r.exclude);
        NothingPicked(cands, r, i);
      }
    }
  }

  lemma SomeSample(m: map<Key, Entry>, route: Route)
    requires route.shards > 0
    ensures exists cands :: IsSample(cands, m, route)
  {
    if m.Keys == {} {
      assert IsEmptyShard(m, route, 0);
      assert IsSample([], m, route);
    } else {
      var k :| k in m.Keys;
      assert IsSample([k], m, route);
    }
  }

  datatype SetOutcome = Stored | OutOfMemory

  class Cache {
    var m: map<Key, Entry>
    var usage: int
    var maxmemory: int
    var policy: Policy
    var evictions: nat
    const route: Route

    /** The counter is the summed cost of what is stored. */
    ghost predicate Valid()
      reads this
    {
      usage == TotalCost(m) && route.shards > 0
    }

    constructor (maxmemory: int, policy: Policy, route: Route)
      requires route.shards > 0
      ensures Valid() && m == map[] && this.maxmemory == maxmemory && this.policy == policy && evictions == 0
      ensures this.route == route
    {
      m, usage, this.maxmemory, this.policy, evictions, this.route := map[], 0, maxmemory, policy, 0, route;
    }

    /** Anything a sample can return, including nothing at all if a shard is empty. */
    method Draw() returns (cands: seq<Key>)
      requires Valid()
      ensures IsSample(cands, m, route)
    {
      SomeSample(m, route);
      cands :| IsSample(cands, m, route);
    }

    /** Remove victims until usage is at or under the ceiling, giving up once more than 100 draws
        of the pass have offered none.  The misses are counted over the whole pass. */
    method EvictUntilUnder(ceiling: int, pol: Policy, exclude: Option<Key>, freq: Key -> nat)
      returns (ghost draws: seq<seq<Key>>)
      requires Valid()
      modifies this`m, this`usage, this`evictions
      ensures Valid() && Survivors(m, old(m)) && evictions - old(evictions) == |old(m)| - |m|
      ensures exclude.Some? && exclude.value in old(m) ==> exclude.value in m
      ensures var r := Rule(pol, exclude, freq, route);
        && m == Evicted(old(m), draws, r) && Genuine(old(m), draws, r)
        && (usage <= ceiling || GivesUp(old(m), draws, r, ceiling)) && Barren(draws, r) <= MAX_EVICT_MISSES + 1
        && (FairPass(old(m), draws, r) ==> usage <= ceiling || !AnyEligible(m, exclude))
      ensures NotOverdone(m, old(m), usage, ceiling)
    {
      var misses := 0;
      draws := [];
      ghost var r := Rule(pol, exclude, freq, route);
      PassStarts(m, usage, ceiling, r);
      while usage > ceiling
        invariant Valid() && evictions - old(evictions) == |old(m)| - |m|
        invariant misses == Barren(draws, r) <= MAX_EVICT_MISSES
        invariant m == Evicted(old(m), draws, r) && InPass(old(m), draws, r, m, usage, ceiling)
        decreases |m|, MAX_EVICT_MISSES - misses
      {
        hide *;
        var cands := Draw();
        OneMoreDraw(old(m), draws, cands, r);
        PassGoesOn(old(m), draws, r, m, usage, ceiling, cands);
        draws := draws + [cands];
        var victim := PickVictim(cands, pol, exclude, freq, route);
        if victim.None? {
          misses := misses + 1;
          if misses > MAX_EVICT_MISSES {
            PassEnds(old(m), draws, r, m, usage, ceiling);
            return;
          }
        } else {
          PickedStored(cands, m, r, victim.value);
          EvictOne(victim.value);
        }
      }
      PassEnds(old(m), draws, r, m, usage, ceiling);
    }

    method EvictOne(victim: Key)
      requires Valid() && victim in m
      modifies this`m, this`usage, this`evictions
      ensures Valid() && m == old(m) - {victim} && usage == old(usage) - Cost(victim, old(m)[victim])
      ensures evictions == old(evictions) + 1 && |m| == |old(m)| - 1
    {
      CostOfRemove(m, victim);
      Fewer(m, victim);
      usage := usage - Cost(victim, m[victim]);
      m := m - {victim};
      evictions := evictions + 1;
    }

    /** The bytes of a live key; an expired entry reads as absent and stays stored. */
    method Get(k: Key, now: int) returns (r: Option<seq<byte>>)
      ensures r == if k in Live(m, now) then Some(Live(m, now)[k].value) else None
    {
      if k !in m || Expired(m[k], now) {
        return None;
      }
      r := Some(m[k].value);
    }

    /** Store, account, and make room from the other keys.  A write is refused only under
        `NoEviction`, and exactly when it would grow usage past the ceiling. */
    method Set(k: Key, value: seq<byte>, ttl: int, now: int, freq: Key -> nat)
      returns (r: SetOutcome, ghost draws: seq<seq<Key>>)
      requires Valid()
      modifies this`m, this`usage, this`evictions
      ensures Valid()
      ensures r.OutOfMemory? <==>
        var cost, was := |k| + |value| + ENTRY_OVERHEAD, OldCost(old(m), k);
        maxmemory > 0 && policy.NoEviction? && cost > was && old(usage) + cost - was > maxmemory
      ensures r.OutOfMemory? ==> m == old(m) && usage == old(usage) && evictions == old(evictions)
      ensures r.Stored? ==>
        && k in m && m[k].value == value && m[k].expiresAt == (if ttl > 0 then Some(now + ttl) else None)
        && Survivors(m, old(m)[k := m[k]])
      ensures r.Stored? && (maxmemory <= 0 || policy.NoEviction?) ==> m == old(m)[k := m[k]]
      ensures r.Stored? && maxmemory > 0 && !policy.NoEviction? ==>
        var rule, was := Rule(policy, Some(k), freq, route), old(m)[k := m[k]];
        && m == Evicted(was, draws, rule) && Genuine(was, draws, rule) && NotOverdone(m, was, usage, maxmemory)
        && (usage <= maxmemory || GivesUp(was, draws, rule, maxmemory))
        && (FairPass(was, draws, rule) ==> usage <= maxmemory || usage == |k| + |value| + ENTRY_OVERHEAD)
      ensures maxmemory > 0 && policy.NoEviction? && old(usage) <= maxmemory ==> usage <= maxmemory
    {
      draws := [];
      var e := Entry(value, if ttl > 0 then Some(now + ttl) else None);
      var ceiling, pol := maxmemory, policy;
      if ceiling > 0 && pol.NoEviction? {
        var delta := Cost(k, e) - OldCost(m, k);
        if delta > 0 && usage + delta > ceiling {
          return OutOfMemory, draws;
        }
      }
      CostOfPut(m, k, e);
      usage := usage + Cost(k, e) - OldCost(m, k);
      m := m[k := e];
      if ceiling > 0 && !pol.NoEviction? && usage > ceiling {
        draws := EvictUntilUnder(ceiling, pol, Some(k), freq);
        if !AnyEligible(m, Some(k)) {
          OnlyNewcomer(m, k);
        }
      }
      r := Stored;
    }

    /** Remove `k` physically; report whether it was live. */
    method Del(k: Key, now: int) returns (existed: bool)
      requires Valid()
      modifies this`m, this`usage
      ensures Valid() && m == old(m) - {k} && existed == (k in Live(old(m), now))
    {
      CostOfRemove(m, k);
      if k !in m {
        assert m - {k} == m;
        return false;
      }
      var e := m[k];
      m := m - {k};
      usage := usage - Cost(k, e);
      existed := !Expired(e, now);
    }

    /** Remaining lifetime of a live key, -1 without expiry.  Whether the key is live is judged by one
        reading of the clock, what remains by a second one. */
    method TTL(k: Key, now: int, later: int) returns (r: Option<int>)
      ensures r == Remaining(Live(m, now), k, later)
    {
      if k !in m || Expired(m[k], now) {
        return None;
      }
      if m[k].expiresAt.None? {
        return Some(-1);
      }
      r := Some(m[k].expiresAt.value - later);
    }

    /** How many stored entries are live, the clock being read anew for each one visited. */
    method Len(clock: nat -> int) returns (n: nat, ghost order: seq<Key>)
      ensures Lists(order, m) && n == |Seen(m, order, clock)|
    {
      n, order := 0, [];
      var left, i := m.Keys, 0;
      assert Seen(m, order, clock) == {};
      while left != {}
        invariant left <= m.Keys && i == |order| && Lists(order, m - left) && n == |Seen(m, order, clock)|
        decreases left
      {
        var k :| k in left;
        SeenNext(m, order, clock, k);
        ListsNext(m, order, left, k);
        left, order := left - {k}, order + [k];
        if !Expired(m[k], clock(i)) {
          n := n + 1;
        }
        i := i + 1;
      }
      assert m - left == m;
    }

    /** Lowering the ceiling under an evicting policy evicts down to it at once. */
    method SetMaxMemory(bytes: int, freq: Key -> nat) returns (ghost draws: seq<seq<Key>>)
      requires Valid()
      modifies this`m, this`usage, this`evictions, this`maxmemory
      ensures Valid() && maxmemory == bytes && Survivors(m, old(m))
      ensures bytes <= 0 || policy.NoEviction? || old(usage) <= bytes ==> m == old(m)
      ensures bytes > 0 && !policy.NoEviction? ==>
        var rule := Rule(policy, None, freq, route);
        && m == Evicted(old(m), draws, rule) && Genuine(old(m), draws, rule)
        && (usage <= bytes || GivesUp(old(m), draws, rule, bytes))
        && (FairPass(old(m), draws, rule) ==> usage <= bytes)
    {
      draws := [];
      maxmemory := bytes;
      if bytes > 0 && !policy.NoEviction? && usage > bytes {
        draws := EvictUntilUnder(bytes, policy, None, freq);
        if !AnyEligible(m, None) {
          NothingLeft(m);
        }
      }
    }
  }

  /** `order` names every key of `m` once. */
  ghost predicate Lists(order: seq<Key>, m: map<Key, Entry>)
  {
    && (forall i :: 0 <= i < |order| ==> order[i] in m)
    && (forall i, j :: 0 <= i < j < |order| ==> order[i] != order[j])
    && (forall k :: k in m ==> k in order)
  }

  /** The keys found live, the `i`th one visited being judged by the `i`th reading of the clock. */
  ghost function Seen(m: map<Key, Entry>, order: seq<Key>, clock: nat -> int): set<Key>
  {
    set i | 0 <= i < |order| && order[i] in m && !Expired(m[order[i]], clock(i)) :: order[i]
  }

  lemma SeenNext(m: map<Key, Entry>, order: seq<Key>, clock: nat -> int, k: Key)
    requires k in m && k !in order
    ensures Seen(m, order + [k], clock)
         == if Expired(m[k], clock(|order|)) then Seen(m, order, clock) else Seen(m, order, clock) + {k}
    ensures k !in Seen(m, order, clock)
  {
    var all := order + [k];
    assert forall i :: 0 <= i < |order| ==> all[i] == order[i];
    assert all[|order|] == k;
    forall l | l in Seen(m, order, clock)
      ensures l in Seen(m, all, clock)
    {
      var i :| 0 <= i < |order| && order[i] in m && !Expired(m[order[i]], clock(i)) && order[i] == l;
      assert all[i] == l;
    }
    forall l | l in Seen(m, all, clock)
      ensures l in Seen(m, order, clock) || (l == k && !Expired(m[k], clock(|order|)))
    {
      var i :| 0 <= i < |all| && all[i] in m && !Expired(m[all[i]], clock(i)) && all[i] == l;
      if i < |order| {
        assert order[i] == l;
      }
    }
  }

  lemma ListsNext(m: map<Key, Entry>, order: seq<Key>, left: set<Key>, k: Key)
    requires k in left && left <= m.Keys && Lists(order, m - left)
    ensures k !in order && Lists(order + [k], m - (left - {k}))
  {
  }

  /** With readings that advance, the count lies between the live entries at the last reading and at
      the first; with one reading for all it is exactly theirs. */
  lemma LenBetween(m: map<Key, Entry>, order: seq<Key>, clock: nat -> int, first: int, last: int)
    requires Lists(order, m) && forall i :: 0 <= i < |order| ==> first <= clock(i) <= last
    ensures |Live(m, last)| <= |Seen(m, order, clock)| <= |Live(m, first)|
  {
    var seen := Seen(m, order, clock);
    forall k | k in Live(m, last).Keys
      ensures k in seen
    {
      var i :| 0 <= i < |order| && order[i] == k;
      assert first <= clock(i) <= last;
    }
    forall k | k in seen
      ensures k in Live(m, first).Keys
    {
      var i :| 0 <= i < |order| && order[i] in m && !Expired(m[order[i]], clock(i)) && order[i] == k;
      assert first <= clock(i) <= last;
    }
    SubsetSize(Live(m, last).Keys, seen);
    SubsetSize(seen, Live(m, first).Keys);
  }

  function Remaining(live: map<Key, Entry>, k: Key, now: int): Option<int>
  {
    if k !in live then None
    else if live[k].expiresAt.None? then Some(-1)
    else Some(live[k].expiresAt.value - now)
  }

  /** The remaining lifetime of a live key that expires is positive, whatever is stored, if and only if
      the second reading of the clock is no later than the first. */
  lemma PositiveTTLIff(now: int, later: int)
    ensures (forall m: map<Key, Entry>, k :: k in Live(m, now) && m[k].expiresAt.Some? ==>
      Remaining(Live(m, now), k, later).value > 0)
       <==> later <= now
  {
    if now < later {
      var m: map<Key, Entry> := map[[] := Entry([], Some(now + 1))];
      assert [] in Live(m, now) && m[[]].expiresAt.Some?;
      assert Remaining(Live(m, now), [], later).value <= 0;
    }
  }

  /** Two readings apart, a key that expires can even report the -1 that means it never does. */
  lemma TTLMayLookEternal(now: int)
    ensures exists m: map<Key, Entry>, k, later ::
      k in Live(m, now) && m[k].expiresAt.Some? && Remaining(Live(m, now), k, later) == Some(-1)
  {
    var m: map<Key, Entry> := map[[] := Entry([], Some(now + 1))];
    assert [] in Live(m, now) && m[[]].expiresAt.Some? && Remaining(Live(m, now), [], now + 2) == Some(-1);
  }

  lemma OnlyNewcomer(m: map<Key, Entry>, k: Key)
    requires k in m && !AnyEligible(m, Some(k))
    ensures TotalCost(m) == Cost(k, m[k])
  {
    assert forall l :: l in m ==> !Eligible(l, Some(k));
    assert m.Keys == {k};
    CostAtLeast(m, k);
  }

  lemma NothingLeft(m: map<Key, Entry>)
    requires !AnyEligible(m, None)
    ensures TotalCost(m) == 0
  {
    assert forall k :: Eligible(k, None);
    assert m.Keys == {};
  }
}
