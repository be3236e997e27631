/** Lazy expiry is invisible: whole runs of the engine against a store that throws expired
    entries away at once. */
module CacheRefinement {
  import opened Options
  import opened CacheCost
  import opened CacheEngine

  datatype Op = Get(k: Key) | Set(k: Key, value: seq<byte>, ttl: int) | Del(k: Key) | Ttl(k: Key) | Len

  /** One call and the clock reading it sees. */
  datatype Call = Call(op: Op, now: int)

  datatype Answer =
    Bytes(b: Option<seq<byte>>) | Wrote(r: SetOutcome) | Existed(e: bool) | Lifetime(t: Option<int>) | Count(n: nat)

  /** A call, its answer, and the keys that its eviction pass took. */
  datatype Event = Event(call: Call, answer: Answer, gone: set<Key>)

  // ---- The two stores ----

  /** What a store answers that shows the entries `r`.  It does not judge whether a write is affordable. */
  predicate Agrees(r: map<Key, Entry>, c: Call, a: Answer)
  {
    match c.op
    case Get(k) => a == Bytes(if k in r then Some(r[k].value) else None)
    case Set(_, _, _) => a.Wrote?
    case Del(k) => a == Existed(k in r)
    case Ttl(k) => a == Lifetime(Remaining(r, k, c.now))
    case Len => a == Count(|r|)
  }

  /** What the call itself leaves. */
  function Written(m: map<Key, Entry>, c: Call, a: Answer): map<Key, Entry>
  {
    match c.op
    case Set(k, v, ttl) =>
      if a == Wrote(Stored) then m[k := Entry(v, if ttl > 0 then Some(c.now + ttl) else None)] else m
    case Del(k) => m - {k}
    case _ => m
  }

  function After(m: map<Key, Entry>, e: Event): map<Key, Entry>
  {
    Written(m, e.call, e.answer) - e.gone
  }

  lemma NothingGone(m: map<Key, Entry>, c: Call, a: Answer)
    ensures After(m, Event(c, a, {})) == Written(m, c, a)
  {
    assert Written(m, c, a) - {} == Written(m, c, a);
  }

  /** The reference, an eager store: before each call, whatever has expired is dropped for good. */
  function EagerState(run: seq<Event>): map<Key, Entry>
  {
    if run == [] then map[]
    else
      var n := |run| - 1;
      After(Live(EagerState(run[..n]), run[n].call.now), run[n])
  }

  /** The engine, a lazy store: expired entries stay until they are overwritten, deleted or evicted. */
  function LazyState(run: seq<Event>): map<Key, Entry>
  {
    if run == [] then map[] else After(LazyState(run[..|run| - 1]), run[|run| - 1])
  }

  ghost predicate AgreesAt(run: seq<Event>, i: nat)
    requires i < |run|
  {
    Agrees(Live(EagerState(run[..i]), run[i].call.now), run[i].call, run[i].answer)
  }

  /** Every answer of the run is the eager store's. */
  ghost predicate AllAgree(run: seq<Event>)
  {
    forall i :: 0 <= i < |run| ==> AgreesAt(run, i)
  }

  ghost predicate LazyAt(run: seq<Event>, i: nat)
    requires i < |run|
  {
    Agrees(Live(LazyState(run[..i]), run[i].call.now), run[i].call, run[i].answer)
  }

  /** Every answer is what the lazy store shows through the clock. */
  ghost predicate LazyRun(run: seq<Event>)
  {
    forall i :: 0 <= i < |run| ==> LazyAt(run, i)
  }

  lemma StatesAt(run: seq<Event>, i: nat)
    requires i < |run|
    ensures LazyState(run[..i + 1]) == After(LazyState(run[..i]), run[i])
    ensures EagerState(run[..i + 1]) == After(Live(EagerState(run[..i]), run[i].call.now), run[i])
  {
    assert run[..i + 1][..i] == run[..i];
  }

  // ---- What the engine evicts ----

  datatype Limits = Limits(maxmemory: int, policy: Policy, route: Route)
  {
    predicate Evicts() { maxmemory > 0 && !policy.NoEviction? }
  }

  /** A write under an evicting policy. */
  predicate MakesRoom(l: Limits, e: Event)
  {
    l.Evicts() && e.call.op.Set? && e.answer == Wrote(Stored)
  }

  /** `draws` is a pass over `was` that takes the keys `gone` and ends under the ceiling or gives up. */
  ghost predicate Takes(l: Limits, was: map<Key, Entry>, r: Rule, draws: seq<seq<Key>>, gone: set<Key>)
  {
    && Genuine(was, draws, r) && was - gone == Evicted(was, draws, r)
    && (TotalCost(was - gone) <= l.maxmemory || GivesUp(was, draws, r, l.maxmemory))
  }

  ghost predicate SomePassTakes(l: Limits, was: map<Key, Entry>, r: Rule, gone: set<Key>)
  {
    exists draws :: Takes(l, was, r, draws, gone)
  }

  /** Only a write evicts, and only under an evicting policy; it takes what some pass over the stored
      entries takes, and never the key it wrote. */
  ghost predicate EvictsByPass(l: Limits, m: map<Key, Entry>, e: Event, freq: Key -> nat)
  {
    if MakesRoom(l, e) then
      && e.call.op.k !in e.gone && e.gone <= Written(m, e.call, e.answer).Keys
      && SomePassTakes(l, Written(m, e.call, e.answer), Rule(l.policy, Some(e.call.op.k), freq, l.route), e.gone)
    else e.gone == {}
  }

  ghost predicate AllByPass(l: Limits, run: seq<Event>, freq: nat -> Key -> nat)
  {
    forall i :: 0 <= i < |run| ==> EvictsByPass(l, LazyState(run[..i]), run[i], freq(i))
  }

  ghost predicate Follows(cache: Cache, l: Limits)
    reads cache
  {
    cache.maxmemory == l.maxmemory && cache.policy == l.policy && cache.route == l.route
  }

  /** A write on the engine. */
  method Write(cache: Cache, c: Call, freq: Key -> nat, ghost l: Limits) returns (a: Answer, ghost gone: set<Key>)
    requires cache.Valid() && Follows(cache, l) && c.op.Set?
    modifies cache
    ensures cache.Valid() && Follows(cache, l)
    ensures a.Wrote? && cache.m == After(old(cache.m), Event(c, a, gone))
    ensures EvictsByPass(l, old(cache.m), Event(c, a, gone), freq)
    ensures l.maxmemory <= 0 || l.Evicts() ==> a != Wrote(OutOfMemory)
    ensures l.maxmemory > 0 && l.policy.NoEviction? && old(cache.usage) <= l.maxmemory ==> cache.usage <= l.maxmemory
  {
    var k := c.op.k;
    var r, draws := cache.Set(k, c.op.value, c.op.ttl, c.now, freq);
    a := Wrote(r);
    ghost var was := Written(old(cache.m), c, a);
    gone := was.Keys - cache.m.Keys;
    assert was - gone == cache.m;
    if MakesRoom(l, Event(c, a, gone)) {
      assert Takes(l, was, Rule(l.policy, Some(k), freq, l.route), draws, gone);
    }
  }

  lemma OnlyWritesEvict(l: Limits, m: map<Key, Entry>, c: Call, a: Answer, freq: Key -> nat)
    requires !c.op.Set?
    ensures EvictsByPass(l, m, Event(c, a, {}), freq)
  {
  }

  /** One call on the engine. */
  method Perform(cache: Cache, c: Call, freq: Key -> nat, ghost l: Limits) returns (a: Answer, ghost gone: set<Key>)
    requires cache.Valid() && Follows(cache, l)
    modifies cache
    ensures cache.Valid() && Follows(cache, l)
    ensures Agrees(Live(old(cache.m), c.now), c, a) && cache.m == After(old(cache.m), Event(c, a, gone))
    ensures EvictsByPass(l, old(cache.m), Event(c, a, gone), freq)
    ensures l.maxmemory <= 0 || l.Evicts() ==> a != Wrote(OutOfMemory)
    ensures l.maxmemory > 0 && l.policy.NoEviction? && old(cache.usage) <= l.maxmemory ==> cache.usage <= l.maxmemory
  {
    hide After;
    hide EvictsByPass;
    hide Live;
    gone := {};
    match c.op {
      case Get(k) =>
        var b := cache.Get(k, c.now);
        a := Bytes(b);
      case Set(k, v, ttl) =>
        a, gone := Write(cache, c, freq, l);
      case Del(k) =>
        CostOfRemove(cache.m, k);
        var e := cache.Del(k, c.now);
        a := Existed(e);
      case Ttl(k) =>
        var t := cache.TTL(k, c.now, c.now);
        a := Lifetime(t);
      case Len =>
        var n, order := cache.Len(_ => c.now);
        LenBetween(cache.m, order, _ => c.now, c.now, c.now);
        a := Count(n);
    }
    if !c.op.Set? {
      NothingGone(old(cache.m), c, a);
      OnlyWritesEvict(l, old(cache.m), c, a, freq);
    }
  }

  lemma RunExtends(run: seq<Event>, e: Event, l: Limits, freq: nat -> Key -> nat)
    requires LazyRun(run) && Agrees(Live(LazyState(run), e.call.now), e.call, e.answer)
    requires AllByPass(l, run, freq) && EvictsByPass(l, LazyState(run), e, freq(|run|))
    ensures LazyRun(run + [e]) && AllByPass(l, run + [e], freq)
    ensures LazyState(run + [e]) == After(LazyState(run), e)
  {
    var all := run + [e];
    hide Agrees;
    hide EvictsByPass;
    assert all[..|run|] == run;
    forall i | 0 <= i < |all|
      ensures LazyAt(all, i) && EvictsByPass(l, LazyState(all[..i]), all[i], freq(i))
    {
      if i < |run| {
        assert LazyAt(run, i);
        assert all[..i] == run[..i];
      }
    }
  }

  // ---- When the two agree ----

  function Times(run: seq<Event>): (ts: seq<int>)
    ensures |ts| == |run| && forall i :: 0 <= i < |ts| ==> ts[i] == run[i].call.now
  {
    seq(|run|, (i: nat) requires i < |run| => run[i].call.now)
  }

  /** The clock never rises and falls back afterwards.  A clock that only advances has no peak. */
  ghost predicate NoPeak(ts: seq<int>)
  {
    forall a, i, j :: 0 <= a < i < j < |ts| && ts[a] < ts[i] ==> ts[i] <= ts[j]
  }

  /** Written before reading `i`: it expires after some earlier reading, if at all. */
  ghost predicate Born(e: Entry, ts: seq<int>, i: nat)
    requires i <= |ts|
  {
    e.expiresAt.None? || exists a :: 0 <= a < i && ts[a] < e.expiresAt.value
  }

  /** Seen dead before reading `i`, by a reading later than one at which it was alive. */
  ghost predicate Dead(e: Entry, ts: seq<int>, i: nat)
    requires i <= |ts|
  {
    e.expiresAt.Some? && exists a, d :: 0 <= a < d < i && ts[a] < e.expiresAt.value <= ts[d]
  }

  /** The eager store `r` lacks only entries of `m` that have been seen dead. */
  ghost predicate Related(m: map<Key, Entry>, r: map<Key, Entry>, ts: seq<int>, i: nat)
    requires i <= |ts|
  {
    && (forall k :: k in r ==> k in m && m[k] == r[k] && Born(m[k], ts, i))
    && (forall k :: k in m && k !in r ==> Dead(m[k], ts, i))
  }

  /** Without a peak, what was seen dead stays dead, so both stores look alike. */
  lemma RelatedLookAlike(m: map<Key, Entry>, r: map<Key, Entry>, ts: seq<int>, i: nat)
    requires i < |ts| && Related(m, r, ts, i) && NoPeak(ts)
    ensures Live(r, ts[i]) == Live(m, ts[i])
  {
    forall k | k in m && k !in r
      ensures Expired(m[k], ts[i])
    {
      assert Dead(m[k], ts, i);
      var a, d :| 0 <= a < d < i && ts[a] < m[k].expiresAt.value <= ts[d];
    }
  }

  lemma RelatedNext(m: map<Key, Entry>, r: map<Key, Entry>, ts: seq<int>, i: nat, e: Event)
    requires i < |ts| && e.call.now == ts[i] && Related(m, r, ts, i)
    ensures Related(After(m, e), After(Live(r, e.call.now), e), ts, i + 1)
  {
    var m', r' := After(m, e), After(Live(r, e.call.now), e);
    forall k | k in r'
      ensures k in m' && m'[k] == r'[k] && Born(m'[k], ts, i + 1)
    {
      BornLater(m'[k], ts, i);
    }
    forall k | k in m' && k !in r'
      ensures Dead(m'[k], ts, i + 1)
    {
      DeadNow(m'[k], ts, i, k in r);
    }
  }

  lemma BornLater(e: Entry, ts: seq<int>, i: nat)
    requires i < |ts|
    ensures Born(e, ts, i) ==> Born(e, ts, i + 1)
    ensures !Expired(e, ts[i]) ==> Born(e, ts, i + 1)
  {
  }

  lemma DeadNow(e: Entry, ts: seq<int>, i: nat, held: bool)
    requires i < |ts|
    requires if held then Born(e, ts, i) && Expired(e, ts[i]) else Dead(e, ts, i)
    ensures Dead(e, ts, i + 1)
  {
    if held {
      var a :| 0 <= a < i && ts[a] < e.expiresAt.value;
    } else {
      var a, d :| 0 <= a < d < i && ts[a] < e.expiresAt.value <= ts[d];
    }
  }

  lemma {:induction false} StoresRelated(run: seq<Event>, i: nat)
    requires i <= |run|
    ensures Related(LazyState(run[..i]), EagerState(run[..i]), Times(run), i)
  {
    if i > 0 {
      StoresRelated(run, i - 1);
      StatesAt(run, i - 1);
      hide Related;
      hide After;
      hide Live;
      RelatedNext(LazyState(run[..i - 1]), EagerState(run[..i - 1]), Times(run), i - 1, run[i - 1]);
    }
  }

  /** Without a peak in the clock the lazy store answers as the eager one. */
  lemma LazyAgrees(run: seq<Event>)
    requires LazyRun(run) && NoPeak(Times(run))
    ensures AllAgree(run)
  {
    forall i | 0 <= i < |run|
      ensures AgreesAt(run, i)
    {
      assert LazyAt(run, i);
      StoresRelated(run, i);
      hide Agrees;
      hide NoPeak;
      hide Related;
      hide LazyState;
      hide EagerState;
      RelatedLookAlike(LazyState(run[..i]), EagerState(run[..i]), Times(run), i);
    }
  }

  /** The run of these calls and answers. */
  ghost predicate Records(run: seq<Event>, calls: seq<Call>, answers: seq<Answer>)
  {
    && |run| == |answers| <= |calls|
    && (forall i :: 0 <= i < |run| ==> run[i].call == calls[i] && run[i].answer == answers[i])
  }

  /** Every run of Get, Set, Del, TTL and Len on a fresh engine, under any policy and ceiling, is a run
      of the lazy store less what the eviction passes took, and answers as the eager store less the
      same keys if the clock has no peak.  Only writes evict, what a pass over the stored entries takes,
      never the key written.  Refusals need a ceiling and `NoEviction`, which then keeps usage under it. */
  method RunAll(maxmemory: int, policy: Policy, route: Route, calls: seq<Call>, freq: nat -> Key -> nat)
    returns (answers: seq<Answer>, ghost run: seq<Event>, cache: Cache)
    requires route.shards > 0
    ensures |answers| == |calls| && Records(run, calls, answers)
    ensures LazyRun(run) && (NoPeak(Times(run)) ==> AllAgree(run))
    ensures forall i :: 0 <= i < |run| ==> FromHistory(run, i)
    ensures AllByPass(Limits(maxmemory, policy, route), run, freq)
    ensures maxmemory <= 0 || !policy.NoEviction? ==> Wrote(OutOfMemory) !in answers
    ensures cache.Valid() && cache.m == LazyState(run)
    ensures maxmemory > 0 && policy.NoEviction? ==> cache.usage <= maxmemory
  {
    cache := new Cache(maxmemory, policy, route);
    answers, run := [], [];
    ghost var l := Limits(maxmemory, policy, route);
    var i := 0;
    while i < |calls|
      invariant 0 <= i <= |calls| && |answers| == i && Records(run, calls, answers)
      invariant LazyRun(run) && AllByPass(l, run, freq)
      invariant fresh(cache) && cache.Valid() && Follows(cache, l) && cache.m == LazyState(run)
      invariant maxmemory > 0 && policy.NoEviction? ==> cache.usage <= maxmemory
      invariant maxmemory <= 0 || !policy.NoEviction? ==> Wrote(OutOfMemory) !in answers
    {
      hide *;
      var a, gone := Perform(cache, calls[i], freq(i), l);
      RecordsSize(run, calls, answers);
      RunExtends(run, Event(calls[i], a, gone), l, freq);
      RecordsNext(run, calls, answers, Event(calls[i], a, gone));
      EvictsIs(l);
      answers, run := answers + [a], run + [Event(calls[i], a, gone)];
      i := i + 1;
    }
    if NoPeak(Times(run)) {
      LazyAgrees(run);
    }
    forall j | 0 <= j < |run|
      ensures FromHistory(run, j)
    {
      AnswersFromHistory(run, j);
    }
  }

  lemma RecordsSize(run: seq<Event>, calls: seq<Call>, answers: seq<Answer>)
    requires Records(run, calls, answers)
    ensures |run| == |answers|
  {
  }

  lemma RecordsNext(run: seq<Event>, calls: seq<Call>, answers: seq<Answer>, e: Event)
    requires Records(run, calls, answers) && |answers| < |calls| && e.call == calls[|answers|]
    ensures Records(run + [e], calls, answers + [e.answer])
  {
  }

  lemma EvictsIs(l: Limits)
    ensures l.Evicts() <==> l.maxmemory > 0 && !l.policy.NoEviction?
  {
  }

  // ---- Answers from the history alone ----

  /** The event stores `k`; it removes `k`. */
  predicate Stores(e: Event, k: Key)
  {
    e.call.op.Set? && e.call.op.k == k && e.answer == Wrote(Stored)
  }

  predicate Removes(e: Event, k: Key)
  {
    (e.call.op.Del? && e.call.op.k == k) || k in e.gone
  }

  /** Event `j` stored `k`, and nothing before event `n` has overwritten or removed it. */
  ghost predicate LastWrite(run: seq<Event>, n: nat, k: Key, j: nat)
    requires n <= |run|
  {
    && j < n && Stores(run[j], k) && k !in run[j].gone
    && (forall p :: j < p < n ==> !Stores(run[p], k) && !Removes(run[p], k))
  }

  /** And what it stored has not expired when event `i` happens. */
  ghost predicate Shown(run: seq<Event>, i: nat, k: Key, j: nat)
    requires i < |run|
  {
    && LastWrite(run, i, k, j)
    && (run[j].call.op.ttl <= 0 || run[i].call.now < run[j].call.now + run[j].call.op.ttl)
  }

  ghost predicate Shows(run: seq<Event>, i: nat, k: Key)
    requires i < |run|
  {
    exists j: nat :: Shown(run, i, k, j)
  }

  /** The lifetime left at event `i` of what event `j` wrote, -1 if it never ends. */
  function LeftOf(run: seq<Event>, i: nat, j: nat): int
    requires i < |run| && j < |run| && run[j].call.op.Set?
  {
    if run[j].call.op.ttl <= 0 then -1 else run[j].call.now + run[j].call.op.ttl - run[i].call.now
  }

  function KeysSet(run: seq<Event>): set<Key>
  {
    set i | 0 <= i < |run| && run[i].call.op.Set? :: run[i].call.op.k
  }

  /** The answer of event `i` as the earlier writes, removals and their times determine it. */
  ghost predicate FromHistory(run: seq<Event>, i: nat)
    requires i < |run|
  {
    var a := run[i].answer;
    match run[i].call.op
    case Get(k) =>
      && (!Shows(run, i, k) ==> a == Bytes(None))
      && (forall j: nat :: Shown(run, i, k, j) ==> a == Bytes(Some(run[j].call.op.value)))
    case Ttl(k) =>
      && (!Shows(run, i, k) ==> a == Lifetime(None))
      && (forall j: nat :: Shown(run, i, k, j) ==> a == Lifetime(Some(LeftOf(run, i, j))))
    case Del(k) => a == Existed(Shows(run, i, k))
    case Len => a == Count(|set k | k in KeysSet(run) && Shows(run, i, k)|)
    case Set(_, _, _) => a.Wrote?
  }

  /** What is stored for `k` is what the last write to it wrote; without one, nothing. */
  lemma {:induction false} StoredIsLastWrite(run: seq<Event>, n: nat, k: Key) returns (j: nat)
    requires n <= |run|
    ensures forall i: nat :: LastWrite(run, n, k, i) ==> i == j
    ensures k in LazyState(run[..n]) <==> LastWrite(run, n, k, j)
    ensures LastWrite(run, n, k, j) ==>
      var c := run[j].call;
      LazyState(run[..n])[k] == Entry(c.op.value, if c.op.ttl > 0 then Some(c.now + c.op.ttl) else None)
  {
    j := n;
    if n > 0 {
      var before := StoredIsLastWrite(run, n - 1, k);
      StatesAt(run, n - 1);
      hide LazyState;
      j := if Stores(run[n - 1], k) then n - 1 else before;
      assert forall i: nat :: LastWrite(run, n, k, i) && i < n - 1 ==> LastWrite(run, n - 1, k, i);
    }
  }

  lemma ShownIsLive(run: seq<Event>, i: nat, k: Key)
    requires i < |run|
    ensures k in Live(LazyState(run[..i]), run[i].call.now) <==> Shows(run, i, k)
    ensures forall j: nat :: Shown(run, i, k, j) ==>
      && LazyState(run[..i])[k].value == run[j].call.op.value
      && Remaining(Live(LazyState(run[..i]), run[i].call.now), k, run[i].call.now) == Some(LeftOf(run, i, j))
  {
    var j := StoredIsLastWrite(run, i, k);
    hide LazyState;
    hide LastWrite;
    if k in Live(LazyState(run[..i]), run[i].call.now) {
      assert Shown(run, i, k, j);
    }
  }

  lemma LastWriteSets(run: seq<Event>, n: nat, k: Key, j: nat)
    requires n <= |run| && LastWrite(run, n, k, j)
    ensures k in KeysSet(run)
  {
  }

  /** Every answer of the lazy store is the one the history determines. */
  lemma AnswersFromHistory(run: seq<Event>, i: nat)
    requires LazyRun(run) && i < |run|
    ensures FromHistory(run, i)
  {
    assert LazyAt(run, i);
    var live := Live(LazyState(run[..i]), run[i].call.now);
    if run[i].call.op.Len? {
      forall k
        ensures k in live <==> k in KeysSet(run) && Shows(run, i, k)
      {
        ShownIsLive(run, i, k);
        if j: nat :| Shown(run, i, k, j) {
          LastWriteSets(run, i, k, j);
        }
      }
      assert live.Keys == set k | k in KeysSet(run) && Shows(run, i, k);
      assert |live| == |live.Keys|;
    } else {
      ShownIsLive(run, i, run[i].call.op.k);
    }
    hide LazyState;
    hide Shown;
    hide Live;
  }

  /** A write and then a read and a look at its lifetime, at any three clock readings. */
  method SetThenRead(cache: Cache, k: Key, value: seq<byte>, ttl: int, now: int, freq: Key -> nat, t: int, later: int)
    returns (r: SetOutcome, got: Option<seq<byte>>, left: Option<int>)
    requires cache.Valid()
    modifies cache
    ensures cache.Valid()
    ensures r.Stored? ==>
      && got == (if ttl <= 0 || t < now + ttl then Some(value) else None)
      && left == (if ttl <= 0 then Some(-1) else if t < now + ttl then Some(now + ttl - later) else None)
  {
    ghost var draws;
    r, draws := cache.Set(k, value, ttl, now, freq);
    got := cache.Get(k, t);
    left := cache.TTL(k, t, later);
  }

  // ---- A clock with a peak ----

  /** Write a key at `a` to expire at reading `i`, ask for it at `j`, and look elsewhere otherwise. */
  function PeakRun(ts: seq<int>, a: nat, i: nat, j: nat): (run: seq<Event>)
    requires a < i < j < |ts|
    ensures |run| == |ts| && Times(run) == ts
  {
    seq(|ts|, (p: nat) requires p < |ts| =>
      if p == a then Event(Call(Set([], [], ts[i] - ts[a]), ts[p]), Wrote(Stored), {})
      else if p == j then Event(Call(Get([]), ts[p]), Bytes(Some([])), {})
      else Event(Call(Get([1]), ts[p]), Bytes(None), {}))
  }

  /** What the two stores hold when `p` events of it have happened: `m` and `r`. */
  ghost predicate PeakHolds(m: map<Key, Entry>, r: map<Key, Entry>, e: Entry, stored: bool, kept: bool)
  {
    && m == (if stored then map[[] := e] else map[])
    && r.Keys <= (if kept then {[]} else {}) && (forall k :: k in r ==> r[k] == e)
  }

  lemma {:induction false} PeakStates(ts: seq<int>, a: nat, i: nat, j: nat, p: nat)
    requires a < i < j < |ts| && ts[a] < ts[i] && p <= |ts|
    ensures var run := PeakRun(ts, a, i, j);
      PeakHolds(LazyState(run[..p]), EagerState(run[..p]), Entry([], Some(ts[i])), p > a, a < p <= i)
  {
    var run := PeakRun(ts, a, i, j);
    if p > 0 {
      PeakStates(ts, a, i, j, p - 1);
      StatesAt(run, p - 1);
      var m, r, v := LazyState(run[..p - 1]), EagerState(run[..p - 1]), run[p - 1];
      assert v.gone == {} && v.call.now == ts[p - 1];
      assert if p - 1 == a then v.call.op == Set([], [], ts[i] - ts[a]) && v.answer == Wrote(Stored)
        else v.call.op.Get?;
      hide *;
      if p - 1 == a {
        PeakWrites(m, r, v, Entry([], Some(ts[i])));
      } else {
        PeakReads(m, r, v, Entry([], Some(ts[i])), p > a, a < p - 1 <= i, a < p <= i);
      }
    }
  }

  lemma PeakWrites(m: map<Key, Entry>, r: map<Key, Entry>, v: Event, e: Entry)
    requires PeakHolds(m, r, e, false, false) && v.gone == {} && v.answer == Wrote(Stored)
    requires v.call.op.Set? && v.call.op.k == v.call.op.value == [] && v.call.op.ttl > 0
    requires e == Entry([], Some(v.call.now + v.call.op.ttl))
    ensures PeakHolds(After(m, v), After(Live(r, v.call.now), v), e, true, true)
  {
    NothingGone(m, v.call, v.answer);
    NothingGone(Live(r, v.call.now), v.call, v.answer);
    hide After;
  }

  lemma PeakReads(m: map<Key, Entry>, r: map<Key, Entry>, v: Event, e: Entry, stored: bool, kept: bool, still: bool)
    requires PeakHolds(m, r, e, stored, kept) && v.gone == {} && v.call.op.Get? && e.expiresAt.Some?
    requires kept && v.call.now < e.expiresAt.value ==> still
    ensures PeakHolds(After(m, v), After(Live(r, v.call.now), v), e, stored, still)
  {
    NothingGone(m, v.call, v.answer);
    NothingGone(Live(r, v.call.now), v.call, v.answer);
    LiveOf(r, e, v.call.now);
    hide After;
    hide Live;
  }

  lemma LiveOf(m: map<Key, Entry>, e: Entry, now: int)
    requires forall k :: k in m ==> m[k] == e
    ensures Live(m, now) == if Expired(e, now) then map[] else m
  {
  }

  lemma PeakDiffers(ts: seq<int>, a: nat, i: nat, j: nat)
    requires a < i < j < |ts| && ts[a] < ts[i] && ts[j] < ts[i]
    ensures var run := PeakRun(ts, a, i, j); LazyRun(run) && !AllAgree(run)
  {
    var run := PeakRun(ts, a, i, j);
    forall p | 0 <= p < |ts|
      ensures LazyAt(run, p)
    {
      PeakStates(ts, a, i, j, p);
    }
    PeakStates(ts, a, i, j, j);
    assert !AgreesAt(run, j);
  }

  /** Lazy expiry is invisible to every run with these clock readings, whatever is evicted on the way,
      if and only if the clock has no peak among them. */
  lemma LazinessInvisibleIff(ts: seq<int>)
    ensures (forall run :: Times(run) == ts && LazyRun(run) ==> AllAgree(run)) <==> NoPeak(ts)
  {
    if NoPeak(ts) {
      forall run | Times(run) == ts && LazyRun(run)
        ensures AllAgree(run)
      {
        LazyAgrees(run);
      }
    } else {
      var a, i, j :| 0 <= a < i < j < |ts| && ts[a] < ts[i] && ts[j] < ts[i];
      PeakDiffers(ts, a, i, j);
      hide LazyRun;
      hide AllAgree;
    }
  }

  /** Dropping what has expired at one instant changes nothing seen at another, whatever is stored,
      if and only if the other is no earlier. */
  lemma LiveLaterIff(t0: int, t1: int)
    ensures (forall m :: Live(Live(m, t0), t1) == Live(m, t1)) <==> t0 <= t1
  {
    if t1 < t0 {
      var m: map<Key, Entry> := map[[] := Entry([], Some(t0))];
      assert [] in Live(m, t1) && [] !in Live(m, t0);
      assert Live(Live(m, t0), t1) != Live(m, t1);
    }
  }
}
