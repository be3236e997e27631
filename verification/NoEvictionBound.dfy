/** How far concurrent writers can pass the ceiling together under noeviction.  Each checks the
    counter before it writes, so all of them can be admitted into the same room. */
module NoEvictionBound {
  import opened Finite
  import opened Options
  import opened CacheCost
  import opened CacheEngine
  import opened UsageProtocol

  /** The ceiling is `c` and the policy noeviction. */
  ghost predicate Frozen(s: State, c: int)
  {
    s.ceiling == c && s.policy.NoEviction?
  }

  /** Where a thread can be while that holds, when no write costs more than `cost`. */
  ghost predicate PcOk(pc: Pc, c: int, cost: nat)
  {
    match pc
    case Idle => true
    case DelStart(_) => true
    case MaxTest(_) => true
    case DelAdd(delta) => delta <= 0
    case SetPolicy(k, e, ceiling) => ceiling == c && Cost(k, e) <= cost
    case SetGuard(k, e, ceiling, pol) => ceiling == c && pol.NoEviction? && Cost(k, e) <= cost
    case SetDecide(k, e, ceiling, was) => ceiling == c && Cost(k, e) <= cost
      && (was.Some? ==> Cost(k, was.value) <= cost)
    case SetSwap(k, e, ceiling, pol) => pol.NoEviction? && Cost(k, e) <= cost
    case SetAdd(_, _, pol, delta) => pol.NoEviction? && delta <= cost
    case SetCheck(_, _, pol) => pol.NoEviction?
    case _ => false
  }

  /** The binding a thread may still make good its claim to: what it has been admitted to write, or,
      before the decision, no more than the incumbent it has seen. */
  function Claim(pc: Pc): Option<(Key, Entry)>
  {
    match pc
    case SetSwap(k, e, _, _) => Some((k, e))
    case SetDecide(k, e, _, was) =>
      if Delta(k, e, was) <= 0 then Some((k, e)) else if was.Some? then Some((k, was.value)) else None
    case _ => None
  }

  function ClaimCost(pc: Pc): int
  {
    match Claim(pc)
    case None => 0
    case Some(p) => Cost(p.0, p.1)
  }

  function Weight(pc: Pc): int
  {
    ClaimCost(pc) + Pending(pc)
  }

  lemma WeightSmall(pc: Pc, c: int, cost: nat)
    requires PcOk(pc, c, cost)
    ensures Weight(pc) <= cost
  {
  }

  lemma {:induction false} SumSmall(threads: map<nat, Pc>, c: int, cost: nat)
    requires forall t :: t in threads ==> PcOk(threads[t], c, cost)
    ensures SumOf(threads, Weight) <= |threads| * cost
    decreases |threads|
  {
    hide *;
    if threads.Keys == {} {
      NoThreads(threads, Weight);
    } else {
      var t :| t in threads.Keys;
      SumWithout(threads, Weight, t);
      Fewer(threads, t);
      WeightSmall(threads[t], c, cost);
      SumSmall(threads - {t}, c, cost);
      OneMoreTimes(|threads| - 1, cost);
    }
  }

  lemma NoThreads(threads: map<nat, Pc>, f: Pc -> int)
    requires threads.Keys == {}
    ensures SumOf(threads, f) == 0 && |threads| == 0
  {
  }

  lemma OneMoreTimes(n: nat, cost: nat)
    ensures (n + 1) * cost == n * cost + cost
  {
  }

  lemma {:induction false} SumSplits(threads: map<nat, Pc>)
    ensures SumOf(threads, Weight) == SumOf(threads, ClaimCost) + SumOf(threads, Pending)
    decreases |threads|
  {
    hide ClaimCost;
    hide Pending;
    if threads.Keys != {} {
      var t :| t in threads.Keys;
      SumWithout(threads, Weight, t);
      SumWithout(threads, ClaimCost, t);
      SumWithout(threads, Pending, t);
      Fewer(threads, t);
      SumSplits(threads - {t});
    }
  }

  /** What all threads but one can have on their way. */
  function Spare(n: nat, cost: nat): nat
  {
    if n == 0 then 0 else (n - 1) * cost
  }

  // ---- Covers ----

  /** `x` binds `k` to something that costs at least as much as `e`. */
  ghost predicate Above(x: map<Key, Entry>, k: Key, e: Entry)
  {
    k in x && Cost(k, e) <= Cost(k, x[k])
  }

  ghost predicate ClaimAbove(x: map<Key, Entry>, pc: Pc)
  {
    Claim(pc).Some? ==> Above(x, Claim(pc).value.0, Claim(pc).value.1)
  }

  /** `x` costs, key by key, at least what is stored and what any thread may still store. */
  ghost predicate Covers(x: map<Key, Entry>, m: map<Key, Entry>, threads: map<nat, Pc>)
  {
    && (forall k :: k in m ==> Above(x, k, m[k]))
    && (forall t :: t in threads ==> ClaimAbove(x, threads[t]))
  }

  lemma {:induction false} CoverCosts(x: map<Key, Entry>, m: map<Key, Entry>)
    requires forall k :: k in m ==> Above(x, k, m[k])
    ensures TotalCost(m) <= TotalCost(x)
    decreases |m|
  {
    hide Cost;
    if m.Keys != {} {
      var k :| k in m.Keys;
      assert Above(x, k, m[k]);
      CostWithout(m, k);
      CostWithout(x, k);
      Fewer(m, k);
      forall l | l in m - {k}
        ensures Above(x - {k}, l, (m - {k})[l])
      {
        assert Above(x, l, m[l]);
      }
      CoverCosts(x - {k}, m - {k});
    }
  }

  /** Room for one more binding costs at most that binding. */
  lemma Widened(x: map<Key, Entry>, k: Key, e: Entry) returns (y: map<Key, Entry>)
    ensures Above(y, k, e) && TotalCost(y) <= TotalCost(x) + Cost(k, e)
    ensures forall l, f :: Above(x, l, f) ==> Above(y, l, f)
  {
    if Above(x, k, e) {
      y := x;
    } else {
      y := x[k := e];
      CostOfPut(x, k, e);
      hide TotalCost;
    }
  }

  /** What is stored and all claims together have a cover that costs no more than their sum. */
  lemma {:induction false} SomeCover(m: map<Key, Entry>, threads: map<nat, Pc>) returns (x: map<Key, Entry>)
    ensures Covers(x, m, threads) && TotalCost(x) <= TotalCost(m) + SumOf(threads, ClaimCost)
    decreases |threads|
  {
    hide TotalCost;
    hide Cost;
    if threads.Keys == {} {
      x := m;
    } else {
      var t :| t in threads.Keys;
      SumWithout(threads, ClaimCost, t);
      Fewer(threads, t);
      var y := SomeCover(m, threads - {t});
      hide SumOf;
      if Claim(threads[t]).Some? {
        var p := Claim(threads[t]).value;
        x := Widened(y, p.0, p.1);
      } else {
        x := y;
      }
      hide Above;
      hide Claim;
      forall u | u in threads
        ensures ClaimAbove(x, threads[u])
      {
        if u != t {
          assert ClaimAbove(y, (threads - {t})[u]);
        }
      }
    }
  }

  /** What a thread's claim adds to the binding already stored. */
  function Extra(m: map<Key, Entry>, pc: Pc): nat
  {
    match Claim(pc)
    case None => 0
    case Some(p) => if Cost(p.0, p.1) <= OldCost(m, p.0) then 0 else Cost(p.0, p.1) - OldCost(m, p.0)
  }

  /** Over a cover of what is stored, making room for a binding costs only what it adds. */
  lemma WidenedOver(x: map<Key, Entry>, m: map<Key, Entry>, k: Key, e: Entry) returns (y: map<Key, Entry>)
    requires k in m ==> Above(x, k, m[k])
    ensures Above(y, k, e) && (forall l, f :: Above(x, l, f) ==> Above(y, l, f))
    ensures TotalCost(y) <= TotalCost(x) + if Cost(k, e) <= OldCost(m, k) then 0 else Cost(k, e) - OldCost(m, k)
  {
    if Above(x, k, e) {
      y := x;
    } else {
      y := x[k := e];
      CostOfPut(x, k, e);
      hide TotalCost;
    }
  }

  /** A cover in which one thread's claim is charged only for what it adds. */
  lemma CoverBut(m: map<Key, Entry>, threads: map<nat, Pc>, v: nat) returns (x: map<Key, Entry>)
    requires v in threads
    ensures Covers(x, m, threads)
    ensures TotalCost(x) <= TotalCost(m) + SumOf(threads - {v}, ClaimCost) + Extra(m, threads[v])
  {
    hide TotalCost;
    hide Cost;
    hide SumOf;
    var y := SomeCover(m, threads - {v});
    x := y;
    if Claim(threads[v]).Some? {
      var p := Claim(threads[v]).value;
      x := WidenedOver(y, m, p.0, p.1);
    }
    hide Above;
    hide Claim;
    forall u | u in threads
      ensures ClaimAbove(x, threads[u])
    {
      if u != v {
        assert ClaimAbove(y, (threads - {v})[u]);
      }
    }
  }

  // ---- The last reader ----

  /** Past reading its incumbent, with something to add. */
  predicate Past(pc: Pc)
  {
    pc.SetDecide? || pc.SetSwap? || (pc.SetAdd? && pc.delta > 0)
  }

  /** What the thread read or was admitted for still holds: nobody has shrunk its key since, and what it
      adds has room under the ceiling. */
  ghost predicate Backed(s: State, pc: Pc, c: int)
  {
    match pc
    case SetDecide(k, _, _, was) => was.Some? ==> Cost(k, was.value) <= OldCost(s.m, k)
    case SetSwap(k, e, _, _) => Cost(k, e) <= OldCost(s.m, k) || s.usage + Cost(k, e) - OldCost(s.m, k) <= c
    case SetAdd(_, _, _, delta) => s.usage + delta <= c
    case _ => false
  }

  /** If every thread is past its read, one of them, the last to read, is backed. */
  ghost predicate Fresh(s: State, c: int)
  {
    |s.threads| > 0 && (forall t :: t in s.threads ==> Past(s.threads[t])) ==>
      exists z :: z in s.threads && Backed(s, s.threads[z], c)
  }

  /** Steps that leave their thread past its read keep `z` backed. */
  lemma StaysBacked(s: State, s': State, t: nat, c: int, z: nat)
    requires Step(s, s', t) && t in s'.threads && z in s.threads && Past(s.threads[t]) && Past(s'.threads[t])
    requires Backed(s, s.threads[z], c) && (s.threads[t].SetDecide? ==> s.threads[t].ceiling == c)
    ensures z in s'.threads && Backed(s', s'.threads[z], c)
  {
    hide Cost;
  }

  lemma FreshStep(s: State, s': State, t: nat, c: int, cost: nat)
    requires Step(s, s', t) && Fresh(s, c) && Frozen(s, c) && c > 0
    requires forall u :: u in s.threads ==> PcOk(s.threads[u], c, cost)
    ensures Fresh(s', c)
  {
    OneThreadMoves(s, s', t);
    assert s'.threads.Keys == s.threads.Keys;
    if |s'.threads| > 0 && forall u :: u in s'.threads ==> Past(s'.threads[u]) {
      assert Past(s'.threads[t]) && PcOk(s.threads[t], c, cost);
      if Past(s.threads[t]) {
        forall u | u in s.threads
          ensures Past(s.threads[u])
        {
          if u != t {
            assert Past(s'.threads[u]);
          }
        }
        var z :| z in s.threads && Backed(s, s.threads[z], c);
        StaysBacked(s, s', t, c, z);
      } else {
        JustRead(s, s', t, c, cost);
      }
    }
  }

  /** Only a read of the incumbent takes a thread there, and what was just read is stored. */
  lemma JustRead(s: State, s': State, t: nat, c: int, cost: nat)
    requires Step(s, s', t) && t in s'.threads && !Past(s.threads[t]) && Past(s'.threads[t])
    requires PcOk(s.threads[t], c, cost) && c > 0
    ensures Backed(s', s'.threads[t], c)
  {
    hide Cost;
  }

  // ---- Steps ----

  ghost predicate Bounded(s: State, c: int, cost: nat)
  {
    && (forall t :: t in s.threads ==> PcOk(s.threads[t], c, cost))
    && (forall k :: k in s.m ==> Cost(k, s.m[k]) <= cost)
    && exists x :: Covers(x, s.m, s.threads) && TotalCost(x) <= c + Spare(|s.threads|, cost)
  }

  lemma PcStep(s: State, s': State, t: nat, c: int, cost: nat)
    requires Step(s, s', t) && Frozen(s, c) && t in s'.threads
    requires PcOk(s.threads[t], c, cost) && forall k :: k in s.m ==> Cost(k, s.m[k]) <= cost
    requires s'.threads[t].SetPolicy? ==> Cost(s'.threads[t].k, s'.threads[t].e) <= cost
    ensures PcOk(s'.threads[t], c, cost)
    ensures forall k :: k in s'.m ==> Cost(k, s'.m[k]) <= cost
  {
    hide Cost;
  }

  /** Does this step admit a write that grows? */
  predicate Admits(s: State, s': State, t: nat)
  {
    && t in s.threads && t in s'.threads && s.threads[t].SetDecide? && s'.threads[t].SetSwap?
    && var pc := s.threads[t]; Delta(pc.k, pc.e, pc.was) > 0
  }

  /** Every other step stays under the cover it started from. */
  lemma SameCover(s: State, s': State, t: nat, c: int, cost: nat, x: map<Key, Entry>)
    requires Step(s, s', t) && Frozen(s, c) && c > 0 && t in s'.threads && PcOk(s.threads[t], c, cost)
      && !Admits(s, s', t)
    requires Covers(x, s.m, s.threads)
    ensures forall k :: k in s'.m ==> Above(x, k, s'.m[k])
    ensures ClaimAbove(x, s'.threads[t])
  {
    assert ClaimAbove(x, s.threads[t]);
    match s.threads[t] {
      case SetGuard(k, e, _, _) =>
        if k in s.m {
          assert Above(x, k, s.m[k]);
        }
      case _ =>
    }
  }

  lemma OthersCovered(s: State, s': State, t: nat, x: map<Key, Entry>)
    requires t in s.threads && t in s'.threads && s'.threads == s.threads[t := s'.threads[t]]
    requires Covers(x, s.m, s.threads) && ClaimAbove(x, s'.threads[t]) && forall k :: k in s'.m ==> Above(x, k, s'.m[k])
    ensures Covers(x, s'.m, s'.threads) && |s'.threads| == |s.threads|
  {
    hide Above;
    hide ClaimAbove;
    assert s'.threads.Keys == s.threads.Keys;
    forall u | u in s'.threads
      ensures ClaimAbove(x, s'.threads[u])
    {
      if u != t {
        assert ClaimAbove(x, s.threads[u]);
      }
    }
  }

  /** What an admitted growth adds is what the counter had room for, and one other thread has nothing to
      add or is backed. */
  lemma AdmittedCover(s: State, s': State, t: nat, c: int, cost: nat) returns (x: map<Key, Entry>)
    requires Step(s, s', t) && Frozen(s, c) && Accounted(s) && Admits(s, s', t) && Fresh(s, c)
    requires forall u :: u in s.threads ==> PcOk(s.threads[u], c, cost)
    ensures Covers(x, s'.m, s'.threads) && TotalCost(x) <= c + Spare(|s'.threads|, cost)
  {
    AdmitFacts(s, s', t, c, cost);
    var v := Chosen(s, s', t, c, cost);
    hide *;
    x := CoverBut(s'.m, s'.threads, v);
    CoverCost(s, s', t, c, cost, v);
  }

  lemma AdmitFacts(s: State, s': State, t: nat, c: int, cost: nat)
    requires Step(s, s', t) && Frozen(s, c) && Admits(s, s', t) && forall u :: u in s.threads ==>
      PcOk(s.threads[u], c, cost)
    ensures s'.m == s.m && s'.usage == s.usage && s'.threads == s.threads[t := s'.threads[t]]
    ensures s'.threads.Keys == s.threads.Keys && |s'.threads| == |s.threads| > 0
    ensures var pc, pc' := s.threads[t], s'.threads[t];
      && s.usage + Delta(pc.k, pc.e, pc.was) <= c && pc'.k == pc.k && pc'.e == pc.e && Cost(pc.k, pc.e) <= cost
      && Weight(pc') == Cost(pc.k, pc.e) && Pending(pc') == Pending(pc) == 0 && s.usage + Weight(pc') <= c + cost
    ensures forall u :: u in s'.threads ==> PcOk(s'.threads[u], c, cost)
  {
    var pc, pc' := s.threads[t], s'.threads[t];
    assert PcOk(pc, c, cost);
    assert s'.threads.Keys == s.threads.Keys;
    forall u | u in s'.threads
      ensures PcOk(s'.threads[u], c, cost)
    {
      if u != t {
        assert s'.threads[u] == s.threads[u];
      }
    }
  }

  /** The thread charged only for what it adds: one with nothing to add, or the last reader. */
  lemma Chosen(s: State, s': State, t: nat, c: int, cost: nat) returns (v: nat)
    requires Step(s, s', t) && Frozen(s, c) && Admits(s, s', t) && Fresh(s, c)
    requires forall u :: u in s.threads ==> PcOk(s.threads[u], c, cost)
    ensures v in s'.threads
    ensures var e := Extra(s'.m, s'.threads[v]) + Pending(s'.threads[v]); s.usage + e <= c || (v != t && e <= 0)
  {
    AdmitFacts(s, s', t, c, cost);
    if u :| u in s.threads && !Past(s.threads[u]) {
      v := u;
      assert PcOk(s.threads[u], c, cost);
    } else {
      v :| v in s.threads && Backed(s, s.threads[v], c);
      if v != t {
        BackedExtra(s, s.threads[v], c);
      }
    }
  }

  lemma BackedExtra(s: State, pc: Pc, c: int)
    requires Backed(s, pc, c)
    ensures var e := Extra(s.m, pc) + Pending(pc); s.usage + e <= c || e <= 0
  {
    hide Cost;
  }

  lemma CoverCost(s: State, s': State, t: nat, c: int, cost: nat, v: nat)
    requires Accounted(s) && t in s.threads && t in s'.threads && v in s'.threads && s'.m == s.m
    requires s'.threads == s.threads[t := s'.threads[t]] && |s'.threads| > 0
    requires Pending(s'.threads[t]) == Pending(s.threads[t]) && s.usage + Weight(s'.threads[t]) <= c + cost
    requires forall u :: u in s'.threads ==> PcOk(s'.threads[u], c, cost)
    requires var e := Extra(s'.m, s'.threads[v]) + Pending(s'.threads[v]); s.usage + e <= c || (v != t && e <= 0)
    ensures TotalCost(s'.m) + SumOf(s'.threads - {v}, ClaimCost) + Extra(s'.m, s'.threads[v])
         <= c + Spare(|s'.threads|, cost)
  {
    hide *;
    var others := s'.threads - {v};
    AccountedIs(s);
    SumOfMove(s.threads, Pending, t, s'.threads[t]);
    SumWithout(s'.threads, Pending, v);
    SumSplits(others);
    Fewer(s'.threads, v);
    SpareIs(|s'.threads|, cost);
    SumSmall(others, c, cost);
    if v != t {
      SumWithout(others, Weight, t);
      Fewer(others, t);
      SumSmall(others - {t}, c, cost);
      OneMoreTimes(|others| - 1, cost);
    }
  }

  lemma SpareIs(n: nat, cost: nat)
    requires n > 0
    ensures Spare(n, cost) == (n - 1) * cost
  {
  }

  lemma AccountedIs(s: State)
    requires Accounted(s)
    ensures s.usage + SumOf(s.threads, Pending) == TotalCost(s.m)
  {
  }

  lemma OneThreadMoves(s: State, s': State, t: nat)
    requires Step(s, s', t)
    ensures t in s.threads && t in s'.threads && s'.threads == s.threads[t := s'.threads[t]]
  {
  }

  lemma BoundedStep(s: State, s': State, t: nat, c: int, cost: nat)
    requires Bounded(s, c, cost) && Fresh(s, c) && Accounted(s) && Step(s, s', t) && Frozen(s, c) && c > 0
    requires t in s'.threads && s'.threads[t].SetPolicy? ==> Cost(s'.threads[t].k, s'.threads[t].e) <= cost
    ensures Bounded(s', c, cost) && Fresh(s', c)
  {
    OneThreadMoves(s, s', t);
    FreshStep(s, s', t, c, cost);
    hide Fresh;
    PcStep(s, s', t, c, cost);
    hide Step;
    hide TotalCost;
    hide Covers;
    hide PcOk;
    hide Accounted;
    hide Cost;
    var x :| Covers(x, s.m, s.threads) && TotalCost(x) <= c + Spare(|s.threads|, cost);
    if Admits(s, s', t) {
      x := AdmittedCover(s, s', t, c, cost);
    } else {
      SameCover(s, s', t, c, cost, x);
      OthersCovered(s, s', t, x);
    }
    assert Covers(x, s'.m, s'.threads) && TotalCost(x) <= c + Spare(|s'.threads|, cost);
    forall u | u in s'.threads
      ensures PcOk(s'.threads[u], c, cost)
    {
      if u != t {
        assert PcOk(s.threads[u], c, cost);
      }
    }
  }

  /** No write begun in the run costs more than `cost`. */
  ghost predicate Writes(run: seq<State>, cost: nat)
  {
    forall i :: 0 <= i < |run| ==> WritesAt(run[i], cost)
  }

  ghost predicate WritesAt(s: State, cost: nat)
  {
    forall t :: t in s.threads && s.threads[t].SetPolicy? ==> Cost(s.threads[t].k, s.threads[t].e) <= cost
  }

  lemma {:induction false} RunBounded(run: seq<State>, n: nat, c: int, cost: nat)
    requires IsRun(run) && n < |run| && c > 0 && Writes(run, cost) && forall i :: 0 <= i < |run| ==> Frozen(run[i], c)
    ensures Bounded(run[n], c, cost) && Fresh(run[n], c) && |run[n].threads| == |run[0].threads|
  {
    if n == 0 {
      StartBounded(run[0], c, cost);
    } else {
      RunBounded(run, n - 1, c, cost);
      UsageExact(run, n - 1);
      assert Next(run[n - 1], run[n]);
      var t :| Step(run[n - 1], run[n], t);
      assert WritesAt(run[n], cost);
      OneThreadMoves(run[n - 1], run[n], t);
      assert run[n].threads.Keys == run[n - 1].threads.Keys;
      hide Step;
      hide Bounded;
      hide Fresh;
      hide Accounted;
      BoundedStep(run[n - 1], run[n], t, c, cost);
    }
  }

  lemma StartBounded(s: State, c: int, cost: nat)
    requires Init(s) && c > 0
    ensures Bounded(s, c, cost) && Fresh(s, c)
  {
    if |s.threads| > 0 {
      var t :| t in s.threads.Keys;
      assert !Past(s.threads[t]);
    }
    var x: map<Key, Entry> := map[];
    assert Covers(x, s.m, s.threads) && TotalCost(x) == 0;
  }

  /** In every interleaving of `N` threads under noeviction and a fixed ceiling, what is stored never
      costs more than the ceiling and `N - 1` of the dearest writes: one thread alone never passes it. */
  lemma OvershootBounded(run: seq<State>, n: nat, c: int, cost: nat)
    requires IsRun(run) && n < |run| && c > 0 && Writes(run, cost) && forall i :: 0 <= i < |run| ==> Frozen(run[i], c)
    ensures TotalCost(run[n].m) <= c + Spare(|run[0].threads|, cost)
  {
    RunBounded(run, n, c, cost);
    hide TotalCost;
    var x :| Covers(x, run[n].m, run[n].threads) && TotalCost(x) <= c + Spare(|run[n].threads|, cost);
    CoverCosts(x, run[n].m);
  }

  // ---- The bound is reached ----

  /** A run under noeviction and the ceiling `c` throughout, with no write dearer than `cost`. */
  ghost predicate EndsAt(run: seq<State>, s: State, c: int, cost: nat)
  {
    && IsRun(run) && run[|run| - 1] == s && Writes(run, cost)
    && (forall i :: 0 <= i < |run| ==> Frozen(run[i], c))
  }

  /** Some such run ends in `s`. */
  ghost predicate Reaches(s: State, c: int, cost: nat)
  {
    exists run :: EndsAt(run, s, c, cost)
  }

  lemma ReachesNext(s: State, a: State, c: int, cost: nat)
    requires Reaches(s, c, cost) && Next(s, a) && Frozen(a, c) && WritesAt(a, cost)
    ensures Reaches(a, c, cost)
  {
    hide Next;
    hide IsRun;
    hide Frozen;
    hide WritesAt;
    var run :| EndsAt(run, s, c, cost);
    assert |run| > 0 by { RunNotEmpty(run); }
    var longer := Extended(run, a);
    forall i | 0 <= i < |longer|
      ensures Frozen(longer[i], c) && WritesAt(longer[i], cost)
    {
      if i < |run| {
        assert longer[i] == longer[..|run|][i] == run[i];
      }
    }
    assert EndsAt(longer, a, c, cost);
  }

  lemma RunNotEmpty(run: seq<State>)
    requires IsRun(run)
    ensures |run| > 0
  {
  }

  /** The `i`th of `n` writers' keys and entries: all different, all of one cost. */
  function WriterKey(i: nat): Key
  {
    seq(i, _ => 0)
  }

  function WriterEntry(n: nat, i: nat): Entry
    requires i <= n
  {
    Entry(seq(n - i, _ => 0), None)
  }

  lemma WriterCost(n: nat, i: nat)
    requires i <= n
    ensures Cost(WriterKey(i), WriterEntry(n, i)) == n + ENTRY_OVERHEAD
  {
  }

  lemma WriterKeysDiffer(i: nat, j: nat)
    requires i != j
    ensures WriterKey(i) != WriterKey(j)
  {
    assert |WriterKey(i)| == i && |WriterKey(j)| == j;
  }

  /** The first `i` of `n` writers admitted, none of them swapped. */
  function AllAdmitted(n: nat, i: nat): State
    requires i <= n
  {
    var c := n + ENTRY_OVERHEAD;
    State(map[], 0, c, NoEviction,
          map t: nat | t < n :: if t < i then SetSwap(WriterKey(t), WriterEntry(n, t), c, NoEviction) else Idle)
  }

  /** One step of thread `t` that changes nothing but where it stands. */
  lemma Stepped(s: State, t: nat, pc: Pc, c: int, cost: nat) returns (a: State)
    requires Reaches(s, c, cost) && Frozen(s, c) && WritesAt(s, cost) && t in s.threads
    requires Step(s, Moved(s, t, pc, s.m, s.usage), t) && (pc.SetPolicy? ==> Cost(pc.k, pc.e) <= cost)
    ensures a == Moved(s, t, pc, s.m, s.usage) && Reaches(a, c, cost) && Frozen(a, c) && WritesAt(a, cost)
  {
    hide Reaches;
    hide Cost;
    a := Moved(s, t, pc, s.m, s.usage);
    assert Next(s, a);
    hide Step;
    ReachesNext(s, a, c, cost);
  }

  /** A Set of a new key under noeviction, up to its admission. */
  lemma Admitted(s: State, t: nat, k: Key, e: Entry, c: int, cost: nat) returns (d: State)
    requires Reaches(s, c, cost) && Frozen(s, c) && WritesAt(s, cost) && c > 0
    requires t in s.threads && s.threads[t].Idle? && k !in s.m && Cost(k, e) <= cost && s.usage + Cost(k, e) <= c
    ensures d == Moved(s, t, SetSwap(k, e, c, NoEviction), s.m, s.usage) && Reaches(d, c, cost)
  {
    hide Reaches;
    hide Cost;
    hide WritesAt;
    d := Stepped(s, t, SetPolicy(k, e, c), c, cost);
    d := Stepped(d, t, SetGuard(k, e, c, NoEviction), c, cost);
    d := Stepped(d, t, SetDecide(k, e, c, None), c, cost);
    d := Stepped(d, t, SetSwap(k, e, c, NoEviction), c, cost);
    var f := SetSwap(k, e, c, NoEviction);
    assert d.threads == s.threads[t := f];
  }

  lemma AdmitNext(n: nat, i: nat)
    requires i < n && Reaches(AllAdmitted(n, i), n + ENTRY_OVERHEAD, n + ENTRY_OVERHEAD)
    ensures Reaches(AllAdmitted(n, i + 1), n + ENTRY_OVERHEAD, n + ENTRY_OVERHEAD)
  {
    hide Reaches;
    var s, k, e, c := AllAdmitted(n, i), WriterKey(i), WriterEntry(n, i), n + ENTRY_OVERHEAD;
    WriterCost(n, i);
    hide Cost;
    hide WriterKey;
    hide WriterEntry;
    var d := Admitted(s, i, k, e, c, c);
    assert d.threads == AllAdmitted(n, i + 1).threads;
  }

  lemma {:induction false} AdmitAll(n: nat, i: nat)
    requires i <= n
    ensures Reaches(AllAdmitted(n, i), n + ENTRY_OVERHEAD, n + ENTRY_OVERHEAD)
  {
    if i == 0 {
      var s := AllAdmitted(n, 0);
      assert EndsAt([s], s, n + ENTRY_OVERHEAD, n + ENTRY_OVERHEAD);
    } else {
      hide Reaches;
      AdmitAll(n, i - 1);
      AdmitNext(n, i - 1);
    }
  }

  /** What the first `i` writers store. */
  ghost function StoredBy(n: nat, i: nat): map<Key, Entry>
    requires i <= n
  {
    if i == 0 then map[] else StoredBy(n, i - 1)[WriterKey(i - 1) := WriterEntry(n, i - 1)]
  }

  lemma {:induction false} NotStoredYet(n: nat, i: nat, j: nat)
    requires i <= j <= n
    ensures WriterKey(j) !in StoredBy(n, i)
  {
    if i > 0 {
      NotStoredYet(n, i - 1, j);
      WriterKeysDiffer(i - 1, j);
    }
  }

  lemma {:induction false} StoredCost(n: nat, i: nat)
    requires i <= n
    ensures TotalCost(StoredBy(n, i)) == i * (n + ENTRY_OVERHEAD)
  {
    if i > 0 {
      StoredCost(n, i - 1);
      NotStoredYet(n, i - 1, i - 1);
      WriterCost(n, i - 1);
      hide Cost;
      CostOfPut(StoredBy(n, i - 1), WriterKey(i - 1), WriterEntry(n, i - 1));
      OneMoreTimes(i - 1, n + ENTRY_OVERHEAD);
    }
  }

  /** All admitted, and the first `i` swapped. */
  ghost function AllSwapped(n: nat, i: nat): State
    requires i <= n
  {
    var c := n + ENTRY_OVERHEAD;
    State(StoredBy(n, i), 0, c, NoEviction,
          map t: nat | t < n :: if t < i then SetAdd(WriterKey(t), c, NoEviction, c)
                                else SetSwap(WriterKey(t), WriterEntry(n, t), c, NoEviction))
  }

  lemma {:induction false} SwapAll(n: nat, i: nat)
    requires i <= n
    ensures Reaches(AllSwapped(n, i), n + ENTRY_OVERHEAD, n + ENTRY_OVERHEAD)
  {
    hide Reaches;
    var c := n + ENTRY_OVERHEAD;
    if i == 0 {
      AdmitAll(n, n);
      assert AllSwapped(n, 0).threads == AllAdmitted(n, n).threads;
    } else {
      SwapAll(n, i - 1);
      NotStoredYet(n, i - 1, i - 1);
      WriterCost(n, i - 1);
      hide Cost;
      var s, s' := AllSwapped(n, i - 1), AllSwapped(n, i);
      assert s'.threads == s.threads[i - 1 := SetAdd(WriterKey(i - 1), c, NoEviction, c)];
      hide WriterKey;
      hide WriterEntry;
      assert Step(s, s', i - 1);
      ReachesNext(s, s', c, c);
    }
  }

  ghost predicate Overshoots(s: State, n: nat)
  {
    && |s.threads| == n && s.ceiling > 0 && Reaches(s, s.ceiling, s.ceiling)
    && TotalCost(s.m) == s.ceiling + Spare(n, s.ceiling)
  }

  /** For every number of threads the bound is reached: all admitted into the room for one. */
  lemma OvershootReached(n: nat)
    requires n > 0
    ensures exists s: State :: Overshoots(s, n)
  {
    var s, c := AllSwapped(n, n), n + ENTRY_OVERHEAD;
    SwapAll(n, n);
    StoredCost(n, n);
    OneMoreTimes(n - 1, c);
    Counted(s.threads, n);
    hide Reaches;
    hide TotalCost;
    assert Overshoots(s, n);
  }

  lemma {:induction false} Counted(threads: map<nat, Pc>, n: nat)
    requires forall t: nat :: t in threads <==> t < n
    ensures |threads| == n
  {
    if n == 0 {
      assert threads.Keys == {};
    } else {
      Fewer(threads, n - 1);
      Counted(threads - {n - 1}, n - 1);
    }
  }
}
