/** What the concurrent engine stores and when its calls return: every key holds what the last swap put
    there, and a call that has to make room does not return before it has seen usage under its ceiling. */
module UsageHistory {
  import opened Options
  import opened CacheCost
  import opened CacheEngine
  import opened UsageProtocol

  // ---- The last step that touched a key ----

  /** The step is a Set's swap of `e` into `k`. */
  ghost predicate Swaps(s: State, s': State, k: Key, e: Entry)
  {
    exists t :: t in s.threads && s.threads[t].SetSwap? && s.threads[t].k == k && s.threads[t].e == e && Step(s, s', t)
  }

  ghost predicate SwapsSome(s: State, s': State, k: Key)
  {
    exists e :: Swaps(s, s', k, e)
  }

  /** The step is the deletion of `k`, by a Del or by an eviction pass. */
  ghost predicate Deletes(s: State, s': State, k: Key)
  {
    exists t :: t in s.threads && Removing(s.threads[t]) == Some(k) && Step(s, s', t)
  }

  function Removing(pc: Pc): Option<Key>
  {
    match pc
    case DelStart(k) => Some(k)
    case EvictDelete(_, victim) => Some(victim)
    case _ => None
  }

  /** Step `i` swapped `e` into `k`, and none since has touched `k`. */
  ghost predicate LastSwap(run: seq<State>, n: nat, k: Key, e: Entry, i: nat)
    requires n < |run|
  {
    i < n && Swaps(run[i], run[i + 1], k, e) && forall p :: i < p < n ==> Untouched(run, p, k)
  }

  ghost predicate Untouched(run: seq<State>, p: nat, k: Key)
    requires p + 1 < |run|
  {
    !SwapsSome(run[p], run[p + 1], k) && !Deletes(run[p], run[p + 1], k)
  }

  lemma StepTouches(s: State, s': State, k: Key)
    requires Next(s, s')
    ensures forall e :: Swaps(s, s', k, e) ==> k in s'.m && s'.m[k] == e
    ensures Deletes(s, s', k) ==> k !in s'.m
    ensures !SwapsSome(s, s', k) && !Deletes(s, s', k) ==>
      (k in s'.m <==> k in s.m) && (k in s.m ==> s'.m[k] == s.m[k])
  {
    var t :| Step(s, s', t);
    if s.threads[t].SetSwap? && s.threads[t].k == k {
      assert Swaps(s, s', k, s.threads[t].e);
    }
    if Removing(s.threads[t]) == Some(k) {
      assert Deletes(s, s', k);
    }
    hide Cost;
  }

  lemma StepIn(run: seq<State>, i: nat)
    requires IsRun(run) && i + 1 < |run|
    ensures Next(run[i], run[i + 1])
  {
  }

  lemma AtFirst(run: seq<State>)
    requires IsRun(run)
    ensures run[0].m == map[]
  {
  }

  /** In every interleaving, a key is stored if and only if the last step that touched it was a swap,
      and it holds what that swap wrote. */
  lemma {:induction false} StoredIsLastSwap(run: seq<State>, n: nat, k: Key)
    requires IsRun(run) && n < |run|
    ensures k in run[n].m <==> exists e, i: nat :: LastSwap(run, n, k, e, i)
    ensures forall e, i: nat :: LastSwap(run, n, k, e, i) ==> k in run[n].m && run[n].m[k] == e
  {
    hide IsRun;
    hide Next;
    hide Swaps;
    hide SwapsSome;
    hide Deletes;
    if n == 0 {
      AtFirst(run);
    } else {
      StoredIsLastSwap(run, n - 1, k);
      StepIn(run, n - 1);
      StepTouches(run[n - 1], run[n], k);
      forall e, i: nat | LastSwap(run, n, k, e, i)
        ensures k in run[n].m && run[n].m[k] == e
      {
        if i < n - 1 {
          assert Untouched(run, n - 1, k);
          assert LastSwap(run, n - 1, k, e, i);
        }
      }
      if k in run[n].m {
        SomeSwap(run, n - 1, n, k);
      }
    }
  }

  lemma SomeSwap(run: seq<State>, m: nat, n: nat, k: Key)
    requires m + 1 == n < |run| && Next(run[m], run[n]) && k in run[n].m
    requires k in run[m].m ==> exists e, i: nat :: LastSwap(run, m, k, e, i)
    ensures exists e, i: nat :: LastSwap(run, n, k, e, i)
  {
    hide Next;
    hide Swaps;
    StepTouches(run[m], run[n], k);
    if e :| Swaps(run[m], run[n], k, e) {
      assert LastSwap(run, n, k, e, m);
    } else {
      hide Deletes;
      assert Untouched(run, m, k);
      var e, i: nat :| LastSwap(run, m, k, e, i);
      assert LastSwap(run, n, k, e, i);
    }
  }

  // ---- The ceiling ----

  /** The step stores the ceiling `bytes`: a SetMaxMemory begins. */
  ghost predicate StoresCeiling(s: State, s': State, bytes: int)
  {
    exists t :: t in s.threads && t in s'.threads && s.threads[t].Idle? && s'.threads[t] == MaxTest(bytes)
  }

  ghost predicate StoresNone(s: State, s': State)
  {
    forall b :: !StoresCeiling(s, s', b)
  }

  /** A Set begins, and goes by the ceiling it has read. */
  ghost predicate BeginsWith(s: State, s': State, t: nat, ceiling: int)
  {
    && t in s.threads && t in s'.threads && s.threads[t].Idle?
    && s'.threads[t].SetPolicy? && s'.threads[t].ceiling == ceiling
  }

  ghost predicate AllBeginWith(s: State, s': State, ceiling: int)
  {
    forall t, c :: BeginsWith(s, s', t, c) ==> c == ceiling
  }

  /** Step `i` stored the ceiling `bytes`, and none since has stored another. */
  ghost predicate LastCeiling(run: seq<State>, n: nat, bytes: int, i: nat)
    requires n < |run|
  {
    i < n && StoresCeiling(run[i], run[i + 1], bytes) && forall p :: i < p < n ==> KeepsCeiling(run, p)
  }

  ghost predicate KeepsCeiling(run: seq<State>, p: nat)
    requires p + 1 < |run|
  {
    StoresNone(run[p], run[p + 1])
  }

  lemma CeilingStep(s: State, s': State)
    requires Next(s, s')
    ensures forall b :: StoresCeiling(s, s', b) ==> s'.ceiling == b
    ensures StoresNone(s, s') ==> s'.ceiling == s.ceiling
  {
    var t :| Step(s, s', t);
    if t in s'.threads && s.threads[t].Idle? && s'.threads[t].MaxTest? {
      assert StoresCeiling(s, s', s'.threads[t].bytes);
    }
    hide Cost;
  }

  lemma BeginStep(s: State, s': State)
    requires Next(s, s')
    ensures AllBeginWith(s, s', s.ceiling)
  {
    var t :| Step(s, s', t);
    hide Cost;
  }

  /** The ceiling in force is the one the last SetMaxMemory to begin has stored, whatever the others do,
      and it is what every Set that begins then goes by. */
  lemma {:induction false} CeilingIsLast(run: seq<State>, n: nat, bytes: int, i: nat)
    requires IsRun(run) && n < |run| && LastCeiling(run, n, bytes, i)
    ensures run[n].ceiling == bytes
    ensures n + 1 < |run| ==> AllBeginWith(run[n], run[n + 1], bytes)
    decreases n
  {
    hide IsRun;
    hide Next;
    hide StoresCeiling;
    hide StoresNone;
    hide AllBeginWith;
    StepIn(run, n - 1);
    CeilingStep(run[n - 1], run[n]);
    if i < n - 1 {
      assert KeepsCeiling(run, n - 1);
      CeilingIsLast(run, n - 1, bytes, i);
    }
    if n + 1 < |run| {
      StepIn(run, n);
      BeginStep(run[n], run[n + 1]);
    }
  }

  // ---- Calls that make room ----

  /** Bound to bring usage to `c`: a Set that has read `c` and an evicting policy, or a stored ceiling. */
  predicate Bound(pc: Pc, c: int)
  {
    match pc
    case SetGuard(_, _, ceiling, pol) => ceiling == c > 0 && !pol.NoEviction?
    case SetSwap(_, _, ceiling, pol) => ceiling == c > 0 && !pol.NoEviction?
    case SetAdd(_, ceiling, pol, _) => ceiling == c > 0 && !pol.NoEviction?
    case SetCheck(_, ceiling, pol) => ceiling == c > 0 && !pol.NoEviction?
    case MaxTest(bytes) => bytes == c > 0
    case MaxUsage(bytes) => bytes == c > 0
    case EvictTest(p) => p.ceiling == c && p.misses <= MAX_EVICT_MISSES
    case EvictPick(p) => p.ceiling == c && p.misses <= MAX_EVICT_MISSES
    case EvictDelete(p, _) => p.ceiling == c && p.misses <= MAX_EVICT_MISSES
    case EvictAdd(p, _) => p.ceiling == c && p.misses <= MAX_EVICT_MISSES
    case _ => false
  }

  function MissesOf(pc: Pc): nat
  {
    match pc
    case EvictTest(p) => p.misses
    case EvictPick(p) => p.misses
    case EvictDelete(p, _) => p.misses
    case EvictAdd(p, _) => p.misses
    case _ => 0
  }

  /** Thread `t` drew a sample that offered no victim. */
  ghost predicate Misses(s: State, s': State, t: nat)
  {
    t in s.threads && t in s'.threads && s.threads[t].EvictPick? && (s'.threads[t].EvictTest? || s'.threads[t].Idle?)
  }

  ghost function MissSteps(run: seq<State>, t: nat, i: nat, j: nat): nat
    requires i <= j < |run|
  {
    if i == j then 0 else MissSteps(run, t, i, j - 1) + if Misses(run[j - 1], run[j], t) then 1 else 0
  }

  lemma BoundStep(s: State, s': State, t: nat, c: int)
    requires Next(s, s') && t in s.threads && Bound(s.threads[t], c)
    ensures t in s'.threads
    ensures !s'.threads[t].Idle? ==>
      Bound(s'.threads[t], c) && MissesOf(s'.threads[t]) == MissesOf(s.threads[t]) + if Misses(s, s', t) then 1 else 0
    ensures s'.threads[t].Idle? ==>
      || s.usage <= c || (Misses(s, s', t) && MissesOf(s.threads[t]) == MAX_EVICT_MISSES)
      || (s.threads[t].MaxTest? && s.policy.NoEviction?)
  {
    var u :| Step(s, s', u);
    hide Cost;
  }

  /** The thread is bound at `i`, before any miss, and its call is under way until `j`. */
  ghost predicate UnderWay(run: seq<State>, t: nat, c: int, i: nat, j: nat)
    requires i <= j < |run|
  {
    && t in run[i].threads && Bound(run[i].threads[t], c) && MissesOf(run[i].threads[t]) == 0
    && (forall p :: i <= p < j ==> t in run[p].threads && !run[p].threads[t].Idle?)
  }

  lemma {:induction false} StaysBound(run: seq<State>, t: nat, c: int, i: nat, j: nat)
    requires IsRun(run) && i <= j < |run| && UnderWay(run, t, c, i, j)
    requires t in run[j].threads && !run[j].threads[t].Idle?
    ensures Bound(run[j].threads[t], c) && MissesOf(run[j].threads[t]) == MissSteps(run, t, i, j)
    decreases j
  {
    hide IsRun;
    hide Next;
    hide Bound;
    hide Misses;
    if i < j {
      StaysBound(run, t, c, i, j - 1);
      StepIn(run, j - 1);
      BoundStep(run[j - 1], run[j], t, c);
    }
  }

  /** In every interleaving, a Set that has read an evicting policy and a ceiling, or a SetMaxMemory,
      returns only on seeing the counter at or under its ceiling, or after just 101 samples without a
      victim; a SetMaxMemory also on finding that the policy does not evict. */
  lemma ReturnsUnder(run: seq<State>, t: nat, c: int, i: nat, j: nat)
    requires IsRun(run) && i < j < |run| && UnderWay(run, t, c, i, j)
    requires t in run[j].threads && run[j].threads[t].Idle?
    ensures
      || run[j - 1].usage <= c || MissSteps(run, t, i, j) == MAX_EVICT_MISSES + 1
      || (run[j - 1].threads[t].MaxTest? && run[j - 1].policy.NoEviction?)
  {
    hide Next;
    hide Bound;
    hide Misses;
    StaysBound(run, t, c, i, j - 1);
    StepIn(run, j - 1);
    BoundStep(run[j - 1], run[j], t, c);
  }

  /** Under noeviction a Set that has read the incumbent `was` returns without a swap if and only if it
      grows the entry and the counter it sees would pass the ceiling with that. */
  lemma RefusedIff(s: State, s': State, t: nat)
    requires Step(s, s', t) && s.threads[t].SetDecide?
    ensures t in s'.threads && s'.m == s.m && s'.usage == s.usage
    ensures var pc := s.threads[t];
      var grows := if pc.was.Some? then |pc.e.value| - |pc.was.value.value| else |pc.k| + |pc.e.value| + ENTRY_OVERHEAD;
      if grows > 0 && s.usage + grows > pc.ceiling then s'.threads[t] == Idle
      else s'.threads[t] == SetSwap(pc.k, pc.e, pc.ceiling, NoEviction)
  {
  }
}
