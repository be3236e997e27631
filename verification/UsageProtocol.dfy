/** The byte counter under concurrency.  Any number of threads run Set, Del and SetMaxMemory,
    interleaved at every access to shared state: the sharded map's operations are atomic
    under their shard lock, and the counter is an atomic integer updated in a later step. */
module UsageProtocol {
  import opened Finite
  import opened Options
  import opened CacheCost
  import opened CacheEngine

  /** The parameters of an eviction pass, read once by its caller. */
  datatype Pass = Pass(ceiling: int, exclude: Option<Key>, misses: nat)

  /** Where a thread stands. */
  datatype Pc =
    | Idle
    | SetPolicy(k: Key, e: Entry, ceiling: int)                            // ceiling read, policy next
    | SetGuard(k: Key, e: Entry, ceiling: int, pol: Policy)                // before the incumbent is read
    | SetDecide(k: Key, e: Entry, ceiling: int, was: Option<Entry>)        // incumbent read, before usage is compared
    | SetSwap(k: Key, e: Entry, ceiling: int, pol: Policy)                 // before the swap
    | SetAdd(k: Key, ceiling: int, pol: Policy, delta: int)                // swapped, delta not yet added
    | SetCheck(k: Key, ceiling: int, pol: Policy)                          // before the over-ceiling test
    | EvictTest(p: Pass)                                                   // head of the eviction loop
    | EvictPick(p: Pass)                                                   // before sampling
    | EvictDelete(p: Pass, victim: Key)                                    // victim chosen, not yet deleted
    | EvictAdd(p: Pass, delta: int)                                        // deleted, cost not yet subtracted
    | DelStart(k: Key)
    | DelAdd(delta: int)
    | MaxTest(bytes: int)                                                  // ceiling stored, policy next
    | MaxUsage(bytes: int)                                                 // policy evicts, usage next

  datatype State = State(m: map<Key, Entry>, usage: int, ceiling: int, policy: Policy, threads: map<nat, Pc>)

  /** What the thread has done to the map but not yet to the counter. */
  function Pending(pc: Pc): int
  {
    match pc
    case SetAdd(_, _, _, delta) => delta
    case EvictAdd(_, delta) => delta
    case DelAdd(delta) => delta
    case _ => 0
  }

  /** A quantity summed over all threads. */
  ghost function SumOf(threads: map<nat, Pc>, f: Pc -> int): int
    decreases |threads|
  {
    if threads.Keys == {} then 0
    else
      var t :| t in threads.Keys;
      Fewer(threads, t);
      f(threads[t]) + SumOf(threads - {t}, f)
  }

  lemma {:induction false} SumWithout(threads: map<nat, Pc>, f: Pc -> int, t: nat)
    requires t in threads
    ensures SumOf(threads, f) == f(threads[t]) + SumOf(threads - {t}, f)
    decreases |threads|
  {
    var u :| u in threads.Keys && SumOf(threads, f) == f(threads[u]) + SumOf(threads - {u}, f);
    if u != t {
      Fewer(threads, u);
      Fewer(threads, t);
      SumWithout(threads - {u}, f, t);
      SumWithout(threads - {t}, f, u);
      assert threads - {u} - {t} == threads - {t} - {u};
    }
  }

  lemma SumOfMove(threads: map<nat, Pc>, f: Pc -> int, t: nat, pc: Pc)
    requires t in threads
    ensures SumOf(threads[t := pc], f) == SumOf(threads, f) - f(threads[t]) + f(pc)
  {
    SumWithout(threads, f, t);
    SumWithout(threads[t := pc], f, t);
    assert threads[t := pc] - {t} == threads - {t};
  }

  ghost function PendingSum(threads: map<nat, Pc>): int
  {
    SumOf(threads, Pending)
  }

  // ---- Steps ----

  function Refund(k: Key, e: Entry): int
  {
    0 - Cost(k, e)
  }

  /** What a Set would add, judging by the incumbent it has read. */
  function Delta(k: Key, e: Entry, was: Option<Entry>): int
  {
    Cost(k, e) - if was.Some? then Cost(k, was.value) else 0
  }

  function Incumbent(m: map<Key, Entry>, k: Key): Option<Entry>
  {
    if k in m then Some(m[k]) else None
  }

  /** Thread `t` moves to `pc`; the shared state becomes `m`, `usage`. */
  function Moved(s: State, t: nat, pc: Pc, m: map<Key, Entry>, usage: int): State
  {
    s.(m := m, usage := usage, threads := s.threads[t := pc])
  }

  /** One atomic step of thread `t`. */
  ghost predicate Step(s: State, s': State, t: nat)
  {
    t in s.threads &&
    match s.threads[t]
    case Idle =>
      // A call begins, or a configuration change is stored.
      || (exists k, e :: s' == Moved(s, t, SetPolicy(k, e, s.ceiling), s.m, s.usage))
      || (exists k :: s' == Moved(s, t, DelStart(k), s.m, s.usage))
      || (exists bytes :: s' == Moved(s, t, MaxTest(bytes), s.m, s.usage).(ceiling := bytes))
      || (exists pol :: s' == s.(policy := pol))
    case SetPolicy(k, e, ceiling) =>
      s' == Moved(s, t, SetGuard(k, e, ceiling, s.policy), s.m, s.usage)
    case SetGuard(k, e, ceiling, pol) =>
      s' == Moved(s, t,
                  if ceiling > 0 && pol.NoEviction? then SetDecide(k, e, ceiling, Incumbent(s.m, k))
                  else SetSwap(k, e, ceiling, pol),
                  s.m, s.usage)
    case SetDecide(k, e, ceiling, was) =>
      var delta := Delta(k, e, was);
      s' == Moved(s, t,
                  if delta > 0 && s.usage + delta > ceiling then Idle else SetSwap(k, e, ceiling, NoEviction),
                  s.m, s.usage)
    case SetSwap(k, e, ceiling, pol) =>
      s' == Moved(s, t, SetAdd(k, ceiling, pol, Cost(k, e) - OldCost(s.m, k)), s.m[k := e], s.usage)
    case SetAdd(k, ceiling, pol, delta) =>
      s' == Moved(s, t, SetCheck(k, ceiling, pol), s.m, s.usage + delta)
    case SetCheck(k, ceiling, pol) =>
      s' == Moved(s, t,
                  if ceiling > 0 && !pol.NoEviction? && s.usage > ceiling then EvictTest(Pass(ceiling, Some(k), 0))
                  else Idle,
                  s.m, s.usage)
    case EvictTest(p) =>
      s' == Moved(s, t, if s.usage > p.ceiling then EvictPick(p) else Idle, s.m, s.usage)
    case EvictPick(p) =>
      // The sample is read shard by shard, so the victim may be gone again by now.
      || (exists victim :: p.exclude != Some(victim) && s' == Moved(s, t, EvictDelete(p, victim), s.m, s.usage))
      || s' == Moved(s, t,
                     if p.misses + 1 > MAX_EVICT_MISSES then Idle else EvictTest(p.(misses := p.misses + 1)),
                     s.m, s.usage)
    case EvictDelete(p, victim) =>
      s' == Moved(s, t,
                  if victim in s.m then EvictAdd(p, Refund(victim, s.m[victim])) else EvictTest(p),
                  s.m - {victim}, s.usage)
    case EvictAdd(p, delta) =>
      s' == Moved(s, t, EvictTest(p), s.m, s.usage + delta)
    case DelStart(k) =>
      s' == Moved(s, t, if k in s.m then DelAdd(Refund(k, s.m[k])) else Idle, s.m - {k}, s.usage)
    case DelAdd(delta) =>
      s' == Moved(s, t, Idle, s.m, s.usage + delta)
    case MaxTest(bytes) =>
      s' == Moved(s, t, if bytes > 0 && !s.policy.NoEviction? then MaxUsage(bytes) else Idle, s.m, s.usage)
    case MaxUsage(bytes) =>
      s' == Moved(s, t, if s.usage > bytes then EvictTest(Pass(bytes, None, 0)) else Idle, s.m, s.usage)
  }

  ghost predicate Init(s: State)
  {
    s.m == map[] && s.usage == 0 && forall t :: t in s.threads ==> s.threads[t].Idle?
  }

  /** The counter together with everything not yet applied to it is the cost of what is stored. */
  ghost predicate Accounted(s: State)
  {
    s.usage + PendingSum(s.threads) == TotalCost(s.m)
  }

  ghost predicate Quiet(s: State)
  {
    forall t :: t in s.threads ==> Pending(s.threads[t]) == 0
  }

  lemma {:induction false} QuietSum(threads: map<nat, Pc>)
    requires forall t :: t in threads ==> Pending(threads[t]) == 0
    ensures PendingSum(threads) == 0
    decreases |threads|
  {
    if threads.Keys != {} {
      var t :| t in threads.Keys;
      SumWithout(threads, Pending, t);
      Fewer(threads, t);
      QuietSum(threads - {t});
    }
  }

  /** A move keeps the account when what it adds to the counter and leaves pending is what it
      adds to the stored cost. */
  lemma MoveAccounted(s: State, t: nat, pc: Pc, m: map<Key, Entry>, usage: int)
    requires Accounted(s) && t in s.threads
    requires usage + Pending(pc) - TotalCost(m) == s.usage + Pending(s.threads[t]) - TotalCost(s.m)
    ensures Accounted(Moved(s, t, pc, m, usage))
  {
    SumOfMove(s.threads, Pending, t, pc);
  }

  /** Every step of every thread keeps the account. */
  lemma StepAccounted(s: State, s': State, t: nat)
    requires Accounted(s) && Step(s, s', t)
    ensures Accounted(s')
  {
    if s' == s.(policy := s'.policy) {
      return;
    }
    var pc := s'.threads[t];
    match s.threads[t] {
      case SetSwap(k, e, _, _) => CostOfPut(s.m, k, e);
      case EvictDelete(_, victim) => CostOfRemove(s.m, victim);
      case DelStart(k) => CostOfRemove(s.m, k);
      case _ =>
    }
    hide TotalCost;
    hide PendingSum;
    MoveAccounted(s, t, pc, s'.m, s'.usage);
  }

  ghost predicate Next(s: State, s': State)
  {
    exists t :: Step(s, s', t)
  }

  /** A run: a start and one thread's step after another. */
  ghost predicate IsRun(run: seq<State>)
  {
    && |run| > 0 && Init(run[0])
    && (forall i :: 0 < i < |run| ==> Next(run[i - 1], run[i]))
  }

  /** In every interleaving of any number of threads the account is exact at every moment, so
      the counter itself is exact whenever no thread is between its two updates. */
  lemma {:induction false} UsageExact(run: seq<State>, n: nat)
    requires IsRun(run) && n < |run|
    ensures Accounted(run[n])
    ensures Quiet(run[n]) ==> run[n].usage == TotalCost(run[n].m)
  {
    if n == 0 {
      QuietSum(run[0].threads);
    } else {
      UsageExact(run, n - 1);
      assert Next(run[n - 1], run[n]);
      var t :| Step(run[n - 1], run[n], t);
      StepAccounted(run[n - 1], run[n], t);
    }
    if Quiet(run[n]) {
      QuietSum(run[n].threads);
    }
  }

  // ---- The newcomer is never its own victim ----

  /** The key a thread's Set has written and must not evict. */
  function Newcomer(pc: Pc): Option<Key>
  {
    match pc
    case SetAdd(k, _, _, _) => Some(k)
    case SetCheck(k, _, _) => Some(k)
    case EvictTest(p) => p.exclude
    case EvictPick(p) => p.exclude
    case EvictDelete(p, _) => p.exclude
    case EvictAdd(p, _) => p.exclude
    case _ => None
  }

  ghost predicate SparesNewcomers(s: State)
  {
    forall t :: t in s.threads && s.threads[t].EvictDelete? ==> s.threads[t].p.exclude != Some(s.threads[t].victim)
  }

  lemma {:induction false} NewcomersSpared(run: seq<State>, n: nat)
    requires IsRun(run) && n < |run|
    ensures SparesNewcomers(run[n])
  {
    if n > 0 {
      NewcomersSpared(run, n - 1);
      assert Next(run[n - 1], run[n]);
      var t :| Step(run[n - 1], run[n], t);
      SpareStep(run[n - 1], run[n], t);
    }
  }

  lemma SpareStep(s: State, s': State, t: nat)
    requires SparesNewcomers(s) && Step(s, s', t)
    ensures SparesNewcomers(s')
  {
    forall u | u in s'.threads && s'.threads[u].EvictDelete?
      ensures s'.threads[u].p.exclude != Some(s'.threads[u].victim)
    {
      if u != t {
        assert s'.threads[u] == s.threads[u];
      }
    }
  }

  /** From its swap until it returns, a Set takes no step that touches the key it wrote, and
      keeps protecting that key; only another thread can overwrite or remove it. */
  lemma SetKeepsItsKey(run: seq<State>, n: nat, t: nat, k: Key)
    requires IsRun(run) && n + 1 < |run| && Step(run[n], run[n + 1], t) && Newcomer(run[n].threads[t]) == Some(k)
    ensures k in run[n + 1].m <==> k in run[n].m
    ensures k in run[n].m ==> run[n + 1].m[k] == run[n].m[k]
    ensures t in run[n + 1].threads && (run[n + 1].threads[t].Idle? || Newcomer(run[n + 1].threads[t]) == Some(k))
  {
    NewcomersSpared(run, n);
  }

  // ---- The pending part is needed ----

  /** The first steps of a Set without a ceiling, up to the pending addition. */
  lemma SetSteps(s: State, t: nat, k: Key, e: Entry) returns (a: State, b: State, c: State, d: State)
    requires t in s.threads && s.threads[t].Idle? && s.ceiling == 0
    ensures Next(s, a) && Next(a, b) && Next(b, c) && Next(c, d)
    ensures d == Moved(s, t, SetAdd(k, 0, s.policy, Cost(k, e) - OldCost(s.m, k)), s.m[k := e], s.usage)
  {
    a := Moved(s, t, SetPolicy(k, e, 0), s.m, s.usage);
    b := Moved(a, t, SetGuard(k, e, 0, s.policy), s.m, s.usage);
    c := Moved(b, t, SetSwap(k, e, 0, s.policy), s.m, s.usage);
    d := Moved(c, t, SetAdd(k, 0, s.policy, Cost(k, e) - OldCost(s.m, k)), s.m[k := e], s.usage);
    assert Step(s, a, t);
    assert Step(a, b, t);
    assert Step(b, c, t);
    assert Step(c, d, t);
    assert s.threads[t := a.threads[t]][t := b.threads[t]][t := c.threads[t]][t := d.threads[t]]
      == s.threads[t := d.threads[t]];
  }

  /** A whole Del of a stored key. */
  lemma DelSteps(s: State, t: nat, k: Key) returns (a: State, b: State, c: State)
    requires t in s.threads && s.threads[t].Idle? && k in s.m
    ensures Next(s, a) && Next(a, b) && Next(b, c)
    ensures c.usage == s.usage - Cost(k, s.m[k])
  {
    a := Moved(s, t, DelStart(k), s.m, s.usage);
    b := Moved(a, t, DelAdd(Refund(k, s.m[k])), s.m - {k}, s.usage);
    c := Moved(b, t, Idle, s.m - {k}, s.usage + Refund(k, s.m[k]));
    assert Step(s, a, t);
    assert Step(a, b, t);
    assert Step(b, c, t);
  }

  lemma Extended(run: seq<State>, a: State) returns (longer: seq<State>)
    requires IsRun(run) && Next(run[|run| - 1], a)
    ensures IsRun(longer) && |longer| == |run| + 1 && longer[|run|] == a && longer[..|run|] == run
  {
    hide Next;
    hide Init;
    longer := run + [a];
    forall i | 0 < i < |longer|
      ensures Next(longer[i - 1], longer[i])
    {
      if i < |run| {
        assert longer[i - 1] == run[i - 1] && longer[i] == run[i];
      }
    }
  }

  /** Mid-flight the counter alone can be wrong, even negative: a key is written and deleted, and
      the deleter's subtraction overtakes the writer's addition. */
  lemma CounterMayLag()
    ensures exists run: seq<State> :: IsRun(run) && run[|run| - 1].usage < 0
  {
    var k: Key := [];
    var e := Entry([], None);
    var s0 := State(map[], 0, 0, AllKeysLFU, map[0 := Idle, 1 := Idle]);
    assert IsRun([s0]);
    var s1, s2, s3, s4 := SetSteps(s0, 0, k, e);
    var s5, s6, s7 := DelSteps(s4, 1, k);
    hide Next;
    hide IsRun;
    var run := Extended([s0], s1);
    run := Extended(run, s2);
    run := Extended(run, s3);
    run := Extended(run, s4);
    run := Extended(run, s5);
    run := Extended(run, s6);
    run := Extended(run, s7);
  }
}
