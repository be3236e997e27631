/** Resizing while the drainer runs.  A resize stores the new sketch and then the new filter; a drain
    loads the sketch and then the filter, and keeps both to its end.  Every interleaving of any
    number of resizes with the one drainer, and what a fingerprint's estimate is still good for. */
module ResizeRace {
  import opened Finite
  import opened PackedWords
  import opened CountMin
  import opened FrequencyPolicy

  /** A fingerprint folded into a sketch, and the filter it came through. */
  datatype Sighting = Sighting(fp: Fp, via: nat)

  /** A sketch, with what has been folded into it since it was made or last halved. */
  datatype Sk = Sk(g: Grid, rows: Rows, log: seq<Sighting>)

  datatype Dk = Dk(d: DoorGrid, bits: set<nat>)

  /** What the drainer has loaded. */
  datatype Pc = Resting | HaveSketch(s: nat) | Draining(s: nat, d: nat)

  /** All sketches and filters ever stored; the last of each is the current one.  `half` is the number
      of resizes that have stored their sketch and not yet their filter. */
  datatype State = State(sks: seq<Sk>, dks: seq<Dk>, half: nat, incrs: nat, pc: Pc)

  datatype Action =
    StoreSketch(g: Grid) | StoreFilter(d: DoorGrid) | LoadSketch | LoadFilter | FoldIn(fp: Fp) | Finish

  ghost predicate Shapes(s: State)
  {
    && |s.sks| > 0 && |s.dks| > 0
    && (forall i :: 0 <= i < |s.sks| ==> Shaped(s.sks[i].rows, s.sks[i].g))
    && (forall i :: 0 <= i < |s.dks| ==> s.dks[i].d.size > 0)
    && (!s.pc.Resting? ==> s.pc.s < |s.sks|) && (s.pc.Draining? ==> s.pc.d < |s.dks|)
  }

  /** The sketch and filter after one fold of `fp` through both. */
  ghost function Folded(k: Sk, d: Dk, incrs: nat, via: nat, fp: Fp): (r: (Sk, Dk, nat))
    requires Shaped(k.rows, k.g) && d.d.size > 0
    ensures Shaped(r.0.rows, r.0.g) && r.0.g == k.g && r.1.d == d.d
  {
    var before := Drain(k.rows, d.bits, incrs);
    var after := Fold(before, k.g, d.d, fp);
    (Sk(k.g, after.rows, if Ages(before, k.g, d.d, fp) then [] else k.log + [Sighting(fp, via)]),
     Dk(d.d, after.door), after.incrs)
  }

  ghost predicate Can(s: State, a: Action)
    requires Shapes(s)
  {
    match a
    case StoreSketch(g) => g.width > 0
    case StoreFilter(d) => d.size > 0 && s.half > 0
    case LoadSketch => s.pc.Resting?
    case LoadFilter => s.pc.HaveSketch?
    case FoldIn(_) => s.pc.Draining?
    case Finish => s.pc.Draining?
  }

  ghost function Do(s: State, a: Action): (s': State)
    requires Shapes(s) && Can(s, a)
    ensures Shapes(s')
  {
    match a
    case StoreSketch(g) => s.(sks := s.sks + [Sk(g, Blank(g), [])], half := s.half + 1)
    case StoreFilter(d) => s.(dks := s.dks + [Dk(d, {})], half := s.half - 1)
    case LoadSketch => s.(pc := HaveSketch(|s.sks| - 1))
    case LoadFilter => s.(pc := Draining(s.pc.s, |s.dks| - 1))
    case FoldIn(fp) =>
      var (k, d, n) := Folded(s.sks[s.pc.s], s.dks[s.pc.d], s.incrs, s.pc.d, fp);
      s.(sks := s.sks[s.pc.s := k], dks := s.dks[s.pc.d := d], incrs := n)
    case Finish => s.(pc := Resting)
  }

  // ---- Sightings ----

  /** How often `fp` has been folded in. */
  function Times(log: seq<Sighting>, fp: Fp): nat
  {
    if log == [] then 0 else Times(log[..|log| - 1], fp) + if log[|log| - 1].fp == fp then 1 else 0
  }

  /** Through how many filters it came. */
  ghost function Filters(log: seq<Sighting>, fp: Fp): set<nat>
  {
    set i | 0 <= i < |log| && log[i].fp == fp :: log[i].via
  }

  lemma Logged(log: seq<Sighting>, f: Fp, via: nat, fp: Fp)
    ensures var all := log + [Sighting(f, via)];
      && Times(all, fp) == Times(log, fp) + (if f == fp then 1 else 0)
      && Filters(all, fp) == Filters(log, fp) + if f == fp then {via} else {}
  {
    var all := log + [Sighting(f, via)];
    assert all[..|log|] == log && all[|log|] == Sighting(f, via);
    forall d | d in Filters(log, fp)
      ensures d in Filters(all, fp)
    {
      var i :| 0 <= i < |log| && log[i].fp == fp && log[i].via == d;
      assert all[i].fp == fp && all[i].via == d;
    }
    forall d | d in Filters(all, fp)
      ensures d in Filters(log, fp) || (f == fp && d == via)
    {
      var i :| 0 <= i < |all| && all[i].fp == fp && all[i].via == d;
      if i < |log| {
        assert log[i].fp == fp && log[i].via == d;
      }
    }
  }

  /** The estimate is at least the sightings, less one for every filter they came through, up to 15. */
  ghost predicate Good(k: Sk, fp: Fp)
    requires Shaped(k.rows, k.g)
  {
    Estimate(k.rows, k.g, fp) + |Filters(k.log, fp)| >= Min(NIBBLE_MAX + |Filters(k.log, fp)|, Times(k.log, fp))
  }

  /** Every filter that `fp` came through still knows it. */
  ghost predicate Known(k: Sk, dks: seq<Dk>, fp: Fp)
  {
    forall v :: v in Filters(k.log, fp) ==> v < |dks| && KnownAt(dks[v], fp)
  }

  ghost predicate KnownAt(d: Dk, fp: Fp)
  {
    d.d.size > 0 ==> Spots(d.d, fp) <= d.bits
  }

  /** The sketch the drainer is using, or will use next. */
  function InUse(s: State): nat
    requires |s.sks| > 0
  {
    if s.pc.Resting? then |s.sks| - 1 else s.pc.s
  }

  ghost predicate Inv(s: State)
  {
    && Shapes(s)
    && (forall i, fp :: 0 <= i < |s.sks| ==> Good(s.sks[i], fp))
    && (forall fp :: Known(s.sks[InUse(s)], s.dks, fp))
    && (forall i :: InUse(s) < i < |s.sks| ==> s.sks[i].log == [])
  }

  lemma NothingLogged(fp: Fp)
    ensures Times([], fp) == 0 && Filters([], fp) == {}
  {
  }

  /** What one fold leaves in the sketch. */
  lemma FoldCases(k: Sk, d: Dk, incrs: nat, via: nat, f: Fp)
    requires Shaped(k.rows, k.g) && d.d.size > 0
    ensures var k', passes := Folded(k, d, incrs, via, f).0, Spots(d.d, f) <= d.bits;
      if !passes then k' == k.(log := k.log + [Sighting(f, via)])
      else if incrs + 1 >= k.g.width then k'.log == []
      else k' == Sk(k.g, Increment(k.rows, k.g, f), k.log + [Sighting(f, via)])
  {
    hide Increment;
    hide Spots;
  }

  /** A fold keeps the bound: only the first sighting through a filter is lost. */
  lemma FoldGood(k: Sk, d: Dk, incrs: nat, via: nat, f: Fp, fp: Fp)
    requires Shaped(k.rows, k.g) && d.d.size > 0 && Good(k, fp) && (via in Filters(k.log, fp) ==> KnownAt(d, fp))
    ensures Good(Folded(k, d, incrs, via, f).0, fp)
  {
    hide Folded;
    hide Shaped;
    hide Increment;
    hide Estimate;
    hide Spots;
    hide Times;
    hide Filters;
    FoldCases(k, d, incrs, via, f);
    Logged(k.log, f, via, fp);
    NothingLogged(fp);
    MoreFilters(Filters(k.log, fp), via);
    IncrementShaped(k.rows, k.g, f);
    if f == fp {
      IncrementOwn(k.rows, k.g, fp);
    } else {
      IncrementOthers(k.rows, k.g, f, fp);
      assert Filters(k.log, fp) + {} == Filters(k.log, fp);
    }
  }

  lemma MoreFilters(s: set<nat>, v: nat)
    ensures |s + {v}| == if v in s then |s| else |s| + 1
  {
    if v in s {
      assert s + {v} == s;
    }
  }

  lemma FoldKnown(k: Sk, dks: seq<Dk>, incrs: nat, via: nat, f: Fp, fp: Fp)
    requires Shaped(k.rows, k.g) && via < |dks| && dks[via].d.size > 0 && Known(k, dks, fp)
    ensures var (k', d', n) := Folded(k, dks[via], incrs, via, f); Known(k', dks[via := d'], fp)
  {
    Logged(k.log, f, via, fp);
    NothingLogged(fp);
    hide Increment;
    hide Spots;
    hide Times;
    hide Filters;
    var (k', d', n) := Folded(k, dks[via], incrs, via, f);
    forall v | v in Filters(k'.log, fp)
      ensures v < |dks| && KnownAt(dks[via := d'][v], fp)
    {
      if v in Filters(k.log, fp) {
        assert KnownAt(dks[v], fp);
      }
    }
  }

  lemma FreshGood(g: Grid, fp: Fp)
    requires g.width > 0
    ensures Good(Sk(g, Blank(g), []), fp) && forall dks: seq<Dk> :: Known(Sk(g, Blank(g), []), dks, fp)
  {
    NothingLogged(fp);
    hide Estimate;
    hide Times;
    hide Filters;
  }

  lemma FoldKeeps(s: State, f: Fp)
    requires Inv(s) && s.pc.Draining?
    ensures Inv(Do(s, FoldIn(f)))
  {
    var s', i, v := Do(s, FoldIn(f)), s.pc.s, s.pc.d;
    hide Folded;
    forall j, fp | 0 <= j < |s'.sks|
      ensures Good(s'.sks[j], fp)
    {
      assert Good(s.sks[j], fp);
      if j == i {
        assert Known(s.sks[i], s.dks, fp);
        FoldGood(s.sks[i], s.dks[v], s.incrs, v, f, fp);
      }
    }
    forall fp
      ensures Known(s'.sks[InUse(s')], s'.dks, fp)
    {
      assert Known(s.sks[i], s.dks, fp);
      FoldKnown(s.sks[i], s.dks, s.incrs, v, f, fp);
    }
  }

  lemma StoreKeeps(s: State, a: Action)
    requires Inv(s) && Can(s, a) && !a.FoldIn?
    ensures Inv(Do(s, a))
  {
    var s' := Do(s, a);
    hide Good;
    if a.StoreSketch? {
      forall fp
        ensures Good(s'.sks[|s.sks|], fp) && Known(s'.sks[|s.sks|], s'.dks, fp)
      {
        FreshGood(a.g, fp);
      }
    }
    forall j, fp | 0 <= j < |s'.sks|
      ensures Good(s'.sks[j], fp)
    {
      if j < |s.sks| {
        assert Good(s.sks[j], fp);
      }
    }
    forall fp
      ensures Known(s'.sks[InUse(s')], s'.dks, fp)
    {
      assert Known(s.sks[InUse(s)], s.dks, fp);
      if s'.sks[InUse(s')].log == [] {
        NothingLogged(fp);
      } else {
        forall v | v in Filters(s.sks[InUse(s)].log, fp)
          ensures v < |s'.dks| && KnownAt(s'.dks[v], fp)
        {
          assert KnownAt(s.dks[v], fp);
        }
      }
    }
  }

  // ---- Runs ----

  ghost predicate StepOk(s: State, s': State, a: Action)
  {
    Shapes(s) && Can(s, a) && s' == Do(s, a)
  }

  ghost function New(g: Grid, d: DoorGrid): (s: State)
    requires g.width > 0
  {
    State([Sk(g, Blank(g), [])], [Dk(d, {})], 0, 0, Resting)
  }

  /** A run from a new policy. */
  ghost predicate IsRun(ss: seq<State>, acts: seq<Action>, g: Grid, d: DoorGrid)
  {
    && g.width > 0 && d.size > 0 && |ss| == |acts| + 1 && ss[0] == New(g, d)
    && (forall i :: 0 <= i < |acts| ==> StepOk(ss[i], ss[i + 1], acts[i]))
  }

  lemma NewKeeps(g: Grid, d: DoorGrid)
    requires g.width > 0 && d.size > 0
    ensures Inv(New(g, d))
  {
    forall fp
      ensures Good(New(g, d).sks[0], fp) && Known(New(g, d).sks[0], New(g, d).dks, fp)
    {
      FreshGood(g, fp);
    }
  }

  lemma {:induction false} RunKeeps(ss: seq<State>, acts: seq<Action>, g: Grid, d: DoorGrid, n: nat)
    requires IsRun(ss, acts, g, d) && n < |ss|
    ensures Inv(ss[n])
  {
    if n == 0 {
      NewKeeps(g, d);
    } else {
      RunKeeps(ss, acts, g, d, n - 1);
      assert StepOk(ss[n - 1], ss[n], acts[n - 1]);
      hide Inv;
      hide Do;
      if acts[n - 1].FoldIn? {
        FoldKeeps(ss[n - 1], acts[n - 1].fp);
      } else {
        StoreKeeps(ss[n - 1], acts[n - 1]);
      }
    }
  }

  /** The current sketch. */
  function Current(s: State): Sk
    requires |s.sks| > 0
  {
    s.sks[|s.sks| - 1]
  }

  /** In every interleaving of any number of resizes with the drainer, a fingerprint folded into the
      current sketch `k` times since it was made or halved, through `f` filters, has an estimate of at
      least min(15, k - f). */
  lemma RacingLowerBound(ss: seq<State>, acts: seq<Action>, g: Grid, d: DoorGrid, n: nat, fp: Fp)
    requires IsRun(ss, acts, g, d) && n < |ss|
    ensures Shapes(ss[n]) && Good(Current(ss[n]), fp)
  {
    RunKeeps(ss, acts, g, d, n);
  }

  /** With one resize at most two filters have ever been stored, so at most two sightings are lost. */
  lemma OneResizeBound(ss: seq<State>, acts: seq<Action>, g: Grid, d: DoorGrid, n: nat, fp: Fp)
    requires IsRun(ss, acts, g, d) && n < |ss| && |ss[n].dks| <= 2
    ensures Shapes(ss[n])
      && var k := Current(ss[n]); Estimate(k.rows, k.g, fp) + 2 >= Min(NIBBLE_MAX + 2, Times(k.log, fp))
  {
    RunKeeps(ss, acts, g, d, n);
    var s := ss[n];
    var fs := Filters(Current(s).log, fp);
    assert Good(Current(s), fp);
    if InUse(s) == |s.sks| - 1 {
      assert Known(s.sks[InUse(s)], s.dks, fp);
      assert fs <= {0, 1};
      SubsetSize(fs, {0, 1});
    } else {
      NothingLogged(fp);
    }
    hide Estimate;
    hide Times;
  }

  // ---- Every loss is real ----

  ghost predicate EndsAt(ss: seq<State>, acts: seq<Action>, g: Grid, d: DoorGrid, s: State)
  {
    IsRun(ss, acts, g, d) && ss[|acts|] == s
  }

  ghost predicate Reaches(g: Grid, d: DoorGrid, s: State)
  {
    exists ss, acts :: EndsAt(ss, acts, g, d, s)
  }

  lemma ReachesNext(g: Grid, d: DoorGrid, s: State, a: Action)
    requires Reaches(g, d, s) && Shapes(s) && Can(s, a)
    ensures Reaches(g, d, Do(s, a))
  {
    var ss, acts :| EndsAt(ss, acts, g, d, s);
    var ss', acts' := ss + [Do(s, a)], acts + [a];
    hide Do;
    hide Can;
    hide Shapes;
    forall i | 0 <= i < |acts'|
      ensures StepOk(ss'[i], ss'[i + 1], acts'[i])
    {
      if i < |acts| {
        assert StepOk(ss[i], ss[i + 1], acts[i]);
      }
    }
    assert EndsAt(ss', acts', g, d, Do(s, a));
  }

  /** The first sighting through an empty filter leaves the sketch as it was. */
  lemma FirstSeen(k: Sk, d: DoorGrid, via: nat, f: Fp)
    requires Shaped(k.rows, k.g) && d.size > 0
    ensures Folded(k, Dk(d, {}), 0, via, f) == (Sk(k.g, k.rows, k.log + [Sighting(f, via)]), Dk(d, Spots(d, f)), 0)
  {
    assert Spot(d, f, 0) in Spots(d, f);
    assert {} + Spots(d, f) == Spots(d, f);
  }

  /** A later one, before the sketch ages, is counted. */
  lemma SeenAgain(k: Sk, d: DoorGrid, incrs: nat, via: nat, f: Fp)
    requires Shaped(k.rows, k.g) && d.size > 0 && incrs + 1 < k.g.width
    ensures Folded(k, Dk(d, Spots(d, f)), incrs, via, f)
      == (Sk(k.g, Increment(k.rows, k.g, f), k.log + [Sighting(f, via)]), Dk(d, Spots(d, f)), incrs + 1)
  {
    hide Increment;
    hide Spots;
  }

  /** One drain that folds `f` once: the pair loaded is the newest sketch and the newest filter. */
  ghost function Drained(s: State, f: Fp): (s': State)
    requires Shapes(s) && s.pc.Resting?
    ensures Shapes(s') && s'.pc.Resting? && s'.half == s.half
  {
    var (k, d, n) := Folded(Current(s), s.dks[|s.dks| - 1], s.incrs, |s.dks| - 1, f);
    s.(sks := s.sks[|s.sks| - 1 := k], dks := s.dks[|s.dks| - 1 := d], incrs := n)
  }

  lemma ReachesDrained(g: Grid, d: DoorGrid, s: State, f: Fp)
    requires Reaches(g, d, s) && Shapes(s) && s.pc.Resting?
    ensures Reaches(g, d, Drained(s, f))
  {
    hide Reaches;
    hide Folded;
    ReachesNext(g, d, s, LoadSketch);
    var a := Do(s, LoadSketch);
    ReachesNext(g, d, a, LoadFilter);
    var b := Do(a, LoadFilter);
    ReachesNext(g, d, b, FoldIn(f));
    var c := Do(b, FoldIn(f));
    ReachesNext(g, d, c, Finish);
  }

  /** The current sketch has been fed `f` through the filters below `j`, `j + n` times in all, and
      shows `n` of them. */
  ghost predicate Fed(s: State, g: Grid, f: Fp, j: nat, n: nat)
  {
    && Shapes(s) && s.pc.Resting? && s.incrs == n && Current(s).g == g
    && Estimate(Current(s).rows, g, f) == Min(NIBBLE_MAX, n)
    && Times(Current(s).log, f) == j + n && |Filters(Current(s).log, f)| == j
    && (forall v :: v in Filters(Current(s).log, f) ==> v < j)
  }

  /** All stored filters have seen `f`, and `half` resizes are still to store theirs. */
  ghost predicate Spent(s: State, g: Grid, d: DoorGrid, f: Fp, j: nat, n: nat, half: nat)
  {
    && Fed(s, g, f, j, n) && s.half == half && j - 1 in Filters(Current(s).log, f)
    && |s.dks| == j && d.size > 0 && s.dks[j - 1] == Dk(d, Spots(d, f))
  }

  /** The newest filter is still empty. */
  ghost predicate Ready(s: State, g: Grid, d: DoorGrid, f: Fp, j: nat, half: nat)
  {
    && Fed(s, g, f, j, 0) && s.half == half
    && |s.dks| == j + 1 && d.size > 0 && s.dks[j] == Dk(d, {})
  }

  /** Drained through an empty filter, `f` is lost. */
  lemma Loses(s: State, g: Grid, d: DoorGrid, f: Fp, j: nat, half: nat)
    requires Ready(s, g, d, f, j, half)
    ensures Spent(Drained(s, f), g, d, f, j + 1, 0, half)
  {
    var k := Current(s);
    FirstSeen(k, d, j, f);
    Logged(k.log, f, j, f);
    MoreFilters(Filters(k.log, f), j);
    hide Folded;
    hide Estimate;
    hide Shaped;
    hide Times;
    hide Filters;
    hide Spots;
  }

  /** Drained through a filter that knows it, it is counted. */
  lemma Counts(s: State, g: Grid, d: DoorGrid, f: Fp, j: nat, n: nat, half: nat)
    requires Spent(s, g, d, f, j, n, half) && n + 1 < g.width
    ensures Spent(Drained(s, f), g, d, f, j, n + 1, half)
  {
    var k := Current(s);
    SeenAgain(k, d, n, j - 1, f);
    IncrementShaped(k.rows, g, f);
    IncrementOwn(k.rows, g, f);
    Logged(k.log, f, j - 1, f);
    assert Filters(k.log, f) + {j - 1} == Filters(k.log, f);
    hide Folded;
    hide Estimate;
    hide Shaped;
    hide Increment;
    hide Times;
    hide Filters;
    hide Spots;
  }

  /** Resizes that have all stored their sketch and none its filter. */
  lemma {:induction false} Opens(g: Grid, d: DoorGrid, f: Fp, half: nat) returns (s: State)
    requires g.width > 0 && d.size > 0
    ensures Reaches(g, d, s) && Ready(s, g, d, f, 0, half)
  {
    NothingLogged(f);
    BlankEstimate(g, f);
    if half == 0 {
      s := New(g, d);
      assert EndsAt([s], [], g, d, s);
    } else {
      var t := Opens(g, d, f, half - 1);
      ReachesNext(g, d, t, StoreSketch(g));
      hide Reaches;
      hide Estimate;
      hide Blank;
      hide Times;
      hide Filters;
      s := Do(t, StoreSketch(g));
    }
  }

  /** One sighting lost through each of `j` filters. */
  lemma {:induction false} LosesAll(g: Grid, d: DoorGrid, f: Fp, j: nat, half: nat) returns (s: State)
    requires g.width > 0 && d.size > 0 && j > 0
    ensures Reaches(g, d, s) && Spent(s, g, d, f, j, 0, half)
    decreases j
  {
    hide Reaches;
    hide Drained;
    var t: State;
    if j == 1 {
      t := Opens(g, d, f, half);
    } else {
      var u := LosesAll(g, d, f, j - 1, half + 1);
      t := Stores(g, d, f, j - 1, half, u);
    }
    hide Fed;
    ReadyIs(t, g, d, f, j - 1, half);
    ReachesDrained(g, d, t, f);
    Loses(t, g, d, f, j - 1, half);
    s := Drained(t, f);
  }

  lemma Stores(g: Grid, d: DoorGrid, f: Fp, j: nat, half: nat, u: State) returns (s: State)
    requires Reaches(g, d, u) && Spent(u, g, d, f, j, 0, half + 1)
    ensures Reaches(g, d, s) && Ready(s, g, d, f, j, half)
  {
    ReachesNext(g, d, u, StoreFilter(d));
    hide Reaches;
    hide Estimate;
    hide Times;
    hide Filters;
    s := Do(u, StoreFilter(d));
  }

  lemma ReadyIs(s: State, g: Grid, d: DoorGrid, f: Fp, j: nat, half: nat)
    requires Ready(s, g, d, f, j, half)
    ensures Shapes(s) && s.pc.Resting?
  {
  }

  lemma SpentIs(s: State, g: Grid, d: DoorGrid, f: Fp, j: nat, n: nat, half: nat)
    requires Spent(s, g, d, f, j, n, half)
    ensures Shapes(s) && s.pc.Resting? && |s.dks| == j && Fed(s, g, f, j, n)
  {
  }

  /** And `n` more through the last of them. */
  lemma {:induction false} CountsAll(g: Grid, d: DoorGrid, f: Fp, j: nat, n: nat) returns (s: State)
    requires 0 < g.width && n < g.width && d.size > 0 && j > 0
    ensures Reaches(g, d, s) && Spent(s, g, d, f, j, n, 0)
    decreases n
  {
    hide *;
    if n == 0 {
      s := LosesAll(g, d, f, j, 0);
    } else {
      var t := CountsAll(g, d, f, j, n - 1);
      SpentIs(t, g, d, f, j, n - 1, 0);
      ReachesDrained(g, d, t, f);
      Counts(t, g, d, f, j, n - 1, 0);
      s := Drained(t, f);
    }
  }

  /** After `j - 1` resizes, `k` sightings through all `j` filters, and an estimate that shows just min(15, k - j) of
      them. */
  ghost predicate Shows(s: State, f: Fp, j: nat, k: nat)
  {
    && Shapes(s) && |s.dks| == j && Times(Current(s).log, f) == k && |Filters(Current(s).log, f)| == j
    && Estimate(Current(s).rows, Current(s).g, f) + j == Min(NIBBLE_MAX + j, k)
  }

  /** The bound is met.  For every number `j` of filters and every number `k` of sightings that an
      unaged sketch can hold, resizes that race the drains lose one sighting for each of the filters:
      `j - 1` of them store their sketches, and a drain comes before each filter that they store. */
  lemma BoundReached(g: Grid, d: DoorGrid, f: Fp, j: nat, k: nat)
    requires g.width > 0 && d.size > 0 && 0 < j <= k < j + g.width
    ensures exists s :: Reaches(g, d, s) && Shows(s, f, j, k)
  {
    var s := CountsAll(g, d, f, j, k - j);
    SpentIs(s, g, d, f, j, k - j, 0);
    assert Shows(s, f, j, k);
  }

  lemma BlankEstimate(g: Grid, f: Fp)
    requires g.width > 0
    ensures Estimate(Blank(g), g, f) == 0
  {
  }
}
