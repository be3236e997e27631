/** The drainer: fingerprints pass a first-sight filter into the sketch, which ages by halving
    every `width` increments. */
module FrequencyPolicy {
  import opened Ring
  import opened PackedBits
  import opened PackedWords
  import opened CountMin
  import opened Sketch

  const DOOR_K: nat := 4

  /** The filter's size and where it looks for a fingerprint; any hashing at all. */
  datatype DoorGrid = DoorGrid(size: nat, spot: (Fp, nat) -> nat)

  function Spot(d: DoorGrid, fp: Fp, i: nat): (b: nat)
    requires d.size > 0
    ensures b < d.size
  {
    d.spot(fp, i) % d.size
  }

  /** The bits of `fp`. */
  ghost function Spots(d: DoorGrid, fp: Fp): set<nat>
    requires d.size > 0
  {
    {Spot(d, fp, 0), Spot(d, fp, 1), Spot(d, fp, 2), Spot(d, fp, 3)}
  }

  const BITS_PER_ENTRY: nat := 6

  /** Six bits an entry, rounded up to a power of two and to at least one word. */
  method BitsFor(entries: int) returns (n: nat)
    ensures IsPow2(n) && n % 64 == 0 && n >= 64 && n >= BITS_PER_ENTRY * entries
      && (n == 64 || n / 2 < BITS_PER_ENTRY * entries)
  {
    n := 64;
    while n < BITS_PER_ENTRY * entries
      invariant IsPow2(n) && n % 64 == 0 && n >= 64 && (n == 64 || n / 2 < BITS_PER_ENTRY * entries)
      decreases BITS_PER_ENTRY * entries - n
    {
      n := 2 * n;
    }
  }

  /** The first-seen Bloom filter, its bits packed into 64-bit words. */
  class Doorkeeper {
    const d: DoorGrid
    const words: array<bv64>
    ghost var bits: set<nat>

    ghost predicate Packs(i: nat)
      requires words.Length * 64 == d.size && i < d.size
      reads this, words
    {
      i in bits <==> Has(words[i / 64], Bit(i % 64))
    }

    ghost predicate Valid()
      reads this, words
    {
      && d.size > 0 && words.Length * 64 == d.size && (forall i :: i in bits ==> i < d.size)
      && (forall i :: 0 <= i < d.size ==> Packs(i))
    }

    /** All bits clear. */
    constructor (entries: int, spot: (Fp, nat) -> nat)
      ensures Valid() && fresh(words) && d.spot == spot && bits == {}
      ensures IsPow2(d.size) && d.size >= 64 && d.size >= BITS_PER_ENTRY * entries
        && (d.size == 64 || d.size / 2 < BITS_PER_ENTRY * entries)
    {
      var n := BitsFor(entries);
      d := DoorGrid(n, spot);
      words := new bv64[n / 64](_ => 0);
      bits := {};
      new;
      hide *;
      ClearPacks();
    }

    lemma ClearPacks()
      requires d.size > 0 && words.Length * 64 == d.size && bits == {} && forall j :: 0 <= j < words.Length ==>
        words[j] == 0
      ensures Valid()
    {
      hide Has;
      forall i | 0 <= i < d.size
        ensures Packs(i)
      {
        ZeroHas(Bit(i % 64));
      }
    }

    /** Set one bit; say whether it was set before. */
    method Mark(b: nat) returns (was: bool)
      requires Valid() && b < d.size
      modifies this`bits, words
      ensures Valid() && was == (b in old(bits)) && bits == old(bits) + {b}
    {
      hide Has;
      hide Masked;
      hide With;
      hide Bit;
      assert Packs(b);
      was := Masked(words[b / 64], Bit(b % 64));
      HasMasked(words[b / 64], Bit(b % 64));
      if !was {
        ghost var w := words[b / 64];
        words[b / 64] := With(words[b / 64], Bit(b % 64));
        bits := bits + {b};
        forall i | 0 <= i < d.size
          ensures Packs(i)
        {
          assert old(Packs(i));
          if i / 64 == b / 64 {
            WithHas(w, Bit(b % 64), Bit(i % 64));
            BitInjective(b % 64, i % 64);
          }
        }
      } else {
        assert bits + {b} == bits;
      }
    }

    /** Record `fp` and say whether all its bits were set before. */
    method PutOrHas(fp: Fp) returns (seen: bool)
      requires Valid()
      modifies this`bits, words
      ensures Valid() && seen == (Spots(d, fp) <= old(bits)) && bits == old(bits) + Spots(d, fp)
    {
      hide Spot;
      hide Packs;
      seen := true;
      var i := 0;
      ghost var done: set<nat> := {};
      while i < DOOR_K
        invariant 0 <= i <= DOOR_K && Valid() && bits == old(bits) + done
        invariant done == SpotsBelow(d, fp, i) && seen == (done <= old(bits))
      {
        hide Valid;
        ghost var now := bits;
        var was := Mark(Spot(d, fp, i));
        MarkedSo(old(bits), done, Spot(d, fp, i));
        seen := seen && was;
        done := done + {Spot(d, fp, i)};
        i := i + 1;
      }
      AllSpots(d, fp);
    }

    method Reset()
      requires Valid()
      modifies this`bits, words
      ensures Valid() && bits == {}
    {
      var i := 0;
      while i < words.Length
        invariant 0 <= i <= words.Length && forall j :: 0 <= j < i ==> words[j] == 0
      {
        words[i] := 0;
        i := i + 1;
      }
      bits := {};
      ClearPacks();
    }
  }

  ghost function SpotsBelow(d: DoorGrid, fp: Fp, n: nat): set<nat>
    requires d.size > 0 && n <= DOOR_K
  {
    if n == 0 then {} else SpotsBelow(d, fp, n - 1) + {Spot(d, fp, n - 1)}
  }

  lemma MarkedSo(was: set<nat>, done: set<nat>, b: nat)
    ensures (done <= was && b in was + done) <==> done + {b} <= was || (done <= was && b in done)
    ensures done <= was ==> (b in was + done <==> b in was)
  {
  }

  lemma AllSpots(d: DoorGrid, fp: Fp)
    requires d.size > 0
    ensures SpotsBelow(d, fp, DOOR_K) == Spots(d, fp)
  {
    hide Spot;
    assert SpotsBelow(d, fp, 1) == {Spot(d, fp, 0)};
    assert SpotsBelow(d, fp, 2) == {Spot(d, fp, 0), Spot(d, fp, 1)};
    assert SpotsBelow(d, fp, 3) == {Spot(d, fp, 0), Spot(d, fp, 1), Spot(d, fp, 2)};
  }

  // ---- The fold over drained fingerprints ----

  /** Sketch rows, filter bits, and increments since the last aging. */
  datatype Drain = Drain(rows: Rows, door: set<nat>, incrs: nat)

  ghost predicate Ok(s: Drain, g: Grid, d: DoorGrid)
  {
    Shaped(s.rows, g) && d.size > 0
  }

  ghost predicate Passes(s: Drain, d: DoorGrid, fp: Fp)
    requires d.size > 0
  {
    Spots(d, fp) <= s.door
  }

  ghost predicate Ages(s: Drain, g: Grid, d: DoorGrid, fp: Fp)
    requires d.size > 0
  {
    Passes(s, d, fp) && s.incrs + 1 >= g.width
  }

  /** One drained fingerprint. */
  ghost function Fold(s: Drain, g: Grid, d: DoorGrid, fp: Fp): (s': Drain)
    requires Ok(s, g, d)
    ensures Ok(s', g, d)
  {
    IncrementShaped(s.rows, g, fp);
    if !Passes(s, d, fp) then s.(door := s.door + Spots(d, fp))
    else
      var rows := Increment(s.rows, g, fp);
      HalveShaped(rows, g);
      if s.incrs + 1 >= g.width then Drain(Halve(rows), {}, 0)
      else Drain(rows, s.door, s.incrs + 1)
  }

  ghost function FoldAll(s: Drain, g: Grid, d: DoorGrid, fps: seq<Fp>): (s': Drain)
    requires Ok(s, g, d)
    ensures Ok(s', g, d)
  {
    if fps == [] then s else Fold(FoldAll(s, g, d, fps[..|fps| - 1]), g, d, fps[|fps| - 1])
  }

  /** The policy's sketch, filter and aging counter. */
  class Policy {
    var sk: PackedSketch
    var dk: Doorkeeper
    var incrs: nat

    ghost predicate Valid()
      reads this, sk, sk.words, dk, dk.words
    {
      sk.Valid() && dk.Valid() && sk as object != dk
    }

    ghost function State(): Drain
      requires Valid()
      reads this, sk, sk.words, dk, dk.words
    {
      Drain(sk.rows, dk.bits, incrs)
    }

    constructor (counters: int, mix: (Fp, nat) -> nat, spot: (Fp, nat) -> nat)
      ensures Valid() && fresh(sk) && fresh(sk.words) && fresh(dk) && fresh(dk.words)
      ensures State() == Drain(Blank(sk.g), {}, 0) && sk.g.mix == mix && dk.d.spot == spot
    {
      sk := new PackedSketch(counters, mix);
      dk := new Doorkeeper(counters, spot);
      incrs := 0;
    }

    /** A new sketch and filter; the aging counter is left as it is. */
    method Resize(counters: int, mix: (Fp, nat) -> nat, spot: (Fp, nat) -> nat)
      requires Valid()
      modifies this`sk, this`dk
      ensures Valid() && fresh(sk) && fresh(sk.words) && fresh(dk) && fresh(dk.words)
      ensures State() == Drain(Blank(sk.g), {}, old(incrs)) && sk.g.mix == mix && dk.d.spot == spot
    {
      sk := new PackedSketch(counters, mix);
      dk := new Doorkeeper(counters, spot);
    }

    method Admit(fp: Fp)
      requires Valid()
      modifies this`incrs, sk`rows, sk.words, dk`bits, dk.words
      ensures Valid() && State() == Fold(old(State()), sk.g, dk.d, fp)
    {
      var seen := dk.PutOrHas(fp);
      if !seen {
        return;
      }
      assert dk.bits == old(dk.bits);
      sk.Increment(fp);
      incrs := incrs + 1;
      if incrs >= sk.g.width {
        sk.Halve();
        dk.Reset();
        incrs := 0;
      }
    }

    /** Fold a batch of drained fingerprints, in order. */
    method DrainOnce(fps: seq<Fp>)
      requires Valid()
      modifies this`incrs, sk`rows, sk.words, dk`bits, dk.words
      ensures Valid() && State() == FoldAll(old(State()), sk.g, dk.d, fps)
    {
      var i := 0;
      while i < |fps|
        invariant 0 <= i <= |fps| && Valid() && sk == old(sk) && dk == old(dk)
        invariant State() == FoldAll(old(State()), sk.g, dk.d, fps[..i])
      {
        assert fps[..i + 1][..i] == fps[..i];
        Admit(fps[i]);
        i := i + 1;
      }
      assert fps[..i] == fps;
    }

    method Query(fp: Fp) returns (e: nat)
      requires Valid()
      ensures e == Estimate(sk.rows, sk.g, fp)
    {
      e := sk.Query(fp);
    }
  }

  // ---- Whole runs ----

  datatype Setup = Setup(g: Grid, d: DoorGrid)

  /** One thing that happens to the policy. */
  datatype Work = Drained(fp: Fp) | Resized(to: Setup)

  ghost predicate Sized(su: Setup)
  {
    su.g.width > 0 && su.d.size > 0
  }

  ghost predicate AllSized(start: Setup, ws: seq<Work>)
  {
    Sized(start) && forall i :: 0 <= i < |ws| && ws[i].Resized? ==> Sized(ws[i].to)
  }

  ghost function SetupAfter(start: Setup, ws: seq<Work>): Setup
  {
    if ws == [] then start
    else if ws[|ws| - 1].Resized? then ws[|ws| - 1].to
    else SetupAfter(start, ws[..|ws| - 1])
  }

  lemma {:induction false} SetupSized(start: Setup, ws: seq<Work>)
    requires AllSized(start, ws)
    ensures Sized(SetupAfter(start, ws))
  {
    if ws != [] && ws[|ws| - 1].Drained? {
      SetupSized(start, ws[..|ws| - 1]);
    }
  }

  /** The drainer's state after a run from a new policy. */
  ghost function StateAfter(start: Setup, ws: seq<Work>): (s: Drain)
    requires AllSized(start, ws)
    ensures Sized(SetupAfter(start, ws)) && Ok(s, SetupAfter(start, ws).g, SetupAfter(start, ws).d)
  {
    SetupSized(start, ws);
    if ws == [] then Drain(Blank(start.g), {}, 0)
    else
      var n := |ws| - 1;
      var s := StateAfter(start, ws[..n]);
      var su := SetupAfter(start, ws[..n]);
      match ws[n]
      case Drained(fp) => Fold(s, su.g, su.d, fp)
      case Resized(to) => Drain(Blank(to.g), {}, s.incrs)
  }

  /** How often `fp` has been drained since the last aging or resize. */
  ghost function Since(start: Setup, ws: seq<Work>, fp: Fp): nat
    requires AllSized(start, ws)
  {
    if ws == [] then 0
    else
      var n := |ws| - 1;
      var s, su := StateAfter(start, ws[..n]), SetupAfter(start, ws[..n]);
      match ws[n]
      case Resized(_) => 0
      case Drained(f) =>
        if Ages(s, su.g, su.d, f) then 0 else Since(start, ws[..n], fp) + if f == fp then 1 else 0
  }

  /** What `k` sightings guarantee: the filter knows the fingerprint, and all but the first count. */
  ghost predicate Counted(s: Drain, g: Grid, d: DoorGrid, fp: Fp, k: nat)
    requires Ok(s, g, d)
  {
    (k > 0 ==> Passes(s, d, fp)) && Estimate(s.rows, g, fp) + 1 >= Min(NIBBLE_MAX + 1, k)
  }

  lemma FoldCounts(s: Drain, g: Grid, d: DoorGrid, f: Fp, fp: Fp, k: nat)
    requires Ok(s, g, d) && Counted(s, g, d, fp, k)
    ensures Counted(Fold(s, g, d, f), g, d, fp, if Ages(s, g, d, f) then 0 else k + if f == fp then 1 else 0)
  {
    IncrementShaped(s.rows, g, f);
    if f == fp {
      IncrementOwn(s.rows, g, fp);
    } else {
      IncrementOthers(s.rows, g, f, fp);
    }
    hide Increment;
    hide Estimate;
    hide Spots;
  }

  /** Through the whole pipeline, whatever else is drained and however often the policy ages or
      is resized: a fingerprint drained `k` times since has an estimate of at least
      min(15, k - 1). */
  lemma {:induction false} FrequencyLowerBound(start: Setup, ws: seq<Work>, fp: Fp)
    requires AllSized(start, ws)
    ensures Counted(StateAfter(start, ws), SetupAfter(start, ws).g, SetupAfter(start, ws).d, fp, Since(start, ws, fp))
  {
    if ws != [] {
      var n := |ws| - 1;
      FrequencyLowerBound(start, ws[..n], fp);
      if ws[n].Drained? {
        hide Counted;
        hide Fold;
        var su := SetupAfter(start, ws[..n]);
        FoldCounts(StateAfter(start, ws[..n]), su.g, su.d, ws[n].fp, fp, Since(start, ws[..n], fp));
      }
    }
  }

  // ---- The aging period ----

  /** How many of the drained fingerprints reached the sketch, and how many of those aged it. */
  ghost function Increments(s: Drain, g: Grid, d: DoorGrid, fps: seq<Fp>): nat
    requires Ok(s, g, d)
  {
    if fps == [] then 0
    else
      var n := |fps| - 1;
      Increments(s, g, d, fps[..n]) + if Passes(FoldAll(s, g, d, fps[..n]), d, fps[n]) then 1 else 0
  }

  ghost function Agings(s: Drain, g: Grid, d: DoorGrid, fps: seq<Fp>): nat
    requires Ok(s, g, d)
  {
    if fps == [] then 0
    else
      var n := |fps| - 1;
      Agings(s, g, d, fps[..n]) + if Ages(FoldAll(s, g, d, fps[..n]), g, d, fps[n]) then 1 else 0
  }

  /** Increments until the first aging of a run that starts at `c`; a full width from zero. */
  function FirstWindow(c: nat, width: nat): nat
  {
    if c + 1 >= width then 1 else width - c
  }

  /** After `i` increments and `a` agings from a counter of `c`, the counter is `t`. */
  ghost predicate Period(c: nat, width: nat, i: nat, a: nat, t: nat)
  {
    if a == 0 then t == c + i && i < FirstWindow(c, width)
    else t < width && i == FirstWindow(c, width) + (a - 1) * width + t
  }

  lemma PeriodStep(c: nat, width: nat, i: nat, a: nat, t: nat)
    requires width > 0 && Period(c, width, i, a, t)
    ensures if t + 1 >= width then Period(c, width, i + 1, a + 1, 0) else Period(c, width, i + 1, a, t + 1)
  {
    if t + 1 >= width && a > 0 {
      assert a * width == (a - 1) * width + width;
    }
  }

  /** Agings are exactly `width` increments apart.  Only the first window of a run can differ, by
      what the counter already held; a resize does not reset it. */
  lemma {:induction false} AgingPeriod(s: Drain, g: Grid, d: DoorGrid, fps: seq<Fp>)
    requires Ok(s, g, d)
    ensures Period(s.incrs, g.width, Increments(s, g, d, fps), Agings(s, g, d, fps), FoldAll(s, g, d, fps).incrs)
  {
    if fps != [] {
      var n := |fps| - 1;
      AgingPeriod(s, g, d, fps[..n]);
      PeriodStep(s.incrs, g.width, Increments(s, g, d, fps[..n]), Agings(s, g, d, fps[..n]),
                 FoldAll(s, g, d, fps[..n]).incrs);
      FoldIncrs(FoldAll(s, g, d, fps[..n]), g, d, fps[n]);
      hide Fold;
      hide Period;
      hide Spots;
      hide Shaped;
    }
  }

  /** From a new policy: at every aging, exactly `width` increments per aging have been made. */
  lemma AgesEveryWidth(g: Grid, d: DoorGrid, fps: seq<Fp>)
    requires g.width > 0 && d.size > 0
    ensures var s := Drain(Blank(g), {}, 0);
      Increments(s, g, d, fps) == Agings(s, g, d, fps) * g.width + FoldAll(s, g, d, fps).incrs
      && FoldAll(s, g, d, fps).incrs < g.width
  {
    var s := Drain(Blank(g), {}, 0);
    hide *;
    AgingPeriod(s, g, d, fps);
    PeriodFromZero(g.width, Increments(s, g, d, fps), Agings(s, g, d, fps), FoldAll(s, g, d, fps).incrs);
  }

  lemma PeriodFromZero(width: nat, i: nat, a: nat, t: nat)
    requires width > 0 && Period(0, width, i, a, t)
    ensures i == a * width + t && t < width
  {
    if a > 0 {
      assert a * width == (a - 1) * width + width;
    }
  }

  lemma FoldIncrs(s: Drain, g: Grid, d: DoorGrid, fp: Fp)
    requires Ok(s, g, d)
    ensures Fold(s, g, d, fp).incrs
         == if !Passes(s, d, fp) then s.incrs else if Ages(s, g, d, fp) then 0 else s.incrs + 1
  {
  }

  // ---- Resizing and the aging period ----

  /** The last of `fps` is the first of them that ages the sketch. */
  ghost predicate FirstAging(s: Drain, g: Grid, d: DoorGrid, fps: seq<Fp>)
    requires Ok(s, g, d)
  {
    fps != [] && Agings(s, g, d, fps) == 1 && Agings(s, g, d, fps[..|fps| - 1]) == 0
  }

  /** The first aging comes after exactly the first window of increments. */
  lemma FirstAgingAt(s: Drain, g: Grid, d: DoorGrid, fps: seq<Fp>)
    requires Ok(s, g, d) && FirstAging(s, g, d, fps)
    ensures Increments(s, g, d, fps) == FirstWindow(s.incrs, g.width)
  {
    var n := |fps| - 1;
    AgingPeriod(s, g, d, fps);
    AgingPeriod(s, g, d, fps[..n]);
    hide FoldAll;
    hide Spots;
  }

  function Again(f: Fp, n: nat): (fps: seq<Fp>)
    ensures |fps| == n
  {
    if n == 0 then [] else Again(f, n - 1) + [f]
  }

  /** From an empty filter, the first sighting only marks the filter; each one after it counts. */
  lemma {:induction false} AgainCounts(s: Drain, g: Grid, d: DoorGrid, f: Fp, n: nat)
    requires Ok(s, g, d) && s.door == {} && 1 <= n <= FirstWindow(s.incrs, g.width)
    ensures var fps := Again(f, n);
      && Agings(s, g, d, fps) == 0 && Increments(s, g, d, fps) == n - 1
      && FoldAll(s, g, d, fps).incrs == s.incrs + n - 1 && Passes(FoldAll(s, g, d, fps), d, f)
  {
    var fps := Again(f, n);
    assert fps[..n - 1] == Again(f, n - 1) && fps[n - 1] == f;
    if n == 1 {
      assert fps[..0] == [];
      assert Spot(d, f, 0) in Spots(d, f);
      FoldOnce(s, g, d, f);
    } else {
      AgainCounts(s, g, d, f, n - 1);
      FoldOnce(FoldAll(s, g, d, fps[..n - 1]), g, d, f);
    }
    hide Fold;
    hide Spots;
  }

  lemma FoldOnce(s: Drain, g: Grid, d: DoorGrid, f: Fp)
    requires Ok(s, g, d)
    ensures var t := Fold(s, g, d, f);
      && t.incrs == (if !Passes(s, d, f) then s.incrs else if Ages(s, g, d, f) then 0 else s.incrs + 1)
      && (!Ages(s, g, d, f) ==> Passes(t, d, f))
  {
    hide Spots;
  }

  lemma AgainAges(s: Drain, g: Grid, d: DoorGrid, f: Fp)
    requires Ok(s, g, d) && s.door == {}
    ensures FirstAging(s, g, d, Again(f, FirstWindow(s.incrs, g.width) + 1))
  {
    var n := FirstWindow(s.incrs, g.width);
    AgainCounts(s, g, d, f, n);
    var fps := Again(f, n + 1);
    assert fps[..n] == Again(f, n) && fps[n] == f;
    hide Spots;
    hide FoldAll;
  }

  /** Work `i` of a run reaches the sketch; it ages it. */
  ghost predicate PassesAt(start: Setup, ws: seq<Work>, i: nat)
    requires AllSized(start, ws) && i < |ws|
  {
    ws[i].Drained? && Passes(StateAfter(start, ws[..i]), SetupAfter(start, ws[..i]).d, ws[i].fp)
  }

  ghost predicate AgesAt(start: Setup, ws: seq<Work>, i: nat)
    requires AllSized(start, ws) && i < |ws|
  {
    var s, su := StateAfter(start, ws[..i]), SetupAfter(start, ws[..i]);
    ws[i].Drained? && Ages(s, su.g, su.d, ws[i].fp)
  }

  /** How many works from `j` up to `n` reach a sketch. */
  ghost function Hits(start: Setup, ws: seq<Work>, j: nat, n: nat): nat
    requires AllSized(start, ws) && j <= n <= |ws|
  {
    if j == n then 0 else Hits(start, ws, j, n - 1) + if PassesAt(start, ws, n - 1) then 1 else 0
  }

  /** No aging from `j` up to `n`, and `j` is the start or just after one. */
  ghost predicate SinceAging(start: Setup, ws: seq<Work>, j: nat, n: nat)
    requires AllSized(start, ws) && j <= n <= |ws|
  {
    (j == 0 || AgesAt(start, ws, j - 1)) && forall i :: j <= i < n ==> !AgesAt(start, ws, i)
  }

  /** The counter is the number of increments since the last aging, through any resizes between. */
  lemma {:induction false} CounterSinceAging(start: Setup, ws: seq<Work>, n: nat) returns (j: nat)
    requires AllSized(start, ws) && n <= |ws|
    ensures j <= n && SinceAging(start, ws, j, n) && StateAfter(start, ws[..n]).incrs == Hits(start, ws, j, n)
  {
    hide StateAfter;
    hide AgesAt;
    hide PassesAt;
    hide AllSized;
    if n == 0 {
      j := 0;
      StartsAtZero(start, ws);
    } else {
      j := CounterSinceAging(start, ws, n - 1);
      StateNext(start, ws, n - 1);
      if AgesAt(start, ws, n - 1) {
        j := n;
      }
    }
  }

  lemma StartsAtZero(start: Setup, ws: seq<Work>)
    requires AllSized(start, ws)
    ensures AllSized(start, ws[..0]) && StateAfter(start, ws[..0]).incrs == 0
  {
  }

  lemma StateNext(start: Setup, ws: seq<Work>, i: nat)
    requires AllSized(start, ws) && i < |ws|
    ensures AllSized(start, ws[..i]) && AllSized(start, ws[..i + 1])
    ensures var t := StateAfter(start, ws[..i + 1]);
      && t.incrs == (if AgesAt(start, ws, i) then 0
                     else StateAfter(start, ws[..i]).incrs + if PassesAt(start, ws, i) then 1 else 0)
      && (ws[i].Resized? ==> t.door == {} && SetupAfter(start, ws[..i + 1]) == ws[i].to)
  {
    var ws' := ws[..i + 1];
    assert ws'[..i] == ws[..i] && ws'[i] == ws[i];
    var s, su := StateAfter(start, ws[..i]), SetupAfter(start, ws[..i]);
    if ws[i].Drained? {
      FoldIncrs(s, su.g, su.d, ws[i].fp);
    }
    hide Fold;
    hide Spots;
  }

  /** The first window after a resize is a full width, whatever is drained, if and only if the
      counter stood at zero when the resize came. */
  lemma ResizeWindowIff(start: Setup, ws: seq<Work>, to: Setup)
    requires AllSized(start, ws + [Resized(to)])
    requires to.g.width >= MIN_WIDTH
    ensures var s := StateAfter(start, ws + [Resized(to)]);
      && Ok(s, to.g, to.d) && AllSized(start, ws)
      && ((forall fps :: FirstAging(s, to.g, to.d, fps) ==> Increments(s, to.g, to.d, fps) == to.g.width)
          <==> StateAfter(start, ws).incrs == 0)
  {
    var all := ws + [Resized(to)];
    assert all[..|ws|] == ws && all[..|ws| + 1] == all && all[|ws|] == Resized(to);
    assert AllSized(start, ws) by { assert forall i :: 0 <= i < |ws| ==> ws[i] == all[i]; }
    StateNext(start, all, |ws|);
    var s, c := StateAfter(start, all), StateAfter(start, ws).incrs;
    hide StateAfter;
    AgainAges(s, to.g, to.d, 0);
    hide FoldAll;
    hide Spots;
    hide FirstAging;
    hide Increments;
    forall fps | FirstAging(s, to.g, to.d, fps)
      ensures Increments(s, to.g, to.d, fps) == FirstWindow(c, to.g.width)
    {
      FirstAgingAt(s, to.g, to.d, fps);
    }
  }

  /** Two sightings and a resize: the next aging comes one increment early. */
  lemma ResizeShortensWindow(start: Setup, to: Setup, f: Fp)
    requires Sized(start) && Sized(to) && start.g.width >= MIN_WIDTH && to.g.width >= MIN_WIDTH
    ensures var ws := [Drained(f), Drained(f)];
      && AllSized(start, ws + [Resized(to)]) && StateAfter(start, ws + [Resized(to)]).incrs == 1
      && FirstWindow(1, to.g.width) == to.g.width - 1
  {
    var ws := [Drained(f), Drained(f)];
    var all := ws + [Resized(to)];
    assert all[..0] == [] && all[0] == all[1] == Drained(f) && all[2] == Resized(to);
    assert StateAfter(start, all[..0]) == Drain(Blank(start.g), {}, 0);
    FoldOnce(StateAfter(start, all[..0]), start.g, start.d, f);
    assert Spot(start.d, f, 0) in Spots(start.d, f);
    assert all[..1][..0] == all[..0];
    var s1 := StateAfter(start, all[..1]);
    assert s1 == Fold(StateAfter(start, all[..0]), start.g, start.d, f);
    FoldOnce(s1, start.g, start.d, f);
    assert all[..2][..1] == all[..1] && all[..3][..2] == all[..2] && all[..3] == all;
    hide Fold;
    hide Spots;
  }
}
