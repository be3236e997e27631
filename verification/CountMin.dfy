/** The frequency sketch on plain counters: four rows, conservative update, halving.  What it
    promises about every stream, against an ideal counter and a plain Count-Min sketch. */
module CountMin {
  import opened PackedWords

  /** A 64-bit fingerprint. */
  type Fp = f: nat | f < 0x1_0000_0000_0000_0000

  const DEPTH: nat := 4

  /** Row width and the mixing that spreads fingerprints over a row; any mixing at all. */
  datatype Grid = Grid(width: nat, mix: (Fp, nat) -> nat)

  type Rows = seq<seq<nat>>

  /** The counter of `fp` in row `r`: the mixed fingerprint masked to the width. */
  function Col(g: Grid, fp: Fp, r: nat): (i: nat)
    requires g.width > 0
    ensures i < g.width
  {
    g.mix(fp, r) % g.width
  }

  predicate Shaped(c: Rows, g: Grid)
  {
    && g.width > 0 && |c| == DEPTH
    && (forall r :: 0 <= r < DEPTH ==> |c[r]| == g.width)
    && (forall r, i :: 0 <= r < DEPTH && 0 <= i < g.width ==> c[r][i] <= NIBBLE_MAX)
  }

  function Val(c: Rows, g: Grid, fp: Fp, r: nat): (v: nat)
    requires Shaped(c, g) && r < DEPTH
    ensures v <= NIBBLE_MAX
  {
    c[r][Col(g, fp, r)]
  }

  function Min(a: nat, b: nat): nat
  {
    if a < b then a else b
  }

  /** The least of the four counters. */
  function Estimate(c: Rows, g: Grid, fp: Fp): (e: nat)
    requires Shaped(c, g)
    ensures e <= NIBBLE_MAX
  {
    Min(Min(Val(c, g, fp, 0), Val(c, g, fp, 1)), Min(Val(c, g, fp, 2), Val(c, g, fp, 3)))
  }

  // ---- Updates ----

  /** Row `r` after `fp`'s counter there becomes `v`. */
  function WithVal(c: Rows, g: Grid, fp: Fp, r: nat, v: nat): seq<nat>
    requires Shaped(c, g) && r < DEPTH
  {
    c[r][Col(g, fp, r) := v]
  }

  /** Conservative update: only the counters at the minimum rise, and none once all are full. */
  function Increment(c: Rows, g: Grid, fp: Fp): Rows
    requires Shaped(c, g)
  {
    if Estimate(c, g, fp) >= NIBBLE_MAX then c
    else [RaiseRow(c, g, fp, 0), RaiseRow(c, g, fp, 1), RaiseRow(c, g, fp, 2), RaiseRow(c, g, fp, 3)]
  }

  function RaiseRow(c: Rows, g: Grid, fp: Fp, r: nat): seq<nat>
    requires Shaped(c, g) && r < DEPTH
  {
    var lo := Estimate(c, g, fp);
    if Val(c, g, fp, r) == lo then WithVal(c, g, fp, r, lo + 1) else c[r]
  }

  function HalveRow(row: seq<nat>): (h: seq<nat>)
    ensures |h| == |row| && forall i :: 0 <= i < |row| ==> h[i] == row[i] / 2
  {
    if row == [] then [] else [row[0] / 2] + HalveRow(row[1..])
  }

  function Halve(c: Rows): Rows
    requires |c| == DEPTH
  {
    [HalveRow(c[0]), HalveRow(c[1]), HalveRow(c[2]), HalveRow(c[3])]
  }

  /** The textbook sketch: every counter of `fp` rises, each saturating on its own. */
  function PlainIncrement(c: Rows, g: Grid, fp: Fp): Rows
    requires Shaped(c, g)
  {
    [PlainRow(c, g, fp, 0), PlainRow(c, g, fp, 1), PlainRow(c, g, fp, 2), PlainRow(c, g, fp, 3)]
  }

  function PlainRow(c: Rows, g: Grid, fp: Fp, r: nat): seq<nat>
    requires Shaped(c, g) && r < DEPTH
  {
    WithVal(c, g, fp, r, Min(NIBBLE_MAX, Val(c, g, fp, r) + 1))
  }

  lemma IncrementShaped(c: Rows, g: Grid, fp: Fp)
    requires Shaped(c, g)
    ensures Shaped(Increment(c, g, fp), g) && Shaped(PlainIncrement(c, g, fp), g)
  {
    hide Col;
  }

  lemma HalveShaped(c: Rows, g: Grid)
    requires Shaped(c, g)
    ensures Shaped(Halve(c), g)
  {
    hide Col;
    hide HalveRow;
  }

  /** An increment never lowers a counter. */
  lemma IncrementGrows(c: Rows, g: Grid, fp: Fp, r: nat, i: nat)
    requires Shaped(c, g) && r < DEPTH && i < g.width
    ensures |Increment(c, g, fp)| == DEPTH && i < |Increment(c, g, fp)[r]|
    ensures c[r][i] <= Increment(c, g, fp)[r][i] <= c[r][i] + 1
    ensures Increment(c, g, fp)[r][i] != c[r][i] ==> i == Col(g, fp, r)
  {
    hide Col;
  }

  /** An increment raises its own estimate by exactly one, unless it is saturated. */
  lemma IncrementOwn(c: Rows, g: Grid, fp: Fp)
    requires Shaped(c, g) && Shaped(Increment(c, g, fp), g)
    ensures Estimate(Increment(c, g, fp), g, fp) == Min(NIBBLE_MAX, Estimate(c, g, fp) + 1)
  {
    hide Col;
  }

  /** Nobody's estimate falls when another is counted. */
  lemma IncrementOthers(c: Rows, g: Grid, fp: Fp, other: Fp)
    requires Shaped(c, g) && Shaped(Increment(c, g, fp), g)
    ensures Estimate(Increment(c, g, fp), g, other) >= Estimate(c, g, other)
  {
    hide Increment;
    forall r | 0 <= r < DEPTH ensures Val(Increment(c, g, fp), g, other, r) >= Val(c, g, other, r) {
      IncrementGrows(c, g, fp, r, Col(g, other, r));
    }
  }

  lemma HalveEstimate(c: Rows, g: Grid, fp: Fp)
    requires Shaped(c, g) && Shaped(Halve(c), g)
    ensures Estimate(Halve(c), g, fp) == Estimate(c, g, fp) / 2
  {
    hide Col;
    hide HalveRow;
  }

  // ---- Streams ----

  datatype Event = Seen(fp: Fp) | Aged

  function Zeros(n: nat): (z: seq<nat>)
    ensures |z| == n && forall i :: 0 <= i < n ==> z[i] == 0
  {
    if n == 0 then [] else [0] + Zeros(n - 1)
  }

  function Blank(g: Grid): (c: Rows)
    requires g.width > 0
    ensures Shaped(c, g)
    ensures forall r, i :: 0 <= r < DEPTH && 0 <= i < g.width ==> c[r][i] == 0
  {
    [Zeros(g.width), Zeros(g.width), Zeros(g.width), Zeros(g.width)]
  }

  function Apply(c: Rows, g: Grid, e: Event): (d: Rows)
    requires Shaped(c, g)
    ensures Shaped(d, g)
  {
    match e
    case Seen(fp) => IncrementShaped(c, g, fp); Increment(c, g, fp)
    case Aged => HalveShaped(c, g); Halve(c)
  }

  function PlainApply(c: Rows, g: Grid, e: Event): (d: Rows)
    requires Shaped(c, g)
    ensures Shaped(d, g)
  {
    match e
    case Seen(fp) => IncrementShaped(c, g, fp); PlainIncrement(c, g, fp)
    case Aged => HalveShaped(c, g); Halve(c)
  }

  /** The sketch after a stream. */
  function After(g: Grid, es: seq<Event>): (c: Rows)
    requires g.width > 0
    ensures Shaped(c, g)
  {
    if es == [] then Blank(g) else Apply(After(g, es[..|es| - 1]), g, es[|es| - 1])
  }

  function PlainAfter(g: Grid, es: seq<Event>): (c: Rows)
    requires g.width > 0
    ensures Shaped(c, g)
  {
    if es == [] then Blank(g) else PlainApply(PlainAfter(g, es[..|es| - 1]), g, es[|es| - 1])
  }

  /** A private counter for `fp` alone: up by one to at most 15, halved at every aging. */
  function IdealNext(n: nat, e: Event, fp: Fp): nat
  {
    match e
    case Seen(f) => if f == fp then Min(NIBBLE_MAX, n + 1) else n
    case Aged => n / 2
  }

  function Ideal(es: seq<Event>, fp: Fp): nat
  {
    if es == [] then 0 else IdealNext(Ideal(es[..|es| - 1], fp), es[|es| - 1], fp)
  }

  lemma ApplyAtLeast(c: Rows, g: Grid, e: Event, fp: Fp, n: nat)
    requires Shaped(c, g) && Estimate(c, g, fp) >= n
    ensures Estimate(Apply(c, g, e), g, fp) >= IdealNext(n, e, fp)
  {
    match e
    case Seen(f) =>
      IncrementShaped(c, g, f);
      if f == fp {
        IncrementOwn(c, g, fp);
      } else {
        IncrementOthers(c, g, f, fp);
      }
    case Aged =>
      HalveShaped(c, g);
      HalveEstimate(c, g, fp);
  }

  /** Over every stream, the sketch never underestimates. */
  lemma {:induction false} NeverUnder(g: Grid, es: seq<Event>, fp: Fp)
    requires g.width > 0
    ensures Estimate(After(g, es), g, fp) >= Ideal(es, fp)
  {
    if es != [] {
      var n := |es| - 1;
      NeverUnder(g, es[..n], fp);
      hide Apply;
      hide Estimate;
      ApplyAtLeast(After(g, es[..n]), g, es[n], fp, Ideal(es[..n], fp));
    }
  }

  /** Counter by counter, `c` is no larger than `d`. */
  ghost predicate Below(c: Rows, d: Rows, g: Grid)
    requires Shaped(c, g) && Shaped(d, g)
  {
    forall r, i :: 0 <= r < DEPTH && 0 <= i < g.width ==> c[r][i] <= d[r][i]
  }

  lemma PlainGrows(d: Rows, g: Grid, fp: Fp, r: nat, i: nat)
    requires Shaped(d, g) && r < DEPTH && i < g.width
    ensures |PlainIncrement(d, g, fp)| == DEPTH && i < |PlainIncrement(d, g, fp)[r]|
    ensures PlainIncrement(d, g, fp)[r][i] == if i == Col(g, fp, r) then Min(NIBBLE_MAX, d[r][i] + 1) else d[r][i]
  {
    hide Col;
  }

  lemma ApplyBelow(c: Rows, d: Rows, g: Grid, e: Event)
    requires Shaped(c, g) && Shaped(d, g) && Below(c, d, g)
    ensures Below(Apply(c, g, e), PlainApply(d, g, e), g)
  {
    var c', d' := Apply(c, g, e), PlainApply(d, g, e);
    forall r, i | 0 <= r < DEPTH && 0 <= i < g.width ensures c'[r][i] <= d'[r][i] {
      match e
      case Seen(fp) =>
        hide Increment;
        hide PlainIncrement;
        IncrementGrows(c, g, fp, r, i);
        PlainGrows(d, g, fp, r, i);
      case Aged =>
        hide HalveRow;
    }
  }

  lemma {:induction false} BelowPlain(g: Grid, es: seq<Event>)
    requires g.width > 0
    ensures Below(After(g, es), PlainAfter(g, es), g)
  {
    if es != [] {
      var n := |es| - 1;
      BelowPlain(g, es[..n]);
      ApplyBelow(After(g, es[..n]), PlainAfter(g, es[..n]), g, es[n]);
    }
  }

  /** Over every stream, conservative update is never worse than the plain sketch. */
  lemma NeverAbovePlain(g: Grid, es: seq<Event>, fp: Fp)
    requires g.width > 0
    ensures Estimate(After(g, es), g, fp) <= Estimate(PlainAfter(g, es), g, fp)
  {
    BelowPlain(g, es);
    hide After;
    hide PlainAfter;
    hide Col;
  }

  /** Conservative update is the least there is: any counters that have not fallen and show the sighting
      are nowhere below the updated ones. */
  lemma IncrementIsLeast(c: Rows, d: Rows, g: Grid, fp: Fp)
    requires Shaped(c, g) && Shaped(d, g) && Below(c, d, g) && Shaped(Increment(c, g, fp), g)
    requires Estimate(d, g, fp) >= Min(NIBBLE_MAX, Estimate(c, g, fp) + 1)
    ensures Below(Increment(c, g, fp), d, g)
  {
    hide Col;
  }

  /** Row `r` gives `fp` a counter that no other fingerprint of the stream shares. */
  ghost predicate Alone(g: Grid, es: seq<Event>, fp: Fp, r: nat)
    requires g.width > 0
  {
    forall i :: 0 <= i < |es| && es[i].Seen? && g.mix(es[i].fp, r) % g.width == g.mix(fp, r) % g.width ==>
      es[i].fp == fp
  }

  lemma ApplyAlone(c: Rows, g: Grid, e: Event, fp: Fp, r: nat, n: nat)
    requires Shaped(c, g) && r < DEPTH && Val(c, g, fp, r) <= n
    requires e.Seen? && Col(g, e.fp, r) == Col(g, fp, r) ==> e.fp == fp
    ensures Val(Apply(c, g, e), g, fp, r) <= IdealNext(n, e, fp)
  {
    match e
    case Seen(f) =>
      IncrementGrows(c, g, f, r, Col(g, fp, r));
      IncrementShaped(c, g, f);
      hide Increment;
    case Aged =>
      HalveShaped(c, g);
      hide HalveRow;
  }

  lemma {:induction false} AloneIsExact(g: Grid, es: seq<Event>, fp: Fp, r: nat)
    requires g.width > 0 && r < DEPTH && Alone(g, es, fp, r)
    ensures Val(After(g, es), g, fp, r) <= Ideal(es, fp)
  {
    if es != [] {
      var n := |es| - 1;
      forall i | 0 <= i < n && es[..n][i].Seen? && Col(g, es[..n][i].fp, r) == Col(g, fp, r)
        ensures es[..n][i].fp == fp
      {
        assert es[i] == es[..n][i];
      }
      AloneIsExact(g, es[..n], fp, r);
      hide Apply;
      hide Col;
      ApplyAlone(After(g, es[..n]), g, es[n], fp, r, Ideal(es[..n], fp));
    }
  }

  /** One collision-free row out of four is enough for an exact answer. */
  lemma ExactWhenAlone(g: Grid, es: seq<Event>, fp: Fp, r: nat)
    requires g.width > 0 && r < DEPTH && Alone(g, es, fp, r)
    ensures Estimate(After(g, es), g, fp) == Ideal(es, fp)
  {
    hide Alone;
    hide After;
    hide Ideal;
    AloneIsExact(g, es, fp, r);
    NeverUnder(g, es, fp);
  }
}
