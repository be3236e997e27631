/** Estimates that race the drainer.  The drainer stores one word at a time; an estimate loads one
    counter of each row, in row order, with any number of stores in between. */
module RacingEstimate {
  import opened PackedWords
  import opened CountMin

  /** One store of the drainer: a counter goes up by one. */
  ghost predicate Raises(c: Rows, c': Rows, g: Grid, r: nat, i: nat)
  {
    && Shaped(c, g) && r < DEPTH && i < g.width && c[r][i] < NIBBLE_MAX
    && c' == c[r := c[r][i := c[r][i] + 1]]
  }

  /** Or the sixteen counters of one word are halved. */
  ghost predicate Halves(c: Rows, c': Rows, g: Grid, r: nat, w: nat)
  {
    && Shaped(c, g) && Shaped(c', g) && r < DEPTH
    && (forall q :: 0 <= q < DEPTH && q != r ==> c'[q] == c[q])
    && (forall i :: 0 <= i < g.width ==> c'[r][i] == if i / 16 == w then c[r][i] / 2 else c[r][i])
  }

  ghost predicate Step(c: Rows, c': Rows, g: Grid)
  {
    RaisesOne(c, c', g) || (exists r, w :: Halves(c, c', g, r, w))
  }

  ghost predicate RaisesOne(c: Rows, c': Rows, g: Grid)
  {
    exists r, i :: Raises(c, c', g, r, i)
  }

  /** The counters over time. */
  ghost predicate IsRun(run: seq<Rows>, g: Grid)
  {
    && (forall t :: 0 <= t < |run| ==> Shaped(run[t], g))
    && (forall t :: 0 < t < |run| ==> Step(run[t - 1], run[t], g))
  }

  /** When each row is read: in order, within the run. */
  predicate Reads(ts: seq<nat>, n: nat)
  {
    |ts| == DEPTH && ts[0] <= ts[1] <= ts[2] <= ts[3] < n
  }

  /** What the racing estimate returns. */
  function Racing(run: seq<Rows>, g: Grid, fp: Fp, ts: seq<nat>): nat
    requires Reads(ts, |run|) && forall t :: 0 <= t < |run| ==> Shaped(run[t], g)
  {
    Min(Min(Val(run[ts[0]], g, fp, 0), Val(run[ts[1]], g, fp, 1)),
        Min(Val(run[ts[2]], g, fp, 2), Val(run[ts[3]], g, fp, 3)))
  }

  // ---- One counter ----

  /** The step halves the counter that row `r` keeps for `fp`. */
  ghost predicate HalvesOwn(c: Rows, c': Rows, g: Grid, fp: Fp, r: nat)
  {
    g.width > 0 && Halves(c, c', g, r, Col(g, fp, r) / 16)
  }

  /** The step raises it. */
  ghost predicate RaisesOwn(c: Rows, c': Rows, g: Grid, fp: Fp, r: nat)
  {
    g.width > 0 && Raises(c, c', g, r, Col(g, fp, r))
  }

  /** How often it is halved from `a` to `b`. */
  ghost function Halvings(run: seq<Rows>, g: Grid, fp: Fp, r: nat, a: nat, b: nat): nat
    requires a <= b < |run|
  {
    if a == b then 0
    else Halvings(run, g, fp, r, a, b - 1) + if HalvesOwn(run[b - 1], run[b], g, fp, r) then 1 else 0
  }

  /** How often it is raised. */
  ghost function Raisings(run: seq<Rows>, g: Grid, fp: Fp, r: nat, a: nat, b: nat): nat
    requires a <= b < |run|
  {
    if a == b then 0
    else Raisings(run, g, fp, r, a, b - 1) + if RaisesOwn(run[b - 1], run[b], g, fp, r) then 1 else 0
  }

  /** `x` halved `h` times. */
  function Halved(x: nat, h: nat): nat
  {
    if h == 0 then x else Halved(x, h - 1) / 2
  }

  /** Any other store leaves the counter alone or raises it. */
  lemma StepBounds(c: Rows, c': Rows, g: Grid, fp: Fp, r: nat)
    requires Shaped(c, g) && Shaped(c', g) && Step(c, c', g) && r < DEPTH
    ensures Val(c', g, fp, r) >= if HalvesOwn(c, c', g, fp, r) then Val(c, g, fp, r) / 2 else Val(c, g, fp, r)
    ensures Val(c', g, fp, r) <= Val(c, g, fp, r) + if RaisesOwn(c, c', g, fp, r) then 1 else 0
  {
    hide Col;
    if RaisesOne(c, c', g) {
      var q, i :| Raises(c, c', g, q, i);
    } else {
      var q, w :| Halves(c, c', g, q, w);
    }
  }

  lemma {:induction false} Weaker(x: nat, h: nat, k: nat)
    requires h <= k
    ensures Halved(x, k) <= Halved(x, h)
  {
    if h < k {
      Weaker(x, h, k - 1);
    }
  }

  /** Over any part of a run the counter loses at most a half per halving and gains at most one per raise. */
  lemma {:induction false} RowBounds(run: seq<Rows>, g: Grid, fp: Fp, r: nat, a: nat, b: nat)
    requires IsRun(run, g) && a <= b < |run| && r < DEPTH
    ensures Val(run[b], g, fp, r) >= Halved(Val(run[a], g, fp, r), Halvings(run, g, fp, r, a, b))
    ensures Val(run[b], g, fp, r) <= Val(run[a], g, fp, r) + Raisings(run, g, fp, r, a, b)
    decreases b
  {
    hide Val;
    hide Shaped;
    hide Step;
    hide HalvesOwn;
    hide RaisesOwn;
    if a < b {
      RowBounds(run, g, fp, r, a, b - 1);
      StepBounds(run[b - 1], run[b], g, fp, r);
    }
  }

  lemma {:induction false} HalvingsSplit(run: seq<Rows>, g: Grid, fp: Fp, r: nat, a: nat, b: nat, c: nat)
    requires a <= b <= c < |run|
    ensures Halvings(run, g, fp, r, a, c) == Halvings(run, g, fp, r, a, b) + Halvings(run, g, fp, r, b, c)
    decreases c
  {
    if b < c {
      HalvingsSplit(run, g, fp, r, a, b, c - 1);
    }
  }

  // ---- The estimate ----

  /** Up to the moment row `r` is read, its counter is halved at most `h` times and raised at most `n` times. */
  ghost predicate AtMost(run: seq<Rows>, g: Grid, fp: Fp, r: nat, a: nat, b: nat, h: nat, n: nat)
    requires a <= b < |run|
  {
    Halvings(run, g, fp, r, a, b) <= h && Raisings(run, g, fp, r, a, b) <= n
  }

  lemma ReadBounds(run: seq<Rows>, g: Grid, fp: Fp, r: nat, a: nat, b: nat, h: nat, n: nat)
    requires IsRun(run, g) && a <= b < |run| && r < DEPTH && AtMost(run, g, fp, r, a, b, h, n)
    ensures Halved(Val(run[a], g, fp, r), h) <= Val(run[b], g, fp, r) <= Val(run[a], g, fp, r) + n
  {
    hide *;
    RowBounds(run, g, fp, r, a, b);
    AtMostIs(run, g, fp, r, a, b, h, n);
    IsRunShaped(run, g, a);
    IsRunShaped(run, g, b);
    Weaker(Val(run[a], g, fp, r), Halvings(run, g, fp, r, a, b), h);
  }

  lemma AtMostIs(run: seq<Rows>, g: Grid, fp: Fp, r: nat, a: nat, b: nat, h: nat, n: nat)
    requires a <= b < |run| && AtMost(run, g, fp, r, a, b, h, n)
    ensures Halvings(run, g, fp, r, a, b) <= h && Raisings(run, g, fp, r, a, b) <= n
  {
  }

  lemma IsRunShaped(run: seq<Rows>, g: Grid, t: nat)
    requires IsRun(run, g) && t < |run|
    ensures Shaped(run[t], g)
  {
  }

  lemma Smallest(a: seq<nat>, b: seq<nat>, h: nat, n: nat)
    requires |a| == |b| == DEPTH && forall r :: 0 <= r < DEPTH ==> Halved(a[r], h) <= b[r] <= a[r] + n
    ensures var x, y := Min(Min(a[0], a[1]), Min(a[2], a[3])), Min(Min(b[0], b[1]), Min(b[2], b[3]));
      Halved(x, h) <= y <= x + n
  {
    var x := Min(Min(a[0], a[1]), Min(a[2], a[3]));
    forall r | 0 <= r < DEPTH
      ensures Halved(x, h) <= b[r]
    {
      Monotone(x, a[r], h);
    }
  }

  lemma {:induction false} Monotone(x: nat, y: nat, h: nat)
    requires x <= y
    ensures Halved(x, h) <= Halved(y, h)
  {
    if h > 0 {
      Monotone(x, y, h - 1);
    }
  }

  /** When no counter of `fp` is halved more than `h` times before its row is read, a racing estimate
      is at least the estimate at the first read halved that often; across one aging, half of it.
      And it exceeds that estimate by no more than any one counter has been raised meanwhile. */
  lemma RacingBounds(run: seq<Rows>, g: Grid, fp: Fp, ts: seq<nat>, h: nat, n: nat)
    requires IsRun(run, g) && Reads(ts, |run|)
    requires forall r :: 0 <= r < DEPTH ==> AtMost(run, g, fp, r, ts[0], ts[r], h, n)
    ensures Halved(Estimate(run[ts[0]], g, fp), h) <= Racing(run, g, fp, ts) <= Estimate(run[ts[0]], g, fp) + n
  {
    hide Val;
    hide Shaped;
    hide Step;
    hide Halved;
    hide AtMost;
    var a := seq(DEPTH, r requires 0 <= r < DEPTH => Val(run[ts[0]], g, fp, r));
    var b := seq(DEPTH, r requires 0 <= r < DEPTH => Val(run[ts[r]], g, fp, r));
    forall r | 0 <= r < DEPTH
      ensures Halved(a[r], h) <= b[r] <= a[r] + n
    {
      ReadBounds(run, g, fp, r, ts[0], ts[r], h, n);
    }
    Smallest(a, b, h, n);
  }

  lemma RowGrows(run: seq<Rows>, g: Grid, fp: Fp, r: nat, a: nat, b: nat, c: nat)
    requires IsRun(run, g) && a <= b <= c < |run| && r < DEPTH && Halvings(run, g, fp, r, a, c) == 0
    ensures Val(run[a], g, fp, r) <= Val(run[b], g, fp, r) <= Val(run[c], g, fp, r)
  {
    hide Val;
    hide Shaped;
    hide Step;
    HalvingsSplit(run, g, fp, r, a, b, c);
    hide Halvings;
    RowBounds(run, g, fp, r, a, b);
    RowBounds(run, g, fp, r, b, c);
  }

  lemma BetweenRows(run: seq<Rows>, g: Grid, fp: Fp, ts: seq<nat>)
    requires IsRun(run, g) && Reads(ts, |run|)
    requires forall r :: 0 <= r < DEPTH ==>
      Val(run[ts[0]], g, fp, r) <= Val(run[ts[r]], g, fp, r) <= Val(run[ts[3]], g, fp, r)
    ensures Estimate(run[ts[0]], g, fp) <= Racing(run, g, fp, ts) <= Estimate(run[ts[3]], g, fp)
  {
    hide Val;
    hide Shaped;
  }

  /** With none of its counters halved in between, it lies between the estimates at the first and the
      last read. */
  lemma BetweenEstimates(run: seq<Rows>, g: Grid, fp: Fp, ts: seq<nat>)
    requires IsRun(run, g) && Reads(ts, |run|)
    requires forall r :: 0 <= r < DEPTH ==> Halvings(run, g, fp, r, ts[0], ts[3]) == 0
    ensures Estimate(run[ts[0]], g, fp) <= Racing(run, g, fp, ts) <= Estimate(run[ts[3]], g, fp)
  {
    hide Val;
    hide Shaped;
    hide Step;
    hide Halvings;
    hide Racing;
    hide Estimate;
    forall r | 0 <= r < DEPTH
      ensures Val(run[ts[0]], g, fp, r) <= Val(run[ts[r]], g, fp, r) <= Val(run[ts[3]], g, fp, r)
    {
      RowGrows(run, g, fp, r, ts[0], ts[r], ts[3]);
    }
    BetweenRows(run, g, fp, ts);
  }

  // ---- The stores are the sketch's own ----

  /** Stores that each raise one counter. */
  ghost predicate IsRaising(run: seq<Rows>, g: Grid, c: Rows, d: Rows)
  {
    && |run| > 0 && run[0] == c && run[|run| - 1] == d
    && (forall t :: 0 < t < |run| ==> RaisesOne(run[t - 1], run[t], g))
  }

  ghost predicate LeadsByRaising(g: Grid, c: Rows, d: Rows)
  {
    exists run :: IsRaising(run, g, c, d)
  }

  lemma RaisingLeads(g: Grid, c: Rows, d: Rows, e: Rows)
    requires LeadsByRaising(g, c, d) && RaisesOne(d, e, g)
    ensures LeadsByRaising(g, c, e)
  {
    hide RaisesOne;
    var run :| IsRaising(run, g, c, d);
    var more := run + [e];
    forall t | 0 < t < |more|
      ensures RaisesOne(more[t - 1], more[t], g)
    {
      if t < |run| {
        assert RaisesOne(run[t - 1], run[t], g);
      }
    }
    assert IsRaising(more, g, c, e);
  }

  /** The rows below `r` updated. */
  function UpTo(c: Rows, d: Rows, r: nat): Rows
    requires |c| == |d| == DEPTH && r <= DEPTH
  {
    d[..r] + c[r..]
  }

  lemma UpToShaped(c: Rows, d: Rows, g: Grid, r: nat)
    requires Shaped(c, g) && Shaped(d, g) && r <= DEPTH
    ensures Shaped(UpTo(c, d, r), g)
  {
    var a := UpTo(c, d, r);
    assert forall q :: 0 <= q < DEPTH ==> a[q] == if q < r then d[q] else c[q];
  }

  lemma UpToNext(c: Rows, d: Rows, r: nat)
    requires |c| == |d| == DEPTH && r < DEPTH
    ensures UpTo(c, d, r + 1) == UpTo(c, d, r)[r := d[r]] && UpTo(c, d, r)[r] == c[r]
  {
  }

  lemma RowOfIncrement(c: Rows, g: Grid, fp: Fp, r: nat)
    requires Shaped(c, g) && r < DEPTH
    ensures var d, i := Increment(c, g, fp), Col(g, fp, r);
      |d| == DEPTH && (d[r] == c[r] || (c[r][i] < NIBBLE_MAX && d[r] == c[r][i := c[r][i] + 1]))
  {
    hide Col;
  }

  lemma RowRaised(c: Rows, g: Grid, fp: Fp, r: nat)
    requires Shaped(c, g) && r < DEPTH && Shaped(Increment(c, g, fp), g)
    ensures var d := Increment(c, g, fp);
      UpTo(c, d, r + 1) == UpTo(c, d, r) || RaisesOne(UpTo(c, d, r), UpTo(c, d, r + 1), g)
  {
    var d, i := Increment(c, g, fp), Col(g, fp, r);
    RowOfIncrement(c, g, fp, r);
    hide Col;
    hide Increment;
    UpToShaped(c, d, g, r);
    UpToNext(c, d, r);
    hide UpTo;
    hide Shaped;
    if d[r] != c[r] {
      assert Raises(UpTo(c, d, r), UpTo(c, d, r + 1), g, r, i);
    }
  }

  /** An increment is a run of raises, one row after another. */
  lemma IncrementIsRaises(c: Rows, g: Grid, fp: Fp)
    requires Shaped(c, g)
    ensures LeadsByRaising(g, c, Increment(c, g, fp))
  {
    var d := Increment(c, g, fp);
    IncrementShaped(c, g, fp);
    assert IsRaising([c], g, c, c);
    assert UpTo(c, d, 0) == c && UpTo(c, d, DEPTH) == d;
    hide Increment;
    hide LeadsByRaising;
    hide UpTo;
    for r := 0 to DEPTH
      invariant LeadsByRaising(g, c, UpTo(c, d, r))
    {
      RowRaised(c, g, fp, r);
      if UpTo(c, d, r + 1) != UpTo(c, d, r) {
        RaisingLeads(g, c, UpTo(c, d, r), UpTo(c, d, r + 1));
      }
    }
  }

  /** `d` is `c` with the words below `w` of row `r`, and all of the rows above it, halved. */
  ghost predicate HalvedSoFar(c: Rows, d: Rows, g: Grid, r: nat, w: nat)
  {
    && Shaped(c, g) && Shaped(d, g)
    && (forall q, i :: 0 <= q < DEPTH && 0 <= i < g.width ==>
          d[q][i] == if q < r || (q == r && i / 16 < w) then c[q][i] / 2 else c[q][i])
  }

  lemma WordHalves(c: Rows, d: Rows, g: Grid, r: nat, w: nat) returns (e: Rows)
    requires HalvedSoFar(c, d, g, r, w) && r < DEPTH
    ensures HalvedSoFar(c, e, g, r, w + 1) && Halves(d, e, g, r, w)
  {
    var row := seq(g.width, i requires 0 <= i < g.width => if i / 16 == w then d[r][i] / 2 else d[r][i]);
    e := d[r := row];
  }

  lemma {:induction false} WordsHalve(c: Rows, g: Grid, r: nat, w: nat) returns (d: Rows)
    requires Shaped(c, g) && r < DEPTH
    ensures HalvedSoFar(c, d, g, r, w) && LeadsByHalving(g, c, d)
    decreases r, w
  {
    if w > 0 {
      var b := WordsHalve(c, g, r, w - 1);
      d := WordHalves(c, b, g, r, w - 1);
      HalvingLeads(g, c, b, d, r, w - 1);
    } else if r == 0 {
      d := c;
      assert IsHalving([c], g, c, c);
    } else {
      d := WordsHalve(c, g, r - 1, g.width);
      RowDone(c, d, g, r - 1);
    }
  }

  lemma RowDone(c: Rows, d: Rows, g: Grid, r: nat)
    requires HalvedSoFar(c, d, g, r, g.width) && r < DEPTH
    ensures HalvedSoFar(c, d, g, r + 1, 0)
  {
    forall q, i | 0 <= q < DEPTH && 0 <= i < g.width
      ensures d[q][i] == if q < r + 1 then c[q][i] / 2 else c[q][i]
    {
      assert i / 16 < g.width;
    }
  }

  /** Stores that each halve one word. */
  ghost predicate IsHalving(run: seq<Rows>, g: Grid, c: Rows, d: Rows)
  {
    && |run| > 0 && run[0] == c && run[|run| - 1] == d
    && (forall t :: 0 < t < |run| ==> HalvesOne(run[t - 1], run[t], g))
  }

  ghost predicate HalvesOne(c: Rows, d: Rows, g: Grid)
  {
    exists r, w :: Halves(c, d, g, r, w)
  }

  ghost predicate LeadsByHalving(g: Grid, c: Rows, d: Rows)
  {
    exists run :: IsHalving(run, g, c, d)
  }

  lemma HalvingLeads(g: Grid, c: Rows, d: Rows, e: Rows, r: nat, w: nat)
    requires LeadsByHalving(g, c, d) && Halves(d, e, g, r, w)
    ensures LeadsByHalving(g, c, e)
  {
    var run :| IsHalving(run, g, c, d);
    var more := run + [e];
    assert HalvesOne(d, e, g);
    hide HalvesOne;
    forall t | 0 < t < |more|
      ensures HalvesOne(more[t - 1], more[t], g)
    {
      if t < |run| {
        assert HalvesOne(run[t - 1], run[t], g);
      }
    }
    assert IsHalving(more, g, c, e);
  }

  /** An aging is a run of halvings, word after word. */
  lemma HalveIsHalvings(c: Rows, g: Grid)
    requires Shaped(c, g)
    ensures LeadsByHalving(g, c, Halve(c))
  {
    var d := WordsHalve(c, g, DEPTH - 1, g.width);
    RowDone(c, d, g, DEPTH - 1);
    HalveShaped(c, g);
    var h := Halve(c);
    hide HalveRow;
    forall q | 0 <= q < DEPTH
      ensures d[q] == h[q]
    {
    }
    assert d == h;
    hide LeadsByHalving;
  }
}
