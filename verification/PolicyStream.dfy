/** The drainer's pipeline against its two ideals: the filter is the set of bits hashed since the last
    aging, and the sketch is the one fed just the fingerprints that pass, with an aging after every
    width of them. */
module PolicyStream {
  import opened PackedWords
  import opened CountMin
  import opened FrequencyPolicy

  // ---- The filter ----

  /** Just past the last of the drained fingerprints that aged the sketch; 0 if none did. */
  ghost function LastAging(s: Drain, g: Grid, d: DoorGrid, fps: seq<Fp>): (n: nat)
    requires Ok(s, g, d)
    ensures n <= |fps|
  {
    if fps == [] then 0
    else
      var n := |fps| - 1;
      if Ages(FoldAll(s, g, d, fps[..n]), g, d, fps[n]) then |fps| else LastAging(s, g, d, fps[..n])
  }

  /** `q` is one of the four bits that `fp` hashes to. */
  predicate HashesTo(d: DoorGrid, fp: Fp, q: nat)
    requires d.size > 0
  {
    exists i: nat :: i < 4 && q == d.spot(fp, i) % d.size
  }

  /** One of the fingerprints from `a` on hashes to `q`. */
  ghost predicate HashedSince(d: DoorGrid, fps: seq<Fp>, a: nat, q: nat)
    requires d.size > 0
  {
    exists j :: a <= j < |fps| && HashesTo(d, fps[j], q)
  }

  lemma SpotsAre(d: DoorGrid, fp: Fp, q: nat)
    requires d.size > 0
    ensures q in Spots(d, fp) <==> HashesTo(d, fp, q)
  {
    if q in Spots(d, fp) {
      var i: nat :| i < 4 && q == Spot(d, fp, i);
      assert q == d.spot(fp, i) % d.size;
    }
  }

  lemma HashedNext(d: DoorGrid, fps: seq<Fp>, a: nat, q: nat)
    requires d.size > 0 && a < |fps|
    ensures HashedSince(d, fps, a, q) <==>
      HashedSince(d, fps[..|fps| - 1], a, q) || HashesTo(d, fps[|fps| - 1], q)
  {
    var n := |fps| - 1;
    hide HashesTo;
    if j :| a <= j < |fps| && HashesTo(d, fps[j], q) {
      if j < n {
        assert fps[..n][j] == fps[j];
      }
    }
    if j :| a <= j < n && HashesTo(d, fps[..n][j], q) {
      assert fps[j] == fps[..n][j];
    }
  }

  lemma FoldDoor(s: Drain, g: Grid, d: DoorGrid, fp: Fp)
    requires Ok(s, g, d)
    ensures Fold(s, g, d, fp).door == if Ages(s, g, d, fp) then {} else s.door + Spots(d, fp)
  {
    hide Spots;
    if Passes(s, d, fp) {
      assert s.door + Spots(d, fp) == s.door;
    }
  }

  /** From an empty filter, a bit is set if and only if a fingerprint drained since the last aging hashes
      to it: those that pass included, those before it not. */
  lemma {:induction false} FilterIsHashedSince(s: Drain, g: Grid, d: DoorGrid, fps: seq<Fp>, q: nat)
    requires Ok(s, g, d) && s.door == {}
    ensures q in FoldAll(s, g, d, fps).door <==> HashedSince(d, fps, LastAging(s, g, d, fps), q)
  {
    if fps != [] {
      var n := |fps| - 1;
      var t := FoldAll(s, g, d, fps[..n]);
      FilterIsHashedSince(s, g, d, fps[..n], q);
      FoldDoor(t, g, d, fps[n]);
      SpotsAre(d, fps[n], q);
      if !Ages(t, g, d, fps[n]) {
        HashedNext(d, fps, LastAging(s, g, d, fps[..n]), q);
      }
      hide Fold;
      hide Spots;
      hide HashesTo;
      hide Ages;
    }
  }

  /** So a fingerprint is let through if and only if all its four bits have been hashed to since. */
  lemma PassesIff(s: Drain, g: Grid, d: DoorGrid, fps: seq<Fp>, fp: Fp)
    requires Ok(s, g, d) && s.door == {}
    ensures Passes(FoldAll(s, g, d, fps), d, fp) <==>
      forall i: nat :: i < 4 ==> HashedSince(d, fps, LastAging(s, g, d, fps), d.spot(fp, i) % d.size)
  {
    var door, a := FoldAll(s, g, d, fps).door, LastAging(s, g, d, fps);
    forall q
      ensures q in door <==> HashedSince(d, fps, a, q)
    {
      FilterIsHashedSince(s, g, d, fps, q);
    }
    forall i: nat | i < 4
      ensures d.spot(fp, i) % d.size in Spots(d, fp)
    {
      SpotsAre(d, fp, d.spot(fp, i) % d.size);
    }
    forall q | q in Spots(d, fp)
      ensures HashesTo(d, fp, q)
    {
      SpotsAre(d, fp, q);
    }
    hide FoldAll;
    hide LastAging;
    hide Spots;
    hide HashedSince;
  }

  // ---- The sketch ----

  /** The drained fingerprints that pass the filter, in order. */
  ghost function Passing(s: Drain, g: Grid, d: DoorGrid, fps: seq<Fp>): (incs: seq<Fp>)
    requires Ok(s, g, d)
    ensures |incs| == Increments(s, g, d, fps)
  {
    if fps == [] then []
    else
      var n := |fps| - 1;
      Passing(s, g, d, fps[..n]) + if Passes(FoldAll(s, g, d, fps[..n]), d, fps[n]) then [fps[n]] else []
  }

  /** The `i`th increment completes a window: the first one, or one of a whole width after it. */
  predicate Completes(i: int, first: nat, width: nat)
    requires width > 0
  {
    i == first || (i > first && Completes(i - width, first, width))
  }

  /** The increments, with an aging after each that completes a window. */
  function WithAgings(incs: seq<Fp>, first: nat, width: nat): seq<Event>
    requires width > 0
  {
    if incs == [] then []
    else
      var n := |incs| - 1;
      WithAgings(incs[..n], first, width) + [Seen(incs[n])] + if Completes(n + 1, first, width) then [Aged] else []
  }

  lemma {:induction false} CompletesAt(a: nat, t: nat, first: nat, width: nat)
    requires t < width
    ensures Completes(first + a * width + t + 1, first, width) <==> t + 1 == width
  {
    if a > 0 {
      CompletesAt(a - 1, t, first, width);
      assert first + a * width + t + 1 - width == first + (a - 1) * width + t + 1;
      assert a * width >= width;
    }
  }

  /** The counter is full at just those increments. */
  lemma FullAtWindows(c: nat, width: nat, i: nat, a: nat, t: nat)
    requires width > 0 && Period(c, width, i, a, t)
    ensures t + 1 >= width <==> Completes(i + 1, FirstWindow(c, width), width)
  {
    if a > 0 {
      CompletesAt(a - 1, t, FirstWindow(c, width), width);
    }
  }

  lemma FoldRows(s: Drain, g: Grid, d: DoorGrid, fp: Fp)
    requires Ok(s, g, d)
    ensures Fold(s, g, d, fp).rows
         == if !Passes(s, d, fp) then s.rows
            else if Ages(s, g, d, fp) then Apply(Apply(s.rows, g, Seen(fp)), g, Aged)
            else Apply(s.rows, g, Seen(fp))
  {
    hide Increment;
    hide Halve;
    hide Spots;
  }

  lemma AfterOne(g: Grid, es: seq<Event>, e: Event)
    requires g.width > 0
    ensures After(g, es + [e]) == Apply(After(g, es), g, e)
  {
    assert (es + [e])[..|es|] == es;
  }

  /** A sketch that starts blank, whatever is drained into it and whatever the counter held: its
      counters are those of the plain sketch fed the passing fingerprints, aged after the first
      window of them and after every width from there on. */
  lemma {:induction false} SketchOfIncrements(s: Drain, g: Grid, d: DoorGrid, fps: seq<Fp>)
    requires Ok(s, g, d) && s.rows == Blank(g)
    ensures FoldAll(s, g, d, fps).rows
         == After(g, WithAgings(Passing(s, g, d, fps), FirstWindow(s.incrs, g.width), g.width))
  {
    if fps != [] {
      var n, first, w := |fps| - 1, FirstWindow(s.incrs, g.width), g.width;
      var t, incs := FoldAll(s, g, d, fps[..n]), Passing(s, g, d, fps[..n]);
      SketchOfIncrements(s, g, d, fps[..n]);
      FoldRows(t, g, d, fps[n]);
      AgingPeriod(s, g, d, fps[..n]);
      FullAtWindows(s.incrs, w, |incs|, Agings(s, g, d, fps[..n]), t.incrs);
      if Passes(t, d, fps[n]) {
        assert Passing(s, g, d, fps) == incs + [fps[n]];
        StreamNext(g, incs, fps[n], first, w);
      } else {
        assert Passing(s, g, d, fps) == incs + [] == incs;
      }
      hide Fold;
      hide Apply;
      hide Period;
      hide Completes;
      hide Spots;
      hide WithAgings;
      hide After;
    }
  }

  lemma StreamNext(g: Grid, incs: seq<Fp>, fp: Fp, first: nat, w: nat)
    requires g.width > 0 && w > 0
    ensures var c := Apply(After(g, WithAgings(incs, first, w)), g, Seen(fp));
      After(g, WithAgings(incs + [fp], first, w)) == if Completes(|incs| + 1, first, w) then Apply(c, g, Aged) else c
  {
    var es := WithAgings(incs, first, w);
    assert (incs + [fp])[..|incs|] == incs;
    AfterOne(g, es, Seen(fp));
    AfterOne(g, es + [Seen(fp)], Aged);
    assert WithAgings(incs + [fp], first, w)
        == es + [Seen(fp)] + if Completes(|incs| + 1, first, w) then [Aged] else [];
    assert es + [Seen(fp)] + [] == es + [Seen(fp)];
    hide Apply;
    hide Completes;
  }

  // ---- Agings ----

  /** An aging halves every estimate, its own after it has counted, and empties the filter. */
  lemma AgingHalves(s: Drain, g: Grid, d: DoorGrid, fp: Fp, f: Fp)
    requires Ok(s, g, d) && Ages(s, g, d, fp)
    ensures var t, e := Fold(s, g, d, fp), Estimate(s.rows, g, f);
      && (f == fp ==> Estimate(t.rows, g, f) == Min(NIBBLE_MAX, e + 1) / 2)
      && e / 2 <= Estimate(t.rows, g, f) <= (e + 1) / 2
      && !Passes(t, d, f) && t.incrs == 0
  {
    var rows := Increment(s.rows, g, fp);
    IncrementShaped(s.rows, g, fp);
    HalveShaped(rows, g);
    HalveEstimate(rows, g, f);
    IncrementOwn(s.rows, g, fp);
    IncrementOthers(s.rows, g, fp, f);
    IncrementAtMost(s.rows, g, fp, f);
    assert Spot(d, f, 0) in Spots(d, f);
    hide Increment;
    hide Halve;
    hide Estimate;
    hide Spots;
  }

  lemma IncrementAtMost(c: Rows, g: Grid, fp: Fp, f: Fp)
    requires Shaped(c, g) && Shaped(Increment(c, g, fp), g)
    ensures Estimate(Increment(c, g, fp), g, f) <= Estimate(c, g, f) + 1
  {
    hide Increment;
    forall r | 0 <= r < DEPTH
      ensures Val(Increment(c, g, fp), g, f, r) <= Val(c, g, f, r) + 1
    {
      IncrementGrows(c, g, fp, r, Col(g, f, r));
    }
  }

  // ---- Whole runs ----

  /** The last works of a run are the draining of `fps`, after a resize or from the start. */
  ghost predicate Segment(start: Setup, ws: seq<Work>, fps: seq<Fp>, c: nat)
    requires AllSized(start, ws)
  {
    var n := |ws| - |fps|;
    && n >= 0 && (forall i :: 0 <= i < |fps| ==> ws[n + i] == Drained(fps[i]))
    && (if n == 0 then c == 0 else ws[n - 1].Resized? && c == StateAfter(start, ws[..n]).incrs)
  }

  /** The state of a run is that of its last segment, from a blank sketch and an empty filter; the
      aging counter alone is carried over a resize. */
  lemma {:induction false} LastSegment(start: Setup, ws: seq<Work>) returns (fps: seq<Fp>, c: nat)
    requires AllSized(start, ws)
    ensures Segment(start, ws, fps, c)
    ensures var su := SetupAfter(start, ws);
      Sized(su) && StateAfter(start, ws) == FoldAll(Drain(Blank(su.g), {}, c), su.g, su.d, fps)
  {
    SetupSized(start, ws);
    var n := |ws| - 1;
    if ws == [] {
      fps, c := [], 0;
    } else if ws[n].Resized? {
      fps, c := [], StateAfter(start, ws).incrs;
      assert ws[..|ws|] == ws;
    } else {
      var before;
      before, c := LastSegment(start, ws[..n]);
      fps := before + [ws[n].fp];
      assert fps[..|before|] == before;
      SegmentNext(start, ws, before, c);
      hide Fold;
    }
  }

  lemma SegmentNext(start: Setup, ws: seq<Work>, fps: seq<Fp>, c: nat)
    requires AllSized(start, ws) && ws != [] && ws[|ws| - 1].Drained?
    requires AllSized(start, ws[..|ws| - 1]) && Segment(start, ws[..|ws| - 1], fps, c)
    ensures Segment(start, ws, fps + [ws[|ws| - 1].fp], c)
  {
    hide StateAfter;
    var n, ws' := |ws| - 1 - |fps|, ws[..|ws| - 1];
    assert ws'[..n] == ws[..n];
    assert forall i :: 0 <= i < |ws'| ==> ws'[i] == ws[i];
  }

  /** Over every run of drains and resizes, the policy's sketch holds the counters of a plain sketch
      fed the passing fingerprints of the last segment, with an aging after every window; so every
      estimate lies between a private counter and a textbook sketch on that stream. */
  lemma PolicyIsSketch(start: Setup, ws: seq<Work>, fp: Fp) returns (es: seq<Event>, fps: seq<Fp>, c: nat)
    requires AllSized(start, ws)
    ensures Segment(start, ws, fps, c)
    ensures var su := SetupAfter(start, ws);
      && Sized(su)
      && es == WithAgings(Passing(Drain(Blank(su.g), {}, c), su.g, su.d, fps), FirstWindow(c, su.g.width), su.g.width)
      && StateAfter(start, ws).rows == After(su.g, es)
      && Ideal(es, fp) <= Estimate(StateAfter(start, ws).rows, su.g, fp) <= Estimate(PlainAfter(su.g, es), su.g, fp)
  {
    fps, c := LastSegment(start, ws);
    var su := SetupAfter(start, ws);
    var s := Drain(Blank(su.g), {}, c);
    es := WithAgings(Passing(s, su.g, su.d, fps), FirstWindow(c, su.g.width), su.g.width);
    SketchOfIncrements(s, su.g, su.d, fps);
    NeverUnder(su.g, es, fp);
    NeverAbovePlain(su.g, es, fp);
    hide StateAfter;
    hide FoldAll;
    hide WithAgings;
    hide After;
    hide Estimate;
    hide Segment;
  }
}
