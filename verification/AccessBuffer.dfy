/** The striped, bounded, lossy buffer between readers and the drainer: its operations on one
    caller, and every interleaving of any number of readers with the single drainer. */
module AccessBuffer {
  import Ring
  import Shards
  import opened CountMin

  /** `fp & (stripes - 1)`: the stripe of a fingerprint. */
  function StripeOf(fp: Fp, n: nat): (i: nat)
    requires n > 0
    ensures i < n
  {
    Ring.Home(fp, n)
  }

  /** Everything the stripes hold, stripe after stripe. */
  function Flat(stripes: seq<seq<Fp>>): seq<Fp>
  {
    if stripes == [] then [] else Flat(stripes[..|stripes| - 1]) + stripes[|stripes| - 1]
  }

  class Buffer {
    var stripes: seq<seq<Fp>>
    const depth: nat

    ghost predicate Valid()
      reads this
    {
      && |stripes| > 0 && depth > 0
      && (forall i :: 0 <= i < |stripes| ==> |stripes[i]| <= depth)
      && (forall i, j :: 0 <= i < |stripes| && 0 <= j < |stripes[i]| ==> StripeOf(stripes[i][j], |stripes|) == i)
    }

    /** Empty stripes, each at least one deep, their number rounded up to a power of two. */
    constructor (count: int, depth: int)
      ensures Valid() && (forall i :: 0 <= i < |stripes| ==> stripes[i] == [])
      ensures this.depth == if depth < 1 then 1 else depth
      ensures (exists bits :: |stripes| == Shards.Exp2(bits)) && |stripes| >= count
        && (|stripes| == 1 || |stripes| / 2 < count)
    {
      var n, bits := Shards.NextPow2(count);
      stripes := seq(n, _ => []);
      this.depth := if depth < 1 then 1 else depth;
    }

    /** Append to the stripe, or drop the sample when the stripe is contended or full; report
        whether this push filled it. */
    method Push(fp: Fp, contended: bool) returns (full: bool)
      requires Valid()
      modifies this`stripes
      ensures Valid() && |stripes| == old(|stripes|)
      ensures var i := fp % |stripes|;
        var taken := !contended && |old(stripes)[i]| < depth;
        && stripes == (if taken then old(stripes)[i := old(stripes)[i] + [fp]] else old(stripes))
        && full == (taken && |stripes[i]| == depth)
    {
      var i := StripeOf(fp, |stripes|);
      if contended || |stripes[i]| >= depth {
        return false;
      }
      stripes := stripes[i := stripes[i] + [fp]];
      full := |stripes[i]| >= depth;
    }

    /** Empty every stripe in turn; what comes out is everything that was held, in order. */
    method DrainAll() returns (out: seq<Fp>)
      requires Valid()
      modifies this`stripes
      ensures Valid() && |stripes| == old(|stripes|) && out == Flat(old(stripes))
      ensures forall i :: 0 <= i < |stripes| ==> stripes[i] == []
    {
      out := [];
      var i := 0;
      while i < |stripes|
        invariant 0 <= i <= |stripes| == old(|stripes|)
        invariant forall j :: 0 <= j < i ==> stripes[j] == []
        invariant forall j :: i <= j < |stripes| ==> stripes[j] == old(stripes)[j]
        invariant out == Flat(old(stripes)[..i])
      {
        assert old(stripes)[..i + 1][..i] == old(stripes)[..i];
        out := out + stripes[i];
        stripes := stripes[i := []];
        i := i + 1;
      }
      assert old(stripes)[..i] == old(stripes);
    }
  }

  // ---- Interleavings ----

  /** The stripes, what the drainer has taken out but not yet folded (and from which stripe),
      and, per stripe, everything ever accepted and everything ever folded. */
  datatype State = State(
    stripes: seq<seq<Fp>>, depth: nat,
    taken: nat, scratch: seq<Fp>,
    accepted: seq<seq<Fp>>, folded: seq<seq<Fp>>)

  datatype Act = PushTaken(fp: Fp) | PushDropped(fp: Fp, contended: bool) | Take(i: nat) | FoldOne

  /** One atomic step: a reader's push under its stripe's lock, the drainer emptying a stripe
      under that lock, or the drainer folding the next fingerprint outside any lock. */
  ghost predicate Step(s: State, s': State, a: Act)
  {
    var n := |s.stripes|;
    n > 0 &&
    match a
    case PushTaken(fp) =>
      var i := StripeOf(fp, n);
      && |s.stripes[i]| < s.depth && |s.accepted| == n
      && s' == s.(stripes := s.stripes[i := s.stripes[i] + [fp]], accepted := s.accepted[i := s.accepted[i] + [fp]])
    case PushDropped(fp, contended) => s' == s && (contended || |s.stripes[StripeOf(fp, n)]| >= s.depth)
    case Take(i) =>
      && s.scratch == [] && i < n
      && s' == s.(stripes := s.stripes[i := []], taken := i, scratch := s.stripes[i])
    case FoldOne =>
      && s.scratch != [] && s.taken < n && |s.folded| == n
      && s' == s.(scratch := s.scratch[1..], folded := s.folded[s.taken := s.folded[s.taken] + [s.scratch[0]]])
  }

  ghost predicate Init(s: State)
  {
    var n := |s.stripes|;
    && n > 0 && |s.accepted| == |s.folded| == n && s.scratch == []
    && (forall i :: 0 <= i < n ==> s.stripes[i] == [] && s.accepted[i] == [] && s.folded[i] == [])
  }

  /** What of stripe `i` is between the buffer and the sketch. */
  function InHand(s: State, i: nat): seq<Fp>
  {
    if i == s.taken then s.scratch else []
  }

  /** Stripe by stripe and in order: accepted is folded, then in hand, then still held; and no
      stripe is over its depth. */
  ghost predicate Kept(s: State)
  {
    var n := |s.stripes|;
    && n > 0 && |s.accepted| == |s.folded| == n && (s.scratch != [] ==> s.taken < n)
    && (forall i :: 0 <= i < n ==> KeptAt(s, i))
  }

  ghost predicate KeptAt(s: State, i: nat)
    requires i < |s.stripes| == |s.accepted| == |s.folded|
  {
    && |s.stripes[i]| <= s.depth
    && s.accepted[i] == s.folded[i] + InHand(s, i) + s.stripes[i]
    && (forall j :: 0 <= j < |s.accepted[i]| ==> StripeOf(s.accepted[i][j], |s.stripes|) == i)
  }

  lemma StepKeeps(s: State, s': State, a: Act)
    requires Kept(s) && Step(s, s', a)
    ensures Kept(s')
  {
    hide StripeOf;
    forall i | 0 <= i < |s'.stripes| ensures KeptAt(s', i) {
      assert KeptAt(s, i);
      match a
      case PushTaken(fp) =>
        assert s.folded[i] + InHand(s, i) + (s.stripes[i] + [fp]) == (s.folded[i] + InHand(s, i) + s.stripes[i]) + [fp];
      case PushDropped(_, _) =>
      case Take(j) =>
        assert s.folded[i] + s.stripes[i] + [] == s.folded[i] + [] + s.stripes[i];
      case FoldOne =>
        if i == s.taken {
          assert s.scratch == [s.scratch[0]] + s.scratch[1..];
        }
    }
  }

  ghost predicate Next(s: State, s': State)
  {
    exists a :: Step(s, s', a)
  }

  ghost predicate IsRun(run: seq<State>)
  {
    && |run| > 0 && Init(run[0])
    && (forall i :: 0 < i < |run| ==> Next(run[i - 1], run[i]))
  }

  /** In every interleaving, each accepted fingerprint has been folded exactly once or is still
      held, in the order its stripe accepted them, and no stripe is over its depth. */
  lemma {:induction false} EveryAcceptedKept(run: seq<State>, n: nat)
    requires IsRun(run) && n < |run|
    ensures Kept(run[n])
  {
    if n == 0 {
      assert forall i :: 0 <= i < |run[0].stripes| ==> KeptAt(run[0], i);
    } else {
      EveryAcceptedKept(run, n - 1);
      assert Next(run[n - 1], run[n]);
      var a :| Step(run[n - 1], run[n], a);
      StepKeeps(run[n - 1], run[n], a);
    }
  }

  // ---- Nothing accepted is stuck ----

  /** A path on which only the drainer moves. */
  ghost predicate IsDrain(path: seq<State>, s: State, s': State)
  {
    && |path| > 0 && path[0] == s && path[|path| - 1] == s'
    && (forall i :: 0 < i < |path| ==> DrainerMoves(path[i - 1], path[i]))
  }

  ghost predicate DrainerMoves(s: State, s': State)
  {
    Step(s, s', FoldOne) || exists i :: Step(s, s', Take(i))
  }

  ghost predicate DrainsTo(s: State, s': State)
  {
    exists path :: IsDrain(path, s, s')
  }

  lemma DrainsOneMore(s: State, t: State, u: State)
    requires DrainsTo(s, t) && DrainerMoves(t, u)
    ensures DrainsTo(s, u)
  {
    hide DrainerMoves;
    var path :| IsDrain(path, s, t);
    var more := path + [u];
    forall i | 0 < i < |more|
      ensures DrainerMoves(more[i - 1], more[i])
    {
      if i < |path| {
        assert DrainerMoves(path[i - 1], path[i]);
      }
    }
    assert IsDrain(more, s, u);
  }

  lemma DrainsNothing(s: State)
    ensures DrainsTo(s, s)
  {
    assert IsDrain([s], s, s);
  }

  /** All in hand is folded: the scratch is empty, and nothing else has changed. */
  lemma {:induction false} FoldsScratch(s0: State, s: State) returns (s': State)
    requires DrainsTo(s0, s) && Kept(s)
    ensures DrainsTo(s0, s') && Kept(s') && s'.scratch == [] && s'.stripes == s.stripes && s'.accepted == s.accepted
    decreases |s.scratch|
  {
    if s.scratch == [] {
      s' := s;
    } else {
      var t := s.(scratch := s.scratch[1..], folded := s.folded[s.taken := s.folded[s.taken] + [s.scratch[0]]]);
      assert Step(s, t, FoldOne);
      StepKeeps(s, t, FoldOne);
      DrainsOneMore(s0, s, t);
      hide DrainsTo;
      s' := FoldsScratch(s0, t);
    }
  }

  lemma {:induction false} DrainsBelow(s0: State, s: State, n: nat) returns (s': State)
    requires DrainsTo(s0, s) && Kept(s) && n <= |s.stripes|
    ensures DrainsTo(s0, s') && Kept(s') && s'.scratch == [] && s'.accepted == s.accepted
    ensures |s'.stripes| == |s.stripes| && forall i :: 0 <= i < n ==> s'.stripes[i] == []
  {
    hide DrainsTo;
    if n == 0 {
      s' := FoldsScratch(s0, s);
    } else {
      var t := DrainsBelow(s0, s, n - 1);
      var u := t.(stripes := t.stripes[n - 1 := []], taken := n - 1, scratch := t.stripes[n - 1]);
      assert Step(t, u, Take(n - 1));
      StepKeeps(t, u, Take(n - 1));
      DrainsOneMore(s0, t, u);
      s' := FoldsScratch(s0, u);
    }
  }

  /** From every reachable state the drainer by itself can fold all that has been accepted, and leave
      every stripe empty. */
  lemma DrainerCatchesUp(run: seq<State>, n: nat) returns (s': State)
    requires IsRun(run) && n < |run|
    ensures DrainsTo(run[n], s') && s'.accepted == run[n].accepted && s'.folded == s'.accepted
    ensures |s'.stripes| == |run[n].stripes| && forall i :: 0 <= i < |s'.stripes| ==> s'.stripes[i] == []
  {
    EveryAcceptedKept(run, n);
    DrainsNothing(run[n]);
    hide DrainsTo;
    s' := DrainsBelow(run[n], run[n], |run[n].stripes|);
    forall i | 0 <= i < |s'.stripes|
      ensures s'.folded[i] == s'.accepted[i]
    {
      assert KeptAt(s', i);
    }
  }

  /** And a reader whose stripe has room can have its fingerprint accepted, last of its stripe. */
  lemma RoomIsTaken(run: seq<State>, n: nat, fp: Fp) returns (s': State)
    requires IsRun(run) && n < |run|
    requires |run[n].stripes| > 0 && |run[n].stripes[StripeOf(fp, |run[n].stripes|)]| < run[n].depth
    ensures Next(run[n], s') && s'.folded == run[n].folded && |s'.accepted| == |run[n].stripes|
    ensures var i := StripeOf(fp, |run[n].stripes|); s'.accepted[i] == run[n].accepted[i] + [fp]
  {
    var s := run[n];
    EveryAcceptedKept(run, n);
    var i := StripeOf(fp, |s.stripes|);
    s' := s.(stripes := s.stripes[i := s.stripes[i] + [fp]], accepted := s.accepted[i := s.accepted[i] + [fp]]);
    assert Step(s, s', PushTaken(fp));
  }
}
