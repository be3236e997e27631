/** What the server does for its clients in every run: each frame read is dispatched once or still in
    hand, connections can be served, in-flight ones are spared by a poll, and a deadline closes all. */
module Serving {
  import opened Finite
  import opened Shutdown

  // ---- Frames read are frames dispatched ----

  /** Connections that have read a frame and not yet dispatched it. */
  function InHand(conns: map<nat, Client>): set<nat>
  {
    set c | c in conns && Holds(conns[c].pc)
  }

  predicate Holds(pc: ConnPc)
  {
    pc == ReadDone(true) || pc == Ready(true)
  }

  /** How often an action was taken by connection `c`. */
  function Times(acts: seq<Action>, c: nat, to: ConnPc): nat
  {
    if acts == [] then 0 else Times(acts[..|acts| - 1], c, to) + if acts[|acts| - 1] == Conn(c, to) then 1 else 0
  }

  /** How many frames have been read in all. */
  function Frames(acts: seq<Action>): nat
  {
    if acts == [] then 0
    else
      var a := acts[|acts| - 1];
      Frames(acts[..|acts| - 1]) + if a.Conn? && a.pc == ReadDone(true) then 1 else 0
  }

  lemma InHandPut(conns: map<nat, Client>, c: nat, k: Client)
    ensures InHand(conns[c := k]) == if Holds(k.pc) then InHand(conns) + {c} else InHand(conns) - {c}
    ensures c in InHand(conns) <==> c in conns && Holds(conns[c].pc)
  {
  }

  /** A step keeps the frames read apart from those in hand. */
  lemma HandStep(s: State, s': State, a: Action, max: nat)
    requires Tracking(s) && Step(s, s', a, max)
    ensures s.served + |InHand(s.conns)| + (if a.Conn? && a.pc == ReadDone(true) then 1 else 0)
         == s'.served + |InHand(s'.conns)|
  {
    hide LockFree;
    hide Skips;
    hide InHand;
    hide ShutMoves;
    match a
    case Serve(to) => HandServe(s, to, max);
    case Conn(c, to) => HandConn(s, c, to);
    case Shut(t, to) => HandShut(s, t, to);
  }

  lemma HandServe(s: State, to: ServePc, max: nat)
    requires Tracking(s) && ServeMoves(s, to, max)
    ensures InHand(ServeNext(s, to).conns) == InHand(s.conns)
  {
    hide LockFree;
    if to.Slotted? {
      InHandPut(s.conns, to.c, Client(Unstarted, false, true));
      assert to.c !in InHand(s.conns);
    } else if s.serve.Spawn? {
      InHandPut(s.conns, s.serve.c, s.conns[s.serve.c].(pc := Check));
      assert s.serve.c !in InHand(s.conns);
    }
  }

  lemma HandConn(s: State, c: nat, to: ConnPc)
    requires ConnCan(s, c, to)
    ensures var s' := ConnNext(s, c, to);
      s.served + |InHand(s.conns)| + (if to == ReadDone(true) then 1 else 0) == s'.served + |InHand(s'.conns)|
  {
    hide LockFree;
    InHandPut(s.conns, c, Moved(s.conns[c], to));
    hide InHand;
    SizeWith(InHand(s.conns), c);
  }

  lemma HandShut(s: State, t: nat, to: ShutPc)
    ensures InHand(ShutNext(s, t, to).conns) == InHand(s.conns)
  {
  }

  /** In every run, the frames read are the commands dispatched and those in hand: none is lost, none is
      dispatched twice, none is dispatched that was not read. */
  lemma {:induction false} FramesAreServed(run: seq<State>, acts: seq<Action>, max: nat, i: nat)
    requires IsRun(run, acts, max) && i < |run|
    ensures |run| == |acts| + 1 && Frames(acts[..i]) == run[i].served + |InHand(run[i].conns)|
  {
    hide *;
    RunLength(run, acts, max);
    if i == 0 {
      Nothing(run, acts, max);
    } else {
      FramesAreServed(run, acts, max, i - 1);
      RunInv(run, acts, max, i - 1);
      InvParts(run[i - 1], max);
      StepOf(run, acts, max, i - 1);
      HandStep(run[i - 1], run[i], acts[i - 1], max);
      FramesNext(acts, i - 1);
    }
  }

  lemma Nothing(run: seq<State>, acts: seq<Action>, max: nat)
    requires IsRun(run, acts, max)
    ensures Frames(acts[..0]) == 0 && run[0].served == 0 && InHand(run[0].conns) == {} && run[0].conns == map[]
    ensures forall c, to :: Times(acts[..0], c, to) == 0
  {
  }

  lemma FramesNext(acts: seq<Action>, i: nat)
    requires i < |acts|
    ensures Frames(acts[..i + 1]) == Frames(acts[..i]) + if acts[i].Conn? && acts[i].pc == ReadDone(true) then 1 else 0
    ensures forall c, to ::
      Times(acts[..i + 1], c, to) == Times(acts[..i], c, to) + if acts[i] == Conn(c, to) then 1 else 0
  {
    assert acts[..i + 1][..i] == acts[..i];
  }

  /** What connection `c` has read it has dispatched, but for the frame in its hand. */
  ghost predicate Even(s: State, frames: nat, dispatches: nat, c: nat)
  {
    frames == dispatches + if c in s.conns && Holds(s.conns[c].pc) then 1 else 0
  }

  lemma EvenStep(s: State, s': State, a: Action, max: nat, c: nat, frames: nat, dispatches: nat)
    requires Tracking(s) && Step(s, s', a, max) && Even(s, frames, dispatches, c)
    ensures Even(s', frames + (if a == Conn(c, ReadDone(true)) then 1 else 0),
                 dispatches + (if a == Conn(c, Flush) then 1 else 0), c)
  {
    hide LockFree;
    hide Skips;
  }

  /** The same holds of each connection by itself. */
  lemma {:induction false} EachIsServed(run: seq<State>, acts: seq<Action>, max: nat, i: nat, c: nat)
    requires IsRun(run, acts, max) && i < |run|
    ensures |run| == |acts| + 1
    ensures Even(run[i], Times(acts[..i], c, ReadDone(true)), Times(acts[..i], c, Flush), c)
  {
    hide *;
    RunLength(run, acts, max);
    if i == 0 {
      Nothing(run, acts, max);
      EvenAtFirst(run[0], c);
    } else {
      EachIsServed(run, acts, max, i - 1, c);
      RunInv(run, acts, max, i - 1);
      InvParts(run[i - 1], max);
      StepOf(run, acts, max, i - 1);
      FramesNext(acts, i - 1);
      EvenStep(run[i - 1], run[i], acts[i - 1], max, c,
               Times(acts[..i - 1], c, ReadDone(true)), Times(acts[..i - 1], c, Flush));
    }
  }

  lemma EvenAtFirst(s: State, c: nat)
    requires s.conns == map[]
    ensures Even(s, 0, 0, c)
  {
  }

  // ---- Service ----

  ghost predicate Reaches(s: State, max: nat)
  {
    exists run, acts :: EndsAt(run, acts, max, s)
  }

  ghost predicate EndsAt(run: seq<State>, acts: seq<Action>, max: nat, s: State)
  {
    IsRun(run, acts, max) && run[|acts|] == s
  }

  lemma ReachesNext(s: State, s': State, a: Action, max: nat)
    requires Reaches(s, max) && Step(s, s', a, max)
    ensures Reaches(s', max)
  {
    var run, acts :| EndsAt(run, acts, max, s);
    var run', acts' := run + [s'], acts + [a];
    hide Step;
    forall i | 0 <= i < |acts'|
      ensures Step(run'[i], run'[i + 1], acts'[i], max)
    {
      if i < |acts| {
        assert Step(run[i], run[i + 1], acts[i], max);
      }
    }
    assert EndsAt(run', acts', max, s');
  }

  lemma ReachedInv(s: State, max: nat)
    requires Reaches(s, max)
    ensures Inv(s, max)
  {
    var run, acts :| EndsAt(run, acts, max, s);
    RunInv(run, acts, max, |acts|);
  }

  lemma {:induction false} Above(conns: map<nat, Client>) returns (c: nat)
    ensures forall d :: d in conns ==> d < c
    decreases |conns|
  {
    if conns.Keys == {} {
      c := 0;
    } else {
      var d :| d in conns.Keys;
      Fewer(conns, d);
      var b := Above(conns - {d});
      c := if d < b then b else d + 1;
      assert forall e :: e in conns ==> e == d || e in conns - {d};
    }
  }

  /** With the flag down nobody holds the mutex. */
  lemma FlagDownIsFree(s: State)
    requires Listener(s) && !s.flag
    ensures LockFree(s)
  {
    forall t | t in s.shuts
      ensures !s.shuts[t].Scan? && !s.shuts[t].Hit?
    {
      assert ShutOk(s, s.shuts[t]);
    }
  }

  lemma Goes(s: State, c: nat, to: ConnPc, max: nat) returns (s': State)
    requires Reaches(s, max) && c in s.conns && ConnMoves(s.conns[c].pc, to, s.flag) && !to.Releasing? && !to.Gone?
    ensures Reaches(s', max) && c in s'.conns && s'.conns[c].pc == to && s'.flag == s.flag
    ensures s'.served == s.served + (if to.Flush? then 1 else 0)
    ensures s'.sem == s.sem && s'.serve == s.serve && s'.tracked == s.tracked
  {
    s' := ConnNext(s, c, to);
    assert Step(s, s', Conn(c, to), max);
    ReachesNext(s, s', Conn(c, to), max);
  }

  /** A connection about to look at the flag, or to reply, with the flag down, can read a frame and
      dispatch it. */
  lemma CanDispatch(s: State, c: nat, max: nat) returns (s': State)
    requires Reaches(s, max) && !s.flag && c in s.conns && (s.conns[c].pc == Check || s.conns[c].pc == Flush)
    ensures Reaches(s', max) && c in s'.conns && s'.conns[c].pc == Flush && s'.served == s.served + 1
    ensures s'.flag == s.flag && s'.sem == s.sem && s'.serve == s.serve && s'.tracked == s.tracked
  {
    hide Reaches;
    s' := s;
    if s.conns[c].pc == Flush {
      s' := Goes(s, c, Check, max);
    }
    s' := Goes(s', c, SetIdle, max);
    s' := Goes(s', c, Reading, max);
    s' := Goes(s', c, ReadDone(true), max);
    s' := Goes(s', c, Ready(true), max);
    s' := Goes(s', c, Flush, max);
  }

  /** Any number of commands, one after the other. */
  lemma {:induction false} CanDispatchMany(s: State, c: nat, max: nat, n: nat) returns (s': State)
    requires Reaches(s, max) && !s.flag && c in s.conns && (s.conns[c].pc == Check || s.conns[c].pc == Flush)
    ensures Reaches(s', max) && c in s'.conns && (s'.conns[c].pc == Check || s'.conns[c].pc == Flush)
    ensures !s'.flag && s'.served == s.served + n
  {
    hide Reaches;
    s' := s;
    if n > 0 {
      s' := CanDispatchMany(s, c, max, n - 1);
      s' := CanDispatch(s', c, max);
    }
  }

  /** The accept loop is never wedged: while it runs, and nobody holds the mutex, it can move, with all
      slots taken too. */
  lemma AcceptNeverWedged(s: State, max: nat)
    requires Reaches(s, max) && LockFree(s) && s.serve != Returned
    ensures exists to :: ServeMoves(s, to, max)
  {
    ReachedInv(s, max);
    InvParts(s, max);
    var next := Above(s.conns);
    hide Reaches;
    hide LockFree;
    match s.serve
    case Start => assert ServeMoves(s, if s.flag then CloseLate else Accepting, max);
    case CloseLate => assert ServeMoves(s, Returned, max);
    case Accepting => assert ServeMoves(s, Returned, max);
    case Accepted => assert ServeMoves(s, if s.sem < max then Slotted(next) else Accepting, max);
    case Slotted(c) => assert ServeMoves(s, Spawn(c), max);
    case Spawn(c) => assert ServeMoves(s, Accepting, max);
  }

  lemma Serves(s: State, to: ServePc, max: nat) returns (s': State)
    requires Reaches(s, max) && ServeMoves(s, to, max)
    ensures Reaches(s', max) && s' == ServeNext(s, to)
  {
    s' := ServeNext(s, to);
    assert Step(s, s', Serve(to), max);
    ReachesNext(s, s', Serve(to), max);
  }

  /** From every reachable state with the flag down, the listener open, the accept loop waiting and a
      slot free, a new connection can be accepted, tracked and started, and have a command dispatched. */
  lemma NewClientIsServed(s: State, max: nat) returns (c: nat, s': State)
    requires Reaches(s, max) && !s.flag && !s.lnClosed && s.serve == Accepting && s.sem < max
    ensures c !in s.conns && Reaches(s', max) && c in s'.conns && c in s'.tracked && s'.conns[c].pc == Flush
    ensures s'.served == s.served + 1 && s'.sem == s.sem + 1 && s'.serve == Accepting
  {
    ReachedInv(s, max);
    InvParts(s, max);
    FlagDownIsFree(s);
    c := Above(s.conns);
    hide Reaches;
    hide Inv;
    var s1 := Serves(s, Accepted, max);
    var s2 := Serves(s1, Slotted(c), max);
    var s3 := Serves(s2, Spawn(c), max);
    var s4 := Serves(s3, Accepting, max);
    s' := CanDispatch(s4, c, max);
  }

  // ---- Who is closed ----

  /** Dispatching a command or replying to it. */
  predicate InFlight(pc: ConnPc)
  {
    pc.Ready? || pc.Flush?
  }

  /** Who is in flight is marked active. */
  ghost predicate FlightsMarked(s: State)
  {
    forall c :: c in s.conns && InFlight(s.conns[c].pc) ==> s.conns[c].active
  }

  lemma MarkedStep(s: State, s': State, a: Action, max: nat)
    requires FlightsMarked(s) && Step(s, s', a, max)
    ensures FlightsMarked(s')
  {
    hide LockFree;
    hide Skips;
  }

  lemma {:induction false} AlwaysMarked(run: seq<State>, acts: seq<Action>, max: nat, i: nat)
    requires IsRun(run, acts, max) && i < |run|
    ensures FlightsMarked(run[i])
  {
    if i > 0 {
      AlwaysMarked(run, acts, max, i - 1);
      StepOf(run, acts, max, i - 1);
      hide *;
      MarkedStep(run[i - 1], run[i], acts[i - 1], max);
    }
  }

  /** Between `i` and `j` the connection is in flight and no call is at its deadline. */
  ghost predicate Busy(run: seq<State>, i: nat, j: nat, c: nat)
    requires j < |run|
  {
    forall k :: i <= k <= j ==> BusyAt(run[k], c)
  }

  ghost predicate BusyAt(s: State, c: nat)
  {
    c in s.conns && InFlight(s.conns[c].pc) && forall t :: t in s.shuts ==> Patient(s.shuts[t])
  }

  predicate Patient(pc: ShutPc)
  {
    (pc.Scan? || pc.Hit?) ==> !pc.all
  }

  /** The socket is open and no call is about to close it. */
  ghost predicate Untouched(s: State, c: nat)
  {
    && c in s.conns && s.conns[c].open
    && (forall t :: t in s.shuts && s.shuts[t].Hit? ==> s.shuts[t].c != c)
  }

  lemma UntouchedStep(s: State, s': State, a: Action, max: nat, c: nat)
    requires Step(s, s', a, max) && BusyAt(s, c) && BusyAt(s', c) && Untouched(s, c) && FlightsMarked(s)
    ensures Untouched(s', c)
  {
    hide LockFree;
    hide Skips;
    forall t | t in s'.shuts && s'.shuts[t].Hit?
      ensures s'.shuts[t].c != c
    {
      if t in s.shuts {
        assert Patient(s'.shuts[t]) && Patient(s.shuts[t]);
      }
    }
  }

  /** A connection in flight is spared: while it dispatches or replies and no call is past its deadline,
      no Shutdown call closes its socket, however many poll. */
  lemma {:induction false} InFlightSpared(run: seq<State>, acts: seq<Action>, max: nat, i: nat, j: nat, c: nat)
    requires IsRun(run, acts, max) && i <= j < |run| && Busy(run, i, j, c) && Untouched(run[i], c)
    ensures Untouched(run[j], c)
    decreases j
  {
    hide *;
    if i < j {
      BusyUpTo(run, i, j, c);
      InFlightSpared(run, acts, max, i, j - 1, c);
      RunLength(run, acts, max);
      StepOf(run, acts, max, j - 1);
      AlwaysMarked(run, acts, max, j - 1);
      UntouchedStep(run[j - 1], run[j], acts[j - 1], max, c);
    }
  }

  lemma BusyUpTo(run: seq<State>, i: nat, j: nat, c: nat)
    requires i < j < |run| && Busy(run, i, j, c)
    ensures Busy(run, i, j - 1, c) && BusyAt(run[j - 1], c) && BusyAt(run[j], c)
  {
    hide BusyAt;
  }

  /** Whoever a forced scan has passed has a closed socket. */
  ghost predicate Forced(s: State)
  {
    forall t :: t in s.shuts ==> ForcedBy(s, s.shuts[t])
  }

  ghost predicate ForcedBy(s: State, pc: ShutPc)
  {
    (pc.Scan? || pc.Hit?) && pc.all ==>
      forall c :: c in s.tracked && c in s.conns && c !in Unseen(pc) ==> !s.conns[c].open
  }

  lemma ForcedStep(s: State, s': State, a: Action, max: nat)
    requires Step(s, s', a, max) && Forced(s) && Tracking(s)
    ensures Forced(s')
  {
    forall t | t in s'.shuts
      ensures ForcedBy(s', s'.shuts[t])
    {
      if t in s.shuts {
        assert ForcedBy(s, s.shuts[t]);
      }
      match a
      case Serve(to) => ForcedServe(s, to, max, t);
      case Conn(c, to) => ForcedConn(s, c, to, t);
      case Shut(u, to) => ForcedShut(s, u, to, t);
    }
  }

  lemma ForcedServe(s: State, to: ServePc, max: nat, t: nat)
    requires ServeMoves(s, to, max) && Tracking(s) && t in s.shuts && ForcedBy(s, s.shuts[t])
    ensures ForcedBy(ServeNext(s, to), s.shuts[t])
  {
  }

  lemma ForcedConn(s: State, c: nat, to: ConnPc, t: nat)
    requires ConnCan(s, c, to) && t in s.shuts && ForcedBy(s, s.shuts[t])
    ensures ForcedBy(ConnNext(s, c, to), s.shuts[t])
  {
    hide LockFree;
  }

  lemma ForcedShut(s: State, u: nat, to: ShutPc, t: nat)
    requires ShutMoves(s, u, to) && (t in s.shuts ==> ForcedBy(s, s.shuts[t])) && (t in s.shuts || t == u)
    ensures ForcedBy(ShutNext(s, u, to), if t == u then to else s.shuts[t])
  {
    hide LockFree;
  }

  lemma {:induction false} ForcedAlways(run: seq<State>, acts: seq<Action>, max: nat, i: nat)
    requires IsRun(run, acts, max) && i < |run|
    ensures Forced(run[i])
  {
    if i > 0 {
      ForcedAlways(run, acts, max, i - 1);
      StepOf(run, acts, max, i - 1);
      RunInv(run, acts, max, i - 1);
      InvParts(run[i - 1], max);
      hide *;
      ForcedStep(run[i - 1], run[i], acts[i - 1], max);
    }
  }

  /** A call that returns at its deadline leaves no tracked connection with an open socket, in flight
      or not. */
  lemma DeadlineClosesAll(run: seq<State>, acts: seq<Action>, max: nat, i: nat, t: nat)
    requires IsRun(run, acts, max) && i < |acts| && acts[i] == Shut(t, TimedOut)
    ensures |run| == |acts| + 1
    ensures var s := run[i + 1]; forall c :: c in s.tracked ==> c in s.conns && !s.conns[c].open
  {
    StepOf(run, acts, max, i);
    ForcedAlways(run, acts, max, i);
    RunInv(run, acts, max, i);
    InvParts(run[i], max);
    assert ForcedBy(run[i], run[i].shuts[t]);
    hide LockFree;
    hide Skips;
  }

  lemma Shuts(s: State, t: nat, to: ShutPc, max: nat) returns (s': State)
    requires Reaches(s, max) && ShutMoves(s, t, to)
    ensures Reaches(s', max) && s' == ShutNext(s, t, to)
  {
    s' := ShutNext(s, t, to);
    assert Step(s, s', Shut(t, to), max);
    ReachesNext(s, s', Shut(t, to), max);
  }

  lemma {:induction false} ForcesRest(s: State, t: nat, max: nat) returns (s': State)
    requires Reaches(s, max) && t in s.shuts && s.shuts[t].Scan? && s.shuts[t].all && s.shuts[t].todo <= s.conns.Keys
    ensures Reaches(s', max) && t in s'.shuts && s'.shuts[t] == TimedOut && s'.tracked == s.tracked
    ensures s'.conns.Keys == s.conns.Keys && forall c :: c in s.conns ==> s'.conns[c].pc == s.conns[c].pc
    decreases |s.shuts[t].todo|
  {
    hide Reaches;
    var todo := s.shuts[t].todo;
    if todo == {} {
      s' := Shuts(s, t, TimedOut, max);
    } else {
      var c :| c in todo;
      var a := Shuts(s, t, Hit(todo - {c}, c, true), max);
      var b := Shuts(a, t, Scan(todo - {c}, true), max);
      s' := ForcesRest(b, t, max);
    }
  }

  /** A call past its deadline cannot hang: once nobody else holds the mutex, it can close every tracked
      connection and return, with nobody else moving. */
  lemma DeadlineReturns(s: State, t: nat, max: nat) returns (s': State)
    requires Reaches(s, max) && t in s.shuts && s.shuts[t] == Wait && LockFree(s)
    ensures Reaches(s', max) && t in s'.shuts && s'.shuts[t] == TimedOut && s'.tracked == s.tracked
    ensures s'.conns.Keys == s.conns.Keys && forall c :: c in s.conns ==> s'.conns[c].pc == s.conns[c].pc
  {
    ReachedInv(s, max);
    InvParts(s, max);
    hide Reaches;
    hide LockFree;
    var a := Shuts(s, t, Scan(s.tracked, true), max);
    s' := ForcesRest(a, t, max);
  }

  // ---- After the flag ----

  predicate Past(s: State, c: nat)
  {
    c in s.conns && Armed(s.conns[c].pc)
  }

  lemma PastOnce(s: State, s': State, a: Action, max: nat, c: nat)
    requires s.flag && Tracking(s) && Step(s, s', a, max)
    ensures s'.flag && (a == Conn(c, Flush) ==> Past(s, c) && !Past(s', c)) && (Past(s', c) ==> Past(s, c))
  {
    hide LockFree;
    hide Skips;
  }

  /** From any moment after the flag is up, a connection dispatches at most one command more, and
      none unless it is then past its check. */
  lemma {:induction false} OneLateDispatch(run: seq<State>, acts: seq<Action>, max: nat, i: nat, j: nat, c: nat)
    requires IsRun(run, acts, max) && i <= j < |run| && run[i].flag
    ensures |run| == |acts| + 1 && run[j].flag
    ensures Times(acts[i..j], c, Flush) + (if Past(run[j], c) then 1 else 0) <= if Past(run[i], c) then 1 else 0
    decreases j
  {
    hide *;
    RunLength(run, acts, max);
    if i == j {
      NoTimes(acts[i..i], c, Flush);
    } else {
      OneLateDispatch(run, acts, max, i, j - 1, c);
      RunInv(run, acts, max, j - 1);
      InvParts(run[j - 1], max);
      StepOf(run, acts, max, j - 1);
      PastOnce(run[j - 1], run[j], acts[j - 1], max, c);
      TimesNext(acts, i, j, c, Flush);
    }
  }

  lemma NoTimes(acts: seq<Action>, c: nat, to: ConnPc)
    requires |acts| == 0
    ensures Times(acts, c, to) == 0
  {
  }

  lemma TimesNext(acts: seq<Action>, i: nat, j: nat, c: nat, to: ConnPc)
    requires i < j <= |acts|
    ensures Times(acts[i..j], c, to) == Times(acts[i..j - 1], c, to) + if acts[j - 1] == Conn(c, to) then 1 else 0
  {
    assert acts[i..j][..j - i - 1] == acts[i..j - 1];
  }
}
