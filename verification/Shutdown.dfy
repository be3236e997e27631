/** Accepting, serving and shutting down, as a step system: one accept loop, any number of
    connections and any number of Shutdown calls, interleaved at every atomic step. */
module Shutdown {
  import opened Finite

  /** Where a connection's goroutine is. */
  datatype ConnPc =
    | Unstarted             // built by the accept loop, goroutine not yet running
    | Check                 // about to look at the shutdown flag
    | SetIdle               // about to mark itself idle
    | Reading               // inside the read
    | ReadDone(frame: bool) // read returned, with a frame or an error
    | Ready(frame: bool)    // marked active
    | Flush                 // command dispatched, reply to flush
    | Leaving               // about to close its socket
    | Dropping              // about to leave the tracked set
    | Releasing             // about to free its slot
    | Gone

  datatype Client = Client(pc: ConnPc, active: bool, open: bool)

  /** Where the accept loop is. */
  datatype ServePc = Start | CloseLate | Accepting | Accepted | Slotted(c: nat) | Spawn(c: nat) | Returned

  /** Where a Shutdown call is.  Scanning and hitting hold the mutex; `all` marks the forced close
      at the deadline, which does not spare active connections. */
  datatype ShutPc =
    | Begin
    | CloseLn(found: bool)
    | Poll
    | Scan(todo: set<nat>, all: bool)
    | Hit(todo: set<nat>, c: nat, all: bool)
    | Count
    | Wait
    | Drained
    | TimedOut

  datatype State = State(
    flag: bool,               // inShutdown
    published: bool,          // the listener is visible to Shutdown
    lnClosed: bool,
    sem: nat,                 // slots taken
    tracked: set<nat>,        // the connection set
    conns: map<nat, Client>,
    serve: ServePc,
    shuts: map<nat, ShutPc>,
    served: nat)              // commands dispatched so far

  const INIT: State := State(false, false, false, 0, {}, map[], Start, map[], 0)

  /** Nobody holds the mutex over more than one step. */
  ghost predicate LockFree(s: State)
  {
    forall t :: t in s.shuts ==> !s.shuts[t].Scan? && !s.shuts[t].Hit?
  }

  // ---- The accept loop ----

  ghost predicate ServeMoves(s: State, to: ServePc, max: nat)
  {
    match s.serve
    case Start => LockFree(s) && to == if s.flag then CloseLate else Accepting
    case CloseLate => to == Returned
    case Accepting => to == Returned || (to == Accepted && !s.lnClosed)
    case Accepted => if s.sem < max then to.Slotted? && to.c !in s.conns else to == Accepting
    case Slotted(c) => LockFree(s) && to == Spawn(c)
    case Spawn(c) => to == Accepting && c in s.conns
    case Returned => false
  }

  function ServeNext(s: State, to: ServePc): State
  {
    s.(serve := to,
       published := s.published || (s.serve.Start? && to.Accepting?),
       lnClosed := s.lnClosed || s.serve.CloseLate?,
       sem := if to.Slotted? then s.sem + 1 else s.sem,
       tracked := if to.Spawn? then s.tracked + {to.c} else s.tracked,
       conns := if to.Slotted? then s.conns[to.c := Client(Unstarted, false, true)]
                else if s.serve.Spawn? && s.serve.c in s.conns then
                  s.conns[s.serve.c := s.conns[s.serve.c].(pc := Check)]
                else s.conns)
  }

  // ---- A connection ----

  predicate ConnMoves(pc: ConnPc, to: ConnPc, flag: bool)
  {
    match pc
    case Check => to == if flag then Leaving else SetIdle
    case SetIdle => to == Reading
    case Reading => to.ReadDone?
    case ReadDone(frame) => to == Ready(frame)
    case Ready(frame) => to == if frame then Flush else Leaving
    case Flush => to == Check || to == Leaving
    case Leaving => to == Dropping
    case Dropping => to == Releasing
    case Releasing => to == Gone
    case _ => false
  }

  ghost predicate ConnCan(s: State, c: nat, to: ConnPc)
  {
    && c in s.conns && ConnMoves(s.conns[c].pc, to, s.flag)
    && (to.Releasing? ==> LockFree(s)) && (to.Gone? ==> s.sem > 0)
  }

  function Moved(k: Client, to: ConnPc): Client
  {
    Client(to,
           if to.Reading? then false else if to.Ready? then true else k.active,
           k.open && !to.Dropping?)
  }

  function ConnNext(s: State, c: nat, to: ConnPc): State
    requires c in s.conns && (to.Gone? ==> s.sem > 0)
  {
    s.(conns := s.conns[c := Moved(s.conns[c], to)],
       tracked := if to.Releasing? then s.tracked - {c} else s.tracked,
       sem := if to.Gone? then s.sem - 1 else s.sem,
       served := if to.Flush? then s.served + 1 else s.served)
  }

  // ---- A Shutdown call ----

  ghost predicate Skips(s: State, todo: set<nat>, to: ShutPc)
  {
    exists c :: c in todo && c in s.conns && s.conns[c].active && to == Scan(todo - {c}, false)
  }

  ghost predicate ShutMoves(s: State, t: nat, to: ShutPc)
  {
    if t !in s.shuts then to == Begin
    else
      match s.shuts[t]
      case Begin => LockFree(s) && to == CloseLn(s.published)
      case CloseLn(_) => to == Poll
      case Poll => LockFree(s) && to == Scan(s.tracked, false)
      case Scan(todo, all) =>
        if todo == {} then to == if all then TimedOut else Count
        else if to.Hit? then
          to.c in todo && to == Hit(todo - {to.c}, to.c, all) && to.c in s.conns && (all || !s.conns[to.c].active)
        else !all && Skips(s, todo, to)
      case Hit(todo, c, all) => to == Scan(todo, all)
      case Count => LockFree(s) && to == if s.tracked == {} then Drained else Wait
      case Wait => to == Poll || (LockFree(s) && to == Scan(s.tracked, true))
      case _ => false
  }

  function Closed(conns: map<nat, Client>, c: nat): map<nat, Client>
  {
    if c in conns then conns[c := conns[c].(open := false)] else conns
  }

  function ShutNext(s: State, t: nat, to: ShutPc): State
  {
    s.(shuts := s.shuts[t := to],
       flag := s.flag || to.CloseLn?,
       lnClosed := s.lnClosed || (t in s.shuts && s.shuts[t] == CloseLn(true)),
       conns := if t in s.shuts && s.shuts[t].Hit? then Closed(s.conns, s.shuts[t].c) else s.conns)
  }

  // ---- Steps and runs ----

  datatype Action = Serve(to: ServePc) | Conn(c: nat, pc: ConnPc) | Shut(t: nat, at: ShutPc)

  ghost predicate Step(s: State, s': State, a: Action, max: nat)
  {
    match a
    case Serve(to) => ServeMoves(s, to, max) && s' == ServeNext(s, to)
    case Conn(c, to) => ConnCan(s, c, to) && s' == ConnNext(s, c, to)
    case Shut(t, to) => ShutMoves(s, t, to) && s' == ShutNext(s, t, to)
  }

  // ---- Slots and tracking ----

  function Holders(conns: map<nat, Client>): set<nat>
  {
    set c | c in conns && conns[c].pc != Gone
  }

  /** A connection holds its slot from before it is tracked until after it is dropped. */
  ghost predicate TrackOk(pc: ConnPc, tracked: bool, serve: ServePc, c: nat)
  {
    match pc
    case Unstarted => serve == if tracked then Spawn(c) else Slotted(c)
    case Releasing => !tracked
    case Gone => !tracked
    case _ => tracked
  }

  ghost predicate Tracking(s: State)
  {
    && s.tracked <= s.conns.Keys
    && (forall c :: c in s.conns ==> TrackOk(s.conns[c].pc, c in s.tracked, s.serve, c))
    && (s.serve.Slotted? || s.serve.Spawn? ==> s.serve.c in s.conns && s.conns[s.serve.c].pc == Unstarted)
  }

  ghost predicate Slots(s: State, max: nat)
  {
    s.sem == |Holders(s.conns)| <= max
  }

  lemma TrackingStep(s: State, s': State, a: Action, max: nat)
    requires Tracking(s) && Step(s, s', a, max)
    ensures Tracking(s')
  {
    hide LockFree;
    hide Skips;
    match a
    case Serve(to) => TrackingServe(s, to, max);
    case Conn(c, to) => TrackingConn(s, c, to);
    case Shut(t, to) => TrackingShut(s, t, to);
  }

  lemma TrackingServe(s: State, to: ServePc, max: nat)
    requires Tracking(s) && ServeMoves(s, to, max)
    ensures Tracking(ServeNext(s, to))
  {
    hide LockFree;
  }

  lemma TrackingConn(s: State, c: nat, to: ConnPc)
    requires Tracking(s) && ConnCan(s, c, to)
    ensures Tracking(ConnNext(s, c, to))
  {
    hide LockFree;
  }

  lemma TrackingShut(s: State, t: nat, to: ShutPc)
    requires Tracking(s)
    ensures Tracking(ShutNext(s, t, to))
  {
  }

  lemma HoldersPut(conns: map<nat, Client>, c: nat, k: Client)
    ensures Holders(conns[c := k]) == if k.pc == Gone then Holders(conns) - {c} else Holders(conns) + {c}
  {
  }

  lemma SlotsStep(s: State, s': State, a: Action, max: nat)
    requires Slots(s, max) && Tracking(s) && Step(s, s', a, max)
    ensures Slots(s', max)
  {
    hide LockFree;
    hide Skips;
    hide ShutMoves;
    match a
    case Serve(to) => SlotsServe(s, to, max);
    case Conn(c, to) => SlotsConn(s, c, to, max);
    case Shut(t, to) =>
      if t in s.shuts && s.shuts[t].Hit? && s.shuts[t].c in s.conns {
        var c := s.shuts[t].c;
        HoldersPut(s.conns, c, s.conns[c].(open := false));
        assert Holders(s'.conns) == Holders(s.conns);
      }
  }

  lemma HoldersHas(conns: map<nat, Client>, c: nat)
    ensures c in Holders(conns) <==> c in conns && conns[c].pc != Gone
  {
  }

  lemma SlotsServe(s: State, to: ServePc, max: nat)
    requires Slots(s, max) && Tracking(s) && ServeMoves(s, to, max)
    ensures Slots(ServeNext(s, to), max)
  {
    hide LockFree;
    hide Holders;
    if to.Slotted? {
      HoldersPut(s.conns, to.c, Client(Unstarted, false, true));
      HoldersHas(s.conns, to.c);
      SizeWith(Holders(s.conns), to.c);
    } else if s.serve.Spawn? {
      var c := s.serve.c;
      HoldersPut(s.conns, c, s.conns[c].(pc := Check));
      HoldersHas(s.conns, c);
      SizeWith(Holders(s.conns), c);
    }
  }

  lemma SlotsConn(s: State, c: nat, to: ConnPc, max: nat)
    requires Slots(s, max) && ConnCan(s, c, to)
    ensures Slots(ConnNext(s, c, to), max)
  {
    hide LockFree;
    HoldersPut(s.conns, c, Moved(s.conns[c], to));
    assert c in Holders(s.conns);
    hide Holders;
    SizeWith(Holders(s.conns), c);
  }

  // ---- The listener ----

  /** Whichever of the two critical sections comes first, someone is left responsible for closing. */
  ghost predicate Listener(s: State)
  {
    && (s.serve.Start? ==> !s.published)
    && (s.serve.CloseLate? ==> !s.published && s.flag)
    && (s.serve.Returned? ==> s.published || s.lnClosed)
    && (!s.serve.Start? && !s.serve.CloseLate? && !s.serve.Returned? ==> s.published)
    && (forall t :: t in s.shuts ==> ShutOk(s, s.shuts[t]))
  }

  ghost predicate ShutOk(s: State, pc: ShutPc)
  {
    match pc
    case Begin => true
    case CloseLn(found) => s.flag && found == s.published
    case _ => s.flag && (s.published ==> s.lnClosed)
  }

  lemma ListenerStep(s: State, s': State, a: Action, max: nat)
    requires Listener(s) && Step(s, s', a, max)
    ensures Listener(s')
  {
    hide LockFree;
    forall u | u in s'.shuts
      ensures ShutOk(s', s'.shuts[u])
    {
      if u in s.shuts {
        assert ShutOk(s, s.shuts[u]);
      }
    }
  }

  // ---- Late commands ----

  /** Past the flag check and not yet dispatched. */
  predicate Armed(pc: ConnPc)
  {
    pc.SetIdle? || pc.Reading? || pc.ReadDone? || pc.Ready?
  }

  // ---- Drained ----

  /** The flag is up and no connection is past its check or flushing. */
  ghost predicate Quiet(s: State)
  {
    s.flag && forall c :: c in s.conns ==> !Armed(s.conns[c].pc) && !s.conns[c].pc.Flush?
  }

  ghost predicate DrainedMeansQuiet(s: State)
  {
    forall t :: t in s.shuts && s.shuts[t] == Drained ==> Quiet(s)
  }

  /** Once quiet, always quiet, and nothing is dispatched. */
  lemma QuietStep(s: State, s': State, a: Action, max: nat)
    requires Quiet(s) && Step(s, s', a, max)
    ensures Quiet(s') && s'.served == s.served
  {
    hide LockFree;
    hide Skips;
  }

  /** An empty tracked set, seen after the flag, leaves no connection that could still serve. */
  lemma EmptyIsQuiet(s: State)
    requires Tracking(s) && s.flag && s.tracked == {}
    ensures Quiet(s)
  {
    forall c | c in s.conns
      ensures !Armed(s.conns[c].pc) && !s.conns[c].pc.Flush?
    {
      assert TrackOk(s.conns[c].pc, c in s.tracked, s.serve, c);
    }
  }

  lemma DrainedStep(s: State, s': State, a: Action, max: nat)
    requires DrainedMeansQuiet(s) && Tracking(s) && Listener(s) && Step(s, s', a, max)
    ensures DrainedMeansQuiet(s')
  {
    forall t | t in s'.shuts && s'.shuts[t] == Drained
      ensures Quiet(s')
    {
      if t in s.shuts && s.shuts[t] == Drained {
        QuietStep(s, s', a, max);
      } else {
        DrainedNow(s, s', a, max, t);
      }
    }
  }

  lemma DrainedNow(s: State, s': State, a: Action, max: nat, t: nat)
    requires Tracking(s) && Listener(s) && Step(s, s', a, max)
    requires t in s'.shuts && s'.shuts[t] == Drained && !(t in s.shuts && s.shuts[t] == Drained)
    ensures Quiet(s')
  {
    hide LockFree;
    assert a == Shut(t, Drained);
    assert ShutOk(s, s.shuts[t]);
    EmptyIsQuiet(s);
  }

  // ---- Idle readers ----

  /** A connection inside its read is marked idle. */
  ghost predicate IdleReaders(s: State)
  {
    forall c :: c in s.conns && s.conns[c].pc == Reading ==> !s.conns[c].active
  }

  lemma IdleStep(s: State, s': State, a: Action, max: nat)
    requires IdleReaders(s) && Step(s, s', a, max)
    ensures IdleReaders(s')
  {
    hide LockFree;
    hide Skips;
  }

  // ---- Every reachable state ----

  ghost predicate Inv(s: State, max: nat)
  {
    Tracking(s) && Slots(s, max) && Listener(s) && DrainedMeansQuiet(s) && IdleReaders(s)
  }

  lemma InitInv(max: nat)
    ensures Inv(INIT, max)
  {
  }

  lemma StepInv(s: State, s': State, a: Action, max: nat)
    requires Inv(s, max) && Step(s, s', a, max)
    ensures Inv(s', max)
  {
    hide *;
    InvParts(s, max);
    TrackingStep(s, s', a, max);
    SlotsStep(s, s', a, max);
    ListenerStep(s, s', a, max);
    DrainedStep(s, s', a, max);
    IdleStep(s, s', a, max);
    InvParts(s', max);
  }

  lemma InvParts(s: State, max: nat)
    ensures Inv(s, max) <==>
      Tracking(s) && Slots(s, max) && Listener(s) && DrainedMeansQuiet(s) && IdleReaders(s)
  {
  }

  ghost predicate IsRun(run: seq<State>, acts: seq<Action>, max: nat)
  {
    && |run| == |acts| + 1 && run[0] == INIT
    && (forall i :: 0 <= i < |acts| ==> Step(run[i], run[i + 1], acts[i], max))
  }

  lemma StepOf(run: seq<State>, acts: seq<Action>, max: nat, i: nat)
    requires IsRun(run, acts, max) && i < |acts|
    ensures Step(run[i], run[i + 1], acts[i], max)
  {
  }

  lemma {:induction false} RunInv(run: seq<State>, acts: seq<Action>, max: nat, i: nat)
    requires IsRun(run, acts, max) && i < |run|
    ensures Inv(run[i], max)
  {
    if i == 0 {
      InitInv(max);
    } else {
      RunInv(run, acts, max, i - 1);
      assert Step(run[i - 1], run[i], acts[i - 1], max);
      StepInv(run[i - 1], run[i], acts[i - 1], max);
    }
  }

  /** Tracked connections never outnumber the slots taken, nor those the limit. */
  lemma NeverOverCapacity(run: seq<State>, acts: seq<Action>, max: nat, i: nat)
    requires IsRun(run, acts, max) && i < |run|
    ensures |run[i].tracked| <= run[i].sem <= max
  {
    RunInv(run, acts, max, i);
    hide IsRun;
    TrackedHold(run[i]);
    SubsetSize(run[i].tracked, Holders(run[i].conns));
  }

  lemma TrackedHold(s: State)
    requires Tracking(s)
    ensures s.tracked <= Holders(s.conns)
  {
    forall c | c in s.tracked
      ensures c in Holders(s.conns)
    {
      assert TrackOk(s.conns[c].pc, c in s.tracked, s.serve, c);
    }
  }

  /** Freeing a slot never blocks: the slot of a connection that is about to free it is taken. */
  lemma ReleaseNeverBlocks(run: seq<State>, acts: seq<Action>, max: nat, i: nat, c: nat)
    requires IsRun(run, acts, max) && i < |run| && c in run[i].conns && run[i].conns[c].pc == Releasing
    ensures ConnCan(run[i], c, Gone)
  {
    RunInv(run, acts, max, i);
    hide IsRun;
    assert c in Holders(run[i].conns);
  }

  /** Once some Shutdown call is past its own critical section and close, and Serve past its, the
      listener is closed: whichever of the two entered first. */
  lemma ListenerIsClosed(run: seq<State>, acts: seq<Action>, max: nat, i: nat, t: nat)
    requires IsRun(run, acts, max) && i < |run|
    requires t in run[i].shuts && !run[i].shuts[t].Begin? && !run[i].shuts[t].CloseLn?
    requires !run[i].serve.Start? && !run[i].serve.CloseLate?
    ensures run[i].lnClosed
  {
    RunInv(run, acts, max, i);
    assert ShutOk(run[i], run[i].shuts[t]);
  }

  /** Once a Shutdown call has returned by the drained path, no command is ever dispatched again. */
  lemma {:induction false} NothingAfterDrained(run: seq<State>, acts: seq<Action>, max: nat, i: nat, j: nat, t: nat)
    requires IsRun(run, acts, max) && i <= j < |run| && t in run[i].shuts && run[i].shuts[t] == Drained
    ensures run[j].served == run[i].served && Quiet(run[j])
    decreases j
  {
    if i == j {
      RunInv(run, acts, max, i);
    } else {
      NothingAfterDrained(run, acts, max, i, j - 1, t);
      assert Step(run[j - 1], run[j], acts[j - 1], max);
      QuietStep(run[j - 1], run[j], acts[j - 1], max);
    }
  }

  function ArmedSet(conns: map<nat, Client>): set<nat>
  {
    set c | c in conns && Armed(conns[c].pc)
  }

  lemma ArmedPut(conns: map<nat, Client>, c: nat, k: Client)
    ensures ArmedSet(conns[c := k]) == if Armed(k.pc) then ArmedSet(conns) + {c} else ArmedSet(conns) - {c}
  {
  }

  lemma ArmedIn(conns: map<nat, Client>, c: nat)
    requires c in conns
    ensures c in ArmedSet(conns) <==> Armed(conns[c].pc)
  {
  }

  lemma SizeWith(a: set<nat>, c: nat)
    ensures |a + {c}| == if c in a then |a| else |a| + 1
    ensures |a - {c}| == if c in a then |a| - 1 else |a|
  {
    if c in a {
      assert a + {c} == a;
    } else {
      assert a - {c} == a;
    }
  }

  /** After the flag, every dispatch uses up one connection that was past its check. */
  lemma LateIsPaid(s: State, s': State, a: Action, max: nat)
    requires s.flag && Tracking(s) && Step(s, s', a, max)
    ensures s'.flag && s'.served + |ArmedSet(s'.conns)| <= s.served + |ArmedSet(s.conns)|
  {
    hide LockFree;
    hide Skips;
    hide ArmedSet;
    match a
    case Serve(to) => LatePaidServe(s, to, max);
    case Conn(c, to) => LatePaidConn(s, c, to);
    case Shut(t, to) => LatePaidShut(s, t, to);
  }

  lemma LatePaidServe(s: State, to: ServePc, max: nat)
    requires Tracking(s) && ServeMoves(s, to, max)
    ensures ArmedSet(ServeNext(s, to).conns) == ArmedSet(s.conns)
  {
    hide LockFree;
    if to.Slotted? {
      ArmedPut(s.conns, to.c, Client(Unstarted, false, true));
      assert to.c !in ArmedSet(s.conns);
    } else if s.serve.Spawn? {
      ArmedPut(s.conns, s.serve.c, s.conns[s.serve.c].(pc := Check));
      assert s.serve.c !in ArmedSet(s.conns);
    }
  }

  lemma LatePaidConn(s: State, c: nat, to: ConnPc)
    requires s.flag && ConnCan(s, c, to)
    ensures var s' := ConnNext(s, c, to); s'.served + |ArmedSet(s'.conns)| <= s.served + |ArmedSet(s.conns)|
  {
    hide LockFree;
    ArmedPut(s.conns, c, Moved(s.conns[c], to));
    ArmedIn(s.conns, c);
    hide ArmedSet;
    SizeWith(ArmedSet(s.conns), c);
  }

  lemma LatePaidShut(s: State, t: nat, to: ShutPc)
    ensures ArmedSet(ShutNext(s, t, to).conns) == ArmedSet(s.conns)
  {
  }

  /** From any moment after the flag is up, the commands still dispatched number at most the
      connections that were past their check at that moment. */
  lemma {:induction false} FewLateCommands(run: seq<State>, acts: seq<Action>, max: nat, i: nat, j: nat)
    requires IsRun(run, acts, max) && i <= j < |run| && run[i].flag
    ensures run[j].flag && run[j].served + |ArmedSet(run[j].conns)| <= run[i].served + |ArmedSet(run[i].conns)|
    decreases j
  {
    hide *;
    if i < j {
      RunLength(run, acts, max);
      FewLateCommands(run, acts, max, i, j - 1);
      RunInv(run, acts, max, j - 1);
      InvParts(run[j - 1], max);
      StepOf(run, acts, max, j - 1);
      LateIsPaid(run[j - 1], run[j], acts[j - 1], max);
    }
  }

  // ---- Shutdown ends ----

  /** Connections so far, and one more if an accepted socket is still in the accept loop's hand. */
  function Admitted(s: State): nat
  {
    |s.conns| + if s.serve.Accepted? then 1 else 0
  }

  lemma AdmittedStep(s: State, s': State, a: Action, max: nat)
    requires s.lnClosed && Step(s, s', a, max)
    ensures s'.lnClosed && Admitted(s') <= Admitted(s)
  {
    hide LockFree;
    hide Skips;
    match a
    case Serve(to) =>
      if to.Slotted? {
        SizePut(s.conns, to.c, Client(Unstarted, false, true));
      } else if s.serve.Spawn? {
        SizePut(s.conns, s.serve.c, s.conns[s.serve.c].(pc := Check));
      }
    case Conn(c, to) => SizePut(s.conns, c, Moved(s.conns[c], to));
    case Shut(t, to) =>
      if t in s.shuts && s.shuts[t].Hit? && s.shuts[t].c in s.conns {
        SizePut(s.conns, s.shuts[t].c, s.conns[s.shuts[t].c].(open := false));
      }
  }

  lemma SizePut(conns: map<nat, Client>, c: nat, k: Client)
    ensures |conns[c := k]| == if c in conns then |conns| else |conns| + 1
  {
    assert conns[c := k].Keys == conns.Keys + {c};
    SizeWith(conns.Keys, c);
    assert |conns| == |conns.Keys| && |conns[c := k]| == |conns[c := k].Keys|;
  }

  /** Once the listener is closed, no connection is admitted but one that had been accepted already. */
  lemma {:induction false} NoNewConnections(run: seq<State>, acts: seq<Action>, max: nat, i: nat, j: nat)
    requires IsRun(run, acts, max) && i <= j < |run| && run[i].lnClosed
    ensures run[j].lnClosed && Admitted(run[j]) <= Admitted(run[i])
    decreases j
  {
    hide *;
    if i < j {
      RunLength(run, acts, max);
      NoNewConnections(run, acts, max, i, j - 1);
      StepOf(run, acts, max, j - 1);
      AdmittedStep(run[j - 1], run[j], acts[j - 1], max);
    }
  }

  /** How many steps a connection has left once the flag is up. */
  function Effort(pc: ConnPc): nat
  {
    match pc
    case Unstarted => 5
    case Check => 4
    case SetIdle => 9
    case Reading => 8
    case ReadDone(_) => 7
    case Ready(_) => 6
    case Flush => 5
    case Leaving => 3
    case Dropping => 2
    case Releasing => 1
    case Gone => 0
  }

  function ServeEffort(pc: ServePc): nat
  {
    match pc
    case Start => 2
    case CloseLate => 1
    case Accepting => 1
    case Accepted => 9
    case Slotted(_) => 3
    case Spawn(_) => 2
    case Returned => 0
  }

  ghost function Efforts(conns: map<nat, Client>): nat
    decreases |conns|
  {
    if conns.Keys == {} then 0
    else
      var c :| c in conns.Keys;
      Fewer(conns, c);
      Effort(conns[c].pc) + Efforts(conns - {c})
  }

  lemma EffortsSome(conns: map<nat, Client>) returns (c: nat)
    requires conns.Keys != {}
    ensures c in conns && Efforts(conns) == Effort(conns[c].pc) + Efforts(conns - {c})
  {
    hide Effort;
    c :| c in conns.Keys && Efforts(conns) == Effort(conns[c].pc) + Efforts(conns - {c});
  }

  lemma Swapped(conns: map<nat, Client>, c: nat, d: nat)
    ensures conns - {d} - {c} == conns - {c} - {d}
  {
  }

  lemma {:induction false} EffortsWithout(conns: map<nat, Client>, c: nat)
    requires c in conns
    ensures Efforts(conns) == Effort(conns[c].pc) + Efforts(conns - {c})
    decreases |conns|
  {
    hide Effort;
    hide Efforts;
    var d := EffortsSome(conns);
    if d != c {
      Fewer(conns, d);
      Fewer(conns, c);
      EffortsWithout(conns - {d}, c);
      EffortsWithout(conns - {c}, d);
      Swapped(conns, c, d);
    }
  }

  lemma EffortsPut(conns: map<nat, Client>, c: nat, k: Client)
    ensures Efforts(conns[c := k]) == Efforts(conns) + Effort(k.pc) - if c in conns then Effort(conns[c].pc) else 0
  {
    hide Effort;
    hide Efforts;
    EffortsWithout(conns[c := k], c);
    assert conns[c := k] - {c} == conns - {c};
    if c in conns {
      EffortsWithout(conns, c);
    } else {
      assert conns - {c} == conns;
    }
  }

  lemma {:induction false} EffortsBounded(conns: map<nat, Client>)
    ensures Efforts(conns) <= 9 * |conns|
    decreases |conns|
  {
    if conns.Keys != {} {
      var c := EffortsSome(conns);
      Fewer(conns, c);
      EffortsBounded(conns - {c});
    }
  }

  ghost function WorkLeft(s: State): nat
  {
    ServeEffort(s.serve) + Efforts(s.conns)
  }

  /** With the flag up and the listener closed, every step of the server or a connection uses up
      work, and a Shutdown call adds none. */
  lemma WorkShrinks(s: State, s': State, a: Action, max: nat)
    requires s.flag && s.lnClosed && Tracking(s) && Step(s, s', a, max)
    ensures s'.flag && s'.lnClosed
    ensures WorkLeft(s') + (if a.Shut? then 0 else 1) <= WorkLeft(s)
  {
    hide LockFree;
    hide Skips;
    hide Efforts;
    match a
    case Serve(to) =>
      if to.Slotted? {
        EffortsPut(s.conns, to.c, Client(Unstarted, false, true));
      } else if s.serve.Spawn? {
        EffortsPut(s.conns, s.serve.c, s.conns[s.serve.c].(pc := Check));
      }
    case Conn(c, to) =>
      EffortsPut(s.conns, c, Moved(s.conns[c], to));
    case Shut(t, to) =>
      hide ShutMoves;
      if t in s.shuts && s.shuts[t].Hit? && s.shuts[t].c in s.conns {
        var c := s.shuts[t].c;
        EffortsPut(s.conns, c, s.conns[c].(open := false));
      }
  }

  /** How many of the actions are the server's or a connection's. */
  function Others(acts: seq<Action>): nat
  {
    if acts == [] then 0 else Others(acts[..|acts| - 1]) + if acts[|acts| - 1].Shut? then 0 else 1
  }

  /** After the flag is up and the listener closed, the accept loop and all connections together
      take a bounded number of steps, however the run goes on. */
  lemma {:induction false} BoundedDrain(run: seq<State>, acts: seq<Action>, max: nat, i: nat, j: nat)
    requires IsRun(run, acts, max) && i <= j < |run| && run[i].flag && run[i].lnClosed
    ensures |acts| + 1 == |run| && run[j].flag && run[j].lnClosed
    ensures Others(acts[i..j]) + WorkLeft(run[j]) <= WorkLeft(run[i]) <= 9 * |run[i].conns| + 9
    decreases j
  {
    hide *;
    RunLength(run, acts, max);
    if i == j {
      WorkBounded(run[i]);
      NoOthers(acts[i..i]);
    } else {
      BoundedDrain(run, acts, max, i, j - 1);
      RunInv(run, acts, max, j - 1);
      InvParts(run[j - 1], max);
      StepOf(run, acts, max, j - 1);
      WorkShrinks(run[j - 1], run[j], acts[j - 1], max);
      OthersNext(acts, i, j);
    }
  }

  lemma RunLength(run: seq<State>, acts: seq<Action>, max: nat)
    requires IsRun(run, acts, max)
    ensures |run| == |acts| + 1
  {
  }

  lemma WorkBounded(s: State)
    ensures WorkLeft(s) <= 9 * |s.conns| + 9
  {
    hide Efforts;
    EffortsBounded(s.conns);
  }

  lemma NoOthers(acts: seq<Action>)
    requires |acts| == 0
    ensures Others(acts) == 0
  {
  }

  lemma OthersNext(acts: seq<Action>, i: nat, j: nat)
    requires i < j <= |acts|
    ensures Others(acts[i..j]) == Others(acts[i..j - 1]) + if acts[j - 1].Shut? then 0 else 1
  {
    assert acts[i..j][..j - i - 1] == acts[i..j - 1];
  }

  // ---- Polling ----

  /** Connections a scan has still to look at. */
  function Unseen(pc: ShutPc): set<nat>
  {
    match pc
    case Scan(todo, _) => todo
    case Hit(todo, c, _) => todo + {c}
    case _ => {}
  }

  /** The connection has entered its read among actions `i..k`. */
  ghost predicate Entered(acts: seq<Action>, i: nat, k: nat, c: nat)
    requires k <= |acts|
  {
    exists p :: i <= p < k && acts[p] == Conn(c, Reading)
  }

  ghost predicate CoveredAt(s: State, c: nat, entered: bool)
  {
    c in s.conns && s.conns[c].pc == Reading ==> !s.conns[c].open || entered
  }

  /** Whoever the scan has looked at and is inside a read has a closed socket, or came there since. */
  ghost predicate Covered(s: State, t: nat, acts: seq<Action>, i: nat, k: nat)
    requires t in s.shuts && k <= |acts|
  {
    forall c :: c in s.tracked && c !in Unseen(s.shuts[t]) ==> CoveredAt(s, c, Entered(acts, i, k, c))
  }

  /** Actions `i..j` are one poll by the call `t`, whatever others do meanwhile. */
  ghost predicate IsPoll(run: seq<State>, acts: seq<Action>, i: nat, j: nat, t: nat)
  {
    && i < j < |run| && |run| == |acts| + 1
    && t in run[i].shuts && run[i].shuts[t] == Poll && acts[i].Shut? && acts[i].t == t
    && (forall k :: i < k <= j ==> t in run[k].shuts)
    && (forall k :: i < k < j ==> run[k].shuts[t].Scan? || run[k].shuts[t].Hit?)
    && run[j].shuts[t] == Count
  }

  lemma CoveredStarts(s: State, s': State, t: nat, a: Action, max: nat, acts: seq<Action>, i: nat)
    requires Step(s, s', a, max) && a.Shut? && a.t == t && t in s.shuts && s.shuts[t] == Poll && i + 1 <= |acts|
    ensures t in s'.shuts && Covered(s', t, acts, i, i + 1)
  {
    hide LockFree;
  }

  /** What one step does to one connection that the scan has looked at. */
  lemma CoveredStep(s: State, s': State, t: nat, a: Action, max: nat, c: nat, entered: bool)
    requires Step(s, s', a, max) && t in s.shuts && t in s'.shuts && IdleReaders(s) && Tracking(s)
    requires s.shuts[t].Scan? || s.shuts[t].Hit?
    requires c in s'.tracked && c !in Unseen(s'.shuts[t])
    requires c in s.tracked && c !in Unseen(s.shuts[t]) ==> CoveredAt(s, c, entered)
    ensures CoveredAt(s', c, entered || a == Conn(c, Reading))
  {
    hide LockFree;
    match a
    case Serve(to) =>
    case Conn(d, to) =>
    case Shut(u, to) =>
      if u == t && s.shuts[t].Scan? && !to.Hit? && s.shuts[t].todo != {} {
        var d :| d in s.shuts[t].todo && d in s.conns && s.conns[d].active && to == Scan(s.shuts[t].todo - {d}, false);
      }
  }

  lemma EnteredNext(acts: seq<Action>, i: nat, k: nat, c: nat)
    requires i <= k < |acts|
    ensures Entered(acts, i, k, c) || acts[k] == Conn(c, Reading) ==> Entered(acts, i, k + 1, c)
  {
  }

  lemma {:induction false} PollCovers(run: seq<State>, acts: seq<Action>, max: nat, i: nat, j: nat, t: nat, k: nat)
    requires IsRun(run, acts, max) && IsPoll(run, acts, i, j, t) && i < k <= j
    ensures Covered(run[k], t, acts, i, k)
  {
    hide *;
    PollAt(run, acts, i, j, t, k);
    StepOf(run, acts, max, k - 1);
    if k == i + 1 {
      CoveredStarts(run[i], run[k], t, acts[i], max, acts, i);
    } else {
      PollCovers(run, acts, max, i, j, t, k - 1);
      RunInv(run, acts, max, k - 1);
      CoveredOn(run[k - 1], run[k], t, acts, max, i, k - 1);
    }
  }

  lemma PollAt(run: seq<State>, acts: seq<Action>, i: nat, j: nat, t: nat, k: nat)
    requires IsPoll(run, acts, i, j, t) && i < k <= j
    ensures k < |run| == |acts| + 1 && t in run[k].shuts
    ensures if k == i + 1 then acts[i].Shut? && acts[i].t == t && t in run[i].shuts && run[i].shuts[t] == Poll
            else t in run[k - 1].shuts && (run[k - 1].shuts[t].Scan? || run[k - 1].shuts[t].Hit?)
  {
  }

  lemma CoveredOn(s: State, s': State, t: nat, acts: seq<Action>, max: nat, i: nat, k: nat)
    requires i <= k < |acts| && Step(s, s', acts[k], max) && Inv(s, max) && t in s.shuts && t in s'.shuts
    requires (s.shuts[t].Scan? || s.shuts[t].Hit?) && Covered(s, t, acts, i, k)
    ensures Covered(s', t, acts, i, k + 1)
  {
    InvParts(s, max);
    hide Inv;
    hide Step;
    hide Tracking;
    hide IdleReaders;
    hide CoveredAt;
    hide Entered;
    forall c | c in s'.tracked && c !in Unseen(s'.shuts[t])
      ensures CoveredAt(s', c, Entered(acts, i, k + 1, c))
    {
      CoveredStep(s, s', t, acts[k], max, c, Entered(acts, i, k, c));
      EnteredNext(acts, i, k, c);
      CoveredMore(s', c, Entered(acts, i, k, c) || acts[k] == Conn(c, Reading), Entered(acts, i, k + 1, c));
    }
  }

  lemma CoveredMore(s: State, c: nat, a: bool, b: bool)
    requires CoveredAt(s, c, a) && (a ==> b)
    ensures CoveredAt(s, c, b)
  {
  }

  /** After a poll, whatever others did meanwhile, a connection inside its read on an open socket
      entered that read during the poll; and after the flag no connection enters one twice. */
  lemma PollWakesReaders(run: seq<State>, acts: seq<Action>, max: nat, i: nat, j: nat, t: nat, c: nat)
    requires IsRun(run, acts, max) && IsPoll(run, acts, i, j, t)
    requires c in run[j].tracked && c in run[j].conns && run[j].conns[c].pc == Reading && run[j].conns[c].open
    ensures j <= |acts| && Entered(acts, i, j, c)
  {
    PollCovers(run, acts, max, i, j, t, j);
    hide Entered;
    assert CoveredAt(run[j], c, Entered(acts, i, j, c));
  }

  /** A connection that has entered its read after the flag never enters it again. */
  lemma {:induction false} ReadsOnce(run: seq<State>, acts: seq<Action>, max: nat, p: nat, q: nat, c: nat)
    requires IsRun(run, acts, max) && p < q < |run| && p < |acts| && run[p].flag && acts[p] == Conn(c, Reading)
    ensures |run| == |acts| + 1 && run[q].flag && c in run[q].conns && run[q].conns[c].pc != SetIdle
      && run[q].conns[c].pc != Unstarted
    ensures q < |acts| ==> acts[q] != Conn(c, Reading)
    decreases q
  {
    hide *;
    RunLength(run, acts, max);
    StepOf(run, acts, max, q - 1);
    if p + 1 < q {
      ReadsOnce(run, acts, max, p, q - 1, c);
    }
    RunInv(run, acts, max, q - 1);
    InvParts(run[q - 1], max);
    PastStep(run[q - 1], run[q], acts[q - 1], max, c, p + 1 == q);
    if q < |acts| && acts[q] == Conn(c, Reading) {
      StepOf(run, acts, max, q);
      EntersIdle(run[q], run[q + 1], max, c);
    }
  }

  lemma EntersIdle(s: State, s': State, max: nat, c: nat)
    requires Step(s, s', Conn(c, Reading), max)
    ensures c in s.conns && s.conns[c].pc == SetIdle
  {
  }

  lemma PastStep(s: State, s': State, a: Action, max: nat, c: nat, now: bool)
    requires Step(s, s', a, max) && s.flag && Tracking(s)
    requires if now then a == Conn(c, Reading)
             else c in s.conns && s.conns[c].pc != SetIdle && s.conns[c].pc != Unstarted
    ensures s'.flag && c in s'.conns && s'.conns[c].pc != SetIdle && s'.conns[c].pc != Unstarted
  {
    hide LockFree;
    hide Skips;
  }

  /** The connection can take a step without waiting for its client: its goroutine, or the accept loop
      that is about to start it. */
  ghost predicate Able(s: State, c: nat, max: nat)
  {
    || (exists to :: ConnCan(s, c, to) && (s.conns[c].pc == Reading ==> !s.conns[c].open))
    || (s.serve == Spawn(c) && ServeMoves(s, Accepting, max))
  }

  lemma {:induction false} LockStaysFree(run: seq<State>, acts: seq<Action>, max: nat, i: nat, j: nat, t: nat, k: nat)
    requires IsRun(run, acts, max) && IsPoll(run, acts, i, j, t) && i <= k <= j
    requires forall p :: i <= p < j ==> acts[p].Shut? && acts[p].t == t
    ensures forall u :: u in run[k].shuts && u != t ==> !run[k].shuts[u].Scan? && !run[k].shuts[u].Hit?
    decreases k
  {
    if k == i {
      StepOf(run, acts, max, i);
    } else {
      LockStaysFree(run, acts, max, i, j, t, k - 1);
      StepOf(run, acts, max, k - 1);
      assert run[k].shuts == run[k - 1].shuts[t := run[k].shuts[t]];
    }
  }

  /** After a poll during which nobody else moved, the call ends by draining, or every connection
      still tracked can move without its client. */
  lemma PollThenProgress(run: seq<State>, acts: seq<Action>, max: nat, i: nat, j: nat, t: nat)
    requires IsRun(run, acts, max) && IsPoll(run, acts, i, j, t)
    requires forall p :: i <= p < j ==> acts[p].Shut? && acts[p].t == t
    ensures run[j].tracked == {} ==> ShutMoves(run[j], t, Drained)
    ensures forall c :: c in run[j].tracked ==> Able(run[j], c, max)
  {
    LockStaysFree(run, acts, max, i, j, t, j);
    assert LockFree(run[j]);
    RunInv(run, acts, max, j);
    InvParts(run[j], max);
    forall c | c in run[j].tracked
      ensures Able(run[j], c, max)
    {
      if c in run[j].conns && run[j].conns[c].pc == Reading && run[j].conns[c].open {
        PollWakesReaders(run, acts, max, i, j, t, c);
      }
      hide IsRun;
      hide IsPoll;
      TrackedAble(run[j], c, max);
    }
  }

  lemma TrackedAble(s: State, c: nat, max: nat)
    requires Tracking(s) && LockFree(s) && c in s.tracked
    requires c in s.conns && s.conns[c].pc == Reading ==> !s.conns[c].open
    ensures Able(s, c, max)
  {
    hide LockFree;
    assert c in s.conns;
    assert TrackOk(s.conns[c].pc, c in s.tracked, s.serve, c);
    match s.conns[c].pc
    case Unstarted =>
    case Check => assert ConnCan(s, c, if s.flag then Leaving else SetIdle);
    case SetIdle => assert ConnCan(s, c, Reading);
    case Reading => assert ConnCan(s, c, ReadDone(false));
    case ReadDone(frame) => assert ConnCan(s, c, Ready(frame));
    case Ready(frame) => assert ConnCan(s, c, if frame then Flush else Leaving);
    case Flush => assert ConnCan(s, c, Leaving);
    case Leaving => assert ConnCan(s, c, Dropping);
    case Dropping => assert ConnCan(s, c, Releasing);
    case _ =>
  }
}
