/**
 * handlePacket and forwardUDPReply of internal/dataplane/udp.go over the session table: one goroutine
 * reads client datagrams, and every added session has a reply goroutine that ends at any time.
 */
module UdpServers {
  import opened SessionTables

  /** What the reading goroutine does next. */
  datatype Main =
    | Waiting
    | Known(key: Key, session: Session)     // Send on the session found
    | Missing(key: Key)                     // OpenPacket
    | Dialing(key: Key, session: Session)   // the reply socket
    | Adding(key: Key, session: Session)    // Sessions.add
    | Spawning(key: Key, session: Session)  // go forwardUDPReply
    | Sending(key: Key, session: Session)   // the first Send
    | Removing(key: Key, session: Session)  // Sessions.remove after a failed Send

  /** `ops` are the table's locked operations so far; `failed` the sessions somebody has asked to remove. */
  datatype State = State(
    ops: seq<Op>, dialed: nat, main: Main, receivers: map<Session, Key>, discarded: seq<Session>, failed: set<Session>)

  datatype Action =
    | Packet(key: Key, now: int, later: int)  // a client datagram
    | Step(ok: bool, now: int)                // the reading goroutine, with what the network answers
    | ReplyEnds(session: Session)             // a reply goroutine returns
    | Expiry(now: int)

  const INIT := State([], 0, Waiting, map[], [], {})

  /** The table, which is shared by all goroutines. */
  function TableOf(capacity: int, idle: int, s: State): Table
    requires capacity >= 1
  {
    SessionTables.Run(capacity, idle, s.ops)
  }

  function StepMain(s: State, ok: bool, now: int): State
  {
    match s.main
    case Waiting => s
    case Known(key, session) => s.(main := if ok then Waiting else Removing(key, session))
    case Missing(key) => if ok then s.(dialed := s.dialed + 1, main := Dialing(key, s.dialed)) else s.(main := Waiting)
    case Dialing(key, session) =>
      if ok then s.(main := Adding(key, session)) else s.(main := Waiting, discarded := s.discarded + [session])
    case Adding(key, session) => s.(ops := s.ops + [Add(key, session, now)], main := Spawning(key, session))
    case Spawning(key, session) => s.(receivers := s.receivers[session := key], main := Sending(key, session))
    case Sending(key, session) => s.(main := if ok then Waiting else Removing(key, session))
    case Removing(key, session) =>
      s.(ops := s.ops + [Remove(key, session)], failed := s.failed + {session}, main := Waiting)
  }

  function Next(capacity: int, idle: int, s: State, a: Action): State
    requires capacity >= 1
  {
    match a
    case Packet(key, now, later) =>
      if s.main != Waiting then s
      else
        var found := Got(TableOf(capacity, idle, s), idle, key, now, later).1;
        s.(ops := s.ops + [Get(key, now, later)],
           main := match found case None => Missing(key) case Some(session) => Known(key, session))
    case Step(ok, now) => StepMain(s, ok, now)
    case ReplyEnds(session) =>
      if session !in s.receivers then s
      else s.(ops := s.ops + [Remove(s.receivers[session], session)], receivers := s.receivers - {session},
              failed := s.failed + {session})
    case Expiry(now) => s.(ops := s.ops + [Expire(now)])
  }

  function Run(capacity: int, idle: int, acts: seq<Action>): State
    requires capacity >= 1
  {
    if acts == [] then INIT else Next(capacity, idle, Run(capacity, idle, acts[..|acts| - 1]), acts[|acts| - 1])
  }

  // ----- The invariant -----

  function InHand(main: Main): multiset<Session>
  {
    match main
    case Dialing(_, session) => multiset{session}
    case Adding(_, session) => multiset{session}
    case _ => multiset{}
  }

  /** Where the sessions opened so far are, as far as the table is not concerned. */
  ghost function Accounted(s: State): multiset<Session>
  {
    multiset(Given(s.ops)) + (multiset(s.discarded) + InHand(s.main))
  }

  ghost predicate Registered(ops: seq<Op>, key: Key, session: Session)
  {
    exists i: nat :: AddedAt(ops, i, key, session)
  }

  ghost predicate MainOk(ops: seq<Op>, main: Main)
  {
    match main
    case Known(key, session) => Registered(ops, key, session)
    case Spawning(key, session) => Registered(ops, key, session)
    case Sending(key, session) => Registered(ops, key, session)
    case Removing(key, session) => Registered(ops, key, session)
    case _ => true
  }

  ghost predicate Fresh(s: State)
  {
    forall x: Session :: Accounted(s)[x] == if x < s.dialed then 1 else 0
  }

  ghost predicate Gone(capacity: int, idle: int, ops: seq<Op>, session: Session)
    requires capacity >= 1
  {
    && multiset(Given(ops))[session] == 1
    && forall e :: e in SessionTables.Run(capacity, idle, ops).list ==> e.session != session
  }

  ghost predicate Inv(capacity: int, idle: int, s: State)
    requires capacity >= 1
  {
    && Fresh(s) && MainOk(s.ops, s.main)
    && (forall x :: x in s.receivers ==> Registered(s.ops, s.receivers[x], x))
    && (forall x :: x in s.failed ==> Gone(capacity, idle, s.ops, x))
  }

  lemma {:induction false} GivenAppend(ops: seq<Op>, op: Op)
    ensures Given(ops + [op]) == if op.Add? then Given(ops) + [op.session] else Given(ops)
  {
    assert (ops + [op])[..|ops|] == ops;
  }

  lemma {:induction false} RegisteredAppend(ops: seq<Op>, op: Op, key: Key, session: Session)
    ensures Registered(ops, key, session) ==> Registered(ops + [op], key, session)
    ensures op.Add? && op.key == key && op.session == session ==> Registered(ops + [op], key, session)
  {
    if i: nat :| AddedAt(ops, i, key, session) {
      assert AddedAt(ops + [op], i, key, session);
    }
    if op.Add? && op.key == key && op.session == session {
      assert AddedAt(ops + [op], |ops|, key, session);
    }
  }

  /** A session that has left the table returns only if it is added again. */
  lemma {:induction false} GoneStays(capacity: int, idle: int, ops: seq<Op>, op: Op, session: Session)
    requires capacity >= 1 && Gone(capacity, idle, ops, session) && (op.Add? ==> op.session != session)
    ensures Gone(capacity, idle, ops + [op], session)
  {
    hide SessionTables.Run, Apply, Given;
    GivenAppend(ops, op);
    LastOp(capacity, idle, ops + [op]);
    assert (ops + [op])[..|ops|] == ops;
    forall e | e in SessionTables.Run(capacity, idle, ops + [op]).list ensures e.session != session {
      ApplyOrigin(SessionTables.Run(capacity, idle, ops), capacity, idle, op, e);
    }
  }

  /** Asked to remove a session under its key, the table drops it, whatever is under that key by now. */
  lemma {:induction false} RemoveDrops(capacity: int, idle: int, ops: seq<Op>, key: Key, session: Session)
    requires capacity >= 1 && Registered(ops, key, session) && multiset(Given(ops))[session] == 1
    ensures Gone(capacity, idle, ops + [Remove(key, session)], session)
  {
    hide SessionTables.Run, Given, Find, Without;
    var t := SessionTables.Run(capacity, idle, ops);
    var all := ops + [Remove(key, session)];
    GivenAppend(ops, Remove(key, session));
    LastOp(capacity, idle, all);
    assert all[..|ops|] == ops;
    var i: nat :| AddedAt(ops, i, key, session);
    FreshSessionFate(capacity, idle, ops, i, key, session);
    FindElement(t.list, key);
    WithoutElements(t.list, key);
    RunConserves(capacity, idle, ops);
    forall e, x | e in t.list && x in t.list && e.key == x.key ensures e == x {
    }
  }

  lemma {:induction false} FoundWasAdded(capacity: int, idle: int, ops: seq<Op>, key: Key, now: int, later: int)
    requires capacity >= 1
    ensures var found := Got(SessionTables.Run(capacity, idle, ops), idle, key, now, later).1;
            found.Some? ==> Registered(ops, key, found.value)
  {
    hide SessionTables.Run, Find, Keep, Idle, Without;
    var t := SessionTables.Run(capacity, idle, ops);
    KeepElements(t.list, idle, now);
    FindElement(Keep(t.list, idle, now), key);
    match Find(Keep(t.list, idle, now), key) {
      case None =>
      case Some(e) => var i := EntriesWereAdded(capacity, idle, ops, e);
    }
  }

  /** What one more table operation, other than add, keeps of everything but `main`. */
  lemma {:induction false} OpKeeps(capacity: int, idle: int, s: State, op: Op)
    requires capacity >= 1 && Inv(capacity, idle, s) && !op.Add?
    ensures Given(s.ops + [op]) == Given(s.ops)
    ensures forall x :: x in s.receivers ==> Registered(s.ops + [op], s.receivers[x], x)
    ensures forall x :: x in s.failed ==> Gone(capacity, idle, s.ops + [op], x)
    ensures MainOk(s.ops + [op], s.main)
  {
    hide Given, Gone, Registered;
    GivenAppend(s.ops, op);
    forall key, session ensures Registered(s.ops, key, session) ==> Registered(s.ops + [op], key, session) {
      RegisteredAppend(s.ops, op, key, session);
    }
    forall x | x in s.failed ensures Gone(capacity, idle, s.ops + [op], x) {
      GoneStays(capacity, idle, s.ops, op, x);
    }
  }

  lemma {:induction false} GivenFresh(s: State, key: Key, session: Session)
    requires Fresh(s) && Registered(s.ops, key, session)
    ensures multiset(Given(s.ops))[session] == 1
  {
    hide Given;
    var i: nat :| AddedAt(s.ops, i, key, session);
    GivenCounts(s.ops, i, key, session);
    assert Accounted(s)[session] >= 1;
  }

  lemma {:induction false} PacketKeeps(capacity: int, idle: int, s: State, key: Key, now: int, later: int)
    requires capacity >= 1 && Inv(capacity, idle, s)
    ensures Inv(capacity, idle, Next(capacity, idle, s, Packet(key, now, later)))
  {
    hide SessionTables.Run, Given, Gone, Got, Registered, Fresh;
    OpKeeps(capacity, idle, s, Get(key, now, later));
    FoundWasAdded(capacity, idle, s.ops, key, now, later);
    var found := Got(TableOf(capacity, idle, s), idle, key, now, later).1;
    if found.Some? {
      RegisteredAppend(s.ops, Get(key, now, later), key, found.value);
    }
    if s.main == Waiting {
      FreshSame(s, Next(capacity, idle, s, Packet(key, now, later)));
    }
  }

  lemma {:induction false} RemovalKeeps(capacity: int, idle: int, s: State, key: Key, session: Session, s': State)
    requires capacity >= 1 && Inv(capacity, idle, s) && Registered(s.ops, key, session)
    requires s'.ops == s.ops + [Remove(key, session)] && s'.failed == s.failed + {session} && s'.dialed == s.dialed
    requires s'.discarded == s.discarded && InHand(s'.main) == InHand(s.main) && (s'.main == s.main || s'.main == Waiting)
    requires forall x :: x in s'.receivers ==> x in s.receivers && s'.receivers[x] == s.receivers[x]
    ensures Inv(capacity, idle, s')
  {
    hide Given, Gone, Registered, SessionTables.Run;
    OpKeeps(capacity, idle, s, Remove(key, session));
    GivenFresh(s, key, session);
    RemoveDrops(capacity, idle, s.ops, key, session);
    assert Accounted(s') == Accounted(s);
  }

  lemma {:induction false} AddingKeeps(capacity: int, idle: int, s: State, now: int)
    requires capacity >= 1 && Inv(capacity, idle, s) && s.main.Adding?
    ensures Inv(capacity, idle, StepMain(s, true, now)) && StepMain(s, false, now) == StepMain(s, true, now)
  {
    hide Given, Gone, Registered, SessionTables.Run;
    var key, session := s.main.key, s.main.session;
    var op := Add(key, session, now);
    GivenAppend(s.ops, op);
    RegisteredAppend(s.ops, op, key, session);
    forall x | x in s.receivers ensures Registered(s.ops + [op], s.receivers[x], x) {
      RegisteredAppend(s.ops, op, s.receivers[x], x);
    }
    forall x | x in s.failed ensures Gone(capacity, idle, s.ops + [op], x) {
      GoneCounts(capacity, idle, s.ops, x);
      assert Accounted(s)[session] == 1 && InHand(s.main)[session] == 1;
      GoneStays(capacity, idle, s.ops, op, x);
    }
    assert Accounted(StepMain(s, true, now)) == Accounted(s);
  }

  lemma {:induction false} GoneCounts(capacity: int, idle: int, ops: seq<Op>, session: Session)
    requires capacity >= 1 && Gone(capacity, idle, ops, session)
    ensures multiset(Given(ops))[session] == 1
  {
  }

  lemma {:induction false} OtherStepsKeep(capacity: int, idle: int, s: State, ok: bool, now: int)
    requires capacity >= 1 && Inv(capacity, idle, s) && !s.main.Adding? && !s.main.Removing?
    ensures Inv(capacity, idle, StepMain(s, ok, now))
  {
    hide Given, Gone, Registered, SessionTables.Run, Fresh;
    FreshStep(s, ok, now);
    OtherStepOps(s, ok, now);
  }

  lemma {:induction false} OtherStepOps(s: State, ok: bool, now: int)
    requires !s.main.Adding? && !s.main.Removing? && MainOk(s.ops, s.main)
    ensures var s' := StepMain(s, ok, now);
            && s'.ops == s.ops && s'.failed == s.failed && MainOk(s'.ops, s'.main)
            && s'.receivers == if s.main.Spawning? then s.receivers[s.main.session := s.main.key] else s.receivers
  {
    hide Registered;
  }

  lemma {:induction false} FreshStep(s: State, ok: bool, now: int)
    requires Fresh(s) && !s.main.Adding? && !s.main.Removing?
    ensures Fresh(StepMain(s, ok, now))
  {
    hide Given, Fresh;
    match s.main {
      case Missing(key) => FreshDialed(s, key);
      case Dialing(_, session) => FreshDiscarded(s);
      case _ =>
    }
    if InHand(StepMain(s, ok, now).main) == InHand(s.main) {
      FreshSame(s, StepMain(s, ok, now));
    }
  }

  lemma {:induction false} FreshSame(s: State, s': State)
    requires Fresh(s) && s'.dialed == s.dialed && Given(s'.ops) == Given(s.ops)
    requires s'.discarded == s.discarded && InHand(s'.main) == InHand(s.main)
    ensures Fresh(s')
  {
    hide Given;
    assert Accounted(s') == Accounted(s);
  }

  lemma {:induction false} FreshDiscarded(s: State)
    requires Fresh(s) && s.main.Dialing?
    ensures Fresh(s.(main := Waiting, discarded := s.discarded + [s.main.session]))
  {
    hide Given;
    assert Accounted(s.(main := Waiting, discarded := s.discarded + [s.main.session])) == Accounted(s);
  }

  lemma {:induction false} FreshDialed(s: State, key: Key)
    requires Fresh(s) && s.main.Missing?
    ensures Fresh(s.(dialed := s.dialed + 1, main := Dialing(key, s.dialed)))
  {
    hide Given;
    assert Accounted(s.(dialed := s.dialed + 1, main := Dialing(key, s.dialed))) == Accounted(s) + multiset{s.dialed};
  }

  lemma {:induction false} InvNext(capacity: int, idle: int, s: State, a: Action)
    requires capacity >= 1 && Inv(capacity, idle, s)
    ensures Inv(capacity, idle, Next(capacity, idle, s, a))
  {
    hide Given, Gone, Registered, SessionTables.Run, Fresh;
    match a {
      case Packet(key, now, later) => PacketKeeps(capacity, idle, s, key, now, later);
      case Step(ok, now) =>
        match s.main {
          case Adding(_, _) => AddingKeeps(capacity, idle, s, now);
          case Removing(key, session) => RemovalKeeps(capacity, idle, s, key, session, StepMain(s, ok, now));
          case _ => OtherStepsKeep(capacity, idle, s, ok, now);
        }
      case ReplyEnds(session) =>
        if session in s.receivers {
          RemovalKeeps(capacity, idle, s, s.receivers[session], session, Next(capacity, idle, s, a));
        }
      case Expiry(now) => ExpiryKeeps(capacity, idle, s, now);
    }
  }

  lemma {:induction false} ExpiryKeeps(capacity: int, idle: int, s: State, now: int)
    requires capacity >= 1 && Inv(capacity, idle, s)
    ensures Inv(capacity, idle, s.(ops := s.ops + [Expire(now)]))
  {
    hide Given, Gone, Registered, SessionTables.Run;
    OpKeeps(capacity, idle, s, Expire(now));
    assert Accounted(s.(ops := s.ops + [Expire(now)])) == Accounted(s);
  }

  lemma {:induction false} RunInv(capacity: int, idle: int, acts: seq<Action>)
    requires capacity >= 1
    ensures Inv(capacity, idle, Run(capacity, idle, acts))
  {
    hide Inv;
    if acts == [] {
      InvInit(capacity, idle);
    } else {
      RunInv(capacity, idle, acts[..|acts| - 1]);
      InvNext(capacity, idle, Run(capacity, idle, acts[..|acts| - 1]), acts[|acts| - 1]);
    }
  }

  lemma {:induction false} InvInit(capacity: int, idle: int)
    requires capacity >= 1
    ensures Inv(capacity, idle, INIT)
  {
  }

  // ----- What holds in every interleaving -----

  /** An opened session is in hand, discarded, live in the table or closed by it: exactly one of these, exactly once. */
  lemma {:induction false} NoSessionIsLost(capacity: int, idle: int, acts: seq<Action>, session: Session)
    requires capacity >= 1
    ensures var s := Run(capacity, idle, acts);
            var t := TableOf(capacity, idle, s);
            InHand(s.main)[session] + multiset(s.discarded)[session] + multiset(Sessions(t.list))[session] +
            multiset(t.closed)[session] == if session < s.dialed then 1 else 0
  {
    hide Run, SessionTables.Run, Given;
    RunInv(capacity, idle, acts);
    RunConserves(capacity, idle, Run(capacity, idle, acts).ops);
    assert Accounted(Run(capacity, idle, acts))[session] == if session < Run(capacity, idle, acts).dialed then 1 else 0;
  }

  /** A session whose Send failed or whose reply goroutine ended has been closed, once, and is never live again. */
  lemma {:induction false} FailedSessionIsClosed(capacity: int, idle: int, acts: seq<Action>, session: Session)
    requires capacity >= 1 && session in Run(capacity, idle, acts).failed
    ensures var t := TableOf(capacity, idle, Run(capacity, idle, acts));
            multiset(t.closed)[session] == 1 && forall e :: e in t.list ==> e.session != session
  {
    hide Run, SessionTables.Run, Given;
    var s := Run(capacity, idle, acts);
    RunInv(capacity, idle, acts);
    RunConserves(capacity, idle, s.ops);
    assert Gone(capacity, idle, s.ops, session);
    NotHeld(TableOf(capacity, idle, s).list, session);
  }

  lemma {:induction false} NotHeld(list: seq<Entry>, session: Session)
    requires forall e :: e in list ==> e.session != session
    ensures multiset(Sessions(list))[session] == 0
  {
    if list == [] {
    } else {
      NotHeld(list[1..], session);
      SessionsCons(list[0], list[1..], list);
    }
  }

  /** A reply goroutine that ends takes no other session with it, whatever has replaced its own. */
  lemma {:induction false} ReplyEndsAlone(capacity: int, idle: int, acts: seq<Action>, session: Session, e: Entry)
    requires capacity >= 1
    requires e in TableOf(capacity, idle, Run(capacity, idle, acts)).list && e.session != session
    ensures e in TableOf(capacity, idle, Run(capacity, idle, acts + [ReplyEnds(session)])).list
  {
    hide SessionTables.Run, Find, Without, UniqueKeys;
    var s := Run(capacity, idle, acts);
    assert (acts + [ReplyEnds(session)])[..|acts|] == acts;
    if session in s.receivers {
      var op := Remove(s.receivers[session], session);
      LastOp(capacity, idle, s.ops + [op]);
      assert (s.ops + [op])[..|s.ops|] == s.ops;
      RunConserves(capacity, idle, s.ops);
      StaleRemoveIsHarmless(TableOf(capacity, idle, s), capacity, op.key, session);
    }
  }
}
