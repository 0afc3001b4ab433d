/** sessionTable of internal/dataplane/session_table.go. */
module SessionTables {
  import opened Basics
  import opened Bytes

  type Key = nat      // source and target address
  type Session = nat  // identity of a packet session

  datatype Entry = Entry(key: Key, session: Session, last: int)

  // ----- Reference: a list of entries, least recently used first, and the sessions closed so far -----

  datatype Table = Table(list: seq<Entry>, closed: seq<Session>)

  function Keep(list: seq<Entry>, idle: int, now: int): seq<Entry>
  {
    if list == [] then []
    else if list[0].last + idle > now then [list[0]] + Keep(list[1..], idle, now)
    else Keep(list[1..], idle, now)
  }

  /** The sessions of the entries that have been idle too long, in list order. */
  function Idle(list: seq<Entry>, idle: int, now: int): seq<Session>
  {
    if list == [] then []
    else if list[0].last + idle > now then Idle(list[1..], idle, now)
    else [list[0].session] + Idle(list[1..], idle, now)
  }

  function Find(list: seq<Entry>, key: Key): Option<Entry>
  {
    if list == [] then None else if list[0].key == key then Some(list[0]) else Find(list[1..], key)
  }

  function Without(list: seq<Entry>, key: Key): seq<Entry>
  {
    if list == [] then []
    else if list[0].key == key then Without(list[1..], key)
    else [list[0]] + Without(list[1..], key)
  }

  function Sessions(list: seq<Entry>): seq<Session>
  {
    if list == [] then [] else [list[0].session] + Sessions(list[1..])
  }

  function Expired(t: Table, idle: int, now: int): Table
  {
    Table(Keep(t.list, idle, now), t.closed + Idle(t.list, idle, now))
  }

  function Got(t: Table, idle: int, key: Key, now: int, later: int): (Table, Option<Session>)
  {
    var t1 := Expired(t, idle, now);
    match Find(t1.list, key)
    case None => (t1, None)
    case Some(e) => (t1.(list := Without(t1.list, key) + [e.(last := later)]), Some(e.session))
  }

  function Removed(t: Table, key: Key): Table
  {
    match Find(t.list, key)
    case None => t
    case Some(e) => Table(Without(t.list, key), t.closed + [e.session])
  }

  function Evicted(t: Table, capacity: int): Table
    requires capacity >= 1
  {
    if |t.list| < capacity then t
    else
      var n := |t.list| - capacity + 1;
      Table(t.list[n..], t.closed + Sessions(t.list[..n]))
  }

  function Added(t: Table, capacity: int, idle: int, key: Key, session: Session, now: int): Table
    requires capacity >= 1
  {
    var t1 := Evicted(Removed(Expired(t, idle, now), key), capacity);
    t1.(list := t1.list + [Entry(key, session, now)])
  }

  /** Only the failed generation goes: a replacement under the same key stays. */
  function RemovedIf(t: Table, key: Key, expected: Session): Table
  {
    match Find(t.list, key)
    case None => t
    case Some(e) => if e.session == expected then Removed(t, key) else t
  }

  // ----- Conservation -----

  ghost function Held(t: Table): multiset<Session>
  {
    multiset(Sessions(t.list)) + multiset(t.closed)
  }

  ghost predicate UniqueKeys(list: seq<Entry>)
  {
    forall i, j :: 0 <= i < j < |list| ==> list[i].key != list[j].key
  }

  /** Ordered by last use. */
  ghost predicate Sorted(list: seq<Entry>)
  {
    forall i, j :: 0 <= i < j < |list| ==> list[i].last <= list[j].last
  }

  lemma {:induction false} Tail(list: seq<Entry>)
    requires list != []
    ensures forall e :: e in list <==> e == list[0] || e in list[1..]
    ensures UniqueKeys(list) ==> UniqueKeys(list[1..]) && forall e :: e in list[1..] ==> e.key != list[0].key
    ensures Sorted(list) ==> Sorted(list[1..]) && forall e :: e in list[1..] ==> list[0].last <= e.last
  {
  }

  lemma {:induction false} EmptyList()
    ensures UniqueKeys([]) && Sorted([])
  {
  }

  lemma {:induction false} Cons(e: Entry, list: seq<Entry>)
    ensures UniqueKeys(list) && (forall x :: x in list ==> x.key != e.key) ==> UniqueKeys([e] + list)
    ensures Sorted(list) && (forall x :: x in list ==> e.last <= x.last) ==> Sorted([e] + list)
  {
  }

  lemma {:induction false} KeepElements(list: seq<Entry>, idle: int, now: int)
    ensures forall e :: e in Keep(list, idle, now) <==> e in list && e.last + idle > now
    ensures |Keep(list, idle, now)| <= |list|
    ensures UniqueKeys(list) ==> UniqueKeys(Keep(list, idle, now))
    ensures Sorted(list) ==> Sorted(Keep(list, idle, now))
  {
    hide UniqueKeys, Sorted;
    if list == [] {
      EmptyList();
    } else {
      var rest := Keep(list[1..], idle, now);
      KeepElements(list[1..], idle, now);
      Tail(list);
      Cons(list[0], rest);
    }
  }

  lemma {:induction false} KeepSplits(list: seq<Entry>, idle: int, now: int)
    ensures multiset(Sessions(list)) == multiset(Sessions(Keep(list, idle, now))) + multiset(Idle(list, idle, now))
  {
    if list == [] {
    } else {
      KeepSplits(list[1..], idle, now);
    }
  }

  lemma {:induction false} FindElement(list: seq<Entry>, key: Key)
    ensures match Find(list, key)
            case None => forall e :: e in list ==> e.key != key
            case Some(e) => e in list && e.key == key
  {
    if list == [] {
    } else {
      FindElement(list[1..], key);
      assert forall e :: e in list <==> e == list[0] || e in list[1..];
    }
  }

  lemma {:induction false} WithoutAbsent(list: seq<Entry>, key: Key)
    requires forall e :: e in list ==> e.key != key
    ensures Without(list, key) == list
  {
    if list == [] {
    } else {
      assert list[0] in list && forall e :: e in list[1..] ==> e in list;
      WithoutAbsent(list[1..], key);
    }
  }

  lemma {:induction false} WithoutElements(list: seq<Entry>, key: Key)
    ensures forall e :: e in Without(list, key) <==> e in list && e.key != key
    ensures |Without(list, key)| <= |list|
    ensures UniqueKeys(list) ==> UniqueKeys(Without(list, key))
    ensures Sorted(list) ==> Sorted(Without(list, key))
    ensures Find(list, key).Some? ==> |Without(list, key)| < |list|
  {
    hide UniqueKeys, Sorted;
    if list == [] {
      EmptyList();
    } else {
      var rest := Without(list[1..], key);
      WithoutElements(list[1..], key);
      Tail(list);
      Cons(list[0], rest);
    }
  }

  lemma {:induction false} WithoutSplits(list: seq<Entry>, key: Key)
    requires UniqueKeys(list)
    ensures Find(list, key) == None ==> Without(list, key) == list
    ensures Find(list, key).Some? ==>
              multiset(Sessions(list)) == multiset(Sessions(Without(list, key))) + multiset{Find(list, key).value.session}
  {
    hide UniqueKeys, Sorted;
    if list == [] {
    } else {
      Tail(list);
      var tail, rest := list[1..], Without(list[1..], key);
      SessionsCons(list[0], tail, list);
      if list[0].key == key {
        WithoutAbsent(tail, key);
      } else {
        WithoutSplits(tail, key);
        SessionsCons(list[0], rest, Without(list, key));
      }
    }
  }

  lemma {:induction false} SessionsCons(e: Entry, tail: seq<Entry>, list: seq<Entry>)
    requires list == [e] + tail
    ensures multiset(Sessions(list)) == multiset(Sessions(tail)) + multiset{e.session}
  {
  }

  lemma {:induction false} SessionsConcat(a: seq<Entry>, b: seq<Entry>)
    ensures Sessions(a + b) == Sessions(a) + Sessions(b)
  {
    if a == [] {
      assert a + b == b;
    } else {
      assert (a + b)[1..] == a[1..] + b;
      SessionsConcat(a[1..], b);
    }
  }

  lemma {:induction false} UniqueAppend(list: seq<Entry>, e: Entry)
    requires UniqueKeys(list) && forall x :: x in list ==> x.key != e.key
    ensures UniqueKeys(list + [e])
  {
  }

  ghost predicate Ok(t: Table, capacity: int)
  {
    UniqueKeys(t.list) && |t.list| <= capacity
  }

  lemma {:induction false} ExpiredConserves(t: Table, idle: int, now: int, capacity: int)
    requires Ok(t, capacity)
    ensures Ok(Expired(t, idle, now), capacity) && Held(Expired(t, idle, now)) == Held(t)
    ensures forall e :: e in Expired(t, idle, now).list <==> e in t.list && e.last + idle > now
  {
    KeepElements(t.list, idle, now);
    KeepSplits(t.list, idle, now);
  }

  lemma {:induction false} RemovedConserves(t: Table, key: Key, capacity: int)
    requires Ok(t, capacity)
    ensures Ok(Removed(t, key), capacity) && Held(Removed(t, key)) == Held(t)
    ensures forall e :: e in Removed(t, key).list <==> e in t.list && e.key != key
  {
    WithoutElements(t.list, key);
    WithoutSplits(t.list, key);
    FindElement(t.list, key);
  }

  lemma {:induction false} EvictedConserves(t: Table, capacity: int)
    requires capacity >= 1 && Ok(t, capacity)
    ensures Ok(Evicted(t, capacity), capacity - 1) && Held(Evicted(t, capacity)) == Held(t)
    ensures IsSuffix(t.list, Evicted(t, capacity).list)
  {
    if |t.list| >= capacity {
      var n := |t.list| - capacity + 1;
      SessionsConcat(t.list[..n], t.list[n..]);
      assert t.list == t.list[..n] + t.list[n..];
    }
  }

  /** Moving an entry to the back changes no session. */
  lemma {:induction false} MoveConserves(list: seq<Entry>, key: Key, e: Entry, moved: Entry)
    requires UniqueKeys(list) && Find(list, key) == Some(e) && moved.key == key && moved.session == e.session
    ensures var list' := Without(list, key) + [moved];
            UniqueKeys(list') && |list'| <= |list| && multiset(Sessions(list')) == multiset(Sessions(list))
  {
    hide UniqueKeys;
    WithoutElements(list, key);
    WithoutSplits(list, key);
    UniqueAppend(Without(list, key), moved);
    SessionsConcat(Without(list, key), [moved]);
  }

  lemma {:induction false} GotConserves(t: Table, idle: int, key: Key, now: int, later: int, capacity: int)
    requires Ok(t, capacity)
    ensures Ok(Got(t, idle, key, now, later).0, capacity) && Held(Got(t, idle, key, now, later).0) == Held(t)
  {
    hide UniqueKeys, Expired, Find, Without, Sessions;
    ExpiredConserves(t, idle, now, capacity);
    var t1 := Expired(t, idle, now);
    FindElement(t1.list, key);
    match Find(t1.list, key) {
      case None =>
      case Some(e) => MoveConserves(t1.list, key, e, e.(last := later));
    }
  }

  lemma {:induction false} AddedConserves(t: Table, capacity: int, idle: int, key: Key, session: Session, now: int)
    requires capacity >= 1 && Ok(t, capacity)
    ensures Ok(Added(t, capacity, idle, key, session, now), capacity)
    ensures Held(Added(t, capacity, idle, key, session, now)) == Held(t) + multiset{session}
  {
    ExpiredConserves(t, idle, now, capacity);
    var t1 := Expired(t, idle, now);
    RemovedConserves(t1, key, capacity);
    var t2 := Removed(t1, key);
    EvictedConserves(t2, capacity);
    var t3 := Evicted(t2, capacity);
    forall x | x in t3.list ensures x.key != key {
      assert x in t2.list;
    }
    UniqueAppend(t3.list, Entry(key, session, now));
    SessionsConcat(t3.list, [Entry(key, session, now)]);
  }

  // ----- Whole runs -----

  /** The four locked operations; every interleaving of the dataplane's goroutines is a sequence of them. */
  datatype Op =
    | Get(key: Key, now: int, later: int)   // the clock is read twice
    | Add(key: Key, session: Session, now: int)
    | Expire(now: int)
    | Remove(key: Key, expected: Session)

  function Apply(t: Table, capacity: int, idle: int, op: Op): Table
    requires capacity >= 1
  {
    match op
    case Get(key, now, later) => Got(t, idle, key, now, later).0
    case Add(key, session, now) => Added(t, capacity, idle, key, session, now)
    case Expire(now) => Expired(t, idle, now)
    case Remove(key, expected) => RemovedIf(t, key, expected)
  }

  function Run(capacity: int, idle: int, ops: seq<Op>): Table
    requires capacity >= 1
  {
    if ops == [] then Table([], []) else Apply(Run(capacity, idle, ops[..|ops| - 1]), capacity, idle, ops[|ops| - 1])
  }

  lemma {:induction false} LastOp(capacity: int, idle: int, ops: seq<Op>)
    requires capacity >= 1 && (ops != [] || Run(capacity, idle, ops).list != [])
    ensures ops != [] && Run(capacity, idle, ops) == Apply(Run(capacity, idle, ops[..|ops| - 1]), capacity, idle, ops[|ops| - 1])
  {
  }

  /** The sessions handed to add, in order. */
  function Given(ops: seq<Op>): seq<Session>
  {
    if ops == [] then []
    else
      var init, last := Given(ops[..|ops| - 1]), ops[|ops| - 1];
      if last.Add? then init + [last.session] else init
  }

  /** Never over capacity, one entry a key, and every session ever added is live or closed, counted exactly. */
  lemma {:induction false} RunConserves(capacity: int, idle: int, ops: seq<Op>)
    requires capacity >= 1
    ensures Ok(Run(capacity, idle, ops), capacity)
    ensures Held(Run(capacity, idle, ops)) == multiset(Given(ops))
  {
    hide Held, Ok, Expired, Got, Added, Removed;
    if ops == [] {
      EmptyTable(capacity);
    } else {
      var t := Run(capacity, idle, ops[..|ops| - 1]);
      RunConserves(capacity, idle, ops[..|ops| - 1]);
      match ops[|ops| - 1] {
        case Get(key, now, later) => GotConserves(t, idle, key, now, later, capacity);
        case Add(key, session, now) => AddedConserves(t, capacity, idle, key, session, now);
        case Expire(now) => ExpiredConserves(t, idle, now, capacity);
        case Remove(key, expected) => RemovedConserves(t, key, capacity);
      }
    }
  }

  lemma {:induction false} EmptyTable(capacity: int)
    requires capacity >= 1
    ensures Ok(Table([], []), capacity) && Held(Table([], [])) == multiset{}
  {
  }

  /** Operation `i` added `session` under `key`. */
  ghost predicate AddedAt(ops: seq<Op>, i: nat, key: Key, session: Session)
  {
    i < |ops| && ops[i].Add? && ops[i].key == key && ops[i].session == session
  }

  /** Where an entry comes from: it was there with another time, or this operation added it. */
  lemma {:induction false} ApplyOrigin(t: Table, capacity: int, idle: int, op: Op, e: Entry)
    requires capacity >= 1 && e in Apply(t, capacity, idle, op).list
    ensures (op.Add? && e.key == op.key && e.session == op.session) || exists x :: x in t.list && x.key == e.key && x.session == e.session
  {
    hide Keep, Idle, Without, Find, Sessions, Evicted;
    match op {
      case Get(key, now, later) =>
        KeepElements(t.list, idle, now);
        FindElement(Keep(t.list, idle, now), key);
        WithoutElements(Keep(t.list, idle, now), key);
      case Add(key, session, now) =>
        KeepElements(t.list, idle, now);
        WithoutElements(Keep(t.list, idle, now), key);
        EvictedOrigin(Removed(Expired(t, idle, now), key), capacity);
      case Expire(now) => KeepElements(t.list, idle, now);
      case Remove(key, expected) => WithoutElements(t.list, key);
    }
  }

  lemma {:induction false} EvictedOrigin(t: Table, capacity: int)
    requires capacity >= 1
    ensures forall e :: e in Evicted(t, capacity).list ==> e in t.list
  {
  }

  /** Every live entry holds a session under the key that session was added with. */
  lemma {:induction false} EntriesWereAdded(capacity: int, idle: int, ops: seq<Op>, e: Entry) returns (i: nat)
    requires capacity >= 1 && e in Run(capacity, idle, ops).list
    ensures AddedAt(ops, i, e.key, e.session)
  {
    LastOp(capacity, idle, ops);
    hide Run, Apply;
    var init, op := ops[..|ops| - 1], ops[|ops| - 1];
    ApplyOrigin(Run(capacity, idle, init), capacity, idle, op, e);
    if op.Add? && e.key == op.key && e.session == op.session {
      i := |init|;
    } else {
      var x :| x in Run(capacity, idle, init).list && x.key == e.key && x.session == e.session;
      i := EntriesWereAdded(capacity, idle, init, x);
    }
  }

  lemma {:induction false} GivenCounts(ops: seq<Op>, i: nat, key: Key, session: Session)
    requires AddedAt(ops, i, key, session)
    ensures multiset(Given(ops))[session] >= 1
  {
    if i == |ops| - 1 {
    } else {
      GivenCounts(ops[..|ops| - 1], i, key, session);
    }
  }

  lemma {:induction false} AddedOnce(ops: seq<Op>, session: Session, i: nat, key: Key, j: nat, key': Key)
    requires multiset(Given(ops))[session] == 1 && AddedAt(ops, i, key, session) && AddedAt(ops, j, key', session)
    ensures i == j
  {
    var init := ops[..|ops| - 1];
    if i < |init| && j < |init| {
      GivenCounts(init, i, key, session);
      AddedOnce(init, session, i, key, j, key');
    } else if i < |init| {
      GivenCounts(init, i, key, session);
    } else if j < |init| {
      GivenCounts(init, j, key', session);
    }
  }

  /** A session added once is, ever after, either live, in one entry under the key it was added with, or closed exactly once. */
  lemma {:induction false} FreshSessionFate(capacity: int, idle: int, ops: seq<Op>, i: nat, key: Key, session: Session)
    requires capacity >= 1 && AddedAt(ops, i, key, session) && multiset(Given(ops))[session] == 1
    ensures var t := Run(capacity, idle, ops);
            && multiset(Sessions(t.list))[session] + multiset(t.closed)[session] == 1
            && forall e :: e in t.list && e.session == session ==> e.key == key
  {
    RunConserves(capacity, idle, ops);
    forall e | e in Run(capacity, idle, ops).list && e.session == session ensures e.key == key {
      var j := EntriesWereAdded(capacity, idle, ops, e);
      AddedOnce(ops, session, i, key, j, e.key);
    }
  }

  /** A receiver of an old session that fails leaves a replacement alone. */
  lemma {:induction false} StaleRemoveIsHarmless(t: Table, capacity: int, key: Key, stale: Session)
    requires Ok(t, capacity)
    ensures forall e :: e in t.list && (e.key != key || e.session != stale) ==> e in RemovedIf(t, key, stale).list
    ensures (forall e :: e in t.list && e.key == key ==> e.session != stale) ==> RemovedIf(t, key, stale) == t
  {
    FindElement(t.list, key);
    WithoutElements(t.list, key);
    forall e, x | e in t.list && x in t.list && e.key == x.key ensures e == x {
    }
  }

  // ----- With a clock that never goes back -----

  function TimeOf(op: Op, before: int): int
  {
    match op
    case Get(_, _, later) => later
    case Add(_, _, now) => now
    case Expire(now) => now
    case Remove(_, _) => before
  }

  /** The last clock reading of a run, or `start`. */
  function Clock(ops: seq<Op>, start: int): int
  {
    if ops == [] then start else TimeOf(ops[|ops| - 1], Clock(ops[..|ops| - 1], start))
  }

  ghost predicate Monotone(ops: seq<Op>, start: int)
  {
    ops == [] ||
    (Monotone(ops[..|ops| - 1], start) &&
     var before, op := Clock(ops[..|ops| - 1], start), ops[|ops| - 1];
     match op
     case Get(_, now, later) => before <= now <= later
     case Add(_, _, now) => before <= now
     case Expire(now) => before <= now
     case Remove(_, _) => true)
  }

  ghost predicate UsedBy(list: seq<Entry>, time: int)
  {
    Sorted(list) && forall e :: e in list ==> e.last <= time
  }

  lemma {:induction false} UsedAppend(list: seq<Entry>, e: Entry)
    requires UsedBy(list, e.last)
    ensures UsedBy(list + [e], e.last)
  {
  }

  /** The list stays sorted by last use. */
  lemma {:induction false} RunSorted(capacity: int, idle: int, ops: seq<Op>, start: int)
    requires capacity >= 1 && Monotone(ops, start)
    ensures UsedBy(Run(capacity, idle, ops).list, Clock(ops, start))
  {
    if ops == [] {
    } else {
      hide Run;
      var init, op := ops[..|ops| - 1], ops[|ops| - 1];
      RunSorted(capacity, idle, init, start);
      LastOp(capacity, idle, ops);
      StepSorted(Run(capacity, idle, init), capacity, idle, op, Clock(init, start));
    }
  }

  lemma {:induction false} StepSorted(t: Table, capacity: int, idle: int, op: Op, before: int)
    requires capacity >= 1 && UsedBy(t.list, before)
    requires match op
             case Get(_, now, later) => before <= now <= later
             case Add(_, _, now) => before <= now
             case Expire(now) => before <= now
             case Remove(_, _) => true
    ensures UsedBy(Apply(t, capacity, idle, op).list, TimeOf(op, before))
  {
    hide Sorted, Keep, Idle, Without, Added;
    match op {
      case Get(key, now, later) =>
        KeepElements(t.list, idle, now);
        var list := Keep(t.list, idle, now);
        WithoutElements(list, key);
        match Find(list, key) {
          case None =>
          case Some(e) => UsedAppend(Without(list, key), e.(last := later));
        }
      case Add(key, session, now) => AddSorted(t, capacity, idle, key, session, now);
      case Expire(now) => KeepElements(t.list, idle, now);
      case Remove(key, expected) => WithoutElements(t.list, key);
    }
  }

  lemma {:induction false} AddSorted(t: Table, capacity: int, idle: int, key: Key, session: Session, now: int)
    requires capacity >= 1 && UsedBy(t.list, now)
    ensures UsedBy(Added(t, capacity, idle, key, session, now).list, now)
  {
    hide Sorted, Keep, Idle, Without, Sessions;
    KeepElements(t.list, idle, now);
    WithoutElements(Keep(t.list, idle, now), key);
    var t2 := Removed(Expired(t, idle, now), key);
    SuffixSorted(t2.list, Evicted(t2, capacity).list);
    UsedAppend(Evicted(t2, capacity).list, Entry(key, session, now));
  }

  lemma {:induction false} SuffixSorted(list: seq<Entry>, tail: seq<Entry>)
    requires IsSuffix(list, tail)
    ensures Sorted(list) ==> Sorted(tail)
    ensures forall e :: e in tail ==> e in list
  {
  }

  lemma {:induction false} EvictedIsOlder(t: Table, capacity: int, gone: Entry, kept: Entry)
    requires capacity >= 1 && Ok(t, capacity) && Sorted(t.list)
    requires gone in t.list && gone !in Evicted(t, capacity).list && kept in Evicted(t, capacity).list
    ensures gone.last <= kept.last && |Evicted(t, capacity).list| == capacity - 1
  {
  }

  /**
   * So add evicts the least recently used: an unexpired entry of another key disappears only from a
   * full table, and was last used no later than any that stays.
   */
  lemma {:induction false} EvictsLeastRecentlyUsed(capacity: int, idle: int, ops: seq<Op>, start: int, key: Key, session: Session,
                                                  now: int, gone: Entry, kept: Entry)
    requires capacity >= 1 && Monotone(ops + [Add(key, session, now)], start)
    requires var t, t' := Run(capacity, idle, ops), Run(capacity, idle, ops + [Add(key, session, now)]);
             && gone in t.list && gone.key != key && gone.last + idle > now && gone !in t'.list
             && kept in t'.list
    ensures gone.last <= kept.last && |Run(capacity, idle, ops + [Add(key, session, now)]).list| == capacity
  {
    hide Run, Keep, Idle, Without, Find, Sessions, Evicted, Clock, UniqueKeys, Sorted;
    var t := Run(capacity, idle, ops);
    var all := ops + [Add(key, session, now)];
    assert all[..|ops|] == ops;
    LastOp(capacity, idle, all);
    RunConserves(capacity, idle, ops);
    RunSorted(capacity, idle, ops, start);
    ExpiredConserves(t, idle, now, capacity);
    KeepElements(t.list, idle, now);
    RemovedConserves(Expired(t, idle, now), key, capacity);
    WithoutElements(Keep(t.list, idle, now), key);
    var t2 := Removed(Expired(t, idle, now), key);
    NowAfter(ops, key, session, now, start);
    assert forall x :: x in Evicted(t2, capacity).list ==> x in Run(capacity, idle, all).list;
    if kept != Entry(key, session, now) {
      EvictedIsOlder(t2, capacity, gone, kept);
    } else {
      EvictedFull(t2, capacity, gone);
    }
  }

  lemma {:induction false} NowAfter(ops: seq<Op>, key: Key, session: Session, now: int, start: int)
    requires Monotone(ops + [Add(key, session, now)], start)
    ensures Monotone(ops, start) && Clock(ops, start) <= now
  {
    assert (ops + [Add(key, session, now)])[..|ops|] == ops;
  }

  lemma {:induction false} EvictedFull(t: Table, capacity: int, gone: Entry)
    requires capacity >= 1 && Ok(t, capacity) && gone in t.list && gone !in Evicted(t, capacity).list
    ensures |Evicted(t, capacity).list| == capacity - 1
  {
  }

  // ----- The table -----

  lemma {:induction false} KeepAppend(list: seq<Entry>, e: Entry, idle: int, now: int)
    ensures Keep(list + [e], idle, now) == Keep(list, idle, now) + (if e.last + idle > now then [e] else [])
    ensures Idle(list + [e], idle, now) == Idle(list, idle, now) + (if e.last + idle > now then [] else [e.session])
  {
    if list == [] {
      assert list + [e] == [e];
    } else {
      assert (list + [e])[1..] == list[1..] + [e];
      KeepAppend(list[1..], e, idle, now);
    }
  }

  lemma {:induction false} WithoutAt(list: seq<Entry>, i: nat)
    requires i < |list| && UniqueKeys(list)
    ensures Without(list, list[i].key) == list[..i] + list[i + 1..]
  {
    Tail(list);
    if i == 0 {
      WithoutAbsent(list[1..], list[0].key);
    } else {
      WithoutAt(list[1..], i - 1);
      assert list[1..][..i - 1] == list[1..i] && list[..i] == [list[0]] + list[1..i];
    }
  }

  /** The map and the list hold the same entries. */
  ghost predicate Tied(list: seq<Entry>, entries: map<Key, Entry>)
  {
    && (forall e :: e in list ==> e.key in entries && entries[e.key] == e)
    && (forall k :: k in entries ==> entries[k] in list && entries[k].key == k)
  }

  lemma {:induction false} Lookup(list: seq<Entry>, entries: map<Key, Entry>, key: Key)
    requires Tied(list, entries)
    ensures Find(list, key) == if key in entries then Some(entries[key]) else None
    ensures key in entries ==> entries[key].key == key
    ensures key !in entries ==> Without(list, key) == list
  {
    FindElement(list, key);
    if key !in entries {
      WithoutAbsent(list, key);
    }
  }

  lemma {:induction false} Untie(list: seq<Entry>, entries: map<Key, Entry>, key: Key)
    requires UniqueKeys(list) && Tied(list, entries)
    ensures UniqueKeys(Without(list, key)) && Tied(Without(list, key), entries - {key})
    ensures |Without(list, key)| <= |list|
  {
    hide UniqueKeys;
    WithoutElements(list, key);
  }

  lemma {:induction false} Tie(list: seq<Entry>, entries: map<Key, Entry>, e: Entry)
    requires UniqueKeys(list) && Tied(list, entries) && e.key !in entries
    ensures UniqueKeys(list + [e]) && Tied(list + [e], entries[e.key := e])
  {
  }

  lemma {:induction false} KeepTake(list: seq<Entry>, n: nat, idle: int, now: int)
    requires n < |list|
    ensures var live := list[n].last + idle > now;
            && Keep(list[..n + 1], idle, now) == Keep(list[..n], idle, now) + (if live then [list[n]] else [])
            && Idle(list[..n + 1], idle, now) == Idle(list[..n], idle, now) + (if live then [] else [list[n].session])
  {
    hide Keep, Idle;
    KeepAppend(list[..n], list[n], idle, now);
    assert list[..n + 1] == list[..n] + [list[n]];
  }

  lemma {:induction false} ShiftMiddle(kept: seq<Entry>, was: seq<Entry>, n: nat)
    requires n < |was|
    ensures kept + was[n..] == kept + [was[n]] + was[n + 1..]
  {
  }

  lemma {:induction false} RemoveMiddle(list: seq<Entry>, kept: seq<Entry>, was: seq<Entry>, n: nat)
    requires UniqueKeys(list) && n < |was| && list == kept + was[n..]
    ensures Without(list, was[n].key) == kept + was[n + 1..]
  {
    hide UniqueKeys, Without;
    WithoutAt(list, |kept|);
    assert list[..|kept|] == kept && list[|kept| + 1..] == was[n + 1..] && list[|kept|] == was[n];
  }

  class SessionTable {
    const capacity: int
    const idle: int
    var entries: map<Key, Entry>
    var lru: seq<Entry>
    var closed: seq<Session>  // Close calls, in order

    ghost predicate Linked()
      reads this
    {
      UniqueKeys(lru) && Tied(lru, entries)
    }

    ghost predicate Valid()
      reads this
    {
      Linked() && 1 <= capacity && |lru| <= capacity
    }

    ghost function View(): Table
      reads this
    {
      Table(lru, closed)
    }

    constructor (wanted: int, idle: int)
      ensures Valid() && View() == Table([], [])
      ensures capacity == (if wanted < 1 then 1 else wanted) && this.idle == (if idle <= 0 then MINUTE else idle)
    {
      capacity := if wanted < 1 then 1 else wanted;
      this.idle := if idle <= 0 then MINUTE else idle;
      entries, lru, closed := map[], [], [];
    }

    lemma {:induction false} SameSize()
      requires Linked()
      ensures |entries| == |lru|
    {
      EntriesSize(lru, entries.Keys);
    }

    method RemoveLocked(e: Entry)
      requires Linked()
      modifies this`entries, this`lru, this`closed
      ensures Linked() && lru == Without(old(lru), e.key) && entries == old(entries) - {e.key}
      ensures closed == old(closed) + [e.session] && |lru| <= |old(lru)|
    {
      hide UniqueKeys, Tied;
      Untie(lru, entries, e.key);
      entries := entries - {e.key};
      lru := Without(lru, e.key);
      closed := closed + [e.session];
    }

    method ExpireLocked(now: int)
      requires Linked()
      modifies this`entries, this`lru, this`closed
      ensures Linked() && View() == old(Expired(View(), idle, now))
      ensures |lru| <= |old(lru)|
    {
      hide UniqueKeys, Tied, Keep, Idle, Without;
      ghost var was, n := lru, 0;
      ghost var kept: seq<Entry>, gone: seq<Session> := [], [];
      var i := 0;
      NothingKept(was[..0], idle, now);
      while i < |lru|
        invariant 0 <= n <= |was| && kept == Keep(was[..n], idle, now) && gone == Idle(was[..n], idle, now)
        invariant Linked() && lru == kept + was[n..] && |lru| <= |was| && i == |kept|
        invariant closed == old(closed) + gone
        decreases |was| - n
      {
        var value := lru[i];
        KeepTake(was, n, idle, now);
        if !(value.last + idle > now) {
          RemoveMiddle(lru, kept, was, n);
          RemoveLocked(value);
          gone := gone + [value.session];
        } else {
          ShiftMiddle(kept, was, n);
          kept := kept + [value];
          i := i + 1;
        }
        n := n + 1;
      }
      assert was[..n] == was;
    }

    method Get(key: Key, now: int, later: int) returns (r: Option<Session>)
      requires Valid()
      modifies this`entries, this`lru, this`closed
      ensures Valid() && (View(), r) == old(Got(View(), idle, key, now, later))
    {
      hide UniqueKeys, Tied, Expired, Find;
      ExpireLocked(now);
      Lookup(lru, entries, key);
      if key !in entries {
        return None;
      }
      r := Some(entries[key].session);
      Touch(key, later);
    }

    /** Sets the entry's time and moves it to the back. */
    method Touch(key: Key, now: int)
      requires Linked() && key in entries
      modifies this`entries, this`lru
      ensures Linked() && |lru| <= |old(lru)|
      ensures lru == Without(old(lru), key) + [old(entries)[key].(last := now)]
    {
      Lookup(lru, entries, key);
      Untie(lru, entries, key);
      FindElement(lru, key);
      WithoutElements(lru, key);
      var entry := entries[key].(last := now);
      Tie(Without(lru, key), entries - {key}, entry);
      lru := Without(lru, key) + [entry];
      entries := entries[key := entry];
      assert entries == (old(entries) - {key})[key := entry];
    }

    method Add(key: Key, session: Session, now: int)
      requires Valid()
      modifies this`entries, this`lru, this`closed
      ensures Valid() && View() == old(Added(View(), capacity, idle, key, session, now))
    {
      hide UniqueKeys, Tied, Expired, Find, Evicted;
      ExpireLocked(now);
      Lookup(lru, entries, key);
      if key in entries {
        RemoveLocked(entries[key]);
      }
      MakeRoom();
      var entry := Entry(key, session, now);
      Tie(lru, entries, entry);
      lru := lru + [entry];
      entries := entries[key := entry];
    }

    /** Evicts from the front until one more entry fits. */
    method MakeRoom()
      requires Valid()
      modifies this`entries, this`lru, this`closed
      ensures Linked() && |lru| < capacity && entries.Keys <= old(entries).Keys
      ensures View() == old(Evicted(View(), capacity))
    {
      hide UniqueKeys, Tied, Without, Sessions;
      ghost var was, n := lru, 0;
      SameSize();
      NoSessions(was[..0]);
      while |entries| >= capacity
        invariant Linked() && |entries| == |lru| && entries.Keys <= old(entries).Keys
        invariant 0 <= n <= |was| && lru == was[n..] && closed == old(closed) + Sessions(was[..n])
        invariant n > 0 ==> |lru| >= capacity - 1
        decreases |lru|
      {
        WithoutAt(lru, 0);
        OneMoreSession(was, n);
        RemoveLocked(lru[0]);
        n := n + 1;
        SameSize();
      }
      assert n > 0 ==> n == |was| - capacity + 1;
    }

    method Expire(now: int)
      requires Valid()
      modifies this`entries, this`lru, this`closed
      ensures Valid() && View() == old(Expired(View(), idle, now))
    {
      ExpireLocked(now);
    }

    method Remove(key: Key, expected: Session)
      requires Valid()
      modifies this`entries, this`lru, this`closed
      ensures Valid() && View() == old(RemovedIf(View(), key, expected))
    {
      hide UniqueKeys, Tied, Find;
      Lookup(lru, entries, key);
      if key in entries && entries[key].session == expected {
        RemoveLocked(entries[key]);
      }
    }
  }

  lemma {:induction false} NothingKept(list: seq<Entry>, idle: int, now: int)
    requires list == []
    ensures Keep(list, idle, now) == [] && Idle(list, idle, now) == []
  {
  }

  lemma {:induction false} NoSessions(list: seq<Entry>)
    requires list == []
    ensures Sessions(list) == []
  {
  }

  lemma {:induction false} OneMoreSession(list: seq<Entry>, n: nat)
    requires n < |list|
    ensures Sessions(list[..n + 1]) == Sessions(list[..n]) + [list[n].session]
  {
    SessionsConcat(list[..n], [list[n]]);
    assert list[..n + 1] == list[..n] + [list[n]];
  }

  lemma {:induction false} EntriesSize(list: seq<Entry>, keys: set<Key>)
    requires UniqueKeys(list) && (forall e :: e in list ==> e.key in keys)
    requires forall k :: k in keys ==> exists e :: e in list && e.key == k
    ensures |keys| == |list|
  {
    if list == [] {
      assert keys == {};
    } else {
      Tail(list);
      var rest := keys - {list[0].key};
      EntriesSize(list[1..], rest);
      assert keys == rest + {list[0].key};
    }
  }
}
