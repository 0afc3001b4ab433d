/** What handling one client datagram does to the UDP server, in terms of what the network answers. */
module UdpOutcomes {
  import opened Bytes
  import opened SessionTables
  import opened UdpServers

  /** What the network answers: the session opened, the reply socket opened, the datagram taken. */
  datatype Net = Net(openOk: bool, replyOk: bool, sendOk: bool)

  lemma {:induction false} Advance(capacity: int, idle: int, acts: seq<Action>, a: Action)
    requires capacity >= 1
    ensures UdpServers.Run(capacity, idle, acts + [a]) == UdpServers.Next(capacity, idle, UdpServers.Run(capacity, idle, acts), a)
  {
    assert (acts + [a])[..|acts|] == acts;
  }

  /** The session the table holds for a key once idle entries are gone. */
  function Held(capacity: int, idle: int, s: State, key: Key, now: int, later: int): Option<Session>
    requires capacity >= 1
  {
    Got(TableOf(capacity, idle, s), idle, key, now, later).1
  }

  /**
   * A datagram for a known session is sent on it, and a failure removes it. Otherwise a session is
   * opened, discarded if there is no reply socket, and else added, given a reply goroutine and used;
   * a failure then removes it again.
   */
  function Handled(s: State, found: Option<Session>, key: Key, now: int, later: int, last: int, net: Net): State
  {
    var looked := s.(ops := s.ops + [Get(key, now, later)]);
    match found
    case Some(session) =>
      if net.sendOk then looked
      else looked.(ops := looked.ops + [Remove(key, session)], failed := s.failed + {session})
    case None =>
      if !net.openOk then looked
      else if !net.replyOk then looked.(dialed := s.dialed + 1, discarded := s.discarded + [s.dialed])
      else
        var added := looked.(dialed := s.dialed + 1, ops := looked.ops + [Add(key, s.dialed, last)],
                             receivers := s.receivers[s.dialed := key]);
        if net.sendOk then added
        else added.(ops := added.ops + [Remove(key, s.dialed)], failed := s.failed + {s.dialed})
  }

  lemma {:induction false} RemoveAlone(capacity: int, idle: int, acts: seq<Action>, now: int) returns (all: seq<Action>)
    requires capacity >= 1 && UdpServers.Run(capacity, idle, acts).main.Removing?
    ensures acts <= all
    ensures var s := UdpServers.Run(capacity, idle, acts);
            UdpServers.Run(capacity, idle, all) ==
            s.(ops := s.ops + [Remove(s.main.key, s.main.session)], failed := s.failed + {s.main.session}, main := Waiting)
  {
    hide UdpServers.Run, SessionTables.Run;
    Advance(capacity, idle, acts, Step(true, now));
    all := acts + [Step(true, now)];
  }

  lemma {:induction false} KnownAlone(capacity: int, idle: int, acts: seq<Action>, ok: bool, now: int) returns (all: seq<Action>)
    requires capacity >= 1 && UdpServers.Run(capacity, idle, acts).main.Known?
    ensures acts <= all
    ensures var s := UdpServers.Run(capacity, idle, acts);
            UdpServers.Run(capacity, idle, all) ==
            if ok then s.(main := Waiting)
            else s.(ops := s.ops + [Remove(s.main.key, s.main.session)], failed := s.failed + {s.main.session}, main := Waiting)
  {
    hide UdpServers.Run, SessionTables.Run;
    Advance(capacity, idle, acts, Step(ok, now));
    all := acts + [Step(ok, now)];
    if !ok {
      all := RemoveAlone(capacity, idle, all, now);
    }
  }

  /** From a session in hand with its reply socket open: added, given a reply goroutine, used. */
  lemma {:induction false} AddAlone(capacity: int, idle: int, acts: seq<Action>, ok: bool, now: int) returns (all: seq<Action>)
    requires capacity >= 1 && UdpServers.Run(capacity, idle, acts).main.Adding?
    ensures acts <= all
    ensures var s := UdpServers.Run(capacity, idle, acts);
            var key, session := s.main.key, s.main.session;
            var added := s.(ops := s.ops + [Add(key, session, now)], receivers := s.receivers[session := key], main := Waiting);
            UdpServers.Run(capacity, idle, all) ==
            if ok then added else added.(ops := added.ops + [Remove(key, session)], failed := s.failed + {session})
  {
    hide UdpServers.Run, SessionTables.Run;
    var go := Step(ok, now);
    Advance(capacity, idle, acts, go);
    Advance(capacity, idle, acts + [go], go);
    Advance(capacity, idle, acts + [go] + [go], go);
    all := acts + [go] + [go] + [go];
    if !ok {
      all := RemoveAlone(capacity, idle, all, now);
    }
  }

  lemma {:induction false} MissingAlone(capacity: int, idle: int, acts: seq<Action>, net: Net, now: int) returns (all: seq<Action>)
    requires capacity >= 1 && UdpServers.Run(capacity, idle, acts).main.Missing?
    ensures acts <= all
    ensures var s := UdpServers.Run(capacity, idle, acts);
            var key, session := s.main.key, s.dialed;
            var added := s.(dialed := session + 1, ops := s.ops + [Add(key, session, now)],
                            receivers := s.receivers[session := key], main := Waiting);
            UdpServers.Run(capacity, idle, all) ==
            if !net.openOk then s.(main := Waiting)
            else if !net.replyOk then s.(dialed := session + 1, discarded := s.discarded + [session], main := Waiting)
            else if net.sendOk then added
            else added.(ops := added.ops + [Remove(key, session)], failed := s.failed + {session})
  {
    hide UdpServers.Run, SessionTables.Run;
    Advance(capacity, idle, acts, Step(net.openOk, now));
    all := acts + [Step(net.openOk, now)];
    if net.openOk {
      var a1 := all;
      Advance(capacity, idle, a1, Step(net.replyOk, now));
      all := a1 + [Step(net.replyOk, now)];
      if net.replyOk {
        all := AddAlone(capacity, idle, all, net.sendOk, now);
      }
    }
  }

  /** Handling a datagram with nothing in between does exactly that, and the server waits for the next one. */
  lemma {:induction false} HandleAlone(capacity: int, idle: int, acts: seq<Action>, key: Key, now: int, later: int, last: int, net: Net)
    returns (all: seq<Action>)
    requires capacity >= 1 && UdpServers.Run(capacity, idle, acts).main == Waiting
    ensures acts <= all
    ensures var s := UdpServers.Run(capacity, idle, acts);
            UdpServers.Run(capacity, idle, all) == Handled(s, Held(capacity, idle, s, key, now, later), key, now, later, last, net)
  {
    hide UdpServers.Run, SessionTables.Run, Got;
    var s := UdpServers.Run(capacity, idle, acts);
    Advance(capacity, idle, acts, Packet(key, now, later));
    var a1 := acts + [Packet(key, now, later)];
    if Held(capacity, idle, s, key, now, later).Some? {
      all := KnownAlone(capacity, idle, a1, net.sendOk, last);
    } else {
      all := MissingAlone(capacity, idle, a1, net, last);
    }
  }

  /** So a datagram that is taken leaves its key live, on the known session or on the new one. */
  lemma {:induction false} TakenIsLive(capacity: int, idle: int, acts: seq<Action>, key: Key, now: int, later: int, last: int, net: Net)
    returns (all: seq<Action>)
    requires capacity >= 1 && UdpServers.Run(capacity, idle, acts).main == Waiting && net.sendOk
    ensures acts <= all
    ensures var s, s' := UdpServers.Run(capacity, idle, acts), UdpServers.Run(capacity, idle, all);
            var found := Held(capacity, idle, s, key, now, later);
            found.Some? || (net.openOk && net.replyOk) ==>
              SessionFor(TableOf(capacity, idle, s'), key) == Some(if found.Some? then found.value else s.dialed)
  {
    var s := UdpServers.Run(capacity, idle, acts);
    all := HandleAlone(capacity, idle, acts, key, now, later, last, net);
    hide UdpServers.Run, SessionTables.Run, Got, Added;
    var looked := s.ops + [Get(key, now, later)];
    var t := TableOf(capacity, idle, s);
    RunConserves(capacity, idle, s.ops);
    GetApplied(capacity, idle, s.ops, key, now, later);
    GotIsLive(t, idle, key, now, later, capacity);
    if Held(capacity, idle, s, key, now, later) == None && net.openOk && net.replyOk {
      RunConserves(capacity, idle, looked);
      AddApplied(capacity, idle, looked, key, s.dialed, last);
      AddedIsLive(SessionTables.Run(capacity, idle, looked), capacity, idle, key, s.dialed, last);
    }
  }

  /** The session stored under `key`, if any. */
  function SessionFor(t: Table, key: Key): Option<Session>
  {
    match Find(t.list, key) case None => None case Some(e) => Some(e.session)
  }

  lemma {:induction false} GetApplied(capacity: int, idle: int, ops: seq<Op>, key: Key, now: int, later: int)
    requires capacity >= 1
    ensures SessionTables.Run(capacity, idle, ops + [Get(key, now, later)]) ==
            Got(SessionTables.Run(capacity, idle, ops), idle, key, now, later).0
  {
    hide Got;
    assert (ops + [Get(key, now, later)])[..|ops|] == ops;
  }

  lemma {:induction false} AddApplied(capacity: int, idle: int, ops: seq<Op>, key: Key, session: Session, now: int)
    requires capacity >= 1
    ensures SessionTables.Run(capacity, idle, ops + [Add(key, session, now)]) ==
            Added(SessionTables.Run(capacity, idle, ops), capacity, idle, key, session, now)
  {
    hide Added;
    assert (ops + [Add(key, session, now)])[..|ops|] == ops;
  }

  lemma {:induction false} FindLast(list: seq<Entry>, e: Entry)
    requires forall x :: x in list ==> x.key != e.key
    ensures Find(list + [e], e.key) == Some(e)
  {
    if list == [] {
      assert list + [e] == [e];
    } else {
      assert list[0] in list && (list + [e])[1..] == list[1..] + [e];
      assert forall x :: x in list[1..] ==> x in list;
      FindLast(list[1..], e);
    }
  }

  lemma {:induction false} GotIsLive(t: Table, idle: int, key: Key, now: int, later: int, capacity: int)
    requires Ok(t, capacity)
    ensures SessionFor(Got(t, idle, key, now, later).0, key) == Got(t, idle, key, now, later).1
  {
    var list := Keep(t.list, idle, now);
    FindElement(list, key);
    match Find(list, key) {
      case None =>
      case Some(e) =>
        WithoutElements(list, key);
        FindLast(Without(list, key), e.(last := later));
    }
  }

  lemma {:induction false} AddedIsLive(t: Table, capacity: int, idle: int, key: Key, session: Session, now: int)
    requires capacity >= 1 && Ok(t, capacity)
    ensures SessionFor(Added(t, capacity, idle, key, session, now), key) == Some(session)
  {
    hide Expired;
    ExpiredConserves(t, idle, now, capacity);
    var t1 := Expired(t, idle, now);
    RemovedConserves(t1, key, capacity);
    EvictedOrigin(Removed(t1, key), capacity);
    FindLast(Evicted(Removed(t1, key), capacity).list, Entry(key, session, now));
  }

  // ----- The other goroutines -----

  /** Neither a reply goroutine that ends nor an expiry disturbs the datagram being handled. */
  lemma {:induction false} OthersLeaveMain(capacity: int, idle: int, acts: seq<Action>, a: Action)
    requires capacity >= 1 && (a.ReplyEnds? || a.Expiry?)
    ensures var s, s' := UdpServers.Run(capacity, idle, acts), UdpServers.Run(capacity, idle, acts + [a]);
            s'.main == s.main && s'.dialed == s.dialed && s'.discarded == s.discarded
  {
    hide UdpServers.Run, SessionTables.Run;
    Advance(capacity, idle, acts, a);
  }

  /** An expiry closes and removes exactly the entries that have been idle too long. */
  lemma {:induction false} ExpiryRemoves(capacity: int, idle: int, acts: seq<Action>, now: int, e: Entry)
    requires capacity >= 1
    ensures var t, t' := TableOf(capacity, idle, UdpServers.Run(capacity, idle, acts)),
                         TableOf(capacity, idle, UdpServers.Run(capacity, idle, acts + [Expiry(now)]));
            e in t'.list <==> e in t.list && e.last + idle > now
  {
    hide UdpServers.Run, SessionTables.Run, Keep, Idle;
    var s := UdpServers.Run(capacity, idle, acts);
    Advance(capacity, idle, acts, Expiry(now));
    LastOp(capacity, idle, s.ops + [Expire(now)]);
    assert (s.ops + [Expire(now)])[..|s.ops|] == s.ops;
    KeepElements(TableOf(capacity, idle, s).list, idle, now);
  }

  /** A reply goroutine ends once: it removes its own session and no other goroutine ends with it. */
  lemma {:induction false} ReplyEndsOnce(capacity: int, idle: int, acts: seq<Action>, session: Session)
    requires capacity >= 1 && session in UdpServers.Run(capacity, idle, acts).receivers
    ensures var s, s' := UdpServers.Run(capacity, idle, acts), UdpServers.Run(capacity, idle, acts + [ReplyEnds(session)]);
            && s'.receivers == s.receivers - {session} && session in s'.failed
            && s'.ops == s.ops + [Remove(s.receivers[session], session)]
  {
    hide UdpServers.Run, SessionTables.Run;
    Advance(capacity, idle, acts, ReplyEnds(session));
  }
}
