/** What a LearningTable answers, in terms of the recordings of the run and not of the list. */
module LearningReplies {
  import opened Actions
  import opened Addresses
  import opened Bytes
  import opened Domains
  import opened Learning
  import opened LearningOrder

  // ----- Which recordings an observation makes -----

  /** Among the addresses from `i` on, `ip` comes before any that is not IPv4. */
  ghost predicate Reached(o: Observation, i: nat, ip: Addr)
  {
    exists k :: i <= k < |o.ips| && o.ips[k] == ip && forall j :: i <= j <= k ==> o.ips[j].IPv4?
  }

  lemma {:induction false} ReachedNext(o: Observation, i: nat, ip: Addr)
    requires i < |o.ips|
    ensures Reached(o, i, ip) <==> o.ips[i].IPv4? && (o.ips[i] == ip || Reached(o, i + 1, ip))
  {
    if o.ips[i].IPv4? && o.ips[i] == ip {
      assert forall j :: i <= j <= i ==> o.ips[j].IPv4?;
    }
    if k :| i + 1 <= k < |o.ips| && o.ips[k] == ip && forall j :: i + 1 <= j <= k ==> o.ips[j].IPv4? {
      assert o.ips[i].IPv4? ==> forall j :: i <= j <= k ==> o.ips[j].IPv4?;
    }
    if k :| i <= k < |o.ips| && o.ips[k] == ip && forall j :: i <= j <= k ==> o.ips[j].IPv4? {
      assert o.ips[i].IPv4?;
    }
  }

  ghost predicate Acceptable(o: Observation)
  {
    (o.action == Direct || o.action == Proxy) && o.expires != ZERO_TIME && Normalize(o.domain).Some?
  }

  lemma {:induction false} SeenFromExactly(domain: Text, o: Observation, i: nat, seen: set<Addr>, x: Event)
    requires i <= |o.ips|
    ensures x in SeenFrom(domain, o, i, seen) <==>
            && x.Saw? && x.key.domain == domain && x.key.action == o.action && x.expires == o.expires
            && x.key.ip !in seen && Reached(o, i, x.key.ip)
    decreases |o.ips| - i
  {
    hide Reached;
    if i == |o.ips| {
      if x.Saw? {
        NothingReached(o, x.key.ip);
      }
    } else {
      if x.Saw? {
        ReachedNext(o, i, x.key.ip);
      }
      if !o.ips[i].IPv4? {
      } else if o.ips[i] in seen {
        SeenFromExactly(domain, o, i + 1, seen, x);
      } else {
        SeenFromExactly(domain, o, i + 1, seen + {o.ips[i]}, x);
      }
    }
  }

  lemma {:induction false} NothingReached(o: Observation, ip: Addr)
    ensures !Reached(o, |o.ips|, ip)
  {
  }

  /** An observation records its addresses under its normalized name, up to the first that is not IPv4. */
  lemma {:induction false} SeenExactly(o: Observation, key: Key, expires: int)
    ensures Saw(key, expires) in Seen(o) <==>
            && Acceptable(o) && Normalize(o.domain) == Some(key.domain) && o.action == key.action && o.expires == expires
            && Reached(o, 0, key.ip)
  {
    hide Normalize, SeenFrom, Reached;
    if Acceptable(o) {
      SeenFromExactly(Normalize(o.domain).value, o, 0, {}, Saw(key, expires));
    }
  }

  lemma {:induction false} ObserveFromOk(list: Log, capacity: int, domain: Text, o: Observation, i: nat, seen: set<Addr>)
    requires i <= |o.ips|
    ensures ObserveFrom(list, capacity, domain, o, i, seen).1 <==> forall k :: i <= k < |o.ips| ==> o.ips[k].IPv4?
    decreases |o.ips| - i
  {
    hide ObserveOne;
    if i == |o.ips| || !o.ips[i].IPv4? {
    } else if o.ips[i] in seen {
      ObserveFromOk(list, capacity, domain, o, i + 1, seen);
    } else {
      ObserveFromOk(ObserveOne(list, capacity, Key(domain, o.action, o.ips[i]), o.expires), capacity, domain, o, i + 1,
                    seen + {o.ips[i]});
    }
  }

  // ----- Which recordings stand -----

  /** The recording at `i` is the last of its key, has not run out at any time since, and was not crowded out. */
  ghost predicate StandsAt(capacity: int, events: seq<Event>, i: nat, e: Entry)
  {
    && i < |events| && events[i] == Saw(e.key, e.expires)
    && Undisturbed(e, events[i + 1..]) && NeverCrowded(events[i + 1..], capacity)
  }

  lemma {:induction false} StandsNext(capacity: int, events: seq<Event>, i: nat, e: Entry, x: Event)
    requires capacity >= 1 && StandsAt(capacity, events, i, e)
    requires e in RunEvents([], capacity, events + [x])
    requires x.Saw? ==> x.key != e.key
    requires x.Tick? ==> x.now < e.expires
    ensures StandsAt(capacity, events + [x], i, e)
  {
    hide RunEvents, NeverCrowded, Latest;
    var after := events[i + 1..];
    var all := events + [x];
    assert all[i + 1..] == after + [x];
    assert all == all[..i] + [Saw(e.key, e.expires)] + all[i + 1..];
    EvictedExactly(capacity, all[..i], e, all[i + 1..]);
  }

  /** What is left of the list after one more event was there before, or is what the event recorded. */
  lemma {:induction false} StepOrigin(list: Log, capacity: int, x: Event, e: Entry)
    requires capacity >= 1 && UniqueKeys(list) && |list| <= capacity && e in Step(list, capacity, x)
    ensures x == Saw(e.key, e.expires) || (e in list && (x.Saw? ==> x.key != e.key) && (x.Tick? ==> x.now < e.expires))
  {
    hide UniqueKeys, Live;
    match x {
      case Saw(key, expires) =>
        ObserveOneElements(list, capacity, key, expires);
        WithoutElements(list, key);
        if e.key == key && e != Entry(key, expires) {
          OneOfKey(ObserveOne(list, capacity, key, expires), e, Entry(key, expires));
        }
      case Tick(now) => LiveElements(list, now);
    }
  }

  lemma {:induction false} OneOfKey(list: Log, a: Entry, b: Entry)
    requires UniqueKeys(list) && a in list && b in list && a.key == b.key
    ensures a == b
  {
  }

  /** The table holds exactly the recordings that stand. */
  lemma {:induction false} EntryExactly(capacity: int, events: seq<Event>, e: Entry)
    requires capacity >= 1
    ensures e in RunEvents([], capacity, events) <==> exists i :: StandsAt(capacity, events, i, e)
  {
    hide Step, NeverCrowded, Undisturbed, UniqueKeys;
    if i: nat :| StandsAt(capacity, events, i, e) {
      assert events == events[..i] + [Saw(e.key, e.expires)] + events[i + 1..];
      EvictedExactly(capacity, events[..i], e, events[i + 1..]);
    }
    if e in RunEvents([], capacity, events) {
      var i := StandsSomewhere(capacity, events, e);
    }
  }

  lemma {:induction false} StandsSomewhere(capacity: int, events: seq<Event>, e: Entry) returns (i: nat)
    requires capacity >= 1 && e in RunEvents([], capacity, events)
    ensures StandsAt(capacity, events, i, e)
  {
    hide Step, NeverCrowded, Undisturbed, UniqueKeys;
    var init, x := events[..|events| - 1], events[|events| - 1];
    assert events == init + [x];
    EventsInvariant(capacity, init);
    StepOrigin(RunEvents([], capacity, init), capacity, x, e);
    if x == Saw(e.key, e.expires) {
      i := |init|;
      JustRecorded(capacity, e);
      assert events[i + 1..] == [];
    } else {
      i := StandsSomewhere(capacity, init, e);
      StandsNext(capacity, init, i, e, x);
    }
  }

  lemma {:induction false} JustRecorded(capacity: int, e: Entry)
    requires capacity >= 1
    ensures Undisturbed(e, []) && NeverCrowded([], capacity)
  {
  }

  // ----- The replies -----

  /** Some recording of `ip` with this action stands after `ops` and runs out after `now`. */
  ghost predicate Known(capacity: int, ops: seq<Op>, ip: Addr, action: Action, now: int)
  {
    exists i: nat, e: Entry :: StandsAt(capacity, AllEvents(ops), i, e) && e.key.ip == ip && e.key.action == action && e.expires > now
  }

  /** Proxy if a proxy recording is known, else Direct if a direct one is, else Unknown; to be inspected if both are. */
  ghost predicate Answers(capacity: int, ops: seq<Op>, ip: Addr, now: int, d: Decision)
  {
    var proxy, direct := Known(capacity, ops, ip, Proxy, now), Known(capacity, ops, ip, Direct, now);
    && (d.action == Proxy <==> proxy) && (d.action == Direct <==> direct && !proxy) && (d.action == Unknown <==> !direct && !proxy)
    && (d.direct <==> direct) && (d.proxy <==> proxy) && (d.inspect <==> direct && proxy)
  }

  lemma {:induction false} LearnedIsKnown(capacity: int, ops: seq<Op>, ip: Addr, action: Action, now: int)
    requires capacity >= 1
    ensures Learned(Live(Learning.Run(capacity, ops).0, now), ip, action) <==> Known(capacity, ops, ip, action, now)
  {
    hide Learning.Run, AllEvents, StandsAt, Live;
    var list := Learning.Run(capacity, ops).0;
    RunIsEvents(capacity, ops);
    LiveElements(list, now);
    if e :| e in Live(list, now) && e.key.ip == ip && e.key.action == action {
      EntryExactly(capacity, AllEvents(ops), e);
    }
    if i: nat, e: Entry :| StandsAt(capacity, AllEvents(ops), i, e) && e.key.ip == ip && e.key.action == action && e.expires > now {
      EntryExactly(capacity, AllEvents(ops), e);
      assert e in Live(list, now);
    }
  }

  lemma {:induction false} ScanAnswers(capacity: int, ops: seq<Op>, ip: Addr, now: int)
    requires capacity >= 1
    ensures Answers(capacity, ops, ip, now, Scan(Live(Learning.Run(capacity, ops).0, now), ip))
  {
    hide Learning.Run, Live, Learned, Known;
    LearnedIsKnown(capacity, ops, ip, Proxy, now);
    LearnedIsKnown(capacity, ops, ip, Direct, now);
  }

  lemma {:induction false} LastReply(capacity: int, ops: seq<Op>, op: Op)
    ensures var (list, replies) := Learning.Run(capacity, ops + [op]);
            && |replies| == |ops| + 1
            && (list, replies[|ops|]) == Apply(Learning.Run(capacity, ops).0, capacity, op)
  {
    hide Apply;
    var all := ops + [op];
    assert all[..|all| - 1] == ops;
    ReplyCount(capacity, ops);
  }

  lemma {:induction false} ReplyCount(capacity: int, ops: seq<Op>)
    ensures |Learning.Run(capacity, ops).1| == |ops|
  {
    hide Apply;
    if ops == [] {
    } else {
      ReplyCount(capacity, ops[..|ops| - 1]);
    }
  }

  /** What a lookup answers after any operations. */
  lemma {:induction false} LookupExactly(capacity: int, ops: seq<Op>, ip: Addr, now: int)
    requires capacity >= 1
    ensures var replies := Learning.Run(capacity, ops + [Looking(ip, now)]).1;
            |replies| == |ops| + 1 && replies[|ops|].Found? && Answers(capacity, ops, ip, now, replies[|ops|].decision)
  {
    hide Learning.Run, Live, Scan, Answers;
    LastReply(capacity, ops, Looking(ip, now));
    ScanAnswers(capacity, ops, ip, now);
  }

  /** A snapshot answers the same for each address, and lists exactly those with a known recording. */
  lemma {:induction false} SnapshotExactly(capacity: int, ops: seq<Op>, now: int, ip: Addr)
    requires capacity >= 1
    ensures var replies := Learning.Run(capacity, ops + [Snapshotting(now)]).1;
            && |replies| == |ops| + 1 && replies[|ops|].All?
            && (ip in replies[|ops|].decisions <==> exists action :: Known(capacity, ops, ip, action, now))
            && (ip in replies[|ops|].decisions ==> Answers(capacity, ops, ip, now, replies[|ops|].decisions[ip]))
  {
    hide Learning.Run, Live, Scan, Answers, Known;
    LastReply(capacity, ops, Snapshotting(now));
    ScanAnswers(capacity, ops, ip, now);
    var list := Live(Learning.Run(capacity, ops).0, now);
    forall action ensures Learned(list, ip, action) <==> Known(capacity, ops, ip, action, now) {
      LearnedIsKnown(capacity, ops, ip, action, now);
    }
    if e :| e in list && e.key.ip == ip {
      assert Learned(list, ip, e.key.action);
    }
  }

  /** An expiry returns exactly the addresses with a recording that stood and has run out. */
  lemma {:induction false} ExpiryExactly(capacity: int, ops: seq<Op>, now: int, ip: Addr)
    requires capacity >= 1
    ensures var replies := Learning.Run(capacity, ops + [Expiring(now)]).1;
            && |replies| == |ops| + 1 && replies[|ops|].Gone?
            && (ip in replies[|ops|].ips <==>
                  exists i: nat, e: Entry :: StandsAt(capacity, AllEvents(ops), i, e) && e.key.ip == ip && e.expires <= now)
  {
    hide Learning.Run, AllEvents, StandsAt, Live;
    LastReply(capacity, ops, Expiring(now));
    RunIsEvents(capacity, ops);
    var list := Learning.Run(capacity, ops).0;
    if e :| e in list && e.key.ip == ip && e.expires <= now {
      EntryExactly(capacity, AllEvents(ops), e);
    }
    if i: nat, e: Entry :| StandsAt(capacity, AllEvents(ops), i, e) && e.key.ip == ip && e.expires <= now {
      EntryExactly(capacity, AllEvents(ops), e);
    }
  }

  /** An observation is accepted exactly if it is acceptable and all its addresses are IPv4. */
  lemma {:induction false} ObservedExactly(capacity: int, ops: seq<Op>, o: Observation)
    ensures var replies := Learning.Run(capacity, ops + [Observing(o)]).1;
            && |replies| == |ops| + 1
            && replies[|ops|] == Observed(Acceptable(o) && forall k :: 0 <= k < |o.ips| ==> o.ips[k].IPv4?)
  {
    hide Learning.Run, Normalize, ObserveFrom;
    LastReply(capacity, ops, Observing(o));
    if Acceptable(o) {
      ObserveFromOk(Learning.Run(capacity, ops).0, capacity, Normalize(o.domain).value, o, 0, {});
    }
  }
}
