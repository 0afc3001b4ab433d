/** What eviction means for one observation: it is crowded out by enough standing keys, and by nothing less. */
module LearningOrder {
  import opened Addresses
  import opened Basics
  import opened Bytes
  import opened Domains
  import opened Learning

  ghost function Step(list: Log, capacity: int, e: Event): Log
  {
    match e
    case Saw(key, expires) => ObserveOne(list, capacity, key, expires)
    case Tick(now) => Live(list, now)
  }

  ghost function RunEvents(list: Log, capacity: int, events: seq<Event>): Log
  {
    if events == [] then list
    else Step(RunEvents(list, capacity, events[..|events| - 1]), capacity, events[|events| - 1])
  }

  lemma {:induction false} RunConcat(list: Log, capacity: int, a: seq<Event>, b: seq<Event>)
    ensures RunEvents(list, capacity, a + b) == RunEvents(RunEvents(list, capacity, a), capacity, b)
  {
    if b == [] {
      assert a + b == a;
    } else {
      RunConcat(list, capacity, a, b[..|b| - 1]);
      assert (a + b)[..|a + b| - 1] == a + b[..|b| - 1];
    }
  }

  // ----- Operations as events -----

  lemma {:induction false} ObserveIsEvents(list: Log, capacity: int, domain: Text, o: Observation, i: nat, seen: set<Addr>)
    requires i <= |o.ips|
    ensures ObserveFrom(list, capacity, domain, o, i, seen).0 == RunEvents(list, capacity, SeenFrom(domain, o, i, seen))
    decreases |o.ips| - i
  {
    hide ObserveOne;
    if i == |o.ips| || !o.ips[i].IPv4? {
    } else {
      if o.ips[i] in seen {
        ObserveIsEvents(list, capacity, domain, o, i + 1, seen);
      } else {
        var key := Key(domain, o.action, o.ips[i]);
        var first, rest := [Saw(key, o.expires)], SeenFrom(domain, o, i + 1, seen + {o.ips[i]});
        ObserveIsEvents(ObserveOne(list, capacity, key, o.expires), capacity, domain, o, i + 1, seen + {o.ips[i]});
        RunConcat(list, capacity, first, rest);
        assert first[..0] == [];
      }
    }
  }

  /** Every run of operations is a run of events. */
  lemma {:induction false} RunIsEvents(capacity: int, ops: seq<Op>)
    ensures Learning.Run(capacity, ops).0 == RunEvents([], capacity, AllEvents(ops))
  {
    hide Normalize, ObserveFrom, Live;
    if ops == [] {
    } else {
      var init, op := ops[..|ops| - 1], ops[|ops| - 1];
      var list := Learning.Run(capacity, init).0;
      RunIsEvents(capacity, init);
      RunConcat([], capacity, AllEvents(init), EventsOf(op));
      match op {
        case Observing(o) =>
          if Normalize(o.domain).Some? {
            ObserveIsEvents(list, capacity, Normalize(o.domain).value, o, 0, {});
          }
        case _ => assert EventsOf(op)[..0] == [];
      }
    }
  }

  // ----- Crowding out -----

  ghost function KeysSeen(events: seq<Event>): set<Key>
  {
    set e | e in events && e.Saw? :: e.key
  }

  ghost function KeysOf(list: Log): set<Key>
  {
    set e | e in list :: e.key
  }

  lemma {:induction false} WithoutConcat(a: Log, b: Log, key: Key)
    ensures Without(a + b, key) == Without(a, key) + Without(b, key)
  {
    if a == [] {
      assert a + b == b;
    } else {
      assert (a + b)[1..] == a[1..] + b;
      WithoutConcat(a[1..], b, key);
    }
  }

  lemma {:induction false} LiveConcat(a: Log, b: Log, now: int)
    ensures Live(a + b, now) == Live(a, now) + Live(b, now)
  {
    if a == [] {
      assert a + b == b;
    } else {
      assert (a + b)[1..] == a[1..] + b;
      LiveConcat(a[1..], b, now);
    }
  }

  lemma {:induction false} KeysSize(list: Log)
    requires UniqueKeys(list)
    ensures |KeysOf(list)| == |list|
  {
    if list == [] {
      assert KeysOf(list) == {};
    } else {
      var rest := list[1..];
      KeysSize(rest);
      assert list[0].key !in KeysOf(rest);
      assert KeysOf(list) == KeysOf(rest) + {list[0].key};
    }
  }

  /** The keys recorded and not run out since, each with its last expiry. */
  ghost function Latest(events: seq<Event>): map<Key, int>
  {
    if events == [] then map[]
    else
      var before := Latest(events[..|events| - 1]);
      match events[|events| - 1]
      case Saw(key, expires) => before[key := expires]
      case Tick(now) => map k | k in before && before[k] > now :: before[k]
  }

  /** Event `i` is the last recording of its key, and no time seen since has reached its expiry. */
  ghost predicate Stands(events: seq<Event>, i: nat, key: Key, expires: int)
  {
    && i < |events| && events[i] == Saw(key, expires)
    && forall j :: i < j < |events| ==> if events[j].Saw? then events[j].key != key else events[j].now < expires
  }

  lemma {:induction false} LatestStands(events: seq<Event>, key: Key, expires: int)
    ensures key in Latest(events) && Latest(events)[key] == expires <==> exists i :: Stands(events, i, key, expires)
  {
    if events == [] {
    } else {
      var init, n := events[..|events| - 1], |events| - 1;
      LatestStands(init, key, expires);
      assert forall i: nat :: i < n ==> init[i] == events[i];
      if i: nat :| Stands(events, i, key, expires) {
        assert i < n ==> Stands(init, i, key, expires);
      }
      if key in Latest(events) && Latest(events)[key] == expires {
        if events[n] == Saw(key, expires) {
          assert Stands(events, n, key, expires);
        } else {
          var i :| Stands(init, i, key, expires);
          assert Stands(events, i, key, expires);
        }
      }
    }
  }

  lemma {:induction false} LatestNext(events: seq<Event>, x: Event)
    ensures x.Saw? ==> Latest(events + [x]) == Latest(events)[x.key := x.expires]
    ensures x.Tick? ==> Latest(events + [x]) == map k | k in Latest(events) && Latest(events)[k] > x.now :: Latest(events)[k]
  {
    assert (events + [x])[..|events|] == events;
  }

  /** The list splits at `e`, and what stands behind it is what was recorded since and has not run out. */
  ghost predicate Standing(list: Log, capacity: int, e: Entry, events: seq<Event>, front: Log, back: Log)
  {
    && UniqueKeys(list) && |list| <= capacity && list == front + [e] + back
    && Holds(back, Latest(events))
  }

  ghost predicate Holds(list: Log, entries: map<Key, int>)
  {
    forall x: Entry :: x in list <==> x.key in entries && entries[x.key] == x.expires
  }

  lemma {:induction false} HoldsSize(list: Log, entries: map<Key, int>)
    requires UniqueKeys(list) && Holds(list, entries)
    ensures |entries| == |list|
  {
    KeysSize(list);
    forall k | k in entries ensures k in KeysOf(list) {
      assert Entry(k, entries[k]) in list;
    }
    assert KeysOf(list) == entries.Keys;
  }

  lemma {:induction false} BackUnique(list: Log, e: Entry, front: Log, back: Log)
    requires UniqueKeys(list) && list == front + [e] + back
    ensures UniqueKeys(back) && e in list
  {
    assert list[|front|] == e;
    assert forall i :: 0 <= i < |back| ==> back[i] == list[|front| + 1 + i];
  }

  lemma {:induction false} StandingFew(list: Log, capacity: int, e: Entry, events: seq<Event>, front: Log, back: Log)
    requires Standing(list, capacity, e, events, front, back)
    ensures |Latest(events)| < capacity
  {
    hide Latest, Holds;
    BackUnique(list, e, front, back);
    HoldsSize(back, Latest(events));
  }

  lemma {:induction false} StandingStart(list: Log, capacity: int, e: Entry)
    requires capacity >= 1 && UniqueKeys(list) && |list| <= capacity
    ensures var next := ObserveOne(list, capacity, e.key, e.expires);
            next != [] && Standing(next, capacity, e, [], next[..|next| - 1], [])
  {
    ObserveOneElements(list, capacity, e.key, e.expires);
    var next := ObserveOne(list, capacity, e.key, e.expires);
    assert next == next[..|next| - 1] + [e] + [];
  }

  lemma {:induction false} StandingTick(list: Log, capacity: int, e: Entry, events: seq<Event>, front: Log, back: Log, now: int)
    requires Standing(list, capacity, e, events, front, back) && now < e.expires
    ensures Standing(Live(list, now), capacity, e, events + [Tick(now)], Live(front, now), Live(back, now))
  {
    hide UniqueKeys, Latest;
    LiveElements(list, now);
    LiveElements(back, now);
    LatestNext(events, Tick(now));
    LiveConcat(front + [e], back, now);
    LiveConcat(front, [e], now);
    assert Live([e], now) == [e];
  }

  lemma {:induction false} HoldsRefreshed(back: Log, entries: map<Key, int>, key: Key, expires: int)
    requires Holds(back, entries)
    ensures Holds(Without(back, key) + [Entry(key, expires)], entries[key := expires])
  {
    WithoutElements(back, key);
  }

  /** A key that is already in the list moves to the back. */
  lemma {:induction false} StandingRefresh(list: Log, capacity: int, e: Entry, events: seq<Event>, front: Log, back: Log, x: Event)
    requires capacity >= 1 && Standing(list, capacity, e, events, front, back)
    requires x.Saw? && x.key != e.key && Has(list, x.key)
    ensures Standing(ObserveOne(list, capacity, x.key, x.expires), capacity, e, events + [x],
                     Without(front, x.key), Without(back, x.key) + [Entry(x.key, x.expires)])
  {
    hide UniqueKeys, Has, Latest, Holds;
    var entry := Entry(x.key, x.expires);
    ObserveOneElements(list, capacity, x.key, x.expires);
    LatestNext(events, x);
    HoldsRefreshed(back, Latest(events), x.key, x.expires);
    WithoutConcat(front + [e], back, x.key);
    WithoutConcat(front, [e], x.key);
    assert Without([e], x.key) == [e];
    assert Without(list, x.key) + [entry] == Without(front, x.key) + [e] + (Without(back, x.key) + [entry]);
  }

  lemma {:induction false} HoldsInserted(list: Log, front: Log, e: Entry, back: Log, entries: map<Key, int>, key: Key, expires: int)
    requires list == front + [e] + back && !Has(list, key) && Holds(back, entries)
    ensures Holds(back + [Entry(key, expires)], entries[key := expires])
  {
    forall x | x in back ensures x.key != key {
      var i :| 0 <= i < |back| && back[i] == x;
      assert list[|front| + 1 + i] == x;
    }
  }

  lemma {:induction false} InsertWithRoom(list: Log, capacity: int, e: Entry, events: seq<Event>, front: Log, back: Log, x: Event)
    requires capacity >= 1 && Standing(list, capacity, e, events, front, back)
    requires x.Saw? && !Has(list, x.key) && |list| < capacity
    ensures Standing(ObserveOne(list, capacity, x.key, x.expires), capacity, e, events + [x],
                     front, back + [Entry(x.key, x.expires)])
  {
    hide UniqueKeys, Has, Latest, Holds;
    ObserveOneElements(list, capacity, x.key, x.expires);
    LatestNext(events, x);
    HoldsInserted(list, front, e, back, Latest(events), x.key, x.expires);
    assert list + [Entry(x.key, x.expires)] == front + [e] + (back + [Entry(x.key, x.expires)]);
  }

  /** A new key pushes the oldest entry out of a full list. */
  lemma {:induction false} InsertBehindFront(list: Log, capacity: int, e: Entry, events: seq<Event>, front: Log, back: Log, x: Event)
    requires capacity >= 1 && Standing(list, capacity, e, events, front, back)
    requires x.Saw? && !Has(list, x.key) && |list| == capacity && front != []
    ensures Standing(ObserveOne(list, capacity, x.key, x.expires), capacity, e, events + [x],
                     front[1..], back + [Entry(x.key, x.expires)])
  {
    hide UniqueKeys, Has, Latest, Holds;
    ObserveOneElements(list, capacity, x.key, x.expires);
    LatestNext(events, x);
    HoldsInserted(list, front, e, back, Latest(events), x.key, x.expires);
    assert list[1..] + [Entry(x.key, x.expires)] == front[1..] + [e] + (back + [Entry(x.key, x.expires)]);
  }

  /** The oldest entry may be `e` itself: then `capacity` keys have been recorded since and stand. */
  lemma {:induction false} InsertPushesOut(list: Log, capacity: int, e: Entry, events: seq<Event>, back: Log, x: Event)
    requires capacity >= 1 && Standing(list, capacity, e, events, [], back)
    requires x.Saw? && x.key != e.key && !Has(list, x.key) && |list| == capacity
    ensures !Has(ObserveOne(list, capacity, x.key, x.expires), e.key)
    ensures |Latest(events + [x])| == capacity
  {
    hide Latest, Holds, ObserveOne, Has, UniqueKeys;
    var back' := back + [Entry(x.key, x.expires)];
    assert list == [] + [e] + back;
    ObserveOneElements(list, capacity, x.key, x.expires);
    LatestNext(events, x);
    HoldsInserted(list, [], e, back, Latest(events), x.key, x.expires);
    OldestLeaves(list, capacity, e, back, x);
    HoldsSize(back', Latest(events + [x]));
  }

  lemma {:induction false} OldestLeaves(list: Log, capacity: int, e: Entry, back: Log, x: Event)
    requires capacity >= 1 && UniqueKeys(list) && list == [] + [e] + back && |list| == capacity
    requires x.Saw? && x.key != e.key && !Has(list, x.key)
    ensures ObserveOne(list, capacity, x.key, x.expires) == back + [Entry(x.key, x.expires)]
    ensures !Has(ObserveOne(list, capacity, x.key, x.expires), e.key)
  {
    var back' := back + [Entry(x.key, x.expires)];
    assert list[1..] == back;
    forall i | 0 <= i < |back'| ensures back'[i].key != e.key {
      assert i < |back| ==> back'[i] == list[i + 1] && list[0] == e;
    }
  }

  lemma {:induction false} StaysGone(list: Log, capacity: int, e: Entry, x: Event)
    requires capacity >= 1 && UniqueKeys(list) && |list| <= capacity && !Has(list, e.key)
    requires x.Saw? ==> x.key != e.key
    ensures !Has(Step(list, capacity, x), e.key)
  {
    hide UniqueKeys, ObserveOne, Live;
    var next := Step(list, capacity, x);
    match x {
      case Saw(key, expires) => ObserveOneElements(list, capacity, key, expires);
      case Tick(now) => LiveElements(list, now);
    }
    forall i | 0 <= i < |next| ensures next[i].key != e.key {
      assert next[i] in next;
    }
  }

  /** After an entry, events that neither repeat its key nor reach its expiry. */
  ghost predicate Undisturbed(e: Entry, events: seq<Event>)
  {
    forall x :: x in events ==> if x.Saw? then x.key != e.key else x.now < e.expires
  }

  /** At no point are as many as `capacity` recorded keys standing. */
  ghost predicate NeverCrowded(events: seq<Event>, capacity: int)
  {
    forall n :: 0 <= n <= |events| ==> |Latest(events[..n])| < capacity
  }

  lemma {:induction false} CrowdedNext(events: seq<Event>, x: Event, capacity: int)
    ensures NeverCrowded(events + [x], capacity) <==> NeverCrowded(events, capacity) && |Latest(events + [x])| < capacity
  {
    hide Latest;
    var next := events + [x];
    assert forall n :: 0 <= n <= |events| ==> next[..n] == events[..n];
    assert next[..|next|] == next;
  }

  /** Where `e` is in the list, or that its key is gone, after one more event. */
  lemma {:induction false} StandingStep(list: Log, capacity: int, e: Entry, events: seq<Event>, front: Log, back: Log, x: Event)
    returns (front': Log, back': Log)
    requires capacity >= 1 && Standing(list, capacity, e, events, front, back)
    requires if x.Saw? then x.key != e.key else x.now < e.expires
    ensures var next := Step(list, capacity, x);
            if |Latest(events + [x])| < capacity then Standing(next, capacity, e, events + [x], front', back')
            else !Has(next, e.key)
  {
    hide ObserveOne, Live, Latest, Has, Holds;
    if x.Tick? {
      StandingTick(list, capacity, e, events, front, back, x.now);
      front', back' := Live(front, x.now), Live(back, x.now);
    } else if Has(list, x.key) {
      StandingRefresh(list, capacity, e, events, front, back, x);
      front', back' := Without(front, x.key), Without(back, x.key) + [Entry(x.key, x.expires)];
    } else if |list| < capacity {
      InsertWithRoom(list, capacity, e, events, front, back, x);
      front', back' := front, back + [Entry(x.key, x.expires)];
    } else if front != [] {
      InsertBehindFront(list, capacity, e, events, front, back, x);
      front', back' := front[1..], back + [Entry(x.key, x.expires)];
    } else {
      InsertPushesOut(list, capacity, e, events, back, x);
      front', back' := [], [];
      return;
    }
    StandingFew(Step(list, capacity, x), capacity, e, events + [x], front', back');
  }

  lemma {:induction false} StandingRun(list: Log, capacity: int, e: Entry, events: seq<Event>) returns (front: Log, back: Log)
    requires capacity >= 1 && UniqueKeys(list) && |list| <= capacity && Undisturbed(e, events)
    ensures var next := RunEvents(ObserveOne(list, capacity, e.key, e.expires), capacity, events);
            && UniqueKeys(next) && |next| <= capacity
            && if NeverCrowded(events, capacity) then Standing(next, capacity, e, events, front, back) else !Has(next, e.key)
  {
    hide Standing, ObserveOne, Live, UniqueKeys, Latest, NeverCrowded, Has, Step;
    var start := ObserveOne(list, capacity, e.key, e.expires);
    if events == [] {
      front, back := StandingBegin(list, capacity, e);
    } else {
      var init, x := events[..|events| - 1], events[|events| - 1];
      assert Undisturbed(e, init) by { assert forall y :: y in init ==> y in events; }
      assert x in events && events == init + [x];
      front, back := StandingRun(list, capacity, e, init);
      var before := RunEvents(start, capacity, init);
      CrowdedNext(init, x, capacity);
      StepInvariant(before, capacity, x);
      if NeverCrowded(init, capacity) {
        front, back := StandingStep(before, capacity, e, init, front, back, x);
      } else {
        StaysGone(before, capacity, e, x);
      }
    }
  }

  lemma {:induction false} StandingBegin(list: Log, capacity: int, e: Entry) returns (front: Log, back: Log)
    requires capacity >= 1 && UniqueKeys(list) && |list| <= capacity
    ensures var start := ObserveOne(list, capacity, e.key, e.expires);
            UniqueKeys(start) && |start| <= capacity && NeverCrowded([], capacity) && Standing(start, capacity, e, [], front, back)
  {
    hide ObserveOne, UniqueKeys;
    var start := ObserveOne(list, capacity, e.key, e.expires);
    StandingStart(list, capacity, e);
    front, back := start[..|start| - 1], [];
  }

  lemma {:induction false} StepInvariant(list: Log, capacity: int, x: Event)
    requires capacity >= 1 && UniqueKeys(list) && |list| <= capacity
    ensures UniqueKeys(Step(list, capacity, x)) && |Step(list, capacity, x)| <= capacity
  {
    hide UniqueKeys, ObserveOne, Live;
    match x {
      case Saw(key, expires) => ObserveOneElements(list, capacity, key, expires);
      case Tick(now) => LiveElements(list, now);
    }
  }

  lemma {:induction false} EventsInvariant(capacity: int, events: seq<Event>)
    requires capacity >= 1
    ensures UniqueKeys(RunEvents([], capacity, events)) && |RunEvents([], capacity, events)| <= capacity
  {
    hide UniqueKeys, Step;
    if events == [] {
      EmptyUnique();
    } else {
      var list, x := RunEvents([], capacity, events[..|events| - 1]), events[|events| - 1];
      EventsInvariant(capacity, events[..|events| - 1]);
      StepInvariant(list, capacity, x);
    }
  }

  /**
   * An observation that is not repeated and has not run out is kept exactly while, at every point
   * since, fewer than `capacity` other keys had been recorded and not run out.
   */
  lemma {:induction false} EvictedExactly(capacity: int, before: seq<Event>, e: Entry, after: seq<Event>)
    requires capacity >= 1 && Undisturbed(e, after)
    ensures e in RunEvents([], capacity, before + [Saw(e.key, e.expires)] + after) <==> NeverCrowded(after, capacity)
  {
    hide ObserveOne, NeverCrowded, UniqueKeys, Undisturbed, Latest, Holds;
    var start := RunEvents([], capacity, before);
    EventsInvariant(capacity, before);
    RunConcat([], capacity, before + [Saw(e.key, e.expires)], after);
    assert (before + [Saw(e.key, e.expires)])[..|before|] == before;
    var front, back := StandingRun(start, capacity, e, after);
    if NeverCrowded(after, capacity) {
      BackUnique(RunEvents(ObserveOne(start, capacity, e.key, e.expires), capacity, after), e, front, back);
    }
  }

  lemma {:induction false} LatestWasSeen(events: seq<Event>, n: nat)
    requires n <= |events|
    ensures Latest(events[..n]).Keys <= KeysSeen(events)
    ensures (forall x :: x in events ==> x.Saw?) && n == |events| ==> Latest(events).Keys == KeysSeen(events)
  {
    forall k | k in Latest(events[..n]) ensures k in KeysSeen(events) {
      LatestStands(events[..n], k, Latest(events[..n])[k]);
      var i: nat :| Stands(events[..n], i, k, Latest(events[..n])[k]);
      assert events[i] == events[..n][i] && events[i] in events;
    }
    if (forall x :: x in events ==> x.Saw?) && n == |events| {
      assert events[..n] == events;
      SawStands(events);
    }
  }

  lemma {:induction false} SawStands(events: seq<Event>)
    requires forall x :: x in events ==> x.Saw?
    ensures KeysSeen(events) <= Latest(events).Keys
  {
    if events == [] {
    } else {
      var init, x := events[..|events| - 1], events[|events| - 1];
      assert events == init + [x] && x in events;
      SawStands(init);
      LatestNext(init, x);
    }
  }

  /** Fewer than `capacity` keys since are not enough to evict; with no expiry between, that many are. */
  lemma {:induction false} SurvivesFewKeys(capacity: int, before: seq<Event>, e: Entry, after: seq<Event>)
    requires capacity >= 1 && Undisturbed(e, after)
    ensures var list := RunEvents([], capacity, before + [Saw(e.key, e.expires)] + after);
            && (|KeysSeen(after)| < capacity ==> e in list)
            && ((forall x :: x in after ==> x.Saw?) ==> (e in list <==> |KeysSeen(after)| < capacity))
  {
    hide RunEvents, Latest, Undisturbed;
    EvictedExactly(capacity, before, e, after);
    forall n | 0 <= n <= |after| ensures |Latest(after[..n])| <= |KeysSeen(after)| {
      LatestWasSeen(after, n);
      SubsetSize(Latest(after[..n]).Keys, KeysSeen(after));
    }
    LatestWasSeen(after, |after|);
    assert after[..|after|] == after;
  }
}
