/** What the expiry heap of a LearningTable holds, stale items included, after any run. */
module LearningHeap {
  import opened Actions
  import opened Addresses
  import opened Bytes
  import opened Domains
  import opened ExpiryHeaps
  import opened Learning

  /** Event `i` is a recording whose expiry no time seen since has reached. */
  ghost predicate PendingAt(events: seq<Event>, i: nat)
  {
    && i < |events| && events[i].Saw?
    && forall j :: i < j < |events| && events[j].Tick? ==> events[j].now < events[i].expires
  }

  ghost function Pending(events: seq<Event>): set<nat>
  {
    set i: nat | i < |events| && PendingAt(events, i)
  }

  /** The items of the pending recordings from event `i` on. */
  ghost function PendingItems(events: seq<Event>, i: nat): seq<Item<Key>>
    requires i <= |events|
    decreases |events| - i
  {
    if i == |events| then []
    else (if PendingAt(events, i) then [Item(events[i].key, events[i].expires)] else []) + PendingItems(events, i + 1)
  }

  ghost function PendingFrom(events: seq<Event>, i: nat): set<nat>
  {
    set k | k in Pending(events) && i <= k
  }

  lemma {:induction false} PendingSize(events: seq<Event>, i: nat)
    requires i <= |events|
    ensures |PendingItems(events, i)| == |PendingFrom(events, i)|
    decreases |events| - i
  {
    if i == |events| {
      assert PendingFrom(events, i) == {};
    } else {
      PendingSize(events, i + 1);
      if PendingAt(events, i) {
        assert PendingFrom(events, i) == PendingFrom(events, i + 1) + {i};
      } else {
        assert PendingFrom(events, i) == PendingFrom(events, i + 1);
      }
    }
  }

  lemma {:induction false} PendingNext(events: seq<Event>, x: Event, i: nat)
    requires i <= |events|
    ensures x.Saw? ==> PendingItems(events + [x], i) == PendingItems(events, i) + [Item(x.key, x.expires)]
    ensures x.Tick? ==> PendingItems(events + [x], i) == Later(PendingItems(events, i), x.now)
    decreases |events| - i
  {
    var next := events + [x];
    if i == |events| {
      assert PendingItems(next, i + 1) == [];
      assert x.Saw? ==> PendingAt(next, i);
    } else {
      PendingNext(events, x, i + 1);
      PendingAtNext(events, x, i);
      assert next[i] == events[i];
      var items, rest := PendingItems(events, i), PendingItems(events, i + 1);
      if PendingAt(events, i) {
        assert items[0].expires == events[i].expires && items[1..] == rest;
      } else {
        assert items == rest && PendingItems(next, i) == PendingItems(next, i + 1);
      }
    }
  }

  lemma {:induction false} PendingAtNext(events: seq<Event>, x: Event, i: nat)
    requires i < |events|
    ensures PendingAt(events + [x], i) <==> PendingAt(events, i) && (x.Tick? ==> x.now < events[i].expires)
  {
    var next := events + [x];
    assert forall j :: 0 <= j < |events| ==> next[j] == events[j];
    assert next[|events|] == x;
  }

  lemma {:induction false} HeapIsPending(events: seq<Event>)
    ensures HeapAfter([], events) == PendingItems(events, 0)
  {
    hide Later;
    if events == [] {
    } else {
      var init, x := events[..|events| - 1], events[|events| - 1];
      assert events == init + [x];
      HeapIsPending(init);
      PendingNext(init, x, 0);
    }
  }

  /**
   * After every run the heap is exactly the recordings whose expiry is later than every time seen
   * since, refreshed and evicted ones included; so it stays within the capacity exactly when at
   * most that many recordings are pending.
   */
  method ReplayHeap(wanted: int, ops: seq<Op>) returns (table: LearningTable)
    ensures table.Valid() && table.View() == Learning.Run(table.capacity, ops).0
    ensures table.capacity == if wanted < 1 then 1 else wanted
    ensures multiset(table.expirations) == multiset(PendingItems(AllEvents(ops), 0))
    ensures |table.expirations| <= table.capacity <==> |Pending(AllEvents(ops))| <= table.capacity
  {
    hide LearningTable.Indexed, LearningTable.Covered, LearningTable.View, Learning.Run;
    var replies;
    table, replies := Replay(wanted, ops);
    HeapIsPending(AllEvents(ops));
    PendingSize(AllEvents(ops), 0);
    assert |multiset(table.expirations)| == |table.expirations|;
    assert Pending(AllEvents(ops)) == PendingFrom(AllEvents(ops), 0);
  }

  // ----- The heap may outgrow the capacity -----

  /** One domain and one address, seen `n` times with ever later expiries. */
  ghost function Refreshes(n: nat): seq<Op>
  {
    if n == 0 then [] else Refreshes(n - 1) + [Observing(Observation([97], Direct, [IPv4(0)], n))]
  }

  lemma {:induction false} RefreshSeen(n: nat)
    requires n >= 1
    ensures Seen(Observation([97], Direct, [IPv4(0)], n)) == [Saw(Key([97], Direct, IPv4(0)), n)]
  {
    var o := Observation([97], Direct, [IPv4(0)], n);
    assert Normalize([97]) == Some([97]) by {
      assert ToLower([97]) == [97] && Split([97], DOT) == [[97]];
    }
    assert SeenFrom([97], o, 1, {} + {o.ips[0]}) == [];
    assert SeenFrom([97], o, 0, {}) == [Saw(Key([97], Direct, o.ips[0]), n)] + SeenFrom([97], o, 1, {} + {o.ips[0]});
  }

  lemma {:induction false} RefreshEvents(n: nat)
    ensures |AllEvents(Refreshes(n))| == n && forall x :: x in AllEvents(Refreshes(n)) ==> x.Saw?
  {
    hide Seen;
    if n == 0 {
    } else {
      RefreshEvents(n - 1);
      RefreshSeen(n);
      var ops := Refreshes(n);
      assert ops[..|ops| - 1] == Refreshes(n - 1);
    }
  }

  lemma {:induction false} AllPending(events: seq<Event>, i: nat)
    requires i <= |events| && forall x :: x in events ==> x.Saw?
    ensures |PendingItems(events, i)| == |events| - i
    decreases |events| - i
  {
    if i == |events| {
    } else {
      AllPending(events, i + 1);
      assert forall j :: 0 <= j < |events| ==> events[j] in events;
    }
  }

  /** Refreshing one key often enough outgrows any capacity. */
  lemma {:induction false} HeapOutgrowsCapacity(capacity: nat)
    ensures |HeapAfter([], AllEvents(Refreshes(capacity + 1)))| == capacity + 1
  {
    hide HeapAfter, PendingItems;
    var events := AllEvents(Refreshes(capacity + 1));
    RefreshEvents(capacity + 1);
    AllPending(events, 0);
    HeapIsPending(events);
  }
}
