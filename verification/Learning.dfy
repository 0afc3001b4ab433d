/** LearningTable of internal/policy/learning.go. Times are integers on one clock. */
module Learning {
  import opened Actions
  import opened Addresses
  import opened Bytes
  import opened Domains
  import opened ExpiryHeaps

  datatype Key = Key(domain: Text, action: Action, ip: Addr)

  datatype Observation = Observation(domain: Text, action: Action, ips: seq<Addr>, expires: int)

  datatype Decision = LearnedDecision(action: Action, direct: bool, proxy: bool, inspect: bool)

  /** The zero `time.Time`, which no observation may carry. */
  const ZERO_TIME := 0

  // ----- Reference: a plain list of observations, least recently seen first -----

  datatype Entry = Entry(key: Key, expires: int)
  type Log = seq<Entry>

  predicate Has(list: Log, key: Key)
  {
    exists i :: 0 <= i < |list| && list[i].key == key
  }

  function Without(list: Log, key: Key): (r: Log)
  {
    if list == [] then []
    else if list[0].key == key then Without(list[1..], key)
    else [list[0]] + Without(list[1..], key)
  }

  function Live(list: Log, now: int): (r: Log)
  {
    if list == [] then []
    else if list[0].expires > now then [list[0]] + Live(list[1..], now)
    else Live(list[1..], now)
  }

  /** The addresses with an observation that has run out. */
  ghost function Lost(list: Log, now: int): set<Addr>
  {
    set e | e in list && e.expires <= now :: e.key.ip
  }

  ghost function IPs(list: Log): set<Addr>
  {
    set e | e in list :: e.key.ip
  }

  /** A known key moves to the back; a new one first makes room at the front. */
  ghost function ObserveOne(list: Log, capacity: int, key: Key, expires: int): Log
  {
    var kept := if Has(list, key) then Without(list, key)
                else if 1 <= capacity <= |list| then list[|list| - capacity + 1..] else list;
    kept + [Entry(key, expires)]
  }

  /** The addresses in order, repeats skipped, up to the first that is not IPv4. */
  ghost function ObserveFrom(list: Log, capacity: int, domain: Text, o: Observation, i: nat, seen: set<Addr>): (Log, bool)
    requires i <= |o.ips|
    decreases |o.ips| - i
  {
    if i == |o.ips| then (list, true)
    else if !o.ips[i].IPv4? then (list, false)
    else if o.ips[i] in seen then ObserveFrom(list, capacity, domain, o, i + 1, seen)
    else
      ObserveFrom(ObserveOne(list, capacity, Key(domain, o.action, o.ips[i]), o.expires), capacity, domain, o, i + 1,
                  seen + {o.ips[i]})
  }

  ghost function ObserveAll(list: Log, capacity: int, o: Observation): (Log, bool)
  {
    if o.action == Unknown || o.expires == ZERO_TIME || Normalize(o.domain) == None then (list, false)
    else ObserveFrom(list, capacity, Normalize(o.domain).value, o, 0, {})
  }

  ghost predicate Learned(list: Log, ip: Addr, action: Action)
  {
    exists e :: e in list && e.key.ip == ip && e.key.action == action
  }

  ghost function Scan(list: Log, ip: Addr): Decision
  {
    var direct, proxy := Learned(list, ip, Direct), Learned(list, ip, Proxy);
    LearnedDecision(if proxy then Proxy else if direct then Direct else Unknown, direct, proxy, direct && proxy)
  }

  // ----- Elementary events, and what they leave in the expiry heap -----

  /** One key recorded, or a time at which the table was expired. */
  datatype Event = Saw(key: Key, expires: int) | Tick(now: int)

  ghost function SeenFrom(domain: Text, o: Observation, i: nat, seen: set<Addr>): seq<Event>
    requires i <= |o.ips|
    decreases |o.ips| - i
  {
    if i == |o.ips| || !o.ips[i].IPv4? then []
    else if o.ips[i] in seen then SeenFrom(domain, o, i + 1, seen)
    else [Saw(Key(domain, o.action, o.ips[i]), o.expires)] + SeenFrom(domain, o, i + 1, seen + {o.ips[i]})
  }

  ghost function Seen(o: Observation): seq<Event>
  {
    if o.action == Unknown || o.expires == ZERO_TIME || Normalize(o.domain) == None then []
    else SeenFrom(Normalize(o.domain).value, o, 0, {})
  }

  ghost function Later(items: seq<Item<Key>>, now: int): seq<Item<Key>>
  {
    if items == [] then []
    else (if items[0].expires > now then [items[0]] else []) + Later(items[1..], now)
  }

  ghost function HeapAfter(items: seq<Item<Key>>, events: seq<Event>): seq<Item<Key>>
  {
    if events == [] then items
    else
      var before := HeapAfter(items, events[..|events| - 1]);
      match events[|events| - 1]
      case Saw(key, expires) => before + [Item(key, expires)]
      case Tick(now) => Later(before, now)
  }

  lemma {:induction false} LaterCount(items: seq<Item<Key>>, now: int, x: Item<Key>)
    ensures multiset(Later(items, now))[x] == if x.expires > now then multiset(items)[x] else 0
  {
    if items == [] {
    } else {
      LaterCount(items[1..], now, x);
      assert items == [items[0]] + items[1..];
    }
  }

  lemma {:induction false} LaterSame(a: seq<Item<Key>>, b: seq<Item<Key>>, now: int)
    requires multiset(a) == multiset(b)
    ensures multiset(Later(a, now)) == multiset(Later(b, now))
  {
    forall x ensures multiset(Later(a, now))[x] == multiset(Later(b, now))[x] {
      LaterCount(a, now, x);
      LaterCount(b, now, x);
    }
  }

  lemma {:induction false} LaterPopped(items: seq<Item<Key>>, rest: seq<Item<Key>>, item: Item<Key>, now: int)
    requires multiset(items) == multiset(rest) + multiset{item} && item.expires <= now
    ensures multiset(Later(rest, now)) == multiset(Later(items, now))
  {
    forall x ensures multiset(Later(rest, now))[x] == multiset(Later(items, now))[x] {
      LaterCount(items, now, x);
      LaterCount(rest, now, x);
    }
  }

  lemma {:induction false} HeapSame(a: seq<Item<Key>>, b: seq<Item<Key>>, events: seq<Event>)
    requires multiset(a) == multiset(b)
    ensures multiset(HeapAfter(a, events)) == multiset(HeapAfter(b, events))
  {
    if events == [] {
    } else {
      var init, last := events[..|events| - 1], events[|events| - 1];
      HeapSame(a, b, init);
      if last.Tick? {
        LaterSame(HeapAfter(a, init), HeapAfter(b, init), last.now);
      }
    }
  }

  lemma {:induction false} HeapNone(items: seq<Item<Key>>)
    ensures HeapAfter(items, []) == items
  {
  }

  lemma {:induction false} HeapSaw(items: seq<Item<Key>>, events: seq<Event>, key: Key, expires: int)
    ensures HeapAfter(items, events + [Saw(key, expires)]) == HeapAfter(items, events) + [Item(key, expires)]
  {
    assert (events + [Saw(key, expires)])[..|events|] == events;
  }

  lemma {:induction false} HeapConcat(items: seq<Item<Key>>, a: seq<Event>, b: seq<Event>)
    ensures HeapAfter(items, a + b) == HeapAfter(HeapAfter(items, a), b)
  {
    if b == [] {
      assert a + b == a;
    } else {
      HeapConcat(items, a, b[..|b| - 1]);
      assert (a + b)[..|a + b| - 1] == a + b[..|b| - 1];
    }
  }

  // ----- The entry map read in LRU order -----

  ghost predicate Distinct<T>(s: seq<T>)
  {
    forall i, j :: 0 <= i < j < |s| ==> s[i] != s[j]
  }

  function RemoveKey(lru: seq<Key>, key: Key): (r: seq<Key>)
  {
    if lru == [] then []
    else if lru[0] == key then RemoveKey(lru[1..], key)
    else [lru[0]] + RemoveKey(lru[1..], key)
  }

  ghost function Zip(lru: seq<Key>, entries: map<Key, int>): Log
    requires forall k :: k in lru ==> k in entries
  {
    if lru == [] then [] else [Entry(lru[0], entries[lru[0]])] + Zip(lru[1..], entries)
  }

  lemma {:induction false} RemoveKeyElements(lru: seq<Key>, key: Key)
    ensures forall k :: k in RemoveKey(lru, key) <==> k in lru && k != key
    ensures |RemoveKey(lru, key)| <= |lru|
    ensures Distinct(lru) ==> Distinct(RemoveKey(lru, key))
    ensures Distinct(lru) && key in lru ==> |RemoveKey(lru, key)| == |lru| - 1
    ensures key !in lru ==> RemoveKey(lru, key) == lru
  {
    if lru == [] {
    } else {
      var rest := RemoveKey(lru[1..], key);
      RemoveKeyElements(lru[1..], key);
      assert forall k :: k in lru <==> k == lru[0] || k in lru[1..];
      if Distinct(lru) {
        assert lru[0] !in rest;
        DistinctCons(lru[0], rest);
      }
    }
  }

  lemma {:induction false} DistinctCons<T>(x: T, s: seq<T>)
    requires Distinct(s) && x !in s
    ensures Distinct([x] + s) && Distinct(s + [x])
  {
  }

  lemma {:induction false} ZipElements(lru: seq<Key>, entries: map<Key, int>)
    requires forall k :: k in lru ==> k in entries
    ensures |Zip(lru, entries)| == |lru|
    ensures forall i :: 0 <= i < |lru| ==> Zip(lru, entries)[i] == Entry(lru[i], entries[lru[i]])
  {
    if lru == [] {
    } else {
      ZipElements(lru[1..], entries);
    }
  }

  /** Entries that the list does not mention do not matter. */
  lemma {:induction false} ZipSame(lru: seq<Key>, a: map<Key, int>, b: map<Key, int>)
    requires forall k :: k in lru ==> k in a && k in b && a[k] == b[k]
    ensures Zip(lru, a) == Zip(lru, b)
  {
    if lru == [] {
    } else {
      ZipSame(lru[1..], a, b);
    }
  }

  lemma {:induction false} ZipRemove(lru: seq<Key>, entries: map<Key, int>, key: Key)
    requires forall k :: k in lru ==> k in entries
    ensures forall k :: k in RemoveKey(lru, key) ==> k in entries
    ensures Zip(RemoveKey(lru, key), entries) == Without(Zip(lru, entries), key)
  {
    RemoveKeyElements(lru, key);
    if lru == [] {
    } else {
      ZipRemove(lru[1..], entries, key);
    }
  }

  lemma {:induction false} ZipAppend(lru: seq<Key>, entries: map<Key, int>, key: Key)
    requires key in entries && forall k :: k in lru ==> k in entries
    ensures Zip(lru + [key], entries) == Zip(lru, entries) + [Entry(key, entries[key])]
  {
    if lru == [] {
      assert lru + [key] == [key];
    } else {
      assert (lru + [key])[1..] == lru[1..] + [key];
      ZipAppend(lru[1..], entries, key);
    }
  }

  /** Dropping the front key of a duplicate-free list is dropping its first entry. */
  lemma {:induction false} WithoutFront(list: Log)
    requires list != [] && forall i :: 0 < i < |list| ==> list[i].key != list[0].key
    ensures Without(list, list[0].key) == list[1..]
  {
    WithoutAbsent(list[1..], list[0].key);
  }

  lemma {:induction false} WithoutAbsent(list: Log, key: Key)
    requires forall i :: 0 <= i < |list| ==> list[i].key != key
    ensures Without(list, key) == list
  {
    if list == [] {
    } else {
      WithoutAbsent(list[1..], key);
    }
  }

  /** Removing a key whose every entry has run out changes nothing that is live. */
  lemma {:induction false} LiveWithout(list: Log, key: Key, now: int)
    requires forall e :: e in list && e.key == key ==> e.expires <= now
    ensures Live(Without(list, key), now) == Live(list, now)
  {
    if list == [] {
    } else {
      assert list[0] in list && forall e :: e in list[1..] ==> e in list;
      LiveWithout(list[1..], key, now);
    }
  }

  lemma {:induction false} LiveAll(list: Log, now: int)
    requires forall e :: e in list ==> e.expires > now
    ensures Live(list, now) == list
  {
    if list == [] {
    } else {
      assert list[0] in list && forall e :: e in list[1..] ==> e in list;
      LiveAll(list[1..], now);
    }
  }

  lemma {:induction false} WithoutElements(list: Log, key: Key)
    ensures forall e :: e in Without(list, key) <==> e in list && e.key != key
  {
    if list == [] {
    } else {
      WithoutElements(list[1..], key);
      assert forall e :: e in list <==> e == list[0] || e in list[1..];
    }
  }

  lemma {:induction false} DistinctSize(lru: seq<Key>, keys: set<Key>)
    requires Distinct(lru) && forall k :: k in lru <==> k in keys
    ensures |lru| == |keys|
  {
    if lru == [] {
      assert keys == {};
    } else {
      assert forall k :: k in lru <==> k == lru[0] || k in lru[1..];
      DistinctSize(lru[1..], keys - {lru[0]});
    }
  }

  // ----- The reverse index -----

  /** `byIP` is the exact inverse of the entries, without empty buckets. */
  ghost predicate Inverse(byIP: map<Addr, set<Key>>, keys: set<Key>)
  {
    && (forall ip :: ip in byIP ==> byIP[ip] != {})
    && (forall ip, k :: ip in byIP && k in byIP[ip] ==> k in keys && k.ip == ip)
    && (forall k :: k in keys ==> k.ip in byIP && k in byIP[k.ip])
  }

  function Unindex(byIP: map<Addr, set<Key>>, key: Key): (r: map<Addr, set<Key>>)
    requires key.ip in byIP
  {
    var bucket := byIP[key.ip] - {key};
    if bucket == {} then byIP - {key.ip} else byIP[key.ip := bucket]
  }

  function Index(byIP: map<Addr, set<Key>>, key: Key): (r: map<Addr, set<Key>>)
  {
    byIP[key.ip := (if key.ip in byIP then byIP[key.ip] else {}) + {key}]
  }

  lemma {:induction false} UnindexInverts(byIP: map<Addr, set<Key>>, keys: set<Key>, key: Key)
    requires Inverse(byIP, keys) && key in keys
    ensures key.ip in byIP && Inverse(Unindex(byIP, key), keys - {key})
  {
  }

  lemma {:induction false} IndexInverts(byIP: map<Addr, set<Key>>, keys: set<Key>, key: Key)
    requires Inverse(byIP, keys)
    ensures Inverse(Index(byIP, key), keys + {key})
  {
  }

  // ----- The table -----

  class LearningTable {
    const capacity: int
    var entries: map<Key, int>
    var byIP: map<Addr, set<Key>>
    var expirations: seq<Item<Key>>
    var lru: seq<Key>

    /** The LRU list holds each entry once, and the reverse index is exact without empty buckets. */
    ghost predicate Indexed()
      reads this
    {
      Distinct(lru) && (forall k :: k in lru <==> k in entries) && Inverse(byIP, entries.Keys)
    }

    /** Every entry has a heap item that carries its current expiry; other items may be stale. */
    ghost predicate Covered()
      reads this
    {
      IsHeap(expirations) && forall k :: k in entries ==> Item(k, entries[k]) in expirations
    }

    ghost predicate Valid()
      reads this
    {
      capacity >= 1 && Indexed() && Covered() && |lru| <= capacity
    }

    /** The list this table stands for. */
    ghost function View(): Log
      requires Indexed()
      reads this
    {
      Zip(lru, entries)
    }

    constructor (wanted: int)
      ensures Valid() && View() == [] && expirations == [] && capacity == if wanted < 1 then 1 else wanted
    {
      capacity := if wanted < 1 then 1 else wanted;
      entries, byIP, expirations, lru := map[], map[], [], [];
    }

    lemma {:induction false} ViewElements()
      requires Indexed()
      ensures |View()| == |lru| == |entries|
      ensures forall i :: 0 <= i < |lru| ==> View()[i] == Entry(lru[i], entries[lru[i]])
      ensures forall e :: e in View() <==> e.key in entries && e.expires == entries[e.key]
    {
      ZipElements(lru, entries);
      DistinctSize(lru, entries.Keys);
      forall e: Entry | e.key in entries && e.expires == entries[e.key] ensures e in View() {
        var i :| 0 <= i < |lru| && lru[i] == e.key;
        assert View()[i] == e;
      }
    }

    method RemoveLocked(key: Key)
      requires Indexed()
      modifies this`entries, this`byIP, this`lru
      ensures Indexed() && View() == old(Without(View(), key))
      ensures entries == old(entries) - {key}
      ensures old(key in entries) ==> |lru| == |old(lru)| - 1
    {
      hide Inverse;
      ZipRemove(lru, entries, key);
      RemoveKeyElements(lru, key);
      if key !in entries {
        return;
      }
      UnindexInverts(byIP, entries.Keys, key);
      lru := RemoveKey(lru, key);
      entries := entries - {key};
      ZipSame(lru, entries, old(entries));
      byIP := Unindex(byIP, key);
      assert entries.Keys == old(entries).Keys - {key};
    }

    /** One iteration of Observe: refresh a known key, or make room and insert. */
    method ObserveKey(key: Key, expires: int)
      requires Valid()
      modifies this`entries, this`byIP, this`lru, this`expirations
      ensures Valid() && View() == old(ObserveOne(View(), capacity, key, expires))
      ensures multiset(expirations) == multiset(old(expirations)) + multiset{Item(key, expires)}
    {
      hide Inverse, Distinct, IsHeap;
      HasKey(key);
      if key in entries {
        Refresh(key, expires);
      } else {
        MakeRoom();
        Insert(key, expires);
      }
      PushItem(Item(key, expires));
    }

    lemma {:induction false} HasKey(key: Key)
      requires Indexed()
      ensures Has(View(), key) <==> key in entries
      ensures |View()| == |lru|
    {
      ViewElements();
      if key in entries {
        assert Entry(key, entries[key]) in View();
      }
    }

    /** Evicts from the front until one more entry fits. */
    method MakeRoom()
      requires Valid()
      modifies this`entries, this`byIP, this`lru
      ensures Indexed() && Covered() && |lru| < capacity && entries.Keys <= old(entries).Keys
      ensures View() == old(if capacity <= |View()| then View()[|View()| - capacity + 1..] else View())
    {
      hide Inverse, Distinct, IsHeap, Without, Zip, View;
      ghost var was, n := View(), 0;
      ViewSize();
      while |entries| >= capacity
        invariant Indexed() && Covered() && |entries| == |lru| == |was| - n && entries.Keys <= old(entries).Keys
        invariant 0 <= n <= |was| && View() == was[n..]
        invariant n > 0 ==> |lru| >= capacity - 1
        decreases |lru|
      {
        FrontOfView();
        RemoveLocked(lru[0]);
        ViewSize();
        assert was[n..][1..] == was[n + 1..];
        n := n + 1;
      }
    }

    lemma {:induction false} ViewSize()
      requires Indexed()
      ensures |View()| == |lru| == |entries|
    {
      ViewElements();
    }

    method PushItem(item: Item<Key>)
      requires IsHeap(expirations)
      requires forall k :: k in entries && Item(k, entries[k]) != item ==> Item(k, entries[k]) in expirations
      modifies this`expirations
      ensures Covered() && multiset(expirations) == multiset(old(expirations)) + multiset{item}
    {
      hide IsHeap;
      expirations := Push(expirations, item);
      forall k | k in entries ensures Item(k, entries[k]) in expirations {
        assert Item(k, entries[k]) in multiset(expirations);
      }
    }

    lemma {:induction false} FrontOfView()
      requires Indexed() && lru != []
      ensures Without(View(), lru[0]) == View()[1..]
    {
      ViewElements();
      WithoutFront(View());
    }

    method Refresh(key: Key, expires: int)
      requires Indexed() && key in entries
      modifies this`entries, this`lru
      ensures Indexed() && View() == old(Without(View(), key)) + [Entry(key, expires)]
      ensures entries == old(entries)[key := expires] && |lru| == |old(lru)|
    {
      hide Inverse, Distinct;
      ZipRemove(lru, entries, key);
      RemoveKeyElements(lru, key);
      var others := RemoveKey(lru, key);
      entries := entries[key := expires];
      DistinctCons(key, others);
      lru := others + [key];
      assert entries.Keys == old(entries).Keys;
      ZipSame(others, entries, old(entries));
      ZipAppend(others, entries, key);
    }

    method Insert(key: Key, expires: int)
      requires Indexed() && key !in entries
      modifies this`entries, this`byIP, this`lru
      ensures Indexed() && View() == old(View()) + [Entry(key, expires)]
      ensures entries == old(entries)[key := expires] && |lru| == |old(lru)| + 1
    {
      hide Inverse, Distinct;
      entries := entries[key := expires];
      ZipSame(lru, entries, old(entries));
      ZipAppend(lru, entries, key);
      DistinctCons(key, lru);
      lru := lru + [key];
      IndexInverts(byIP, old(entries).Keys, key);
      byIP := Index(byIP, key);
      assert entries.Keys == old(entries).Keys + {key};
    }

    method Observe(o: Observation) returns (ok: bool)
      requires Valid()
      modifies this`entries, this`byIP, this`lru, this`expirations
      ensures Valid() && (View(), ok) == old(ObserveAll(View(), capacity, o))
      ensures multiset(expirations) == multiset(old(HeapAfter(expirations, Seen(o))))
    {
      hide Indexed, Covered, View, Normalize, ObserveFrom, SeenFrom;
      if o.action != Direct && o.action != Proxy {
        return false;
      }
      if o.expires == ZERO_TIME {
        return false;
      }
      var domain := NormalizeDomain(o.domain);
      if domain == None {
        return false;
      }
      ok := ObserveAddresses(domain.value, o);
    }

    /** The loop of Observe. */
    method ObserveAddresses(domain: Text, o: Observation) returns (ok: bool)
      requires Valid()
      modifies this`entries, this`byIP, this`lru, this`expirations
      ensures Valid() && (View(), ok) == old(ObserveFrom(View(), capacity, domain, o, 0, {}))
      ensures multiset(expirations) == multiset(old(HeapAfter(expirations, SeenFrom(domain, o, 0, {}))))
    {
      hide Indexed, Covered, View, ObserveOne, HeapAfter;
      var seen: set<Addr> := {};
      ghost var done: seq<Event> := [];
      HeapNone(expirations);
      for i := 0 to |o.ips|
        invariant Valid()
        invariant old(ObserveFrom(View(), capacity, domain, o, 0, {})) == ObserveFrom(View(), capacity, domain, o, i, seen)
        invariant done + SeenFrom(domain, o, i, seen) == SeenFrom(domain, o, 0, {})
        invariant multiset(expirations) == multiset(old(HeapAfter(expirations, done)))
      {
        var ip := o.ips[i];
        if !ip.IPv4? {
          assert done + [] == done;
          return false;
        }
        if ip in seen {
          continue;
        }
        var key := Key(domain, o.action, ip);
        HeapSaw(old(expirations), done, key, o.expires);
        assert done + [Saw(key, o.expires)] + SeenFrom(domain, o, i + 1, seen + {ip}) == SeenFrom(domain, o, 0, {});
        seen, done := seen + {ip}, done + [Saw(key, o.expires)];
        ObserveKey(key, o.expires);
      }
      assert done + [] == done;
      ok := true;
    }

    method LookupLocked(ip: Addr) returns (r: Decision)
      requires Indexed()
      ensures r == Scan(View(), ip)
    {
      var direct, proxy := false, false;
      var bucket := if ip in byIP then byIP[ip] else {};
      var todo := bucket;
      while todo != {}
        invariant todo <= bucket
        invariant direct <==> exists k :: k in bucket - todo && k.action == Direct
        invariant proxy <==> exists k :: k in bucket - todo && k.action == Proxy
        decreases todo
      {
        var key :| key in todo;
        todo := todo - {key};
        match key.action {
          case Direct => direct := true;
          case Proxy => proxy := true;
          case Unknown =>
        }
        assert bucket - todo == bucket - (todo + {key}) + {key};
      }
      ViewElements();
      forall a ensures Learned(View(), ip, a) <==> exists k :: k in bucket && k.action == a {
        forall k | k in bucket && k.action == a ensures Learned(View(), ip, a) {
          assert Entry(k, entries[k]) in View();
        }
      }
      r := LearnedDecision(if proxy then Proxy else if direct then Direct else Unknown, direct, proxy, direct && proxy);
    }

    /** Only the entry of the popped item, if it is not stale, loses its cover. */
    method PopItem() returns (item: Item<Key>)
      requires Covered() && expirations != []
      modifies this`expirations
      ensures item == old(expirations)[0] && |expirations| < |old(expirations)| && IsHeap(expirations)
      ensures multiset(old(expirations)) == multiset(expirations) + multiset{item}
      ensures forall k :: k in entries && Item(k, entries[k]) != item ==> Item(k, entries[k]) in expirations
    {
      item, expirations := Pop(expirations);
      assert |multiset(old(expirations))| == |multiset(expirations)| + 1;
      forall k | k in entries && Item(k, entries[k]) != item ensures Item(k, entries[k]) in expirations {
        assert Item(k, entries[k]) in multiset(old(expirations));
        assert Item(k, entries[k]) in multiset(expirations);
      }
    }

    lemma {:induction false} NothingLost(now: int)
      requires Valid() && (expirations == [] || expirations[0].expires > now)
      ensures Live(View(), now) == View() && Lost(View(), now) == {}
    {
      ViewElements();
      forall e | e in View() ensures e.expires > now {
        var i :| 0 <= i < |expirations| && expirations[i] == Item(e.key, e.expires);
        RootIsMin(expirations, i);
      }
      LiveAll(View(), now);
    }

    method PopDue(now: int) returns (item: Item<Key>)
      requires Covered() && expirations != [] && expirations[0].expires <= now
      modifies this`expirations
      ensures item == old(expirations)[0] && |expirations| < |old(expirations)| && IsHeap(expirations)
      ensures multiset(Later(expirations, now)) == multiset(old(Later(expirations, now)))
      ensures forall k :: k in entries && Item(k, entries[k]) != item ==> Item(k, entries[k]) in expirations
    {
      hide Later;
      item := PopItem();
      LaterPopped(old(expirations), expirations, item, now);
    }

    lemma {:induction false} NothingDue(now: int)
      requires Covered() && (expirations == [] || expirations[0].expires > now)
      ensures multiset(Later(expirations, now)) == multiset(expirations)
    {
      forall x ensures multiset(Later(expirations, now))[x] == multiset(expirations)[x] {
        LaterCount(expirations, now, x);
        if x in expirations {
          var i :| 0 <= i < |expirations| && expirations[i] == x;
          RootIsMin(expirations, i);
        }
      }
    }

    /** Exact despite lazy deletion: the survivors are the entries that have not run out. */
    method ExpireLocked(now: int) returns (result: seq<Addr>)
      requires Valid()
      modifies this`entries, this`byIP, this`lru, this`expirations
      ensures Valid() && View() == old(Live(View(), now))
      ensures Distinct(result) && forall ip :: ip in result <==> ip in old(Lost(View(), now))
      ensures multiset(expirations) == multiset(old(Later(expirations, now)))
    {
      hide Inverse, Distinct, IsHeap, Later, Live, Zip;
      var changed: set<Addr> := {};
      while expirations != [] && !(expirations[0].expires > now)
        invariant Valid()
        invariant Live(View(), now) == old(Live(View(), now))
        invariant changed + Lost(View(), now) == old(Lost(View(), now))
        invariant multiset(Later(expirations, now)) == multiset(old(Later(expirations, now)))
        decreases |expirations|
      {
        var item := PopDue(now);
        if item.key !in entries || entries[item.key] != item.expires {
          continue;
        }
        changed := changed + {item.key.ip};
        DropExpired(item.key, now);
      }
      NothingLost(now);
      NothingDue(now);
      result := Elements(changed);
    }

    method Lookup(ip: Addr, now: int) returns (r: Decision)
      requires Valid()
      modifies this`entries, this`byIP, this`lru, this`expirations
      ensures Valid() && View() == old(Live(View(), now))
      ensures r == Scan(View(), ip)
      ensures multiset(expirations) == multiset(old(Later(expirations, now)))
    {
      var _ := ExpireLocked(now);
      r := LookupLocked(ip);
    }

    method Expire(now: int) returns (result: seq<Addr>)
      requires Valid()
      modifies this`entries, this`byIP, this`lru, this`expirations
      ensures Valid() && View() == old(Live(View(), now))
      ensures Distinct(result) && forall ip :: ip in result <==> ip in old(Lost(View(), now))
      ensures multiset(expirations) == multiset(old(Later(expirations, now)))
    {
      result := ExpireLocked(now);
    }

    method Snapshot(now: int) returns (result: map<Addr, Decision>)
      requires Valid()
      modifies this`entries, this`byIP, this`lru, this`expirations
      ensures Valid() && View() == old(Live(View(), now))
      ensures result == map ip | ip in IPs(View()) :: Scan(View(), ip)
      ensures multiset(expirations) == multiset(old(Later(expirations, now)))
    {
      var _ := ExpireLocked(now);
      result := Decisions();
      IndexedIPs();
    }

    method Decisions() returns (result: map<Addr, Decision>)
      requires Indexed()
      ensures result == map ip | ip in byIP.Keys :: Scan(View(), ip)
    {
      hide Scan, Indexed, View;
      result := map[];
      var todo := byIP.Keys;
      while todo != {}
        invariant todo <= byIP.Keys && result.Keys == byIP.Keys - todo
        invariant forall ip :: ip in result ==> result[ip] == Scan(View(), ip)
        decreases todo
      {
        var ip :| ip in todo;
        var decision := LookupLocked(ip);
        result := result[ip := decision];
        todo := todo - {ip};
      }
    }

    lemma {:induction false} IndexedIPs()
      requires Indexed()
      ensures byIP.Keys == IPs(View())
    {
      ViewElements();
      forall ip | ip in byIP ensures ip in IPs(View()) {
        var k :| k in byIP[ip];
        assert Entry(k, entries[k]) in View();
      }
    }

    /** Removing an entry that has run out leaves the live part of the list alone. */
    method DropExpired(key: Key, now: int)
      requires Indexed() && key in entries && entries[key] <= now
      modifies this`entries, this`byIP, this`lru
      ensures Indexed() && entries == old(entries) - {key} && |lru| == |old(lru)| - 1
      ensures Live(View(), now) == old(Live(View(), now))
      ensures old(Lost(View(), now)) == Lost(View(), now) + {key.ip}
    {
      hide Inverse, Distinct;
      ViewElements();
      LiveWithout(View(), key, now);
      WithoutElements(View(), key);
      assert Entry(key, entries[key]) in View();
      RemoveLocked(key);
    }
  }

  // ----- Whole runs -----

  datatype Op = Observing(o: Observation) | Looking(ip: Addr, now: int) | Expiring(now: int) | Snapshotting(now: int)

  datatype Reply = Observed(ok: bool) | Found(decision: Decision) | Gone(ips: set<Addr>) | All(decisions: map<Addr, Decision>)

  ghost function EventsOf(op: Op): seq<Event>
  {
    match op
    case Observing(o) => Seen(o)
    case Looking(_, now) => [Tick(now)]
    case Expiring(now) => [Tick(now)]
    case Snapshotting(now) => [Tick(now)]
  }

  ghost function AllEvents(ops: seq<Op>): seq<Event>
  {
    if ops == [] then [] else AllEvents(ops[..|ops| - 1]) + EventsOf(ops[|ops| - 1])
  }

  ghost function Apply(list: Log, capacity: int, op: Op): (Log, Reply)
  {
    match op
    case Observing(o) => var (next, ok) := ObserveAll(list, capacity, o); (next, Observed(ok))
    case Looking(ip, now) => (Live(list, now), Found(Scan(Live(list, now), ip)))
    case Expiring(now) => (Live(list, now), Gone(Lost(list, now)))
    case Snapshotting(now) =>
      (Live(list, now), All(map ip | ip in IPs(Live(list, now)) :: Scan(Live(list, now), ip)))
  }

  /** The list and the replies after a sequence of operations on an empty list. */
  ghost function Run(capacity: int, ops: seq<Op>): (Log, seq<Reply>)
  {
    if ops == [] then ([], [])
    else
      var (list, replies) := Run(capacity, ops[..|ops| - 1]);
      var (next, reply) := Apply(list, capacity, ops[|ops| - 1]);
      (next, replies + [reply])
  }

  ghost predicate UniqueKeys(list: Log)
  {
    forall i, j :: 0 <= i < j < |list| ==> list[i].key != list[j].key
  }

  /** An entry was recorded by operation `i`, and no later operation saw a time at which it had run out. */
  ghost predicate RecordedBy(ops: seq<Op>, i: nat, e: Entry)
  {
    && i < |ops| && ops[i].Observing?
    && Normalize(ops[i].o.domain) == Some(e.key.domain) && ops[i].o.action == e.key.action
    && e.key.ip in ops[i].o.ips && ops[i].o.expires == e.expires
    && forall j :: i < j < |ops| && !ops[j].Observing? ==> ops[j].now < e.expires
  }

  lemma {:induction false} LiveElements(list: Log, now: int)
    ensures |Live(list, now)| <= |list| && (UniqueKeys(list) ==> UniqueKeys(Live(list, now)))
    ensures forall e :: e in Live(list, now) <==> e in list && e.expires > now
  {
    if list == [] {
    } else {
      LiveElements(list[1..], now);
      assert forall e :: e in list <==> e == list[0] || e in list[1..];
      var rest := Live(list[1..], now);
      if UniqueKeys(list) {
        assert UniqueKeys(list[1..]);
        forall i | 0 <= i < |rest| ensures rest[i].key != list[0].key {
          assert rest[i] in list[1..];
        }
      }
    }
  }

  lemma {:induction false} WithoutUnique(list: Log, key: Key)
    requires UniqueKeys(list)
    ensures UniqueKeys(Without(list, key)) && |Without(list, key)| <= |list|
    ensures Has(list, key) ==> |Without(list, key)| < |list|
  {
    if list == [] {
    } else {
      var rest := Without(list[1..], key);
      WithoutUnique(list[1..], key);
      WithoutElements(list[1..], key);
      forall i | 0 <= i < |rest| ensures rest[i].key != list[0].key {
        assert rest[i] in list[1..];
      }
      assert Has(list, key) && list[0].key != key ==> Has(list[1..], key);
    }
  }

  lemma {:induction false} ObserveOneElements(list: Log, capacity: int, key: Key, expires: int)
    requires capacity >= 1 && UniqueKeys(list) && |list| <= capacity
    ensures UniqueKeys(ObserveOne(list, capacity, key, expires)) && |ObserveOne(list, capacity, key, expires)| <= capacity
    ensures forall e :: e in ObserveOne(list, capacity, key, expires) ==> e in list || e == Entry(key, expires)
  {
    WithoutUnique(list, key);
    WithoutElements(list, key);
    if Has(list, key) {
      var kept := Without(list, key);
      forall i | 0 <= i < |kept| ensures kept[i].key != key {
        assert kept[i] in kept;
      }
    }
  }

  lemma {:induction false} ObserveFromElements(list: Log, capacity: int, domain: Text, o: Observation, i: nat, seen: set<Addr>)
    requires i <= |o.ips| && capacity >= 1 && UniqueKeys(list) && |list| <= capacity
    ensures var r := ObserveFrom(list, capacity, domain, o, i, seen).0;
            && UniqueKeys(r) && |r| <= capacity
            && forall e :: e in r ==> e in list ||
                                      (e.expires == o.expires && e.key.domain == domain && e.key.action == o.action && e.key.ip in o.ips)
    decreases |o.ips| - i
  {
    if i == |o.ips| || !o.ips[i].IPv4? {
    } else {
      if o.ips[i] in seen {
        ObserveFromElements(list, capacity, domain, o, i + 1, seen);
      } else {
        var key := Key(domain, o.action, o.ips[i]);
        ObserveOneElements(list, capacity, key, o.expires);
        ObserveFromElements(ObserveOne(list, capacity, key, o.expires), capacity, domain, o, i + 1, seen + {o.ips[i]});
      }
    }
  }

  lemma {:induction false} EmptyUnique()
    ensures UniqueKeys([])
  {
  }

  /**
   * In every run the list stays within capacity with one entry a key, and holds nothing but
   * recorded observations that have not run out at any time seen since.
   */
  lemma {:induction false} RunInvariant(capacity: int, ops: seq<Op>)
    requires capacity >= 1
    ensures var list := Run(capacity, ops).0;
            && |list| <= capacity && UniqueKeys(list)
            && forall e :: e in list ==> exists i :: RecordedBy(ops, i, e)
  {
    hide Normalize, Live, UniqueKeys, ObserveFrom;
    if ops == [] {
      EmptyUnique();
    } else {
      var init, last := ops[..|ops| - 1], ops[|ops| - 1];
      var before, after := Run(capacity, init).0, Run(capacity, ops).0;
      RunInvariant(capacity, init);
      if last.Observing? {
        if Normalize(last.o.domain).Some? {
          ObserveFromElements(before, capacity, Normalize(last.o.domain).value, last.o, 0, {});
        }
      } else {
        LiveElements(before, last.now);
      }
      forall e | e in after ensures exists i :: RecordedBy(ops, i, e) {
        if e in before {
          var i :| RecordedBy(init, i, e);
          assert RecordedBy(ops, i, e);
        } else {
          assert RecordedBy(ops, |ops| - 1, e);
        }
      }
    }
  }

  method Perform(table: LearningTable, op: Op) returns (reply: Reply)
    requires table.Valid()
    modifies table
    ensures table.Valid() && (table.View(), reply) == old(Apply(table.View(), table.capacity, op))
    ensures multiset(table.expirations) == multiset(old(HeapAfter(table.expirations, EventsOf(op))))
  {
    hide Seen, Later, LearningTable.Indexed, LearningTable.Covered, LearningTable.View, Live, Scan, ObserveAll, IPs, Lost, Distinct;
    match op {
      case Observing(o) =>
        var ok := table.Observe(o);
        reply := Observed(ok);
      case Looking(ip, now) =>
        var decision := table.Lookup(ip, now);
        reply := Found(decision);
      case Expiring(now) =>
        var ips := table.Expire(now);
        reply := Gone(set ip | ip in ips);
        assert reply.ips == old(Lost(table.View(), now));
      case Snapshotting(now) =>
        var decisions := table.Snapshot(now);
        reply := All(decisions);
    }
  }

  /** Over every sequence of operations the table gives the replies of the plain list. */
  method Replay(wanted: int, ops: seq<Op>) returns (table: LearningTable, replies: seq<Reply>)
    ensures table.Valid() && table.capacity == if wanted < 1 then 1 else wanted
    ensures (table.View(), replies) == Run(table.capacity, ops)
    ensures multiset(table.expirations) == multiset(HeapAfter([], AllEvents(ops)))
  {
    hide EventsOf, Later, LearningTable.Indexed, LearningTable.Covered, LearningTable.View, Apply;
    table := new LearningTable(wanted);
    replies := [];
    for i := 0 to |ops|
      invariant fresh(table) && table.Valid() && table.Indexed()
      invariant table.capacity == if wanted < 1 then 1 else wanted
      invariant Run(table.capacity, ops[..i]) == (table.View(), replies)
      invariant multiset(table.expirations) == multiset(HeapAfter([], AllEvents(ops[..i])))
    {
      HeapSame(table.expirations, HeapAfter([], AllEvents(ops[..i])), EventsOf(ops[i]));
      HeapConcat([], AllEvents(ops[..i]), EventsOf(ops[i]));
      var reply := Perform(table, ops[i]);
      replies := replies + [reply];
      assert ops[..i + 1][..i] == ops[..i];
    }
    assert ops[..|ops|] == ops;
  }

  method Elements(s: set<Addr>) returns (r: seq<Addr>)
    ensures Distinct(r) && forall x :: x in r <==> x in s
  {
    r := [];
    var todo := s;
    while todo != {}
      invariant todo <= s && Distinct(r) && forall x :: x in r <==> x in s - todo
      decreases todo
    {
      var x :| x in todo;
      todo := todo - {x};
      DistinctCons(x, r);
      r := r + [x];
    }
  }
}
