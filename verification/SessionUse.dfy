/** What the time and the place of a session table's entry mean: its key's last use. */
module SessionUses {
  import opened Bytes
  import opened SessionTables

  /** Operation `op` uses `key` at `time`: it adds it, or looks it up. */
  ghost predicate Uses(op: Op, key: Key, time: int)
  {
    || (op.Add? && op.key == key && op.now == time)
    || (op.Get? && op.key == key && op.later == time)
  }

  ghost predicate UsesKey(op: Op, key: Key)
  {
    (op.Add? || op.Get?) && op.key == key
  }

  /** Operation `i` is the last use of `key`, at `time`. */
  ghost predicate LastUse(ops: seq<Op>, i: nat, key: Key, time: int)
  {
    i < |ops| && Uses(ops[i], key, time) && forall j :: i < j < |ops| ==> !UsesKey(ops[j], key)
  }

  /** After an operation an entry is one it used, at its time, or one that was there and was not used. */
  lemma {:induction false} ApplyUses(t: Table, capacity: int, idle: int, op: Op, e: Entry)
    requires capacity >= 1 && Ok(t, capacity) && e in Apply(t, capacity, idle, op).list
    ensures Uses(op, e.key, e.last) || (e in t.list && !UsesKey(op, e.key))
  {
    hide Keep, Idle, Without, Find, Sessions, Evicted, UniqueKeys;
    match op {
      case Get(key, now, later) =>
        var list := Keep(t.list, idle, now);
        KeepElements(t.list, idle, now);
        FindElement(list, key);
        WithoutElements(list, key);
      case Add(key, session, now) =>
        KeepElements(t.list, idle, now);
        ExpiredConserves(t, idle, now, capacity);
        RemovedConserves(Expired(t, idle, now), key, capacity);
        EvictedOrigin(Removed(Expired(t, idle, now), key), capacity);
      case Expire(now) => KeepElements(t.list, idle, now);
      case Remove(key, expected) => WithoutElements(t.list, key);
    }
  }

  /** In every run an entry's time is that of the last use of its key. */
  lemma {:induction false} LastIsLastUse(capacity: int, idle: int, ops: seq<Op>, e: Entry) returns (i: nat)
    requires capacity >= 1 && e in Run(capacity, idle, ops).list
    ensures LastUse(ops, i, e.key, e.last)
  {
    LastOp(capacity, idle, ops);
    hide Run, Apply, Ok, LastUse, Uses, UsesKey;
    var init, op := ops[..|ops| - 1], ops[|ops| - 1];
    RunConserves(capacity, idle, init);
    ApplyUses(Run(capacity, idle, init), capacity, idle, op, e);
    assert ops == init + [op];
    if Uses(op, e.key, e.last) {
      i := |init|;
      UsedNow(init, op, e.key, e.last);
    } else {
      i := LastIsLastUse(capacity, idle, init, e);
      UsedBefore(init, op, i, e.key, e.last);
    }
  }

  lemma {:induction false} UsedNow(ops: seq<Op>, op: Op, key: Key, time: int)
    requires Uses(op, key, time)
    ensures LastUse(ops + [op], |ops|, key, time)
  {
  }

  lemma {:induction false} UsedBefore(ops: seq<Op>, op: Op, i: nat, key: Key, time: int)
    requires LastUse(ops, i, key, time) && !UsesKey(op, key)
    ensures LastUse(ops + [op], i, key, time)
  {
  }

  /**
   * So what an add evicts from a full table is least recently used in the operations themselves: its
   * key's last use came no later than that of any entry that stays.
   */
  lemma {:induction false} EvictedByLastUse(capacity: int, idle: int, ops: seq<Op>, start: int, key: Key, session: Session, now: int,
                                            gone: Entry, kept: Entry) returns (i: nat, j: nat)
    requires capacity >= 1 && Monotone(ops + [Add(key, session, now)], start)
    requires var t, t' := Run(capacity, idle, ops), Run(capacity, idle, ops + [Add(key, session, now)]);
             && gone in t.list && gone.key != key && gone.last + idle > now && gone !in t'.list
             && kept in t'.list
    ensures LastUse(ops, i, gone.key, gone.last)
    ensures LastUse(ops + [Add(key, session, now)], j, kept.key, kept.last) && gone.last <= kept.last
  {
    hide Run, Monotone;
    i := LastIsLastUse(capacity, idle, ops, gone);
    j := LastIsLastUse(capacity, idle, ops + [Add(key, session, now)], kept);
    EvictsLeastRecentlyUsed(capacity, idle, ops, start, key, session, now, gone, kept);
  }

  /** A lookup that finds a session makes its entry the most recently used. */
  lemma {:induction false} FoundIsNewest(capacity: int, idle: int, ops: seq<Op>, key: Key, now: int, later: int)
    requires capacity >= 1
    ensures var t := Run(capacity, idle, ops);
            var t' := Run(capacity, idle, ops + [Get(key, now, later)]);
            var found := Got(t, idle, key, now, later).1;
            found.Some? ==> t'.list != [] && t'.list[|t'.list| - 1] == Entry(key, found.value, later)
  {
    hide Run, Keep, Idle, Without, Find;
    var t := Run(capacity, idle, ops);
    LastOp(capacity, idle, ops + [Get(key, now, later)]);
    assert (ops + [Get(key, now, later)])[..|ops|] == ops;
    FindElement(Keep(t.list, idle, now), key);
  }

  /** A lookup finds a session exactly if the table holds an entry of the key that has not been idle too long. */
  lemma {:induction false} FoundExactly(capacity: int, idle: int, ops: seq<Op>, key: Key, now: int, later: int, session: Session)
    requires capacity >= 1
    ensures Got(Run(capacity, idle, ops), idle, key, now, later).1 == Some(session) <==>
            exists e :: e in Run(capacity, idle, ops).list && e.key == key && e.session == session && e.last + idle > now
  {
    hide Run, Keep, Idle, Without, Find;
    var t := Run(capacity, idle, ops);
    RunConserves(capacity, idle, ops);
    KeepElements(t.list, idle, now);
    FindElement(Keep(t.list, idle, now), key);
    forall a, b | a in t.list && b in t.list && a.key == b.key ensures a == b {
    }
  }
}
