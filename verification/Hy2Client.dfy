/**
 * reconnectableCore (internal/transport/hy2/reconnect.go) under Client.Dial and OpenPacket
 * (internal/transport/hy2/client.go), reporting to the status tracker. Any number of dials run at
 * once; each has a caller, a worker goroutine and, after cancellation, a cleaner goroutine.
 */
module Hy2Client {
  import opened Basics
  import opened Bytes
  import opened Hy2Status

  /** coreErrs.DialError, coreErrs.ClosedError, or any other error. */
  datatype Err = DialErr | ClosedErr | OtherErr

  /** What core.TCP or core.UDP returns: an open connection exactly when there is no error. */
  datatype Res = Res(sequence: nat, err: Option<Err>)

  /** Clients are named by the generation of the handshake that made them. */
  datatype Core = Core(client: Option<nat>, sequence: nat, closed: bool)

  datatype Worker =
    | Unborn
    | Entering                              // clientDo's first locked section
    | Calling(generation: nat)              // f(client), unlocked
    | Forgetting(generation: nat)           // ClosedError: drop the client if it is still this one
    | Finished(res: Res)                    // the result is in the channel

  datatype Caller =
    | Acquiring
    | Refused                               // cancelled before a slot was free
    | Waiting                               // result or cancellation
    | Releasing(res: Res)                   // result taken; slot still held
    | Reporting(res: Res)                   // slot released; failure event due
    | Returned(res: Res)
    | Cancelled

  datatype Cleaner = NoCleaner | Draining | Discarding | Freeing | Clean

  datatype Dial = Dial(kind: Stage, caller: Caller, worker: Worker, cleaner: Cleaner,
                       releases: nat, delivered: bool, discarded: bool)

  datatype State = State(core: Core, view: View, log: seq<Event>, capacity: nat, slots: nat, dials: map<nat, Dial>)

  function Init(capacity: nat): State
  {
    State(Core(None, 0, false), View(0, Idle), [], capacity, 0, map[])
  }

  datatype Action =
    | Begin(i: nat, udp: bool)
    | Acquire(i: nat)
    | Refuse(i: nat)
    | Work(i: nat, ok: bool, err: Err)      // outcome of the handshake or of f(client)
    | Receive(i: nat)                       // the caller's next step towards returning
    | Cancel(i: nat)
    | Tidy(i: nat)                          // the cleaner's next step
    | CloseCore

  function Put(s: State, i: nat, d: Dial): State
  {
    s.(dials := s.dials[i := d])
  }

  function Emit(s: State, e: Event): State
  {
    s.(view := After(s.view, e), log := s.log + [e])
  }

  /** The locked section of clientDo, with reconnectLocked where there is no client. */
  function Enter(s: State, i: nat, d: Dial, ok: bool, err: Err): State
  {
    var n := s.core.sequence;
    if s.core.closed then Put(s, i, d.(worker := Finished(Res(n, Some(ClosedErr)))))
    else if s.core.client.Some? then Put(s, i, d.(worker := Calling(n)))
    else if !ok then
      Put(s.(core := s.core.(sequence := n + 1)), i, d.(worker := Finished(Res(n + 1, Some(err)))))
    else
      Put(Emit(s.(core := s.core.(sequence := n + 1, client := Some(n + 1))), Event(Handshake, n + 1)), i,
          d.(worker := Calling(n + 1)))
  }

  function StepWorker(s: State, i: nat, d: Dial, ok: bool, err: Err): State
  {
    match d.worker
    case Entering => Enter(s, i, d, ok, err)
    case Calling(g) =>
      if ok then Put(s, i, d.(worker := Finished(Res(g, None))))
      else if err == ClosedErr then Put(s, i, d.(worker := Forgetting(g)))
      else Put(s, i, d.(worker := Finished(Res(g, Some(err)))))
    case Forgetting(g) =>
      Put(s.(core := if s.core.client == Some(g) then s.core.(client := None) else s.core), i,
          d.(worker := Finished(Res(g, Some(ClosedErr)))))
    case _ => s
  }

  function StepCaller(s: State, i: nat, d: Dial): State
  {
    match d.caller
    case Waiting => if d.worker.Finished? then Put(s, i, d.(caller := Releasing(d.worker.res))) else s
    case Releasing(res) =>
      if s.slots == 0 then s
      else Put(s.(slots := s.slots - 1), i, d.(caller := Reporting(res), releases := d.releases + 1))
    case Reporting(res) =>
      var reported := if res.err.Some? && res.err.value != DialErr then Emit(s, Event(d.kind, res.sequence)) else s;
      Put(reported, i, d.(caller := Returned(res), delivered := res.err == None))
    case _ => s
  }

  function StepCleaner(s: State, i: nat, d: Dial): State
  {
    match d.cleaner
    case Draining => if d.worker.Finished? then Put(s, i, d.(cleaner := Discarding)) else s
    case Discarding =>
      Put(s, i, d.(cleaner := Freeing, discarded := d.worker.Finished? && d.worker.res.err == None))
    case Freeing =>
      if s.slots == 0 then s
      else Put(s.(slots := s.slots - 1), i, d.(cleaner := Clean, releases := d.releases + 1))
    case _ => s
  }

  function Next(s: State, a: Action): State
  {
    match a
    case CloseCore => s.(core := s.core.(closed := true))
    case Begin(i, udp) =>
      if i in s.dials then s
      else Put(s, i, Dial(if udp then Udp else Tcp, Acquiring, Unborn, NoCleaner, 0, false, false))
    case Acquire(i) =>
      if i !in s.dials || s.dials[i].caller != Acquiring || s.slots >= s.capacity then s
      else Put(s.(slots := s.slots + 1), i, s.dials[i].(caller := Waiting, worker := Entering))
    case Refuse(i) =>
      if i !in s.dials || s.dials[i].caller != Acquiring then s else Put(s, i, s.dials[i].(caller := Refused))
    case Work(i, ok, err) => if i !in s.dials then s else StepWorker(s, i, s.dials[i], ok, err)
    case Receive(i) => if i !in s.dials then s else StepCaller(s, i, s.dials[i])
    case Cancel(i) =>
      if i !in s.dials || s.dials[i].caller != Waiting then s
      else Put(s, i, s.dials[i].(caller := Cancelled, cleaner := Draining))
    case Tidy(i) => if i !in s.dials then s else StepCleaner(s, i, s.dials[i])
  }

  function Run(capacity: nat, acts: seq<Action>): State
  {
    if acts == [] then Init(capacity) else Next(Run(capacity, acts[..|acts| - 1]), acts[|acts| - 1])
  }

  // ----- One dial -----

  predicate HoldsSlot(d: Dial)
  {
    !d.caller.Acquiring? && !d.caller.Refused? && d.releases == 0
  }

  predicate InFlight(d: Dial)
  {
    d.worker.Entering? || d.worker.Calling? || d.worker.Forgetting?
  }

  predicate DialOk(d: Dial)
  {
    && (d.kind == Tcp || d.kind == Udp)
    && d.delivered == (d.caller.Returned? && d.caller.res.err == None)
    && d.discarded == ((d.cleaner == Freeing || d.cleaner == Clean) && d.worker.Finished? && d.worker.res.err == None)
    && (d.cleaner.NoCleaner? <==> !d.caller.Cancelled?)
    && (d.worker.Unborn? <==> d.caller.Acquiring? || d.caller.Refused?)
    && (d.caller.Releasing? || d.caller.Reporting? || d.caller.Returned? ==> d.worker == Finished(d.caller.res))
    && (d.cleaner == Discarding || d.cleaner == Freeing || d.cleaner == Clean ==> d.worker.Finished?)
    && d.releases == (if d.caller.Reporting? || d.caller.Returned? || d.cleaner == Clean then 1 else 0)
  }

  /** Every generation a dial carries has already been reserved. */
  predicate Known(d: Dial, sequence: nat)
  {
    && (d.worker.Calling? || d.worker.Forgetting? ==> d.worker.generation <= sequence)
    && (d.worker.Finished? ==> d.worker.res.sequence <= sequence)
  }

  // ----- The invariant -----

  ghost function Holders(s: State): set<nat>
  {
    set i | i in s.dials && HoldsSlot(s.dials[i])
  }

  /** The dials whose worker is inside the core. */
  ghost function Flying(s: State): set<nat>
  {
    set i | i in s.dials && InFlight(s.dials[i])
  }

  ghost predicate CoreOk(s: State)
  {
    && (s.core.client.Some? ==> s.core.client.value == s.core.sequence)
    && HandshakeFirst(s.log)
    && (forall k :: 0 <= k < |s.log| ==> s.log[k].sequence <= s.core.sequence)
    && s.view == Folded(s.log)
  }

  /** A failure the status tracker is told about: the transport failed, not the target. */
  predicate TransportFailure(d: Dial, e: Event)
  {
    d.caller.Returned? && d.caller.res.err.Some? && d.caller.res.err.value != DialErr &&
    e == Event(d.kind, d.caller.res.sequence)
  }

  /** The failure events are exactly the transport failures returned to callers. */
  ghost predicate Reports(s: State)
  {
    && (forall e :: e in s.log && IsFailure(e) ==> exists i :: i in s.dials && TransportFailure(s.dials[i], e))
    && (forall i, e :: i in s.dials && TransportFailure(s.dials[i], e) ==> e in s.log)
    && (forall e :: e in s.log ==> Relevant(e))
  }

  ghost predicate Inv(s: State)
  {
    && CoreOk(s)
    && (forall i :: i in s.dials ==> DialOk(s.dials[i]) && Known(s.dials[i], s.core.sequence))
    && s.slots == |Holders(s)| && s.slots <= s.capacity
  }

  /** `s'` differs from `s` in one dial, now `d'`, and in what that dial did. */
  ghost predicate OneDial(s: State, s': State, i: nat, d': Dial)
  {
    && s'.dials == s.dials[i := d'] && s'.capacity == s.capacity
    && DialOk(d') && Known(d', s'.core.sequence) && s'.core.sequence >= s.core.sequence && CoreOk(s')
    && s'.slots == s.slots + (if HoldsSlot(d') then 1 else 0) - (if i in s.dials && HoldsSlot(s.dials[i]) then 1 else 0)
    && s'.slots <= s'.capacity
  }

  lemma {:induction false} HoldersChange(s: State, s': State, i: nat, d': Dial)
    requires s'.dials == s.dials[i := d']
    ensures |Holders(s')| == |Holders(s)| + (if HoldsSlot(d') then 1 else 0) - (if i in s.dials && HoldsSlot(s.dials[i]) then 1 else 0)
  {
    hide HoldsSlot;
    var rest := Holders(s) - {i};
    assert Holders(s) == if i in s.dials && HoldsSlot(s.dials[i]) then rest + {i} else rest;
    assert Holders(s') == if HoldsSlot(d') then rest + {i} else rest;
  }

  lemma {:induction false} OneDialKeeps(s: State, s': State, i: nat, d': Dial)
    requires Inv(s) && OneDial(s, s', i, d')
    ensures Inv(s')
  {
    hide CoreOk, DialOk, HoldsSlot, Holders;
    HoldersChange(s, s', i, d');
    forall k | k in s'.dials ensures DialOk(s'.dials[k]) && Known(s'.dials[k], s'.core.sequence) {
      assert k != i ==> DialOk(s.dials[k]) && Known(s.dials[k], s.core.sequence);
    }
  }

  /** An event of a reserved generation keeps the log in order; a handshake must be of a new one. */
  lemma {:induction false} EmitKeeps(s: State, e: Event)
    requires CoreOk(s) && e.sequence <= s.core.sequence
    requires e.stage == Handshake ==> forall k :: 0 <= k < |s.log| ==> s.log[k].sequence < e.sequence
    ensures CoreOk(Emit(s, e))
  {
  }

  lemma {:induction false} EnterKeeps(s: State, i: nat, ok: bool, err: Err)
    requires Inv(s) && i in s.dials && s.dials[i].worker == Entering
    ensures Inv(Enter(s, i, s.dials[i], ok, err))
  {
    hide HandshakeFirst, Folded, Holders;
    var s', n := Enter(s, i, s.dials[i], ok, err), s.core.sequence + 1;
    assert DialOk(s.dials[i]);
    assert DialOk(s'.dials[i]);
    if !s.core.closed && s.core.client == None && ok {
      EmitKeeps(s.(core := s.core.(sequence := n, client := Some(n))), Event(Handshake, n));
    }
    OneDialKeeps(s, s', i, s'.dials[i]);
  }

  lemma {:induction false} WorkerStepOk(s: State, i: nat, ok: bool, err: Err)
    requires i in s.dials && CoreOk(s) && DialOk(s.dials[i]) && Known(s.dials[i], s.core.sequence)
    requires s.slots <= s.capacity && !s.dials[i].worker.Entering?
    ensures var s' := StepWorker(s, i, s.dials[i], ok, err); s' == s || OneDial(s, s', i, s'.dials[i])
  {
    hide HandshakeFirst, Folded;
  }

  lemma {:induction false} WorkerKeeps(s: State, i: nat, ok: bool, err: Err)
    requires Inv(s) && i in s.dials
    ensures Inv(StepWorker(s, i, s.dials[i], ok, err))
  {
    hide CoreOk, Holders, OneDial;
    var d := s.dials[i];
    var s' := StepWorker(s, i, d, ok, err);
    assert DialOk(d) && Known(d, s.core.sequence);
    if d.worker.Entering? {
      EnterKeeps(s, i, ok, err);
    } else if s' != s {
      WorkerStepOk(s, i, ok, err);
      OneDialKeeps(s, s', i, s'.dials[i]);
    }
  }

  lemma {:induction false} CallerKeeps(s: State, i: nat)
    requires Inv(s) && i in s.dials
    ensures Inv(StepCaller(s, i, s.dials[i]))
  {
    hide HandshakeFirst, Folded, Holders;
    var d := s.dials[i];
    var s' := StepCaller(s, i, d);
    assert DialOk(d) && Known(d, s.core.sequence);
    if s' != s {
      if d.caller.Reporting? {
        EmitKeeps(s, Event(d.kind, d.caller.res.sequence));
      }
      OneDialKeeps(s, s', i, s'.dials[i]);
    }
  }

  lemma {:induction false} CleanerKeeps(s: State, i: nat)
    requires Inv(s) && i in s.dials
    ensures Inv(StepCleaner(s, i, s.dials[i]))
  {
    hide HandshakeFirst, Folded, Holders;
    var d := s.dials[i];
    var s' := StepCleaner(s, i, d);
    assert DialOk(d) && Known(d, s.core.sequence);
    if s' != s {
      OneDialKeeps(s, s', i, s'.dials[i]);
    }
  }

  lemma {:induction false} InvNext(s: State, a: Action)
    requires Inv(s)
    ensures Inv(Next(s, a))
  {
    hide Inv, StepWorker, StepCaller, StepCleaner;
    if Next(s, a) != s {
      match a {
        case CloseCore => CloseKeeps(s);
        case Work(i, ok, err) => WorkerKeeps(s, i, ok, err);
        case Receive(i) => CallerKeeps(s, i);
        case Tidy(i) => CleanerKeeps(s, i);
        case _ => EntryKeeps(s, a);
      }
    }
  }

  lemma {:induction false} CloseKeeps(s: State)
    requires Inv(s)
    ensures Inv(Next(s, CloseCore))
  {
    hide HandshakeFirst, Folded;
    assert Holders(Next(s, CloseCore)) == Holders(s);
  }

  /** A dial begins, gets its slot, is refused one, or is given up. */
  lemma {:induction false} EntryKeeps(s: State, a: Action)
    requires Inv(s) && Next(s, a) != s && (a.Begin? || a.Acquire? || a.Refuse? || a.Cancel?)
    ensures Inv(Next(s, a))
  {
    hide HandshakeFirst, Folded, Holders;
    var s' := Next(s, a);
    if a.i in s.dials {
      assert DialOk(s.dials[a.i]) && Known(s.dials[a.i], s.core.sequence);
    }
    OneDialKeeps(s, s', a.i, s'.dials[a.i]);
  }

  // ----- What holds in every run -----

  lemma {:induction false} InitOk(capacity: nat)
    ensures Inv(Init(capacity))
  {
    assert Holders(Init(capacity)) == {};
  }

  lemma {:induction false} RunInv(capacity: nat, acts: seq<Action>)
    ensures Inv(Run(capacity, acts)) && Run(capacity, acts).capacity == capacity
  {
    hide Inv;
    if acts == [] {
      InitOk(capacity);
    } else {
      RunInv(capacity, acts[..|acts| - 1]);
      InvNext(Run(capacity, acts[..|acts| - 1]), acts[|acts| - 1]);
    }
  }

  /** The tracker's state depends only on the events emitted: an older generation never overrides a newer handshake. */
  lemma {:induction false} StatusIsVerdict(capacity: nat, acts: seq<Action>)
    ensures var s := Run(capacity, acts); s.view == Verdict(s.log)
  {
    RunInv(capacity, acts);
    FoldedIsVerdict(Run(capacity, acts).log);
  }

  /** A step keeps returned results, and extends the log by the failure it reports or by a handshake. */
  ghost predicate Extends(s: State, s': State, i: nat)
  {
    && i in s'.dials && s'.dials == s.dials[i := s'.dials[i]]
    && (i in s.dials && s.dials[i].caller.Returned? ==> s'.dials[i] == s.dials[i])
    && (|| (s'.log == s.log && (s'.dials[i].caller.Returned? ==>
                                  (i in s.dials && s.dials[i].caller.Returned?) ||
                                  forall e :: !TransportFailure(s'.dials[i], e)))
        || (exists n :: s'.log == s.log + [Event(Handshake, n)] && !s'.dials[i].caller.Returned?)
        || (exists e :: s'.log == s.log + [e] && IsFailure(e) && TransportFailure(s'.dials[i], e)))
  }

  lemma {:induction false} ExtendsKeeps(s: State, s': State, i: nat)
    requires Reports(s) && Extends(s, s', i)
    ensures Reports(s')
  {
    forall e | e in s'.log && IsFailure(e) ensures exists k :: k in s'.dials && TransportFailure(s'.dials[k], e) {
      if e in s.log {
        var k :| k in s.dials && TransportFailure(s.dials[k], e);
        assert TransportFailure(s'.dials[k], e);
      } else {
        assert TransportFailure(s'.dials[i], e);
      }
    }
    forall k, e | k in s'.dials && TransportFailure(s'.dials[k], e) ensures e in s'.log {
      if k in s.dials && s.dials[k] == s'.dials[k] {
        assert e in s.log;
      }
    }
  }

  lemma {:induction false} WorkExtends(s: State, i: nat, ok: bool, err: Err)
    requires i in s.dials && DialOk(s.dials[i]) && StepWorker(s, i, s.dials[i], ok, err) != s
    ensures Extends(s, StepWorker(s, i, s.dials[i], ok, err), i)
  {
    var s' := StepWorker(s, i, s.dials[i], ok, err);
    if s.dials[i].worker.Entering? {
      assert s'.log == s.log || s'.log == s.log + [Event(Handshake, s.core.sequence + 1)];
    }
  }

  lemma {:induction false} ReceiveExtends(s: State, i: nat)
    requires i in s.dials && DialOk(s.dials[i]) && StepCaller(s, i, s.dials[i]) != s
    ensures Extends(s, StepCaller(s, i, s.dials[i]), i)
  {
    var d, s' := s.dials[i], StepCaller(s, i, s.dials[i]);
    if d.caller.Reporting? {
      var e := Event(d.kind, d.caller.res.sequence);
      assert s'.log == s.log + [e] ==> TransportFailure(s'.dials[i], e);
    }
  }

  lemma {:induction false} StepExtends(s: State, a: Action)
    requires Inv(s) && Next(s, a) != s && !a.CloseCore?
    ensures Extends(s, Next(s, a), a.i)
  {
    hide CoreOk, Holders, StepWorker, StepCaller;
    if a.i in s.dials {
      assert DialOk(s.dials[a.i]);
      match a {
        case Work(i, ok, err) => WorkExtends(s, i, ok, err);
        case Receive(i) => ReceiveExtends(s, i);
        case _ =>
      }
    }
  }

  /** The tracker is told exactly of handshakes and of the transport failures that callers got, never of target errors or cancelled dials. */
  lemma {:induction false} EventsAreOutcomes(capacity: nat, acts: seq<Action>)
    ensures Reports(Run(capacity, acts))
  {
    if acts == [] {
    } else {
      hide Next, Reports, Inv, Extends;
      var init, a := acts[..|acts| - 1], acts[|acts| - 1];
      var s := Run(capacity, init);
      EventsAreOutcomes(capacity, init);
      RunInv(capacity, init);
      if Next(s, a) != s {
        if a.CloseCore? {
          CloseReports(s);
        } else {
          StepExtends(s, a);
          ExtendsKeeps(s, Next(s, a), a.i);
        }
      }
    }
  }

  lemma {:induction false} CloseReports(s: State)
    requires Reports(s)
    ensures Reports(Next(s, CloseCore))
  {
  }

  /** Core calls in flight never exceed the semaphore, and a slot is always there to give back. */
  lemma {:induction false} InFlightBounded(capacity: nat, acts: seq<Action>)
    ensures var s := Run(capacity, acts);
            && |Flying(s)| <= s.slots <= capacity
            && forall i :: i in s.dials && HoldsSlot(s.dials[i]) ==> s.slots > 0
  {
    RunInv(capacity, acts);
    var s := Run(capacity, acts);
    forall i | i in Flying(s) ensures i in Holders(s) {
      assert DialOk(s.dials[i]);
    }
    SubsetSize(Flying(s), Holders(s));
    forall i | i in s.dials && HoldsSlot(s.dials[i]) ensures s.slots > 0 {
      assert i in Holders(s);
    }
  }

  /** Each slot is released at most once, and only after its worker finished. */
  lemma {:induction false} SlotReleasedOnce(capacity: nat, acts: seq<Action>, i: nat)
    requires i in Run(capacity, acts).dials
    ensures var d := Run(capacity, acts).dials[i];
            d.releases <= 1 && (d.releases == 1 ==> d.worker.Finished?)
    ensures var d := Run(capacity, acts).dials[i];
            d.caller.Returned? || d.cleaner == Clean ==> d.releases == 1
  {
    RunInv(capacity, acts);
    assert DialOk(Run(capacity, acts).dials[i]);
  }

  /** An opened connection is never both delivered and closed, and once the dial is over it is one of them. */
  lemma {:induction false} ConnectionHasOneFate(capacity: nat, acts: seq<Action>, i: nat)
    requires i in Run(capacity, acts).dials
    ensures var d := Run(capacity, acts).dials[i];
            var open := d.worker.Finished? && d.worker.res.err == None;
            && !(d.delivered && d.discarded)
            && (d.delivered || d.discarded ==> open)
            && (open && (d.caller.Returned? || d.cleaner == Clean) ==> d.delivered || d.discarded)
  {
    RunInv(capacity, acts);
    assert DialOk(Run(capacity, acts).dials[i]);
  }

  /** A client is dropped only by a ClosedError of its own generation, and a new one is of a new generation. */
  lemma {:induction false} ClientsChangeByGeneration(capacity: nat, acts: seq<Action>, a: Action)
    ensures var s, s' := Run(capacity, acts), Run(capacity, acts + [a]);
            && (s.core.client.Some? && s'.core.client != s.core.client ==>
                  && a.Work? && a.i in s.dials && s.dials[a.i].worker == Forgetting(s.core.client.value)
                  && s'.core.client == None)
            && (s'.core.client.Some? && s'.core.client != s.core.client ==> s'.core.client.value > s.core.sequence)
  {
  }
}
