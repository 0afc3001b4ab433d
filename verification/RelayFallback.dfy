/**
 * fallbackPacketSession of internal/transport/relay_fallback.go as a transition system.
 * Any number of Send, Receive and Close calls run at once; one step is one locked section or one
 * call of an underlying session. Send's and Close's write-locked parts take several steps, during
 * which no other call can enter a locked section. The steps on the shared owner, `owner.failed()`
 * and `owner.active`, change nothing here; RelayOwners says what they do.
 */
module RelayFallbacks {
  import opened Bytes

  type Tid = nat

  /** Underlying sessions: the primary is 0, replacements are numbered as they are opened. */
  type Sid = nat
  const PRIMARY: Sid := 0

  /** `Failed(from)` is an error of an underlying session, `Unopened` one joined with a failed open. */
  datatype Result = Delivered | ErrClosed | Failed(from: Sid) | Unopened

  datatype SendPc =
    | SendStart
    | SendCall(packet: Sid, backup: bool)   // packet.Send
    | SendCooldown(packet: Sid)             // owner.failed()
    | SendLock(packet: Sid)                 // write lock, recheck
    | SendOpen(packet: Sid)                 // owner.backup.OpenPacket, locked
    | SendPublish(packet: Sid, next: Sid)   // session = next; backup = true, locked
    | SendClosePrimary(packet: Sid)         // packet.Close(), locked
    | SendMarkActive                        // owner.active = "reality", locked
    | SendAgain                             // session.Send, locked
    | SendDone(sent: Result)

  datatype ReceivePc =
    | ReceiveStart
    | ReceiveCall(packet: Sid)              // packet.Receive
    | ReceiveCheck(packet: Sid)             // changed, closed, backup
    | ReceiveCooldown(packet: Sid)          // owner.failed()
    | ReceiveDone(received: Result)

  datatype ClosePc = CloseStart | CloseUnderlying | CloseDone

  datatype Call = Sender(s: SendPc) | Receiver(r: ReceivePc) | Closer(c: ClosePc)

  datatype State = State(
    session: Sid, backup: bool, closed: bool,  // the wrapper's fields
    lock: Option<Tid>,                         // holder of the write lock
    openings: nat,                             // replacements opened so far
    closes: multiset<Sid>,                     // Close calls on underlying sessions
    calls: map<Tid, Call>)

  function Init(): State
  {
    State(PRIMARY, false, false, None, 0, multiset{}, map[])
  }

  /** Begin a call, or let a call take its next step; `ok` is the outcome of an underlying call. */
  datatype Action = Begin(t: Tid, call: Call) | Step(t: Tid, ok: bool)

  predicate Fresh(call: Call)
  {
    call == Sender(SendStart) || call == Receiver(ReceiveStart) || call == Closer(CloseStart)
  }

  function Goto(s: State, t: Tid, call: Call): State
  {
    s.(calls := s.calls[t := call])
  }

  /** A step that cannot be taken leaves the state as it is. */
  function StepSend(s: State, t: Tid, pc: SendPc, ok: bool): State
  {
    match pc
    case SendStart =>
      if s.lock.Some? then s
      else if s.closed then Goto(s, t, Sender(SendDone(ErrClosed)))
      else Goto(s, t, Sender(SendCall(s.session, s.backup)))
    case SendCall(packet, backup) =>
      if ok then Goto(s, t, Sender(SendDone(Delivered)))
      else if backup then Goto(s, t, Sender(SendDone(Failed(packet))))
      else Goto(s, t, Sender(SendCooldown(packet)))
    case SendCooldown(packet) => Goto(s, t, Sender(SendLock(packet)))
    case SendLock(packet) =>
      if s.lock.Some? then s
      else if s.closed then Goto(s, t, Sender(SendDone(ErrClosed)))
      else Goto(s.(lock := Some(t)), t, Sender(if s.backup then SendAgain else SendOpen(packet)))
    case SendOpen(packet) =>
      if !ok then Goto(s.(lock := None), t, Sender(SendDone(Unopened)))
      else Goto(s.(openings := s.openings + 1), t, Sender(SendPublish(packet, s.openings + 1)))
    case SendPublish(packet, next) => Goto(s.(session := next, backup := true), t, Sender(SendClosePrimary(packet)))
    case SendClosePrimary(packet) => Goto(s.(closes := s.closes + multiset{packet}), t, Sender(SendMarkActive))
    case SendMarkActive => Goto(s, t, Sender(SendAgain))
    case SendAgain =>
      if ok then Goto(s.(lock := None), t, Sender(SendDone(Delivered)))
      else Goto(s.(lock := None), t, Sender(SendDone(Failed(s.session))))
    case SendDone(_) => s
  }

  function StepReceive(s: State, t: Tid, pc: ReceivePc, ok: bool): State
  {
    match pc
    case ReceiveStart =>
      if s.lock.Some? then s
      else if s.closed then Goto(s, t, Receiver(ReceiveDone(ErrClosed)))
      else Goto(s, t, Receiver(ReceiveCall(s.session)))
    case ReceiveCall(packet) =>
      Goto(s, t, Receiver(if ok then ReceiveDone(Delivered) else ReceiveCheck(packet)))
    case ReceiveCheck(packet) =>
      if s.lock.Some? then s
      else if s.session != packet && !s.closed then Goto(s, t, Receiver(ReceiveStart))
      else if !s.closed && !s.backup then Goto(s, t, Receiver(ReceiveCooldown(packet)))
      else Goto(s, t, Receiver(ReceiveDone(Failed(packet))))
    case ReceiveCooldown(packet) => Goto(s, t, Receiver(ReceiveDone(Failed(packet))))
    case ReceiveDone(_) => s
  }

  function StepClose(s: State, t: Tid, pc: ClosePc): State
  {
    match pc
    case CloseStart =>
      if s.lock.Some? then s
      else if s.closed then Goto(s, t, Closer(CloseDone))
      else Goto(s.(lock := Some(t), closed := true), t, Closer(CloseUnderlying))
    case CloseUnderlying => Goto(s.(closes := s.closes + multiset{s.session}, lock := None), t, Closer(CloseDone))
    case CloseDone => s
  }

  function StepCall(s: State, t: Tid, ok: bool): State
    requires t in s.calls
  {
    match s.calls[t]
    case Sender(pc) => StepSend(s, t, pc, ok)
    case Receiver(pc) => StepReceive(s, t, pc, ok)
    case Closer(pc) => StepClose(s, t, pc)
  }

  function Next(s: State, a: Action): State
  {
    match a
    case Begin(t, call) => if t in s.calls || !Fresh(call) then s else Goto(s, t, call)
    case Step(t, ok) => if t in s.calls then StepCall(s, t, ok) else s
  }

  function Run(acts: seq<Action>): State
  {
    if acts == [] then Init() else Next(Run(acts[..|acts| - 1]), acts[|acts| - 1])
  }

  // ----- The invariant -----

  /** Where the holder of the write lock is. */
  datatype Phase = Free | Opening | Publishing | ClosingPrimary | Marking | Resending | ClosingDown

  function PhaseOf(call: Call): Phase
  {
    match call
    case Sender(SendOpen(_)) => Opening
    case Sender(SendPublish(_, _)) => Publishing
    case Sender(SendClosePrimary(_)) => ClosingPrimary
    case Sender(SendMarkActive) => Marking
    case Sender(SendAgain) => Resending
    case Closer(CloseUnderlying) => ClosingDown
    case _ => Free
  }

  function LockPhase(s: State): Phase
  {
    if s.lock.Some? && s.lock.value in s.calls then PhaseOf(s.calls[s.lock.value]) else Free
  }

  ghost predicate Shared(s: State)
  {
    var at := LockPhase(s);
    && (s.lock.Some? <==> at != Free)
    && s.session == (if s.backup then 1 else PRIMARY)
    && s.openings == (if s.backup || at == Publishing then 1 else 0)
    && (at == Opening || at == Publishing ==> !s.backup)
    && (at == ClosingPrimary || at == Marking || at == Resending ==> s.backup)
    && (at != Free ==> (s.closed <==> at == ClosingDown))
    && s.closes[PRIMARY] == (if s.backup then (if at == ClosingPrimary then 0 else 1)
                             else if s.closed && at != ClosingDown then 1 else 0)
    && s.closes[1] == (if s.backup && s.closed && at != ClosingDown then 1 else 0)
    && (forall sid :: sid > 1 ==> s.closes[sid] == 0)
  }

  ghost predicate CallOk(s: State, t: Tid, call: Call)
  {
    && (PhaseOf(call) != Free ==> s.lock == Some(t))
    && match call
       case Sender(pc) =>
         && (pc.SendCall? ==> pc.packet == (if pc.backup then 1 else PRIMARY) && (pc.backup ==> s.backup))
         && (pc.SendCooldown? || pc.SendLock? || pc.SendOpen? || pc.SendPublish? || pc.SendClosePrimary? ==> pc.packet == PRIMARY)
         && (pc.SendPublish? ==> pc.next == 1)
         && (pc.SendDone? && pc.sent.Failed? ==> pc.sent.from == 1 && s.backup)
         && (pc.SendDone? && pc.sent.ErrClosed? ==> s.closed)
       case Receiver(pc) =>
         && (pc.ReceiveCall? || pc.ReceiveCheck? ==>
               pc.packet == PRIMARY || (pc.packet == 1 && s.backup))
         && (pc.ReceiveCooldown? ==> pc.packet == PRIMARY)
         && (pc.ReceiveDone? && pc.received.ErrClosed? ==> s.closed)
       case Closer(pc) => (pc != CloseStart ==> s.closed) && (pc == CloseDone ==> s.lock == None)
  }

  ghost predicate Inv(s: State)
  {
    Shared(s) && forall t :: t in s.calls ==> CallOk(s, t, s.calls[t])
  }

  /** What other calls can see of a step of call `t`. */
  ghost predicate Effect(s: State, s': State, t: Tid)
  {
    && (s.backup ==> s'.backup && s'.session == s.session)
    && (s.closed ==> s'.closed && s'.session == s.session)
    && (s.closed && s.lock == None ==> s'.lock == None)
    && (s.lock.Some? && s.lock != Some(t) ==> s'.lock == s.lock)
    && t in s'.calls && s'.calls == s.calls[t := s'.calls[t]]
  }

  ghost predicate Keeps(s: State, s': State, t: Tid)
  {
    Shared(s') && Effect(s, s', t) && CallOk(s', t, s'.calls[t])
  }

  lemma {:induction false} UnlockedSendKeeps(s: State, t: Tid, pc: SendPc, ok: bool)
    requires t in s.calls && s.calls[t] == Sender(pc) && Shared(s) && CallOk(s, t, s.calls[t])
    requires PhaseOf(Sender(pc)) == Free
    ensures Keeps(s, StepSend(s, t, pc, ok), t)
  {
  }

  lemma {:induction false} LockedSendKeeps(s: State, t: Tid, pc: SendPc, ok: bool)
    requires t in s.calls && s.calls[t] == Sender(pc) && Shared(s) && CallOk(s, t, s.calls[t])
    requires PhaseOf(Sender(pc)) != Free
    ensures Keeps(s, StepSend(s, t, pc, ok), t)
  {
  }

  lemma {:induction false} ReceiveKeeps(s: State, t: Tid, pc: ReceivePc, ok: bool)
    requires t in s.calls && s.calls[t] == Receiver(pc) && Shared(s) && CallOk(s, t, s.calls[t])
    ensures Keeps(s, StepReceive(s, t, pc, ok), t)
  {
  }

  lemma {:induction false} CloseKeeps(s: State, t: Tid, pc: ClosePc)
    requires t in s.calls && s.calls[t] == Closer(pc) && Shared(s) && CallOk(s, t, s.calls[t])
    ensures Keeps(s, StepClose(s, t, pc), t)
  {
  }

  /** A step of one call keeps what is known of the others. */
  lemma {:induction false} OthersKept(s: State, s': State, t: Tid, u: Tid, call: Call)
    requires u != t && Effect(s, s', t) && Shared(s) && Shared(s') && CallOk(s, u, call)
    ensures CallOk(s', u, call)
  {
  }

  lemma {:induction false} InvNext(s: State, a: Action)
    requires Inv(s)
    ensures Inv(Next(s, a)) && (Next(s, a) == s || Effect(s, Next(s, a), a.t))
  {
    hide Shared, CallOk, PhaseOf, StepSend, StepReceive, StepClose, Goto;
    var s' := Next(s, a);
    if a.Step? && a.t in s.calls {
      match s.calls[a.t] {
        case Sender(pc) =>
          if PhaseOf(Sender(pc)) == Free {
            UnlockedSendKeeps(s, a.t, pc, a.ok);
          } else {
            LockedSendKeeps(s, a.t, pc, a.ok);
          }
        case Receiver(pc) => ReceiveKeeps(s, a.t, pc, a.ok);
        case Closer(pc) => CloseKeeps(s, a.t, pc);
      }
      forall u | u in s'.calls ensures CallOk(s', u, s'.calls[u]) {
        if u != a.t {
          OthersKept(s, s', a.t, u, s.calls[u]);
        }
      }
    } else if s' != s {
      BeginKeeps(s, a.t, a.call);
    }
  }

  lemma {:induction false} BeginKeeps(s: State, t: Tid, call: Call)
    requires Inv(s) && t !in s.calls && Fresh(call)
    ensures Inv(Goto(s, t, call)) && Effect(s, Goto(s, t, call), t)
  {
  }

  // ----- What holds in every run -----

  lemma {:induction false} RunInv(acts: seq<Action>)
    ensures Inv(Run(acts))
  {
    if acts == [] {
    } else {
      RunInv(acts[..|acts| - 1]);
      InvNext(Run(acts[..|acts| - 1]), acts[|acts| - 1]);
    }
  }

  /** The switch is one-way, happens at most once, and never after Close. */
  lemma {:induction false} SwitchIsFinal(acts: seq<Action>, more: seq<Action>)
    ensures var s, s' := Run(acts), Run(acts + more);
            && (s.backup ==> s'.backup && s'.session == s.session)
            && (s.closed ==> s'.closed && s'.session == s.session)
            && s'.openings <= 1
  {
    RunInv(acts + more);
    if more == [] {
      assert acts + more == acts;
    } else {
      var init := acts + more[..|more| - 1];
      SwitchIsFinal(acts, more[..|more| - 1]);
      assert (acts + more)[..|acts + more| - 1] == init;
      RunInv(init);
      InvNext(Run(init), more[|more| - 1]);
    }
  }

  /** The replacement is published before the primary is closed, and nothing is closed twice. */
  lemma {:induction false} ClosedAtMostOnce(acts: seq<Action>, sid: Sid)
    ensures var s := Run(acts);
            && s.closes[sid] <= 1
            && (s.closes[PRIMARY] > 0 ==> (s.backup && s.session != PRIMARY) || s.closed)
            && (sid != PRIMARY && s.closes[sid] > 0 ==> s.closed)
  {
    hide Run;
    RunInv(acts);
  }

  /** Once some Close has returned, every session that was ever opened is closed, exactly once. */
  lemma {:induction false} CloseClosesEverything(acts: seq<Action>, t: Tid, sid: Sid)
    requires t in Run(acts).calls && Run(acts).calls[t] == Closer(CloseDone) && sid <= Run(acts).openings
    ensures Run(acts).closed && Run(acts).closes[sid] == 1
  {
    hide Run;
    RunInv(acts);
    assert CallOk(Run(acts), t, Run(acts).calls[t]);
  }

  /** Action `i` is the locked check of receiver `t` after `packet` had failed. */
  ghost predicate ChecksAt(acts: seq<Action>, i: nat, t: Tid, packet: Sid)
  {
    && i < |acts| && acts[i].Step? && acts[i].t == t
    && var s := Run(acts[..i]);
       s.lock == None && t in s.calls && s.calls[t].Receiver? && s.calls[t].r == ReceiveCheck(packet)
  }

  /** Nothing was switched or closed locally: the primary is installed, open and in use. */
  ghost predicate Unharmed(s: State)
  {
    !s.closed && !s.backup && s.session == PRIMARY && s.closes[PRIMARY] == 0
  }

  /** How a receiver comes to start a cooldown, and how it comes to return an underlying error. */
  lemma {:induction false} ReceiverArrives(s: State, a: Action, t: Tid)
    requires Inv(s) && t in Next(s, a).calls && Next(s, a).calls[t].Receiver?
    requires t !in s.calls || Next(s, a).calls[t] != s.calls[t]
    ensures var r := Next(s, a).calls[t].r;
            && (r.ReceiveCooldown? ==>
                  a.Step? && a.t == t && s.lock == None && Unharmed(s) && r.packet == PRIMARY &&
                  t in s.calls && s.calls[t].Receiver? && s.calls[t].r == ReceiveCheck(r.packet))
            && (r.ReceiveDone? && r.received.Failed? ==>
                  && a.Step? && a.t == t && t in s.calls && s.calls[t].Receiver?
                  && (|| s.calls[t].r == ReceiveCooldown(r.received.from)
                      || (s.lock == None && s.calls[t].r == ReceiveCheck(r.received.from) &&
                          (s.session == r.received.from || s.closed))))
  {
    InvNext(s, a);
    if t in s.calls {
      assert CallOk(s, t, s.calls[t]);
    }
  }

  /** A receiver is about to start a cooldown only if nothing had been switched or closed locally at its check. */
  lemma {:induction false} CooldownIsGenuine(acts: seq<Action>, t: Tid)
    requires t in Run(acts).calls && Run(acts).calls[t].Receiver? && Run(acts).calls[t].r.ReceiveCooldown?
    ensures var packet := Run(acts).calls[t].r.packet;
            packet == PRIMARY && exists i: nat :: ChecksAt(acts, i, t, packet) && Unharmed(Run(acts[..i]))
  {
    hide Next, Unharmed, Inv, Run;
    LastStep(acts);
    var init, last := acts[..|acts| - 1], acts[|acts| - 1];
    var s, packet := Run(init), Run(acts).calls[t].r.packet;
    RunInv(init);
    if t in s.calls && s.calls[t] == Run(acts).calls[t] {
      CooldownIsGenuine(init, t);
      var i: nat :| ChecksAt(init, i, t, packet) && Unharmed(Run(init[..i]));
      assert init[..i] == acts[..i];
      assert ChecksAt(acts, i, t, packet);
    } else {
      ReceiverArrives(s, last, t);
      assert ChecksAt(acts, |acts| - 1, t, packet);
    }
  }

  lemma {:induction false} LastStep(acts: seq<Action>)
    requires exists t :: t in Run(acts).calls
    ensures acts != [] && Run(acts) == Next(Run(acts[..|acts| - 1]), acts[|acts| - 1])
  {
  }

  /**
   * A receiver surfaces the error of a session only if, at its locked check, that session was still
   * the installed one or the wrapper was closed: never the error of a replaced primary otherwise.
   */
  lemma {:induction false} SurfacedErrorIsCurrent(acts: seq<Action>, t: Tid)
    requires t in Run(acts).calls && Run(acts).calls[t].Receiver?
    requires Run(acts).calls[t].r.ReceiveDone? && Run(acts).calls[t].r.received.Failed?
    ensures var packet := Run(acts).calls[t].r.received.from;
            exists i: nat :: ChecksAt(acts, i, t, packet) && (Run(acts[..i]).session == packet || Run(acts[..i]).closed)
  {
    hide Next, Inv, Run;
    LastStep(acts);
    var init, last := acts[..|acts| - 1], acts[|acts| - 1];
    var s, packet := Run(init), Run(acts).calls[t].r.received.from;
    RunInv(init);
    if t in s.calls && s.calls[t] == Run(acts).calls[t] {
      SurfacedErrorIsCurrent(init, t);
      var i: nat :| ChecksAt(init, i, t, packet) && (Run(init[..i]).session == packet || Run(init[..i]).closed);
      assert init[..i] == acts[..i];
      assert ChecksAt(acts, i, t, packet);
    } else {
      ReceiverArrives(s, last, t);
      if s.calls[t].r.ReceiveCooldown? {
        CooldownIsGenuine(init, t);
        var i: nat :| ChecksAt(init, i, t, packet) && Unharmed(Run(init[..i]));
        assert init[..i] == acts[..i];
        assert ChecksAt(acts, i, t, packet);
      } else {
        assert ChecksAt(acts, |acts| - 1, t, packet);
      }
    }
  }

  /** The call is about to run owner.failed(). */
  predicate AtCooldown(call: Call)
  {
    (call.Sender? && call.s.SendCooldown?) || (call.Receiver? && call.r.ReceiveCooldown?)
  }

  lemma {:induction false} RunAppend(acts: seq<Action>, a: Action)
    ensures Run(acts + [a]) == Next(Run(acts), a)
  {
  }
}
