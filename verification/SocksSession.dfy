/**
 * socksPacketSession of internal/landing/udp.go as a transition system: Send holds sendMu to its
 * end and takes mu only to bind the target; Close runs its body once.
 */
module SocksSessions {
  import opened Bytes
  import opened SocksUdp

  type Tid = nat

  datatype Sent = Rejected | ErrClosed | Forwarded(ok: bool)
  datatype Got = Failed | GotClosed | Delivered(payload: Text, target: Target, source: Target)

  datatype Call =
    | SendStart(payload: Text, target: Target)                // waiting for sendMu
    | SendBind(payload: Text, target: Target, bytes: Text)    // mu: closed? bound?
    | SendPacket(payload: Text, target: Target, bytes: Text)  // packet.Send
    | SendDone(sent: Sent)
    | ReceiveNext                                             // packet.Receive
    | ReceiveCheck(payload: Text, from: Target, source: Target) // mu: closed? bound?
    | ReceiveDone(got: Got)
    | CloseStart
    | CloseFlag                                               // inside once: closed = true
    | CloseBoth                                               // inside once: control and packet
    | CloseDone

  /** A datagram handed to the packet session, by which call. */
  datatype Datagram = Datagram(sender: Tid, payload: Text, target: Target, bytes: Text)

  datatype Once = NotRun | Running(t: Tid) | Ran

  datatype State = State(
    relay: Target, maxPayload: int,
    target: Option<Target>, closed: bool, once: Once,
    sendMu: Option<Tid>,
    underlyingCloses: nat,
    sentLog: seq<Datagram>,
    calls: map<Tid, Call>)

  function Init(relay: Target, maxPayload: int): State
  {
    State(relay, maxPayload, None, false, NotRun, None, 0, [], map[])
  }

  datatype Action =
    | Begin(t: Tid, call: Call)
    | Step(t: Tid, ok: bool)
    | Arrive(t: Tid, bytes: Text, source: Target)  // packet.Receive returns a datagram to `t`

  predicate Fresh(call: Call)
  {
    call.SendStart? || call.ReceiveNext? || call.CloseStart?
  }

  function Goto(s: State, t: Tid, call: Call): State
  {
    s.(calls := s.calls[t := call])
  }

  predicate TooLong(s: State, payload: Text)
  {
    s.maxPayload > 0 && |payload| > s.maxPayload
  }

  function StepCall(s: State, t: Tid, call: Call, ok: bool): State
  {
    match call
    case SendStart(payload, target) =>
      if s.sendMu.Some? then s
      else if TooLong(s, payload) || Encode(payload, target) == None then Goto(s, t, SendDone(Rejected))
      else Goto(s.(sendMu := Some(t)), t, SendBind(payload, target, Encode(payload, target).value))
    case SendBind(payload, target, bytes) =>
      if s.closed then Goto(s.(sendMu := None), t, SendDone(ErrClosed))
      else if s.target.Some? && s.target.value != target then Goto(s.(sendMu := None), t, SendDone(Rejected))
      else Goto(s.(target := Some(target)), t, SendPacket(payload, target, bytes))
    case SendPacket(payload, target, bytes) =>
      Goto(s.(sendMu := None, sentLog := s.sentLog + [Datagram(t, payload, target, bytes)]), t, SendDone(Forwarded(ok)))
    case ReceiveNext => if ok then s else Goto(s, t, ReceiveDone(Failed))
    case ReceiveCheck(payload, from, source) =>
      if s.closed then Goto(s, t, ReceiveDone(GotClosed))
      else if s.target.Some? && IsLiteral(s.target.value.host) && from != s.target.value then Goto(s, t, ReceiveNext)
      else Goto(s, t, ReceiveDone(Delivered(payload, from, source)))
    case CloseStart =>
      match s.once {
        case NotRun => Goto(s.(once := Running(t)), t, CloseFlag)
        case Running(_) => s
        case Ran => Goto(s, t, CloseDone)
      }
    case CloseFlag => Goto(s.(closed := true), t, CloseBoth)
    case CloseBoth => Goto(s.(underlyingCloses := s.underlyingCloses + 1, once := Ran), t, CloseDone)
    case _ => s
  }

  /** A datagram from elsewhere than a numeric relay, or malformed, is skipped. */
  function Arrived(s: State, t: Tid, bytes: Text, source: Target): State
  {
    if IsLiteral(s.relay.host) && source != s.relay then s
    else
      match Decode(bytes)
      case None => s
      case Some((from, payload)) => Goto(s, t, ReceiveCheck(payload, from, source))
  }

  function Next(s: State, a: Action): State
  {
    match a
    case Begin(t, call) => if t in s.calls || !Fresh(call) then s else Goto(s, t, call)
    case Step(t, ok) => if t in s.calls then StepCall(s, t, s.calls[t], ok) else s
    case Arrive(t, bytes, source) => if t in s.calls && s.calls[t].ReceiveNext? then Arrived(s, t, bytes, source) else s
  }

  function Run(relay: Target, maxPayload: int, acts: seq<Action>): State
  {
    if acts == [] then Init(relay, maxPayload)
    else Next(Run(relay, maxPayload, acts[..|acts| - 1]), acts[|acts| - 1])
  }

  // ----- The invariant -----

  ghost predicate SentOk(s: State, d: Datagram)
  {
    d.sender in s.calls && s.target == Some(d.target) && !TooLong(s, d.payload) && Encode(d.payload, d.target) == Some(d.bytes)
  }

  ghost predicate CallOk(s: State, t: Tid, call: Call)
  {
    match call
    case SendBind(payload, target, bytes) => !TooLong(s, payload) && Encode(payload, target) == Some(bytes)
    case SendPacket(payload, target, bytes) => SentOk(s, Datagram(t, payload, target, bytes))
    case ReceiveCheck(_, _, source) => IsLiteral(s.relay.host) ==> source == s.relay
    case ReceiveDone(Delivered(_, _, source)) => IsLiteral(s.relay.host) ==> source == s.relay
    case CloseFlag => s.once == Running(t)
    case CloseBoth => s.once == Running(t) && s.closed
    case CloseDone => s.once == Ran
    case _ => true
  }

  ghost predicate Inv(s: State)
  {
    && (forall k :: 0 <= k < |s.sentLog| ==> SentOk(s, s.sentLog[k]))
    && (forall t :: t in s.calls ==> CallOk(s, t, s.calls[t]))
    && OnceOk(s)
  }

  /** What other calls can see of a step of call `t`. */
  ghost predicate Effect(s: State, s': State, t: Tid)
  {
    && s'.relay == s.relay && s'.maxPayload == s.maxPayload
    && (s.target.Some? ==> s'.target == s.target)
    && (s.closed ==> s'.closed)
    && (s.once == Ran ==> s'.once == Ran)
    && (s.once.Running? && s.once.t != t ==> s'.once == s.once)
    && t in s'.calls && s'.calls == s.calls[t := s'.calls[t]]
  }

  ghost predicate OnceOk(s: State)
  {
    (s.once == Ran ==> s.closed) && s.underlyingCloses == if s.once == Ran then 1 else 0
  }

  lemma {:induction false} StepEffect(s: State, t: Tid, ok: bool)
    requires t in s.calls && CallOk(s, t, s.calls[t]) && OnceOk(s)
    ensures Effect(s, StepCall(s, t, s.calls[t], ok), t) && OnceOk(StepCall(s, t, s.calls[t], ok))
  {
  }

  lemma {:induction false} StepSelf(s: State, t: Tid, ok: bool)
    requires t in s.calls && CallOk(s, t, s.calls[t])
    ensures var s' := StepCall(s, t, s.calls[t], ok); t in s'.calls && CallOk(s', t, s'.calls[t])
  {
  }

  lemma {:induction false} SentStays(s: State, s': State, t: Tid, d: Datagram)
    requires Effect(s, s', t) && SentOk(s, d)
    ensures SentOk(s', d)
  {
  }

  lemma {:induction false} StepLog(s: State, t: Tid, ok: bool)
    requires Inv(s) && t in s.calls
    ensures var s' := StepCall(s, t, s.calls[t], ok);
            forall k :: 0 <= k < |s'.sentLog| ==> SentOk(s', s'.sentLog[k])
  {
    hide Encode, Effect, SentOk;
    var s' := StepCall(s, t, s.calls[t], ok);
    StepEffect(s, t, ok);
    assert CallOk(s, t, s.calls[t]);
    forall k | 0 <= k < |s'.sentLog| ensures SentOk(s', s'.sentLog[k]) {
      SentStays(s, s', t, s'.sentLog[k]);
    }
  }

  lemma {:induction false} OthersKept(s: State, s': State, t: Tid, u: Tid, call: Call)
    requires u != t && Effect(s, s', t) && CallOk(s, u, call)
    ensures CallOk(s', u, call)
  {
  }

  lemma {:induction false} InvNext(s: State, a: Action)
    requires Inv(s)
    ensures Inv(Next(s, a)) && (Next(s, a) == s || Effect(s, Next(s, a), a.t))
  {
    hide Encode, Decode, StepCall, CallOk, SentOk;
    var s' := Next(s, a);
    if s' != s {
      match a {
        case Begin(t, call) => BeginKeeps(s, t, call);
        case Step(t, ok) =>
          StepEffect(s, t, ok);
          StepSelf(s, t, ok);
          StepLog(s, t, ok);
          forall u | u in s'.calls ensures CallOk(s', u, s'.calls[u]) {
            if u != t {
              OthersKept(s, s', t, u, s.calls[u]);
            }
          }
        case Arrive(t, bytes, source) => ArriveKeeps(s, t, bytes, source);
      }
    }
  }

  lemma {:induction false} BeginKeeps(s: State, t: Tid, call: Call)
    requires Inv(s) && t !in s.calls && Fresh(call)
    ensures Inv(Goto(s, t, call)) && Effect(s, Goto(s, t, call), t)
  {
  }

  lemma {:induction false} ArriveKeeps(s: State, t: Tid, bytes: Text, source: Target)
    requires Inv(s) && t in s.calls
    ensures Inv(Arrived(s, t, bytes, source)) && (Arrived(s, t, bytes, source) == s || Effect(s, Arrived(s, t, bytes, source), t))
  {
  }

  // ----- What holds in every run -----

  lemma {:induction false} RunInv(relay: Target, maxPayload: int, acts: seq<Action>)
    ensures var s := Run(relay, maxPayload, acts); Inv(s) && s.relay == relay && s.maxPayload == maxPayload
  {
    if acts == [] {
    } else {
      var init := acts[..|acts| - 1];
      RunInv(relay, maxPayload, init);
      InvNext(Run(relay, maxPayload, init), acts[|acts| - 1]);
    }
  }

  /** All transmitted datagrams carry one same target, obey a configured limit and are the envelopes of their payloads. */
  lemma {:induction false} OneTargetPerAssociation(relay: Target, maxPayload: int, acts: seq<Action>)
    ensures var s := Run(relay, maxPayload, acts);
            forall d, e :: d in s.sentLog && e in s.sentLog ==>
              && d.target == e.target
              && (maxPayload > 0 ==> |d.payload| <= maxPayload)
              && Decode(d.bytes) == Some((d.target.(host := Canonical(d.target.host)), d.payload))
  {
    RunInv(relay, maxPayload, acts);
    var s := Run(relay, maxPayload, acts);
    forall d, e | d in s.sentLog && e in s.sentLog
      ensures d.target == e.target && (maxPayload > 0 ==> |d.payload| <= maxPayload)
      ensures Decode(d.bytes) == Some((d.target.(host := Canonical(d.target.host)), d.payload))
    {
      assert SentOk(s, d) && SentOk(s, e);
      EnvelopeRoundTrip(d.payload, d.target);
    }
  }

  /** Once a Close has returned, the session is flagged closed and its connections were closed exactly once. */
  lemma {:induction false} CloseIsDone(relay: Target, maxPayload: int, acts: seq<Action>, t: Tid)
    requires var s := Run(relay, maxPayload, acts); t in s.calls && s.calls[t] == CloseDone
    ensures var s := Run(relay, maxPayload, acts); s.closed && s.underlyingCloses == 1
  {
    RunInv(relay, maxPayload, acts);
    assert CallOk(Run(relay, maxPayload, acts), t, CloseDone);
  }

  /** With a numeric relay, only datagrams from it are delivered. */
  lemma {:induction false} DeliversFromRelay(relay: Target, maxPayload: int, acts: seq<Action>, t: Tid)
    requires IsLiteral(relay.host)
    requires var s := Run(relay, maxPayload, acts); t in s.calls && s.calls[t].ReceiveDone? && s.calls[t].got.Delivered?
    ensures Run(relay, maxPayload, acts).calls[t].got.source == relay
  {
    RunInv(relay, maxPayload, acts);
    assert CallOk(Run(relay, maxPayload, acts), t, Run(relay, maxPayload, acts).calls[t]);
  }

  /** Action `i` hands call `t` an envelope of `payload` from `from`, sent by `source`, which a numeric relay has to be. */
  ghost predicate Wraps(relay: Target, acts: seq<Action>, i: nat, t: Tid, payload: Text, from: Target, source: Target)
  {
    && i < |acts| && acts[i].Arrive? && acts[i].t == t && acts[i].source == source
    && Decode(acts[i].bytes) == Some((from, payload)) && (IsLiteral(relay.host) ==> source == relay)
  }

  /** In state `s` a reply from `from` may be delivered: the session is open, and bound to it if bound to an address. */
  ghost predicate MayDeliver(s: State, from: Target)
  {
    !s.closed && (s.target.Some? && IsLiteral(s.target.value.host) ==> from == s.target.value)
  }

  /** Action `j` is call `t`'s locked check of the reply it delivers, and the session allows it there. */
  ghost predicate DeliversAt(relay: Target, maxPayload: int, acts: seq<Action>, j: nat, t: Tid, payload: Text, from: Target,
                             source: Target)
  {
    && j < |acts| && acts[j].Step? && acts[j].t == t
    && var s := Run(relay, maxPayload, acts[..j]);
       t in s.calls && s.calls[t] == ReceiveCheck(payload, from, source) && MayDeliver(s, from)
  }

  /** How a receiver comes to hold a reply, and how it comes to deliver it. */
  lemma {:induction false} ReceiverArrives(s: State, a: Action, t: Tid)
    requires t in Next(s, a).calls && (t !in s.calls || s.calls[t] != Next(s, a).calls[t])
    ensures var c := Next(s, a).calls[t];
            && (c.ReceiveCheck? ==> Wraps(s.relay, [a], 0, t, c.payload, c.from, c.source))
            && (c.ReceiveDone? && c.got.Delivered? ==>
                  && a.Step? && a.t == t && t in s.calls
                  && s.calls[t] == ReceiveCheck(c.got.payload, c.got.target, c.got.source) && MayDeliver(s, c.got.target))
  {
    hide Encode, Decode;
  }

  lemma {:induction false} LastStep(relay: Target, maxPayload: int, acts: seq<Action>)
    requires exists t :: t in Run(relay, maxPayload, acts).calls
    ensures acts != [] && Run(relay, maxPayload, acts) == Next(Run(relay, maxPayload, acts[..|acts| - 1]), acts[|acts| - 1])
  {
  }

  lemma {:induction false} CheckExplained(relay: Target, maxPayload: int, acts: seq<Action>, t: Tid) returns (i: nat)
    requires var s := Run(relay, maxPayload, acts); t in s.calls && s.calls[t].ReceiveCheck?
    ensures var c := Run(relay, maxPayload, acts).calls[t]; Wraps(relay, acts, i, t, c.payload, c.from, c.source)
  {
    LastStep(relay, maxPayload, acts);
    hide Decode, Next, Run, Inv;
    var init, a := acts[..|acts| - 1], acts[|acts| - 1];
    var s, c := Run(relay, maxPayload, init), Run(relay, maxPayload, acts).calls[t];
    RunInv(relay, maxPayload, init);
    if t in s.calls && s.calls[t] == c {
      i := CheckExplained(relay, maxPayload, init, t);
    } else {
      ReceiverArrives(s, a, t);
      i := |acts| - 1;
    }
  }

  /**
   * Whatever Receive delivers arrived at `i`, wrapped in an envelope and sent by the relay, and was
   * checked later, at `j`, when the session was open and bound to no other address.
   */
  lemma {:induction false} DeliveredExplained(relay: Target, maxPayload: int, acts: seq<Action>, t: Tid) returns (i: nat, j: nat)
    requires var s := Run(relay, maxPayload, acts); t in s.calls && s.calls[t].ReceiveDone? && s.calls[t].got.Delivered?
    ensures var g := Run(relay, maxPayload, acts).calls[t].got;
            && i < j && Wraps(relay, acts, i, t, g.payload, g.target, g.source)
            && DeliversAt(relay, maxPayload, acts, j, t, g.payload, g.target, g.source)
  {
    LastStep(relay, maxPayload, acts);
    hide Decode, Next, Run, MayDeliver;
    var init, a := acts[..|acts| - 1], acts[|acts| - 1];
    var s, g := Run(relay, maxPayload, init), Run(relay, maxPayload, acts).calls[t].got;
    if t in s.calls && s.calls[t] == Run(relay, maxPayload, acts).calls[t] {
      i, j := DeliveredExplained(relay, maxPayload, init, t);
      assert init[..j] == acts[..j];
    } else {
      ReceiverArrives(s, a, t);
      i := CheckExplained(relay, maxPayload, init, t);
      j := |init|;
    }
  }

  lemma {:induction false} Undisturbed(relay: Target, maxPayload: int, acts: seq<Action>, more: seq<Action>, t: Tid)
    requires t in Run(relay, maxPayload, acts).calls && forall a :: a in more ==> a.t != t
    ensures var s := Run(relay, maxPayload, acts + more);
            t in s.calls && s.calls[t] == Run(relay, maxPayload, acts).calls[t]
  {
    hide Inv, Next;
    if more == [] {
      assert acts + more == acts;
    } else {
      var init, a := more[..|more| - 1], more[|more| - 1];
      assert a in more && forall b :: b in init ==> b in more;
      Undisturbed(relay, maxPayload, acts, init, t);
      assert acts + more == acts + init + [a];
      RunAppend(relay, maxPayload, acts + init, a);
      RunInv(relay, maxPayload, acts + init);
      InvNext(Run(relay, maxPayload, acts + init), a);
    }
  }

  /**
   * A reply from elsewhere than a numeric relay is skipped; any other that wraps a payload is
   * delivered unwrapped, whatever other calls do before its check, exactly when the check allows it.
   */
  lemma {:induction false} ReplyIsUnwrapped(relay: Target, maxPayload: int, acts: seq<Action>, t: Tid, payload: Text, target: Target,
                                            source: Target, between: seq<Action>, ok: bool)
    requires var s := Run(relay, maxPayload, acts); t in s.calls && s.calls[t].ReceiveNext?
    requires Encode(payload, target).Some?
    requires forall a :: a in between ==> a.t != t
    ensures var from := target.(host := Canonical(target.host));
            var arrived := acts + [Arrive(t, Encode(payload, target).value, source)];
            var s, s' := Run(relay, maxPayload, arrived + between), Run(relay, maxPayload, arrived + between + [Step(t, ok)]);
            if IsLiteral(relay.host) && source != relay then Run(relay, maxPayload, arrived) == Run(relay, maxPayload, acts)
            else
              && t in s'.calls
              && (s'.calls[t] == ReceiveDone(Delivered(payload, from, source)) <==> MayDeliver(s, from))
              && (s'.calls[t] == ReceiveDone(GotClosed) <==> s.closed)
  {
    hide Encode, Decode, Run, Inv, StepCall;
    var arrive := Arrive(t, Encode(payload, target).value, source);
    var checked := acts + [arrive] + between;
    EnvelopeRoundTrip(payload, target);
    RunInv(relay, maxPayload, acts);
    RunAppend(relay, maxPayload, acts, arrive);
    if !IsLiteral(relay.host) || source == relay {
      Undisturbed(relay, maxPayload, acts + [arrive], between, t);
      RunAppend(relay, maxPayload, checked, Step(t, ok));
      CheckStep(Run(relay, maxPayload, checked), t, ok);
    }
  }

  lemma {:induction false} CheckStep(s: State, t: Tid, ok: bool)
    requires t in s.calls && s.calls[t].ReceiveCheck?
    ensures var c, s' := s.calls[t], StepCall(s, t, s.calls[t], ok);
            && t in s'.calls
            && (s'.calls[t] == ReceiveDone(Delivered(c.payload, c.from, c.source)) <==> MayDeliver(s, c.from))
            && (s'.calls[t] == ReceiveDone(GotClosed) <==> s.closed)
  {
  }

  ghost predicate Quiet(s: State, t: Tid)
  {
    && (t in s.calls ==> s.calls[t].SendStart? || s.calls[t].SendBind? || s.calls[t].SendDone?)
    && forall d :: d in s.sentLog ==> d.sender != t
  }

  lemma {:induction false} QuietStep(s: State, a: Action, t: Tid)
    requires s.closed && Quiet(s, t) && t in s.calls
    ensures Quiet(Next(s, a), t) && Next(s, a).closed && t in Next(s, a).calls
  {
  }

  /** A Send that begins once Close has set its flag transmits nothing, however the run goes on. */
  lemma {:induction false} LateSendIsSilent(relay: Target, maxPayload: int, acts: seq<Action>, t: Tid, payload: Text, target: Target,
                                            more: seq<Action>)
    requires var s := Run(relay, maxPayload, acts); s.closed && t !in s.calls
    ensures var s := Run(relay, maxPayload, acts + [Begin(t, SendStart(payload, target))] + more);
            s.closed && Quiet(s, t) && t in s.calls
  {
    hide Quiet, Next;
    var begun := acts + [Begin(t, SendStart(payload, target))];
    if more == [] {
      assert begun + more == begun;
      RunAppend(relay, maxPayload, acts, Begin(t, SendStart(payload, target)));
      RunInv(relay, maxPayload, acts);
      BeginQuiet(Run(relay, maxPayload, acts), t, payload, target);
    } else {
      var init := begun + more[..|more| - 1];
      LateSendIsSilent(relay, maxPayload, acts, t, payload, target, more[..|more| - 1]);
      assert begun + more == init + [more[|more| - 1]];
      RunAppend(relay, maxPayload, init, more[|more| - 1]);
      QuietStep(Run(relay, maxPayload, init), more[|more| - 1], t);
    }
  }

  lemma {:induction false} BeginQuiet(s: State, t: Tid, payload: Text, target: Target)
    requires Inv(s) && s.closed && t !in s.calls
    ensures var s' := Next(s, Begin(t, SendStart(payload, target))); s'.closed && Quiet(s', t) && t in s'.calls
  {
  }

  lemma {:induction false} RunAppend(relay: Target, maxPayload: int, acts: seq<Action>, a: Action)
    ensures Run(relay, maxPayload, acts + [a]) == Next(Run(relay, maxPayload, acts), a)
  {
  }
}
