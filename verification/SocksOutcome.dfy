/** What Send, Receive and Close of a SOCKS5 UDP session return and transmit, in terms of the run's own steps. */
module SocksOutcomes {
  import opened Bytes
  import opened SocksSessions
  import opened SocksUdp

  // ----- What one action touches -----

  /** Only its own action changes a call, and only a step can finish it. */
  lemma {:induction false} CallAfter(s: State, a: Action, t: Tid)
    ensures t in s.calls ==> t in Next(s, a).calls
    ensures t in Next(s, a).calls ==>
              var c := Next(s, a).calls[t];
              || (t in s.calls && c == s.calls[t])
              || (a.t == t && (Fresh(c) || c.ReceiveCheck?))
              || (a.Step? && a.t == t && t in s.calls)
    ensures a.Step? && a.t in s.calls ==> Next(s, a) == StepCall(s, a.t, s.calls[a.t], a.ok)
    ensures !a.Step? || a.t !in s.calls ==> Next(s, a).sendMu == s.sendMu && Next(s, a).sentLog == s.sentLog
  {
    hide Encode, Decode;
    if a.Step? && a.t in s.calls {
      StepTouches(s, a.t, a.ok);
    }
  }

  lemma {:induction false} StepTouches(s: State, t: Tid, ok: bool)
    requires t in s.calls
    ensures var s' := StepCall(s, t, s.calls[t], ok); t in s'.calls && s'.calls == s.calls[t := s'.calls[t]]
  {
    hide Encode;
  }

  // ----- The send mutex -----

  predicate Holding(call: Call)
  {
    call.SendBind? || call.SendPacket?
  }

  ghost predicate Exclusive(s: State)
  {
    && (forall t :: t in s.calls && Holding(s.calls[t]) ==> s.sendMu == Some(t))
    && (s.sendMu.Some? ==> s.sendMu.value in s.calls && Holding(s.calls[s.sendMu.value]))
  }

  lemma {:induction false} StepMutex(s: State, t: Tid, ok: bool)
    requires t in s.calls && (Holding(s.calls[t]) ==> s.sendMu == Some(t))
    ensures var s' := StepCall(s, t, s.calls[t], ok);
            && t in s'.calls
            && s'.sendMu == if Holding(s'.calls[t]) then Some(t) else if Holding(s.calls[t]) then None else s.sendMu
    ensures Holding(StepCall(s, t, s.calls[t], ok).calls[t]) && !Holding(s.calls[t]) ==> s.sendMu == None
  {
    hide Encode;
  }

  lemma {:induction false} ExclusiveStep(s: State, a: Action)
    requires Exclusive(s)
    ensures Exclusive(Next(s, a))
  {
    hide Next, StepCall, Fresh;
    var s' := Next(s, a);
    if a.Step? && a.t in s.calls {
      StepMutex(s, a.t, a.ok);
    }
    forall t ensures t in s.calls ==> t in s'.calls
      ensures t in s'.calls && t != a.t ==> t in s.calls && s'.calls[t] == s.calls[t]
      ensures t in s'.calls && !(a.Step? && a.t in s.calls) && Holding(s'.calls[t]) ==> t in s.calls && s'.calls[t] == s.calls[t]
      ensures t in s.calls && !(a.Step? && a.t in s.calls) && Holding(s.calls[t]) ==> Holding(s'.calls[t])
    {
      CallAfter(s, a, t);
      FreshIsFree(s, a, t);
    }
    CallAfter(s, a, a.t);
  }

  lemma {:induction false} FreshIsFree(s: State, a: Action, t: Tid)
    ensures t in Next(s, a).calls && (Fresh(Next(s, a).calls[t]) || Next(s, a).calls[t].ReceiveCheck?) ==> !Holding(Next(s, a).calls[t])
    ensures t in s.calls && Holding(s.calls[t]) && !a.Step? ==> t in Next(s, a).calls && Next(s, a).calls[t] == s.calls[t]
  {
    hide Encode, Decode, StepCall;
  }

  /** In every run the send mutex is held by exactly the one Send that is between its checks and its transmission. */
  lemma {:induction false} SendsExclude(relay: Target, maxPayload: int, acts: seq<Action>)
    ensures Exclusive(Run(relay, maxPayload, acts))
  {
    hide Next, Exclusive;
    if acts == [] {
      NobodyHolds(relay, maxPayload);
    } else {
      SendsExclude(relay, maxPayload, acts[..|acts| - 1]);
      ExclusiveStep(Run(relay, maxPayload, acts[..|acts| - 1]), acts[|acts| - 1]);
    }
  }

  lemma {:induction false} NobodyHolds(relay: Target, maxPayload: int)
    ensures Exclusive(Init(relay, maxPayload))
  {
  }

  // ----- Send -----

  /** A target that does not fit an envelope. */
  predicate Unfit(target: Target)
  {
    !(1 <= target.port <= 65535) || (target.host.Name? && !(1 <= |target.host.name| <= 255))
  }

  /**
   * Too long or unfit, found before anything else; bound to another target; found closed; or handed
   * to the packet session, which took it or not.
   */
  ghost predicate SendEnds(s: State, call: Call, ok: bool, sent: Sent)
  {
    match sent
    case Rejected =>
      || (&& call.SendStart? && s.sendMu == None
          && ((s.maxPayload > 0 && |call.payload| > s.maxPayload) || Unfit(call.target)))
      || (call.SendBind? && !s.closed && s.target.Some? && s.target.value != call.target)
    case ErrClosed => call.SendBind? && s.closed
    case Forwarded(taken) => call.SendPacket? && ok == taken
  }

  ghost predicate SendEndsAt(relay: Target, maxPayload: int, acts: seq<Action>, i: nat, t: Tid, sent: Sent)
  {
    && i < |acts| && acts[i].Step? && acts[i].t == t
    && var s := Run(relay, maxPayload, acts[..i]);
       t in s.calls && SendEnds(s, s.calls[t], acts[i].ok, sent)
  }

  lemma {:induction false} OwnSendStep(s: State, t: Tid, ok: bool, sent: Sent)
    requires t in s.calls
    ensures var s' := StepCall(s, t, s.calls[t], ok);
            t in s'.calls && (s'.calls[t] == SendDone(sent) <==> s.calls[t] == SendDone(sent) || SendEnds(s, s.calls[t], ok, sent))
  {
    hide Encode;
    if s.calls[t].SendStart? {
      EncodeFails(s.calls[t].payload, s.calls[t].target);
    }
  }

  lemma {:induction false} SendStep(s: State, a: Action, t: Tid, sent: Sent)
    requires t in Next(s, a).calls
    ensures Next(s, a).calls[t] == SendDone(sent) <==>
            || (t in s.calls && s.calls[t] == SendDone(sent))
            || (a.Step? && a.t == t && t in s.calls && SendEnds(s, s.calls[t], a.ok, sent))
  {
    hide Next, StepCall, SendEnds;
    CallAfter(s, a, t);
    if a.Step? && a.t == t && t in s.calls {
      OwnSendStep(s, t, a.ok, sent);
    } else {
      DoneStays(s, a, t);
    }
  }

  lemma {:induction false} DoneStays(s: State, a: Action, t: Tid)
    ensures t in s.calls && (s.calls[t].SendDone? || s.calls[t].ReceiveDone?) && !(a.Step? && a.t == t) ==>
              t in Next(s, a).calls && Next(s, a).calls[t] == s.calls[t]
  {
    hide StepCall, Encode, Decode;
    if a.Step? && a.t in s.calls {
      StepTouches(s, a.t, a.ok);
    }
  }

  lemma {:induction false} CallsStay(s: State, a: Action, t: Tid)
    ensures t in s.calls ==> t in Next(s, a).calls
  {
    hide Next, StepCall;
    CallAfter(s, a, t);
  }

  /** Send has returned a result exactly if one of its own steps ended it with that result. */
  lemma {:induction false} SendExactly(relay: Target, maxPayload: int, acts: seq<Action>, t: Tid, sent: Sent)
    ensures var s := Run(relay, maxPayload, acts);
            t in s.calls && s.calls[t] == SendDone(sent) <==> exists i: nat :: SendEndsAt(relay, maxPayload, acts, i, t, sent)
  {
    hide Next, SendEnds;
    if acts == [] {
    } else {
      var init, a := acts[..|acts| - 1], acts[|acts| - 1];
      var s := Run(relay, maxPayload, init);
      SendExactly(relay, maxPayload, init, t, sent);
      CallsStay(s, a, t);
      if t in Next(s, a).calls {
        SendStep(s, a, t, sent);
      }
      forall i: nat | i < |init|
        ensures SendEndsAt(relay, maxPayload, acts, i, t, sent) <==> SendEndsAt(relay, maxPayload, init, i, t, sent)
      {
        assert init[..i] == acts[..i];
      }
      assert SendEndsAt(relay, maxPayload, acts, |init|, t, sent) <==>
             a.Step? && a.t == t && t in s.calls && SendEnds(s, s.calls[t], a.ok, sent);
    }
  }

  /** How many datagrams of call `t` were transmitted. */
  ghost function Transmitted(log: seq<Datagram>, t: Tid): nat
  {
    if log == [] then 0 else Transmitted(log[..|log| - 1], t) + if log[|log| - 1].sender == t then 1 else 0
  }

  ghost predicate WasForwarded(s: State, t: Tid)
  {
    t in s.calls && s.calls[t].SendDone? && s.calls[t].sent.Forwarded?
  }

  /** A step transmits exactly when it makes its own call a forwarded Send. */
  lemma {:induction false} TransmitStep(s: State, a: Action)
    ensures var s' := Next(s, a);
            || (s'.sentLog == s.sentLog && forall t :: WasForwarded(s', t) == WasForwarded(s, t))
            || (&& |s'.sentLog| == |s.sentLog| + 1 && s'.sentLog[..|s.sentLog|] == s.sentLog
                && s'.sentLog[|s.sentLog|].sender == a.t && !WasForwarded(s, a.t)
                && forall t :: WasForwarded(s', t) <==> t == a.t || WasForwarded(s, t))
  {
    hide Encode, Decode;
  }

  /** A Send that was forwarded transmitted exactly one datagram, and every other Send none. */
  lemma {:induction false} TransmitsExactly(relay: Target, maxPayload: int, acts: seq<Action>, t: Tid)
    ensures var s := Run(relay, maxPayload, acts);
            Transmitted(s.sentLog, t) == if WasForwarded(s, t) then 1 else 0
  {
    hide Next, WasForwarded;
    if acts == [] {
      NoneForwarded(relay, maxPayload, t);
    } else {
      TransmitsExactly(relay, maxPayload, acts[..|acts| - 1], t);
      TransmitStep(Run(relay, maxPayload, acts[..|acts| - 1]), acts[|acts| - 1]);
    }
  }

  lemma {:induction false} NoneForwarded(relay: Target, maxPayload: int, t: Tid)
    ensures !WasForwarded(Init(relay, maxPayload), t)
  {
  }

  lemma {:induction false} Advance(relay: Target, maxPayload: int, acts: seq<Action>, a: Action)
    ensures Run(relay, maxPayload, acts + [a]) == Next(Run(relay, maxPayload, acts), a)
  {
    RunAppend(relay, maxPayload, acts, a);
  }

  /** A Send that runs alone with the mutex free: what it returns, transmits and binds. */
  lemma {:induction false} SendAlone(relay: Target, maxPayload: int, acts: seq<Action>, t: Tid, payload: Text, target: Target, ok: bool)
    returns (all: seq<Action>)
    requires var s := Run(relay, maxPayload, acts); s.sendMu == None && t !in s.calls
    ensures acts <= all
    ensures var s, s' := Run(relay, maxPayload, acts), Run(relay, maxPayload, all);
            && t in s'.calls && s'.sendMu == None && s'.closed == s.closed
            && s'.calls[t] == SendDone(
                 if (maxPayload > 0 && |payload| > maxPayload) || Unfit(target) then Rejected
                 else if s.closed then ErrClosed
                 else if s.target.Some? && s.target.value != target then Rejected
                 else Forwarded(ok))
            && (s'.calls[t].sent.Forwarded? ==>
                  && s'.target == Some(target) && |s'.sentLog| == |s.sentLog| + 1
                  && s'.sentLog == s.sentLog + [s'.sentLog[|s.sentLog|]]
                  && s'.sentLog[|s.sentLog|].payload == payload && s'.sentLog[|s.sentLog|].target == target)
            && (!s'.calls[t].sent.Forwarded? ==> s'.target == s.target && s'.sentLog == s.sentLog)
  {
    hide Run, Encode, Decode, Inv, Next, StepCall;
    var s, go := Run(relay, maxPayload, acts), Step(t, ok);
    RunInv(relay, maxPayload, acts);
    var begin := Begin(t, SendStart(payload, target));
    var a0 := acts + [begin];
    Advance(relay, maxPayload, acts, begin);
    SendBegins(s, t, payload, target, ok);
    all := a0 + [go];
    Advance(relay, maxPayload, a0, go);
    if !((maxPayload > 0 && |payload| > maxPayload) || Unfit(target)) {
      var s1 := Run(relay, maxPayload, all);
      var bytes := s1.calls[t].bytes;
      SendBinds(s1, t, payload, target, bytes, ok);
      var a1 := all;
      all := a1 + [go];
      Advance(relay, maxPayload, a1, go);
      if !s.closed && (s.target == None || s.target.value == target) {
        SendTransmits(Run(relay, maxPayload, all), t, payload, target, bytes, ok);
        var a2 := all;
        all := a2 + [go];
        Advance(relay, maxPayload, a2, go);
      }
    }
  }

  /** The first two steps of a Send: begun, then rejected or in possession of the mutex. */
  lemma {:induction false} SendBegins(s: State, t: Tid, payload: Text, target: Target, ok: bool)
    requires s.sendMu == None && t !in s.calls
    ensures var s1 := Next(Next(s, Begin(t, SendStart(payload, target))), Step(t, ok));
            if (s.maxPayload > 0 && |payload| > s.maxPayload) || Unfit(target) then
              s1 == s.(calls := s.calls[t := SendDone(Rejected)])
            else
              && t in s1.calls && s1.calls[t].SendBind?
              && s1 == s.(sendMu := Some(t), calls := s.calls[t := SendBind(payload, target, s1.calls[t].bytes)])
  {
    hide Encode;
    EncodeFails(payload, target);
    var s0 := Next(s, Begin(t, SendStart(payload, target)));
    assert s0 == Goto(s, t, SendStart(payload, target));
    assert s0.calls[t := SendDone(Rejected)] == s.calls[t := SendDone(Rejected)];
    if Encode(payload, target).Some? {
      var bind := SendBind(payload, target, Encode(payload, target).value);
      assert s0.calls[t := bind] == s.calls[t := bind];
    }
  }

  lemma {:induction false} SendBinds(s: State, t: Tid, payload: Text, target: Target, bytes: Text, ok: bool)
    requires t in s.calls && s.calls[t] == SendBind(payload, target, bytes)
    ensures Next(s, Step(t, ok)) ==
            if s.closed then s.(sendMu := None, calls := s.calls[t := SendDone(ErrClosed)])
            else if s.target.Some? && s.target.value != target then s.(sendMu := None, calls := s.calls[t := SendDone(Rejected)])
            else s.(target := Some(target), calls := s.calls[t := SendPacket(payload, target, bytes)])
  {
  }

  lemma {:induction false} SendTransmits(s: State, t: Tid, payload: Text, target: Target, bytes: Text, ok: bool)
    requires t in s.calls && s.calls[t] == SendPacket(payload, target, bytes)
    ensures Next(s, Step(t, ok)) ==
            s.(sendMu := None, sentLog := s.sentLog + [Datagram(t, payload, target, bytes)],
               calls := s.calls[t := SendDone(Forwarded(ok))])
  {
  }

  // ----- Receive -----

  /** The packet session failed; the session was found closed; or a checked reply may be delivered. */
  ghost predicate ReceiveEnds(s: State, call: Call, ok: bool, got: Got)
  {
    match got
    case Failed => call.ReceiveNext? && !ok
    case GotClosed => call.ReceiveCheck? && s.closed
    case Delivered(payload, target, source) => call == ReceiveCheck(payload, target, source) && MayDeliver(s, target)
  }

  ghost predicate ReceiveEndsAt(relay: Target, maxPayload: int, acts: seq<Action>, i: nat, t: Tid, got: Got)
  {
    && i < |acts| && acts[i].Step? && acts[i].t == t
    && var s := Run(relay, maxPayload, acts[..i]);
       t in s.calls && ReceiveEnds(s, s.calls[t], acts[i].ok, got)
  }

  lemma {:induction false} OwnReceiveStep(s: State, t: Tid, ok: bool, got: Got)
    requires t in s.calls
    ensures var s' := StepCall(s, t, s.calls[t], ok);
            t in s'.calls && (s'.calls[t] == ReceiveDone(got) <==> s.calls[t] == ReceiveDone(got) || ReceiveEnds(s, s.calls[t], ok, got))
  {
    hide Encode;
  }

  lemma {:induction false} ReceiveStep(s: State, a: Action, t: Tid, got: Got)
    requires t in Next(s, a).calls
    ensures Next(s, a).calls[t] == ReceiveDone(got) <==>
            || (t in s.calls && s.calls[t] == ReceiveDone(got))
            || (a.Step? && a.t == t && t in s.calls && ReceiveEnds(s, s.calls[t], a.ok, got))
  {
    hide Next, StepCall, ReceiveEnds;
    CallAfter(s, a, t);
    if a.Step? && a.t == t && t in s.calls {
      OwnReceiveStep(s, t, a.ok, got);
    } else {
      DoneStays(s, a, t);
    }
  }

  /** Receive has returned a result exactly if one of its own steps ended it with that result. */
  lemma {:induction false} ReceiveExactly(relay: Target, maxPayload: int, acts: seq<Action>, t: Tid, got: Got)
    ensures var s := Run(relay, maxPayload, acts);
            t in s.calls && s.calls[t] == ReceiveDone(got) <==> exists i: nat :: ReceiveEndsAt(relay, maxPayload, acts, i, t, got)
  {
    hide Next, ReceiveEnds;
    if acts == [] {
    } else {
      var init, a := acts[..|acts| - 1], acts[|acts| - 1];
      var s := Run(relay, maxPayload, init);
      ReceiveExactly(relay, maxPayload, init, t, got);
      CallsStay(s, a, t);
      if t in Next(s, a).calls {
        ReceiveStep(s, a, t, got);
      }
      forall i: nat | i < |init|
        ensures ReceiveEndsAt(relay, maxPayload, acts, i, t, got) <==> ReceiveEndsAt(relay, maxPayload, init, i, t, got)
      {
        assert init[..i] == acts[..i];
      }
      assert ReceiveEndsAt(relay, maxPayload, acts, |init|, t, got) <==>
             a.Step? && a.t == t && t in s.calls && ReceiveEnds(s, s.calls[t], a.ok, got);
    }
  }

  /** A checked reply that is not for the bound address is dropped, and the call waits for the next one. */
  lemma {:induction false} StrangerIsDropped(relay: Target, maxPayload: int, acts: seq<Action>, t: Tid, ok: bool)
    requires var s := Run(relay, maxPayload, acts); t in s.calls && s.calls[t].ReceiveCheck?
    ensures var s, s' := Run(relay, maxPayload, acts), Run(relay, maxPayload, acts + [Step(t, ok)]);
            t in s'.calls && (s'.calls[t] == ReceiveNext <==> !s.closed && !MayDeliver(s, s.calls[t].from))
  {
    hide Run, Encode, Decode;
    Advance(relay, maxPayload, acts, Step(t, ok));
  }

  // ----- Close -----

  /** A Close that runs alone, with no other one inside, returns and leaves the session closed. */
  lemma {:induction false} CloseAlone(relay: Target, maxPayload: int, acts: seq<Action>, t: Tid) returns (all: seq<Action>)
    requires var s := Run(relay, maxPayload, acts); !s.once.Running? && t !in s.calls
    ensures acts <= all
    ensures var s' := Run(relay, maxPayload, all); t in s'.calls && s'.calls[t] == CloseDone && s'.closed && s'.underlyingCloses == 1
  {
    hide Run, Encode, Decode;
    var s, go := Run(relay, maxPayload, acts), Step(t, true);
    RunInv(relay, maxPayload, acts);
    var a0 := acts + [Begin(t, CloseStart)];
    Advance(relay, maxPayload, acts, Begin(t, CloseStart));
    assert Run(relay, maxPayload, a0) == Goto(s, t, CloseStart);
    all := a0 + [go];
    Advance(relay, maxPayload, a0, go);
    if s.once == NotRun {
      var a1 := all;
      assert Run(relay, maxPayload, a1) == Goto(s.(once := Running(t)), t, CloseFlag);
      var a2 := a1 + [go];
      Advance(relay, maxPayload, a1, go);
      assert Run(relay, maxPayload, a2) == Goto(s.(once := Running(t), closed := true), t, CloseBoth);
      all := a2 + [go];
      Advance(relay, maxPayload, a2, go);
    }
  }
}
