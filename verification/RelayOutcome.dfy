/** What Send and Receive of a fallback session return, in terms of what the underlying calls of the run returned. */
module RelayOutcomes {
  import opened Bytes
  import opened RelayFallbacks

  // ----- Send -----

  ghost predicate SenderAt(s: State, t: Tid)
  {
    t in s.calls && s.calls[t].Sender?
  }

  /** Action `i` ends the Send of `t` with this result. */
  ghost predicate SendEndsAt(acts: seq<Action>, i: nat, t: Tid, result: Result)
  {
    && i < |acts| && acts[i].Step? && acts[i].t == t
    && var s := Run(acts[..i]);
       SenderAt(s, t) && SendEnds(s, s.calls[t].s, acts[i].ok, result)
  }

  /**
   * A captured or re-sending session took the datagram; the backup refused it; no backup could be
   * opened; or the wrapper was found closed.
   */
  ghost predicate SendEnds(s: State, pc: SendPc, ok: bool, result: Result)
  {
    match result
    case Delivered => ok && (pc.SendCall? || pc.SendAgain?)
    case Failed(sid) => !ok && (pc == SendCall(sid, true) || (pc.SendAgain? && s.session == sid))
    case Unopened => !ok && pc.SendOpen?
    case ErrClosed => s.closed && s.lock == None && (pc.SendStart? || pc.SendLock?)
  }

  lemma {:induction false} SendStep(s: State, a: Action, t: Tid, result: Result)
    requires Inv(s) && t in Next(s, a).calls
    ensures Next(s, a).calls[t] == Sender(SendDone(result)) <==>
            || (SenderAt(s, t) && s.calls[t].s == SendDone(result))
            || (a.Step? && a.t == t && SenderAt(s, t) && SendEnds(s, s.calls[t].s, a.ok, result))
  {
    if t in s.calls {
      assert CallOk(s, t, s.calls[t]);
    }
    InvNext(s, a);
  }

  lemma {:induction false} EndsEarlier(acts: seq<Action>, t: Tid, result: Result)
    requires acts != []
    ensures var init := acts[..|acts| - 1];
            (exists i: nat :: SendEndsAt(acts, i, t, result)) <==>
            || (exists i: nat :: SendEndsAt(init, i, t, result))
            || SendEndsAt(acts, |acts| - 1, t, result)
  {
    hide Run, SendEnds;
    var init := acts[..|acts| - 1];
    forall i: nat | i < |init| ensures SendEndsAt(acts, i, t, result) <==> SendEndsAt(init, i, t, result) {
      assert init[..i] == acts[..i];
    }
  }

  /** Send has returned a result exactly if one of its underlying calls, or its check, ended it with that result. */
  lemma {:induction false} SendExactly(acts: seq<Action>, t: Tid, result: Result)
    ensures SenderAt(Run(acts), t) && Run(acts).calls[t].s == SendDone(result) <==> exists i: nat :: SendEndsAt(acts, i, t, result)
  {
    hide Inv, Next, SendEnds;
    if acts == [] {
    } else {
      var init, a := acts[..|acts| - 1], acts[|acts| - 1];
      SendExactly(init, t, result);
      RunInv(init);
      EndsEarlier(acts, t, result);
      CallsStay(Run(init), a, t);
      if t in Run(acts).calls {
        SendStep(Run(init), a, t, result);
      }
    }
  }

  lemma {:induction false} CallsStay(s: State, a: Action, t: Tid)
    requires Inv(s)
    ensures t in s.calls ==> t in Next(s, a).calls
  {
    hide CallOk, Shared;
    InvNext(s, a);
  }

  /** The underlying sessions that took the datagram of Send `t`. */
  ghost function Accepted(acts: seq<Action>, t: Tid): nat
  {
    if acts == [] then 0
    else
      var init := acts[..|acts| - 1];
      Accepted(init, t) + if SendEndsAt(acts, |init|, t, Delivered) then 1 else 0
  }

  /** Send returns nil exactly when one underlying session accepted the datagram; none ever two. */
  lemma {:induction false} SendNilIffAccepted(acts: seq<Action>, t: Tid)
    ensures Accepted(acts, t) == if SenderAt(Run(acts), t) && Run(acts).calls[t].s == SendDone(Delivered) then 1 else 0
  {
    hide Inv, Next, SendEnds;
    if acts == [] {
    } else {
      var init, a := acts[..|acts| - 1], acts[|acts| - 1];
      SendNilIffAccepted(init, t);
      RunInv(init);
      CallsStay(Run(init), a, t);
      if t in Run(acts).calls {
        SendStep(Run(init), a, t, Delivered);
      }
      if SenderAt(Run(init), t) && Run(init).calls[t].s == SendDone(Delivered) {
        DoneEndsNothing(Run(init), Delivered, a);
      }
    }
  }

  lemma {:induction false} DoneEndsNothing(s: State, result: Result, a: Action)
    ensures a.Step? ==> !SendEnds(s, SendDone(result), a.ok, Delivered)
  {
  }

  /** Send reports an underlying error only of the replacement, and ErrClosed only of a closed wrapper. */
  lemma {:induction false} SendErrorsExplained(acts: seq<Action>, t: Tid)
    requires SenderAt(Run(acts), t) && Run(acts).calls[t].s.SendDone?
    ensures var s := Run(acts);
            && (s.calls[t].s.sent.Failed? ==> s.backup && s.calls[t].s.sent.from == s.session != PRIMARY)
            && (s.calls[t].s.sent.ErrClosed? ==> s.closed)
  {
    hide Run;
    RunInv(acts);
    assert CallOk(Run(acts), t, Run(acts).calls[t]);
  }

  // ----- Receive -----

  ghost predicate ReceiverAt(s: State, t: Tid)
  {
    t in s.calls && s.calls[t].Receiver?
  }

  /** Action `i` ends the Receive of `t` with this result. */
  ghost predicate ReceiveEndsAt(acts: seq<Action>, i: nat, t: Tid, result: Result)
  {
    && i < |acts| && acts[i].Step? && acts[i].t == t
    && var s := Run(acts[..i]);
       ReceiverAt(s, t) && ReceiveEnds(s, s.calls[t].r, acts[i].ok, result)
  }

  /** The underlying Receive delivered; the wrapper was found closed; or a failure was found to be current. */
  ghost predicate ReceiveEnds(s: State, pc: ReceivePc, ok: bool, result: Result)
  {
    match result
    case Delivered => ok && pc.ReceiveCall?
    case ErrClosed => s.closed && s.lock == None && pc.ReceiveStart?
    case Failed(sid) => pc == ReceiveCooldown(sid) ||
                        (pc == ReceiveCheck(sid) && s.lock == None && (s.closed || (s.backup && s.session == sid)))
    case Unopened => false
  }

  lemma {:induction false} ReceiveStep(s: State, a: Action, t: Tid, result: Result)
    requires Inv(s) && t in Next(s, a).calls
    ensures Next(s, a).calls[t] == Receiver(ReceiveDone(result)) <==>
            || (ReceiverAt(s, t) && s.calls[t].r == ReceiveDone(result))
            || (a.Step? && a.t == t && ReceiverAt(s, t) && ReceiveEnds(s, s.calls[t].r, a.ok, result))
  {
    if t in s.calls {
      assert CallOk(s, t, s.calls[t]);
    }
    InvNext(s, a);
  }

  lemma {:induction false} ReceiveEndsEarlier(acts: seq<Action>, t: Tid, result: Result)
    requires acts != []
    ensures var init := acts[..|acts| - 1];
            (exists i: nat :: ReceiveEndsAt(acts, i, t, result)) <==>
            || (exists i: nat :: ReceiveEndsAt(init, i, t, result))
            || ReceiveEndsAt(acts, |acts| - 1, t, result)
  {
    hide Run, ReceiveEnds;
    var init := acts[..|acts| - 1];
    forall i: nat | i < |init| ensures ReceiveEndsAt(acts, i, t, result) <==> ReceiveEndsAt(init, i, t, result) {
      assert init[..i] == acts[..i];
    }
  }

  /** Receive has returned a result exactly if its underlying call or its check ended it with that result. */
  lemma {:induction false} ReceiveExactly(acts: seq<Action>, t: Tid, result: Result)
    ensures ReceiverAt(Run(acts), t) && Run(acts).calls[t].r == ReceiveDone(result) <==>
            exists i: nat :: ReceiveEndsAt(acts, i, t, result)
  {
    hide Inv, Next, ReceiveEnds;
    if acts == [] {
    } else {
      var init, a := acts[..|acts| - 1], acts[|acts| - 1];
      ReceiveExactly(init, t, result);
      RunInv(init);
      ReceiveEndsEarlier(acts, t, result);
      CallsStay(Run(init), a, t);
      if t in Run(acts).calls {
        ReceiveStep(Run(init), a, t, result);
      }
    }
  }

  /** Action `i` is an underlying Receive of `t` on `packet`, which fails. */
  ghost predicate ReceiveFailsAt(acts: seq<Action>, i: nat, t: Tid, packet: Sid)
  {
    && i < |acts| && acts[i] == Step(t, false)
    && var s := Run(acts[..i]);
       ReceiverAt(s, t) && s.calls[t].r == ReceiveCall(packet)
  }

  lemma {:induction false} CheckArrives(s: State, a: Action, t: Tid)
    requires Inv(s) && ReceiverAt(Next(s, a), t) && Next(s, a).calls[t].r.ReceiveCheck?
    ensures ReceiverAt(s, t)
    ensures s.calls[t] == Next(s, a).calls[t] || (a == Step(t, false) && s.calls[t].r == ReceiveCall(Next(s, a).calls[t].r.packet))
  {
    InvNext(s, a);
  }

  /** What a receiver checks is a failure of its own underlying call. */
  lemma {:induction false} CheckFollowsFailure(acts: seq<Action>, t: Tid) returns (i: nat)
    requires ReceiverAt(Run(acts), t) && Run(acts).calls[t].r.ReceiveCheck?
    ensures ReceiveFailsAt(acts, i, t, Run(acts).calls[t].r.packet)
  {
    LastStep(acts);
    hide Run, Next, Inv;
    var init, a := acts[..|acts| - 1], acts[|acts| - 1];
    RunInv(init);
    CheckArrives(Run(init), a, t);
    if Run(init).calls[t] == Run(acts).calls[t] {
      i := CheckFollowsFailure(init, t);
      assert init[..i] == acts[..i];
    } else {
      i := |init|;
    }
  }

  /** The check decides: back to the start after a switch, a cooldown if nothing was switched or closed, else the error. */
  lemma {:induction false} CheckDecides(acts: seq<Action>, t: Tid, packet: Sid, ok: bool)
    requires var s := Run(acts); s.lock == None && ReceiverAt(s, t) && s.calls[t].r == ReceiveCheck(packet)
    ensures var s, s' := Run(acts), Run(acts + [Step(t, ok)]);
            && ReceiverAt(s', t)
            && (s'.calls[t].r == ReceiveCooldown(packet) <==> Unharmed(s))
            && (s'.calls[t].r == ReceiveStart <==> !s.closed && s.backup && packet == PRIMARY)
            && (s'.calls[t].r == ReceiveDone(Failed(packet)) <==> s.closed || (s.backup && packet != PRIMARY))
  {
    hide Run;
    RunInv(acts);
    RunAppend(acts, Step(t, ok));
    assert CallOk(Run(acts), t, Run(acts).calls[t]);
  }

  // ----- Going back -----

  /** How often `t` went back to the start of Receive. */
  ghost function Retries(acts: seq<Action>, t: Tid): nat
  {
    if acts == [] then 0
    else
      var s, s' := Run(acts[..|acts| - 1]), Run(acts);
      Retries(acts[..|acts| - 1], t) +
      if ReceiverAt(s, t) && s.calls[t].r != ReceiveStart && ReceiverAt(s', t) && s'.calls[t].r == ReceiveStart then 1 else 0
  }

  ghost predicate RetryOk(s: State, t: Tid, n: nat)
  {
    && n <= (if s.backup then 1 else 0)
    && (n > 0 && ReceiverAt(s, t) && (s.calls[t].r.ReceiveCall? || s.calls[t].r.ReceiveCheck?) ==> s.calls[t].r.packet == 1)
  }

  lemma {:induction false} RetryStep(s: State, a: Action, t: Tid, n: nat)
    requires Inv(s) && RetryOk(s, t, n) && (n > 0 ==> ReceiverAt(s, t))
    ensures var s' := Next(s, a);
            var n' := n + if ReceiverAt(s, t) && s.calls[t].r != ReceiveStart && ReceiverAt(s', t) && s'.calls[t].r == ReceiveStart
                          then 1 else 0;
            RetryOk(s', t, n') && (n' > 0 ==> ReceiverAt(s', t))
  {
    if t in s.calls {
      assert CallOk(s, t, s.calls[t]);
    }
    InvNext(s, a);
  }

  /** A receiver goes back at most once, and only after a switch. */
  lemma {:induction false} RetriesAtMostOnce(acts: seq<Action>, t: Tid)
    ensures Retries(acts, t) <= if Run(acts).backup then 1 else 0
    ensures RetryOk(Run(acts), t, Retries(acts, t)) && (Retries(acts, t) > 0 ==> ReceiverAt(Run(acts), t))
  {
    hide Inv, Next;
    if acts == [] {
    } else {
      var init, a := acts[..|acts| - 1], acts[|acts| - 1];
      RetriesAtMostOnce(init, t);
      RunInv(init);
      RetryStep(Run(init), a, t, Retries(init, t));
    }
  }

  // ----- A Receive that runs alone -----

  /** On an open wrapper with a free lock, a Receive that runs alone returns what the installed session's Receive returns. */
  lemma {:induction false} ReceiveAlone(acts: seq<Action>, t: Tid, ok: bool) returns (all: seq<Action>)
    requires var s := Run(acts); s.lock == None && !s.closed && t !in s.calls
    ensures acts <= all && ReceiverAt(Run(all), t)
    ensures Run(all).calls[t].r == ReceiveDone(if ok then Delivered else Failed(Run(acts).session))
  {
    hide Run;
    var s := Run(acts);
    RunInv(acts);
    var a0 := acts + [Begin(t, Receiver(ReceiveStart))];
    RunAppend(acts, Begin(t, Receiver(ReceiveStart)));
    assert Run(a0) == Goto(s, t, Receiver(ReceiveStart));
    var a1 := a0 + [Step(t, true)];
    RunAppend(a0, Step(t, true));
    assert Run(a1) == Goto(s, t, Receiver(ReceiveCall(s.session)));
    all := a1 + [Step(t, ok)];
    RunAppend(a1, Step(t, ok));
    if !ok {
      assert Run(all) == Goto(s, t, Receiver(ReceiveCheck(s.session)));
      var a2 := all + [Step(t, true)];
      RunAppend(all, Step(t, true));
      all := a2;
      if !s.backup {
        assert Run(a2) == Goto(s, t, Receiver(ReceiveCooldown(s.session)));
        RunAppend(a2, Step(t, true));
        all := a2 + [Step(t, true)];
      }
    }
  }

  /** A Close that runs alone with the lock free returns, and leaves the wrapper closed. */
  lemma {:induction false} CloseAlone(acts: seq<Action>, t: Tid) returns (all: seq<Action>)
    requires Run(acts).lock == None && t !in Run(acts).calls
    ensures acts <= all
    ensures var s' := Run(all); t in s'.calls && s'.calls[t] == Closer(CloseDone) && s'.closed && s'.lock == None
  {
    hide Run;
    var s, go := Run(acts), Step(t, true);
    var a0 := acts + [Begin(t, Closer(CloseStart))];
    RunAppend(acts, Begin(t, Closer(CloseStart)));
    assert Run(a0) == Goto(s, t, Closer(CloseStart));
    all := a0 + [go];
    RunAppend(a0, go);
    if !s.closed {
      var a1 := all;
      assert Run(a1) == Goto(s.(lock := Some(t), closed := true), t, Closer(CloseUnderlying));
      all := a1 + [go];
      RunAppend(a1, go);
    }
  }
}
