/** Which senders of a fallback session start a cooldown, before and after Close. */
module RelayClosings {
  import opened Bytes
  import opened RelayFallbacks

  /** A sender that has not captured the primary: it has not looked yet, uses the backup, or is done. */
  ghost predicate OffPrimary(call: Call)
  {
    call.Sender? && (call.s.SendStart? || call.s == SendCall(1, true) || call.s.SendDone?)
  }

  /** A sender begins a cooldown exactly when its call fails on a session captured before the switch. */
  lemma {:induction false} SenderCooldownExactly(acts: seq<Action>, t: Tid, ok: bool)
    requires t in Run(acts).calls && Run(acts).calls[t].Sender? && Run(acts).calls[t].s.SendCall?
    ensures var s, s' := Run(acts), Run(acts + [Step(t, ok)]);
            && (s'.calls[t].s.SendCooldown? <==> !ok && s.calls[t].s.packet == PRIMARY)
            && (s.calls[t].s.packet != PRIMARY ==> s.backup)
  {
    RunInv(acts);
    assert CallOk(Run(acts), t, Run(acts).calls[t]);
    assert (acts + [Step(t, ok)])[..|acts|] == acts;
  }

  /** A sender that looks from here on finds the primary gone: closed, replaced, or about to be. */
  ghost predicate Barred(s: State)
  {
    s.closed || s.backup || LockPhase(s) == Publishing
  }

  lemma {:induction false} BarredStep(s: State, a: Action)
    requires Inv(s) && Barred(s)
    ensures Barred(Next(s, a))
  {
    hide CallOk, Shared;
    InvNext(s, a);
    if !s.closed && !s.backup && Next(s, a) != s {
      var h := s.lock.value;
      if a.t != h {
        assert Next(s, a).lock == s.lock && Next(s, a).calls[h] == s.calls[h];
      }
    }
  }

  lemma {:induction false} OffPrimaryStep(s: State, a: Action, t: Tid)
    requires Inv(s) && Barred(s)
    requires t in s.calls && s.calls[t].Sender? ==> OffPrimary(s.calls[t])
    ensures t in Next(s, a).calls && Next(s, a).calls[t].Sender? ==> OffPrimary(Next(s, a).calls[t])
  {
    InvNext(s, a);
    if t in s.calls {
      assert CallOk(s, t, s.calls[t]);
    }
  }

  /** A Send that begins when the primary is closed, replaced or about to be starts no cooldown, however the run goes on. */
  lemma {:induction false} LateSenderNeverCools(acts: seq<Action>, more: seq<Action>, t: Tid)
    requires Barred(Run(acts))
    requires t !in Run(acts).calls || OffPrimary(Run(acts).calls[t])
    ensures Barred(Run(acts + more))
    ensures t in Run(acts + more).calls && Run(acts + more).calls[t].Sender? ==> OffPrimary(Run(acts + more).calls[t])
  {
    hide Next, Inv, OffPrimary, Run, Barred;
    if more == [] {
      assert acts + more == acts;
    } else {
      var init := acts + more[..|more| - 1];
      LateSenderNeverCools(acts, more[..|more| - 1], t);
      RunInv(init);
      BarredStep(Run(init), more[|more| - 1]);
      OffPrimaryStep(Run(init), more[|more| - 1], t);
      assert acts + more == init + [more[|more| - 1]];
      RunAppend(init, more[|more| - 1]);
    }
  }

  /** Close has returned to `u`, and sender `t` is yet to run owner.failed(). */
  ghost predicate CoolsAfterClose(s: State, t: Tid, u: Tid)
  {
    t in s.calls && s.calls[t].Sender? && s.calls[t].s.SendCooldown? && u in s.calls && s.calls[u] == Closer(CloseDone)
  }

  /** The primary is open and in use, and no call is inside the write lock. */
  ghost predicate OnPrimary(s: State)
  {
    s.lock == None && !s.closed && !s.backup
  }

  /** The six steps: a sender captures the primary, Close runs to its end, the captured session fails. */
  lemma {:induction false} CloseOvertakes(acts: seq<Action>, t: Tid, u: Tid) returns (more: seq<Action>)
    requires OnPrimary(Run(acts)) && t !in Run(acts).calls && u !in Run(acts).calls && t != u
    ensures CoolsAfterClose(Run(acts + more), t, u)
  {
    hide Run;
    var s := Run(acts);
    var captured := Sender(SendCall(s.session, false));
    var a0 := acts + [Begin(t, Sender(SendStart))];
    RunAppend(acts, Begin(t, Sender(SendStart)));
    assert Run(a0) == Goto(s, t, Sender(SendStart));
    var a1 := a0 + [Step(t, true)];
    RunAppend(a0, Step(t, true));
    assert Run(a1) == Goto(Run(a0), t, captured);
    var a2 := a1 + [Begin(u, Closer(CloseStart))];
    RunAppend(a1, Begin(u, Closer(CloseStart)));
    assert Run(a2) == Goto(Run(a1), u, Closer(CloseStart));
    var a3 := a2 + [Step(u, true)];
    RunAppend(a2, Step(u, true));
    assert Run(a3) == Goto(Run(a2).(lock := Some(u), closed := true), u, Closer(CloseUnderlying));
    var a4 := a3 + [Step(u, true)];
    RunAppend(a3, Step(u, true));
    assert Run(a4).calls[t] == captured && Run(a4).calls[u] == Closer(CloseDone);
    RunAppend(a4, Step(t, false));
    more := [Begin(t, Sender(SendStart)), Step(t, true), Begin(u, Closer(CloseStart)), Step(u, true), Step(u, true), Step(t, false)];
    assert acts + more == a4 + [Step(t, false)];
  }

  /** That closing is not a relay failure fails for senders: one that captured the primary starts a cooldown after Close returned. */
  lemma {:induction false} SenderCoolsAfterClose() returns (acts: seq<Action>)
    ensures CoolsAfterClose(Run(acts), 0, 1)
  {
    acts := CloseOvertakes([], 0, 1);
    assert [] + acts == acts;
  }

  lemma {:induction false} UnusedTid(used: set<Tid>) returns (u: Tid)
    ensures forall x :: x in used ==> x < u
  {
    if used == {} {
      u := 0;
    } else {
      var x :| x in used;
      var v := UnusedTid(used - {x});
      u := if x < v then v else x + 1;
      assert forall y :: y in used ==> y == x || y in used - {x};
    }
  }

  lemma {:induction false} LockFrees(acts: seq<Action>) returns (more: seq<Action>)
    requires !Barred(Run(acts))
    ensures OnPrimary(Run(acts + more)) && Run(acts + more).calls.Keys == Run(acts).calls.Keys
  {
    hide Run, CallOk;
    var s := Run(acts);
    RunInv(acts);
    more := [];
    assert acts + more == acts;
    if s.lock.Some? {
      var h := s.lock.value;
      assert PhaseOf(s.calls[h]) == Opening;
      more := [Step(h, false)];
      RunAppend(acts, Step(h, false));
    }
  }

  /**
   * Exactly when it can happen: a Send that begins now may still start a cooldown after a Close has
   * returned if and only if the primary is open, in use and not about to be replaced.
   */
  lemma {:induction false} CoolsAfterCloseExactly(acts: seq<Action>, t: Tid)
    requires t !in Run(acts).calls
    ensures (exists more, u :: CoolsAfterClose(Run(acts + more), t, u)) <==> !Barred(Run(acts))
  {
    hide Run, Barred;
    if Barred(Run(acts)) {
      forall more, u ensures !CoolsAfterClose(Run(acts + more), t, u) {
        LateSenderNeverCools(acts, more, t);
      }
    } else {
      var first := LockFrees(acts);
      var u := UnusedTid(Run(acts).calls.Keys + {t});
      var rest := CloseOvertakes(acts + first, t, u);
      assert acts + first + rest == acts + (first + rest);
      assert CoolsAfterClose(Run(acts + (first + rest)), t, u);
    }
  }
}
