/** What OpenPacket returns and what the shared relay records, in terms of the run's own steps. */
module RelayOwnerOutcomes {
  import opened Bytes
  import opened RelayOwners
  import S = RelayFallbacks

  // ----- OpenPacket -----

  /** Where a call that runs alone ends up, given what the network answers. */
  function Expected(o: Owner, net: Net, now: int): Opened
  {
    if !Skips(o, now) && net.primaryOk then Primary
    else if !Skips(o, now) && net.cancelled then ContextErr
    else if net.backupOk then Backup
    else BackupErr
  }

  /**
   * An OpenPacket call that runs alone returns what the network's answers call for. It leaves a
   * session exactly if the primary opened, and a cooldown exactly if the primary was tried and failed.
   */
  lemma {:induction false} OpenAlone(cooldown: int, acts: seq<Action>, o: Oid, net: Net, now: int, later: int)
    returns (all: seq<Action>)
    requires o !in Run(cooldown, acts).opens
    ensures acts <= all
    ensures var s, s' := Run(cooldown, acts), Run(cooldown, all);
            var r := Expected(s.owner, net, now);
            && o in s'.opens && s'.opens[o] == Returned(r)
            && s'.sessions == (if r == Primary then s.sessions[o := S.Init()] else s.sessions)
            && s'.owner.activeBackup == (if r == Primary then false else if r == Backup then true else s.owner.activeBackup)
            && s'.owner.retryAt == (if r == Primary then None
                                    else if !Skips(s.owner, now) && r != ContextErr then Some(later + cooldown)
                                    else s.owner.retryAt)
  {
    hide Run;
    var s := Run(cooldown, acts);
    var a0 := acts + [Ask(o)];
    RunAppend(cooldown, acts, Ask(o));
    assert Run(cooldown, a0).opens[o] == Asking && Run(cooldown, a0).owner == s.owner;
    var check := Open(o, true, false, now);
    var a1 := a0 + [check];
    RunAppend(cooldown, a0, check);
    var s1 := Run(cooldown, a1);
    assert s1.owner == s.owner && s1.sessions == s.sessions;
    if Skips(s.owner, now) {
      assert s1.opens[o] == TryBackup;
      all := BackupAlone(cooldown, a1, o, net.backupOk);
    } else {
      assert s1.opens[o] == TryPrimary;
      var attempt := Open(o, net.primaryOk, net.cancelled, later);
      var a2 := a1 + [attempt];
      RunAppend(cooldown, a1, attempt);
      var s2 := Run(cooldown, a2);
      assert s2.owner == s.owner && s2.sessions == s.sessions;
      if net.primaryOk {
        assert s2.opens[o] == MarkPrimary;
        all := a2 + [check];
        RunAppend(cooldown, a2, check);
      } else if net.cancelled {
        all := a2;
      } else {
        assert s2.opens[o] == Cooling;
        var cool := Open(o, true, false, later);
        RunAppend(cooldown, a2, cool);
        assert Run(cooldown, a2 + [cool]).opens[o] == TryBackup;
        all := BackupAlone(cooldown, a2 + [cool], o, net.backupOk);
      }
    }
  }

  lemma {:induction false} BackupAlone(cooldown: int, acts: seq<Action>, o: Oid, ok: bool) returns (all: seq<Action>)
    requires var s := Run(cooldown, acts); o in s.opens && s.opens[o] == TryBackup
    ensures acts <= all
    ensures var s, s' := Run(cooldown, acts), Run(cooldown, all);
            && o in s'.opens && s'.opens[o] == Returned(if ok then Backup else BackupErr)
            && s'.sessions == s.sessions && s'.owner.retryAt == s.owner.retryAt
            && s'.owner.activeBackup == (ok || s.owner.activeBackup)
  {
    hide Run;
    var go := Open(o, ok, false, 0);
    all := acts + [go];
    RunAppend(cooldown, acts, go);
    if ok {
      var a1 := all;
      assert Run(cooldown, a1).opens[o] == MarkBackup;
      all := a1 + [go];
      RunAppend(cooldown, a1, go);
    }
  }

  // ----- Switches on record -----

  /** The session is on the backup and has told the owner so. */
  ghost predicate Told(s: S.State)
  {
    s.backup && S.LockPhase(s) != S.ClosingPrimary && S.LockPhase(s) != S.Marking
  }

  ghost function Switches(log: seq<Event>): nat
  {
    if log == [] then 0 else Switches(log[..|log| - 1]) + if log[|log| - 1].Switched? then 1 else 0
  }

  ghost function Switchers(s: State): set<Oid>
  {
    set o | o in s.sessions && Told(s.sessions[o])
  }

  /** A step of a session tells the owner of a switch exactly when it makes the session one that has told. */
  lemma {:induction false} TellsOnce(s: S.State, a: S.Action, now: int)
    requires S.Inv(s)
    ensures Told(S.Next(s, a)) <==> Told(s) || Note(s, a, now) == Some(Switched)
    ensures Note(s, a, now) == Some(Switched) ==> !Told(s)
  {
    S.InvNext(s, a);
    if a.t in s.calls {
      assert S.CallOk(s, a.t, s.calls[a.t]);
    }
    if a.Step? && a.t in s.calls && S.Next(s, a) != s && s.lock.Some? && s.lock != Some(a.t) {
      assert S.Next(s, a).calls[s.lock.value] == s.calls[s.lock.value];
    }
  }

  lemma {:induction false} SwitchesAppend(log: seq<Event>, e: Event)
    ensures Switches(log + [e]) == Switches(log) + if e.Switched? then 1 else 0
  {
    assert (log + [e])[..|log|] == log;
  }

  lemma {:induction false} UseCounts(s: State, cooldown: int, o: Oid, act: S.Action, now: int)
    requires o in s.sessions && S.Inv(s.sessions[o]) && Switches(s.log) == |Switchers(s)|
    ensures var s' := Next(s, cooldown, Use(o, act, now)); Switches(s'.log) == |Switchers(s')|
  {
    hide S.Next, Note, Told, After, S.Inv, Switches;
    var s' := Next(s, cooldown, Use(o, act, now));
    TellsOnce(s.sessions[o], act, now);
    if Note(s.sessions[o], act, now).Some? {
      SwitchesAppend(s.log, Note(s.sessions[o], act, now).value);
    }
    if Note(s.sessions[o], act, now) == Some(Switched) {
      assert Switchers(s') == Switchers(s) + {o};
    } else {
      assert Switchers(s') == Switchers(s);
    }
  }

  lemma {:induction false} OpenCounts(s: State, cooldown: int, a: Action)
    requires !a.Use? && Named(s) && Switches(s.log) == |Switchers(s)|
    ensures var s' := Next(s, cooldown, a); Switches(s'.log) == |Switchers(s')|
  {
    hide S.Next, After, Switches;
    var s' := Next(s, cooldown, a);
    if s'.log != s.log {
      SwitchesAppend(s.log, s'.log[|s.log|]);
    }
    assert Switchers(s') == Switchers(s);
  }

  /** The switches on record are exactly the sessions that have switched and told the owner, each once. */
  lemma {:induction false} SwitchesCounted(cooldown: int, acts: seq<Action>)
    ensures Switches(Run(cooldown, acts).log) == |Switchers(Run(cooldown, acts))|
  {
    hide Next, Switchers, Named, S.Inv, S.Run;
    if acts == [] {
      NoSwitchers();
    } else {
      var init, a := acts[..|acts| - 1], acts[|acts| - 1];
      var s := Run(cooldown, init);
      SwitchesCounted(cooldown, init);
      if a.Use? {
        if a.o in s.sessions {
          SessionsAreRuns(cooldown, init, a.o);
          S.RunInv(Taken(cooldown, init, a.o));
          UseCounts(s, cooldown, a.o, a.act, a.now);
        } else {
          UseOfNothing(s, cooldown, a);
        }
      } else {
        SessionsAreRuns(cooldown, init, 0);
        OpenCounts(s, cooldown, a);
      }
    }
  }

  lemma {:induction false} UseOfNothing(s: State, cooldown: int, a: Action)
    requires a.Use? && a.o !in s.sessions
    ensures Next(s, cooldown, a) == s
  {
  }

  lemma {:induction false} NoSwitchers()
    ensures Switchers(INIT) == {} && Switches(INIT.log) == 0
  {
  }
}
