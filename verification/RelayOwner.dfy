/**
 * PacketRelayFallback of internal/transport/relay_fallback.go: the cooldown and the active path that
 * all its sessions share, under any number of concurrent OpenPacket calls and of calls on the
 * sessions they returned.
 */
module RelayOwners {
  import opened Bytes
  import C = RelayClosings
  import S = RelayFallbacks

  datatype Owner = Owner(retryAt: Option<int>, activeBackup: bool)  // None is the zero time

  const START := Owner(None, false)

  /** The sections locked by the owner's mutex. */
  datatype Event =
    | Checked(now: int)   // OpenPacket reads retryAt
    | PrimaryOpened       // active = "hy2", retryAt cleared
    | BackupOpened        // active = "reality"
    | Switched            // active = "reality", by a session's Send
    | FailedAt(now: int)  // failed()

  function After(o: Owner, cooldown: int, e: Event): Owner
  {
    match e
    case Checked(_) => o
    case PrimaryOpened => Owner(None, false)
    case BackupOpened => o.(activeBackup := true)
    case Switched => o.(activeBackup := true)
    case FailedAt(now) => o.(retryAt := Some(now + cooldown))
  }

  function AfterAll(o: Owner, cooldown: int, events: seq<Event>): Owner
  {
    if events == [] then o else After(AfterAll(o, cooldown, events[..|events| - 1]), cooldown, events[|events| - 1])
  }

  predicate Skips(o: Owner, now: int)
  {
    o.retryAt.Some? && now < o.retryAt.value
  }

  lemma {:induction false} AfterMore(o: Owner, cooldown: int, events: seq<Event>, e: Event)
    ensures AfterAll(o, cooldown, events + [e]) == After(AfterAll(o, cooldown, events), cooldown, e)
  {
  }

  // ----- One OpenPacket call that runs alone -----

  /** What an OpenPacket call returns: a wrapped primary session, a bare backup session, or an error. */
  datatype Opened = Primary | Backup | ContextErr | BackupErr

  /** What the network answers to one call; `cancelled` is ctx.Err() after a failed primary attempt. */
  datatype Net = Net(primaryOk: bool, cancelled: bool, backupOk: bool)

  class PacketRelay {
    const cooldown: int
    var retryAt: Option<int>
    var activeBackup: bool

    function View(): Owner
      reads this
    {
      Owner(retryAt, activeBackup)
    }

    constructor (cooldown: int)
      ensures this.cooldown == cooldown && View() == START
    {
      this.cooldown := cooldown;
      retryAt, activeBackup := None, false;
    }

    method Failed(now: int)
      modifies this`retryAt
      ensures View() == old(After(View(), cooldown, FailedAt(now)))
    {
      retryAt := Some(now + cooldown);
    }

    /**
     * A cancelled request neither starts a cooldown nor reaches the backup; a failed primary does
     * both; a primary success ends any cooldown. `events` are the locked sections it went through.
     */
    method OpenPacket(net: Net, now: int, later: int) returns (r: Opened, events: seq<Event>)
      modifies this
      ensures View() == AfterAll(old(View()), cooldown, events) && |events| >= 1 && events[0] == Checked(now)
      ensures Primary == r <==> !old(Skips(View(), now)) && net.primaryOk
      ensures ContextErr == r <==> !old(Skips(View(), now)) && !net.primaryOk && net.cancelled
      ensures Backup == r ==> net.backupOk
      ensures BackupErr == r ==> !net.backupOk
      ensures PrimaryOpened in events <==> r == Primary
      ensures BackupOpened in events <==> r == Backup
      ensures FailedAt(later) in events <==> !old(Skips(View(), now)) && (r == Backup || r == BackupErr)
      ensures Switched !in events
    {
      hide After;
      events := [Checked(now)];
      CheckChanges(View(), cooldown, now);
      if !(retryAt.Some? && now < retryAt.value) {
        if net.primaryOk {
          OpenedChanges(View(), cooldown, events);
          activeBackup, retryAt := false, None;
          return Primary, events + [PrimaryOpened];
        }
        if net.cancelled {
          return ContextErr, events;
        }
        AfterMore(old(View()), cooldown, events, FailedAt(later));
        events := events + [FailedAt(later)];
        Failed(later);
      }
      if !net.backupOk {
        return BackupErr, events;
      }
      BackupChanges(old(View()), cooldown, events);
      activeBackup := true;
      r, events := Backup, events + [BackupOpened];
    }
  }

  lemma {:induction false} CheckChanges(o: Owner, cooldown: int, now: int)
    ensures AfterAll(o, cooldown, [Checked(now)]) == o
  {
    AfterMore(o, cooldown, [], Checked(now));
    assert [] + [Checked(now)] == [Checked(now)];
  }

  lemma {:induction false} OpenedChanges(o: Owner, cooldown: int, events: seq<Event>)
    ensures AfterAll(o, cooldown, events + [PrimaryOpened]) == Owner(None, false)
  {
  }

  lemma {:induction false} BackupChanges(o: Owner, cooldown: int, events: seq<Event>)
    ensures AfterAll(o, cooldown, events + [BackupOpened]) == AfterAll(o, cooldown, events).(activeBackup := true)
  {
  }

  // ----- Everything at once -----

  /** Where an OpenPacket call is. */
  datatype Opening =
    | Asking       // the locked check
    | TryPrimary   // primary.OpenPacket
    | MarkPrimary  // the locked section after success
    | Cooling      // failed()
    | TryBackup    // backup.OpenPacket
    | MarkBackup   // the locked section after success
    | Returned(r: Opened)

  type Oid = nat

  /** A session is named after the OpenPacket call that returned it. */
  datatype State = State(owner: Owner, opens: map<Oid, Opening>, sessions: map<Oid, S.State>, log: seq<Event>)

  datatype Action =
    | Ask(o: Oid)
    | Open(o: Oid, ok: bool, cancelled: bool, now: int)
    | Use(o: Oid, act: S.Action, now: int)  // a step of a call on session `o`

  const INIT := State(START, map[], map[], [])

  function Emit(s: State, cooldown: int, e: Event): State
  {
    s.(owner := After(s.owner, cooldown, e), log := s.log + [e])
  }

  function Goto(s: State, o: Oid, at: Opening): State
  {
    s.(opens := s.opens[o := at])
  }

  function StepOpen(s: State, cooldown: int, o: Oid, at: Opening, ok: bool, cancelled: bool, now: int): State
  {
    match at
    case Asking => Goto(Emit(s, cooldown, Checked(now)), o, if Skips(s.owner, now) then TryBackup else TryPrimary)
    case TryPrimary => Goto(s, o, if ok then MarkPrimary else if cancelled then Returned(ContextErr) else Cooling)
    case MarkPrimary => Goto(Emit(s, cooldown, PrimaryOpened), o, Returned(Primary)).(sessions := s.sessions[o := S.Init()])
    case Cooling => Goto(Emit(s, cooldown, FailedAt(now)), o, TryBackup)
    case TryBackup => Goto(s, o, if ok then MarkBackup else Returned(BackupErr))
    case MarkBackup => Goto(Emit(s, cooldown, BackupOpened), o, Returned(Backup))
    case Returned(_) => s
  }

  /** The step of a session's call that enters the owner's mutex, if it does. */
  function Note(s: S.State, a: S.Action, now: int): Option<Event>
  {
    if a.Begin? || a.t !in s.calls then None
    else if S.AtCooldown(s.calls[a.t]) then Some(FailedAt(now))
    else if s.calls[a.t].Sender? && s.calls[a.t].s.SendMarkActive? then Some(Switched)
    else None
  }

  function Next(s: State, cooldown: int, a: Action): State
  {
    match a
    case Ask(o) => if o in s.opens then s else Goto(s, o, Asking)
    case Open(o, ok, cancelled, now) => if o in s.opens then StepOpen(s, cooldown, o, s.opens[o], ok, cancelled, now) else s
    case Use(o, act, now) =>
      if o !in s.sessions then s
      else
        var s' := s.(sessions := s.sessions[o := S.Next(s.sessions[o], act)]);
        match Note(s.sessions[o], act, now)
        case None => s'
        case Some(e) => Emit(s', cooldown, e)
  }

  function Run(cooldown: int, acts: seq<Action>): State
  {
    if acts == [] then INIT else Next(Run(cooldown, acts[..|acts| - 1]), cooldown, acts[|acts| - 1])
  }

  lemma {:induction false} RunAppend(cooldown: int, acts: seq<Action>, a: Action)
    ensures Run(cooldown, acts + [a]) == Next(Run(cooldown, acts), cooldown, a)
  {
  }

  // ----- Every session runs as if it were alone -----

  /** The steps taken on session `o`. */
  function Taken(cooldown: int, acts: seq<Action>, o: Oid): seq<S.Action>
  {
    if acts == [] then []
    else
      var init, a := acts[..|acts| - 1], acts[|acts| - 1];
      if a.Use? && a.o == o && o in Run(cooldown, init).sessions then Taken(cooldown, init, o) + [a.act]
      else Taken(cooldown, init, o)
  }

  /** A session exists once its OpenPacket call has returned it. */
  ghost predicate Named(s: State)
  {
    forall o :: o in s.sessions <==> o in s.opens && s.opens[o] == Returned(Primary)
  }

  lemma {:induction false} NamedNext(s: State, cooldown: int, a: Action)
    requires Named(s)
    ensures Named(Next(s, cooldown, a))
  {
    hide S.Next;
  }

  /** So every property of a session's own runs holds of it here. */
  lemma {:induction false} SessionsAreRuns(cooldown: int, acts: seq<Action>, o: Oid)
    ensures Named(Run(cooldown, acts))
    ensures o in Run(cooldown, acts).sessions ==> Run(cooldown, acts).sessions[o] == S.Run(Taken(cooldown, acts, o))
    ensures o !in Run(cooldown, acts).sessions ==> Taken(cooldown, acts, o) == []
  {
    hide S.Next, S.Run, Named, Note;
    if acts == [] {
      NamedInit();
    } else {
      var init, a := acts[..|acts| - 1], acts[|acts| - 1];
      var s := Run(cooldown, init);
      SessionsAreRuns(cooldown, init, o);
      NamedNext(s, cooldown, a);
      if a.Use? && a.o == o && o in s.sessions {
        S.RunAppend(Taken(cooldown, init, o), a.act);
      } else {
        OthersStay(s, cooldown, a, o);
      }
    }
  }

  lemma {:induction false} NamedInit()
    ensures Named(INIT)
  {
  }

  lemma {:induction false} OthersStay(s: State, cooldown: int, a: Action, o: Oid)
    requires Named(s) && !(a.Use? && a.o == o && o in s.sessions)
    ensures var s' := Next(s, cooldown, a);
            if o in s.sessions then o in s'.sessions && s'.sessions[o] == s.sessions[o]
            else o in s'.sessions ==> s'.sessions[o] == S.Run([])
  {
    hide S.Next;
  }

  // ----- What the owner shows -----

  lemma {:induction false} OwnerIsLog(cooldown: int, acts: seq<Action>)
    ensures Run(cooldown, acts).owner == AfterAll(START, cooldown, Run(cooldown, acts).log)
  {
    hide After, AfterAll;
    if acts == [] {
      NoEvents(cooldown);
    } else {
      var s, a := Run(cooldown, acts[..|acts| - 1]), acts[|acts| - 1];
      OwnerIsLog(cooldown, acts[..|acts| - 1]);
      LogNext(s, cooldown, a);
      if e :| Next(s, cooldown, a).log == s.log + [e] && Next(s, cooldown, a).owner == After(s.owner, cooldown, e) {
        AfterMore(START, cooldown, s.log, e);
      }
    }
  }

  lemma {:induction false} NoEvents(cooldown: int)
    ensures AfterAll(START, cooldown, []) == START
  {
  }

  lemma {:induction false} LogNext(s: State, cooldown: int, a: Action)
    ensures var s' := Next(s, cooldown, a);
            || (s'.log == s.log && s'.owner == s.owner)
            || exists e :: s'.log == s.log + [e] && s'.owner == After(s.owner, cooldown, e)
  {
    hide S.Next, After;
  }

  /** Event `i` is a failure, and since then no failure came and no primary attempt succeeded. */
  ghost predicate LastFailure(events: seq<Event>, i: nat)
  {
    && i < |events| && events[i].FailedAt?
    && forall k :: i < k < |events| ==> !events[k].FailedAt? && !events[k].PrimaryOpened?
  }

  lemma {:induction false} RetryIsLastFailure(cooldown: int, events: seq<Event>, at: int)
    ensures AfterAll(START, cooldown, events).retryAt == Some(at) <==>
            exists i: nat :: LastFailure(events, i) && at == events[i].now + cooldown
  {
    if events == [] {
    } else {
      var init, e := events[..|events| - 1], events[|events| - 1];
      RetryIsLastFailure(cooldown, init, at);
      assert forall i :: 0 <= i < |init| ==> init[i] == events[i];
      if i: nat :| LastFailure(init, i) && at == init[i].now + cooldown {
        assert !e.FailedAt? && !e.PrimaryOpened? ==> LastFailure(events, i);
      }
      if i: nat :| LastFailure(events, i) && at == events[i].now + cooldown {
        assert i < |init| ==> LastFailure(init, i);
      }
      if e.FailedAt? {
        assert LastFailure(events, |init|);
      }
    }
  }

  /** In every interleaving OpenPacket passes the primary over exactly while the cooldown of the last failure runs. */
  lemma {:induction false} SkippedExactly(cooldown: int, acts: seq<Action>, o: Oid, ok: bool, cancelled: bool, now: int)
    requires var s := Run(cooldown, acts); o in s.opens && s.opens[o] == Asking
    ensures var s, s' := Run(cooldown, acts), Run(cooldown, acts + [Open(o, ok, cancelled, now)]);
            && o in s'.opens && (s'.opens[o] == TryBackup || s'.opens[o] == TryPrimary)
            && (s'.opens[o] == TryBackup <==> exists i: nat :: LastFailure(s.log, i) && now < s.log[i].now + cooldown)
  {
    hide Run, AfterAll;
    var s := Run(cooldown, acts);
    RunAppend(cooldown, acts, Open(o, ok, cancelled, now));
    OwnerIsLog(cooldown, acts);
    if s.owner.retryAt.Some? {
      RetryIsLastFailure(cooldown, s.log, s.owner.retryAt.value);
    }
    if i: nat :| LastFailure(s.log, i) && now < s.log[i].now + cooldown {
      RetryIsLastFailure(cooldown, s.log, s.log[i].now + cooldown);
    }
  }

  predicate Names(e: Event)
  {
    e.PrimaryOpened? || e.BackupOpened? || e.Switched?
  }

  /** Event `i` is the last that opened a path or switched a session. */
  ghost predicate LastNamed(events: seq<Event>, i: nat)
  {
    i < |events| && Names(events[i]) && forall k :: i < k < |events| ==> !Names(events[k])
  }

  lemma {:induction false} ActiveIsLastNamed(cooldown: int, events: seq<Event>)
    ensures AfterAll(START, cooldown, events).activeBackup <==> exists i: nat :: LastNamed(events, i) && !events[i].PrimaryOpened?
  {
    if events == [] {
    } else {
      var init, e := events[..|events| - 1], events[|events| - 1];
      ActiveIsLastNamed(cooldown, init);
      assert forall i :: 0 <= i < |init| ==> init[i] == events[i];
      if i: nat :| LastNamed(init, i) && !init[i].PrimaryOpened? {
        assert !Names(e) ==> LastNamed(events, i);
      }
      if i: nat :| LastNamed(events, i) && !events[i].PrimaryOpened? {
        assert i < |init| ==> LastNamed(init, i);
      }
      if Names(e) {
        assert LastNamed(events, |init|);
      }
    }
  }

  /** The owner's active path is that of the last event among a primary opened, a backup opened and a session switched. */
  lemma {:induction false} ActiveExactly(cooldown: int, acts: seq<Action>)
    ensures var s := Run(cooldown, acts);
            s.owner.activeBackup <==> exists i: nat :: LastNamed(s.log, i) && !s.log[i].PrimaryOpened?
  {
    hide Run, AfterAll;
    OwnerIsLog(cooldown, acts);
    ActiveIsLastNamed(cooldown, Run(cooldown, acts).log);
  }

  // ----- Which failures start a cooldown -----

  /** Action `i` is the failed(), by OpenPacket or by a call on a session, that became event `k`. */
  ghost predicate CoolsAt(cooldown: int, acts: seq<Action>, i: nat, k: nat)
  {
    && i < |acts|
    && var s := Run(cooldown, acts[..i]);
       && |s.log| == k && !acts[i].Ask?
       && if acts[i].Open? then acts[i].o in s.opens && s.opens[acts[i].o] == Cooling
          else && acts[i].o in s.sessions && acts[i].act.Step? && acts[i].act.t in s.sessions[acts[i].o].calls
               && S.AtCooldown(s.sessions[acts[i].o].calls[acts[i].act.t])
  }

  lemma {:induction false} FailureNext(s: State, cooldown: int, a: Action)
    requires |Next(s, cooldown, a).log| > |s.log| && Next(s, cooldown, a).log[|s.log|].FailedAt?
    ensures !a.Ask?
    ensures if a.Open? then a.o in s.opens && s.opens[a.o] == Cooling
            else && a.o in s.sessions && a.act.Step? && a.act.t in s.sessions[a.o].calls
                 && S.AtCooldown(s.sessions[a.o].calls[a.act.t])
  {
    hide S.Next;
  }

  /** Every cooldown on record was started by an OpenPacket call whose primary attempt failed, or by a session's call. */
  lemma {:induction false} CooldownsExplained(cooldown: int, acts: seq<Action>, k: nat) returns (i: nat)
    requires k < |Run(cooldown, acts).log| && Run(cooldown, acts).log[k].FailedAt?
    ensures CoolsAt(cooldown, acts, i, k)
  {
    hide Next, After;
    var init, a := acts[..|acts| - 1], acts[|acts| - 1];
    var s := Run(cooldown, init);
    LogNext(s, cooldown, a);
    if k < |s.log| {
      i := CooldownsExplained(cooldown, init, k);
      assert init[..i] == acts[..i];
    } else {
      FailureNext(s, cooldown, a);
      i := |init|;
    }
  }

  /** And such an OpenPacket call had tried the primary, which failed without the caller having given up. */
  lemma {:induction false} CoolingIsGenuine(cooldown: int, acts: seq<Action>, o: Oid) returns (i: nat)
    requires var s := Run(cooldown, acts); o in s.opens && s.opens[o] == Cooling
    ensures i < |acts| && acts[i].Open? && acts[i].o == o && !acts[i].ok && !acts[i].cancelled
    ensures var s := Run(cooldown, acts[..i]); o in s.opens && s.opens[o] == TryPrimary
  {
    var init, a := acts[..|acts| - 1], acts[|acts| - 1];
    CoolingArrives(Run(cooldown, init), cooldown, a, o);
    hide Next;
    if o in Run(cooldown, init).opens && Run(cooldown, init).opens[o] == Cooling {
      i := CoolingIsGenuine(cooldown, init, o);
      assert init[..i] == acts[..i];
    } else {
      i := |init|;
    }
  }

  lemma {:induction false} CoolingArrives(s: State, cooldown: int, a: Action, o: Oid)
    requires var s' := Next(s, cooldown, a); o in s'.opens && s'.opens[o] == Cooling
    ensures o in s.opens
    ensures s.opens[o] == Cooling || (s.opens[o] == TryPrimary && a.Open? && a.o == o && !a.ok && !a.cancelled)
  {
    hide S.Next;
  }

  /** A Send that a Close has overtaken still puts the relay all sessions share into cooldown. */
  lemma {:induction false} ClosedSessionCools(cooldown: int, acts: seq<Action>, o: Oid, t: S.Tid, u: S.Tid, now: int)
    requires o in Run(cooldown, acts).sessions && C.CoolsAfterClose(Run(cooldown, acts).sessions[o], t, u)
    ensures Run(cooldown, acts + [Use(o, S.Step(t, true), now)]).owner.retryAt == Some(now + cooldown)
  {
    hide Run, S.Next;
    RunAppend(cooldown, acts, Use(o, S.Step(t, true), now));
  }

  // ----- The active path need not be a session's path -----

  lemma {:induction false} FirstSendFails() returns (acts: seq<S.Action>)
    ensures S.Run(acts) == S.Goto(S.Init(), 0, S.Sender(S.SendCooldown(S.PRIMARY)))
  {
    hide S.Run;
    var a := [S.Begin(0, S.Sender(S.SendStart))];
    StartOfRun();
    S.RunAppend([], a[0]);
    assert [] + a == a;
    S.RunAppend(a, S.Step(0, true));
    assert S.Run(a + [S.Step(0, true)]) == S.Goto(S.Init(), 0, S.Sender(S.SendCall(S.PRIMARY, false)));
    S.RunAppend(a + [S.Step(0, true)], S.Step(0, false));
    acts := a + [S.Step(0, true)] + [S.Step(0, false)];
  }

  lemma {:induction false} StartOfRun()
    ensures S.Run([]) == S.Init()
  {
  }

  /** One Send that fails on the primary and is delivered by the replacement. */
  lemma {:induction false} Switching() returns (acts: seq<S.Action>)
    ensures S.Run(acts).backup && S.Run(acts).lock == None
  {
    hide S.Run;
    var go := S.Step(0, true);
    var a0 := FirstSendFails();
    S.RunAppend(a0, go);
    assert S.Run(a0 + [go]).calls[0].s == S.SendLock(S.PRIMARY);
    S.RunAppend(a0 + [go], go);
    var a1 := a0 + [go] + [go];
    assert S.Run(a1) == S.Goto(S.Init().(lock := Some(0)), 0, S.Sender(S.SendOpen(S.PRIMARY)));
    S.RunAppend(a1, go);
    assert S.Run(a1 + [go]) == S.Goto(S.Run(a1).(openings := 1), 0, S.Sender(S.SendPublish(S.PRIMARY, 1)));
    S.RunAppend(a1 + [go], go);
    var a2 := a1 + [go] + [go];
    assert S.Run(a2).backup && S.Run(a2).calls[0].s == S.SendClosePrimary(S.PRIMARY);
    S.RunAppend(a2, go);
    assert S.Run(a2 + [go]).backup && S.Run(a2 + [go]).calls[0].s == S.SendMarkActive;
    S.RunAppend(a2 + [go], go);
    var a3 := a2 + [go] + [go];
    assert S.Run(a3).backup && S.Run(a3).calls[0].s == S.SendAgain;
    S.RunAppend(a3, go);
    acts := a3 + [go];
  }

  /** An OpenPacket call that finds the primary well: it leaves the sessions alone and makes the primary the active path. */
  lemma {:induction false} PrimaryOpens(cooldown: int, acts: seq<Action>, o: Oid, now: int) returns (more: seq<Action>)
    requires o !in Run(cooldown, acts).opens && !Skips(Run(cooldown, acts).owner, now)
    ensures var s, s' := Run(cooldown, acts), Run(cooldown, acts + more);
            s'.sessions == s.sessions[o := S.Init()] && s'.opens == s.opens[o := Returned(Primary)] && s'.owner == Owner(None, false)
  {
    hide Run;
    var go := Open(o, true, false, now);
    var a0 := acts + [Ask(o)];
    RunAppend(cooldown, acts, Ask(o));
    assert Run(cooldown, a0).opens[o] == Asking;
    RunAppend(cooldown, a0, go);
    assert Run(cooldown, a0 + [go]).opens[o] == TryPrimary;
    RunAppend(cooldown, a0 + [go], go);
    assert Run(cooldown, a0 + [go] + [go]).opens[o] == MarkPrimary;
    RunAppend(cooldown, a0 + [go] + [go], go);
    more := [Ask(o), go, go, go];
    assert acts + more == a0 + [go] + [go] + [go];
  }

  lemma {:induction false} UseAll(cooldown: int, acts: seq<Action>, o: Oid, steps: seq<S.Action>, now: int) returns (more: seq<Action>)
    requires o in Run(cooldown, acts).sessions && Run(cooldown, acts).sessions[o] == S.Init()
    ensures var s, s' := Run(cooldown, acts), Run(cooldown, acts + more);
            o in s'.sessions && s'.sessions[o] == S.Run(steps) && s'.opens == s.opens
  {
    hide S.Next, Note, Run;
    if steps == [] {
      more := [];
      assert acts + more == acts;
    } else {
      var init, a := steps[..|steps| - 1], steps[|steps| - 1];
      var rest := UseAll(cooldown, acts, o, init, now);
      RunAppend(cooldown, acts + rest, Use(o, a, now));
      more := rest + [Use(o, a, now)];
      assert acts + more == acts + rest + [Use(o, a, now)];
    }
  }

  lemma {:induction false} RunNone(cooldown: int)
    ensures Run(cooldown, []) == INIT
  {
  }

  /**
   * A session that has switched stays on the backup, while the next OpenPacket call that finds the
   * primary well names the primary: here both are so, with no call inside the session's lock.
   */
  lemma {:induction false} ActiveMisnames(cooldown: int) returns (acts: seq<Action>)
    ensures var s := Run(cooldown, acts);
            0 in s.sessions && s.sessions[0].backup && s.sessions[0].lock == None && !s.owner.activeBackup
  {
    hide Run, S.Run;
    RunNone(cooldown);
    var first := PrimaryOpens(cooldown, [], 0, 0);
    assert [] + first == first;
    var steps := Switching();
    var used := UseAll(cooldown, first, 0, steps, 0);
    var s := Run(cooldown, first + used);
    var now := if s.owner.retryAt.Some? then s.owner.retryAt.value else 0;
    var last := PrimaryOpens(cooldown, first + used, 1, now);
    acts := first + used + last;
  }
}
