/** hy2StatusTracker of cmd/hy2route-core/hy2_status.go. */
module Hy2Status {
  import opened Basics
  import opened Bytes
  import opened Hy2Reasons

  datatype Stage = Handshake | Tcp | Udp | OtherStage
  datatype Event = Event(stage: Stage, sequence: nat)
  datatype Status = Idle | Connected | Degraded

  /** The part of the tracker that decides what it shows. */
  datatype View = View(sequence: nat, status: Status)

  predicate IsFailure(e: Event)
  {
    e.stage == Tcp || e.stage == Udp
  }

  predicate Relevant(e: Event)
  {
    e.stage != OtherStage
  }

  function After(v: View, e: Event): View
  {
    if !Relevant(e) || e.sequence < v.sequence then v
    else View(e.sequence, if IsFailure(e) then Degraded else Connected)
  }

  class StatusTracker {
    const secrets: seq<string>
    var sequence: nat
    var state: Status
    var connected: bool
    var lastSuccess: Option<int>
    var lastError: Option<int>
    var lastErrorReason: string
    var lastErrorStage: Stage
    var lastLog: Option<int>

    ghost predicate Valid()
      reads this
    {
      connected == (state == Connected)
    }

    constructor (secrets: seq<string>)
      ensures Valid() && View(sequence, state) == View(0, Idle) && this.secrets == secrets
    {
      this.secrets, sequence, state, connected := secrets, 0, Idle, false;
      lastSuccess, lastError, lastErrorReason, lastErrorStage, lastLog := None, None, [], OtherStage, None;
    }

    /** Accepts an event of the current or a newer generation. */
    method Emit(event: Event, reason: string, now: int) returns (logged: bool)
      requires Valid()
      modifies this
      ensures Valid() && View(sequence, state) == old(After(View(sequence, state), event))
      ensures var accepted := Relevant(event) && event.sequence >= old(sequence);
              && lastSuccess == (if accepted && !IsFailure(event) then Some(now) else old(lastSuccess))
              && lastError == (if accepted && IsFailure(event) then Some(now) else old(lastError))
              && lastErrorReason == (if accepted && IsFailure(event) then Shown(reason, secrets) else old(lastErrorReason))
              && lastErrorStage == (if accepted && IsFailure(event) then event.stage else old(lastErrorStage))
              && logged == (accepted && IsFailure(event) &&
                            (old(state) != Degraded || old(lastLog) == None || now - old(lastLog).value >= MINUTE))
              && lastLog == (if logged then Some(now) else old(lastLog))
    {
      hide Shown;
      logged := false;
      match event.stage {
        case Handshake =>
          if event.sequence < sequence {
            return;
          }
          sequence := event.sequence;
          state, connected, lastSuccess := Connected, true, Some(now);
        case OtherStage =>
        case _ =>
          if event.sequence < sequence {
            return;
          }
          var shown := Shown(reason, secrets);
          if state != Degraded || lastLog == None || now - lastLog.value >= MINUTE {
            logged := true;
            lastLog := Some(now);
          }
          sequence := event.sequence;
          state, connected, lastError, lastErrorReason, lastErrorStage := Degraded, false, Some(now), shown, event.stage;
      }
    }
  }

  // ----- What a log of events amounts to -----

  function Folded(log: seq<Event>): View
  {
    if log == [] then View(0, Idle) else After(Folded(log[..|log| - 1]), log[|log| - 1])
  }

  function Newest(log: seq<Event>): nat
  {
    if log == [] then 0
    else
      var n, e := Newest(log[..|log| - 1]), log[|log| - 1];
      if Relevant(e) && e.sequence > n then e.sequence else n
  }

  ghost predicate FailedAt(log: seq<Event>, n: nat)
  {
    exists i :: 0 <= i < |log| && IsFailure(log[i]) && log[i].sequence == n
  }

  /** A handshake is reported before any failure of its generation. */
  ghost predicate HandshakeFirst(log: seq<Event>)
  {
    forall i, j :: 0 <= i < j < |log| && IsFailure(log[i]) && log[j].stage == Handshake ==> log[i].sequence != log[j].sequence
  }

  /** Degraded if the newest generation reported a failure, connected otherwise, idle before any report. */
  ghost function Verdict(log: seq<Event>): View
  {
    View(Newest(log),
         if forall i :: 0 <= i < |log| ==> !Relevant(log[i]) then Idle
         else if FailedAt(log, Newest(log)) then Degraded
         else Connected)
  }

  lemma {:induction false} NewestBounds(log: seq<Event>)
    ensures forall i :: 0 <= i < |log| && Relevant(log[i]) ==> log[i].sequence <= Newest(log)
    ensures Newest(log) > 0 ==> exists i :: 0 <= i < |log| && Relevant(log[i])
  {
    if log == [] {
    } else {
      var init := log[..|log| - 1];
      NewestBounds(init);
      if Newest(init) > 0 {
        var i :| 0 <= i < |init| && Relevant(init[i]);
        assert Relevant(log[i]);
      } else {
        assert Newest(log) > 0 ==> Relevant(log[|log| - 1]);
      }
    }
  }

  ghost predicate AnyRelevant(log: seq<Event>)
  {
    exists i :: 0 <= i < |log| && Relevant(log[i])
  }

  /** Event `k` is the last report of the newest generation. */
  ghost predicate LastReport(log: seq<Event>, k: nat)
  {
    && k < |log| && Relevant(log[k]) && log[k].sequence == Newest(log)
    && forall i :: k < i < |log| && Relevant(log[i]) ==> log[i].sequence != Newest(log)
  }

  /** The tracker shows what the last report of the newest generation says. */
  lemma {:induction false} FoldedIsLastReport(log: seq<Event>) returns (k: nat)
    ensures Folded(log).sequence == Newest(log)
    ensures if AnyRelevant(log) then LastReport(log, k) && Folded(log).status == (if IsFailure(log[k]) then Degraded else Connected)
            else Folded(log).status == Idle
  {
    k := 0;
    if log == [] {
    } else {
      var init, e := log[..|log| - 1], log[|log| - 1];
      assert forall i :: 0 <= i < |init| ==> init[i] == log[i];
      assert AnyRelevant(log) <==> AnyRelevant(init) || Relevant(e);
      NewestBounds(init);
      k := FoldedIsLastReport(init);
      if Relevant(e) && e.sequence >= Newest(init) {
        k := |init|;
      }
    }
  }

  /** A failure of the newest generation that no later failure repeats after a handshake. */
  ghost predicate FailureHidden(log: seq<Event>)
  {
    && FailedAt(log, Newest(log))
    && exists j :: 0 <= j < |log| && log[j] == Event(Handshake, Newest(log)) && NoFailureAfter(log, j)
  }

  ghost predicate NoFailureAfter(log: seq<Event>, j: int)
  {
    forall i :: 0 <= j < i < |log| && IsFailure(log[i]) ==> log[i].sequence != Newest(log)
  }

  /** The tracker shows the verdict on the events so far unless a handshake of the newest generation hid its failure. */
  lemma {:induction false} VerdictExactly(log: seq<Event>)
    ensures Folded(log) == Verdict(log) <==> !FailureHidden(log)
  {
    hide Folded, Newest;
    var k := FoldedIsLastReport(log);
    if AnyRelevant(log) {
      if IsFailure(log[k]) {
        assert FailedAt(log, Newest(log));
      } else {
        assert log[k] == Event(Handshake, Newest(log)) && NoFailureAfter(log, k);
      }
    }
  }

  /** The tracker itself, fed any log from the start, shows the fold of that log. */
  method Track(secrets: seq<string>, log: seq<Event>, reasons: seq<string>, times: seq<int>) returns (tracker: StatusTracker)
    requires |reasons| == |log| == |times|
    ensures tracker.Valid() && View(tracker.sequence, tracker.state) == Folded(log)
    ensures View(tracker.sequence, tracker.state) == Verdict(log) <==> !FailureHidden(log)
  {
    hide Verdict, FailureHidden, Shown, After;
    tracker := new StatusTracker(secrets);
    for i := 0 to |log|
      invariant fresh(tracker) && tracker.Valid() && View(tracker.sequence, tracker.state) == Folded(log[..i])
    {
      var _ := tracker.Emit(log[i], reasons[i], times[i]);
      assert log[..i + 1][..i] == log[..i];
    }
    assert log[..|log|] == log;
    VerdictExactly(log);
  }

  /** So for a disciplined log it always does. */
  lemma {:induction false} FoldedIsVerdict(log: seq<Event>)
    requires HandshakeFirst(log)
    ensures Folded(log) == Verdict(log)
  {
    hide Folded, Newest, Verdict;
    VerdictExactly(log);
  }

  /** Without the discipline a handshake reported after a failure of its generation hides it. */
  lemma {:induction false} DisciplineIsNeeded(n: nat)
    ensures Folded([Event(Tcp, n), Event(Handshake, n)]).status == Connected
    ensures Verdict([Event(Tcp, n), Event(Handshake, n)]).status == Degraded
  {
    var log := [Event(Tcp, n), Event(Handshake, n)];
    assert log[..1] == [Event(Tcp, n)] && log[..1][..0] == [];
    assert Newest(log[..1]) == n;
    assert Folded(log[..1]) == View(n, Degraded);
    assert IsFailure(log[0]);
  }
}
