/** What a dial through the HY2 client returns and reports, in terms of its own steps in the run. */
module Hy2Outcomes {
  import opened Bytes
  import opened Hy2Client
  import opened Hy2Status

  /** Action `k` is a step of the worker of dial `i`, which is there. */
  ghost predicate WorksAt(capacity: nat, acts: seq<Action>, k: nat, i: nat, at: Worker)
  {
    && k < |acts| && acts[k].Work? && acts[k].i == i
    && var s := Run(capacity, acts[..k]);
       i in s.dials && s.dials[i].worker == at
  }

  /** Dial `i` entered the core at `k` and was given the client that was installed when it left it, of generation `g`. */
  ghost predicate GotClient(capacity: nat, acts: seq<Action>, k: nat, i: nat, g: nat)
  {
    WorksAt(capacity, acts, k, i, Entering) && Run(capacity, acts[..k + 1]).core.client == Some(g)
  }

  /** Dial `i` entered the core at `k` and left it with this result: the core was closed, or there was no client and the handshake failed. */
  ghost predicate GotNone(capacity: nat, acts: seq<Action>, k: nat, i: nat, res: Res)
  {
    && WorksAt(capacity, acts, k, i, Entering)
    && var s, s' := Run(capacity, acts[..k]), Run(capacity, acts[..k + 1]);
       && res.sequence == s'.core.sequence
       && if s.core.closed then res.err == Some(ClosedErr)
          else s.core.client == None && !acts[k].ok && res.err == Some(acts[k].err) && s'.core.sequence == s.core.sequence + 1
  }

  /** Dial `i` called the client of generation `g` at `m`, and this is what the call returned. */
  ghost predicate Called(capacity: nat, acts: seq<Action>, m: nat, i: nat, g: nat, err: Option<Err>)
  {
    WorksAt(capacity, acts, m, i, Calling(g)) && err == if acts[m].ok then None else Some(acts[m].err)
  }

  /** Where the worker of dial `i` is, explained by its entering step `k` and, if it made one, its call `m`. */
  ghost predicate Explained(capacity: nat, acts: seq<Action>, i: nat, at: Worker, k: nat, m: nat)
  {
    match at
    case Unborn => true
    case Entering => true
    case Calling(g) => GotClient(capacity, acts, k, i, g)
    case Forgetting(g) => GotClient(capacity, acts, k, i, g) && k < m && Called(capacity, acts, m, i, g, Some(ClosedErr))
    case Finished(res) =>
      || GotNone(capacity, acts, k, i, res)
      || (GotClient(capacity, acts, k, i, res.sequence) && k < m && Called(capacity, acts, m, i, res.sequence, res.err))
  }

  lemma {:induction false} ExplainedLater(capacity: nat, acts: seq<Action>, a: Action, i: nat, at: Worker, k: nat, m: nat)
    requires Explained(capacity, acts, i, at, k, m)
    ensures Explained(capacity, acts + [a], i, at, k, m)
  {
    hide Run;
    var all := acts + [a];
    if k < |acts| {
      assert all[..k] == acts[..k] && all[..k + 1] == acts[..k + 1];
    }
    if m < |acts| {
      assert all[..m] == acts[..m];
    }
  }

  /** How the worker of dial `i` can come to be where it is after action `a`. */
  ghost predicate Arrived(s: State, a: Action, s': State, i: nat)
    requires i in s'.dials
  {
    var at := s'.dials[i].worker;
    && (!at.Unborn? && !at.Entering? ==> a.Work? && a.i == i && i in s.dials)
    && (at.Calling? ==> s.dials[i].worker == Entering && s'.core.client == Some(at.generation))
    && (at.Forgetting? ==> s.dials[i].worker == Calling(at.generation) && !a.ok && a.err == ClosedErr)
    && (at.Finished? ==>
          || (s.dials[i].worker == Forgetting(at.res.sequence) && at.res.err == Some(ClosedErr))
          || (s.dials[i].worker == Calling(at.res.sequence) && at.res.err == if a.ok then None else Some(a.err))
          || (&& s.dials[i].worker == Entering && at.res.sequence == s'.core.sequence
              && if s.core.closed then at.res.err == Some(ClosedErr)
                 else s.core.client == None && !a.ok && at.res.err == Some(a.err) && s'.core.sequence == s.core.sequence + 1))
  }

  lemma {:induction false} WorkerArrives(s: State, a: Action, i: nat)
    requires Inv(s) && i in Next(s, a).dials && (i !in s.dials || s.dials[i].worker != Next(s, a).dials[i].worker)
    ensures Arrived(s, a, Next(s, a), i)
  {
    hide CoreOk, Holders, StepWorker, Arrived;
    if i in s.dials {
      assert DialOk(s.dials[i]);
    }
    ClientTag(s);
    if a.Work? {
      WorkArrives(s, a.i, a.ok, a.err, i);
    } else {
      OnlyWorkMoves(s, a, i);
    }
  }

  /** No other action moves a worker, except to give birth to it, and none changes the client. */
  lemma {:induction false} OnlyWorkMoves(s: State, a: Action, i: nat)
    requires !a.Work? && i in Next(s, a).dials && (i in s.dials ==> DialOk(s.dials[i]))
    ensures var s' := Next(s, a);
            && s'.core.client == s.core.client && s'.core.sequence == s.core.sequence
            && (s'.dials[i].worker.Unborn? || s'.dials[i].worker.Entering? || (i in s.dials && s'.dials[i].worker == s.dials[i].worker))
            && (i in s.dials && !s.dials[i].worker.Unborn? ==> s'.dials[i].worker == s.dials[i].worker)
    ensures i !in s.dials || s.dials[i].worker != Next(s, a).dials[i].worker ==> Arrived(s, a, Next(s, a), i)
  {
    hide StepWorker, After;
  }

  lemma {:induction false} WorkArrives(s: State, j: nat, ok: bool, err: Err, i: nat)
    requires j in s.dials && i in StepWorker(s, j, s.dials[j], ok, err).dials
    requires s.core.client.Some? ==> s.core.client.value == s.core.sequence
    requires i !in s.dials || StepWorker(s, j, s.dials[j], ok, err).dials[i].worker != s.dials[i].worker
    ensures Arrived(s, Work(j, ok, err), StepWorker(s, j, s.dials[j], ok, err), i)
  {
    hide After;
  }

  lemma {:induction false} ClientTag(s: State)
    requires Inv(s)
    ensures s.core.client.Some? ==> s.core.client.value == s.core.sequence
  {
  }

  /**
   * The generation a dial carries is that of the client it was given, installed right after its own
   * entering step, and its result is that of its own call on that client.
   */
  lemma {:induction false} WorkerExplained(capacity: nat, acts: seq<Action>, i: nat) returns (k: nat, m: nat)
    requires i in Run(capacity, acts).dials
    ensures Explained(capacity, acts, i, Run(capacity, acts).dials[i].worker, k, m)
  {
    hide Next, Inv, Explained;
    var init, a := acts[..|acts| - 1], acts[|acts| - 1];
    var s, at := Run(capacity, init), Run(capacity, acts).dials[i].worker;
    assert acts == init + [a] && Run(capacity, acts) == Next(s, a);
    RunInv(capacity, init);
    k, m := 0, 0;
    if i in s.dials {
      k, m := WorkerExplained(capacity, init, i);
      ExplainedLater(capacity, init, a, i, s.dials[i].worker, k, m);
    }
    if i !in s.dials || s.dials[i].worker != at {
      WorkerArrives(s, a, i);
      k, m := ExplainStep(capacity, acts, i, k, m);
    }
  }

  lemma {:induction false} ExplainStep(capacity: nat, acts: seq<Action>, i: nat, k: nat, m: nat) returns (k': nat, m': nat)
    requires acts != [] && i in Run(capacity, acts).dials
    requires var s := Run(capacity, acts[..|acts| - 1]);
             && Arrived(s, acts[|acts| - 1], Run(capacity, acts), i)
             && (i in s.dials ==> Explained(capacity, acts, i, s.dials[i].worker, k, m))
    ensures Explained(capacity, acts, i, Run(capacity, acts).dials[i].worker, k', m')
  {
    hide Run;
    var n := |acts| - 1;
    assert acts[..n + 1] == acts;
    k', m' := k, m;
    var s := Run(capacity, acts[..n]);
    if i in s.dials {
      var was, at := s.dials[i].worker, Run(capacity, acts).dials[i].worker;
      if was == Entering {
        k' := n;
      } else if was.Calling? {
        m' := n;
      }
    }
  }

  // ----- What the generation is for -----

  /** A transport failure degrades the view exactly if no newer generation has been heard of. */
  lemma {:induction false} FailureShows(capacity: nat, acts: seq<Action>, i: nat)
    requires var s := Run(capacity, acts);
             && i in s.dials && s.dials[i].caller.Reporting?
             && s.dials[i].caller.res.err.Some? && s.dials[i].caller.res.err.value != DialErr
    ensures var s, s', g := Run(capacity, acts), Run(capacity, acts + [Receive(i)]), Run(capacity, acts).dials[i].caller.res.sequence;
            && s.view.sequence == Newest(s.log)
            && s'.view == (if g >= s.view.sequence then View(g, Degraded) else s.view)
            && (g == s.core.sequence ==> s'.view == View(g, Degraded))
  {
    hide Run, Folded, HandshakeFirst, Holders, Verdict;
    var s := Run(capacity, acts);
    RunInv(capacity, acts);
    StatusIsVerdict(capacity, acts);
    VerdictSequence(s.log);
    ViewBound(s);
    assert DialOk(s.dials[i]);
    RunAppend(capacity, acts, Receive(i));
  }

  lemma {:induction false} VerdictSequence(log: seq<Event>)
    ensures Verdict(log).sequence == Newest(log)
  {
  }

  lemma {:induction false} NewestReached(log: seq<Event>, bound: nat)
    requires forall k :: 0 <= k < |log| ==> log[k].sequence <= bound
    ensures Newest(log) <= bound
  {
    if log == [] {
    } else {
      NewestReached(log[..|log| - 1], bound);
    }
  }

  lemma {:induction false} ViewBound(s: State)
    requires Inv(s)
    ensures Newest(s.log) <= s.core.sequence
  {
    NewestReached(s.log, s.core.sequence);
  }

  lemma {:induction false} RunAppend(capacity: nat, acts: seq<Action>, a: Action)
    ensures Run(capacity, acts + [a]) == Next(Run(capacity, acts), a)
  {
  }

  /** The worker of dial `i` has seen its client of generation `g` closed: it is about to drop it, or that client is gone. */
  ghost predicate Dropping(s: State, i: nat, g: nat)
  {
    && i in s.dials && g <= s.core.sequence
    && (s.dials[i].worker == Forgetting(g) || (s.dials[i].worker.Finished? && s.core.client != Some(g)))
  }

  lemma {:induction false} DroppingStep(s: State, a: Action, i: nat, g: nat)
    requires Inv(s) && Dropping(s, i, g)
    ensures Dropping(Next(s, a), i, g)
  {
    hide CoreOk, Holders, StepWorker;
    assert DialOk(s.dials[i]);
    if a.Work? {
      if a.i in s.dials {
        ClientTag(s);
        WorkDrops(s, a.i, a.ok, a.err, i, g);
      }
    } else {
      OnlyWorkMoves(s, a, i);
    }
  }

  lemma {:induction false} WorkDrops(s: State, j: nat, ok: bool, err: Err, i: nat, g: nat)
    requires j in s.dials && Dropping(s, i, g)
    ensures Dropping(StepWorker(s, j, s.dials[j], ok, err), i, g)
  {
    hide After;
  }

  /** A call that found its client closed drops it: once its dial has finished, that client is never installed again. */
  lemma {:induction false} DeadClientIsDropped(capacity: nat, acts: seq<Action>, m: nat, i: nat, g: nat)
    requires Called(capacity, acts, m, i, g, Some(ClosedErr))
    ensures Dropping(Run(capacity, acts), i, g)
  {
    hide Next, Inv, Dropping;
    var init, a := acts[..|acts| - 1], acts[|acts| - 1];
    RunInv(capacity, init);
    if m == |init| {
      BeginsDropping(Run(capacity, init), a, i, g);
    } else {
      assert init[..m] == acts[..m];
      DeadClientIsDropped(capacity, init, m, i, g);
      DroppingStep(Run(capacity, init), a, i, g);
    }
  }

  lemma {:induction false} BeginsDropping(s: State, a: Action, i: nat, g: nat)
    requires Inv(s) && i in s.dials && s.dials[i].worker == Calling(g) && a == Work(i, false, ClosedErr)
    ensures Dropping(Next(s, a), i, g)
  {
    hide CoreOk, Holders;
    assert Known(s.dials[i], s.core.sequence);
  }
}
