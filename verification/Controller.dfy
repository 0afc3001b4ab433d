/** Controller of internal/failover/controller.go: failing over with hysteresis. */
module Failover {
  datatype Mode = Proxy | DirectCooldown | DirectRecovery

  datatype Config = Config(failures: int, successes: int, cooldown: int)

  /** Configured counts below one count as one. */
  function Clamp(cfg: Config): (c: Config)
    ensures c.failures >= 1 && (cfg.failures >= 1 ==> c.failures == cfg.failures) && (cfg.failures < 1 ==> c.failures == 1)
    ensures c.successes >= 1 && (cfg.successes >= 1 ==> c.successes == cfg.successes) && (cfg.successes < 1 ==> c.successes == 1)
    ensures c.cooldown == cfg.cooldown
  {
    Config(if cfg.failures < 1 then 1 else cfg.failures, if cfg.successes < 1 then 1 else cfg.successes, cfg.cooldown)
  }

  datatype State = State(mode: Mode, failures: int, successes: int, until: int)

  /** A call with the clock reading it used. */
  datatype Event = Asked(time: int) | Failed(time: int) | Succeeded(time: int)

  function Woken(s: State, now: int): State
  {
    if s.mode == DirectCooldown && now >= s.until then s.(mode := DirectRecovery) else s
  }

  function After(c: Config, s: State, e: Event): State
  {
    match e
    case Asked(now) => Woken(s, now)
    case Failed(now) =>
      if s.mode == Proxy then
        if s.failures + 1 >= c.failures then State(DirectCooldown, s.failures + 1, 0, now + c.cooldown)
        else s.(failures := s.failures + 1, successes := 0)
      else State(DirectCooldown, s.failures, 0, now + c.cooldown)
    case Succeeded(now) =>
      var w := Woken(s, now);
      if w.mode != DirectRecovery then w
      else if w.successes + 1 >= c.successes then w.(mode := Proxy, failures := 0, successes := 0)
      else w.(successes := w.successes + 1)
  }

  class Controller {
    const cfg: Config
    var mode: Mode
    var failures: int
    var successes: int
    var until: int

    ghost function View(): State
      reads this
    {
      State(mode, failures, successes, until)
    }

    constructor (cfg: Config)
      ensures View() == State(Proxy, 0, 0, 0) && this.cfg == Clamp(cfg)
    {
      this.cfg := Clamp(cfg);
      mode, failures, successes, until := Proxy, 0, 0, 0;
    }

    method CurrentMode(now: int) returns (m: Mode)
      modifies this
      ensures View() == old(After(cfg, View(), Asked(now))) && m == mode
    {
      if mode == DirectCooldown && !(now < until) {
        mode := DirectRecovery;
      }
      m := mode;
    }

    method RecordFailure(now: int)
      modifies this
      ensures View() == old(After(cfg, View(), Failed(now)))
    {
      successes := 0;
      if mode == Proxy {
        failures := failures + 1;
        if failures >= cfg.failures {
          mode := DirectCooldown;
          until := now + cfg.cooldown;
        }
      } else {
        mode := DirectCooldown;
        until := now + cfg.cooldown;
      }
    }

    method RecordSuccess(now: int)
      modifies this
      ensures View() == old(After(cfg, View(), Succeeded(now)))
    {
      if mode == DirectCooldown && !(now < until) {
        mode := DirectRecovery;
      }
      if mode == DirectRecovery {
        successes := successes + 1;
        if successes >= cfg.successes {
          mode, failures, successes := Proxy, 0, 0;
        }
      }
    }
  }

  // ----- Whole traces -----

  function Run(c: Config, trace: seq<Event>): State
  {
    if trace == [] then State(Proxy, 0, 0, 0) else After(c, Run(c, trace[..|trace| - 1]), trace[|trace| - 1])
  }

  ghost predicate Monotone(trace: seq<Event>)
  {
    forall i, j :: 0 <= i < j < |trace| ==> trace[i].time <= trace[j].time
  }

  /** The length of the prefix at whose end Proxy mode was last entered; the start counts as an entry. */
  function Entered(c: Config, trace: seq<Event>): (n: nat)
    ensures n <= |trace|
  {
    if trace == [] then 0
    else
      var init := trace[..|trace| - 1];
      if Run(c, init).mode != Proxy && Run(c, trace).mode == Proxy then |trace| else Entered(c, init)
  }

  function Failures(trace: seq<Event>): nat
  {
    if trace == [] then 0 else Failures(trace[..|trace| - 1]) + if trace[|trace| - 1].Failed? then 1 else 0
  }

  /** The index of the last failure, or -1. */
  function LastFailure(trace: seq<Event>): (i: int)
    ensures -1 <= i < |trace|
    ensures i >= 0 ==> trace[i].Failed?
    ensures forall k :: i < k < |trace| ==> !trace[k].Failed?
  {
    if trace == [] then -1
    else if trace[|trace| - 1].Failed? then |trace| - 1
    else LastFailure(trace[..|trace| - 1])
  }

  /** The successes recorded from index `from` on, no earlier than `time`. */
  function Successes(trace: seq<Event>, from: nat, time: int): nat
  {
    if |trace| <= from then 0
    else
      var last := trace[|trace| - 1];
      Successes(trace[..|trace| - 1], from, time) + if last.Succeeded? && last.time >= time then 1 else 0
  }

  /** The successes since the last failure, once its cooldown has passed. */
  function Recovered(c: Config, trace: seq<Event>): nat
  {
    var i := LastFailure(trace);
    if i < 0 then 0 else Successes(trace, i + 1, trace[i].time + c.cooldown)
  }

  /** In Proxy mode the counter holds the failures since Proxy mode was entered. */
  lemma {:induction false} FailuresCounted(c: Config, trace: seq<Event>)
    requires c.failures >= 1
    ensures Run(c, trace).mode == Proxy ==>
              Run(c, trace).failures == Failures(trace[Entered(c, trace)..]) < c.failures
  {
    if trace == [] {
    } else {
      var init, e, n := trace[..|trace| - 1], trace[|trace| - 1], Entered(c, trace);
      FailuresCounted(c, init);
      if n < |trace| {
        assert trace[n..][..|trace[n..]| - 1] == init[n..];
      }
    }
  }

  /** Proxy mode is left exactly at the configured number of failures since it was entered. */
  lemma {:induction false} LeavesExactly(cfg: Config, trace: seq<Event>, e: Event)
    requires Run(Clamp(cfg), trace).mode == Proxy
    ensures var c := Clamp(cfg);
            Run(c, trace + [e]).mode != Proxy <==>
              e.Failed? && Failures(trace[Entered(c, trace)..]) + 1 == c.failures
  {
    FailuresCounted(Clamp(cfg), trace);
    assert (trace + [e])[..|trace|] == trace;
  }

  /** Outside Proxy mode the cooldown runs from the last failure, and the counter holds the successes since. */
  ghost predicate Recovering(c: Config, trace: seq<Event>)
  {
    var s, i := Run(c, trace), LastFailure(trace);
    && i >= 0 && s.until == trace[i].time + c.cooldown
    && s.successes == Recovered(c, trace) < c.successes
    && (s.mode == DirectRecovery ==> trace[|trace| - 1].time >= s.until)
    && (s.mode == DirectCooldown ==> s.successes == 0)
  }

  lemma {:induction false} SuccessesCounted(c: Config, trace: seq<Event>)
    requires c.successes >= 1 && Monotone(trace)
    ensures if Run(c, trace).mode == Proxy then Run(c, trace).successes == 0 else Recovering(c, trace)
  {
    if trace == [] {
    } else {
      var init, e := trace[..|trace| - 1], trace[|trace| - 1];
      assert Monotone(init);
      SuccessesCounted(c, init);
      assert init != [] ==> init[|init| - 1].time <= e.time;
    }
  }

  /** Re-entry comes exactly with the configured number of successes, none before the cooldown and no failure between. */
  lemma {:induction false} ReentersExactly(cfg: Config, trace: seq<Event>, e: Event)
    requires Monotone(trace + [e]) && Run(Clamp(cfg), trace).mode != Proxy
    ensures var c := Clamp(cfg);
            Run(c, trace + [e]).mode == Proxy <==> e.Succeeded? && Recovered(c, trace + [e]) == c.successes
  {
    var c := Clamp(cfg);
    var all := trace + [e];
    assert all[..|trace|] == trace;
    assert Monotone(trace) by {
      assert forall i :: 0 <= i < |trace| ==> trace[i] == all[i];
    }
    SuccessesCounted(c, trace);
    assert all[|trace|] == e && all[|trace| - 1].time <= all[|trace|].time;
  }

  /** A controller fed with a trace is in the mode the trace leads to, after every event. */
  method Replay(cfg: Config, trace: seq<Event>) returns (modes: seq<Mode>)
    ensures |modes| == |trace|
    ensures forall i :: 0 <= i < |trace| ==> modes[i] == Run(Clamp(cfg), trace[..i + 1]).mode
  {
    var controller := new Controller(cfg);
    modes := [];
    for i := 0 to |trace|
      invariant |modes| == i && fresh(controller) && controller.cfg == Clamp(cfg)
      invariant controller.View() == Run(Clamp(cfg), trace[..i])
      invariant forall k :: 0 <= k < i ==> modes[k] == Run(Clamp(cfg), trace[..k + 1]).mode
    {
      match trace[i] {
        case Asked(now) => var _ := controller.CurrentMode(now);
        case Failed(now) => controller.RecordFailure(now);
        case Succeeded(now) => controller.RecordSuccess(now);
      }
      assert trace[..i + 1][..i] == trace[..i];
      modes := modes + [controller.mode];
    }
  }
}
