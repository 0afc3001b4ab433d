/** A dial through the HY2 client that runs alone: what it returns, reports, delivers and gives back. */
module Hy2Alone {
  import opened Bytes
  import opened Hy2Client
  import opened Hy2Outcomes
  import opened Hy2Status

  // ----- The worker -----

  /** What the core answers: the handshake, if one is needed, and then the call on the client. */
  datatype Net = Net(handshakeOk: bool, handshakeErr: Err, callOk: bool, callErr: Err)

  /** The result a dial that finds the core in this state gets. */
  function Expected(core: Core, net: Net): Res
  {
    if core.closed then Res(core.sequence, Some(ClosedErr))
    else if core.client == None && !net.handshakeOk then Res(core.sequence + 1, Some(net.handshakeErr))
    else Res(if core.client.Some? then core.sequence else core.sequence + 1, if net.callOk then None else Some(net.callErr))
  }

  /** The client it leaves installed: dropped if the call found it closed. */
  function ClientAfter(core: Core, net: Net): Option<nat>
  {
    if core.closed || (core.client == None && !net.handshakeOk) then core.client
    else if !net.callOk && net.callErr == ClosedErr then None
    else if core.client.Some? then core.client
    else Some(core.sequence + 1)
  }

  lemma {:induction false} WorkAlone(capacity: nat, acts: seq<Action>, i: nat, net: Net) returns (all: seq<Action>)
    requires var s := Run(capacity, acts); i in s.dials && s.dials[i].worker == Entering
    ensures acts <= all
    ensures var s, s' := Run(capacity, acts), Run(capacity, all);
            && i in s'.dials && s'.dials[i] == s.dials[i].(worker := Finished(Expected(s.core, net)))
            && s'.core.client == ClientAfter(s.core, net) && s'.core.closed == s.core.closed && s'.slots == s.slots
  {
    hide Run, After, Inv;
    var s := Run(capacity, acts);
    ClientIsCurrent(capacity, acts);
    var enter := Work(i, net.handshakeOk, net.handshakeErr);
    all := acts + [enter];
    RunAppend(capacity, acts, enter);
    if !s.core.closed && (s.core.client.Some? || net.handshakeOk) {
      all := CallAlone(capacity, all, i, net.callOk, net.callErr);
    }
  }

  lemma {:induction false} ClientIsCurrent(capacity: nat, acts: seq<Action>)
    ensures var core := Run(capacity, acts).core; core.client.Some? ==> core.client.value == core.sequence
  {
    hide Run;
    RunInv(capacity, acts);
  }

  lemma {:induction false} CallAlone(capacity: nat, acts: seq<Action>, i: nat, ok: bool, err: Err) returns (all: seq<Action>)
    requires var s := Run(capacity, acts);
             i in s.dials && s.dials[i].worker.Calling? && s.core.client == Some(s.dials[i].worker.generation)
    ensures acts <= all
    ensures var s, s' := Run(capacity, acts), Run(capacity, all);
            var g := s.dials[i].worker.generation;
            && i in s'.dials && s'.dials[i] == s.dials[i].(worker := Finished(Res(g, if ok then None else Some(err))))
            && s'.core == (if !ok && err == ClosedErr then s.core.(client := None) else s.core) && s'.slots == s.slots
  {
    hide Run, After;
    all := acts + [Work(i, ok, err)];
    RunAppend(capacity, acts, Work(i, ok, err));
    if !ok && err == ClosedErr {
      var a1 := all;
      all := a1 + [Work(i, ok, err)];
      RunAppend(capacity, a1, Work(i, ok, err));
    }
  }

  // ----- A whole dial -----

  lemma {:induction false} StartAlone(capacity: nat, acts: seq<Action>, i: nat, udp: bool) returns (all: seq<Action>)
    requires var s := Run(capacity, acts); i !in s.dials && s.slots < capacity
    ensures acts <= all
    ensures var s, s' := Run(capacity, acts), Run(capacity, all);
            && s'.core == s.core && s'.view == s.view && s'.log == s.log && s'.slots == s.slots + 1
            && s'.dials == s.dials[i := Dial(if udp then Udp else Tcp, Waiting, Entering, NoCleaner, 0, false, false)]
  {
    hide Run;
    var s := Run(capacity, acts);
    CapacityStays(capacity, acts);
    RunAppend(capacity, acts, Begin(i, udp));
    var a1 := acts + [Begin(i, udp)];
    assert Run(capacity, a1) == Put(s, i, Dial(if udp then Udp else Tcp, Acquiring, Unborn, NoCleaner, 0, false, false));
    RunAppend(capacity, a1, Acquire(i));
    all := a1 + [Acquire(i)];
  }

  lemma {:induction false} CapacityStays(capacity: nat, acts: seq<Action>)
    ensures Run(capacity, acts).capacity == capacity
  {
    RunInv(capacity, acts);
  }

  lemma {:induction false} ReturnAlone(capacity: nat, acts: seq<Action>, i: nat) returns (all: seq<Action>)
    requires var s := Run(capacity, acts);
             i in s.dials && s.dials[i].caller == Waiting && s.dials[i].worker.Finished? && s.slots > 0
    ensures acts <= all
    ensures var s, s' := Run(capacity, acts), Run(capacity, all);
            var d, res := s.dials[i], s.dials[i].worker.res;
            && i in s'.dials && s'.core == s.core && s'.slots == s.slots - 1
            && s'.dials[i] == d.(caller := Returned(res), releases := d.releases + 1, delivered := res.err == None)
            && s'.log == (if res.err.Some? && res.err.value != DialErr then s.log + [Event(d.kind, res.sequence)] else s.log)
  {
    hide Run, After;
    var go := Receive(i);
    RunAppend(capacity, acts, go);
    RunAppend(capacity, acts + [go], go);
    RunAppend(capacity, acts + [go] + [go], go);
    all := acts + [go] + [go] + [go];
  }

  /**
   * A dial that runs alone with a slot free returns the result of its own handshake and call, is
   * delivered exactly if there was no error, gives its slot back, and reports exactly a transport failure.
   */
  lemma {:induction false} DialAlone(capacity: nat, acts: seq<Action>, i: nat, udp: bool, net: Net) returns (all: seq<Action>)
    requires var s := Run(capacity, acts); i !in s.dials && s.slots < capacity
    ensures acts <= all
    ensures var s, s' := Run(capacity, acts), Run(capacity, all);
            var res := Expected(s.core, net);
            && i in s'.dials && s'.dials[i].caller == Returned(res) && s'.dials[i].kind == (if udp then Udp else Tcp)
            && s'.dials[i].delivered == (res.err == None) && !s'.dials[i].discarded && s'.slots == s.slots
            && s'.core.client == ClientAfter(s.core, net)
            && (res.err.Some? && res.err.value != DialErr ==>
                  s'.log != [] && s'.log[|s'.log| - 1] == Event(if udp then Udp else Tcp, res.sequence))
  {
    hide Run, Expected, ClientAfter, Next;
    all := StartAlone(capacity, acts, i, udp);
    all := WorkAlone(capacity, all, i, net);
    all := ReturnAlone(capacity, all, i);
  }

  /** A dial that is given up while it waits is cleaned up: its connection, if it got one, is closed and its slot given back. */
  lemma {:induction false} CancelAlone(capacity: nat, acts: seq<Action>, i: nat, udp: bool, net: Net) returns (all: seq<Action>)
    requires var s := Run(capacity, acts); i !in s.dials && s.slots < capacity
    ensures acts <= all
    ensures var s, s' := Run(capacity, acts), Run(capacity, all);
            var res := Expected(s.core, net);
            && i in s'.dials && s'.dials[i].caller == Cancelled && s'.dials[i].cleaner == Clean
            && s'.dials[i].discarded == (res.err == None) && !s'.dials[i].delivered && s'.slots == s.slots
  {
    hide Run, Expected, ClientAfter, After;
    all := StartAlone(capacity, acts, i, udp);
    RunAppend(capacity, all, Cancel(i));
    all := all + [Cancel(i)];
    all := WorkAlone(capacity, all, i, net);
    var go := Tidy(i);
    RunAppend(capacity, all, go);
    RunAppend(capacity, all + [go], go);
    RunAppend(capacity, all + [go] + [go], go);
    all := all + [go] + [go] + [go];
  }

  /** A dial given up before it got a slot is refused, whatever the slots. */
  lemma {:induction false} RefuseAlone(capacity: nat, acts: seq<Action>, i: nat, udp: bool)
    requires i !in Run(capacity, acts).dials
    ensures var s, s' := Run(capacity, acts), Run(capacity, acts + [Begin(i, udp)] + [Refuse(i)]);
            && i in s'.dials && s'.dials[i].caller == Refused && s'.slots == s.slots && s'.core == s.core && s'.log == s.log
  {
    hide Run;
    RunAppend(capacity, acts, Begin(i, udp));
    RunAppend(capacity, acts + [Begin(i, udp)], Refuse(i));
  }

  // ----- Over whole runs -----

  /** A closed core stays closed. */
  lemma {:induction false} ClosedForGood(capacity: nat, acts: seq<Action>, more: seq<Action>)
    ensures Run(capacity, acts + [CloseCore] + more).core.closed
  {
    hide Run, Next;
    var base := acts + [CloseCore];
    if more == [] {
      assert base + more == base;
      RunAppend(capacity, acts, CloseCore);
      CloseCloses(Run(capacity, acts));
    } else {
      var init, a := more[..|more| - 1], more[|more| - 1];
      ClosedForGood(capacity, acts, init);
      assert base + more == base + init + [a];
      RunAppend(capacity, base + init, a);
      ClosedStays(Run(capacity, base + init), a);
    }
  }

  lemma {:induction false} CloseCloses(s: State)
    ensures Next(s, CloseCore).core.closed
  {
  }

  lemma {:induction false} ClosedStays(s: State, a: Action)
    requires s.core.closed
    ensures Next(s, a).core.closed
  {
    hide After;
  }

  /** A dial reports under the kind it was begun with. */
  lemma {:induction false} KindExplained(capacity: nat, acts: seq<Action>, i: nat) returns (k: nat)
    requires i in Run(capacity, acts).dials
    ensures k < |acts| && acts[k].Begin? && acts[k].i == i
    ensures Run(capacity, acts).dials[i].kind == if acts[k].udp then Udp else Tcp
  {
    hide Next;
    var init, a := acts[..|acts| - 1], acts[|acts| - 1];
    KindStays(Run(capacity, init), a, i);
    if i in Run(capacity, init).dials {
      k := KindExplained(capacity, init, i);
    } else {
      k := |init|;
    }
  }

  lemma {:induction false} KindStays(s: State, a: Action, i: nat)
    requires i in Next(s, a).dials
    ensures if i in s.dials then Next(s, a).dials[i].kind == s.dials[i].kind
            else a.Begin? && a.i == i && Next(s, a).dials[i].kind == if a.udp then Udp else Tcp
  {
    hide After;
  }
}
