/** relayFrom, closeWrite and relayError of internal/dataplane/tcp.go as a transition system. */
module TcpRelays {
  /**
   * How a copy can end. `Benign` is io.EOF or net.ErrClosed; `Real(induced)` is any other error,
   * where `induced` says it came from the relay's own full close of a connection.
   */
  datatype Err = NoErr | Benign | Real(induced: bool)

  datatype Report = Report(first: bool, err: Err, fullyClosed: bool)

  /** One copy direction; it claims the flag after its copy has ended and closes after claiming. */
  datatype Direction = Copying | Ended(err: Err) | Claimed(err: Err, first: bool) | Reported(report: Report)

  /** The forward direction writes the outbound connection, the other one the inbound connection. */
  datatype State = State(
    halfOut: bool, halfIn: bool,        // which connections offer CloseWrite
    completed: bool,                    // the atomic flag
    fullClosed: bool,                   // the relay has fully closed a connection
    forward: Direction, backward: Direction)

  datatype Action = Step(isForward: bool, err: Err)

  function Init(halfOut: bool, halfIn: bool): State
  {
    State(halfOut, halfIn, false, false, Copying, Copying)
  }

  function Put(s: State, isForward: bool, d: Direction): State
  {
    if isForward then s.(forward := d) else s.(backward := d)
  }

  /** An error can be induced only once a connection has been fully closed. */
  function Next(s: State, a: Action): State
  {
    var half := if a.isForward then s.halfOut else s.halfIn;
    match (if a.isForward then s.forward else s.backward)
    case Copying => if a.err == Real(true) && !s.fullClosed then s else Put(s, a.isForward, Ended(a.err))
    case Ended(err) => Put(s.(completed := true), a.isForward, Claimed(err, !s.completed))
    case Claimed(err, first) =>
      Put(s.(fullClosed := s.fullClosed || !half), a.isForward, Reported(Report(first, err, !half)))
    case Reported(_) => s
  }

  function Run(halfOut: bool, halfIn: bool, acts: seq<Action>): State
  {
    if acts == [] then Init(halfOut, halfIn) else Next(Run(halfOut, halfIn, acts[..|acts| - 1]), acts[|acts| - 1])
  }

  predicate Over(s: State)
  {
    s.forward.Reported? && s.backward.Reported?
  }

  function RelayError(err: Err): Err
  {
    if err.Real? then err else NoErr
  }

  /** The result loop sorts the two reports by their flag, in whatever order they arrive. */
  function Sorted(s: State): (Report, Report)
    requires Over(s)
  {
    if s.forward.report.first then (s.forward.report, s.backward.report) else (s.backward.report, s.forward.report)
  }

  function Returned(s: State): Err
    requires Over(s)
  {
    var (first, second) := Sorted(s);
    if RelayError(first.err) != NoErr then RelayError(first.err)
    else if first.fullyClosed then NoErr
    else RelayError(second.err)
  }

  // ----- The invariant -----

  predicate IsFirst(d: Direction)
  {
    (d.Claimed? && d.first) || (d.Reported? && d.report.first)
  }

  predicate IsSecond(d: Direction)
  {
    (d.Claimed? && !d.first) || (d.Reported? && !d.report.first)
  }

  function ErrOf(d: Direction): Err
  {
    match d
    case Copying => NoErr
    case Ended(err) => err
    case Claimed(err, _) => err
    case Reported(r) => r.err
  }

  /** What is known of one direction, given the other. */
  ghost predicate DirectionOk(s: State, d: Direction, other: Direction)
  {
    && (IsFirst(d) ==> s.completed && !IsFirst(other) && ErrOf(d) != Real(true))
    && (IsSecond(d) ==> IsFirst(other))
    && (s.completed ==> IsFirst(d) || IsFirst(other))
    && (ErrOf(d) == Real(true) ==> other.Reported? && other.report.first && other.report.fullyClosed)
  }

  ghost predicate Inv(s: State)
  {
    && DirectionOk(s, s.forward, s.backward) && DirectionOk(s, s.backward, s.forward)
    && (s.fullClosed <==>
          (s.forward.Reported? && s.forward.report.fullyClosed) || (s.backward.Reported? && s.backward.report.fullyClosed))
    && (s.forward.Reported? ==> s.forward.report.fullyClosed == !s.halfOut)
    && (s.backward.Reported? ==> s.backward.report.fullyClosed == !s.halfIn)
  }

  lemma {:induction false} StartOk(halfOut: bool, halfIn: bool)
    ensures Inv(Init(halfOut, halfIn))
  {
  }

  lemma {:induction false} ForwardKeeps(s: State, err: Err)
    requires Inv(s)
    ensures Inv(Next(s, Step(true, err)))
  {
  }

  lemma {:induction false} BackwardKeeps(s: State, err: Err)
    requires Inv(s)
    ensures Inv(Next(s, Step(false, err)))
  {
  }

  lemma {:induction false} RunInv(halfOut: bool, halfIn: bool, acts: seq<Action>)
    ensures Inv(Run(halfOut, halfIn, acts))
    ensures Run(halfOut, halfIn, acts).halfOut == halfOut && Run(halfOut, halfIn, acts).halfIn == halfIn
  {
    hide Inv;
    if acts == [] {
      StartOk(halfOut, halfIn);
    } else {
      var s, a := Run(halfOut, halfIn, acts[..|acts| - 1]), acts[|acts| - 1];
      RunInv(halfOut, halfIn, acts[..|acts| - 1]);
      if a.isForward {
        ForwardKeeps(s, a.err);
      } else {
        BackwardKeeps(s, a.err);
      }
    }
  }

  /** An error induced by the relay's own full close is never returned, and a genuine error of the first direction always is. */
  lemma {:induction false} InducedErrorsAreHidden(halfOut: bool, halfIn: bool, acts: seq<Action>)
    requires Over(Run(halfOut, halfIn, acts))
    ensures var s := Run(halfOut, halfIn, acts);
            var (first, second) := Sorted(s);
            && first.first && !second.first
            && Returned(s) != Real(true)
            && (first.err.Real? ==> Returned(s) == first.err == Real(false))
  {
    RunInv(halfOut, halfIn, acts);
  }

  /** A genuine error of the second direction is lost exactly when the first ended well on a connection without half-close. */
  lemma {:induction false} SecondErrorLostExactly(halfOut: bool, halfIn: bool, acts: seq<Action>)
    requires Over(Run(halfOut, halfIn, acts)) && Sorted(Run(halfOut, halfIn, acts)).1.err == Real(false)
    ensures var s := Run(halfOut, halfIn, acts);
            var first := Sorted(s).0;
            Returned(s) == NoErr <==> !first.err.Real? && !(if first == s.forward.report then halfOut else halfIn)
  {
    RunInv(halfOut, halfIn, acts);
  }

  /** No error is returned exactly if no direction ended with one, or only the second did and the first fully closed its connection. */
  lemma {:induction false} NothingReturnedExactly(halfOut: bool, halfIn: bool, acts: seq<Action>)
    requires Over(Run(halfOut, halfIn, acts))
    ensures var s := Run(halfOut, halfIn, acts);
            var forwardFirst := s.forward.report.first;
            Returned(s) == NoErr <==>
            if forwardFirst then !s.forward.report.err.Real? && (!halfOut || !s.backward.report.err.Real?)
            else !s.backward.report.err.Real? && (!halfIn || !s.forward.report.err.Real?)
  {
    RunInv(halfOut, halfIn, acts);
  }

  lemma {:induction false} RunAppend(halfOut: bool, halfIn: bool, acts: seq<Action>, a: Action)
    ensures Run(halfOut, halfIn, acts + [a]) == Next(Run(halfOut, halfIn, acts), a)
  {
  }

  /** A run that loses one: the forward copy ends well and fully closes the outbound connection, then the other one fails. */
  lemma {:induction false} GenuineErrorLost() returns (acts: seq<Action>)
    ensures var s := Run(false, true, acts);
            Over(s) && Sorted(s).0.first && Sorted(s).1.err == Real(false) && Returned(s) == NoErr
  {
    var well, badly := Step(true, NoErr), Step(false, Real(false));
    acts := [];
    for i := 0 to 3
      invariant Run(false, true, acts) == State(false, true, i >= 2, i == 3,
        [Copying, Ended(NoErr), Claimed(NoErr, true), Reported(Report(true, NoErr, true))][i], Copying)
    {
      RunAppend(false, true, acts, well);
      acts := acts + [well];
    }
    for i := 0 to 3
      invariant Run(false, true, acts) == State(false, true, true, true, Reported(Report(true, NoErr, true)),
        [Copying, Ended(Real(false)), Claimed(Real(false), false), Reported(Report(false, Real(false), false))][i])
    {
      RunAppend(false, true, acts, badly);
      acts := acts + [badly];
    }
  }
}
