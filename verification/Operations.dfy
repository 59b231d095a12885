/** One interface to both engines: an I/O object runs a complete or a partial operation. */
module Operations {
  import opened Usb
  import opened Flight
  import C = CompleteEngine
  import CompleteLog
  import CompleteTermination
  import CompleteTheorems
  import P = PartialEngine
  import PartialTheorems

  datatype Operation = CompleteIo(config: Config, complete: C.State) | PartialIo(config: Config, partial: P.State)

  ghost predicate Inv(o: Operation) {
    match o
    case CompleteIo(c, s) => CompleteLog.LogInv(c, s)
    case PartialIo(c, s) => P.Inv(c, s)
  }

  ghost predicate Enabled(d: Device, o: Operation, e: Event) {
    match o
    case CompleteIo(c, s) => C.Enabled(c, d, s, e)
    case PartialIo(c, s) => P.Enabled(c, d, s, e)
  }

  ghost function Step(d: Device, o: Operation, e: Event): (o': Operation)
    requires Inv(o) && Enabled(d, o, e)
    ensures Inv(o')
  {
    match o
    case CompleteIo(c, s) => CompleteLog.StepLogInv(c, d, s, e); CompleteIo(c, C.Step(c, s, e))
    case PartialIo(c, s) => P.StepInv(c, d, s, e); PartialIo(c, P.Step(c, s, e))
  }

  function Posted(o: Operation): nat {
    match o
    case CompleteIo(_, s) => s.posted
    case PartialIo(_, s) => s.posted
  }

  predicate WasRefused(o: Operation) {
    match o
    case CompleteIo(_, s) => s.refused
    case PartialIo(_, s) => s.refused
  }

  /** The phases of the operation's transfers. */
  function Phases(o: Operation): seq<Phase> {
    match o
    case CompleteIo(_, s) => C.Phases(s.slots)
    case PartialIo(_, s) => P.Phases(s.slots)
  }

  ghost predicate Feasible(d: Device, o: Operation, evs: seq<Event>)
    requires Inv(o)
    decreases evs
  {
    evs == [] || (Enabled(d, o, evs[0]) && Feasible(d, Step(d, o, evs[0]), evs[1..]))
  }

  ghost function Run(d: Device, o: Operation, evs: seq<Event>): (o': Operation)
    requires Inv(o) && Feasible(d, o, evs)
    ensures Inv(o')
    decreases evs
  {
    if evs == [] then o else Run(d, Step(d, o, evs[0]), evs[1..])
  }

  lemma {:induction false} CompleteRun(d: Device, c: Config, s: C.State, evs: seq<Event>)
    requires CompleteLog.LogInv(c, s) && C.Feasible(c, d, s, evs)
    ensures Feasible(d, CompleteIo(c, s), evs)
    ensures Run(d, CompleteIo(c, s), evs) == CompleteIo(c, C.Run(c, d, s, evs))
    decreases evs
  {
    if evs == [] {
    } else {
      CompleteLog.StepLogInv(c, d, s, evs[0]);
      CompleteRun(d, c, C.Step(c, s, evs[0]), evs[1..]);
    }
  }

  lemma {:induction false} PartialRun(d: Device, c: Config, s: P.State, evs: seq<Event>)
    requires P.Inv(c, s) && P.Feasible(c, d, s, evs)
    ensures Feasible(d, PartialIo(c, s), evs)
    ensures Run(d, PartialIo(c, s), evs) == PartialIo(c, P.Run(c, d, s, evs))
    decreases evs
  {
    if evs == [] {
    } else {
      P.StepInv(c, d, s, evs[0]);
      PartialRun(d, c, P.Step(c, s, evs[0]), evs[1..]);
    }
  }

  /** A resumed operation has no pending transfer and no refused submission. */
  lemma PostedMeansDrained(o: Operation)
    requires Inv(o)
    ensures Posted(o) > 0 ==> !WasRefused(o) && forall t :: 0 <= t < |Phases(o)| ==> Phases(o)[t] == Retired
  {
    match o {
      case CompleteIo(c, s) => PostedOnce(C.Phases(s.slots), s.next, s.inFlight, s.posted, s.refused);
      case PartialIo(c, s) => PostedOnce(P.Phases(s.slots), s.next, s.inFlight, s.posted, s.refused);
    }
  }

  /** What is pending in p is pending in q. */
  ghost predicate PendingKept(p: seq<Phase>, q: seq<Phase>) {
    |p| == |q| && forall t :: 0 <= t < |p| && p[t] == Pending ==> q[t] == Pending
  }

  /** Without callbacks nothing is resumed, and what is pending stays pending. */
  lemma NoCallback(d: Device, o: Operation, e: Event)
    requires Inv(o) && Enabled(d, o, e) && !e.Complete?
    ensures Posted(Step(d, o, e)) == Posted(o) && PendingKept(Phases(o), Phases(Step(d, o, e)))
  {
  }

  /** An operation with a refused initial submission stays refused, and is not resumed. */
  lemma RefusedStep(d: Device, o: Operation, e: Event)
    requires Inv(o) && WasRefused(o) && Enabled(d, o, e)
    ensures WasRefused(Step(d, o, e)) && Posted(Step(d, o, e)) == 0
  {
    PostedMeansDrained(Step(d, o, e));
  }

  /** An operation none of whose initial submissions was refused can be resumed by some events. */
  lemma CanResume(d: Device, o: Operation) returns (evs: seq<Event>)
    requires Inv(o) && !WasRefused(o)
    ensures Feasible(d, o, evs) && Posted(Run(d, o, evs)) == 1
  {
    match o {
      case CompleteIo(c, s) =>
        var start := CompleteTermination.AcceptAll(c, d, s);
        var finish := CompleteTermination.Finish(c, d, C.Run(c, d, s, start));
        CompleteTermination.RunConcat(c, d, s, start, finish);
        evs := start + finish;
        CompleteRun(d, c, s, evs);
      case PartialIo(c, s) =>
        var start := PartialTheorems.AcceptAll(c, d, s);
        var finish := PartialTheorems.Finish(c, d, P.Run(c, d, s, start));
        PartialTheorems.RunConcat(c, d, s, start, finish);
        evs := start + finish;
        PartialRun(d, c, s, evs);
    }
  }

  // ---- Reachable states ----

  /** The operation is in a state that its engine reaches from the prepared one. */
  ghost predicate Reached(d: Device, o: Operation) {
    match o
    case CompleteIo(c, s) => CompleteTheorems.Reachable(c, d, s)
    case PartialIo(c, s) => PartialTheorems.Reachable(c, d, s)
  }

  lemma CompleteReached(d: Device, c: Config)
    requires ValidConfig(c)
    ensures Reached(d, CompleteIo(c, C.Prepared(c)))
  {
    CompleteTheorems.PreparedReachable(c, d);
  }

  lemma PartialReached(d: Device, c: Config)
    requires ValidOperation(c)
    ensures Reached(d, PartialIo(c, P.Prepared(c)))
  {
    PartialTheorems.PreparedReachable(c, d);
  }

  lemma StepReached(d: Device, o: Operation, e: Event)
    requires Inv(o) && Reached(d, o) && Enabled(d, o, e)
    ensures Reached(d, Step(d, o, e))
  {
    match o {
      case CompleteIo(c, s) => CompleteTheorems.StepReachable(c, d, s, e);
      case PartialIo(c, s) => PartialTheorems.StepReachable(c, d, s, e);
    }
  }
}
