/**
 * On a device that completes in full, with buffers no larger than the limit, the complete engine does exactly
 * what the partial engine does, although one sums a progress entry per transfer and the other keeps one counter.
 */
module Simulation {
  import opened Usb
  import opened Sums
  import C = CompleteEngine
  import L = CompleteLog
  import F = CompleteFill
  import P = PartialEngine

  ghost predicate SmallBuffers(c: Config) {
    ValidConfig(c) && forall k :: 0 <= k < |c.buffers| ==> c.buffers[k].size <= c.limit
  }

  /** Same transfer fields, claims, error, posts and history; the totals agree. */
  ghost predicate Related(c: Config, x: C.State, y: P.State) {
    && C.Shape(c, x) && P.Shape(c, y)
    && (forall t :: 0 <= t < |x.slots| ==> SameSlot(x.slots[t], y.slots[t]))
    && L.Owners(x.claims) == y.owners
    && x.inFlight == y.inFlight && x.ec == y.ec && x.posted == y.posted
    && x.next == y.next && x.refused == y.refused && x.log == y.log
    && C.Total(x) == y.total
  }

  ghost predicate SameSlot(a: C.Slot, b: P.Slot) {
    && a.phase == b.phase
    && (a.phase != Retired ==> a.buffer == b.buffer && a.length == b.length && a.held == b.held)
  }

  lemma PreparedRelated(c: Config)
    requires SmallBuffers(c)
    ensures Related(c, C.Prepared(c), P.Prepared(c))
  {
    SumZero(C.Totals(C.Prepared(c).slots));
  }

  lemma StepRelated(c: Config, x: C.State, y: P.State, e: Event)
    requires SmallBuffers(c) && Related(c, x, y) && C.Enabled(c, FullLength, x, e)
    requires C.FreshSubmission(x, e) && (e.Complete? ==> C.SlotOk(c, x, e.t))
    requires e.Complete? && !x.ec.IsSet() ==> F.OneShotOk(c, FullLength, x, x.slots[e.t].held)
    ensures P.Enabled(c, FullLength, y, e)
    ensures Related(c, C.Step(c, x, e), P.Step(c, y, e))
  {
    if e.Complete? {
      L.TotalsPreserved(c, x, e);
      assert SameSlot(x.slots[e.t], y.slots[e.t]);
    } else {
      assert C.Totals(C.Step(c, x, e).slots) == C.Totals(x.slots);
    }
  }

  lemma {:induction false} RunRelated(c: Config, x: C.State, y: P.State, evs: seq<Event>)
    requires SmallBuffers(c) && Related(c, x, y) && L.LogInv(c, x) && F.OneShotInv(c, FullLength, x)
    ensures C.Feasible(c, FullLength, x, evs) <==> P.Feasible(c, FullLength, y, evs)
    ensures C.Feasible(c, FullLength, x, evs) ==>
              Related(c, C.Run(c, FullLength, x, evs), P.Run(c, FullLength, y, evs))
    decreases evs
  {
    if evs != [] && (C.Enabled(c, FullLength, x, evs[0]) || P.Enabled(c, FullLength, y, evs[0])) {
      var e := evs[0];
      if e.Complete? {
        assert SameSlot(x.slots[e.t], y.slots[e.t]);
        assert C.SlotOk(c, x, e.t);
        assert !x.ec.IsSet() ==> F.OneShotOk(c, FullLength, x, x.slots[e.t].held);
      }
      StepRelated(c, x, y, e);
      F.StepOneShotInv(c, FullLength, x, e);
      RunRelated(c, C.Step(c, x, e), P.Step(c, y, e), evs[1..]);
    }
  }

  /** The same event sequences are possible for both engines, and each leaves both with the same outcome. */
  lemma Lockstep(c: Config, evs: seq<Event>)
    requires SmallBuffers(c)
    ensures C.Feasible(c, FullLength, C.Prepared(c), evs) <==> P.Feasible(c, FullLength, P.Prepared(c), evs)
    ensures C.Feasible(c, FullLength, C.Prepared(c), evs) ==>
              Related(c, C.Run(c, FullLength, C.Prepared(c), evs), P.Run(c, FullLength, P.Prepared(c), evs))
  {
    PreparedRelated(c);
    L.PreparedLogInv(c);
    RunRelated(c, C.Prepared(c), P.Prepared(c), evs);
  }
}
