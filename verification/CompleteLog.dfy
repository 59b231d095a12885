/** How the complete engine's fields account for the completion log, in every reachable state. */
module CompleteLog {
  import opened Usb
  import opened Sums
  import opened CompleteEngine

  function Owners(claims: seq<Claim>): (a: seq<nat>)
    ensures |a| == |claims| && forall k :: 0 <= k < |a| ==> a[k] == claims[k].owner
  {
    seq(|claims|, k requires 0 <= k < |claims| => claims[k].owner)
  }

  /** A transfer's records never go past the buffer it holds. */
  ghost predicate NoneAhead(s: State) {
    forall i :: 0 <= i < |s.log| && s.log[i].Done? ==>
      s.log[i].t < |s.slots| && s.log[i].buf <= s.slots[s.log[i].t].held
  }

  ghost predicate ClaimLogged(s: State, k: nat)
    requires k < |s.claims|
  {
    && s.claims[k].got == Received(s.log, k)
    && s.claims[k].carried == MovedBefore(s.log, s.claims[k].owner, k)
  }

  ghost predicate TotalLogged(s: State) {
    && Total(s) == CountedBytes(s.log)
    && Total(s) <= Sum(Gots(s.claims))
    && (!s.ec.IsSet() ==> Total(s) == Sum(Gots(s.claims)))
  }

  ghost predicate LogInv(c: Config, s: State) {
    && Inv(c, s)
    && ServedBy(s.log, Owners(s.claims))
    && NoneAhead(s)
    && (forall k :: 0 <= k < |s.claims| ==> ClaimLogged(s, k))
    && Contiguous(c, s.log)
    && ErrorLogged(s.log, s.ec, s.refused)
    && TotalLogged(s)
  }

  lemma PreparedLogInv(c: Config)
    requires ValidConfig(c)
    ensures LogInv(c, Prepared(c))
  {
    PreparedInv(c);
    SumZero(Totals(Prepared(c).slots));
    SumZero(Gots(Prepared(c).claims));
  }

  lemma ServedPreserved(c: Config, d: Device, s: State, e: Event)
    requires Shape(c, s) && Enabled(c, d, s, e) && (e.Complete? ==> SlotOk(c, s, e.t))
    requires ServedBy(s.log, Owners(s.claims)) && NoneAhead(s)
    ensures var s' := Step(c, s, e); ServedBy(s'.log, Owners(s'.claims)) && NoneAhead(s')
  {
  }

  lemma OldClaimLogged(c: Config, d: Device, s: State, e: Event, k: nat)
    requires Shape(c, s) && Enabled(c, d, s, e) && (e.Complete? ==> SlotOk(c, s, e.t))
    requires k < |s.claims| && ClaimLogged(s, k) && ClaimOk(c, s, k)
    ensures ClaimLogged(Step(c, s, e), k)
  {
    var s' := Step(c, s, e);
    if !e.Accept? {
      LogAppend(s.log, s'.log[|s.log|], s.claims[k].owner, k);
    }
    if e.Complete? {
      assert s'.claims[k] ==
             if k == s.slots[e.t].held then s.claims[k].(got := s.claims[k].got + e.actual) else s.claims[k];
    }
  }

  lemma FreshClaimLogged(c: Config, d: Device, s: State, e: Event)
    requires Shape(c, s) && Enabled(c, d, s, e) && e.Complete? && SlotOk(c, s, e.t)
    requires ServedBy(s.log, Owners(s.claims)) && NoneAhead(s) && ClaimLogged(s, s.slots[e.t].held)
    requires |s.claims| < |Step(c, s, e).claims|
    ensures ClaimLogged(Step(c, s, e), |s.claims|)
  {
    var k := |s.claims|;
    var h := s.slots[e.t].held;
    LogAppend(s.log, Step(c, s, e).log[|s.log|], e.t, k);
    MovedSplit(s.log, Owners(s.claims), h, k);
    NothingReceived(s.log, k);
  }

  lemma ContiguousPreserved(c: Config, d: Device, s: State, e: Event)
    requires LogInv(c, s) && Enabled(c, d, s, e)
    ensures Contiguous(c, Step(c, s, e).log)
  {
    var log := s.log;
    var log' := Step(c, s, e).log;
    forall i | 0 <= i < |log'| && log'[i].Done? ensures InPlace(c, log', i) {
      if i < |log| {
        assert log'[..i] == log[..i] && log'[i] == log[i];
        assert InPlace(c, log, i);
      } else {
        assert log'[..i] == log;
        assert SlotOk(c, s, e.t) && ClaimLogged(s, s.slots[e.t].held);
        SlotWithin(c, s, e.t);
      }
    }
  }

  lemma ErrorPreserved(c: Config, d: Device, s: State, e: Event)
    requires Shape(c, s) && ErrorLogged(s.log, s.ec, s.refused) && Enabled(c, d, s, e)
    ensures var s' := Step(c, s, e); ErrorLogged(s'.log, s'.ec, s'.refused)
  {
    if !e.Accept? {
      ErrorLoggedAppend(s.log, s.ec, s.refused, Step(c, s, e).log[|s.log|], Step(c, s, e).ec);
    }
  }

  lemma TotalPreserved(c: Config, d: Device, s: State, e: Event)
    requires Shape(c, s) && TotalLogged(s) && Enabled(c, d, s, e)
    requires s.ec.IsSet() <==> !CleanBefore(s.log, |s.log|)
    ensures TotalLogged(Step(c, s, e))
  {
    var s' := Step(c, s, e);
    match e {
      case Accept =>
        assert Totals(s'.slots) == Totals(s.slots);
      case Refuse(r) =>
        LogAppend(s.log, Refused(r), 0, 0);
      case Complete(t, actual, status, r) =>
        LogAppend(s.log, s'.log[|s.log|], 0, 0);
        TotalsPreserved(c, s, e);
        GotsPreserved(c, s, e);
    }
  }

  lemma TotalsPreserved(c: Config, s: State, e: Event)
    requires Shape(c, s) && e.Complete? && e.t < |s.slots|
    ensures Total(Step(c, s, e)) == Total(s) + (if s.ec.IsSet() then 0 else e.actual)
  {
    var total' := Step(c, s, e).slots[e.t].prg.total;
    SumUpdate(Totals(s.slots), e.t, total');
    assert Totals(Step(c, s, e).slots) == Totals(s.slots)[e.t := total'];
  }

  lemma GotsPreserved(c: Config, s: State, e: Event)
    requires Shape(c, s) && e.Complete? && e.t < |s.slots|
    ensures Sum(Gots(Step(c, s, e).claims)) == Sum(Gots(s.claims)) + e.actual
  {
    var h := s.slots[e.t].held;
    var claims' := Step(c, s, e).claims;
    var updated := Gots(s.claims)[h := s.claims[h].got + e.actual];
    SumUpdate(Gots(s.claims), h, s.claims[h].got + e.actual);
    if |claims'| == |s.claims| {
      assert Gots(claims') == updated;
    } else {
      SumAppend(updated, 0);
      assert Gots(claims') == updated + [0];
    }
  }

  lemma StepLogInv(c: Config, d: Device, s: State, e: Event)
    requires LogInv(c, s) && Enabled(c, d, s, e)
    ensures LogInv(c, Step(c, s, e))
  {
    StepInv(c, d, s, e);
    if e.Complete? {
      assert SlotOk(c, s, e.t) && ClaimLogged(s, s.slots[e.t].held);
    }
    ServedPreserved(c, d, s, e);
    forall k | 0 <= k < |Step(c, s, e).claims| ensures ClaimLogged(Step(c, s, e), k) {
      if k < |s.claims| {
        assert ClaimOk(c, s, k) && ClaimLogged(s, k);
        OldClaimLogged(c, d, s, e, k);
      } else {
        FreshClaimLogged(c, d, s, e);
      }
    }
    ContiguousPreserved(c, d, s, e);
    ErrorPreserved(c, d, s, e);
    TotalPreserved(c, d, s, e);
  }

  /** Every state of every run, from every prepared operation, has the invariant. */
  lemma {:induction false} RunLogInv(c: Config, d: Device, s: State, evs: seq<Event>)
    requires LogInv(c, s) && Feasible(c, d, s, evs)
    ensures LogInv(c, Run(c, d, s, evs))
    decreases evs
  {
    if evs == [] {
    } else {
      StepLogInv(c, d, s, evs[0]);
      RunLogInv(c, d, Step(c, s, evs[0]), evs[1..]);
    }
  }
}
