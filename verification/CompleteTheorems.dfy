/** What every run of the complete engine keeps and reports. */
module CompleteTheorems {
  import opened Wrappers
  import opened Usb
  import opened Sums
  import opened Flight
  import opened CompleteEngine
  import opened CompleteLog
  import opened CompleteTermination
  import opened CompleteFill

  ghost predicate Reachable(c: Config, d: Device, s: State): (b: bool)
    ensures b ==> Shape(c, s)
  {
    ValidConfig(c) && exists evs :: Feasible(c, d, Prepared(c), evs) && s == Run(c, d, Prepared(c), evs)
  }

  lemma ReachableLogInv(c: Config, d: Device, s: State)
    requires Reachable(c, d, s)
    ensures LogInv(c, s)
  {
    var evs :| Feasible(c, d, Prepared(c), evs) && s == Run(c, d, Prepared(c), evs);
    PreparedLogInv(c);
    RunLogInv(c, d, Prepared(c), evs);
  }

  lemma PreparedReachable(c: Config, d: Device)
    requires ValidConfig(c)
    ensures Reachable(c, d, Prepared(c))
  {
    assert Feasible(c, d, Prepared(c), []) && Run(c, d, Prepared(c), []) == Prepared(c);
  }

  lemma PendingCounts(c: Config, d: Device, s: State, t: nat)
    requires Reachable(c, d, s) && t < |s.slots| && s.slots[t].phase == Pending
    ensures s.inFlight >= 1
  {
    ReachableLogInv(c, d, s);
    InFlightBounds(Phases(s.slots));
    assert Phases(s.slots)[t] == Pending;
  }

  lemma StepReachable(c: Config, d: Device, s: State, e: Event)
    requires Reachable(c, d, s) && Enabled(c, d, s, e)
    ensures Reachable(c, d, Step(c, s, e))
    ensures e.Complete? ==> s.inFlight >= 1
  {
    if e.Complete? {
      PendingCounts(c, d, s, e.t);
    }
    var evs :| Feasible(c, d, Prepared(c), evs) && s == Run(c, d, Prepared(c), evs);
    RunCons(c, d, s, e, []);
    RunConcat(c, d, Prepared(c), evs, [e] + []);
  }

  // ---- Resumption ----

  /**
   * In every reachable state in_flight is the number of pending transfers plus those not yet accepted, so the
   * continuation is posted at most once, and has been posted exactly when every initial submission was accepted
   * and nothing is pending.
   */
  lemma ExactlyOnceResumption(c: Config, d: Device, s: State)
    requires Reachable(c, d, s)
    ensures s.inFlight == |PendingSet(Phases(s.slots))| + (|s.slots| - s.next)
    ensures s.posted <= 1
    ensures s.posted == 1 <==> s.next == |s.slots| && forall t :: 0 <= t < |s.slots| ==> s.slots[t].phase != Pending
  {
    ReachableLogInv(c, d, s);
    PostedOnce(Phases(s.slots), s.next, s.inFlight, s.posted, s.refused);
    assert forall t :: 0 <= t < |s.slots| ==> Phases(s.slots)[t] == s.slots[t].phase;
  }

  /** The operation can still be resumed, by some further events, exactly when no initial submission was refused. */
  lemma ResumableExactlyWhen(c: Config, d: Device, s: State)
    requires Reachable(c, d, s)
    ensures (exists more :: Feasible(c, d, s, more) && Run(c, d, s, more).posted == 1) <==> !s.refused
  {
    ReachableLogInv(c, d, s);
    if s.refused {
      forall more | Feasible(c, d, s, more) ensures Run(c, d, s, more).posted == 0 {
        RefusedForever(c, d, s, more);
      }
    } else {
      var start := AcceptAll(c, d, s);
      var finish := Finish(c, d, Run(c, d, s, start));
      RunConcat(c, d, s, start, finish);
    }
  }

  lemma {:induction false} RefusedForever(c: Config, d: Device, s: State, evs: seq<Event>)
    requires Inv(c, s) && s.refused && Feasible(c, d, s, evs)
    ensures Run(c, d, s, evs).posted == 0 && Run(c, d, s, evs).refused
    decreases evs
  {
    if evs == [] {
      PostedOnce(Phases(s.slots), s.next, s.inFlight, s.posted, s.refused);
    } else {
      StepInv(c, d, s, evs[0]);
      RefusedForever(c, d, Step(c, s, evs[0]), evs[1..]);
    }
  }

  // ---- Results ----

  lemma StepLogs(c: Config, d: Device, s: State, e: Event)
    requires Shape(c, s) && Enabled(c, d, s, e)
    ensures Logged(Step(c, s, e).log) == Logged(s.log) + Noted(e)
  {
  }

  lemma {:induction false} RunLogs(c: Config, d: Device, s: State, evs: seq<Event>)
    requires Shape(c, s) && Feasible(c, d, s, evs)
    ensures Logged(Run(c, d, s, evs).log) == Logged(s.log) + Happened(evs)
    decreases evs
  {
    if evs == [] {
    } else {
      var s1 := Step(c, s, evs[0]);
      RunLogs(c, d, s1, evs[1..]);
      StepLogs(c, d, s, evs[0]);
      JoinObserved(Logged(s.log), Noted(evs[0]), Happened(evs[1..]));
    }
  }

  /** The log is the history: every completion and refusal, in order. */
  lemma LogIsHistory(c: Config, d: Device, evs: seq<Event>)
    requires ValidConfig(c) && Feasible(c, d, Prepared(c), evs)
    ensures Logged(Run(c, d, Prepared(c), evs).log) == Happened(evs)
  {
    RunLogs(c, d, Prepared(c), evs);
  }

  /**
   * A resumed operation reports the first error of its completion log, or none if the log has none, and a total
   * equal to the bytes of the log up to and including that first error.
   */
  lemma ReportedResult(c: Config, d: Device, s: State)
    requires Reachable(c, d, s) && s.posted == 1
    ensures Outcome(s.log, s.ec)
    ensures Total(s) == CountedBytes(s.log)
    ensures forall i :: 0 <= i < |s.log| ==> s.log[i].Done?
  {
    ReachableLogInv(c, d, s);
    if s.refused {
      RefusedForever(c, d, s, []);
    }
  }

  /** If every buffer was filled without an error, the reported total is the sum of their sizes. */
  lemma FilledTotal(c: Config, d: Device, s: State)
    requires Reachable(c, d, s) && ErrorFree(s)
    ensures Filled(c, s) <==> Total(s) == Sum(Sizes(c.buffers))
  {
    ReachableLogInv(c, d, s);
    AllServed(c, s);
    forall k | 0 <= k < |c.buffers|
      ensures Gots(s.claims)[k] <= Sizes(c.buffers)[k] && Gots(s.claims)[k] == Received(s.log, k)
    {
      assert ClaimOk(c, s, k) && ClaimLogged(s, k);
    }
    if Filled(c, s) {
      assert Gots(s.claims) == Sizes(c.buffers);
    } else {
      var k :| 0 <= k < |c.buffers| && Received(s.log, k) != c.buffers[k].size;
      SumUpdate(Sizes(c.buffers), k, Gots(s.claims)[k]);
      SumMonotone(Gots(s.claims), Sizes(c.buffers)[k := Gots(s.claims)[k]]);
    }
  }

  /**
   * Whatever was reused and however short the completions were: after an error-free resumption each buffer is
   * short by at most what its transfer had moved before, and the first ones, one per transfer, are full. The
   * bytes of each buffer arrived as consecutive chunks from its start.
   */
  lemma ReuseGuarantee(c: Config, d: Device, s: State, k: nat)
    requires Reachable(c, d, s) && ErrorFree(s) && k < |c.buffers|
    ensures |s.claims| == |c.buffers| && Contiguous(c, s.log) && ServedBy(s.log, Owners(s.claims))
    ensures c.buffers[k].size - MovedBefore(s.log, s.claims[k].owner, k) <= Received(s.log, k) <= c.buffers[k].size
    ensures k < c.submissionSize ==> Received(s.log, k) == c.buffers[k].size
  {
    ReachableLogInv(c, d, s);
    AllServed(c, s);
    assert ClaimOk(c, s, k) && ClaimLogged(s, k);
  }

  /** The smallest failure: two buffers of two bytes, one transfer, and a second completion of one byte. */
  lemma ShortReadWithoutError()
    ensures var c := Config([Buffer(0, 2), Buffer(2, 2)], 1, 2);
            ValidConfig(c) && exists s :: Reachable(c, AnyLength, s) && ErrorFree(s) && Received(s.log, 1) == 1
  {
    var c := Config([Buffer(0, 2), Buffer(2, 2)], 1, 2);
    var first, second := Done(0, 0, 0, 2, 0, Some(0)), Done(0, 1, 2, 1, 0, None);
    var s0 := Prepared(c);
    var s1 := Step(c, s0, Accept);
    assert s1.slots == [Slot(0, 2, Progress(0, 2, 0), 0, Pending)];
    var s2 := Step(c, s1, Complete(0, 2, 0, 0));
    assert s2.slots == [Slot(2, 2, Progress(2, 2, 2), 1, Pending)] && s2.log == [] + [first];
    var s3 := Step(c, s2, Complete(0, 1, 0, 0));
    assert ErrorFree(s3) && s3.log == ([] + [first]) + [second];
    RunCons(c, AnyLength, s2, Complete(0, 1, 0, 0), []);
    RunCons(c, AnyLength, s1, Complete(0, 2, 0, 0), [Complete(0, 1, 0, 0)] + []);
    RunCons(c, AnyLength, s0, Accept, [Complete(0, 2, 0, 0)] + ([Complete(0, 1, 0, 0)] + []));
    assert Reachable(c, AnyLength, s3);
    LogAppend([], first, 0, 1);
    LogAppend([] + [first], second, 0, 1);
  }

  // ---- Memory ----

  /** A transfer in flight stays inside the buffer it holds and within the limit, and asks for something if it can. */
  lemma SubmissionWithin(c: Config, d: Device, s: State, t: nat)
    requires Reachable(c, d, s) && t < |s.slots| && s.slots[t].phase != Retired
    ensures var slot := s.slots[t];
            && slot.held < |s.claims| <= |c.buffers|
            && var b := c.buffers[slot.held];
               && b.data <= slot.buffer && slot.buffer + slot.length <= b.data + b.size
               && slot.length <= c.limit <= INT_MAX
               && (b.size > 0 ==> slot.length > 0)
               && (slot.prg.total > slot.prg.expected ==> slot.buffer == b.data)
  {
    ReachableLogInv(c, d, s);
    assert SlotOk(c, s, t);
    SlotWithin(c, s, t);
  }

  /**
   * A transfer in flight asks for the bytes that follow those its buffer has received, and for as much as is left and
   * the limit allows; what the transfer moved before is missing from what is left, except when it just took the buffer.
   */
  lemma SubmissionLength(c: Config, d: Device, s: State, t: nat)
    requires Reachable(c, d, s) && t < |s.slots| && s.slots[t].phase != Retired
    ensures var slot := s.slots[t];
            && slot.held < |c.buffers|
            && var b, got, before := c.buffers[slot.held], Received(s.log, slot.held), MovedBefore(s.log, t, slot.held);
               && slot.buffer == b.data + got
               && ((got == 0 && AsMuchAsAllowed(slot.length, b.size, c.limit))
                   || (before + got < b.size && AsMuchAsAllowed(slot.length, b.size - before - got, c.limit)))
               && (before == 0 ==> AsMuchAsAllowed(slot.length, b.size - got, c.limit))
  {
    SlotLogged(c, d, s, t);
    SlotLength(c, s, t);
  }

  lemma SlotLogged(c: Config, d: Device, s: State, t: nat)
    requires Reachable(c, d, s) && t < |s.slots|
    ensures var k := s.slots[t].held;
            && SlotOk(c, s, t)
            && s.claims[k].got == Received(s.log, k) && s.claims[k].carried == MovedBefore(s.log, t, k)
  {
    ReachableLogInv(c, d, s);
    assert SlotOk(c, s, t) && ClaimLogged(s, s.slots[t].held);
  }

  lemma SlotLength(c: Config, s: State, t: nat)
    requires Shape(c, s) && t < |s.slots| && s.slots[t].phase != Retired && SlotOk(c, s, t)
    ensures var slot, claim := s.slots[t], s.claims[s.slots[t].held];
            var size := c.buffers[slot.held].size;
            && ((claim.got == 0 && AsMuchAsAllowed(slot.length, size, c.limit))
                || (claim.carried + claim.got < size
                    && AsMuchAsAllowed(slot.length, size - claim.carried - claim.got, c.limit)))
  {
  }

  /** No two transfers in flight hold the same buffer or, in disjoint buffers, share a byte. */
  lemma SubmissionsDisjoint(c: Config, d: Device, s: State, t: nat, u: nat)
    requires Reachable(c, d, s)
    requires t < |s.slots| && u < |s.slots| && t != u
    requires s.slots[t].phase != Retired && s.slots[u].phase != Retired
    ensures s.slots[t].held != s.slots[u].held
    ensures Disjoint(c.buffers) ==> var x, y := s.slots[t], s.slots[u];
              x.buffer + x.length <= y.buffer || y.buffer + y.length <= x.buffer
  {
    ReachableLogInv(c, d, s);
    assert SlotOk(c, s, t) && SlotOk(c, s, u);
    SlotWithin(c, s, t);
    SlotWithin(c, s, u);
  }

  /** in_flight stays between zero and the number of transfers, and no total exceeds the sum of the buffer sizes. */
  lemma CountersNeverWrap(c: Config, d: Device, s: State)
    requires Reachable(c, d, s)
    ensures 0 <= s.inFlight <= c.submissionSize
    ensures Total(s) <= Sum(Sizes(c.buffers))
    ensures forall t :: 0 <= t < |s.slots| ==> s.slots[t].prg.total <= Total(s)
  {
    ReachableLogInv(c, d, s);
    InFlightBounds(Phases(s.slots));
    SumNonNegative(Totals(s.slots));
    forall t | 0 <= t < |s.slots| ensures s.slots[t].prg.total <= Total(s) {
      assert Totals(s.slots)[t] == s.slots[t].prg.total;
    }
    var sizes := Sizes(c.buffers);
    forall k | 0 <= k < |s.claims| ensures Gots(s.claims)[k] <= sizes[..|s.claims|][k] {
      assert ClaimOk(c, s, k);
    }
    SumMonotone(Gots(s.claims), sizes[..|s.claims|]);
    SumPrefix(sizes, |s.claims|);
  }

  // ---- Affinity ----

  /**
   * One event claims at most the next buffer, for the completing transfer only, and only when nothing is left of
   * the buffer it held; all earlier claims keep their transfer.
   */
  lemma Affinity(c: Config, d: Device, s: State, e: Event)
    requires Reachable(c, d, s) && Enabled(c, d, s, e)
    ensures var s' := Step(c, s, e);
            && |s.claims| <= |s'.claims| <= |s.claims| + 1
            && (forall k :: 0 <= k < |s.claims| ==> s'.claims[k].owner == s.claims[k].owner)
            && (forall t :: 0 <= t < |s.slots| && s'.slots[t].held != s.slots[t].held ==>
                  && e.Complete? && e.t == t
                  && s'.slots[t].held == |s.claims| && |s'.claims| == |s.claims| + 1 && s'.claims[|s.claims|].owner == t
                  && s.slots[t].prg.total + e.actual >= c.buffers[s.slots[t].held].size)
  {
    ReachableLogInv(c, d, s);
    if e.Complete? {
      assert SlotOk(c, s, e.t);
    }
  }

  /** While no error is recorded, a claimed buffer is held by its own transfer or finished. */
  lemma Partition(c: Config, d: Device, s: State, k: nat)
    requires Reachable(c, d, s) && !s.ec.IsSet() && k < |s.claims|
    ensures s.claims[k].owner < |s.slots|
    ensures forall t :: 0 <= t < |s.slots| && s.slots[t].held == k ==> t == s.claims[k].owner
    ensures !Holding(s, k) ==>
              Received(s.log, k) + MovedBefore(s.log, s.claims[k].owner, k) >= c.buffers[k].size
  {
    ReachableLogInv(c, d, s);
    assert ClaimOk(c, s, k) && ClaimLogged(s, k);
    forall t | 0 <= t < |s.slots| && s.slots[t].held == k ensures t == s.claims[k].owner {
      assert SlotOk(c, s, t);
    }
  }

  // ---- Errors and cancellation ----

  lemma StepAfterError(c: Config, d: Device, s: State, e: Event)
    requires Shape(c, s) && s.ec.IsSet() && Enabled(c, d, s, e)
    ensures var s' := Step(c, s, e);
            && s'.ec.IsSet()
            && s'.inFlight == s.inFlight - (if e.Complete? then 1 else 0)
            && |s'.claims| == |s.claims| && Total(s') == Total(s)
            && s.log <= s'.log && NoResubmission(s'.log, |s.log|)
            && (!s'.refused ==> s'.ec == s.ec)
  {
    assert Totals(Step(c, s, e).slots) == Totals(s.slots);
  }

  /**
   * After a recorded error nothing is submitted again by a callback, no buffer is claimed, the total stays, and
   * every callback retires its transfer: at most in_flight more callbacks, the last of which resumes the operation.
   */
  lemma {:induction false} DrainsAfterError(c: Config, d: Device, s: State, evs: seq<Event>)
    requires Inv(c, s) && s.ec.IsSet() && Feasible(c, d, s, evs)
    ensures var s' := Run(c, d, s, evs);
            && s'.ec.IsSet()
            && s'.inFlight == s.inFlight - Callbacks(evs) && Callbacks(evs) <= s.inFlight
            && |s'.claims| == |s.claims| && Total(s') == Total(s)
            && s.log <= s'.log && NoResubmission(s'.log, |s.log|)
            && (!s'.refused ==> s'.ec == s.ec)
            && (s'.posted == 1 <==> Callbacks(evs) == s.inFlight)
    decreases evs
  {
    if evs == [] {
      InFlightBounds(Phases(s.slots));
    } else {
      var s1 := Step(c, s, evs[0]);
      StepInv(c, d, s, evs[0]);
      StepAfterError(c, d, s, evs[0]);
      DrainsAfterError(c, d, s1, evs[1..]);
      RefusedStays(c, d, s1, evs[1..]);
      JoinLogs(s.log, s1.log, Run(c, d, s1, evs[1..]).log);
    }
  }

  lemma {:induction false} RefusedStays(c: Config, d: Device, s: State, evs: seq<Event>)
    requires Shape(c, s) && Feasible(c, d, s, evs)
    ensures s.refused ==> Run(c, d, s, evs).refused
    ensures s.next == |s.slots| ==> Run(c, d, s, evs).refused == s.refused
    decreases evs
  {
    if evs == [] {
    } else {
      RefusedStays(c, d, Step(c, s, evs[0]), evs[1..]);
    }
  }

  /**
   * Whenever a transfer completes as cancelled, even before the submission loop has ended, at most in_flight - 1
   * callbacks follow, and the operation is resumed, once, exactly after that many. Unless a later submission is
   * refused, its error is the cancellation or the error that came before.
   */
  lemma CancellationResumes(c: Config, d: Device, s: State, t: nat, actual: nat, r: int, evs: seq<Event>)
    requires Reachable(c, d, s)
    requires Enabled(c, d, s, Complete(t, actual, LIBUSB_TRANSFER_CANCELLED, r))
    requires Feasible(c, d, Step(c, s, Complete(t, actual, LIBUSB_TRANSFER_CANCELLED, r)), evs)
    ensures var s' := Run(c, d, Step(c, s, Complete(t, actual, LIBUSB_TRANSFER_CANCELLED, r)), evs);
            && Callbacks(evs) <= s.inFlight - 1 && s'.ec.IsSet()
            && (s'.posted == 1 <==> Callbacks(evs) == s.inFlight - 1)
            && (!s'.refused && s.ec.IsSet() ==> s'.ec == s.ec)
            && (!s'.refused && !s.ec.IsSet() ==> s'.ec.value == 3 && s'.ec.category == TransferStatusCategory)
            && (s'.posted == 1 ==> !s'.refused)
  {
    var e := Complete(t, actual, LIBUSB_TRANSFER_CANCELLED, r);
    ReachableLogInv(c, d, s);
    StepLogInv(c, d, s, e);
    var s1 := Step(c, s, e);
    assert s1.inFlight == s.inFlight - 1 && s1.ec.IsSet();
    DrainsAfterError(c, d, s1, evs);
    RefusedStays(c, d, s1, evs);
    RunLogInv(c, d, s1, evs);
    var s' := Run(c, d, s1, evs);
    PostedOnce(Phases(s'.slots), s'.next, s'.inFlight, s'.posted, s'.refused);
  }

  /** A run in which a cancelled transfer is pending and the cancellations are honoured ends in an error. */
  lemma {:induction false} HonouredErrs(c: Config, d: Device, s: State, cancelled: set<nat>, t: nat, evs: seq<Event>)
    requires Inv(c, s) && t in cancelled && t < |s.slots| && s.slots[t].phase == Pending
    requires Feasible(c, d, s, evs) && Honoured(cancelled, evs) && Run(c, d, s, evs).posted == 1
    ensures Run(c, d, s, evs).ec.IsSet()
    decreases evs
  {
    if evs == [] {
      assert Phases(s.slots)[t] == Pending;
      PostedOnce(Phases(s.slots), s.next, s.inFlight, s.posted, s.refused);
    } else {
      var e := evs[0];
      StepInv(c, d, s, e);
      if e.Complete? && e.t == t {
        DrainsAfterError(c, d, Step(c, s, e), evs[1..]);
      } else {
        HonouredErrs(c, d, Step(c, s, e), if e.Complete? then cancelled - {e.t} else cancelled, t, evs[1..]);
      }
    }
  }

  /** Whatever happens after a stop that cancels the pending transfers, a resumption comes with an error. */
  ghost predicate StopEffective(c: Config, d: Device, s: State)
    requires Shape(c, s)
  {
    forall evs ::
      Feasible(c, d, s, evs) && Honoured(PendingSet(Phases(s.slots)), evs) && Run(c, d, s, evs).posted == 1 ==>
        Run(c, d, s, evs).ec.IsSet()
  }

  /**
   * A stop is effective if and only if a transfer is pending when it fires, or an error was recorded before: one that
   * comes before the first submission is accepted is lost.
   */
  lemma StopEffectiveExactlyWhen(c: Config, d: Device, s: State)
    requires Reachable(c, d, s)
    ensures StopEffective(c, d, s) <==> s.ec.IsSet() || PendingSet(Phases(s.slots)) != {}
  {
    ReachableLogInv(c, d, s);
    var pending := PendingSet(Phases(s.slots));
    if s.ec.IsSet() {
      forall evs | Feasible(c, d, s, evs) ensures Run(c, d, s, evs).ec.IsSet() {
        DrainsAfterError(c, d, s, evs);
      }
    } else if pending == {} {
      var start := AcceptAll(c, d, s);
      var finish := Finish(c, d, Run(c, d, s, start));
      RunConcat(c, d, s, start, finish);
      NothingToHonour(start + finish);
    } else {
      var t :| t in pending;
      forall evs | Feasible(c, d, s, evs) && Honoured(pending, evs) && Run(c, d, s, evs).posted == 1
        ensures Run(c, d, s, evs).ec.IsSet()
      {
        HonouredErrs(c, d, s, pending, t, evs);
      }
    }
  }
}
