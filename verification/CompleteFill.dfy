/**
 * "Reading less is always coupled with an error": exactly for which operations an error-free resumption means
 * that every buffer was filled. The code keeps a transfer's total when the transfer takes a new buffer, so the
 * promise fails as soon as a transfer that has moved bytes serves a buffer that one completion need not fill.
 */
module CompleteFill {
  import opened Usb
  import opened Flight
  import opened CompleteEngine
  import opened CompleteLog
  import opened CompleteTermination

  ghost predicate ErrorFree(s: State) {
    s.posted == 1 && !s.ec.IsSet()
  }

  ghost predicate Filled(c: Config, s: State) {
    forall k :: 0 <= k < |c.buffers| ==> Received(s.log, k) == c.buffers[k].size
  }

  /** A successful completion of the first submission to a buffer of this size cannot be short of it. */
  predicate OneShot(d: Device, limit: nat, size: nat) {
    match d
    case AnyLength => size == 0
    case Progressing => size <= 1
    case FullLength => size <= limit
  }

  /** Every buffer beyond the number of transfers is one-shot, unless all the buffers before it are empty. */
  ghost predicate ReuseHarmless(c: Config, d: Device) {
    forall j, k :: 0 <= j < k < |c.buffers| && c.submissionSize <= k && c.buffers[j].size > 0 ==>
      OneShot(d, c.limit, c.buffers[k].size)
  }

  /** The promise, over every run of the operation on such a device. */
  ghost predicate AlwaysFills(c: Config, d: Device)
    requires ValidConfig(c)
  {
    forall evs :: Feasible(c, d, Prepared(c), evs) && ErrorFree(Run(c, d, Prepared(c), evs)) ==>
      Filled(c, Run(c, d, Prepared(c), evs))
  }

  // ---- Harmless reuse fills ----

  ghost predicate OneShotOk(c: Config, d: Device, s: State, k: nat)
    requires Shape(c, s) && k < |s.claims|
  {
    s.claims[k].owner < |s.slots| && (OneShot(d, c.limit, c.buffers[k].size) ==>
      if Holding(s, k) then s.claims[k].got == 0 && s.slots[s.claims[k].owner].length == c.buffers[k].size
      else s.claims[k].got == c.buffers[k].size)
  }

  ghost predicate OneShotInv(c: Config, d: Device, s: State)
    requires Shape(c, s)
  {
    !s.ec.IsSet() ==> forall k :: 0 <= k < |s.claims| ==> OneShotOk(c, d, s, k)
  }

  lemma StepOneShot(c: Config, d: Device, s: State, e: Event, k: nat)
    requires Shape(c, s) && Enabled(c, d, s, e) && !s.ec.IsSet() && !Step(c, s, e).ec.IsSet()
    requires k < |Step(c, s, e).claims| && (k < |s.claims| ==> OneShotOk(c, d, s, k))
    requires e.Complete? ==> SlotOk(c, s, e.t)
    requires FreshSubmission(s, e)
    ensures OneShotOk(c, d, Step(c, s, e), k)
  {
  }

  lemma StepOneShotInv(c: Config, d: Device, s: State, e: Event)
    requires LogInv(c, s) && OneShotInv(c, d, s) && Enabled(c, d, s, e)
    ensures LogInv(c, Step(c, s, e)) && OneShotInv(c, d, Step(c, s, e))
  {
    StepLogInv(c, d, s, e);
    var s' := Step(c, s, e);
    if !s'.ec.IsSet() {
      forall k | 0 <= k < |s'.claims| ensures OneShotOk(c, d, s', k) {
        assert k < |s.claims| ==> OneShotOk(c, d, s, k);
        assert e.Complete? ==> SlotOk(c, s, e.t);
        StepOneShot(c, d, s, e, k);
      }
    }
  }

  lemma {:induction false} RunOneShot(c: Config, d: Device, s: State, evs: seq<Event>)
    requires LogInv(c, s) && OneShotInv(c, d, s) && Feasible(c, d, s, evs)
    ensures LogInv(c, Run(c, d, s, evs)) && OneShotInv(c, d, Run(c, d, s, evs))
    decreases evs
  {
    if evs == [] {
    } else {
      StepOneShotInv(c, d, s, evs[0]);
      RunOneShot(c, d, Step(c, s, evs[0]), evs[1..]);
    }
  }

  /** An error-free resumption has claimed every buffer, and no transfer holds one any more. */
  lemma AllServed(c: Config, s: State)
    requires Inv(c, s) && ErrorFree(s)
    ensures forall t :: 0 <= t < |s.slots| ==> s.slots[t].phase == Retired
    ensures |s.claims| == |c.buffers|
  {
    InFlightBounds(Phases(s.slots));
    assert Phases(s.slots)[0] == Retired;
  }

  lemma HarmlessFills(c: Config, d: Device, evs: seq<Event>)
    requires ValidConfig(c) && ReuseHarmless(c, d)
    requires Feasible(c, d, Prepared(c), evs) && ErrorFree(Run(c, d, Prepared(c), evs))
    ensures Filled(c, Run(c, d, Prepared(c), evs))
  {
    PreparedLogInv(c);
    RunOneShot(c, d, Prepared(c), evs);
    var s := Run(c, d, Prepared(c), evs);
    AllServed(c, s);
    forall k | 0 <= k < |c.buffers| ensures Received(s.log, k) == c.buffers[k].size {
      assert ClaimOk(c, s, k) && ClaimLogged(s, k) && OneShotOk(c, d, s, k);
      if s.claims[k].carried > 0 {
        var j :| 0 <= j < k && c.buffers[j].size > 0;
        assert OneShot(d, c.limit, c.buffers[k].size);
      }
    }
  }

  // ---- Harmful reuse: a run that resumes without an error and leaves a buffer short ----

  /** Buffer k can no longer be filled. */
  ghost predicate Doomed(c: Config, s: State, k: nat) {
    && k < |s.claims| && k < |c.buffers|
    && s.claims[k].owner < |s.slots|
    && s.claims[k].carried > 0
    && s.claims[k].got < c.buffers[k].size
    && (Holding(s, k) ==> s.claims[k].got + s.slots[s.claims[k].owner].length < c.buffers[k].size)
  }

  lemma StepDoomed(c: Config, d: Device, s: State, e: Event, k: nat)
    requires Shape(c, s) && Enabled(c, d, s, e) && Doomed(c, s, k)
    requires e.Complete? ==> SlotOk(c, s, e.t)
    requires FreshSubmission(s, e)
    ensures Doomed(c, Step(c, s, e), k)
  {
  }

  lemma {:induction false} RunDoomed(c: Config, d: Device, s: State, evs: seq<Event>, k: nat)
    requires LogInv(c, s) && Feasible(c, d, s, evs) && Doomed(c, s, k)
    ensures LogInv(c, Run(c, d, s, evs)) && Doomed(c, Run(c, d, s, evs), k)
    decreases evs
  {
    if evs == [] {
    } else {
      StepLogInv(c, d, s, evs[0]);
      assert evs[0].Complete? ==> SlotOk(c, s, evs[0].t);
      StepDoomed(c, d, s, evs[0], k);
      RunDoomed(c, d, Step(c, s, evs[0]), evs[1..], k);
    }
  }

  /** Transfer t has already moved bytes, or is still to serve the non-empty buffer j. */
  ghost predicate WillCarry(s: State, t: nat, j: nat)
    requires t < |s.slots|
  {
    s.slots[t].prg.total > 0 || s.slots[t].held == j || (s.slots[t].held < j && |s.claims| <= j)
  }

  /** Transfer t has just taken buffer k, having moved bytes before. */
  ghost predicate JustTook(c: Config, s: State, t: nat, k: nat) {
    && Running(c, s) && !s.ec.IsSet() && t < |s.slots| && k < |c.buffers|
    && s.slots[t].phase == Pending && s.slots[t].held == k && |s.claims| == k + 1
    && s.claims[k] == Claim(t, s.slots[t].prg.total, 0) && s.claims[k].carried > 0
    && s.slots[t].length == Min(c.buffers[k].size, c.limit)
  }

  /** Completing only transfer t, and always in full, brings it to buffer k. */
  lemma {:induction false} DriveTo(c: Config, d: Device, s: State, t: nat, j: nat, k: nat) returns (evs: seq<Event>)
    requires Running(c, s) && !s.ec.IsSet() && t < |s.slots| && s.slots[t].phase == Pending
    requires j < k < |c.buffers| && |s.claims| <= k && c.buffers[j].size > 0 && WillCarry(s, t, j)
    ensures Feasible(c, d, s, evs) && JustTook(c, Run(c, d, s, evs), t, k)
    decreases Weight(c, s)
  {
    FullStep(c, d, s, t);
    assert SlotOk(c, s, t);
    var e := FullCompletion(s, t);
    var s' := Step(c, s, e);
    var rest := [];
    if |s'.claims| <= k {
      rest := DriveTo(c, d, s', t, j, k);
    }
    evs := [e] + rest;
    RunCons(c, d, s, e, rest);
  }

  /** A first completion of k that is short on a device that may be short; none is needed if k exceeds the limit. */
  lemma Shorten(c: Config, d: Device, s: State, t: nat, k: nat) returns (evs: seq<Event>)
    requires JustTook(c, s, t, k) && !OneShot(d, c.limit, c.buffers[k].size)
    ensures Feasible(c, d, s, evs)
    ensures var s' := Run(c, d, s, evs); Running(c, s') && !s'.ec.IsSet() && Doomed(c, s', k)
  {
    if c.buffers[k].size > c.limit {
      evs := [];
    } else {
      var e := Complete(t, c.buffers[k].size - 1, LIBUSB_TRANSFER_COMPLETED, LIBUSB_SUCCESS);
      evs := [e] + [];
      StepInv(c, d, s, e);
      assert SlotOk(c, s, t);
      assert !Holding(Step(c, s, e), k);
      RunCons(c, d, s, e, []);
    }
  }

  lemma HarmfulRun(c: Config, d: Device, j: nat, k: nat) returns (evs: seq<Event>)
    requires ValidConfig(c) && j < k < |c.buffers| && c.submissionSize <= k
    requires c.buffers[j].size > 0 && !OneShot(d, c.limit, c.buffers[k].size)
    ensures Feasible(c, d, Prepared(c), evs)
    ensures var s := Run(c, d, Prepared(c), evs); ErrorFree(s) && Received(s.log, k) < c.buffers[k].size
  {
    var s0 := Prepared(c);
    PreparedLogInv(c);
    var start := AcceptAll(c, d, s0);
    var s1 := Run(c, d, s0, start);
    var t := if j < c.submissionSize then j else 0;
    assert s1.slots[t] == s0.slots[t].(phase := Pending);
    var drive := DriveTo(c, d, s1, t, j, k);
    var s2 := Run(c, d, s1, drive);
    RunConcat(c, d, s0, start, drive);
    var short := Shorten(c, d, s2, t, k);
    var s3 := Run(c, d, s2, short);
    RunConcat(c, d, s0, start + drive, short);
    var finish := Finish(c, d, s3);
    evs := start + drive + short + finish;
    RunConcat(c, d, s0, start + drive + short, finish);
    RunLogInv(c, d, s0, start + drive + short);
    RunDoomed(c, d, s3, finish, k);
    assert ClaimLogged(Run(c, d, s0, evs), k);
  }

  /**
   * For every operation, limit and device: all error-free resumptions have filled every buffer, if and only if
   * no buffer beyond the number of transfers, with a non-empty one before it, can be left short by one completion.
   */
  lemma FillsExactlyWhen(c: Config, d: Device)
    requires ValidConfig(c)
    ensures AlwaysFills(c, d) <==> ReuseHarmless(c, d)
  {
    if ReuseHarmless(c, d) {
      forall evs | Feasible(c, d, Prepared(c), evs) && ErrorFree(Run(c, d, Prepared(c), evs))
        ensures Filled(c, Run(c, d, Prepared(c), evs))
      {
        HarmlessFills(c, d, evs);
      }
    } else {
      var j, k :| 0 <= j < k < |c.buffers| && c.submissionSize <= k && c.buffers[j].size > 0
        && !OneShot(d, c.limit, c.buffers[k].size);
      var evs := HarmfulRun(c, d, j, k);
      assert !Filled(c, Run(c, d, Prepared(c), evs));
    }
  }

  /** The operation that complete_submit runs: one transfer per buffer, as far as there are transfers. */
  function Operation(buffers: seq<Buffer>, transfers: nat, limit: nat): Config {
    Config(buffers, Min(|buffers|, transfers), limit)
  }

  /** It uses no more transfers than there are buffers or transfers, and as many as that allows. */
  lemma TransfersUsed(buffers: seq<Buffer>, transfers: nat, limit: nat)
    ensures var c := Operation(buffers, transfers, limit);
            && c.buffers == buffers && c.limit == limit
            && AsMuchAsAllowed(c.submissionSize, |buffers|, transfers)
  {
  }

  /** The promise holds with a transfer for every buffer, and for small buffers on a device that never falls short. */
  lemma FillsWhenNotReused(buffers: seq<Buffer>, transfers: nat, limit: nat, d: Device)
    requires ValidConfig(Operation(buffers, transfers, limit))
    requires |buffers| <= transfers
      || (d == FullLength && forall k :: 0 <= k < |buffers| ==> buffers[k].size <= limit)
    ensures AlwaysFills(Operation(buffers, transfers, limit), d)
  {
    FillsExactlyWhen(Operation(buffers, transfers, limit), d);
  }
}
