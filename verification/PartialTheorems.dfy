/** What every run of the partial engine keeps and reports. */
module PartialTheorems {
  import opened Usb
  import opened Sums
  import opened Flight
  import opened PartialEngine

  ghost predicate Reachable(c: Config, d: Device, s: State): (b: bool)
    ensures b ==> Shape(c, s)
  {
    ValidOperation(c) && exists evs :: Feasible(c, d, Prepared(c), evs) && s == Run(c, d, Prepared(c), evs)
  }

  ghost predicate ErrorFree(s: State) {
    s.posted == 1 && !s.ec.IsSet()
  }

  lemma ReachableInv(c: Config, d: Device, s: State)
    requires Reachable(c, d, s)
    ensures Inv(c, s)
  {
    var evs :| Feasible(c, d, Prepared(c), evs) && s == Run(c, d, Prepared(c), evs);
    PreparedInv(c);
    RunInv(c, d, Prepared(c), evs);
  }

  lemma PreparedReachable(c: Config, d: Device)
    requires ValidOperation(c)
    ensures Reachable(c, d, Prepared(c))
  {
    assert Feasible(c, d, Prepared(c), []) && Run(c, d, Prepared(c), []) == Prepared(c);
  }

  lemma PendingCounts(c: Config, d: Device, s: State, t: nat)
    requires Reachable(c, d, s) && t < |s.slots| && s.slots[t].phase == Pending
    ensures s.inFlight >= 1
  {
    ReachableInv(c, d, s);
    InFlightBounds(Phases(s.slots));
    assert Phases(s.slots)[t] == Pending;
  }

  lemma StepReachable(c: Config, d: Device, s: State, e: Event)
    requires Reachable(c, d, s) && Enabled(c, d, s, e)
    ensures Reachable(c, d, Step(c, s, e))
    ensures e.Complete? ==> s.inFlight >= 1
  {
    if e.Complete? {
      PendingCounts(c, d, s, e.t);
    }
    var evs :| Feasible(c, d, Prepared(c), evs) && s == Run(c, d, Prepared(c), evs);
    RunCons(c, d, s, e, []);
    RunConcat(c, d, Prepared(c), evs, [e] + []);
  }

  /**
   * In every reachable state in_flight is the number of pending transfers plus those not yet accepted, so the
   * continuation is posted at most once, and has been posted exactly when every initial submission was accepted
   * and nothing is pending.
   */
  lemma ExactlyOnceResumption(c: Config, d: Device, s: State)
    requires Reachable(c, d, s)
    ensures s.inFlight == |PendingSet(Phases(s.slots))| + (|s.slots| - s.next)
    ensures s.posted <= 1
    ensures s.posted == 1 <==> s.next == |s.slots| && forall t :: 0 <= t < |s.slots| ==> s.slots[t].phase != Pending
  {
    ReachableInv(c, d, s);
    PostedOnce(Phases(s.slots), s.next, s.inFlight, s.posted, s.refused);
    assert forall t :: 0 <= t < |s.slots| ==> Phases(s.slots)[t] == s.slots[t].phase;
  }

  lemma {:induction false} RefusedForever(c: Config, d: Device, s: State, evs: seq<Event>)
    requires Inv(c, s) && s.refused && Feasible(c, d, s, evs)
    ensures Run(c, d, s, evs).posted == 0 && Run(c, d, s, evs).refused
    decreases evs
  {
    if evs == [] {
      PostedOnce(Phases(s.slots), s.next, s.inFlight, s.posted, s.refused);
    } else {
      StepInv(c, d, s, evs[0]);
      RefusedForever(c, d, Step(c, s, evs[0]), evs[1..]);
    }
  }

  /** The operation can still be resumed, by some further events, exactly when no initial submission was refused. */
  lemma ResumableExactlyWhen(c: Config, d: Device, s: State)
    requires Reachable(c, d, s)
    ensures (exists more :: Feasible(c, d, s, more) && Run(c, d, s, more).posted == 1) <==> !s.refused
  {
    ReachableInv(c, d, s);
    if s.refused {
      forall more | Feasible(c, d, s, more) ensures Run(c, d, s, more).posted == 0 {
        RefusedForever(c, d, s, more);
      }
    } else {
      var start := AcceptAll(c, d, s);
      var finish := Finish(c, d, Run(c, d, s, start));
      RunConcat(c, d, s, start, finish);
    }
  }

  // ---- Every operation whose initial submissions were accepted can finish without an error ----

  lemma {:induction false} RunConcat(c: Config, d: Device, s: State, xs: seq<Event>, ys: seq<Event>)
    requires Shape(c, s) && Feasible(c, d, s, xs) && Feasible(c, d, Run(c, d, s, xs), ys)
    ensures Feasible(c, d, s, xs + ys) && Run(c, d, s, xs + ys) == Run(c, d, Run(c, d, s, xs), ys)
    decreases xs
  {
    if xs == [] {
      assert xs + ys == ys;
    } else {
      assert (xs + ys)[1..] == xs[1..] + ys;
      RunConcat(c, d, Step(c, s, xs[0]), xs[1..], ys);
    }
  }

  lemma RunCons(c: Config, d: Device, s: State, e: Event, rest: seq<Event>)
    requires Shape(c, s) && Enabled(c, d, s, e) && Feasible(c, d, Step(c, s, e), rest)
    ensures Feasible(c, d, s, [e] + rest) && Run(c, d, s, [e] + rest) == Run(c, d, Step(c, s, e), rest)
  {
    assert ([e] + rest)[0] == e && ([e] + rest)[1..] == rest;
  }

  /** All initial submissions were accepted. */
  ghost predicate Running(c: Config, s: State) {
    Inv(c, s) && s.next == |s.slots|
  }

  /** The event that completes transfer t in full and resubmits it without an error. */
  function FullCompletion(s: State, t: nat): Event
    requires t < |s.slots|
  {
    var length := s.slots[t].length;
    Complete(t, if length < 0 then 0 else length, LIBUSB_TRANSFER_COMPLETED, LIBUSB_SUCCESS)
  }

  /** From any state of a running operation some completions resume it, adding no error. */
  lemma {:induction false} Finish(c: Config, d: Device, s: State) returns (evs: seq<Event>)
    requires Running(c, s)
    ensures Feasible(c, d, s, evs)
    ensures Run(c, d, s, evs).posted == 1 && Run(c, d, s, evs).ec == s.ec
    decreases |c.buffers| - |s.owners| + InFlight(Phases(s.slots))
  {
    if s.inFlight == 0 {
      evs := [];
    } else {
      InFlightBounds(Phases(s.slots));
      var t :| 0 <= t < |s.slots| && s.slots[t].phase != Retired;
      var e := FullCompletion(s, t);
      StepInv(c, d, s, e);
      var rest := Finish(c, d, Step(c, s, e));
      evs := [e] + rest;
      RunCons(c, d, s, e, rest);
    }
  }

  lemma {:induction false} AcceptAll(c: Config, d: Device, s: State) returns (evs: seq<Event>)
    requires Inv(c, s) && !s.refused
    ensures Feasible(c, d, s, evs) && Running(c, Run(c, d, s, evs)) && Run(c, d, s, evs).ec == s.ec
    decreases |s.slots| - s.next
  {
    if s.next == |s.slots| {
      evs := [];
    } else {
      StepInv(c, d, s, Accept);
      var rest := AcceptAll(c, d, Step(c, s, Accept));
      evs := [Accept] + rest;
      RunCons(c, d, s, Accept, rest);
    }
  }

  // ---- Results ----

  lemma StepLogs(c: Config, d: Device, s: State, e: Event)
    requires Shape(c, s) && Enabled(c, d, s, e)
    ensures Logged(Step(c, s, e).log) == Logged(s.log) + Noted(e)
  {
  }

  lemma {:induction false} RunLogs(c: Config, d: Device, s: State, evs: seq<Event>)
    requires Shape(c, s) && Feasible(c, d, s, evs)
    ensures Logged(Run(c, d, s, evs).log) == Logged(s.log) + Happened(evs)
    decreases evs
  {
    if evs == [] {
    } else {
      var s1 := Step(c, s, evs[0]);
      RunLogs(c, d, s1, evs[1..]);
      StepLogs(c, d, s, evs[0]);
      JoinObserved(Logged(s.log), Noted(evs[0]), Happened(evs[1..]));
    }
  }

  /** The log is the history: every completion and refusal, in order. */
  lemma LogIsHistory(c: Config, d: Device, evs: seq<Event>)
    requires ValidOperation(c) && Feasible(c, d, Prepared(c), evs)
    ensures Logged(Run(c, d, Prepared(c), evs).log) == Happened(evs)
  {
    RunLogs(c, d, Prepared(c), evs);
  }

  /** A resumed operation reports the first error of its log, or none, and the bytes up to and including it. */
  lemma ReportedResult(c: Config, d: Device, s: State)
    requires Reachable(c, d, s) && s.posted == 1
    ensures Outcome(s.log, s.ec)
    ensures s.total == CountedBytes(s.log)
    ensures forall i :: 0 <= i < |s.log| ==> s.log[i].Done?
  {
    ReachableInv(c, d, s);
    PostedOnce(Phases(s.slots), s.next, s.inFlight, s.posted, s.refused);
  }

  /** A transfer's range is a prefix of its buffer, and the whole of it if and only if the size fits in an int. */
  lemma SubmissionWithin(c: Config, d: Device, s: State, t: nat)
    requires Reachable(c, d, s) && t < |s.slots|
    ensures var slot := s.slots[t];
            && slot.held < |s.owners| <= |c.buffers|
            && var b := c.buffers[slot.held];
               && slot.buffer == b.data && slot.length <= b.size
               && -0x8000_0000 <= slot.length < 0x8000_0000 && (b.size - slot.length) % 0x1_0000_0000 == 0
               && (slot.length == b.size <==> b.size < 0x8000_0000)
  {
    ReachableInv(c, d, s);
    assert SlotOk(c, s, t);
    NarrowingIsModular(c.buffers[s.slots[t].held].size);
  }

  /** No two transfers hold the same buffer or, in disjoint buffers, share a byte. */
  lemma SubmissionsDisjoint(c: Config, d: Device, s: State, t: nat, u: nat)
    requires Reachable(c, d, s) && t < |s.slots| && u < |s.slots| && t != u
    ensures s.slots[t].held != s.slots[u].held
    ensures Disjoint(c.buffers) ==> var x, y := s.slots[t], s.slots[u];
              x.buffer + x.length <= y.buffer || y.buffer + y.length <= x.buffer
  {
    SubmissionWithin(c, d, s, t);
    SubmissionWithin(c, d, s, u);
    ReachableInv(c, d, s);
    assert SlotOk(c, s, t) && SlotOk(c, s, u);
  }

  /** Each record's bytes start where its buffer starts, and stay inside it. */
  ghost predicate Placed(c: Config, log: seq<Record>) {
    forall i :: 0 <= i < |log| && log[i].Done? ==>
      && log[i].buf < |c.buffers|
      && log[i].addr == c.buffers[log[i].buf].data && log[i].actual <= c.buffers[log[i].buf].size
  }

  lemma StepPlaced(c: Config, d: Device, s: State, e: Event)
    requires Shape(c, s) && Placed(c, s.log) && Enabled(c, d, s, e) && (e.Complete? ==> SlotOk(c, s, e.t))
    ensures Placed(c, Step(c, s, e).log)
  {
    if e.Complete? {
      NarrowingIsModular(c.buffers[s.slots[e.t].held].size);
    }
  }

  lemma {:induction false} RunPlaced(c: Config, d: Device, s: State, evs: seq<Event>)
    requires Inv(c, s) && Placed(c, s.log) && Feasible(c, d, s, evs)
    ensures Placed(c, Run(c, d, s, evs).log)
    decreases evs
  {
    if evs == [] {
    } else {
      StepInv(c, d, s, evs[0]);
      assert evs[0].Complete? ==> SlotOk(c, s, evs[0].t);
      StepPlaced(c, d, s, evs[0]);
      RunPlaced(c, d, Step(c, s, evs[0]), evs[1..]);
    }
  }

  /** In every reachable state all bytes went to the start of their buffer, at most its size, and at most once. */
  lemma BytesInPlace(c: Config, d: Device, s: State)
    requires Reachable(c, d, s)
    ensures Placed(c, s.log) && forall k :: 0 <= k < |s.owners| ==> TimesCompleted(s.log, k) <= 1
  {
    var evs :| Feasible(c, d, Prepared(c), evs) && s == Run(c, d, Prepared(c), evs);
    PreparedInv(c);
    RunPlaced(c, d, Prepared(c), evs);
    ReachableInv(c, d, s);
    forall k | 0 <= k < |s.owners| ensures TimesCompleted(s.log, k) <= 1 {
      assert OwnerOk(c, s, k);
    }
  }

  // ---- Bounds ----

  /** Unclaimed buffers plus transfers in flight. */
  ghost function Measure(c: Config, s: State): int {
    |c.buffers| - |s.owners| + s.inFlight
  }

  lemma {:induction false} RunMeasure(c: Config, d: Device, s: State, evs: seq<Event>)
    requires Inv(c, s) && Feasible(c, d, s, evs)
    ensures Callbacks(evs) <= Measure(c, s) - Measure(c, Run(c, d, s, evs))
    ensures Measure(c, Run(c, d, s, evs)) >= 0
    ensures !Run(c, d, s, evs).ec.IsSet() ==> |Run(c, d, s, evs).log| == |s.log| + Callbacks(evs)
    decreases evs
  {
    if evs == [] {
      InFlightBounds(Phases(s.slots));
    } else {
      StepInv(c, d, s, evs[0]);
      StepMeasure(c, d, s, evs[0]);
      RunMeasure(c, d, Step(c, s, evs[0]), evs[1..]);
      if Step(c, s, evs[0]).ec.IsSet() {
        DrainsAfterError(c, d, Step(c, s, evs[0]), evs[1..]);
      }
    }
  }

  lemma StepMeasure(c: Config, d: Device, s: State, e: Event)
    requires Shape(c, s) && Enabled(c, d, s, e)
    ensures Measure(c, Step(c, s, e)) <= Measure(c, s) - (if e.Complete? then 1 else 0)
    ensures |Step(c, s, e).log| == |s.log| + (if e.Accept? then 0 else 1)
    ensures e.Refuse? ==> Step(c, s, e).ec.IsSet()
  {
  }

  /** Whatever the device does, an operation runs at most one callback per buffer. */
  lemma CallbackBound(c: Config, d: Device, evs: seq<Event>)
    requires ValidOperation(c) && Feasible(c, d, Prepared(c), evs)
    ensures Callbacks(evs) <= |c.buffers|
  {
    PreparedInv(c);
    RunMeasure(c, d, Prepared(c), evs);
  }

  // ---- Coverage ----

  ghost function SizesFrom(c: Config, k: nat): nat
    requires k <= |c.buffers|
    decreases |c.buffers| - k
  {
    if k == |c.buffers| then 0 else c.buffers[k].size + SizesFrom(c, k + 1)
  }

  /** The sizes of the buffers that transfers still hold. */
  ghost function HeldSizes(c: Config, slots: seq<Slot>): (a: seq<int>)
    requires forall t :: 0 <= t < |slots| ==> slots[t].held < |c.buffers|
    ensures |a| == |slots|
    ensures forall t :: 0 <= t < |a| ==> a[t] == if slots[t].phase == Retired then 0 else c.buffers[slots[t].held].size
  {
    seq(|slots|, t requires 0 <= t < |slots| => if slots[t].phase == Retired then 0 else c.buffers[slots[t].held].size)
  }

  ghost predicate RoomLeft(c: Config, s: State) {
    && Shape(c, s) && (forall t :: 0 <= t < |s.slots| ==> s.slots[t].held < |c.buffers|)
    && s.total + Sum(HeldSizes(c, s.slots)) + SizesFrom(c, |s.owners|) <= SizesFrom(c, 0)
  }

  lemma HeldUpdate(c: Config, slots: seq<Slot>, t: nat, slot: Slot)
    requires forall u :: 0 <= u < |slots| ==> slots[u].held < |c.buffers|
    requires t < |slots| && slot.held < |c.buffers|
    ensures var slots' := slots[t := slot]; forall u :: 0 <= u < |slots'| ==> slots'[u].held < |c.buffers|
    ensures Sum(HeldSizes(c, slots[t := slot])) == Sum(HeldSizes(c, slots))
              - (if slots[t].phase == Retired then 0 else c.buffers[slots[t].held].size)
              + (if slot.phase == Retired then 0 else c.buffers[slot.held].size)
  {
    var v := if slot.phase == Retired then 0 else c.buffers[slot.held].size;
    SumUpdate(HeldSizes(c, slots), t, v);
    assert HeldSizes(c, slots[t := slot]) == HeldSizes(c, slots)[t := v];
  }

  lemma CallbackRoom(c: Config, d: Device, s: State, t: nat, actual: nat, status: int, r: int)
    requires RoomLeft(c, s) && Enabled(c, d, s, Complete(t, actual, status, r)) && SlotOk(c, s, t)
    ensures RoomLeft(c, Step(c, s, Complete(t, actual, status, r)))
  {
    NarrowingIsModular(c.buffers[s.slots[t].held].size);
    assert actual <= c.buffers[s.slots[t].held].size;
    var reply := React(c, s, t, actual, status, r);
    HeldUpdate(c, s.slots, t, reply.slot);
    assert reply.total <= s.total + actual;
    assert SizesFrom(c, |reply.owners|) + (if reply.slot.phase == Retired then 0 else c.buffers[reply.slot.held].size)
           <= SizesFrom(c, |s.owners|);
  }

  lemma StepRoom(c: Config, d: Device, s: State, e: Event)
    requires RoomLeft(c, s) && Enabled(c, d, s, e)
    requires if e.Complete? then SlotOk(c, s, e.t) else s.next < |s.slots| && s.slots[s.next].phase == Ready
    ensures RoomLeft(c, Step(c, s, e))
  {
    match e {
      case Accept =>
        HeldUpdate(c, s.slots, s.next, s.slots[s.next].(phase := Pending));
      case Refuse(r) =>
      case Complete(t, actual, status, r) =>
        CallbackRoom(c, d, s, t, actual, status, r);
    }
  }

  lemma {:induction false} RunRoom(c: Config, d: Device, s: State, evs: seq<Event>)
    requires Inv(c, s) && RoomLeft(c, s) && Feasible(c, d, s, evs)
    ensures RoomLeft(c, Run(c, d, s, evs))
    decreases evs
  {
    if evs == [] {
    } else {
      StepInv(c, d, s, evs[0]);
      assert evs[0].Complete? ==> SlotOk(c, s, evs[0].t);
      StepRoom(c, d, s, evs[0]);
      RunRoom(c, d, Step(c, s, evs[0]), evs[1..]);
    }
  }

  lemma {:induction false} PreparedRoom(c: Config, m: nat)
    requires ValidOperation(c) && m <= c.submissionSize
    ensures Sum(HeldSizes(c, Prepared(c).slots)[..m]) + SizesFrom(c, m) == SizesFrom(c, 0)
  {
    if m == 0 {
    } else {
      PreparedRoom(c, m - 1);
      var a := HeldSizes(c, Prepared(c).slots);
      assert a[..m] == a[..m - 1] + [a[m - 1]];
      SumAppend(a[..m - 1], a[m - 1]);
    }
  }

  lemma {:induction false} SizesFromSum(c: Config, k: nat)
    requires k <= |c.buffers|
    ensures SizesFrom(c, 0) == Sum(Sizes(c.buffers)[..k]) + SizesFrom(c, k)
  {
    if k == 0 {
    } else {
      SizesFromSum(c, k - 1);
      var a := Sizes(c.buffers);
      assert a[..k] == a[..k - 1] + [a[k - 1]];
      SumAppend(a[..k - 1], a[k - 1]);
    }
  }

  /** In every run the total is at most the sum of the buffer sizes. */
  lemma TotalWithinSizes(c: Config, d: Device, s: State)
    requires Reachable(c, d, s)
    ensures s.total <= Sum(Sizes(c.buffers))
  {
    SizesFromSum(c, |c.buffers|);
    assert Sizes(c.buffers)[..|c.buffers|] == Sizes(c.buffers);
    var evs :| Feasible(c, d, Prepared(c), evs) && s == Run(c, d, Prepared(c), evs);
    PreparedInv(c);
    PreparedRoom(c, c.submissionSize);
    var a := HeldSizes(c, Prepared(c).slots);
    assert a[..|a|] == a;
    RunRoom(c, d, Prepared(c), evs);
    SumNonNegative(HeldSizes(c, s.slots));
  }

  /** After an error-free resumption every buffer was completed exactly once, in exactly one callback each. */
  lemma Coverage(c: Config, d: Device, evs: seq<Event>)
    requires ValidOperation(c) && Feasible(c, d, Prepared(c), evs) && ErrorFree(Run(c, d, Prepared(c), evs))
    ensures var s := Run(c, d, Prepared(c), evs);
            && (forall k :: 0 <= k < |c.buffers| ==> TimesCompleted(s.log, k) == 1)
            && Callbacks(evs) == |s.log| == |c.buffers|
  {
    var s := Run(c, d, Prepared(c), evs);
    PreparedInv(c);
    RunInv(c, d, Prepared(c), evs);
    RunMeasure(c, d, Prepared(c), evs);
    PostedOnce(Phases(s.slots), s.next, s.inFlight, s.posted, s.refused);
    assert Phases(s.slots)[0] == Retired;
    forall k | 0 <= k < |c.buffers| ensures TimesCompleted(s.log, k) == 1 {
      assert OwnerOk(c, s, k);
    }
  }

  // ---- Errors ----

  /**
   * After a recorded error no callback submits again: at most in_flight more run, the total stays, and the
   * continuation is posted by the last of them. Only a refused initial submission replaces the error.
   */
  lemma {:induction false} DrainsAfterError(c: Config, d: Device, s: State, evs: seq<Event>)
    requires Inv(c, s) && s.ec.IsSet() && Feasible(c, d, s, evs)
    ensures var s' := Run(c, d, s, evs);
            && s'.ec.IsSet() && s'.total == s.total && s'.owners == s.owners
            && s'.inFlight == s.inFlight - Callbacks(evs) && Callbacks(evs) <= s.inFlight
            && s.log <= s'.log && NoResubmission(s'.log, |s.log|)
            && (!s'.refused ==> s'.ec == s.ec && !s.refused)
            && (s'.posted == 1 <==> Callbacks(evs) == s.inFlight)
    decreases evs
  {
    if evs == [] {
      InFlightBounds(Phases(s.slots));
    } else {
      var s1 := Step(c, s, evs[0]);
      StepInv(c, d, s, evs[0]);
      DrainsAfterError(c, d, s1, evs[1..]);
      JoinLogs(s.log, s1.log, Run(c, d, s1, evs[1..]).log);
    }
  }

  /**
   * Whenever a transfer completes as cancelled, even before the submission loop has ended, at most in_flight - 1
   * callbacks follow, and the operation is resumed, once, exactly after that many. Unless a later submission is
   * refused, its error is the cancellation or the error that came before.
   */
  lemma CancellationResumes(c: Config, d: Device, s: State, t: nat, actual: nat, r: int, evs: seq<Event>)
    requires Reachable(c, d, s)
    requires Enabled(c, d, s, Complete(t, actual, LIBUSB_TRANSFER_CANCELLED, r))
    requires Feasible(c, d, Step(c, s, Complete(t, actual, LIBUSB_TRANSFER_CANCELLED, r)), evs)
    ensures var s' := Run(c, d, Step(c, s, Complete(t, actual, LIBUSB_TRANSFER_CANCELLED, r)), evs);
            && Callbacks(evs) <= s.inFlight - 1 && s'.ec.IsSet()
            && (s'.posted == 1 <==> Callbacks(evs) == s.inFlight - 1)
            && (!s'.refused && s.ec.IsSet() ==> s'.ec == s.ec)
            && (!s'.refused && !s.ec.IsSet() ==> s'.ec.value == 3 && s'.ec.category == TransferStatusCategory)
            && (s'.posted == 1 ==> !s'.refused)
  {
    var e := Complete(t, actual, LIBUSB_TRANSFER_CANCELLED, r);
    ReachableInv(c, d, s);
    StepInv(c, d, s, e);
    var s1 := Step(c, s, e);
    assert s1.inFlight == s.inFlight - 1 && s1.ec.IsSet();
    DrainsAfterError(c, d, s1, evs);
    RunInv(c, d, s1, evs);
    var s' := Run(c, d, s1, evs);
    PostedOnce(Phases(s'.slots), s'.next, s'.inFlight, s'.posted, s'.refused);
  }

  /** A run in which a cancelled transfer is pending and the cancellations are honoured ends in an error. */
  lemma {:induction false} HonouredErrs(c: Config, d: Device, s: State, cancelled: set<nat>, t: nat, evs: seq<Event>)
    requires Inv(c, s) && t in cancelled && t < |s.slots| && s.slots[t].phase == Pending
    requires Feasible(c, d, s, evs) && Honoured(cancelled, evs) && Run(c, d, s, evs).posted == 1
    ensures Run(c, d, s, evs).ec.IsSet()
    decreases evs
  {
    if evs == [] {
      assert Phases(s.slots)[t] == Pending;
      PostedOnce(Phases(s.slots), s.next, s.inFlight, s.posted, s.refused);
    } else {
      var e := evs[0];
      StepInv(c, d, s, e);
      if e.Complete? && e.t == t {
        DrainsAfterError(c, d, Step(c, s, e), evs[1..]);
      } else {
        HonouredErrs(c, d, Step(c, s, e), if e.Complete? then cancelled - {e.t} else cancelled, t, evs[1..]);
      }
    }
  }

  /** Whatever happens after a stop that cancels the pending transfers, a resumption comes with an error. */
  ghost predicate StopEffective(c: Config, d: Device, s: State)
    requires Shape(c, s)
  {
    forall evs ::
      Feasible(c, d, s, evs) && Honoured(PendingSet(Phases(s.slots)), evs) && Run(c, d, s, evs).posted == 1 ==>
        Run(c, d, s, evs).ec.IsSet()
  }

  /**
   * A stop is effective if and only if a transfer is pending when it fires, or an error was recorded before: one that
   * comes before the first submission is accepted is lost.
   */
  lemma StopEffectiveExactlyWhen(c: Config, d: Device, s: State)
    requires Reachable(c, d, s)
    ensures StopEffective(c, d, s) <==> s.ec.IsSet() || PendingSet(Phases(s.slots)) != {}
  {
    ReachableInv(c, d, s);
    var pending := PendingSet(Phases(s.slots));
    if s.ec.IsSet() {
      forall evs | Feasible(c, d, s, evs) ensures Run(c, d, s, evs).ec.IsSet() {
        DrainsAfterError(c, d, s, evs);
      }
    } else if pending == {} {
      var start := AcceptAll(c, d, s);
      var finish := Finish(c, d, Run(c, d, s, start));
      RunConcat(c, d, s, start, finish);
      NothingToHonour(start + finish);
    } else {
      var t :| t in pending;
      forall evs | Feasible(c, d, s, evs) && Honoured(pending, evs) && Run(c, d, s, evs).posted == 1
        ensures Run(c, d, s, evs).ec.IsSet()
      {
        HonouredErrs(c, d, s, pending, t, evs);
      }
    }
  }
}
