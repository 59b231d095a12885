/** How many callbacks the complete engine can run, and that it can always finish. */
module CompleteTermination {
  import opened Usb
  import opened Sums
  import opened Flight
  import opened CompleteEngine

  function AtLeastOne(x: int): int {
    if x < 1 then 1 else x
  }

  /** One callback per byte, and one per empty buffer, for the buffers from k on. */
  function Budget(c: Config, k: nat): nat
    requires k <= |c.buffers|
    decreases |c.buffers| - k
  {
    if k == |c.buffers| then 0 else AtLeastOne(c.buffers[k].size) + Budget(c, k + 1)
  }

  ghost function SlotWeight(c: Config, s: State, t: nat): int
    requires Shape(c, s) && t < |s.slots|
  {
    var k := s.slots[t].held;
    if s.slots[t].phase == Retired then 0 else AtLeastOne(c.buffers[k].size - s.claims[k].got)
  }

  ghost function SlotWeights(c: Config, s: State): (a: seq<int>)
    requires Shape(c, s)
    ensures |a| == |s.slots| && forall t :: 0 <= t < |a| ==> a[t] == SlotWeight(c, s, t)
  {
    seq(|s.slots|, t requires 0 <= t < |s.slots| => SlotWeight(c, s, t))
  }

  /** The unclaimed buffers, and what is missing of each held one. */
  ghost function Weight(c: Config, s: State): int
    requires Shape(c, s)
  {
    Sum(SlotWeights(c, s)) + Budget(c, |s.claims|)
  }

  lemma WeightNonNegative(c: Config, s: State)
    requires Shape(c, s)
    ensures Weight(c, s) >= 0
  {
    SumNonNegative(SlotWeights(c, s));
  }

  lemma OwnWeight(c: Config, d: Device, s: State, e: Event)
    requires Inv(c, s) && Enabled(c, d, s, e) && d != AnyLength && e.Complete?
    ensures var s' := Step(c, s, e);
            SlotWeight(c, s', e.t) + Budget(c, |s'.claims|) <= SlotWeight(c, s, e.t) - 1 + Budget(c, |s.claims|)
  {
    assert SlotOk(c, s, e.t);
    SlotWithin(c, s, e.t);
  }

  lemma OtherWeight(c: Config, d: Device, s: State, e: Event, u: nat)
    requires Inv(c, s) && Enabled(c, d, s, e) && u < |s.slots| && (e.Complete? ==> u != e.t)
    ensures SlotWeight(c, Step(c, s, e), u) == SlotWeight(c, s, u)
  {
    assert SlotOk(c, s, u);
    if e.Complete? {
      assert SlotOk(c, s, e.t);
    }
  }

  lemma StepWeight(c: Config, d: Device, s: State, e: Event)
    requires Inv(c, s) && Enabled(c, d, s, e) && d != AnyLength
    ensures Weight(c, Step(c, s, e)) <= Weight(c, s) - (if e.Complete? then 1 else 0)
  {
    var s' := Step(c, s, e);
    forall u | 0 <= u < |s.slots| && (e.Complete? ==> u != e.t)
      ensures SlotWeights(c, s')[u] == SlotWeights(c, s)[u]
    {
      OtherWeight(c, d, s, e, u);
    }
    if e.Complete? {
      OwnWeight(c, d, s, e);
      SumUpdate(SlotWeights(c, s), e.t, SlotWeight(c, s', e.t));
      assert SlotWeights(c, s') == SlotWeights(c, s)[e.t := SlotWeight(c, s', e.t)];
    } else {
      assert SlotWeights(c, s') == SlotWeights(c, s);
    }
  }

  lemma {:induction false} RunWeight(c: Config, d: Device, s: State, evs: seq<Event>)
    requires Inv(c, s) && Feasible(c, d, s, evs) && d != AnyLength
    ensures Callbacks(evs) <= Weight(c, s)
    decreases evs
  {
    WeightNonNegative(c, s);
    if evs == [] {
    } else {
      StepInv(c, d, s, evs[0]);
      StepWeight(c, d, s, evs[0]);
      RunWeight(c, d, Step(c, s, evs[0]), evs[1..]);
    }
  }

  lemma {:induction false} PreparedPrefix(c: Config, m: nat)
    requires ValidConfig(c) && m <= c.submissionSize
    ensures Sum(SlotWeights(c, Prepared(c))[..m]) + Budget(c, m) == Budget(c, 0)
  {
    if m == 0 {
    } else {
      PreparedPrefix(c, m - 1);
      var w := SlotWeights(c, Prepared(c));
      assert w[..m] == w[..m - 1] + [w[m - 1]];
      SumAppend(w[..m - 1], w[m - 1]);
    }
  }

  /** The empty buffers among the first k. */
  ghost function EmptyBelow(c: Config, k: nat): set<nat>
    requires k <= |c.buffers|
  {
    set i: nat | i < k && c.buffers[i].size == 0
  }

  lemma EmptyBelowNext(c: Config, k: nat)
    requires k < |c.buffers|
    ensures |EmptyBelow(c, k + 1)| == |EmptyBelow(c, k)| + (if c.buffers[k].size == 0 then 1 else 0)
  {
    if c.buffers[k].size == 0 {
      assert EmptyBelow(c, k + 1) == EmptyBelow(c, k) + {k};
    } else {
      assert EmptyBelow(c, k + 1) == EmptyBelow(c, k);
    }
  }

  lemma {:induction false} BudgetSum(c: Config, k: nat)
    requires k <= |c.buffers|
    ensures Budget(c, 0) == Sum(Sizes(c.buffers)[..k]) + |EmptyBelow(c, k)| + Budget(c, k)
  {
    if k == 0 {
      assert EmptyBelow(c, 0) == {};
    } else {
      BudgetSum(c, k - 1);
      EmptyBelowNext(c, k - 1);
      var a := Sizes(c.buffers);
      assert a[..k] == a[..k - 1] + [a[k - 1]];
      SumAppend(a[..k - 1], a[k - 1]);
    }
  }

  /**
   * If every successful completion of a non-empty submission moves at least one byte, an operation runs at most
   * one callback per byte plus one per empty buffer, whatever errors occur and in whatever order.
   */
  lemma CallbackBound(c: Config, d: Device, evs: seq<Event>)
    requires ValidConfig(c) && d != AnyLength && Feasible(c, d, Prepared(c), evs)
    ensures Callbacks(evs) <= Budget(c, 0) == Sum(Sizes(c.buffers)) + |EmptyBelow(c, |c.buffers|)|
  {
    PreparedInv(c);
    BudgetSum(c, |c.buffers|);
    assert Sizes(c.buffers)[..|c.buffers|] == Sizes(c.buffers);
    RunWeight(c, d, Prepared(c), evs);
    PreparedPrefix(c, c.submissionSize);
    var w := SlotWeights(c, Prepared(c));
    assert w[..|w|] == w;
  }

  // ---- Every operation whose initial submissions were accepted can finish without an error ----

  lemma {:induction false} RunConcat(c: Config, d: Device, s: State, xs: seq<Event>, ys: seq<Event>)
    requires Shape(c, s) && Feasible(c, d, s, xs) && Feasible(c, d, Run(c, d, s, xs), ys)
    ensures Feasible(c, d, s, xs + ys) && Run(c, d, s, xs + ys) == Run(c, d, Run(c, d, s, xs), ys)
    decreases xs
  {
    if xs == [] {
      assert xs + ys == ys;
    } else {
      assert (xs + ys)[1..] == xs[1..] + ys;
      RunConcat(c, d, Step(c, s, xs[0]), xs[1..], ys);
    }
  }

  lemma RunCons(c: Config, d: Device, s: State, e: Event, rest: seq<Event>)
    requires Shape(c, s) && Enabled(c, d, s, e) && Feasible(c, d, Step(c, s, e), rest)
    ensures Feasible(c, d, s, [e] + rest) && Run(c, d, s, [e] + rest) == Run(c, d, Step(c, s, e), rest)
  {
    assert ([e] + rest)[0] == e && ([e] + rest)[1..] == rest;
  }

  /** The event that completes transfer t in full and resubmits it without an error. */
  function FullCompletion(s: State, t: nat): Event
    requires t < |s.slots|
  {
    Complete(t, s.slots[t].length, LIBUSB_TRANSFER_COMPLETED, LIBUSB_SUCCESS)
  }

  /** All initial submissions were accepted. */
  ghost predicate Running(c: Config, s: State) {
    Inv(c, s) && s.next == |s.slots|
  }

  lemma FullStep(c: Config, d: Device, s: State, t: nat)
    requires Running(c, s) && t < |s.slots| && s.slots[t].phase == Pending
    ensures Enabled(c, d, s, FullCompletion(s, t))
    ensures var s' := Step(c, s, FullCompletion(s, t));
            Running(c, s') && s'.ec == s.ec && 0 <= Weight(c, s') < Weight(c, s)
  {
    StepInv(c, d, s, FullCompletion(s, t));
    StepWeight(c, FullLength, s, FullCompletion(s, t));
    WeightNonNegative(c, Step(c, s, FullCompletion(s, t)));
  }

  /** From any state of a running operation some completions resume it, adding no error. */
  lemma {:induction false} Finish(c: Config, d: Device, s: State) returns (evs: seq<Event>)
    requires Running(c, s)
    ensures Feasible(c, d, s, evs)
    ensures Run(c, d, s, evs).posted == 1 && Run(c, d, s, evs).ec == s.ec
    decreases Weight(c, s)
  {
    if s.inFlight == 0 {
      evs := [];
    } else {
      InFlightBounds(Phases(s.slots));
      var t :| 0 <= t < |s.slots| && s.slots[t].phase != Retired;
      FullStep(c, d, s, t);
      var rest := Finish(c, d, Step(c, s, FullCompletion(s, t)));
      evs := [FullCompletion(s, t)] + rest;
      RunCons(c, d, s, FullCompletion(s, t), rest);
    }
  }

  lemma {:induction false} AcceptAll(c: Config, d: Device, s: State) returns (evs: seq<Event>)
    requires Inv(c, s) && !s.refused
    ensures Feasible(c, d, s, evs)
    ensures var s' := Run(c, d, s, evs);
            Running(c, s') && s'.ec == s.ec && s'.claims == s.claims && |s'.slots| == |s.slots|
            && forall t :: 0 <= t < |s.slots| ==>
                 s'.slots[t] == if t < s.next then s.slots[t] else s.slots[t].(phase := Pending)
    decreases |s.slots| - s.next
  {
    if s.next == |s.slots| {
      evs := [];
    } else {
      StepInv(c, d, s, Accept);
      var rest := AcceptAll(c, d, Step(c, s, Accept));
      evs := [Accept] + rest;
      RunCons(c, d, s, Accept, rest);
    }
  }

  // ---- Without progress there is no bound ----

  /** Transfer t is pending and its buffer is not finished. */
  ghost predicate CanStutter(c: Config, s: State, t: nat) {
    && Running(c, s) && !s.ec.IsSet() && t < |s.slots| && s.slots[t].phase == Pending
    && s.slots[t].prg.total < s.slots[t].prg.expected
  }

  /** Empty completions of a buffer that is not finished leave the operation as it was. */
  lemma {:induction false} Stutter(c: Config, s: State, t: nat, n: nat) returns (evs: seq<Event>)
    requires CanStutter(c, s, t)
    ensures Feasible(c, AnyLength, s, evs) && Callbacks(evs) == n
    decreases n
  {
    if n == 0 {
      evs := [];
    } else {
      var e := Complete(t, 0, LIBUSB_TRANSFER_COMPLETED, LIBUSB_SUCCESS);
      StepInv(c, AnyLength, s, e);
      var rest := Stutter(c, Step(c, s, e), t, n - 1);
      evs := [e] + rest;
      RunCons(c, AnyLength, s, e, rest);
      assert evs[1..] == rest;
    }
  }

  /** Completing only transfer t brings it past empty buffers to the first buffer that is not empty. */
  lemma {:induction false} DriveToFirst(c: Config, s: State, t: nat, j: nat) returns (evs: seq<Event>)
    requires Running(c, s) && !s.ec.IsSet() && t < |s.slots| && s.slots[t].phase == Pending
    requires s.slots[t].prg.total == 0 && s.slots[t].held < j < |c.buffers| && |s.claims| <= j
    requires c.buffers[j].size > 0 && forall i :: 0 <= i < j ==> c.buffers[i].size == 0
    ensures Feasible(c, AnyLength, s, evs) && CanStutter(c, Run(c, AnyLength, s, evs), t)
    decreases Weight(c, s)
  {
    var e := FullCompletion(s, t);
    FullStep(c, AnyLength, s, t);
    assert SlotOk(c, s, t);
    var s' := Step(c, s, e);
    assert s'.slots[t] == TakeNext(c, s.slots[t], |s.claims|);
    var rest := [];
    if |s.claims| < j {
      rest := DriveToFirst(c, s', t, j);
    }
    evs := [e] + rest;
    RunCons(c, AnyLength, s, e, rest);
  }

  /** A buffer that is not empty gives runs with any number of callbacks, if completions may be empty. */
  lemma UnboundedRun(c: Config, j: nat, n: nat) returns (evs: seq<Event>)
    requires ValidConfig(c) && j < |c.buffers| && c.buffers[j].size > 0
    requires forall i :: 0 <= i < j ==> c.buffers[i].size == 0
    ensures Feasible(c, AnyLength, Prepared(c), evs) && Callbacks(evs) >= n
  {
    var s0 := Prepared(c);
    PreparedInv(c);
    var start := AcceptAll(c, AnyLength, s0);
    var s1 := Run(c, AnyLength, s0, start);
    var t := if j < c.submissionSize then j else 0;
    assert s1.slots[t] == s0.slots[t].(phase := Pending);
    var drive := [];
    if j >= c.submissionSize {
      drive := DriveToFirst(c, s1, t, j);
    }
    var s2 := Run(c, AnyLength, s1, drive);
    var more := Stutter(c, s2, t, n);
    RunConcat(c, AnyLength, s0, start, drive);
    RunConcat(c, AnyLength, s0, start + drive, more);
    evs := start + drive + more;
    CallbacksConcat(start + drive, more);
  }

  // ---- Exactly when the number of callbacks is bounded ----

  ghost predicate AllEmpty(c: Config) {
    forall k :: 0 <= k < |c.buffers| ==> c.buffers[k].size == 0
  }

  /** No run of the operation has more than n callbacks. */
  ghost predicate BoundedBy(c: Config, d: Device, n: nat)
    requires ValidConfig(c)
  {
    forall evs :: Feasible(c, d, Prepared(c), evs) ==> Callbacks(evs) <= n
  }

  /** If all buffers are empty, every completion is a full one. */
  lemma {:induction false} EmptyIsFull(c: Config, s: State, evs: seq<Event>)
    requires Inv(c, s) && AllEmpty(c) && Feasible(c, AnyLength, s, evs)
    ensures Feasible(c, FullLength, s, evs)
    decreases evs
  {
    if evs == [] {
    } else {
      StepInv(c, AnyLength, s, evs[0]);
      if evs[0].Complete? {
        SlotWithin(c, s, evs[0].t);
      }
      EmptyIsFull(c, Step(c, s, evs[0]), evs[1..]);
    }
  }

  lemma Bounded(c: Config, d: Device)
    requires ValidConfig(c) && (d != AnyLength || AllEmpty(c))
    ensures BoundedBy(c, d, Budget(c, 0))
  {
    forall evs | Feasible(c, d, Prepared(c), evs) ensures Callbacks(evs) <= Budget(c, 0) {
      if d == AnyLength {
        PreparedInv(c);
        EmptyIsFull(c, Prepared(c), evs);
        CallbackBound(c, FullLength, evs);
      } else {
        CallbackBound(c, d, evs);
      }
    }
  }

  lemma {:induction false} FirstNonEmpty(c: Config, k: nat) returns (j: nat)
    requires k < |c.buffers| && c.buffers[k].size > 0
    ensures j < |c.buffers| && c.buffers[j].size > 0 && forall i :: 0 <= i < j ==> c.buffers[i].size == 0
    decreases k
  {
    if i :| 0 <= i < k && c.buffers[i].size > 0 {
      j := FirstNonEmpty(c, i);
    } else {
      j := k;
    }
  }

  /**
   * The number of callbacks of an operation's runs is bounded if and only if successful completions of non-empty
   * submissions move something, or there is nothing to move; the budget is then a bound.
   */
  lemma BoundedExactlyWhen(c: Config, d: Device)
    requires ValidConfig(c)
    ensures (exists n: nat :: BoundedBy(c, d, n)) <==> d != AnyLength || AllEmpty(c)
    ensures (exists n: nat :: BoundedBy(c, d, n)) <==> BoundedBy(c, d, Budget(c, 0))
  {
    if d != AnyLength || AllEmpty(c) {
      Bounded(c, d);
    } else {
      var k :| 0 <= k < |c.buffers| && c.buffers[k].size > 0;
      var j := FirstNonEmpty(c, k);
      forall n: nat ensures !BoundedBy(c, d, n) {
        var evs := UnboundedRun(c, j, n + 1);
      }
    }
  }

  lemma {:induction false} CallbacksConcat(xs: seq<Event>, ys: seq<Event>)
    ensures Callbacks(xs + ys) == Callbacks(xs) + Callbacks(ys)
  {
    if xs == [] {
      assert xs + ys == ys;
    } else {
      assert (xs + ys)[1..] == xs[1..] + ys;
      CallbacksConcat(xs[1..], ys);
    }
  }
}
