/** The complete-I/O awaitable with its own fields, each method proved to take the engine's step. */
module CompleteAwaitable {
  import opened Usb
  import opened Sums
  import opened SequenceView
  import opened CompleteEngine
  import opened CompleteTheorems

  /** What libusb owns, for all transfers of the view, and what has happened; the code keeps none of it. */
  datatype History = History(phases: seq<Phase>, held: seq<nat>, claims: seq<Claim>, refused: bool, log: seq<Record>)

  class CompleteSequenceAwaitable {
    const config: Config
    const view: View<UsbTransfer>
    ghost const tfers: seq<UsbTransfer>

    var states: map<UsbTransfer, Progress>
    var bufCurrent: nat
    var inFlight: nat
    var ec: ErrorCode
    var posted: nat
    var iter: nat

    ghost var history: History

    ghost predicate OfView() {
      view.Valid() && tfers == view.Viewed()
    }

    /** The view's transfers differ, and there are enough of them. */
    ghost predicate Distinct() {
      && ValidConfig(config) && config.submissionSize <= |tfers|
      && forall i, j :: 0 <= i < j < |tfers| ==> tfers[i] != tfers[j]
    }

    ghost predicate WellFormed()
      reads this`states, this`history, tfers
    {
      && Distinct()
      && |history.phases| == |tfers| && |history.held| == config.submissionSize
      && (forall i :: 0 <= i < config.submissionSize ==> tfers[i] in states && tfers[i].length >= 0)
    }

    ghost function SlotAt(i: nat): Slot
      reads this`states, this`history, tfers
      requires WellFormed() && i < config.submissionSize
    {
      Slot(tfers[i].buffer, tfers[i].length, states[tfers[i]], history.held[i], history.phases[i])
    }

    ghost function Slots(): (slots: seq<Slot>)
      reads this, tfers
      requires WellFormed()
      ensures |slots| == config.submissionSize
      ensures forall i :: 0 <= i < |slots| ==> slots[i] == SlotAt(i)
    {
      seq(config.submissionSize,
          i requires 0 <= i < config.submissionSize && WellFormed() reads this, tfers => SlotAt(i))
    }

    /** The engine state that the fields, the transfers and the history make up. */
    ghost function Abs(): State
      reads this, tfers
      requires WellFormed()
    {
      State(Slots(), history.claims, inFlight, ec, posted, iter, history.refused, history.log)
    }

    /** Transfers in use have entries, the others were never submitted, and buf_current is the next buffer. */
    ghost predicate Linked()
      reads this, tfers
    {
      && WellFormed()
      && bufCurrent == |history.claims|
      && (forall tfer :: tfer in states ==> tfer in tfers[..config.submissionSize])
      && (forall i :: config.submissionSize <= i < |tfers| ==> history.phases[i] == Ready)
    }

    /** The object's state is a reachable one, so every theorem about reachable states is about it. */
    ghost predicate Valid()
      reads this, tfers
    {
      OfView() && Linked() && Reachable(config, AnyLength, Abs())
    }

    constructor (c: Config, v: View<UsbTransfer>)
      requires ValidConfig(c) && v.Valid() && c.submissionSize <= v.Size()
      requires forall i, j :: 0 <= i < j < |v.Viewed()| ==> v.Viewed()[i] != v.Viewed()[j]
      ensures config == c && view == v && OfView() && Distinct()
      ensures states == map[] && bufCurrent == 0 && inFlight == 0 && ec == NO_ERROR && posted == 0 && iter == 0
    {
      config, view, tfers := c, v, v.Viewed();
      states, bufCurrent, inFlight, ec, posted, iter := map[], 0, 0, NO_ERROR, 0, 0;
    }

    // ---- await_suspend ----

    /** Up to the submission loop: either a stop was requested before, or everything is prepared. */
    method PrepareOrCancel(stopRequested: bool) returns (suspended: bool)
      requires OfView() && Distinct()
      requires states == map[] && bufCurrent == 0 && inFlight == 0 && ec == NO_ERROR && posted == 0 && iter == 0
      modifies this, tfers
      ensures suspended == !stopRequested
      ensures suspended ==> Valid() && Abs() == Prepared(config)
      ensures suspended ==> bufCurrent == inFlight == config.submissionSize && posted == 0 && iter == 0 && !ec.IsSet()
      ensures suspended ==> forall j :: 0 <= j < config.submissionSize ==>
                && tfers[j].buffer == config.buffers[j].data
                && AsMuchAsAllowed(tfers[j].length, config.buffers[j].size, config.limit)
      ensures !suspended ==> ec.value == 3 && ec.category == TransferStatusCategory && unchanged(tfers)
      ensures !suspended ==> states == map[] && bufCurrent == 0 && inFlight == 0 && posted == 0 && iter == 0
    {
      if stopRequested {
        ec := MakeTransferStatus(LIBUSB_TRANSFER_CANCELLED);
        return false;
      }
      SetUpTransfers();
      inFlight := config.submissionSize;
      StartHistory();
      PreparedReachable(config, AnyLength);
      return true;
    }

    /** The first m transfers are set up for the first m buffers. */
    ghost predicate SetUp(m: nat)
      reads this`states, tfers
      requires Distinct() && m <= config.submissionSize
    {
      && (forall j :: 0 <= j < m ==>
            tfers[j].buffer == config.buffers[j].data && tfers[j].length == Min(config.buffers[j].size, config.limit))
      && (forall j :: 0 <= j < m ==>
            tfers[j] in states && states[tfers[j]] == Progress(config.buffers[j].data, config.buffers[j].size, 0))
      && (forall tfer :: tfer in states ==> tfer in tfers[..m])
    }

    /** The preparing loop. */
    method SetUpTransfers()
      requires OfView() && Distinct() && states == map[] && bufCurrent == 0
      modifies this`states, this`bufCurrent, tfers
      ensures SetUp(config.submissionSize) && bufCurrent == config.submissionSize
    {
      var iter, end := view.Begin(), view.End() + config.submissionSize;
      while iter != end
        invariant view.Begin() <= iter <= end
        invariant bufCurrent == iter - view.Begin() && SetUp(bufCurrent)
      {
        SetUpNext(view.transfers[iter]);
        iter := iter + 1;
      }
    }

    /** The next transfer is set up for the next buffer. */
    method SetUpNext(tfer: UsbTransfer)
      requires Distinct() && bufCurrent < config.submissionSize && tfer == tfers[bufCurrent] && SetUp(bufCurrent)
      modifies this`states, this`bufCurrent, tfer
      ensures bufCurrent == old(bufCurrent) + 1 && SetUp(bufCurrent)
    {
      assert forall j :: 0 <= j < bufCurrent ==> tfers[j] != tfer;
      assert tfers[..bufCurrent + 1] == tfers[..bufCurrent] + [tfer];
      var buf := config.buffers[bufCurrent];
      bufCurrent := bufCurrent + 1;
      tfer.buffer := buf.data;
      tfer.length := Min(buf.size, config.limit);
      states := states[tfer := Progress(buf.data, buf.size, 0)];
    }

    ghost method StartHistory()
      requires Distinct() && SetUp(config.submissionSize) && bufCurrent == inFlight == config.submissionSize
      requires ec == NO_ERROR && posted == 0 && iter == 0
      modifies this`history
      ensures Linked() && Abs() == Prepared(config)
    {
      history := History(seq(|tfers|, j => Ready), seq(config.submissionSize, j requires 0 <= j => j),
                         Prepared(config).claims, false, []);
      assert Slots() == Prepared(config).slots;
    }

    /** One iteration of the submission loop; callbacks may run between two iterations. */
    method SubmitNext(r: int) returns (more: bool)
      requires Valid() && iter < config.submissionSize && !history.refused
      modifies this
      ensures Valid()
      ensures Abs() == Step(config, old(Abs()), if r == LIBUSB_SUCCESS then Accept else Refuse(r))
      ensures if r == LIBUSB_SUCCESS then ec == old(ec) else ec.value == r && ec.category == TransferStatusCategory
      ensures more == (r == LIBUSB_SUCCESS && iter < config.submissionSize)
    {
      StepReachable(config, AnyLength, Abs(), if r == LIBUSB_SUCCESS then Accept else Refuse(r));
      more := Submit(r);
    }

    method Submit(r: int) returns (more: bool)
      requires Linked() && iter < config.submissionSize && Shape(config, Abs())
      modifies this
      ensures Linked()
      ensures Abs() == Step(config, old(Abs()), if r == LIBUSB_SUCCESS then Accept else Refuse(r))
      ensures more == (r == LIBUSB_SUCCESS && iter < config.submissionSize)
    {
      if r != LIBUSB_SUCCESS {
        ec := MakeTransferStatus(r);
        RecordRefusal(r);
        return false;
      }
      RecordAccepted();
      iter := iter + 1;
      more := iter < config.submissionSize;
    }

    ghost method RecordRefusal(r: int)
      requires Linked()
      modifies this`history
      ensures Linked() && history == old(history).(refused := true, log := old(history).log + [Refused(r)])
      ensures Slots() == old(Slots())
    {
      ghost var slots := Slots();
      history := history.(refused := true, log := history.log + [Refused(r)]);
      assert forall i :: 0 <= i < |slots| ==> SlotAt(i) == slots[i];
    }

    ghost method RecordAccepted()
      requires Linked() && iter < config.submissionSize
      modifies this`history
      ensures Linked() && history == old(history).(phases := old(history).phases[iter := Pending])
      ensures Slots() == old(Slots())[iter := old(Slots())[iter].(phase := Pending)]
    {
      ghost var slots := Slots();
      history := history.(phases := history.phases[iter := Pending]);
      assert forall i :: 0 <= i < |slots| ==> SlotAt(i) == slots[iter := slots[iter].(phase := Pending)][i];
    }

    // ---- transfer_callback ----

    /** One callback; r is what libusb_submit_transfer answers if the callback calls it. */
    method TransferCallback(tfer: UsbTransfer, actual: nat, status: int, r: int, ghost t: nat)
      requires Valid() && t < config.submissionSize && tfer == tfers[t]
      requires Enabled(config, AnyLength, Abs(), Complete(t, actual, status, r))
      modifies this, tfer
      ensures Valid()
      ensures Abs() == Step(config, old(Abs()), Complete(t, actual, status, r))
      ensures old(ec).IsSet() ==> ec == old(ec)
      ensures !old(ec).IsSet() && status != LIBUSB_TRANSFER_COMPLETED ==>
                ec.value == status && ec.category == TransferStatusCategory
      ensures !old(ec).IsSet() && status == LIBUSB_TRANSFER_COMPLETED ==>
                ec == old(ec) || (r != LIBUSB_SUCCESS && ec.value == r && ec.category == UsbErrorCategory)
    {
      StepReachable(config, AnyLength, Abs(), Complete(t, actual, status, r));
      RecordedCallback(tfer, actual, status, r, t);
    }

    /** The callback together with its entry in the history. */
    method RecordedCallback(tfer: UsbTransfer, actual: nat, status: int, r: int, ghost t: nat)
      requires Linked() && Shape(config, Abs()) && t < config.submissionSize && tfer == tfers[t]
      requires inFlight >= 1 && history.phases[t] == Pending
      modifies this, tfer
      ensures Linked()
      ensures Abs() == Step(config, old(Abs()), Complete(t, actual, status, r))
    {
      ghost var s := Abs();
      ghost var reply := React(config, s, t, actual, status, r);
      Callback(tfer, actual, status, r, s, t);
      Remember(tfer, actual, status, s, t, reply);
    }

    ghost method Remember(tfer: UsbTransfer, actual: nat, status: int, s: State, t: nat, reply: Reply)
      requires WellFormed() && t < config.submissionSize == |s.slots| && tfer == tfers[t]
      requires forall i :: 0 <= i < |s.slots| && i != t ==> SlotAt(i) == s.slots[i]
      requires Slot(tfer.buffer, tfer.length, states[tfer], reply.slot.held, reply.slot.phase) == reply.slot
      modifies this`history
      ensures WellFormed() && Slots() == s.slots[t := reply.slot]
      ensures history == History(
                old(history).phases[t := reply.slot.phase], old(history).held[t := reply.slot.held], reply.claims,
                old(history).refused,
                old(history).log + [Done(t, s.slots[t].held, s.slots[t].buffer, actual, status, reply.resubmit)])
    {
      history := History(history.phases[t := reply.slot.phase], history.held[t := reply.slot.held], reply.claims,
                         history.refused,
                         history.log + [Done(t, s.slots[t].held, s.slots[t].buffer, actual, status, reply.resubmit)]);
      assert forall i :: 0 <= i < |s.slots| ==> SlotAt(i) == s.slots[t := reply.slot][i];
    }

    method ResumeOnZero()
      modifies this`posted
      ensures posted == old(posted) + (if inFlight == 0 then 1 else 0)
    {
      if inFlight == 0 {
        posted := posted + 1;
      }
    }

    /** The real fields' part of the callback. */
    method Callback(tfer: UsbTransfer, actual: nat, status: int, r: int, ghost s: State, ghost t: nat)
      requires Shape(config, s) && t < |s.slots| && s.slots[t].phase == Pending && inFlight >= 1
      requires tfer in states && states[tfer] == s.slots[t].prg
      requires tfer.buffer == s.slots[t].buffer && tfer.length == s.slots[t].length
      requires bufCurrent == |s.claims| && inFlight == s.inFlight && ec == s.ec && posted == s.posted
      modifies this`inFlight, this`states, this`bufCurrent, this`ec, this`posted, tfer
      ensures var reply := React(config, s, t, actual, status, r);
              && states == old(states)[tfer := reply.slot.prg]
              && tfer.buffer == reply.slot.buffer && tfer.length == reply.slot.length
              && bufCurrent == |reply.claims| && ec == reply.ec
              && inFlight == s.inFlight - (if reply.slot.phase == Retired then 1 else 0)
              && posted == s.posted + (if inFlight == 0 then 1 else 0)
    {
      inFlight := inFlight - 1;
      if ec.IsSet() {
        ResumeOnZero();
        return;
      }
      states := states[tfer := states[tfer].(total := states[tfer].total + actual)];
      if status != LIBUSB_TRANSFER_COMPLETED {
        ec := MakeTransferStatus(status);
        ResumeOnZero();
        return;
      }
      if states[tfer].total >= states[tfer].expected && bufCurrent == |config.buffers| {
        ResumeOnZero();
        return;
      }
      ghost var counted := s.slots[t].(prg := states[tfer]);
      Refill(tfer, actual, counted);
      if r != LIBUSB_SUCCESS {
        ec := MakeUsbErrorCode(r);
        ResumeOnZero();
        return;
      }
      inFlight := inFlight + 1;
    }

    /** Points the transfer at the rest of its buffer, or at the next buffer. */
    method Refill(tfer: UsbTransfer, actual: nat, ghost counted: Slot)
      requires tfer in states && states[tfer] == counted.prg && ValidConfig(config)
      requires counted.prg.total >= counted.prg.expected ==> bufCurrent < |config.buffers|
      modifies this`states, this`bufCurrent, tfer
      ensures var takes := counted.prg.total >= counted.prg.expected;
              var slot := if takes then TakeNext(config, counted, old(bufCurrent))
                          else Continue(config, counted, actual);
              && states == old(states)[tfer := slot.prg] && tfer.buffer == slot.buffer && tfer.length == slot.length
              && bufCurrent == old(bufCurrent) + (if takes then 1 else 0)
    {
      var prg := states[tfer];
      if prg.total >= prg.expected {
        var buf := config.buffers[bufCurrent];
        bufCurrent := bufCurrent + 1;
        prg := prg.(ptr := buf.data, expected := buf.size);
        tfer.buffer := prg.ptr;
        tfer.length := Min(prg.expected, config.limit);
      } else {
        prg := prg.(ptr := prg.ptr + actual);
        tfer.buffer := prg.ptr;
        tfer.length := Min(prg.expected - prg.total, config.limit);
      }
      states := states[tfer := prg];
    }

    // ---- await_resume and cancellation ----

    /**
     * The error and the sum of the entries: for a resumed operation the first error of its history and the bytes up to
     * it, and after a stop that was requested before the cancellation and no bytes.
     */
    method AwaitResume() returns (error: ErrorCode, total: nat)
      requires Valid() || (Distinct() && states == map[])
      ensures error == ec
      ensures states == map[] ==> total == 0
      ensures Valid() ==> total == Total(Abs()) == CountedBytes(history.log)
      ensures Valid() && posted == 1 ==> Outcome(history.log, error)
    {
      total := SumEntries();
      error := ec;
      if states == map[] {
        SumZero(Missing(tfers[..config.submissionSize], states, states.Keys));
      }
      if Valid() {
        EntriesAreTotals();
        ReachableLogInv(config, AnyLength, Abs());
        if posted == 1 {
          ReportedResult(config, AnyLength, Abs());
        }
      }
    }

    lemma EntriesAreTotals()
      requires Linked()
      ensures Sum(Missing(tfers[..config.submissionSize], states, states.Keys)) == Total(Abs())
    {
      assert Missing(tfers[..config.submissionSize], states, states.Keys) == Totals(Slots());
    }

    /** The entries are summed in whatever order the map yields them. */
    method SumEntries() returns (total: nat)
      requires Distinct() && forall tfer :: tfer in states ==> tfer in tfers[..config.submissionSize]
      ensures total == Sum(Missing(tfers[..config.submissionSize], states, states.Keys))
    {
      total := 0;
      var rest := states.Keys;
      ghost var used := tfers[..config.submissionSize];
      while rest != {}
        invariant rest <= states.Keys
        invariant total + Sum(Missing(used, states, rest)) == Sum(Missing(used, states, states.Keys))
        decreases rest
      {
        var tfer :| tfer in rest;
        TakeOne(used, states, rest, tfer);
        total := total + states[tfer].total;
        rest := rest - {tfer};
      }
      SumZero(Missing(used, states, rest));
    }

    /** The stop callback: it cancels the transfers in use, and no other transfer of the view can be pending. */
    method CancelInUse() returns (cancelled: seq<UsbTransfer>)
      requires OfView() && Linked()
      ensures cancelled == tfers[..config.submissionSize]
      ensures forall i :: 0 <= i < |tfers| && history.phases[i] == Pending ==> tfers[i] in cancelled
    {
      cancelled := CancelFirst(view, config.submissionSize);
      forall i | 0 <= i < |tfers| && history.phases[i] == Pending ensures tfers[i] in cancelled {
        assert cancelled[i] == tfers[i];
      }
    }
  }

  /** Per transfer in use, the total still to be added when the entries of rest remain. */
  ghost function Missing<T>(used: seq<T>, states: map<T, Progress>, rest: set<T>): (m: seq<int>)
    requires rest <= states.Keys
    ensures |m| == |used|
    ensures forall i :: 0 <= i < |m| ==> m[i] == if used[i] in rest then states[used[i]].total else 0
  {
    seq(|used|, i requires 0 <= i < |used| => if used[i] in rest then states[used[i]].total else 0)
  }

  lemma TakeOne<T>(used: seq<T>, states: map<T, Progress>, rest: set<T>, tfer: T)
    requires rest <= states.Keys && tfer in rest && tfer in used
    requires forall i, j :: 0 <= i < j < |used| ==> used[i] != used[j]
    ensures Sum(Missing(used, states, rest)) == Sum(Missing(used, states, rest - {tfer})) + states[tfer].total
  {
    var i :| 0 <= i < |used| && used[i] == tfer;
    SumUpdate(Missing(used, states, rest), i, 0);
    assert Missing(used, states, rest)[i := 0] == Missing(used, states, rest - {tfer});
  }
}
