/** The partial-I/O awaitable with its own fields, each method proved to take the engine's step. */
module PartialAwaitable {
  import opened Usb
  import opened SequenceView
  import opened PartialEngine
  import opened PartialTheorems

  /** What libusb owns, for all transfers of the view, and what has happened; the code keeps none of it. */
  datatype History = History(phases: seq<Phase>, held: seq<nat>, owners: seq<nat>, refused: bool, log: seq<Record>)

  class SequenceAwaitable {
    const config: Config
    const view: View<UsbTransfer>
    ghost const tfers: seq<UsbTransfer>

    var bufCurrent: nat
    var inFlight: nat
    var total: nat
    var ec: ErrorCode
    var posted: nat
    var iter: nat

    ghost var history: History

    ghost predicate OfView() {
      view.Valid() && tfers == view.Viewed()
    }

    /** The view's transfers differ, and there are enough of them. */
    ghost predicate Distinct() {
      && ValidOperation(config) && config.submissionSize <= |tfers|
      && forall i, j :: 0 <= i < j < |tfers| ==> tfers[i] != tfers[j]
    }

    ghost predicate WellFormed()
      reads this`history
    {
      Distinct() && |history.phases| == |tfers| && |history.held| == config.submissionSize
    }

    ghost function SlotAt(i: nat): Slot
      reads this`history, tfers
      requires WellFormed() && i < config.submissionSize
    {
      Slot(tfers[i].buffer, tfers[i].length, history.held[i], history.phases[i])
    }

    ghost function Slots(): (slots: seq<Slot>)
      reads this, tfers
      requires WellFormed()
      ensures |slots| == config.submissionSize
      ensures forall i :: 0 <= i < |slots| ==> slots[i] == SlotAt(i)
    {
      seq(config.submissionSize,
          i requires 0 <= i < config.submissionSize && WellFormed() reads this, tfers => SlotAt(i))
    }

    /** The engine state that the fields, the transfers and the history make up. */
    ghost function Abs(): State
      reads this, tfers
      requires WellFormed()
    {
      State(Slots(), history.owners, inFlight, total, ec, posted, iter, history.refused, history.log)
    }

    /** The transfers that are not in use were never submitted, and buf_current is the next buffer. */
    ghost predicate Linked()
      reads this
    {
      && WellFormed() && bufCurrent == |history.owners|
      && (forall i :: config.submissionSize <= i < |tfers| ==> history.phases[i] == Ready)
    }

    /** The object's state is a reachable one, so every theorem about reachable states is about it. */
    ghost predicate Valid()
      reads this, tfers
    {
      OfView() && Linked() && Reachable(config, AnyLength, Abs())
    }

    constructor (c: Config, v: View<UsbTransfer>)
      requires ValidOperation(c) && v.Valid() && c.submissionSize <= v.Size()
      requires forall i, j :: 0 <= i < j < |v.Viewed()| ==> v.Viewed()[i] != v.Viewed()[j]
      ensures config == c && view == v && OfView() && Distinct()
      ensures bufCurrent == inFlight == total == posted == iter == 0 && ec == NO_ERROR
    {
      config, view, tfers := c, v, v.Viewed();
      bufCurrent, inFlight, total, ec, posted, iter := 0, 0, 0, NO_ERROR, 0, 0;
    }

    // ---- await_suspend ----

    /** Up to the submission loop: either a stop was requested before, or everything is prepared. */
    method PrepareOrCancel(stopRequested: bool) returns (suspended: bool)
      requires OfView() && Distinct() && bufCurrent == inFlight == total == posted == iter == 0 && ec == NO_ERROR
      modifies this, tfers
      ensures suspended == !stopRequested
      ensures suspended ==> Valid() && Abs() == Prepared(config)
      ensures suspended ==> bufCurrent == inFlight == config.submissionSize && posted == 0 && iter == 0 && !ec.IsSet()
      ensures suspended ==> forall j :: 0 <= j < config.submissionSize ==>
                && tfers[j].buffer == config.buffers[j].data
                && (tfers[j].length - config.buffers[j].size) % 0x1_0000_0000 == 0
                && -0x8000_0000 <= tfers[j].length < 0x8000_0000
      ensures !suspended ==> ec.value == 3 && ec.category == TransferStatusCategory && unchanged(tfers)
      ensures !suspended ==> bufCurrent == inFlight == total == posted == iter == 0
    {
      if stopRequested {
        ec := MakeTransferStatus(LIBUSB_TRANSFER_CANCELLED);
        return false;
      }
      SetUpTransfers();
      inFlight := config.submissionSize;
      StartHistory();
      PreparedReachable(config, AnyLength);
      return true;
    }

    ghost predicate SetUp(m: nat)
      reads tfers
      requires Distinct() && m <= config.submissionSize
    {
      forall j :: 0 <= j < m ==>
        tfers[j].buffer == config.buffers[j].data && tfers[j].length == ToInt(config.buffers[j].size)
    }

    /** The preparing loop. */
    method SetUpTransfers()
      requires OfView() && Distinct() && bufCurrent == 0
      modifies this`bufCurrent, tfers
      ensures SetUp(config.submissionSize) && bufCurrent == config.submissionSize
    {
      var iter, end := view.Begin(), view.End() + config.submissionSize;
      while iter != end
        invariant view.Begin() <= iter <= end
        invariant bufCurrent == iter - view.Begin() && SetUp(bufCurrent)
      {
        SetUpNext(view.transfers[iter]);
        iter := iter + 1;
      }
    }

    /** The next transfer is set up for the next buffer. */
    method SetUpNext(tfer: UsbTransfer)
      requires Distinct() && bufCurrent < config.submissionSize && tfer == tfers[bufCurrent] && SetUp(bufCurrent)
      modifies this`bufCurrent, tfer
      ensures bufCurrent == old(bufCurrent) + 1 && SetUp(bufCurrent)
    {
      assert forall j :: 0 <= j < bufCurrent ==> tfers[j] != tfer;
      var buf := config.buffers[bufCurrent];
      bufCurrent := bufCurrent + 1;
      tfer.buffer := buf.data;
      tfer.length := ToInt(buf.size);
    }

    ghost method StartHistory()
      requires Distinct() && SetUp(config.submissionSize) && bufCurrent == inFlight == config.submissionSize
      requires total == posted == iter == 0 && ec == NO_ERROR
      modifies this`history
      ensures Linked() && Abs() == Prepared(config)
    {
      history := History(seq(|tfers|, j => Ready), seq(config.submissionSize, j requires 0 <= j => j),
                         Prepared(config).owners, false, []);
      assert Slots() == Prepared(config).slots;
    }

    /** One iteration of the submission loop; callbacks may run between two iterations. */
    method SubmitNext(r: int) returns (more: bool)
      requires Valid() && iter < config.submissionSize && !history.refused
      modifies this
      ensures Valid()
      ensures Abs() == Step(config, old(Abs()), if r == LIBUSB_SUCCESS then Accept else Refuse(r))
      ensures if r == LIBUSB_SUCCESS then ec == old(ec) else ec.value == r && ec.category == TransferStatusCategory
      ensures more == (r == LIBUSB_SUCCESS && iter < config.submissionSize)
    {
      StepReachable(config, AnyLength, Abs(), if r == LIBUSB_SUCCESS then Accept else Refuse(r));
      more := Submit(r);
    }

    method Submit(r: int) returns (more: bool)
      requires Linked() && iter < config.submissionSize && Shape(config, Abs())
      modifies this
      ensures Linked()
      ensures Abs() == Step(config, old(Abs()), if r == LIBUSB_SUCCESS then Accept else Refuse(r))
      ensures more == (r == LIBUSB_SUCCESS && iter < config.submissionSize)
    {
      if r != LIBUSB_SUCCESS {
        ec := MakeTransferStatus(r);
        RecordRefusal(r);
        return false;
      }
      RecordAccepted();
      iter := iter + 1;
      more := iter < config.submissionSize;
    }

    ghost method RecordRefusal(r: int)
      requires Linked()
      modifies this`history
      ensures Linked() && history == old(history).(refused := true, log := old(history).log + [Refused(r)])
      ensures Slots() == old(Slots())
    {
      ghost var slots := Slots();
      history := history.(refused := true, log := history.log + [Refused(r)]);
      assert forall i :: 0 <= i < |slots| ==> SlotAt(i) == slots[i];
    }

    ghost method RecordAccepted()
      requires Linked() && iter < config.submissionSize
      modifies this`history
      ensures Linked() && history == old(history).(phases := old(history).phases[iter := Pending])
      ensures Slots() == old(Slots())[iter := old(Slots())[iter].(phase := Pending)]
    {
      ghost var slots := Slots();
      history := history.(phases := history.phases[iter := Pending]);
      assert forall i :: 0 <= i < |slots| ==> SlotAt(i) == slots[iter := slots[iter].(phase := Pending)][i];
    }

    // ---- transfer_callback ----

    /** One callback; r is what libusb_submit_transfer answers if the callback calls it. */
    method TransferCallback(tfer: UsbTransfer, actual: nat, status: int, r: int, ghost t: nat)
      requires Valid() && t < config.submissionSize && tfer == tfers[t]
      requires Enabled(config, AnyLength, Abs(), Complete(t, actual, status, r))
      modifies this, tfer
      ensures Valid()
      ensures Abs() == Step(config, old(Abs()), Complete(t, actual, status, r))
      ensures old(ec).IsSet() ==> ec == old(ec)
      ensures !old(ec).IsSet() && status != LIBUSB_TRANSFER_COMPLETED ==>
                ec.value == status && ec.category == TransferStatusCategory
      ensures !old(ec).IsSet() && status == LIBUSB_TRANSFER_COMPLETED ==>
                ec == old(ec) || (r != LIBUSB_SUCCESS && ec.value == r && ec.category == UsbErrorCategory)
    {
      StepReachable(config, AnyLength, Abs(), Complete(t, actual, status, r));
      RecordedCallback(tfer, actual, status, r, t);
    }

    /** The callback together with its entry in the history. */
    method RecordedCallback(tfer: UsbTransfer, actual: nat, status: int, r: int, ghost t: nat)
      requires Linked() && Shape(config, Abs()) && t < config.submissionSize && tfer == tfers[t]
      requires inFlight >= 1 && history.phases[t] == Pending
      modifies this, tfer
      ensures Linked()
      ensures Abs() == Step(config, old(Abs()), Complete(t, actual, status, r))
    {
      ghost var s := Abs();
      ghost var reply := React(config, s, t, actual, status, r);
      Callback(tfer, actual, status, r, s, t);
      Remember(tfer, actual, status, s, t, reply);
    }

    ghost method Remember(tfer: UsbTransfer, actual: nat, status: int, s: State, t: nat, reply: Reply)
      requires WellFormed() && t < config.submissionSize == |s.slots| && tfer == tfers[t]
      requires forall i :: 0 <= i < |s.slots| && i != t ==> SlotAt(i) == s.slots[i]
      requires Slot(tfer.buffer, tfer.length, reply.slot.held, reply.slot.phase) == reply.slot
      modifies this`history
      ensures WellFormed() && Slots() == s.slots[t := reply.slot]
      ensures history == History(
                old(history).phases[t := reply.slot.phase], old(history).held[t := reply.slot.held], reply.owners,
                old(history).refused,
                old(history).log + [Done(t, s.slots[t].held, s.slots[t].buffer, actual, status, reply.resubmit)])
    {
      history := History(history.phases[t := reply.slot.phase], history.held[t := reply.slot.held], reply.owners,
                         history.refused,
                         history.log + [Done(t, s.slots[t].held, s.slots[t].buffer, actual, status, reply.resubmit)]);
      assert forall i :: 0 <= i < |s.slots| ==> SlotAt(i) == s.slots[t := reply.slot][i];
    }

    method ResumeOnZero()
      modifies this`posted
      ensures posted == old(posted) + (if inFlight == 0 then 1 else 0)
    {
      if inFlight == 0 {
        posted := posted + 1;
      }
    }

    /** The real fields' part of the callback. */
    method Callback(tfer: UsbTransfer, actual: nat, status: int, r: int, ghost s: State, ghost t: nat)
      requires Shape(config, s) && t < |s.slots| && s.slots[t].phase == Pending && inFlight >= 1
      requires tfer.buffer == s.slots[t].buffer && tfer.length == s.slots[t].length
      requires bufCurrent == |s.owners| && inFlight == s.inFlight && total == s.total
      requires ec == s.ec && posted == s.posted
      modifies this`inFlight, this`total, this`bufCurrent, this`ec, this`posted, tfer
      ensures var reply := React(config, s, t, actual, status, r);
              && tfer.buffer == reply.slot.buffer && tfer.length == reply.slot.length
              && bufCurrent == |reply.owners| && total == reply.total && ec == reply.ec
              && inFlight == s.inFlight - (if reply.slot.phase == Retired then 1 else 0)
              && posted == s.posted + (if inFlight == 0 then 1 else 0)
    {
      inFlight := inFlight - 1;
      if ec.IsSet() {
        ResumeOnZero();
        return;
      }
      total := total + actual;
      if status != LIBUSB_TRANSFER_COMPLETED {
        ec := MakeTransferStatus(status);
        ResumeOnZero();
        return;
      }
      if bufCurrent == |config.buffers| {
        ResumeOnZero();
        return;
      }
      var buf := config.buffers[bufCurrent];
      bufCurrent := bufCurrent + 1;
      tfer.buffer := buf.data;
      tfer.length := ToInt(buf.size);
      if r != LIBUSB_SUCCESS {
        ec := MakeUsbErrorCode(r);
        ResumeOnZero();
        return;
      }
      inFlight := inFlight + 1;
    }

    // ---- await_resume and cancellation ----

    /**
     * The error and the total: for a resumed operation the first error of its history and the bytes up to it, and after
     * a stop that was requested before the cancellation and no bytes.
     */
    method AwaitResume() returns (error: ErrorCode, moved: nat)
      ensures error == ec && moved == total
      ensures Valid() ==> moved == CountedBytes(history.log)
      ensures Valid() && posted == 1 ==> Outcome(history.log, error)
    {
      if Valid() {
        ReachableInv(config, AnyLength, Abs());
        if posted == 1 {
          ReportedResult(config, AnyLength, Abs());
        }
      }
      return ec, total;
    }

    /** The stop callback: it cancels the transfers in use, and no other transfer of the view can be pending. */
    method CancelInUse() returns (cancelled: seq<UsbTransfer>)
      requires OfView() && Linked()
      ensures cancelled == tfers[..config.submissionSize]
      ensures forall i :: 0 <= i < |tfers| && history.phases[i] == Pending ==> tfers[i] in cancelled
    {
      cancelled := CancelFirst(view, config.submissionSize);
      forall i | 0 <= i < |tfers| && history.phases[i] == Pending ensures tfers[i] in cancelled {
        assert cancelled[i] == tfers[i];
      }
    }
  }
}
