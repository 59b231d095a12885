/** The partial-I/O state machine: every buffer is submitted once and whole, by whichever transfer is free. */
module PartialEngine {
  import opened Wrappers
  import opened Usb
  import opened Flight

  datatype Slot = Slot(buffer: nat, length: int, held: nat, phase: Phase)

  /** buf_current is |owners|; owners[k] is the transfer that claimed buffer k. */
  datatype State = State(slots: seq<Slot>, owners: seq<nat>, inFlight: int, total: nat, ec: ErrorCode, posted: nat,
                         next: nat, refused: bool, log: seq<Record>)

  ghost predicate Shape(c: Config, s: State) {
    && ValidOperation(c)
    && |s.slots| == c.submissionSize
    && s.next <= |s.slots|
    && |s.owners| <= |c.buffers|
  }

  function SlotFor(c: Config, k: nat, phase: Phase): Slot
    requires k < |c.buffers|
  {
    Slot(c.buffers[k].data, ToInt(c.buffers[k].size), k, phase)
  }

  function Prepared(c: Config): (s: State)
    requires ValidOperation(c)
    ensures Shape(c, s)
  {
    State(seq(c.submissionSize, i requires 0 <= i < c.submissionSize => SlotFor(c, i, Ready)),
          seq(c.submissionSize, i requires 0 <= i => i), c.submissionSize, 0, NO_ERROR, 0, 0, false, [])
  }

  datatype Reply = Reply(slot: Slot, owners: seq<nat>, total: nat, ec: ErrorCode, resubmit: Option<int>)

  function React(c: Config, s: State, t: nat, actual: nat, status: int, r: int): (reply: Reply)
    requires Shape(c, s) && t < |s.slots|
    ensures |reply.owners| <= |c.buffers|
  {
    var done := s.slots[t].(phase := Retired);
    if s.ec.IsSet() then
      Reply(done, s.owners, s.total, s.ec, None)
    else if status != LIBUSB_TRANSFER_COMPLETED then
      Reply(done, s.owners, s.total + actual, MakeTransferStatus(status), None)
    else if |s.owners| == |c.buffers| then
      Reply(done, s.owners, s.total + actual, s.ec, None)
    else if r == LIBUSB_SUCCESS then
      Reply(SlotFor(c, |s.owners|, Pending), s.owners + [t], s.total + actual, s.ec, Some(r))
    else
      Reply(SlotFor(c, |s.owners|, Retired), s.owners + [t], s.total + actual, MakeUsbErrorCode(r), Some(r))
  }

  function Step(c: Config, s: State, e: Event): (s': State)
    requires Shape(c, s)
    requires e.Complete? ==> e.t < |s.slots|
    requires !e.Complete? ==> s.next < |s.slots|
    ensures Shape(c, s')
  {
    match e
    case Accept =>
      s.(slots := s.slots[s.next := s.slots[s.next].(phase := Pending)], next := s.next + 1)
    case Refuse(r) =>
      s.(ec := MakeTransferStatus(r), refused := true, log := s.log + [Refused(r)])
    case Complete(t, actual, status, r) =>
      var reply := React(c, s, t, actual, status, r);
      var inFlight := if reply.slot.phase == Retired then s.inFlight - 1 else s.inFlight;
      State(s.slots[t := reply.slot], reply.owners, inFlight, reply.total, reply.ec,
            if inFlight == 0 then s.posted + 1 else s.posted, s.next, s.refused,
            s.log + [Done(t, s.slots[t].held, s.slots[t].buffer, actual, status, reply.resubmit)])
  }

  ghost predicate Enabled(c: Config, d: Device, s: State, e: Event) {
    match e
    case Accept => s.next < |s.slots| && !s.refused
    case Refuse(r) => s.next < |s.slots| && !s.refused && r != LIBUSB_SUCCESS
    case Complete(t, actual, status, _) =>
      t < |s.slots| && s.slots[t].phase == Pending && Allows(d, s.slots[t].length, actual, status)
  }

  ghost predicate Feasible(c: Config, d: Device, s: State, evs: seq<Event>)
    requires Shape(c, s)
    decreases evs
  {
    evs == [] || (Enabled(c, d, s, evs[0]) && Feasible(c, d, Step(c, s, evs[0]), evs[1..]))
  }

  ghost function Run(c: Config, d: Device, s: State, evs: seq<Event>): (s': State)
    requires Shape(c, s) && Feasible(c, d, s, evs)
    ensures Shape(c, s')
    decreases evs
  {
    if evs == [] then s else Run(c, d, Step(c, s, evs[0]), evs[1..])
  }

  // ---- The invariant ----

  function Phases(slots: seq<Slot>): (p: seq<Phase>)
    ensures |p| == |slots| && forall t :: 0 <= t < |p| ==> p[t] == slots[t].phase
  {
    seq(|slots|, t requires 0 <= t < |slots| => slots[t].phase)
  }

  ghost predicate Holding(s: State, k: nat)
    requires k < |s.owners| && s.owners[k] < |s.slots|
  {
    var slot := s.slots[s.owners[k]];
    slot.held == k && slot.phase != Retired
  }

  ghost predicate SlotOk(c: Config, s: State, t: nat)
    requires t < |s.slots|
  {
    var k := s.slots[t].held;
    k < |s.owners| && k < |c.buffers| && s.owners[k] == t && s.slots[t] == SlotFor(c, k, s.slots[t].phase)
  }

  /** Claimed buffers complete at most once; without an error, exactly once unless a transfer still holds them. */
  ghost predicate OwnerOk(c: Config, s: State, k: nat)
    requires k < |s.owners|
  {
    && s.owners[k] < |s.slots|
    && TimesCompleted(s.log, k) <= 1
    && (Holding(s, k) ==> TimesCompleted(s.log, k) == 0)
    && (!s.ec.IsSet() && !Holding(s, k) ==> TimesCompleted(s.log, k) == 1)
  }

  ghost predicate Counts(c: Config, s: State)
    requires Shape(c, s)
  {
    && Counted(Phases(s.slots), s.next, s.inFlight, s.posted, s.refused)
    && (s.refused ==> s.ec.IsSet())
    && (!s.ec.IsSet() && |s.owners| < |c.buffers| ==> forall t :: 0 <= t < |s.slots| ==> s.slots[t].phase != Retired)
    && (!s.ec.IsSet() ==> |s.log| + s.inFlight == |s.owners|)
  }

  ghost predicate Inv(c: Config, s: State) {
    && Shape(c, s)
    && Counts(c, s)
    && (forall t :: 0 <= t < |s.slots| ==> SlotOk(c, s, t))
    && (forall k :: 0 <= k < |s.owners| ==> OwnerOk(c, s, k))
    && ServedBy(s.log, s.owners)
    && ErrorLogged(s.log, s.ec, s.refused)
    && s.total == CountedBytes(s.log)
  }

  lemma PreparedInv(c: Config)
    requires ValidOperation(c)
    ensures Inv(c, Prepared(c))
  {
    var s := Prepared(c);
    InFlightBounds(Phases(s.slots));
    forall k | 0 <= k < |s.owners| ensures OwnerOk(c, s, k) {
      assert s.slots[k].held == k && Holding(s, k);
    }
  }

  lemma CountsPreserved(c: Config, d: Device, s: State, e: Event)
    requires Shape(c, s) && Counts(c, s) && Enabled(c, d, s, e)
    ensures Counts(c, Step(c, s, e))
  {
    var phases := Phases(s.slots);
    match e {
      case Accept =>
        CountedAccept(phases, s.next, s.inFlight, s.posted);
        assert Phases(Step(c, s, e).slots) == phases[s.next := Pending];
        assert phases[s.next] == Ready;
      case Refuse(r) =>
      case Complete(t, actual, status, r) =>
        var p := React(c, s, t, actual, status, r).slot.phase;
        CountedComplete(phases, s.next, s.inFlight, s.posted, s.refused, t, p);
        assert Phases(Step(c, s, e).slots) == phases[t := p];
    }
  }

  lemma OwnerPreserved(c: Config, d: Device, s: State, e: Event, k: nat)
    requires Shape(c, s) && Enabled(c, d, s, e) && k < |Step(c, s, e).owners| && ServedBy(s.log, s.owners)
    requires k < |s.owners| ==> OwnerOk(c, s, k)
    requires if e.Complete? then SlotOk(c, s, e.t) else s.slots[s.next].phase == Ready
    ensures OwnerOk(c, Step(c, s, e), k)
  {
    var s' := Step(c, s, e);
    if k >= |s.owners| {
      NeverCompleted(s.log, k);
    }
    if !e.Accept? {
      LogAppend(s.log, s'.log[|s.log|], 0, k);
    }
  }

  lemma {:induction false} NeverCompleted(log: seq<Record>, k: nat)
    requires forall i :: 0 <= i < |log| && log[i].Done? ==> log[i].buf < k
    ensures TimesCompleted(log, k) == 0
  {
    if log == [] {
    } else {
      NeverCompleted(log[..|log| - 1], k);
    }
  }

  lemma ServedPreserved(c: Config, d: Device, s: State, e: Event)
    requires Shape(c, s) && Enabled(c, d, s, e) && (e.Complete? ==> SlotOk(c, s, e.t))
    requires ServedBy(s.log, s.owners)
    ensures ServedBy(Step(c, s, e).log, Step(c, s, e).owners)
  {
  }

  lemma TotalPreserved(c: Config, d: Device, s: State, e: Event)
    requires Shape(c, s) && Enabled(c, d, s, e)
    requires s.ec.IsSet() <==> !CleanBefore(s.log, |s.log|)
    requires s.total == CountedBytes(s.log)
    ensures Step(c, s, e).total == CountedBytes(Step(c, s, e).log)
  {
    if !e.Accept? {
      LogAppend(s.log, Step(c, s, e).log[|s.log|], 0, 0);
    }
  }

  lemma ErrorPreserved(c: Config, d: Device, s: State, e: Event)
    requires Shape(c, s) && ErrorLogged(s.log, s.ec, s.refused) && Enabled(c, d, s, e)
    ensures var s' := Step(c, s, e); ErrorLogged(s'.log, s'.ec, s'.refused)
  {
    if !e.Accept? {
      ErrorLoggedAppend(s.log, s.ec, s.refused, Step(c, s, e).log[|s.log|], Step(c, s, e).ec);
    }
  }

  lemma StepInv(c: Config, d: Device, s: State, e: Event)
    requires Inv(c, s) && Enabled(c, d, s, e)
    ensures Inv(c, Step(c, s, e))
  {
    var s' := Step(c, s, e);
    assert e.Complete? ==> SlotOk(c, s, e.t);
    CountsPreserved(c, d, s, e);
    ServedPreserved(c, d, s, e);
    TotalPreserved(c, d, s, e);
    ErrorPreserved(c, d, s, e);
    forall t | 0 <= t < |s'.slots| ensures SlotOk(c, s', t) {
      assert SlotOk(c, s, t);
    }
    forall k | 0 <= k < |s'.owners| ensures OwnerOk(c, s', k) {
      assert k < |s.owners| ==> OwnerOk(c, s, k);
      OwnerPreserved(c, d, s, e, k);
    }
  }

  lemma {:induction false} RunInv(c: Config, d: Device, s: State, evs: seq<Event>)
    requires Inv(c, s) && Feasible(c, d, s, evs)
    ensures Inv(c, Run(c, d, s, evs))
    decreases evs
  {
    if evs == [] {
    } else {
      StepInv(c, d, s, evs[0]);
      RunInv(c, d, Step(c, s, evs[0]), evs[1..]);
    }
  }
}
