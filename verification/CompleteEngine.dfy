/**
 * The complete-I/O state machine as a pure transition system: one Accept or Refuse per iteration of the
 * initial submission loop, one Complete per libusb callback, interleaved in any order that libusb allows.
 */
module CompleteEngine {
  import opened Wrappers
  import opened Usb
  import opened Sums
  import opened Flight

  datatype Progress = Progress(ptr: nat, expected: nat, total: nat)

  /** A transfer: the libusb fields the engine writes, its progress entry, and the index of the buffer it holds. */
  datatype Slot = Slot(buffer: nat, length: nat, prg: Progress, held: nat, phase: Phase)

  /** A buffer that has been claimed: by which transfer, what that transfer had moved before, what arrived since. */
  datatype Claim = Claim(owner: nat, carried: nat, got: nat)

  /** buf_current is |claims|; posted counts the continuations handed to the executor. */
  datatype State = State(slots: seq<Slot>, claims: seq<Claim>, inFlight: int, ec: ErrorCode, posted: nat,
                         next: nat, refused: bool, log: seq<Record>)

  ghost predicate Shape(c: Config, s: State) {
    && ValidConfig(c)
    && |s.slots| == c.submissionSize
    && s.next <= |s.slots|
    && |s.claims| <= |c.buffers|
    && (forall t :: 0 <= t < |s.slots| ==> s.slots[t].held < |s.claims|)
  }

  /** The state after the preparing loop of await_suspend and the preset of in_flight. */
  function Prepared(c: Config): (s: State)
    requires ValidConfig(c)
    ensures Shape(c, s)
  {
    State(seq(c.submissionSize, i requires 0 <= i < c.submissionSize => FirstSlot(c, i)),
          seq(c.submissionSize, i requires 0 <= i => Claim(i, 0, 0)),
          c.submissionSize, NO_ERROR, 0, 0, false, [])
  }

  function FirstSlot(c: Config, i: nat): Slot
    requires i < |c.buffers|
  {
    var b := c.buffers[i];
    Slot(b.data, Min(b.size, c.limit), Progress(b.data, b.size, 0), i, Ready)
  }

  /** What a callback decides: the transfer's new fields, the claims, the error code, and a resubmission's answer. */
  datatype Reply = Reply(slot: Slot, claims: seq<Claim>, ec: ErrorCode, resubmit: Option<int>)

  function Retire(slot: Slot): Slot {
    slot.(phase := Retired)
  }

  function React(c: Config, s: State, t: nat, actual: nat, status: int, r: int): (reply: Reply)
    requires Shape(c, s) && t < |s.slots|
    ensures |s.claims| <= |reply.claims| <= |c.buffers| && reply.slot.held < |reply.claims|
  {
    var slot0 := s.slots[t];
    var k := slot0.held;
    var claims := s.claims[k := s.claims[k].(got := s.claims[k].got + actual)];
    if s.ec.IsSet() then
      Reply(Retire(slot0), claims, s.ec, None)
    else
      var slot := slot0.(prg := slot0.prg.(total := slot0.prg.total + actual));
      if status != LIBUSB_TRANSFER_COMPLETED then
        Reply(Retire(slot), claims, MakeTransferStatus(status), None)
      else if slot.prg.total < slot.prg.expected then
        Resubmit(Continue(c, slot, actual), claims, s.ec, r)
      else if |claims| == |c.buffers| then
        Reply(Retire(slot), claims, s.ec, None)
      else
        Resubmit(TakeNext(c, slot, |claims|), claims + [Claim(t, slot.prg.total, 0)], s.ec, r)
  }

  /** The rest of the buffer the transfer holds. */
  function Continue(c: Config, slot: Slot, actual: nat): Slot
    requires slot.prg.total <= slot.prg.expected
  {
    var ptr := slot.prg.ptr + actual;
    slot.(prg := slot.prg.(ptr := ptr), buffer := ptr, length := Min(slot.prg.expected - slot.prg.total, c.limit))
  }

  /** The next unclaimed buffer; the progress total is kept, as the code keeps it. */
  function TakeNext(c: Config, slot: Slot, k: nat): Slot
    requires k < |c.buffers|
  {
    var b := c.buffers[k];
    slot.(prg := Progress(b.data, b.size, slot.prg.total), buffer := b.data, length := Min(b.size, c.limit), held := k)
  }

  function Resubmit(slot: Slot, claims: seq<Claim>, ec: ErrorCode, r: int): Reply {
    if r == LIBUSB_SUCCESS then Reply(slot, claims, ec, Some(r))
    else Reply(Retire(slot), claims, MakeUsbErrorCode(r), Some(r))
  }

  function Step(c: Config, s: State, e: Event): (s': State)
    requires Shape(c, s)
    requires e.Complete? ==> e.t < |s.slots|
    requires !e.Complete? ==> s.next < |s.slots|
    ensures Shape(c, s')
  {
    match e
    case Accept =>
      s.(slots := s.slots[s.next := s.slots[s.next].(phase := Pending)], next := s.next + 1)
    case Refuse(r) =>
      s.(ec := MakeTransferStatus(r), refused := true, log := s.log + [Refused(r)])
    case Complete(t, actual, status, r) =>
      var reply := React(c, s, t, actual, status, r);
      var inFlight := if reply.slot.phase == Retired then s.inFlight - 1 else s.inFlight;
      State(s.slots[t := reply.slot], reply.claims, inFlight, reply.ec,
            if inFlight == 0 then s.posted + 1 else s.posted, s.next, s.refused,
            s.log + [Done(t, s.slots[t].held, s.slots[t].buffer, actual, status, reply.resubmit)])
  }

  /** What libusb and the executor may do next. */
  ghost predicate Enabled(c: Config, d: Device, s: State, e: Event) {
    match e
    case Accept => s.next < |s.slots| && !s.refused
    case Refuse(r) => s.next < |s.slots| && !s.refused && r != LIBUSB_SUCCESS
    case Complete(t, actual, status, _) =>
      t < |s.slots| && s.slots[t].phase == Pending && Allows(d, s.slots[t].length, actual, status)
  }

  /** An initial submission is for a transfer that was not submitted yet, as in every reachable state. */
  ghost predicate FreshSubmission(s: State, e: Event) {
    !e.Complete? ==> s.next < |s.slots| && s.slots[s.next].phase == Ready
  }

  ghost predicate Feasible(c: Config, d: Device, s: State, evs: seq<Event>)
    requires Shape(c, s)
    decreases evs
  {
    evs == [] || (Enabled(c, d, s, evs[0]) && Feasible(c, d, Step(c, s, evs[0]), evs[1..]))
  }

  ghost function Run(c: Config, d: Device, s: State, evs: seq<Event>): (s': State)
    requires Shape(c, s) && Feasible(c, d, s, evs)
    ensures Shape(c, s')
    decreases evs
  {
    if evs == [] then s else Run(c, d, Step(c, s, evs[0]), evs[1..])
  }

  // ---- Quantities ----

  function Phases(slots: seq<Slot>): (p: seq<Phase>)
    ensures |p| == |slots| && forall t :: 0 <= t < |p| ==> p[t] == slots[t].phase
  {
    seq(|slots|, t requires 0 <= t < |slots| => slots[t].phase)
  }

  function Totals(slots: seq<Slot>): (a: seq<int>)
    ensures |a| == |slots| && forall t :: 0 <= t < |a| ==> a[t] == slots[t].prg.total
  {
    seq(|slots|, t requires 0 <= t < |slots| => slots[t].prg.total)
  }

  function Gots(claims: seq<Claim>): (a: seq<int>)
    ensures |a| == |claims| && forall k :: 0 <= k < |a| ==> a[k] == claims[k].got
  {
    seq(|claims|, k requires 0 <= k < |claims| => claims[k].got)
  }

  /** What await_resume reports. */
  function Total(s: State): int {
    Sum(Totals(s.slots))
  }

  // ---- The invariant ----

  /** A submitted or prepared transfer covers the next bytes of the buffer it holds. */
  ghost predicate SlotOk(c: Config, s: State, t: nat)
    requires Shape(c, s) && t < |s.slots|
  {
    var slot := s.slots[t];
    var claim := s.claims[slot.held];
    var b := c.buffers[slot.held];
    && claim.owner == t
    && (slot.phase != Retired ==>
          && slot.prg.expected == b.size
          && slot.prg.total == claim.carried + claim.got
          && slot.buffer == slot.prg.ptr == b.data + claim.got
          && ((claim.got == 0 && slot.length == Min(b.size, c.limit))
              || (claim.carried + claim.got < b.size
                  && slot.length == Min(b.size - claim.carried - claim.got, c.limit))))
  }

  ghost predicate Holding(s: State, k: nat)
    requires k < |s.claims| && s.claims[k].owner < |s.slots|
  {
    var slot := s.slots[s.claims[k].owner];
    slot.held == k && slot.phase != Retired
  }

  ghost predicate SomeBytesBefore(c: Config, k: nat)
    requires k <= |c.buffers|
  {
    exists j :: 0 <= j < k && c.buffers[j].size > 0
  }

  ghost predicate ClaimOk(c: Config, s: State, k: nat)
    requires Shape(c, s) && k < |s.claims|
  {
    var claim := s.claims[k];
    && claim.owner < |s.slots|
    && k <= s.slots[claim.owner].held
    && claim.got <= c.buffers[k].size
    && (claim.carried > 0 ==> k >= c.submissionSize && SomeBytesBefore(c, k))
    && (!s.ec.IsSet() && !Holding(s, k) ==> claim.carried + claim.got >= c.buffers[k].size)
  }

  ghost predicate Counts(c: Config, s: State)
    requires Shape(c, s)
  {
    && Counted(Phases(s.slots), s.next, s.inFlight, s.posted, s.refused)
    && (s.refused ==> s.ec.IsSet())
    && c.submissionSize <= |s.claims|
    && (!s.ec.IsSet() && |s.claims| < |c.buffers| ==> forall t :: 0 <= t < |s.slots| ==> s.slots[t].phase != Retired)
  }

  ghost predicate Inv(c: Config, s: State) {
    && Shape(c, s)
    && Counts(c, s)
    && (forall t :: 0 <= t < |s.slots| ==> SlotOk(c, s, t))
    && (forall k :: 0 <= k < |s.claims| ==> ClaimOk(c, s, k))
  }

  /** A submitted range lies inside the buffer the transfer holds, and is empty only for an empty buffer. */
  lemma SlotWithin(c: Config, s: State, t: nat)
    requires Inv(c, s) && t < |s.slots| && s.slots[t].phase != Retired
    ensures var slot := s.slots[t]; var b := c.buffers[slot.held];
            && b.data <= slot.buffer && slot.buffer + slot.length <= b.data + b.size
            && slot.length <= c.limit
            && (b.size > 0 ==> slot.length > 0)
  {
    assert SlotOk(c, s, t);
  }

  lemma PreparedInv(c: Config)
    requires ValidConfig(c)
    ensures Inv(c, Prepared(c))
  {
    var s := Prepared(c);
    InFlightBounds(Phases(s.slots));
    forall k | 0 <= k < |s.claims| ensures ClaimOk(c, s, k) {
      assert s.slots[k].held == k && s.slots[k].phase != Retired;
      assert Holding(s, k);
    }
  }

  lemma CountsPreserved(c: Config, d: Device, s: State, e: Event)
    requires Shape(c, s) && Counts(c, s) && Enabled(c, d, s, e)
    ensures Counts(c, Step(c, s, e))
  {
    var phases := Phases(s.slots);
    match e {
      case Accept =>
        CountedAccept(phases, s.next, s.inFlight, s.posted);
        assert Phases(Step(c, s, e).slots) == phases[s.next := Pending];
        assert phases[s.next] == Ready;
      case Refuse(r) =>
      case Complete(t, actual, status, r) =>
        var p := React(c, s, t, actual, status, r).slot.phase;
        CountedComplete(phases, s.next, s.inFlight, s.posted, s.refused, t, p);
        assert Phases(Step(c, s, e).slots) == phases[t := p];
    }
  }

  lemma CompletedSlotOk(c: Config, d: Device, s: State, t: nat, actual: nat, status: int, r: int)
    requires Shape(c, s) && Enabled(c, d, s, Complete(t, actual, status, r)) && SlotOk(c, s, t)
    ensures SlotOk(c, Step(c, s, Complete(t, actual, status, r)), t)
  {
  }

  lemma OtherSlotOk(c: Config, d: Device, s: State, e: Event, u: nat)
    requires Shape(c, s) && Enabled(c, d, s, e)
    requires u < |s.slots| && SlotOk(c, s, u) && (e.Complete? ==> u != e.t && SlotOk(c, s, e.t))
    requires FreshSubmission(s, e)
    ensures SlotOk(c, Step(c, s, e), u)
  {
    if e.Complete? {
      assert s.slots[u].held != s.slots[e.t].held;
    }
  }

  lemma SlotsPreserved(c: Config, d: Device, s: State, e: Event)
    requires Inv(c, s) && Enabled(c, d, s, e)
    ensures var s' := Step(c, s, e); forall t :: 0 <= t < |s'.slots| ==> SlotOk(c, s', t)
  {
    forall u | 0 <= u < |s.slots| ensures SlotOk(c, Step(c, s, e), u) {
      if e.Complete? && u == e.t {
        CompletedSlotOk(c, d, s, e.t, e.actual, e.status, e.r);
      } else {
        OtherSlotOk(c, d, s, e, u);
      }
    }
  }

  lemma FreshClaimOk(c: Config, d: Device, s: State, e: Event)
    requires Shape(c, s) && Enabled(c, d, s, e) && c.submissionSize <= |s.claims|
    requires e.Complete? && SlotOk(c, s, e.t) && ClaimOk(c, s, s.slots[e.t].held)
    requires |s.claims| < |Step(c, s, e).claims|
    ensures ClaimOk(c, Step(c, s, e), |s.claims|)
  {
    var h := s.slots[e.t].held;
    var k := |s.claims|;
    if s.claims[h].carried + s.claims[h].got + e.actual > 0 {
      if s.claims[h].carried > 0 {
        var j :| 0 <= j < h && c.buffers[j].size > 0;
      } else {
        assert c.buffers[h].size > 0;
      }
      assert SomeBytesBefore(c, k);
    }
  }

  lemma HeldClaimOk(c: Config, d: Device, s: State, e: Event)
    requires Shape(c, s) && Enabled(c, d, s, e)
    requires e.Complete? && SlotOk(c, s, e.t) && ClaimOk(c, s, s.slots[e.t].held)
    ensures ClaimOk(c, Step(c, s, e), s.slots[e.t].held)
  {
  }

  lemma OtherClaimOk(c: Config, d: Device, s: State, e: Event, k: nat)
    requires Shape(c, s) && Enabled(c, d, s, e)
    requires k < |s.claims| && ClaimOk(c, s, k) && (e.Complete? ==> k != s.slots[e.t].held)
    requires FreshSubmission(s, e)
    ensures ClaimOk(c, Step(c, s, e), k)
  {
    var s' := Step(c, s, e);
    assert s'.claims[k] == s.claims[k];
    assert Holding(s, k) ==> Holding(s', k);
  }

  lemma ClaimsPreserved(c: Config, d: Device, s: State, e: Event)
    requires Inv(c, s) && Enabled(c, d, s, e)
    ensures var s' := Step(c, s, e); forall k :: 0 <= k < |s'.claims| ==> ClaimOk(c, s', k)
  {
    forall k | 0 <= k < |Step(c, s, e).claims| ensures ClaimOk(c, Step(c, s, e), k) {
      if k == |s.claims| {
        FreshClaimOk(c, d, s, e);
      } else if e.Complete? && k == s.slots[e.t].held {
        HeldClaimOk(c, d, s, e);
      } else {
        OtherClaimOk(c, d, s, e, k);
      }
    }
  }

  lemma StepInv(c: Config, d: Device, s: State, e: Event)
    requires Inv(c, s) && Enabled(c, d, s, e)
    ensures Inv(c, Step(c, s, e))
  {
    CountsPreserved(c, d, s, e);
    SlotsPreserved(c, d, s, e);
    ClaimsPreserved(c, d, s, e);
  }
}
