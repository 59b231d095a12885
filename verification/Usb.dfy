/** What both transfer engines share: libusb codes, buffers, device behaviour, events and the completion log. */
module Usb {
  import opened Wrappers

  const INT_MAX: nat := 0x7fff_ffff
  const LIBUSB_SUCCESS: int := 0
  const LIBUSB_TRANSFER_COMPLETED: int := 0
  const LIBUSB_TRANSFER_CANCELLED: int := 3

  datatype Category = SystemCategory | TransferStatusCategory | UsbErrorCategory

  /** std::error_code: it converts to true exactly when its value is not zero. */
  datatype ErrorCode = ErrorCode(value: int, category: Category) {
    predicate IsSet() {
      value != 0
    }
  }

  const NO_ERROR: ErrorCode := ErrorCode(0, SystemCategory)

  function MakeTransferStatus(v: int): ErrorCode {
    ErrorCode(v, TransferStatusCategory)
  }

  function MakeUsbErrorCode(v: int): ErrorCode {
    ErrorCode(v, UsbErrorCategory)
  }

  function Min(a: nat, b: nat): nat {
    if b < a then b else a
  }

  /** A caller's buffer: the addresses data, data + 1, ..., data + size - 1. */
  datatype Buffer = Buffer(data: nat, size: nat)

  /** One operation: its buffers, the number of transfers it uses, and the complete engine's limit. */
  datatype Config = Config(buffers: seq<Buffer>, submissionSize: nat, limit: nat)

  /** The fields of a libusb_transfer that the engines write. */
  class UsbTransfer {
    var buffer: nat
    var length: int

    constructor ()
      ensures buffer == 0 && length == 0
    {
      buffer, length := 0, 0;
    }
  }

  function Sizes(buffers: seq<Buffer>): (a: seq<int>)
    ensures |a| == |buffers| && forall k :: 0 <= k < |a| ==> a[k] == buffers[k].size
  {
    seq(|buffers|, k requires 0 <= k < |buffers| => buffers[k].size)
  }

  ghost predicate Disjoint(buffers: seq<Buffer>) {
    forall i, j :: 0 <= i < j < |buffers| ==>
      buffers[i].data + buffers[i].size <= buffers[j].data || buffers[j].data + buffers[j].size <= buffers[i].data
  }

  ghost predicate ValidOperation(c: Config) {
    1 <= c.submissionSize <= |c.buffers|
  }

  ghost predicate ValidConfig(c: Config) {
    ValidOperation(c) && 1 <= c.limit <= INT_MAX
  }

  /** A size_t assigned to the int field libusb_transfer::length. */
  function ToInt(x: nat): int {
    var low := x % 0x1_0000_0000;
    if low <= INT_MAX then low else low - 0x1_0000_0000
  }

  /** The narrowing keeps the value modulo 2 to the 32 and lands in the range of an int. */
  lemma NarrowingIsModular(x: nat)
    ensures -0x8000_0000 <= ToInt(x) < 0x8000_0000 && (x - ToInt(x)) % 0x1_0000_0000 == 0
    ensures ToInt(x) <= x && (ToInt(x) == x <==> x < 0x8000_0000)
  {
  }

  /** As much as is left, up to the limit. */
  predicate AsMuchAsAllowed(length: int, rest: int, limit: int) {
    length <= rest && length <= limit && (length == rest || length == limit)
  }

  /** Where a transfer is: not yet submitted, owned by libusb, or done for this operation. */
  datatype Phase = Ready | Pending | Retired

  /** What a successful completion may report as its actual length. */
  datatype Device = AnyLength | Progressing | FullLength

  /** A submission of a negative length asks for no bytes. */
  predicate Allows(d: Device, length: int, actual: nat, status: int) {
    var asked := if length < 0 then 0 else length;
    && actual <= asked
    && (status == LIBUSB_TRANSFER_COMPLETED ==>
      match d
      case AnyLength => true
      case Progressing => asked > 0 ==> actual > 0
      case FullLength => actual == asked)
  }

  /**
   * Accept and Refuse are one iteration of the initial submission loop, which runs on the executor's thread.
   * Complete is one callback on the event thread; r is what libusb answers if the callback resubmits.
   */
  datatype Event = Accept | Refuse(r: int) | Complete(t: nat, actual: nat, status: int, r: int)

  function Callbacks(evs: seq<Event>): nat {
    if evs == [] then 0 else (if evs[0].Complete? then 1 else 0) + Callbacks(evs[1..])
  }

  /** libusb reports each of the cancelled transfers, when it completes next, as cancelled. */
  ghost predicate Honoured(cancelled: set<nat>, evs: seq<Event>) {
    evs == [] ||
    (if evs[0].Complete?
     then (evs[0].t in cancelled ==> evs[0].status == LIBUSB_TRANSFER_CANCELLED)
          && Honoured(cancelled - {evs[0].t}, evs[1..])
     else Honoured(cancelled, evs[1..]))
  }

  lemma {:induction false} NothingToHonour(evs: seq<Event>)
    ensures Honoured({}, evs)
  {
    if evs == [] {
    } else {
      assert evs[0].Complete? ==> {} - {evs[0].t} == {};
      NothingToHonour(evs[1..]);
    }
  }

  /** The history of an operation as libusb sees it. */
  datatype Record =
    | Done(t: nat, buf: nat, addr: nat, actual: nat, status: int, resubmit: Option<int>)
    | Refused(r: int)

  /** What an event or a record says about libusb: a completion, or a refused submission. */
  datatype Observation = Completed(t: nat, actual: nat, status: int) | Rejected(r: int)

  function Noted(e: Event): seq<Observation> {
    match e
    case Accept => []
    case Refuse(r) => [Rejected(r)]
    case Complete(t, actual, status, _) => [Completed(t, actual, status)]
  }

  function Happened(evs: seq<Event>): seq<Observation> {
    if evs == [] then [] else Noted(evs[0]) + Happened(evs[1..])
  }

  lemma JoinObserved(x: seq<Observation>, y: seq<Observation>, z: seq<Observation>)
    ensures (x + y) + z == x + (y + z)
  {
  }

  function Observed(rec: Record): Observation {
    match rec
    case Done(t, _, _, actual, status, _) => Completed(t, actual, status)
    case Refused(r) => Rejected(r)
  }

  function Logged(log: seq<Record>): (o: seq<Observation>)
    ensures |o| == |log| && forall i :: 0 <= i < |log| ==> o[i] == Observed(log[i])
  {
    seq(|log|, i requires 0 <= i < |log| => Observed(log[i]))
  }

  /** A submission that libusb refused, a completion with another status than completed, or a refused resubmission. */
  predicate Failed(rec: Record) {
    match rec
    case Refused(r) => r != LIBUSB_SUCCESS
    case Done(_, _, _, _, status, resubmit) =>
      status != LIBUSB_TRANSFER_COMPLETED || (resubmit.Some? && resubmit.value != LIBUSB_SUCCESS)
  }

  /** The code is the failed record's: its status as a transfer status, or libusb's answer as a usb error. */
  predicate Reports(rec: Record, ec: ErrorCode) {
    match rec
    case Refused(r) => ec.value == r && ec.category == TransferStatusCategory
    case Done(_, _, _, _, status, resubmit) =>
      if status != LIBUSB_TRANSFER_COMPLETED then ec.value == status && ec.category == TransferStatusCategory
      else resubmit.Some? && ec.value == resubmit.value && ec.category == UsbErrorCategory
  }

  /** No record before the i-th failed. */
  predicate CleanBefore(log: seq<Record>, i: nat) {
    forall j :: 0 <= j < i && j < |log| ==> !Failed(log[j])
  }

  /** Bytes of the records up to and including the first that failed. */
  function CountedBytes(log: seq<Record>): nat {
    if log == [] then 0
    else
      var last := |log| - 1;
      CountedBytes(log[..last]) + (if CleanBefore(log, last) && log[last].Done? then log[last].actual else 0)
  }

  /** Bytes that completions on buffer k brought. */
  function Received(log: seq<Record>, k: nat): nat {
    if log == [] then 0
    else
      var last := log[|log| - 1];
      Received(log[..|log| - 1], k) + (if last.Done? && last.buf == k then last.actual else 0)
  }

  /** Bytes that transfer t moved on buffers claimed before buffer k. */
  function MovedBefore(log: seq<Record>, t: nat, k: nat): nat {
    if log == [] then 0
    else
      var last := log[|log| - 1];
      MovedBefore(log[..|log| - 1], t, k) + (if last.Done? && last.t == t && last.buf < k then last.actual else 0)
  }

  /** Completions on buffer k. */
  function TimesCompleted(log: seq<Record>, k: nat): nat {
    if log == [] then 0
    else
      var last := log[|log| - 1];
      TimesCompleted(log[..|log| - 1], k) + (if last.Done? && last.buf == k then 1 else 0)
  }

  lemma LogAppend(log: seq<Record>, rec: Record, t: nat, k: nat)
    ensures CountedBytes(log + [rec]) ==
            CountedBytes(log) + (if CleanBefore(log, |log|) && rec.Done? then rec.actual else 0)
    ensures Received(log + [rec], k) == Received(log, k) + (if rec.Done? && rec.buf == k then rec.actual else 0)
    ensures MovedBefore(log + [rec], t, k) ==
            MovedBefore(log, t, k) + (if rec.Done? && rec.t == t && rec.buf < k then rec.actual else 0)
    ensures TimesCompleted(log + [rec], k) == TimesCompleted(log, k) + (if rec.Done? && rec.buf == k then 1 else 0)
  {
    var all := log + [rec];
    assert all[..|all| - 1] == log && all[|all| - 1] == rec;
    assert CleanBefore(all, |log|) == CleanBefore(log, |log|) by {
      assert forall j :: 0 <= j < |log| ==> all[j] == log[j];
    }
  }

  /** The i-th record is the first that failed, and ec reports it. */
  predicate FirstErrorAt(log: seq<Record>, ec: ErrorCode, i: nat) {
    i < |log| && CleanBefore(log, i) && Failed(log[i]) && Reports(log[i], ec)
  }

  ghost predicate FirstError(log: seq<Record>, ec: ErrorCode) {
    exists i: nat :: FirstErrorAt(log, ec, i)
  }

  /** What a log lets an operation report: no error if nothing failed, else the first failure. */
  ghost predicate Outcome(log: seq<Record>, ec: ErrorCode) {
    if CleanBefore(log, |log|) then ec.value == 0 && ec.category == SystemCategory else FirstError(log, ec)
  }

  /** The error code and the refusal that a log leaves; only a refused submission overwrites an error. */
  ghost predicate ErrorLogged(log: seq<Record>, ec: ErrorCode, refused: bool) {
    && (ec.IsSet() <==> !CleanBefore(log, |log|))
    && (!refused ==> (forall i :: 0 <= i < |log| ==> log[i].Done?) && Outcome(log, ec))
    && (!ec.IsSet() ==> ec == NO_ERROR)
  }

  lemma ErrorLoggedAppend(log: seq<Record>, ec: ErrorCode, refused: bool, rec: Record, ec': ErrorCode)
    requires ErrorLogged(log, ec, refused) && (rec.Refused? ==> Failed(rec))
    requires if ec.IsSet() && rec.Done? then ec' == ec else if Failed(rec) then Reports(rec, ec') else ec' == ec
    ensures ErrorLogged(log + [rec], ec', refused || rec.Refused?)
  {
    var log' := log + [rec];
    if ec.IsSet() {
      var j :| 0 <= j < |log| && Failed(log[j]);
      assert log'[j] == log[j];
      if !refused && rec.Done? {
        var i: nat :| FirstErrorAt(log, ec, i);
        assert FirstErrorAt(log', ec, i);
      }
    } else {
      assert log'[|log|] == rec;
      if rec.Done? && Failed(rec) {
        assert FirstErrorAt(log', ec', |log|);
      }
    }
  }

  /** The i-th record's bytes start where the bytes received before for its buffer end, and end inside the buffer. */
  ghost predicate InPlace(c: Config, log: seq<Record>, i: nat)
    requires i < |log| && log[i].Done?
  {
    && log[i].buf < |c.buffers|
    && log[i].addr == c.buffers[log[i].buf].data + Received(log[..i], log[i].buf)
    && Received(log[..i], log[i].buf) + log[i].actual <= c.buffers[log[i].buf].size
  }

  ghost predicate Contiguous(c: Config, log: seq<Record>) {
    forall i :: 0 <= i < |log| && log[i].Done? ==> InPlace(c, log, i)
  }

  /** Each record's transfer is the one given for its buffer. */
  ghost predicate ServedBy(log: seq<Record>, owners: seq<nat>) {
    forall i :: 0 <= i < |log| && log[i].Done? ==> log[i].buf < |owners| && log[i].t == owners[log[i].buf]
  }

  /** From the i-th record on, no callback submitted again. */
  ghost predicate NoResubmission(log: seq<Record>, i: nat) {
    forall j :: i <= j < |log| && log[j].Done? ==> log[j].resubmit == None
  }

  lemma JoinLogs(x: seq<Record>, y: seq<Record>, z: seq<Record>)
    requires x <= y <= z && NoResubmission(y, |x|) && NoResubmission(z, |y|)
    ensures NoResubmission(z, |x|)
  {
    assert forall j :: 0 <= j < |y| ==> z[j] == y[j];
  }

  lemma {:induction false} NothingReceived(log: seq<Record>, k: nat)
    requires forall i :: 0 <= i < |log| && log[i].Done? ==> log[i].buf < k
    ensures Received(log, k) == 0
  {
    if log == [] {
    } else {
      NothingReceived(log[..|log| - 1], k);
    }
  }

  /** If t never went past buffer h and alone served it, all that t moved is what it moved before h and on h. */
  lemma {:induction false} MovedSplit(log: seq<Record>, owners: seq<nat>, h: nat, k: nat)
    requires h < k && h < |owners| && ServedBy(log, owners)
    requires forall i :: 0 <= i < |log| && log[i].Done? && log[i].t == owners[h] ==> log[i].buf <= h
    ensures MovedBefore(log, owners[h], k) == MovedBefore(log, owners[h], h) + Received(log, h)
  {
    if log == [] {
    } else {
      MovedSplit(log[..|log| - 1], owners, h, k);
    }
  }
}
