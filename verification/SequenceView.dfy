/** The view over a transfer sequence, whose end() answers its beginning, and the loops that rely on it. */
module SequenceView {

  /** Positions m_begin and m_end in the underlying sequence of transfers. */
  datatype View<T> = View(transfers: seq<T>, mBegin: nat, mEnd: nat) {
    ghost predicate Valid() {
      mBegin <= mEnd <= |transfers|
    }

    function Size(): nat
      requires Valid()
    {
      mEnd - mBegin
    }

    function Begin(): nat {
      mBegin
    }

    /** As the code has it. */
    function End(): nat {
      mBegin
    }

    /** The transfers that the view is over. */
    ghost function Viewed(): seq<T>
      requires Valid()
    {
      transfers[mBegin..mEnd]
    }
  }

  /** cancel_transfer on a range of a sequence: the transfers it cancels, in order. */
  method CancelTransfer<T>(transfers: seq<T>, begin: nat, end: nat) returns (cancelled: seq<T>)
    requires begin <= end <= |transfers|
    ensures cancelled == transfers[begin..end]
  {
    cancelled := [];
    var it := begin;
    while it != end
      invariant begin <= it <= end
      invariant cancelled == transfers[begin..it]
    {
      cancelled := cancelled + [transfers[it]];
      it := it + 1;
    }
  }

  /** cancel_transfer on a view: its range ends where it begins, so it cancels nothing, whatever the view is over. */
  method CancelView<T>(v: View<T>) returns (cancelled: seq<T>)
    requires v.Valid()
    ensures cancelled == []
    ensures cancelled == v.Viewed() <==> v.Size() == 0
  {
    cancelled := CancelTransfer(v.transfers, v.Begin(), v.End());
    assert |v.Viewed()| == v.Size();
  }

  /** The stop callback of both I/O objects: cancel_transfer on each of the first n transfers by itself. */
  method CancelFirst<T>(v: View<T>, n: nat) returns (cancelled: seq<T>)
    requires v.Valid() && n <= v.Size()
    ensures cancelled == v.Viewed()[..n]
  {
    cancelled := [];
    var iter, end := v.Begin(), v.Begin() + n;
    while iter != end
      invariant v.Begin() <= iter <= end
      invariant cancelled == v.Viewed()[..iter - v.Begin()]
    {
      var one := CancelTransfer([v.transfers[iter]], 0, 1);
      assert one == [v.Viewed()[iter - v.Begin()]];
      cancelled := cancelled + one;
      iter := iter + 1;
    }
  }

  /** The loops from begin() to end() + n visit transfers of the view only, its first n, if and only if it has n. */
  lemma SubmissionLoopInsideExactlyWhen<T>(v: View<T>, n: nat)
    requires v.Valid()
    ensures (v.End() + n <= |v.transfers| && v.transfers[v.Begin()..v.End() + n] <= v.Viewed()) <==> n <= v.Size()
  {
    if n <= v.Size() {
      assert v.transfers[v.Begin()..v.End() + n] == v.Viewed()[..n];
    } else if v.End() + n <= |v.transfers| {
      assert |v.transfers[v.Begin()..v.End() + n]| == n;
      assert |v.Viewed()| == v.Size();
    }
  }
}
