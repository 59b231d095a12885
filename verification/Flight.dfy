/** Transfers in flight, counted from the phases of an operation's transfers. */
module Flight {
  import opened Usb

  /** What a transfer adds to in_flight. */
  function Share(p: Phase): nat {
    if p == Retired then 0 else 1
  }

  /** Transfers that have not retired: those libusb owns, and those the submission loop has not submitted yet. */
  function InFlight(phases: seq<Phase>): nat {
    if phases == [] then 0 else InFlight(phases[..|phases| - 1]) + Share(phases[|phases| - 1])
  }

  /** Transfers that libusb owns. */
  function PendingCount(phases: seq<Phase>): nat {
    if phases == [] then 0
    else PendingCount(phases[..|phases| - 1]) + (if phases[|phases| - 1] == Pending then 1 else 0)
  }

  /** The transfers that libusb owns, which are those that a stop callback cancels with an effect. */
  function PendingSet(phases: seq<Phase>): (pending: set<nat>)
    ensures forall t: nat :: t in pending <==> t < |phases| && phases[t] == Pending
  {
    set t: nat | t < |phases| && phases[t] == Pending
  }

  lemma {:induction false} InFlightUpdate(phases: seq<Phase>, t: nat, p: Phase)
    requires t < |phases|
    ensures InFlight(phases[t := p]) == InFlight(phases) - Share(phases[t]) + Share(p)
  {
    var front := phases[..|phases| - 1];
    if t == |phases| - 1 {
      assert phases[t := p][..|phases| - 1] == front;
    } else {
      assert phases[t := p][..|phases| - 1] == front[t := p];
      InFlightUpdate(front, t, p);
    }
  }

  lemma {:induction false} InFlightBounds(phases: seq<Phase>)
    ensures InFlight(phases) <= |phases|
    ensures InFlight(phases) == 0 <==> forall t :: 0 <= t < |phases| ==> phases[t] == Retired
    ensures InFlight(phases) == |phases| <==> forall t :: 0 <= t < |phases| ==> phases[t] != Retired
  {
    if phases == [] {
    } else {
      InFlightBounds(phases[..|phases| - 1]);
    }
  }

  /** The submission loop has reached transfer next. */
  ghost predicate Submitted(phases: seq<Phase>, next: nat) {
    next <= |phases| && forall t :: 0 <= t < |phases| ==> (t >= next <==> phases[t] == Ready)
  }

  lemma {:induction false} InFlightSplit(phases: seq<Phase>, next: nat)
    requires Submitted(phases, next)
    ensures InFlight(phases) == PendingCount(phases) + (|phases| - next)
  {
    if phases == [] {
    } else {
      var front := phases[..|phases| - 1];
      InFlightSplit(front, if next < |phases| then next else next - 1);
    }
  }

  lemma {:induction false} PendingCountIsSize(phases: seq<Phase>)
    ensures PendingCount(phases) == |PendingSet(phases)|
  {
    if phases == [] {
      assert PendingSet(phases) == {};
    } else {
      var front, last := phases[..|phases| - 1], |phases| - 1;
      PendingCountIsSize(front);
      assert PendingSet(phases) == if phases[last] == Pending then PendingSet(front) + {last} else PendingSet(front);
    }
  }

  lemma {:induction false} NonePending(phases: seq<Phase>)
    ensures PendingCount(phases) == 0 <==> forall t :: 0 <= t < |phases| ==> phases[t] != Pending
  {
    if phases == [] {
    } else {
      NonePending(phases[..|phases| - 1]);
    }
  }

  /** What both engines' counters say about the phases, in every reachable state. */
  ghost predicate Counted(phases: seq<Phase>, next: nat, inFlight: int, posted: nat, refused: bool) {
    && Submitted(phases, next)
    && inFlight == InFlight(phases)
    && posted == (if inFlight == 0 then 1 else 0)
    && (refused ==> next < |phases|)
  }

  lemma CountedAccept(phases: seq<Phase>, next: nat, inFlight: int, posted: nat)
    requires Counted(phases, next, inFlight, posted, false) && next < |phases|
    ensures Counted(phases[next := Pending], next + 1, inFlight, posted, false)
  {
    InFlightUpdate(phases, next, Pending);
  }

  lemma CountedComplete(phases: seq<Phase>, next: nat, inFlight: int, posted: nat, refused: bool, t: nat, p: Phase)
    requires Counted(phases, next, inFlight, posted, refused) && t < |phases| && phases[t] == Pending && p != Ready
    ensures var n := inFlight - 1 + Share(p);
            inFlight >= 1 && Counted(phases[t := p], next, n, if n == 0 then posted + 1 else posted, refused)
  {
    InFlightUpdate(phases, t, p);
    InFlightBounds(phases);
  }

  /**
   * in_flight is the number of pending transfers plus those not yet accepted; so the continuation was posted at most
   * once, and exactly when every initial submission was accepted and nothing is pending.
   */
  lemma PostedOnce(phases: seq<Phase>, next: nat, inFlight: int, posted: nat, refused: bool)
    requires Counted(phases, next, inFlight, posted, refused)
    ensures inFlight == PendingCount(phases) + (|phases| - next) && PendingCount(phases) == |PendingSet(phases)|
    ensures posted <= 1
    ensures posted == 1 <==> next == |phases| && forall t :: 0 <= t < |phases| ==> phases[t] != Pending
    ensures posted == 1 ==> forall t :: 0 <= t < |phases| ==> phases[t] == Retired
    ensures refused ==> posted == 0
  {
    InFlightSplit(phases, next);
    PendingCountIsSize(phases);
    NonePending(phases);
    InFlightBounds(phases);
  }
}
