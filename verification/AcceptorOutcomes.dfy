/** How often an accept is resumed, what it reports, and whether the store can hold a departed device. */
module AcceptorOutcomes {
  import opened Wrappers
  import opened DeviceTriplet
  import opened Acceptor

  // ---- One post per accept ----

  /** The stop callback fires for an accept that was already posted and has not resumed: the code does not look. */
  ghost predicate Stray<W>(fleet: seq<Descriptor>, s: State<W>, e: Event<W>, w: W)
    requires Enabled(fleet, s, e)
  {
    e == StopFn(w) && s.accepts[w].stage == Registered && s.accepts[w].posts > 0
  }

  ghost function Strays<W>(fleet: seq<Descriptor>, s: State<W>, evs: seq<Event<W>>, w: W): nat
    requires Inv(s) && Feasible(fleet, s, evs)
    decreases evs
  {
    if evs == [] then 0
    else
      StepInv(fleet, s, evs[0]);
      (if Stray(fleet, s, evs[0], w) then 1 else 0) + Strays(fleet, Step(fleet, s, evs[0]), evs[1..], w)
  }

  /** What an accept has after k stray stops. */
  ghost predicate OutcomeOk(a: Accept, k: nat) {
    match a.stage
    case Checked => k == 0 && a.posts == 0 && !a.cancelled && a.device == None
    case Immediate => k == 0 && a.posts == 0 && (a.cancelled <==> a.device == None)
    case _ =>
      if a.posts == 0 then k == 0 && a.stage == Registered && !a.cancelled && a.device == None
      else a.posts == 1 + k && (if k == 0 then a.cancelled <==> a.device == None else a.cancelled)
  }

  lemma StepOutcome<W>(fleet: seq<Descriptor>, s: State<W>, e: Event<W>, w: W, k: nat)
    requires Shape(s) && Enabled(fleet, s, e)
    requires if w in s.accepts then OutcomeOk(s.accepts[w], k) && AcceptOk(s.waiters, w, s.accepts[w])
             else k == 0 && w !in s.waiters
    ensures var s' := Step(fleet, s, e); var k' := if Stray(fleet, s, e, w) then k + 1 else k;
            if w in s'.accepts then OutcomeOk(s'.accepts[w], k') else k' == 0
  {
    if e.Arrive? && s.waiters != [] {
      assert s.waiters[0] in s.waiters;
    }
  }

  lemma {:induction false} RunOutcome<W>(fleet: seq<Descriptor>, s: State<W>, evs: seq<Event<W>>, w: W, k: nat)
    requires Inv(s) && Feasible(fleet, s, evs)
    requires if w in s.accepts then OutcomeOk(s.accepts[w], k) else k == 0
    ensures var s' := Run(fleet, s, evs); var k' := k + Strays(fleet, s, evs, w);
            if w in s'.accepts then OutcomeOk(s'.accepts[w], k') else k' == 0
    decreases evs
  {
    if evs == [] {
    } else {
      StepInv(fleet, s, evs[0]);
      assert w in s.accepts ==> AcceptOk(s.waiters, w, s.accepts[w]);
      StepOutcome(fleet, s, evs[0], w, k);
      RunOutcome(fleet, Step(fleet, s, evs[0]), evs[1..], w, if Stray(fleet, s, evs[0], w) then k + 1 else k);
    }
  }

  /**
   * An accept's continuation is posted at most once in a run if and only if no stray stop hit it. Then a resumed
   * accept has a device or a cancellation, never both and never neither; an accept that is not registered yet, or
   * never had to wait, was not posted at all.
   */
  lemma PostedOnceExactlyWhen<W>(fleet: seq<Descriptor>, evs: seq<Event<W>>, w: W)
    requires Feasible(fleet, Start(), evs) && w in Run(fleet, Start<W>(), evs).accepts
    ensures var a := Run(fleet, Start(), evs).accepts[w]; var k := Strays(fleet, Start(), evs, w);
            && (a.posts <= 1 <==> k == 0)
            && (a.stage == Resumed && k == 0 ==> a.posts == 1 && (a.cancelled <==> a.device == None))
            && (k > 0 ==> a.cancelled)
            && (a.stage == Checked || a.stage == Immediate ==> a.posts == 0)
  {
    RunOutcome(fleet, Start<W>(), evs, w, 0);
  }

  lemma RunCons<W>(fleet: seq<Descriptor>, s: State<W>, e: Event<W>, s': State<W>, rest: seq<Event<W>>)
    requires Inv(s) && Enabled(fleet, s, e) && s' == Step(fleet, s, e) && Inv(s') && Feasible(fleet, s', rest)
    ensures Feasible(fleet, s, [e] + rest) && Run(fleet, s, [e] + rest) == Run(fleet, s', rest)
  {
    assert ([e] + rest)[0] == e && ([e] + rest)[1..] == rest;
  }

  lemma {:induction false} RunConcat<W>(fleet: seq<Descriptor>, s: State<W>, xs: seq<Event<W>>, ys: seq<Event<W>>)
    requires Inv(s) && Feasible(fleet, s, xs) && Feasible(fleet, Run(fleet, s, xs), ys)
    ensures Feasible(fleet, s, xs + ys) && Run(fleet, s, xs + ys) == Run(fleet, Run(fleet, s, xs), ys)
    decreases xs
  {
    if xs == [] {
      assert xs + ys == ys;
    } else {
      assert (xs + ys)[1..] == xs[1..] + ys;
      StepInv(fleet, s, xs[0]);
      RunConcat(fleet, Step(fleet, s, xs[0]), xs[1..], ys);
    }
  }

  /** The acceptor listens, and nothing else has happened. */
  ghost function Listening<W>(): (s: State<W>)
    ensures Inv(s)
  {
    State([], [], true, map[], {}, [], [])
  }

  /** The acceptor listens, and one accept waits. */
  ghost function OneWaiting<W>(w: W): (s: State<W>)
    ensures Inv(s)
  {
    State([w], [], true, map[w := Accept(Registered, None, false, 0, false)], {}, [], [w])
  }

  function WaitFirst<W>(w: W): seq<Event<W>> {
    [Listen] + ([CheckReady(w)] + ([Suspend(w, false)] + []))
  }

  lemma WaitFirstRun<W>(fleet: seq<Descriptor>, w: W)
    ensures Feasible(fleet, Start(), WaitFirst(w)) && Run(fleet, Start(), WaitFirst(w)) == OneWaiting(w)
  {
    var s1 := Listening<W>();
    var s2 := Step(fleet, s1, CheckReady(w));
    StepInv(fleet, s1, CheckReady(w));
    assert Step(fleet, s2, Suspend(w, false)) == OneWaiting(w);
    RunCons(fleet, s2, Suspend(w, false), OneWaiting(w), []);
    RunCons(fleet, s1, CheckReady(w), s2, [Suspend(w, false)] + []);
    RunCons(fleet, Start<W>(), Listen, s1, [CheckReady(w)] + ([Suspend(w, false)] + []));
  }

  /** The shortest stray stop: listen, an accept waits, its device arrives, its stop fires before it resumes. */
  lemma PostedTwice<W>(desc: Descriptor, w: W)
    ensures var evs := WaitFirst(w) + ([Arrive(0)] + ([StopFn(w)] + []));
            && Feasible([desc], Start(), evs)
            && w in Run([desc], Start(), evs).accepts
            && Run([desc], Start(), evs).accepts[w] == Accept(Registered, Some(0), true, 2, true)
  {
    var rest := [Arrive(0)] + ([StopFn(w)] + []);
    var s3 := Step([desc], OneWaiting(w), Arrive(0));
    StepInv([desc], OneWaiting(w), Arrive(0));
    assert s3.accepts == map[w := Accept(Registered, Some(0), false, 1, false)];
    StopAfterPost([desc], s3, w);
    RunCons([desc], OneWaiting(w), Arrive(0), s3, [StopFn(w)] + []);
    WaitFirstRun([desc], w);
    RunConcat([desc], Start<W>(), WaitFirst(w), rest);
  }

  lemma StopAfterPost<W>(fleet: seq<Descriptor>, s: State<W>, w: W)
    requires Inv(s) && w in s.accepts && s.accepts[w].stage == Registered && !s.accepts[w].stopped
    ensures Feasible(fleet, s, [StopFn(w)] + [])
    ensures w in Run(fleet, s, [StopFn(w)] + []).accepts
    ensures Run(fleet, s, [StopFn(w)] + []).accepts[w] == CancelAndPost(s.accepts[w]).(stopped := true)
  {
    StepInv(fleet, s, StopFn(w));
    RunCons(fleet, s, StopFn(w), Step(fleet, s, StopFn(w)), []);
  }

  // ---- Departures ----

  /** Triplets from descriptors have no wildcard, so they match only if they are equal. */
  lemma ConcreteMatchIsEquality(a: Descriptor, b: Descriptor)
    ensures WildcardMatch(TripletFromDescriptor(a), TripletFromDescriptor(b)) <==>
            TripletFromDescriptor(a) == TripletFromDescriptor(b)
  {
  }

  function TripletOf(fleet: seq<Descriptor>, dev: nat): Triplet
    requires dev < |fleet|
  {
    TripletFromDescriptor(fleet[dev])
  }

  function StoredWith(stored: seq<DevInfo>, triplet: Triplet): nat {
    if stored == [] then 0
    else StoredWith(stored[..|stored| - 1], triplet) + (if stored[|stored| - 1].triplet == triplet then 1 else 0)
  }

  ghost function AttachedWith(fleet: seq<Descriptor>, attached: set<nat>, triplet: Triplet): set<nat> {
    set dev | dev in attached && dev < |fleet| && TripletOf(fleet, dev) == triplet
  }

  ghost predicate FromFleet<W>(fleet: seq<Descriptor>, s: State<W>) {
    && (forall i :: 0 <= i < |s.stored| ==>
          s.stored[i].dev < |fleet| && s.stored[i].triplet == TripletOf(fleet, s.stored[i].dev))
    && (forall dev :: dev in s.attached ==> dev < |fleet|)
  }

  lemma {:induction false} StoredWithSplit(a: seq<DevInfo>, b: seq<DevInfo>, triplet: Triplet)
    ensures StoredWith(a + b, triplet) == StoredWith(a, triplet) + StoredWith(b, triplet)
  {
    if b == [] {
      assert a + b == a;
    } else {
      assert (a + b)[..|a + b| - 1] == a + b[..|b| - 1];
      StoredWithSplit(a, b[..|b| - 1], triplet);
    }
  }

  lemma {:induction false} NoneStoredWith(stored: seq<DevInfo>, triplet: Triplet)
    requires forall i :: 0 <= i < |stored| ==> stored[i].triplet != triplet
    ensures StoredWith(stored, triplet) == 0
  {
    if stored == [] {
    } else {
      NoneStoredWith(stored[..|stored| - 1], triplet);
    }
  }

  lemma StoredWithRemoved(stored: seq<DevInfo>, i: nat, triplet: Triplet)
    requires i < |stored|
    ensures StoredWith(RemoveAt(stored, i), triplet) ==
            StoredWith(stored, triplet) - (if stored[i].triplet == triplet then 1 else 0)
  {
    assert stored == stored[..i] + ([stored[i]] + stored[i + 1..]);
    StoredWithSplit(stored[..i], [stored[i]] + stored[i + 1..], triplet);
    StoredWithSplit([stored[i]], stored[i + 1..], triplet);
    StoredWithSplit(stored[..i], stored[i + 1..], triplet);
    assert [stored[i]][..0] == [];
  }

  /** No more stored devices with a triplet than attached ones. */
  ghost predicate NotOutnumbered<W>(fleet: seq<Descriptor>, s: State<W>, triplet: Triplet) {
    StoredWith(s.stored, triplet) <= |AttachedWith(fleet, s.attached, triplet)|
  }

  lemma AttachedChange(fleet: seq<Descriptor>, attached: set<nat>, dev: nat, triplet: Triplet)
    requires dev < |fleet| && dev !in attached
    ensures |AttachedWith(fleet, attached + {dev}, triplet)| ==
            |AttachedWith(fleet, attached, triplet)| + (if TripletOf(fleet, dev) == triplet then 1 else 0)
  {
    var before := AttachedWith(fleet, attached, triplet);
    if TripletOf(fleet, dev) == triplet {
      assert AttachedWith(fleet, attached + {dev}, triplet) == before + {dev};
    } else {
      assert AttachedWith(fleet, attached + {dev}, triplet) == before;
    }
  }

  lemma StepNotOutnumbered<W>(fleet: seq<Descriptor>, s: State<W>, e: Event<W>, triplet: Triplet)
    requires Shape(s) && FromFleet(fleet, s) && Enabled(fleet, s, e) && NotOutnumbered(fleet, s, triplet)
    ensures FromFleet(fleet, Step(fleet, s, e)) && NotOutnumbered(fleet, Step(fleet, s, e), triplet)
  {
    var s' := Step(fleet, s, e);
    match e {
      case Arrive(dev) =>
        AttachedChange(fleet, s.attached, dev, triplet);
        if s.waiters == [] {
          StoredWithRemoved(s'.stored, |s.stored|, triplet);
          assert RemoveAt(s'.stored, |s.stored|) == s.stored;
        }
      case Leave(dev) =>
        LeaveNotOutnumbered(fleet, s, dev, triplet);
      case CheckReady(w) =>
        TakeLastStored(s, w, triplet);
      case Suspend(w, stopRequested) =>
        TakeLastStored(s, w, triplet);
      case Shutdown =>
      case Listen =>
      case StopFn(w) =>
      case ResumeAccept(w) =>
    }
  }

  lemma TakeLastStored<W>(s: State<W>, w: W, triplet: Triplet)
    requires Shape(s)
    ensures s.stored != [] ==> StoredWith(TakeLast(s, w).stored, triplet) <= StoredWith(s.stored, triplet)
  {
  }

  lemma LeaveNotOutnumbered<W>(fleet: seq<Descriptor>, s: State<W>, dev: nat, triplet: Triplet)
    requires Shape(s) && FromFleet(fleet, s) && Enabled(fleet, s, Leave(dev)) && NotOutnumbered(fleet, s, triplet)
    ensures NotOutnumbered(fleet, Step(fleet, s, Leave(dev)), triplet)
    ensures FromFleet(fleet, Step(fleet, s, Leave(dev)))
  {
    var gone := TripletOf(fleet, dev);
    var i := FirstMatch(s.stored, gone);
    assert s.attached - {dev} + {dev} == s.attached;
    AttachedChange(fleet, s.attached - {dev}, dev, triplet);
    if i < |s.stored| {
      ConcreteMatchIsEquality(fleet[s.stored[i].dev], fleet[dev]);
      StoredWithRemoved(s.stored, i, triplet);
    } else {
      NoneStoredWith(s.stored, gone);
    }
  }

  lemma {:induction false} RunNotOutnumbered<W>(
    fleet: seq<Descriptor>, s: State<W>, evs: seq<Event<W>>, triplet: Triplet)
    requires Inv(s) && FromFleet(fleet, s) && Feasible(fleet, s, evs) && NotOutnumbered(fleet, s, triplet)
    ensures FromFleet(fleet, Run(fleet, s, evs)) && NotOutnumbered(fleet, Run(fleet, s, evs), triplet)
    decreases evs
  {
    if evs == [] {
    } else {
      StepInv(fleet, s, evs[0]);
      StepNotOutnumbered(fleet, s, evs[0], triplet);
      RunNotOutnumbered(fleet, Step(fleet, s, evs[0]), evs[1..], triplet);
    }
  }

  /** In every run, for every triplet, the store never holds more devices with it than are attached. */
  lemma NeverOutnumbered<W>(fleet: seq<Descriptor>, evs: seq<Event<W>>, triplet: Triplet)
    requires Feasible(fleet, Start<W>(), evs)
    ensures NotOutnumbered(fleet, Run(fleet, Start(), evs), triplet)
  {
    RunNotOutnumbered(fleet, Start<W>(), evs, triplet);
  }

  /** Every stored device is attached. */
  ghost predicate StoreCurrent<W>(s: State<W>) {
    forall i :: 0 <= i < |s.stored| ==> s.stored[i].dev in s.attached
  }

  ghost predicate DistinctTriplets(fleet: seq<Descriptor>) {
    forall i, j :: 0 <= i < j < |fleet| ==> TripletOf(fleet, i) != TripletOf(fleet, j)
  }

  ghost predicate DistinctDevices(stored: seq<DevInfo>) {
    forall i, j :: 0 <= i < j < |stored| ==> stored[i].dev != stored[j].dev
  }

  /** The departing device is stored, but another one with its triplet was stored before it. */
  ghost predicate Mistaken<W>(fleet: seq<Descriptor>, s: State<W>, e: Event<W>)
    requires Enabled(fleet, s, e)
  {
    e.Leave? && exists k :: FirstMatch(s.stored, TripletOf(fleet, e.dev)) < k < |s.stored| && s.stored[k].dev == e.dev
  }

  lemma LeaveStored<W>(fleet: seq<Descriptor>, s: State<W>, dev: nat)
    requires Shape(s) && FromFleet(fleet, s) && Enabled(fleet, s, Leave(dev)) && DistinctDevices(s.stored)
    ensures var s' := Step(fleet, s, Leave(dev)); FromFleet(fleet, s') && DistinctDevices(s'.stored)
  {
  }

  /** A departure leaves the store with attached devices only, if and only if it is not mistaken. */
  lemma LeaveCurrent<W>(fleet: seq<Descriptor>, s: State<W>, dev: nat)
    requires Shape(s) && FromFleet(fleet, s) && Enabled(fleet, s, Leave(dev))
    requires StoreCurrent(s) && DistinctDevices(s.stored)
    ensures var s' := Step(fleet, s, Leave(dev));
            && FromFleet(fleet, s') && DistinctDevices(s'.stored)
            && (StoreCurrent(s') <==> !Mistaken(fleet, s, Leave(dev)))
  {
    LeaveStored(fleet, s, dev);
    var i := FirstMatch(s.stored, TripletOf(fleet, dev));
    var s' := Step(fleet, s, Leave(dev));
    forall k | 0 <= k < |s.stored| && s.stored[k].dev == dev ensures i <= k {
      assert WildcardMatch(s.stored[k].triplet, TripletOf(fleet, dev));
    }
    if k :| i < k < |s.stored| && s.stored[k].dev == dev {
      assert s'.stored[k - 1] == s.stored[k];
    }
  }

  lemma StepCurrent<W>(fleet: seq<Descriptor>, s: State<W>, e: Event<W>)
    requires Shape(s) && FromFleet(fleet, s) && Enabled(fleet, s, e)
    requires StoreCurrent(s) && DistinctDevices(s.stored) && !e.Leave?
    ensures var s' := Step(fleet, s, e); FromFleet(fleet, s') && StoreCurrent(s') && DistinctDevices(s'.stored)
  {
  }

  ghost predicate AlwaysCurrent<W>(fleet: seq<Descriptor>, s: State<W>, evs: seq<Event<W>>)
    requires Inv(s) && Feasible(fleet, s, evs)
    decreases evs
  {
    && StoreCurrent(s)
    && (evs == [] || (StepInv(fleet, s, evs[0]); AlwaysCurrent(fleet, Step(fleet, s, evs[0]), evs[1..])))
  }

  ghost predicate NeverMistaken<W>(fleet: seq<Descriptor>, s: State<W>, evs: seq<Event<W>>)
    requires Inv(s) && Feasible(fleet, s, evs)
    decreases evs
  {
    evs == [] || (!Mistaken(fleet, s, evs[0])
                  && (StepInv(fleet, s, evs[0]); NeverMistaken(fleet, Step(fleet, s, evs[0]), evs[1..])))
  }

  /** No two attached devices share a triplet. */
  ghost predicate DistinctAttached(fleet: seq<Descriptor>, attached: set<nat>) {
    forall i, j :: i in attached && j in attached && i < j < |fleet| ==> TripletOf(fleet, i) != TripletOf(fleet, j)
  }

  ghost predicate AlwaysDistinct<W>(fleet: seq<Descriptor>, s: State<W>, evs: seq<Event<W>>)
    requires Inv(s) && Feasible(fleet, s, evs)
    decreases evs
  {
    && DistinctAttached(fleet, s.attached)
    && (evs == [] || (StepInv(fleet, s, evs[0]); AlwaysDistinct(fleet, Step(fleet, s, evs[0]), evs[1..])))
  }

  lemma {:induction false} RunCurrent<W>(fleet: seq<Descriptor>, s: State<W>, evs: seq<Event<W>>)
    requires Inv(s) && FromFleet(fleet, s) && Feasible(fleet, s, evs)
    requires StoreCurrent(s) && DistinctDevices(s.stored)
    ensures AlwaysCurrent(fleet, s, evs) <==> NeverMistaken(fleet, s, evs)
    ensures AlwaysCurrent(fleet, s, evs) ==> StoreCurrent(Run(fleet, s, evs))
    decreases evs
  {
    if evs == [] {
    } else {
      var s' := Step(fleet, s, evs[0]);
      StepInv(fleet, s, evs[0]);
      if evs[0].Leave? {
        LeaveCurrent(fleet, s, evs[0].dev);
      } else {
        StepCurrent(fleet, s, evs[0]);
      }
      if StoreCurrent(s') {
        RunCurrent(fleet, s', evs[1..]);
      }
    }
  }

  /** In every state of a run all stored devices are attached, if and only if the run has no mistaken departure. */
  lemma CurrentExactlyWhen<W>(fleet: seq<Descriptor>, evs: seq<Event<W>>)
    requires Feasible(fleet, Start<W>(), evs)
    ensures AlwaysCurrent(fleet, Start(), evs) <==> NeverMistaken(fleet, Start(), evs)
  {
    RunCurrent(fleet, Start<W>(), evs);
  }

  lemma NotMistaken<W>(fleet: seq<Descriptor>, s: State<W>, e: Event<W>)
    requires FromFleet(fleet, s) && StoreCurrent(s) && DistinctAttached(fleet, s.attached) && Enabled(fleet, s, e)
    requires DistinctDevices(s.stored)
    ensures !Mistaken(fleet, s, e)
  {
    if Mistaken(fleet, s, e) {
      var i := FirstMatch(s.stored, TripletOf(fleet, e.dev));
      ConcreteMatchIsEquality(fleet[s.stored[i].dev], fleet[e.dev]);
      assert false;
    }
  }

  lemma {:induction false} RunDistinct<W>(fleet: seq<Descriptor>, s: State<W>, evs: seq<Event<W>>)
    requires Inv(s) && FromFleet(fleet, s) && Feasible(fleet, s, evs) && AlwaysDistinct(fleet, s, evs)
    requires StoreCurrent(s) && DistinctDevices(s.stored)
    ensures NeverMistaken(fleet, s, evs)
    decreases evs
  {
    if evs == [] {
    } else {
      StepInv(fleet, s, evs[0]);
      NotMistaken(fleet, s, evs[0]);
      if evs[0].Leave? {
        LeaveCurrent(fleet, s, evs[0].dev);
      } else {
        StepCurrent(fleet, s, evs[0]);
      }
      RunDistinct(fleet, Step(fleet, s, evs[0]), evs[1..]);
    }
  }

  /** While no two devices with one triplet are attached at the same time, no departed device can be accepted. */
  lemma NoDepartedDevice<W>(fleet: seq<Descriptor>, evs: seq<Event<W>>)
    requires Feasible(fleet, Start<W>(), evs) && AlwaysDistinct(fleet, Start(), evs)
    ensures AlwaysCurrent(fleet, Start(), evs) && StoreCurrent(Run(fleet, Start(), evs))
  {
    RunDistinct(fleet, Start<W>(), evs);
    RunCurrent(fleet, Start<W>(), evs);
  }

  lemma {:induction false} DistinctFleet<W>(fleet: seq<Descriptor>, s: State<W>, evs: seq<Event<W>>)
    requires Inv(s) && Feasible(fleet, s, evs) && DistinctTriplets(fleet)
    ensures AlwaysDistinct(fleet, s, evs)
    decreases evs
  {
    if evs == [] {
    } else {
      StepInv(fleet, s, evs[0]);
      DistinctFleet(fleet, Step(fleet, s, evs[0]), evs[1..]);
    }
  }

  /** The acceptor listens, and one device is stored. */
  ghost function OneStored<W>(fleet: seq<Descriptor>, i: nat): (s: State<W>)
    requires i < |fleet|
    ensures Inv(s)
  {
    StepInv(fleet, Listening<W>(), Arrive(i));
    Step(fleet, Listening(), Arrive(i))
  }

  /** With a stored device, another with its triplet arrives and leaves: the first one is taken for it. */
  lemma StaleFromOne<W>(fleet: seq<Descriptor>, i: nat, j: nat)
    requires i < j < |fleet| && TripletOf(fleet, i) == TripletOf(fleet, j)
    ensures var evs := [Arrive(j)] + ([Leave(j)] + []);
            Feasible(fleet, OneStored<W>(fleet, i), evs) && !StoreCurrent(Run(fleet, OneStored<W>(fleet, i), evs))
  {
    var s1 := OneStored<W>(fleet, i);
    var s2 := Step(fleet, s1, Arrive(j));
    StepInv(fleet, s1, Arrive(j));
    assert s2.stored == [DevInfo(i, TripletOf(fleet, i), 0), DevInfo(j, TripletOf(fleet, j), 1)];
    StaleFromTwo(fleet, s2, j);
    RunCons(fleet, s1, Arrive(j), s2, [Leave(j)] + []);
  }

  lemma StaleFromTwo<W>(fleet: seq<Descriptor>, s: State<W>, j: nat)
    requires Inv(s) && j < |fleet| && j in s.attached && |s.stored| == 2
    requires s.stored[0].triplet == TripletOf(fleet, j) && s.stored[1].dev == j
    ensures Feasible(fleet, s, [Leave(j)] + []) && !StoreCurrent(Run(fleet, s, [Leave(j)] + []))
  {
    var s' := Step(fleet, s, Leave(j));
    assert FirstMatch(s.stored, TripletOf(fleet, j)) == 0;
    assert s'.stored[0].dev !in s'.attached;
    StepInv(fleet, s, Leave(j));
    RunCons(fleet, s, Leave(j), s', []);
  }

  /** The acceptor listens, twins arrive, and the second one leaves. */
  lemma StaleRun<W>(fleet: seq<Descriptor>, i: nat, j: nat)
    requires i < j < |fleet| && TripletOf(fleet, i) == TripletOf(fleet, j)
    ensures var evs: seq<Event<W>> := [Listen] + ([Arrive(i)] + ([Arrive(j)] + ([Leave(j)] + [])));
            Feasible(fleet, Start(), evs) && !StoreCurrent(Run(fleet, Start(), evs))
  {
    var rest: seq<Event<W>> := [Arrive(j)] + ([Leave(j)] + []);
    StaleFromOne<W>(fleet, i, j);
    RunCons(fleet, Listening<W>(), Arrive(i), OneStored<W>(fleet, i), rest);
    RunCons(fleet, Start<W>(), Listen, Listening<W>(), [Arrive(i)] + rest);
  }

  /** In all runs every stored device is attached, if and only if no two devices of the fleet share a triplet. */
  lemma NoDepartedDeviceExactlyWhen<W(!new)>(fleet: seq<Descriptor>)
    ensures (forall evs: seq<Event<W>> ::
               Feasible(fleet, Start<W>(), evs) ==> StoreCurrent(Run(fleet, Start<W>(), evs)))
            <==> DistinctTriplets(fleet)
  {
    if DistinctTriplets(fleet) {
      forall evs: seq<Event<W>> | Feasible(fleet, Start<W>(), evs) ensures StoreCurrent(Run(fleet, Start<W>(), evs)) {
        DistinctFleet(fleet, Start<W>(), evs);
        NoDepartedDevice(fleet, evs);
      }
    } else {
      var i, j :| 0 <= i < j < |fleet| && TripletOf(fleet, i) == TripletOf(fleet, j);
      StaleRun<W>(fleet, i, j);
    }
  }
}
