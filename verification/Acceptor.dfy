/**
 * The hotplug acceptor as a transition system: waiting accepts in a queue, devices that nobody waited for in a
 * stack, and one event per lock-protected section.
 */
module Acceptor {
  import opened Wrappers
  import opened DeviceTriplet

  /** A stored device, with the number of the arrival that brought it. */
  datatype DevInfo = DevInfo(dev: nat, triplet: Triplet, arrival: nat)

  /** Checked: found nothing ready. Registered: suspended once. Immediate: never suspended. Resumed: finished. */
  datatype Stage = Checked | Registered | Immediate | Resumed

  /** One accept: op_result, how often its continuation was posted, and whether its stop callback has fired. */
  datatype Accept = Accept(stage: Stage, device: Option<nat>, cancelled: bool, posts: nat, stopped: bool)

  const NEW_ACCEPT: Accept := Accept(Checked, None, false, 0, false)

  /** Where an arrival is. */
  datatype Place<W> = InStore | With(w: W) | Dropped

  datatype State<W> = State(waiters: seq<W>, stored: seq<DevInfo>, handle: bool, accepts: map<W, Accept>,
                            attached: set<nat>, places: seq<Place<W>>, registered: seq<W>)

  datatype Event<W> =
    | Listen
    | Arrive(dev: nat)
    | Leave(dev: nat)
    | CheckReady(w: W)                        // await_ready of a new accept
    | Suspend(w: W, stopRequested: bool)      // await_suspend
    | StopFn(w: W)                            // the stop callback
    | ResumeAccept(w: W)                      // the posted continuation runs
    | Shutdown

  ghost function Start<W>(): (s: State<W>)
    ensures Inv(s)
  {
    State([], [], false, map[], {}, [], [])
  }

  /** Devices attach and leave alternately; each accept checks, suspends, is stopped and resumes at most once. */
  ghost predicate Enabled<W>(fleet: seq<Descriptor>, s: State<W>, e: Event<W>) {
    match e
    case Listen => true
    case Arrive(dev) => dev < |fleet| && dev !in s.attached
    case Leave(dev) => dev < |fleet| && dev in s.attached
    case CheckReady(w) => w !in s.accepts
    case Suspend(w, _) => w in s.accepts && s.accepts[w].stage == Checked
    case StopFn(w) => w in s.accepts && s.accepts[w].stage != Resumed && !s.accepts[w].stopped
    case ResumeAccept(w) => w in s.accepts && s.accepts[w].stage == Registered && s.accepts[w].posts > 0
    case Shutdown => true
  }

  /** The position of the first stored device that matches, or the length of the list. */
  function FirstMatch(stored: seq<DevInfo>, triplet: Triplet): (i: nat)
    ensures i <= |stored|
    ensures forall j :: 0 <= j < i ==> !WildcardMatch(stored[j].triplet, triplet)
    ensures i < |stored| ==> WildcardMatch(stored[i].triplet, triplet)
  {
    if stored == [] then 0
    else if WildcardMatch(stored[0].triplet, triplet) then 0
    else 1 + FirstMatch(stored[1..], triplet)
  }

  function RemoveAt<T>(xs: seq<T>, i: nat): seq<T>
    requires i < |xs|
  {
    xs[..i] + xs[i + 1..]
  }

  ghost function Without<W>(xs: seq<W>, x: W): (ys: seq<W>)
    ensures |ys| <= |xs|
  {
    if xs == [] then []
    else if xs[0] == x then xs[1..]
    else [xs[0]] + Without(xs[1..], x)
  }

  /** Cancels an accept and posts its continuation. */
  function CancelAndPost(a: Accept): Accept {
    a.(cancelled := true, posts := a.posts + 1)
  }

  ghost function CancelWaiting<W>(accepts: map<W, Accept>, waiters: seq<W>): (m: map<W, Accept>)
    ensures m.Keys == accepts.Keys
    ensures forall w :: w in m ==> m[w] == if w in waiters then CancelAndPost(accepts[w]) else accepts[w]
  {
    map w | w in accepts :: if w in waiters then CancelAndPost(accepts[w]) else accepts[w]
  }

  /** Every waiting accept is cancelled, every stored device dropped. */
  ghost function Closed<W>(s: State<W>): State<W> {
    State([], [], false, CancelWaiting(s.accepts, s.waiters), s.attached, DropStored(s.places), s.registered)
  }

  /** The accept takes the device stored last. */
  ghost function TakeLast<W>(s: State<W>, w: W): State<W>
    requires s.stored != [] && s.stored[|s.stored| - 1].arrival < |s.places|
  {
    var info := s.stored[|s.stored| - 1];
    var a := if w in s.accepts then s.accepts[w] else NEW_ACCEPT;
    s.(stored := s.stored[..|s.stored| - 1],
       accepts := s.accepts[w := a.(stage := Immediate, device := Some(info.arrival))],
       places := s.places[info.arrival := With(w)])
  }

  ghost function DropStored<W>(places: seq<Place<W>>): (p: seq<Place<W>>)
    ensures |p| == |places|
    ensures forall n :: 0 <= n < |p| ==> p[n] == if places[n].InStore? then Dropped else places[n]
  {
    seq(|places|, n requires 0 <= n < |places| => if places[n].InStore? then Dropped else places[n])
  }

  ghost predicate Shape<W>(s: State<W>) {
    && (forall i :: 0 <= i < |s.stored| ==> s.stored[i].arrival < |s.places|)
    && (forall i :: 0 <= i < |s.waiters| ==> s.waiters[i] in s.accepts)
  }

  ghost function Step<W>(fleet: seq<Descriptor>, s: State<W>, e: Event<W>): State<W>
    requires Shape(s) && Enabled(fleet, s, e)
  {
    match e
    case Listen => s.(handle := true)
    case Arrive(dev) =>
      var s1 := s.(attached := s.attached + {dev});
      if s.waiters == [] then
        s1.(stored := s.stored + [DevInfo(dev, TripletFromDescriptor(fleet[dev]), |s.places|)],
            places := s.places + [InStore])
      else
        var w := s.waiters[0];
        s1.(waiters := s.waiters[1..],
            accepts := s.accepts[w := s.accepts[w].(device := Some(|s.places|), posts := s.accepts[w].posts + 1)],
            places := s.places + [With(w)])
    case Leave(dev) =>
      var s1 := s.(attached := s.attached - {dev});
      var i := FirstMatch(s.stored, TripletFromDescriptor(fleet[dev]));
      if i == |s.stored| then s1
      else s1.(stored := RemoveAt(s.stored, i), places := s.places[s.stored[i].arrival := Dropped])
    case CheckReady(w) =>
      if s.stored != [] then TakeLast(s, w)
      else s.(accepts := s.accepts[w := NEW_ACCEPT])
    case Suspend(w, stopRequested) =>
      if stopRequested then s.(accepts := s.accepts[w := s.accepts[w].(stage := Immediate, cancelled := true)])
      else if s.stored != [] then TakeLast(s, w)
      else s.(accepts := s.accepts[w := s.accepts[w].(stage := Registered)], waiters := s.waiters + [w],
              registered := s.registered + [w])
    case StopFn(w) =>
      var a := s.accepts[w].(stopped := true);
      if a.stage == Registered then s.(accepts := s.accepts[w := CancelAndPost(a)], waiters := Without(s.waiters, w))
      else s.(accepts := s.accepts[w := a])
    case ResumeAccept(w) => s.(accepts := s.accepts[w := s.accepts[w].(stage := Resumed)])
    case Shutdown =>
      if !s.handle then s
      else Closed(s)
  }

  // ---- The invariant ----

  /** Never both: accepts that wait and devices that are stored. */
  ghost predicate Rendezvous<W>(s: State<W>) {
    s.waiters == [] || s.stored == []
  }

  ghost predicate Distinct<W>(xs: seq<W>) {
    forall i, j :: 0 <= i < j < |xs| ==> xs[i] != xs[j]
  }

  /** An accept is queued exactly while it is registered and not posted; before that it has no result. */
  ghost predicate AcceptOk<W>(waiters: seq<W>, w: W, a: Accept) {
    && (w in waiters <==> a.stage == Registered && a.posts == 0)
    && (a.stage == Checked || w in waiters ==> a.device == None && !a.cancelled && a.posts == 0)
  }

  /** The queue holds, once each, exactly the registered accepts that were not posted. */
  ghost predicate QueueOk<W>(s: State<W>) {
    && Distinct(s.waiters)
    && (forall w :: w in s.waiters ==> w in s.accepts)
    && (forall w :: w in s.accepts ==> AcceptOk(s.waiters, w, s.accepts[w]))
  }

  function Arrivals(stored: seq<DevInfo>): (a: seq<nat>)
    ensures |a| == |stored| && forall i :: 0 <= i < |a| ==> a[i] == stored[i].arrival
  {
    seq(|stored|, i requires 0 <= i < |stored| => stored[i].arrival)
  }

  predicate Increasing(a: seq<nat>) {
    forall i, j :: 0 <= i < j < |a| ==> a[i] < a[j]
  }

  /** The store holds, once each and in order of arrival, exactly the arrivals whose place is the store. */
  ghost predicate StoreOk<W>(s: State<W>) {
    var a := Arrivals(s.stored);
    && Increasing(a)
    && (forall i :: 0 <= i < |a| ==> a[i] < |s.places|)
    && (forall n :: 0 <= n < |s.places| ==> (s.places[n] == InStore <==> n in a))
  }

  /** An arrival's place is an accept exactly when it is that accept's device. */
  ghost predicate Handed<W>(accepts: map<W, Accept>, places: seq<Place<W>>) {
    && (forall n :: 0 <= n < |places| && places[n].With? ==>
          places[n].w in accepts && accepts[places[n].w].device == Some(n))
    && (forall w :: w in accepts && accepts[w].device.Some? ==>
          accepts[w].device.value < |places| && places[accepts[w].device.value] == With(w))
  }

  /** Stored triplets come from descriptors, so they have no wildcard. */
  ghost predicate Concrete(stored: seq<DevInfo>) {
    forall i :: 0 <= i < |stored| ==>
      stored[i].triplet.vid >= 0 && stored[i].triplet.pid >= 0 && stored[i].triplet.devClass >= 0
  }

  ghost predicate Inv<W>(s: State<W>) {
    && Shape(s) && Rendezvous(s) && QueueOk(s) && StoreOk(s) && Handed(s.accepts, s.places)
    && Concrete(s.stored)
  }

  lemma {:induction false} WithoutFacts<W>(xs: seq<W>, x: W)
    requires Distinct(xs)
    ensures Distinct(Without(xs, x)) && forall y :: y in Without(xs, x) <==> y in xs && y != x
  {
    if xs == [] {
    } else {
      WithoutFacts(xs[1..], x);
      assert xs == [xs[0]] + xs[1..];
      assert xs[0] !in xs[1..];
      if xs[0] != x {
        assert xs[0] !in Without(xs[1..], x);
      }
    }
  }

  lemma InvShape<W>(s: State<W>)
    requires StoreOk(s) && QueueOk(s)
    ensures Shape(s)
  {
    forall i | 0 <= i < |s.stored| ensures s.stored[i].arrival < |s.places| {
      assert Arrivals(s.stored)[i] < |s.places|;
    }
    forall i | 0 <= i < |s.waiters| ensures s.waiters[i] in s.accepts {
      assert s.waiters[i] in s.waiters;
    }
  }

  lemma StepRendezvous<W>(fleet: seq<Descriptor>, s: State<W>, e: Event<W>)
    requires Shape(s) && Enabled(fleet, s, e) && Rendezvous(s)
    ensures Rendezvous(Step(fleet, s, e))
  {
  }

  lemma StepConcrete<W>(fleet: seq<Descriptor>, s: State<W>, e: Event<W>)
    requires Shape(s) && Enabled(fleet, s, e) && Concrete(s.stored)
    ensures Concrete(Step(fleet, s, e).stored)
  {
  }

  // ---- The queue ----

  lemma StepWaiters<W>(fleet: seq<Descriptor>, s: State<W>, e: Event<W>)
    requires Shape(s) && Enabled(fleet, s, e) && Distinct(s.waiters)
    requires e.Suspend? ==> e.w !in s.waiters
    ensures Distinct(Step(fleet, s, e).waiters)
  {
    if e.StopFn? {
      WithoutFacts(s.waiters, e.w);
    }
  }

  lemma StepQueued<W>(fleet: seq<Descriptor>, s: State<W>, e: Event<W>, w: W)
    requires Shape(s) && Enabled(fleet, s, e) && Distinct(s.waiters)
    ensures w in Step(fleet, s, e).waiters <==>
              if e.Suspend? && e.w == w && !e.stopRequested && s.stored == [] then true
              else if e.StopFn? && e.w == w && s.accepts[w].stage == Registered then false
              else if e.Arrive? && s.waiters != [] && s.waiters[0] == w then false
              else if e.Shutdown? && s.handle then false
              else w in s.waiters
  {
    if e.StopFn? {
      WithoutFacts(s.waiters, e.w);
    } else if e.Arrive? && s.waiters != [] {
      assert s.waiters == [s.waiters[0]] + s.waiters[1..];
    }
  }

  lemma StepAccept<W>(fleet: seq<Descriptor>, s: State<W>, e: Event<W>, w: W)
    requires Shape(s) && Enabled(fleet, s, e) && Distinct(s.waiters)
    requires w in s.accepts ==> AcceptOk(s.waiters, w, s.accepts[w])
    requires w in Step(fleet, s, e).accepts && (w !in s.accepts ==> w !in s.waiters)
    ensures AcceptOk(Step(fleet, s, e).waiters, w, Step(fleet, s, e).accepts[w])
  {
    StepQueued(fleet, s, e, w);
  }

  lemma StepQueue<W>(fleet: seq<Descriptor>, s: State<W>, e: Event<W>)
    requires Shape(s) && Enabled(fleet, s, e) && QueueOk(s)
    ensures QueueOk(Step(fleet, s, e))
  {
    var s' := Step(fleet, s, e);
    if e.Suspend? {
      assert AcceptOk(s.waiters, e.w, s.accepts[e.w]);
    }
    StepWaiters(fleet, s, e);
    forall w | w in s'.accepts ensures AcceptOk(s'.waiters, w, s'.accepts[w]) {
      StepAccept(fleet, s, e, w);
    }
    forall w | w in s'.waiters ensures w in s'.accepts {
      StepQueued(fleet, s, e, w);
    }
  }

  // ---- The store ----

  lemma RemoveArrival(a: seq<nat>, i: nat)
    requires i < |a| && Increasing(a)
    ensures Increasing(RemoveAt(a, i))
    ensures forall n :: n in RemoveAt(a, i) <==> n in a && n != a[i]
  {
    var b := RemoveAt(a, i);
    forall n | n in a && n != a[i] ensures n in b {
      var j :| 0 <= j < |a| && a[j] == n;
      assert b[if j < i then j else j - 1] == n;
    }
  }

  lemma RemoveStored<W>(s: State<W>, i: nat, place: Place<W>)
    requires StoreOk(s) && i < |s.stored| && place != InStore && s.stored[i].arrival < |s.places|
    ensures StoreOk(s.(stored := RemoveAt(s.stored, i), places := s.places[s.stored[i].arrival := place]))
  {
    RemoveArrival(Arrivals(s.stored), i);
    assert Arrivals(RemoveAt(s.stored, i)) == RemoveAt(Arrivals(s.stored), i);
  }

  lemma StepStore<W>(fleet: seq<Descriptor>, s: State<W>, e: Event<W>)
    requires Shape(s) && Enabled(fleet, s, e) && StoreOk(s)
    ensures StoreOk(Step(fleet, s, e))
  {
    var s' := Step(fleet, s, e);
    match e {
      case Arrive(dev) =>
        if s.waiters == [] {
          assert Arrivals(s'.stored) == Arrivals(s.stored) + [|s.places|];
        }
      case Leave(dev) =>
        var i := FirstMatch(s.stored, TripletFromDescriptor(fleet[dev]));
        if i < |s.stored| {
          RemoveStored(s, i, Dropped);
        }
      case CheckReady(w) =>
        TakeLastStore(s, w);
      case Suspend(w, stopRequested) =>
        TakeLastStore(s, w);
      case Shutdown =>
      case Listen =>
      case StopFn(w) =>
      case ResumeAccept(w) =>
    }
  }

  lemma TakeLastStore<W>(s: State<W>, w: W)
    requires Shape(s) && StoreOk(s)
    ensures s.stored != [] ==> StoreOk(TakeLast(s, w))
  {
    if s.stored != [] {
      var last := |s.stored| - 1;
      RemoveStored(s, last, With(w));
      assert RemoveAt(s.stored, last) == s.stored[..last];
    }
  }

  // ---- Results ----

  /** The same devices, and places that changed only among those that are no accept's. */
  lemma HandedKept<W>(accepts: map<W, Accept>, places: seq<Place<W>>, accepts': map<W, Accept>, places': seq<Place<W>>)
    requires Handed(accepts, places) && |places| <= |places'|
    requires forall w :: w in accepts ==> w in accepts' && accepts'[w].device == accepts[w].device
    requires forall w :: w in accepts' && w !in accepts ==> accepts'[w].device == None
    requires forall n :: 0 <= n < |places| ==> places'[n] == places[n] || (!places[n].With? && !places'[n].With?)
    requires forall n :: |places| <= n < |places'| ==> !places'[n].With?
    ensures Handed(accepts', places')
  {
  }

  /** A device goes to an accept that had none. */
  lemma HandedOver<W>(accepts: map<W, Accept>, places: seq<Place<W>>, w: W, a: Accept, n: nat, places': seq<Place<W>>)
    requires Handed(accepts, places) && (w in accepts ==> accepts[w].device == None) && a.device == Some(n)
    requires |places| <= |places'| && n < |places'| && places'[n] == With(w)
    requires forall m :: 0 <= m < |places'| && m != n ==> m < |places| && places'[m] == places[m]
    requires n < |places| ==> !places[n].With?
    ensures Handed(accepts[w := a], places')
  {
  }

  lemma TakeLastHanded<W>(s: State<W>, w: W)
    requires Shape(s) && StoreOk(s) && Handed(s.accepts, s.places) && (w in s.accepts ==> s.accepts[w].device == None)
    ensures s.stored != [] ==> Handed(TakeLast(s, w).accepts, TakeLast(s, w).places)
  {
    if s.stored != [] {
      var n := s.stored[|s.stored| - 1].arrival;
      assert Arrivals(s.stored)[|s.stored| - 1] in Arrivals(s.stored);
      HandedOver(s.accepts, s.places, w, TakeLast(s, w).accepts[w], n, TakeLast(s, w).places);
    }
  }

  lemma StepHanded<W>(fleet: seq<Descriptor>, s: State<W>, e: Event<W>)
    requires Shape(s) && Enabled(fleet, s, e) && StoreOk(s) && Handed(s.accepts, s.places)
    requires e.Arrive? && s.waiters != [] ==> s.accepts[s.waiters[0]].device == None
    requires e.Suspend? ==> s.accepts[e.w].device == None
    ensures Handed(Step(fleet, s, e).accepts, Step(fleet, s, e).places)
  {
    var s' := Step(fleet, s, e);
    if e.Arrive? && s.waiters != [] {
      var w := s.waiters[0];
      HandedOver(s.accepts, s.places, w, s'.accepts[w], |s.places|, s'.places);
    } else if (e.CheckReady? || (e.Suspend? && !e.stopRequested)) && s.stored != [] {
      TakeLastHanded(s, e.w);
    } else if e.Leave? {
      LeaveHanded(fleet, s, e.dev);
    } else {
      HandedKept(s.accepts, s.places, s'.accepts, s'.places);
    }
  }

  lemma LeaveHanded<W>(fleet: seq<Descriptor>, s: State<W>, dev: nat)
    requires Shape(s) && Enabled(fleet, s, Leave(dev)) && StoreOk(s) && Handed(s.accepts, s.places)
    ensures Handed(Step(fleet, s, Leave(dev)).accepts, Step(fleet, s, Leave(dev)).places)
  {
    var i := FirstMatch(s.stored, TripletFromDescriptor(fleet[dev]));
    if i < |s.stored| {
      assert Arrivals(s.stored)[i] in Arrivals(s.stored);
    }
    HandedKept(s.accepts, s.places, s.accepts, Step(fleet, s, Leave(dev)).places);
  }

  lemma StepInv<W>(fleet: seq<Descriptor>, s: State<W>, e: Event<W>)
    requires Inv(s) && Enabled(fleet, s, e)
    ensures Inv(Step(fleet, s, e))
  {
    StepRendezvous(fleet, s, e);
    StepConcrete(fleet, s, e);
    StepQueue(fleet, s, e);
    StepStore(fleet, s, e);
    if e.Arrive? && s.waiters != [] {
      assert s.waiters[0] in s.waiters && AcceptOk(s.waiters, s.waiters[0], s.accepts[s.waiters[0]]);
    } else if e.Suspend? {
      assert AcceptOk(s.waiters, e.w, s.accepts[e.w]);
    }
    StepHanded(fleet, s, e);
    InvShape(Step(fleet, s, e));
  }

  // ---- Runs ----

  ghost predicate Feasible<W>(fleet: seq<Descriptor>, s: State<W>, evs: seq<Event<W>>)
    requires Inv(s)
    decreases evs
  {
    evs == [] ||
    (Enabled(fleet, s, evs[0]) && (StepInv(fleet, s, evs[0]); Feasible(fleet, Step(fleet, s, evs[0]), evs[1..])))
  }

  ghost function Run<W>(fleet: seq<Descriptor>, s: State<W>, evs: seq<Event<W>>): (s': State<W>)
    requires Inv(s) && Feasible(fleet, s, evs)
    ensures Inv(s')
    decreases evs
  {
    if evs == [] then s else (StepInv(fleet, s, evs[0]); Run(fleet, Step(fleet, s, evs[0]), evs[1..]))
  }
}
