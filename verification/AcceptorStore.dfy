/** Which device an accept gets from the store, and which devices leave the store without being accepted. */
module AcceptorStore {
  import opened Wrappers
  import opened DeviceTriplet
  import opened Acceptor
  import opened AcceptorOutcomes

  ghost predicate Stored<W>(s: State<W>, n: nat) {
    n < |s.places| && s.places[n] == InStore
  }

  lemma StoredMeans<W>(s: State<W>)
    requires Inv(s)
    ensures forall i :: 0 <= i < |s.stored| ==> Stored(s, s.stored[i].arrival)
    ensures forall n: nat :: Stored(s, n) ==> exists i :: 0 <= i < |s.stored| && s.stored[i].arrival == n
  {
    var a := Arrivals(s.stored);
    forall i | 0 <= i < |s.stored| ensures Stored(s, s.stored[i].arrival) {
      assert a[i] in a;
    }
    forall n: nat | Stored(s, n) ensures exists i :: 0 <= i < |s.stored| && s.stored[i].arrival == n {
      var i :| 0 <= i < |a| && a[i] == n;
      assert s.stored[i].arrival == n;
    }
  }

  // ---- Accepts ----

  /** await_ready, or await_suspend without a requested stop. */
  predicate Looks<W>(e: Event<W>) {
    e.CheckReady? || (e.Suspend? && !e.stopRequested)
  }

  /** The arrivals are stored in order, so the last one in the store is the newest. */
  lemma LastIsNewest<W>(s: State<W>)
    requires Inv(s) && s.stored != []
    ensures var n := s.stored[|s.stored| - 1].arrival; Stored(s, n) && forall m: nat :: Stored(s, m) ==> m <= n
  {
    var a := Arrivals(s.stored);
    StoredMeans(s);
    forall m: nat | Stored(s, m) ensures m <= a[|a| - 1] {
      var i :| 0 <= i < |s.stored| && s.stored[i].arrival == m;
      assert a[i] <= a[|a| - 1];
    }
  }

  /** What a taken device changes: one entry of the store, one place, one accept. */
  ghost predicate TookLast<W>(s: State<W>, s': State<W>, w: W, n: nat) {
    && |s'.stored| == |s.stored| - 1 && s.stored[|s'.stored|].arrival == n && s'.stored == s.stored[..|s'.stored|]
    && |s'.places| == |s.places| && n < |s.places| && s'.places == s.places[n := With(w)]
    && w in s'.accepts && s'.accepts[w].device == Some(n) && !s'.accepts[w].cancelled && s'.accepts[w].posts == 0
    && s'.waiters == s.waiters
    && (forall v :: v in s.accepts && v != w ==> v in s'.accepts && s'.accepts[v] == s.accepts[v])
  }

  /**
   * An accept that looks into a store with devices gets the one that arrived last. The others stay stored in their
   * order, and nothing else changes.
   */
  lemma TakesNewest<W>(fleet: seq<Descriptor>, s: State<W>, e: Event<W>) returns (n: nat)
    requires Inv(s) && Enabled(fleet, s, e) && Looks(e) && s.stored != []
    ensures Stored(s, n) && forall m: nat :: Stored(s, m) ==> m <= n
    ensures TookLast(s, Step(fleet, s, e), e.w, n)
  {
    n := s.stored[|s.stored| - 1].arrival;
    LastIsNewest(s);
    if e.Suspend? {
      assert AcceptOk(s.waiters, e.w, s.accepts[e.w]);
    }
  }

  lemma NewestOfStore<W>(s: State<W>, n: nat)
    requires Inv(s) && s.stored != [] && forall m: nat :: Stored(s, m) ==> m <= n
    ensures forall i :: 0 <= i < |s.stored| ==> s.stored[i].arrival <= n
  {
    StoredMeans(s);
  }

  /** With nothing stored, a new accept goes on to suspend; a suspending one waits behind all others. */
  lemma WaitsLast<W>(fleet: seq<Descriptor>, s: State<W>, e: Event<W>)
    requires Inv(s) && Enabled(fleet, s, e) && Looks(e) && s.stored == []
    ensures var s' := Step(fleet, s, e);
            && s'.stored == [] && s'.places == s.places
            && e.w in s'.accepts && s'.accepts[e.w].device == None && !s'.accepts[e.w].cancelled
            && s'.accepts[e.w].posts == 0
            && s'.waiters == s.waiters + (if e.Suspend? then [e.w] else [])
            && (forall w :: w in s.accepts && w != e.w ==> w in s'.accepts && s'.accepts[w] == s.accepts[w])
  {
    if e.Suspend? {
      assert AcceptOk(s.waiters, e.w, s.accepts[e.w]);
    }
  }

  /** A stop requested before the suspension cancels the accept at once and takes no device. */
  lemma StoppedBefore<W>(fleet: seq<Descriptor>, s: State<W>, w: W)
    requires Inv(s) && Enabled(fleet, s, Suspend(w, true))
    ensures var s' := Step(fleet, s, Suspend(w, true));
            && s'.stored == s.stored && s'.places == s.places && s'.waiters == s.waiters
            && w in s'.accepts && s'.accepts[w].cancelled && s'.accepts[w].device == None && s'.accepts[w].posts == 0
            && (forall v :: v in s.accepts && v != w ==> v in s'.accepts && s'.accepts[v] == s.accepts[v])
  {
    assert AcceptOk(s.waiters, w, s.accepts[w]);
  }

  /** The stop callback cancels and posts a registered accept, and takes it alone out of the queue. */
  lemma StopTakesOne<W>(fleet: seq<Descriptor>, s: State<W>, w: W)
    requires Inv(s) && Enabled(fleet, s, StopFn(w))
    ensures var s' := Step(fleet, s, StopFn(w)); var hit := s.accepts[w].stage == Registered;
            && s'.stored == s.stored && s'.places == s.places
            && w in s'.accepts && s'.accepts[w].device == s.accepts[w].device
            && s'.accepts[w].cancelled == (hit || s.accepts[w].cancelled)
            && s'.accepts[w].posts == s.accepts[w].posts + (if hit then 1 else 0)
            && (forall v :: v in s'.waiters <==> v in s.waiters && v != w)
            && (forall v :: v in s.accepts && v != w ==> v in s'.accepts && s'.accepts[v] == s.accepts[v])
  {
    WithoutFacts(s.waiters, w);
    assert AcceptOk(s.waiters, w, s.accepts[w]);
  }

  // ---- Departures ----

  /** Vendor, product and class of the descriptor. */
  predicate SameIds(t: Triplet, desc: Descriptor) {
    t.vid == desc.idVendor && t.pid == desc.idProduct && t.devClass == desc.bDeviceClass
  }

  /** On the store, the wildcard comparison with a descriptor's triplet compares vendor, product and class. */
  lemma StoredMatch(stored: seq<DevInfo>, i: nat, desc: Descriptor)
    requires i < |stored| && Concrete(stored)
    ensures WildcardMatch(stored[i].triplet, TripletFromDescriptor(desc)) <==> SameIds(stored[i].triplet, desc)
  {
  }

  /** The device stored first among those with the descriptor's vendor, product and class. */
  ghost predicate FirstWithIds(stored: seq<DevInfo>, i: nat, desc: Descriptor) {
    i < |stored| && SameIds(stored[i].triplet, desc) && forall j :: 0 <= j < i ==> !SameIds(stored[j].triplet, desc)
  }

  lemma FirstMatchHasIds(stored: seq<DevInfo>, desc: Descriptor)
    requires Concrete(stored)
    ensures var i := FirstMatch(stored, TripletFromDescriptor(desc));
            && (i == |stored| ==> forall j :: 0 <= j < |stored| ==> !SameIds(stored[j].triplet, desc))
            && (i < |stored| ==> FirstWithIds(stored, i, desc))
            && (forall j: nat :: FirstWithIds(stored, j, desc) ==> j == i)
  {
    forall i | 0 <= i < |stored|
      ensures WildcardMatch(stored[i].triplet, TripletFromDescriptor(desc)) <==> SameIds(stored[i].triplet, desc)
    {
      StoredMatch(stored, i, desc);
    }
  }

  /**
   * A departure takes out of the store the device stored first among those with its vendor, product and class, and
   * nothing if there is none; the others stay in their order, and no accept changes.
   */
  lemma LeaveTakesFirst<W>(fleet: seq<Descriptor>, s: State<W>, dev: nat)
    requires Shape(s) && Concrete(s.stored) && Enabled(fleet, s, Leave(dev))
    ensures var s' := Step(fleet, s, Leave(dev));
            && s'.accepts == s.accepts && s'.waiters == s.waiters && s'.attached == s.attached - {dev}
            && ((forall i :: 0 <= i < |s.stored| ==> !SameIds(s.stored[i].triplet, fleet[dev])) ==>
                  s'.stored == s.stored && s'.places == s.places)
            && (forall i: nat :: FirstWithIds(s.stored, i, fleet[dev]) ==>
                  && s'.stored == s.stored[..i] + s.stored[i + 1..]
                  && s'.places == s.places[s.stored[i].arrival := Dropped])
  {
    FirstMatchHasIds(s.stored, fleet[dev]);
  }

  /** Once an arrival is handed over or dropped, it stays so. */
  lemma {:induction false} Settled<W>(fleet: seq<Descriptor>, s: State<W>, evs: seq<Event<W>>, n: nat)
    requires Inv(s) && Feasible(fleet, s, evs) && n < |s.places| && s.places[n] != InStore
    ensures var s' := Run(fleet, s, evs); n < |s'.places| && s'.places[n] == s.places[n]
    decreases evs
  {
    if evs == [] {
    } else {
      StepInv(fleet, s, evs[0]);
      StepSettled(fleet, s, evs[0], n);
      Settled(fleet, Step(fleet, s, evs[0]), evs[1..], n);
    }
  }

  lemma StepSettled<W>(fleet: seq<Descriptor>, s: State<W>, e: Event<W>, n: nat)
    requires Inv(s) && Enabled(fleet, s, e) && n < |s.places| && s.places[n] != InStore
    ensures var s' := Step(fleet, s, e); n < |s'.places| && s'.places[n] == s.places[n]
  {
    if e.Leave? {
      LeaveSettled(fleet, s, e.dev, n);
    } else if Looks(e) && s.stored != [] {
      var newest := TakesNewest(fleet, s, e);
    }
  }

  lemma LeaveSettled<W>(fleet: seq<Descriptor>, s: State<W>, dev: nat, n: nat)
    requires Inv(s) && Enabled(fleet, s, Leave(dev)) && n < |s.places| && s.places[n] != InStore
    ensures var s' := Step(fleet, s, Leave(dev)); n < |s'.places| && s'.places[n] == s.places[n]
  {
    StoredMeans(s);
  }

  lemma LeaveDropsOne<W>(fleet: seq<Descriptor>, s: State<W>, dev: nat, i: nat)
    requires Inv(s) && Enabled(fleet, s, Leave(dev)) && i < |s.stored|
    requires Step(fleet, s, Leave(dev)).places[s.stored[i].arrival] == Dropped
    ensures FirstWithIds(s.stored, i, fleet[dev])
  {
    var a := Arrivals(s.stored);
    FirstMatchHasIds(s.stored, fleet[dev]);
    assert a[i] in a;
    var k := FirstMatch(s.stored, TripletFromDescriptor(fleet[dev]));
    assert k < |s.stored| && a[k] == a[i];
    assert k == i;
  }

  /**
   * A stored arrival is dropped only by a shutdown of a listening acceptor, or by the departure of a device with its
   * vendor, product and class, which drops no other.
   */
  lemma DroppedOnlyBy<W>(fleet: seq<Descriptor>, s: State<W>, e: Event<W>, i: nat)
    requires Inv(s) && Enabled(fleet, s, e) && i < |s.stored|
    requires Step(fleet, s, e).places[s.stored[i].arrival] == Dropped
    ensures (e.Shutdown? && s.handle) || (e.Leave? && SameIds(s.stored[i].triplet, fleet[e.dev]))
    ensures e.Leave? ==> forall m: nat :: Stored(s, m) && m != s.stored[i].arrival ==> Stored(Step(fleet, s, e), m)
  {
    if e.Leave? {
      LeaveDropsOne(fleet, s, e.dev, i);
      LeaveTakesFirst(fleet, s, e.dev);
    } else {
      assert Arrivals(s.stored)[i] in Arrivals(s.stored);
      if Looks(e) && s.stored != [] {
        var n := TakesNewest(fleet, s, e);
      }
    }
  }

  // ---- Shutdown ----

  /** A listening acceptor's shutdown cancels and posts every waiting accept once and drops every stored device. */
  lemma ShutdownEmpties<W>(fleet: seq<Descriptor>, s: State<W>)
    requires Inv(s)
    ensures var s' := Step(fleet, s, Shutdown);
            && (!s.handle ==> s' == s)
            && (s.handle ==>
                  && !s'.handle && s'.stored == [] && s'.waiters == [] && s'.attached == s.attached
                  && |s'.places| == |s.places|
                  && (forall n: nat :: n < |s.places| ==>
                        s'.places[n] == if Stored(s, n) then Dropped else s.places[n])
                  && s'.accepts.Keys == s.accepts.Keys
                  && (forall w :: w in s.accepts ==>
                        && s'.accepts[w].device == s.accepts[w].device && s'.accepts[w].stage == s.accepts[w].stage
                        && s'.accepts[w].cancelled == (s.accepts[w].cancelled || w in s.waiters)
                        && s'.accepts[w].posts == s.accepts[w].posts + (if w in s.waiters then 1 else 0)))
  {
  }

  // ---- Over runs ----

  /** The device of each arrival, in order. */
  function Devices<W>(evs: seq<Event<W>>): seq<nat> {
    if evs == [] then []
    else
      var last := evs[|evs| - 1];
      Devices(evs[..|evs| - 1]) + (if last.Arrive? then [last.dev] else [])
  }

  /** The device of arrival n has not left since. */
  ghost predicate StillThere(attached: set<nat>, devs: seq<nat>, n: nat) {
    n < |devs| && devs[n] in attached && forall m :: n < m < |devs| ==> devs[m] != devs[n]
  }

  /** Every arrival that was not handed over is stored exactly while its device is still there. */
  ghost predicate StoreExact<W>(s: State<W>, devs: seq<nat>) {
    && |devs| == |s.places|
    && (forall n: nat :: n < |s.places| && !s.places[n].With? ==> (Stored(s, n) <==> StillThere(s.attached, devs, n)))
    && (forall i :: 0 <= i < |s.stored| ==>
          s.stored[i].arrival < |devs| && s.stored[i].dev == devs[s.stored[i].arrival])
  }

  lemma StillThereAfterArrival(attached: set<nat>, devs: seq<nat>, n: nat, dev: nat)
    requires n < |devs| && dev !in attached
    ensures StillThere(attached + {dev}, devs + [dev], n) <==> StillThere(attached, devs, n)
  {
    var devs' := devs + [dev];
    assert devs'[|devs|] == dev && devs'[n] == devs[n];
    if StillThere(attached, devs, n) {
      assert forall m :: n < m < |devs| ==> devs'[m] == devs[m];
    }
    if StillThere(attached + {dev}, devs', n) {
      assert forall m :: n < m < |devs| ==> devs'[m] == devs[m];
    }
  }

  lemma ExactArrive<W>(fleet: seq<Descriptor>, s: State<W>, devs: seq<nat>, dev: nat)
    requires Inv(s) && Enabled(fleet, s, Arrive(dev)) && StoreExact(s, devs)
    ensures StoreExact(Step(fleet, s, Arrive(dev)), devs + [dev])
  {
    var s' := Step(fleet, s, Arrive(dev));
    var devs' := devs + [dev];
    StoredMeans(s);
    forall n: nat | n < |s'.places| && !s'.places[n].With?
      ensures Stored(s', n) <==> StillThere(s'.attached, devs', n)
    {
      if n < |s.places| {
        StillThereAfterArrival(s.attached, devs, n, dev);
      }
    }
  }

  /** While attached devices differ, a departing device that is stored is the one that is taken out. */
  lemma LeaveTakesOwn<W>(fleet: seq<Descriptor>, s: State<W>, dev: nat)
    requires Inv(s) && Enabled(fleet, s, Leave(dev))
    requires FromFleet(fleet, s) && StoreCurrent(s) && DistinctDevices(s.stored) && DistinctAttached(fleet, s.attached)
    ensures var i := FirstMatch(s.stored, TripletOf(fleet, dev));
            && (i < |s.stored| ==> s.stored[i].dev == dev)
            && (forall k :: 0 <= k < |s.stored| && s.stored[k].dev == dev ==> k == i)
  {
    var i := FirstMatch(s.stored, TripletOf(fleet, dev));
    if i < |s.stored| {
      ConcreteMatchIsEquality(fleet[s.stored[i].dev], fleet[dev]);
    }
    forall k | 0 <= k < |s.stored| && s.stored[k].dev == dev ensures k == i {
      assert WildcardMatch(s.stored[k].triplet, TripletOf(fleet, dev));
    }
  }

  /** A stored arrival stays stored unless it is the departing device's. */
  lemma ExactPlace<W>(fleet: seq<Descriptor>, s: State<W>, devs: seq<nat>, dev: nat, k: nat)
    requires Shape(s) && StoreOk(s) && Enabled(fleet, s, Leave(dev))
    requires k < |s.stored| && s.stored[k].arrival < |devs| && s.stored[k].dev == devs[s.stored[k].arrival]
    requires var i := FirstMatch(s.stored, TripletOf(fleet, dev));
             && (i < |s.stored| ==> s.stored[i].dev == dev)
             && (s.stored[k].dev == dev ==> k == i)
    requires Stored(s, s.stored[k].arrival) && StillThere(s.attached, devs, s.stored[k].arrival)
    ensures var s' := Step(fleet, s, Leave(dev));
            Stored(s', s.stored[k].arrival) <==> StillThere(s'.attached, devs, s.stored[k].arrival)
  {
    var i := FirstMatch(s.stored, TripletOf(fleet, dev));
    if k != i && i < |s.stored| {
      assert Arrivals(s.stored)[i] != Arrivals(s.stored)[k];
    }
  }

  lemma ExactAfterLeave<W>(fleet: seq<Descriptor>, s: State<W>, devs: seq<nat>, dev: nat, n: nat)
    requires Inv(s) && Enabled(fleet, s, Leave(dev)) && StoreExact(s, devs) && n < |s.places|
    requires var i := FirstMatch(s.stored, TripletOf(fleet, dev));
             && (i < |s.stored| ==> s.stored[i].dev == dev)
             && (forall k :: 0 <= k < |s.stored| && s.stored[k].dev == dev ==> k == i)
    requires n < |Step(fleet, s, Leave(dev)).places| && !Step(fleet, s, Leave(dev)).places[n].With?
    ensures var s' := Step(fleet, s, Leave(dev)); Stored(s', n) <==> StillThere(s'.attached, devs, n)
  {
    if Stored(s, n) {
      StoredMeans(s);
      var k :| 0 <= k < |s.stored| && s.stored[k].arrival == n;
      ExactPlace(fleet, s, devs, dev, k);
    } else {
      LeaveSettled(fleet, s, dev, n);
    }
  }

  lemma ExactLeave<W>(fleet: seq<Descriptor>, s: State<W>, devs: seq<nat>, dev: nat)
    requires Inv(s) && Enabled(fleet, s, Leave(dev)) && StoreExact(s, devs)
    requires FromFleet(fleet, s) && StoreCurrent(s) && DistinctDevices(s.stored) && DistinctAttached(fleet, s.attached)
    ensures StoreExact(Step(fleet, s, Leave(dev)), devs)
  {
    var s' := Step(fleet, s, Leave(dev));
    LeaveTakesOwn(fleet, s, dev);
    forall n: nat | n < |s'.places| && !s'.places[n].With?
      ensures Stored(s', n) <==> StillThere(s'.attached, devs, n)
    {
      ExactAfterLeave(fleet, s, devs, dev, n);
    }
    LeaveKeepsDevices(fleet, s, devs, dev);
  }

  lemma LeaveKeepsDevices<W>(fleet: seq<Descriptor>, s: State<W>, devs: seq<nat>, dev: nat)
    requires Shape(s) && Enabled(fleet, s, Leave(dev)) && |devs| == |s.places|
    requires forall i :: 0 <= i < |s.stored| ==> s.stored[i].dev == devs[s.stored[i].arrival]
    ensures var s' := Step(fleet, s, Leave(dev));
            && |s'.places| == |devs|
            && forall i :: 0 <= i < |s'.stored| ==>
                 s'.stored[i].arrival < |devs| && s'.stored[i].dev == devs[s'.stored[i].arrival]
  {
  }

  lemma ExactOther<W>(fleet: seq<Descriptor>, s: State<W>, devs: seq<nat>, e: Event<W>)
    requires Inv(s) && Enabled(fleet, s, e) && StoreExact(s, devs) && !e.Arrive? && !e.Leave? && !e.Shutdown?
    ensures StoreExact(Step(fleet, s, e), devs)
  {
    var s' := Step(fleet, s, e);
    if Looks(e) && s.stored != [] {
      var n := TakesNewest(fleet, s, e);
    }
    assert forall n: nat :: n < |s.places| && !s'.places[n].With? ==> s'.places[n] == s.places[n];
  }

  ghost predicate NoShutdown<W>(evs: seq<Event<W>>) {
    forall i :: 0 <= i < |evs| ==> !evs[i].Shutdown?
  }

  lemma DevicesAppend<W>(done: seq<Event<W>>, e: Event<W>)
    ensures Devices(done + [e]) == if e.Arrive? then Devices(done) + [e.dev] else Devices(done)
  {
    assert (done + [e])[..|done + [e]| - 1] == done;
  }

  lemma StepExact<W>(fleet: seq<Descriptor>, done: seq<Event<W>>, s: State<W>, e: Event<W>)
    requires Inv(s) && Enabled(fleet, s, e) && DistinctAttached(fleet, s.attached) && !e.Shutdown?
    requires FromFleet(fleet, s) && StoreCurrent(s) && DistinctDevices(s.stored) && StoreExact(s, Devices(done))
    ensures var s' := Step(fleet, s, e);
            && FromFleet(fleet, s') && StoreCurrent(s') && DistinctDevices(s'.stored)
            && StoreExact(s', Devices(done + [e]))
  {
    DevicesAppend(done, e);
    if e.Leave? {
      NotMistaken(fleet, s, e);
      ExactLeave(fleet, s, Devices(done), e.dev);
      LeaveCurrent(fleet, s, e.dev);
    } else {
      StepCurrent(fleet, s, e);
      if e.Arrive? {
        ExactArrive(fleet, s, Devices(done), e.dev);
      } else {
        ExactOther(fleet, s, Devices(done), e);
      }
    }
  }

  lemma {:induction false} RunExact<W>(fleet: seq<Descriptor>, done: seq<Event<W>>, s: State<W>, evs: seq<Event<W>>)
    requires Inv(s) && Feasible(fleet, s, evs) && AlwaysDistinct(fleet, s, evs) && NoShutdown(evs)
    requires FromFleet(fleet, s) && StoreCurrent(s) && DistinctDevices(s.stored) && StoreExact(s, Devices(done))
    ensures StoreExact(Run(fleet, s, evs), Devices(done + evs))
    decreases evs
  {
    if evs == [] {
      assert done + evs == done;
    } else {
      var e := evs[0];
      StepInv(fleet, s, e);
      StepExact(fleet, done, s, e);
      RunExact(fleet, done + [e], Step(fleet, s, e), evs[1..]);
      assert done + [e] + evs[1..] == done + evs;
    }
  }

  /**
   * In every run without a shutdown whose attached devices differ at each moment: an arrival that no accept got is
   * stored if and only if its device has not left since.
   */
  lemma StoredExactlyWhileAttached<W>(fleet: seq<Descriptor>, evs: seq<Event<W>>)
    requires Feasible(fleet, Start<W>(), evs) && AlwaysDistinct(fleet, Start(), evs) && NoShutdown(evs)
    ensures var s := Run(fleet, Start(), evs);
            && |Devices(evs)| == |s.places|
            && forall n: nat :: n < |s.places| && !s.places[n].With? ==>
                 (Stored(s, n) <==> StillThere(s.attached, Devices(evs), n))
  {
    RunExact(fleet, [], Start<W>(), evs);
    assert [] + evs == evs;
  }
}
