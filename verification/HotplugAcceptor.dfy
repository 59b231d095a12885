/** The acceptor with its own fields, each lock-protected section proved to take its step. */
module HotplugAcceptor {
  import opened Wrappers
  import opened DeviceTriplet
  import opened Acceptor
  import opened AcceptorStore

  /** resumption_t with its op_result; registered means that aw_ctx and the continuation are set. */
  class Resumption {
    var registered: bool
    var device: Option<nat>
    var cancelled: bool
    var posts: nat
    ghost var stage: Stage
    ghost var stopped: bool

    constructor ()
      ensures Abs() == NEW_ACCEPT && !registered
    {
      registered, device, cancelled, posts := false, None, false, 0;
      stage, stopped := Checked, false;
    }

    ghost function Abs(): Accept
      reads this
    {
      Accept(stage, device, cancelled, posts, stopped)
    }

    /** The code's only trace of the stage. */
    ghost predicate Flagged()
      reads this
    {
      registered <==> stage in {Registered, Resumed}
    }

    method Cancel()
      modifies this`cancelled, this`posts
      ensures cancelled && posts == old(posts) + 1
    {
      cancelled := true;
      posts := posts + 1;
    }
  }

  ghost function AcceptsOf(accepts: set<Resumption>): (m: map<Resumption, Accept>)
    reads accepts
    ensures m.Keys == accepts
  {
    map r | r in accepts :: r.Abs()
  }

  class DeviceAcceptor {
    var resumptions: seq<Resumption>
    var arrived: seq<DevInfo>
    var handle: nat

    ghost var accepts: set<Resumption>
    ghost var attached: set<nat>
    ghost var places: seq<Place<Resumption>>
    ghost var registrations: seq<Resumption>

    ghost function Abs(): State<Resumption>
      reads this, accepts
    {
      State(resumptions, arrived, handle != 0, AcceptsOf(accepts), attached, places, registrations)
    }

    ghost predicate Flags()
      reads this`accepts, accepts
    {
      forall r :: r in accepts ==> r.Flagged()
    }

    /** The invariant of the transition system, and the flags that stand for the stages. */
    ghost predicate Valid()
      reads this, accepts
    {
      Inv(Abs()) && Flags()
    }

    /** As much of it as the bodies of the sections need. */
    ghost predicate Linked()
      reads this, accepts
    {
      Shape(Abs()) && Distinct(resumptions) && Flags()
    }

    constructor ()
      ensures Abs() == Start() && Valid()
    {
      resumptions, arrived, handle := [], [], 0;
      accepts, attached, places, registrations := {}, {}, [], [];
    }

    // ---- The hotplug callback ----

    /** A device arrives; arrival stands for the reference to it. */
    method OnArrived(ghost fleet: seq<Descriptor>, dev: nat, desc: Descriptor, arrival: nat)
      requires Valid() && Enabled(fleet, Abs(), Arrive(dev)) && fleet[dev] == desc && arrival == |places|
      modifies this, accepts
      ensures accepts == old(accepts) && Valid()
      ensures Abs() == Step(fleet, old(Abs()), Arrive(dev))
      ensures old(resumptions) == [] ==>
                && |arrived| == |old(arrived)| + 1 && arrived[..|old(arrived)|] == old(arrived)
                && var info := arrived[|old(arrived)|];
                   info.dev == dev && info.arrival == arrival && SameIds(info.triplet, desc)
      ensures old(resumptions) != [] ==>
                && old(resumptions)[0].device == Some(arrival)
                && old(resumptions)[0].posts == old(resumptions[0].posts) + 1
                && resumptions == old(resumptions)[1..] && arrived == old(arrived)
    {
      StepInv(fleet, Abs(), Arrive(dev));
      StoreOrHand(fleet, dev, desc, arrival);
    }

    method StoreOrHand(ghost fleet: seq<Descriptor>, dev: nat, desc: Descriptor, arrival: nat)
      requires Linked() && Enabled(fleet, Abs(), Arrive(dev)) && fleet[dev] == desc && arrival == |places|
      modifies this, accepts
      ensures accepts == old(accepts) && Flags()
      ensures Abs() == Step(fleet, old(Abs()), Arrive(dev))
    {
      attached := attached + {dev};
      if resumptions == [] {
        arrived := arrived + [DevInfo(dev, TripletFromDescriptor(desc), arrival)];
        places := places + [InStore];
        return;
      }
      var r := resumptions[0];
      r.device := Some(arrival);
      r.posts := r.posts + 1;
      resumptions := resumptions[1..];
      places := places + [With(r)];
      OneChanged(r, old(AcceptsOf(accepts)));
    }

    /** find_if over the stored devices. */
    method FindStored(triplet: Triplet) returns (it: nat)
      ensures it == FirstMatch(arrived, triplet)
    {
      it := 0;
      while it < |arrived| && !WildcardMatch(arrived[it].triplet, triplet)
        invariant it <= |arrived|
        invariant forall j :: 0 <= j < it ==> !WildcardMatch(arrived[j].triplet, triplet)
      {
        it := it + 1;
      }
      FirstMatchUnique(arrived, triplet, it);
    }

    method OnLeft(ghost fleet: seq<Descriptor>, dev: nat, desc: Descriptor)
      requires Valid() && Enabled(fleet, Abs(), Leave(dev)) && fleet[dev] == desc
      modifies this
      ensures accepts == old(accepts) && Valid()
      ensures Abs() == Step(fleet, old(Abs()), Leave(dev))
      ensures (forall i :: 0 <= i < |old(arrived)| ==> !SameIds(old(arrived)[i].triplet, desc)) ==>
                arrived == old(arrived)
      ensures forall i: nat :: FirstWithIds(old(arrived), i, desc) ==>
                arrived == old(arrived)[..i] + old(arrived)[i + 1..]
    {
      StepInv(fleet, Abs(), Leave(dev));
      LeaveTakesFirst(fleet, Abs(), dev);
      EraseFirstMatch(fleet, dev, desc);
    }

    method EraseFirstMatch(ghost fleet: seq<Descriptor>, dev: nat, desc: Descriptor)
      requires Linked() && Enabled(fleet, Abs(), Leave(dev)) && fleet[dev] == desc
      modifies this
      ensures accepts == old(accepts) && Flags()
      ensures Abs() == Step(fleet, old(Abs()), Leave(dev))
    {
      var it := FindStored(TripletFromDescriptor(desc));
      attached := attached - {dev};
      if it != |arrived| {
        places := places[arrived[it].arrival := Dropped];
        arrived := arrived[..it] + arrived[it + 1..];
      }
    }

    method SetHandle(ghost fleet: seq<Descriptor>, h: nat)
      requires Valid() && h != 0
      modifies this`handle
      ensures Valid() && handle == h
      ensures Abs() == Step(fleet, old(Abs()), Listen)
    {
      StepInv(fleet, Abs(), Listen);
      handle := h;
    }

    // ---- accept ----

    /** The device is the one that arrived last among those stored before; the others are stored as they were. */
    ghost predicate TookNewest(before: seq<DevInfo>, device: Option<nat>)
      reads this`arrived
    {
      && |arrived| == |before| - 1 && arrived == before[..|arrived|]
      && device == Some(before[|arrived|].arrival)
      && forall i :: 0 <= i < |before| ==> before[i].arrival <= before[|arrived|].arrival
    }

    /** Pops the device stored last into the accept's result. */
    method TakeStored(res: Resumption)
      requires Linked() && arrived != [] && res in accepts && res.stage == Checked
      modifies this`arrived, this`places, res`device, res`stage
      ensures Flags() && Abs() == TakeLast(old(Abs()), res)
    {
      var info := arrived[|arrived| - 1];
      res.device := Some(info.arrival);
      res.stage := Immediate;
      arrived := arrived[..|arrived| - 1];
      places := places[info.arrival := With(res)];
      OneChanged(res, old(AcceptsOf(accepts)));
    }

    /** The other accepts are as they were. */
    lemma OneChanged(res: Resumption, before: map<Resumption, Accept>)
      requires res in accepts && before.Keys == accepts
      requires forall r :: r in accepts && r != res ==> r.Abs() == before[r]
      ensures AcceptsOf(accepts) == before[res := res.Abs()]
    {
    }

    /** await_ready of a new accept. */
    method AwaitReady(ghost fleet: seq<Descriptor>, res: Resumption) returns (ready: bool)
      requires Valid() && res !in accepts && res.Abs() == NEW_ACCEPT && res.Flagged()
      modifies this, res
      ensures accepts == old(accepts) + {res} && Valid()
      ensures Abs() == Step(fleet, old(Abs()), CheckReady(res))
      ensures ready <==> old(arrived) != []
      ensures if ready then TookNewest(old(arrived), res.device) else arrived == [] && res.device == None
    {
      StepInv(fleet, Abs(), CheckReady(res));
      if arrived != [] {
        ghost var n := TakesNewest(fleet, Abs(), CheckReady(res));
        NewestOfStore(Abs(), n);
      }
      ready := TakeOrCheck(fleet, res);
      assert res.Abs() == Abs().accepts[res];
    }

    method TakeOrCheck(ghost fleet: seq<Descriptor>, res: Resumption) returns (ready: bool)
      requires Linked() && res !in accepts && res.Abs() == NEW_ACCEPT && res.Flagged()
      modifies this, res
      ensures accepts == old(accepts) + {res} && Flags()
      ensures Abs() == Step(fleet, old(Abs()), CheckReady(res))
      ensures ready <==> old(arrived) != []
    {
      accepts := accepts + {res};
      assert AcceptsOf(accepts) == old(AcceptsOf(accepts))[res := NEW_ACCEPT];
      ready := arrived != [];
      if ready {
        TakeStored(res);
      }
    }

    /** await_suspend: true if the coroutine stays suspended. */
    method AwaitSuspend(ghost fleet: seq<Descriptor>, res: Resumption, stopRequested: bool) returns (suspended: bool)
      requires Valid() && Enabled(fleet, Abs(), Suspend(res, stopRequested))
      modifies this, res
      ensures accepts == old(accepts) && Valid()
      ensures Abs() == Step(fleet, old(Abs()), Suspend(res, stopRequested))
      ensures suspended <==> !stopRequested && old(arrived) == []
      ensures stopRequested ==>
                res.cancelled && res.device == None && arrived == old(arrived) && resumptions == old(resumptions)
      ensures !stopRequested && old(arrived) != [] ==> TookNewest(old(arrived), res.device) && !res.cancelled
      ensures suspended ==> resumptions == old(resumptions) + [res] && res.device == None && !res.cancelled
    {
      StepInv(fleet, Abs(), Suspend(res, stopRequested));
      SuspendFacts(fleet, res, stopRequested);
      suspended := SuspendOrFinish(fleet, res, stopRequested);
    }

    lemma SuspendFacts(fleet: seq<Descriptor>, res: Resumption, stopRequested: bool)
      requires Valid() && Enabled(fleet, Abs(), Suspend(res, stopRequested))
      ensures var s' := Step(fleet, Abs(), Suspend(res, stopRequested));
              && res in s'.accepts
              && var a := s'.accepts[res];
                 && (stopRequested ==> a.cancelled && a.device == None && s'.stored == arrived)
                 && (stopRequested ==> s'.waiters == resumptions)
                 && (!stopRequested && arrived != [] ==>
                       && !a.cancelled && |s'.stored| == |arrived| - 1 && s'.stored == arrived[..|s'.stored|]
                       && a.device == Some(arrived[|s'.stored|].arrival)
                       && forall i :: 0 <= i < |arrived| ==> arrived[i].arrival <= arrived[|s'.stored|].arrival)
                 && (!stopRequested && arrived == [] ==>
                       a.device == None && !a.cancelled && s'.waiters == resumptions + [res])
    {
      if stopRequested {
        StoppedBefore(fleet, Abs(), res);
      } else if arrived == [] {
        WaitsLast(fleet, Abs(), Suspend(res, false));
      } else {
        var n := TakesNewest(fleet, Abs(), Suspend(res, false));
        NewestOfStore(Abs(), n);
      }
    }

    method SuspendOrFinish(ghost fleet: seq<Descriptor>, res: Resumption, stopRequested: bool) returns (suspended: bool)
      requires Linked() && Enabled(fleet, Abs(), Suspend(res, stopRequested))
      modifies this, res
      ensures accepts == old(accepts) && Flags()
      ensures Abs() == Step(fleet, old(Abs()), Suspend(res, stopRequested))
      ensures suspended <==> !stopRequested && old(arrived) == []
    {
      suspended := false;
      if stopRequested {
        FinishCancelled(res);
      } else if arrived != [] {
        TakeStored(res);
      } else {
        Enqueue(res);
        suspended := true;
      }
    }

    method FinishCancelled(res: Resumption)
      requires Linked() && res in accepts && res.stage == Checked
      modifies res`cancelled, res`stage
      ensures Flags()
      ensures AcceptsOf(accepts) ==
              old(AcceptsOf(accepts))[res := old(res.Abs()).(stage := Immediate, cancelled := true)]
    {
      res.cancelled := true;
      res.stage := Immediate;
      OneChanged(res, old(AcceptsOf(accepts)));
    }

    method Enqueue(res: Resumption)
      requires Linked() && res in accepts
      modifies this`resumptions, this`registrations, res`registered, res`stage
      ensures Flags()
      ensures AcceptsOf(accepts) == old(AcceptsOf(accepts))[res := old(res.Abs()).(stage := Registered)]
      ensures resumptions == old(resumptions) + [res] && registrations == old(registrations) + [res]
    {
      res.registered, res.stage := true, Registered;
      resumptions, registrations := resumptions + [res], registrations + [res];
      OneChanged(res, old(AcceptsOf(accepts)));
    }

    /** The stop callback: it posts whether or not the accept is still queued. */
    method StopAccept(ghost fleet: seq<Descriptor>, res: Resumption)
      requires Valid() && Enabled(fleet, Abs(), StopFn(res))
      modifies this, res
      ensures accepts == old(accepts) && Valid()
      ensures Abs() == Step(fleet, old(Abs()), StopFn(res))
      ensures res.cancelled == (old(res.registered) || old(res.cancelled)) && res.device == old(res.device)
      ensures res.posts == old(res.posts) + (if old(res.registered) then 1 else 0)
      ensures (forall r :: r in resumptions <==> r in old(resumptions) && r != res) && arrived == old(arrived)
    {
      StepInv(fleet, Abs(), StopFn(res));
      StopTakesOne(fleet, Abs(), res);
      assert res.Flagged();
      CancelOne(fleet, res);
    }

    method CancelOne(ghost fleet: seq<Descriptor>, res: Resumption)
      requires Linked() && Enabled(fleet, Abs(), StopFn(res))
      modifies this, res
      ensures accepts == old(accepts) && Flags()
      ensures Abs() == Step(fleet, old(Abs()), StopFn(res))
    {
      assert res.Flagged();
      NoteStop(res);
      if res.registered {
        CancelRegistered(res);
      }
    }

    ghost method NoteStop(res: Resumption)
      requires Linked() && res in accepts
      modifies res`stopped
      ensures Linked() && Abs() == old(Abs()).(accepts := AcceptsOf(accepts))
      ensures AcceptsOf(accepts) == old(AcceptsOf(accepts))[res := old(res.Abs()).(stopped := true)]
    {
      res.stopped := true;
      OneChanged(res, old(AcceptsOf(accepts)));
    }

    method CancelRegistered(res: Resumption)
      requires Linked() && res in accepts
      modifies this`resumptions, res`cancelled, res`posts
      ensures Flags() && resumptions == Without(old(resumptions), res)
      ensures AcceptsOf(accepts) == old(AcceptsOf(accepts))[res := CancelAndPost(old(res.Abs()))]
    {
      res.Cancel();
      Dequeue(res);
      OneChanged(res, old(AcceptsOf(accepts)));
    }

    /** Erases the accept from the queue if it is there. */
    method Dequeue(res: Resumption)
      modifies this`resumptions
      ensures resumptions == Without(old(resumptions), res)
    {
      var it := FindResumption(res);
      WithoutIsRemoveAt(resumptions, res, it);
      if it != |resumptions| {
        resumptions := resumptions[..it] + resumptions[it + 1..];
      }
    }

    /** find_if over the queue. */
    method FindResumption(res: Resumption) returns (it: nat)
      ensures it <= |resumptions| && res !in resumptions[..it]
      ensures it < |resumptions| ==> resumptions[it] == res
    {
      it := 0;
      while it < |resumptions| && resumptions[it] != res
        invariant it <= |resumptions| && res !in resumptions[..it]
      {
        it := it + 1;
      }
    }

    // ---- shutdown ----

    method CancelAll()
      requires Distinct(resumptions)
      modifies resumptions
      ensures forall r :: r in resumptions ==>
                r.Abs() == CancelAndPost(old(r.Abs())) && r.registered == old(r.registered)
    {
      var i := 0;
      while i < |resumptions|
        invariant i <= |resumptions|
        invariant forall j :: 0 <= j < |resumptions| ==> resumptions[j].registered == old(resumptions[j].registered)
        invariant forall j :: 0 <= j < i ==> resumptions[j].Abs() == CancelAndPost(old(resumptions[j].Abs()))
        invariant forall j :: i <= j < |resumptions| ==> resumptions[j].Abs() == old(resumptions[j].Abs())
      {
        resumptions[i].Cancel();
        i := i + 1;
      }
    }

    method ShutDown(ghost fleet: seq<Descriptor>)
      requires Valid()
      modifies this, accepts
      ensures accepts == old(accepts) && Valid()
      ensures Abs() == Step(fleet, old(Abs()), Shutdown)
      ensures old(handle) == 0 ==> resumptions == old(resumptions) && arrived == old(arrived)
      ensures old(handle) != 0 ==> handle == 0 && resumptions == [] && arrived == []
      ensures forall r :: r in accepts ==>
                var hit := old(handle) != 0 && r in old(resumptions);
                && r.posts == old(r.posts) + (if hit then 1 else 0)
                && r.cancelled == (old(r.cancelled) || hit) && r.device == old(r.device)
    {
      StepInv(fleet, Abs(), Shutdown);
      ShutdownEmpties(fleet, Abs());
      assert forall r :: r in accepts ==> Abs().accepts[r] == r.Abs();
      CloseDown(fleet);
    }

    method CloseDown(ghost fleet: seq<Descriptor>)
      requires Linked()
      modifies this, accepts
      ensures accepts == old(accepts) && Flags()
      ensures Abs() == Step(fleet, old(Abs()), Shutdown)
    {
      if handle == 0 {
        return;
      }
      EmptyAll();
    }

    method EmptyAll()
      requires Linked()
      modifies this`handle, this`resumptions, this`arrived, this`places, accepts
      ensures Flags() && handle == 0 && resumptions == [] && arrived == []
      ensures AcceptsOf(accepts) == CancelWaiting(old(AcceptsOf(accepts)), old(resumptions))
      ensures places == DropStored(old(places))
    {
      assert forall r :: r in resumptions ==> r in accepts;
      handle := 0;
      CancelWaiters();
      ClearLists();
    }

    method ClearLists()
      modifies this`resumptions, this`arrived, this`places
      ensures resumptions == [] && arrived == [] && places == DropStored(old(places))
      ensures AcceptsOf(accepts) == old(AcceptsOf(accepts))
    {
      places := DropStored(places);
      resumptions, arrived := [], [];
    }

    /** Cancels and posts every waiting accept. */
    method CancelWaiters()
      requires Distinct(resumptions) && (forall r :: r in resumptions ==> r in accepts) && Flags()
      modifies accepts
      ensures AcceptsOf(accepts) == CancelWaiting(old(AcceptsOf(accepts)), resumptions) && Flags()
    {
      CancelAll();
      assert forall r :: r in accepts ==> r.registered == old(r.registered) && r.stage == old(r.stage);
    }
  }

  lemma FirstMatchUnique(stored: seq<DevInfo>, triplet: Triplet, it: nat)
    requires it <= |stored| && forall j :: 0 <= j < it ==> !WildcardMatch(stored[j].triplet, triplet)
    requires it < |stored| ==> WildcardMatch(stored[it].triplet, triplet)
    ensures FirstMatch(stored, triplet) == it
  {
    if FirstMatch(stored, triplet) < it {
      assert false;
    }
  }

  lemma RemoveAtTail<T>(xs: seq<T>, it: nat)
    requires 0 < it < |xs|
    ensures RemoveAt(xs, it) == [xs[0]] + RemoveAt(xs[1..], it - 1)
  {
    assert xs[..it] == [xs[0]] + xs[1..][..it - 1];
    assert xs[it + 1..] == xs[1..][it..];
  }

  lemma {:induction false} WithoutIsRemoveAt<T>(xs: seq<T>, x: T, it: nat)
    requires it <= |xs| && x !in xs[..it]
    requires it < |xs| ==> xs[it] == x
    ensures Without(xs, x) == if it == |xs| then xs else RemoveAt(xs, it)
  {
    if it == 0 {
      assert xs != [] ==> RemoveAt(xs, 0) == xs[1..];
    } else {
      assert xs[0] in xs[..it];
      assert forall y :: y in xs[1..][..it - 1] ==> y in xs[..it];
      WithoutIsRemoveAt(xs[1..], x, it - 1);
      if it == |xs| {
        assert xs == [xs[0]] + xs[1..];
      } else {
        RemoveAtTail(xs, it);
      }
    }
  }
}
