/** What every run of the acceptor keeps: no device lost or duplicated, first come first served, one post each. */
module AcceptorTheorems {
  import opened Wrappers
  import opened DeviceTriplet
  import opened Acceptor

  // ---- Conservation ----

  datatype Kind = Stored | Handed | Lost

  function KindOf<W>(p: Place<W>): Kind {
    match p
    case InStore => Stored
    case With(_) => Handed
    case Dropped => Lost
  }

  function Count<W>(places: seq<Place<W>>, kind: Kind): nat {
    if places == [] then 0
    else Count(places[..|places| - 1], kind) + (if KindOf(places[|places| - 1]) == kind then 1 else 0)
  }

  lemma {:induction false} KindsCover<W>(places: seq<Place<W>>)
    ensures Count(places, Stored) + Count(places, Handed) + Count(places, Lost) == |places|
  {
    if places == [] {
    } else {
      KindsCover(places[..|places| - 1]);
    }
  }

  /** An increasing list of exactly the stored arrivals has as many entries as there are. */
  lemma {:induction false} StoredCount<W>(places: seq<Place<W>>, a: seq<nat>)
    requires Increasing(a)
    requires forall i :: 0 <= i < |a| ==> a[i] < |places|
    requires forall n :: 0 <= n < |places| ==> (places[n] == InStore <==> n in a)
    ensures Count(places, Stored) == |a|
  {
    if places != [] {
      var last := |places| - 1;
      if places[last] == InStore {
        var k :| 0 <= k < |a| && a[k] == last;
        assert a[|a| - 1] <= last;
        assert k == |a| - 1;
        assert forall n :: n in a[..k] <==> n in a && n != last by {
          assert a == a[..k] + [last];
        }
        StoredCount(places[..last], a[..k]);
      } else {
        assert last !in a;
        StoredCount(places[..last], a);
      }
    } else {
      if a != [] {
        assert false;
      }
    }
  }

  /**
   * In every reachable state each arrival is stored, or the device of exactly one accept, or dropped; the three add
   * up to all arrivals; and no two accepts have the same device.
   */
  lemma Conservation<W>(fleet: seq<Descriptor>, evs: seq<Event<W>>)
    requires Feasible(fleet, Start(), evs)
    ensures var s := Run(fleet, Start(), evs);
            && |s.places| == |s.stored| + Count(s.places, Handed) + Count(s.places, Lost)
            && (forall n :: 0 <= n < |s.places| ==> (s.places[n] == InStore <==> n in Arrivals(s.stored)))
            && (forall w, n :: w in s.accepts && 0 <= n < |s.places| ==>
                  (s.places[n] == With(w) <==> s.accepts[w].device == Some(n)))
            && (forall u, w :: u in s.accepts && w in s.accepts && u != w && s.accepts[u].device.Some? ==>
                  s.accepts[u].device != s.accepts[w].device)
  {
    var s := Run(fleet, Start(), evs);
    KindsCover(s.places);
    StoredCount(s.places, Arrivals(s.stored));
  }

  /** Accepts wait only while nothing is stored, and a device is stored only while nobody waits. */
  lemma NeverBoth<W>(fleet: seq<Descriptor>, evs: seq<Event<W>>)
    requires Feasible(fleet, Start(), evs)
    ensures var s := Run(fleet, Start(), evs); s.waiters == [] || s.stored == []
    ensures var s := Run(fleet, Start(), evs);
            forall w :: w in s.accepts ==>
              (w in s.waiters <==> s.accepts[w].stage == Registered && s.accepts[w].posts == 0)
  {
    var s := Run(fleet, Start(), evs);
    forall w | w in s.accepts ensures w in s.waiters <==> s.accepts[w].stage == Registered && s.accepts[w].posts == 0 {
      assert AcceptOk(s.waiters, w, s.accepts[w]);
    }
  }

  // ---- First come, first served ----

  /** The registered accepts that were not posted, in order of registration. */
  ghost function Unposted<W>(registered: seq<W>, accepts: map<W, Accept>): seq<W> {
    if registered == [] then []
    else
      var w := registered[0];
      (if w in accepts && accepts[w].posts == 0 then [w] else []) + Unposted(registered[1..], accepts)
  }

  ghost predicate Fifo<W>(s: State<W>) {
    && s.waiters == Unposted(s.registered, s.accepts)
    && Distinct(s.registered)
    && (forall w :: w in s.registered ==> w in s.accepts)
    && (forall w :: w in s.accepts ==> (w in s.registered <==> s.accepts[w].stage in {Registered, Resumed}))
  }

  lemma {:induction false} UnpostedSame<W>(registered: seq<W>, accepts: map<W, Accept>, accepts': map<W, Accept>)
    requires forall w :: w in registered ==> w in accepts && w in accepts' && accepts'[w].posts == accepts[w].posts
    ensures Unposted(registered, accepts') == Unposted(registered, accepts)
  {
    if registered == [] {
    } else {
      assert registered[0] in registered;
      UnpostedSame(registered[1..], accepts, accepts');
    }
  }

  lemma {:induction false} UnpostedPosted<W>(registered: seq<W>, accepts: map<W, Accept>, w: W, a: Accept)
    requires Distinct(registered) && w in accepts && a.posts > 0
    ensures Unposted(registered, accepts[w := a]) == Without(Unposted(registered, accepts), w)
  {
    if registered == [] {
    } else {
      var x, rest := registered[0], registered[1..];
      var tail := Unposted(rest, accepts);
      assert registered == [x] + rest;
      assert ([x] + tail)[0] == x && ([x] + tail)[1..] == tail && [] + tail == tail;
      if x == w {
        UnpostedOther(rest, accepts, w, a);
        UnpostedMembers(rest, accepts);
        WithoutMissing(tail, w);
      } else {
        UnpostedPosted(rest, accepts, w, a);
      }
    }
  }

  lemma {:induction false} UnpostedOther<W>(registered: seq<W>, accepts: map<W, Accept>, w: W, a: Accept)
    requires w !in registered && w in accepts
    ensures Unposted(registered, accepts[w := a]) == Unposted(registered, accepts)
  {
    if registered == [] {
    } else {
      assert registered[0] in registered;
      UnpostedOther(registered[1..], accepts, w, a);
    }
  }

  lemma {:induction false} UnpostedMembers<W>(registered: seq<W>, accepts: map<W, Accept>)
    ensures forall w :: w in Unposted(registered, accepts) ==> w in registered && w in accepts && accepts[w].posts == 0
  {
    if registered == [] {
    } else {
      assert registered == [registered[0]] + registered[1..];
      UnpostedMembers(registered[1..], accepts);
    }
  }

  lemma {:induction false} WithoutMissing<W>(xs: seq<W>, x: W)
    requires x !in xs
    ensures Without(xs, x) == xs
  {
    if xs == [] {
    } else {
      assert xs == [xs[0]] + xs[1..];
      WithoutMissing(xs[1..], x);
    }
  }

  lemma {:induction false} UnpostedAppend<W>(registered: seq<W>, accepts: map<W, Accept>, w: W)
    requires w in accepts && accepts[w].posts == 0
    ensures Unposted(registered + [w], accepts) == Unposted(registered, accepts) + [w]
  {
    if registered == [] {
      assert registered + [w] == [w];
    } else {
      assert (registered + [w])[1..] == registered[1..] + [w];
      UnpostedAppend(registered[1..], accepts, w);
    }
  }

  lemma {:induction false} AllPosted<W>(registered: seq<W>, accepts: map<W, Accept>)
    requires forall w :: w in registered && w in accepts ==> accepts[w].posts > 0
    ensures Unposted(registered, accepts) == []
  {
    if registered == [] {
    } else {
      assert registered[0] in registered;
      AllPosted(registered[1..], accepts);
    }
  }

  /** The queue and the registrations stay, and so do the posts and stages that matter. */
  lemma FifoKept<W>(s: State<W>, s': State<W>)
    requires Fifo(s) && s'.waiters == s.waiters && s'.registered == s.registered
    requires forall w :: w in s.accepts ==> w in s'.accepts
    requires forall w :: w in s.registered && w in s.accepts ==>
               s'.accepts[w].posts == s.accepts[w].posts && s'.accepts[w].stage in {Registered, Resumed}
    requires forall w :: w in s'.accepts && w !in s.registered ==> s'.accepts[w].stage !in {Registered, Resumed}
    ensures Fifo(s')
  {
    UnpostedSame(s.registered, s.accepts, s'.accepts);
  }

  /** A registered accept is posted and leaves the queue, if it is there. */
  lemma FifoPosted<W>(s: State<W>, s': State<W>, w: W, a: Accept)
    requires Fifo(s) && w in s.registered && w in s.accepts && a.posts > 0 && a.stage in {Registered, Resumed}
    requires s'.accepts == s.accepts[w := a] && s'.registered == s.registered && s'.waiters == Without(s.waiters, w)
    ensures Fifo(s')
  {
    UnpostedPosted(s.registered, s.accepts, w, a);
  }

  lemma FifoRegistered<W>(s: State<W>, s': State<W>, w: W, a: Accept)
    requires Fifo(s) && w in s.accepts && w !in s.registered && a.posts == 0 && a.stage == Registered
    requires s'.accepts == s.accepts[w := a]
    requires s'.registered == s.registered + [w] && s'.waiters == s.waiters + [w]
    ensures Fifo(s')
  {
    UnpostedOther(s.registered, s.accepts, w, a);
    UnpostedAppend(s.registered, s'.accepts, w);
  }

  lemma FifoShutdown<W>(fleet: seq<Descriptor>, s: State<W>)
    requires Shape(s) && Fifo(s) && s.handle
    requires forall w :: w in s.accepts ==> AcceptOk(s.waiters, w, s.accepts[w])
    ensures Fifo(Step(fleet, s, Shutdown))
  {
    var s' := Step(fleet, s, Shutdown);
    forall w | w in s.registered && w in s'.accepts ensures s'.accepts[w].posts > 0 {
      if w !in s.waiters {
        UnpostedMissing(s.registered, s.accepts, w);
      }
    }
    AllPosted(s.registered, s'.accepts);
  }

  /** A registered accept that is not among the unposted ones was posted. */
  lemma {:induction false} UnpostedMissing<W>(registered: seq<W>, accepts: map<W, Accept>, w: W)
    requires w in registered && w in accepts && w !in Unposted(registered, accepts)
    ensures accepts[w].posts > 0
  {
    assert registered == [registered[0]] + registered[1..];
    if registered[0] != w {
      UnpostedMissing(registered[1..], accepts, w);
    }
  }

  /** The events that neither register nor post an accept. */
  lemma StepFifoKept<W>(fleet: seq<Descriptor>, s: State<W>, e: Event<W>)
    requires Shape(s) && Fifo(s) && Enabled(fleet, s, e)
    requires e.Shutdown? ==> !s.handle
    requires e.Arrive? ==> s.waiters == []
    requires e.StopFn? ==> s.accepts[e.w].stage != Registered
    requires e.Suspend? ==> e.stopRequested || s.stored != []
    ensures Fifo(Step(fleet, s, e))
  {
    FifoKept(s, Step(fleet, s, e));
  }

  lemma StepFifo<W>(fleet: seq<Descriptor>, s: State<W>, e: Event<W>)
    requires Inv(s) && Fifo(s) && Enabled(fleet, s, e)
    ensures Fifo(Step(fleet, s, e))
  {
    var s' := Step(fleet, s, e);
    if e.Shutdown? && s.handle {
      FifoShutdown(fleet, s);
    } else if e.Arrive? && s.waiters != [] {
      var w := s.waiters[0];
      assert w in s.waiters && AcceptOk(s.waiters, w, s.accepts[w]);
      FifoPosted(s, s', w, s'.accepts[w]);
    } else if e.StopFn? && s.accepts[e.w].stage == Registered {
      FifoPosted(s, s', e.w, s'.accepts[e.w]);
    } else if e.Suspend? && !e.stopRequested && s.stored == [] {
      assert AcceptOk(s.waiters, e.w, s.accepts[e.w]);
      FifoRegistered(s, s', e.w, s'.accepts[e.w]);
    } else {
      StepFifoKept(fleet, s, e);
    }
  }

  lemma {:induction false} RunFifo<W>(fleet: seq<Descriptor>, s: State<W>, evs: seq<Event<W>>)
    requires Inv(s) && Fifo(s) && Feasible(fleet, s, evs)
    ensures Fifo(Run(fleet, s, evs))
    decreases evs
  {
    if evs == [] {
    } else {
      StepInv(fleet, s, evs[0]);
      StepFifo(fleet, s, evs[0]);
      RunFifo(fleet, Step(fleet, s, evs[0]), evs[1..]);
    }
  }

  lemma {:induction false} UnpostedHead<W>(registered: seq<W>, accepts: map<W, Accept>) returns (i: nat)
    requires Unposted(registered, accepts) != []
    ensures i < |registered| && registered[i] == Unposted(registered, accepts)[0]
    ensures forall j :: 0 <= j < i && registered[j] in accepts ==> accepts[registered[j]].posts > 0
  {
    if registered[0] in accepts && accepts[registered[0]].posts == 0 {
      i := 0;
    } else {
      assert Unposted(registered, accepts) == Unposted(registered[1..], accepts);
      var k := UnpostedHead(registered[1..], accepts);
      i := k + 1;
      forall j | 0 <= j < i && registered[j] in accepts ensures accepts[registered[j]].posts > 0 {
        if j > 0 {
          assert registered[j] == registered[1..][j - 1];
        }
      }
    }
  }

  /** The i-th registration is the earliest whose accept was not posted. */
  ghost predicate FirstUnposted<W>(s: State<W>, i: nat) {
    && i < |s.registered| && s.registered[i] in s.accepts && s.accepts[s.registered[i]].posts == 0
    && forall j :: 0 <= j < i ==> s.registered[j] in s.accepts && s.accepts[s.registered[j]].posts > 0
  }

  /** An arrival goes to the accept that registered first among those not yet posted; without any, to the store. */
  lemma FirstComeFirstServed<W>(fleet: seq<Descriptor>, evs: seq<Event<W>>, dev: nat)
    requires Feasible(fleet, Start(), evs) && Enabled(fleet, Run(fleet, Start(), evs), Arrive(dev))
    ensures var s := Run(fleet, Start(), evs); var s' := Step(fleet, s, Arrive(dev));
            if s.waiters == [] then s'.places == s.places + [InStore] && s'.accepts == s.accepts
            else exists i: nat :: FirstUnposted(s, i) && s'.places == s.places + [With(s.registered[i])]
  {
    var s := Run(fleet, Start(), evs);
    RunFifo(fleet, Start<W>(), evs);
    if s.waiters != [] {
      var i := UnpostedHead(s.registered, s.accepts);
      UnpostedMembers(s.registered, s.accepts);
      assert s.registered[i] in s.waiters;
      forall j | 0 <= j < i ensures s.registered[j] in s.accepts && s.accepts[s.registered[j]].posts > 0 {
        assert s.registered[j] in s.registered;
      }
      assert FirstUnposted(s, i);
    }
  }
}
