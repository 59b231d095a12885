/** That the event loop can always be brought to its exit: exactly when, and by giving up what is held. */
module OrderlyExit {
  import opened Wrappers
  import opened Usb
  import opened Operations
  import opened Shutdown
  import opened ReferenceOrigins
  import Refs = HandlerRefs

  // ---- Opening and closing ----

  /** Opening an I/O object adds a live reference to the loop, counted, and closing it takes one away. */
  lemma OpenTakes(d: Device, s: System, io: nat, ref: nat)
    requires Shutdown.Inv(s) && Shutdown.Enabled(d, s, OpenIo(io, ref))
    ensures var s' := Act(d, s, OpenIo(io, ref));
            && s'.ios.Keys == s.ios.Keys + {io} && s'.ios[io] == Io(ref, None)
            && ref in s'.world.refs && s'.world.refs[ref] == Some(s.loop)
            && s.loop in s'.world.counters && s'.world.counters[s.loop] == s.world.counters[s.loop] + 1
            && Refs.Live(s'.world, s.loop) == Refs.Live(s.world, s.loop) + 1
  {
    LiveChanges(s.world, Refs.FromHandler(ref, s.loop), s.loop);
    Refs.StepExcess(s.world, Refs.FromHandler(ref, s.loop), s.loop);
  }

  lemma CloseReleases(d: Device, s: System, io: nat)
    requires Shutdown.Inv(s) && Shutdown.Enabled(d, s, CloseIo(io))
    ensures var s' := Act(d, s, CloseIo(io));
            && s'.ios == s.ios - {io}
            && s'.world.refs == s.world.refs - {s.ios[io].ref}
            && s.loop in s'.world.counters && s'.world.counters[s.loop] == s.world.counters[s.loop] - 1
            && Refs.Live(s'.world, s.loop) == Refs.Live(s.world, s.loop) - 1
  {
    var op := Refs.Op<nat, nat>.Destroy(s.ios[io].ref);
    assert Act(d, s, CloseIo(io)).world == Refs.Apply(s.world, op);
    LiveChanges(s.world, op, s.loop);
    Refs.StepExcess(s.world, op, s.loop);
  }

  /** The I/O object an action is about, if any. */
  function About(a: Action): Option<nat> {
    match a
    case OpenIo(io, _) => Some(io)
    case CloseIo(io) => Some(io)
    case StartComplete(io, _) => Some(io)
    case StartPartial(io, _) => Some(io)
    case Engine(io, _) => Some(io)
    case Resume(io) => Some(io)
    case _ => None
  }

  /** An action leaves every other I/O object, its operation and its reference as they are. */
  lemma OthersUntouched(d: Device, s: System, a: Action, io: nat)
    requires Shutdown.Inv(s) && Shutdown.Enabled(d, s, a) && io in s.ios && About(a) != Some(io)
    ensures var s' := Act(d, s, a);
            && io in s'.ios && s'.ios[io] == s.ios[io]
            && s.ios[io].ref in s'.world.refs && s'.world.refs[s.ios[io].ref] == s.world.refs[s.ios[io].ref]
  {
    if a.RefOp? {
      assert Owned(s, s.ios[io].ref);
      UnwrittenKept(s.world, a.op, s.ios[io].ref);
    }
  }

  /** A started operation is of the kind and configuration asked for, with nothing submitted yet. */
  lemma StartsFresh(d: Device, s: System, a: Action)
    requires Shutdown.Inv(s) && Shutdown.Enabled(d, s, a) && (a.StartComplete? || a.StartPartial?)
    ensures var s' := Act(d, s, a);
            && InProgress(s', a.io) && s'.ios[a.io].ref == s.ios[a.io].ref && s'.world == s.world
            && var o := s'.ios[a.io].operation.value;
               && o.config == a.config && (o.CompleteIo? <==> a.StartComplete?)
               && Posted(o) == 0 && !WasRefused(o) && |Phases(o)| == a.config.submissionSize
               && forall t :: 0 <= t < |Phases(o)| ==> Phases(o)[t] == Ready
  {
  }

  // ---- Every operation in the system is one of its engine ----

  ghost predicate AllReached(d: Device, s: System) {
    forall io :: InProgress(s, io) ==> Reached(d, s.ios[io].operation.value)
  }

  lemma ReachedAct(d: Device, s: System, a: Action)
    requires Shutdown.Inv(s) && Shutdown.Enabled(d, s, a) && AllReached(d, s)
    ensures AllReached(d, Act(d, s, a))
  {
    var s' := Act(d, s, a);
    forall io | InProgress(s', io) ensures Reached(d, s'.ios[io].operation.value) {
      if About(a) != Some(io) {
        assert InProgress(s, io);
      } else if a.Engine? {
        StepReached(d, s.ios[io].operation.value, a.e);
      } else if a.StartComplete? {
        CompleteReached(d, a.config);
      } else {
        PartialReached(d, a.config);
      }
    }
  }

  lemma {:induction false} ReachedRun(d: Device, s: System, acts: seq<Action>)
    requires Shutdown.Inv(s) && Shutdown.Feasible(d, s, acts) && AllReached(d, s)
    ensures AllReached(d, Shutdown.Run(d, s, acts))
    decreases acts
  {
    if acts == [] {
    } else {
      ActInv(d, s, acts[0]);
      ReachedAct(d, s, acts[0]);
      ReachedRun(d, Act(d, s, acts[0]), acts[1..]);
    }
  }

  /** Whatever runs side by side, every operation in progress is in a reachable state of its own engine. */
  lemma OperationsReachable(d: Device, s0: System, acts: seq<Action>, io: nat)
    requires Initial(s0) && Shutdown.Feasible(d, s0, acts) && InProgress(Shutdown.Run(d, s0, acts), io)
    ensures Reached(d, Shutdown.Run(d, s0, acts).ios[io].operation.value)
  {
    ReachedRun(d, s0, acts);
  }

  // ---- Bringing the loop to its exit ----

  lemma {:induction false} RunConcat(d: Device, s: System, xs: seq<Action>, ys: seq<Action>)
    requires Shutdown.Inv(s) && Shutdown.Feasible(d, s, xs) && Shutdown.Feasible(d, Shutdown.Run(d, s, xs), ys)
    ensures Shutdown.Feasible(d, s, xs + ys)
    ensures Shutdown.Run(d, s, xs + ys) == Shutdown.Run(d, Shutdown.Run(d, s, xs), ys)
    decreases xs
  {
    if xs == [] {
      assert xs + ys == ys;
    } else {
      assert (xs + ys)[1..] == xs[1..] + ys;
      ActInv(d, s, xs[0]);
      RunConcat(d, Act(d, s, xs[0]), xs[1..], ys);
    }
  }

  ghost function OwnedRefs(s: System): set<nat> {
    set io | io in s.ios :: s.ios[io].ref
  }

  ghost function Busy(s: System): set<nat> {
    set io | io in s.ios && s.ios[io].operation.Some?
  }

  /** An operation's events, closing, stopping, or destroying a reference that no I/O object owned. */
  ghost predicate GivesUp(owned: set<nat>, a: Action) {
    match a
    case RefOp(op) => op.Destroy? && op.r !in owned
    case OpenIo(_, _) => false
    case StartComplete(_, _) => false
    case StartPartial(_, _) => false
    case _ => true
  }

  ghost predicate NoneRefused(s: System) {
    forall io :: InProgress(s, io) ==> !WasRefused(s.ios[io].operation.value)
  }

  /** The same references, held by the same I/O objects, and the same loop. */
  ghost predicate SameHolders(s: System, s': System) {
    && s'.world == s.world && s'.loop == s.loop && s'.exited == s.exited
    && s'.ios.Keys == s.ios.Keys && forall io :: io in s.ios ==> s'.ios[io].ref == s.ios[io].ref
  }

  lemma LessBusy(s: System, io: nat)
    requires io in Busy(s) && NoneRefused(s)
    ensures var s1 := SetOperation(s, io, None);
            Busy(s1) == Busy(s) - {io} && |Busy(s1)| < |Busy(s)| && NoneRefused(s1) && SameHolders(s, s1)
  {
    var s1 := SetOperation(s, io, None);
    assert forall i :: InProgress(s1, i) ==> InProgress(s, i) && s1.ios[i] == s.ios[i];
  }

  lemma SameHoldersTwice(s: System, s1: System, s2: System)
    requires SameHolders(s, s1) && SameHolders(s1, s2)
    ensures SameHolders(s, s2)
  {
  }

  lemma FinishingGivesUp(owned: set<nat>, acts: seq<Action>)
    requires forall a :: a in acts ==> a.Engine? || a.Resume?
    ensures forall a :: a in acts ==> GivesUp(owned, a)
  {
  }

  /** All operations are resumed; nothing else changes. */
  lemma {:induction false} FinishAll(d: Device, s: System, owned: set<nat>) returns (acts: seq<Action>)
    requires Shutdown.Inv(s) && !s.exited && NoneRefused(s)
    ensures Shutdown.Feasible(d, s, acts) && forall a :: a in acts ==> GivesUp(owned, a)
    ensures SameHolders(s, Shutdown.Run(d, s, acts)) && Busy(Shutdown.Run(d, s, acts)) == {}
    decreases |Busy(s)|
  {
    if Busy(s) == {} {
      acts := [];
    } else {
      var io :| io in Busy(s);
      assert InProgress(s, io);
      var first := FinishOne(d, s, io);
      var s1 := SetOperation(s, io, None);
      LessBusy(s, io);
      var rest := FinishAll(d, s1, owned);
      acts := first + rest;
      RunConcat(d, s, first, rest);
      FinishingGivesUp(owned, first);
      SameHoldersTwice(s, s1, Shutdown.Run(d, s1, rest));
    }
  }

  lemma FinishOne(d: Device, s: System, io: nat) returns (acts: seq<Action>)
    requires Shutdown.Inv(s) && !s.exited && InProgress(s, io) && !WasRefused(s.ios[io].operation.value)
    ensures Shutdown.Feasible(d, s, acts) && Shutdown.Run(d, s, acts) == SetOperation(s, io, None)
    ensures forall a :: a in acts ==> a.Engine? || a.Resume?
  {
    var evs := CanResume(d, s.ios[io].operation.value);
    var drive := Drive(d, s, io, evs);
    var s1 := Shutdown.Run(d, s, drive);
    ActInv(d, s1, Resume(io));
    Shutdown.RunCons(d, s1, Resume(io), []);
    RunConcat(d, s, drive, [Resume(io)] + []);
    acts := drive + ([Resume(io)] + []);
    SetTwice(s, io, s1.ios[io].operation, None);
  }

  lemma LessOwned(s: System, s1: System, io: nat)
    requires io in s.ios && s1.ios == s.ios - {io}
    ensures OwnedRefs(s) == OwnedRefs(s1) + {s.ios[io].ref}
    ensures Busy(s1) <= Busy(s) && |s1.ios| < |s.ios|
  {
    assert s.ios.Keys == s1.ios.Keys + {io};
    forall r | r in OwnedRefs(s) ensures r in OwnedRefs(s1) + {s.ios[io].ref} {
      var i :| i in s.ios && s.ios[i].ref == r;
      assert i != io ==> i in s1.ios && s1.ios[i].ref == r;
    }
  }

  lemma CloseOne(d: Device, s: System, io: nat)
    requires Shutdown.Inv(s) && !s.exited && Busy(s) == {} && io in s.ios
    ensures Shutdown.Enabled(d, s, CloseIo(io))
    ensures var s1 := Act(d, s, CloseIo(io));
            && Shutdown.Inv(s1) && !s1.exited && Busy(s1) == {} && |s1.ios| < |s.ios| && s1.loop == s.loop
            && s1.world.refs.Keys - OwnedRefs(s1) == s.world.refs.Keys - OwnedRefs(s)
            && Refs.Excess(s1.world, s.loop) == Refs.Excess(s.world, s.loop)
  {
    assert io !in Busy(s);
    ActInv(d, s, CloseIo(io));
    CloseReleases(d, s, io);
    LessOwned(s, Act(d, s, CloseIo(io)), io);
  }

  /** All I/O objects are closed; their references go with them. */
  lemma {:induction false} CloseAll(d: Device, s: System, owned: set<nat>) returns (acts: seq<Action>)
    requires Shutdown.Inv(s) && !s.exited && Busy(s) == {}
    ensures Shutdown.Feasible(d, s, acts) && forall a :: a in acts ==> GivesUp(owned, a)
    ensures var s' := Shutdown.Run(d, s, acts);
            && s'.ios == map[] && s'.loop == s.loop && !s'.exited
            && s'.world.refs.Keys == s.world.refs.Keys - OwnedRefs(s)
            && Refs.Excess(s'.world, s.loop) == Refs.Excess(s.world, s.loop)
    decreases |s.ios|
  {
    if s.ios == map[] {
      acts := [];
    } else {
      var io :| io in s.ios;
      CloseOne(d, s, io);
      var s1 := Act(d, s, CloseIo(io));
      var rest := CloseAll(d, s1, owned);
      acts := [CloseIo(io)] + rest;
      Shutdown.RunCons(d, s, CloseIo(io), rest);
    }
  }

  /** All other references are destroyed. */
  lemma {:induction false} DestroyAll(d: Device, s: System, owned: set<nat>) returns (acts: seq<Action>)
    requires Shutdown.Inv(s) && !s.exited && s.ios == map[] && s.world.refs.Keys !! owned
    ensures Shutdown.Feasible(d, s, acts) && forall a :: a in acts ==> GivesUp(owned, a)
    ensures var s' := Shutdown.Run(d, s, acts);
            && s'.ios == map[] && s'.loop == s.loop && !s'.exited && s'.world.refs == map[]
            && Refs.Excess(s'.world, s.loop) == Refs.Excess(s.world, s.loop)
    decreases |s.world.refs|
  {
    if s.world.refs == map[] {
      acts := [];
    } else {
      var r :| r in s.world.refs;
      var a := RefOp(Refs.Op<nat, nat>.Destroy(r));
      var s1 := Act(d, s, a);
      ActInv(d, s, a);
      Refs.StepExcess(s.world, Refs.Op<nat, nat>.Destroy(r), s.loop);
      assert |s1.world.refs| < |s.world.refs| by {
        assert s.world.refs.Keys == s1.world.refs.Keys + {r};
      }
      var rest := DestroyAll(d, s1, owned);
      acts := [a] + rest;
      Shutdown.RunCons(d, s, a, rest);
    }
  }

  lemma StopAndExit(d: Device, s: System) returns (acts: seq<Action>)
    requires Shutdown.Inv(s) && !s.exited && s.world.refs == map[] && Refs.Excess(s.world, s.loop) == 0
    ensures Shutdown.Feasible(d, s, acts) && Shutdown.Run(d, s, acts).exited
    ensures Shutdown.Run(d, s, acts).ios == s.ios && Shutdown.Run(d, s, acts).world == s.world
    ensures forall a :: a in acts ==> a.RequestStop? || a.CheckExit?
  {
    var s1 := Act(d, s, RequestStop);
    ActInv(d, s, RequestStop);
    ExitsExactlyWhen(d, s1);
    ActInv(d, s1, CheckExit);
    Shutdown.RunCons(d, s1, CheckExit, []);
    Shutdown.RunCons(d, s, RequestStop, [CheckExit] + []);
    acts := [RequestStop] + ([CheckExit] + []);
  }

  /**
   * From every state with a running loop, without a forgotten release and without an operation whose initial submission
   * was refused: finishing, closing and destroying what there is, and stopping, ends with the loop's exit.
   */
  lemma GiveUpAll(d: Device, s: System) returns (acts: seq<Action>)
    requires Shutdown.Inv(s) && !s.exited && Refs.Excess(s.world, s.loop) == 0 && NoneRefused(s)
    ensures Shutdown.Feasible(d, s, acts) && forall a :: a in acts ==> GivesUp(OwnedRefs(s), a)
    ensures var s' := Shutdown.Run(d, s, acts); s'.exited && s'.ios == map[] && s'.world.refs == map[]
  {
    var owned := OwnedRefs(s);
    var finish := FinishAll(d, s, owned);
    var s1 := Shutdown.Run(d, s, finish);
    assert OwnedRefs(s1) == owned by {
      assert forall io :: io in s.ios <==> io in s1.ios;
    }
    var close := CloseAll(d, s1, owned);
    var s2 := Shutdown.Run(d, s1, close);
    var destroy := DestroyAll(d, s2, owned);
    var s3 := Shutdown.Run(d, s2, destroy);
    var stop := StopAndExit(d, s3);
    RunConcat(d, s2, destroy, stop);
    RunConcat(d, s1, close, destroy + stop);
    RunConcat(d, s, finish, close + (destroy + stop));
    acts := finish + (close + (destroy + stop));
  }

  /**
   * While the loop runs, some actions lead to its exit if and only if no release was forgotten and no operation in
   * progress has a refused initial submission.
   */
  lemma CanExitExactlyWhen(d: Device, s: System)
    requires Shutdown.Inv(s) && !s.exited
    ensures (exists acts :: Shutdown.Feasible(d, s, acts) && Shutdown.Run(d, s, acts).exited) <==>
            Refs.Excess(s.world, s.loop) == 0 && NoneRefused(s)
  {
    if Refs.Excess(s.world, s.loop) > 0 {
      forall acts | Shutdown.Feasible(d, s, acts) ensures !Shutdown.Run(d, s, acts).exited {
        ForgottenReleaseKeepsLoop(d, s, acts);
      }
    } else if io :| InProgress(s, io) && WasRefused(s.ios[io].operation.value) {
      forall acts | Shutdown.Feasible(d, s, acts) ensures !Shutdown.Run(d, s, acts).exited {
        RefusedKeepsLoop(d, s, io, acts);
      }
    } else {
      var acts := GiveUpAll(d, s);
    }
  }
}
