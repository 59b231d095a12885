/**
 * The event loop, the references that keep it alive, and the operations that need it: which completions are lost at
 * shutdown. Each I/O object owns one reference to the loop's handler and runs at most one operation.
 */
module Shutdown {
  import opened Wrappers
  import opened Usb
  import opened Operations
  import C = CompleteEngine
  import CompleteLog
  import P = PartialEngine
  import Refs = HandlerRefs

  /** An I/O object: its reference to the handler, and the operation in progress, if any. */
  datatype Io = Io(ref: nat, operation: Option<Operation>)

  /** References and handlers are numbered; loop is the handler whose event loop is modelled. */
  datatype System = System(world: Refs.World<nat, nat>, loop: nat, ios: map<nat, Io>, stopRequested: bool, exited: bool)

  datatype Action =
    | RefOp(op: Refs.Op<nat, nat>)        // any use of references other than those the I/O objects own
    | OpenIo(io: nat, ref: nat)           // takes its reference from the service
    | CloseIo(io: nat)
    | StartComplete(io: nat, config: Config)
    | StartPartial(io: nat, config: Config)
    | Engine(io: nat, e: Event)           // an initial submission, or a callback run by the event loop
    | Resume(io: nat)                     // the posted continuation runs to its end
    | RequestStop
    | CheckExit                           // the loop's test after a round of event handling

  ghost predicate Owned(s: System, r: nat) {
    exists io :: io in s.ios && s.ios[io].ref == r
  }

  /** References that an operation changes or destroys. */
  function Written(op: Refs.Op<nat, nat>): set<nat> {
    match op
    case MoveConstruct(r, other) => {r, other}
    case MoveAssign(r, other) => {r, other}
    case _ => {op.r}
  }

  ghost predicate InProgress(s: System, io: nat) {
    io in s.ios && s.ios[io].operation.Some?
  }

  ghost predicate Enabled(d: Device, s: System, a: Action) {
    match a
    case RefOp(op) => Refs.Enabled(s.world, op) && forall r :: r in Written(op) ==> !Owned(s, r)
    case OpenIo(io, ref) => io !in s.ios && Refs.Enabled(s.world, Refs.FromHandler(ref, s.loop))
    case CloseIo(io) => io in s.ios && !InProgress(s, io)
    case StartComplete(io, config) => io in s.ios && !InProgress(s, io) && ValidConfig(config)
    case StartPartial(io, config) => io in s.ios && !InProgress(s, io) && ValidOperation(config)
    case Engine(io, e) =>
      InProgress(s, io) && (e.Complete? ==> !s.exited) && Operations.Enabled(d, s.ios[io].operation.value, e)
    case Resume(io) => InProgress(s, io) && Posted(s.ios[io].operation.value) > 0
    case RequestStop => true
    case CheckExit => !s.exited && s.loop in s.world.counters
  }

  ghost function SetOperation(s: System, io: nat, operation: Option<Operation>): System
    requires io in s.ios
  {
    s.(ios := s.ios[io := s.ios[io].(operation := operation)])
  }

  ghost function Act(d: Device, s: System, a: Action): System
    requires Inv(s) && Enabled(d, s, a)
  {
    match a
    case RefOp(op) => s.(world := Refs.Apply(s.world, op))
    case OpenIo(io, ref) =>
      s.(world := Refs.Apply(s.world, Refs.FromHandler(ref, s.loop)), ios := s.ios[io := Io(ref, None)])
    case CloseIo(io) =>
      s.(world := Refs.Apply(s.world, Refs.Destroy(s.ios[io].ref)), ios := s.ios - {io})
    case StartComplete(io, config) => SetOperation(s, io, Some(CompleteIo(config, C.Prepared(config))))
    case StartPartial(io, config) => SetOperation(s, io, Some(PartialIo(config, P.Prepared(config))))
    case Engine(io, e) => SetOperation(s, io, Some(Step(d, s.ios[io].operation.value, e)))
    case Resume(io) => SetOperation(s, io, None)
    case RequestStop => s.(stopRequested := true)
    case CheckExit => s.(exited := s.stopRequested && s.world.counters[s.loop] == 0)
  }

  /** What every reachable state keeps. */
  ghost predicate Inv(s: System) {
    && s.loop in s.world.counters
    && Refs.Sound(s.world)
    && (forall io :: io in s.ios ==> s.ios[io].ref in s.world.refs && s.world.refs[s.ios[io].ref] == Some(s.loop))
    && (forall i, j :: i in s.ios && j in s.ios && i != j ==> s.ios[i].ref != s.ios[j].ref)
    && (forall io :: InProgress(s, io) ==> Operations.Inv(s.ios[io].operation.value))
    && (s.exited ==> s.stopRequested)
  }

  ghost predicate NoReference(s: System) {
    forall r :: r in s.world.refs ==> s.world.refs[r] != Some(s.loop)
  }

  /** No references, no I/O objects, and a loop that runs. */
  ghost predicate Initial(s: System): (b: bool)
    ensures b ==> Inv(s)
  {
    && s.world.refs == map[] && s.ios == map[] && !s.stopRequested && !s.exited
    && s.loop in s.world.counters
    && (forall h :: h in s.world.counters ==> s.world.counters[h] == 0)
    && (EmptyIsSound(s.world); true)
  }

  lemma EmptyIsSound(w: Refs.World<nat, nat>)
    requires w.refs == map[] && forall h :: h in w.counters ==> w.counters[h] == 0
    ensures Refs.Sound(w)
  {
    forall h | h in w.counters ensures Refs.Excess(w, h) >= 0 {
      assert Refs.Pointing(w, h) == {};
    }
  }

  lemma UnwrittenKept(w: Refs.World<nat, nat>, op: Refs.Op<nat, nat>, r: nat)
    requires Refs.Enabled(w, op) && r in w.refs && r !in Written(op)
    ensures r in Refs.Apply(w, op).refs && Refs.Apply(w, op).refs[r] == w.refs[r]
  {
  }

  lemma CounterZero(w: Refs.World<nat, nat>, h: nat)
    requires Refs.Sound(w) && h in w.counters && w.counters[h] == 0
    ensures forall r :: r in w.refs ==> w.refs[r] != Some(h)
  {
    if r :| r in w.refs && w.refs[r] == Some(h) {
      Refs.NeverUnderflows(w, r, h);
    }
  }

  lemma RefOpInv(d: Device, s: System, op: Refs.Op<nat, nat>)
    requires Inv(s) && Enabled(d, s, RefOp(op))
    ensures Inv(Act(d, s, RefOp(op)))
  {
    Refs.StepSound(s.world, op);
    forall io | io in s.ios
      ensures s.ios[io].ref in Refs.Apply(s.world, op).refs
      ensures Refs.Apply(s.world, op).refs[s.ios[io].ref] == s.world.refs[s.ios[io].ref]
    {
      assert Owned(s, s.ios[io].ref);
      UnwrittenKept(s.world, op, s.ios[io].ref);
    }
    var s' := Act(d, s, RefOp(op));
    forall i | InProgress(s', i) ensures Operations.Inv(s'.ios[i].operation.value) {
      assert InProgress(s, i);
    }
  }

  lemma OpenIoInv(d: Device, s: System, io: nat, ref: nat)
    requires Inv(s) && Enabled(d, s, OpenIo(io, ref))
    ensures Inv(Act(d, s, OpenIo(io, ref)))
  {
    Refs.StepSound(s.world, Refs.FromHandler(ref, s.loop));
    var s' := Act(d, s, OpenIo(io, ref));
    forall i | InProgress(s', i) ensures Operations.Inv(s'.ios[i].operation.value) {
      assert InProgress(s, i);
    }
  }

  lemma CloseIoInv(d: Device, s: System, io: nat)
    requires Inv(s) && Enabled(d, s, CloseIo(io))
    ensures Inv(Act(d, s, CloseIo(io)))
  {
    Refs.StepSound(s.world, Refs.Destroy(s.ios[io].ref));
    var s' := Act(d, s, CloseIo(io));
    forall i | InProgress(s', i) ensures Operations.Inv(s'.ios[i].operation.value) {
      assert InProgress(s, i);
    }
  }

  lemma SetOperationInv(s: System, io: nat, operation: Option<Operation>)
    requires Inv(s) && io in s.ios
    requires operation.Some? ==> Operations.Inv(operation.value)
    ensures Inv(SetOperation(s, io, operation))
  {
    var s' := SetOperation(s, io, operation);
    forall i | InProgress(s', i) ensures Operations.Inv(s'.ios[i].operation.value) {
      assert i != io ==> InProgress(s, i);
    }
  }

  lemma ActInv(d: Device, s: System, a: Action)
    requires Inv(s) && Enabled(d, s, a)
    ensures Inv(Act(d, s, a))
  {
    match a {
      case RefOp(op) => RefOpInv(d, s, op);
      case OpenIo(io, ref) => OpenIoInv(d, s, io, ref);
      case CloseIo(io) => CloseIoInv(d, s, io);
      case RequestStop =>
      case CheckExit =>
      case StartComplete(io, config) =>
        CompleteLog.PreparedLogInv(config);
        SetOperationInv(s, io, Some(CompleteIo(config, C.Prepared(config))));
      case StartPartial(io, config) =>
        P.PreparedInv(config);
        SetOperationInv(s, io, Some(PartialIo(config, P.Prepared(config))));
      case Engine(io, e) =>
        SetOperationInv(s, io, Some(Step(d, s.ios[io].operation.value, e)));
      case Resume(io) =>
        SetOperationInv(s, io, None);
    }
  }

  ghost predicate Feasible(d: Device, s: System, acts: seq<Action>)
    requires Inv(s)
    decreases acts
  {
    acts == [] || (Enabled(d, s, acts[0]) && (ActInv(d, s, acts[0]); Feasible(d, Act(d, s, acts[0]), acts[1..])))
  }

  ghost function Run(d: Device, s: System, acts: seq<Action>): (s': System)
    requires Inv(s) && Feasible(d, s, acts)
    ensures Inv(s')
    decreases acts
  {
    if acts == [] then s else (ActInv(d, s, acts[0]); Run(d, Act(d, s, acts[0]), acts[1..]))
  }

  // ---- References after the exit ----

  /** A reference to the loop that comes from the service, not from another reference. */
  predicate TakesFromService(s: System, a: Action) {
    match a
    case RefOp(op) => (op.FromHandler? || op.AssignHandler?) && op.h == s.loop
    case OpenIo(_, _) => true
    case _ => false
  }

  /** No action of the run takes a reference from the service after the loop has exited. */
  ghost predicate NoneAfterExit(d: Device, s: System, acts: seq<Action>)
    requires Inv(s) && Feasible(d, s, acts)
    decreases acts
  {
    acts == [] || (!(s.exited && TakesFromService(s, acts[0]))
                   && (ActInv(d, s, acts[0]); NoneAfterExit(d, Act(d, s, acts[0]), acts[1..])))
  }

  /** No action of the run takes a reference from the service after a stop was requested. */
  ghost predicate NoneAfterStop(d: Device, s: System, acts: seq<Action>)
    requires Inv(s) && Feasible(d, s, acts)
    decreases acts
  {
    acts == [] || (!(s.stopRequested && TakesFromService(s, acts[0]))
                   && (ActInv(d, s, acts[0]); NoneAfterStop(d, Act(d, s, acts[0]), acts[1..])))
  }

  /** Whoever has a reference has a loop. */
  ghost predicate Served(s: System) {
    s.exited ==> NoReference(s)
  }

  ghost predicate AlwaysServed(d: Device, s: System, acts: seq<Action>)
    requires Inv(s) && Feasible(d, s, acts)
    decreases acts
  {
    Served(s) && (acts == [] || (ActInv(d, s, acts[0]); AlwaysServed(d, Act(d, s, acts[0]), acts[1..])))
  }

  /** With no reference to the loop, nothing but the service makes one. */
  lemma NoneFromNone(w: Refs.World<nat, nat>, op: Refs.Op<nat, nat>, h: nat)
    requires Refs.Enabled(w, op) && !((op.FromHandler? || op.AssignHandler?) && op.h == h)
    requires forall r :: r in w.refs ==> w.refs[r] != Some(h)
    ensures forall r :: r in Refs.Apply(w, op).refs ==> Refs.Apply(w, op).refs[r] != Some(h)
  {
  }

  lemma ActServed(d: Device, s: System, a: Action)
    requires Inv(s) && Enabled(d, s, a) && Served(s)
    ensures Served(Act(d, s, a)) <==> !(s.exited && TakesFromService(s, a))
  {
    var s' := Act(d, s, a);
    if s.exited && TakesFromService(s, a) {
      var r := if a.OpenIo? then a.ref else a.op.r;
      assert s'.world.refs[r] == Some(s.loop);
    } else if s.exited && a.RefOp? {
      NoneFromNone(s.world, a.op, s.loop);
    } else if a.CheckExit? && s.world.counters[s.loop] == 0 {
      CounterZero(s.world, s.loop);
    }
  }

  /**
   * In every state of a run whoever has a reference has a running loop, if and only if the run takes no reference
   * from the service after the loop has exited.
   */
  lemma {:induction false} ServedExactlyWhen(d: Device, s: System, acts: seq<Action>)
    requires Inv(s) && Served(s) && Feasible(d, s, acts)
    ensures AlwaysServed(d, s, acts) <==> NoneAfterExit(d, s, acts)
    ensures AlwaysServed(d, s, acts) ==> Served(Run(d, s, acts))
    decreases acts
  {
    if acts == [] {
    } else {
      ActInv(d, s, acts[0]);
      ActServed(d, s, acts[0]);
      if Served(Act(d, s, acts[0])) {
        ServedExactlyWhen(d, Act(d, s, acts[0]), acts[1..]);
      }
    }
  }

  /** What a caller can keep to: no reference from the service after a stop request. */
  lemma {:induction false} StopRuleSuffices(d: Device, s: System, acts: seq<Action>)
    requires Inv(s) && Feasible(d, s, acts) && NoneAfterStop(d, s, acts)
    ensures NoneAfterExit(d, s, acts)
    decreases acts
  {
    if acts == [] {
    } else {
      ActInv(d, s, acts[0]);
      StopRuleSuffices(d, Act(d, s, acts[0]), acts[1..]);
    }
  }

  /**
   * In every state reached without taking a reference from the service after the exit: while an operation is in
   * progress the loop has not exited and its handler's counter is at least one, so each pending transfer's completion
   * can still be delivered.
   */
  lemma NoLostCompletion(d: Device, s0: System, acts: seq<Action>, io: nat, e: Event)
    requires Initial(s0) && Feasible(d, s0, acts) && NoneAfterExit(d, s0, acts)
    requires InProgress(Run(d, s0, acts), io)
    ensures var s := Run(d, s0, acts);
            && !s.exited && s.loop in s.world.counters && s.world.counters[s.loop] >= 1
            && (Operations.Enabled(d, s.ios[io].operation.value, e) ==> Enabled(d, s, Engine(io, e)))
  {
    var s := Run(d, s0, acts);
    ServedExactlyWhen(d, s0, acts);
    Refs.NeverUnderflows(s.world, s.ios[io].ref, s.loop);
  }

  /** After the exit no reference to the handler is live and no I/O object exists, unless the service gives one. */
  lemma ExitIsFinal(d: Device, s: System, acts: seq<Action>)
    requires Inv(s) && s.exited && NoReference(s) && Feasible(d, s, acts) && NoneAfterExit(d, s, acts)
    ensures var s' := Run(d, s, acts); s'.exited && NoReference(s') && s'.ios == map[]
  {
    ServedExactlyWhen(d, s, acts);
    ExitStays(d, s, acts);
    if io :| io in Run(d, s, acts).ios {
      assert false;
    }
  }

  lemma {:induction false} ExitStays(d: Device, s: System, acts: seq<Action>)
    requires Inv(s) && s.exited && Feasible(d, s, acts)
    ensures Run(d, s, acts).exited
    decreases acts
  {
    if acts == [] {
    } else {
      ActInv(d, s, acts[0]);
      ExitStays(d, Act(d, s, acts[0]), acts[1..]);
    }
  }

  // ---- What is lost otherwise ----

  /** An operation that was not resumed before the loop exited. */
  ghost predicate Stranded(s: System, io: nat) {
    s.exited && InProgress(s, io) && Posted(s.ios[io].operation.value) == 0
  }

  lemma StrandedStep(d: Device, s: System, io: nat, a: Action)
    requires Inv(s) && Stranded(s, io) && Enabled(d, s, a)
    ensures Stranded(Act(d, s, a), io)
    ensures PendingKept(Phases(s.ios[io].operation.value), Phases(Act(d, s, a).ios[io].operation.value))
  {
    if a.Engine? && a.io == io {
      NoCallback(d, s.ios[io].operation.value, a.e);
    }
  }

  /** It is never resumed, and none of its pending transfers ever completes. */
  lemma {:induction false} StrandedForever(d: Device, s: System, io: nat, acts: seq<Action>)
    requires Inv(s) && Stranded(s, io) && Feasible(d, s, acts)
    ensures Stranded(Run(d, s, acts), io)
    ensures PendingKept(Phases(s.ios[io].operation.value), Phases(Run(d, s, acts).ios[io].operation.value))
    decreases acts
  {
    if acts == [] {
    } else {
      ActInv(d, s, acts[0]);
      StrandedStep(d, s, io, acts[0]);
      StrandedForever(d, Act(d, s, acts[0]), io, acts[1..]);
    }
  }

  /** It waits for the completion of a transfer that it has submitted. */
  ghost predicate Waits(s: System, io: nat) {
    && Stranded(s, io)
    && exists t: nat ::
         t < |Phases(s.ios[io].operation.value)| && Phases(s.ios[io].operation.value)[t] == Pending
  }

  lemma WaitsForever(d: Device, s: System, io: nat, acts: seq<Action>)
    requires Inv(s) && Waits(s, io) && Feasible(d, s, acts)
    ensures Waits(Run(d, s, acts), io)
  {
    var t: nat :| t < |Phases(s.ios[io].operation.value)| && Phases(s.ios[io].operation.value)[t] == Pending;
    StrandedForever(d, s, io, acts);
    assert Phases(Run(d, s, acts).ios[io].operation.value)[t] == Pending;
  }

  lemma FirstAccept(d: Device, s: System, io: nat, c: Config)
    requires Inv(s) && s.exited && InProgress(s, io) && ValidOperation(c)
    requires s.ios[io].operation.value == PartialIo(c, P.Prepared(c))
    ensures Feasible(d, s, [Engine(io, Accept)] + []) && Waits(Run(d, s, [Engine(io, Accept)] + []), io)
  {
    var o := s.ios[io].operation.value;
    var s' := Act(d, s, Engine(io, Accept));
    ActInv(d, s, Engine(io, Accept));
    assert s'.ios[io].operation.value == Step(d, o, Accept);
    assert Phases(Step(d, o, Accept))[0] == Pending;
    RunCons(d, s, Engine(io, Accept), []);
  }

  lemma FirstSubmit(d: Device, s: System, io: nat, c: Config)
    requires Inv(s) && s.exited && io in s.ios && !InProgress(s, io) && ValidOperation(c)
    ensures var acts := [StartPartial(io, c)] + ([Engine(io, Accept)] + []);
            Feasible(d, s, acts) && Waits(Run(d, s, acts), io)
  {
    var s' := Act(d, s, StartPartial(io, c));
    ActInv(d, s, StartPartial(io, c));
    FirstAccept(d, s', io, c);
    RunCons(d, s, StartPartial(io, c), [Engine(io, Accept)] + []);
  }

  /** After the exit, an I/O object that is opened and submits waits for a completion. */
  lemma LostSubmission(d: Device, s: System, io: nat, ref: nat, c: Config)
    requires Inv(s) && s.exited && io !in s.ios && ref !in s.world.refs && ValidOperation(c)
    ensures var acts := [OpenIo(io, ref)] + ([StartPartial(io, c)] + ([Engine(io, Accept)] + []));
            Feasible(d, s, acts) && Waits(Run(d, s, acts), io)
  {
    var s' := Act(d, s, OpenIo(io, ref));
    ActInv(d, s, OpenIo(io, ref));
    FirstSubmit(d, s', io, c);
    RunCons(d, s, OpenIo(io, ref), [StartPartial(io, c)] + ([Engine(io, Accept)] + []));
  }

  lemma RunCons(d: Device, s: System, a: Action, rest: seq<Action>)
    requires Inv(s) && Enabled(d, s, a) && Inv(Act(d, s, a)) && Feasible(d, Act(d, s, a), rest)
    ensures Feasible(d, s, [a] + rest) && Run(d, s, [a] + rest) == Run(d, Act(d, s, a), rest)
  {
    assert ([a] + rest)[0] == a && ([a] + rest)[1..] == rest;
  }

  lemma LostAfterExit(d: Device, s: System, io: nat, ref: nat, c: Config)
    requires Inv(s) && s.stopRequested && !s.exited && s.world.counters[s.loop] == 0
    requires io !in s.ios && ref !in s.world.refs && ValidOperation(c)
    ensures var acts := [CheckExit] + ([OpenIo(io, ref)] + ([StartPartial(io, c)] + ([Engine(io, Accept)] + [])));
            Feasible(d, s, acts) && Waits(Run(d, s, acts), io)
  {
    ActInv(d, s, CheckExit);
    LostSubmission(d, Act(d, s, CheckExit), io, ref, c);
    RunCons(d, s, CheckExit, [OpenIo(io, ref)] + ([StartPartial(io, c)] + ([Engine(io, Accept)] + [])));
  }

  /** Nothing has happened yet, with handler 0 and its loop. */
  ghost function Blank(): (s: System)
    ensures Initial(s)
  {
    EmptyIsSound(Refs.World(map[], map[0 := 0]));
    System(Refs.World(map[], map[0 := 0]), 0, map[], false, false)
  }

  /** The shortest loss: stop, exit, then a new I/O object submits one transfer for one byte, and waits for ever. */
  lemma LostCompletion(d: Device)
    ensures var c := Config([Buffer(0, 1)], 1, 1);
            var acts :=
              [RequestStop] + ([CheckExit] + ([OpenIo(0, 0)] + ([StartPartial(0, c)] + ([Engine(0, Accept)] + []))));
            && Feasible(d, Blank(), acts) && Waits(Run(d, Blank(), acts), 0)
            && forall more :: Feasible(d, Run(d, Blank(), acts), more) ==> Waits(Run(d, Run(d, Blank(), acts), more), 0)
  {
    var c := Config([Buffer(0, 1)], 1, 1);
    var acts := [CheckExit] + ([OpenIo(0, 0)] + ([StartPartial(0, c)] + ([Engine(0, Accept)] + [])));
    ActInv(d, Blank(), RequestStop);
    LostAfterExit(d, Act(d, Blank(), RequestStop), 0, 0, c);
    RunCons(d, Blank(), RequestStop, acts);
    var s := Run(d, Blank(), [RequestStop] + acts);
    forall more | Feasible(d, s, more) ensures Waits(Run(d, s, more), 0) {
      WaitsForever(d, s, 0, more);
    }
  }

  // ---- The exit ----

  /** The loop's test lets it exit if and only if a stop was requested, no reference is live, and none was forgotten. */
  lemma ExitsExactlyWhen(d: Device, s: System)
    requires Inv(s) && Enabled(d, s, CheckExit)
    ensures Act(d, s, CheckExit).exited <==>
            s.stopRequested && NoReference(s) && Refs.Excess(s.world, s.loop) == 0
  {
    if s.world.counters[s.loop] == 0 {
      CounterZero(s.world, s.loop);
    }
    if NoReference(s) {
      assert Refs.Pointing(s.world, s.loop) == {};
    }
  }

  /** After a stop request, taking a reference from the service is safe if and only if one is live or was forgotten. */
  lemma LateOpenSafeExactlyWhen(d: Device, s: System, io: nat, ref: nat)
    requires Inv(s) && s.stopRequested && Enabled(d, s, CheckExit) && Enabled(d, s, OpenIo(io, ref))
    ensures var s1 := Act(d, s, CheckExit);
            && Inv(s1) && Enabled(d, s1, OpenIo(io, ref))
            && (Served(Act(d, s1, OpenIo(io, ref))) <==> !NoReference(s) || Refs.Excess(s.world, s.loop) > 0)
  {
    ActInv(d, s, CheckExit);
    ExitsExactlyWhen(d, s);
    ActServed(d, s, CheckExit);
    ActServed(d, Act(d, s, CheckExit), OpenIo(io, ref));
  }

  /** A reference operation in the system's step, if it is one. */
  ghost function WorldOp(s: System, a: Action): Option<Refs.Op<nat, nat>> {
    match a
    case RefOp(op) => Some(op)
    case OpenIo(_, ref) => Some(Refs.FromHandler(ref, s.loop))
    case CloseIo(io) => if io in s.ios then Some(Refs.Destroy(s.ios[io].ref)) else None
    case _ => None
  }

  /** Once a release has been forgotten, the loop never exits. */
  lemma {:induction false} ForgottenReleaseKeepsLoop(d: Device, s: System, acts: seq<Action>)
    requires Inv(s) && !s.exited && Refs.Excess(s.world, s.loop) > 0 && Feasible(d, s, acts)
    ensures !Run(d, s, acts).exited
    decreases acts
  {
    if acts == [] {
    } else {
      ActInv(d, s, acts[0]);
      if WorldOp(s, acts[0]).Some? {
        Refs.StepExcess(s.world, WorldOp(s, acts[0]).value, s.loop);
      } else if acts[0].CheckExit? {
        ExitsExactlyWhen(d, s);
      }
      ForgottenReleaseKeepsLoop(d, Act(d, s, acts[0]), acts[1..]);
    }
  }

  lemma RefusedStays(d: Device, s: System, io: nat, a: Action)
    requires Inv(s) && !s.exited && InProgress(s, io) && WasRefused(s.ios[io].operation.value) && Enabled(d, s, a)
    ensures var s' := Act(d, s, a); !s'.exited && InProgress(s', io) && WasRefused(s'.ios[io].operation.value)
  {
    if a.CheckExit? {
      Refs.NeverUnderflows(s.world, s.ios[io].ref, s.loop);
    } else if a.Resume? && a.io == io {
      PostedMeansDrained(s.ios[io].operation.value);
    } else if a.Engine? && a.io == io {
      RefusedStep(d, s.ios[io].operation.value, a.e);
      assert Act(d, s, a).ios[io].operation == Some(Step(d, s.ios[io].operation.value, a.e));
    }
  }

  /**
   * An operation with a refused initial submission is never resumed, so its I/O object keeps its reference, and the
   * loop never exits.
   */
  lemma {:induction false} RefusedKeepsLoop(d: Device, s: System, io: nat, acts: seq<Action>)
    requires Inv(s) && !s.exited && InProgress(s, io) && WasRefused(s.ios[io].operation.value)
    requires Feasible(d, s, acts)
    ensures var s' := Run(d, s, acts); !s'.exited && InProgress(s', io) && WasRefused(s'.ios[io].operation.value)
    decreases acts
  {
    if acts == [] {
    } else {
      ActInv(d, s, acts[0]);
      RefusedStays(d, s, io, acts[0]);
      RefusedKeepsLoop(d, Act(d, s, acts[0]), io, acts[1..]);
    }
  }

  /**
   * Whatever else has happened, even a stop request, while the loop runs an operation none of whose initial
   * submissions was refused can still be brought to its resumption by its own events alone.
   */
  lemma OperationCanResume(d: Device, s: System, io: nat) returns (acts: seq<Action>)
    requires Inv(s) && !s.exited && InProgress(s, io) && !WasRefused(s.ios[io].operation.value)
    ensures Feasible(d, s, acts)
    ensures var s' := Run(d, s, acts); InProgress(s', io) && Posted(s'.ios[io].operation.value) == 1
    ensures forall a :: a in acts ==> a.Engine? && a.io == io
  {
    var evs := CanResume(d, s.ios[io].operation.value);
    acts := Drive(d, s, io, evs);
  }

  /** The operation's run, as actions of the system that change nothing else. */
  lemma {:induction false} Drive(d: Device, s: System, io: nat, evs: seq<Event>) returns (acts: seq<Action>)
    requires Inv(s) && !s.exited && InProgress(s, io)
    requires Operations.Feasible(d, s.ios[io].operation.value, evs)
    ensures Feasible(d, s, acts)
    ensures Run(d, s, acts) == SetOperation(s, io, Some(Operations.Run(d, s.ios[io].operation.value, evs)))
    ensures forall a :: a in acts ==> a.Engine? && a.io == io
    decreases evs
  {
    if evs == [] {
      acts := [];
      assert SetOperation(s, io, s.ios[io].operation) == s;
    } else {
      var s' := Act(d, s, Engine(io, evs[0]));
      ActInv(d, s, Engine(io, evs[0]));
      var rest := Drive(d, s', io, evs[1..]);
      acts := [Engine(io, evs[0])] + rest;
      RunCons(d, s, Engine(io, evs[0]), rest);
      SetTwice(s, io, s'.ios[io].operation, Some(Operations.Run(d, s.ios[io].operation.value, evs)));
    }
  }

  lemma SetTwice(s: System, io: nat, first: Option<Operation>, second: Option<Operation>)
    requires io in s.ios
    ensures SetOperation(SetOperation(s, io, first), io, second) == SetOperation(s, io, second)
  {
    assert s.ios[io := s.ios[io].(operation := first)][io := s.ios[io].(operation := second)]
        == s.ios[io := s.ios[io].(operation := second)];
  }
}
