/**
 * Reference accounting: what constructing, copying, moving, assigning and destroying event_handler_refs do to the
 * counters of the handlers they point to.
 */
module HandlerRefs {
  import opened Wrappers

  /** The live references, each null or pointing to a handler, and every handler's counter. */
  datatype World<R, H> = World(refs: map<R, Option<H>>, counters: map<H, int>)

  datatype Op<R, H> =
    | MakeNull(r: R)
    | FromHandler(r: R, h: H)
    | CopyConstruct(r: R, other: R)
    | MoveConstruct(r: R, other: R)
    | AssignHandler(r: R, h: H)
    | CopyAssign(r: R, other: R)
    | MoveAssign(r: R, other: R)
    | Destroy(r: R)

  /** C++ object lifetimes: only new references are constructed, only live ones are used. */
  ghost predicate Enabled<R, H>(w: World<R, H>, op: Op<R, H>) {
    match op
    case MakeNull(r) => r !in w.refs
    case FromHandler(r, h) => r !in w.refs && h in w.counters
    case CopyConstruct(r, other) => r !in w.refs && other in w.refs
    case MoveConstruct(r, other) => r !in w.refs && other in w.refs
    case AssignHandler(r, h) => r in w.refs && h in w.counters
    case CopyAssign(r, other) => r in w.refs && other in w.refs
    case MoveAssign(r, other) => r in w.refs && other in w.refs
    case Destroy(r) => r in w.refs
  }

  ghost function Bump<R, H>(w: World<R, H>, target: Option<H>, delta: int): World<R, H> {
    if target.Some? && target.value in w.counters
    then w.(counters := w.counters[target.value := w.counters[target.value] + delta])
    else w
  }

  ghost function Point<R, H>(w: World<R, H>, r: R, target: Option<H>): World<R, H> {
    w.(refs := w.refs[r := target])
  }

  /** The world between the unref of an assignment's old target and the rest of the assignment. */
  ghost function Released<R, H>(w: World<R, H>, r: R): World<R, H>
    requires r in w.refs
  {
    Bump(w, w.refs[r], -1)
  }

  ghost function Apply<R, H>(w: World<R, H>, op: Op<R, H>): World<R, H>
    requires Enabled(w, op)
  {
    match op
    case MakeNull(r) => Point(w, r, None)
    case FromHandler(r, h) => Bump(Point(w, r, Some(h)), Some(h), 1)
    case CopyConstruct(r, other) => Bump(Point(w, r, w.refs[other]), w.refs[other], 1)
    case MoveConstruct(r, other) => Point(Point(w, r, w.refs[other]), other, None)
    case AssignHandler(r, h) =>
      if w.refs[r] == Some(h) then w else Bump(Point(w, r, Some(h)), Some(h), 1)
    case CopyAssign(r, other) =>
      if r == other then w else Bump(Point(Released(w, r), r, w.refs[other]), w.refs[other], 1)
    case MoveAssign(r, other) =>
      if r == other then w else Point(Point(Released(w, r), r, w.refs[other]), other, None)
    case Destroy(r) => Released(w, r).(refs := w.refs - {r})
  }

  ghost predicate Feasible<R, H>(w: World<R, H>, ops: seq<Op<R, H>>)
    decreases ops
  {
    ops == [] || (Enabled(w, ops[0]) && Feasible(Apply(w, ops[0]), ops[1..]))
  }

  ghost function Run<R, H>(w: World<R, H>, ops: seq<Op<R, H>>): World<R, H>
    requires Feasible(w, ops)
    decreases ops
  {
    if ops == [] then w else Run(Apply(w, ops[0]), ops[1..])
  }

  // ---- Accounting ----

  ghost function Pointing<R, H>(w: World<R, H>, h: H): set<R> {
    set r | r in w.refs && w.refs[r] == Some(h)
  }

  ghost function Live<R, H>(w: World<R, H>, h: H): nat {
    |Pointing(w, h)|
  }

  /** Every reference points to a known handler. */
  ghost predicate Known<R, H>(w: World<R, H>) {
    forall r :: r in w.refs && w.refs[r].Some? ==> w.refs[r].value in w.counters
  }

  ghost predicate Accounted<R, H>(w: World<R, H>) {
    Known(w) && forall h :: h in w.counters ==> w.counters[h] == Live(w, h)
  }

  /** What a counter has in excess of the live references. */
  ghost function Excess<R, H>(w: World<R, H>, h: H): int
    requires h in w.counters
  {
    w.counters[h] - Live(w, h)
  }

  /** The assignment from another handler that forgets to release h. */
  ghost predicate Forgets<R, H>(w: World<R, H>, op: Op<R, H>, h: H)
    requires Enabled(w, op)
  {
    op.AssignHandler? && w.refs[op.r] == Some(h) && op.h != h
  }

  /** How often a run forgets to release h. */
  ghost function Leaks<R, H>(w: World<R, H>, ops: seq<Op<R, H>>, h: H): nat
    requires Feasible(w, ops)
    decreases ops
  {
    if ops == [] then 0 else (if Forgets(w, ops[0], h) then 1 else 0) + Leaks(Apply(w, ops[0]), ops[1..], h)
  }

  lemma LiveSplit<R, H>(w: World<R, H>, r: R, h: H)
    ensures Live(w, h) == |Pointing(w, h) - {r}| + (if r in w.refs && w.refs[r] == Some(h) then 1 else 0)
  {
    if r in Pointing(w, h) {
      assert Pointing(w, h) == Pointing(w, h) - {r} + {r};
    } else {
      assert Pointing(w, h) == Pointing(w, h) - {r};
    }
  }

  lemma PointExcess<R, H>(w: World<R, H>, r: R, target: Option<H>, h: H)
    requires h in w.counters
    ensures Excess(Point(w, r, target), h) ==
            Excess(w, h) + (if r in w.refs && w.refs[r] == Some(h) then 1 else 0) - (if target == Some(h) then 1 else 0)
  {
    LiveSplit(w, r, h);
    LiveSplit(Point(w, r, target), r, h);
    assert Pointing(Point(w, r, target), h) - {r} == Pointing(w, h) - {r};
  }

  lemma RemoveExcess<R, H>(w: World<R, H>, r: R, h: H)
    requires r in w.refs && h in w.counters
    ensures Excess(w.(refs := w.refs - {r}), h) == Excess(w, h) + (if w.refs[r] == Some(h) then 1 else 0)
  {
    LiveSplit(w, r, h);
    assert Pointing(w.(refs := w.refs - {r}), h) == Pointing(w, h) - {r};
  }

  lemma BumpExcess<R, H>(w: World<R, H>, target: Option<H>, delta: int, h: H)
    requires h in w.counters
    ensures Excess(Bump(w, target, delta), h) == Excess(w, h) + (if target == Some(h) then delta else 0)
  {
    assert Pointing(Bump(w, target, delta), h) == Pointing(w, h);
  }

  lemma AssignExcess<R, H>(w: World<R, H>, r: R, target: Option<H>, h: H)
    requires r in w.refs && h in w.counters
    ensures Excess(Point(Released(w, r), r, target), h) == Excess(w, h) - (if target == Some(h) then 1 else 0)
  {
    BumpExcess(w, w.refs[r], -1, h);
    PointExcess(Released(w, r), r, target, h);
  }

  lemma StepExcess<R, H>(w: World<R, H>, op: Op<R, H>, h: H)
    requires Known(w) && Enabled(w, op) && h in w.counters
    ensures h in Apply(w, op).counters
    ensures Excess(Apply(w, op), h) == Excess(w, h) + (if Forgets(w, op, h) then 1 else 0)
  {
    StepKnown(w, op);
    match op {
      case MakeNull(r) =>
        PointExcess(w, r, None, h);
      case FromHandler(r, g) =>
        PointExcess(w, r, Some(g), h);
        BumpExcess(Point(w, r, Some(g)), Some(g), 1, h);
      case CopyConstruct(r, other) =>
        PointExcess(w, r, w.refs[other], h);
        BumpExcess(Point(w, r, w.refs[other]), w.refs[other], 1, h);
      case MoveConstruct(r, other) =>
        PointExcess(w, r, w.refs[other], h);
        PointExcess(Point(w, r, w.refs[other]), other, None, h);
      case AssignHandler(r, g) =>
        PointExcess(w, r, Some(g), h);
        BumpExcess(Point(w, r, Some(g)), Some(g), 1, h);
      case CopyAssign(r, other) =>
        AssignExcess(w, r, w.refs[other], h);
        BumpExcess(Point(Released(w, r), r, w.refs[other]), w.refs[other], 1, h);
      case MoveAssign(r, other) =>
        AssignExcess(w, r, w.refs[other], h);
        PointExcess(Point(Released(w, r), r, w.refs[other]), other, None, h);
      case Destroy(r) =>
        BumpExcess(w, w.refs[r], -1, h);
        RemoveExcess(Released(w, r), r, h);
    }
  }

  /** No counter is below its number of live references. */
  ghost predicate Sound<R, H>(w: World<R, H>) {
    Known(w) && forall h :: h in w.counters ==> Excess(w, h) >= 0
  }

  lemma StepSound<R, H>(w: World<R, H>, op: Op<R, H>)
    requires Sound(w) && Enabled(w, op)
    ensures Sound(Apply(w, op)) && Apply(w, op).counters.Keys == w.counters.Keys
  {
    StepKnown(w, op);
    forall h | h in w.counters ensures Excess(Apply(w, op), h) >= 0 {
      StepExcess(w, op, h);
    }
  }

  lemma StepKnown<R, H>(w: World<R, H>, op: Op<R, H>)
    requires Known(w) && Enabled(w, op)
    ensures Known(Apply(w, op)) && Apply(w, op).counters.Keys == w.counters.Keys
  {
  }

  /** Over any sequence of operations, a counter exceeds its live references by the releases that were forgotten. */
  lemma {:induction false} RunExcess<R, H>(w: World<R, H>, ops: seq<Op<R, H>>, h: H)
    requires Known(w) && Feasible(w, ops) && h in w.counters
    ensures Known(Run(w, ops)) && Run(w, ops).counters.Keys == w.counters.Keys
    ensures Excess(Run(w, ops), h) == Excess(w, h) + Leaks(w, ops, h)
    decreases ops
  {
    if ops == [] {
    } else {
      StepKnown(w, ops[0]);
      StepExcess(w, ops[0], h);
      RunExcess(Apply(w, ops[0]), ops[1..], h);
    }
  }

  /**
   * Starting from an accounted world, after any operations on any number of references and handlers, a handler's
   * counter is the number of live references to it if and only if no assignment from another handler overwrote one
   * of them. It is never less.
   */
  lemma AccountedExactlyWhen<R, H>(w: World<R, H>, ops: seq<Op<R, H>>, h: H)
    requires Accounted(w) && Feasible(w, ops) && h in w.counters
    ensures h in Run(w, ops).counters
    ensures Run(w, ops).counters[h] == Live(Run(w, ops), h) <==> Leaks(w, ops, h) == 0
    ensures Run(w, ops).counters[h] >= Live(Run(w, ops), h)
  {
    RunExcess(w, ops, h);
  }

  /** A reference replaced by assignment from another handler is still counted when no reference is left. */
  lemma ForgottenRelease<R, H>(r: R, g: H, h: H)
    requires g != h
    ensures var w: World<R, H> := World(map[], map[g := 0, h := 0]);
            var ops := [FromHandler(r, g), AssignHandler(r, h), Destroy(r)];
            && Accounted(w) && Feasible(w, ops)
            && Run(w, ops).refs == map[] && Run(w, ops).counters == map[g := 1, h := 0]
  {
    var w: World<R, H> := World(map[], map[g := 0, h := 0]);
    var w1 := Apply(w, FromHandler(r, g));
    var w2 := Apply(w1, AssignHandler(r, h));
    var w3 := Apply(w2, Destroy(r));
    var ops := [FromHandler(r, g), AssignHandler(r, h), Destroy(r)];
    assert Pointing(w, g) == {} && Pointing(w, h) == {};
    assert ops[1..] == [AssignHandler(r, h), Destroy(r)] && ops[1..][1..] == [Destroy(r)] && ops[1..][1..][1..] == [];
    assert Feasible(w3, []) && Run(w3, []) == w3;
    assert Feasible(w2, [Destroy(r)]) && Run(w2, [Destroy(r)]) == w3;
    assert Feasible(w1, ops[1..]) && Run(w1, ops[1..]) == w3;
  }

  /** Whatever an operation releases has a counter of at least one, and no copy lets that counter reach zero. */
  lemma NeverUnderflows<R, H>(w: World<R, H>, r: R, h: H)
    requires Known(w) && h in w.counters && Excess(w, h) >= 0
    requires r in w.refs && w.refs[r] == Some(h)
    ensures w.counters[h] >= 1
    ensures forall other :: other in w.refs && other != r && w.refs[other] == Some(h) ==>
              Released(w, r).counters[h] >= 1
  {
    assert r in Pointing(w, h);
    forall other | other in w.refs && other != r && w.refs[other] == Some(h)
      ensures Released(w, r).counters[h] >= 1
    {
      assert other in Pointing(w, h);
      assert |{r, other}| == 2 && {r, other} <= Pointing(w, h);
      SubsetSize({r, other}, Pointing(w, h));
    }
  }

  lemma {:induction false} SubsetSize<T>(a: set<T>, b: set<T>)
    requires a <= b
    ensures |a| <= |b|
    decreases a
  {
    if x :| x in a {
      SubsetSize(a - {x}, b - {x});
    }
  }
}
