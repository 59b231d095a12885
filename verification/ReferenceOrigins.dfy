/**
 * Where each reference points, traced back through copies and moves to the reference that was made from a handler;
 * and how many references an operation adds to a handler.
 */
module ReferenceOrigins {
  import opened Wrappers
  import opened HandlerRefs

  // ---- One operation ----

  /** Copying gives the new owner the old one's target and leaves the old one as it was. */
  lemma CopyKeeps<R, H>(w: World<R, H>, op: Op<R, H>)
    requires Enabled(w, op) && (op.CopyConstruct? || op.CopyAssign?)
    ensures var refs := Apply(w, op).refs;
            && op.r in refs && op.other in refs
            && refs[op.r] == w.refs[op.other] && refs[op.other] == w.refs[op.other]
            && forall x :: x != op.r ==> (x in refs <==> x in w.refs) && (x in refs ==> refs[x] == w.refs[x])
  {
  }

  /** Moving gives the new owner the old one's target and leaves the old one null; onto itself it changes nothing. */
  lemma MoveTakes<R, H>(w: World<R, H>, op: Op<R, H>)
    requires Enabled(w, op) && (op.MoveConstruct? || op.MoveAssign?)
    ensures var refs := Apply(w, op).refs;
            && op.r in refs && op.other in refs
            && refs[op.r] == w.refs[op.other] && (op.r != op.other ==> refs[op.other] == None)
            && forall x :: x != op.r && x != op.other ==>
                 (x in refs <==> x in w.refs) && (x in refs ==> refs[x] == w.refs[x])
  {
  }

  /** 1 if a live reference points to h, else 0. */
  ghost function Points<R, H>(w: World<R, H>, r: R, h: H): nat {
    if r in w.refs && w.refs[r] == Some(h) then 1 else 0
  }

  lemma LivePointed<R, H>(w: World<R, H>, w': World<R, H>, r: R, h: H)
    requires forall x :: x != r ==> (x in w'.refs <==> x in w.refs) && (x in w'.refs ==> w'.refs[x] == w.refs[x])
    ensures Live(w', h) == Live(w, h) - Points(w, r, h) + Points(w', r, h)
  {
    LiveSplit(w, r, h);
    LiveSplit(w', r, h);
    assert Pointing(w', h) - {r} == Pointing(w, h) - {r};
  }

  /**
   * A handler gains a live reference by a construction or assignment from it and by a copy of a reference to it, none
   * by a move, and loses one when a reference to it is destroyed or assigned over.
   */
  lemma LiveChanges<R, H>(w: World<R, H>, op: Op<R, H>, h: H)
    requires Enabled(w, op)
    ensures var before, after := Live(w, h), Live(Apply(w, op), h);
            match op
            case MakeNull(_) => after == before
            case FromHandler(_, g) => after == before + (if g == h then 1 else 0)
            case CopyConstruct(_, other) => after == before + Points(w, other, h)
            case MoveConstruct(_, _) => after == before
            case AssignHandler(r, g) => after == before + (if g == h then 1 else 0) - Points(w, r, h)
            case CopyAssign(r, other) => after == before + Points(w, other, h) - Points(w, r, h)
            case MoveAssign(r, other) => after == before - (if r == other then 0 else Points(w, r, h))
            case Destroy(r) => after == before - Points(w, r, h)
  {
    var w' := Apply(w, op);
    if op.MoveConstruct? || (op.MoveAssign? && op.r != op.other) {
      var mid := Point(w, op.r, w.refs[op.other]);
      LivePointed(w, mid, op.r, h);
      LivePointed(mid, w', op.other, h);
    } else if op.MoveAssign? {
    } else {
      LivePointed(w, w', op.r, h);
    }
  }

  // ---- Over runs ----

  /** What a name stands for: no live reference, or one that is null or points to a handler. */
  datatype Origin<H> = Absent | Target(target: Option<H>)

  /** Traced back through the operations alone, from the last to the first. */
  ghost function OriginOf<R, H>(refs: map<R, Option<H>>, ops: seq<Op<R, H>>, x: R): Origin<H>
    decreases |ops|
  {
    if ops == [] then (if x in refs then Target(refs[x]) else Absent)
    else
      var before := ops[..|ops| - 1];
      match ops[|ops| - 1]
      case MakeNull(r) => if x == r then Target(None) else OriginOf(refs, before, x)
      case FromHandler(r, h) => if x == r then Target(Some(h)) else OriginOf(refs, before, x)
      case AssignHandler(r, h) => if x == r then Target(Some(h)) else OriginOf(refs, before, x)
      case CopyConstruct(r, other) => OriginOf(refs, before, if x == r then other else x)
      case CopyAssign(r, other) => OriginOf(refs, before, if x == r then other else x)
      case MoveConstruct(r, other) =>
        if x == r then OriginOf(refs, before, other)
        else if x == other then Target(None)
        else OriginOf(refs, before, x)
      case MoveAssign(r, other) =>
        if x == r then OriginOf(refs, before, other)
        else if x == other then Target(None)
        else OriginOf(refs, before, x)
      case Destroy(r) => if x == r then Absent else OriginOf(refs, before, x)
  }

  lemma {:induction false} RunLast<R, H>(w: World<R, H>, ops: seq<Op<R, H>>)
    requires Feasible(w, ops) && ops != []
    ensures var before, last := ops[..|ops| - 1], ops[|ops| - 1];
            && Feasible(w, before) && Enabled(Run(w, before), last)
            && Run(w, ops) == Apply(Run(w, before), last)
    decreases ops
  {
    if |ops| == 1 {
      assert ops[1..] == [] && ops[..0] == [];
      assert Run(Apply(w, ops[0]), []) == Apply(w, ops[0]);
    } else {
      RunLast(Apply(w, ops[0]), ops[1..]);
      assert ops[1..][..|ops| - 2] == ops[..|ops| - 1][1..];
    }
  }

  lemma {:induction false} Traced<R, H>(w: World<R, H>, ops: seq<Op<R, H>>, x: R)
    requires Feasible(w, ops)
    ensures var refs := Run(w, ops).refs;
            OriginOf(w.refs, ops, x) == if x in refs then Target(refs[x]) else Absent
    decreases |ops|
  {
    if ops == [] {
    } else {
      var before, last := ops[..|ops| - 1], ops[|ops| - 1];
      RunLast(w, ops);
      Traced(w, before, x);
      if last.CopyConstruct? || last.CopyAssign? {
        Traced(w, before, last.other);
        CopyKeeps(Run(w, before), last);
      } else if last.MoveConstruct? || last.MoveAssign? {
        Traced(w, before, last.other);
        MoveTakes(Run(w, before), last);
      }
    }
  }

  /** The live references that trace back to h. */
  ghost function TracedTo<R, H>(w: World<R, H>, ops: seq<Op<R, H>>, h: H): set<R>
    requires Feasible(w, ops)
  {
    set x | x in Run(w, ops).refs && OriginOf(w.refs, ops, x) == Target(Some(h))
  }

  /**
   * After any operations a reference is live and points to a handler if and only if copies and moves trace it back to a
   * reference that was made from the handler and neither destroyed nor given another target since; and the handler's
   * counter is the number of those references plus the forgotten releases.
   */
  lemma PointsWhereTraced<R, H>(w: World<R, H>, ops: seq<Op<R, H>>, h: H)
    requires Accounted(w) && Feasible(w, ops) && h in w.counters
    ensures var refs := Run(w, ops).refs;
            && (forall x :: x in refs <==> OriginOf(w.refs, ops, x) != Absent)
            && (forall x :: x in refs ==> OriginOf(w.refs, ops, x) == Target(refs[x]))
    ensures h in Run(w, ops).counters
    ensures Run(w, ops).counters[h] == |TracedTo(w, ops, h)| + Leaks(w, ops, h)
  {
    var w' := Run(w, ops);
    forall x
      ensures OriginOf(w.refs, ops, x) == if x in w'.refs then Target(w'.refs[x]) else Absent
    {
      Traced(w, ops, x);
    }
    RunExcess(w, ops, h);
    assert TracedTo(w, ops, h) == Pointing(w', h);
  }
}
