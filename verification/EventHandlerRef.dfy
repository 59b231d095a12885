/** event_handler_ref and the counting handler with their own fields, each operation proved to take its step. */
module EventHandlerRef {
  import opened Wrappers
  import opened HandlerRefs

  /** refcounted_event_handler's counter. */
  class Handler {
    var counter: int

    constructor ()
      ensures counter == 0
    {
      counter := 0;
    }

    method Ref()
      modifies this
      ensures counter == old(counter) + 1
    {
      counter := counter + 1;
    }

    /** The counter is unsigned: it must not be zero. */
    method Unref()
      requires counter >= 1
      modifies this
      ensures counter == old(counter) - 1
    {
      counter := counter - 1;
    }

    /** The test after a round of the event loop: a stop was requested, no reference is live, and none was forgotten. */
    method ShouldExit(stopRequested: bool, ghost refs: set<Reference>, ghost handlers: set<Handler>)
      returns (exit: bool)
      requires this in handlers && Sound(WorldOf(refs, handlers))
      ensures exit <==> && stopRequested && (forall r :: r in refs ==> r.original != this)
                        && Excess(WorldOf(refs, handlers), this) == 0
    {
      exit := stopRequested && counter == 0;
      CounterMeans(refs, handlers);
    }

    lemma CounterMeans(refs: set<Reference>, handlers: set<Handler>)
      requires this in handlers && Sound(WorldOf(refs, handlers))
      ensures counter == 0 <==> && (forall r :: r in refs ==> r.original != this)
                                && Excess(WorldOf(refs, handlers), this) == 0
    {
      var w := WorldOf(refs, handlers);
      if r :| r in refs && r.original == this {
        assert w.refs[r] == Some(this);
        NeverUnderflows(w, r, this);
      } else {
        assert Pointing(w, this) == {};
      }
    }
  }

  ghost function Target(r: Reference): Option<Handler>
    reads r
  {
    if r.original == null then None else Some(r.original)
  }

  /** The live references and the handlers, as an accounting world. */
  ghost function WorldOf(refs: set<Reference>, handlers: set<Handler>): World<Reference, Handler>
    reads refs, handlers
  {
    World(map r | r in refs :: Target(r), map h | h in handlers :: h.counter)
  }

  /** In an accounted world every reference may be released: its handler is known and its counter is not zero. */
  lemma SoundMeansReleasable(refs: set<Reference>, handlers: set<Handler>, r: Reference)
    requires r in refs && Sound(WorldOf(refs, handlers))
    ensures r.Releasable(handlers)
  {
    if r.original != null {
      assert WorldOf(refs, handlers).refs[r] == Some(r.original);
      NeverUnderflows(WorldOf(refs, handlers), r, r.original);
    }
  }

  class Reference {
    var original: Handler?

    ghost predicate Releasable(handlers: set<Handler>)
      reads this, handlers
    {
      original != null ==> original in handlers && original.counter >= 1
    }

    constructor Null(ghost refs: set<Reference>, ghost handlers: set<Handler>)
      ensures this !in refs
      ensures original == null
      ensures WorldOf(refs + {this}, handlers) == Apply(old(WorldOf(refs, handlers)), MakeNull(this))
    {
      original := null;
    }

    constructor FromHandler(h: Handler, ghost refs: set<Reference>, ghost handlers: set<Handler>)
      requires h in handlers
      modifies h
      ensures this !in refs
      ensures original == h && h.counter == old(h.counter) + 1
      ensures WorldOf(refs + {this}, handlers) == Apply(old(WorldOf(refs, handlers)), Op.FromHandler(this, h))
    {
      original := h;
      new;
      Ref();
    }

    constructor CopyOf(other: Reference, ghost refs: set<Reference>, ghost handlers: set<Handler>)
      requires other in refs && other.Releasable(handlers)
      modifies handlers
      ensures this !in refs
      ensures original == other.original == old(other.original)
      ensures original != null ==> original.counter == old(other.original.counter) + 1
      ensures WorldOf(refs + {this}, handlers) == Apply(old(WorldOf(refs, handlers)), CopyConstruct(this, other))
    {
      original := other.original;
      new;
      Ref();
    }

    constructor MovedFrom(other: Reference, ghost refs: set<Reference>, ghost handlers: set<Handler>)
      requires other in refs
      modifies other
      ensures this !in refs
      ensures original == old(other.original) && other.original == null
      ensures WorldOf(refs + {this}, handlers) == Apply(old(WorldOf(refs, handlers)), MoveConstruct(this, other))
    {
      original := other.original;
      new;
      other.original := null;
    }

    method Ref()
      modifies original
      ensures original != null ==> original.counter == old(original.counter) + 1
    {
      if original == null {
        return;
      }
      original.Ref();
    }

    /** Releases the target; it is one of the handlers, and its counter is not zero. */
    method Unref(ghost refs: set<Reference>, ghost handlers: set<Handler>)
      requires this in refs && Releasable(handlers)
      modifies original
      ensures WorldOf(refs, handlers) == Released(old(WorldOf(refs, handlers)), this)
    {
      if original == null {
        return;
      }
      original.Unref();
    }

    /** operator= from a handler: the old target is not released. */
    method AssignHandler(h: Handler, ghost refs: set<Reference>, ghost handlers: set<Handler>)
      requires this in refs && h in handlers
      modifies this, h
      ensures original == h
      ensures h.counter == old(h.counter) + (if old(original) == h then 0 else 1)
      ensures WorldOf(refs, handlers) == Apply(old(WorldOf(refs, handlers)), Op.AssignHandler(this, h))
    {
      if original == h {
        return;
      }
      original := h;
      Ref();
    }

    /** What both assignments from a reference do first: release the old target, then take the new one uncounted. */
    method Retarget(target: Handler?, ghost refs: set<Reference>, ghost handlers: set<Handler>)
      requires this in refs && Releasable(handlers)
      modifies this, handlers
      ensures original == target
      ensures WorldOf(refs, handlers) ==
              Point(Released(old(WorldOf(refs, handlers)), this), this, if target == null then None else Some(target))
    {
      if original != null {
        Unref(refs, handlers);
      }
      original := target;
    }

    method CopyAssign(other: Reference, ghost refs: set<Reference>, ghost handlers: set<Handler>)
      requires this in refs && other in refs && Releasable(handlers) && other.Releasable(handlers)
      modifies this, handlers
      ensures original == other.original == old(other.original)
      ensures WorldOf(refs, handlers) == Apply(old(WorldOf(refs, handlers)), Op.CopyAssign(this, other))
    {
      if this == other {
        return;
      }
      Retarget(other.original, refs, handlers);
      Ref();
    }

    method MoveAssign(other: Reference, ghost refs: set<Reference>, ghost handlers: set<Handler>)
      requires this in refs && other in refs && Releasable(handlers)
      modifies this, other, handlers
      ensures original == old(other.original) && (this != other ==> other.original == null)
      ensures WorldOf(refs, handlers) == Apply(old(WorldOf(refs, handlers)), Op.MoveAssign(this, other))
    {
      if this == other {
        return;
      }
      Retarget(other.original, refs, handlers);
      other.original := null;
    }

    /** The destructor. */
    method Destroy(ghost refs: set<Reference>, ghost handlers: set<Handler>)
      requires this in refs && Releasable(handlers)
      modifies handlers
      ensures original == old(original)
      ensures original != null ==> original.counter == old(original.counter) - 1
      ensures WorldOf(refs - {this}, handlers) == Apply(old(WorldOf(refs, handlers)), Op.Destroy(this))
    {
      Unref(refs, handlers);
    }
  }
}
