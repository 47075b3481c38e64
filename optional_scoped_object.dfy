/**
 OptionalScopedObject: a holder that reserves storage for at most one object
 of the held type, lets the caller decide when (and whether) to construct it,
 and destroys it exactly once. The raw storage buffer is modelled by `memory`:
 None until the first object is built there, afterwards the object last built
 there, which stays in the buffer (dead) after its destructor ran, exactly as
 the bytes do; only the flag says whether it is live. The constructor and
 destructor calls of the held type are recorded in the ghost log `log`.
 */
module ScopedHolder {
  import opened Lifecycle
  import opened Operations

  class OptionalScopedObject<T> {
    /** Whether an object is currently constructed in the storage (m_active). */
    var active: bool
    /** The storage (m_memory): the object last built in it, if any, live or not. */
    var memory: Option<T>
    /** Every constructor and destructor call of the held type, in order. */
    ghost var log: seq<Event<T>>

    /** The holder's abstract state: the live object, if any. */
    ghost function Current(): State<T>
      reads this
    {
      if active && memory.Some? then Active(memory.value) else Inactive
    }

    /** An active holder has an object in its storage, and the log obeys the
        lifetime discipline and ends in the holder's current state. */
    ghost predicate Valid()
      reads this
    {
      && (active ==> memory.Some?)
      && Replay(log) == Some(Current())
    }

    /** Creates an inactive holder; no constructor of the held type runs. */
    constructor ()
      ensures Valid()
      ensures !active && Current() == Inactive && log == []
    {
      active := false;
      memory := None;
      log := [];
    }

    /** construct(args...): destroys the live object, if any, then builds x
        in the storage and marks the holder active. */
    method Construct(x: T)
      requires Valid()
      modifies this
      ensures Valid()
      ensures active && Current() == After(old(Current()), Operations.Construct(x))
      ensures memory == Some(x)
      ensures log == old(log) + ConstructEvents(old(Current()), x)
    {
      ghost var before := Current();
      StepKeepsDiscipline(log, before, Operations.Construct(x));
      if active {
        log := log + [Dtor(memory.value)];
      }
      memory := Some(x);
      log := log + [Ctor(x)];
      active := true;
    }

    /** destruct(): destroys the live object and marks the holder inactive;
        does nothing on an inactive holder. */
    method Destruct()
      requires Valid()
      modifies this
      ensures Valid()
      ensures !active && Current() == After(old(Current()), Operations.Destruct)
      ensures log == old(log) + DestructEvents(old(Current()))
      ensures !old(active) ==> log == old(log)
      ensures memory == old(memory)
    {
      ghost var before := Current();
      StepKeepsDiscipline(log, before, Operations.Destruct);
      if active {
        log := log + [Dtor(memory.value)];
        active := false;
      }
      assert log == old(log) + DestructEvents(before);
    }

    /** The holder's destructor: calls destruct(), after which every object
        the holder ever built has been destroyed exactly once. */
    method Destroy()
      requires Valid()
      modifies this
      ensures Valid()
      ensures !active && Current() == Inactive
      ensures log == old(log) + DestructEvents(old(Current()))
      ensures memory == old(memory)
      ensures Ctors(log) == Dtors(log)
      ensures forall i :: 0 <= i < |log| && log[i].Ctor? ==> i + 1 < |log| && log[i + 1] == Dtor(log[i].value)
    {
      Destruct();
      LiveCount(log, Inactive);
      ExactlyOnce(log);
    }

    /** operator bool: true exactly when an object lives in the storage. */
    method IsActive() returns (b: bool)
      requires Valid()
      ensures b <==> Current().Active?
    {
      b := active;
    }

    /** operator-> and operator* (const and non-const): the live object,
        unchecked, so the caller must know the holder is active. */
    method Access() returns (v: T)
      requires Valid()
      requires active
      ensures Current() == Active(v)
    {
      v := memory.value;
    }

    /** Live objects of a valid holder: constructors exceed destructors in the
        log by one when the holder is active and by zero when it is not. */
    lemma LiveObjectCount()
      requires Valid()
      ensures Ctors(log) - Dtors(log) == if active then 1 else 0
    {
      LiveCount(log, Current());
    }
  }

  /** Replacing an object and then destroying the holder: "a" is destroyed
      before "b" is built, and "b" is destroyed when the holder is. */
  method ReplaceThenDestroy()
  {
    var h := new OptionalScopedObject<string>();
    h.Construct("a");
    assert h.log == [Ctor("a")];
    var v := h.Access();
    assert v == "a";
    h.Construct("b");
    assert h.log == [Ctor("a"), Dtor("a"), Ctor("b")];
    h.Destroy();
    assert h.log == [Ctor("a"), Dtor("a"), Ctor("b"), Dtor("b")];
    h.Destruct();
    assert h.log == [Ctor("a"), Dtor("a"), Ctor("b"), Dtor("b")];
  }

  /** The three holders a program might keep side by side: one never
      constructed, one always constructed, one constructed only when the
      caller asks for it. Each logs only its own object's events. */
  method SideBySide(wantOptional: bool)
  {
    var hidden := new OptionalScopedObject<string>();
    var open := new OptionalScopedObject<string>();
    open.Construct("always there");
    assert open.log == [Ctor("always there")];
    var optional := new OptionalScopedObject<string>();
    if wantOptional {
      optional.Construct("optional");
      assert optional.log == [Ctor("optional")];
    }
    var b := optional.IsActive();
    assert b == wantOptional;
    optional.Destroy();
    assert optional.log == if wantOptional then [Ctor("optional"), Dtor("optional")] else [];
    open.Destroy();
    assert open.log == [Ctor("always there"), Dtor("always there")];
    hidden.Destroy();
    assert hidden.log == [];
  }
}
