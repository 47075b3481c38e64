/**
 construct(args...) on an active holder when the held type's constructor
 throws, as the code is written: the old object is destroyed first, the
 constructor throws before the flag is set, and the flag is never cleared, so
 the holder goes on claiming an object that is already dead. The corrected
 behaviour, which leaves the holder inactive, is Operations.ConstructThrows.
 */
module ThrowingConstructor {
  import opened Lifecycle
  import opened Operations

  /** The holder's fields as the code keeps them: the flag, the object last
      built in the storage (live or not), and the ghost log. */
  datatype Fields<T> = Fields(active: bool, memory: Option<T>, log: seq<Event<T>>)

  /** The abstract state the fields stand for: the live object, if any. */
  function StateOf<T>(f: Fields<T>): State<T>
  {
    if f.active && f.memory.Some? then Active(f.memory.value) else Inactive
  }

  /** destruct() as written: runs the stored object's destructor whenever the
      flag is set, and clears the flag. */
  function DestructFields<T>(f: Fields<T>): Fields<T>
  {
    if f.active && f.memory.Some? then f.(active := false, log := f.log + [Dtor(f.memory.value)])
    else f
  }

  /** construct(x) as written, when the constructor of x throws: the old
      object's destructor runs, the constructor throws, and control never
      reaches the line that sets the flag, so the flag keeps its old value. */
  function ThrowingConstructAsWritten<T>(f: Fields<T>, x: T): Fields<T>
  {
    if f.active && f.memory.Some? then f.(log := f.log + [Dtor(f.memory.value)])
    else f
  }

  /** A holder holding a, whose construct(b) throws, is then destroyed: the
      destructor of a runs twice, and the log breaks the lifetime discipline. */
  lemma AsWrittenDestroysTwice<T>(a: T, b: T)
    ensures var f := ThrowingConstructAsWritten(Fields(true, Some(a), [Ctor(a)]), b);
      f.active && DestructFields(f).log == [Ctor(a), Dtor(a), Dtor(a)]
    ensures var f := ThrowingConstructAsWritten(Fields(true, Some(a), [Ctor(a)]), b);
      Replay(DestructFields(f).log) == None
  {
  }

  /** On the fields, destruct() as written is the reference destruct of
      Operations: the same new state and the same events. */
  lemma DestructFieldsIsDestruct<T>(f: Fields<T>)
    ensures StateOf(DestructFields(f)) == After(StateOf(f), Destruct)
    ensures DestructFields(f).log == f.log + Emits(StateOf(f), Destruct)
  {
  }

  /** The throwing construct as written logs what the corrected one logs,
      but on an active holder it leaves the flag set over the dead object,
      where the corrected one leaves the holder inactive. */
  lemma AsWrittenDiffersFromCorrected<T>(f: Fields<T>, x: T)
    ensures ThrowingConstructAsWritten(f, x).log == f.log + Emits(StateOf(f), ConstructThrows(x))
    ensures StateOf(f).Active? ==>
      StateOf(ThrowingConstructAsWritten(f, x)) == StateOf(f) != After(StateOf(f), ConstructThrows(x))
    ensures StateOf(f).Inactive? ==>
      StateOf(ThrowingConstructAsWritten(f, x)) == After(StateOf(f), ConstructThrows(x))
  {
  }
}
