/**
 A reference semantics of the holder, on values: each operation of
 OptionalScopedObject as the state it leaves and the constructor and
 destructor events it causes, and any sequence of operations run on a freshly
 created holder. The class in optional_scoped_object.dfy is proved against
 these functions. Construct and Destruct are the code as written (with a
 constructor of the held type that returns normally); ConstructThrows is the
 CORRECTED construct for a constructor that throws, which differs from the
 code as written (see throwing_constructor.dfy). The lemmas about sequences of
 operations therefore hold of the code as written for every sequence without
 a throwing constructor, and of the corrected construct otherwise.
 */
module Operations {
  import opened Lifecycle

  /** The calls that change a holder: construct(args...) with the object the
      arguments build; the corrected construct(args...) when the held type's
      constructor throws instead of building arg (not the code as written,
      which keeps the flag set); and destruct(). */
  datatype Op<T> = Construct(arg: T) | ConstructThrows(arg: T) | Destruct

  /** The events construct(x) causes in state s: the live object, if there is
      one, is destroyed first; then x is built. */
  function ConstructEvents<T>(s: State<T>, x: T): seq<Event<T>>
  {
    match s
    case Inactive => [Ctor(x)]
    case Active(old_value) => [Dtor(old_value), Ctor(x)]
  }

  /** The events destruct() causes in state s: the live object's destructor,
      or nothing when the holder is inactive. */
  function DestructEvents<T>(s: State<T>): seq<Event<T>>
  {
    match s
    case Inactive => []
    case Active(v) => [Dtor(v)]
  }

  /** The state an operation leaves behind. The corrected construct whose
      constructor throws has already destroyed the old object, and leaves the
      holder inactive rather than claiming the destroyed object; the code as
      written leaves it claiming the dead object instead. */
  function After<T>(s: State<T>, op: Op<T>): State<T>
  {
    match op
    case Construct(x) => Active(x)
    case ConstructThrows(_) => Inactive
    case Destruct => Inactive
  }

  /** The events an operation causes in state s; a constructor that throws
      completes no construction, so only the old object's destructor is logged. */
  function Emits<T>(s: State<T>, op: Op<T>): seq<Event<T>>
  {
    match op
    case Construct(x) => ConstructEvents(s, x)
    case ConstructThrows(_) => DestructEvents(s)
    case Destruct => DestructEvents(s)
  }

  /** A holder's state together with everything it has logged. */
  datatype Trace<T> = Trace(state: State<T>, log: seq<Event<T>>)

  /** Runs a sequence of operations on a freshly created holder, which starts
      inactive with nothing logged. */
  function Run<T>(ops: seq<Op<T>>): Trace<T>
    decreases |ops|
  {
    if ops == [] then Trace(Inactive, [])
    else
      var t := Run(ops[..|ops| - 1]);
      var op := ops[|ops| - 1];
      Trace(After(t.state, op), t.log + Emits(t.state, op))
  }

  /** Running ops followed by one more operation is that operation applied to
      the outcome of ops. */
  lemma RunSnoc<T>(ops: seq<Op<T>>, op: Op<T>)
    ensures Run(ops + [op]) == Trace(After(Run(ops).state, op), Run(ops).log + Emits(Run(ops).state, op))
  {
  }

  /** Every operation (construct with a constructor that returns normally,
      the corrected throwing construct, destruct) keeps the lifetime
      discipline: from a log that replays to s, the events of op lead to the
      state op leaves behind. */
  lemma StepKeepsDiscipline<T>(log: seq<Event<T>>, s: State<T>, op: Op<T>)
    requires Replay(log) == Some(s)
    ensures Replay(log + Emits(s, op)) == Some(After(s, op))
  {
    match op {
      case Construct(x) =>
        match s {
          case Inactive =>
            assert (log + [Ctor(x)])[..|log|] == log;
          case Active(v) =>
            var mid := log + [Dtor(v)];
            assert mid[..|log|] == log;
            assert Replay(mid) == Some(Inactive);
            assert log + [Dtor(v), Ctor(x)] == mid + [Ctor(x)];
            assert (mid + [Ctor(x)])[..|mid|] == mid;
        }
      case ConstructThrows(_) =>
        match s {
          case Inactive =>
            assert log + [] == log;
          case Active(v) =>
            assert (log + [Dtor(v)])[..|log|] == log;
        }
      case Destruct =>
        match s {
          case Inactive =>
            assert log + [] == log;
          case Active(v) =>
            assert (log + [Dtor(v)])[..|log|] == log;
        }
    }
  }

  /** For every sequence of calls (constructors that return normally, or the
      corrected throwing construct), the holder's log obeys the lifetime
      discipline and replays to the holder's state. */
  lemma {:induction false} RunKeepsDiscipline<T>(ops: seq<Op<T>>)
    ensures Replay(Run(ops).log) == Some(Run(ops).state)
    decreases |ops|
  {
    if ops != [] {
      var prefix := ops[..|ops| - 1];
      RunKeepsDiscipline(prefix);
      StepKeepsDiscipline(Run(prefix).log, Run(prefix).state, ops[|ops| - 1]);
    }
  }

  /** At most one live object after any sequence of calls (constructors that
      return normally, or the corrected throwing construct): the constructors
      logged exceed the destructors by one when the holder is active and by
      zero when it is not, and never by more at any earlier point. */
  lemma LiveObjects<T>(ops: seq<Op<T>>)
    ensures Ctors(Run(ops).log) - Dtors(Run(ops).log) == if Run(ops).state.Active? then 1 else 0
    ensures forall k :: 0 <= k <= |Run(ops).log| ==>
      0 <= Ctors(Run(ops).log[..k]) - Dtors(Run(ops).log[..k]) <= 1
  {
    RunKeepsDiscipline(ops);
    LiveCount(Run(ops).log, Run(ops).state);
    AtMostOneLive(Run(ops).log);
  }

  /** construct(x) leaves the holder active holding x, and it destroys the
      old object, if any, before it builds the new one. */
  lemma ConstructReplaces<T>(ops: seq<Op<T>>, x: T)
    ensures Run(ops + [Construct(x)]).state == Active(x)
    ensures Run(ops).state.Active? ==>
      Run(ops + [Construct(x)]).log == Run(ops).log + [Dtor(Run(ops).state.value), Ctor(x)]
    ensures Run(ops).state.Inactive? ==>
      Run(ops + [Construct(x)]).log == Run(ops).log + [Ctor(x)]
  {
  }

  /** destruct() leaves the holder inactive; on an active holder it runs the
      live object's destructor once, on an inactive one it logs nothing. */
  lemma DestructEnds<T>(ops: seq<Op<T>>)
    ensures Run(ops + [Destruct]).state == Inactive
    ensures Run(ops).state.Active? ==>
      Run(ops + [Destruct]).log == Run(ops).log + [Dtor(Run(ops).state.value)]
    ensures Run(ops).state.Inactive? ==> Run(ops + [Destruct]).log == Run(ops).log
  {
  }

  /** The corrected construct whose constructor throws still destroys the old object,
      once, and leaves the holder inactive, so nothing is destroyed twice
      later on. */
  lemma ThrowingConstructLeavesInactive<T>(ops: seq<Op<T>>, x: T)
    ensures Run(ops + [ConstructThrows(x)]).state == Inactive
    ensures Run(ops + [ConstructThrows(x)]).log == Run(ops).log + DestructEvents(Run(ops).state)
    ensures Replay(Run(ops + [ConstructThrows(x), Destruct]).log) == Some(Inactive)
  {
    RunSnoc(ops, ConstructThrows(x));
    var failed := ops + [ConstructThrows(x)];
    assert ops + [ConstructThrows(x), Destruct] == failed + [Destruct];
    RunKeepsDiscipline(failed + [Destruct]);
    DestructEnds(failed);
  }

  /** Calling destruct() twice in a row has the same effect as calling it once. */
  lemma DestructTwice<T>(ops: seq<Op<T>>)
    ensures Run(ops + [Destruct, Destruct]) == Run(ops + [Destruct])
  {
    var once := ops + [Destruct];
    assert ops + [Destruct, Destruct] == once + [Destruct];
    DestructEnds(once);
    DestructEnds(ops);
  }

  /** Destroying the holder after any sequence of calls (constructors that
      return normally, or the corrected throwing construct; the holder's
      destructor calls destruct()) leaves every object it ever built destroyed exactly once,
      right after it was built and replaced by nothing else in between. */
  lemma DestroyedExactlyOnce<T>(ops: seq<Op<T>>)
    ensures Run(ops + [Destruct]).state == Inactive
    ensures Ctors(Run(ops + [Destruct]).log) == Dtors(Run(ops + [Destruct]).log)
    ensures var log := Run(ops + [Destruct]).log;
      forall i :: 0 <= i < |log| && log[i].Ctor? ==> i + 1 < |log| && log[i + 1] == Dtor(log[i].value)
  {
    var ops' := ops + [Destruct];
    DestructEnds(ops);
    RunKeepsDiscipline(ops');
    LiveCount(Run(ops').log, Inactive);
    ExactlyOnce(Run(ops').log);
  }

  /** A holder on which construct is never called never runs a constructor
      or a destructor of the held type. */
  lemma {:induction false} NeverConstructed<T>(ops: seq<Op<T>>)
    requires forall i :: 0 <= i < |ops| ==> ops[i].Destruct?
    ensures Run(ops) == Trace(Inactive, [])
    decreases |ops|
  {
    if ops != [] {
      NeverConstructed(ops[..|ops| - 1]);
    }
  }
}
