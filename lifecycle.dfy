/**
 The observable life of the object an OptionalScopedObject holds: the
 constructor and destructor calls of the held type, as an event log, and the
 discipline a correct holder keeps -- a constructor runs only when no object
 is live, and a destructor runs only on the object that is live.
 */
module Lifecycle {

  datatype Option<T> = None | Some(value: T)

  /** One side effect of the held type: its constructor or its destructor ran
      on the object with this value. */
  datatype Event<T> = Ctor(value: T) | Dtor(value: T)

  /** The two states of a holder: no object in the storage, or one live object. */
  datatype State<T> = Inactive | Active(value: T)

  /** Replays a log, starting from a holder that holds nothing, and yields the
      state the log leaves behind; None as soon as an event breaks the
      discipline (a constructor while an object is live, or a destructor of an
      object that is not the live one). */
  ghost function Replay<T>(log: seq<Event<T>>): Option<State<T>>
    decreases |log|
  {
    if log == [] then Some(Inactive)
    else
      var before := Replay(log[..|log| - 1]);
      match log[|log| - 1]
      case Ctor(x) => if before == Some(Inactive) then Some(Active(x)) else None
      case Dtor(x) => if before == Some(Active(x)) then Some(Inactive) else None
  }

  /** Number of constructor events in a log. */
  function Ctors<T>(log: seq<Event<T>>): nat
    decreases |log|
  {
    if log == [] then 0
    else Ctors(log[..|log| - 1]) + (if log[|log| - 1].Ctor? then 1 else 0)
  }

  /** Number of destructor events in a log. */
  function Dtors<T>(log: seq<Event<T>>): nat
    decreases |log|
  {
    if log == [] then 0
    else Dtors(log[..|log| - 1]) + (if log[|log| - 1].Dtor? then 1 else 0)
  }

  /** A description of a disciplined log that does not replay it: events
      alternate constructor, destructor, constructor, ..., starting with a
      constructor, and every destructor destroys the object the constructor
      just before it built. */
  ghost predicate Alternating<T>(log: seq<Event<T>>)
  {
    && (forall i :: 0 <= i < |log| ==> (log[i].Ctor? <==> i % 2 == 0))
    && (forall i :: 0 < i < |log| && log[i].Dtor? ==> log[i - 1] == Ctor(log[i].value))
  }

  /** The state an alternating log ends in: inactive after an even number of
      events, otherwise holding the object the last constructor built. */
  ghost function FinalState<T>(log: seq<Event<T>>): State<T>
  {
    if |log| % 2 == 0 then Inactive else Active(log[|log| - 1].value)
  }

  /** Extending a log by one event keeps it alternating exactly when the
      prefix alternates and the new event fits at its position. */
  lemma AlternatingSnoc<T>(p: seq<Event<T>>, e: Event<T>)
    ensures Alternating(p + [e]) <==>
      && Alternating(p)
      && (e.Ctor? <==> |p| % 2 == 0)
      && (0 < |p| && e.Dtor? ==> p[|p| - 1] == Ctor(e.value))
  {
    var log := p + [e];
    assert log[..|p|] == p;
    assert log[|p|] == e;
    if Alternating(p) && (e.Ctor? <==> |p| % 2 == 0) && (0 < |p| && e.Dtor? ==> p[|p| - 1] == Ctor(e.value)) {
      forall i | 0 <= i < |log| ensures (log[i].Ctor? <==> i % 2 == 0) {
        if i < |p| { assert log[i] == p[i]; }
      }
      forall i | 0 < i < |log| && log[i].Dtor? ensures log[i - 1] == Ctor(log[i].value) {
        if i < |p| { assert log[i] == p[i] && log[i - 1] == p[i - 1]; }
      }
    }
    if Alternating(log) {
      forall i | 0 <= i < |p| ensures (p[i].Ctor? <==> i % 2 == 0) {
        assert log[i] == p[i];
      }
      forall i | 0 < i < |p| && p[i].Dtor? ensures p[i - 1] == Ctor(p[i].value) {
        assert log[i] == p[i] && log[i - 1] == p[i - 1];
      }
    }
  }

  /** The replay discipline and the alternation description agree on every
      log, and an alternating log replays to its final state. */
  lemma {:induction false} ReplayIsAlternation<T>(log: seq<Event<T>>)
    ensures Replay(log).Some? <==> Alternating(log)
    ensures Alternating(log) ==> Replay(log) == Some(FinalState(log))
    decreases |log|
  {
    if log != [] {
      var p, e := log[..|log| - 1], log[|log| - 1];
      assert log == p + [e];
      ReplayIsAlternation(p);
      AlternatingSnoc(p, e);
      if |p| % 2 == 1 && Alternating(p) {
        assert p[|p| - 1].Ctor?;
      }
    }
  }

  /** Every prefix of a disciplined log is disciplined. */
  lemma {:induction false} ReplayPrefix<T>(log: seq<Event<T>>, k: nat)
    requires Replay(log).Some?
    requires k <= |log|
    ensures Replay(log[..k]).Some?
    decreases |log|
  {
    if k < |log| {
      var p := log[..|log| - 1];
      assert p[..k] == log[..k];
      assert Replay(p).Some? by {
        match log[|log| - 1]
        case Ctor(_) =>
        case Dtor(_) =>
      }
      ReplayPrefix(p, k);
    } else {
      assert log[..k] == log;
    }
  }

  /** In a disciplined log, constructors outnumber destructors by exactly one
      while an object is live and not at all otherwise. */
  lemma {:induction false} LiveCount<T>(log: seq<Event<T>>, s: State<T>)
    requires Replay(log) == Some(s)
    ensures Ctors(log) - Dtors(log) == if s.Active? then 1 else 0
    decreases |log|
  {
    if log != [] {
      var p := log[..|log| - 1];
      match Replay(p)
      case Some(t) => LiveCount(p, t);
    }
  }

  /** Never more than one live object: at every point of a disciplined log,
      the constructors seen so far exceed the destructors by zero or one. */
  lemma AtMostOneLive<T>(log: seq<Event<T>>)
    requires Replay(log).Some?
    ensures forall k :: 0 <= k <= |log| ==> 0 <= Ctors(log[..k]) - Dtors(log[..k]) <= 1
  {
    forall k | 0 <= k <= |log| ensures 0 <= Ctors(log[..k]) - Dtors(log[..k]) <= 1 {
      ReplayPrefix(log, k);
      LiveCount(log[..k], Replay(log[..k]).value);
    }
  }

  /** Once a disciplined log leaves the holder inactive, every object it
      constructed was destroyed exactly once: its destructor is the very next
      event, and no destructor ever runs on an object that is not live. */
  lemma ExactlyOnce<T>(log: seq<Event<T>>)
    requires Replay(log) == Some(Inactive)
    ensures forall i :: 0 <= i < |log| && log[i].Ctor? ==> i + 1 < |log| && log[i + 1] == Dtor(log[i].value)
    ensures forall i :: 0 <= i < |log| && log[i].Dtor? ==> 0 < i && log[i - 1] == Ctor(log[i].value)
  {
    ReplayIsAlternation(log);
    forall i | 0 <= i < |log| && log[i].Ctor? ensures i + 1 < |log| && log[i + 1] == Dtor(log[i].value) {
      assert i % 2 == 0;
      assert log[i + 1].Dtor?;
    }
  }
}
