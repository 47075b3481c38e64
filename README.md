# OptionalScopedObject in Dafny

A model of `OptionalScopedObject<ScopedObject>`, a C++ class template that
reserves inline storage for at most one object of the held type. The caller
decides later whether and when to construct the object there, and the holder
destroys it exactly once. This happens either through `destruct()` or when the
holder itself is destroyed. The holder is a two-state machine {inactive,
active} over a flag `m_active` and a raw buffer `m_memory`.

The project has four files:

- `lifecycle.dfy` (module `Lifecycle`): the constructor and destructor calls
  of the held type, recorded as an event log (`Ctor(x)`, `Dtor(x)`). It also
  defines the lifetime discipline a correct holder keeps. `Replay` checks a
  log event by event. `Alternating` describes the same logs without replaying
  them. The lemmas prove that the two agree, that at most one object is ever
  live, and that every object built is destroyed exactly once.
- `operations.dfy` (module `Operations`): a reference semantics on values.
  For each operation it gives the state left behind (`After`) and the events
  caused (`Emits`). `Run` executes any sequence of calls on a freshly created
  holder. The lemmas state what holds for every sequence of calls.
  `Construct` and `Destruct` are the code as written, for a constructor of
  the held type that returns normally. `ConstructThrows` is the corrected
  construct for a constructor that throws, not the code as written (see
  Findings).
- `optional_scoped_object.dfy` (module `ScopedHolder`): the class itself. Its
  fields are `active` (`m_active`), `memory` (`m_memory`) and a ghost `log`.
  `memory` holds the object last built in the buffer. It keeps that object
  after its destructor ran, as the bytes do, and only the flag says whether
  the object is live. Its methods are proved against the `Operations`
  functions. Two client methods replay usage scenarios.
- `throwing_constructor.dfy` (module `ThrowingConstructor`): `construct` as
  written when the held type's constructor throws (see Findings).

The variadic constructor arguments are modelled by the value `x` that they
build. `construct(args...)` is `Construct(x)`. Two objects built from equal
arguments are equal values. The holder's destructor `~OptionalScopedObject`
becomes the method `Destroy`, because Dafny has no destructors. The four
access operators become one method, `Access`. Dafny does not distinguish
their const and non-const forms. When the held type is a class type, `Access`
returns the very reference the holder keeps, so the caller can change the
object through it, as with the non-const `->` and `*`.

## Model

| member | source | states |
|---|---|---|
| ScopedHolder.OptionalScopedObject.constructor | OptionalScopedObject.h:8-11 | a new holder is inactive and no constructor of the held type has run (empty log) |
| ScopedHolder.OptionalScopedObject.Construct | OptionalScopedObject.h:22-32 | afterwards the holder is active and holds x; the log gains `[Dtor(old), Ctor(x)]` on an active holder and `[Ctor(x)]` on an inactive one; the lifetime invariant is kept |
| ScopedHolder.OptionalScopedObject.Destruct | OptionalScopedObject.h:34-42 | afterwards the holder is inactive; an active holder logs its object's destructor once; an inactive holder logs nothing and keeps its state; the storage is not touched |
| ScopedHolder.OptionalScopedObject.Destroy | OptionalScopedObject.h:13-17 | the holder's destructor has the effect of destruct() (same log, inactive, storage untouched); afterwards constructors and destructors in the log are equal in number, and every constructed object's destructor follows its constructor immediately |
| ScopedHolder.OptionalScopedObject.IsActive | OptionalScopedObject.h:63-67 | operator bool is true exactly when an object lives in the storage, and changes nothing |
| ScopedHolder.OptionalScopedObject.Access | OptionalScopedObject.h:45-61 | on an active holder, `->` and `*` yield the live object and change nothing; their precondition is that the holder is active |
| ScopedHolder.OptionalScopedObject.LiveObjectCount | OptionalScopedObject.h:26-41 | in a valid holder, constructors minus destructors in the log is 1 when active and 0 when inactive |
| Lifecycle.ReplayIsAlternation | OptionalScopedObject.h:26-41 | a log keeps the lifetime discipline iff it alternates constructor and destructor, starting with a constructor, each destructor destroying the object built just before; such a log ends inactive after an even number of events, otherwise holding the last object built |
| Lifecycle.ReplayPrefix | OptionalScopedObject.h:26-41 | every prefix of a disciplined log is disciplined |
| Lifecycle.LiveCount | OptionalScopedObject.h:26-41 | in a disciplined log, constructors exceed destructors by 1 while an object is live and by 0 otherwise |
| Lifecycle.AtMostOneLive | OptionalScopedObject.h:26-41 | at every point of a disciplined log, at most one object is live |
| Lifecycle.ExactlyOnce | OptionalScopedObject.h:13-17 | when a disciplined log ends inactive, every constructed object is destroyed by the very next event, and every destructor runs on the object built just before it |
| Operations.StepKeepsDiscipline | OptionalScopedObject.h:22-42 | construct with a constructor that returns normally, the corrected throwing construct, and destruct each keep the lifetime discipline; they lead from a log that replays to s to one that replays to the new state |
| Operations.RunKeepsDiscipline | OptionalScopedObject.h:8-42 | for every sequence of calls on a new holder (constructors that return normally, or the corrected throwing construct), the log replays to the holder's state |
| Operations.LiveObjects | OptionalScopedObject.h:26-41 | after every sequence of calls (constructors that return normally, or the corrected throwing construct), constructors minus destructors is 1 when active and 0 when inactive, and never more than 1 at any earlier point |
| Operations.ConstructReplaces | OptionalScopedObject.h:26-31 | construct(x) leaves the holder active holding x; the old object, if any, is destroyed before x is built |
| Operations.DestructEnds | OptionalScopedObject.h:35-42 | destruct leaves the holder inactive; it logs the live object's destructor once, or nothing on an inactive holder |
| Operations.DestructTwice | OptionalScopedObject.h:35-42 | two destruct() calls in a row have the same effect as one |
| Operations.DestroyedExactlyOnce | OptionalScopedObject.h:13-17 | after any calls (constructors that return normally, or the corrected throwing construct) followed by the holder's destructor, the holder is inactive and every object it built was destroyed exactly once, right after it was built |
| Operations.NeverConstructed | OptionalScopedObject.h:8-17 | a holder on which construct is never called logs no constructor and no destructor |
| Operations.ThrowingConstructLeavesInactive | OptionalScopedObject.h:26-31 | corrected: a construct whose constructor throws destroys the old object once and leaves the holder inactive, so destroying the holder afterwards keeps the discipline |
| ThrowingConstructor.DestructFieldsIsDestruct | OptionalScopedObject.h:35-42 | destruct() as written on the raw fields gives the same new state and the same events as the reference destruct |
| ThrowingConstructor.AsWrittenDiffersFromCorrected | OptionalScopedObject.h:26-31 | a throwing construct as written logs what the corrected one logs, but on an active holder leaves the flag set over the dead object where the corrected one leaves the holder inactive |
| ThrowingConstructor.AsWrittenDestroysTwice | OptionalScopedObject.h:26-31 | as written: a holder holding a whose construct(b) throws stays active, and destroying it then runs a's destructor a second time, which breaks the discipline |

## Left out

- test.cpp is not part of this model. It is a demonstration that reads a boolean from standard input and prints to standard output. The client method `ScopedHolder.SideBySide` replays its use of three holders, with the input as a parameter.
- The raw buffer `char m_memory[sizeof(ScopedObject)]`, its size and alignment, `reinterpret_cast` and placement `new` are modelled as an `Option<T>` field. Reading the buffer as an object while inactive is undefined behaviour in C++; the model excludes it by a precondition.
- Variadic argument forwarding is modelled as one argument: the object the arguments build.
- Operations.ConstructThrows: is the corrected construct for a throwing constructor, not OptionalScopedObject.h:26-31 as written, which keeps `m_active` set over the destroyed object. The lemmas over `Operations.Run` hold of the code as written only for call sequences in which every constructor returns normally.
- ScopedHolder.OptionalScopedObject.Construct: models only a constructor of the held type that returns normally, because Dafny has no exceptions. The throwing path is modelled on values only, in `Operations.ConstructThrows` (corrected) and `ThrowingConstructor` (as written).
- The deleted copy constructor and copy assignment (OptionalScopedObject.h:19-20) are compile-time restrictions. The model provides no copy operation.
- ScopedHolder.OptionalScopedObject.Destroy: does not model that the holder is gone afterwards. A call after `Destroy` is allowed by the model and behaves like a call on an inactive holder.
- The order in which sibling holders leave scope is C++ stack unwinding, not logic of this class. It is not modelled.
- Concurrency is not modelled; the class provides no synchronisation.

## Findings

| source | as written | input that shows it | evidently intended | confidence | as-written member | corrected member |
|---|---|---|---|---|---|---|
| OptionalScopedObject.h:26-31 | on an active holder, line 28 destroys the old object but `m_active` stays true; if the held type's constructor throws at line 30, line 31 never runs, and the holder still claims the dead object | holder holding `a`; `construct(b)` whose constructor throws; the holder is then destroyed during unwinding, and its destructor runs `a`'s destructor a second time | a failed construct leaves the holder inactive (clear `m_active` after line 28) | high that the double destruction follows from the code; not executed | ThrowingConstructor.AsWrittenDestroysTwice | Operations.ThrowingConstructLeavesInactive |
