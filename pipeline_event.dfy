/** The priority levels of `EventPriority`: a larger value receives an event
    earlier. */
module EventPriority {
  const High: int := 100
  const Normal: int := 0
  const Low: int := -100
  /** Monitoring listeners (UI, sound, logging); by default an event is read-only
      from this level down. */
  const Monitor: int := -1000
}

/** `PipelineEvent`, the base of every event sent through an event pipeline: a
    two-flag state machine. An event can be consumed (no later listener gets it)
    and locked (read-only); locking is one-way until the event is reset for reuse
    from a pool. */
module PipelineEvents {
  import EventPriority

  datatype EventFlags = EventFlags(consumed: bool, locked: bool)

  /** The state of a newly constructed or reset event. */
  const Fresh := EventFlags(false, false)

  /** `Consume`: ignored (an error is logged) once the event is locked. */
  function ConsumeStep(f: EventFlags): EventFlags
  {
    if f.locked then f else f.(consumed := true)
  }

  /** `Lock`. */
  function LockStep(f: EventFlags): EventFlags
  {
    f.(locked := true)
  }

  /** What a listener callback may do to the event it receives, in order:
      consume it, lock it, reset it, call `CheckLock` (as a guarded property
      setter does, which throws when the event is locked), or throw any other
      exception. */
  datatype EventOp = Consume | Lock | Reset | CheckLock | Throw

  datatype Performed = Performed(flags: EventFlags, threw: bool)

  /** The effect of a callback that performs `ops` on an event with flags f: the
      operations run in order until one throws; what ran before stays done. */
  function Perform(f: EventFlags, ops: seq<EventOp>): Performed
    decreases |ops|
  {
    if ops == [] then Performed(f, false)
    else
      match ops[0]
      case Consume => Perform(ConsumeStep(f), ops[1..])
      case Lock => Perform(LockStep(f), ops[1..])
      case Reset => Perform(Fresh, ops[1..])
      case CheckLock => if f.locked then Performed(f, true) else Perform(f, ops[1..])
      case Throw => Performed(f, true)
  }

  /** `Consume` and `Lock` are idempotent, and `Consume` on a locked event
      changes neither flag. */
  lemma StepsIdempotent(f: EventFlags)
    ensures ConsumeStep(ConsumeStep(f)) == ConsumeStep(f)
    ensures LockStep(LockStep(f)) == LockStep(f)
    ensures f.locked ==> ConsumeStep(f) == f
    ensures !f.locked ==> ConsumeStep(f) == EventFlags(true, false)
  {
  }

  /** Only `Reset` clears the lock: a locked event stays locked through any
      callback that does not reset it, and its consumed flag is frozen. */
  lemma {:induction false} LockIsSticky(f: EventFlags, ops: seq<EventOp>)
    requires f.locked && Reset !in ops
    ensures Perform(f, ops).flags == f
    decreases |ops|
  {
    if ops != [] {
      assert Reset !in ops[1..] by {
        assert ops == [ops[0]] + ops[1..];
      }
      match ops[0]
      case Consume => LockIsSticky(ConsumeStep(f), ops[1..]);
      case Lock => LockIsSticky(LockStep(f), ops[1..]);
      case Reset => assert false;
      case CheckLock =>
      case Throw =>
    }
  }

  /** A callback that throws nothing and resets nothing never clears a flag. */
  lemma {:induction false} FlagsOnlyRise(f: EventFlags, ops: seq<EventOp>)
    requires Reset !in ops
    ensures f.consumed ==> Perform(f, ops).flags.consumed
    ensures f.locked ==> Perform(f, ops).flags.locked
    decreases |ops|
  {
    if ops != [] {
      assert Reset !in ops[1..] by {
        assert ops == [ops[0]] + ops[1..];
      }
      match ops[0]
      case Consume => FlagsOnlyRise(ConsumeStep(f), ops[1..]);
      case Lock => FlagsOnlyRise(LockStep(f), ops[1..]);
      case Reset => assert false;
      case CheckLock => if !f.locked { FlagsOnlyRise(f, ops[1..]); }
      case Throw =>
    }
  }

  class PipelineEvent {
    var isConsumed: bool
    var isLocked: bool
    /** `LockThreshold`: listeners at or below this priority see the event
        read-only. Subclasses may override it; the base class uses `Monitor`. */
    const lockThreshold: int

    function Flags(): EventFlags
      reads this
    {
      EventFlags(isConsumed, isLocked)
    }

    /** An event of a class that keeps the default lock threshold. */
    constructor ()
      ensures Flags() == Fresh && lockThreshold == EventPriority.Monitor
    {
      isConsumed, isLocked := false, false;
      lockThreshold := EventPriority.Monitor;
    }

    /** An event of a subclass that overrides `LockThreshold`. */
    constructor WithThreshold(threshold: int)
      ensures Flags() == Fresh && lockThreshold == threshold
    {
      isConsumed, isLocked := false, false;
      lockThreshold := threshold;
    }

    method Consume()
      modifies this
      ensures Flags() == ConsumeStep(old(Flags()))
      ensures isLocked == old(isLocked)
      ensures isConsumed <==> old(isConsumed) || !old(isLocked)
    {
      if isLocked {
        return;
      }
      isConsumed := true;
    }

    /** `CheckLock` throws `InvalidOperationException` exactly when the event is
        locked; `thrown` reports that exception. */
    method CheckLock() returns (thrown: bool)
      ensures thrown <==> Flags().locked
    {
      thrown := isLocked;
    }

    method Lock()
      modifies this
      ensures Flags() == LockStep(old(Flags()))
      ensures isLocked && isConsumed == old(isConsumed)
    {
      isLocked := true;
    }

    method Reset()
      modifies this
      ensures Flags() == Fresh
      ensures !isConsumed && !isLocked
    {
      isConsumed := false;
      isLocked := false;
    }
  }

  /** Runs a listener callback that performs `ops` on the event, through the
      event's own operations. `threw` reports an exception escaping the
      callback. */
  method RunCallback(ev: PipelineEvent, ops: seq<EventOp>) returns (threw: bool)
    modifies ev
    ensures Perform(old(ev.Flags()), ops) == Performed(ev.Flags(), threw)
  {
    var i := 0;
    threw := false;
    while i < |ops|
      invariant 0 <= i <= |ops|
      invariant Perform(old(ev.Flags()), ops) == Perform(ev.Flags(), ops[i..])
    {
      assert ops[i..] == [ops[i]] + ops[i + 1..];
      match ops[i] {
        case Consume => ev.Consume();
        case Lock => ev.Lock();
        case Reset => ev.Reset();
        case CheckLock =>
          threw := ev.CheckLock();
          if threw {
            return;
          }
        case Throw =>
          threw := true;
          return;
      }
      i := i + 1;
    }
  }
}
