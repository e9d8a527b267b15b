/** `EventBinding<T>`: the pair of delegates (typed and argument-less) one
    subscriber registers on an event bus.

    A delegate value is modelled by its invocation list: the handlers it calls,
    in order, with `[]` standing for null. `+=` is `Delegate.Combine` (list
    concatenation) and `-=` is `Delegate.Remove` (the last contiguous
    occurrence is cut out). */
module EventBindings {
  import opened Sequences

  /** A handler method, compared by delegate identity. `DoNothing` is the
      do-nothing default lambda a binding starts with. */
  datatype Handler = DoNothing | UserHandler(id: nat)

  class EventBinding {
    /** The typed delegate `OnEvent`. */
    var onEvent: seq<Handler>
    /** The argument-less delegate `OnEventNoArgs`. */
    var onEventNoArgs: seq<Handler>

    /** `EventBinding(Action<T>)`: the typed delegate is the given one, the
        argument-less one keeps its do-nothing default. */
    constructor WithHandler(handler: seq<Handler>)
      ensures onEvent == handler && onEventNoArgs == [DoNothing]
    {
      onEvent := handler;
      onEventNoArgs := [DoNothing];
    }

    /** `EventBinding(Action)`: the argument-less delegate is the given one, the
        typed one keeps its do-nothing default. */
    constructor WithNoArgsHandler(handler: seq<Handler>)
      ensures onEvent == [DoNothing] && onEventNoArgs == handler
    {
      onEvent := [DoNothing];
      onEventNoArgs := handler;
    }

    /** `Add(Action)`: appends to the argument-less delegate only. */
    method AddNoArgs(handler: seq<Handler>)
      modifies this
      ensures onEventNoArgs == old(onEventNoArgs) + handler
      ensures onEvent == old(onEvent)
    {
      onEventNoArgs := onEventNoArgs + handler;
    }

    /** `Remove(Action)`: removes from the argument-less delegate only. */
    method RemoveNoArgs(handler: seq<Handler>)
      modifies this
      ensures onEventNoArgs == RemoveRun(old(onEventNoArgs), handler)
      ensures onEvent == old(onEvent)
    {
      onEventNoArgs := RemoveRun(onEventNoArgs, handler);
    }

    /** `Add(Action<T>)`: appends to the typed delegate only. */
    method Add(handler: seq<Handler>)
      modifies this
      ensures onEvent == old(onEvent) + handler
      ensures onEventNoArgs == old(onEventNoArgs)
    {
      onEvent := onEvent + handler;
    }

    /** `Remove(Action<T>)`: removes from the typed delegate only. */
    method Remove(handler: seq<Handler>)
      modifies this
      ensures onEvent == RemoveRun(old(onEvent), handler)
      ensures onEventNoArgs == old(onEventNoArgs)
    {
      onEvent := RemoveRun(onEvent, handler);
    }

    /** The `IEventBinding<T>.OnEvent` setter replaces the whole delegate. */
    method SetOnEvent(handler: seq<Handler>)
      modifies this
      ensures onEvent == handler && onEventNoArgs == old(onEventNoArgs)
    {
      onEvent := handler;
    }

    /** The `IEventBinding<T>.OnEventNoArgs` setter replaces the whole delegate. */
    method SetOnEventNoArgs(handler: seq<Handler>)
      modifies this
      ensures onEventNoArgs == handler && onEvent == old(onEvent)
    {
      onEventNoArgs := handler;
    }

    /** `Add(h)` followed by `Remove(h)` restores the typed delegate and leaves
        the other alone. */
    method AddThenRemove(handler: seq<Handler>)
      modifies this
      ensures onEvent == old(onEvent) && onEventNoArgs == old(onEventNoArgs)
    {
      Add(handler);
      Remove(handler);
      RemoveRunAfterAppend(old(onEvent), handler);
    }

    /** The same for the argument-less delegate. */
    method AddThenRemoveNoArgs(handler: seq<Handler>)
      modifies this
      ensures onEvent == old(onEvent) && onEventNoArgs == old(onEventNoArgs)
    {
      AddNoArgs(handler);
      RemoveNoArgs(handler);
      RemoveRunAfterAppend(old(onEventNoArgs), handler);
    }
  }
}

/** `EventBus<T>`: the static registry of bindings of one event type, with set
    semantics, and `Raise`, which calls every binding registered when it starts
    and still registered when its turn comes.

    One `EventBus` object stands for the static state of one event type. */
module EventBuses {
  import opened EventBindings

  /** What a handler can do to the registry while it runs. */
  datatype BusChange = Registers(binding: EventBinding) | Deregisters(binding: EventBinding)

  /** What running one handler does: its registry changes, in order, and whether
      it then throws. */
  datatype HandlerEffect = HandlerEffect(changes: seq<BusChange>, throws: bool)

  /** Why `Raise` ended early: a handler threw, or a binding's delegate was null
      (`NullReferenceException`). Either exception escapes `Raise`. */
  datatype RaiseOutcome = Completed | HandlerThrew(handler: Handler) | NullDelegate(binding: EventBinding)

  function ApplyChange(reg: set<EventBinding>, c: BusChange): set<EventBinding>
  {
    match c
    case Registers(b) => reg + {b}
    case Deregisters(b) => reg - {b}
  }

  /** The registry after a sequence of changes, applied in order. */
  function ApplyChanges(reg: set<EventBinding>, cs: seq<BusChange>): set<EventBinding>
    decreases |cs|
  {
    if cs == [] then reg
    else ApplyChanges(ApplyChange(reg, cs[0]), cs[1..])
  }

  /** All registry changes made by the handlers that ran, in order. */
  function ChangesOf(ran: seq<Handler>, effect: Handler -> HandlerEffect): seq<BusChange>
  {
    if ran == [] then []
    else ChangesOf(ran[..|ran| - 1], effect) + effect(ran[|ran| - 1]).changes
  }

  lemma {:induction false} ApplyChangesAppend(reg: set<EventBinding>, a: seq<BusChange>, b: seq<BusChange>)
    ensures ApplyChanges(reg, a + b) == ApplyChanges(ApplyChanges(reg, a), b)
    decreases |a|
  {
    if a == [] {
      assert a + b == b;
    } else {
      assert (a + b)[1..] == a[1..] + b;
      ApplyChangesAppend(ApplyChange(reg, a[0]), a[1..], b);
    }
  }

  lemma ChangesOfAppend(ran: seq<Handler>, more: seq<Handler>, effect: Handler -> HandlerEffect)
    ensures ChangesOf(ran + more, effect) == ChangesOf(ran, effect) + ChangesOf(more, effect)
    decreases |more|
  {
    if more == [] {
      assert ran + more == ran;
    } else {
      var m := more[..|more| - 1];
      assert (ran + more)[..|ran + more| - 1] == ran + m;
      assert (ran + more)[|ran + more| - 1] == more[|more| - 1];
      ChangesOfAppend(ran, m, effect);
    }
  }

  lemma ChangesOfSnoc(ran: seq<Handler>, h: Handler, effect: Handler -> HandlerEffect)
    ensures ChangesOf(ran + [h], effect) == ChangesOf(ran, effect) + effect(h).changes
  {
    assert (ran + [h])[..|ran|] == ran;
  }

  /** A binding leaves the registry only through an explicit `Deregister` of it:
      if it was registered before and no change deregisters it, it still is. */
  lemma {:induction false} StaysRegistered(reg: set<EventBinding>, cs: seq<BusChange>, b: EventBinding)
    requires b in reg && Deregisters(b) !in cs
    ensures b in ApplyChanges(reg, cs)
    decreases |cs|
  {
    if cs != [] {
      assert cs == [cs[0]] + cs[1..];
      StaysRegistered(ApplyChange(reg, cs[0]), cs[1..], b);
    }
  }

  /** The handlers a completed `Raise` runs: for each invoked binding, in order,
      its typed delegate's handlers and then its argument-less delegate's. */
  ghost function HandlersOf(bs: seq<EventBinding>): seq<Handler>
    reads bs
  {
    if bs == [] then []
    else HandlersOf(bs[..|bs| - 1]) + bs[|bs| - 1].onEvent + bs[|bs| - 1].onEventNoArgs
  }

  lemma HandlersOfAppend(bs: seq<EventBinding>, b: EventBinding)
    ensures HandlersOf(bs + [b]) == HandlersOf(bs) + (b.onEvent + b.onEventNoArgs)
  {
    assert (bs + [b])[..|bs|] == bs;
  }

  lemma PrefixAppend<T>(s: seq<T>, run: seq<T>, d: seq<T>)
    requires run <= d
    ensures s + run <= s + d
  {
    assert (s + d)[..|s + run|] == s + run;
  }

  /** No binding occurs twice. */
  ghost predicate Distinct<T>(s: seq<T>)
  {
    forall p, q :: 0 <= p < q < |s| ==> s[p] != s[q]
  }

  lemma DistinctSnoc<T>(s: seq<T>, x: T)
    requires Distinct(s) && x !in s
    ensures Distinct(s + [x])
  {
    var t := s + [x];
    forall p, q | 0 <= p < q < |t|
      ensures t[p] != t[q]
    {
      assert t[p] == s[p];
      if q < |s| {
        assert t[q] == s[q];
      }
    }
  }

  /** A binding that is not registered stays out unless a change registers it. */
  lemma {:induction false} StaysOut(reg: set<EventBinding>, cs: seq<BusChange>, b: EventBinding)
    requires b !in reg && Registers(b) !in cs
    ensures b !in ApplyChanges(reg, cs)
    decreases |cs|
  {
    if cs != [] {
      assert cs == [cs[0]] + cs[1..];
      StaysOut(ApplyChange(reg, cs[0]), cs[1..], b);
    }
  }

  /** A binding deregistered by the change at k, and registered by no later
      change, is not in the registry after all the changes. */
  lemma {:induction false} DeregisteredStaysOut(reg: set<EventBinding>, cs: seq<BusChange>, k: nat, b: EventBinding)
    requires k < |cs| && cs[k] == Deregisters(b) && Registers(b) !in cs[k + 1..]
    ensures b !in ApplyChanges(reg, cs)
    decreases |cs|
  {
    assert cs == [cs[0]] + cs[1..];
    if k == 0 {
      StaysOut(ApplyChange(reg, cs[0]), cs[1..], b);
    } else {
      assert cs[1..][k..] == cs[k + 1..];
      DeregisteredStaysOut(ApplyChange(reg, cs[0]), cs[1..], k - 1, b);
    }
  }

  // ---------------------------------------------------------------------------
  // Exceptions: nothing in `Raise` catches them
  // ---------------------------------------------------------------------------

  /** Every handler of `hs` returns normally. */
  ghost predicate NoneThrow(hs: seq<Handler>, effect: Handler -> HandlerEffect)
  {
    forall k :: 0 <= k < |hs| ==> !effect(hs[k]).throws
  }

  /** The handlers of an invocation list that run when it is invoked: all of
      them up to and including the first that throws. */
  ghost function RunUntilThrow(d: seq<Handler>, effect: Handler -> HandlerEffect): seq<Handler>
  {
    if d == [] then []
    else if effect(d[0]).throws then [d[0]]
    else [d[0]] + RunUntilThrow(d[1..], effect)
  }

  /** The handlers that run are a prefix of the list in which only the last may
      throw; they are the whole list when none throws, and end with a throwing
      handler otherwise. */
  lemma RunUntilThrowSpec(d: seq<Handler>, effect: Handler -> HandlerEffect)
    ensures var r := RunUntilThrow(d, effect);
      && r <= d
      && (forall k :: 0 <= k < |r| - 1 ==> !effect(r[k]).throws)
      && (NoneThrow(d, effect) ==> r == d)
      && (!NoneThrow(d, effect) ==> r != [] && effect(r[|r| - 1]).throws)
  {
    RunUntilThrowPrefix(d, effect);
    if NoneThrow(d, effect) {
      RunUntilThrowAll(d, effect);
    } else {
      RunUntilThrowStops(d, effect);
    }
  }

  lemma {:induction false} RunUntilThrowPrefix(d: seq<Handler>, effect: Handler -> HandlerEffect)
    ensures var r := RunUntilThrow(d, effect);
      && r <= d
      && (forall k :: 0 <= k < |r| - 1 ==> !effect(r[k]).throws)
    decreases |d|
  {
    if d != [] && !effect(d[0]).throws {
      var rest := RunUntilThrow(d[1..], effect);
      RunUntilThrowPrefix(d[1..], effect);
      var r := [d[0]] + rest;
      assert d == [d[0]] + d[1..];
      forall k | 0 <= k < |r| - 1
        ensures !effect(r[k]).throws
      {
        if k > 0 {
          assert r[k] == rest[k - 1];
        }
      }
    }
  }

  lemma {:induction false} RunUntilThrowAll(d: seq<Handler>, effect: Handler -> HandlerEffect)
    requires NoneThrow(d, effect)
    ensures RunUntilThrow(d, effect) == d
    decreases |d|
  {
    if d != [] {
      assert !effect(d[0]).throws;
      forall k | 0 <= k < |d| - 1 ensures !effect(d[1..][k]).throws {
        assert d[1..][k] == d[k + 1];
      }
      RunUntilThrowAll(d[1..], effect);
      assert d == [d[0]] + d[1..];
    }
  }

  lemma {:induction false} RunUntilThrowStops(d: seq<Handler>, effect: Handler -> HandlerEffect)
    requires !NoneThrow(d, effect)
    ensures var r := RunUntilThrow(d, effect); r != [] && effect(r[|r| - 1]).throws
    decreases |d|
  {
    if !effect(d[0]).throws {
      var k :| 0 <= k < |d| && effect(d[k]).throws;
      assert d[1..][k - 1] == d[k];
      RunUntilThrowStops(d[1..], effect);
      var rest := RunUntilThrow(d[1..], effect);
      assert ([d[0]] + rest)[|rest|] == rest[|rest| - 1];
    }
  }

  /** When the handlers before index i return normally and the one at i
      throws, exactly the first i + 1 run. */
  lemma {:induction false} RunUntilThrowAt(d: seq<Handler>, i: nat, effect: Handler -> HandlerEffect)
    requires i < |d| && NoneThrow(d[..i], effect) && effect(d[i]).throws
    ensures RunUntilThrow(d, effect) == d[..i] + [d[i]]
    decreases i
  {
    if i > 0 {
      assert d[..i][0] == d[0];
      var tail := d[1..][..i - 1];
      forall k | 0 <= k < |tail|
        ensures !effect(tail[k]).throws
      {
        assert tail[k] == d[..i][k + 1];
      }
      RunUntilThrowAt(d[1..], i - 1, effect);
      assert d[..i] + [d[i]] == [d[0]] + (d[1..][..i - 1] + [d[1..][i - 1]]);
    }
  }

  /** What invoking a delegate runs: nothing for a null delegate, which throws
      `NullReferenceException` first, otherwise its handlers until one throws. */
  ghost function DelegateRun(d: seq<Handler>, effect: Handler -> HandlerEffect): seq<Handler>
  {
    if d == [] then [] else RunUntilThrow(d, effect)
  }

  /** Invoking the delegate returns normally: it is not null and none of its
      handlers throws. */
  ghost predicate DelegateCompletes(d: seq<Handler>, effect: Handler -> HandlerEffect)
  {
    d != [] && NoneThrow(d, effect)
  }

  /** What `Raise` runs for one binding: the typed delegate and then, only if
      that returned normally, the argument-less one. */
  ghost function BindingRun(b: EventBinding, effect: Handler -> HandlerEffect): seq<Handler>
    reads b
  {
    DelegateRun(b.onEvent, effect)
      + (if DelegateCompletes(b.onEvent, effect) then DelegateRun(b.onEventNoArgs, effect) else [])
  }

  ghost predicate BindingCompletes(b: EventBinding, effect: Handler -> HandlerEffect)
    reads b
  {
    DelegateCompletes(b.onEvent, effect) && DelegateCompletes(b.onEventNoArgs, effect)
  }

  /** Invoking the binding throws `NullReferenceException`: its typed delegate
      is null, or that one returned normally and the argument-less one is
      null. */
  ghost predicate NullDelegateOf(b: EventBinding, effect: Handler -> HandlerEffect)
    reads b
  {
    b.onEvent == [] || (DelegateCompletes(b.onEvent, effect) && b.onEventNoArgs == [])
  }

  /** A binding that completes runs both delegates in full. Otherwise what ran
      is a prefix of them: empty when the typed delegate is null, and ending in
      the handler that threw unless a delegate was null. Every handler that
      ran, but the last, returned normally. */
  lemma BindingRunSpec(b: EventBinding, effect: Handler -> HandlerEffect)
    ensures var r := BindingRun(b, effect);
      && r <= b.onEvent + b.onEventNoArgs
      && (BindingCompletes(b, effect) ==> r == b.onEvent + b.onEventNoArgs)
      && (b.onEvent == [] ==> r == [])
      && (forall k :: 0 <= k < |r| - 1 ==> !effect(r[k]).throws)
      && (!BindingCompletes(b, effect) ==>
            b.onEvent == [] || b.onEventNoArgs == [] || (r != [] && effect(r[|r| - 1]).throws))
  {
    var r1 := DelegateRun(b.onEvent, effect);
    RunUntilThrowSpec(b.onEvent, effect);
    RunUntilThrowSpec(b.onEventNoArgs, effect);
    if DelegateCompletes(b.onEvent, effect) {
      var r2 := DelegateRun(b.onEventNoArgs, effect);
      assert r1 == b.onEvent;
      PrefixAppend(r1, r2, b.onEventNoArgs);
      var r := r1 + r2;
      forall k | 0 <= k < |r| - 1
        ensures !effect(r[k]).throws
      {
        if k < |r1| {
          assert r[k] == b.onEvent[k];
        } else {
          assert r[k] == r2[k - |r1|];
        }
      }
    } else {
      assert r1 + [] == r1;
      assert (b.onEvent + b.onEventNoArgs)[..|b.onEvent|] == b.onEvent;
    }
  }

  /** The handlers a `Raise` that visited the bindings `bs` ran, in order. */
  ghost function RanOf(bs: seq<EventBinding>, effect: Handler -> HandlerEffect): seq<Handler>
    reads bs
  {
    if bs == [] then []
    else RanOf(bs[..|bs| - 1], effect) + BindingRun(bs[|bs| - 1], effect)
  }

  lemma RanOfSnoc(bs: seq<EventBinding>, b: EventBinding, effect: Handler -> HandlerEffect)
    ensures RanOf(bs + [b], effect) == RanOf(bs, effect) + BindingRun(b, effect)
  {
    assert (bs + [b])[..|bs|] == bs;
  }

  ghost predicate AllComplete(bs: seq<EventBinding>, effect: Handler -> HandlerEffect)
    reads bs
  {
    forall p :: 0 <= p < |bs| ==> BindingCompletes(bs[p], effect)
  }

  /** The part of `BindingRunSpec` that relates what ran to the delegates. */
  lemma BindingRunWithin(b: EventBinding, effect: Handler -> HandlerEffect)
    ensures BindingRun(b, effect) <= b.onEvent + b.onEventNoArgs
    ensures BindingCompletes(b, effect) ==> BindingRun(b, effect) == b.onEvent + b.onEventNoArgs
  {
    BindingRunSpec(b, effect);
  }

  lemma HandlersOfLast(bs: seq<EventBinding>)
    requires bs != []
    ensures HandlersOf(bs) == HandlersOf(bs[..|bs| - 1]) + (bs[|bs| - 1].onEvent + bs[|bs| - 1].onEventNoArgs)
  {
    var b := bs[|bs| - 1];
    assert HandlersOf(bs[..|bs| - 1]) + b.onEvent + b.onEventNoArgs
        == HandlersOf(bs[..|bs| - 1]) + (b.onEvent + b.onEventNoArgs);
  }

  /** When every visited binding completed, the handlers that ran are all the
      bindings' handlers, in order. */
  lemma {:induction false} RanOfAllComplete(bs: seq<EventBinding>, effect: Handler -> HandlerEffect)
    requires AllComplete(bs, effect)
    ensures RanOf(bs, effect) == HandlersOf(bs)
    decreases |bs|
  {
    if bs != [] {
      var init := bs[..|bs| - 1];
      var b := bs[|bs| - 1];
      forall p | 0 <= p < |init| ensures BindingCompletes(init[p], effect) {
        assert init[p] == bs[p];
      }
      RanOfAllComplete(init, effect);
      BindingRunWithin(b, effect);
      HandlersOfLast(bs);
    }
  }

  /** When every visited binding but possibly the last completed, the
      handlers that ran are a prefix of the bindings' handlers. */
  lemma RanOfWithinHandlers(bs: seq<EventBinding>, effect: Handler -> HandlerEffect)
    requires forall p :: 0 <= p < |bs| - 1 ==> BindingCompletes(bs[p], effect)
    ensures RanOf(bs, effect) <= HandlersOf(bs)
  {
    if bs != [] {
      var init := bs[..|bs| - 1];
      var b := bs[|bs| - 1];
      forall p | 0 <= p < |init| ensures BindingCompletes(init[p], effect) {
        assert init[p] == bs[p];
      }
      RanOfAllComplete(init, effect);
      BindingRunWithin(b, effect);
      HandlersOfLast(bs);
      PrefixAppend(HandlersOf(init), BindingRun(b, effect), b.onEvent + b.onEventNoArgs);
    }
  }

  /** The registry on the turn after the first p invoked bindings: the
      snapshot changed by the handlers they ran. */
  ghost function RegistryAt(snapshot: set<EventBinding>, invoked: seq<EventBinding>, p: nat,
                            effect: Handler -> HandlerEffect): set<EventBinding>
    requires p <= |invoked|
    reads invoked
  {
    ApplyChanges(snapshot, ChangesOf(RanOf(invoked[..p], effect), effect))
  }

  /** Every binding `Raise` invoked was still registered when its turn came:
      it is in the snapshot changed by the handlers that ran before it. */
  ghost predicate RegisteredOnTurn(snapshot: set<EventBinding>, invoked: seq<EventBinding>,
                                   effect: Handler -> HandlerEffect)
    reads invoked
  {
    forall p {:trigger RegistryAt(snapshot, invoked, p, effect)} :: 0 <= p < |invoked| ==>
      invoked[p] in RegistryAt(snapshot, invoked, p, effect)
  }

  lemma RegisteredOnTurnSnoc(snapshot: set<EventBinding>, invoked: seq<EventBinding>, b: EventBinding,
                             effect: Handler -> HandlerEffect)
    requires RegisteredOnTurn(snapshot, invoked, effect)
    requires b in ApplyChanges(snapshot, ChangesOf(RanOf(invoked, effect), effect))
    ensures RegisteredOnTurn(snapshot, invoked + [b], effect)
  {
    var t := invoked + [b];
    forall p | 0 <= p < |t|
      ensures t[p] in RegistryAt(snapshot, t, p, effect)
    {
      if p < |invoked| {
        assert t[..p] == invoked[..p];
        assert invoked[p] in RegistryAt(snapshot, invoked, p, effect);
      } else {
        assert t[..p] == invoked;
      }
    }
  }

  /** The re-check on each turn: a binding that a handler deregistered before
      the turn at index p, and that no later handler registered again, is not
      the binding invoked at p. */
  lemma DeregisteredIsSkipped(snapshot: set<EventBinding>, invoked: seq<EventBinding>, effect: Handler -> HandlerEffect,
                              p: nat, k: nat, b: EventBinding)
    requires RegisteredOnTurn(snapshot, invoked, effect) && p < |invoked|
    requires var cs := ChangesOf(RanOf(invoked[..p], effect), effect);
      k < |cs| && cs[k] == Deregisters(b) && Registers(b) !in cs[k + 1..]
    ensures invoked[p] != b
  {
    assert invoked[p] in RegistryAt(snapshot, invoked, p, effect);
    DeregisteredStaysOut(snapshot, ChangesOf(RanOf(invoked[..p], effect), effect), k, b);
  }

  /** Every binding `Raise` skipped was no longer registered when its turn
      came: `skipped` maps it to the number of bindings invoked before that
      turn, and it is not in the snapshot changed by their handlers. */
  ghost predicate SkippedOnTurn(snapshot: set<EventBinding>, invoked: seq<EventBinding>,
                                skipped: map<EventBinding, nat>, effect: Handler -> HandlerEffect)
    reads invoked
  {
    forall b :: b in skipped ==>
      skipped[b] <= |invoked|
      && b !in RegistryAt(snapshot, invoked, skipped[b], effect)
  }

  lemma SkippedOnTurnSnoc(snapshot: set<EventBinding>, invoked: seq<EventBinding>, skipped: map<EventBinding, nat>,
                          b: EventBinding, effect: Handler -> HandlerEffect)
    requires SkippedOnTurn(snapshot, invoked, skipped, effect)
    ensures SkippedOnTurn(snapshot, invoked + [b], skipped, effect)
  {
    forall x | x in skipped
      ensures (invoked + [b])[..skipped[x]] == invoked[..skipped[x]]
    {
    }
  }

  lemma SkippedOnTurnAdd(snapshot: set<EventBinding>, invoked: seq<EventBinding>, skipped: map<EventBinding, nat>,
                         b: EventBinding, effect: Handler -> HandlerEffect)
    requires SkippedOnTurn(snapshot, invoked, skipped, effect)
    requires b !in ApplyChanges(snapshot, ChangesOf(RanOf(invoked, effect), effect))
    ensures SkippedOnTurn(snapshot, invoked, skipped[b := |invoked|], effect)
  {
    assert invoked[..|invoked|] == invoked;
  }

  /** The registry changes made by one binding whose typed delegate is `h`,
      which deregisters and registers `b` again, and whose argument-less
      delegate is the do-nothing default. */
  lemma RegistersAgainChanges(a: EventBinding, b: EventBinding, h: Handler, effect: Handler -> HandlerEffect)
    requires a.onEvent == [h] && a.onEventNoArgs == [DoNothing]
    requires effect(h) == HandlerEffect([Deregisters(b), Registers(b)], false)
    requires effect(DoNothing) == HandlerEffect([], false)
    ensures ChangesOf(RanOf([a], effect), effect) == [Deregisters(b), Registers(b)]
  {
    SingleHandlerRun(h, effect);
    SingleHandlerRun(DoNothing, effect);
    assert RanOf([a], effect) == RanOf([], effect) + BindingRun(a, effect) by {
      assert [a][..0] == [];
    }
    assert ChangesOf([h], effect) == ChangesOf([], effect) + effect(h).changes by {
      assert [h][..0] == [];
    }
    assert ChangesOf([h, DoNothing], effect) == ChangesOf([h], effect) + effect(DoNothing).changes by {
      assert [h, DoNothing][..1] == [h];
    }
  }

  /** A one-handler delegate runs that handler. */
  lemma SingleHandlerRun(h: Handler, effect: Handler -> HandlerEffect)
    ensures RunUntilThrow([h], effect) == [h]
  {
    assert [h][1..] == [];
  }

  /** A handler that deregisters a binding and registers it again leaves it
      registered: with bindings `a` and `b`, where `a`'s handler does both to
      `b`, a record of `b` as skipped on the turn after `a`'s breaks
      `SkippedOnTurn`, although `b` was deregistered by a handler that ran. */
  lemma ReRegisteredIsNotSkipped(a: EventBinding, b: EventBinding, h: Handler, effect: Handler -> HandlerEffect)
    requires a != b && a.onEvent == [h] && a.onEventNoArgs == [DoNothing]
    requires effect(h) == HandlerEffect([Deregisters(b), Registers(b)], false)
    requires effect(DoNothing) == HandlerEffect([], false)
    ensures Deregisters(b) in ChangesOf(RanOf([a], effect), effect)
    ensures !SkippedOnTurn({a, b}, [a], map[b := 1], effect)
  {
    RegistersAgainChanges(a, b, h, effect);
    var ch := [Deregisters(b), Registers(b)];
    assert ApplyChanges({a, b}, ch) == {a, b} by {
      assert ch[1..][1..] == [];
      assert ApplyChange({a, b}, ch[0]) == {a};
      assert ApplyChanges({a}, ch[1..]) == ApplyChanges({a, b}, []);
    }
    var skipped := map[b := 1];
    assert [a][..skipped[b]] == [a];
    assert b in ApplyChanges({a, b}, ChangesOf(RanOf([a][..skipped[b]], effect), effect));
  }

  /** What holds after each turn of `Raise` over the snapshot, `registry`
      being the bus's registrations: every binding taken from `pending` was
      either invoked, once, having been registered on its turn, or skipped,
      having been unregistered on its turn (and then a handler deregistered
      it); and the registry is the snapshot changed by the handlers that
      ran. */
  ghost predicate RaiseInvariant(snapshot: set<EventBinding>, registry: set<EventBinding>, pending: set<EventBinding>,
                                 invoked: seq<EventBinding>, skipped: map<EventBinding, nat>, ran: seq<Handler>,
                                 effect: Handler -> HandlerEffect)
    reads invoked
  {
    && pending <= snapshot
    && Distinct(invoked)
    && (forall x :: x in invoked ==> x in snapshot && x !in pending)
    && ran == RanOf(invoked, effect)
    && RegisteredOnTurn(snapshot, invoked, effect)
    && SkippedOnTurn(snapshot, invoked, skipped, effect)
    && (forall b :: b in skipped ==> b in snapshot && b !in pending && b !in invoked)
    && registry == ApplyChanges(snapshot, ChangesOf(ran, effect))
    && (forall b :: b in snapshot && b !in pending ==> b in invoked || b in skipped)
    && (forall b :: b in snapshot && b !in pending ==> b in invoked || Deregisters(b) in ChangesOf(ran, effect))
  }

  /** How `Raise` ended after visiting the bindings `invoked`, which ran the
      handlers `ran`: every binding but the last completed; it completed
      exactly when all did; otherwise the escaping exception came from the
      last binding's null delegate, exactly when that binding reached one, or
      from the last handler that ran. */
  ghost predicate OutcomeFits(outcome: RaiseOutcome, invoked: seq<EventBinding>, ran: seq<Handler>,
                              effect: Handler -> HandlerEffect)
    reads invoked
  {
    && (forall p :: 0 <= p < |invoked| - 1 ==> BindingCompletes(invoked[p], effect))
    && (outcome.Completed? <==> AllComplete(invoked, effect))
    && (outcome.NullDelegate? ==> invoked != [] && outcome.binding == invoked[|invoked| - 1])
    && (outcome.NullDelegate? <==>
          invoked != [] && !AllComplete(invoked, effect) && NullDelegateOf(invoked[|invoked| - 1], effect))
    && (outcome.HandlerThrew? ==> ran != [] && outcome.handler == ran[|ran| - 1] && effect(outcome.handler).throws)
  }

  /** Before the first turn nothing was invoked and the registry is the
      snapshot. */
  lemma RaiseStarts(snapshot: set<EventBinding>, effect: Handler -> HandlerEffect)
    ensures RaiseInvariant(snapshot, snapshot, snapshot, [], map[], [], effect)
    ensures OutcomeFits(Completed, [], [], effect)
  {
    assert ChangesOf([], effect) == [];
  }

  /** A turn that finds its binding no longer registered keeps the invariant:
      a handler must have deregistered it. */
  lemma RaiseSkipKeeps(snapshot: set<EventBinding>, registry: set<EventBinding>, pending: set<EventBinding>,
                       invoked: seq<EventBinding>, skipped: map<EventBinding, nat>, ran: seq<Handler>,
                       effect: Handler -> HandlerEffect, b: EventBinding)
    requires RaiseInvariant(snapshot, registry, pending, invoked, skipped, ran, effect)
    requires b in pending && b !in registry
    ensures RaiseInvariant(snapshot, registry, pending - {b}, invoked, skipped[b := |invoked|], ran, effect)
  {
    var pending', skipped' := pending - {b}, skipped[b := |invoked|];
    SkippedOnTurnAdd(snapshot, invoked, skipped, b, effect);
    assert b !in invoked;
    forall x | x in skipped'
      ensures x in snapshot && x !in pending' && x !in invoked
    {
      if x != b {
        assert x in skipped;
      }
    }
    forall x | x in snapshot && x !in pending'
      ensures x in invoked || x in skipped'
    {
    }
    if Deregisters(b) !in ChangesOf(ran, effect) {
      StaysRegistered(snapshot, ChangesOf(ran, effect), b);
    }
  }

  /** A turn that invokes its still registered binding keeps the invariant. */
  lemma RaiseTurnKeeps(snapshot: set<EventBinding>, registry: set<EventBinding>, registry': set<EventBinding>,
                       pending: set<EventBinding>, invoked: seq<EventBinding>, skipped: map<EventBinding, nat>,
                       ran: seq<Handler>, run: seq<Handler>, effect: Handler -> HandlerEffect, b: EventBinding)
    requires RaiseInvariant(snapshot, registry, pending, invoked, skipped, ran, effect)
    requires b in pending && b in registry
    requires ran + run == RanOf(invoked + [b], effect)
    requires registry' == ApplyChanges(snapshot, ChangesOf(ran + run, effect))
    ensures RaiseInvariant(snapshot, registry', pending - {b}, invoked + [b], skipped, ran + run, effect)
  {
    RegisteredOnTurnSnoc(snapshot, invoked, b, effect);
    SkippedOnTurnSnoc(snapshot, invoked, skipped, b, effect);
    DistinctSnoc(invoked, b);
    ChangesOfAppend(ran, run, effect);
  }

  /** What a turn that invoked the still registered binding b leaves: the
      invariant one binding further on, and the outcome of the bindings
      invoked so far. */
  lemma RaiseTurnEnds(snapshot: set<EventBinding>, registry: set<EventBinding>, registry': set<EventBinding>,
                      pending: set<EventBinding>, invoked: seq<EventBinding>, skipped: map<EventBinding, nat>,
                      ran: seq<Handler>, run: seq<Handler>, outcome: RaiseOutcome, effect: Handler -> HandlerEffect,
                      b: EventBinding)
    requires RaiseInvariant(snapshot, registry, pending, invoked, skipped, ran, effect) && AllComplete(invoked, effect)
    requires b in pending && b in registry
    requires run == BindingRun(b, effect)
    requires registry' == ApplyChanges(registry, ChangesOf(run, effect))
    requires outcome.Completed? <==> BindingCompletes(b, effect)
    requires outcome.NullDelegate? ==> outcome.binding == b
    requires outcome.NullDelegate? <==> NullDelegateOf(b, effect)
    requires outcome.HandlerThrew? ==> run != [] && outcome.handler == run[|run| - 1] && effect(outcome.handler).throws
    ensures RaiseInvariant(snapshot, registry', pending - {b}, invoked + [b], skipped, ran + run, effect)
    ensures OutcomeFits(outcome, invoked + [b], ran + run, effect)
  {
    ChangesOfAppend(ran, run, effect);
    ApplyChangesAppend(snapshot, ChangesOf(ran, effect), ChangesOf(run, effect));
    RanOfSnoc(invoked, b, effect);
    RaiseTurnKeeps(snapshot, registry, registry', pending, invoked, skipped, ran, run, effect, b);
    AllCompleteSnoc(invoked, b, effect);
    if outcome.HandlerThrew? {
      assert (ran + run)[|ran + run| - 1] == run[|run| - 1];
    }
  }

  lemma AllCompleteSnoc(bs: seq<EventBinding>, b: EventBinding, effect: Handler -> HandlerEffect)
    requires AllComplete(bs, effect)
    ensures AllComplete(bs + [b], effect) <==> BindingCompletes(b, effect)
    ensures forall p :: 0 <= p < |bs + [b]| - 1 ==> BindingCompletes((bs + [b])[p], effect)
  {
    assert (bs + [b])[|bs|] == b;
  }

  /** What the invariant gives once `Raise` stops: after a complete pass,
      every binding of the snapshot was invoked, having been registered on its
      turn, or skipped, having been unregistered on its turn; and every
      handler of the invoked bindings ran. */
  lemma RaiseEnds(snapshot: set<EventBinding>, registry: set<EventBinding>, pending: set<EventBinding>,
                  invoked: seq<EventBinding>, skipped: map<EventBinding, nat>, ran: seq<Handler>,
                  effect: Handler -> HandlerEffect, completed: bool)
    requires RaiseInvariant(snapshot, registry, pending, invoked, skipped, ran, effect)
    requires forall p :: 0 <= p < |invoked| - 1 ==> BindingCompletes(invoked[p], effect)
    requires completed ==> pending == {} && AllComplete(invoked, effect)
    ensures Distinct(invoked)
    ensures forall p :: 0 <= p < |invoked| ==> invoked[p] in snapshot
    ensures RegisteredOnTurn(snapshot, invoked, effect)
    ensures SkippedOnTurn(snapshot, invoked, skipped, effect)
    ensures forall b :: b in skipped ==> b in snapshot && b !in invoked
    ensures registry == ApplyChanges(snapshot, ChangesOf(ran, effect))
    ensures ran == RanOf(invoked, effect)
    ensures ran <= HandlersOf(invoked)
    ensures completed ==> ran == HandlersOf(invoked)
    ensures completed ==> forall b :: b in snapshot ==> b in invoked || b in skipped
    ensures completed ==> forall b :: b in snapshot ==> b in invoked || Deregisters(b) in ChangesOf(ran, effect)
  {
    RanOfWithinHandlers(invoked, effect);
    if completed {
      RanOfAllComplete(invoked, effect);
    }
  }

  class EventBus {
    var bindings: set<EventBinding>

    constructor ()
      ensures bindings == {}
    {
      bindings := {};
    }

    /** `Register`: set semantics, registering a binding twice changes nothing. */
    method Register(b: EventBinding)
      modifies this
      ensures bindings == old(bindings) + {b}
      ensures b in old(bindings) ==> bindings == old(bindings)
    {
      bindings := bindings + {b};
    }

    /** `Deregister`: a binding that is not registered is ignored. */
    method Deregister(b: EventBinding)
      modifies this
      ensures bindings == old(bindings) - {b}
      ensures b !in old(bindings) ==> bindings == old(bindings)
    {
      bindings := bindings - {b};
    }

    /** `Clear`. */
    method Clear()
      modifies this
      ensures bindings == {}
    {
      bindings := {};
    }

    /** Invokes one delegate: its handlers run in order, each applying its
        registry changes, until one throws; a null delegate throws before any
        handler runs. Nothing is caught. */
    method InvokeDelegate(d: seq<Handler>, b: EventBinding, effect: Handler -> HandlerEffect)
      returns (outcome: RaiseOutcome, ran: seq<Handler>)
      modifies this
      ensures ran == DelegateRun(d, effect)
      ensures ran <= d && forall k :: 0 <= k < |ran| - 1 ==> !effect(ran[k]).throws
      ensures outcome.Completed? <==> DelegateCompletes(d, effect)
      ensures outcome.Completed? ==> ran == d
      ensures outcome.NullDelegate? <==> d == []
      ensures outcome.NullDelegate? ==> outcome.binding == b
      ensures outcome.HandlerThrew? ==> ran != [] && outcome.handler == ran[|ran| - 1] && effect(outcome.handler).throws
      ensures bindings == ApplyChanges(old(bindings), ChangesOf(ran, effect))
    {
      if d == [] {
        return NullDelegate(b), [];
      }
      ran := RunHandlers(d, effect);
      RunUntilThrowSpec(d, effect);
      if ran != [] && effect(ran[|ran| - 1]).throws {
        outcome := HandlerThrew(ran[|ran| - 1]);
      } else {
        outcome := Completed;
      }
    }

    /** The handlers of a non-null delegate, run in order until one throws. */
    method RunHandlers(d: seq<Handler>, effect: Handler -> HandlerEffect) returns (ran: seq<Handler>)
      modifies this
      ensures ran == RunUntilThrow(d, effect)
      ensures bindings == ApplyChanges(old(bindings), ChangesOf(ran, effect))
    {
      ran := [];
      var i := 0;
      while i < |d|
        invariant 0 <= i <= |d| && ran == d[..i] && NoneThrow(ran, effect)
        invariant bindings == ApplyChanges(old(bindings), ChangesOf(ran, effect))
      {
        var e := effect(d[i]);
        ChangesOfSnoc(ran, d[i], effect);
        ApplyChangesAppend(old(bindings), ChangesOf(ran, effect), e.changes);
        bindings := ApplyChanges(bindings, e.changes);
        if e.throws {
          RunUntilThrowAt(d, i, effect);
          ran := ran + [d[i]];
          return;
        }
        ran := ran + [d[i]];
        assert ran == d[..i + 1];
        i := i + 1;
      }
      assert ran == d;
      RunUntilThrowSpec(d, effect);
    }

    /** Invokes one binding as `Raise` does: the typed delegate, then the
        argument-less one; an exception from either escapes. */
    method InvokeBinding(b: EventBinding, effect: Handler -> HandlerEffect)
      returns (outcome: RaiseOutcome, ran: seq<Handler>)
      modifies this
      ensures ran == BindingRun(b, effect)
      ensures ran <= b.onEvent + b.onEventNoArgs && forall k :: 0 <= k < |ran| - 1 ==> !effect(ran[k]).throws
      ensures b.onEvent == [] ==> ran == []
      ensures !DelegateCompletes(b.onEvent, effect) ==> ran <= b.onEvent
      ensures outcome.Completed? <==> BindingCompletes(b, effect)
      ensures outcome.NullDelegate? <==> NullDelegateOf(b, effect)
      ensures outcome.HandlerThrew? <==> !BindingCompletes(b, effect) && !NullDelegateOf(b, effect)
      ensures outcome.NullDelegate? ==> outcome.binding == b
      ensures outcome.HandlerThrew? ==> ran != [] && outcome.handler == ran[|ran| - 1] && effect(outcome.handler).throws
      ensures bindings == ApplyChanges(old(bindings), ChangesOf(ran, effect))
    {
      var run1, run2: seq<Handler>;
      outcome, run1 := InvokeDelegate(b.onEvent, b, effect);
      ran := run1;
      if !outcome.Completed? {
        assert ran + [] == ran;
        BindingRunSpec(b, effect);
        return;
      }
      outcome, run2 := InvokeDelegate(b.onEventNoArgs, b, effect);
      ChangesOfAppend(run1, run2, effect);
      ApplyChangesAppend(old(bindings), ChangesOf(run1, effect), ChangesOf(run2, effect));
      ran := run1 + run2;
      if outcome.HandlerThrew? {
        assert ran[|ran| - 1] == run2[|run2| - 1];
      }
      BindingRunSpec(b, effect);
    }

    /** The turn of `Raise` for a binding b still registered: its delegates are
        invoked after the handlers `ran` of the bindings `invoked` before it,
        all of which completed. */
    method RaiseTurn(b: EventBinding, effect: Handler -> HandlerEffect, ghost snapshot: set<EventBinding>,
                     ghost pending: set<EventBinding>, ghost invoked: seq<EventBinding>,
                     ghost skipped: map<EventBinding, nat>, ghost ran: seq<Handler>)
      returns (outcome: RaiseOutcome, run: seq<Handler>)
      requires RaiseInvariant(snapshot, bindings, pending, invoked, skipped, ran, effect) && AllComplete(invoked, effect)
      requires b in pending && b in bindings
      modifies this
      ensures RaiseInvariant(snapshot, bindings, pending - {b}, invoked + [b], skipped, ran + run, effect)
      ensures OutcomeFits(outcome, invoked + [b], ran + run, effect)
    {
      ghost var registry := bindings;
      outcome, run := InvokeBinding(b, effect);
      RaiseTurnEnds(snapshot, registry, bindings, pending, invoked, skipped, ran, run, outcome, effect, b);
    }

    /** `Raise`: takes a snapshot of the registry, then visits its bindings in
        the hash set's (unspecified) order; a binding still registered on its
        turn has its typed delegate and then its argument-less delegate
        invoked, any other is skipped. `effect` tells what each handler does;
        the do-nothing default lambda does nothing. The registry changes only
        through the handlers' own changes. The first exception, from a throwing
        handler or a null delegate, ends `Raise`. `skipped` records, for each
        binding skipped, how many bindings had been invoked before its turn. */
    method Raise(effect: Handler -> HandlerEffect)
      returns (outcome: RaiseOutcome, invoked: seq<EventBinding>, ran: seq<Handler>,
               ghost skipped: map<EventBinding, nat>)
      requires effect(DoNothing) == HandlerEffect([], false)
      modifies this
      ensures Distinct(invoked)
      ensures forall p :: 0 <= p < |invoked| ==> invoked[p] in old(bindings)
      ensures RegisteredOnTurn(old(bindings), invoked, effect)
      ensures SkippedOnTurn(old(bindings), invoked, skipped, effect)
      ensures forall b :: b in skipped ==> b in old(bindings) && b !in invoked
      ensures bindings == ApplyChanges(old(bindings), ChangesOf(ran, effect))
      ensures ran == RanOf(invoked, effect)
      ensures forall p :: 0 <= p < |invoked| - 1 ==> BindingCompletes(invoked[p], effect)
      ensures outcome.Completed? <==> AllComplete(invoked, effect)
      ensures outcome.NullDelegate? ==> invoked != [] && outcome.binding == invoked[|invoked| - 1]
      ensures outcome.NullDelegate? <==>
        invoked != [] && !AllComplete(invoked, effect) && NullDelegateOf(invoked[|invoked| - 1], effect)
      ensures outcome.HandlerThrew? <==>
        invoked != [] && !AllComplete(invoked, effect) && !NullDelegateOf(invoked[|invoked| - 1], effect)
      ensures outcome.HandlerThrew? ==> ran != [] && outcome.handler == ran[|ran| - 1] && effect(outcome.handler).throws
      ensures ran <= HandlersOf(invoked)
      ensures outcome.Completed? ==> ran == HandlersOf(invoked)
      ensures outcome.Completed? ==> forall b :: b in old(bindings) ==> b in invoked || b in skipped
      ensures outcome.Completed? ==>
        forall b :: b in old(bindings) ==> b in invoked || Deregisters(b) in ChangesOf(ran, effect)
    {
      var snapshot := bindings;
      var pending;
      outcome, pending, invoked, ran, skipped := VisitSnapshot(effect, snapshot);
      RaiseEnds(snapshot, bindings, pending, invoked, skipped, ran, effect, outcome.Completed?);
    }

    /** The loop of `Raise` over the snapshot, turn by turn, until the
        snapshot is exhausted or an exception escapes. */
    method VisitSnapshot(effect: Handler -> HandlerEffect, snapshot: set<EventBinding>)
      returns (outcome: RaiseOutcome, pending: set<EventBinding>, invoked: seq<EventBinding>, ran: seq<Handler>,
               ghost skipped: map<EventBinding, nat>)
      requires bindings == snapshot
      modifies this
      ensures RaiseInvariant(snapshot, bindings, pending, invoked, skipped, ran, effect)
      ensures outcome.Completed? ==> pending == {}
      ensures OutcomeFits(outcome, invoked, ran, effect)
    {
      pending := snapshot;
      invoked, ran, skipped := [], [], map[];
      outcome := Completed;
      RaiseStarts(snapshot, effect);
      while pending != {} && outcome.Completed?
        invariant RaiseInvariant(snapshot, bindings, pending, invoked, skipped, ran, effect)
        invariant OutcomeFits(outcome, invoked, ran, effect)
        decreases pending
      {
        ghost var taken;
        outcome, pending, invoked, ran, skipped, taken := RaiseStep(effect, snapshot, pending, invoked, skipped, ran);
      }
    }

    /** One turn of `Raise`: takes the binding `taken` from `pending`; one no
        longer registered is skipped, one still registered is invoked. */
    method RaiseStep(effect: Handler -> HandlerEffect, ghost snapshot: set<EventBinding>, pending: set<EventBinding>,
                     invoked: seq<EventBinding>, ghost skipped: map<EventBinding, nat>, ran: seq<Handler>)
      returns (outcome: RaiseOutcome, pending': set<EventBinding>, invoked': seq<EventBinding>, ran': seq<Handler>,
               ghost skipped': map<EventBinding, nat>, ghost taken: EventBinding)
      requires pending != {}
      requires RaiseInvariant(snapshot, bindings, pending, invoked, skipped, ran, effect) && AllComplete(invoked, effect)
      modifies this
      ensures taken in pending && pending' == pending - {taken}
      ensures taken in old(bindings) ==> invoked' == invoked + [taken] && skipped' == skipped
      ensures taken !in old(bindings) ==>
        invoked' == invoked && ran' == ran && skipped' == skipped[taken := |invoked|] && bindings == old(bindings)
      ensures RaiseInvariant(snapshot, bindings, pending', invoked', skipped', ran', effect)
      ensures OutcomeFits(outcome, invoked', ran', effect)
    {
      var b :| b in pending;
      taken := b;
      pending' := pending - {b};
      if b !in bindings {
        RaiseSkipKeeps(snapshot, bindings, pending, invoked, skipped, ran, effect, b);
        return Completed, pending', invoked, ran, skipped[b := |invoked|], b;
      }
      var run: seq<Handler>;
      outcome, run := RaiseTurn(b, effect, snapshot, pending, invoked, skipped, ran);
      skipped' := skipped;
      invoked' := invoked + [b];
      ran' := ran + run;
    }
  }
}
