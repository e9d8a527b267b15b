/** `EventPipeline<T>`: the static, priority-ordered listener list of one event
    type. Listeners are kept sorted ascending by priority (re-sorted lazily when a
    dirty flag is set) and an event is raised from the highest priority down:
    dispatch stops once the event is consumed, the event is locked on reaching
    the event's lock threshold, listeners whose Unity object was destroyed are
    pruned, and a throwing callback does not stop the walk.

    One `EventPipeline` object stands for the static state of one event type. */
module EventPipelines {
  import opened Wrappers
  import opened Sequences
  import opened PipelineEvents
  import EventPriority

  /** The two callback kinds (`Func<T, UniTask>` and `Action<T>`), compared by
      delegate identity. A listener subscribed with one kind is only found by
      the overloads of that kind. */
  datatype Callback = AsyncCallback(id: nat) | SyncCallback(id: nat)

  /** `callback.Target`: a Unity object (which can be destroyed) or anything else. */
  datatype Target = NoUnityObject | UnityObject(id: nat)

  datatype Listener = Listener(callback: Callback, priority: int, target: Target)

  function Callbacks(ls: seq<Listener>): (cs: seq<Callback>)
    ensures |cs| == |ls|
    ensures forall i :: 0 <= i < |ls| ==> cs[i] == ls[i].callback
  {
    seq(|ls|, i requires 0 <= i < |ls| => ls[i].callback)
  }

  ghost predicate SortedByPriority(ls: seq<Listener>)
  {
    forall i, j :: 0 <= i < j < |ls| ==> ls[i].priority <= ls[j].priority
  }

  // ---------------------------------------------------------------------------
  // Sorting (`List.Sort` by ascending priority; the order of ties is unspecified)
  // ---------------------------------------------------------------------------

  function InsertByPriority(l: Listener, ls: seq<Listener>): (r: seq<Listener>)
    ensures multiset(r) == multiset(ls) + multiset{l}
    ensures SortedByPriority(ls) ==> SortedByPriority(r)
    ensures r[0] == l || (ls != [] && r[0] == ls[0])
  {
    if ls == [] || l.priority <= ls[0].priority then
      assert SortedByPriority(ls) ==> SortedByPriority([l] + ls) by {
        if SortedByPriority(ls) { ConsSorted(l, ls); }
      }
      [l] + ls
    else
      var rest := InsertByPriority(l, ls[1..]);
      assert ls == [ls[0]] + ls[1..];
      assert SortedByPriority(ls) ==> SortedByPriority([ls[0]] + rest) by {
        if SortedByPriority(ls) { ConsSorted(ls[0], rest); }
      }
      [ls[0]] + rest
  }

  /** A listener placed in front of a sorted list whose first priority is not
      lower keeps it sorted. */
  lemma ConsSorted(x: Listener, s: seq<Listener>)
    requires SortedByPriority(s) && (s == [] || x.priority <= s[0].priority)
    ensures SortedByPriority([x] + s)
  {
    var r := [x] + s;
    forall i, j | 0 <= i < j < |r|
      ensures r[i].priority <= r[j].priority
    {
      if i > 0 {
        assert r[i] == s[i - 1] && r[j] == s[j - 1];
      } else {
        assert r[j] == s[j - 1];
      }
    }
  }

  /** A sort by ascending priority; `Raise` relies only on its result being a
      sorted permutation. */
  function SortByPriority(ls: seq<Listener>): (r: seq<Listener>)
    ensures multiset(r) == multiset(ls)
    ensures SortedByPriority(r)
  {
    if ls == [] then []
    else
      assert ls == [ls[0]] + ls[1..];
      InsertByPriority(ls[0], SortByPriority(ls[1..]))
  }

  /** Removing one listener keeps the list sorted. */
  lemma RemoveAtKeepsSorted(ls: seq<Listener>, k: nat)
    requires k < |ls| && SortedByPriority(ls)
    ensures SortedByPriority(RemoveAt(ls, k))
  {
    var r := RemoveAt(ls, k);
    forall i, j | 0 <= i < j < |r|
      ensures r[i].priority <= r[j].priority
    {
      var i' := if i < k then i else i + 1;
      var j' := if j < k then j else j + 1;
      assert r[i] == ls[i'] && r[j] == ls[j'];
    }
  }

  // ---------------------------------------------------------------------------
  // Unsubscribe
  // ---------------------------------------------------------------------------

  /** The listener list after `Unsubscribe(cb)`: the highest-indexed listener
      with that callback is removed, if there is one. */
  function RemoveListener(ls: seq<Listener>, cb: Callback): seq<Listener>
  {
    var k := LastIndexOf(Callbacks(ls), cb);
    if k < 0 then ls else RemoveAt(ls, k)
  }

  /** `Unsubscribe` removes at most one listener, the last one with the callback,
      keeps all others in order, and is a no-op for an absent callback. */
  lemma RemoveListenerSpec(ls: seq<Listener>, cb: Callback)
    ensures cb !in Callbacks(ls) ==> RemoveListener(ls, cb) == ls
    ensures cb in Callbacks(ls) ==>
      exists k :: 0 <= k < |ls| && ls[k].callback == cb
        && (forall j :: k < j < |ls| ==> ls[j].callback != cb)
        && RemoveListener(ls, cb) == RemoveAt(ls, k)
        && multiset(RemoveListener(ls, cb)) == multiset(ls) - multiset{ls[k]}
  {
    var cs := Callbacks(ls);
    var k := LastIndexOf(cs, cb);
    if 0 <= k {
      RemoveAtMultiset(ls, k);
      assert ls[k].callback == cs[k];
      forall j | k < j < |ls|
        ensures ls[j].callback != cb
      {
        assert ls[j].callback == cs[j];
      }
    }
  }

  /** `Unsubscribe` keeps a sorted list sorted. */
  lemma RemoveListenerKeepsSorted(ls: seq<Listener>, cb: Callback)
    requires SortedByPriority(ls)
    ensures SortedByPriority(RemoveListener(ls, cb))
  {
    var k := LastIndexOf(Callbacks(ls), cb);
    if 0 <= k {
      RemoveAtKeepsSorted(ls, k);
    }
  }

  /** Subscribing a new callback and unsubscribing it restores the list. */
  lemma SubscribeThenUnsubscribe(ls: seq<Listener>, l: Listener)
    requires l.callback !in Callbacks(ls)
    ensures RemoveListener(ls + [l], l.callback) == ls
  {
    var cs := Callbacks(ls + [l]);
    assert cs[|ls|] == l.callback;
    assert LastIndexOf(cs, l.callback) == |ls|;
    assert RemoveAt(ls + [l], |ls|) == ls;
  }

  // ---------------------------------------------------------------------------
  // Raise, as a specification
  // ---------------------------------------------------------------------------

  /** The liveness check of `Raise`: the callback's target is a Unity object
      that has been destroyed. */
  predicate IsDestroyed(l: Listener, destroyed: set<nat>)
  {
    l.target.UnityObject? && l.target.id in destroyed
  }

  /** The listeners of ls whose target is not destroyed, in order. */
  function Alive(ls: seq<Listener>, destroyed: set<nat>): seq<Listener>
  {
    if ls == [] then []
    else
      var last := ls[|ls| - 1];
      Alive(ls[..|ls| - 1], destroyed) + (if IsDestroyed(last, destroyed) then [] else [last])
  }

  /** The same listeners, from the last to the first: the order `Raise` invokes
      them in. */
  function AliveDescending(ls: seq<Listener>, destroyed: set<nat>): seq<Listener>
  {
    if ls == [] then []
    else
      var last := ls[|ls| - 1];
      (if IsDestroyed(last, destroyed) then [] else [last]) + AliveDescending(ls[..|ls| - 1], destroyed)
  }

  /** One invoked listener, the event's flags as the callback saw them, and
      whether the callback threw (the exception is logged and swallowed). */
  datatype Visit = Visit(listener: Listener, seen: EventFlags, threw: bool)

  function ListenersOf(vs: seq<Visit>): seq<Listener>
  {
    seq(|vs|, j requires 0 <= j < |vs| => vs[j].listener)
  }

  /** The dispatch loop of `Raise` over the first n listeners of ls, walking
      from index n - 1 down: the resulting list, the event's final flags, the
      invoked listeners in order, and how many listeners were never reached
      because the event was consumed. */
  datatype Dispatched = Dispatched(listeners: seq<Listener>, flags: EventFlags, visits: seq<Visit>, unvisited: nat)

  function Dispatch(ls: seq<Listener>, n: nat, f: EventFlags, threshold: int, destroyed: set<nat>,
                    react: (Listener, EventFlags) -> seq<EventOp>): Dispatched
    requires n <= |ls|
    decreases n
  {
    if n == 0 || f.consumed then Dispatched(ls, f, [], n)
    else
      var l := ls[n - 1];
      if IsDestroyed(l, destroyed) then
        Dispatch(RemoveAt(ls, n - 1), n - 1, f, threshold, destroyed, react)
      else
        var seen := if !f.locked && l.priority <= threshold then LockStep(f) else f;
        var p := Perform(seen, react(l, seen));
        var rest := Dispatch(ls, n - 1, p.flags, threshold, destroyed, react);
        rest.(visits := [Visit(l, seen, p.threw)] + rest.visits)
  }

  /** The shape of a dispatch result r over the first n listeners of ls: the
      walk stopped at r.unvisited only because the event was consumed; above
      that point every destroyed listener was pruned and every live one
      invoked, from the highest index down; below it nothing changed. */
  ghost predicate ShapeOf(ls: seq<Listener>, n: nat, r: Dispatched, destroyed: set<nat>)
    requires n <= |ls|
  {
    && r.unvisited <= n
    && r.listeners == ls[..r.unvisited] + Alive(ls[r.unvisited..n], destroyed) + ls[n..]
    && ListenersOf(r.visits) == AliveDescending(ls[r.unvisited..n], destroyed)
    && (0 < r.unvisited ==> r.flags.consumed)
  }

  lemma ShapeAfterPruning(ls: seq<Listener>, n: nat, r: Dispatched, destroyed: set<nat>)
    requires 0 < n <= |ls| && IsDestroyed(ls[n - 1], destroyed)
    requires ShapeOf(RemoveAt(ls, n - 1), n - 1, r, destroyed)
    ensures ShapeOf(ls, n, r, destroyed)
  {
    var i := n - 1;
    var ls' := RemoveAt(ls, i);
    var k := r.unvisited;
    assert ls'[..k] == ls[..k];
    assert ls'[k..i] == ls[k..i];
    assert ls'[i..] == ls[n..];
    assert ls[k..n][..i - k] == ls[k..i];
    assert Alive(ls[k..n], destroyed) == Alive(ls[k..i], destroyed);
    assert AliveDescending(ls[k..n], destroyed) == AliveDescending(ls[k..i], destroyed);
  }

  lemma AliveExtends(ls: seq<Listener>, k: nat, n: nat, destroyed: set<nat>)
    requires k < n <= |ls| && !IsDestroyed(ls[n - 1], destroyed)
    ensures Alive(ls[k..n], destroyed) == Alive(ls[k..n - 1], destroyed) + [ls[n - 1]]
    ensures AliveDescending(ls[k..n], destroyed) == [ls[n - 1]] + AliveDescending(ls[k..n - 1], destroyed)
  {
    assert ls[k..n][..n - 1 - k] == ls[k..n - 1];
  }

  lemma ShapeAfterInvoking(ls: seq<Listener>, n: nat, rest: Dispatched, v: Visit, destroyed: set<nat>)
    requires 0 < n <= |ls| && !IsDestroyed(ls[n - 1], destroyed) && v.listener == ls[n - 1]
    requires ShapeOf(ls, n - 1, rest, destroyed)
    ensures ShapeOf(ls, n, rest.(visits := [v] + rest.visits), destroyed)
  {
    var k := rest.unvisited;
    var a := Alive(ls[k..n - 1], destroyed);
    AliveExtends(ls, k, n, destroyed);
    assert ListenersOf([v] + rest.visits) == [v.listener] + ListenersOf(rest.visits);
    assert ls[n - 1..] == [ls[n - 1]] + ls[n..];
    assert ls[..k] + a + ls[n - 1..] == ls[..k] + (a + [ls[n - 1]]) + ls[n..];
  }

  /** What a dispatch does to the list and whom it invokes (see `ShapeOf`):
      in particular a destroyed listener is never invoked, and a throwing
      callback does not end the walk. */
  lemma {:induction false} DispatchShape(ls: seq<Listener>, n: nat, f: EventFlags, threshold: int,
                                         destroyed: set<nat>, react: (Listener, EventFlags) -> seq<EventOp>)
    requires n <= |ls|
    ensures ShapeOf(ls, n, Dispatch(ls, n, f, threshold, destroyed, react), destroyed)
    decreases n
  {
    if n == 0 || f.consumed {
      assert ls[n..n] == [];
      assert ls == ls[..n] + ls[n..];
    } else {
      var l := ls[n - 1];
      if IsDestroyed(l, destroyed) {
        DispatchShape(RemoveAt(ls, n - 1), n - 1, f, threshold, destroyed, react);
        ShapeAfterPruning(ls, n, Dispatch(RemoveAt(ls, n - 1), n - 1, f, threshold, destroyed, react), destroyed);
      } else {
        var seen := if !f.locked && l.priority <= threshold then LockStep(f) else f;
        var p := Perform(seen, react(l, seen));
        DispatchShape(ls, n - 1, p.flags, threshold, destroyed, react);
        ShapeAfterInvoking(ls, n, Dispatch(ls, n - 1, p.flags, threshold, destroyed, react),
                           Visit(l, seen, p.threw), destroyed);
      }
    }
  }

  /** Every invoked callback saw an unconsumed event and a live target, and
      every callback whose listener's priority is at or below the threshold saw
      the event locked. */
  ghost predicate VisitRules(vs: seq<Visit>, threshold: int, destroyed: set<nat>)
  {
    forall j :: 0 <= j < |vs| ==>
      && !vs[j].seen.consumed
      && !IsDestroyed(vs[j].listener, destroyed)
      && (vs[j].listener.priority <= threshold ==> vs[j].seen.locked)
  }

  lemma VisitRulesCons(v: Visit, vs: seq<Visit>, threshold: int, destroyed: set<nat>)
    requires VisitRules(vs, threshold, destroyed)
    requires !v.seen.consumed && !IsDestroyed(v.listener, destroyed)
    requires v.listener.priority <= threshold ==> v.seen.locked
    ensures VisitRules([v] + vs, threshold, destroyed)
  {
    forall j | 0 <= j < |vs| ensures ([v] + vs)[j + 1] == vs[j] { }
  }

  lemma {:induction false} DispatchVisitRules(ls: seq<Listener>, n: nat, f: EventFlags, threshold: int,
                                              destroyed: set<nat>, react: (Listener, EventFlags) -> seq<EventOp>)
    requires n <= |ls|
    ensures VisitRules(Dispatch(ls, n, f, threshold, destroyed, react).visits, threshold, destroyed)
    decreases n
  {
    if n == 0 || f.consumed {
    } else if IsDestroyed(ls[n - 1], destroyed) {
      DispatchPruneStep(ls, n - 1, f, threshold, destroyed, react);
      DispatchVisitRules(RemoveAt(ls, n - 1), n - 1, f, threshold, destroyed, react);
    } else {
      var l := ls[n - 1];
      var seen := if !f.locked && l.priority <= threshold then LockStep(f) else f;
      var p := Perform(seen, react(l, seen));
      DispatchInvokeStep(ls, n - 1, f, threshold, destroyed, react);
      DispatchVisitRules(ls, n - 1, p.flags, threshold, destroyed, react);
      var rest := Dispatch(ls, n - 1, p.flags, threshold, destroyed, react);
      VisitRulesCons(Visit(l, seen, p.threw), rest.visits, threshold, destroyed);
    }
  }

  ghost predicate VisitsWithin(vs: seq<Visit>, ls: seq<Listener>)
  {
    forall j :: 0 <= j < |vs| ==> vs[j].listener in ls
  }

  lemma VisitsWithinCons(v: Visit, vs: seq<Visit>, ls: seq<Listener>, n: nat)
    requires 0 < n <= |ls| && v.listener == ls[n - 1]
    requires VisitsWithin(vs, ls[..n - 1])
    ensures VisitsWithin([v] + vs, ls[..n])
  {
    assert ls[..n] == ls[..n - 1] + [ls[n - 1]];
    forall j | 0 <= j < |vs| ensures ([v] + vs)[j + 1] == vs[j] { }
  }

  /** Every listener a dispatch over the first n entries invokes is one of them. */
  lemma {:induction false} DispatchVisitsPrefix(ls: seq<Listener>, n: nat, f: EventFlags, threshold: int,
                                                destroyed: set<nat>, react: (Listener, EventFlags) -> seq<EventOp>)
    requires n <= |ls|
    ensures VisitsWithin(Dispatch(ls, n, f, threshold, destroyed, react).visits, ls[..n])
    decreases n
  {
    if n == 0 || f.consumed {
    } else if IsDestroyed(ls[n - 1], destroyed) {
      var ls' := RemoveAt(ls, n - 1);
      DispatchPruneStep(ls, n - 1, f, threshold, destroyed, react);
      DispatchVisitsPrefix(ls', n - 1, f, threshold, destroyed, react);
      assert ls'[..n - 1] == ls[..n - 1];
      assert ls[..n] == ls[..n - 1] + [ls[n - 1]];
    } else {
      var l := ls[n - 1];
      var seen := if !f.locked && l.priority <= threshold then LockStep(f) else f;
      var p := Perform(seen, react(l, seen));
      DispatchInvokeStep(ls, n - 1, f, threshold, destroyed, react);
      DispatchVisitsPrefix(ls, n - 1, p.flags, threshold, destroyed, react);
      var rest := Dispatch(ls, n - 1, p.flags, threshold, destroyed, react);
      VisitsWithinCons(Visit(l, seen, p.threw), rest.visits, ls, n);
    }
  }

  /** The invoked listeners come in non-increasing priority. */
  ghost predicate NonIncreasing(vs: seq<Visit>)
  {
    forall a, b :: 0 <= a < b < |vs| ==> vs[a].listener.priority >= vs[b].listener.priority
  }

  lemma NonIncreasingCons(v: Visit, vs: seq<Visit>)
    requires NonIncreasing(vs)
    requires forall j :: 0 <= j < |vs| ==> vs[j].listener.priority <= v.listener.priority
    ensures NonIncreasing([v] + vs)
  {
    var w := [v] + vs;
    forall a, b | 0 <= a < b < |w|
      ensures w[a].listener.priority >= w[b].listener.priority
    {
      assert w[b] == vs[b - 1];
      if 0 < a {
        assert w[a] == vs[a - 1];
      }
    }
  }

  /** In a sorted list, listeners taken from before index n - 1 have no higher
      priority than the listener at n - 1. */
  lemma VisitsBelow(vs: seq<Visit>, ls: seq<Listener>, n: nat)
    requires 0 < n <= |ls| && SortedByPriority(ls) && VisitsWithin(vs, ls[..n - 1])
    ensures forall j :: 0 <= j < |vs| ==> vs[j].listener.priority <= ls[n - 1].priority
  {
    forall j | 0 <= j < |vs|
      ensures vs[j].listener.priority <= ls[n - 1].priority
    {
      var m :| 0 <= m < n - 1 && ls[..n - 1][m] == vs[j].listener;
      assert ls[m] == vs[j].listener;
    }
  }

  /** Pruning keeps a sorted list sorted. */
  lemma {:induction false} DispatchKeepsSorted(ls: seq<Listener>, n: nat, f: EventFlags, threshold: int,
                                               destroyed: set<nat>, react: (Listener, EventFlags) -> seq<EventOp>)
    requires n <= |ls| && SortedByPriority(ls)
    ensures SortedByPriority(Dispatch(ls, n, f, threshold, destroyed, react).listeners)
    decreases n
  {
    if n == 0 || f.consumed {
    } else if IsDestroyed(ls[n - 1], destroyed) {
      DispatchPruneStep(ls, n - 1, f, threshold, destroyed, react);
      RemoveAtKeepsSorted(ls, n - 1);
      DispatchKeepsSorted(RemoveAt(ls, n - 1), n - 1, f, threshold, destroyed, react);
    } else {
      var l := ls[n - 1];
      var seen := if !f.locked && l.priority <= threshold then LockStep(f) else f;
      var p := Perform(seen, react(l, seen));
      DispatchInvokeStep(ls, n - 1, f, threshold, destroyed, react);
      DispatchKeepsSorted(ls, n - 1, p.flags, threshold, destroyed, react);
    }
  }

  /** On a sorted list, listeners are invoked in non-increasing priority
      order. */
  lemma {:induction false} DispatchOnSorted(ls: seq<Listener>, n: nat, f: EventFlags, threshold: int,
                                            destroyed: set<nat>, react: (Listener, EventFlags) -> seq<EventOp>)
    requires n <= |ls| && SortedByPriority(ls)
    ensures NonIncreasing(Dispatch(ls, n, f, threshold, destroyed, react).visits)
    decreases n
  {
    if n == 0 || f.consumed {
    } else if IsDestroyed(ls[n - 1], destroyed) {
      DispatchPruneStep(ls, n - 1, f, threshold, destroyed, react);
      RemoveAtKeepsSorted(ls, n - 1);
      DispatchOnSorted(RemoveAt(ls, n - 1), n - 1, f, threshold, destroyed, react);
    } else {
      var l := ls[n - 1];
      var seen := if !f.locked && l.priority <= threshold then LockStep(f) else f;
      var p := Perform(seen, react(l, seen));
      DispatchOnSorted(ls, n - 1, p.flags, threshold, destroyed, react);
      OnSortedInvokeStep(ls, n, f, threshold, destroyed, react);
    }
  }

  /** The step of `DispatchOnSorted` for a live listener at n - 1: the
      listener's visit comes before those of the earlier, lower listeners. */
  lemma OnSortedInvokeStep(ls: seq<Listener>, n: nat, f: EventFlags, threshold: int,
                           destroyed: set<nat>, react: (Listener, EventFlags) -> seq<EventOp>)
    requires 0 < n <= |ls| && SortedByPriority(ls) && !f.consumed && !IsDestroyed(ls[n - 1], destroyed)
    requires var seen := if !f.locked && ls[n - 1].priority <= threshold then LockStep(f) else f;
      NonIncreasing(Dispatch(ls, n - 1, Perform(seen, react(ls[n - 1], seen)).flags, threshold, destroyed, react).visits)
    ensures NonIncreasing(Dispatch(ls, n, f, threshold, destroyed, react).visits)
  {
    var l := ls[n - 1];
    var seen := if !f.locked && l.priority <= threshold then LockStep(f) else f;
    var p := Perform(seen, react(l, seen));
    DispatchInvokeStep(ls, n - 1, f, threshold, destroyed, react);
    DispatchVisitsPrefix(ls, n - 1, p.flags, threshold, destroyed, react);
    var vs := Dispatch(ls, n - 1, p.flags, threshold, destroyed, react).visits;
    VisitsBelow(vs, ls, n);
    NonIncreasingCons(Visit(l, seen, p.threw), vs);
  }

  /** On a sorted list, once a listener at or below the lock threshold has been
      reached, it and every listener invoked after it see the event locked. */
  lemma LockedFromThresholdOn(ls: seq<Listener>, f: EventFlags, threshold: int,
                              destroyed: set<nat>, react: (Listener, EventFlags) -> seq<EventOp>)
    requires SortedByPriority(ls)
    ensures var vs := Dispatch(ls, |ls|, f, threshold, destroyed, react).visits;
      forall a, b :: 0 <= a <= b < |vs| && vs[a].listener.priority <= threshold ==> vs[b].seen.locked
  {
    DispatchOnSorted(ls, |ls|, f, threshold, destroyed, react);
    DispatchVisitRules(ls, |ls|, f, threshold, destroyed, react);
  }

  lemma DispatchPruneStep(ls: seq<Listener>, i: nat, f: EventFlags, threshold: int,
                          destroyed: set<nat>, react: (Listener, EventFlags) -> seq<EventOp>)
    requires i < |ls| && !f.consumed && IsDestroyed(ls[i], destroyed)
    ensures Dispatch(ls, i + 1, f, threshold, destroyed, react)
         == Dispatch(RemoveAt(ls, i), i, f, threshold, destroyed, react)
  {
  }

  lemma DispatchInvokeStep(ls: seq<Listener>, i: nat, f: EventFlags, threshold: int,
                           destroyed: set<nat>, react: (Listener, EventFlags) -> seq<EventOp>)
    requires i < |ls| && !f.consumed && !IsDestroyed(ls[i], destroyed)
    ensures var seen := if !f.locked && ls[i].priority <= threshold then LockStep(f) else f;
      var p := Perform(seen, react(ls[i], seen));
      var rest := Dispatch(ls, i, p.flags, threshold, destroyed, react);
      Dispatch(ls, i + 1, f, threshold, destroyed, react)
        == rest.(visits := [Visit(ls[i], seen, p.threw)] + rest.visits)
  {
  }

  // ---------------------------------------------------------------------------
  // The pipeline's static state
  // ---------------------------------------------------------------------------

  class EventPipeline {
    var listeners: seq<Listener>
    var isDirty: bool

    /** When the dirty flag is clear, the list is sorted ascending by priority. */
    ghost predicate Valid()
      reads this
    {
      !isDirty ==> SortedByPriority(listeners)
    }

    constructor ()
      ensures Valid() && listeners == [] && !isDirty
    {
      listeners := [];
      isDirty := false;
    }

    /** `Contains`: whether a listener with this callback is registered. */
    method Contains(cb: Callback) returns (found: bool)
      ensures found <==> cb in Callbacks(listeners)
    {
      var i := 0;
      while i < |listeners|
        invariant 0 <= i <= |listeners|
        invariant forall j :: 0 <= j < i ==> listeners[j].callback != cb
      {
        if listeners[i].callback == cb {
          assert Callbacks(listeners)[i] == cb;
          return true;
        }
        i := i + 1;
      }
      found := false;
    }

    /** `Subscribe` (both overloads; the callback's kind tells them apart): a
        callback already present leaves the list alone; otherwise one listener
        is appended and the list is marked dirty. Either way the caller gets a
        handle that unsubscribes the callback. `target` is the callback's
        `Target`; the priority defaults to `EventPriority.Normal`. */
    method Subscribe(cb: Callback, target: Target, priority: int := EventPriority.Normal) returns (handle: Unsubscriber)
      requires Valid()
      modifies this
      ensures Valid()
      ensures cb in Callbacks(old(listeners)) ==> listeners == old(listeners) && isDirty == old(isDirty)
      ensures cb !in Callbacks(old(listeners)) ==>
        listeners == old(listeners) + [Listener(cb, priority, target)] && isDirty
      ensures fresh(handle) && handle.pipeline == this && handle.action == Some(cb)
    {
      var present := Contains(cb);
      if !present {
        listeners := listeners + [Listener(cb, priority, target)];
        isDirty := true;
      }
      handle := new Unsubscriber(this, cb);
    }

    /** `Unsubscribe` (both overloads): walks down from the last index and
        removes the first listener with this callback it meets. */
    method Unsubscribe(cb: Callback)
      requires Valid()
      modifies this
      ensures Valid() && isDirty == old(isDirty)
      ensures listeners == RemoveListener(old(listeners), cb)
    {
      if !isDirty {
        RemoveListenerKeepsSorted(listeners, cb);
      }
      ghost var cs := Callbacks(listeners);
      var i := |listeners| - 1;
      while 0 <= i
        invariant -1 <= i < |listeners|
        invariant listeners == old(listeners)
        invariant forall j :: i < j < |cs| ==> cs[j] != cb
      {
        if listeners[i].callback == cb {
          assert cs[i] == cb;
          assert LastIndexOf(cs, cb) == i;
          listeners := RemoveAt(listeners, i);
          return;
        }
        assert cs[i] != cb;
        i := i - 1;
      }
      assert cb !in cs;
    }

    /** `Raise`: sorts the list if it is dirty, then runs the dispatch loop with
        the event's lock threshold. `order` is the list the walk starts from;
        `destroyed` holds the Unity objects destroyed so far, and `react` tells
        what each callback does to the event it receives. */
    method Raise(ev: PipelineEvent, destroyed: set<nat>, react: (Listener, EventFlags) -> seq<EventOp>)
      returns (ghost order: seq<Listener>, visits: seq<Visit>)
      requires Valid()
      modifies this, ev
      ensures Valid() && !isDirty
      ensures multiset(order) == multiset(old(listeners)) && SortedByPriority(order)
      ensures !old(isDirty) ==> order == old(listeners)
      ensures var d := Dispatch(order, |order|, old(ev.Flags()), ev.lockThreshold, destroyed, react);
        listeners == d.listeners && ev.Flags() == d.flags && visits == d.visits
    {
      if isDirty {
        listeners := SortByPriority(listeners);
        isDirty := false;
      }
      order := listeners;
      var threshold := ev.lockThreshold;
      visits := RunListeners(ev, threshold, destroyed, react);
      DispatchKeepsSorted(order, |order|, old(ev.Flags()), threshold, destroyed, react);
    }

    /** The dispatch loop of `Raise`: walks the list from the last index down,
        stopping once the event is consumed, pruning destroyed listeners,
        locking the event from the threshold on, and invoking each callback
        with its exception swallowed. */
    method RunListeners(ev: PipelineEvent, threshold: int, destroyed: set<nat>,
                        react: (Listener, EventFlags) -> seq<EventOp>)
      returns (visits: seq<Visit>)
      modifies this, ev
      ensures isDirty == old(isDirty)
      ensures var d := Dispatch(old(listeners), |old(listeners)|, old(ev.Flags()), threshold, destroyed, react);
        listeners == d.listeners && ev.Flags() == d.flags && visits == d.visits
    {
      ghost var target := Dispatch(listeners, |listeners|, ev.Flags(), threshold, destroyed, react);
      visits := [];
      var i := |listeners| - 1;
      while 0 <= i
        invariant -1 <= i < |listeners|
        invariant isDirty == old(isDirty)
        invariant var d := Dispatch(listeners, i + 1, ev.Flags(), threshold, destroyed, react);
          target == d.(visits := visits + d.visits)
        decreases i
      {
        if ev.isConsumed {
          break;
        }
        ghost var before := Dispatch(listeners, i + 1, ev.Flags(), threshold, destroyed, react);
        var vs := Step(ev, i, threshold, destroyed, react);
        ghost var rest := Dispatch(listeners, i, ev.Flags(), threshold, destroyed, react);
        assert (visits + vs) + rest.visits == visits + (vs + rest.visits);
        visits := visits + vs;
        i := i - 1;
      }
    }

    /** One turn of the dispatch loop, at index i of a list not yet consumed:
        a destroyed listener is removed; a live one is invoked, which `vs`
        records. */
    method Step(ev: PipelineEvent, i: nat, threshold: int, destroyed: set<nat>,
                react: (Listener, EventFlags) -> seq<EventOp>)
      returns (vs: seq<Visit>)
      requires i < |listeners| && !ev.isConsumed
      modifies this, ev
      ensures isDirty == old(isDirty) && i <= |listeners|
      ensures var d := Dispatch(listeners, i, ev.Flags(), threshold, destroyed, react);
        Dispatch(old(listeners), i + 1, old(ev.Flags()), threshold, destroyed, react) == d.(visits := vs + d.visits)
    {
      var l := listeners[i];
      if IsDestroyed(l, destroyed) {
        DispatchPruneStep(listeners, i, ev.Flags(), threshold, destroyed, react);
        listeners := RemoveAt(listeners, i);
        vs := [];
        return;
      }
      DispatchInvokeStep(listeners, i, ev.Flags(), threshold, destroyed, react);
      var v := InvokeListener(ev, l, threshold, react);
      vs := [v];
    }
  }

  /** One step of the dispatch loop on a live listener: the event is locked
      if the listener is at or below the threshold, then the callback runs and
      any exception it throws is swallowed. */
  method InvokeListener(ev: PipelineEvent, l: Listener, threshold: int,
                        react: (Listener, EventFlags) -> seq<EventOp>) returns (v: Visit)
    modifies ev
    ensures var f := old(ev.Flags());
      var seen := if !f.locked && l.priority <= threshold then LockStep(f) else f;
      var p := Perform(seen, react(l, seen));
      v == Visit(l, seen, p.threw) && ev.Flags() == p.flags
  {
    if !ev.isLocked && l.priority <= threshold {
      ev.Lock();
    }
    var seen := ev.Flags();
    var threw := RunCallback(ev, react(l, seen));
    v := Visit(l, seen, threw);
  }

  /** The handle `Subscribe` returns; `Dispose` unsubscribes at most once. */
  class Unsubscriber {
    const pipeline: EventPipeline
    /** The pending unsubscribe action; `None` once disposed. */
    var action: Option<Callback>

    constructor (pipeline: EventPipeline, cb: Callback)
      ensures this.pipeline == pipeline && action == Some(cb)
    {
      this.pipeline := pipeline;
      action := Some(cb);
    }

    method Dispose()
      requires pipeline.Valid()
      modifies this, pipeline
      ensures pipeline.Valid() && action == None
      ensures pipeline.isDirty == old(pipeline.isDirty)
      ensures old(action).None? ==> pipeline.listeners == old(pipeline.listeners)
      ensures old(action).Some? ==>
        pipeline.listeners == RemoveListener(old(pipeline.listeners), old(action).value)
    {
      if action.Some? {
        pipeline.Unsubscribe(action.value);
      }
      action := None;
    }
  }
}
