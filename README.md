# HybridToolkit event and processing infrastructure, in Dafny

A model of four parts of the HybridToolkit Unity toolkit, with proofs of what
each one promises.

- **Priority event pipeline** (`EventPipeline<T>`, `PipelineEvent`). There is one
  static, priority-ordered listener list per event type. `Subscribe`
  de-duplicates callbacks and marks the list dirty. `Unsubscribe` removes the
  last listener holding a callback. `Raise` sorts a dirty list, then walks it
  from the highest priority down. The walk stops once the event is consumed
  and locks the event at the event's lock threshold. It prunes listeners
  whose Unity object was destroyed. A callback that throws is logged and
  skipped. The event itself is a two-flag state machine (consumed, locked).
  (`event_pipeline.dfy`, `pipeline_event.dfy`)
- **Set-based event bus** (`EventBus<T>`, `EventBinding<T>`). A registry of
  bindings with set semantics. `Raise` copies the registry first. It then
  invokes every binding of the copy that is still registered when its turn
  comes: the typed delegate first, then the argument-less one. A binding holds
  two delegates, changed by `+=`, `-=` and the interface setters.
  (`event_bus.dfy`)
- **Logic pipeline combinators** (`LogicPipelineInternal.cs`,
  `PipelineExtensions.cs`). Processing units are composed in sequence. A
  cancellation check sits between stages, and exceptions become task results.
  When the first task has already succeeded, the combinators skip the await
  (the hot path). The model shows that this gives the same task as the
  awaited path (the slow path).
  (`logic_pipeline.dfy`, `logic_pipeline_internal.dfy`, `pipeline_extensions.dfy`)
- **Assembly type filter** (`PredefinedAssemblyUtil`). It maps Unity's
  predefined assembly names to an enum. It collects the types that implement
  an interface from Assembly-CSharp, then from Assembly-CSharp-firstpass.
  (`predefined_assembly_util.dfy`)

`sequences.dfy` holds `Option`/`Result` and the shared sequence operations.
These are removing the last occurrence of an element (`List.RemoveAt` after a
backwards search) and .NET `Delegate.Remove` on invocation lists, which cuts out
the last contiguous occurrence of the removed list.

Modelling choices:
- Each static class (`EventPipeline<T>`, `EventBus<T>`) becomes a Dafny class.
  One instance stands for the static state of one event type.
- A delegate is its invocation list, `seq<Handler>`; the empty list stands for
  `null`.
- What a callback does is a parameter. In the pipeline, `react` gives the
  operations a listener performs on the event: consume, lock, reset, a guarded
  setter calling `CheckLock`, or throwing. In the bus, `effect` gives the
  registrations a handler makes and whether it throws.
- Which Unity objects are destroyed is a parameter, `destroyed`.
- A UniTask is its outcome (`Ok`, `Canceled` or `Faulted`) plus whether it had
  already ended when it was handed back. UniTask records an
  `OperationCanceledException` as cancellation, both in `FromException` and in
  async methods.
- A cancellation token is the boolean that `IsCancellationRequested` reads
  during one call.
- A processing unit is a function value. Each combinator is an immutable
  datatype with a `ProcessAsync` member.
- Reflection types are a type parameter. `IsAssignableFrom` and the loaded
  assemblies are parameters. `AddTypesFromAssembly` returns the extended
  results instead of mutating the caller's collection.

## Model

| member | source | states |
|---|---|---|
| PipelineEvents.PipelineEvent.constructor | Runtime/EventPipeline/PipelineEvent.cs:15-27 | a new event is neither consumed nor locked; its lock threshold is the default `Monitor` (-1000) |
| PipelineEvents.PipelineEvent.WithThreshold | Runtime/EventPipeline/PipelineEvent.cs:27 | an event of a subclass that overrides `LockThreshold` starts fresh, with that threshold |
| PipelineEvents.PipelineEvent.Consume | Runtime/EventPipeline/PipelineEvent.cs:33-41 | the consumed flag is set exactly when the event was not locked; the lock is unchanged |
| PipelineEvents.PipelineEvent.CheckLock | Runtime/EventPipeline/PipelineEvent.cs:47-53 | throws exactly when the event is locked |
| PipelineEvents.PipelineEvent.Lock | Runtime/EventPipeline/PipelineEvent.cs:58 | the event is locked afterwards and the consumed flag is unchanged |
| PipelineEvents.PipelineEvent.Reset | Runtime/EventPipeline/PipelineEvent.cs:63-67 | both flags are cleared: the event is fresh again |
| PipelineEvents.StepsIdempotent | Runtime/EventPipeline/PipelineEvent.cs:33-58 | `Consume` and `Lock` are idempotent; `Consume` on a locked event changes neither flag |
| PipelineEvents.LockIsSticky | Runtime/EventPipeline/PipelineEvent.cs:58-67 | on a locked event, any sequence of operations without `Reset` leaves both flags as they were |
| PipelineEvents.FlagsOnlyRise | Runtime/EventPipeline/PipelineEvent.cs:33-67 | without `Reset`, neither the consumed nor the locked flag is ever cleared |
| PipelineEvents.RunCallback | Runtime/EventPipeline/EventPipeline.cs:139-154 | running a callback's operations through the event's own methods gives the flags and the exception of the reference semantics `Perform` |
| EventPipelines.EventPipeline.constructor | Runtime/EventPipeline/EventPipeline.cs:23-24 | the list starts empty and clean |
| EventPipelines.EventPipeline.Contains | Runtime/EventPipeline/EventPipeline.cs:162-172 | true exactly when some listener holds the callback |
| EventPipelines.EventPipeline.Subscribe | Runtime/EventPipeline/EventPipeline.cs:34-68 | a present callback leaves list and dirty flag unchanged; a new one is appended as one listener with its priority (by default `EventPriority.Normal`) and target and the list is marked dirty; the sorted-when-clean invariant is kept; the handle holds this callback |
| EventPipelines.EventPipeline.Unsubscribe | Runtime/EventPipeline/EventPipeline.cs:74-96 | the list becomes `RemoveListener` of the old list; the dirty flag and the invariant are kept |
| EventPipelines.RemoveListenerSpec | Runtime/EventPipeline/EventPipeline.cs:74-96 | an absent callback is a no-op; otherwise exactly one listener goes, the highest-indexed one with that callback, and the others keep their order |
| EventPipelines.RemoveListenerKeepsSorted | Runtime/EventPipeline/EventPipeline.cs:76-80 | unsubscribing from a sorted list leaves it sorted |
| EventPipelines.SubscribeThenUnsubscribe | Runtime/EventPipeline/EventPipeline.cs:34-47 | subscribing a new callback and then unsubscribing it restores the list |
| EventPipelines.SortByPriority | Runtime/EventPipeline/EventPipeline.cs:109-113 | the sort gives a permutation of the list, sorted ascending by priority |
| EventPipelines.RemoveAtKeepsSorted | Runtime/EventPipeline/EventPipeline.cs:128 | removing any one listener from a sorted list leaves it sorted |
| EventPipelines.EventPipeline.Raise | Runtime/EventPipeline/EventPipeline.cs:106-156 | afterwards the list is clean and sorted; the walk starts from a sorted permutation of the old list, which is the old list itself when it was clean; the new list, the event's flags and the invoked listeners are those of the dispatch `Dispatch` from the old flags with the event's threshold |
| EventPipelines.EventPipeline.RunListeners | Runtime/EventPipeline/EventPipeline.cs:119-155 | the backwards walk over the list leaves the list, the event's flags and the invoked listeners exactly as the dispatch `Dispatch` of the old list from the old flags gives them; the dirty flag is untouched |
| EventPipelines.EventPipeline.Step | Runtime/EventPipeline/EventPipeline.cs:123-154 | one turn of the walk at index i: the dispatch of the first i + 1 listeners is this turn's visit, if any, followed by the dispatch of the first i listeners of the new list from the new flags |
| EventPipelines.InvokeListener | Runtime/EventPipeline/EventPipeline.cs:133-154 | a live listener at or below the threshold sees the event locked, unless it already was; its visit records the flags it saw and whether its callback threw, and the event ends with the flags `Perform` gives |
| EventPipelines.DispatchShape | Runtime/EventPipeline/EventPipeline.cs:119-155 | the walk stops early only because the event was consumed; above that point every destroyed listener is removed and every live one is invoked, highest index first, even after a callback threw; below it the list is untouched |
| EventPipelines.DispatchVisitRules | Runtime/EventPipeline/EventPipeline.cs:121-136 | no callback sees a consumed event or has a destroyed target, and every callback at or below the threshold sees the event locked |
| EventPipelines.DispatchVisitsPrefix | Runtime/EventPipeline/EventPipeline.cs:119-123 | only listeners of the walked range are invoked |
| EventPipelines.DispatchOnSorted | Runtime/EventPipeline/EventPipeline.cs:119-130 | on a sorted list, listeners are invoked in non-increasing priority |
| EventPipelines.DispatchKeepsSorted | Runtime/EventPipeline/EventPipeline.cs:119-130 | pruning destroyed listeners during the walk keeps a sorted list sorted |
| EventPipelines.LockedFromThresholdOn | Runtime/EventPipeline/EventPipeline.cs:116-136 | on a sorted list, from the first invoked listener at or below the threshold on, every callback sees the event locked |
| EventPipelines.Unsubscriber.constructor | Runtime/EventPipeline/EventPipeline.cs:177 | the handle holds the pipeline and the pending unsubscribe of its callback |
| EventPipelines.Unsubscriber.Dispose | Runtime/EventPipeline/EventPipeline.cs:178 | the first call unsubscribes the callback; the action is then cleared, so later calls leave the list unchanged |
| Sequences.RemoveRunAfterAppend | Runtime/EventBus/EventBinding.cs:68-86 | `-=` of a delegate just added with `+=` restores the invocation list |
| EventBindings.EventBinding.WithHandler | Runtime/EventBus/EventBinding.cs:56 | the typed delegate is the given one; the argument-less one is the empty lambda |
| EventBindings.EventBinding.WithNoArgsHandler | Runtime/EventBus/EventBinding.cs:62 | the argument-less delegate is the given one; the typed one is the empty lambda |
| EventBindings.EventBinding.AddNoArgs | Runtime/EventBus/EventBinding.cs:68 | the handler's list is appended to the argument-less delegate; the typed one is unchanged |
| EventBindings.EventBinding.RemoveNoArgs | Runtime/EventBus/EventBinding.cs:74 | the last contiguous occurrence of the handler's list is cut from the argument-less delegate; the typed one is unchanged |
| EventBindings.EventBinding.Add | Runtime/EventBus/EventBinding.cs:80 | the handler's list is appended to the typed delegate; the other is unchanged |
| EventBindings.EventBinding.Remove | Runtime/EventBus/EventBinding.cs:86 | the last contiguous occurrence is cut from the typed delegate; the other is unchanged |
| EventBindings.EventBinding.SetOnEvent | Runtime/EventBus/EventBinding.cs:39-42 | the interface setter replaces the typed delegate only |
| EventBindings.EventBinding.SetOnEventNoArgs | Runtime/EventBus/EventBinding.cs:47-50 | the interface setter replaces the argument-less delegate only |
| EventBindings.EventBinding.AddThenRemove | Runtime/EventBus/EventBinding.cs:80-86 | `Add` followed by `Remove` of the same handler leaves both delegates as they were |
| EventBindings.EventBinding.AddThenRemoveNoArgs | Runtime/EventBus/EventBinding.cs:68-74 | the same for the argument-less overloads |
| EventBuses.EventBus.constructor | Runtime/EventBus/EventBus.cs:14 | the registry starts empty |
| EventBuses.EventBus.Register | Runtime/EventBus/EventBus.cs:20 | the binding is added with set semantics: registering a present binding changes nothing |
| EventBuses.EventBus.Deregister | Runtime/EventBus/EventBus.cs:26 | the binding is removed; an absent binding is a no-op |
| EventBuses.EventBus.Clear | Runtime/EventBus/EventBus.cs:50-53 | the registry is empty afterwards |
| EventBuses.StaysRegistered | Runtime/EventBus/EventBus.cs:38 | a binding that no handler deregisters is still registered when its turn comes |
| EventBuses.DeregisteredStaysOut | Runtime/EventBus/EventBus.cs:38 | a binding that a handler deregistered, and that no later handler registered again, is no longer registered |
| EventBuses.RunUntilThrowSpec | Runtime/EventBus/EventBus.cs:40-42 | invoking a delegate runs a prefix of its invocation list in which every handler but the last returned normally; the whole list when no handler throws, otherwise a prefix ending in a handler that throws |
| EventBuses.RunUntilThrowAt | Runtime/EventBus/EventBus.cs:40-42 | when the handlers before index i return normally and the one at i throws, exactly the first i + 1 handlers run |
| EventBuses.BindingRunSpec | Runtime/EventBus/EventBus.cs:40-42 | a binding runs a prefix of its typed then its argument-less handlers, nothing when the typed delegate is null, all of them when it completes; every handler but the last returned normally; when it does not complete, a delegate was null or the last handler that ran threw |
| EventBuses.RanOfAllComplete | Runtime/EventBus/EventBus.cs:36-44 | when every invoked binding completed, the handlers that ran are exactly those of the invoked bindings, in order |
| EventBuses.RanOfWithinHandlers | Runtime/EventBus/EventBus.cs:36-44 | when every invoked binding but the last completed, the handlers that ran are a prefix of the invoked bindings' handlers |
| EventBuses.DeregisteredIsSkipped | Runtime/EventBus/EventBus.cs:36-38 | the re-check at work: a binding that a handler deregistered before some turn, and that no later handler registered again, is not the binding invoked on that turn |
| EventBuses.RaiseSkipKeeps | Runtime/EventBus/EventBus.cs:36-38 | a binding found unregistered on its turn was deregistered by a handler that ran; skipping it keeps `RaiseInvariant` and records the turn on which it was found unregistered |
| EventBuses.SkippedOnTurnAdd | Runtime/EventBus/EventBus.cs:38 | a binding not in the registry as the handlers that ran have left it may be recorded as skipped on the current turn |
| EventBuses.ReRegisteredIsNotSkipped | Runtime/EventBus/EventBus.cs:36-40 | a binding that a handler deregistered and registered again is still registered on its turn and cannot be recorded as skipped then, although a handler that ran deregistered it |
| EventBuses.SkippedOnTurnSnoc | Runtime/EventBus/EventBus.cs:36-43 | invoking one more binding leaves every earlier skip true: a binding was absent from the registry on the turn on which it was skipped |
| EventBuses.RaiseTurnEnds | Runtime/EventBus/EventBus.cs:36-43 | after one invoked turn the registry follows the handlers that ran, `RaiseInvariant` holds one step on, and the outcome is the turn's when every earlier binding completed, a null-reference exception exactly when the binding reached a null delegate |
| EventBuses.RaiseTurnKeeps | Runtime/EventBus/EventBus.cs:36-43 | invoking a binding still registered on its turn keeps `RaiseInvariant`: it is invoked once, it was registered on its turn, and the registry follows the handlers that ran |
| EventBuses.RaiseEnds | Runtime/EventBus/EventBus.cs:32-45 | when the loop stops, the handlers that ran are a prefix of the invoked bindings' handlers; after a complete pass they are all of them, and every binding of the snapshot was invoked, or skipped on a turn when it was not registered |
| EventBuses.EventBus.RunHandlers | Runtime/EventBus/EventBus.cs:40-42 | a multicast delegate's invocation: its handlers run in list order up to and including the first that throws, and the registry changes only by what the handlers that ran did |
| EventBuses.EventBus.InvokeDelegate | Runtime/EventBus/EventBus.cs:40-42 | a null delegate throws before any handler runs; otherwise a prefix of the list runs in which only the last handler may throw; the invocation completes exactly when the delegate is not null and no handler throws, and then the whole list ran; an escaping handler exception comes from the last handler that ran; the registry changes only by what the handlers that ran did |
| EventBuses.EventBus.InvokeBinding | Runtime/EventBus/EventBus.cs:38-43 | the typed delegate runs first; a null typed delegate runs nothing; the argument-less handlers run only after the typed delegate completed; the binding completes exactly when both delegates are not null and no handler throws; it throws the null-reference exception exactly when the typed delegate is null, or it completed and the argument-less one is null; it throws a handler's exception exactly in the remaining failing cases, and then that handler is the last that ran; only the last handler that ran may have thrown |
| EventBuses.EventBus.RaiseTurn | Runtime/EventBus/EventBus.cs:38-43 | one invoked turn keeps `RaiseInvariant`; its outcome (`OutcomeFits`) is completion exactly when the binding completed, the null-reference exception exactly when the binding reached a null delegate, and otherwise the exception of the last handler that ran |
| EventBuses.EventBus.VisitSnapshot | Runtime/EventBus/EventBus.cs:36-44 | the `foreach` over the snapshot: it stops when the snapshot is exhausted or an exception escapes; it keeps `RaiseInvariant`, so every binding it skipped was unregistered on its turn; `OutcomeFits` holds at the end: every binding visited but the last completed, it completed exactly when all did; otherwise the exception is the null-reference exception of the last binding exactly when that binding reached a null delegate, and else that of the last handler that ran, which throws |
| EventBuses.EventBus.RaiseStep | Runtime/EventBus/EventBus.cs:36-44 | one turn of the loop over the snapshot takes one binding out of the pending set and names it: it is invoked exactly when it is still registered, and otherwise it is recorded as skipped on this turn and nothing changes; `RaiseInvariant` is kept: bindings invoked once each, all from the snapshot, each registered on its own turn, each taken binding invoked or skipped, a skipped one absent from the registry on its turn, and the registry is the snapshot changed by the handlers that ran; the turn completes exactly when the invoked bindings all completed |
| EventBuses.EventBus.Raise | Runtime/EventBus/EventBus.cs:32-45 | given that the empty default lambda registers nothing and does not throw, each invoked binding is invoked once, was in the snapshot and was still registered on its turn; the registry changes only through the handlers that ran; every invoked binding but the last completed; `Raise` completes exactly when no invoked binding has a null delegate or a handler that throws; otherwise it throws the null-reference exception exactly when the last invoked binding reached a null delegate (its typed delegate is null, or that one completed and the argument-less one is null), and a handler's exception exactly in the other cases, that handler being the last that ran; every skipped binding is from the snapshot, was not invoked, and was absent from the registry, as the handlers that ran before its turn left it; on completion every binding of the snapshot was invoked or skipped, and the handlers that ran are exactly those of the invoked bindings, in order |
| LogicPipeline.SequenceAssociative | Runtime/LogicPipeline/LogicPipelineInternal.cs:23-44 | the reference semantics of running stages in sequence is associative |
| LogicPipelineInternal.CombinedAsyncProcessor.ProcessAsync | Runtime/LogicPipeline/LogicPipelineInternal.cs:23-37 | the outcome is the reference `Sequence` of the two stages; the task handed back, including the hot path, is the same as the slow path's task |
| LogicPipelineInternal.CombinedAsyncProcessor.ProcessAsyncInternal | Runtime/LogicPipeline/LogicPipelineInternal.cs:39-44 | the awaiting async method ends with the reference `Sequence` outcome and ends at once only if the first task had already ended |
| LogicPipelineInternal.CombinedAsyncSyncProcessor.ProcessAsync | Runtime/LogicPipeline/LogicPipelineInternal.cs:62-81 | the outcome is the reference `Sequence` of the first stage and the lifted second stage, so an exception from `Process` becomes the task's result; the hot path's task equals the slow path's |
| LogicPipelineInternal.CombinedAsyncSyncProcessor.ProcessAsyncInternal | Runtime/LogicPipeline/LogicPipelineInternal.cs:83-88 | the awaiting async method ends with that outcome, at once exactly when the first task had already ended |
| LogicPipelineInternal.AsyncSecondStageSkipped | Runtime/LogicPipeline/LogicPipelineInternal.cs:23-44 | when the first stage does not succeed or cancellation is requested, the outcome is not a success and does not depend on the second stage |
| LogicPipelineInternal.AsyncSyncSecondStageSkipped | Runtime/LogicPipeline/LogicPipelineInternal.cs:62-88 | the same for the async-then-sync combinator |
| LogicPipelineInternal.SyncToAsyncAdapter.ProcessAsync | Runtime/LogicPipeline/LogicPipelineInternal.cs:100-111 | always hands back a task that has already ended; canceled when cancellation is requested, otherwise the lifted result of `Process` |
| LogicPipelineInternal.DelegateAsyncProcessor.ProcessAsync | Runtime/LogicPipeline/LogicPipelineInternal.cs:123-126 | the wrapper is transparent: its task is the lambda's |
| LogicPipelineInternal.DelegateSyncProcessor.Process | Runtime/LogicPipeline/LogicPipelineInternal.cs:138-141 | the wrapper is transparent: its result is the lambda's |
| PipelineExtensions.ThenAsyncFromSync | Runtime/LogicPipeline/PipelineExtensions.cs:13-19 | a sync-first chain is canceled, at once, whenever cancellation is requested, before `first` is consulted; otherwise its outcome is the reference `Sequence` of the lifted first stage and the second |
| PipelineExtensions.ThenAsyncFromSyncWith | Runtime/LogicPipeline/PipelineExtensions.cs:22-28 | the lambda overload behaves as the processor overload on the lambda |
| PipelineExtensions.ThenAsync | Runtime/LogicPipeline/PipelineExtensions.cs:33-38 | the chain's outcome is the reference `Sequence` of the two stages |
| PipelineExtensions.ThenAsyncWith | Runtime/LogicPipeline/PipelineExtensions.cs:41-46 | the lambda overload behaves as the processor overload on the lambda |
| PipelineExtensions.Then | Runtime/LogicPipeline/PipelineExtensions.cs:51-56 | the chain's outcome is the reference `Sequence` of the first stage and the lifted synchronous stage |
| PipelineExtensions.ThenWith | Runtime/LogicPipeline/PipelineExtensions.cs:59-64 | the lambda overload behaves as the processor overload on the lambda |
| PipelineExtensions.Compile | Runtime/LogicPipeline/PipelineExtensions.cs:69-73 | the compiled delegate answers every input and token as the unit's `ProcessAsync` does |
| PipelineExtensions.ThenAsyncAssociative | Runtime/LogicPipeline/PipelineExtensions.cs:33-38 | chaining with async `ThenAsync` is associative in outcome |
| PredefinedAssemblyUtil.GetAssemblyType | Runtime/EventBus/PredefinedAssemblyUtil.cs:26-34 | exactly the four predefined names are recognised, each as the assembly that carries that name; any other name gives none |
| PredefinedAssemblyUtil.AssemblyNameRoundTrip | Runtime/EventBus/PredefinedAssemblyUtil.cs:14-34 | every predefined assembly is recognised from its own name |
| PredefinedAssemblyUtil.Implementations | Runtime/EventBus/PredefinedAssemblyUtil.cs:44-49 | a type is kept exactly when it is in the array, implements the interface and is not the interface itself |
| PredefinedAssemblyUtil.ImplementationsAppend | Runtime/EventBus/PredefinedAssemblyUtil.cs:44-49 | the filter distributes over concatenation, so it keeps the array's order |
| PredefinedAssemblyUtil.AddTypesFromAssembly | Runtime/EventBus/PredefinedAssemblyUtil.cs:42-50 | a null array leaves the results unchanged; otherwise the implementations, in array order, are appended after the untouched prior results |
| PredefinedAssemblyUtil.Entries | Runtime/EventBus/PredefinedAssemblyUtil.cs:62-63 | each loaded assembly, in order, gives its types and a predefined assembly type exactly when its name is one of the four predefined names, that type carrying the same name |
| PredefinedAssemblyUtil.CategorizeContents | Runtime/EventBus/PredefinedAssemblyUtil.cs:62-67 | a built dictionary maps each loaded predefined assembly, and nothing else, to its types |
| PredefinedAssemblyUtil.CategorizeFailsOnDuplicate | Runtime/EventBus/PredefinedAssemblyUtil.cs:62-67 | `Dictionary.Add` throws exactly when two loaded assemblies carry the same predefined name |
| PredefinedAssemblyUtil.CategorizeFailureSticks | Runtime/EventBus/PredefinedAssemblyUtil.cs:62-67 | once `Dictionary.Add` has thrown on a prefix of the assemblies, the rest change nothing |
| PredefinedAssemblyUtil.GetTypes | Runtime/EventBus/PredefinedAssemblyUtil.cs:57-76 | the result is `ExpectedTypes`: the Assembly-CSharp implementations followed by the Assembly-CSharp-firstpass ones, a missing assembly contributing nothing, or the failure of a duplicate |
| PredefinedAssemblyUtil.GetTypesMembership | Runtime/EventBus/PredefinedAssemblyUtil.cs:69-73 | `GetTypes` fails exactly on a duplicate; otherwise a type is returned exactly when it implements the interface, is not it, and is defined in Assembly-CSharp or Assembly-CSharp-firstpass, so editor assemblies never contribute |

## Left out

- Logging (`Debug.Log`, `Debug.LogError`) is not modelled. This includes the error that `Consume` logs on a locked event and the error that `Raise` logs for a callback that threw.
- Null callbacks, delegates and arguments passed to `Subscribe`, `Unsubscribe`, `EventBus.Register`, `EventBus.Deregister` or the pipeline extensions are not modelled. A null binding registered with `Register` would make `Raise` throw when it reaches `binding.OnEvent` (`Runtime/EventBus/EventBus.cs:40`); the model's registry holds only bindings. A null delegate inside an `EventBinding` is modelled, since it makes `EventBus.Raise` throw.
- Callbacks that subscribe, unsubscribe or destroy Unity objects during `EventPipeline.Raise` are left out. The listener list and the set of destroyed objects are fixed during one `Raise`.
- In `EventBus.Raise`, handlers can register and deregister bindings. They cannot change any binding's delegates, including the one being invoked, while `Raise` runs.
- EventBuses.EventBus.Raise: what a handler does is a function of the handler alone (`effect`). A handler that runs twice in one `Raise`, because two bindings or one delegate list it twice, makes the same registrations and throws or returns alike both times.
- Async scheduling is left out. An awaited async listener is one sequential step. A UniTask is reduced to its outcome and to whether it had already ended.
- EventPipelines.EventPipeline.Raise: `List.Sort` is unstable, so the order it gives to equal priorities is not pinned down. The contract only says the walk starts from some sorted permutation of the list.
- LogicPipelineInternal.CombinedAsyncProcessor.ProcessAsync: the cancellation token is read once per call. A token cancelled while the slow path is awaiting is not modelled.
- LogicPipelineInternal.CombinedAsyncProcessor.ProcessAsync: a unit's `ProcessAsync` that throws synchronously, instead of handing back a faulted task, is not modelled; every unit hands back a task. On the hot path such a throw from the second unit would escape `ProcessAsync` itself (`Runtime/LogicPipeline/LogicPipelineInternal.cs:32`), while on the slow path the async method turns it into a faulted task (line 43). A synchronous throw from the first unit escapes on both paths (lines 25 and 64).
- The event payload, and the exceptions' messages and types beyond cancellation, are not modelled.
- `ReflectionTypeLoadException` from `Assembly.GetTypes`, and `AppDomain.GetAssemblies` itself, are left out. The loaded assemblies are a parameter.
- `EventBusUtil`, the singletons, the camera controller, the input center, the screenshot tool and the editor tools are not part of this model.
- The hierarchical state machine is not part of this model.
