/** The fluent API that builds pipelines: each `ThenAsync`/`Then` overload
    builds one combinator and hands back its `ProcessAsync` as the new
    processing unit; `Compile` hands back the method group of a unit. */
module PipelineExtensions {
  import opened LogicPipeline
  import opened LogicPipelineInternal

  /** `ThenAsync` from a synchronous unit to an async one: the synchronous unit
      runs behind a `SyncToAsyncAdapter`, so a requested cancellation ends the
      chain before `first` runs. */
  function ThenAsyncFromSync<A(!new), B, C>(first: SyncProcessor<A, B>, second: AsyncProcessor<B, C>): (p: AsyncProcessor<A, C>)
    ensures forall x :: p(x, false).outcome == Sequence(Lift(first(x)), false, m => second(m, false).outcome)
    ensures forall x :: p(x, true).outcome == Canceled && p(x, true).synchronous
  {
    (x, ct) => CombinedAsyncProcessor(SyncToAsyncAdapter(first).ProcessAsync, second).ProcessAsync(x, ct)
  }

  /** Its lambda overload: the lambda is wrapped in a `DelegateAsyncProcessor`. */
  function ThenAsyncFromSyncWith<A(!new), B, C>(first: SyncProcessor<A, B>, func: AsyncProcessor<B, C>): (p: AsyncProcessor<A, C>)
    ensures forall x, ct :: p(x, ct) == ThenAsyncFromSync(first, func)(x, ct)
  {
    ThenAsyncFromSync(first, DelegateAsyncProcessor(func).ProcessAsync)
  }

  /** `ThenAsync` from an async unit to an async one. */
  function ThenAsync<A(!new), B, C>(first: AsyncProcessor<A, B>, second: AsyncProcessor<B, C>): (p: AsyncProcessor<A, C>)
    ensures forall x, ct :: p(x, ct).outcome == Sequence(first(x, ct).outcome, ct, m => second(m, ct).outcome)
  {
    (x, ct) => CombinedAsyncProcessor(first, second).ProcessAsync(x, ct)
  }

  /** Its lambda overload. */
  function ThenAsyncWith<A(!new), B, C>(first: AsyncProcessor<A, B>, func: AsyncProcessor<B, C>): (p: AsyncProcessor<A, C>)
    ensures forall x, ct :: p(x, ct) == ThenAsync(first, func)(x, ct)
  {
    ThenAsync(first, DelegateAsyncProcessor(func).ProcessAsync)
  }

  /** `Then` from an async unit to a synchronous one. */
  function Then<A(!new), B, C>(first: AsyncProcessor<A, B>, second: SyncProcessor<B, C>): (p: AsyncProcessor<A, C>)
    ensures forall x, ct :: p(x, ct).outcome == Sequence(first(x, ct).outcome, ct, m => Lift(second(m)))
  {
    (x, ct) => CombinedAsyncSyncProcessor(first, second).ProcessAsync(x, ct)
  }

  /** Its lambda overload: the lambda is wrapped in a `DelegateSyncProcessor`. */
  function ThenWith<A(!new), B, C>(first: AsyncProcessor<A, B>, func: SyncProcessor<B, C>): (p: AsyncProcessor<A, C>)
    ensures forall x, ct :: p(x, ct) == Then(first, func)(x, ct)
  {
    (x, ct) => CombinedAsyncSyncProcessor(first, DelegateSyncProcessor(func).Process).ProcessAsync(x, ct)
  }

  /** `Compile`: the delegate it hands back answers every call as the unit's own
      `ProcessAsync` does. */
  function Compile<A(!new), B>(processor: AsyncProcessor<A, B>): (f: AsyncProcessor<A, B>)
    ensures forall x, ct :: f(x, ct) == processor(x, ct)
  {
    processor
  }

  /** Chaining with async `ThenAsync` is associative in outcome. */
  lemma ThenAsyncAssociative<A(!new), B(!new), C, D>(f: AsyncProcessor<A, B>, g: AsyncProcessor<B, C>, h: AsyncProcessor<C, D>, x: A, ct: bool)
    ensures ThenAsync(ThenAsync(f, g), h)(x, ct).outcome == ThenAsync(f, ThenAsync(g, h))(x, ct).outcome
  {
    SequenceAssociative(f(x, ct).outcome, ct, m => g(m, ct).outcome, m => h(m, ct).outcome);
  }
}
