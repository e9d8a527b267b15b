/** The combinators behind the pipeline extensions. Each one is an immutable
    object holding the processing units it was built from; its `ProcessAsync`
    is modelled as a function of the input and the cancellation state. */
module LogicPipelineInternal {
  import opened LogicPipeline

  /** Async followed by async. When the first task has already succeeded, the
      second stage is started directly (the hot path); otherwise the result is
      the task of an async method that awaits the first task (the slow path). */
  datatype CombinedAsyncProcessor<!A, !M, B> =
    CombinedAsyncProcessor(first: AsyncProcessor<A, M>, second: AsyncProcessor<M, B>)
  {
    function ProcessAsync(input: A, ct: bool): (r: UniTask<B>)
      ensures r.outcome == Sequence(first(input, ct).outcome, ct, m => second(m, ct).outcome)
      ensures r == ProcessAsyncInternal(first(input, ct), ct)
    {
      var task1 := first(input, ct);
      if task1.IsSucceeded() then
        var mid := task1.outcome.value;
        if ct then FromCanceled() else second(mid, ct)
      else
        ProcessAsyncInternal(task1, ct)
    }

    /** The async method of the slow path: awaiting `task1` rethrows its
        exception, which ends this task the same way; the method only suspends
        where an awaited task had not yet ended. */
    function ProcessAsyncInternal(task1: UniTask<M>, ct: bool): (r: UniTask<B>)
      ensures r.outcome == Sequence(task1.outcome, ct, m => second(m, ct).outcome)
      ensures r.synchronous ==> task1.synchronous
    {
      match task1.outcome
      case Canceled => UniTask(Canceled, task1.synchronous)
      case Faulted(e) => UniTask(Faulted(e), task1.synchronous)
      case Ok(mid) =>
        if ct then UniTask(Canceled, task1.synchronous)
        else
          var task2 := second(mid, ct);
          UniTask(task2.outcome, task1.synchronous && task2.synchronous)
    }
  }

  /** Async followed by sync: the same shape, with the synchronous second stage
      run under a try/catch that turns what it throws into the task's
      exception. */
  datatype CombinedAsyncSyncProcessor<!A, !M, B> =
    CombinedAsyncSyncProcessor(first: AsyncProcessor<A, M>, second: SyncProcessor<M, B>)
  {
    function ProcessAsync(input: A, ct: bool): (r: UniTask<B>)
      ensures r.outcome == Sequence(first(input, ct).outcome, ct, m => Lift(second(m)))
      ensures r == ProcessAsyncInternal(first(input, ct), ct)
    {
      var task1 := first(input, ct);
      if task1.IsSucceeded() then
        var mid := task1.outcome.value;
        if ct then FromCanceled()
        else
          match second(mid)
          case Returned(v) => FromResult(v)
          case Threw(ex) => FromException(ex)
      else
        ProcessAsyncInternal(task1, ct)
    }

    /** The async method of the slow path: an exception from the second stage
        ends the task, as any exception inside an async method does. */
    function ProcessAsyncInternal(task1: UniTask<M>, ct: bool): (r: UniTask<B>)
      ensures r.outcome == Sequence(task1.outcome, ct, m => Lift(second(m)))
      ensures r.synchronous <==> task1.synchronous
    {
      match task1.outcome
      case Canceled => UniTask(Canceled, task1.synchronous)
      case Faulted(e) => UniTask(Faulted(e), task1.synchronous)
      case Ok(mid) =>
        if ct then UniTask(Canceled, task1.synchronous)
        else UniTask(Lift(second(mid)), task1.synchronous)
    }
  }

  /** Sync to async: checks the token before running the synchronous unit, and
      always hands back a task that has already ended. */
  datatype SyncToAsyncAdapter<!A, B> = SyncToAsyncAdapter(syncProcessor: SyncProcessor<A, B>)
  {
    function ProcessAsync(input: A, ct: bool): (r: UniTask<B>)
      ensures r.synchronous
      ensures ct ==> r.outcome == Canceled
      ensures !ct ==> r.outcome == Lift(syncProcessor(input))
    {
      if ct then FromCanceled()
      else
        match syncProcessor(input)
        case Returned(v) => FromResult(v)
        case Threw(ex) => FromException(ex)
    }
  }

  /** Wraps an async lambda as an `IAsyncProcessor`. */
  datatype DelegateAsyncProcessor<!A, B> = DelegateAsyncProcessor(func: AsyncProcessor<A, B>)
  {
    function ProcessAsync(input: A, ct: bool): (r: UniTask<B>)
      ensures r == func(input, ct)
    {
      func(input, ct)
    }
  }

  /** Wraps a synchronous lambda as an `IProcessor`. */
  datatype DelegateSyncProcessor<!A, B> = DelegateSyncProcessor(func: SyncProcessor<A, B>)
  {
    function Process(input: A): (r: SyncResult<B>)
      ensures r == func(input)
    {
      func(input)
    }
  }

  /** The second stage of `CombinedAsyncProcessor` does not run when the first
      stage does not succeed or cancellation is requested: any other second
      stage gives the same outcome. */
  lemma AsyncSecondStageSkipped<A, M, B>(p: CombinedAsyncProcessor<A, M, B>, other: AsyncProcessor<M, B>, input: A, ct: bool)
    requires !p.first(input, ct).outcome.Ok? || ct
    ensures p.ProcessAsync(input, ct).outcome == p.(second := other).ProcessAsync(input, ct).outcome
    ensures !p.ProcessAsync(input, ct).outcome.Ok?
  {
  }

  /** The same for `CombinedAsyncSyncProcessor`. */
  lemma AsyncSyncSecondStageSkipped<A, M, B>(p: CombinedAsyncSyncProcessor<A, M, B>, other: SyncProcessor<M, B>, input: A, ct: bool)
    requires !p.first(input, ct).outcome.Ok? || ct
    ensures p.ProcessAsync(input, ct).outcome == p.(second := other).ProcessAsync(input, ct).outcome
    ensures !p.ProcessAsync(input, ct).outcome.Ok?
  {
  }
}
