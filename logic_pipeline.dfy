/** The vocabulary of the logic pipeline: processing units that turn an input
    into an output, synchronously (`IProcessor`) or as a UniTask
    (`IAsyncProcessor`), and the results they produce. A cancellation token is
    modelled by the boolean its `IsCancellationRequested` reads during one
    call. */
module LogicPipeline {

  /** An exception thrown by a processing unit: an `OperationCanceledException`
      or any other exception, told apart by an identifier. */
  datatype Exception = OperationCanceled | OtherException(id: nat)

  /** How a UniTask ends: with a value, canceled, or faulted with an exception
      that is not an `OperationCanceledException`. */
  datatype Outcome<T> = Ok(value: T) | Canceled | Faulted(errorId: nat)

  /** A UniTask: the outcome it ends with, and whether it had already ended when
      it was handed back (its `Status` is not `Pending`). */
  datatype UniTask<T> = UniTask(outcome: Outcome<T>, synchronous: bool)
  {
    /** `Status == UniTaskStatus.Succeeded`. */
    predicate IsSucceeded()
    {
      synchronous && outcome.Ok?
    }
  }

  /** What a synchronous `Process` call does: return a value or throw. */
  datatype SyncResult<T> = Returned(value: T) | Threw(exception: Exception)

  /** `IAsyncProcessor<TIn, TOut>.ProcessAsync`, as a function of the input and of
      the state of the cancellation token. */
  type AsyncProcessor<!A, B> = (A, bool) -> UniTask<B>

  /** `IProcessor<TIn, TOut>.Process`. */
  type SyncProcessor<!A, B> = A -> SyncResult<B>

  /** `UniTask.FromCanceled`. */
  function FromCanceled<T>(): (t: UniTask<T>)
    ensures t.synchronous && t.outcome.Canceled?
  {
    UniTask(Canceled, true)
  }

  /** `UniTask.FromResult`. */
  function FromResult<T>(v: T): (t: UniTask<T>)
    ensures t.IsSucceeded() && t.outcome.value == v
  {
    UniTask(Ok(v), true)
  }

  /** The outcome a thrown exception gives a UniTask: UniTask records an
      `OperationCanceledException` as cancellation, any other one as a fault. */
  function ExceptionOutcome<T>(ex: Exception): (o: Outcome<T>)
    ensures o.Canceled? <==> ex.OperationCanceled?
    ensures o.Faulted? <==> ex.OtherException?
    ensures o.Faulted? ==> o.errorId == ex.id
  {
    match ex
    case OperationCanceled => Canceled
    case OtherException(id) => Faulted(id)
  }

  /** `UniTask.FromException`. */
  function FromException<T>(ex: Exception): (t: UniTask<T>)
    ensures t.synchronous && !t.outcome.Ok?
    ensures t.outcome == ExceptionOutcome(ex)
  {
    UniTask(ExceptionOutcome(ex), true)
  }

  /** The outcome of running a synchronous processing unit inside a UniTask. */
  function Lift<T>(r: SyncResult<T>): (o: Outcome<T>)
    ensures o.Ok? <==> r.Returned?
    ensures r.Returned? ==> o.value == r.value
    ensures r.Threw? ==> o == ExceptionOutcome(r.exception)
  {
    match r
    case Returned(v) => Ok(v)
    case Threw(ex) => ExceptionOutcome(ex)
  }

  /** Reference semantics of two stages run one after the other: a stage that
      did not succeed ends the chain with its own outcome; after a successful
      stage the cancellation token is checked, and only then does the next stage
      run on the value. */
  function Sequence<M, B>(first: Outcome<M>, ct: bool, next: M -> Outcome<B>): Outcome<B>
  {
    match first
    case Canceled => Canceled
    case Faulted(e) => Faulted(e)
    case Ok(m) => if ct then Canceled else next(m)
  }

  /** Sequencing is associative: grouping three stages either way gives the same
      outcome. */
  lemma SequenceAssociative<A, B, C>(o: Outcome<A>, ct: bool, g: A -> Outcome<B>, h: B -> Outcome<C>)
    ensures Sequence(Sequence(o, ct, g), ct, h) == Sequence(o, ct, m => Sequence(g(m), ct, h))
  {
  }
}
