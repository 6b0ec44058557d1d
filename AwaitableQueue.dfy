/** LinuxGpio/AwaitableQueue.cs: a FIFO queue guarded by a semaphore that is
    released once per enqueued item, with a one-way disposed flag. Threads
    are left out, so the semaphore is a count of permits and a wait that no
    one could ever end is reported as such instead of blocking. */
module AwaitableQueue {
  import opened Outcomes

  /** How long a wait may last: a finite number of milliseconds, or
      Timeout.InfiniteTimeSpan. */
  datatype Timeout = Finite(ms: nat) | Infinite

  /** The queue's contents, the semaphore's count and the disposed flag. */
  datatype QueueState<T> = QueueState(items: seq<T>, permits: nat, disposed: bool)

  /** A new queue: empty, no permits, not disposed. */
  function Empty<T>(): (q: QueueState<T>)
    ensures Valid(q) && |q.items| == 0 && !q.disposed
  {
    QueueState([], 0, false)
  }

  /** Each Release happens under the same lock as the Enqueue it follows, so
      without concurrent waiters the count equals the number of items. */
  predicate Valid<T>(q: QueueState<T>) {
    q.permits == |q.items|
  }

  /** Enqueue: fails on a disposed queue; otherwise the item goes to the tail
      and one permit is released. */
  function EnqueueStep<T>(q: QueueState<T>, item: T): (r: Result<QueueState<T>>)
    ensures r.Ok? <==> !q.disposed
    ensures r.Ok? ==> |r.value.items| == |q.items| + 1 && !r.value.disposed
                      && r.value.items[..|q.items|] == q.items && r.value.items[|q.items|] == item
    ensures r.Ok? && Valid(q) ==> Valid(r.value)
  {
    if q.disposed then Err(ObjectDisposed)
    else Ok(QueueState(q.items + [item], q.permits + 1, false))
  }

  /** What a call to WaitAndDequeue or WhenDequeue leads to. */
  datatype Dequeue<T> =
    | Dequeued(item: T, after: QueueState<T>)  // returns item, the queue becomes after
    | Blocks                                   // waits for a release that no one can make
    | Raised(error: Error)                     // throws, the queue is unchanged
    | TimedOut                                 // returns without an item (corrected form only)

  /** Queue.Dequeue: the head, or InvalidOperationException on an empty queue. */
  function TakeHead<T>(q: QueueState<T>): (r: Dequeue<T>)
    ensures |q.items| == 0 <==> r == Raised(InvalidOperation)
    ensures |q.items| > 0 ==> r == Dequeued(q.items[0], q.(items := q.items[1..]))
  {
    if |q.items| == 0 then Raised(InvalidOperation) else Dequeued(q.items[0], q.(items := q.items[1..]))
  }

  /** WaitAndDequeue(timeSpan, token) as written: ThrowIfDisposed, then
      SemaphoreSlim.Wait, which throws if the token is already cancelled,
      takes a permit if there is one, and otherwise waits: forever for an
      infinite timeout, or until the timeout ends. The result of the wait is
      not looked at, so a wait that timed out still calls Queue.Dequeue. */
  function WaitAndDequeueStep<T>(q: QueueState<T>, timeout: Timeout, cancelled: bool): (r: Dequeue<T>)
    ensures q.disposed ==> r == Raised(ObjectDisposed)
    ensures !q.disposed && cancelled ==> r == Raised(OperationCanceled)
    ensures !r.TimedOut?
  {
    if q.disposed then Raised(ObjectDisposed)
    else if cancelled then Raised(OperationCanceled)
    else if q.permits > 0 then TakeHead(q.(permits := q.permits - 1))
    else if timeout.Infinite? then Blocks
    else TakeHead(q)
  }

  /** Dispose: sets the flag; buffered items stay where they are. */
  function DisposeStep<T>(q: QueueState<T>): (r: QueueState<T>)
    ensures r.disposed && r.items == q.items
    ensures Valid(q) ==> Valid(r)
  {
    q.(disposed := true)
  }

  /** A successful dequeue takes the head, leaves the rest in order, and
      keeps the count equal to the length. */
  lemma WaitAndDequeueTakesHead<T>(q: QueueState<T>, timeout: Timeout)
    requires Valid(q) && !q.disposed && |q.items| > 0
    ensures WaitAndDequeueStep(q, timeout, false) == Dequeued(q.items[0], QueueState(q.items[1..], q.permits - 1, false))
    ensures Valid(WaitAndDequeueStep(q, timeout, false).after)
  {
  }

  /** With the semaphore count equal to the length, the wait never blocks or
      throws on a non-empty live queue, and on an empty one it blocks for an
      infinite timeout but, for a finite one, reaches Queue.Dequeue on the
      empty queue and throws InvalidOperationException: a timeout is never
      reported as such. */
  lemma EmptyWait<T>(q: QueueState<T>, timeout: Timeout)
    requires Valid(q) && !q.disposed && |q.items| == 0
    ensures timeout.Infinite? ==> WaitAndDequeueStep(q, timeout, false) == Blocks
    ensures timeout.Finite? ==> WaitAndDequeueStep(q, timeout, false) == Raised(InvalidOperation)
  {
  }

  /** The form a caller of the timeout overload would expect: a wait that
      times out returns without an item and leaves the queue as it was. */
  function TryDequeue<T>(q: QueueState<T>, timeout: Timeout, cancelled: bool): (r: Dequeue<T>)
    ensures r.TimedOut? <==> !q.disposed && !cancelled && q.permits == 0 && timeout.Finite?
  {
    if q.disposed then Raised(ObjectDisposed)
    else if cancelled then Raised(OperationCanceled)
    else if q.permits > 0 then TakeHead(q.(permits := q.permits - 1))
    else if timeout.Infinite? then Blocks
    else TimedOut
  }

  /** The two forms differ only where the wait times out; with an infinite
      timeout, as every caller in the library uses, they agree. */
  lemma TryDequeueAgrees<T>(q: QueueState<T>, timeout: Timeout, cancelled: bool)
    ensures !TryDequeue(q, timeout, cancelled).TimedOut? ==> TryDequeue(q, timeout, cancelled) == WaitAndDequeueStep(q, timeout, cancelled)
    ensures timeout.Infinite? ==> TryDequeue(q, timeout, cancelled) == WaitAndDequeueStep(q, timeout, cancelled)
    ensures TryDequeue(q, timeout, cancelled).TimedOut? && Valid(q) ==> WaitAndDequeueStep(q, timeout, cancelled) == Raised(InvalidOperation)
  {
  }

  /** Enqueueing a sequence of items, one call per item. */
  function EnqueueAll<T>(q: QueueState<T>, xs: seq<T>): (r: Result<QueueState<T>>)
    ensures |xs| > 0 ==> (r.Ok? <==> !q.disposed)
    ensures r.Ok? ==> r.value.items == q.items + xs && r.value.disposed == q.disposed && (Valid(q) ==> Valid(r.value))
    decreases |xs|
  {
    if |xs| == 0 then Ok(q)
    else match EnqueueStep(q, xs[0])
      case Err(e) => Err(e)
      case Ok(q') =>
        assert q'.items == q.items + [xs[0]];
        assert q.items + xs == q'.items + xs[1..];
        EnqueueAll(q', xs[1..])
  }

  /** Dequeueing n times with an infinite timeout, collecting the items. */
  function DequeueN<T>(q: QueueState<T>, n: nat): (r: Option<(seq<T>, QueueState<T>)>)
    decreases n
  {
    if n == 0 then Some(([], q))
    else match WaitAndDequeueStep(q, Infinite, false)
      case Dequeued(x, q') =>
        (match DequeueN(q', n - 1)
         case Some(p) => Some(([x] + p.0, p.1))
         case None => None)
      case _ => None
  }

  /** FIFO: after enqueueing xs into a live queue holding items, dequeueing
      as many times as there are items returns exactly items, in order, and
      leaves exactly xs queued. */
  lemma {:induction false} FirstInFirstOut<T>(q: QueueState<T>, xs: seq<T>)
    requires Valid(q) && !q.disposed
    ensures EnqueueAll(q, xs).Ok?
    ensures DequeueN(EnqueueAll(q, xs).value, |q.items|) == Some((q.items, QueueState(xs, |xs|, false)))
    decreases |q.items|
  {
    var q1 := EnqueueAll(q, xs).value;
    if |q.items| > 0 {
      var t := QueueState(q.items[1..], q.permits - 1, false);
      WaitAndDequeueTakesHead(q1, Infinite);
      assert q1.items[1..] == q.items[1..] + xs;
      FirstInFirstOut(t, xs);
      assert EnqueueAll(t, xs).value == QueueState(q1.items[1..], q1.permits - 1, false);
      assert [q.items[0]] + q.items[1..] == q.items;
    } else {
      assert q1.items == xs;
    }
  }

  /** After Dispose every operation throws ObjectDisposedException and
      nothing changes; disposing again changes nothing either. */
  lemma DisposedRejectsAll<T>(q: QueueState<T>, item: T, timeout: Timeout, cancelled: bool)
    ensures EnqueueStep(DisposeStep(q), item) == Err(ObjectDisposed)
    ensures WaitAndDequeueStep(DisposeStep(q), timeout, cancelled) == Raised(ObjectDisposed)
    ensures DisposeStep(DisposeStep(q)) == DisposeStep(q)
  {
  }

  /** The queue object: the three fields the C# class mutates. */
  class AwaitableQueue<T> {
    var items: seq<T>
    var permits: nat
    var isDisposed: bool

    function State(): QueueState<T>
      reads this
    {
      QueueState(items, permits, isDisposed)
    }

    constructor ()
      ensures State() == Empty() && Valid(State())
    {
      items := [];
      permits := 0;
      isDisposed := false;
    }

    /** Enqueue(item). */
    method Enqueue(item: T) returns (outcome: Outcome)
      modifies this
      ensures EnqueueStep(old(State()), item).Ok? ==> outcome == Done && State() == EnqueueStep(old(State()), item).value
      ensures EnqueueStep(old(State()), item).Err? ==> outcome == Fail(ObjectDisposed) && State() == old(State())
      ensures old(Valid(State())) ==> Valid(State())
    {
      if isDisposed {
        return Fail(ObjectDisposed);
      }
      items := items + [item];
      permits := permits + 1;
      outcome := Done;
    }

    /** WaitAndDequeue(timeSpan, cancellationToken), with the token's state
        as cancelled. When the call would block forever the state is left
        as it is and Blocks is returned. */
    method WaitAndDequeue(timeout: Timeout, cancelled: bool) returns (r: Dequeue<T>)
      requires Valid(State())
      modifies this
      ensures r == WaitAndDequeueStep(old(State()), timeout, cancelled)
      ensures r.Dequeued? ==> State() == r.after
      ensures !r.Dequeued? ==> State() == old(State())
      ensures Valid(State())
    {
      if isDisposed {
        return Raised(ObjectDisposed);
      }
      if cancelled {
        return Raised(OperationCanceled);
      }
      if permits == 0 && timeout.Infinite? {
        return Blocks;
      }
      if |items| == 0 {
        return Raised(InvalidOperation);
      }
      permits := permits - 1;
      r := Dequeued(items[0], QueueState(items[1..], permits, isDisposed));
      items := items[1..];
    }

    /** WhenDequeue: the awaited form; run sequentially it has the same steps. */
    method WhenDequeue(timeout: Timeout, cancelled: bool) returns (r: Dequeue<T>)
      requires Valid(State())
      modifies this
      ensures r == WaitAndDequeueStep(old(State()), timeout, cancelled)
      ensures r.Dequeued? ==> State() == r.after
      ensures !r.Dequeued? ==> State() == old(State())
      ensures Valid(State())
    {
      r := WaitAndDequeue(timeout, cancelled);
    }

    /** Dispose(): the flag is set and the items stay. */
    method Dispose()
      modifies this
      ensures State() == DisposeStep(old(State()))
    {
      isDisposed := true;
    }
  }
}
