/** A FreeRTOS queue as used by the LED manager: a bounded FIFO of items
    copied in by `xQueueSend` and out by `xQueueReceive`.  Both calls are
    made with `portMAX_DELAY`, so instead of failing they suspend the
    caller; the model reports that suspension as an outcome of its own. */
module RtosQueue {
  import opened Common

  datatype Queue<T> = Queue(capacity: nat, items: seq<T>)
  {
    /** A queue never holds more items than it was created for. */
    predicate Valid() { |items| <= capacity }

    predicate Full() { |items| >= capacity }
  }

  /** `xQueueCreate(length, itemSize)`. */
  function Create<T>(length: nat): (q: Queue<T>)
    ensures q.Valid() && q.capacity == length
    ensures q.items == []
  {
    Queue(length, [])
  }

  /** Result of a blocking send: either the item went in, or the queue was
      full and the sender stays suspended until a receiver makes room. */
  datatype SendOutcome<T> = Sent(queue: Queue<T>) | SendBlocked

  /** `xQueueSend(q, &x, portMAX_DELAY)`: appends at the back. */
  function Send<T>(q: Queue<T>, x: T): (r: SendOutcome<T>)
    requires q.Valid()
    ensures r.Sent? <==> !q.Full()
    ensures r.Sent? ==> r.queue.Valid() && r.queue.capacity == q.capacity
    ensures r.Sent? ==> |r.queue.items| == |q.items| + 1 && r.queue.items[|q.items|] == x
    ensures r.Sent? ==> r.queue.items[..|q.items|] == q.items
  {
    if q.Full() then SendBlocked else Sent(Queue(q.capacity, q.items + [x]))
  }

  /** `xQueueReceive(q, &x, portMAX_DELAY)`: takes the front item, or
      returns `None` when the queue is empty (the receiver stays suspended). */
  function Receive<T>(q: Queue<T>): (r: Option<(T, Queue<T>)>)
    requires q.Valid()
    ensures r.None? <==> q.items == []
    ensures r.Some? ==> r.value.1.Valid() && r.value.1.capacity == q.capacity
    ensures r.Some? ==> [r.value.0] + r.value.1.items == q.items
  {
    if q.items == [] then None else Some((q.items[0], Queue(q.capacity, q.items[1..])))
  }

  /** Everything a receiver gets by calling `Receive` until the queue is
      empty, in the order it gets it. */
  function Drain<T>(q: Queue<T>): (r: seq<T>)
    ensures |r| == |q.items|
    requires q.Valid()
    decreases |q.items|
  {
    match Receive(q)
    case None => []
    case Some((x, rest)) => [x] + Drain(rest)
  }

  /** Receivers see items in exactly the order they were sent. */
  lemma {:induction false} DrainIsSendOrder<T>(q: Queue<T>)
    requires q.Valid()
    ensures Drain(q) == q.items
    decreases |q.items|
  {
    match Receive(q)
    case None =>
    case Some((x, rest)) =>
      DrainIsSendOrder(rest);
  }

  /** FIFO: an item sent now is received after everything already queued. */
  lemma SendIsReceivedLast<T>(q: Queue<T>, x: T)
    requires q.Valid() && !q.Full()
    ensures Send(q, x).Sent?
    ensures Drain(Send(q, x).queue) == Drain(q) + [x]
  {
    DrainIsSendOrder(q);
    DrainIsSendOrder(Send(q, x).queue);
  }
}
