/** The bounded queue as a sequence, and what one critical section of each call does to it. */
module QueueSpec {

  datatype Queue<T> = Queue(items: seq<T>, capacity: nat, shutdown: bool)

  /** How a critical section ends: the caller goes to sleep, is turned away because of the
      shutdown, or its operation takes effect. */
  datatype Outcome = Waits | Refused | Done

  /** How many threads asleep on the other condition variable are woken. */
  datatype Wake = Nobody | One | Everybody

  datatype PushCall<T> = PushOne(item: T) | PushMany(items: seq<T>)
  {
    function Batch(): seq<T> { if PushOne? then [item] else items }
  }

  datatype PopCall = PopOne | PopMany(max: int)
  {
    function Limit(): int { if PopOne? then 1 else max }
  }

  function PushOutcome<T>(q: Queue<T>, c: PushCall<T>): Outcome
  {
    if c.Batch() == [] then Done
    else if q.capacity - |q.items| < |c.Batch()| && !q.shutdown then Waits
    else if q.shutdown then Refused else Done
  }

  function AfterPush<T>(q: Queue<T>, c: PushCall<T>): Queue<T>
  {
    if PushOutcome(q, c).Done? then q.(items := q.items + c.Batch()) else q
  }

  function PushWake<T>(q: Queue<T>, c: PushCall<T>): Wake
  {
    if PushOutcome(q, c) != Done || c.Batch() == [] then Nobody else if c.PushOne? then One else Everybody
  }

  function PopOutcome<T>(q: Queue<T>, c: PopCall): Outcome
  {
    if q.items == [] then (if q.shutdown then Refused else Waits) else Done
  }

  /** What a pop hands over: a prefix of the queue. */
  function Popped<T>(q: Queue<T>, c: PopCall): seq<T>
  {
    if c.Limit() <= 0 then [] else if |q.items| < c.Limit() then q.items else q.items[..c.Limit()]
  }

  function AfterPop<T>(q: Queue<T>, c: PopCall): Queue<T> { q.(items := q.items[|Popped(q, c)|..]) }

  function PopWake<T>(q: Queue<T>, c: PopCall): Wake { if Popped(q, c) == [] then Nobody else One }

  function AfterShutdown<T>(q: Queue<T>): Queue<T> { q.(shutdown := true) }
}
