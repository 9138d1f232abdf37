/** One producer, one consumer and a thread that may shut the queue down, in any
    interleaving of their critical sections. */
module QueueProtocol {
  import opened QueueSpec

  /** `Trying` is a thread about to enter its critical section, for the first time or
      after it was woken; `Asleep` is in the waiting set of its condition variable. */
  datatype Thread<C> = Idle | Trying(call: C) | Asleep(call: C)

  /** `accepted` lists the batches that went in, `popped` what came out, and `ended` tells
      whether a pop has reported the end of the queue. */
  datatype State<T> = State(
    queue: Queue<T>,
    producer: Thread<PushCall<T>>,
    consumer: Thread<PopCall>,
    accepted: seq<seq<T>>,
    popped: seq<T>,
    ended: bool)

  datatype Step<T> =
    | StartPush(push: PushCall<T>)
    | StartPop(pop: PopCall)
    | Produce
    | Consume
    | Shutdown
    | SpuriousFull   // the producer wakes up without being woken
    | SpuriousEmpty  // the consumer does

  function Woken<C>(t: Thread<C>, w: Wake): Thread<C>
  {
    if t.Asleep? && !w.Nobody? then Trying(t.call) else t
  }

  ghost predicate Enabled<T>(s: State<T>, a: Step<T>)
  {
    match a
    case StartPush(_) => s.producer.Idle?
    case StartPop(_) => s.consumer.Idle?
    case Produce => s.producer.Trying?
    case Consume => s.consumer.Trying?
    case Shutdown => true
    case SpuriousFull => s.producer.Asleep?
    case SpuriousEmpty => s.consumer.Asleep?
  }

  ghost function Produced<T>(s: State<T>, c: PushCall<T>): State<T>
  {
    var q := s.queue;
    var r := PushOutcome(q, c);
    s.(queue := AfterPush(q, c),
       producer := if r.Waits? then Asleep(c) else Idle,
       consumer := Woken(s.consumer, PushWake(q, c)),
       accepted := if r.Done? then s.accepted + [c.Batch()] else s.accepted)
  }

  ghost function Consumed<T>(s: State<T>, c: PopCall): State<T>
  {
    var q := s.queue;
    var r := PopOutcome(q, c);
    s.(queue := if r.Done? then AfterPop(q, c) else q,
       consumer := if r.Waits? then Asleep(c) else Idle,
       producer := if r.Done? then Woken(s.producer, PopWake(q, c)) else s.producer,
       popped := if r.Done? then s.popped + Popped(q, c) else s.popped,
       ended := s.ended || r.Refused?)
  }

  ghost function After<T>(s: State<T>, a: Step<T>): State<T>
    requires Enabled(s, a)
  {
    match a
    case StartPush(c) => s.(producer := Trying(c))
    case StartPop(c) => s.(consumer := Trying(c))
    case Produce => Produced(s, s.producer.call)
    case Consume => Consumed(s, s.consumer.call)
    case Shutdown =>
      s.(queue := AfterShutdown(s.queue),
         producer := Woken(s.producer, Everybody), consumer := Woken(s.consumer, Everybody))
    case SpuriousFull => s.(producer := Trying(s.producer.call))
    case SpuriousEmpty => s.(consumer := Trying(s.consumer.call))
  }

  ghost function Start<T>(capacity: nat): State<T>
  {
    State(Queue([], capacity, false), Idle, Idle, [], [], false)
  }

  /** The steps `run` can be taken one after the other from `s`. */
  ghost predicate Runs<T>(s: State<T>, run: seq<Step<T>>)
    decreases run
  {
    run == [] || (Enabled(s, run[0]) && Runs(After(s, run[0]), run[1..]))
  }

  ghost function End<T>(s: State<T>, run: seq<Step<T>>): State<T>
    requires Runs(s, run)
    decreases run
  {
    if run == [] then s else End(After(s, run[0]), run[1..])
  }

  // ----- first in, first out -----

  ghost function Flat<T>(bs: seq<seq<T>>): seq<T>
  {
    if bs == [] then [] else Flat(bs[..|bs| - 1]) + bs[|bs| - 1]
  }

  lemma {:induction false} FlatMore<T>(bs: seq<seq<T>>, b: seq<T>)
    ensures Flat(bs + [b]) == Flat(bs) + b
  {
    assert (bs + [b])[..|bs|] == bs;
  }

  /** What went in, batch by batch, is what came out followed by what is still queued. */
  ghost predicate Fifo<T>(s: State<T>)
  {
    Flat(s.accepted) == s.popped + s.queue.items && |s.queue.items| <= s.queue.capacity
  }

  /** A thread asleep has reason to be. */
  ghost predicate NoMissedWakeup<T>(s: State<T>)
  {
    && (s.producer.Asleep? ==> PushOutcome(s.queue, s.producer.call).Waits?)
    && (s.consumer.Asleep? ==> PopOutcome(s.queue, s.consumer.call).Waits?)
  }

  /** The end is reported only when the queue is shut down and everything came out. */
  ghost predicate EndIsFinal<T>(s: State<T>)
  {
    s.ended ==> s.queue.shutdown && s.queue.items == []
  }

  ghost predicate Inv<T>(s: State<T>) { Fifo(s) && NoMissedWakeup(s) && EndIsFinal(s) }

  lemma {:induction false} ProducedFifo<T>(s: State<T>, c: PushCall<T>)
    requires Fifo(s)
    ensures Fifo(Produced(s, c))
  {
    FlatMore(s.accepted, c.Batch());
    assert (s.popped + s.queue.items) + c.Batch() == s.popped + (s.queue.items + c.Batch());
  }

  lemma {:induction false} ProducedInv<T>(s: State<T>, c: PushCall<T>)
    requires Inv(s) && s.producer == Trying(c)
    ensures Inv(Produced(s, c))
  {
    ProducedFifo(s, c);
    if c.Batch() == [] { assert s.queue.items + c.Batch() == s.queue.items; }
  }

  lemma {:induction false} ConsumedInv<T>(s: State<T>, c: PopCall)
    requires Inv(s) && s.consumer == Trying(c)
    ensures Inv(Consumed(s, c))
  {
    var q, p := s.queue, Popped(s.queue, c);
    if PopOutcome(q, c).Done? {
      assert q.items == p + q.items[|p|..];
      assert (s.popped + p) + q.items[|p|..] == s.popped + q.items;
      assert p == [] ==> q.items[|p|..] == q.items;
    }
  }

  lemma {:induction false} AfterInv<T>(s: State<T>, a: Step<T>)
    requires Inv(s) && Enabled(s, a)
    ensures Inv(After(s, a))
  {
    match a
    case Produce => ProducedInv(s, s.producer.call);
    case Consume => ConsumedInv(s, s.consumer.call);
    case _ =>
  }

  /** Order, wake-ups and the end report are right after every run of every interleaving. */
  lemma {:induction false} RunInv<T>(s: State<T>, run: seq<Step<T>>)
    requires Inv(s) && Runs(s, run)
    ensures Inv(End(s, run))
    decreases run
  {
    if run != [] {
      AfterInv(s, run[0]);
      RunInv(After(s, run[0]), run[1..]);
    }
  }

  lemma {:induction false} EveryRunIsSafe<T>(capacity: nat, run: seq<Step<T>>)
    requires Runs(Start(capacity), run)
    ensures var s := End(Start(capacity), run);
            && Fifo(s) && NoMissedWakeup(s) && EndIsFinal(s)
            && (s.queue.shutdown ==> !s.producer.Asleep? && !s.consumer.Asleep?)
  {
    RunInv(Start(capacity), run);
  }

  // ----- what a run never changes -----

  /** The capacity stays, a shutdown stays, and no history is rewritten. After a shutdown
      nothing more goes in, and after the end was reported nothing more comes out. */
  ghost predicate Keeps<T>(s: State<T>, s': State<T>)
  {
    && s'.queue.capacity == s.queue.capacity
    && (s.queue.shutdown ==> s'.queue.shutdown && Flat(s'.accepted) == Flat(s.accepted))
    && s.accepted <= s'.accepted && s.popped <= s'.popped
    && (s.ended ==> s'.ended && s'.popped == s.popped)
  }

  lemma {:induction false} ProducedKeeps<T>(s: State<T>, c: PushCall<T>)
    ensures Keeps(s, Produced(s, c))
  {
    FlatMore(s.accepted, c.Batch());
    assert s.queue.shutdown && c.Batch() == [] ==> Flat(s.accepted) + c.Batch() == Flat(s.accepted);
  }

  lemma {:induction false} ConsumedKeeps<T>(s: State<T>, c: PopCall)
    requires EndIsFinal(s)
    ensures Keeps(s, Consumed(s, c))
  {
    assert s.ended ==> PopOutcome(s.queue, c).Refused?;
  }

  lemma {:induction false} AfterKeeps<T>(s: State<T>, a: Step<T>)
    requires Inv(s) && Enabled(s, a)
    ensures Keeps(s, After(s, a))
  {
    match a
    case Produce => ProducedKeeps(s, s.producer.call);
    case Consume => ConsumedKeeps(s, s.consumer.call);
    case _ =>
  }

  lemma {:induction false} RunKeeps<T>(s: State<T>, run: seq<Step<T>>)
    requires Inv(s) && Runs(s, run)
    ensures Keeps(s, End(s, run))
    decreases run
  {
    if run != [] {
      AfterInv(s, run[0]);
      AfterKeeps(s, run[0]);
      RunKeeps(After(s, run[0]), run[1..]);
    }
  }

  /** When a pop has reported the end, everything accepted was handed over, and it stays so. */
  lemma {:induction false} EndMeansDrained<T>(capacity: nat, run: seq<Step<T>>, more: seq<Step<T>>)
    requires Runs(Start(capacity), run) && Runs(End(Start(capacity), run), more)
    requires End(Start(capacity), run).ended
    ensures var s := End(Start(capacity), run);
            var s' := End(s, more);
            s'.ended && s'.popped == s.popped == Flat(s.accepted) == Flat(s'.accepted) && s'.queue.items == []
  {
    var s := End(Start(capacity), run);
    RunInv(Start(capacity), run);
    RunInv(s, more);
    RunKeeps(s, more);
    assert s.popped + [] == s.popped;
  }

  // ----- what one step does -----

  /** A push that fits is taken at once, whole, and wakes the consumer. */
  lemma {:induction false} FittingPushIsTaken<T>(s: State<T>, c: PushCall<T>, batch: seq<T>)
    requires s.producer == Trying(c) && !s.queue.shutdown && |s.queue.items| + |batch| <= s.queue.capacity
    requires batch != [] && c == (if |batch| == 1 then PushOne(batch[0]) else PushMany(batch))
    ensures var s' := After(s, Produce);
            && s'.producer == Idle && s'.queue.items == s.queue.items + batch && s'.accepted == s.accepted + [batch]
            && !s'.consumer.Asleep?
  {
    if |batch| == 1 { assert [batch[0]] == batch; }
  }

  /** A batch pop with enough room hands over everything at once and wakes the producer. */
  lemma {:induction false} RoomyPopDrains<T>(s: State<T>, n: nat)
    requires s.consumer == Trying(PopMany(n)) && 0 < |s.queue.items| <= n
    ensures var s' := After(s, Consume);
            && s'.consumer == Idle && s'.queue.items == [] && s'.popped == s.popped + s.queue.items
            && !s'.producer.Asleep?
  {
  }

  /** Otherwise it hands over as many as it has room for, from the front. */
  lemma {:induction false} TightPopFills<T>(s: State<T>, n: nat)
    requires s.consumer == Trying(PopMany(n)) && n <= |s.queue.items| && s.queue.items != []
    ensures var s' := After(s, Consume);
            && s'.consumer == Idle && s'.queue.items == s.queue.items[n..] && s'.popped == s.popped + s.queue.items[..n]
  {
  }

  // ----- deadlock -----

  /** Both threads sleep, and only a shutdown or a spurious wake-up can move them. */
  ghost predicate Deadlocked<T>(s: State<T>) { s.producer.Asleep? && s.consumer.Asleep? }

  ghost predicate SmallBatches<T>(run: seq<Step<T>>, n: nat)
  {
    forall i :: 0 <= i < |run| && run[i].StartPush? ==> |run[i].push.Batch()| <= n
  }

  ghost predicate SmallCall<T>(s: State<T>, n: nat) { s.producer.Idle? || |s.producer.call.Batch()| <= n }

  lemma {:induction false} RunSmall<T>(s: State<T>, run: seq<Step<T>>, n: nat)
    requires Runs(s, run) && SmallBatches(run, n) && SmallCall(s, n)
    ensures SmallCall(End(s, run), n)
    decreases run
  {
    if run != [] {
      assert forall i :: 0 <= i < |run[1..]| ==> run[1..][i] == run[i + 1];
      RunSmall(After(s, run[0]), run[1..], n);
    }
  }

  /** While no batch exceeds the capacity, the two threads never sleep at the same time. */
  lemma {:induction false} NoDeadlock<T>(capacity: nat, run: seq<Step<T>>)
    requires Runs(Start(capacity), run) && SmallBatches(run, capacity)
    ensures !Deadlocked(End(Start(capacity), run))
  {
    RunInv(Start(capacity), run);
    RunKeeps(Start(capacity), run);
    RunSmall(Start(capacity), run, capacity);
  }

  ghost function Oversized<T>(b: seq<T>): seq<Step<T>>
  {
    [StartPush(PushMany(b)), Produce, StartPop(PopOne), Consume]
  }

  ghost predicate Sleeping<T>(s: State<T>, capacity: nat, b: seq<T>)
  {
    && s.queue == Queue([], capacity, false) && s.accepted == [] && s.popped == []
    && (s.producer == Asleep(PushMany(b)) || s.producer == Trying(PushMany(b)))
  }

  /** A batch above the capacity puts both threads to sleep. */
  lemma {:induction false} OversizedDeadlocks<T>(capacity: nat, b: seq<T>)
    requires |b| > capacity
    ensures Runs(Start(capacity), Oversized(b))
    ensures var s := End(Start(capacity), Oversized(b)); Deadlocked(s) && Sleeping(s, capacity, b)
  {
    var run, s0: State<T> := Oversized(b), Start(capacity);
    var s1 := After(s0, run[0]);
    var s2 := After(s1, run[1]);
    assert s2 == s0.(producer := Asleep(PushMany(b)));
    var s3 := After(s2, run[2]);
    var s4 := After(s3, run[3]);
    assert s4 == s2.(consumer := Asleep(PopOne));
    Unroll(s3, run[3..]);
    Unroll(s2, run[2..]);
    Unroll(s1, run[1..]);
    Unroll(s0, run);
  }

  lemma {:induction false} Unroll<T>(s: State<T>, run: seq<Step<T>>)
    requires run != [] && Enabled(s, run[0]) && Runs(After(s, run[0]), run[1..])
    ensures Runs(s, run) && End(s, run) == End(After(s, run[0]), run[1..])
  {
  }

  /** Nothing but a shutdown gets past an oversized batch: the producer's call never
      returns and no item is ever handed over. */
  lemma {:induction false} OversizedNeverReturns<T>(s: State<T>, capacity: nat, b: seq<T>, run: seq<Step<T>>)
    requires |b| > capacity && Sleeping(s, capacity, b) && Runs(s, run) && Shutdown !in run
    ensures Sleeping(End(s, run), capacity, b)
    decreases run
  {
    if run != [] {
      assert run[0] in run;
      OversizedNeverReturns(After(s, run[0]), capacity, b, run[1..]);
    }
  }

  /** The run deadlocks a fresh queue with batches of up to `n` items. */
  ghost predicate Deadlocks<T>(capacity: nat, n: nat, run: seq<Step<T>>)
  {
    Runs(Start(capacity), run) && SmallBatches(run, n) && Deadlocked(End(Start(capacity), run))
  }

  /** Batches of up to `n` items can deadlock exactly when `n` exceeds the capacity. */
  lemma {:induction false} DeadlockIff(capacity: nat, n: nat)
    ensures n > capacity <==> exists run: seq<Step<nat>> :: Deadlocks(capacity, n, run)
  {
    if n > capacity {
      var b: seq<nat> := seq(n, i => 0);
      OversizedDeadlocks(capacity, b);
      assert Deadlocks(capacity, n, Oversized(b));
    } else {
      forall run: seq<Step<nat>> | Runs(Start(capacity), run) && SmallBatches(run, n)
        ensures !Deadlocks(capacity, n, run)
      {
        assert SmallBatches(run, capacity);
        NoDeadlock(capacity, run);
      }
    }
  }
}
