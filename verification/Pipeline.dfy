/** From the profiler to the database writer: the producer's batch buffer, the queue, and
    the loop of the writer thread, down to the reads that decide when the writer stops. */
module Pipeline {
  import opened QueueSpec

  datatype Entry = Entry(timestamp: nat, stack: string)

  const MAX_BATCH: nat := 4096

  /** The number of buffered entries that triggers a flush. */
  function Threshold(configured: int): (n: nat)
    ensures 0 < configured <= 4096 ==> n == configured
    ensures configured <= 0 || configured > 4096 ==> n == 4096
  {
    if configured <= 0 || configured > MAX_BATCH then MAX_BATCH else configured
  }

  datatype Config = Config(producerBatch: int, writerBatch: nat, capacity: nat)
  {
    function Limit(): nat { Threshold(producerBatch) }
    ghost predicate Ok() { 0 < writerBatch && 0 < capacity }
  }

  /** Where the producer's thread is. `Flushing` is inside the push of the whole buffer,
      awake or asleep, on behalf of a push or of the stop. */
  datatype Producer = Ready | Flushing(asleep: bool, stop: bool) | Stopped | Flushed | Finished

  /** Where the writer's thread is: about to read the running flag, about to read the queue
      size, inside a batch pop, back from one that brought nothing, or gone. */
  datatype Writer = TestRunning | TestSize | Popping(asleep: bool) | Nothing | Exited

  datatype State = State(
    queue: Queue<Entry>,
    buffer: seq<Entry>,
    running: bool,
    producer: Producer,
    writer: Writer,
    pushed: seq<Entry>,
    popped: seq<Entry>,
    left: seq<Entry>)  // what the producer's buffer held when the writer exited

  datatype Step =
    | PushStack(entry: Entry) | BeginStop | StopFlush | Produce | SignalShutdown | SpuriousFull
    | ReadRunning | ReadSize | Consume | CheckRunning | SpuriousEmpty
  {
    predicate ByWriter() { ReadRunning? || ReadSize? || Consume? || CheckRunning? }
  }

  function Start(c: Config): State { State(Queue([], c.capacity, false), [], true, Ready, TestRunning, [], [], []) }

  ghost predicate Enabled(s: State, a: Step)
  {
    match a
    case PushStack(_) => s.producer.Ready? || s.producer.Finished?
    case BeginStop => s.producer.Ready?
    case StopFlush => s.producer.Stopped?
    case Produce => s.producer.Flushing? && !s.producer.asleep
    case SignalShutdown => s.producer.Flushed?
    case SpuriousFull => s.producer.Flushing? && s.producer.asleep
    case ReadRunning => s.writer.TestRunning?
    case ReadSize => s.writer.TestSize?
    case Consume => s.writer.Popping? && !s.writer.asleep
    case CheckRunning => s.writer.Nothing?
    case SpuriousEmpty => s.writer.Popping? && s.writer.asleep
  }

  function WakeWriter(w: Writer, k: Wake): Writer { if w.Popping? && !k.Nobody? then Popping(false) else w }

  function WakeProducer(p: Producer, k: Wake): Producer
  {
    if p.Flushing? && !k.Nobody? then Flushing(false, p.stop) else p
  }

  /** Buffers one entry; a full buffer is flushed before the call returns. */
  function Stored(c: Config, s: State, e: Entry): State
  {
    if !s.running then s else
    var b := s.buffer + [e];
    s.(buffer := b, pushed := s.pushed + [e], producer := if |b| >= c.Limit() then Flushing(false, false) else Ready)
  }

  /** The critical section of a flush. The buffer is cleared even if the queue refuses it. */
  function Produced(s: State, stop: bool): State
  {
    var call := PushMany(s.buffer);
    if PushOutcome(s.queue, call).Waits? then s.(producer := Flushing(true, stop)) else
    s.(queue := AfterPush(s.queue, call), buffer := [], producer := if stop then Flushed else Ready,
       writer := WakeWriter(s.writer, PushWake(s.queue, call)))
  }

  function Consumed(c: Config, s: State): State
  {
    var call := PopMany(c.writerBatch);
    match PopOutcome(s.queue, call)
    case Waits => s.(writer := Popping(true))
    case Refused => s.(writer := Nothing)
    case Done =>
      s.(queue := AfterPop(s.queue, call), popped := s.popped + Popped(s.queue, call),
         producer := WakeProducer(s.producer, PopWake(s.queue, call)),
         writer := if Popped(s.queue, call) == [] then Nothing else TestRunning)
  }

  function Leave(s: State): State { s.(writer := Exited, left := s.buffer) }

  ghost function After(c: Config, s: State, a: Step): State
    requires Enabled(s, a)
  {
    match a
    case PushStack(e) => Stored(c, s, e)
    case BeginStop => s.(running := false, producer := Stopped)
    case StopFlush => s.(producer := if s.buffer == [] then Flushed else Flushing(false, true))
    case Produce => Produced(s, s.producer.stop)
    case SignalShutdown =>
      s.(queue := AfterShutdown(s.queue), producer := Finished, writer := WakeWriter(s.writer, Everybody))
    case SpuriousFull => s.(producer := Flushing(false, s.producer.stop))
    case ReadRunning => s.(writer := if s.running then Popping(false) else TestSize)
    case ReadSize => if |s.queue.items| > 0 then s.(writer := Popping(false)) else Leave(s)
    case Consume => Consumed(c, s)
    case CheckRunning => if s.running then s.(writer := TestRunning) else Leave(s)
    case SpuriousEmpty => s.(writer := Popping(false))
  }

  ghost predicate Runs(c: Config, s: State, run: seq<Step>)
    decreases run
  {
    run == [] || (Enabled(s, run[0]) && Runs(c, After(c, s, run[0]), run[1..]))
  }

  ghost function End(c: Config, s: State, run: seq<Step>): State
    requires Runs(c, s, run)
    decreases run
  {
    if run == [] then s else End(c, After(c, s, run[0]), run[1..])
  }

  // ----- the invariant -----

  /** Every entry pushed is popped, queued or buffered, in order. */
  ghost predicate Conserved(s: State) { s.pushed == s.popped + s.queue.items + s.buffer }

  ghost predicate Bounded(c: Config, s: State)
  {
    && s.queue.capacity == c.capacity && |s.queue.items| <= c.capacity && |s.buffer| <= c.Limit()
    && (s.producer.Ready? ==> |s.buffer| < c.Limit())
    && (s.producer.Flushing? ==> s.buffer != [])
    && (s.producer.Flushed? || s.producer.Finished? ==> s.buffer == [])
  }

  ghost predicate Flags(s: State)
  {
    && (s.running <==> s.producer.Ready? || (s.producer.Flushing? && !s.producer.stop))
    && (s.queue.shutdown <==> s.producer.Finished?)
  }

  /** A thread asleep has reason to be. */
  ghost predicate NoMissedWakeup(s: State)
  {
    && (s.producer.Flushing? && s.producer.asleep ==> PushOutcome(s.queue, PushMany(s.buffer)).Waits?)
    && (s.writer.Popping? && s.writer.asleep ==> s.queue.items == [] && !s.queue.shutdown)
  }

  ghost predicate WriterKnows(s: State)
  {
    && (!s.writer.Exited? ==> s.left == [])
    && match s.writer
    case TestSize => !s.running
    case Nothing => s.queue.shutdown && s.queue.items == []
    case Exited => !s.running && s.queue.items + s.buffer == s.left && (s.queue.items == [] || s.buffer == [])
    case _ => true
  }

  ghost predicate Inv(c: Config, s: State)
  {
    Conserved(s) && Bounded(c, s) && Flags(s) && NoMissedWakeup(s) && WriterKnows(s)
  }

  lemma {:induction false} StoredInv(c: Config, s: State, e: Entry)
    requires Inv(c, s) && (s.producer.Ready? || s.producer.Finished?)
    ensures Inv(c, Stored(c, s, e))
  {
    assert s.popped + s.queue.items + s.buffer + [e] == s.popped + s.queue.items + (s.buffer + [e]);
  }

  lemma {:induction false} ProducedInv(c: Config, s: State)
    requires Inv(c, s) && s.producer.Flushing? && !s.producer.asleep
    ensures Inv(c, Produced(s, s.producer.stop))
  {
    var b := s.buffer;
    assert s.popped + s.queue.items + b == s.popped + (s.queue.items + b) + [];
    if s.queue.items == [] { assert s.queue.items + b == b + []; }
  }

  lemma {:induction false} PoppedParts(q: Queue<Entry>, n: nat)
    requires 0 < n
    ensures var p := Popped(q, PopMany(n));
            p + q.items[|p|..] == q.items && (q.items != [] ==> p != [])
  {
  }

  lemma {:induction false} ConsumedInv(c: Config, s: State)
    requires c.Ok() && Inv(c, s) && s.writer.Popping? && !s.writer.asleep
    ensures Inv(c, Consumed(c, s))
  {
    PoppedParts(s.queue, c.writerBatch);
    var p := Popped(s.queue, PopMany(c.writerBatch));
    assert (s.popped + p) + s.queue.items[|p|..] == s.popped + (p + s.queue.items[|p|..]);
  }

  lemma {:induction false} LeaveInv(c: Config, s: State)
    requires Inv(c, s) && s.queue.items == [] && !s.running
    ensures Inv(c, Leave(s))
  {
    assert s.queue.items + s.buffer == s.buffer;
  }

  lemma {:induction false} AfterInv(c: Config, s: State, a: Step)
    requires c.Ok() && Inv(c, s) && Enabled(s, a)
    ensures Inv(c, After(c, s, a))
  {
    match a
    case PushStack(e) => StoredInv(c, s, e);
    case Produce => ProducedInv(c, s);
    case Consume => ConsumedInv(c, s);
    case ReadSize => if |s.queue.items| == 0 { LeaveInv(c, s); }
    case CheckRunning => if !s.running { LeaveInv(c, s); }
    case _ =>
  }

  lemma {:induction false} RunInv(c: Config, s: State, run: seq<Step>)
    requires c.Ok() && Inv(c, s) && Runs(c, s, run)
    ensures Inv(c, End(c, s, run))
    decreases run
  {
    if run != [] {
      AfterInv(c, s, run[0]);
      RunInv(c, After(c, s, run[0]), run[1..]);
    }
  }

  /** In every interleaving the entries are conserved in order, and between calls the
      producer's buffer stays below the threshold, so it never overflows. */
  lemma {:induction false} EveryRunConserves(c: Config, run: seq<Step>)
    requires c.Ok() && Runs(c, Start(c), run)
    ensures var s := End(c, Start(c), run);
            && s.pushed == s.popped + s.queue.items + s.buffer
            && (s.producer.Ready? ==> |s.buffer| < c.Limit() <= MAX_BATCH)
  {
    RunInv(c, Start(c), run);
  }

  // ----- what the writer leaves behind -----

  lemma {:induction false} ExitIsFinal(c: Config, s: State, run: seq<Step>)
    requires c.Ok() && Inv(c, s) && Runs(c, s, run) && s.writer.Exited?
    ensures var e := End(c, s, run);
            e.writer.Exited? && e.popped == s.popped && e.pushed == s.pushed && e.left == s.left
    decreases run
  {
    if run != [] {
      AfterInv(c, s, run[0]);
      ExitIsFinal(c, After(c, s, run[0]), run[1..]);
    }
  }

  /** What the writer leaves behind is exactly what the producer's buffer held when the
      writer took its decision to exit. */
  lemma {:induction false} LeftBehind(c: Config, s: State)
    requires Inv(c, s) && s.writer.Exited?
    ensures s.pushed == s.popped + s.left
    ensures s.popped == s.pushed <==> s.left == []
  {
    assert s.popped + s.queue.items + s.buffer == s.popped + (s.queue.items + s.buffer);
    assert s.popped + [] == s.popped;
  }

  /** If the last test of the writer comes after the shutdown, every entry was popped
      exactly once and in order, now and in all that follows. */
  lemma {:induction false} ExitAfterShutdown(c: Config, run: seq<Step>, a: Step, more: seq<Step>)
    requires c.Ok() && Runs(c, Start(c), run)
    requires var s := End(c, Start(c), run);
             && s.queue.shutdown && Enabled(s, a) && Runs(c, After(c, s, a), more)
             && !s.writer.Exited? && After(c, s, a).writer.Exited?
    ensures var e := End(c, After(c, End(c, Start(c), run), a), more); e.popped == e.pushed
  {
    RunInv(c, Start(c), run);
    var s := End(c, Start(c), run);
    AfterInv(c, s, a);
    LeftBehind(c, After(c, s, a));
    ExitIsFinal(c, After(c, s, a), more);
  }

  // ----- when a stop can lose entries -----

  /** The run ends with the writer gone and entries missing, for good. */
  ghost predicate Loses(c: Config, s: State, run: seq<Step>)
  {
    Runs(c, s, run) && End(c, s, run).writer.Exited? && End(c, s, run).popped != End(c, s, run).pushed
  }

  /** After the stop began, nothing is buffered, or the writer waits on an empty queue for
      what the stop will flush. */
  ghost predicate Harmless(s: State)
  {
    && !s.running && s.left == []
    && (s.buffer == [] || (s.writer.Popping? && s.queue.items == []))
  }

  lemma {:induction false} AfterHarmless(c: Config, s: State, a: Step)
    requires c.Ok() && Inv(c, s) && Enabled(s, a) && Harmless(s)
    ensures Harmless(After(c, s, a))
  {
    match a
    case Produce => assert PushOutcome(s.queue, PushMany(s.buffer)).Waits? || Produced(s, s.producer.stop).buffer == [];
    case Consume => assert s.queue.items == [] ==> !PopOutcome(s.queue, PopMany(c.writerBatch)).Done?;
    case _ =>
  }

  lemma {:induction false} RunHarmless(c: Config, s: State, run: seq<Step>)
    requires c.Ok() && Inv(c, s) && Runs(c, s, run) && Harmless(s)
    ensures Harmless(End(c, s, run)) && Inv(c, End(c, s, run))
    decreases run
  {
    if run != [] {
      AfterInv(c, s, run[0]);
      AfterHarmless(c, s, run[0]);
      RunHarmless(c, After(c, s, run[0]), run[1..]);
    }
  }

  /** The writer can run ahead of the flush: it empties the queue and leaves. */
  ghost function RaceToExit(c: Config, s: State): seq<Step>
    requires c.Ok() && Inv(c, s) && s.producer.Stopped? && s.buffer != []
    requires s.writer.TestRunning? || s.writer.TestSize? || (s.writer == Popping(false) && s.queue.items != [])
    decreases |s.queue.items|, match s.writer case TestRunning => 2 case TestSize => 1 case _ => 0
  {
    if s.writer.TestRunning? then
      AfterInv(c, s, ReadRunning);
      [ReadRunning] + RaceToExit(c, After(c, s, ReadRunning))
    else if s.writer.TestSize? then
      if s.queue.items == [] then [ReadSize]
      else AfterInv(c, s, ReadSize); [ReadSize] + RaceToExit(c, After(c, s, ReadSize))
    else
      PoppedParts(s.queue, c.writerBatch);
      AfterInv(c, s, Consume);
      [Consume] + RaceToExit(c, After(c, s, Consume))
  }

  lemma {:induction false} Unroll(c: Config, s: State, a: Step, run: seq<Step>)
    requires Enabled(s, a) && Runs(c, After(c, s, a), run)
    ensures Runs(c, s, [a] + run) && End(c, s, [a] + run) == End(c, After(c, s, a), run)
  {
    assert ([a] + run)[1..] == run;
  }

  lemma {:induction false} RaceLoses(c: Config, s: State)
    requires c.Ok() && Inv(c, s) && s.producer.Stopped? && s.buffer != []
    requires s.writer.TestRunning? || s.writer.TestSize? || (s.writer == Popping(false) && s.queue.items != [])
    ensures Loses(c, s, RaceToExit(c, s))
    decreases |s.queue.items|, match s.writer case TestRunning => 2 case TestSize => 1 case _ => 0
  {
    PoppedParts(s.queue, c.writerBatch);
    var a := if s.writer.TestRunning? then ReadRunning else if s.writer.TestSize? then ReadSize else Consume;
    var s' := After(c, s, a);
    AfterInv(c, s, a);
    if s'.writer.Exited? {
      LeftBehind(c, s');
      assert Runs(c, s', []);
      Unroll(c, s, a, []);
    } else {
      RaceLoses(c, s');
      Unroll(c, s, a, RaceToExit(c, s'));
    }
  }

  /** A stop can lose entries exactly when some are still buffered and the writer is not
      already waiting on the empty queue. */
  lemma {:induction false} StopCanLoseIff(c: Config, s: State)
    requires c.Ok() && Inv(c, s) && s.producer.Ready?
    ensures (exists run :: Loses(c, After(c, s, BeginStop), run)) <==>
              s.buffer != [] && (s.writer.TestRunning? || s.queue.items != [])
  {
    var s' := After(c, s, BeginStop);
    AfterInv(c, s, BeginStop);
    if s.buffer != [] && (s.writer.TestRunning? || s.queue.items != []) {
      RaceLoses(c, s');
    } else {
      forall run | Runs(c, s', run)
        ensures !Loses(c, s', run)
      {
        RunHarmless(c, s', run);
        var e := End(c, s', run);
        if e.writer.Exited? { LeftBehind(c, e); }
      }
    }
  }

  // ----- deadlock -----

  /** The producer sleeps and nobody is left to wake it. */
  ghost predicate Deadlocked(s: State)
  {
    s.producer.Flushing? && s.producer.asleep && (s.writer.Exited? || (s.writer.Popping? && s.writer.asleep))
  }

  ghost predicate Deadlocks(c: Config, run: seq<Step>) { Runs(c, Start(c), run) && Deadlocked(End(c, Start(c), run)) }

  lemma {:induction false} NoDeadlock(c: Config, run: seq<Step>)
    requires c.Ok() && c.Limit() <= c.capacity && Runs(c, Start(c), run)
    ensures !Deadlocked(End(c, Start(c), run))
  {
    RunInv(c, Start(c), run);
  }

  /** The state after `n` entries were buffered and nothing else happened. */
  ghost function Filled(c: Config, b: seq<Entry>): State
  {
    Start(c).(buffer := b, pushed := b, producer := if |b| >= c.Limit() then Flushing(false, false) else Ready)
  }

  /** Fills the buffer up to the threshold and lets both threads go to sleep. */
  ghost function FillUp(c: Config, b: seq<Entry>): seq<Step>
    requires |b| <= c.Limit()
    decreases c.Limit() - |b|
  {
    var e := Entry(0, "");
    if |b| == c.Limit() then [Produce, ReadRunning, Consume] else [PushStack(e)] + FillUp(c, b + [e])
  }

  lemma {:induction false} FillDeadlocks(c: Config, b: seq<Entry>)
    requires |b| <= c.Limit() && c.Limit() > c.capacity
    ensures Runs(c, Filled(c, b), FillUp(c, b)) && Deadlocked(End(c, Filled(c, b), FillUp(c, b)))
    decreases c.Limit() - |b|
  {
    var s, e := Filled(c, b), Entry(0, "");
    if |b| == c.Limit() {
      var s1 := After(c, s, Produce);
      assert s1 == s.(producer := Flushing(true, false));
      var s2 := After(c, s1, ReadRunning);
      var s3 := After(c, s2, Consume);
      assert s3 == s1.(writer := Popping(true));
      assert Runs(c, s3, []);
      Unroll(c, s2, Consume, []);
      Unroll(c, s1, ReadRunning, [Consume]);
      Unroll(c, s, Produce, [ReadRunning, Consume]);
      assert FillUp(c, b) == [Produce] + ([ReadRunning] + [Consume]);
    } else {
      assert After(c, s, PushStack(e)) == Filled(c, b + [e]);
      FillDeadlocks(c, b + [e]);
      Unroll(c, s, PushStack(e), FillUp(c, b + [e]));
    }
  }

  /** The pipeline can deadlock exactly when the flush threshold exceeds the capacity. */
  lemma {:induction false} DeadlockIff(c: Config)
    requires c.Ok()
    ensures (exists run :: Deadlocks(c, run)) <==> c.Limit() > c.capacity
  {
    if c.Limit() > c.capacity {
      FillDeadlocks(c, []);
      assert Filled(c, []) == Start(c);
      assert Deadlocks(c, FillUp(c, []));
    } else {
      forall run | Runs(c, Start(c), run)
        ensures !Deadlocks(c, run)
      {
        NoDeadlock(c, run);
      }
    }
  }

  /** In the configured numbers: a deadlock is reachable if and only if the effective batch
      size exceeds the capacity of the queue. */
  lemma {:induction false} ConfiguredDeadlockIff(producerBatch: int, writerBatch: nat, capacity: nat)
    requires 0 < writerBatch && 0 < capacity
    ensures (exists run :: Deadlocks(Config(producerBatch, writerBatch, capacity), run)) <==>
              (if 0 < producerBatch <= 4096 then producerBatch else 4096) > capacity
  {
    DeadlockIff(Config(producerBatch, writerBatch, capacity));
  }

  /** The default configuration never deadlocks; the largest one that is accepted can. */
  lemma {:induction false} DefaultNeverDeadlocks()
    ensures !exists run :: Deadlocks(Config(96, 96, 1024), run)
    ensures exists run :: Deadlocks(Config(4096, 96, 1024), run)
  {
    ConfiguredDeadlockIff(96, 96, 1024);
    ConfiguredDeadlockIff(4096, 96, 1024);
  }

  /** A writer with enough room empties the queue in one pop. */
  lemma {:induction false} RoomyWriterDrains(c: Config, s: State)
    requires s.writer == Popping(false) && 0 < |s.queue.items| <= c.writerBatch
    ensures var s' := After(c, s, Consume);
            s'.queue.items == [] && s'.popped == s.popped + s.queue.items && s'.writer == TestRunning
  {
  }

  // ----- the writer terminates -----

  /** An upper bound on the steps the writer still takes after the shutdown. */
  ghost function Rank(s: State): nat
  {
    match s.writer
    case TestRunning => 3 * |s.queue.items| + 5
    case TestSize => 3 * |s.queue.items| + 4
    case Popping(_) => 3 * |s.queue.items| + 3
    case Nothing => 1
    case Exited => 0
  }

  ghost function WriterSteps(run: seq<Step>): nat
  {
    if run == [] then 0 else (if run[0].ByWriter() then 1 else 0) + WriterSteps(run[1..])
  }

  lemma {:induction false} RankStep(c: Config, s: State, a: Step)
    requires c.Ok() && Inv(c, s) && s.queue.shutdown && Enabled(s, a)
    ensures var s' := After(c, s, a);
            s'.queue.shutdown && Rank(s') <= Rank(s) && (a.ByWriter() ==> Rank(s') < Rank(s))
  {
    PoppedParts(s.queue, c.writerBatch);
  }

  /** After the shutdown the writer is awake until it exits, with a step to take, and it
      exits after a number of steps bounded by what is queued. */
  lemma {:induction false} WriterFinishes(c: Config, s: State, run: seq<Step>)
    requires c.Ok() && Inv(c, s) && s.queue.shutdown && Runs(c, s, run)
    ensures var e := End(c, s, run);
            && WriterSteps(run) + Rank(e) <= Rank(s)
            && (WriterSteps(run) == Rank(s) ==> e.writer.Exited?)
            && (!e.writer.Exited? ==> exists a: Step :: a.ByWriter() && Enabled(e, a))
    decreases run
  {
    if run != [] {
      AfterInv(c, s, run[0]);
      RankStep(c, s, run[0]);
      WriterFinishes(c, After(c, s, run[0]), run[1..]);
    } else if !s.writer.Exited? {
      var a := match s.writer
               case TestRunning => ReadRunning
               case TestSize => ReadSize
               case Nothing => CheckRunning
               case _ => Consume;
      assert a.ByWriter() && Enabled(s, a);
    }
  }

  // ----- the producer's buffer -----

  class BatchBuffer {
    const slots: array<Entry>
    var count: nat

    ghost predicate Valid()
      reads this
    {
      slots.Length == MAX_BATCH && count <= MAX_BATCH
    }

    ghost function Pending(): seq<Entry>
      requires Valid()
      reads this, slots
    {
      slots[..count]
    }

    constructor ()
      ensures Valid() && Pending() == [] && fresh(slots)
    {
      slots := new Entry[MAX_BATCH](_ => Entry(0, ""));
      count := 0;
    }

    /** Stores one entry and tells whether the buffer must be flushed now, as the step of
        the pipeline says. */
    method Store(e: Entry, configured: int) returns (flush: bool)
      requires Valid() && count < Threshold(configured)
      modifies this`count, slots
      ensures Valid() && Pending() == old(Pending()) + [e] && flush == (|Pending()| >= Threshold(configured))
      ensures flush <==> |Pending()| >= if 0 < configured <= 4096 then configured else 4096
      ensures !flush ==> count < Threshold(configured)
      ensures forall c: Config, s: State :: c.producerBatch == configured && s.running && s.buffer == old(Pending()) ==>
                Stored(c, s, e).buffer == Pending() && (Stored(c, s, e).producer.Flushing? <==> flush)
    {
      slots[count] := e;
      count := count + 1;
      var limit := configured;
      if limit <= 0 || limit > MAX_BATCH { limit := MAX_BATCH; }
      flush := count > 0 && count >= limit;
    }

    /** Hands over what is pending to a push that does not wait; the buffer is empty
        afterwards, as the step of the pipeline says. */
    method Flush() returns (batch: seq<Entry>)
      requires Valid()
      modifies this`count
      ensures Valid() && batch == old(Pending()) && Pending() == []
      ensures forall s: State, stop: bool ::
                s.buffer == old(Pending()) && !PushOutcome(s.queue, PushMany(batch)).Waits? ==>
                  Produced(s, stop).buffer == Pending() &&
                    Produced(s, stop).queue == AfterPush(s.queue, PushMany(batch))
    {
      batch := slots[..count];
      count := 0;
    }
  }
}
