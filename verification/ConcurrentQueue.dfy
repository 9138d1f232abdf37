/** The circular buffer behind the queue. Each method is the critical section of one call,
    entered for the first time or after a wake-up. */
module ConcurrentQueue {
  import opened QueueSpec
  import opened Circular

  class Ring<T(0)> {
    const buffer: array<T>
    const capacity: nat
    var size: nat
    var head: nat
    var tail: nat
    var shutdown: bool

    ghost predicate Valid()
      reads this
    {
      buffer.Length == capacity && size <= capacity && head < capacity && tail == Wrap(head + size, capacity)
    }

    ghost function Contents(): seq<T>
      requires Valid()
      reads this, buffer
    {
      Window(buffer[..], head, size)
    }

    ghost function Abs(): Queue<T>
      requires Valid()
      reads this, buffer
    {
      Queue(Contents(), capacity, shutdown)
    }

    constructor (capacity: nat)
      requires 0 < capacity
      ensures Valid() && Abs() == Queue([], capacity, false) && fresh(buffer)
    {
      buffer := new T[capacity];
      this.capacity := capacity;
      size, head, tail, shutdown := 0, 0, 0, false;
    }

    /** Stores one item at the tail. */
    method Put(x: T)
      requires Valid() && size < capacity
      modifies this`tail, this`size, buffer
      ensures Valid() && Contents() == old(Contents()) + [x] && size == old(size) + 1
    {
      WindowPush(buffer[..], head, size, x, tail);
      Around(tail + 1, capacity);
      buffer[tail] := x;
      tail := (tail + 1) % capacity;
      size := size + 1;
    }

    /** Takes one item from the head. */
    method Take() returns (x: T)
      requires Valid() && 0 < size
      modifies this`head, this`size
      ensures Valid() && old(Contents()) == [x] + Contents() && size == old(size) - 1
    {
      x := buffer[head];
      Around(head + 1, capacity);
      head := (head + 1) % capacity;
      size := size - 1;
    }

    method Push(x: T) returns (r: Outcome, w: Wake)
      requires Valid()
      modifies this`tail, this`size, buffer
      ensures Valid() && Abs() == AfterPush(old(Abs()), PushOne(x))
      ensures r == PushOutcome(old(Abs()), PushOne(x)) && w == PushWake(old(Abs()), PushOne(x))
      ensures r == if shutdown then Refused else if old(size) < capacity then Done else Waits
      ensures Contents() == old(Contents()) + (if r == Done then [x] else []) && w == if r == Done then One else Nobody
    {
      WindowLength(buffer[..], head, size);
      if size == capacity && !shutdown { return Waits, Nobody; }
      if shutdown { return Refused, Nobody; }
      Put(x);
      return Done, One;
    }

    method Pop() returns (r: Outcome, item: seq<T>, w: Wake)
      requires Valid()
      modifies this`head, this`size
      ensures Valid() && Abs() == AfterPop(old(Abs()), PopOne) && item == Popped(old(Abs()), PopOne)
      ensures r == PopOutcome(old(Abs()), PopOne) && w == PopWake(old(Abs()), PopOne)
      ensures r == if old(size) > 0 then Done else if shutdown then Refused else Waits
      ensures |item| == (if r == Done then 1 else 0) && old(Contents()) == item + Contents()
      ensures w == if r == Done then One else Nobody
    {
      WindowLength(buffer[..], head, size);
      if size == 0 && !shutdown { return Waits, [], Nobody; }
      if shutdown && size == 0 { return Refused, [], Nobody; }
      var x := Take();
      return Done, [x], One;
    }

    /** Stores the whole batch or nothing. */
    method PushBatch(items: seq<T>) returns (r: Outcome, w: Wake)
      requires Valid()
      modifies this`tail, this`size, buffer
      ensures Valid() && Abs() == AfterPush(old(Abs()), PushMany(items))
      ensures r == PushOutcome(old(Abs()), PushMany(items)) && w == PushWake(old(Abs()), PushMany(items))
      ensures items != [] ==> r == if shutdown then Refused else if old(size) + |items| <= capacity then Done else Waits
      ensures Contents() == old(Contents()) + (if r == Done then items else [])
      ensures w == if r == Done && items != [] then Everybody else Nobody
    {
      WindowLength(buffer[..], head, size);
      if |items| == 0 {
        return Done, Nobody;
      }
      if capacity - size < |items| && !shutdown { return Waits, Nobody; }
      if shutdown { return Refused, Nobody; }
      ghost var before := Contents();
      for i := 0 to |items|
        invariant Valid() && size == old(size) + i && Contents() == before + items[..i]
      {
        Put(items[i]);
        assert before + items[..i] + [items[i]] == before + items[..i + 1];
      }
      assert items[..|items|] == items;
      return Done, Everybody;
    }

    /** Moves `n` items to the front of `out`. */
    method TakeMany(out: array<T>, n: nat)
      requires Valid() && n <= size && n <= out.Length && out != buffer
      modifies this`head, this`size, out
      ensures Valid() && size == old(size) - n && old(Contents()) == out[..n] + Contents()
      ensures forall j :: n <= j < out.Length ==> out[j] == old(out[j])
    {
      ghost var all := Contents();
      for i := 0 to n
        invariant Valid() && size == old(size) - i && all == out[..i] + Contents()
        invariant forall j :: i <= j < out.Length ==> out[j] == old(out[j])
      {
        var x := Take();
        MoveFirst(out[..i], x, Contents());
        out[i] := x;
        assert out[..i + 1] == out[..i] + [x];
      }
    }

    /** Moves up to `max` items to the front of `out`. */
    method PopBatch(out: array<T>, max: int) returns (r: Outcome, count: nat, w: Wake)
      requires Valid() && max <= out.Length && out != buffer
      modifies this`head, this`size, out
      ensures Valid() && Abs() == AfterPop(old(Abs()), PopMany(max))
      ensures count <= out.Length && out[..count] == Popped(old(Abs()), PopMany(max))
      ensures forall j :: count <= j < out.Length ==> out[j] == old(out[j])
      ensures r == PopOutcome(old(Abs()), PopMany(max)) && w == PopWake(old(Abs()), PopMany(max))
      ensures r == if old(size) > 0 then Done else if shutdown then Refused else Waits
      ensures count == if max < 0 then 0 else if old(size) < max then old(size) else max
      ensures old(Contents()) == out[..count] + Contents() && w == if count > 0 then One else Nobody
    {
      ghost var q := Abs();
      WindowLength(buffer[..], head, size);
      if size == 0 && !shutdown { return Waits, 0, Nobody; }
      if shutdown && size == 0 { return Refused, 0, Nobody; }
      count := if max < 0 then 0 else if size < max then size else max;
      TakeMany(out, count);
      Split(q.items, out[..count], Contents());
      return Done, count, if count > 0 then One else Nobody;
    }

    method SignalShutdown() returns (w: Wake)
      requires Valid()
      modifies this`shutdown
      ensures Valid() && Abs() == AfterShutdown(old(Abs())) && w == Everybody
      ensures shutdown && Contents() == old(Contents())
    {
      shutdown := true;
      w := Everybody;
    }
  }

  lemma {:induction false} MoveFirst<T>(a: seq<T>, x: T, b: seq<T>)
    ensures a + ([x] + b) == (a + [x]) + b
  {
  }

  lemma {:induction false} Split<T>(s: seq<T>, a: seq<T>, b: seq<T>)
    requires s == a + b
    ensures a == s[..|a|] && b == s[|a|..]
  {
  }
}
