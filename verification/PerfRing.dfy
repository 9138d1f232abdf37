/** Consuming the ring buffer of perf records: records may wrap around its end, and the
    loop stops when two positions in the ring become equal. */
module PerfRing {
  import opened Bytes
  import opened Sequences
  import opened Circular

  const HEADER: nat := 8
  const TEMP: nat := 4096

  type Record = seq<Byte>

  /** The size field of a record header. */
  function SizeField(h: seq<Byte>): nat
    requires |h| >= HEADER
  {
    h[6] as nat + 256 * h[7] as nat
  }

  ghost predicate WellFormed(r: Record) { |r| >= HEADER && SizeField(r) == |r| }

  /** The concatenated bytes of the records. */
  ghost function Stream(rs: seq<Record>): seq<Byte>
  {
    if rs == [] then [] else rs[0] + Stream(rs[1..])
  }

  /** A stream may end in a header with size zero. */
  ghost predicate Trailer(rest: seq<Byte>) { rest == [] || (|rest| >= HEADER && SizeField(rest) == 0) }

  /** The record at position `pos` of a ring of `n` bytes wraps and is too long to be put
      together in the temporary buffer. */
  predicate TooLong(n: nat, pos: nat, r: Record) { pos + |r| > n && |r| > TEMP }

  /** The records handed over when the first one starts at position `pos`. */
  ghost function Delivered(n: nat, pos: nat, rs: seq<Record>): seq<Record>
    requires 0 < n
    decreases rs
  {
    if rs == [] then [] else
    (if TooLong(n, pos, rs[0]) then [] else [rs[0]]) + Delivered(n, (pos + |rs[0]|) % n, rs[1..])
  }

  /** Without long records every record is handed over. */
  lemma {:induction false} AllDelivered(n: nat, pos: nat, rs: seq<Record>)
    requires 0 < n && forall i :: 0 <= i < |rs| ==> |rs[i]| <= 4096
    ensures Delivered(n, pos, rs) == rs
    decreases rs
  {
    if rs != [] {
      assert forall i :: 0 <= i < |rs[1..]| ==> rs[1..][i] == rs[i + 1];
      AllDelivered(n, (pos + |rs[0]|) % n, rs[1..]);
    }
  }

  /** A record is skipped exactly if it wraps and has more than 4096 bytes. */
  lemma {:induction false} SkippedIff(n: nat, pos: nat, r: Record, rs: seq<Record>)
    requires pos < n && |r| <= n
    ensures var p := if pos + |r| < n then pos + |r| else pos + |r| - n;
            Delivered(n, pos, [r] + rs) ==
              (if pos + |r| > n && |r| > 4096 then [] else [r]) + Delivered(n, p, rs)
  {
    assert ([r] + rs)[1..] == rs;
    Around(pos + |r|, n);
  }

  /** A record header: a type of four bytes, flags and size of two bytes each. */
  function Header(kind: nat, misc: nat, size: nat): (h: seq<Byte>)
    ensures |h| == 8
  {
    Digits(kind, 4) + Digits(misc, 2) + Digits(size, 2)
  }

  /** The size field is read from where the header has it. */
  lemma {:induction false} SizeOfHeader(kind: nat, misc: nat, size: nat, body: seq<Byte>)
    requires size < 65536
    ensures SizeField(Header(kind, misc, size) + body) == size
    ensures size == 8 + |body| ==> WellFormed(Header(kind, misc, size) + body)
  {
    var h := Header(kind, misc, size);
    assert h[6..8] == Digits(size, 2);
    assert h[6] == Digits(size, 2)[0] && h[7] == Digits(size, 2)[1];
    TwoDigits(size);
  }

  lemma {:induction false} TwoDigits(v: nat)
    requires v < 65536
    ensures Digits(v, 2)[0] as nat + 256 * Digits(v, 2)[1] as nat == v
  {
    assert Digits(v, 2) == [(v % 256) as Byte] + Digits(v / 256, 1);
    assert Digits(v / 256, 1) == [(v / 256 % 256) as Byte] + Digits(v / 256 / 256, 0);
  }

  /** At most one record is skipped: within one pass over fewer than `n` bytes only one
      record can wrap. */
  lemma {:induction false} SkipsAtMostOne(n: nat, pos: nat, rs: seq<Record>)
    requires pos < n && |Stream(rs)| < n
    ensures |rs| - 1 <= |Delivered(n, pos, rs)| <= |rs|
    ensures pos + |Stream(rs)| <= n ==> Delivered(n, pos, rs) == rs
    decreases rs
  {
    if rs != [] {
      var r := rs[0];
      Around(pos + |r|, n);
      SkipsAtMostOne(n, (pos + |r|) % n, rs[1..]);
      assert rs == [r] + rs[1..];
    }
  }

  /** Puts the `size` bytes from `cur` on together in `temp`, from both ends of the ring. */
  method Unwrap(ring: array<Byte>, temp: array<Byte>, cur: nat, size: nat)
    requires ring != temp && cur < ring.Length < cur + size && size <= ring.Length && size <= temp.Length
    modifies temp
    ensures temp[..size] == Window(ring[..], cur, size)
  {
    var first := ring.Length - cur;
    for i := 0 to first
      invariant temp[..i] == ring[cur..cur + i]
    {
      temp[i] := ring[cur + i];
    }
    for i := 0 to size - first
      invariant temp[..first + i] == ring[cur..] + ring[..i]
    {
      temp[first + i] := ring[i];
    }
    WindowWraps(ring[..], cur, size);
  }

  /** Reads the size field of the record at `cur`, through `temp` if the header wraps. */
  method ReadSize(ring: array<Byte>, temp: array<Byte>, cur: nat) returns (size: nat)
    requires ring != temp && cur < ring.Length && HEADER <= ring.Length && temp.Length == TEMP
    modifies temp
    ensures |Window(ring[..], cur, HEADER)| == HEADER && size == SizeField(Window(ring[..], cur, HEADER))
  {
    WindowLength(ring[..], cur, HEADER);
    if cur + HEADER > ring.Length {
      Unwrap(ring, temp, cur, HEADER);
      size := SizeField(temp[..HEADER]);
    } else {
      WindowSlice(ring[..], cur, HEADER);
      size := SizeField(ring[cur..cur + HEADER]);
    }
  }

  /** Hands over the record of `size` bytes at `cur` and moves on behind it. */
  method HandOver(ring: array<Byte>, temp: array<Byte>, cur: nat, size: nat) returns (out: seq<Record>, next: nat)
    requires ring != temp && cur < ring.Length && 0 < size < ring.Length && temp.Length == TEMP
    modifies temp
    ensures next == (cur + size) % ring.Length
    ensures var r := Window(ring[..], cur, size); out == if TooLong(ring.Length, cur, r) then [] else [r]
  {
    WindowLength(ring[..], cur, size);
    Around(cur + size, ring.Length);
    out := [];
    if cur + size > ring.Length {
      if size <= temp.Length {
        Unwrap(ring, temp, cur, size);
        out := [temp[..size]];
      }
      next := size - (ring.Length - cur);
    } else {
      WindowSlice(ring[..], cur, size);
      out := [ring[cur..cur + size]];
      next := cur + size;
      if next == ring.Length { next := 0; }
    }
  }

  /** `len` bytes from `cur` on are the records `rs` and then `rest`. */
  ghost predicate Holds(b: seq<Byte>, cur: nat, len: nat, rs: seq<Record>, rest: seq<Byte>)
  {
    && cur < |b| && len < |b| && Window(b, cur, len) == Stream(rs) + rest
    && Trailer(rest) && forall i :: 0 <= i < |rs| ==> WellFormed(rs[i])
  }

  /** The loop exit by equal positions is exact. */
  lemma {:induction false} AtEnd(cur: nat, len: nat, n: nat)
    requires cur < n && len < n
    ensures (cur + len) % n == cur <==> len == 0
  {
    Around(cur + len, n);
  }

  /** The header at `cur` is that of the first record, or that of the trailer. */
  lemma {:induction false} HeaderAt(b: seq<Byte>, cur: nat, len: nat, rs: seq<Record>, rest: seq<Byte>)
    requires Holds(b, cur, len, rs, rest) && len > 0
    ensures len >= HEADER && |Window(b, cur, HEADER)| == HEADER
    ensures SizeField(Window(b, cur, HEADER)) == if rs == [] then 0 else |rs[0]|
  {
    var w := Window(b, cur, len);
    WindowLength(b, cur, len);
    assert rs != [] ==> w == rs[0] + (Stream(rs[1..]) + rest);
    WindowSplit(b, cur, HEADER, len - HEADER);
    WindowLength(b, cur, HEADER);
    assert Window(b, cur, HEADER) == w[..HEADER];
  }

  /** Behind the first record come the others. */
  lemma {:induction false} NextRecord(b: seq<Byte>, cur: nat, len: nat, rs: seq<Record>, rest: seq<Byte>)
    requires Holds(b, cur, len, rs, rest) && rs != []
    ensures var k := |rs[0]|;
            && HEADER <= k <= len && Window(b, cur, k) == rs[0]
            && Holds(b, (cur + k) % |b|, len - k, rs[1..], rest)
            && ((cur + k) % |b| + (len - k)) % |b| == (cur + len) % |b|
  {
    var k := |rs[0]|;
    var w := Window(b, cur, len);
    WindowLength(b, cur, len);
    assert w == rs[0] + (Stream(rs[1..]) + rest);
    Around(cur + k, |b|);
    WindowSplit(b, cur, k, len - k);
    WindowLength(b, cur, k);
    assert Window(b, cur, k) == w[..k] && Window(b, (cur + k) % |b|, len - k) == w[k..];
    assert forall i :: 0 <= i < |rs[1..]| ==> rs[1..][i] == rs[i + 1];
    Around(cur + len, |b|);
    Around((cur + k) % |b| + (len - k), |b|);
  }

  /** The mapped page: the kernel moves `dataHead`, the consumer `dataTail`. */
  class Event {
    const ring: array<Byte>
    var dataTail: nat
    var dataHead: nat

    constructor (size: nat)
      ensures ring.Length == size && dataTail == 0 && dataHead == 0
    {
      ring := new Byte[size];
      dataTail, dataHead := 0, 0;
    }

    /** One round of the main loop: the record at `cur`, or the end at a zero size. */
    method Round(temp: array<Byte>, cur: nat, ghost left: nat, ghost todo: seq<Record>, ghost rest: seq<Byte>)
        returns (stop: bool, got: seq<Record>, next: nat)
      requires ring != temp && temp.Length == TEMP && HEADER <= ring.Length
      requires Holds(ring[..], cur, left, todo, rest) && left > 0
      modifies temp
      ensures stop <==> todo == []
      ensures !stop ==> |todo[0]| <= left && next == (cur + |todo[0]|) % ring.Length
      ensures !stop ==> got == if TooLong(ring.Length, cur, todo[0]) then [] else [todo[0]]
    {
      HeaderAt(ring[..], cur, left, todo, rest);
      var size := ReadSize(ring, temp, cur);
      stop, got, next := size == 0, [], cur;
      if !stop {
        NextRecord(ring[..], cur, left, todo, rest);
        got, next := HandOver(ring, temp, cur, size);
      }
    }

    /** The main loop. `rs` and `rest` say what lies between the positions. */
    method Deliver(begin: nat, end: nat, ghost len: nat, ghost rs: seq<Record>,
                   ghost rest: seq<Byte>) returns (out: seq<Record>)
      requires HEADER <= ring.Length && begin < ring.Length
      requires begin != end ==> Holds(ring[..], begin, len, rs, rest) && end == (begin + len) % ring.Length
      ensures out == if begin == end then [] else Delivered(ring.Length, begin, rs)
    {
      var temp := new Byte[TEMP];
      var cur: nat := begin;
      ghost var left: nat, todo, b := len, rs, ring[..];
      out := [];
      while cur != end
        invariant ring[..] == b && (begin == end ==> cur == end && out == [])
        invariant begin != end ==> Delivering(b, begin, end, rs, rest, cur, left, todo, out)
        decreases left
      {
        AtEnd(cur, left, ring.Length);
        var stop, got, next := Round(temp, cur, left, todo, rest);
        if stop { break; }
        DeliveredOne(b, begin, end, rs, rest, cur, left, todo, out, got, next);
        out, cur := out + got, next;
        left, todo := left - |todo[0]|, todo[1..];
      }
      if begin != end { NothingLeft(b, begin, end, rs, rest, cur, left, todo, out); }
    }

    /** Consumes what lies between tail and head. `rs` and `rest` are what the kernel put
        there. A completely full ring looks like an empty one: it is dropped unread. */
    method Consume(ghost rs: seq<Record>, ghost rest: seq<Byte>) returns (out: seq<Record>)
      requires HEADER <= ring.Length && dataTail <= dataHead <= dataTail + ring.Length
      requires dataHead < dataTail + ring.Length ==>
               Holds(ring[..], dataTail % ring.Length, dataHead - dataTail, rs, rest)
      modifies this`dataTail
      ensures dataTail == dataHead
      ensures dataHead < old(dataTail) + ring.Length ==> out == Delivered(ring.Length, old(dataTail) % ring.Length, rs)
      ensures dataHead == old(dataTail) + ring.Length ==> out == []
    {
      var tail, head := dataTail, dataHead;
      out := [];
      if tail == head {
        NothingBetween(ring[..], tail % ring.Length, rs, rest);
        return;
      }
      var begin, end := tail % ring.Length, head % ring.Length;
      Positions(tail, head, ring.Length, begin, end);
      out := Deliver(begin, end, head - tail, rs, rest);
      dataTail := head;
    }
  }

  lemma {:induction false} NothingBetween(b: seq<Byte>, pos: nat, rs: seq<Record>, rest: seq<Byte>)
    requires Holds(b, pos, 0, rs, rest)
    ensures Delivered(|b|, pos, rs) == []
  {
    if rs != [] { NextRecord(b, pos, 0, rs, rest); }
  }

  /** Positions in the ring coincide exactly when it is empty or completely full. */
  lemma {:induction false} Positions(tail: nat, head: nat, n: nat, begin: nat, end: nat)
    requires 0 < n && tail <= head <= tail + n && begin == tail % n && end == head % n
    ensures begin < n && end == (begin + (head - tail)) % n
    ensures begin == end <==> head == tail || head == tail + n
  {
    HeadPosition(tail, head, n);
    if head < tail + n { AtEnd(begin, head - tail, n); }
  }

  /** The records before `todo` were handed over or skipped. */
  ghost predicate Delivering(b: seq<Byte>, begin: nat, end: nat, rs: seq<Record>, rest: seq<Byte>,
                             cur: nat, left: nat, todo: seq<Record>, out: seq<Record>)
  {
    && Holds(b, cur, left, todo, rest) && end == (cur + left) % |b|
    && out + Delivered(|b|, cur, todo) == Delivered(|b|, begin, rs)
  }

  lemma {:induction false} DeliveredOne(b: seq<Byte>, begin: nat, end: nat, rs: seq<Record>, rest: seq<Byte>, cur: nat,
                                        left: nat, todo: seq<Record>, out: seq<Record>, got: seq<Record>, next: nat)
    requires Delivering(b, begin, end, rs, rest, cur, left, todo, out) && todo != []
    requires got == (if TooLong(|b|, cur, todo[0]) then [] else [todo[0]]) && next == (cur + |todo[0]|) % |b|
    ensures 0 < |todo[0]| <= left
    ensures Delivering(b, begin, end, rs, rest, next, left - |todo[0]|, todo[1..], out + got)
  {
    NextRecord(b, cur, left, todo, rest);
    SeqAssoc(out, got, Delivered(|b|, next, todo[1..]));
  }

  /** When the loop ends no record is left. */
  lemma {:induction false} NothingLeft(b: seq<Byte>, begin: nat, end: nat, rs: seq<Record>, rest: seq<Byte>,
                                       cur: nat, left: nat, todo: seq<Record>, out: seq<Record>)
    requires Delivering(b, begin, end, rs, rest, cur, left, todo, out) && (cur == end || todo == [])
    ensures out == Delivered(|b|, begin, rs)
  {
    AtEnd(cur, left, |b|);
    if todo != [] { NextRecord(b, cur, left, todo, rest); }
    assert out + [] == out;
  }

  lemma {:induction false} Multiple(d: nat, n: nat)
    requires 0 < d
    ensures d * n >= n
  {
    if d > 1 { Multiple(d - 1, n); }
  }

  lemma {:induction false} Remainder(a: nat, n: nat, k: nat, r: nat)
    requires 0 < n && r < n && a == k * n + r
    ensures a % n == r
  {
    var q, m := a / n, a % n;
    assert a == q * n + m;
    if q > k {
      Multiple(q - k, n);
    } else if q < k {
      Multiple(k - q, n);
    }
  }

  lemma {:induction false} HeadPosition(tail: nat, head: nat, n: nat)
    requires 0 < n && tail <= head <= tail + n
    ensures head % n == (tail % n + (head - tail)) % n
    ensures head == tail + n ==> head % n == tail % n
  {
    var q, t, d := tail / n, tail % n, head - tail;
    assert tail == q * n + t;
    Around(t + d, n);
    if t + d < n {
      Remainder(head, n, q, t + d);
    } else {
      assert (q + 1) * n == q * n + n;
      Remainder(head, n, q + 1, t + d - n);
    }
  }
}
