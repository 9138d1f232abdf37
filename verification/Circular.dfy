/** Windows of a circular buffer, seen as sequences. */
module Circular {

  /** The slot at distance `x` from slot zero, at most once around a ring of `c` slots. */
  function Wrap(x: nat, c: nat): nat
    requires x < 2 * c
  {
    if x < c then x else x - c
  }

  lemma {:induction false} Around(x: nat, c: nat)
    requires 0 < c && x < 2 * c
    ensures x % c == Wrap(x, c)
  {
    var q := x / c;
    assert x == q * c + x % c;
    if q == 1 { assert q * c == c; }
  }

  /** `n` slots of the ring `b` from `head` on. */
  ghost function Window<T>(b: seq<T>, head: nat, n: nat): seq<T>
    requires head < |b|
    decreases n
  {
    if n == 0 then [] else [b[head]] + Window(b, Wrap(head + 1, |b|), n - 1)
  }

  lemma {:induction false} WindowLength<T>(b: seq<T>, head: nat, n: nat)
    requires head < |b|
    ensures |Window(b, head, n)| == n
    decreases n
  {
    if n != 0 { WindowLength(b, Wrap(head + 1, |b|), n - 1); }
  }

  /** Writing the slot behind the window extends the window. */
  lemma {:induction false} WindowPush<T>(b: seq<T>, head: nat, n: nat, x: T, t: nat)
    requires head < |b| && n < |b| && t == Wrap(head + n, |b|)
    ensures Window(b[t := x], head, n + 1) == Window(b, head, n) + [x]
    decreases n
  {
    var h, b' := Wrap(head + 1, |b|), b[t := x];
    if n == 0 {
      assert Window(b', h, 0) == [];
    } else {
      assert b'[head] == b[head];
      WindowPush(b, h, n - 1, x, t);
      assert Window(b', head, n + 1) == [b[head]] + (Window(b, h, n - 1) + [x]);
    }
  }

  /** A window that does not run over the end is a slice. */
  lemma {:induction false} WindowSlice<T>(b: seq<T>, head: nat, n: nat)
    requires head < |b| && head + n <= |b|
    ensures Window(b, head, n) == b[head..head + n]
    decreases n
  {
    if n != 0 && head + 1 < |b| {
      WindowSlice(b, head + 1, n - 1);
      assert b[head..head + n] == [b[head]] + b[head + 1..head + n];
    }
  }

  /** A window may be cut anywhere. */
  lemma {:induction false} WindowSplit<T>(b: seq<T>, head: nat, j: nat, k: nat)
    requires head < |b| && j + k <= |b|
    ensures Window(b, head, j + k) == Window(b, head, j) + Window(b, Wrap(head + j, |b|), k)
    decreases j
  {
    if j != 0 { WindowSplit(b, Wrap(head + 1, |b|), j - 1, k); }
  }

  /** A window that runs over the end consists of two slices. */
  lemma {:induction false} WindowWraps<T>(b: seq<T>, head: nat, n: nat)
    requires head < |b| && n <= |b| < head + n
    ensures Window(b, head, n) == b[head..] + b[..n - (|b| - head)]
  {
    var j := |b| - head;
    WindowSplit(b, head, j, n - j);
    WindowSlice(b, head, j);
    WindowSlice(b, 0, n - j);
  }
}
