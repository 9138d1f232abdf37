/** Least-recently-used replacement as a law about sequences of block offsets. */
module LruSpec {
  import opened Sequences

  /** One access to block `b` in a cache of `max` blocks, least recent block first. */
  ghost function Touch(s: seq<nat>, b: nat, max: nat): seq<nat>
  {
    if b in s then Without(s, b) + [b] else Room(s, max) + [b]
  }

  /** The oldest block makes room when the cache is full. */
  ghost function Room(s: seq<nat>, max: nat): seq<nat>
  {
    if s != [] && |s| >= max then s[1..] else s
  }

  /** The distinct elements of a history, ordered by their last occurrence. */
  ghost function Recency(h: seq<nat>): seq<nat>
  {
    if h == [] then [] else Without(Recency(h[..|h| - 1]), h[|h| - 1]) + [h[|h| - 1]]
  }

  ghost function LastK(s: seq<nat>, k: nat): seq<nat> { if |s| <= k then s else s[|s| - k..] }

  ghost function TouchAll(s: seq<nat>, bs: seq<nat>, max: nat): seq<nat>
  {
    if bs == [] then s else Touch(TouchAll(s, bs[..|bs| - 1], max), bs[|bs| - 1], max)
  }

  lemma {:induction false} TouchMore(s: seq<nat>, h: seq<nat>, b: nat, max: nat)
    ensures TouchAll(s, h + [b], max) == Touch(TouchAll(s, h, max), b, max)
  {
    assert (h + [b])[..|h + [b]| - 1] == h;
  }

  /** The last occurrence of `x` in the history comes before that of `y`. */
  ghost predicate LastBefore(h: seq<nat>, x: nat, y: nat)
  {
    exists j :: 0 <= j < |h| && h[j] == y && x !in h[j..]
  }

  /** What `Recency` means: the distinct elements of the history, each before those that
      were touched after its own last touch. */
  lemma {:induction false} RecencyMeaning(h: seq<nat>)
    ensures NoDup(Recency(h)) && forall x :: x in Recency(h) <==> x in h
    ensures forall i, j :: 0 <= i < j < |Recency(h)| ==> LastBefore(h, Recency(h)[i], Recency(h)[j])
  {
    if h != [] {
      var n := |h| - 1;
      var p, b := h[..n], h[n];
      assert h == p + [b];
      RecencyMeaning(p);
      var r, r' := Recency(p), Recency(h);
      WithoutDistinct(r, b);
      WithoutMembers(r, b);
      forall i, j | 0 <= i < j < |r'|
        ensures LastBefore(h, r'[i], r'[j])
      {
        if j == |r'| - 1 {
          assert h[n] == b && h[n..] == [b];
          assert r'[i] == Without(r, b)[i] && r'[i] in Without(r, b);
        } else {
          var x, y := r'[i], r'[j];
          assert x in Without(r, b) && y in Without(r, b);
          var i', j' := WithoutOrder(r, b, i, j);
          assert LastBefore(p, x, y);
          var k :| 0 <= k < |p| && p[k] == y && x !in p[k..];
          assert h[k] == y && h[k..] == p[k..] + [b];
        }
      }
    }
  }

  /** A cache of `max` blocks that starts empty always holds exactly the `max` blocks
      touched most recently, least recent first. */
  lemma {:induction false} ExactLru(h: seq<nat>, max: nat)
    requires 0 < max
    ensures TouchAll([], h, max) == LastK(Recency(h), max)
  {
    if h != [] {
      var n := |h| - 1;
      ExactLru(h[..n], max);
      RecencyMeaning(h[..n]);
      TouchLast(Recency(h[..n]), h[n], max);
    }
  }

  /** Keeping only the last `max` elements commutes with a touch. */
  lemma {:induction false} TouchLast(r: seq<nat>, b: nat, max: nat)
    requires 0 < max && NoDup(r)
    ensures Touch(LastK(r, max), b, max) == LastK(Without(r, b) + [b], max)
  {
    var l := LastK(r, max);
    var a := r[..|r| - |l|];
    assert r == a + l;
    if b in l { TouchHit(a, l, b, max); } else { TouchMiss(a, l, b, max); }
  }

  lemma {:induction false} DistinctParts(a: seq<nat>, l: seq<nat>, b: nat)
    requires NoDup(a + l) && b in l
    ensures NoDup(l) && b !in a
  {
    var s, i :| s == a + l && 0 <= i < |l| && l[i] == b;
    forall i, j | 0 <= i < j < |l|
      ensures l[i] != l[j]
    {
      assert s[|a| + i] == l[i] && s[|a| + j] == l[j];
    }
    forall j | 0 <= j < |a|
      ensures a[j] != b
    {
      assert s[j] == a[j] && s[|a| + i] == b;
    }
  }

  lemma {:induction false} TouchHit(a: seq<nat>, l: seq<nat>, b: nat, max: nat)
    requires NoDup(a + l) && b in l && |l| <= max && (a == [] || |l| == max)
    ensures Without(l, b) + [b] == LastK(Without(a + l, b) + [b], max)
  {
    DistinctParts(a, l, b);
    WithoutSplit(a, l, b);
    WithoutAbsent(a, b);
    WithoutDistinct(l, b);
    SuffixOnly(a, Without(l, b) + [b], max);
    assert Without(a + l, b) + [b] == a + (Without(l, b) + [b]);
  }

  lemma {:induction false} TouchMiss(a: seq<nat>, l: seq<nat>, b: nat, max: nat)
    requires 0 < max && b !in l && |l| <= max && (a == [] || |l| == max)
    ensures Room(l, max) + [b] == LastK(Without(a + l, b) + [b], max)
  {
    WithoutSplit(a, l, b);
    WithoutAbsent(l, b);
    SuffixOnly(Without(a, b), l + [b], max);
    assert Without(a + l, b) + [b] == Without(a, b) + (l + [b]);
  }

  lemma {:induction false} SuffixOnly(d: seq<nat>, l: seq<nat>, k: nat)
    requires d == [] || k <= |l|
    ensures LastK(d + l, k) == LastK(l, k)
  {
    if d == [] { assert d + l == l; }
  }

  // ----- with loads that fail -----

  /** `r` holds the distinct blocks touched last, as many as it holds. */
  ghost predicate Newest(r: seq<nat>, h: seq<nat>) { r == LastK(Recency(h), |r|) }

  lemma {:induction false} RecencyMore(h: seq<nat>, b: nat)
    ensures Recency(h + [b]) == Without(Recency(h), b) + [b]
  {
    assert (h + [b])[..|h + [b]| - 1] == h;
  }

  /** A touch keeps the newest blocks. */
  lemma {:induction false} NewestTouch(r: seq<nat>, h: seq<nat>, b: nat, max: nat)
    requires Newest(r, h)
    ensures Newest(Touch(r, b, max), h + [b])
  {
    RecencyMore(h, b);
    RecencyMeaning(h);
    if b in r {
      var a := Recency(h)[..|Recency(h)| - |r|];
      assert Recency(h) == a + r;
      DistinctParts(a, r, b);
      WithoutDistinct(r, b);
      TouchHit(a, r, b, |r|);
    } else {
      NewestRoom(r, h, max);
      NewestMiss(Room(r, max), Recency(h), b);
    }
  }

  lemma {:induction false} NewestMiss(r: seq<nat>, all: seq<nat>, b: nat)
    requires r == LastK(all, |r|) && b !in r
    ensures r + [b] == LastK(Without(all, b) + [b], |r + [b]|)
  {
    var a := all[..|all| - |r|];
    assert all == a + r;
    WithoutSplit(a, r, b);
    WithoutAbsent(r, b);
    assert Without(all, b) + [b] == Without(a, b) + (r + [b]);
    SuffixOnly(Without(a, b), r + [b], |r + [b]|);
  }

  /** So does an eviction, after which a load may have failed. */
  lemma {:induction false} NewestRoom(r: seq<nat>, h: seq<nat>, max: nat)
    requires Newest(r, h)
    ensures Newest(Room(r, max), h)
  {
  }

  /** As long as no load fails, as many are kept as there is room for. */
  lemma {:induction false} FullTouch(r: seq<nat>, h: seq<nat>, b: nat, max: nat)
    requires 0 < max && r == LastK(Recency(h), max)
    ensures Touch(r, b, max) == LastK(Recency(h + [b]), max)
  {
    TouchMore([], h, b, max);
    ExactLru(h, max);
    ExactLru(h + [b], max);
  }
}
