/** Sequences of numbers: addresses of nodes or offsets of blocks. */
module Sequences {

  function Min(a: nat, b: nat): nat { if a < b then a else b }

  ghost predicate NoDup(s: seq<nat>)
  {
    forall i, j :: 0 <= i < j < |s| ==> s[i] != s[j]
  }

  /** The sequence without the element `x`. */
  ghost function Without(s: seq<nat>, x: nat): seq<nat>
  {
    if s == [] then [] else if s[0] == x then Without(s[1..], x) else [s[0]] + Without(s[1..], x)
  }

  lemma {:induction false} SeqAssoc<T>(a: seq<T>, b: seq<T>, c: seq<T>)
    ensures a + b + c == a + (b + c)
  {
  }

  lemma {:induction false} WithoutAbsent(s: seq<nat>, x: nat)
    requires x !in s
    ensures Without(s, x) == s
  {
    if s != [] { WithoutAbsent(s[1..], x); }
  }

  lemma {:induction false} WithoutMembers(s: seq<nat>, x: nat)
    ensures forall y :: y in Without(s, x) <==> y in s && y != x
  {
    if s != [] { WithoutMembers(s[1..], x); }
  }

  lemma {:induction false} WithoutSplit(a: seq<nat>, b: seq<nat>, x: nat)
    ensures Without(a + b, x) == Without(a, x) + Without(b, x)
  {
    if a == [] {
      assert a + b == b;
    } else {
      assert (a + b)[1..] == a[1..] + b;
      WithoutSplit(a[1..], b, x);
    }
  }

  lemma {:induction false} WithoutMiddle(a: seq<nat>, x: nat, b: seq<nat>)
    requires x !in a && x !in b
    ensures Without(a + [x] + b, x) == a + b
  {
    WithoutSplit(a + [x], b, x);
    WithoutSplit(a, [x], x);
    WithoutAbsent(a, x);
    WithoutAbsent(b, x);
    assert Without([x], x) == [];
  }

  lemma {:induction false} WithoutMoved(a: seq<nat>, x: nat, b: seq<nat>)
    requires NoDup(a + [x] + b)
    ensures Without(a + [x] + b, x) == a + b
  {
    var s := a + [x] + b;
    assert s[|a|] == x;
    assert forall i :: 0 <= i < |a| ==> s[i] == a[i];
    assert forall i :: 0 <= i < |b| ==> s[|a| + 1 + i] == b[i];
    WithoutMiddle(a, x, b);
  }

  lemma {:induction false} NoDupTail(s: seq<nat>)
    requires NoDup(s) && s != []
    ensures NoDup(s[1..]) && s[0] !in s[1..]
  {
    assert forall i :: 0 <= i < |s[1..]| ==> s[1..][i] == s[i + 1];
  }

  lemma {:induction false} NoDupMore(h: nat, r: seq<nat>)
    requires NoDup(r) && h !in r
    ensures NoDup([h] + r)
  {
    assert forall i :: 0 <= i < |r| ==> r[i] in r;
  }

  lemma {:induction false} WithoutDistinct(s: seq<nat>, x: nat)
    requires NoDup(s)
    ensures NoDup(Without(s, x)) && |Without(s, x)| == if x in s then |s| - 1 else |s|
  {
    if s != [] {
      var r := Without(s[1..], x);
      NoDupTail(s);
      WithoutDistinct(s[1..], x);
      WithoutMembers(s[1..], x);
      if s[0] != x { NoDupMore(s[0], r); }
    }
  }

  /** Removing an element keeps the order of the others. */
  lemma {:induction false} WithoutOrder(s: seq<nat>, x: nat, i: nat, j: nat) returns (i': nat, j': nat)
    requires i < j < |Without(s, x)|
    ensures i' < j' < |s| && s[i'] == Without(s, x)[i] && s[j'] == Without(s, x)[j]
    decreases |s|
  {
    var t := Without(s[1..], x);
    WithoutMembers(s[1..], x);
    if s[0] == x {
      i', j' := WithoutOrder(s[1..], x, i, j);
      i', j' := i' + 1, j' + 1;
    } else if i == 0 {
      assert t[j - 1] in s[1..];
      var k :| 0 <= k < |s[1..]| && s[1..][k] == t[j - 1];
      i', j' := 0, k + 1;
    } else {
      i', j' := WithoutOrder(s[1..], x, i - 1, j - 1);
      i', j' := i' + 1, j' + 1;
    }
  }
}
