/** The circular doubly linked list of cache blocks. */
module LruList {
  import opened Sequences
  import opened RbShape

  datatype Links = Links(next: Ptr, prev: Ptr)

  /** The address of the list head, which is embedded in the cache. Blocks lie elsewhere. */
  const HEAD: Ptr := 1

  /** Position `i` on the ring: the head is both position -1 and position `|q|`. */
  ghost function At(q: seq<Ptr>, i: int): Ptr { if 0 <= i < |q| then q[i] else HEAD }

  ghost predicate Joined(m: map<Ptr, Links>, x: Ptr, y: Ptr)
  {
    x in m && y in m && m[x].next == y && m[y].prev == x
  }

  /** Positions `i` and `i + 1` are joined. */
  ghost predicate Link(m: map<Ptr, Links>, q: seq<Ptr>, i: int) { Joined(m, At(q, i), At(q, i + 1)) }

  /** The links form a ring through the head and the blocks of `q` in order. */
  ghost predicate Ring(m: map<Ptr, Links>, q: seq<Ptr>)
  {
    && (forall i :: -1 <= i < |q| ==> Link(m, q, i))
    && (forall i :: 0 <= i < |q| ==> q[i] > HEAD) && NoDup(q)
  }

  lemma {:induction false} AtDistinct(q: seq<Ptr>, i: int, j: int)
    requires NoDup(q) && (forall i :: 0 <= i < |q| ==> q[i] > HEAD) && -1 <= i < |q| && -1 <= j < |q| && i != j
    ensures At(q, i) != At(q, j)
  {
  }

  lemma {:induction false} NeighboursOf(m: map<Ptr, Links>, q: seq<Ptr>, i: nat)
    requires Ring(m, q) && i < |q|
    ensures q[i] in m && m[q[i]] == Links(At(q, i + 1), At(q, i - 1)) && At(q, i + 1) in m && At(q, i - 1) in m
    ensures At(q, i + 1) != q[i] && At(q, i - 1) != q[i]
  {
    assert Link(m, q, i - 1) && Link(m, q, i);
    AtDistinct(q, i, i - 1);
    if i + 1 < |q| { AtDistinct(q, i, i + 1); }
  }

  /** The ring without its element `i`: the two neighbours are joined. */
  lemma {:induction false} RingDel(m: map<Ptr, Links>, q: seq<Ptr>, i: nat, m': map<Ptr, Links>)
    requires Ring(m, q) && i < |q| && Joined(m', At(q, i - 1), At(q, i + 1))
    requires forall x :: x in m && x != q[i] ==>
               && x in m' && (x != At(q, i - 1) ==> m'[x].next == m[x].next)
               && (x != At(q, i + 1) ==> m'[x].prev == m[x].prev)
    ensures Ring(m', q[..i] + q[i + 1..])
  {
    var r: seq<Ptr> := q[..i] + q[i + 1..];
    forall j | -1 <= j < |r|
      ensures Link(m', r, j)
    {
      var k := if j < i then j else j + 1;
      if j + 1 != i {
        assert At(r, j) == At(q, k) && At(r, j + 1) == At(q, k + 1);
        assert Link(m, q, k);
        AtDistinct(q, k, i);
        AtDistinct(q, k, i - 1);
        AtDistinct(q, if k + 1 == |q| then -1 else k + 1, i);
        AtDistinct(q, if k + 1 == |q| then -1 else k + 1, if i + 1 == |q| then -1 else i + 1);
      }
    }
  }

  /** The ring with a new element before the head. */
  lemma {:induction false} RingAdd(m: map<Ptr, Links>, q: seq<Ptr>, n: Ptr, m': map<Ptr, Links>)
    requires Ring(m, q) && n > HEAD && n !in q
    requires Joined(m', At(q, |q| - 1), n) && Joined(m', n, HEAD)
    requires forall x :: x in m && x != n ==>
               && x in m' && (x != At(q, |q| - 1) ==> m'[x].next == m[x].next)
               && (x != HEAD ==> m'[x].prev == m[x].prev)
    ensures Ring(m', q + [n])
  {
    var r: seq<Ptr> := q + [n];
    forall j | -1 <= j < |r|
      ensures Link(m', r, j)
    {
      if j < |q| - 1 {
        assert Link(m, q, j);
        AtDistinct(q, j, |q| - 1);
      } else if j == |q| - 1 {
        assert At(r, j) == At(q, |q| - 1);
      }
    }
  }

  class List {
    var link: map<Ptr, Links>
    ghost var q: seq<Ptr>

    ghost predicate Valid()
      reads this
    {
      Ring(link, q)
    }

    constructor ()
      ensures Valid() && q == []
    {
      link, q := map[HEAD := Links(HEAD, HEAD)], [];
    }

    method Empty() returns (e: bool)
      requires Valid()
      ensures e <==> q == []
    {
      assert Link(link, q, -1);
      e := link[HEAD].next == HEAD;
    }

    method First() returns (n: Ptr)
      requires Valid() && q != []
      ensures n == q[0]
    {
      assert Link(link, q, -1);
      n := link[HEAD].next;
    }

    method SetNext(n: Ptr, v: Ptr)
      requires n in link
      modifies this`link
      ensures link == old(link)[n := old(link)[n].(next := v)]
    {
      link := link[n := link[n].(next := v)];
    }

    method SetPrev(n: Ptr, v: Ptr)
      requires n in link
      modifies this`link
      ensures link == old(link)[n := old(link)[n].(prev := v)]
    {
      link := link[n := link[n].(prev := v)];
    }

    method AddTail(n: Ptr)
      requires Valid() && n > HEAD && n !in q
      modifies this
      ensures Valid() && q == old(q) + [n]
    {
      ghost var m := link;
      assert Link(m, q, |q| - 1);
      link := link[n := Links(HEAD, link[HEAD].prev)];
      SetNext(link[HEAD].prev, n);
      SetPrev(HEAD, n);
      RingAdd(m, q, n, link);
      q := q + [n];
    }

    method Del(n: Ptr)
      requires Valid() && n in q
      modifies this
      ensures Valid() && q == Without(old(q), n)
    {
      ghost var i :| 0 <= i < |q| && q[i] == n;
      ghost var m := link;
      NeighboursOf(m, q, i);
      var next, prev := link[n].next, link[n].prev;
      SetPrev(next, prev);
      SetNext(prev, next);
      link := link[n := Links(0, 0)];
      RingDel(m, q, i, link);
      assert q == q[..i] + [n] + q[i + 1..];
      WithoutMoved(q[..i], n, q[i + 1..]);
      q := q[..i] + q[i + 1..];
    }

    /** Moves a block to the end of the list. */
    method MoveToTail(n: Ptr)
      requires Valid() && n in q && n > HEAD && n !in Without(q, n)
      modifies this
      ensures Valid() && q == Without(old(q), n) + [n]
    {
      Del(n);
      AddTail(n);
    }
  }
}
