/** Red-black trees ordered by a key: insertion by descent and the two searches that the
    symbol tables, memory maps and block cache are built on. */
module SortedIndex {
  import opened Sequences
  import opened RbShape
  import opened RbMemory
  import opened RbTrees
  import opened RbIteration

  /** The key of each node; it lives in the structure that embeds the node. */
  type Keys = map<Ptr, nat>

  function Key(keys: Keys, x: Ptr): nat { if x in keys then keys[x] else 0 }

  /** Keys never decrease along the sequence. Equal keys may follow each other. */
  ghost predicate Sorted(keys: Keys, q: seq<Ptr>)
  {
    forall i, j :: 0 <= i < j < |q| ==> Key(keys, q[i]) <= Key(keys, q[j])
  }

  /** Only the keys of the elements matter. */
  lemma {:induction false} SortedByOther(keys: Keys, keys': Keys, q: seq<Ptr>)
    requires Sorted(keys, q) && forall x :: x in q ==> Key(keys, x) == Key(keys', x)
    ensures Sorted(keys', q)
  {
    assert forall i :: 0 <= i < |q| ==> q[i] in q;
  }

  /** Insertion into a sorted list, behind the elements with the same key. */
  ghost function InsertByKey(keys: Keys, q: seq<Ptr>, x: Ptr): seq<Ptr>
  {
    if q == [] || Key(keys, x) < Key(keys, q[0]) then [x] + q
    else [q[0]] + InsertByKey(keys, q[1..], x)
  }

  /** All keys of `q` are at most `v`. */
  ghost predicate AtMost(keys: Keys, q: seq<Ptr>, v: nat) { forall x :: x in q ==> Key(keys, x) <= v }

  /** All keys of `q` are above `v`. */
  ghost predicate Above(keys: Keys, q: seq<Ptr>, v: nat) { forall x :: x in q ==> v < Key(keys, x) }

  lemma {:induction false} InsertBetween(keys: Keys, a: seq<Ptr>, b: seq<Ptr>, x: Ptr)
    requires AtMost(keys, a, Key(keys, x)) && Above(keys, b, Key(keys, x))
    ensures InsertByKey(keys, a + b, x) == a + [x] + b
  {
    if a == [] {
      assert a + b == b;
      if b != [] { assert b[0] in b; }
    } else {
      assert a[0] in a;
      assert (a + b)[1..] == a[1..] + b;
      InsertBetween(keys, a[1..], b, x);
    }
  }

  lemma {:induction false} InsertKeepsSorted(keys: Keys, q: seq<Ptr>, x: Ptr)
    requires Sorted(keys, q)
    ensures Sorted(keys, InsertByKey(keys, q, x))
    ensures forall y :: y in InsertByKey(keys, q, x) <==> y == x || y in q
  {
    if q != [] && Key(keys, q[0]) <= Key(keys, x) {
      InsertKeepsSorted(keys, q[1..], x);
      var r := InsertByKey(keys, q[1..], x);
      forall j | 0 <= j < |r|
        ensures Key(keys, q[0]) <= Key(keys, r[j])
      {
        assert r[j] in r;
      }
    }
  }

  /** The new element stands behind everything with a key up to its own, and before
      everything with a greater key. */
  lemma {:induction false} InsertedBehind(keys: Keys, q: seq<Ptr>, x: Ptr) returns (a: seq<Ptr>, b: seq<Ptr>)
    requires Sorted(keys, q)
    ensures q == a + b && InsertByKey(keys, q, x) == a + [x] + b
    ensures forall y :: y in a ==> Key(keys, y) <= Key(keys, x)
    ensures forall y :: y in b ==> Key(keys, x) < Key(keys, y)
  {
    if q == [] || Key(keys, x) < Key(keys, q[0]) {
      a, b := [], q;
      assert [] + [x] + q == [x] + q;
    } else {
      a, b := InsertedBehind(keys, q[1..], x);
      Regrouped(q[0], a, x, b);
      a := [q[0]] + a;
    }
  }

  lemma {:induction false} Regrouped(h: Ptr, a: seq<Ptr>, x: Ptr, b: seq<Ptr>)
    ensures [h] + (a + [x] + b) == ([h] + a) + [x] + b && [h] + (a + b) == ([h] + a) + b
  {
  }

  lemma {:induction false} SortedAround(keys: Keys, a: seq<Ptr>, x: Ptr, b: seq<Ptr>)
    requires Sorted(keys, a + [x] + b)
    ensures AtMost(keys, a, Key(keys, x)) && forall y :: y in b ==> Key(keys, x) <= Key(keys, y)
  {
    var q := a + [x] + b;
    assert q[|a|] == x;
    assert forall i :: 0 <= i < |a| ==> q[i] == a[i];
    assert forall i :: 0 <= i < |b| ==> q[|a| + 1 + i] == b[i];
  }

  /** What one comparison at the root of `sub` tells about the nodes around its subtrees. */
  lemma {:induction false} Compared(keys: Keys, k: Ctx, t: Tree)
    requires Sorted(keys, InOrder(Plug(k, t))) && t.Node?
    ensures AtMost(keys, Before(Step(k, R, t.id, t.color, t.left)), Key(keys, t.id))
    ensures forall v: nat :: v < Key(keys, t.id) ==> Above(keys, After(Step(k, L, t.id, t.color, t.right)), v)
  {
    PlugInOrder(k, t);
    Regroup(Before(k), InOrder(t.left), t.id, InOrder(t.right), After(k));
    SortedAround(keys, Before(k) + InOrder(t.left), t.id, InOrder(t.right) + After(k));
  }

  /** Descends to the slot for `key`: left below larger keys, right below the others. */
  method FindSlot(t: RbTree, keys: Keys, key: nat) returns (parent: Ptr, side: Side, ghost k: Ctx)
    requires t.Linked() && Sorted(keys, InOrder(t.tree))
    ensures Plug(k, Nil) == t.tree && parent == CtxParent(k) && (k.Step? ==> k.side == side)
    ensures AtMost(keys, Before(k), key) && Above(keys, After(k), key)
  {
    ghost var sub := t.tree;
    k := Top;
    var cur := t.root;
    parent, side := 0, L;
    while cur != 0
      invariant At(t.mem, t.rk, t.root, k, sub) && Plug(k, sub) == t.tree && Root(sub) == cur
      invariant parent == CtxParent(k) && (k.Step? ==> k.side == side)
      invariant AtMost(keys, Before(k), key) && Above(keys, After(k), key)
      decreases sub
    {
      parent := cur;
      Compared(keys, k, sub);
      ForkAt(t.mem, t.rk, t.root, k, L, sub.left, cur, sub.color, sub.right);
      if key < Key(keys, cur) {
        side, cur := L, t.mem[cur].left;
        Descend(t.mem, t.rk, t.root, k, L, sub.left, sub.id, sub.color, sub.right);
        k, sub := Step(k, L, sub.id, sub.color, sub.right), sub.left;
      } else {
        side, cur := R, t.mem[cur].right;
        Descend(t.mem, t.rk, t.root, k, R, sub.right, sub.id, sub.color, sub.left);
        k, sub := Step(k, R, sub.id, sub.color, sub.left), sub.right;
      }
    }
    RootRank(t.mem, t.rk, parent, sub, Hole(t.rk, k));
  }

  /** Inserts `node` by descent, behind the nodes with the same key. */
  method Insert(t: RbTree, keys: Keys, node: Ptr)
    requires t.Valid() && node != 0 && node !in Nodes(t.tree)
    requires Sorted(keys, InOrder(t.tree))
    modifies t
    ensures t.Valid() && InOrder(t.tree) == InsertByKey(keys, old(InOrder(t.tree)), node)
  {
    var parent, side; ghost var k;
    parent, side, k := FindSlot(t, keys, Key(keys, node));
    InsertBetween(keys, Before(k), After(k), node);
    t.LinkNode(node, parent, side, k);
    ghost var rounds := t.InsertColor(node, k);
  }

  // ----- floor search -----

  /** A linear scan from the back for an element whose key is at most `a`. */
  ghost function Floor(keys: Keys, q: seq<Ptr>, a: nat): Ptr
  {
    if q == [] then 0 else
    var last := q[|q| - 1];
    if Key(keys, last) <= a then last else Floor(keys, q[..|q| - 1], a)
  }

  lemma {:induction false} FloorOfParts(keys: Keys, lo: seq<Ptr>, hi: seq<Ptr>, a: nat)
    requires AtMost(keys, lo, a) && Above(keys, hi, a)
    ensures Floor(keys, lo + hi, a) == End(R, lo)
  {
    if hi != [] {
      var n := |hi| - 1;
      assert hi[n] in hi;
      assert (lo + hi)[|lo + hi| - 1] == hi[n];
      assert (lo + hi)[..|lo + hi| - 1] == lo + hi[..n];
      FloorOfParts(keys, lo, hi[..n], a);
    } else {
      assert lo + hi == lo;
      if lo != [] { assert lo[|lo| - 1] in lo; }
    }
  }

  /** The last node with a key not above `a`, as the descent of the kernel symbol lookup
      finds it. */
  method FindFloor(t: RbTree, keys: Keys, a: nat) returns (found: Ptr)
    requires t.Linked() && Sorted(keys, InOrder(t.tree))
    ensures found == Floor(keys, InOrder(t.tree), a)
  {
    ghost var k, sub := Top, t.tree;
    var cur := t.root;
    found := 0;
    while cur != 0
      invariant At(t.mem, t.rk, t.root, k, sub) && Plug(k, sub) == t.tree && Root(sub) == cur
      invariant AtMost(keys, Before(k), a) && Above(keys, After(k), a) && found == End(R, Before(k))
      decreases sub
    {
      Compared(keys, k, sub);
      ForkAt(t.mem, t.rk, t.root, k, L, sub.left, cur, sub.color, sub.right);
      if a >= Key(keys, cur) {
        found := cur;
        cur := t.mem[cur].right;
        Descend(t.mem, t.rk, t.root, k, R, sub.right, sub.id, sub.color, sub.left);
        k, sub := Step(k, R, sub.id, sub.color, sub.left), sub.right;
      } else {
        cur := t.mem[cur].left;
        Descend(t.mem, t.rk, t.root, k, L, sub.left, sub.id, sub.color, sub.right);
        k, sub := Step(k, L, sub.id, sub.color, sub.right), sub.left;
      }
    }
    RootRank(t.mem, t.rk, CtxParent(k), sub, Hole(t.rk, k));
    PlugLeaf(k, 0, Red);
    FloorOfParts(keys, Before(k), After(k), a);
  }

  /** The floor is the greatest key not above `a`. */
  lemma {:induction false} FloorIsGreatest(keys: Keys, q: seq<Ptr>, a: nat)
    requires Sorted(keys, q) && 0 !in q
    ensures var f := Floor(keys, q, a);
            if f == 0 then Above(keys, q, a)
            else f in q && Key(keys, f) <= a && forall x :: x in q && Key(keys, x) <= a ==> Key(keys, x) <= Key(keys, f)
  {
    if q != [] {
      var n := |q| - 1;
      assert q == q[..n] + [q[n]];
      assert q[n] in q;
      if Key(keys, q[n]) <= a {
        SortedAround(keys, q[..n], q[n], []);
        assert q[..n] + [q[n]] + [] == q;
      } else {
        FloorIsGreatest(keys, q[..n], a);
      }
    }
  }

  /** The descent of the kernel symbol table, which stops at an equal key. */
  method FindFreeSlot(t: RbTree, keys: Keys, key: nat) returns (clash: bool, parent: Ptr, side: Side, ghost k: Ctx)
    requires t.Linked() && Sorted(keys, InOrder(t.tree))
    ensures clash ==> exists x :: x in InOrder(t.tree) && Key(keys, x) == key
    ensures !clash ==> Plug(k, Nil) == t.tree && parent == CtxParent(k) && (k.Step? ==> k.side == side)
    ensures !clash ==> AtMost(keys, Before(k), key) && Above(keys, After(k), key)
    ensures !clash ==> forall x :: x in InOrder(t.tree) ==> Key(keys, x) != key
  {
    ghost var sub := t.tree;
    k := Top;
    var cur := t.root;
    parent, side, clash := 0, L, false;
    while cur != 0
      invariant At(t.mem, t.rk, t.root, k, sub) && Plug(k, sub) == t.tree && Root(sub) == cur
      invariant parent == CtxParent(k) && (k.Step? ==> k.side == side)
      invariant AtMost(keys, Before(k), key) && Above(keys, After(k), key)
      invariant forall x :: x in Before(k) ==> Key(keys, x) != key
      decreases sub
    {
      parent := cur;
      Compared(keys, k, sub);
      ForkAt(t.mem, t.rk, t.root, k, L, sub.left, cur, sub.color, sub.right);
      if key < Key(keys, cur) {
        side, cur := L, t.mem[cur].left;
        Descend(t.mem, t.rk, t.root, k, L, sub.left, sub.id, sub.color, sub.right);
        k, sub := Step(k, L, sub.id, sub.color, sub.right), sub.left;
      } else if key > Key(keys, cur) {
        side, cur := R, t.mem[cur].right;
        Descend(t.mem, t.rk, t.root, k, R, sub.right, sub.id, sub.color, sub.left);
        k, sub := Step(k, R, sub.id, sub.color, sub.left), sub.right;
      } else {
        PlugNodes(k, sub);
        InOrderNodes(t.tree);
        assert cur in InOrder(t.tree);
        clash := true;
        return;
      }
    }
    RootRank(t.mem, t.rk, parent, sub, Hole(t.rk, k));
    PlugLeaf(k, 0, Red);
  }

  /** Inserts `node` unless its key is already there. */
  method InsertUnique(t: RbTree, keys: Keys, node: Ptr) returns (ok: bool)
    requires t.Valid() && node != 0 && node !in Nodes(t.tree)
    requires Sorted(keys, InOrder(t.tree))
    modifies t
    ensures t.Valid() && ok == forall x :: x in old(InOrder(t.tree)) ==> Key(keys, x) != Key(keys, node)
    ensures InOrder(t.tree) == if ok then InsertByKey(keys, old(InOrder(t.tree)), node) else old(InOrder(t.tree))
  {
    var clash, parent, side; ghost var k;
    clash, parent, side, k := FindFreeSlot(t, keys, Key(keys, node));
    if clash { return false; }
    InsertBetween(keys, Before(k), After(k), node);
    t.LinkNode(node, parent, side, k);
    ghost var rounds := t.InsertColor(node, k);
    ok := true;
  }

  // ----- interval search -----

  /** The half-open range of addresses that a node covers. */
  ghost predicate Covers(keys: Keys, sizes: Keys, x: Ptr, a: nat)
  {
    Key(keys, x) <= a < Key(keys, x) + Key(sizes, x)
  }

  /** What the interval search finds in a tree. */
  ghost function Search(keys: Keys, sizes: Keys, t: Tree, a: nat): Ptr
  {
    if t == Nil then 0
    else if a < Key(keys, t.id) then Search(keys, sizes, t.left, a)
    else if a >= Key(keys, t.id) + Key(sizes, t.id) then Search(keys, sizes, t.right, a)
    else t.id
  }

  method FindInterval(t: RbTree, keys: Keys, sizes: Keys, a: nat) returns (found: Ptr)
    requires t.Linked()
    ensures found == Search(keys, sizes, t.tree, a)
    ensures found != 0 ==> found in Nodes(t.tree)
  {
    ghost var k, sub := Top, t.tree;
    var cur := t.root;
    while cur != 0
      invariant At(t.mem, t.rk, t.root, k, sub) && Plug(k, sub) == t.tree && Root(sub) == cur
      invariant Search(keys, sizes, sub, a) == Search(keys, sizes, t.tree, a)
      decreases sub
    {
      ForkAt(t.mem, t.rk, t.root, k, L, sub.left, cur, sub.color, sub.right);
      if a < Key(keys, cur) {
        cur := t.mem[cur].left;
        Descend(t.mem, t.rk, t.root, k, L, sub.left, sub.id, sub.color, sub.right);
        k, sub := Step(k, L, sub.id, sub.color, sub.right), sub.left;
      } else if a >= Key(keys, cur) + Key(sizes, cur) {
        cur := t.mem[cur].right;
        Descend(t.mem, t.rk, t.root, k, R, sub.right, sub.id, sub.color, sub.left);
        k, sub := Step(k, R, sub.id, sub.color, sub.left), sub.right;
      } else {
        PlugNodes(k, sub);
        return cur;
      }
    }
    RootRank(t.mem, t.rk, CtxParent(k), sub, Hole(t.rk, k));
    return 0;
  }

  /** What is found covers the address. */
  lemma {:induction false} SearchSound(keys: Keys, sizes: Keys, t: Tree, a: nat)
    ensures var x := Search(keys, sizes, t, a); x == 0 || (x in Nodes(t) && Covers(keys, sizes, x, a))
  {
    if t.Node? {
      SearchSound(keys, sizes, t.left, a);
      SearchSound(keys, sizes, t.right, a);
    }
  }

  lemma {:induction false} SortedParts(keys: Keys, l: seq<Ptr>, n: Ptr, r: seq<Ptr>)
    requires Sorted(keys, l + [n] + r)
    ensures Sorted(keys, l) && Sorted(keys, r)
  {
    var q := l + [n] + r;
    assert forall i :: 0 <= i < |l| ==> q[i] == l[i];
    assert forall i :: 0 <= i < |r| ==> q[|l| + 1 + i] == r[i];
  }

  /** The floor of a sorted sequence around `n` lies behind `n` or is not behind it. */
  lemma {:induction false} FloorAround(keys: Keys, l: seq<Ptr>, n: Ptr, r: seq<Ptr>, a: nat)
    requires Sorted(keys, l + [n] + r) && 0 !in l + [n] + r
    ensures a < Key(keys, n) ==> Floor(keys, l + [n] + r, a) == Floor(keys, l, a)
    ensures a >= Key(keys, n) ==>
              Floor(keys, l + [n] + r, a) == if Floor(keys, r, a) != 0 then Floor(keys, r, a) else n
    decreases |r|
  {
    var q := l + [n] + r;
    SortedAround(keys, l, n, r);
    if r == [] {
      assert q == l + [n] && q[..|q| - 1] == l && q[|q| - 1] == n;
    } else {
      var m := |r| - 1;
      assert q[..|q| - 1] == l + [n] + r[..m] && q[|q| - 1] == r[m] && r[m] in r && r[m] in q;
      SortedPrefix(keys, q);
      FloorAround(keys, l, n, r[..m], a);
    }
  }

  lemma {:induction false} SortedPrefix(keys: Keys, q: seq<Ptr>)
    requires Sorted(keys, q) && q != []
    ensures Sorted(keys, q[..|q| - 1])
  {
  }

  /** An address is found in every search tree in which its floor covers it. */
  lemma {:induction false} FloorIsFound(keys: Keys, sizes: Keys, t: Tree, a: nat)
    requires Sorted(keys, InOrder(t)) && 0 !in InOrder(t)
    requires var f := Floor(keys, InOrder(t), a); f != 0 && Covers(keys, sizes, f, a)
    ensures Search(keys, sizes, t, a) != 0
  {
    var l, r := InOrder(t.left), InOrder(t.right);
    var q := InOrder(t);
    assert q == l + [t.id] + r;
    assert t.id in q;
    SortedParts(keys, l, t.id, r);
    FloorAround(keys, l, t.id, r, a);
    if a < Key(keys, t.id) {
      FloorIsFound(keys, sizes, t.left, a);
    } else if a >= Key(keys, t.id) + Key(sizes, t.id) {
      FloorIsFound(keys, sizes, t.right, a);
    }
  }

  /** A tree that is a list: every node has only a right child. */
  ghost function Spine(q: seq<Ptr>): Tree
  {
    if q == [] then Nil else Node(Nil, q[0], Black, Spine(q[1..]))
  }

  lemma {:induction false} SpineOrder(q: seq<Ptr>)
    ensures InOrder(Spine(q)) == q
  {
    if q != [] { SpineOrder(q[1..]); }
  }

  lemma {:induction false} NothingAbove(keys: Keys, sizes: Keys, q: seq<Ptr>, a: nat)
    requires Above(keys, q, a)
    ensures Search(keys, sizes, Spine(q), a) == 0
  {
    if q != [] { assert q[0] in q; }
  }

  /** The place of the floor: nothing behind it has a key that small. */
  lemma {:induction false} FloorPlace(keys: Keys, q: seq<Ptr>, a: nat) returns (i: nat)
    requires Floor(keys, q, a) != 0
    ensures i < |q| && q[i] == Floor(keys, q, a) && Key(keys, q[i]) <= a && Above(keys, q[i + 1..], a)
  {
    var n := |q| - 1;
    if Key(keys, q[n]) <= a {
      i := n;
    } else {
      i := FloorPlace(keys, q[..n], a);
      assert q[i + 1..] == q[..n][i + 1..] + [q[n]];
    }
  }

  /** A tree over the sequence `q` with its floor for `a` at the root. */
  ghost function FloorAtRoot(q: seq<Ptr>, i: nat): Tree
    requires i < |q|
  {
    Node(Spine(q[..i]), q[i], Black, Spine(q[i + 1..]))
  }

  /** If the floor does not cover the address, some search tree over the same sequence
      misses it: the one with the floor at the root. */
  lemma {:induction false} FloorCanHide(keys: Keys, sizes: Keys, q: seq<Ptr>, a: nat) returns (t: Tree)
    requires var f := Floor(keys, q, a); f != 0 && !Covers(keys, sizes, f, a)
    ensures InOrder(t) == q && Search(keys, sizes, t, a) == 0
  {
    var i := FloorPlace(keys, q, a);
    t := FloorAtRoot(q, i);
    SpineOrder(q[..i]);
    SpineOrder(q[i + 1..]);
    assert q == q[..i] + [q[i]] + q[i + 1..];
    NothingAbove(keys, sizes, q[i + 1..], a);
  }

  ghost predicate Covered(keys: Keys, sizes: Keys, q: seq<Ptr>, a: nat)
  {
    exists x :: x in q && Covers(keys, sizes, x, a)
  }

  /** The search in `t` agrees with a linear scan. */
  ghost predicate Agrees(keys: Keys, sizes: Keys, t: Tree, a: nat)
  {
    Search(keys, sizes, t, a) != 0 <==> Covered(keys, sizes, InOrder(t), a)
  }

  /** A covered address has a floor. */
  lemma {:induction false} CoveredHasFloor(keys: Keys, sizes: Keys, q: seq<Ptr>, a: nat)
    requires 0 !in q && Covered(keys, sizes, q, a)
    ensures Floor(keys, q, a) != 0
  {
    var x :| x in q && Covers(keys, sizes, x, a);
    var n := |q| - 1;
    assert q[n] in q;
    if Key(keys, q[n]) > a {
      assert q == q[..n] + [q[n]];
      assert Covered(keys, sizes, q[..n], a);
      CoveredHasFloor(keys, sizes, q[..n], a);
    }
  }

  /** The search agrees with a linear scan in every search tree over a sorted sequence if
      and only if the floor of the address covers it or nothing does. */
  lemma {:induction false} AgreesInEveryShapeIff(keys: Keys, sizes: Keys, q: seq<Ptr>, a: nat)
    requires Sorted(keys, q) && 0 !in q
    ensures (forall t: Tree :: InOrder(t) == q ==> Agrees(keys, sizes, t, a)) <==>
              (Covered(keys, sizes, q, a) ==> Covers(keys, sizes, Floor(keys, q, a), a))
  {
    if Covered(keys, sizes, q, a) {
      CoveredHasFloor(keys, sizes, q, a);
      if !Covers(keys, sizes, Floor(keys, q, a), a) {
        var t := FloorCanHide(keys, sizes, q, a);
        assert !Agrees(keys, sizes, t, a);
      }
    }
    if Covered(keys, sizes, q, a) ==> Covers(keys, sizes, Floor(keys, q, a), a) {
      forall t: Tree | InOrder(t) == q
        ensures Agrees(keys, sizes, t, a)
      {
        FloorAgrees(keys, sizes, t, a);
      }
    }
  }

  lemma {:induction false} FloorAgrees(keys: Keys, sizes: Keys, t: Tree, a: nat)
    requires Sorted(keys, InOrder(t)) && 0 !in InOrder(t)
    requires Covered(keys, sizes, InOrder(t), a) ==> Covers(keys, sizes, Floor(keys, InOrder(t), a), a)
    ensures Agrees(keys, sizes, t, a)
  {
    SearchSound(keys, sizes, t, a);
    InOrderNodes(t);
    if Covered(keys, sizes, InOrder(t), a) {
      CoveredHasFloor(keys, sizes, InOrder(t), a);
      FloorIsFound(keys, sizes, t, a);
    }
  }

  /** Ranges with different starts are disjoint, ranges with equal starts are equal. */
  ghost predicate Layered(keys: Keys, sizes: Keys, q: seq<Ptr>)
  {
    forall x, y :: x in q && y in q ==>
      && (Key(keys, x) < Key(keys, y) ==> Key(keys, x) + Key(sizes, x) <= Key(keys, y))
      && (Key(keys, x) == Key(keys, y) ==> Key(sizes, x) == Key(sizes, y))
  }

  lemma {:induction false} LayeredFloor(keys: Keys, sizes: Keys, q: seq<Ptr>, a: nat, x: Ptr)
    requires Sorted(keys, q) && Layered(keys, sizes, q) && 0 !in q && x in q && Covers(keys, sizes, x, a)
    ensures var f := Floor(keys, q, a); f in q && Covers(keys, sizes, f, a) && Key(keys, f) == Key(keys, x)
  {
    assert Covered(keys, sizes, q, a);
    CoveredHasFloor(keys, sizes, q, a);
    var i := FloorPlace(keys, q, a);
    var j :| 0 <= j < |q| && q[j] == x;
    assert q[i] in q;
    BehindFloor(keys, q, i, a);
  }

  lemma {:induction false} BehindFloor(keys: Keys, q: seq<Ptr>, i: nat, a: nat)
    requires i < |q| && Above(keys, q[i + 1..], a)
    ensures forall j :: i < j < |q| ==> a < Key(keys, q[j])
  {
    forall j | i < j < |q|
      ensures a < Key(keys, q[j])
    {
      assert q[i + 1..][j - i - 1] == q[j];
    }
  }

  /** For such ranges the search agrees with a linear scan in every tree, wherever rotations
      have moved the duplicates, and every covering node has the range of the one found. */
  lemma {:induction false} SearchIsScan(keys: Keys, sizes: Keys, t: Tree, a: nat)
    requires Sorted(keys, InOrder(t)) && Layered(keys, sizes, InOrder(t)) && 0 !in InOrder(t)
    ensures Agrees(keys, sizes, t, a)
    ensures forall x :: x in InOrder(t) && Covers(keys, sizes, x, a) ==>
              Key(keys, x) == Key(keys, Search(keys, sizes, t, a)) &&
                Key(sizes, x) == Key(sizes, Search(keys, sizes, t, a))
  {
    SearchSound(keys, sizes, t, a);
    InOrderNodes(t);
    if Covered(keys, sizes, InOrder(t), a) {
      var x :| x in InOrder(t) && Covers(keys, sizes, x, a);
      LayeredFloor(keys, sizes, InOrder(t), a, x);
    }
    FloorAgrees(keys, sizes, t, a);
  }

  /** Without that condition a covered address can be missed: the search turns right at a
      short range and never sees the long one that starts before it. */
  lemma SearchCanMiss()
    ensures exists keys: Keys, sizes: Keys, t: Tree, a: nat, x: Ptr ::
              && RedBlack(t) && Sorted(keys, InOrder(t)) && x in InOrder(t)
              && Covers(keys, sizes, x, a) && Search(keys, sizes, t, a) == 0
  {
    var keys: Keys, sizes: Keys := map[1 := 0, 2 := 10], map[1 := 100, 2 := 5];
    var t := Node(Node(Nil, 1, Red, Nil), 2, Black, Nil);
    assert InOrder(t) == [1, 2];
    assert Wf(Node(Nil, 1, Red, Nil));
    assert RedBlack(t) && Sorted(keys, InOrder(t)) && 1 in InOrder(t);
    assert Covers(keys, sizes, 1, 50) && Search(keys, sizes, t, 50) == 0;
  }

  lemma {:induction false} AllRed(t: Tree)
    requires Wf(t) && BlackHeight(t) == 0 && t.Node?
    ensures t == Node(Nil, t.id, Red, Nil)
  {
    if t.left.Node? { AllRed(t.left); }
    if t.right.Node? { AllRed(t.right); }
  }

  /** Red-black shapes alone do not realize every search tree: three nodes have only one
      red-black shape, in which a covering middle node is found whatever the floor covers. */
  lemma {:induction false} BalanceCanHelp(keys: Keys, sizes: Keys, t: Tree, z: Ptr, c: Ptr, f: Ptr, a: nat)
    requires RedBlack(t) && InOrder(t) == [z, c, f] && Covers(keys, sizes, c, a)
    ensures Search(keys, sizes, t, a) == c
  {
    var l, r := InOrder(t.left), InOrder(t.right);
    assert InOrder(t) == l + [t.id] + r && |l| + |r| == 2;
    if t.left == Nil {
      AllRed(t.right);
    } else if t.right == Nil {
      AllRed(t.left);
    } else {
      assert |l| > 0 && |r| > 0;
      assert [z, c, f][|l|] == t.id;
    }
  }
}
