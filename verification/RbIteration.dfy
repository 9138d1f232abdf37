/** Walking a red-black tree: first, last, next, previous, post-order, and draining. */
module RbIteration {
  import opened Sequences
  import opened RbShape
  import opened RbMemory
  import opened RbTrees

  /** Element `i` of a sequence, null outside its bounds. */
  ghost function Nth(q: seq<Ptr>, i: int): Ptr { if 0 <= i < |q| then q[i] else 0 }

  /** The first element for side L and the last one for side R; null if there is none. */
  ghost function End(s: Side, q: seq<Ptr>): Ptr { if s == L then Nth(q, 0) else Nth(q, |q| - 1) }

  /** The end on side `s` of the subtree below `n`, found by following `s` children. */
  method Extreme(t: RbTree, n: Ptr, s: Side, ghost k0: Ctx, ghost t0: Tree) returns (r: Ptr)
    requires At(t.mem, t.rk, t.root, k0, t0) && t0.Node? && t0.id == n
    ensures r != 0 && r == End(s, InOrder(t0))
  {
    ghost var k, sub := k0, t0;
    r := n;
    ForkAt(t.mem, t.rk, t.root, k, L, sub.left, r, sub.color, sub.right);
    while t.mem[r].Child(s) != 0
      invariant At(t.mem, t.rk, t.root, k, sub) && sub.Node? && sub.id == r && r in t.mem && r != 0
      invariant t.mem[r].left == Root(sub.left) && t.mem[r].right == Root(sub.right)
      invariant Root(sub.left) == 0 ==> sub.left == Nil
      invariant Root(sub.right) == 0 ==> sub.right == Nil
      invariant End(s, InOrder(sub)) == End(s, InOrder(t0))
      decreases sub
    {
      var c := if s == L then sub.left else sub.right;
      Descend(t.mem, t.rk, t.root, k, s, c, sub.id, sub.color, if s == L then sub.right else sub.left);
      k := Step(k, s, sub.id, sub.color, if s == L then sub.right else sub.left);
      assert InOrder(c) != [];
      sub := c;
      r := t.mem[r].Child(s);
      ForkAt(t.mem, t.rk, t.root, k, L, sub.left, r, sub.color, sub.right);
    }
  }

  method First(t: RbTree) returns (r: Ptr)
    requires t.Linked()
    ensures r == Nth(InOrder(t.tree), 0)
  {
    if t.root == 0 {
      RootRank(t.mem, t.rk, 0, t.tree, Hole(t.rk, Top));
      return 0;
    }
    r := Extreme(t, t.root, L, Top, t.tree);
  }

  method Last(t: RbTree) returns (r: Ptr)
    requires t.Linked()
    ensures r == Nth(InOrder(t.tree), |InOrder(t.tree)| - 1)
  {
    if t.root == 0 {
      RootRank(t.mem, t.rk, 0, t.tree, Hole(t.rk, Top));
      return 0;
    }
    r := Extreme(t, t.root, R, Top, t.tree);
  }

  /** What lies beyond the hole of `k` on side `s`. */
  ghost function Outer(k: Ctx, s: Side): seq<Ptr> { if s == R then After(k) else Before(k) }

  /** Climbs from `node` until it comes out of a child that is not on side `s`. */
  method Climb(t: RbTree, node: Ptr, s: Side, ghost k0: Ctx, ghost t0: Tree) returns (r: Ptr)
    requires At(t.mem, t.rk, t.root, k0, t0) && t0.Node? && t0.id == node
    ensures r == End(s.Opp(), Outer(k0, s))
  {
    ghost var k, sub := k0, t0;
    var n := node;
    RootRank(t.mem, t.rk, CtxParent(k), sub, Hole(t.rk, k));
    r := t.mem[n].parent;
    while r != 0 && n == t.mem[r].Child(s)
      invariant At(t.mem, t.rk, t.root, k, sub) && sub.Node? && sub.id == n && r == CtxParent(k)
      invariant r != 0 ==> r in t.mem
      invariant Outer(k0, s) == Outer(k, s)
      decreases k
    {
      ForkAt(t.mem, t.rk, t.root, k.up, k.side, sub, k.id, k.color, k.other);
      assert k.side == s;
      sub := Mk(k.side, sub, k.id, k.color, k.other);
      k := k.up;
      n := r;
      r := t.mem[n].parent;
      ParentRank(t.mem, t.rk, t.root, k, n);
    }
    if k.Step? {
      ForkAt(t.mem, t.rk, t.root, k.up, k.side, sub, k.id, k.color, k.other);
    }
  }

  /** Where a node stands in the in-order sequence, and its two neighbours. */
  lemma {:induction false} Neighbours(k: Ctx, l: Tree, n: Ptr, c: Color, r: Tree) returns (i: nat)
    ensures var q := InOrder(Plug(k, Node(l, n, c, r)));
            && i < |q| && q[i] == n
            && Nth(q, i + 1) == (if r == Nil then End(L, After(k)) else End(L, InOrder(r)))
            && Nth(q, i - 1) == (if l == Nil then End(R, Before(k)) else End(R, InOrder(l)))
  {
    PlugInOrder(k, Node(l, n, c, r));
    Regroup(Before(k), InOrder(l), n, InOrder(r), After(k));
    i := |Before(k)| + |InOrder(l)|;
    assert r.Node? ==> |InOrder(r)| > 0;
    assert l.Node? ==> |InOrder(l)| > 0;
  }

  /** An unlinked node that `RB_CLEAR_NODE` made its own red parent. */
  predicate Cleared(m: Memory, n: Ptr) { n in m && m[n].parent == n && m[n].color == Red }

  /** The neighbour of `node`, which is in place `i` of the in-order sequence: the next one
      for side R, the previous one for side L. */
  method NeighbourAt(t: RbTree, node: Ptr, s: Side) returns (r: Ptr, ghost i: nat)
    requires t.Linked() && node in Nodes(t.tree)
    ensures i < |InOrder(t.tree)| && InOrder(t.tree)[i] == node
    ensures r == Nth(InOrder(t.tree), if s == R then i + 1 else i - 1)
  {
    ghost var k, sub := Locate(t.tree, node);
    Refocus(t.mem, t.rk, t.root, k, sub);
    ForkAt(t.mem, t.rk, t.root, k, L, sub.left, node, sub.color, sub.right);
    i := Neighbours(k, sub.left, node, sub.color, sub.right);
    ghost var c := if s == L then sub.left else sub.right;
    if t.mem[node].Child(s) != 0 {
      ghost var o := if s == L then sub.right else sub.left;
      Descend(t.mem, t.rk, t.root, k, s, c, node, sub.color, o);
      r := Extreme(t, t.mem[node].Child(s), s.Opp(), Step(k, s, node, sub.color, o), c);
    } else {
      r := Climb(t, node, s, k, sub);
    }
  }

  /** A node in the tree is never its own parent. */
  lemma {:induction false} NotCleared(m: Memory, rk: Ranks, rt: Ptr, t: Tree, node: Ptr)
    requires At(m, rk, rt, Top, t) && node in Nodes(t)
    ensures node in m && m[node].parent != node
  {
    var k, sub := Locate(t, node);
    Refocus(m, rk, rt, k, sub);
    ForkAt(m, rk, rt, k, L, sub.left, node, sub.color, sub.right);
    ParentRank(m, rk, rt, k, node);
  }

  /** The neighbour of `node` in the in-order sequence; null for an unlinked node. */
  method Neighbour(t: RbTree, node: Ptr, s: Side) returns (r: Ptr)
    requires t.Linked() && (node in Nodes(t.tree) || Cleared(t.mem, node))
    ensures node in Nodes(t.tree) ==>
              forall i | 0 <= i < |InOrder(t.tree)| && InOrder(t.tree)[i] == node ::
                r == Nth(InOrder(t.tree), if s == R then i + 1 else i - 1)
    ensures node !in Nodes(t.tree) ==> r == 0
  {
    if node in Nodes(t.tree) { NotCleared(t.mem, t.rk, t.root, t.tree, node); }
    if t.mem[node].parent == node && t.mem[node].color == Red {
      return 0;
    }
    ghost var i;
    r, i := NeighbourAt(t, node, s);
    RankedInOrder(t.mem, t.rk, 0, t.tree, Hole(t.rk, Top));
  }

  method Next(t: RbTree, node: Ptr) returns (r: Ptr)
    requires t.Linked() && (node in Nodes(t.tree) || Cleared(t.mem, node))
    ensures node in Nodes(t.tree) ==>
              forall i | 0 <= i < |InOrder(t.tree)| && InOrder(t.tree)[i] == node :: r == Nth(InOrder(t.tree), i + 1)
    ensures node !in Nodes(t.tree) ==> r == 0
  {
    r := Neighbour(t, node, R);
  }

  method Prev(t: RbTree, node: Ptr) returns (r: Ptr)
    requires t.Linked() && (node in Nodes(t.tree) || Cleared(t.mem, node))
    ensures node in Nodes(t.tree) ==>
              forall i | 0 <= i < |InOrder(t.tree)| && InOrder(t.tree)[i] == node :: r == Nth(InOrder(t.tree), i - 1)
    ensures node !in Nodes(t.tree) ==> r == 0
  {
    r := Neighbour(t, node, L);
  }

  /** Going to the next node and back returns to the same node. */
  method NextThenPrev(t: RbTree, node: Ptr) returns (next: Ptr, back: Ptr)
    requires t.Linked() && node in Nodes(t.tree)
    ensures next != 0 ==> back == node
    ensures next == 0 ==> InOrder(t.tree)[|InOrder(t.tree)| - 1 ..] == [node]
  {
    InOrderNodes(t.tree);
    RankedInOrder(t.mem, t.rk, 0, t.tree, Hole(t.rk, Top));
    ghost var i :| 0 <= i < |InOrder(t.tree)| && InOrder(t.tree)[i] == node;
    next := Next(t, node);
    back := 0;
    if next != 0 {
      assert InOrder(t.tree)[i + 1] == next;
      back := Prev(t, next);
    }
  }

  /** From the first node on, following `Next` visits exactly the in-order sequence. */
  method Enumerate(t: RbTree) returns (visited: seq<Ptr>)
    requires t.Linked()
    ensures visited == InOrder(t.tree)
  {
    ghost var q := InOrder(t.tree);
    InOrderNodes(t.tree);
    RankedInOrder(t.mem, t.rk, 0, t.tree, Hole(t.rk, Top));
    visited := [];
    var node := First(t);
    while node != 0
      invariant visited <= q && node == Nth(q, |visited|)
      decreases |q| - |visited|
    {
      assert q[|visited|] == node;
      var next := Next(t, node);
      visited := visited + [node];
      node := next;
    }
    NullAtEnd(q, |visited|);
  }

  lemma {:induction false} NullAtEnd(q: seq<Ptr>, n: nat)
    requires 0 !in q && n <= |q|
    ensures Nth(q, n) == 0 <==> n == |q|
  {
    if n < |q| { assert q[n] in q; }
  }

  lemma {:induction false} WithoutFirst(q: seq<Ptr>)
    requires NoDup(q) && q != []
    ensures Without(q, q[0]) == q[1..]
  {
    assert q == [] + [q[0]] + q[1..];
    WithoutMoved([], q[0], q[1..]);
  }

  /** One round of the drain loop: the next node is fetched before the first one is erased. */
  method EraseFirst(t: RbTree, node: Ptr) returns (next: Ptr)
    requires t.Valid() && InOrder(t.tree) != [] && node == InOrder(t.tree)[0]
    modifies t
    ensures t.Valid() && InOrder(t.tree) == old(InOrder(t.tree))[1..] && next == Nth(InOrder(t.tree), 0)
  {
    InOrderNodes(t.tree);
    RankedInOrder(t.mem, t.rk, 0, t.tree, Hole(t.rk, Top));
    WithoutFirst(InOrder(t.tree));
    next := Next(t, node);
    ghost var rounds := t.Erase(node);
  }

  /** The drain loop. Every node is visited once, in order, and the tree ends up empty. */
  method Drain(t: RbTree) returns (visited: seq<Ptr>)
    requires t.Valid()
    modifies t
    ensures t.Valid() && t.tree == Nil && t.root == 0
    ensures visited == old(InOrder(t.tree))
  {
    visited := [];
    ghost var q := InOrder(t.tree);
    var node := First(t);
    while node != 0
      invariant t.Valid() && |visited| <= |q| && visited == q[..|visited|]
      invariant InOrder(t.tree) == q[|visited|..] && node == Nth(InOrder(t.tree), 0)
      decreases |q| - |visited|
    {
      MoveOver(q, |visited|);
      var next := EraseFirst(t, node);
      visited := visited + [node];
      node := next;
    }
    NonNull(t.mem, t.rk, t.tree);
  }

  lemma {:induction false} MoveOver(q: seq<Ptr>, n: nat)
    requires n <= |q|
    ensures n < |q| ==> q[n..][0] == q[n] && q[n..][1..] == q[n + 1..] && q[..n] + [q[n]] == q[..n + 1]
  {
  }

  lemma {:induction false} NonNull(m: Memory, rk: Ranks, t: Tree)
    requires Rep(m, rk, 0, t, Hole(rk, Top))
    ensures t.Node? ==> Nth(InOrder(t), 0) != 0
  {
    RankedInOrder(m, rk, 0, t, Hole(rk, Top));
    if t.Node? { assert InOrder(t)[0] in InOrder(t); }
  }

  // ----- post-order -----

  lemma {:induction false} PostOrderNodes(t: Tree)
    ensures forall x :: x in PostOrder(t) <==> x in Nodes(t)
  {
    if t.Node? {
      PostOrderNodes(t.left);
      PostOrderNodes(t.right);
    }
  }

  lemma {:induction false} RankedPostOrder(m: Memory, rk: Ranks, p: Ptr, t: Tree, sp: Span)
    requires Rep(m, rk, p, t, sp)
    ensures forall x :: x in PostOrder(t) ==> x != 0 && sp.Has(Rank(rk, x))
    ensures NoDup(PostOrder(t))
    decreases t
  {
    if t.Node? {
      RankedPostOrder(m, rk, t.id, t.left, sp.Part(L, Rank(rk, t.id)));
      RankedPostOrder(m, rk, t.id, t.right, sp.Part(R, Rank(rk, t.id)));
      var a, b := PostOrder(t.left), PostOrder(t.right);
      assert forall i :: 0 <= i < |a| ==> a[i] in a;
      assert forall i :: 0 <= i < |b| ==> b[i] in b;
    }
  }

  method LeftDeepest(t: RbTree, n: Ptr, ghost k0: Ctx, ghost t0: Tree) returns (r: Ptr)
    requires At(t.mem, t.rk, t.root, k0, t0) && t0.Node? && t0.id == n
    ensures r != 0 && r == Nth(PostOrder(t0), 0)
  {
    ghost var k, sub := k0, t0;
    r := n;
    while true
      invariant At(t.mem, t.rk, t.root, k, sub) && sub.Node? && sub.id == r
      invariant Nth(PostOrder(sub), 0) == Nth(PostOrder(t0), 0)
      decreases sub
    {
      ForkAt(t.mem, t.rk, t.root, k, L, sub.left, r, sub.color, sub.right);
      if t.mem[r].left != 0 {
        r := t.mem[r].left;
        Descend(t.mem, t.rk, t.root, k, L, sub.left, sub.id, sub.color, sub.right);
        k, sub := Step(k, L, sub.id, sub.color, sub.right), sub.left;
      } else if t.mem[r].right != 0 {
        r := t.mem[r].right;
        Descend(t.mem, t.rk, t.root, k, R, sub.right, sub.id, sub.color, sub.left);
        k, sub := Step(k, R, sub.id, sub.color, sub.left), sub.right;
      } else {
        return;
      }
      assert PostOrder(sub) != [];
    }
  }

  method FirstPostorder(t: RbTree) returns (r: Ptr)
    requires t.Linked()
    ensures r == Nth(PostOrder(t.tree), 0)
  {
    if t.root == 0 {
      RootRank(t.mem, t.rk, 0, t.tree, Hole(t.rk, Top));
      return 0;
    }
    r := LeftDeepest(t, t.root, Top, t.tree);
  }

  /** A node comes right after its subtrees in the post-order sequence. */
  lemma {:induction false} PostOrderPlace(k: Ctx, t: Tree) returns (i: nat)
    requires t.Node?
    ensures var q := PostOrder(Plug(k, t));
            && i < |q| && q[i] == t.id && Nth(q, i + 1) == Nth(PostAfter(k), 0)
            && forall x :: x in Nodes(t) && x != t.id ==> x in q[..i]
  {
    PlugPostOrder(k, t);
    PostOrderNodes(t);
    var a := PostBefore(k) + PostOrder(t.left) + PostOrder(t.right);
    i := |a|;
    var q := PostOrder(Plug(k, t));
    assert q == a + [t.id] + PostAfter(k);
    assert q[..i] == a;
  }

  method NextPostorder(t: RbTree, node: Ptr) returns (r: Ptr)
    requires t.Linked() && (node == 0 || node in Nodes(t.tree))
    ensures node == 0 ==> r == 0
    ensures node != 0 ==>
              forall i | 0 <= i < |PostOrder(t.tree)| &&
                PostOrder(t.tree)[i] == node :: r == Nth(PostOrder(t.tree), i + 1)
  {
    if node == 0 { return 0; }
    ghost var k, sub := Locate(t.tree, node);
    Refocus(t.mem, t.rk, t.root, k, sub);
    RankedPostOrder(t.mem, t.rk, 0, t.tree, Hole(t.rk, Top));
    ghost var i := PostOrderPlace(k, sub);
    RootRank(t.mem, t.rk, CtxParent(k), sub, Hole(t.rk, k));
    var parent := t.mem[node].parent;
    if k.Step? {
      ForkAt(t.mem, t.rk, t.root, k.up, k.side, sub, k.id, k.color, k.other);
    }
    if parent != 0 && node == t.mem[parent].left && t.mem[parent].right != 0 {
      assert k.side == L && k.other.Node?;
      Descend(t.mem, t.rk, t.root, k.up, R, k.other, k.id, k.color, sub);
      r := LeftDeepest(t, t.mem[parent].right, Step(k.up, R, k.id, k.color, sub), k.other);
      assert PostOrder(k.other) != [];
    } else {
      r := parent;
    }
  }

  /** Every node but the root comes before its parent. */
  lemma {:induction false} ParentLater(m: Memory, rk: Ranks, p: Ptr, t: Tree, sp: Span, i: nat) returns (j: nat)
    requires Rep(m, rk, p, t, sp) && i + 1 < |PostOrder(t)|
    ensures var q := PostOrder(t); i < j < |q| && q[i] in m && m[q[i]].parent == q[j]
    decreases t
  {
    var a, b, q := PostOrder(t.left), PostOrder(t.right), PostOrder(t);
    if i < |a| {
      assert q[i] == a[i];
      if i + 1 == |a| {
        j := |q| - 1;
      } else {
        j := ParentLater(m, rk, t.id, t.left, sp.Part(L, Rank(rk, t.id)), i);
      }
    } else {
      var i' := i - |a|;
      assert q[i] == b[i'];
      if i' + 1 == |b| {
        j := |q| - 1;
      } else {
        j := ParentLater(m, rk, t.id, t.right, sp.Part(R, Rank(rk, t.id)), i');
        j := j + |a|;
      }
    }
  }

  /** In a sequence without duplicates this says where the parent is. */
  lemma {:induction false} ChildrenFirst(m: Memory, rk: Ranks, t: Tree)
    requires Rep(m, rk, 0, t, Hole(rk, Top)) && NoDup(PostOrder(t)) && 0 !in PostOrder(t)
    ensures var q := PostOrder(t);
            forall i, j :: 0 <= i < |q| && 0 <= j < |q| && q[i] in m && m[q[i]].parent == q[j] ==> i < j
  {
    var q := PostOrder(t);
    forall i, j | 0 <= i < |q| && 0 <= j < |q| && q[i] in m && m[q[i]].parent == q[j]
      ensures i < j
    {
      if i + 1 < |q| {
        var j' := ParentLater(m, rk, 0, t, Hole(rk, Top), i);
      }
    }
  }

  /** Post-order iteration visits every node once, children before parents. */
  method EnumeratePostorder(t: RbTree) returns (visited: seq<Ptr>)
    requires t.Linked()
    ensures visited == PostOrder(t.tree) && NoDup(visited)
    ensures forall i, j | 0 <= i < |visited| && 0 <= j < |visited| ::
              visited[i] in t.mem && t.mem[visited[i]].parent == visited[j] ==> i < j
    ensures forall x :: x in visited <==> x in Nodes(t.tree)
  {
    ghost var q := PostOrder(t.tree);
    PostOrderNodes(t.tree);
    RankedPostOrder(t.mem, t.rk, 0, t.tree, Hole(t.rk, Top));
    ChildrenFirst(t.mem, t.rk, t.tree);
    visited := [];
    var node := FirstPostorder(t);
    while node != 0
      invariant visited <= q && node == Nth(q, |visited|)
      decreases |q| - |visited|
    {
      assert q[|visited|] == node;
      var next := NextPostorder(t, node);
      visited := visited + [node];
      node := next;
    }
    NullAtEnd(q, |visited|);
  }
}
