/** The red-black tree operations, on memory. */
module RbTrees {
  import opened Sequences
  import opened RbShape
  import opened RbMemory

  class RbTree {
    var mem: Memory
    var root: Ptr
    ghost var rk: Ranks
    ghost var tree: Tree

    /** Memory holds `tree`, with consistent child and parent pointers. */
    ghost predicate Linked()
      reads this
    {
      At(mem, rk, root, Top, tree)
    }

    ghost predicate Valid()
      reads this
    {
      Linked() && RedBlack(tree)
    }

    method ChangeChild(o: Ptr, n: Ptr, parent: Ptr, ghost k: Ctx)
      requires parent == CtxParent(k) && Slot(mem, k, o)
      modifies this`mem, this`root
      ensures Hooked(old(mem), old(root), mem, root, k, n) && Only(old(mem), mem, Writes(parent, 0, 0, 0, 0, 0))
    {
      if parent != 0 {
        if mem[parent].left == o {
          mem := PutChild(mem, parent, L, n);
        } else {
          mem := PutChild(mem, parent, R, n);
        }
      } else {
        root := n;
      }
    }

    method RotateSetParents(o: Ptr, n: Ptr, c: Color, ghost k: Ctx)
      requires o in mem && n in mem && o != n && o != 0 && n != 0
      requires mem[o].parent == CtxParent(k) && Slot(mem, k, o) && CtxParent(k) != o && CtxParent(k) != n
      modifies this`mem, this`root
      ensures Hooked(old(mem), old(root), mem, root, k, n)
      ensures Only(old(mem), mem, Writes(o, n, CtxParent(k), 0, 0, 0))
      ensures mem[n] == old(mem)[n].(parent := old(mem)[o].parent, color := old(mem)[o].color)
      ensures mem[o] == old(mem)[o].(parent := n, color := c)
    {
      var parent := mem[o].parent;
      mem := PutParentColor(mem, n, mem[o].parent, mem[o].color);
      mem := PutParentColor(mem, o, n, c);
      ghost var m := mem;
      ChangeChild(o, n, parent, k);
      assert Unchanged(m, mem, n) && Unchanged(m, mem, o) && Unchanged(m, mem, 0);
      OnlyBoth(old(mem), m, mem, Writes(o, n, parent, 0, 0, 0), Writes(parent, 0, 0, 0, 0, 0));
    }

    /** The writes of insertion case 3 and of erase case 1: `p` is lifted over `g`, and
        `tmp`, the child that moves from `p` to `g`, becomes black. */
    method RotateUp(s: Side, p: Ptr, g: Ptr, tmp: Ptr, ghost k: Ctx)
      requires p in mem && g in mem && p != g && p != 0 && g != 0
      requires tmp != 0 ==> tmp in mem && tmp != p && tmp != g && tmp != CtxParent(k)
      requires mem[g].parent == CtxParent(k) && CtxParent(k) != g && CtxParent(k) != p && Slot(mem, k, g)
      modifies this`mem, this`root
      ensures Hooked(old(mem), old(root), mem, root, k, p)
      ensures Only(old(mem), mem, Writes(g, p, tmp, CtxParent(k), 0, 0))
      ensures mem[g] == old(mem)[g].SetChild(s, tmp).(parent := p, color := Red)
      ensures mem[p] == old(mem)[p].SetChild(s.Opp(), g).(parent := CtxParent(k), color := old(mem)[g].color)
      ensures tmp != 0 ==> mem[tmp] == old(mem)[tmp].(parent := g, color := Black)
    {
      ghost var m := mem;
      mem := PutChild(mem, g, s, tmp);
      mem := PutChild(mem, p, s.Opp(), g);
      if tmp != 0 { mem := PutParentColor(mem, tmp, g, Black); }
      ghost var m1 := mem;
      RotateSetParents(g, p, Red, k);
      assert Unchanged(m1, mem, tmp);
      OnlyBoth(m, m1, mem, Writes(g, p, tmp, CtxParent(k), 0, 0), Writes(g, p, CtxParent(k), 0, 0, 0));
    }

    /** The writes of erase case 4: `p` is lifted over `g`, its outer child `a` becomes
        black and its inner child `b` moves to `g` keeping its colour. */
    method RotateErase(s: Side, p: Ptr, g: Ptr, a: Ptr, b: Ptr, ghost k: Ctx)
      requires p in mem && g in mem && p != g && p != 0 && g != 0
      requires a in mem && a != 0 && a != p && a != g && a != CtxParent(k)
      requires b != 0 ==> b in mem && b != p && b != g && b != a && b != CtxParent(k)
      requires mem[g].parent == CtxParent(k) && CtxParent(k) != g && CtxParent(k) != p && Slot(mem, k, g)
      modifies this`mem, this`root
      ensures Hooked(old(mem), old(root), mem, root, k, p)
      ensures Only(old(mem), mem, Writes(g, p, a, b, CtxParent(k), 0))
      ensures mem[g] == old(mem)[g].SetChild(s, b).(parent := p, color := Black)
      ensures mem[p] == old(mem)[p].SetChild(s.Opp(), g).(parent := CtxParent(k), color := old(mem)[g].color)
      ensures mem[a] == old(mem)[a].(parent := p, color := Black)
      ensures b != 0 ==> mem[b] == old(mem)[b].(parent := g)
    {
      ghost var m := mem;
      mem := PutChild(mem, g, s, b);
      mem := PutChild(mem, p, s.Opp(), g);
      mem := PutParentColor(mem, a, p, Black);
      if b != 0 { mem := PutParent(mem, b, g); }
      ghost var m1 := mem;
      RotateSetParents(g, p, Black, k);
      assert Unchanged(m1, mem, a) && Unchanged(m1, mem, b);
      OnlyBoth(m, m1, mem, Writes(g, p, a, b, CtxParent(k), 0), Writes(g, p, CtxParent(k), 0, 0, 0));
    }

    /** Insertion case 3: the node is the outer child of its parent. */
    method InsertOuter(s: Side, parent: Ptr, gparent: Ptr, ghost k: Ctx, ghost n: Tree, ghost b: Tree, ghost u: Tree)
      requires At(mem, rk, root, k, Mk(s, Mk(s, n, parent, Red, b), gparent, Black, u)) && IsRed(n) && !IsRed(b)
      modifies this`mem, this`root
      ensures At(mem, rk, root, k, Mk(s, n, parent, Black, Mk(s, b, gparent, Red, u)))
    {
      ghost var m, rt := mem, root;
      CornerAt(m, rk, rt, k, s, n, parent, Red, b, gparent, Black, u);
      RotateUp(s, parent, gparent, mem[parent].Child(s.Opp()), k);
      assert Unchanged(m, mem, n.id);
      Rotated(m, rk, rt, k, s, n, parent, Red, b, gparent, Black, u, mem, root, Red, Black, Black, Red);
    }

    /** The writes of insertion case 2: `n` and its parent `p` change places, `tmp` moves
        from `n` to `p`; the pointers between `n` and its grandparent are left to case 3. */
    method LiftInner(s: Side, n: Ptr, p: Ptr, tmp: Ptr)
      requires n in mem && p in mem && n != p && n != 0 && p != 0
      requires tmp != 0 ==> tmp in mem && tmp != n && tmp != p
      modifies this`mem
      ensures Only(old(mem), mem, Writes(n, p, tmp, 0, 0, 0))
      ensures mem[n] == old(mem)[n].SetChild(s, p)
      ensures mem[p] == old(mem)[p].SetChild(s.Opp(), tmp).(parent := n, color := Red)
      ensures tmp != 0 ==> mem[tmp] == old(mem)[tmp].(parent := p, color := Black)
    {
      mem := PutChild(mem, p, s.Opp(), tmp);
      mem := PutChild(mem, n, s, p);
      if tmp != 0 { mem := PutParentColor(mem, tmp, p, Black); }
      mem := PutParentColor(mem, p, n, Red);
    }

    /** The writes of insertion cases 2 and 3. */
    method RotateInner(s: Side, node: Ptr, parent: Ptr, gparent: Ptr, ghost k: Ctx,
                       ghost a: Tree, ghost b: Tree, ghost c: Tree, ghost u: Tree)
      requires Corner(mem, k, s, a, parent, Red, Mk(s, b, node, Red, c), gparent, Black, u)
      requires Inner(mem, k, s, parent, b, node, Red, c, gparent)
      modifies this`mem, this`root
      ensures DoubleRotation(old(mem), old(root), k, s, a, parent, b, node, c, gparent, u, mem, root,
                             Black, Black, Red, Black, Red)
    {
      ghost var m, w := mem, Writes(gparent, parent, node, Root(b), Root(c), CtxParent(k));
      var tmp := mem[node].Child(s);
      LiftInner(s, node, parent, tmp);
      ghost var m1 := mem;
      assert Unchanged(m, m1, gparent) && Unchanged(m, m1, Root(c)) && Unchanged(m, m1, CtxParent(k));
      RotateUp(s, node, gparent, mem[node].Child(s.Opp()), k);
      assert Unchanged(m1, mem, parent) && Unchanged(m1, mem, tmp);
      OnlyBoth(m, m, m1, w, Writes(node, parent, tmp, 0, 0, 0));
      OnlyBoth(m, m1, mem, w, Writes(gparent, node, Root(c), CtxParent(k), 0, 0));
    }

    /** Insertion cases 2 and 3: the node is the inner child of its parent. */
    method InsertInner(s: Side, node: Ptr, parent: Ptr, gparent: Ptr, ghost k: Ctx,
                       ghost a: Tree, ghost b: Tree, ghost c: Tree, ghost u: Tree)
      requires At(mem, rk, root, k, Mk(s, Mk(s, a, parent, Red, Mk(s, b, node, Red, c)), gparent, Black, u))
      requires !IsRed(b) && !IsRed(c)
      modifies this`mem, this`root
      ensures At(mem, rk, root, k, Mk(s, Mk(s, a, parent, Red, b), node, Black, Mk(s, c, gparent, Red, u)))
    {
      ghost var m, rt := mem, root;
      CornerAt(m, rk, rt, k, s, a, parent, Red, Mk(s, b, node, Red, c), gparent, Black, u);
      InnerAt(m, rk, rt, k, s, a, parent, Red, b, node, Red, c, gparent, Black, u);
      RotateInner(s, node, parent, gparent, k, a, b, c, u);
      RotatedTwice(m, rk, rt, k, s, a, parent, Red, b, node, Red, c, gparent, Black, u, mem, root,
                   Black, Black, Red, Black, Red);
      assert Paint(b, Black) == b && Paint(c, Black) == c;
    }

    /** Insertion case 1: the uncle is red. The parent is the `s` child of its parent. */
    method InsertFlip(s: Side, parent: Ptr, gparent: Ptr, uncle: Ptr, ghost k: Ctx, ghost p: Tree, ghost u: Tree)
      requires At(mem, rk, root, k, Mk(s, p, gparent, Black, u))
      requires IsRed(u) && u.id == uncle && IsRed(p) && p.id == parent
      modifies this`mem
      ensures At(mem, rk, root, k, Mk(s, Paint(p, Black), gparent, Red, Paint(u, Black)))
    {
      ghost var m := mem;
      ForkAt(mem, rk, root, k, s, p, gparent, Black, u);
      mem := PutParentColor(mem, uncle, gparent, Black);
      mem := PutParentColor(mem, parent, gparent, Black);
      mem := PutParentColor(mem, gparent, mem[gparent].parent, Red);
      Recoloured(m, rk, root, k, s, p, gparent, Black, u, mem, Black, Red, Black);
    }

    /** One round of the insertion loop, entered with a red parent. */
    method InsertRound(node: Ptr, parent: Ptr, ghost k: Ctx, ghost t: Tree)
      returns (done: bool, gparent: Ptr, ghost k': Ctx, ghost t': Tree)
      requires At(mem, rk, root, k, t) && Hot(k, t) && t.id == node
      requires k.Step? && k.color == Red && k.id == parent
      modifies this`mem, this`root
      ensures At(mem, rk, root, k', t') && InOrder(Plug(k', t')) == InOrder(Plug(k, t))
      ensures done ==> RedBlack(Plug(k', t'))
      ensures !done ==> Hot(k', t') && t'.id == gparent
      ensures Depth(k') + 2 == Depth(k)
    {
      ghost var up := k.up;
      ghost var s1, o, u := k.side, k.other, up.other;
      assert up == Step(up.up, up.side, up.id, Black, up.other);
      assert k == Step(up, s1, parent, Red, o);
      k' := up.up;
      Descend(mem, rk, root, up, s1, t, parent, Red, o);
      gparent := mem[parent].parent;
      Descend(mem, rk, root, k', up.side, Mk(s1, t, parent, Red, o), gparent, Black, u);
      ForkAt(mem, rk, root, k', up.side, Mk(s1, t, parent, Red, o), gparent, Black, u);
      var s := if parent != mem[gparent].right then L else R;
      assert s == up.side;
      var uncle := mem[gparent].Child(s.Opp());
      if uncle != 0 && mem[uncle].color == Red {
        InsertFlip(s, parent, gparent, uncle, k', Mk(s1, t, parent, Red, o), u);
        FlipKeepsHot(k', s, gparent, u, s1, parent, o, t);
        done, t' := false, Mk(s, Mk(s1, t, parent, Black, o), gparent, Red, Paint(u, Black));
      } else {
        ForkAt(mem, rk, root, up, s1, t, parent, Red, o);
        done := true;
        if node == mem[parent].Child(s.Opp()) {
          assert s1 == s.Opp();
          ghost var b, c := if s == L then t.left else t.right, if s == L then t.right else t.left;
          InsertInner(s, node, parent, gparent, k', o, b, c, u);
          InnerRotationCools(k', s, gparent, u, parent, o, b, node, c);
          t' := Mk(s, Mk(s, o, parent, Red, b), node, Black, Mk(s, c, gparent, Red, u));
        } else {
          assert s1 == s;
          InsertOuter(s, parent, gparent, k', t, o, u);
          OuterRotationCools(k', s, gparent, u, parent, o, t);
          t' := Mk(s, t, parent, Black, Mk(s, o, gparent, Red, u));
        }
      }
    }

    constructor ()
      ensures Valid() && InOrder(tree) == []
    {
      mem, root, rk, tree := map[], 0, map[], Nil;
    }

    /** Hangs the fresh red node `node` into the empty slot on side `side` of `parent`,
        or makes it the root when `parent` is null. `k` is the slot seen as a context. */
    method LinkNode(node: Ptr, parent: Ptr, side: Side, ghost k: Ctx)
      requires Linked() && tree == Plug(k, Nil)
      requires parent == CtxParent(k) && (k.Step? ==> side == k.side)
      requires node != 0 && node !in Nodes(tree)
      modifies this
      ensures Linked() && tree == Plug(k, Node(Nil, node, Red, Nil))
      ensures InOrder(tree) == Before(k) + [node] + After(k)
      ensures old(InOrder(tree)) == Before(k) + After(k)
    {
      Refocus(mem, rk, root, k, Nil);
      PlugNodes(k, Nil);
      PlugLeaf(k, node, Red);
      ghost var m, rt := mem, root;
      mem := mem[node := Cell(parent, Red, 0, 0)];
      if parent != 0 {
        mem := PutChild(mem, parent, side, node);
      } else {
        root := node;
      }
      LeafLinked(m, rk, rt, k, node, mem, root);
      rk := rk[node := MidRank(rk, k)];
      tree := Plug(k, Node(Nil, node, Red, Nil));
      Refocus(mem, rk, root, k, Node(Nil, node, Red, Nil));
    }

    /** The root is painted black. */
    method BlackenRoot(n: Ptr, ghost t: Tree)
      requires At(mem, rk, root, Top, t) && t.Node? && t.id == n
      modifies this`mem
      ensures At(mem, rk, root, Top, Paint(t, Black))
    {
      ghost var m := mem;
      mem := PutParentColor(mem, n, 0, Black);
      Repainted(m, mem, rk, Writes(n, 0, 0, 0, 0, 0), 0, t, Hole(rk, Top), 0, Black);
    }

    /** The insertion fix-up, started at the red leaf `node` that was just linked. */
    method InsertColor(node: Ptr, ghost k0: Ctx) returns (ghost rounds: nat)
      requires Linked() && tree == Plug(k0, Node(Nil, node, Red, Nil)) && RedBlack(Plug(k0, Nil))
      modifies this
      ensures Valid() && InOrder(tree) == old(InOrder(tree))
      ensures 2 * rounds <= Depth(k0) + 2
    {
      ghost var k, t := k0, Node(Nil, node, Red, Nil);
      Refocus(mem, rk, root, k, t);
      Focus(k, Nil);
      var n, parent, done := node, mem[node].parent, false;
      rounds := 0;
      while !done
        invariant At(mem, rk, root, k, t) && InOrder(Plug(k, t)) == old(InOrder(tree))
        invariant if done then RedBlack(Plug(k, t)) else Hot(k, t) && t.id == n && parent == CtxParent(k)
        invariant 2 * rounds + Depth(k) <= Depth(k0) + (if done then 2 else 0)
        decreases !done, Depth(k)
      {
        rounds := rounds + 1;
        if parent == 0 {
          assert k == Top;
          BlackenRoot(n, t);
          HotAtTop(t);
          PaintOrder(t, Black);
          t, done := Paint(t, Black), true;
        } else if mem[parent].color == Black {
          Focus(k, t);
          done := true;
        } else {
          done, n, k, t := InsertRound(n, parent, k, t);
          if !done { parent := mem[n].parent; }
        }
      }
      tree := Plug(k, t);
      Refocus(mem, rk, root, k, t);
    }

    // ----- the erase fix-up; `s` is the side of the sibling -----

    /** Erase case 1: the sibling is red. */
    method EraseRedSibling(s: Side, parent: Ptr, sibling: Ptr,
                           ghost k: Ctx, ghost far: Tree, ghost near: Tree, ghost t: Tree)
      requires At(mem, rk, root, k, Mk(s, Mk(s, far, sibling, Red, near), parent, Black, t)) && !IsRed(near)
      modifies this`mem, this`root
      ensures At(mem, rk, root, k, Mk(s, far, sibling, Black, Mk(s, near, parent, Red, t)))
    {
      ghost var m, rt := mem, root;
      CornerAt(m, rk, rt, k, s, far, sibling, Red, near, parent, Black, t);
      RotateUp(s, sibling, parent, mem[sibling].Child(s.Opp()), k);
      if far.Node? { assert Unchanged(m, mem, far.id); }
      assert Paint(far, ColorOf(far)) == far && Paint(near, Black) == near;
      Rotated(m, rk, rt, k, s, far, sibling, Red, near, parent, Black, t, mem, root, ColorOf(far), Black, Black, Red);
    }

    /** Erase case 2: the sibling and its children are black. */
    method EraseFlip(s: Side, parent: Ptr, sibling: Ptr, ghost k: Ctx, ghost sib: Tree, ghost cp: Color, ghost t: Tree)
      requires At(mem, rk, root, k, Mk(s, sib, parent, cp, t)) && sib.Node? && sib.id == sibling
      modifies this`mem
      ensures At(mem, rk, root, k, Mk(s, Paint(sib, Red), parent, Black, t))
    {
      ghost var m := mem;
      ForkAt(mem, rk, root, k, s, sib, parent, cp, t);
      mem := PutParentColor(mem, sibling, parent, Red);
      if mem[parent].color == Red {
        mem := PutParentColor(mem, parent, mem[parent].parent, Black);
      }
      assert Paint(t, ColorOf(t)) == t;
      Recoloured(m, rk, root, k, s, sib, parent, cp, t, mem, Red, Black, ColorOf(t));
    }

    /** Erase case 4: the outer child of the sibling is red. */
    method EraseOuter(s: Side, parent: Ptr, sibling: Ptr, ghost k: Ctx,
                      ghost far: Tree, ghost near: Tree, ghost cp: Color, ghost t: Tree)
      requires At(mem, rk, root, k, Mk(s, Mk(s, far, sibling, Black, near), parent, cp, t)) && far.Node?
      modifies this`mem, this`root
      ensures At(mem, rk, root, k, Mk(s, Paint(far, Black), sibling, cp, Mk(s, near, parent, Black, t)))
    {
      ghost var m, rt := mem, root;
      CornerAt(m, rk, rt, k, s, far, sibling, Black, near, parent, cp, t);
      RotateErase(s, sibling, parent, mem[sibling].Child(s), mem[sibling].Child(s.Opp()), k);
      assert Paint(near, ColorOf(near)) == near;
      Rotated(m, rk, rt, k, s, far, sibling, Black, near, parent, cp, t, mem, root, Black, ColorOf(near), cp, Black);
    }

    /** The writes of erase case 3: the red inner child `n` of the sibling `p` is lifted
        over it and becomes the child of `g`; `tmp` moves from `n` to `p`. The parent
        pointers and colours of `n` and `p` are left to case 4. */
    method LiftNephew(s: Side, n: Ptr, p: Ptr, g: Ptr, tmp: Ptr)
      requires n in mem && p in mem && g in mem && n != p && n != g && p != g && n != 0 && p != 0 && g != 0
      requires tmp != 0 ==> tmp in mem && tmp != n && tmp != p && tmp != g
      modifies this`mem
      ensures Only(old(mem), mem, Writes(n, p, g, tmp, 0, 0))
      ensures mem[n] == old(mem)[n].SetChild(s, p)
      ensures mem[p] == old(mem)[p].SetChild(s.Opp(), tmp)
      ensures mem[g] == old(mem)[g].SetChild(s, n)
      ensures tmp != 0 ==> mem[tmp] == old(mem)[tmp].(parent := p, color := Black)
    {
      mem := PutChild(mem, p, s.Opp(), tmp);
      mem := PutChild(mem, n, s, p);
      mem := PutChild(mem, g, s, n);
      if tmp != 0 { mem := PutParentColor(mem, tmp, p, Black); }
    }

    /** The writes of erase cases 3 and 4. */
    method RotateNephew(s: Side, n: Ptr, p: Ptr, g: Ptr, ghost k: Ctx,
                        ghost a: Tree, ghost b: Tree, ghost c: Tree, ghost cg: Color, ghost u: Tree)
      requires Corner(mem, k, s, a, p, Black, Mk(s, b, n, Red, c), g, cg, u)
      requires Inner(mem, k, s, p, b, n, Red, c, g)
      modifies this`mem, this`root
      ensures DoubleRotation(old(mem), old(root), k, s, a, p, b, n, c, g, u, mem, root,
                             Black, ColorOf(c), Black, cg, Black)
    {
      ghost var m, w := mem, Writes(g, p, n, Root(b), Root(c), CtxParent(k));
      var tmp := mem[n].Child(s);
      LiftNephew(s, n, p, g, tmp);
      ghost var m1 := mem;
      assert Unchanged(m, m1, Root(c)) && Unchanged(m, m1, CtxParent(k));
      RotateErase(s, n, g, p, mem[n].Child(s.Opp()), k);
      assert Unchanged(m1, mem, tmp);
      OnlyBoth(m, m, m1, w, Writes(n, p, g, tmp, 0, 0));
      OnlyBoth(m, m1, mem, w, Writes(g, n, p, Root(c), CtxParent(k), 0));
    }

    /** Erase cases 3 and 4: only the inner child of the sibling is red. */
    method EraseInner(s: Side, parent: Ptr, sibling: Ptr, nephew: Ptr, ghost k: Ctx,
                      ghost far: Tree, ghost b: Tree, ghost c: Tree, ghost cp: Color, ghost t: Tree)
      requires At(mem, rk, root, k, Mk(s, Mk(s, far, sibling, Black, Mk(s, b, nephew, Red, c)), parent, cp, t))
      requires !IsRed(b)
      modifies this`mem, this`root
      ensures At(mem, rk, root, k, Mk(s, Mk(s, far, sibling, Black, b), nephew, cp, Mk(s, c, parent, Black, t)))
    {
      ghost var m, rt := mem, root;
      CornerAt(m, rk, rt, k, s, far, sibling, Black, Mk(s, b, nephew, Red, c), parent, cp, t);
      InnerAt(m, rk, rt, k, s, far, sibling, Black, b, nephew, Red, c, parent, cp, t);
      RotateNephew(s, nephew, sibling, parent, k, far, b, c, cp, t);
      assert Paint(b, Black) == b && Paint(c, ColorOf(c)) == c;
      RotatedTwice(m, rk, rt, k, s, far, sibling, Black, b, nephew, Red, c, parent, cp, t, mem, root,
                   Black, ColorOf(c), Black, cp, Black);
    }

    /** Erase cases 2 to 4: the sibling is black. */
    method EraseBlackSibling(s: Side, parent: Ptr, sibling: Ptr, ghost k: Ctx, ghost sib: Tree, ghost cp: Color,
                             ghost t: Tree)
      returns (done: bool, ghost t': Tree)
      requires At(mem, rk, root, k, Mk(s, sib, parent, cp, t))
      requires Short(Step(k, s.Opp(), parent, cp, sib), t) && sib.Node? && sib.id == sibling && sib.color == Black
      modifies this`mem, this`root
      ensures At(mem, rk, root, k, t')
      ensures InOrder(Plug(k, t')) == InOrder(Plug(Step(k, s.Opp(), parent, cp, sib), t))
      ensures done ==> RedBlack(Plug(k, t'))
      ensures !done ==> cp == Black && t'.Node? && t'.id == parent && (if k == Top then RedBlack(t') else Short(k, t'))
    {
      ghost var far, near := if s == L then sib.left else sib.right, if s == L then sib.right else sib.left;
      assert sib == Mk(s, far, sibling, Black, near);
      CornerAt(mem, rk, root, k, s, far, sibling, Black, near, parent, cp, t);
      var tmp1 := mem[sibling].Child(s);
      if tmp1 == 0 || mem[tmp1].color == Black {
        var tmp2 := mem[sibling].Child(s.Opp());
        if tmp2 == 0 || mem[tmp2].color == Black {
          done := mem[parent].color == Red;
          EraseFlip(s, parent, sibling, k, sib, cp, t);
          SiblingFlip(k, s, sib, parent, cp, t);
          t' := Mk(s, Paint(sib, Red), parent, Black, t);
          return;
        }
        ghost var b, c := if s == L then near.left else near.right, if s == L then near.right else near.left;
        assert near == Mk(s, b, tmp2, Red, c);
        InnerNephew(k, s, far, sibling, b, tmp2, c, parent, cp, t);
        EraseInner(s, parent, sibling, tmp2, k, far, b, c, cp, t);
        t' := Mk(s, Mk(s, far, sibling, Black, b), tmp2, cp, Mk(s, c, parent, Black, t));
      } else {
        OuterNephew(k, s, far, sibling, near, parent, cp, t);
        EraseOuter(s, parent, sibling, k, far, near, cp, t);
        t' := Mk(s, Paint(far, Black), sibling, cp, Mk(s, near, parent, Black, t));
      }
      done := true;
    }

    /** One round of the erase loop. */
    method EraseRound(node: Ptr, parent: Ptr, ghost k: Ctx, ghost t: Tree)
      returns (done: bool, ghost k': Ctx, ghost t': Tree)
      requires At(mem, rk, root, k, t) && Short(k, t) && Root(t) == node && k.id == parent
      modifies this`mem, this`root
      ensures At(mem, rk, root, k', t') && InOrder(Plug(k', t')) == InOrder(Plug(k, t))
      ensures done ==> RedBlack(Plug(k', t'))
      ensures !done ==> k' == k.up && t'.Node? && t'.id == parent && (if k' == Top then RedBlack(t') else Short(k', t'))
    {
      ghost var hs, cp, sib, up := k.side, k.color, k.other, k.up;
      assert k == Step(up, hs, parent, cp, sib);
      Descend(mem, rk, root, up, hs, t, parent, cp, sib);
      assert Mk(hs, t, parent, cp, sib) == Mk(hs.Opp(), sib, parent, cp, t);
      ForkAt(mem, rk, root, up, hs.Opp(), sib, parent, cp, t);
      var s := if node != mem[parent].right then R else L;
      assert s == hs.Opp();
      var sibling := mem[parent].Child(s);
      if mem[sibling].color == Red {
        ghost var far, near := if s == L then sib.left else sib.right, if s == L then sib.right else sib.left;
        assert sib == Mk(s, far, sibling, Red, near);
        CornerAt(mem, rk, root, up, s, far, sibling, Red, near, parent, cp, t);
        RedSibling(up, s, far, sibling, near, parent, cp, t);
        var tmp1 := mem[sibling].Child(s.Opp());
        EraseRedSibling(s, parent, sibling, up, far, near, t);
        k' := Step(up, hs, sibling, Black, far);
        Descend(mem, rk, root, up, hs, Mk(s, near, parent, Red, t), sibling, Black, far);
        done, t' := EraseBlackSibling(s, parent, tmp1, k', near, Red, t);
      } else {
        k' := up;
        done, t' := EraseBlackSibling(s, parent, sibling, up, sib, cp, t);
      }
    }

    /** The erase fix-up, started at the empty slot `k0` under `parent0` that misses one
        black node. */
    method EraseColor(parent0: Ptr, ghost k0: Ctx) returns (ghost rounds: nat)
      requires Linked() && tree == Plug(k0, Nil) && Short(k0, Nil) && parent0 == k0.id
      modifies this
      ensures Valid() && InOrder(tree) == old(InOrder(tree))
      ensures rounds <= Depth(k0)
    {
      ghost var k, t := k0, Nil;
      Refocus(mem, rk, root, k, t);
      var node, parent, done := 0, parent0, false;
      rounds := 0;
      while !done
        invariant At(mem, rk, root, k, t) && InOrder(Plug(k, t)) == old(InOrder(tree))
        invariant if done then RedBlack(Plug(k, t)) else Short(k, t) && Root(t) == node && parent == k.id
        invariant rounds + (if done then 0 else Depth(k)) <= Depth(k0)
        decreases !done, Depth(k)
      {
        ghost var d := Depth(k);
        rounds := rounds + 1;
        done, k, t := EraseRound(node, parent, k, t);
        if !done {
          node := parent;
          parent := mem[node].parent;
          done := parent == 0;
        }
      }
      tree := Plug(k, t);
      Refocus(mem, rk, root, k, t);
    }

    // ----- structural removal -----

    /** The node has at most one child, on side `s`. */
    method EraseOneChild(node: Ptr, s: Side, ghost k: Ctx, ghost a: Tree, ghost c: Color) returns (rebalance: Ptr)
      requires At(mem, rk, root, k, Mk(s, a, node, c, Nil)) && RedBlack(Plug(k, Mk(s, a, node, c, Nil)))
      modifies this`mem, this`root
      ensures At(mem, rk, root, k, Paint(a, c))
      ensures rebalance == 0 ==> RedBlack(Plug(k, Paint(a, c)))
      ensures rebalance != 0 ==> Paint(a, c) == Nil && Short(k, Nil) && rebalance == k.id
    {
      ghost var m, rt := mem, root;
      ForkAt(m, rk, rt, k, s, a, node, c, Nil);
      Unfold(m, rk, CtxParent(k), s, a, node, c, Nil, Hole(rk, k));
      SlotAt(m, rk, rt, k, node);
      SpliceColours(k, s, a, node, c);
      var child, parent, color := mem[node].Child(s), mem[node].parent, mem[node].color;
      ChangeChild(node, child, parent, k);
      ghost var m1, w := mem, Writes(child, parent, 0, 0, 0, 0);
      if child != 0 {
        assert Unchanged(m, mem, child);
        mem := PutParentColor(mem, child, parent, color);
        rebalance := 0;
      } else {
        rebalance := if color == Black then parent else 0;
      }
      OnlyBoth(m, m, m1, w, Writes(parent, 0, 0, 0, 0, 0));
      OnlyBoth(m, m1, mem, w, w);
      Spliced(m, rk, rt, k, s, a, node, c, mem, root);
    }

    /** Walks from the right child `child` of `v` down to its leftmost descendant. */
    method FindSuccessor(child: Ptr, ghost k0: Ctx, ghost r: Tree)
      returns (successor: Ptr, parent: Ptr, ghost path: Ctx, ghost sub: Tree)
      requires At(mem, rk, root, k0, r) && r.Node? && r.id == child
      ensures child in mem && At(mem, rk, root, Down(k0, path), sub) && Plug(path, sub) == r && AllLeft(path)
      ensures sub.Node? && sub.id == successor && sub.left == Nil
      ensures parent == if path == Top then successor else path.id
      ensures path == Top <==> mem[child].left == 0
    {
      successor, parent, path, sub := child, child, Top, r;
      var tmp := mem[child].left;
      while tmp != 0
        invariant At(mem, rk, root, Down(k0, path), sub) && Plug(path, sub) == r && AllLeft(path)
        invariant sub.Node? && sub.id == successor && Root(sub.left) == tmp
        invariant parent == if path == Top then successor else path.id
        invariant if path == Top then tmp == mem[child].left else mem[child].left != 0
        decreases sub
      {
        Descend(mem, rk, root, Down(k0, path), L, sub.left, sub.id, sub.color, sub.right);
        path := Step(path, L, sub.id, sub.color, sub.right);
        sub := sub.left;
        parent := successor;
        successor := tmp;
        tmp := mem[tmp].left;
      }
      RootRank(mem, rk, sub.id, sub.left, Hole(rk, Down(k0, path)).Part(L, Rank(rk, sub.id)));
    }

    /** The last writes of removing a node with two children: the successor takes the
        place, colour and left child of `node`, and its former right child `child2`
        becomes a black child of `parent`. */
    method TakePlace(node: Ptr, successor: Ptr, parent: Ptr, child2: Ptr, ghost k: Ctx) returns (rebalance: Ptr)
      requires node in mem && successor in mem && node != 0 && successor != 0 && node != successor
      requires var l := mem[node].left;
               l in mem && l != 0 && l != node && l != successor && l != child2 && l != CtxParent(k)
      requires child2 != 0 ==> child2 in mem && child2 != node && child2 != successor && child2 != CtxParent(k)
      requires CtxParent(k) == mem[node].parent && CtxParent(k) != node && CtxParent(k) != successor &&
               Slot(mem, k, node)
      modifies this`mem, this`root
      ensures Taken(old(mem), old(root), k, node, successor, parent, child2, mem, root)
      ensures rebalance == if child2 == 0 && old(mem)[successor].color == Black then parent else 0
    {
      ghost var m := mem;
      var tmp := mem[node].left;
      ghost var w := Writes(successor, tmp, child2, CtxParent(k), 0, 0);
      mem := PutChild(mem, successor, L, tmp);
      mem := PutParent(mem, tmp, successor);
      var pc := mem[node];
      ghost var m1 := mem;
      ChangeChild(node, successor, pc.parent, k);
      assert Unchanged(m1, mem, successor) && Unchanged(m1, mem, tmp) && Unchanged(m1, mem, child2);
      OnlyBoth(m, m1, mem, w, Writes(CtxParent(k), 0, 0, 0, 0, 0));
      ghost var m2 := mem;
      if child2 != 0 {
        mem := PutParentColor(mem, successor, pc.parent, pc.color);
        mem := PutParentColor(mem, child2, parent, Black);
        rebalance := 0;
      } else {
        var pc2 := mem[successor];
        mem := PutParentColor(mem, successor, pc.parent, pc.color);
        rebalance := if pc2.color == Black then parent else 0;
      }
      OnlyBoth(m, m2, mem, w, w);
    }

    /** Removal case 2: the successor of the node is its right child. */
    method EraseNear(node: Ptr, successor: Ptr, ghost k: Ctx, ghost l: Tree, ghost c: Color, ghost sc: Color,
                     ghost sr: Tree)
      returns (rebalance: Ptr)
      requires At(mem, rk, root, Step(k, R, node, c, l), Node(Nil, successor, sc, sr)) && l.Node?
      requires sr.Node? ==> sc == Black
      modifies this`mem, this`root, this`rk
      ensures At(mem, rk, root, Step(k, R, successor, c, l), Paint(sr, sc))
      ensures rebalance == if sr == Nil && sc == Black then successor else 0
    {
      ghost var m, rt := mem, root;
      SuccessorAt(m, rk, rt, k, l, node, c, Top, successor, sc, sr);
      var child2 := mem[successor].right;
      ghost var m1 := Splice(m, node, R, child2, sc);
      rebalance := TakePlace(node, successor, successor, child2, k);
      NearWrites(m, rk, rt, k, l, node, c, successor, sc, sr, m1, mem, root);
      rk := rk[successor := Rank(rk, node)];
    }

    /** Removal case 3: the successor of the node is deeper in its right subtree. */
    method EraseFar(node: Ptr, child: Ptr, successor: Ptr, parent: Ptr,
                    ghost k: Ctx, ghost l: Tree, ghost c: Color, ghost path: Ctx, ghost sc: Color, ghost sr: Tree)
      returns (rebalance: Ptr)
      requires At(mem, rk, root, Down(Step(k, R, node, c, l), path), Node(Nil, successor, sc, sr)) && l.Node?
      requires path.Step? && path.side == L && parent == path.id &&
               child == Root(Plug(path, Node(Nil, successor, sc, sr)))
      requires sr.Node? ==> sc == Black
      modifies this`mem, this`root, this`rk
      ensures At(mem, rk, root, Down(Step(k, R, successor, c, l), path), Paint(sr, sc))
      ensures rebalance == if sr == Nil && sc == Black then parent else 0
    {
      ghost var m, rt := mem, root;
      SuccessorAt(m, rk, rt, k, l, node, c, path, successor, sc, sr);
      var child2 := mem[successor].right;
      ghost var m1 := Splice(m, parent, L, child2, sc);
      mem := PutChild(mem, parent, L, child2);
      mem := PutChild(mem, successor, R, child);
      mem := PutParent(mem, child, successor);
      ghost var m2 := mem;
      rebalance := TakePlace(node, successor, parent, child2, k);
      FarWrites(m, rk, rt, k, l, node, c, path, successor, sc, sr, m1, m2, mem, root);
      rk := rk[successor := Rank(rk, node)];
    }

    /** The structural part of removing `node`. When `rebalance` is not null, the empty
        slot `k'` under it misses one black node. */
    method EraseStructure(node: Ptr, ghost k: Ctx, ghost sub: Tree) returns (rebalance: Ptr, ghost k': Ctx)
      requires Valid() && tree == Plug(k, sub) && sub.Node? && sub.id == node
      modifies this
      ensures Linked() && InOrder(tree) == Without(old(InOrder(tree)), node)
      ensures if rebalance == 0 then RedBlack(tree) else tree == Plug(k', Nil) && Short(k', Nil) && rebalance == k'.id
      ensures Depth(k') <= Height(old(tree))
    {
      DepthByHeight(k, sub);
      Refocus(mem, rk, root, k, sub);
      RankedInOrder(mem, rk, 0, tree, Hole(rk, Top));
      ghost var l, c, r := sub.left, sub.color, sub.right;
      ForkAt(mem, rk, root, k, L, l, node, c, r);
      ghost var t' := Nil;
      k' := k;
      var child, tmp := mem[node].right, mem[node].left;
      if tmp == 0 {
        assert sub == Mk(R, r, node, c, Nil);
        rebalance := EraseOneChild(node, R, k, r, c);
        t' := Paint(r, c);
        SplicedOrder(k, l, node, c, r, t');
      } else if child == 0 {
        assert sub == Mk(L, l, node, c, Nil);
        rebalance := EraseOneChild(node, L, k, l, c);
        t' := Paint(l, c);
        SplicedOrder(k, l, node, c, r, t');
      } else {
        Descend(mem, rk, root, k, R, r, node, c, l);
        rebalance, k', t' := EraseTwoChildren(node, child, k, l, c, r);
      }
      tree := Plug(k', t');
      Refocus(mem, rk, root, k', t');
    }

    method EraseTwoChildren(node: Ptr, child: Ptr, ghost k: Ctx, ghost l: Tree, ghost c: Color, ghost r: Tree)
      returns (rebalance: Ptr, ghost k': Ctx, ghost t': Tree)
      requires At(mem, rk, root, Step(k, R, node, c, l), r) && RedBlack(Plug(k, Node(l, node, c, r)))
      requires NoDup(InOrder(Plug(k, Node(l, node, c, r))))
      requires l.Node? && r.Node? && r.id == child
      modifies this`mem, this`root, this`rk
      ensures At(mem, rk, root, k', t') && InOrder(Plug(k', t')) == Without(InOrder(Plug(k, Node(l, node, c, r))), node)
      ensures if rebalance == 0 then RedBlack(Plug(k', t')) else t' == Nil && Short(k', Nil) && rebalance == k'.id
      ensures Depth(k') <= Height(Plug(k, Node(l, node, c, r)))
    {
      ghost var k0 := Step(k, R, node, c, l);
      var successor, parent; ghost var path, s;
      successor, parent, path, s := FindSuccessor(child, k0, r);
      ghost var sc, sr := s.color, s.right;
      assert s == Node(Nil, successor, sc, sr);
      PlugDown(k0, path, s);
      MovedColours(k, l, node, c, path, successor, sc, sr);
      MovedDepth(k, l, node, c, path, s, successor);
      MovedOrder(k, l, node, c, path, successor, sc, sr);
      WithoutMoved(Before(k) + InOrder(l), node, [successor] + (InOrder(sr) + After(path)) + After(k));
      k', t' := Down(Step(k, R, successor, c, l), path), Paint(sr, sc);
      SuccessorAt(mem, rk, root, k, l, node, c, path, successor, sc, sr);
      if mem[child].left == 0 {
        rebalance := EraseNear(node, successor, k, l, c, sc, sr);
      } else {
        rebalance := EraseFar(node, child, successor, parent, k, l, c, path, sc, sr);
      }
    }

    /** Removes `node` from the tree, with at most as many rounds of the fix-up as the tree
        was high. */
    method Erase(node: Ptr) returns (ghost rounds: nat)
      requires Valid() && node in Nodes(tree)
      modifies this
      ensures Valid() && InOrder(tree) == Without(old(InOrder(tree)), node) && rounds <= Height(old(tree))
    {
      rounds := 0;
      ghost var k, sub := Locate(tree, node);
      var rebalance; ghost var k';
      rebalance, k' := EraseStructure(node, k, sub);
      if rebalance != 0 {
        rounds := EraseColor(rebalance, k');
      }
    }

    /** The writes of replacing `victim` by `n`. */
    method TakeOver(victim: Ptr, n: Ptr, ghost k: Ctx, ghost l: Tree, ghost c: Color, ghost r: Tree)
      requires victim in mem && n in mem && n != 0 && n != victim &&
               mem[victim] == Cell(CtxParent(k), c, Root(r), Root(l))
      requires Hangs(mem, l, victim, victim, n, CtxParent(k)) && Hangs(mem, r, victim, victim, n, CtxParent(k))
      requires (l.Node? ==> l.id != Root(r)) && CtxParent(k) != n && CtxParent(k) != victim && Slot(mem, k, victim)
      modifies this`mem, this`root
      ensures Only(old(mem), mem, Writes(n, victim, Root(l), Root(r), CtxParent(k), 0))
      ensures mem[n] == Cell(CtxParent(k), c, Root(r), Root(l)) && Hooked(old(mem), old(root), mem, root, k, n)
      ensures Rehung(old(mem), mem, l, n) && Rehung(old(mem), mem, r, n)
    {
      ghost var m := mem;
      var parent := mem[victim].parent;
      mem := mem[n := mem[victim]];
      if mem[victim].left != 0 { mem := PutParent(mem, mem[victim].left, n); }
      if mem[victim].right != 0 { mem := PutParent(mem, mem[victim].right, n); }
      ghost var m1 := mem;
      ChangeChild(victim, n, parent, k);
      assert Unchanged(m1, mem, n) && Unchanged(m1, mem, Root(l)) && Unchanged(m1, mem, Root(r));
      OnlyBoth(m, m1, mem, Writes(n, victim, Root(l), Root(r), CtxParent(k), 0), Writes(parent, 0, 0, 0, 0, 0));
    }

    /** Puts the node `n`, which is not in the tree, in the place of `victim`. */
    method ReplaceNode(victim: Ptr, n: Ptr)
      requires Linked() && victim in Nodes(tree) && n != 0 && n in mem && n !in Nodes(tree)
      modifies this
      ensures Linked() && (old(RedBlack(tree)) ==> RedBlack(tree))
      ensures forall a, b | old(InOrder(tree)) == a + [victim] + b :: InOrder(tree) == a + [n] + b
    {
      ghost var k, sub := Locate(tree, victim);
      ghost var m, rt, sub' := mem, root, sub.(id := n);
      RankedInOrder(m, rk, 0, tree, Hole(rk, Top));
      ReplacedOrder(k, sub, n);
      Focus(k, sub);
      Focus(k, sub');
      Refocus(m, rk, rt, k, sub);
      ForkAt(m, rk, rt, k, L, sub.left, victim, sub.color, sub.right);
      SlotAt(m, rk, rt, k, victim);
      PlugNodes(k, sub);
      RootNodes(sub.left);
      RootNodes(sub.right);
      TakeOver(victim, n, k, sub.left, sub.color, sub.right);
      Replaced(m, rk, rt, k, sub.left, victim, sub.color, sub.right, n, mem, root);
      rk := rk[n := Rank(rk, victim)];
      tree := Plug(k, sub');
      Refocus(mem, rk, root, k, sub');
    }
  }
}
