/** The shapes that a red-black tree passes through, as values: trees, one-hole
    contexts (zippers), the in-order and post-order sequences and the colour rules.
    Nothing here touches memory. */
module RbShape {
  import opened Sequences

  /** An address of an `rb_node`; 0 is the null pointer. */
  type Ptr = nat

  datatype Color = Red | Black

  datatype Side = L | R
  {
    function Opp(): Side { if this == L then R else L }
  }

  datatype Tree = Nil | Node(left: Tree, id: Ptr, color: Color, right: Tree)

  /** A tree with one subtree missing. `side` says on which side of node `id` the
      hole is, `other` is the subtree on the opposite side. */
  datatype Ctx = Top | Step(up: Ctx, side: Side, id: Ptr, color: Color, other: Tree)

  /** The node `id` with `a` on side `s` and `b` on the other side. */
  ghost function Mk(s: Side, a: Tree, id: Ptr, c: Color, b: Tree): Tree
  {
    if s == L then Node(a, id, c, b) else Node(b, id, c, a)
  }

  ghost function Plug(k: Ctx, t: Tree): Tree
    decreases k
  {
    match k
    case Top => t
    case Step(up, s, id, c, o) => Plug(up, Mk(s, t, id, c, o))
  }

  ghost function Root(t: Tree): Ptr { if t == Nil then 0 else t.id }

  ghost function CtxParent(k: Ctx): Ptr { if k == Top then 0 else k.id }

  ghost function Depth(k: Ctx): nat { if k == Top then 0 else 1 + Depth(k.up) }

  ghost function Nodes(t: Tree): set<Ptr>
  {
    if t == Nil then {} else {t.id} + Nodes(t.left) + Nodes(t.right)
  }

  ghost function CtxNodes(k: Ctx): set<Ptr>
  {
    if k == Top then {} else {k.id} + Nodes(k.other) + CtxNodes(k.up)
  }

  lemma {:induction false} PlugNodes(k: Ctx, t: Tree)
    ensures Nodes(Plug(k, t)) == Nodes(t) + CtxNodes(k)
    decreases k
  {
    match k
    case Top =>
    case Step(up, s, id, c, o) => PlugNodes(up, Mk(s, t, id, c, o));
  }

  // ----- in-order sequence -----

  ghost function InOrder(t: Tree): seq<Ptr>
  {
    if t == Nil then [] else InOrder(t.left) + [t.id] + InOrder(t.right)
  }

  /** What comes before the hole in the in-order sequence. */
  ghost function Before(k: Ctx): seq<Ptr>
  {
    if k == Top then [] else
    if k.side == L then Before(k.up) else Before(k.up) + InOrder(k.other) + [k.id]
  }

  /** What comes after the hole in the in-order sequence. */
  ghost function After(k: Ctx): seq<Ptr>
  {
    if k == Top then [] else
    if k.side == R then After(k.up) else [k.id] + InOrder(k.other) + After(k.up)
  }

  lemma {:induction false} PlugInOrder(k: Ctx, t: Tree)
    ensures InOrder(Plug(k, t)) == Before(k) + InOrder(t) + After(k)
    decreases k
  {
    match k
    case Top =>
    case Step(up, s, id, c, o) =>
      PlugInOrder(up, Mk(s, t, id, c, o));
      if s == L {
        Around(Before(up), InOrder(t), id, InOrder(o), After(up));
      } else {
        Around(Before(up), InOrder(o), id, InOrder(t), After(up));
      }
  }

  lemma {:induction false} Around(a: seq<Ptr>, x: seq<Ptr>, n: Ptr, y: seq<Ptr>, b: seq<Ptr>)
    ensures a + (x + [n] + y) + b == a + x + ([n] + y + b)
    ensures a + (x + [n] + y) + b == (a + x + [n]) + y + b
  {
  }

  /** Filling an empty slot with a leaf inserts the leaf into the in-order sequence. */
  lemma {:induction false} PlugLeaf(k: Ctx, n: Ptr, c: Color)
    ensures InOrder(Plug(k, Nil)) == Before(k) + After(k)
    ensures InOrder(Plug(k, Node(Nil, n, c, Nil))) == Before(k) + [n] + After(k)
  {
    PlugInOrder(k, Nil);
    PlugInOrder(k, Node(Nil, n, c, Nil));
    assert InOrder(Node(Nil, n, c, Nil)) == [n];
  }

  lemma {:induction false} InOrderNodes(t: Tree)
    ensures forall x :: x in InOrder(t) <==> x in Nodes(t)
  {
    if t.Node? {
      InOrderNodes(t.left);
      InOrderNodes(t.right);
    }
  }

  // ----- post-order sequence -----

  ghost function PostOrder(t: Tree): seq<Ptr>
  {
    if t == Nil then [] else PostOrder(t.left) + PostOrder(t.right) + [t.id]
  }

  ghost function PostBefore(k: Ctx): seq<Ptr>
  {
    if k == Top then [] else
    if k.side == L then PostBefore(k.up) else PostBefore(k.up) + PostOrder(k.other)
  }

  ghost function PostAfter(k: Ctx): seq<Ptr>
  {
    if k == Top then [] else
    if k.side == R then [k.id] + PostAfter(k.up) else PostOrder(k.other) + [k.id] + PostAfter(k.up)
  }

  lemma {:induction false} PlugPostOrder(k: Ctx, t: Tree)
    ensures PostOrder(Plug(k, t)) == PostBefore(k) + PostOrder(t) + PostAfter(k)
    decreases k
  {
    match k
    case Top =>
    case Step(up, s, id, c, o) =>
      PlugPostOrder(up, Mk(s, t, id, c, o));
      if s == L {
        AroundLast(PostBefore(up), PostOrder(t), PostOrder(o), id, PostAfter(up));
      } else {
        AroundLast(PostBefore(up), PostOrder(o), PostOrder(t), id, PostAfter(up));
      }
  }

  lemma {:induction false} AroundLast(a: seq<Ptr>, x: seq<Ptr>, y: seq<Ptr>, n: Ptr, b: seq<Ptr>)
    ensures a + (x + y + [n]) + b == a + x + (y + [n] + b)
    ensures a + (x + y + [n]) + b == (a + x) + y + ([n] + b)
  {
  }

  // ----- the colour rules -----

  ghost predicate IsRed(t: Tree) { t.Node? && t.color == Red }

  ghost function BlackBit(c: Color): nat { if c == Black then 1 else 0 }

  /** Black nodes on the leftmost path; on a balanced tree, on every path. */
  ghost function BlackHeight(t: Tree): nat
  {
    if t == Nil then 0 else BlackHeight(t.left) + BlackBit(t.color)
  }

  /** Every path has equally many black nodes and no red node has a red child. */
  ghost predicate Wf(t: Tree)
  {
    t.Node? ==>
      && Wf(t.left) && Wf(t.right)
      && BlackHeight(t.left) == BlackHeight(t.right)
      && (t.color == Red ==> !IsRed(t.left) && !IsRed(t.right))
  }

  lemma {:induction false} MkWf(s: Side, a: Tree, id: Ptr, c: Color, b: Tree)
    ensures Wf(Mk(s, a, id, c, b)) <==>
              Wf(a) && Wf(b) && BlackHeight(a) == BlackHeight(b) && (c == Red ==> !IsRed(a) && !IsRed(b))
    ensures Wf(Mk(s, a, id, c, b)) ==> BlackHeight(Mk(s, a, id, c, b)) == BlackHeight(a) + BlackBit(c)
  {
    if s == L {} else {}
  }

  /** A red-black tree. */
  ghost predicate RedBlack(t: Tree) { Wf(t) && !IsRed(t) }

  /** The hole hangs under a black node, so that a red subtree may fill it. */
  ghost predicate BlackAbove(k: Ctx) { k.Step? && k.color == Black }

  /** Filling the hole with a well-formed black subtree of black height `h` gives
      a red-black tree. */
  ghost predicate Expects(k: Ctx, h: nat)
  {
    k.Step? ==>
      && Wf(k.other) && BlackHeight(k.other) == h
      && (k.color == Red ==> !IsRed(k.other) && BlackAbove(k.up))
      && Expects(k.up, h + BlackBit(k.color))
  }

  /** The colour rules of a whole tree are exactly those of a context and of the
      subtree in its hole. */
  lemma {:induction false} Focus(k: Ctx, t: Tree)
    ensures RedBlack(Plug(k, t)) <==>
              Wf(t) && Expects(k, BlackHeight(t)) && (IsRed(t) ==> BlackAbove(k))
    decreases k
  {
    match k
    case Top =>
    case Step(up, s, id, c, o) => Focus(up, Mk(s, t, id, c, o));
  }

  /** The black nodes on the way from the root to the hole. */
  ghost function Blacks(k: Ctx): nat { if k == Top then 0 else Blacks(k.up) + BlackBit(k.color) }

  /** In a well-formed tree the ways to all subtrees agree on the number of black nodes, and
      none has two red nodes in a row. */
  lemma {:induction false} EveryPathEqual(k: Ctx, t: Tree)
    requires Wf(Plug(k, t))
    ensures Wf(t) && Blacks(k) + BlackHeight(t) == BlackHeight(Plug(k, t))
    ensures k.Step? && k.color == Red ==> !IsRed(t) && (k.up.Step? ==> k.up.color == Black)
    decreases k
  {
    match k
    case Top =>
    case Step(up, s, id, c, o) =>
      EveryPathEqual(up, Mk(s, t, id, c, o));
      MkWf(s, t, id, c, o);
  }

  /** Repainting the root of a subtree. */
  ghost function Paint(t: Tree, c: Color): Tree { if t == Nil then Nil else t.(color := c) }

  /** Rearranging the subtree in the hole keeps the in-order sequence of the whole. */
  lemma {:induction false} SameOrder(k: Ctx, t: Tree, t': Tree)
    requires InOrder(t) == InOrder(t')
    ensures InOrder(Plug(k, t)) == InOrder(Plug(k, t'))
  {
    PlugInOrder(k, t);
    PlugInOrder(k, t');
  }

  lemma PaintOrder(t: Tree, c: Color)
    ensures InOrder(Paint(t, c)) == InOrder(t)
  {
  }

  lemma Assoc(x: seq<Ptr>, p: Ptr, y: seq<Ptr>, g: Ptr, z: seq<Ptr>)
    ensures (x + [p] + y) + [g] + z == x + [p] + (y + [g] + z)
  {
  }

  lemma {:induction false} RotationOrder(k: Ctx, s: Side, a: Tree, p: Ptr, cp: Color, b: Tree, g: Ptr, cg: Color,
                                         u: Tree,
                                         ca: Color, cb: Color, cp': Color, cg': Color)
    ensures InOrder(Plug(k, Mk(s, Mk(s, a, p, cp, b), g, cg, u))) ==
            InOrder(Plug(k, Mk(s, Paint(a, ca), p, cp', Mk(s, Paint(b, cb), g, cg', u))))
  {
    var a', b' := Paint(a, ca), Paint(b, cb);
    PaintOrder(a, ca);
    PaintOrder(b, cb);
    if s == L {
      assert InOrder(Node(b', g, cg', u)) == InOrder(b) + [g] + InOrder(u);
      Assoc(InOrder(a), p, InOrder(b), g, InOrder(u));
      SameOrder(k, Node(Node(a, p, cp, b), g, cg, u), Node(a', p, cp', Node(b', g, cg', u)));
    } else {
      assert InOrder(Node(u, g, cg', b')) == InOrder(u) + [g] + InOrder(b);
      Assoc(InOrder(u), g, InOrder(b), p, InOrder(a));
      SameOrder(k, Node(u, g, cg, Node(b, p, cp, a)), Node(Node(u, g, cg', b'), p, cp', a'));
    }
  }

  lemma {:induction false} DoubleRotationOrder(k: Ctx, s: Side, a: Tree, p: Ptr, cp: Color, b: Tree, n: Ptr,
                                               cn: Color, c: Tree,
                                               g: Ptr, cg: Color, u: Tree,
                                               cb: Color, cc: Color, cp': Color, cn': Color, cg': Color)
    ensures InOrder(Plug(k, Mk(s, Mk(s, a, p, cp, Mk(s, b, n, cn, c)), g, cg, u))) ==
            InOrder(Plug(k, Mk(s, Mk(s, a, p, cp', Paint(b, cb)), n, cn', Mk(s, Paint(c, cc), g, cg', u))))
  {
    var b', inner := Paint(b, cb), Mk(s, a, p, cp', Paint(b, cb));
    RotationOrder(Step(k, s, g, cg, u), s.Opp(), c, n, cn, b, p, cp, a, ColorOf(c), cb, cn, cp');
    assert Paint(c, ColorOf(c)) == c && Paint(inner, cp') == inner;
    RotationOrder(k, s, inner, n, cn, c, g, cg, u, cp', cc, cn', cg');
  }

  ghost function ColorOf(t: Tree): Color { if t == Nil then Black else t.color }

  // ----- the colour rules during the insertion fix-up -----

  /** Only the red root of `t` and its parent may violate the colour rules. */
  ghost predicate Hot(k: Ctx, t: Tree) { Wf(t) && IsRed(t) && Expects(k, BlackHeight(t)) }

  lemma {:induction false} HotAtTop(t: Tree)
    requires Hot(Top, t)
    ensures RedBlack(Paint(t, Black))
  {
  }

  lemma {:induction false} FlipKeepsHot(k: Ctx, s: Side, g: Ptr, u: Tree, s1: Side, p: Ptr, o: Tree, t: Tree)
    requires Hot(Step(Step(k, s, g, Black, u), s1, p, Red, o), t) && IsRed(u)
    ensures Hot(k, Mk(s, Mk(s1, t, p, Black, o), g, Red, Paint(u, Black)))
    ensures InOrder(Plug(k, Mk(s, Mk(s1, t, p, Black, o), g, Red, Paint(u, Black)))) ==
            InOrder(Plug(Step(Step(k, s, g, Black, u), s1, p, Red, o), t))
  {
    assert Expects(Step(k, s, g, Black, u), BlackHeight(t));
    MkWf(s1, t, p, Black, o);
    MkWf(s, Mk(s1, t, p, Black, o), g, Red, Paint(u, Black));
    SameOrder(k, Mk(s, Mk(s1, t, p, Red, o), g, Black, u), Mk(s, Mk(s1, t, p, Black, o), g, Red, Paint(u, Black)));
  }

  lemma {:induction false} OuterRotationCools(k: Ctx, s: Side, g: Ptr, u: Tree, p: Ptr, o: Tree, t: Tree)
    requires Hot(Step(Step(k, s, g, Black, u), s, p, Red, o), t) && !IsRed(u)
    ensures RedBlack(Plug(k, Mk(s, t, p, Black, Mk(s, o, g, Red, u))))
    ensures InOrder(Plug(k, Mk(s, t, p, Black, Mk(s, o, g, Red, u)))) ==
            InOrder(Plug(Step(Step(k, s, g, Black, u), s, p, Red, o), t))
  {
    assert Expects(Step(k, s, g, Black, u), BlackHeight(t));
    MkWf(s, o, g, Red, u);
    MkWf(s, t, p, Black, Mk(s, o, g, Red, u));
    assert !IsRed(Mk(s, t, p, Black, Mk(s, o, g, Red, u)));
    Focus(k, Mk(s, t, p, Black, Mk(s, o, g, Red, u)));
    assert Paint(t, Red) == t && Paint(o, Black) == o;
    RotationOrder(k, s, t, p, Red, o, g, Black, u, Red, Black, Black, Red);
  }

  lemma {:induction false} InnerRotationCools(k: Ctx, s: Side, g: Ptr, u: Tree, p: Ptr, a: Tree, b: Tree, n: Ptr,
                                              c: Tree)
    requires Hot(Step(Step(k, s, g, Black, u), s.Opp(), p, Red, a), Mk(s, b, n, Red, c)) && !IsRed(u)
    ensures var t' := Mk(s, Mk(s, a, p, Red, b), n, Black, Mk(s, c, g, Red, u));
            RedBlack(Plug(k, t')) &&
            InOrder(Plug(k, t')) == InOrder(Plug(Step(Step(k, s, g, Black, u), s.Opp(), p, Red, a),
              Mk(s, b, n, Red, c)))
  {
    var t := Mk(s, b, n, Red, c);
    var t' := Mk(s, Mk(s, a, p, Red, b), n, Black, Mk(s, c, g, Red, u));
    assert Expects(Step(k, s, g, Black, u), BlackHeight(t));
    MkWf(s, b, n, Red, c);
    MkWf(s, a, p, Red, b);
    MkWf(s, c, g, Red, u);
    MkWf(s, Mk(s, a, p, Red, b), n, Black, Mk(s, c, g, Red, u));
    assert !IsRed(t');
    Focus(k, t');
    DoubleRotationOrder(k, s, a, p, Red, b, n, Red, c, g, Black, u, Black, Black, Red, Black, Red);
    assert Paint(b, Black) == b && Paint(c, Black) == c;
  }

  // ----- the colour rules during the erase fix-up -----

  /** All paths through `t` have one black node too few, and nothing else is wrong. */
  ghost predicate Short(k: Ctx, t: Tree)
  {
    k.Step? && Wf(t) && !IsRed(t) && Expects(k, BlackHeight(t) + 1)
  }

  /** The node that replaces its single child's parent takes over its colour. */
  lemma {:induction false} SpliceColours(k: Ctx, s: Side, a: Tree, n: Ptr, c: Color)
    requires RedBlack(Plug(k, Mk(s, a, n, c, Nil)))
    ensures a.Node? ==> c == Black && IsRed(a)
    ensures a == Nil && c == Black && k.Step? ==> Short(k, Nil)
    ensures a.Node? || c == Red || k == Top ==> RedBlack(Plug(k, Paint(a, c)))
  {
    MkWf(s, a, n, c, Nil);
    Focus(k, Mk(s, a, n, c, Nil));
    Focus(k, Paint(a, c));
  }

  /** Erase case 1: a red sibling is rotated away. */
  lemma {:induction false} RedSibling(k: Ctx, s: Side, far: Tree, sib: Ptr, near: Tree, p: Ptr, cp: Color, t: Tree)
    requires Short(Step(k, s.Opp(), p, cp, Mk(s, far, sib, Red, near)), t)
    ensures cp == Black && near.Node? && !IsRed(near)
    ensures Short(Step(Step(k, s.Opp(), sib, Black, far), s.Opp(), p, Red, near), t)
    ensures InOrder(Plug(Step(k, s.Opp(), p, cp, Mk(s, far, sib, Red, near)), t)) ==
            InOrder(Plug(Step(Step(k, s.Opp(), sib, Black, far), s.Opp(), p, Red, near), t))
  {
    MkWf(s, far, sib, Red, near);
    assert Paint(near, Black) == near && Paint(far, ColorOf(far)) == far;
    RotationOrder(k, s, far, sib, Red, near, p, cp, t, ColorOf(far), Black, Black, Red);
  }

  /** Erase case 2: the sibling becomes red, and the defect is gone or moves up. */
  lemma {:induction false} SiblingFlip(k: Ctx, s: Side, sib: Tree, p: Ptr, cp: Color, t: Tree)
    requires Short(Step(k, s.Opp(), p, cp, sib), t) && !IsRed(sib)
    requires sib.Node? && !IsRed(sib.left) && !IsRed(sib.right)
    ensures var t' := Mk(s, Paint(sib, Red), p, Black, t);
            && InOrder(Plug(k, t')) == InOrder(Plug(Step(k, s.Opp(), p, cp, sib), t))
            && (cp == Red || k == Top ==> RedBlack(Plug(k, t')))
            && (cp == Black && k.Step? ==> Short(k, t'))
  {
    var t' := Mk(s, Paint(sib, Red), p, Black, t);
    MkWf(s, Paint(sib, Red), p, Black, t);
    assert !IsRed(t');
    Focus(k, t');
    SameOrder(k, Mk(s, sib, p, cp, t), t');
  }

  lemma {:induction false} OuterColours(k: Ctx, s: Side, far: Tree, sib: Ptr, near: Tree, p: Ptr, cp: Color, t: Tree)
    requires Short(Step(k, s.Opp(), p, cp, Mk(s, far, sib, Black, near)), t) && IsRed(far)
    ensures RedBlack(Plug(k, Mk(s, Paint(far, Black), sib, cp, Mk(s, near, p, Black, t))))
  {
    MkWf(s, far, sib, Black, near);
    assert Wf(Paint(far, Black)) && BlackHeight(Paint(far, Black)) == BlackHeight(t) + 1;
    MkWf(s, near, p, Black, t);
    MkWf(s, Paint(far, Black), sib, cp, Mk(s, near, p, Black, t));
    assert !IsRed(Mk(s, near, p, Black, t));
    Focus(k, Mk(s, Paint(far, Black), sib, cp, Mk(s, near, p, Black, t)));
  }

  /** Erase case 4: the sibling's outer child is red. */
  lemma {:induction false} OuterNephew(k: Ctx, s: Side, far: Tree, sib: Ptr, near: Tree, p: Ptr, cp: Color, t: Tree)
    requires Short(Step(k, s.Opp(), p, cp, Mk(s, far, sib, Black, near)), t) && IsRed(far)
    ensures var t' := Mk(s, Paint(far, Black), sib, cp, Mk(s, near, p, Black, t));
            && RedBlack(Plug(k, t'))
            && InOrder(Plug(k, t')) == InOrder(Plug(Step(k, s.Opp(), p, cp, Mk(s, far, sib, Black, near)), t))
  {
    OuterColours(k, s, far, sib, near, p, cp, t);
    assert Paint(near, ColorOf(near)) == near;
    RotationOrder(k, s, far, sib, Black, near, p, cp, t, Black, ColorOf(near), cp, Black);
  }

  lemma {:induction false} InnerColours(k: Ctx, s: Side, far: Tree, sib: Ptr, b: Tree, n: Ptr, c: Tree,
                                        p: Ptr, cp: Color, t: Tree)
    requires Short(Step(k, s.Opp(), p, cp, Mk(s, far, sib, Black, Mk(s, b, n, Red, c))), t) && !IsRed(far)
    ensures !IsRed(b) && !IsRed(c) && RedBlack(Plug(k, Mk(s, Mk(s, far, sib, Black, b), n, cp, Mk(s, c, p, Black, t))))
  {
    MkWf(s, b, n, Red, c);
    MkWf(s, far, sib, Black, Mk(s, b, n, Red, c));
    MkWf(s, far, sib, Black, b);
    MkWf(s, c, p, Black, t);
    MkWf(s, Mk(s, far, sib, Black, b), n, cp, Mk(s, c, p, Black, t));
    assert !IsRed(Mk(s, far, sib, Black, b)) && !IsRed(Mk(s, c, p, Black, t));
    Focus(k, Mk(s, Mk(s, far, sib, Black, b), n, cp, Mk(s, c, p, Black, t)));
  }

  /** Erase cases 3 and 4: only the sibling's inner child is red. */
  lemma {:induction false} InnerNephew(k: Ctx, s: Side, far: Tree, sib: Ptr, b: Tree, n: Ptr, c: Tree,
                                       p: Ptr, cp: Color, t: Tree)
    requires Short(Step(k, s.Opp(), p, cp, Mk(s, far, sib, Black, Mk(s, b, n, Red, c))), t) && !IsRed(far)
    ensures !IsRed(b) && !IsRed(c)
    ensures var t' := Mk(s, Mk(s, far, sib, Black, b), n, cp, Mk(s, c, p, Black, t));
            && RedBlack(Plug(k, t'))
            && InOrder(Plug(k, t')) ==
               InOrder(Plug(Step(k, s.Opp(), p, cp, Mk(s, far, sib, Black, Mk(s, b, n, Red, c))), t))
  {
    InnerColours(k, s, far, sib, b, n, c, p, cp, t);
    assert Paint(b, Black) == b && Paint(c, Black) == c;
    DoubleRotationOrder(k, s, far, sib, Black, b, n, Red, c, p, cp, t, Black, Black, Black, cp, Black);
  }

  // ----- contexts below contexts -----

  /** The context `path` hung into the hole of `k`. */
  ghost function Down(k: Ctx, path: Ctx): Ctx
  {
    if path == Top then k else Step(Down(k, path.up), path.side, path.id, path.color, path.other)
  }

  ghost predicate AllLeft(path: Ctx) { path.Step? ==> path.side == L && AllLeft(path.up) }

  lemma {:induction false} PlugDown(k: Ctx, path: Ctx, t: Tree)
    ensures Plug(Down(k, path), t) == Plug(k, Plug(path, t))
    decreases path
  {
    if path.Step? { PlugDown(k, path.up, Mk(path.side, t, path.id, path.color, path.other)); }
  }

  lemma {:induction false} DownNodes(k: Ctx, path: Ctx)
    ensures CtxNodes(Down(k, path)) == CtxNodes(k) + CtxNodes(path)
  {
    if path.Step? { DownNodes(k, path.up); }
  }

  /** What hangs in the hole of a non-empty context does not change the root. */
  lemma {:induction false} PlugRoot(path: Ctx, t: Tree, u: Tree)
    requires path.Step?
    ensures Root(Plug(path, t)) == Root(Plug(path, u)) && Root(Plug(path, t)) in CtxNodes(path) && Plug(path, t).Node?
    decreases path
  {
    var t', u' := Mk(path.side, t, path.id, path.color, path.other), Mk(path.side, u, path.id, path.color, path.other);
    if path.up.Step? { PlugRoot(path.up, t', u'); }
  }

  lemma {:induction false} NothingBefore(path: Ctx)
    requires AllLeft(path)
    ensures Before(path) == []
  {
    if path.Step? { NothingBefore(path.up); }
  }

  /** The colour rules do not depend on which node carries a colour. */
  lemma {:induction false} RenamedExpects(k: Ctx, c: Color, l: Tree, n: Ptr, n': Ptr, path: Ctx, h: nat)
    ensures Expects(Down(Step(k, R, n, c, l), path), h) <==> Expects(Down(Step(k, R, n', c, l), path), h)
    ensures BlackAbove(Down(Step(k, R, n, c, l), path)) <==> BlackAbove(Down(Step(k, R, n', c, l), path))
    decreases path
  {
    if path.Step? { RenamedExpects(k, c, l, n, n', path.up, h + BlackBit(path.color)); }
  }

  // ----- removing a node with two children -----

  /** The colour rules after the in-order successor `n` took the place of `v`. */
  lemma {:induction false} MovedColours(k: Ctx, l: Tree, v: Ptr, c: Color, path: Ctx, n: Ptr, sc: Color, sr: Tree)
    requires RedBlack(Plug(Down(Step(k, R, v, c, l), path), Node(Nil, n, sc, sr)))
    ensures sr.Node? ==> sc == Black
    ensures var k' := Down(Step(k, R, n, c, l), path);
            if sr == Nil && sc == Black then Short(k', Nil) else RedBlack(Plug(k', Paint(sr, sc)))
  {
    var k1, k' := Down(Step(k, R, v, c, l), path), Down(Step(k, R, n, c, l), path);
    SpliceColours(k1, R, sr, n, sc);
    RenamedExpects(k, c, l, v, n, path, BlackHeight(Paint(sr, sc)));
    RenamedExpects(k, c, l, v, n, path, 1);
    Focus(k1, Paint(sr, sc));
    Focus(k', Paint(sr, sc));
  }

  lemma {:induction false} PathOrder(path: Ctx, n: Ptr, sc: Color, sr: Tree)
    requires AllLeft(path)
    ensures InOrder(Plug(path, Node(Nil, n, sc, sr))) == [n] + (InOrder(sr) + After(path))
    ensures InOrder(Plug(path, Paint(sr, sc))) == InOrder(sr) + After(path)
  {
    NothingBefore(path);
    PlugInOrder(path, Node(Nil, n, sc, sr));
    PlugInOrder(path, Paint(sr, sc));
    PaintOrder(sr, sc);
    assert InOrder(Node(Nil, n, sc, sr)) == [n] + InOrder(sr);
  }

  /** The in-order sequence loses exactly `v`. */
  lemma {:induction false} MovedOrder(k: Ctx, l: Tree, v: Ptr, c: Color, path: Ctx, n: Ptr, sc: Color, sr: Tree)
    requires AllLeft(path)
    ensures var a, b := Before(k) + InOrder(l), [n] + (InOrder(sr) + After(path)) + After(k);
            && InOrder(Plug(Down(Step(k, R, v, c, l), path), Node(Nil, n, sc, sr))) == a + [v] + b
            && InOrder(Plug(Down(Step(k, R, n, c, l), path), Paint(sr, sc))) == a + b
  {
    var t, u, tail := Plug(path, Node(Nil, n, sc, sr)), Plug(path, Paint(sr, sc)), InOrder(sr) + After(path);
    PathOrder(path, n, sc, sr);
    PlugDown(Step(k, R, v, c, l), path, Node(Nil, n, sc, sr));
    PlugDown(Step(k, R, n, c, l), path, Paint(sr, sc));
    PlugInOrder(k, Node(l, v, c, t));
    PlugInOrder(k, Node(l, n, c, u));
    Regroup(Before(k), InOrder(l), v, [n] + tail, After(k));
    Regroup(Before(k), InOrder(l), n, tail, After(k));
    Prepend(Before(k) + InOrder(l), n, tail, After(k));
  }

  lemma Prepend(a: seq<Ptr>, n: Ptr, x: seq<Ptr>, y: seq<Ptr>)
    ensures a + [n] + (x + y) == a + ([n] + x + y)
  {
  }

  lemma Regroup(x: seq<Ptr>, l: seq<Ptr>, n: Ptr, r: seq<Ptr>, y: seq<Ptr>)
    ensures x + (l + [n] + r) + y == (x + l) + [n] + (r + y)
    ensures x + (l + r) + y == (x + l) + (r + y)
  {
  }

  lemma {:induction false} SplicedOrder(k: Ctx, l: Tree, n: Ptr, c: Color, r: Tree, t': Tree)
    requires NoDup(InOrder(Plug(k, Node(l, n, c, r)))) && InOrder(t') == InOrder(l) + InOrder(r)
    ensures InOrder(Plug(k, t')) == Without(InOrder(Plug(k, Node(l, n, c, r))), n)
  {
    PlugInOrder(k, Node(l, n, c, r));
    PlugInOrder(k, t');
    Regroup(Before(k), InOrder(l), n, InOrder(r), After(k));
    WithoutMoved(Before(k) + InOrder(l), n, InOrder(r) + After(k));
  }

  lemma {:induction false} PartsOf(q: seq<Ptr>, a: seq<Ptr>, x: Ptr, b: seq<Ptr>)
    requires q == a + [x] + b
    ensures q[|a|] == x && a == q[..|a|] && b == q[|a| + 1..]
  {
  }

  lemma {:induction false} ReplacedOrder(k: Ctx, t: Tree, n: Ptr)
    requires t.Node? && NoDup(InOrder(Plug(k, t)))
    ensures forall a, b | InOrder(Plug(k, t)) == a + [t.id] + b :: InOrder(Plug(k, t.(id := n))) == a + [n] + b
  {
    PlugInOrder(k, t);
    PlugInOrder(k, t.(id := n));
    Regroup(Before(k), InOrder(t.left), t.id, InOrder(t.right), After(k));
    Regroup(Before(k), InOrder(t.left), n, InOrder(t.right), After(k));
    var q, c, d := InOrder(Plug(k, t)), Before(k) + InOrder(t.left), InOrder(t.right) + After(k);
    PartsOf(q, c, t.id, d);
    forall a, b | q == a + [t.id] + b
      ensures InOrder(Plug(k, t.(id := n))) == a + [n] + b
    {
      PartsOf(q, a, t.id, b);
    }
  }

  // ----- height -----

  ghost function Size(t: Tree): nat
  {
    if t == Nil then 0 else Size(t.left) + 1 + Size(t.right)
  }

  ghost function Height(t: Tree): nat
  {
    if t == Nil then 0 else
    1 + (if Height(t.left) < Height(t.right) then Height(t.right) else Height(t.left))
  }

  ghost function Pow2(n: nat): nat { if n == 0 then 1 else 2 * Pow2(n - 1) }

  lemma {:induction false} Pow2Sum(a: nat, b: nat)
    ensures Pow2(a + b) == Pow2(a) * Pow2(b)
  {
    if a > 0 {
      Pow2Sum(a - 1, b);
      assert Pow2(a) * Pow2(b) == 2 * (Pow2(a - 1) * Pow2(b));
    }
  }

  lemma {:induction false} Pow2Mono(a: nat, b: nat)
    requires a <= b
    ensures 1 <= Pow2(a) <= Pow2(b)
    decreases b
  {
    if a < b { Pow2Mono(a, b - 1); }
    else if 0 < a { Pow2Mono(a - 1, a - 1); }
  }

  /** At most every second node of a path is red. */
  lemma {:induction false} HeightByBlackHeight(t: Tree)
    requires Wf(t)
    ensures Height(t) <= 2 * BlackHeight(t) + (if IsRed(t) then 1 else 0)
  {
    if t.Node? {
      HeightByBlackHeight(t.left);
      HeightByBlackHeight(t.right);
    }
  }

  lemma {:induction false} SizeByBlackHeight(t: Tree)
    requires Wf(t)
    ensures Pow2(BlackHeight(t)) <= Size(t) + 1
  {
    if t.Node? {
      SizeByBlackHeight(t.left);
      SizeByBlackHeight(t.right);
    }
  }

  /** The height of a red-black tree of n nodes is at most 2 * log2(n + 1):
      2^height <= (n + 1)^2. */
  lemma {:induction false} LogarithmicHeight(t: Tree)
    requires RedBlack(t)
    ensures Pow2(Height(t)) <= (Size(t) + 1) * (Size(t) + 1)
  {
    var h := BlackHeight(t);
    HeightByBlackHeight(t);
    SizeByBlackHeight(t);
    Pow2Mono(Height(t), h + h);
    Pow2Sum(h, h);
    MulMono(Pow2(h), Size(t) + 1);
  }

  lemma MulMono(a: nat, b: nat)
    requires a <= b
    ensures a * a <= b * b
  {
    assert b * b - a * a == (b - a) * (b + a);
  }

  lemma {:induction false} SizeIsCount(t: Tree)
    ensures |InOrder(t)| == Size(t)
  {
    if t.Node? {
      SizeIsCount(t.left);
      SizeIsCount(t.right);
    }
  }

  /** A node sits no deeper than the tree is high. */
  lemma {:induction false} DepthByHeight(k: Ctx, t: Tree)
    ensures Depth(k) + Height(t) <= Height(Plug(k, t))
    decreases k
  {
    match k
    case Top =>
    case Step(up, s, id, c, o) => DepthByHeight(up, Mk(s, t, id, c, o));
  }

  lemma {:induction false} DownDepth(k: Ctx, path: Ctx)
    ensures Depth(Down(k, path)) == Depth(k) + Depth(path)
  {
    if path.Step? { DownDepth(k, path.up); }
  }

  /** The slot that the successor `s` of `v` leaves is no deeper than the tree was high. */
  lemma {:induction false} MovedDepth(k: Ctx, l: Tree, v: Ptr, c: Color, path: Ctx, s: Tree, n: Ptr)
    ensures Depth(Down(Step(k, R, n, c, l), path)) <= Height(Plug(k, Node(l, v, c, Plug(path, s))))
  {
    var k0 := Step(k, R, v, c, l);
    DownDepth(k0, path);
    DownDepth(Step(k, R, n, c, l), path);
    PlugDown(k0, path, s);
    DepthByHeight(Down(k0, path), s);
  }

  /** Every node of a tree is the root of the subtree in the hole of some context. */
  lemma {:induction false} Locate(t: Tree, n: Ptr) returns (k: Ctx, sub: Tree)
    requires n in Nodes(t)
    ensures Plug(k, sub) == t && sub.Node? && sub.id == n
  {
    k, sub := LocateUnder(Top, t, n);
  }

  lemma {:induction false} LocateUnder(up: Ctx, t: Tree, n: Ptr) returns (k: Ctx, sub: Tree)
    requires n in Nodes(t)
    ensures Plug(k, sub) == Plug(up, t) && sub.Node? && sub.id == n
    decreases t
  {
    if t.id == n {
      k, sub := up, t;
    } else if n in Nodes(t.left) {
      k, sub := LocateUnder(Step(up, L, t.id, t.color, t.right), t.left, n);
    } else {
      k, sub := LocateUnder(Step(up, R, t.id, t.color, t.left), t.right, n);
    }
  }
}
