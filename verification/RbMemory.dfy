/** How a tree lies in memory. An `rb_node` is a cell holding the parent pointer, the
    colour and the two child pointers; memory maps addresses to cells. */
module RbMemory {
  import opened Sequences
  import opened RbShape

  datatype Cell = Cell(parent: Ptr, color: Color, right: Ptr, left: Ptr)
  {
    function Child(s: Side): Ptr { if s == L then left else right }

    function SetChild(s: Side, v: Ptr): Cell
    {
      if s == L then this.(left := v) else this.(right := v)
    }
  }

  type Memory = map<Ptr, Cell>

  // ----- single writes -----

  function PutChild(m: Memory, n: Ptr, s: Side, v: Ptr): Memory
    requires n in m
  {
    m[n := m[n].SetChild(s, v)]
  }

  function PutParentColor(m: Memory, n: Ptr, p: Ptr, c: Color): Memory
    requires n in m
  {
    m[n := m[n].(parent := p, color := c)]
  }

  function PutParent(m: Memory, n: Ptr, p: Ptr): Memory
    requires n in m
  {
    m[n := m[n].(parent := p)]
  }

  // ----- ranks: a witness that no node occurs twice -----

  /** Ranks increase strictly along the in-order sequence, so that every subtree
      occupies an open interval of ranks. Rotations keep all ranks. */
  type Ranks = map<Ptr, real>

  ghost function Rank(rk: Ranks, x: Ptr): real { if x in rk then rk[x] else 0.0 }

  datatype Span = Span(lo: real, hi: real)
  {
    ghost predicate Has(x: real) { lo < x < hi }

    /** The part on side `s` of `x`. */
    ghost function Part(s: Side, x: real): Span { if s == L then Span(lo, x) else Span(x, hi) }

    ghost predicate Within(o: Span) { o.lo <= lo && hi <= o.hi }

    ghost predicate Apart(o: Span) { hi <= o.lo || o.hi <= lo }
  }

  /** The ranks left for the hole of a context. */
  ghost function Hole(rk: Ranks, k: Ctx): Span
  {
    if k == Top then Span(0.0, 1.0) else Hole(rk, k.up).Part(k.side, Rank(rk, k.id))
  }

  // ----- representation -----

  ghost function MkCell(p: Ptr, c: Color, s: Side, near: Ptr, far: Ptr): Cell
  {
    if s == L then Cell(p, c, far, near) else Cell(p, c, near, far)
  }

  /** Memory holds `t` as a subtree whose root has parent `p`: every child pointer,
      parent pointer and colour is the one `t` prescribes. Its ranks lie in `sp`. */
  ghost predicate Rep(m: Memory, rk: Ranks, p: Ptr, t: Tree, sp: Span)
    decreases t
  {
    t.Node? ==>
      var r := Rank(rk, t.id);
      && t.id != 0 && t.id in m && m[t.id] == Cell(p, t.color, Root(t.right), Root(t.left))
      && sp.Has(r) && Rep(m, rk, t.id, t.left, sp.Part(L, r)) && Rep(m, rk, t.id, t.right, sp.Part(R, r))
  }

  /** Memory holds the context `k` below the root pointer `rt`, and the pointer in
      its hole is `h`. */
  ghost predicate RepCtx(m: Memory, rk: Ranks, rt: Ptr, k: Ctx, h: Ptr)
    decreases k
  {
    match k
    case Top => rt == h
    case Step(up, s, id, c, o) =>
      var r := Rank(rk, id);
      && id != 0 && id in m && m[id] == MkCell(CtxParent(up), c, s, h, Root(o))
      && Hole(rk, up).Has(r) && Rep(m, rk, id, o, Hole(rk, up).Part(s.Opp(), r))
      && RepCtx(m, rk, rt, up, id)
  }

  /** Memory holds the tree `Plug(k, t)` below the root pointer `rt`. */
  ghost predicate At(m: Memory, rk: Ranks, rt: Ptr, k: Ctx, t: Tree)
  {
    RepCtx(m, rk, rt, k, Root(t)) && Rep(m, rk, CtxParent(k), t, Hole(rk, k))
  }

  /** Moving the focus up or down changes nothing about memory. */
  lemma {:induction false} Refocus(m: Memory, rk: Ranks, rt: Ptr, k: Ctx, t: Tree)
    ensures At(m, rk, rt, k, t) <==> At(m, rk, rt, Top, Plug(k, t))
    decreases k
  {
    match k
    case Top =>
    case Step(up, s, id, c, o) => Refocus(m, rk, rt, up, Mk(s, t, id, c, o));
  }

  /** One step of the same. */
  lemma {:induction false} Descend(m: Memory, rk: Ranks, rt: Ptr, k: Ctx, s: Side, t: Tree, id: Ptr, c: Color, o: Tree)
    ensures At(m, rk, rt, Step(k, s, id, c, o), t) <==> At(m, rk, rt, k, Mk(s, t, id, c, o))
  {
  }

  /** One node of a represented tree, whichever side is named first. */
  lemma {:induction false} Unfold(m: Memory, rk: Ranks, p: Ptr, s: Side, a: Tree, id: Ptr, c: Color, b: Tree, sp: Span)
    ensures var r := Rank(rk, id);
            Rep(m, rk, p, Mk(s, a, id, c, b), sp) <==>
              && id != 0 && id in m && m[id] == MkCell(p, c, s, Root(a), Root(b))
              && sp.Has(r) && Rep(m, rk, id, a, sp.Part(s, r)) && Rep(m, rk, id, b, sp.Part(s.Opp(), r))
  {
  }

  lemma {:induction false} RootRank(m: Memory, rk: Ranks, p: Ptr, t: Tree, sp: Span)
    requires Rep(m, rk, p, t, sp)
    ensures t.Node? ==> sp.Has(Rank(rk, t.id)) && t.id != 0 && t.id in m
  {
  }

  lemma {:induction false} ParentRank(m: Memory, rk: Ranks, rt: Ptr, k: Ctx, h: Ptr)
    requires RepCtx(m, rk, rt, k, h)
    ensures k.Step? ==> !Hole(rk, k).Has(Rank(rk, k.id)) && k.id != 0 && k.id in m
  {
  }

  // ----- frames -----

  ghost predicate Unchanged(m: Memory, m': Memory, x: Ptr) { x in m ==> x in m' && m'[x] == m[x] }

  lemma {:induction false} RepFrame(m: Memory, m': Memory, rk: Ranks, p: Ptr, t: Tree, sp: Span)
    requires Rep(m, rk, p, t, sp)
    requires forall x {:trigger Unchanged(m, m', x)} :: x != 0 && sp.Has(Rank(rk, x)) ==> Unchanged(m, m', x)
    ensures Rep(m', rk, p, t, sp)
    decreases t
  {
    if t.Node? {
      assert Unchanged(m, m', t.id);
      RepFrame(m, m', rk, t.id, t.left, sp.Part(L, Rank(rk, t.id)));
      RepFrame(m, m', rk, t.id, t.right, sp.Part(R, Rank(rk, t.id)));
    }
  }

  lemma {:induction false} RepCtxFrame(m: Memory, m': Memory, rk: Ranks, rt: Ptr, k: Ctx, h: Ptr)
    requires RepCtx(m, rk, rt, k, h)
    requires forall x {:trigger Unchanged(m, m', x)} :: x != 0 && !Hole(rk, k).Has(Rank(rk, x)) ==> Unchanged(m, m', x)
    ensures RepCtx(m', rk, rt, k, h)
    decreases k
  {
    match k
    case Top =>
    case Step(up, s, id, c, o) =>
      assert Unchanged(m, m', id);
      RepFrame(m, m', rk, id, o, Hole(rk, up).Part(s.Opp(), Rank(rk, id)));
      RepCtxFrame(m, m', rk, rt, up, id);
  }

  /** The pointers whose cells an operation writes; null for none. */
  datatype Writes = Writes(a: Ptr, b: Ptr, c: Ptr, d: Ptr, e: Ptr, f: Ptr)
  {
    ghost predicate To(x: Ptr)
    {
      x != 0 && (x == a || x == b || x == c || x == d || x == e || x == f)
    }
  }

  /** The two memories differ at most in the written cells. */
  ghost predicate Only(m: Memory, m': Memory, w: Writes)
  {
    m'.Keys == m.Keys && forall x {:trigger Unchanged(m, m', x)} :: w.To(x) || Unchanged(m, m', x)
  }

  lemma {:induction false} OnlyBoth(m: Memory, m': Memory, m'': Memory, w: Writes, w': Writes)
    requires Only(m, m', w) && Only(m', m'', w')
    requires forall x :: w'.To(x) ==> w.To(x)
    ensures Only(m, m'', w)
  {
    forall x
      ensures w.To(x) || Unchanged(m, m'', x)
    {
      assert w.To(x) || Unchanged(m, m', x);
      assert w'.To(x) || Unchanged(m', m'', x);
    }
  }

  /** `x` is null, is `r` or has no rank in `sp`. */
  ghost predicate Off(rk: Ranks, x: Ptr, sp: Span, r: Ptr) { x == 0 || x == r || !sp.Has(Rank(rk, x)) }

  ghost predicate AllOff(rk: Ranks, w: Writes, sp: Span, r: Ptr)
  {
    && Off(rk, w.a, sp, r) && Off(rk, w.b, sp, r) && Off(rk, w.c, sp, r)
    && Off(rk, w.d, sp, r) && Off(rk, w.e, sp, r) && Off(rk, w.f, sp, r)
  }

  /** `x` is null, is `r` or has a rank in `sp`. */
  ghost predicate On(rk: Ranks, x: Ptr, sp: Span, r: Ptr) { x == 0 || x == r || sp.Has(Rank(rk, x)) }

  ghost predicate AllOn(rk: Ranks, w: Writes, sp: Span, r: Ptr)
  {
    && On(rk, w.a, sp, r) && On(rk, w.b, sp, r) && On(rk, w.c, sp, r)
    && On(rk, w.d, sp, r) && On(rk, w.e, sp, r) && On(rk, w.f, sp, r)
  }

  /** A subtree that is not written survives. */
  lemma {:induction false} Kept(m: Memory, m': Memory, rk: Ranks, w: Writes, p: Ptr, t: Tree, sp: Span)
    requires Rep(m, rk, p, t, sp) && Only(m, m', w) && AllOff(rk, w, sp, 0)
    ensures Rep(m', rk, p, t, sp)
  {
    RepFrame(m, m', rk, p, t, sp);
  }

  /** The root cell of `t` gets parent `p` and colour `c`. */
  ghost predicate Painted(m: Memory, m': Memory, t: Tree, p: Ptr, c: Color)
  {
    t.Node? ==> t.id in m && t.id in m' && m'[t.id] == m[t.id].(parent := p, color := c)
  }

  /** The root cell of `t` gets parent `p`. */
  ghost predicate Rehung(m: Memory, m': Memory, t: Tree, p: Ptr)
  {
    t.Node? ==> t.id in m && t.id in m' && m'[t.id] == m[t.id].(parent := p)
  }

  /** A subtree of which only the parent and colour of the root are written. */
  lemma {:induction false} Repainted(m: Memory, m': Memory, rk: Ranks, w: Writes, p: Ptr, t: Tree, sp: Span,
                                     p': Ptr, c': Color)
    requires Rep(m, rk, p, t, sp) && Only(m, m', w) && AllOff(rk, w, sp, Root(t)) && Painted(m, m', t, p', c')
    ensures Rep(m', rk, p', Paint(t, c'), sp)
  {
    if t.Node? {
      RepFrame(m, m', rk, t.id, t.left, sp.Part(L, Rank(rk, t.id)));
      RepFrame(m, m', rk, t.id, t.right, sp.Part(R, Rank(rk, t.id)));
    }
  }

  /** The pointer in the hole of `k` now is `h`. */
  ghost predicate Hooked(m: Memory, rt: Ptr, m': Memory, rt': Ptr, k: Ctx, h: Ptr)
  {
    if k == Top then rt' == h else
      rt' == rt && k.id in m && k.id in m' && m'[k.id] == m[k.id].SetChild(k.side, h)
  }

  /** A context of which only the pointer in the hole is written. */
  lemma {:induction false} Rehooked(m: Memory, rk: Ranks, w: Writes, rt: Ptr, k: Ctx, h: Ptr,
                                    m': Memory, rt': Ptr, h': Ptr)
    requires RepCtx(m, rk, rt, k, h) && Only(m, m', w) && AllOn(rk, w, Hole(rk, k), CtxParent(k))
    requires Hooked(m, rt, m', rt', k, h')
    ensures RepCtx(m', rk, rt', k, h')
  {
    match k
    case Top =>
    case Step(up, s, id, c, o) =>
      var r, sp := Rank(rk, id), Hole(rk, up);
      if s == L {
        RepFrame(m, m', rk, id, o, Span(r, sp.hi));
      } else {
        RepFrame(m, m', rk, id, o, Span(sp.lo, r));
      }
      RepCtxFrame(m, m', rk, rt, up, id);
  }

  // ----- rotations -----

  /** The subtrees `a`, `b` and `u` and the context survive the writes of a rotation. */
  lemma {:induction false} Carried(m: Memory, rk: Ranks, rt: Ptr, k: Ctx, a: Tree, p: Ptr, b: Tree, g: Ptr, u: Tree,
                                   m': Memory, rt': Ptr, ca: Color, cb: Color, sa: Span, sb: Span, su: Span)
    requires Rep(m, rk, p, a, sa) && Rep(m, rk, p, b, sb) && Rep(m, rk, g, u, su) && RepCtx(m, rk, rt, k, g)
    requires sa.Within(Hole(rk, k)) && sb.Within(Hole(rk, k)) && su.Within(Hole(rk, k))
    requires sa.Apart(sb) && sa.Apart(su) && sb.Apart(su)
    requires var r := Rank(rk, p); Hole(rk, k).Has(r) && !sa.Has(r) && !sb.Has(r) && !su.Has(r)
    requires var r := Rank(rk, g); Hole(rk, k).Has(r) && !sa.Has(r) && !sb.Has(r) && !su.Has(r)
    requires Only(m, m', Writes(g, p, Root(a), Root(b), CtxParent(k), 0))
    requires Painted(m, m', a, p, ca) && Painted(m, m', b, g, cb) && Hooked(m, rt, m', rt', k, p)
    ensures Rep(m', rk, p, Paint(a, ca), sa) && Rep(m', rk, g, Paint(b, cb), sb)
    ensures Rep(m', rk, g, u, su) && RepCtx(m', rk, rt', k, p)
  {
    var w := Writes(g, p, Root(a), Root(b), CtxParent(k), 0);
    ParentRank(m, rk, rt, k, g);
    RootRank(m, rk, p, a, sa);
    RootRank(m, rk, p, b, sb);
    Repainted(m, m', rk, w, p, a, sa, p, ca);
    Repainted(m, m', rk, w, p, b, sb, g, cb);
    Kept(m, m', rk, w, g, u, su);
    Rehooked(m, rk, w, rt, k, g, m', rt', p);
  }

  /** What a rotation that lifts `p` over `g` writes. It may also repaint the roots
      of the outer subtree `a` and of the inner subtree `b`. */
  ghost predicate Rotation(m: Memory, rt: Ptr, k: Ctx, s: Side, a: Tree, p: Ptr, b: Tree, g: Ptr, u: Tree,
                           m': Memory, rt': Ptr, ca: Color, cb: Color, cp: Color, cg: Color)
  {
    && Only(m, m', Writes(g, p, Root(a), Root(b), CtxParent(k), 0))
    && Painted(m, m', a, p, ca) && Painted(m, m', b, g, cb) && Hooked(m, rt, m', rt', k, p)
    && g in m' && m'[g] == MkCell(p, cg, s, Root(b), Root(u))
    && p in m' && m'[p] == MkCell(CtxParent(k), cp, s, Root(a), g)
  }

  lemma {:induction false} Rotated(m: Memory, rk: Ranks, rt: Ptr, k: Ctx, s: Side,
                                   a: Tree, p: Ptr, cp: Color, b: Tree, g: Ptr, cg: Color, u: Tree,
                                   m': Memory, rt': Ptr, ca: Color, cb: Color, cp': Color, cg': Color)
    requires At(m, rk, rt, k, Mk(s, Mk(s, a, p, cp, b), g, cg, u))
    requires Rotation(m, rt, k, s, a, p, b, g, u, m', rt', ca, cb, cp', cg')
    ensures At(m', rk, rt', k, Mk(s, Paint(a, ca), p, cp', Mk(s, Paint(b, cb), g, cg', u)))
  {
    var sp, rp, rg := Hole(rk, k), Rank(rk, p), Rank(rk, g);
    Unfold(m, rk, CtxParent(k), s, Mk(s, a, p, cp, b), g, cg, u, sp);
    if s == L {
      Unfold(m, rk, g, s, a, p, cp, b, Span(sp.lo, rg));
      Carried(m, rk, rt, k, a, p, b, g, u, m', rt', ca, cb, Span(sp.lo, rp), Span(rp, rg), Span(rg, sp.hi));
      Unfold(m', rk, p, s, Paint(b, cb), g, cg', u, Span(rp, sp.hi));
    } else {
      Unfold(m, rk, g, s, a, p, cp, b, Span(rg, sp.hi));
      Carried(m, rk, rt, k, a, p, b, g, u, m', rt', ca, cb, Span(rp, sp.hi), Span(rg, rp), Span(sp.lo, rg));
      Unfold(m', rk, p, s, Paint(b, cb), g, cg', u, Span(sp.lo, rp));
    }
    Unfold(m', rk, CtxParent(k), s, Paint(a, ca), p, cp', Mk(s, Paint(b, cb), g, cg', u), sp);
  }

  /** The subtrees of a double rotation and the context survive its writes. */
  lemma {:induction false} CarriedTwice(m: Memory, rk: Ranks, rt: Ptr, k: Ctx,
                                        a: Tree, p: Ptr, b: Tree, n: Ptr, c: Tree, g: Ptr, u: Tree,
                                        m': Memory, rt': Ptr, cb: Color, cc: Color,
                                        sa: Span, sb: Span, sc: Span, su: Span)
    requires Rep(m, rk, p, a, sa) && Rep(m, rk, n, b, sb) && Rep(m, rk, n, c, sc) && Rep(m, rk, g, u, su)
    requires RepCtx(m, rk, rt, k, g)
    requires sa.Within(Hole(rk, k)) && sb.Within(Hole(rk, k)) && sc.Within(Hole(rk, k)) && su.Within(Hole(rk, k))
    requires sa.Apart(sb) && sa.Apart(sc) && sa.Apart(su) && sb.Apart(sc) && sb.Apart(su) && sc.Apart(su)
    requires var r := Rank(rk, p); Hole(rk, k).Has(r) && !sa.Has(r) && !sb.Has(r) && !sc.Has(r) && !su.Has(r)
    requires var r := Rank(rk, n); Hole(rk, k).Has(r) && !sa.Has(r) && !sb.Has(r) && !sc.Has(r) && !su.Has(r)
    requires var r := Rank(rk, g); Hole(rk, k).Has(r) && !sa.Has(r) && !sb.Has(r) && !sc.Has(r) && !su.Has(r)
    requires Only(m, m', Writes(g, p, n, Root(b), Root(c), CtxParent(k)))
    requires Painted(m, m', b, p, cb) && Painted(m, m', c, g, cc) && Hooked(m, rt, m', rt', k, n)
    ensures Rep(m', rk, p, a, sa) && Rep(m', rk, p, Paint(b, cb), sb)
    ensures Rep(m', rk, g, Paint(c, cc), sc) && Rep(m', rk, g, u, su) && RepCtx(m', rk, rt', k, n)
  {
    var w := Writes(g, p, n, Root(b), Root(c), CtxParent(k));
    ParentRank(m, rk, rt, k, g);
    RootRank(m, rk, n, b, sb);
    RootRank(m, rk, n, c, sc);
    Kept(m, m', rk, w, p, a, sa);
    Repainted(m, m', rk, w, n, b, sb, p, cb);
    Repainted(m, m', rk, w, n, c, sc, g, cc);
    Kept(m, m', rk, w, g, u, su);
    Rehooked(m, rk, w, rt, k, g, m', rt', n);
  }

  /** What two rotations in a row, lifting `n` over `p` and then over `g`, write. */
  ghost predicate DoubleRotation(m: Memory, rt: Ptr, k: Ctx, s: Side,
                                 a: Tree, p: Ptr, b: Tree, n: Ptr, c: Tree, g: Ptr, u: Tree,
                                 m': Memory, rt': Ptr, cb: Color, cc: Color, cp: Color, cn: Color, cg: Color)
  {
    && Only(m, m', Writes(g, p, n, Root(b), Root(c), CtxParent(k)))
    && Painted(m, m', b, p, cb) && Painted(m, m', c, g, cc) && Hooked(m, rt, m', rt', k, n)
    && p in m' && m'[p] == MkCell(n, cp, s, Root(a), Root(b))
    && g in m' && m'[g] == MkCell(n, cg, s, Root(c), Root(u))
    && n in m' && m'[n] == MkCell(CtxParent(k), cn, s, p, g)
  }

  lemma {:induction false} RotatedTwiceL(m: Memory, rk: Ranks, rt: Ptr, k: Ctx,
                                         a: Tree, p: Ptr, cp: Color, b: Tree, n: Ptr, cn: Color, c: Tree,
                                         g: Ptr, cg: Color, u: Tree,
                                         m': Memory, rt': Ptr, cb: Color, cc: Color, cp': Color, cn': Color, cg': Color)
    requires At(m, rk, rt, k, Mk(L, Mk(L, a, p, cp, Mk(L, b, n, cn, c)), g, cg, u))
    requires DoubleRotation(m, rt, k, L, a, p, b, n, c, g, u, m', rt', cb, cc, cp', cn', cg')
    ensures At(m', rk, rt', k, Mk(L, Mk(L, a, p, cp', Paint(b, cb)), n, cn', Mk(L, Paint(c, cc), g, cg', u)))
  {
    var sp, rp, rn, rg := Hole(rk, k), Rank(rk, p), Rank(rk, n), Rank(rk, g);
    Unfold(m, rk, CtxParent(k), L, Mk(L, a, p, cp, Mk(L, b, n, cn, c)), g, cg, u, sp);
    Unfold(m, rk, g, L, a, p, cp, Mk(L, b, n, cn, c), Span(sp.lo, rg));
    Unfold(m, rk, p, L, b, n, cn, c, Span(rp, rg));
    CarriedTwice(m, rk, rt, k, a, p, b, n, c, g, u, m', rt', cb, cc,
                 Span(sp.lo, rp), Span(rp, rn), Span(rn, rg), Span(rg, sp.hi));
    Unfold(m', rk, n, L, a, p, cp', Paint(b, cb), Span(sp.lo, rn));
    Unfold(m', rk, n, L, Paint(c, cc), g, cg', u, Span(rn, sp.hi));
    Unfold(m', rk, CtxParent(k), L, Mk(L, a, p, cp', Paint(b, cb)), n, cn', Mk(L, Paint(c, cc), g, cg', u), sp);
  }

  lemma {:induction false} RotatedTwiceR(m: Memory, rk: Ranks, rt: Ptr, k: Ctx,
                                         a: Tree, p: Ptr, cp: Color, b: Tree, n: Ptr, cn: Color, c: Tree,
                                         g: Ptr, cg: Color, u: Tree,
                                         m': Memory, rt': Ptr, cb: Color, cc: Color, cp': Color, cn': Color, cg': Color)
    requires At(m, rk, rt, k, Mk(R, Mk(R, a, p, cp, Mk(R, b, n, cn, c)), g, cg, u))
    requires DoubleRotation(m, rt, k, R, a, p, b, n, c, g, u, m', rt', cb, cc, cp', cn', cg')
    ensures At(m', rk, rt', k, Mk(R, Mk(R, a, p, cp', Paint(b, cb)), n, cn', Mk(R, Paint(c, cc), g, cg', u)))
  {
    var sp, rp, rn, rg := Hole(rk, k), Rank(rk, p), Rank(rk, n), Rank(rk, g);
    Unfold(m, rk, CtxParent(k), R, Mk(R, a, p, cp, Mk(R, b, n, cn, c)), g, cg, u, sp);
    Unfold(m, rk, g, R, a, p, cp, Mk(R, b, n, cn, c), Span(rg, sp.hi));
    Unfold(m, rk, p, R, b, n, cn, c, Span(rg, rp));
    CarriedTwice(m, rk, rt, k, a, p, b, n, c, g, u, m', rt', cb, cc,
                 Span(rp, sp.hi), Span(rn, rp), Span(rg, rn), Span(sp.lo, rg));
    Unfold(m', rk, n, R, a, p, cp', Paint(b, cb), Span(rn, sp.hi));
    Unfold(m', rk, n, R, Paint(c, cc), g, cg', u, Span(sp.lo, rn));
    Unfold(m', rk, CtxParent(k), R, Mk(R, a, p, cp', Paint(b, cb)), n, cn', Mk(R, Paint(c, cc), g, cg', u), sp);
  }

  lemma {:induction false} RotatedTwice(m: Memory, rk: Ranks, rt: Ptr, k: Ctx, s: Side,
                                        a: Tree, p: Ptr, cp: Color, b: Tree, n: Ptr, cn: Color, c: Tree,
                                        g: Ptr, cg: Color, u: Tree,
                                        m': Memory, rt': Ptr, cb: Color, cc: Color, cp': Color, cn': Color, cg': Color)
    requires At(m, rk, rt, k, Mk(s, Mk(s, a, p, cp, Mk(s, b, n, cn, c)), g, cg, u))
    requires DoubleRotation(m, rt, k, s, a, p, b, n, c, g, u, m', rt', cb, cc, cp', cn', cg')
    ensures At(m', rk, rt', k, Mk(s, Mk(s, a, p, cp', Paint(b, cb)), n, cn', Mk(s, Paint(c, cc), g, cg', u)))
  {
    if s == L {
      RotatedTwiceL(m, rk, rt, k, a, p, cp, b, n, cn, c, g, cg, u, m', rt', cb, cc, cp', cn', cg');
    } else {
      RotatedTwiceR(m, rk, rt, k, a, p, cp, b, n, cn, c, g, cg, u, m', rt', cb, cc, cp', cn', cg');
    }
  }

  // ----- recolouring -----

  /** A node and its two children get other colours, and no pointer changes. */
  lemma {:induction false} Recoloured(m: Memory, rk: Ranks, rt: Ptr, k: Ctx, s: Side, a: Tree, g: Ptr, cg: Color,
                                      u: Tree,
                                      m': Memory, ca: Color, cg': Color, cu: Color)
    requires At(m, rk, rt, k, Mk(s, a, g, cg, u))
    requires Only(m, m', Writes(g, Root(a), Root(u), 0, 0, 0))
    requires Painted(m, m', a, g, ca) && Painted(m, m', u, g, cu)
    requires g in m && g in m' && m'[g] == m[g].(color := cg')
    ensures At(m', rk, rt, k, Mk(s, Paint(a, ca), g, cg', Paint(u, cu)))
  {
    var sp, r, w := Hole(rk, k), Rank(rk, g), Writes(g, Root(a), Root(u), 0, 0, 0);
    Unfold(m, rk, CtxParent(k), s, a, g, cg, u, sp);
    RootRank(m, rk, g, a, sp.Part(s, r));
    RootRank(m, rk, g, u, sp.Part(s.Opp(), r));
    ParentRank(m, rk, rt, k, g);
    if k.Step? { assert Unchanged(m, m', k.id); }
    if s == L {
      Repainted(m, m', rk, w, g, a, Span(sp.lo, r), g, ca);
      Repainted(m, m', rk, w, g, u, Span(r, sp.hi), g, cu);
    } else {
      Repainted(m, m', rk, w, g, a, Span(r, sp.hi), g, ca);
      Repainted(m, m', rk, w, g, u, Span(sp.lo, r), g, cu);
    }
    Rehooked(m, rk, w, rt, k, g, m', rt, g);
    Unfold(m', rk, CtxParent(k), s, Paint(a, ca), g, cg', Paint(u, cu), sp);
  }

  // ----- the pointers around a rotation -----

  /** The pointer that the context `k` has in its hole is `o`, and only there. */
  ghost predicate Slot(m: Memory, k: Ctx, o: Ptr)
  {
    k.Step? ==>
      && k.id != 0 && k.id in m
      && m[k.id].Child(k.side) == o && m[k.id].Child(k.side.Opp()) != o
  }

  /** `t` is empty, or its root cell has parent `p` and is none of `x`, `y`, `z`. */
  ghost predicate Hangs(m: Memory, t: Tree, p: Ptr, x: Ptr, y: Ptr, z: Ptr)
  {
    t.Node? ==>
      && t.id != 0 && t.id in m && m[t.id].parent == p && m[t.id].color == t.color
      && t.id != x && t.id != y && t.id != z
  }

  /** The cells that a rotation at `g` reads and writes, and that they are distinct. */
  ghost predicate Corner(m: Memory, k: Ctx, s: Side, a: Tree, p: Ptr, cp: Color, b: Tree, g: Ptr, cg: Color, u: Tree)
  {
    && p != 0 && g != 0 && p != g && CtxParent(k) != p && CtxParent(k) != g && Slot(m, k, g)
    && g in m && m[g] == MkCell(CtxParent(k), cg, s, p, Root(u))
    && p in m && m[p] == MkCell(g, cp, s, Root(a), Root(b))
    && Hangs(m, a, p, p, g, CtxParent(k)) && Hangs(m, b, p, p, g, CtxParent(k)) && (a.Node? ==> a.id != Root(b))
  }

  /** What a double rotation needs besides: the inner child of `p` is the node `n`. */
  ghost predicate Inner(m: Memory, k: Ctx, s: Side, p: Ptr, b: Tree, n: Ptr, cn: Color, c: Tree, g: Ptr)
  {
    && n in m && n != 0 && m[n] == MkCell(p, cn, s, Root(b), Root(c)) && n != p && n != g && n != CtxParent(k)
    && Hangs(m, b, n, n, p, g) && Hangs(m, c, n, n, p, g) && (b.Node? ==> b.id != Root(c))
    && (b.Node? ==> b.id != CtxParent(k)) && (c.Node? ==> c.id != CtxParent(k))
  }

  lemma {:induction false} SlotAt(m: Memory, rk: Ranks, rt: Ptr, k: Ctx, h: Ptr)
    requires RepCtx(m, rk, rt, k, h) && h != 0 && Hole(rk, k).Has(Rank(rk, h))
    ensures Slot(m, k, h)
  {
    match k
    case Top =>
    case Step(up, s, id, c, o) => RootRank(m, rk, id, o, Hole(rk, up).Part(s.Opp(), Rank(rk, id)));
  }

  /** The cells of a node and its two children. */
  lemma {:induction false} ForkAt(m: Memory, rk: Ranks, rt: Ptr, k: Ctx, s: Side, a: Tree, g: Ptr, c: Color, u: Tree)
    requires At(m, rk, rt, k, Mk(s, a, g, c, u))
    ensures g != 0 && g in m && m[g] == MkCell(CtxParent(k), c, s, Root(a), Root(u))
    ensures Hangs(m, a, g, g, Root(u), CtxParent(k)) && Hangs(m, u, g, g, Root(a), CtxParent(k))
  {
    var sp, r := Hole(rk, k), Rank(rk, g);
    Unfold(m, rk, CtxParent(k), s, a, g, c, u, sp);
    ParentRank(m, rk, rt, k, g);
    if s == L {
      RootRank(m, rk, g, a, Span(sp.lo, r));
      RootRank(m, rk, g, u, Span(r, sp.hi));
    } else {
      RootRank(m, rk, g, a, Span(r, sp.hi));
      RootRank(m, rk, g, u, Span(sp.lo, r));
    }
  }

  lemma {:induction false} CornerAt(m: Memory, rk: Ranks, rt: Ptr, k: Ctx, s: Side,
                                    a: Tree, p: Ptr, cp: Color, b: Tree, g: Ptr, cg: Color, u: Tree)
    requires At(m, rk, rt, k, Mk(s, Mk(s, a, p, cp, b), g, cg, u))
    ensures Corner(m, k, s, a, p, cp, b, g, cg, u)
  {
    var sp, rp, rg := Hole(rk, k), Rank(rk, p), Rank(rk, g);
    Unfold(m, rk, CtxParent(k), s, Mk(s, a, p, cp, b), g, cg, u, sp);
    ParentRank(m, rk, rt, k, g);
    SlotAt(m, rk, rt, k, g);
    if s == L {
      Unfold(m, rk, g, s, a, p, cp, b, Span(sp.lo, rg));
      RootRank(m, rk, p, a, Span(sp.lo, rp));
      RootRank(m, rk, p, b, Span(rp, rg));
    } else {
      Unfold(m, rk, g, s, a, p, cp, b, Span(rg, sp.hi));
      RootRank(m, rk, p, a, Span(rp, sp.hi));
      RootRank(m, rk, p, b, Span(rg, rp));
    }
  }

  lemma {:induction false} InnerAt(m: Memory, rk: Ranks, rt: Ptr, k: Ctx, s: Side, a: Tree, p: Ptr, cp: Color,
                                   b: Tree, n: Ptr, cn: Color, c: Tree, g: Ptr, cg: Color, u: Tree)
    requires At(m, rk, rt, k, Mk(s, Mk(s, a, p, cp, Mk(s, b, n, cn, c)), g, cg, u))
    ensures Inner(m, k, s, p, b, n, cn, c, g)
  {
    var k1 := Step(k, s, g, cg, u);
    Descend(m, rk, rt, k, s, Mk(s, a, p, cp, Mk(s, b, n, cn, c)), g, cg, u);
    if s == L {
      CornerAt(m, rk, rt, k1, R, c, n, cn, b, p, cp, a);
    } else {
      CornerAt(m, rk, rt, k1, L, c, n, cn, b, p, cp, a);
    }
    var k2 := Step(k1, s.Opp(), p, cp, a);
    Descend(m, rk, rt, k1, s.Opp(), Mk(s, b, n, cn, c), p, cp, a);
    OffTop(m, rk, rt, k2, s, b, n, cn, c);
  }

  /** The nodes just below the hole of `k` are none of the three nodes just above it. */
  lemma {:induction false} OffTop(m: Memory, rk: Ranks, rt: Ptr, k: Ctx, s: Side, b: Tree, n: Ptr, cn: Color, c: Tree)
    requires At(m, rk, rt, k, Mk(s, b, n, cn, c)) && k.Step? && k.up.Step?
    ensures var top := CtxParent(k.up.up);
            n != top && (b.Node? ==> b.id != top) && (c.Node? ==> c.id != top)
  {
    var sp := Hole(rk, k);
    Unfold(m, rk, k.id, s, b, n, cn, c, sp);
    RootRank(m, rk, n, b, sp.Part(s, Rank(rk, n)));
    RootRank(m, rk, n, c, sp.Part(s.Opp(), Rank(rk, n)));
    assert RepCtx(m, rk, rt, k.up, k.id);
    assert RepCtx(m, rk, rt, k.up.up, k.up.id);
    ParentRank(m, rk, rt, k.up.up, k.up.id);
  }

  // ----- linking a new leaf -----

  /** Giving a fresh node a cell and a rank disturbs no other node. */
  lemma {:induction false} RepOther(m: Memory, rk: Ranks, p: Ptr, t: Tree, sp: Span, x: Ptr, c: Cell, r: real)
    requires Rep(m, rk, p, t, sp) && x !in Nodes(t)
    ensures Rep(m[x := c], rk[x := r], p, t, sp)
    decreases t
  {
    if t.Node? {
      RepOther(m, rk, t.id, t.left, sp.Part(L, Rank(rk, t.id)), x, c, r);
      RepOther(m, rk, t.id, t.right, sp.Part(R, Rank(rk, t.id)), x, c, r);
    }
  }

  lemma {:induction false} RepCtxOther(m: Memory, rk: Ranks, rt: Ptr, k: Ctx, h: Ptr, x: Ptr, c: Cell, r: real)
    requires RepCtx(m, rk, rt, k, h) && x !in CtxNodes(k)
    ensures RepCtx(m[x := c], rk[x := r], rt, k, h) && Hole(rk[x := r], k) == Hole(rk, k)
    decreases k
  {
    if k.Step? {
      RepCtxOther(m, rk, rt, k.up, k.id, x, c, r);
      RepOther(m, rk, k.id, k.other, Hole(rk, k.up).Part(k.side.Opp(), Rank(rk, k.id)), x, c, r);
    }
  }

  lemma {:induction false} HoleIsOpen(m: Memory, rk: Ranks, rt: Ptr, k: Ctx, h: Ptr)
    requires RepCtx(m, rk, rt, k, h)
    ensures Hole(rk, k).lo < Hole(rk, k).hi
    decreases k
  {
    if k.Step? { HoleIsOpen(m, rk, rt, k.up, k.id); }
  }

  ghost function MidRank(rk: Ranks, k: Ctx): real { (Hole(rk, k).lo + Hole(rk, k).hi) / 2.0 }

  /** The writes that hang a fresh red leaf into an empty slot. */
  lemma {:induction false} LeafLinked(m: Memory, rk: Ranks, rt: Ptr, k: Ctx, n: Ptr, m': Memory, rt': Ptr)
    requires At(m, rk, rt, k, Nil) && n != 0 && n !in CtxNodes(k)
    requires var m1 := m[n := Cell(CtxParent(k), Red, 0, 0)];
             Hooked(m1, rt, m', rt', k, n) && Only(m1, m', Writes(CtxParent(k), 0, 0, 0, 0, 0))
    ensures At(m', rk[n := MidRank(rk, k)], rt', k, Node(Nil, n, Red, Nil))
  {
    var c, r := Cell(CtxParent(k), Red, 0, 0), MidRank(rk, k);
    HoleIsOpen(m, rk, rt, k, 0);
    RepCtxOther(m, rk, rt, k, 0, n, c, r);
    var m1, rk1 := m[n := c], rk[n := r];
    ParentRank(m1, rk1, rt, k, 0);
    Rehooked(m1, rk1, Writes(CtxParent(k), 0, 0, 0, 0, 0), rt, k, 0, m', rt', n);
    assert Unchanged(m1, m', n);
  }

  // ----- unlinking and replacing a node -----

  lemma {:induction false} RepWiden(m: Memory, rk: Ranks, p: Ptr, t: Tree, sp: Span, sp': Span)
    requires Rep(m, rk, p, t, sp) && sp.Within(sp')
    ensures Rep(m, rk, p, t, sp')
    decreases t
  {
    if t.Node? {
      var r := Rank(rk, t.id);
      RepWiden(m, rk, t.id, t.left, sp.Part(L, r), sp'.Part(L, r));
      RepWiden(m, rk, t.id, t.right, sp.Part(R, r), sp'.Part(R, r));
    }
  }

  /** Memory after putting `a` with colour `c` into the slot on side `s` of `p`. */
  ghost function Splice(m: Memory, p: Ptr, s: Side, a: Ptr, c: Color): Memory
    requires p in m && (a != 0 ==> a in m)
  {
    var m1 := PutChild(m, p, s, a);
    if a == 0 then m1 else PutParentColor(m1, a, p, c)
  }

  /** The writes that put the only child `a` of `n` in the place of `n`. */
  lemma {:induction false} Spliced(m: Memory, rk: Ranks, rt: Ptr, k: Ctx, s: Side, a: Tree, n: Ptr, c: Color,
                                   m': Memory, rt': Ptr)
    requires At(m, rk, rt, k, Mk(s, a, n, c, Nil))
    requires Only(m, m', Writes(Root(a), CtxParent(k), 0, 0, 0, 0))
    requires Painted(m, m', a, CtxParent(k), c) && Hooked(m, rt, m', rt', k, Root(a))
    ensures At(m', rk, rt', k, Paint(a, c))
  {
    var sp, r, w := Hole(rk, k), Rank(rk, n), Writes(Root(a), CtxParent(k), 0, 0, 0, 0);
    Unfold(m, rk, CtxParent(k), s, a, n, c, Nil, sp);
    RepWiden(m, rk, n, a, sp.Part(s, r), sp);
    RootRank(m, rk, n, a, sp);
    ParentRank(m, rk, rt, k, n);
    Repainted(m, m', rk, w, n, a, sp, CtxParent(k), c);
    Rehooked(m, rk, w, rt, k, n, m', rt', Root(a));
  }

  /** The writes that put the node `n`, which is not in the tree, in the place of `v`. */
  lemma {:induction false} Replaced(m: Memory, rk: Ranks, rt: Ptr, k: Ctx, l: Tree, v: Ptr, c: Color, r: Tree, n: Ptr,
                                    m': Memory, rt': Ptr)
    requires At(m, rk, rt, k, Node(l, v, c, r)) && n != 0 && n in m && n != v
    requires n !in Nodes(l) && n !in Nodes(r) && n !in CtxNodes(k)
    requires Only(m, m', Writes(n, v, Root(l), Root(r), CtxParent(k), 0))
    requires n in m' && m'[n] == Cell(CtxParent(k), c, Root(r), Root(l))
    requires Rehung(m, m', l, n) && Rehung(m, m', r, n) && Hooked(m, rt, m', rt', k, n)
    ensures At(m', rk[n := Rank(rk, v)], rt', k, Node(l, n, c, r))
  {
    var sp, x := Hole(rk, k), Rank(rk, v);
    var rk' := rk[n := x];
    var w := Writes(n, v, Root(l), Root(r), CtxParent(k), 0);
    assert Rep(m, rk, v, l, Span(sp.lo, x)) && Rep(m, rk, v, r, Span(x, sp.hi));
    RootNodes(l);
    RootNodes(r);
    assert m == m[n := m[n]];
    RepOther(m, rk, v, l, Span(sp.lo, x), n, m[n], x);
    RepOther(m, rk, v, r, Span(x, sp.hi), n, m[n], x);
    RepCtxOther(m, rk, rt, k, v, n, m[n], x);
    RootRank(m, rk', v, l, Span(sp.lo, x));
    RootRank(m, rk', v, r, Span(x, sp.hi));
    ParentRank(m, rk', rt, k, v);
    assert Paint(l, ColorOf(l)) == l && Paint(r, ColorOf(r)) == r;
    Repainted(m, m', rk', w, v, l, Span(sp.lo, x), n, ColorOf(l));
    Repainted(m, m', rk', w, v, r, Span(x, sp.hi), n, ColorOf(r));
    Rehooked(m, rk', w, rt, k, v, m', rt', n);
  }

  /** The nodes of a context have ranks outside its hole. */
  lemma {:induction false} CtxRanks(m: Memory, rk: Ranks, rt: Ptr, k: Ctx, h: Ptr, x: Ptr)
    requires RepCtx(m, rk, rt, k, h) && x in CtxNodes(k)
    ensures !Hole(rk, k).Has(Rank(rk, x))
    decreases k
  {
    if x in Nodes(k.other) {
      TreeRanks(m, rk, k.id, k.other, Hole(rk, k.up).Part(k.side.Opp(), Rank(rk, k.id)), x);
    } else if x != k.id {
      CtxRanks(m, rk, rt, k.up, k.id, x);
    }
  }

  lemma {:induction false} TreeRanks(m: Memory, rk: Ranks, p: Ptr, t: Tree, sp: Span, x: Ptr)
    requires Rep(m, rk, p, t, sp) && x in Nodes(t)
    ensures sp.Has(Rank(rk, x)) && x != 0 && x in m
    decreases t
  {
    var r := Rank(rk, t.id);
    if x in Nodes(t.left) {
      TreeRanks(m, rk, t.id, t.left, sp.Part(L, r), x);
    } else if x in Nodes(t.right) {
      TreeRanks(m, rk, t.id, t.right, sp.Part(R, r), x);
    }
  }

  /** The root of the subtree in the hole occurs nowhere else. */
  lemma {:induction false} OnlyOnce(m: Memory, rk: Ranks, rt: Ptr, k: Ctx, l: Tree, n: Ptr, c: Color, r: Tree)
    requires At(m, rk, rt, k, Node(l, n, c, r))
    ensures n !in CtxNodes(k) && n !in Nodes(l) && n !in Nodes(r)
  {
    var sp, x := Hole(rk, k), Rank(rk, n);
    if n in CtxNodes(k) { CtxRanks(m, rk, rt, k, n, n); }
    if n in Nodes(l) { TreeRanks(m, rk, n, l, sp.Part(L, x), n); }
    if n in Nodes(r) { TreeRanks(m, rk, n, r, sp.Part(R, x), n); }
  }

  /** The pointers around a node `v` with two children and its in-order successor `n`. */
  lemma {:induction false} SuccessorAt(m: Memory, rk: Ranks, rt: Ptr, k: Ctx, l: Tree, v: Ptr, c: Color, path: Ctx,
                                       n: Ptr, sc: Color, sr: Tree)
    requires At(m, rk, rt, Down(Step(k, R, v, c, l), path), Node(Nil, n, sc, sr)) && l.Node?
    ensures var r := Plug(path, Node(Nil, n, sc, sr));
            var top := CtxParent(k);
            && v in m && v != 0 && m[v] == Cell(top, c, Root(r), l.id) && v != top && Slot(m, k, v)
            && l.id in m && l.id != 0 && l.id != v && l.id != top
            && n in m && n != 0 && m[n].color == sc && m[n].left == 0 && m[n].right == Root(sr) && n != v &&
              n != l.id && n != top
            && r.Node? && r.id in m && r.id != 0 && r.id != v && r.id != l.id && r.id != top
            && (path.Step? ==>
                  path.id in m && path.id != v && path.id != l.id && path.id != top && path.id != n && r.id != n)
            && Hangs(m, sr, n, v, n, l.id)
            && (sr.Node? ==> sr.id != top && (path.Step? ==> sr.id != path.id && sr.id != r.id))
  {
    var k0 := Step(k, R, v, c, l);
    var k1, sub := Down(k0, path), Node(Nil, n, sc, sr);
    var r := Plug(path, sub);
    RootRank(m, rk, n, sr, Hole(rk, k1).Part(R, Rank(rk, n)));
    DownNodes(k0, path);
    forall x | x in CtxNodes(k1)
      ensures x != n && (sr.Node? ==> x != sr.id)
    {
      CtxRanks(m, rk, rt, k1, n, x);
    }
    Refocus(m, rk, rt, k1, sub);
    PlugDown(k0, path, sub);
    Refocus(m, rk, rt, k, Node(l, v, c, r));
    ForkAt(m, rk, rt, k, L, l, v, c, r);
    SlotAt(m, rk, rt, k, v);
    if path.Step? {
      PlugRoot(path, sub, Nil);
      PlugNodes(path, sub);
      InRight(m, rk, rt, k, l, v, c, r, path.id);
    }
  }

  /** A node of the right subtree of `v` is none of the nodes around `v`. */
  lemma {:induction false} InRight(m: Memory, rk: Ranks, rt: Ptr, k: Ctx, l: Tree, v: Ptr, c: Color, r: Tree, x: Ptr)
    requires At(m, rk, rt, k, Node(l, v, c, r)) && x in Nodes(r)
    ensures x in m && x != v && x != Root(l) && x != CtxParent(k)
  {
    var sp, y := Hole(rk, k), Rank(rk, v);
    TreeRanks(m, rk, v, r, Span(y, sp.hi), x);
    RootRank(m, rk, v, l, Span(sp.lo, y));
    ParentRank(m, rk, rt, k, v);
  }

  /** The writes that move the in-order successor `n` of `v` into the place of `v`:
      `m1` is memory with `n` spliced out, in which `n` then replaces `v`. */
  lemma {:induction false} SuccessorMoved(m: Memory, rk: Ranks, rt: Ptr, k: Ctx, l: Tree, v: Ptr, c: Color, path: Ctx,
                                          n: Ptr, sc: Color, sr: Tree, m1: Memory, m': Memory, rt': Ptr)
    requires At(m, rk, rt, Down(Step(k, R, v, c, l), path), Node(Nil, n, sc, sr))
    requires var k1 := Down(Step(k, R, v, c, l), path);
             && Only(m, m1, Writes(Root(sr), CtxParent(k1), 0, 0, 0, 0))
             && Painted(m, m1, sr, CtxParent(k1), sc) && Hooked(m, rt, m1, rt, k1, Root(sr))
    requires var r := Plug(path, Paint(sr, sc));
             && Only(m1, m', Writes(n, v, Root(l), Root(r), CtxParent(k), 0))
             && n in m' && m'[n] == Cell(CtxParent(k), c, Root(r), Root(l))
             && Rehung(m1, m', l, n) && Rehung(m1, m', r, n) && Hooked(m1, rt, m', rt', k, n)
    ensures At(m', rk[n := Rank(rk, v)], rt', Down(Step(k, R, n, c, l), path), Paint(sr, sc))
  {
    var k0, x := Step(k, R, v, c, l), Paint(sr, sc);
    var k1, r := Down(k0, path), Plug(path, x);
    OnlyOnce(m, rk, rt, k1, Nil, n, sc, sr);
    DownNodes(k0, path);
    PlugNodes(path, x);
    RootRank(m, rk, CtxParent(k1), Node(Nil, n, sc, sr), Hole(rk, k1));
    Spliced(m, rk, rt, k1, R, sr, n, sc, m1, rt);
    Refocus(m1, rk, rt, k1, x);
    PlugDown(k0, path, x);
    Refocus(m1, rk, rt, k, Node(l, v, c, r));
    Replaced(m1, rk, rt, k, l, v, c, r, n, m', rt');
    var rk' := rk[n := Rank(rk, v)];
    Refocus(m', rk', rt', k, Node(l, n, c, r));
    PlugDown(Step(k, R, n, c, l), path, x);
    Refocus(m', rk', rt', Down(Step(k, R, n, c, l), path), x);
  }

  /** What `TakePlace` in RbTree writes. */
  ghost predicate Taken(m: Memory, rt: Ptr, k: Ctx, v: Ptr, n: Ptr, p: Ptr, x: Ptr, m': Memory, rt': Ptr)
    requires v in m && n in m
  {
    var l := m[v].left;
    && Only(m, m', Writes(n, l, x, CtxParent(k), 0, 0))
    && n in m' && m'[n] == Cell(CtxParent(k), m[v].color, m[n].right, l)
    && l in m && l in m' && m'[l] == m[l].(parent := n)
    && (x != 0 ==> x in m && x in m' && m'[x] == m[x].(parent := p, color := Black))
    && Hooked(m, rt, m', rt', k, n)
  }

  /** Removal case 2 amounts to splicing out the successor `n` and replacing `v` by it. */
  lemma {:induction false} NearWrites(m: Memory, rk: Ranks, rt: Ptr, k: Ctx, l: Tree, v: Ptr, c: Color,
                                      n: Ptr, sc: Color, sr: Tree, m1: Memory, m': Memory, rt': Ptr)
    requires At(m, rk, rt, Step(k, R, v, c, l), Node(Nil, n, sc, sr)) && l.Node? && (sr.Node? ==> sc == Black)
    requires v in m && n in m && (sr.Node? ==> sr.id in m) && m1 == Splice(m, v, R, Root(sr), sc)
    requires Taken(m, rt, k, v, n, n, Root(sr), m', rt')
    ensures At(m', rk[n := Rank(rk, v)], rt', Step(k, R, n, c, l), Paint(sr, sc))
  {
    SuccessorAt(m, rk, rt, k, l, v, c, Top, n, sc, sr);
    forall x
      ensures Writes(n, v, l.id, Root(sr), CtxParent(k), 0).To(x) || Unchanged(m1, m', x)
    {
      assert Writes(n, l.id, Root(sr), CtxParent(k), 0, 0).To(x) || Unchanged(m, m', x);
    }
    SuccessorMoved(m, rk, rt, k, l, v, c, Top, n, sc, sr, m1, m', rt');
  }

  /** Removal case 3 amounts to the same. */
  lemma {:induction false} FarWrites(m: Memory, rk: Ranks, rt: Ptr, k: Ctx, l: Tree, v: Ptr, c: Color, path: Ctx,
                                     n: Ptr, sc: Color, sr: Tree, m1: Memory, m2: Memory, m': Memory, rt': Ptr)
    requires At(m, rk, rt, Down(Step(k, R, v, c, l), path), Node(Nil, n, sc, sr)) && l.Node? &&
             (sr.Node? ==> sc == Black)
    requires path.Step? && path.side == L
    requires path.id in m && n in m && v in m && (sr.Node? ==> sr.id in m) && m1 == Splice(m, path.id, L, Root(sr), sc)
    requires var r := Root(Plug(path, Node(Nil, n, sc, sr)));
             r in m && m2 == PutParent(PutChild(PutChild(m, path.id, L, Root(sr)), n, R, r), r, n)
    requires Taken(m2, rt, k, v, n, path.id, Root(sr), m', rt')
    ensures At(m', rk[n := Rank(rk, v)], rt', Down(Step(k, R, n, c, l), path), Paint(sr, sc))
  {
    var r := Root(Plug(path, Node(Nil, n, sc, sr)));
    SuccessorAt(m, rk, rt, k, l, v, c, path, n, sc, sr);
    PlugRoot(path, Node(Nil, n, sc, sr), Paint(sr, sc));
    forall x
      ensures Writes(n, v, l.id, r, CtxParent(k), 0).To(x) || Unchanged(m1, m', x)
    {
      assert Writes(n, l.id, Root(sr), CtxParent(k), 0, 0).To(x) || Unchanged(m2, m', x);
    }
    assert Unchanged(m2, m', r);
    SuccessorMoved(m, rk, rt, k, l, v, c, path, n, sc, sr, m1, m', rt');
  }

  lemma RootNodes(t: Tree)
    ensures t.Node? ==> t.id in Nodes(t)
  {
  }

  // ----- what a represented tree looks like from outside -----

  /** The nodes of a represented tree are allocated, and ranks increase along the
      in-order sequence, which therefore repeats no node. */
  lemma {:induction false} RankedInOrder(m: Memory, rk: Ranks, p: Ptr, t: Tree, sp: Span)
    requires Rep(m, rk, p, t, sp)
    ensures forall x :: x in InOrder(t) ==> x != 0 && x in m && sp.Has(Rank(rk, x))
    ensures forall i, j :: 0 <= i < j < |InOrder(t)| ==> Rank(rk, InOrder(t)[i]) < Rank(rk, InOrder(t)[j])
    ensures NoDup(InOrder(t))
    decreases t
  {
    if t.Node? {
      RankedInOrder(m, rk, t.id, t.left, sp.Part(L, Rank(rk, t.id)));
      RankedInOrder(m, rk, t.id, t.right, sp.Part(R, Rank(rk, t.id)));
    }
  }
}
