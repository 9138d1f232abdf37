/** Whole runs of insertions and erasures from the empty tree. */
module RbRuns {
  import opened Sequences
  import opened RbShape
  import opened RbMemory
  import opened RbTrees

  /** `Add` links a node into the empty slot that the given turns lead to. Where the turns
      come from is left open: the tree never compares keys itself. */
  datatype Change = Add(node: Ptr, turns: seq<Side>) | Remove(node: Ptr)

  /** The side to take at the node with context `k`. */
  function Turn(turns: seq<Side>, depth: nat): Side { if depth < |turns| then turns[depth] else L }

  /** The empty slot below `t` that the turns lead to, seen as a context. */
  ghost function SlotBy(k: Ctx, t: Tree, turns: seq<Side>, depth: nat): Ctx
    decreases t
  {
    if t == Nil then k
    else if Turn(turns, depth) == L then SlotBy(Step(k, L, t.id, t.color, t.right), t.left, turns, depth + 1)
    else SlotBy(Step(k, R, t.id, t.color, t.left), t.right, turns, depth + 1)
  }

  ghost function TurnsTo(k: Ctx): seq<Side>
  {
    match k
    case Top => []
    case Step(up, s, _, _, _) => TurnsTo(up) + [s]
  }

  /** Turns that lead to the context `k` lead into any subtree that hangs there. */
  lemma {:induction false} Follow(k: Ctx, t: Tree, turns: seq<Side>)
    requires |TurnsTo(k)| <= |turns| && turns[..|TurnsTo(k)|] == TurnsTo(k)
    ensures SlotBy(Top, Plug(k, t), turns, 0) == SlotBy(k, t, turns, |TurnsTo(k)|)
    decreases k
  {
    match k
    case Top =>
    case Step(up, s, id, c, o) =>
      var n := |TurnsTo(up)|;
      assert turns[..n] == turns[..n + 1][..n] == TurnsTo(up);
      assert turns[n] == turns[..n + 1][n] == s;
      Follow(up, Mk(s, t, id, c, o), turns);
  }

  /** Every empty slot of every tree is reached by some turns. */
  lemma {:induction false} EverySlot(k: Ctx)
    ensures SlotBy(Top, Plug(k, Nil), TurnsTo(k), 0) == k
  {
    assert TurnsTo(k)[..|TurnsTo(k)|] == TurnsTo(k);
    Follow(k, Nil, TurnsTo(k));
  }

  /** Clients insert only nodes that are not in the tree and erase only nodes that are. */
  ghost predicate Allowed(held: set<Ptr>, c: Change)
  {
    match c
    case Add(x, _) => x != 0 && x !in held
    case Remove(x) => x in held
  }

  ghost function Changed(held: set<Ptr>, c: Change): set<Ptr>
  {
    match c
    case Add(x, _) => held + {x}
    case Remove(x) => held - {x}
  }

  /** The nodes in the tree after the changes. */
  ghost function Held(cs: seq<Change>): set<Ptr>
  {
    if cs == [] then {} else Changed(Held(cs[..|cs| - 1]), cs[|cs| - 1])
  }

  ghost predicate Legal(cs: seq<Change>)
  {
    cs == [] || (Legal(cs[..|cs| - 1]) && Allowed(Held(cs[..|cs| - 1]), cs[|cs| - 1]))
  }

  lemma {:induction false} LegalPrefix(cs: seq<Change>, i: nat)
    requires Legal(cs) && i < |cs|
    ensures Legal(cs[..i]) && Allowed(Held(cs[..i]), cs[i]) && Held(cs[..i + 1]) == Changed(Held(cs[..i]), cs[i])
  {
    var n := |cs| - 1;
    assert cs[..i + 1][..i] == cs[..i];
    if i < n {
      assert cs[..n][..i] == cs[..i] && cs[..n][..i + 1] == cs[..i + 1];
      LegalPrefix(cs[..n], i);
    }
  }

  method Walk(t: RbTree, turns: seq<Side>) returns (parent: Ptr, side: Side, ghost k: Ctx)
    requires t.Linked()
    ensures Plug(k, Nil) == t.tree && parent == CtxParent(k) && (k.Step? ==> k.side == side)
    ensures k == SlotBy(Top, t.tree, turns, 0)
  {
    ghost var sub := t.tree;
    k := Top;
    var cur, depth := t.root, 0;
    parent, side := 0, L;
    while cur != 0
      invariant At(t.mem, t.rk, t.root, k, sub) && Plug(k, sub) == t.tree && Root(sub) == cur
      invariant parent == CtxParent(k) && (k.Step? ==> k.side == side)
      invariant SlotBy(k, sub, turns, depth) == SlotBy(Top, t.tree, turns, 0)
      decreases sub
    {
      parent := cur;
      ForkAt(t.mem, t.rk, t.root, k, L, sub.left, cur, sub.color, sub.right);
      side, depth := Turn(turns, depth), depth + 1;
      if side == L {
        cur := t.mem[cur].left;
        Descend(t.mem, t.rk, t.root, k, L, sub.left, sub.id, sub.color, sub.right);
        k, sub := Step(k, L, sub.id, sub.color, sub.right), sub.left;
      } else {
        cur := t.mem[cur].right;
        Descend(t.mem, t.rk, t.root, k, R, sub.right, sub.id, sub.color, sub.left);
        k, sub := Step(k, R, sub.id, sub.color, sub.left), sub.right;
      }
    }
    RootRank(t.mem, t.rk, parent, sub, Hole(t.rk, k));
  }

  /** One change. `rounds` counts the rounds of the fix-up loop. */
  method Apply(t: RbTree, c: Change) returns (ghost rounds: nat)
    requires t.Valid() && Allowed(Nodes(t.tree), c)
    modifies t
    ensures t.Valid() && Nodes(t.tree) == Changed(old(Nodes(t.tree)), c)
    ensures c.Remove? ==> InOrder(t.tree) == Without(old(InOrder(t.tree)), c.node)
    ensures c.Add? ==>
              var k := SlotBy(Top, old(t.tree), c.turns, 0);
              old(InOrder(t.tree)) == Before(k) + After(k) && InOrder(t.tree) == Before(k) + [c.node] + After(k)
    ensures if c.Add? then 2 * rounds <= Height(old(t.tree)) + 2 else rounds <= Height(old(t.tree))
  {
    InOrderNodes(t.tree);
    match c {
      case Add(x, turns) =>
        var parent, side; ghost var k;
        parent, side, k := Walk(t, turns);
        DepthByHeight(k, Nil);
        t.LinkNode(x, parent, side, k);
        rounds := t.InsertColor(x, k);
      case Remove(x) =>
        WithoutMembers(InOrder(t.tree), x);
        rounds := t.Erase(x);
    }
    InOrderNodes(t.tree);
  }

  lemma {:induction false} CountNoDup(q: seq<Ptr>, s: set<Ptr>)
    requires NoDup(q) && forall x :: x in q <==> x in s
    ensures |s| == |q|
  {
    if q == [] {
      assert s == {};
    } else {
      var n := |q| - 1;
      forall x
        ensures x in q[..n] <==> x in s - {q[n]}
      {
        if x in s && x != q[n] {
          var i :| 0 <= i < |q| && q[i] == x;
          assert q[..n][i] == x;
        }
      }
      CountNoDup(q[..n], s - {q[n]});
    }
  }

  /** `h` is at most twice the binary logarithm of `n + 1`. */
  ghost predicate Logarithmic(h: nat, n: nat) { Pow2(h) <= (n + 1) * (n + 1) }

  lemma {:induction false} HeightByNodes(m: Memory, rk: Ranks, t: Tree)
    requires Rep(m, rk, 0, t, Hole(rk, Top)) && RedBlack(t)
    ensures Logarithmic(Height(t), |Nodes(t)|)
  {
    assert |Nodes(t)| == Size(t) by {
      SizeIsCount(t);
      RankedInOrder(m, rk, 0, t, Hole(rk, Top));
      InOrderNodes(t);
      CountNoDup(InOrder(t), Nodes(t));
    }
    assert Logarithmic(Height(t), Size(t)) by { LogarithmicHeight(t); }
  }

  /** The rounds of a change to a tree of `n` nodes: at most twice the binary logarithm of
      `n + 1` for an erasure, half of that and one more for an insertion. */
  ghost predicate FewRounds(c: Change, rounds: nat, n: nat)
  {
    if c.Remove? then Logarithmic(rounds, n) else rounds <= 1 || Logarithmic(2 * rounds - 2, n)
  }

  lemma {:induction false} RoundsByHeight(c: Change, rounds: nat, h: nat, n: nat)
    requires Logarithmic(h, n) && if c.Add? then 2 * rounds <= h + 2 else rounds <= h
    ensures FewRounds(c, rounds, n)
  {
    if c.Remove? {
      Pow2Mono(rounds, h);
    } else if rounds > 1 {
      Pow2Mono(2 * rounds - 2, h);
    }
  }

  /** Any run of insertions and erasures from the empty tree: the tree is always valid and
      of logarithmic height, and every change takes logarithmically many rounds. */
  method Run(cs: seq<Change>) returns (t: RbTree, ghost rounds: seq<nat>)
    requires Legal(cs)
    ensures t.Valid() && Nodes(t.tree) == Held(cs) && Logarithmic(Height(t.tree), |Held(cs)|)
    ensures |rounds| == |cs| && forall i :: 0 <= i < |cs| ==> FewRounds(cs[i], rounds[i], |Held(cs[..i])|)
  {
    t := new RbTree();
    rounds := [];
    for i := 0 to |cs|
      invariant fresh(t) && t.Valid() && Nodes(t.tree) == Held(cs[..i])
      invariant |rounds| == i && forall j :: 0 <= j < i ==> FewRounds(cs[j], rounds[j], |Held(cs[..j])|)
    {
      ghost var h := Height(t.tree);
      HeightByNodes(t.mem, t.rk, t.tree);
      LegalPrefix(cs, i);
      ghost var r := Apply(t, cs[i]);
      RoundsByHeight(cs[i], r, h, |Held(cs[..i])|);
      rounds := rounds + [r];
    }
    assert cs[..|cs|] == cs;
    HeightByNodes(t.mem, t.rk, t.tree);
  }
}
