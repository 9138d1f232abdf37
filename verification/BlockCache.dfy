/** The block cache in front of a file: a red-black tree finds a block by offset and a
    circular list orders the same blocks by their last use. */
module BlockCache {
  import opened Sequences
  import opened RbShape
  import opened RbMemory
  import opened RbTrees
  import opened RbIteration
  import opened SortedIndex
  import opened LruSpec
  import opened Bytes
  import opened FileRanges
  import LruList

  datatype Block = Block(offset: nat, data: seq<Byte>, lastAccess: nat)

  type Blocks = map<Ptr, Block>

  function Offsets(bs: Blocks): Keys { map p | p in bs :: bs[p].offset }

  function BlockSizes(bs: Blocks): Keys { map p | p in bs :: BLOCK }

  /** How much of a file of the given size the block at `off` holds. */
  function ReadSize(size: nat, off: nat): nat
    requires off <= size
  {
    if off + BLOCK > size then size - off else BLOCK
  }

  /** The block lies on a block boundary inside the file and starts with its contents. */
  ghost predicate Holds(file: seq<Byte>, size: nat, b: Block)
  {
    && b.offset % BLOCK == 0 && b.offset < size && |b.data| == BLOCK
    && b.offset + ReadSize(size, b.offset) <= |file|
    && b.data[..ReadSize(size, b.offset)] == file[b.offset..b.offset + ReadSize(size, b.offset)]
  }

  ghost function Elems(q: seq<Ptr>): set<Ptr> { set x | x in q }

  /** The blocks at the addresses `q`, in that order. */
  ghost function View(bs: Blocks, q: seq<Ptr>): seq<Block>
    requires Elems(q) <= bs.Keys
  {
    if q == [] then [] else [bs[q[0]]] + View(bs, q[1..])
  }

  ghost function Order(v: seq<Block>): seq<nat> { if v == [] then [] else [v[0].offset] + Order(v[1..]) }

  /** Offsets differ, every block was used later than the one before it, and the last one
      no later than `now`. */
  ghost predicate Fine(file: seq<Byte>, size: nat, v: seq<Block>, now: nat)
  {
    v != [] ==>
      && Holds(file, size, v[0]) && v[0].lastAccess <= now
      && (forall i :: 1 <= i < |v| ==> v[i].offset != v[0].offset && v[0].lastAccess < v[i].lastAccess)
      && Fine(file, size, v[1..], now)
  }

  // ----- sequences of blocks -----

  lemma {:induction false} ViewAt(bs: Blocks, q: seq<Ptr>)
    requires Elems(q) <= bs.Keys
    ensures |View(bs, q)| == |q| && forall i :: 0 <= i < |q| ==> q[i] in bs && View(bs, q)[i] == bs[q[i]]
  {
    if q != [] {
      assert Elems(q[1..]) <= Elems(q);
      assert q[0] in Elems(q);
      ViewAt(bs, q[1..]);
    }
  }

  lemma {:induction false} OrderAt(v: seq<Block>)
    ensures |Order(v)| == |v| && forall i :: 0 <= i < |v| ==> Order(v)[i] == v[i].offset
  {
    if v != [] { OrderAt(v[1..]); }
  }

  lemma {:induction false} FineAt(file: seq<Byte>, size: nat, v: seq<Block>, now: nat)
    requires Fine(file, size, v, now)
    ensures forall i :: 0 <= i < |v| ==> Holds(file, size, v[i]) && v[i].lastAccess <= now
    ensures forall i, j :: 0 <= i < j < |v| ==> v[i].offset != v[j].offset && v[i].lastAccess < v[j].lastAccess
  {
    if v != [] { FineAt(file, size, v[1..], now); }
  }

  /** Only the blocks named in `q` matter for its view. */
  lemma {:induction false} ViewSame(bs: Blocks, bs': Blocks, q: seq<Ptr>)
    requires Elems(q) <= bs.Keys && Elems(q) <= bs'.Keys && forall p :: p in q ==> bs[p] == bs'[p]
    ensures View(bs, q) == View(bs', q)
  {
    if q != [] {
      assert Elems(q[1..]) <= Elems(q);
      ViewSame(bs, bs', q[1..]);
    }
  }

  lemma {:induction false} ViewConcat(bs: Blocks, a: seq<Ptr>, b: seq<Ptr>)
    requires Elems(a + b) <= bs.Keys
    ensures Elems(a) <= bs.Keys && Elems(b) <= bs.Keys && View(bs, a + b) == View(bs, a) + View(bs, b)
  {
    assert Elems(a) <= Elems(a + b) && Elems(b) <= Elems(a + b);
    if a == [] {
      assert a + b == b;
    } else {
      assert (a + b)[1..] == a[1..] + b;
      assert Elems(a[1..] + b) <= Elems(a + b);
      assert a[0] in Elems(a);
      ViewConcat(bs, a[1..], b);
      assert View(bs, a + b) == [bs[a[0]]] + View(bs, a[1..] + b) && View(bs, a) == [bs[a[0]]] + View(bs, a[1..]);
    }
  }

  lemma {:induction false} OrderConcat(v: seq<Block>, w: seq<Block>)
    ensures Order(v + w) == Order(v) + Order(w)
  {
    if v == [] {
      assert v + w == w;
    } else {
      assert (v + w)[1..] == v[1..] + w;
      OrderConcat(v[1..], w);
    }
  }

  /** A block used now goes to the end. */
  lemma {:induction false} FineAppend(file: seq<Byte>, size: nat, v: seq<Block>, now: nat, b: Block)
    requires Fine(file, size, v, now) && Holds(file, size, b) && b.lastAccess > now && b.offset !in Order(v)
    ensures Fine(file, size, v + [b], b.lastAccess)
  {
    if v != [] {
      assert (v + [b])[1..] == v[1..] + [b];
      FineAppend(file, size, v[1..], now, b);
    } else {
      assert v + [b] == [b];
    }
  }

  lemma {:induction false} FineLater(file: seq<Byte>, size: nat, v: seq<Block>, now: nat, now': nat)
    requires Fine(file, size, v, now) && now <= now'
    ensures Fine(file, size, v, now')
  {
    if v != [] { FineLater(file, size, v[1..], now, now'); }
  }

  /** Every block of `v` has another offset than `b` and was used later. */
  ghost predicate Precedes(b: Block, v: seq<Block>)
  {
    forall i :: 0 <= i < |v| ==> v[i].offset != b.offset && b.lastAccess < v[i].lastAccess
  }

  lemma {:induction false} FineCons(file: seq<Byte>, size: nat, b: Block, v: seq<Block>, now: nat)
    ensures Fine(file, size, [b] + v, now) <==>
              Holds(file, size, b) && b.lastAccess <= now && Precedes(b, v) && Fine(file, size, v, now)
  {
    var u := [b] + v;
    assert u[1..] == v && forall i :: 0 <= i < |v| ==> u[i + 1] == v[i];
    assert forall i :: 1 <= i < |u| ==> u[i] == v[i - 1];
  }

  lemma {:induction false} PrecedesParts(b: Block, v: seq<Block>, x: Block, w: seq<Block>)
    requires Precedes(b, v + [x] + w)
    ensures Precedes(b, v + w) && b.offset != x.offset
  {
    var u := v + [x] + w;
    assert u[|v|] == x;
    forall i | 0 <= i < |v + w|
      ensures (v + w)[i].offset != b.offset && b.lastAccess < (v + w)[i].lastAccess
    {
      assert (v + w)[i] == if i < |v| then u[i] else u[i + 1];
    }
  }

  lemma {:induction false} FineRemove(file: seq<Byte>, size: nat, v: seq<Block>, x: Block, w: seq<Block>, now: nat)
    requires Fine(file, size, v + [x] + w, now)
    ensures Fine(file, size, v + w, now) && x.offset !in Order(v) && x.offset !in Order(w) && Holds(file, size, x)
  {
    if v == [] {
      assert v + [x] + w == [x] + w && v + w == w;
      FineCons(file, size, x, w, now);
      OrderAt(w);
    } else {
      var b, t := v[0], v[1..];
      assert v + [x] + w == [b] + (t + [x] + w) && v + w == [b] + (t + w);
      FineCons(file, size, b, t + [x] + w, now);
      PrecedesParts(b, t, x, w);
      FineRemove(file, size, t, x, w, now);
      FineCons(file, size, b, t + w, now);
    }
  }

  /** The view of a list from which one address was removed. */
  lemma {:induction false} ViewWithout(file: seq<Byte>, size: nat, bs: Blocks, q: seq<Ptr>, p: Ptr, now: nat)
    requires Elems(q) <= bs.Keys && NoDup(q) && p in q && Fine(file, size, View(bs, q), now)
    ensures Elems(Without(q, p)) == Elems(q) - {p} && |Without(q, p)| == |q| - 1
    ensures Fine(file, size, View(bs, Without(q, p)), now)
    ensures Order(View(bs, Without(q, p))) == Without(Order(View(bs, q)), bs[p].offset)
    ensures bs[p].offset in Order(View(bs, q)) && bs[p].offset !in Order(View(bs, Without(q, p)))
  {
    var i :| 0 <= i < |q| && q[i] == p;
    var a, b, o := q[..i], q[i + 1..], bs[p].offset;
    assert q == a + [p] + b;
    WithoutMoved(a, p, b);
    assert Elems(a + b) == Elems(q) - {p} by { Members(a, p, b); }
    ViewConcat(bs, a + [p], b);
    ViewConcat(bs, a, [p]);
    ViewConcat(bs, a, b);
    var v, w := View(bs, a), View(bs, b);
    assert View(bs, [p]) == [bs[p]];
    FineRemove(file, size, v, bs[p], w, now);
    OrderConcat(v + [bs[p]], w);
    OrderConcat(v, [bs[p]]);
    OrderConcat(v, w);
    assert Order([bs[p]]) == [o];
    WithoutMiddle(Order(v), o, Order(w));
  }

  lemma {:induction false} Members(a: seq<Ptr>, p: Ptr, b: seq<Ptr>)
    requires NoDup(a + [p] + b)
    ensures Elems(a + b) == Elems(a + [p] + b) - {p}
  {
    var q := a + [p] + b;
    assert q[|a|] == p;
    forall x
      ensures x in a + b <==> x in q && x != p
    {
      if x in a + b {
        var i :| 0 <= i < |a + b| && (a + b)[i] == x;
        var j := if i < |a| then i else i + 1;
        assert q[j] == x;
      }
    }
  }

  // ----- the tree index -----

  lemma {:induction false} Aligned(a: nat, b: nat)
    requires a % BLOCK == 0 && b % BLOCK == 0 && a < b
    ensures a + BLOCK <= b
  {
  }

  lemma {:induction false} CoversStart(off: nat, a: nat)
    requires off % BLOCK == 0
    ensures off <= a < off + BLOCK <==> off == BlockStart(a)
  {
  }

  lemma {:induction false} InView(file: seq<Byte>, size: nat, bs: Blocks, q: seq<Ptr>, now: nat, p: Ptr)
    requires Elems(q) == bs.Keys && Fine(file, size, View(bs, q), now) && p in bs
    ensures Holds(file, size, bs[p]) && bs[p].offset in Order(View(bs, q)) && p in q
  {
    ViewAt(bs, q);
    OrderAt(View(bs, q));
    FineAt(file, size, View(bs, q), now);
    assert p in Elems(q);
    var i :| 0 <= i < |q| && q[i] == p;
    assert View(bs, q)[i] == bs[p];
    assert Order(View(bs, q))[i] == bs[p].offset;
  }

  /** Blocks are pairwise disjoint intervals of the file. */
  lemma {:induction false} BlocksLayered(file: seq<Byte>, size: nat, bs: Blocks, q: seq<Ptr>, now: nat, t: seq<Ptr>)
    requires Elems(q) == bs.Keys && Fine(file, size, View(bs, q), now) && forall p :: p in t ==> p in bs
    ensures Layered(Offsets(bs), BlockSizes(bs), t)
  {
    forall x, y | x in t && y in t && bs[x].offset < bs[y].offset
      ensures bs[x].offset + BLOCK <= bs[y].offset
    {
      InView(file, size, bs, q, now, x);
      InView(file, size, bs, q, now, y);
      Aligned(bs[x].offset, bs[y].offset);
    }
  }

  lemma {:induction false} FoundBlock(file: seq<Byte>, size: nat, bs: Blocks, q: seq<Ptr>, now: nat, t: Tree, a: nat)
    requires Elems(q) == bs.Keys && Fine(file, size, View(bs, q), now)
    requires Sorted(Offsets(bs), InOrder(t)) && Nodes(t) == bs.Keys && 0 !in bs
    ensures var p := Search(Offsets(bs), BlockSizes(bs), t, a);
            if p != 0 then p in bs && bs[p].offset == BlockStart(a) else BlockStart(a) !in Order(View(bs, q))
  {
    var keys, sizes := Offsets(bs), BlockSizes(bs);
    InOrderNodes(t);
    BlocksLayered(file, size, bs, q, now, InOrder(t));
    SearchIsScan(keys, sizes, t, a);
    SearchSound(keys, sizes, t, a);
    var p := Search(keys, sizes, t, a);
    if p != 0 {
      InView(file, size, bs, q, now, p);
      CoversStart(bs[p].offset, a);
    } else if BlockStart(a) in Order(View(bs, q)) {
      ViewAt(bs, q);
      OrderAt(View(bs, q));
      var i :| 0 <= i < |q| && Order(View(bs, q))[i] == BlockStart(a);
      assert q[i] in Elems(q);
      InView(file, size, bs, q, now, q[i]);
      CoversStart(bs[q[i]].offset, a);
      assert Covers(keys, sizes, q[i], a);
    }
  }

  lemma {:induction false} WithoutSorted(keys: Keys, q: seq<Ptr>, x: Ptr)
    requires Sorted(keys, q)
    ensures Sorted(keys, Without(q, x))
  {
    if q != [] {
      WithoutSorted(keys, q[1..], x);
      WithoutMembers(q[1..], x);
      var r := Without(q[1..], x);
      forall j | 0 <= j < |r|
        ensures Key(keys, q[0]) <= Key(keys, r[j])
      {
        assert r[j] in q[1..];
      }
    }
  }

  lemma {:induction false} WithoutNodes(t: Tree, p: Ptr, t': Tree)
    requires InOrder(t') == Without(InOrder(t), p)
    ensures Nodes(t') == Nodes(t) - {p} && forall x :: x in InOrder(t') <==> x in Nodes(t')
  {
    InOrderNodes(t);
    InOrderNodes(t');
    WithoutMembers(InOrder(t), p);
  }

  /** The index after one block was erased from the tree. */
  lemma {:induction false} IndexWithout(bs: Blocks, t: Tree, p: Ptr, t': Tree)
    requires Sorted(Offsets(bs), InOrder(t)) && Nodes(t) == bs.Keys && InOrder(t') == Without(InOrder(t), p)
    ensures Sorted(Offsets(bs - {p}), InOrder(t')) && Nodes(t') == (bs - {p}).Keys
  {
    WithoutSorted(Offsets(bs), InOrder(t), p);
    WithoutNodes(t, p, t');
    assert forall x :: x in InOrder(t') ==> Key(Offsets(bs), x) == Key(Offsets(bs - {p}), x);
    SortedByOther(Offsets(bs), Offsets(bs - {p}), InOrder(t'));
  }

  lemma {:induction false} IndexWithoutFirst(bs: Blocks, t: Tree, m: Memory, rk: Ranks, t': Tree)
    requires Sorted(Offsets(bs), InOrder(t)) && Nodes(t) == bs.Keys && Rep(m, rk, 0, t, Hole(rk, Top))
    requires InOrder(t) != [] && InOrder(t') == InOrder(t)[1..]
    ensures var p := InOrder(t)[0];
            p in bs && Sorted(Offsets(bs - {p}), InOrder(t')) && Nodes(t') == (bs - {p}).Keys
  {
    InOrderNodes(t);
    RankedInOrder(m, rk, 0, t, Hole(rk, Top));
    WithoutFirst(InOrder(t));
    IndexWithout(bs, t, InOrder(t)[0], t');
  }

  /** The blocks and the list that orders them by last use. */
  class Shelf {
    const lru: LruList.List
    const file: seq<Byte>
    const fileSize: nat
    var blocks: Blocks
    var accessCounter: nat

    /** The list holds exactly the blocks, ordered by last use. */
    ghost predicate Listed()
      reads this, lru
    {
      lru.Valid() && Elems(lru.q) == blocks.Keys && Fine(file, fileSize, View(blocks, lru.q), accessCounter)
    }

    /** The offsets of the resident blocks, least recently used first. */
    ghost function Recent(): seq<nat>
      requires Listed()
      reads this, lru
    {
      Order(View(blocks, lru.q))
    }

    constructor (file: seq<Byte>, fileSize: nat)
      ensures Listed() && blocks == map[] && Recent() == [] && fresh(lru)
      ensures this.file == file && this.fileSize == fileSize
    {
      lru := new LruList.List();
      this.file, this.fileSize := file, fileSize;
      blocks, accessCounter := map[], 0;
    }

    method MarkUsed(p: Ptr)
      requires Listed() && p in blocks && p > LruList.HEAD
      modifies this`blocks, this`accessCounter, lru
      ensures Listed() && p in blocks && blocks == old(blocks)[p := old(blocks)[p].(lastAccess := accessCounter)]
      ensures accessCounter == old(accessCounter) + 1 && |lru.q| == |old(lru.q)| && Holds(file, fileSize, blocks[p])
      ensures Recent() == Without(old(Recent()), blocks[p].offset) + [blocks[p].offset]
    {
      ghost var bs, q, now := blocks, lru.q, accessCounter;
      InView(file, fileSize, bs, q, now, p);
      WithoutMembers(q, p);
      accessCounter := accessCounter + 1;
      blocks := blocks[p := blocks[p].(lastAccess := accessCounter)];
      lru.MoveToTail(p);
      TouchedList(file, fileSize, bs, q, now, p, blocks, lru.q, accessCounter);
    }

    /** Puts a new block at the end of the list. `now` is the time before it was created. */
    method Append(p: Ptr, b: Block, ghost now: nat)
      requires Listed() && p > LruList.HEAD && p !in blocks
      requires Holds(file, fileSize, b) && b.offset !in Recent() && b.lastAccess == accessCounter
      requires now < accessCounter && Fine(file, fileSize, View(blocks, lru.q), now)
      modifies this`blocks, lru
      ensures Listed() && blocks == old(blocks)[p := b] && lru.q == old(lru.q) + [p]
      ensures Recent() == old(Recent()) + [b.offset]
    {
      ListedWith(file, fileSize, blocks, lru.q, now, p, b, blocks[p := b]);
      assert p !in Elems(lru.q);
      blocks := blocks[p := b];
      lru.AddTail(p);
    }

    /** Takes a block out of the list and frees it. */
    method Delete(p: Ptr)
      requires Listed() && p in blocks
      modifies this`blocks, lru
      ensures Listed() && blocks == old(blocks) - {p} && lru.q == Without(old(lru.q), p) && |lru.q| == |old(lru.q)| - 1
      ensures Recent() == Without(old(Recent()), old(blocks)[p].offset)
    {
      InView(file, fileSize, blocks, lru.q, accessCounter, p);
      RemovedList(file, fileSize, blocks, lru.q, accessCounter, p, blocks - {p});
      lru.Del(p);
      blocks := blocks - {p};
    }

    /** Advances the clock. */
    method Tick()
      requires Listed()
      modifies this`accessCounter
      ensures Listed() && accessCounter == old(accessCounter) + 1 && Recent() == old(Recent())
      ensures Fine(file, fileSize, View(blocks, lru.q), old(accessCounter))
    {
      FineLater(file, fileSize, View(blocks, lru.q), accessCounter, accessCounter + 1);
      accessCounter := accessCounter + 1;
    }
  }

  class Cache {
    const tree: RbTree
    const shelf: Shelf
    const maxBlocks: nat
    const reliable: bool  // no allocation and no read of existing bytes fails
    var currentBlocks: int
    var brk: Ptr
    ghost var touched: seq<nat>  // blocks touched since the cache was last empty
    ghost var intact: bool       // no load has failed since then

    /** Every load succeeds: there is memory, and the file is as long as it was said to be
        and can be read. */
    ghost predicate Sound() { reliable && shelf.fileSize <= |shelf.file| }

    /** The tree and the list hold the same blocks. */
    ghost predicate Indexed()
      reads this`brk, tree, shelf, shelf.lru
    {
      && shelf.Listed()
      && tree.Valid() && Sorted(Offsets(shelf.blocks), InOrder(tree.tree)) && Nodes(tree.tree) == shelf.blocks.Keys
      && brk > LruList.HEAD && forall p :: p in shelf.blocks ==> LruList.HEAD < p < brk
    }

    ghost predicate Coherent()
      reads this`brk, this`currentBlocks, tree, shelf, shelf.lru
    {
      Indexed() && currentBlocks == |shelf.lru.q| <= maxBlocks && 0 < maxBlocks
    }

    constructor (file: seq<Byte>, fileSize: nat, maxBlocks: nat, reliable: bool)
      requires 0 < maxBlocks
      ensures Coherent() && Lawful() && intact && touched == [] && fresh(tree) && fresh(shelf) && fresh(shelf.lru)
      ensures shelf.file == file && shelf.fileSize == fileSize && this.maxBlocks == maxBlocks &&
              this.reliable == reliable
    {
      tree := new RbTree();
      shelf := new Shelf(file, fileSize);
      this.maxBlocks, this.reliable := maxBlocks, reliable;
      currentBlocks, brk, touched, intact := 0, 2, [], true;
    }

    /** The resident block that holds the byte at `a`, or null. */
    method FindBlock(a: nat) returns (p: Ptr)
      requires Coherent()
      ensures p != 0 ==> p in shelf.blocks && shelf.blocks[p].offset == BlockStart(a)
      ensures p == 0 ==> BlockStart(a) !in shelf.Recent()
    {
      p := FindInterval(tree, Offsets(shelf.blocks), BlockSizes(shelf.blocks), a);
      FoundBlock(shelf.file, shelf.fileSize, shelf.blocks, shelf.lru.q, shelf.accessCounter, tree.tree, a);
    }

    /** Takes block `p` out of the tree and the list and frees it. */
    method Remove(p: Ptr)
      requires Indexed() && p in shelf.blocks
      modifies shelf`blocks, shelf.lru, tree
      ensures Indexed() && |shelf.lru.q| == |old(shelf.lru.q)| - 1
      ensures shelf.Recent() == Without(old(shelf.Recent()), old(shelf.blocks)[p].offset)
    {
      ghost var t := tree.tree;
      ghost var rounds := tree.Erase(p);
      IndexWithout(shelf.blocks, t, p, tree.tree);
      shelf.Delete(p);
    }

    /** Evicts the least recently used block, if there is one. */
    method Evict()
      requires Coherent()
      modifies this`currentBlocks, shelf`blocks, shelf.lru, tree
      ensures Coherent() && shelf.Recent() == if old(shelf.Recent()) == [] then [] else old(shelf.Recent())[1..]
    {
      var empty := shelf.lru.Empty();
      OldestFirst(shelf.file, shelf.fileSize, shelf.blocks, shelf.lru.q, shelf.accessCounter);
      if empty { return; }
      var p := shelf.lru.First();
      Remove(p);
      currentBlocks := currentBlocks - 1;
    }

    /** Reads a new block from the file. This fails when memory is exhausted, when the
        read fails, or when it comes back short. The clock advances once there is memory. */
    method CreateBlock(off: nat) returns (p: Ptr, b: Block, ghost memory: bool)
      requires Coherent() && off % BLOCK == 0 && off < shelf.fileSize
      modifies shelf`accessCounter
      ensures Coherent() && shelf.Recent() == old(shelf.Recent())
      ensures shelf.accessCounter == old(shelf.accessCounter) + if memory then 1 else 0
      ensures Fine(shelf.file, shelf.fileSize, View(shelf.blocks, shelf.lru.q), old(shelf.accessCounter))
      ensures p != 0 ==> memory && p > LruList.HEAD && p !in shelf.blocks && Holds(shelf.file, shelf.fileSize, b)
      ensures p != 0 ==> b.offset == off && b.lastAccess == shelf.accessCounter
      ensures reliable ==> memory
      ensures reliable && off + ReadSize(shelf.fileSize, off) <= |shelf.file| ==> p != 0
    {
      b := Block(off, [], 0);
      var failed: bool := *;
      if failed && !reliable { return 0, b, false; }
      memory := true;
      p := *;
      if p <= LruList.HEAD || p in shelf.blocks { p := brk; }
      shelf.Tick();
      b := b.(lastAccess := shelf.accessCounter);
      var n := ReadSize(shelf.fileSize, off);
      failed := *;
      if (failed && !reliable) || off + n > |shelf.file| {
        p := 0;
      } else {
        b := b.(data := shelf.file[off..off + n] + seq(BLOCK - n, _ => 0));
      }
    }

    /** Puts a new block into the tree and at the end of the list. */
    method Admit(p: Ptr, b: Block, ghost now: nat)
      requires Coherent() && |shelf.lru.q| < maxBlocks && p > LruList.HEAD && p !in shelf.blocks
      requires Holds(shelf.file, shelf.fileSize, b) && b.offset !in shelf.Recent() &&
               b.lastAccess == shelf.accessCounter
      requires now < shelf.accessCounter && Fine(shelf.file, shelf.fileSize, View(shelf.blocks, shelf.lru.q), now)
      modifies this`currentBlocks, this`brk, shelf`blocks, shelf.lru, tree
      ensures Coherent() && shelf.blocks == old(shelf.blocks)[p := b] &&
              shelf.Recent() == old(shelf.Recent()) + [b.offset]
    {
      ghost var bs, t := shelf.blocks, tree.tree;
      IndexWith(bs, t, p, b);
      Insert(tree, Offsets(shelf.blocks[p := b]), p);
      IndexedWith(bs, t, p, b, tree.tree);
      shelf.Append(p, b, now);
      brk := if p < brk then brk else p + 1;
      currentBlocks := currentBlocks + 1;
    }

    /** Evicts the oldest block if the cache is full. */
    method MakeRoom()
      requires Coherent()
      modifies this`currentBlocks, shelf`blocks, shelf.lru, tree
      ensures Coherent() && |shelf.lru.q| < maxBlocks && shelf.Recent() == Room(old(shelf.Recent()), maxBlocks)
    {
      RecentLength(shelf.blocks, shelf.lru.q);
      if currentBlocks >= maxBlocks {
        Evict();
        RecentLength(shelf.blocks, shelf.lru.q);
      }
    }

    /** Loads a block that is not resident. */
    method Fetch(off: nat) returns (p: Ptr)
      requires Coherent() && off % BLOCK == 0 && off < shelf.fileSize && off !in shelf.Recent()
      modifies this`currentBlocks, this`brk, shelf`blocks, shelf`accessCounter, shelf.lru, tree
      ensures Coherent()
      ensures p == 0 ==> shelf.Recent() == Room(old(shelf.Recent()), maxBlocks)
      ensures p != 0 ==> shelf.Recent() == Room(old(shelf.Recent()), maxBlocks) + [off]
      ensures p != 0 ==> p in shelf.blocks && shelf.blocks[p].offset == off
      ensures Sound() ==> p != 0
    {
      MakeRoom();
      ghost var now := shelf.accessCounter;
      var b; ghost var memory;
      p, b, memory := CreateBlock(off);
      if p != 0 {
        Admit(p, b, now);
      }
    }

    /** Marks a resident block as the one used last. */
    method Use(p: Ptr)
      requires Coherent() && p in shelf.blocks
      modifies shelf`blocks, shelf`accessCounter, shelf.lru
      ensures Coherent() && p in shelf.blocks && shelf.blocks[p].offset == old(shelf.blocks)[p].offset
      ensures Holds(shelf.file, shelf.fileSize, shelf.blocks[p])
      ensures shelf.Recent() == Without(old(shelf.Recent()), shelf.blocks[p].offset) + [shelf.blocks[p].offset]
    {
      ghost var bs, t := shelf.blocks, tree.tree;
      shelf.MarkUsed(p);
      TouchedIndex(bs, t, p, shelf.accessCounter, shelf.blocks);
    }

    /** Makes the block that holds the byte at `a` resident and most recently used. */
    method Access(a: nat) returns (p: Ptr)
      requires Coherent() && a < shelf.fileSize
      modifies this`currentBlocks, this`brk, shelf`blocks, shelf`accessCounter, shelf.lru, tree
      ensures Coherent()
      ensures p == 0 ==> BlockStart(a) !in old(shelf.Recent()) && shelf.Recent() == Room(old(shelf.Recent()), maxBlocks)
      ensures p == 0 ==> BlockStart(a) !in shelf.Recent()
      ensures p != 0 ==> shelf.Recent() == Touch(old(shelf.Recent()), BlockStart(a), maxBlocks)
      ensures p != 0 ==> p in shelf.blocks && shelf.blocks[p].offset == BlockStart(a)
      ensures p != 0 ==> Holds(shelf.file, shelf.fileSize, shelf.blocks[p])
      ensures Sound() ==> p != 0
    {
      var off := BlockStart(a);
      CoversStart(off, a);
      p := FindBlock(a);
      if p != 0 {
        InView(shelf.file, shelf.fileSize, shelf.blocks, shelf.lru.q, shelf.accessCounter, p);
      } else {
        p := Fetch(off);
        if p == 0 { return; }
        DropLast(Room(old(shelf.Recent()), maxBlocks), off);
      }
      Use(p);
    }

    /** The resident blocks are the distinct blocks touched most recently since the cache
        was last empty, in the order of their last use. If no load has failed since then,
        as many are resident as fit. */
    ghost predicate Lawful()
      requires shelf.Listed()
      reads this`intact, this`touched, shelf, shelf.lru
    {
      Law(maxBlocks, touched, intact, shelf.Recent())
    }

    /** Accesses the block of `a` and records that in the history. */
    method TouchBlock(a: nat) returns (p: Ptr)
      requires Coherent() && Lawful() && a < shelf.fileSize
      modifies this, shelf`blocks, shelf`accessCounter, shelf.lru, tree
      ensures Coherent() && Lawful()
      ensures touched == if p != 0 then old(touched) + [BlockStart(a)] else old(touched)
      ensures intact == (old(intact) && p != 0)
      ensures p == 0 ==> BlockStart(a) !in shelf.Recent()
      ensures p != 0 ==> p in shelf.blocks && shelf.blocks[p].offset == BlockStart(a)
      ensures p != 0 ==> Holds(shelf.file, shelf.fileSize, shelf.blocks[p])
      ensures Sound() ==> p != 0
    {
      ghost var before := shelf.Recent();
      p := Access(a);
      if p == 0 {
        NewestRoom(before, touched, maxBlocks);
        intact := false;
      } else {
        NewestTouch(before, touched, BlockStart(a), maxBlocks);
        if intact { FullTouch(before, touched, BlockStart(a), maxBlocks); }
        touched := touched + [BlockStart(a)];
      }
    }

    /** Copies the bytes from `cur` on that lie in one block. */
    method CopyFromBlock(cur: nat, remaining: nat) returns (ok: bool, part: seq<Byte>)
      requires Coherent() && Lawful() && 0 < remaining && cur + remaining <= shelf.fileSize
      modifies this, shelf`blocks, shelf`accessCounter, shelf.lru, tree
      ensures Coherent() && Lawful()
      ensures ok ==> Copied(shelf.file, cur, remaining, part)
      ensures touched == if ok then old(touched) + [BlockStart(cur)] else old(touched)
      ensures intact == (old(intact) && ok)
      ensures !ok ==> BlockStart(cur) !in shelf.Recent()
      ensures Sound() ==> ok
    {
      var p := TouchBlock(cur);
      if p == 0 { return false, []; }
      ok, part := true, CopyOut(shelf.file, shelf.fileSize, shelf.blocks[p], cur, remaining);
    }

    /** One round of the read loop. */
    method ReadMore(ghost offset: nat, ghost end: nat, cur: nat, remaining: nat, buf: seq<Byte>, ghost before: seq<nat>)
        returns (ok: bool, cur': nat, remaining': nat, buf': seq<Byte>)
      requires Coherent() && Lawful() && 0 < remaining && cur + remaining == end <= shelf.fileSize
      requires Reading(shelf.file, offset, cur, end, buf) && touched == before + BlocksOf(offset, cur)
      modifies this, shelf`blocks, shelf`accessCounter, shelf.lru, tree
      ensures Coherent() && Lawful()
      ensures cur' + remaining' == end && Reading(shelf.file, offset, cur', end, buf') &&
              touched == before + BlocksOf(offset, cur')
      ensures if ok then remaining' < remaining else remaining' == remaining
      ensures !ok ==> BlockStart(cur') !in shelf.Recent()
      ensures intact == (old(intact) && ok)
      ensures Sound() ==> ok
    {
      var part;
      ok, part := CopyFromBlock(cur, remaining);
      cur', remaining', buf' := cur, remaining, buf;
      if ok {
        buf', cur', remaining' := buf + part, cur + |part|, remaining - |part|;
        NextBlock(shelf.file, offset, cur, end, buf, part, cur', buf', before);
      }
    }

    /** The read loop: reads `n` bytes that the file has, up to `cur` if a load fails. */
    method Fill(offset: nat, n: nat) returns (ok: bool, buf: seq<Byte>, ghost cur: nat)
      requires Coherent() && Lawful() && offset + n <= shelf.fileSize
      modifies this, shelf`blocks, shelf`accessCounter, shelf.lru, tree
      ensures Coherent() && Lawful() && Reading(shelf.file, offset, cur, offset + n, buf)
      ensures touched == old(touched) + BlocksOf(offset, cur)
      ensures (ok <==> cur == offset + n) && intact == (old(intact) && ok)
      ensures !ok ==> BlockStart(cur) !in shelf.Recent()
      ensures Sound() ==> ok
    {
      var remaining, at: nat := n, offset;
      ghost var before, end := touched, offset + n;
      buf, cur := [], offset;
      while remaining > 0
        invariant Coherent() && Lawful() && at == cur && cur + remaining == end &&
                  Reading(shelf.file, offset, cur, end, buf)
        invariant touched == before + BlocksOf(offset, cur) && intact == old(intact)
        decreases remaining
      {
        ok, at, remaining, buf := ReadMore(offset, end, at, remaining, buf, before);
        cur := at;
        if !ok { return; }
      }
      ok := true;
    }

    /** A read that starts inside the file. */
    method ReadInside(offset: nat, size: nat) returns (status: int, buf: seq<Byte>)
      requires Coherent() && Lawful() && offset < shelf.fileSize
      modifies this, shelf`blocks, shelf`accessCounter, shelf.lru, tree
      ensures Coherent() && Lawful()
      ensures ReadOutcome(shelf.file, shelf.fileSize, offset, size, status, buf, old(touched), touched)
      ensures intact == (old(intact) && !LoadFailed(shelf.fileSize, status, offset + |buf|))
      ensures StopsAtAbsent(shelf.fileSize, status, offset + |buf|, shelf.Recent())
      ensures Sound() ==> status == 0
    {
      var n := if offset + size > shelf.fileSize then shelf.fileSize - offset else size;
      var ok; ghost var cur; ghost var before := touched;
      ok, buf, cur := Fill(offset, n);
      status := if ok then 0 else -1;
      ghost var recent := shelf.Recent();
      ReadStops(shelf.file, shelf.fileSize, offset, size, cur, offset + n, buf, before, touched, status, recent);
    }

    /** Reads `size` bytes from `offset` on through the cache, or up to the end of the
        file. Addresses are 64 bits wide, and `offset + size` must not wrap around. What is
        in the buffer comes from the file also when the read fails half-way, which happens
        only at a block that is not resident. */
    method Read(offset: nat, size: nat) returns (status: int, buf: seq<Byte>)
      requires Coherent() && Lawful() && offset + size < 0x1_0000_0000_0000_0000
      modifies this, shelf`blocks, shelf`accessCounter, shelf.lru, tree
      ensures Coherent() && Lawful()
      ensures ReadOutcome(shelf.file, shelf.fileSize, offset, size, status, buf, old(touched), touched)
      ensures intact == (old(intact) && !LoadFailed(shelf.fileSize, status, offset + |buf|))
      ensures StopsAtAbsent(shelf.fileSize, status, offset + |buf|, shelf.Recent())
      ensures Sound() && offset < shelf.fileSize ==> status == 0
    {
      if offset >= shelf.fileSize {
        status, buf := -1, [];
        ReadBehind(shelf.file, shelf.fileSize, offset, size, buf, touched, shelf.Recent());
      } else {
        status, buf := ReadInside(offset, size);
      }
    }

    /** One round of the prefetch loop. */
    method PrefetchPiece(ghost offset: nat, ghost size: nat, cur: nat, ghost end: nat, ghost before: seq<nat>)
        returns (ok: bool, cur': nat, ghost end': nat)
      requires Coherent() && Lawful() && cur < offset + size && offset + size + BLOCK < 0x1_0000_0000_0000_0000
      requires Prefetching(offset, cur, offset + size, shelf.fileSize, end) &&
               touched == before + Prefetched(offset, end)
      modifies this, shelf`blocks, shelf`accessCounter, shelf.lru, tree
      ensures Coherent() && Lawful() && touched == before + Prefetched(offset, end') && cur < cur'
      ensures ok ==> Prefetching(offset, cur', offset + size, shelf.fileSize, end') && intact == old(intact)
      ensures !ok ==> PrefetchResult(shelf.fileSize, offset, size, -1, end')
      ensures !ok ==> intact == (old(intact) && !LoadFailed(shelf.fileSize, -1, end'))
      ensures !ok ==> StopsAtAbsent(shelf.fileSize, -1, end', shelf.Recent())
      ensures Sound() && !ok ==> !LoadFailed(shelf.fileSize, -1, end')
    {
      var r, buf := Read(cur, BLOCK);
      ok, cur' := r == 0, cur + BLOCK;
      end' := if |buf| > 0 then cur + |buf| else end;
      NextPiece(offset, cur, size, shelf.fileSize, end, r, |buf|, end', before);
      PieceStops(offset, cur, size, shelf.fileSize, end, r, |buf|, end');
    }

    /** Reads block-sized pieces through the cache and drops them. `end` is how far it got:
        if every block can be loaded, to the end of the last piece or of the file. */
    method Prefetch(offset: nat, size: nat) returns (status: int, ghost end: nat)
      requires Coherent() && Lawful() && offset + size + BLOCK < 0x1_0000_0000_0000_0000
      modifies this, shelf`blocks, shelf`accessCounter, shelf.lru, tree
      ensures Coherent() && Lawful() && touched == old(touched) + Prefetched(offset, end)
      ensures PrefetchResult(shelf.fileSize, offset, size, status, end)
      ensures intact == (old(intact) && !LoadFailed(shelf.fileSize, status, end))
      ensures StopsAtAbsent(shelf.fileSize, status, end, shelf.Recent())
      ensures Sound() ==> !LoadFailed(shelf.fileSize, status, end)
    {
      var cur: nat := offset;
      ghost var before := touched;
      end := offset;
      while cur < offset + size
        invariant Coherent() && Lawful() && Prefetching(offset, cur, offset + size, shelf.fileSize, end)
        invariant touched == before + Prefetched(offset, end) && intact == old(intact)
        decreases offset + size - cur
      {
        var ok;
        ok, cur, end := PrefetchPiece(offset, size, cur, end, before);
        if !ok { return -1, end; }
      }
      LastPiece(offset, cur, size, shelf.fileSize, end);
      status := 0;
    }

    /** One round of the flush loop. */
    method FlushFirst(node: Ptr) returns (next: Ptr)
      requires Indexed() && InOrder(tree.tree) != [] && node == InOrder(tree.tree)[0]
      modifies shelf`blocks, shelf.lru, tree
      ensures Indexed() && InOrder(tree.tree) == old(InOrder(tree.tree))[1..] && next == Nth(InOrder(tree.tree), 0)
    {
      ghost var t, m, rk := tree.tree, tree.mem, tree.rk;
      next := EraseFirst(tree, node);
      IndexWithoutFirst(shelf.blocks, t, m, rk, tree.tree);
      shelf.Delete(node);
    }

    /** Empties the cache. */
    method Flush()
      requires Coherent()
      modifies this, shelf`blocks, shelf.lru, tree
      ensures Coherent() && Lawful() && intact && touched == [] && shelf.Recent() == []
    {
      var node := First(tree);
      while node != 0
        invariant Indexed() && 0 < maxBlocks && node == Nth(InOrder(tree.tree), 0)
        decreases |InOrder(tree.tree)|
      {
        node := FlushFirst(node);
      }
      NonNull(tree.mem, tree.rk, tree.tree);
      NoneListed(shelf.blocks, shelf.lru.q);
      currentBlocks, touched, intact := 0, [], true;
    }
  }

  // ----- histories -----

  datatype Command = ReadCmd(offset: nat, size: nat) | PrefetchCmd(offset: nat, size: nat) | FlushCmd

  datatype Reply = Reply(status: int, buf: seq<Byte>)

  /** The end of the range of a command fits 64 bits, with a block to spare. */
  ghost predicate Fits(c: Command) { c.FlushCmd? || c.offset + c.size + BLOCK < 0x1_0000_0000_0000_0000 }

  /** A command that was served: the reply, how far the command got, and the blocks
      resident afterwards, least recently used first. */
  datatype Served = Served(cmd: Command, reply: Reply, end: nat, resident: seq<nat>)

  /** What a read hands over, in full or in part, is what the plain file holds. */
  ghost predicate Correct(file: seq<Byte>, size: nat, e: Served)
  {
    match e.cmd
    case ReadCmd(offset, count) =>
      && e.end == offset + |e.reply.buf| && IsFilePart(file, offset, e.end, e.reply.buf)
      && ReadResult(size, offset, count, e.reply.status, |e.reply.buf|)
    case PrefetchCmd(offset, count) => PrefetchResult(size, offset, count, e.reply.status, e.end)
    case FlushCmd => e.reply.status == 0
  }

  /** The command asks for what the file has, so that only a failing load can stop it. */
  ghost predicate Granted(size: nat, c: Command)
  {
    match c
    case ReadCmd(offset, _) => offset < size
    case PrefetchCmd(offset, count) => StartsInside(offset, offset + count, size)
    case FlushCmd => true
  }

  ghost predicate Failed(size: nat, e: Served) { !e.cmd.FlushCmd? && LoadFailed(size, e.reply.status, e.end) }

  /** A command that no failing load has stopped succeeds exactly when it is granted. */
  lemma {:induction false} StatusIsExact(file: seq<Byte>, size: nat, e: Served)
    requires Correct(file, size, e) && !Failed(size, e)
    ensures e.reply.status == 0 <==> Granted(size, e.cmd)
  {
  }

  /** The reply is the file's own. A load fails only at a block that is not resident, and if
      loads are `sound` none fails. */
  ghost predicate Answers(file: seq<Byte>, size: nat, sound: bool, e: Served)
  {
    && Correct(file, size, e) && (Failed(size, e) ==> !sound && BlockStart(e.end) !in e.resident)
    && (!Failed(size, e) ==> (e.reply.status == 0 <==> Granted(size, e.cmd)))
  }

  /** The blocks that a command touched. */
  ghost function Touches(e: Served): seq<nat>
  {
    match e.cmd
    case ReadCmd(offset, _) => BlocksOf(offset, e.end)
    case PrefetchCmd(offset, _) => Prefetched(offset, e.end)
    case FlushCmd => []
  }

  /** One more command in the history of blocks touched since the last flush. */
  ghost function Longer(h: seq<nat>, e: Served): seq<nat> { if e.cmd.FlushCmd? then [] else h + Touches(e) }

  /** The blocks touched since the last flush, if those of `h` were touched before. */
  ghost function History(h: seq<nat>, log: seq<Served>): seq<nat>
  {
    if log == [] then h else Longer(History(h, log[..|log| - 1]), log[|log| - 1])
  }

  /** No load has failed since the last flush. */
  ghost predicate NoneFailed(before: bool, size: nat, log: seq<Served>)
  {
    if log == [] then before else
    var e := log[|log| - 1];
    e.cmd.FlushCmd? || (NoneFailed(before, size, log[..|log| - 1]) && !Failed(size, e))
  }

  /** The replacement law: the newest blocks of the history are resident, as many as fit
      if no load has failed. */
  ghost predicate Law(max: nat, touched: seq<nat>, intact: bool, resident: seq<nat>)
  {
    Newest(resident, touched) && (intact ==> resident == LastK(Recency(touched), max))
  }

  /** What the whole history says: every reply is right, the law holds after every command,
      and `touched` and `intact` are where it ends. */
  ghost predicate Logged(file: seq<Byte>, size: nat, sound: bool, max: nat, h: seq<nat>, before: bool,
                         log: seq<Served>, touched: seq<nat>, intact: bool)
  {
    && touched == History(h, log) && intact == NoneFailed(before, size, log) && (sound && before ==> intact)
    && forall i :: 0 <= i < |log| ==>
         && Answers(file, size, sound, log[i])
         && Law(max, History(h, log[..i + 1]), NoneFailed(before, size, log[..i + 1]), log[i].resident)
  }

  lemma {:induction false} LoggedMore(file: seq<Byte>, size: nat, sound: bool, max: nat, h: seq<nat>, before: bool,
                                      log: seq<Served>, touched: seq<nat>, intact: bool,
                                      e: Served, touched': seq<nat>, intact': bool)
    requires Logged(file, size, sound, max, h, before, log, touched, intact) && Answers(file, size, sound, e)
    requires touched' == Longer(touched, e) && intact' == (e.cmd.FlushCmd? || (intact && !Failed(size, e)))
    requires Law(max, touched', intact', e.resident)
    ensures Logged(file, size, sound, max, h, before, log + [e], touched', intact')
  {
    var log', n := log + [e], |log|;
    HistoryMore(h, before, size, log, e);
    forall i | 0 <= i < |log'|
      ensures Answers(file, size, sound, log'[i])
      ensures Law(max, History(h, log'[..i + 1]), NoneFailed(before, size, log'[..i + 1]), log'[i].resident)
    {
      if i < n {
        assert log'[..i + 1] == log[..i + 1] && log'[i] == log[i];
      } else {
        assert log'[..i + 1] == log' && log'[i] == e;
      }
    }
  }

  lemma {:induction false} HistoryMore(h: seq<nat>, before: bool, size: nat, log: seq<Served>, e: Served)
    ensures History(h, log + [e]) == Longer(History(h, log), e)
    ensures NoneFailed(before, size, log + [e]) <==>
            e.cmd.FlushCmd? || (NoneFailed(before, size, log) && !Failed(size, e))
  {
    assert (log + [e])[..|log|] == log;
  }

  lemma {:induction false} CommandAnswers(file: seq<Byte>, size: nat, sound: bool, e: Served, before: seq<nat>,
                                          touched: seq<nat>)
    requires e.cmd.ReadCmd? ==>
               && ReadOutcome(file, size, e.cmd.offset, e.cmd.size, e.reply.status, e.reply.buf, before, touched)
               && e.end == e.cmd.offset + |e.reply.buf|
    requires e.cmd.PrefetchCmd? ==>
               && PrefetchResult(size, e.cmd.offset, e.cmd.size, e.reply.status, e.end)
               && touched == before + Prefetched(e.cmd.offset, e.end)
    requires !e.cmd.FlushCmd? ==> StopsAtAbsent(size, e.reply.status, e.end, e.resident)
    requires e.cmd.FlushCmd? ==> e.reply.status == 0 && touched == []
    requires sound ==> !Failed(size, e)
    ensures Answers(file, size, sound, e) && touched == Longer(before, e)
  {
    if !Failed(size, e) { StatusIsExact(file, size, e); }
  }

  /** Serves one command. */
  method Execute(c: Cache, cmd: Command) returns (r: Reply, ghost e: Served)
    requires c.Coherent() && c.Lawful() && Fits(cmd)
    modifies c, c.shelf`blocks, c.shelf`accessCounter, c.shelf.lru, c.tree
    ensures c.Coherent() && c.Lawful() && e.cmd == cmd && e.reply == r && e.resident == c.shelf.Recent()
    ensures Answers(c.shelf.file, c.shelf.fileSize, c.Sound(), e) && c.touched == Longer(old(c.touched), e)
    ensures c.intact == (cmd.FlushCmd? || (old(c.intact) && !Failed(c.shelf.fileSize, e)))
  {
    ghost var before, end := c.touched, 0;
    match cmd {
      case ReadCmd(_, _) =>
        var status, buf := c.Read(cmd.offset, cmd.size);
        r, end := Reply(status, buf), cmd.offset + |buf|;
      case PrefetchCmd(_, _) =>
        var status;
        status, end := c.Prefetch(cmd.offset, cmd.size);
        r := Reply(status, []);
      case FlushCmd =>
        c.Flush();
        r := Reply(0, []);
    }
    e := Served(cmd, r, end, c.shelf.Recent());
    CommandAnswers(c.shelf.file, c.shelf.fileSize, c.Sound(), e, before, c.touched);
  }

  /** The log is about these commands and replies. */
  ghost predicate About(log: seq<Served>, cmds: seq<Command>, rs: seq<Reply>)
  {
    |log| == |rs| <= |cmds| && forall i :: 0 <= i < |log| ==> log[i].cmd == cmds[i] && log[i].reply == rs[i]
  }

  lemma {:induction false} AboutMore(log: seq<Served>, cmds: seq<Command>, rs: seq<Reply>, e: Served)
    requires About(log, cmds, rs) && |rs| < |cmds| && e.cmd == cmds[|rs|]
    ensures About(log + [e], cmds, rs + [e.reply])
  {
  }

  /** One command of a history. */
  method ServeOne(c: Cache, cmds: seq<Command>, rs: seq<Reply>, ghost h: seq<nat>, ghost ok: bool,
                  ghost log: seq<Served>)
      returns (rs': seq<Reply>, ghost log': seq<Served>)
    requires c.Coherent() && c.Lawful() && About(log, cmds, rs) && |rs| < |cmds| && Fits(cmds[|rs|])
    requires Logged(c.shelf.file, c.shelf.fileSize, c.Sound(), c.maxBlocks, h, ok, log, c.touched, c.intact)
    modifies c, c.shelf`blocks, c.shelf`accessCounter, c.shelf.lru, c.tree
    ensures c.Coherent() && c.Lawful() && About(log', cmds, rs') && |rs'| == |rs| + 1
    ensures Logged(c.shelf.file, c.shelf.fileSize, c.Sound(), c.maxBlocks, h, ok, log', c.touched, c.intact)
  {
    ghost var touched, intact := c.touched, c.intact;
    var r; ghost var e;
    r, e := Execute(c, cmds[|rs|]);
    rs', log' := rs + [r], log + [e];
    AboutMore(log, cmds, rs, e);
    LoggedMore(c.shelf.file, c.shelf.fileSize, c.Sound(), c.maxBlocks, h, ok, log, touched, intact, e, c.touched,
      c.intact);
  }

  /** Any history of commands on an unchanging file. Every reply is the file's own, whatever
      was resident; a load fails only at a block that is not resident, and where none fails
      exactly the commands that ask for what the file has succeed. The history of touched
      blocks follows from the commands and from how far they got, and after every command
      the resident blocks are the newest of it, as many as fit unless a load has failed
      since the last flush. */
  method Serve(c: Cache, cmds: seq<Command>) returns (rs: seq<Reply>, ghost log: seq<Served>)
    requires c.Coherent() && c.Lawful() && forall i :: 0 <= i < |cmds| ==> Fits(cmds[i])
    modifies c, c.shelf`blocks, c.shelf`accessCounter, c.shelf.lru, c.tree
    ensures c.Coherent() && c.Lawful() && |rs| == |cmds| && About(log, cmds, rs)
    ensures Logged(c.shelf.file, c.shelf.fileSize, c.Sound(), c.maxBlocks,
                   old(c.touched), old(c.intact), log, c.touched, c.intact)
  {
    rs, log := [], [];
    ghost var h, ok := c.touched, c.intact;
    for n := 0 to |cmds|
      invariant c.Coherent() && c.Lawful() && |rs| == n && About(log, cmds, rs)
      invariant Logged(c.shelf.file, c.shelf.fileSize, c.Sound(), c.maxBlocks, h, ok, log, c.touched, c.intact)
    {
      rs, log := ServeOne(c, cmds, rs, h, ok, log);
    }
  }

  lemma {:induction false} NoneListed(bs: Blocks, q: seq<Ptr>)
    requires Elems(q) == bs.Keys
    ensures bs.Keys == {} ==> q == []
  {
    if q != [] { assert q[0] in Elems(q); }
  }

  /** The bytes of block `b` from the position of `cur` on, at most `remaining` of them. */
  function CopyOut(ghost file: seq<Byte>, ghost size: nat, b: Block, cur: nat, remaining: nat): (part: seq<Byte>)
    requires Holds(file, size, b) && b.offset == BlockStart(cur) && cur + remaining <= size
    ensures Copied(file, cur, remaining, part)
  {
    var pos := cur % BLOCK;
    var n := if remaining < BLOCK - pos then remaining else BLOCK - pos;
    PartOfBlock(file, size, b, cur, n);
    b.data[pos..pos + n]
  }

  lemma {:induction false} SliceOfSlice(s: seq<Byte>, i: nat, j: nat, k: nat, l: nat)
    requires i <= j <= |s| && k <= l <= j - i
    ensures s[i..j][k..l] == s[i + k..i + l]
  {
    var t := s[i..j];
    assert |t[k..l]| == |s[i + k..i + l]|;
    forall x | 0 <= x < l - k
      ensures t[k..l][x] == s[i + k..i + l][x]
    {
      assert t[k..l][x] == t[k + x] == s[i + (k + x)];
    }
  }

  lemma {:induction false} PartOfBlock(file: seq<Byte>, size: nat, b: Block, a: nat, n: nat)
    requires Holds(file, size, b) && b.offset == BlockStart(a) && n <= BLOCK - a % BLOCK && a + n <= size
    ensures a + n <= |file| && b.data[a % BLOCK..a % BLOCK + n] == file[a..a + n]
  {
    var k, r := a % BLOCK, ReadSize(size, b.offset);
    assert a == b.offset + k && k + n <= r;
    SliceOfSlice(b.data, 0, r, k, k + n);
    SliceOfSlice(file, b.offset, b.offset + r, k, k + n);
  }

  lemma {:induction false} RecentLength(bs: Blocks, q: seq<Ptr>)
    requires Elems(q) <= bs.Keys
    ensures |Order(View(bs, q))| == |q|
  {
    ViewAt(bs, q);
    OrderAt(View(bs, q));
  }

  lemma {:induction false} OldestFirst(file: seq<Byte>, size: nat, bs: Blocks, q: seq<Ptr>, now: nat)
    requires Elems(q) == bs.Keys && Fine(file, size, View(bs, q), now)
    ensures var o := Order(View(bs, q));
            |o| == |q| && (q != [] ==> q[0] in bs && Without(o, bs[q[0]].offset) == o[1..])
  {
    RecentLength(bs, q);
    ViewAt(bs, q);
    if q != [] { DropOldest(file, size, View(bs, q), now); }
  }

  lemma {:induction false} DropLast(s: seq<nat>, x: nat)
    requires x !in s
    ensures Without(s + [x], x) == s
  {
    WithoutMiddle(s, x, []);
    assert s + [x] + [] == s + [x] && s + [] == s;
  }

  lemma {:induction false} TouchedIndex(bs: Blocks, t: Tree, p: Ptr, now: nat, bs': Blocks)
    requires Sorted(Offsets(bs), InOrder(t)) && Nodes(t) == bs.Keys && p in bs
    requires bs' == bs[p := bs[p].(lastAccess := now)]
    ensures Sorted(Offsets(bs'), InOrder(t)) && Nodes(t) == bs'.Keys
  {
    SortedByOther(Offsets(bs), Offsets(bs'), InOrder(t));
  }

  lemma {:induction false} TouchedList(file: seq<Byte>, size: nat, bs: Blocks, q: seq<Ptr>, now: nat, p: Ptr,
                                       bs': Blocks, q': seq<Ptr>, now': nat)
    requires Elems(q) == bs.Keys && NoDup(q) && Fine(file, size, View(bs, q), now) && p in bs
    requires bs' == bs[p := bs[p].(lastAccess := now')] && q' == Without(q, p) + [p] && now' == now + 1
    ensures |q'| == |q| && Elems(q') == bs'.Keys && Fine(file, size, View(bs', q'), now')
    ensures p in bs' && bs'[p].offset == bs[p].offset && Holds(file, size, bs'[p])
    ensures Order(View(bs', q')) == Without(Order(View(bs, q)), bs'[p].offset) + [bs'[p].offset]
  {
    var b := bs[p].(lastAccess := now');
    var bs1 := bs - {p};
    assert bs' == bs1[p := b];
    RemovedList(file, size, bs, q, now, p, bs1);
    assert Holds(file, size, b) && b.offset == bs[p].offset;
    ListedWith(file, size, bs1, Without(q, p), now, p, b, bs');
  }

  lemma {:induction false} RemovedList(file: seq<Byte>, size: nat, bs: Blocks, q: seq<Ptr>, now: nat, p: Ptr,
                                       bs': Blocks)
    requires Elems(q) == bs.Keys && NoDup(q) && Fine(file, size, View(bs, q), now) && p in bs && bs' == bs - {p}
    ensures |Without(q, p)| == |q| - 1 && Elems(Without(q, p)) == bs'.Keys &&
            Fine(file, size, View(bs', Without(q, p)), now)
    ensures Order(View(bs', Without(q, p))) == Without(Order(View(bs, q)), bs[p].offset)
    ensures Holds(file, size, bs[p]) && bs[p].offset !in Order(View(bs', Without(q, p)))
  {
    InView(file, size, bs, q, now, p);
    ViewWithout(file, size, bs, q, p, now);
    ViewSame(bs, bs', Without(q, p));
  }

  lemma {:induction false} ListedWith(file: seq<Byte>, size: nat, bs: Blocks, q: seq<Ptr>, now: nat, p: Ptr,
                                      b: Block, bs': Blocks)
    requires Elems(q) == bs.Keys && Fine(file, size, View(bs, q), now) && p !in bs && bs' == bs[p := b]
    requires Holds(file, size, b) && b.offset !in Order(View(bs, q)) && b.lastAccess > now
    ensures Elems(q + [p]) == bs'.Keys && Fine(file, size, View(bs', q + [p]), b.lastAccess)
    ensures Order(View(bs', q + [p])) == Order(View(bs, q)) + [b.offset]
  {
    FineAppend(file, size, View(bs, q), now, b);
    OrderConcat(View(bs, q), [b]);
    assert forall x :: x in q ==> x in Elems(q);
    ViewSame(bs, bs', q);
    assert Elems(q + [p]) == bs'.Keys;
    ViewConcat(bs', q, [p]);
    assert View(bs', [p]) == [b];
  }

  lemma {:induction false} DropOldest(file: seq<Byte>, size: nat, v: seq<Block>, now: nat)
    requires Fine(file, size, v, now) && v != []
    ensures Order(v) != [] && v[0].offset == Order(v)[0] && Without(Order(v), v[0].offset) == Order(v)[1..]
  {
    OrderAt(v[1..]);
    WithoutAbsent(Order(v[1..]), v[0].offset);
  }

  /** The tree stays sorted when a block with a new address is added to the keys. */
  lemma {:induction false} IndexWith(bs: Blocks, t: Tree, p: Ptr, b: Block)
    requires Sorted(Offsets(bs), InOrder(t)) && Nodes(t) == bs.Keys && p !in bs
    ensures Sorted(Offsets(bs[p := b]), InOrder(t)) && p !in Nodes(t)
  {
    InOrderNodes(t);
    SortedByOther(Offsets(bs), Offsets(bs[p := b]), InOrder(t));
  }

  lemma {:induction false} IndexedWith(bs: Blocks, t: Tree, p: Ptr, b: Block, t': Tree)
    requires Sorted(Offsets(bs), InOrder(t)) && Nodes(t) == bs.Keys && p !in bs
    requires InOrder(t') == InsertByKey(Offsets(bs[p := b]), InOrder(t), p)
    ensures Sorted(Offsets(bs[p := b]), InOrder(t')) && Nodes(t') == bs[p := b].Keys
  {
    IndexWith(bs, t, p, b);
    InsertKeepsSorted(Offsets(bs[p := b]), InOrder(t), p);
    InOrderNodes(t);
    InOrderNodes(t');
  }
}
