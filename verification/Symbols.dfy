/** The kernel symbol table, the symbol table of an ELF file and the memory map of a
    process: lists loaded into sorted red-black trees and looked up by address. */
module Symbols {
  import opened Sequences
  import opened RbShape
  import opened RbTrees
  import opened RbMemory
  import opened RbIteration
  import opened SortedIndex

  // ----- kernel symbols -----

  datatype KernelSymbol = KernelSymbol(address: nat, kind: char, name: string)
  {
    predicate IsText() { kind == 't' || kind == 'T' }
  }

  const UNKNOWN_KERNEL_FUNCTION := "unknown_kernel_function"

  function Addresses(sym: map<Ptr, KernelSymbol>): Keys { map p | p in sym :: sym[p].address }

  /** Index `j` is the first text symbol with its address. */
  ghost predicate FirstListed(list: seq<KernelSymbol>, j: nat)
  {
    j < |list| && list[j].IsText() && forall i :: 0 <= i < j && list[i].IsText() ==> list[i].address != list[j].address
  }

  /** Every node of `q` is the first text symbol listed at its address. The node of
      `list[i]` has address `i + 1`. */
  ghost predicate OnlyFirst(q: seq<Ptr>, sym: map<Ptr, KernelSymbol>, list: seq<KernelSymbol>)
  {
    forall x :: x in q ==> 0 < x <= |list| && x in sym && sym[x] == list[x - 1] && FirstListed(list, x - 1)
  }

  ghost predicate Has(q: seq<Ptr>, keys: Keys, a: nat) { exists x :: x in q && Key(keys, x) == a }

  /** Every address with a text symbol has a node in `q`. */
  ghost predicate AllText(q: seq<Ptr>, keys: Keys, list: seq<KernelSymbol>)
  {
    forall i :: 0 <= i < |list| && list[i].IsText() ==> Has(q, keys, list[i].address)
  }

  ghost predicate Loaded(q: seq<Ptr>, sym: map<Ptr, KernelSymbol>, list: seq<KernelSymbol>)
  {
    OnlyFirst(q, sym, list) && AllText(q, Addresses(sym), list)
  }

  /** A linear scan of the first `n` symbols for the greatest text address not above `a`,
      keeping the first one listed. */
  ghost function Best(list: seq<KernelSymbol>, a: nat, n: nat): int
    requires n <= |list|
    ensures -1 <= Best(list, a, n) < n
  {
    if n == 0 then -1 else
    var b := Best(list, a, n - 1);
    if list[n - 1].IsText() && list[n - 1].address <= a &&
      (b < 0 || list[b].address < list[n - 1].address) then n - 1 else b
  }

  /** `b` is the first text symbol listed at the greatest address not above `a`. */
  ghost predicate IsFirstGreatest(list: seq<KernelSymbol>, a: nat, b: nat)
    requires b < |list|
  {
    && list[b].kind in {'t', 'T'} && list[b].address <= a
    && forall i :: 0 <= i < |list| && list[i].kind in {'t', 'T'} && list[i].address <= a ==>
         list[i].address <= list[b].address && (list[i].address == list[b].address ==> b <= i)
  }

  lemma {:induction false} BestIsFirstGreatest(list: seq<KernelSymbol>, a: nat, n: nat)
    requires n <= |list|
    ensures var b := Best(list, a, n);
            if b < 0 then forall i :: 0 <= i < n && list[i].kind in {'t', 'T'} ==> a < list[i].address
            else list[b].kind in {'t', 'T'} && list[b].address <= a &&
                 forall i :: 0 <= i < n && list[i].kind in {'t', 'T'} && list[i].address <= a ==>
                   list[i].address <= list[b].address && (list[i].address == list[b].address ==> b <= i)
  {
    if n > 0 { BestIsFirstGreatest(list, a, n - 1); }
  }

  /** The name that a scan of the whole list gives. */
  ghost function ScanName(list: seq<KernelSymbol>, a: nat): string
  {
    var b := Best(list, a, |list|);
    if b < 0 then UNKNOWN_KERNEL_FUNCTION else list[b].name
  }

  /** Looks at symbol `i`: inserts it if it is text, or drops it if its address is taken. */
  method LoadOne(t: RbTree, sym: map<Ptr, KernelSymbol>, list: seq<KernelSymbol>, i: nat)
    returns (sym': map<Ptr, KernelSymbol>)
    requires i < |list| && t.Valid() && Sorted(Addresses(sym), InOrder(t.tree)) &&
             Loaded(InOrder(t.tree), sym, list[..i])
    requires forall p :: p in sym ==> p <= i
    modifies t
    ensures t.Valid() && Sorted(Addresses(sym'), InOrder(t.tree)) && Loaded(InOrder(t.tree), sym', list[..i + 1])
    ensures forall p :: p in sym' ==> p <= i + 1
  {
    ghost var q := InOrder(t.tree);
    sym' := sym;
    if list[i].IsText() {
      var node: Ptr := i + 1;
      var more := sym[node := list[i]];
      InOrderNodes(t.tree);
      SortedByOther(Addresses(sym), Addresses(more), q);
      var ok := InsertUnique(t, Addresses(more), node);
      if ok {
        InsertKeepsSorted(Addresses(more), q, node);
        LoadedMore(q, sym, list, i, InOrder(t.tree));
        sym' := more;
        return;
      }
    }
    LoadedSkip(q, sym, list, i);
  }

  /** Inserts every text symbol of the list, keeping the first one at each address. */
  method LoadKernelSymbols(list: seq<KernelSymbol>) returns (t: RbTree, sym: map<Ptr, KernelSymbol>)
    ensures fresh(t) && t.Valid() && Sorted(Addresses(sym), InOrder(t.tree)) && Loaded(InOrder(t.tree), sym, list)
  {
    t := new RbTree();
    sym := map[];
    for i := 0 to |list|
      invariant fresh(t) && t.Valid() && Sorted(Addresses(sym), InOrder(t.tree))
      invariant Loaded(InOrder(t.tree), sym, list[..i]) && forall p :: p in sym ==> p <= i
    {
      sym := LoadOne(t, sym, list, i);
    }
    assert list[..|list|] == list;
  }

  /** Looking at one more symbol keeps what is known about the nodes. */
  lemma {:induction false} OnlyFirstLonger(q: seq<Ptr>, sym: map<Ptr, KernelSymbol>, list: seq<KernelSymbol>, i: nat)
    requires i < |list| && OnlyFirst(q, sym, list[..i])
    ensures OnlyFirst(q, sym, list[..i + 1])
  {
    var a, b := list[..i], list[..i + 1];
    assert forall j :: 0 <= j < i ==> a[j] == b[j];
    forall x | x in q
      ensures 0 < x <= |b| && sym[x] == b[x - 1] && FirstListed(b, x - 1)
    {
      assert FirstListed(a, x - 1);
    }
  }

  /** One more symbol that is not text, or whose address has a node already. */
  lemma {:induction false} LoadedSkip(q: seq<Ptr>, sym: map<Ptr, KernelSymbol>, list: seq<KernelSymbol>, i: nat)
    requires i < |list| && Loaded(q, sym, list[..i])
    requires list[i].IsText() ==> Has(q, Addresses(sym), list[i].address)
    ensures Loaded(q, sym, list[..i + 1])
  {
    OnlyFirstLonger(q, sym, list, i);
    var a, b := list[..i], list[..i + 1];
    assert forall j :: 0 <= j < i ==> a[j] == b[j];
  }

  /** One more symbol with a new address. */
  lemma {:induction false} LoadedMore(q: seq<Ptr>, sym: map<Ptr, KernelSymbol>, list: seq<KernelSymbol>, i: nat,
                                      q': seq<Ptr>)
    requires i < |list| && Loaded(q, sym, list[..i]) && list[i].IsText() && i + 1 !in sym
    requires !Has(q, Addresses(sym), list[i].address)
    requires forall x :: x in q' <==> x == i + 1 || x in q
    ensures Loaded(q', sym[i + 1 := list[i]], list[..i + 1])
  {
    OnlyFirstLonger(q, sym, list, i);
    var sym' := sym[i + 1 := list[i]];
    var a, b, keys, keys' := list[..i], list[..i + 1], Addresses(sym), Addresses(sym');
    assert forall j :: 0 <= j < i ==> a[j] == b[j];
    assert b[i] == list[i];
    assert FirstListed(b, i) by {
      forall j | 0 <= j < i && b[j].IsText()
        ensures b[j].address != list[i].address
      {
        assert Has(q, keys, a[j].address);
      }
    }
    assert forall x :: x in q ==> Key(keys, x) == Key(keys', x);
    forall j | 0 <= j <= i && b[j].IsText()
      ensures Has(q', keys', b[j].address)
    {
      if j == i {
        assert i + 1 in q';
      } else {
        assert Has(q, keys, a[j].address);
      }
    }
  }

  /** The name of the greatest symbol not above `addr`, which is what a linear scan of the
      loaded list gives. */
  method FindKernelSymbol(t: RbTree, sym: map<Ptr, KernelSymbol>, addr: nat, ghost list: seq<KernelSymbol>)
    returns (name: string)
    requires t.Linked() && Sorted(Addresses(sym), InOrder(t.tree)) && Loaded(InOrder(t.tree), sym, list)
    ensures name == ScanName(list, addr)
    ensures if forall i :: 0 <= i < |list| && list[i].kind in {'t', 'T'} ==> addr < list[i].address
            then name == "unknown_kernel_function"
            else exists b :: 0 <= b < |list| && IsFirstGreatest(list, addr, b) && name == list[b].name
  {
    ghost var q, keys := InOrder(t.tree), Addresses(sym);
    BestIsFirstGreatest(list, addr, |list|);
    FloorIsGreatest(keys, q, addr);
    FloorIsBest(q, sym, list, addr);
    if t.root == 0 {
      RootRank(t.mem, t.rk, 0, t.tree, Hole(t.rk, Top));
      return UNKNOWN_KERNEL_FUNCTION;
    }
    var found := FindFloor(t, Addresses(sym), addr);
    name := if found != 0 then sym[found].name else UNKNOWN_KERNEL_FUNCTION;
  }

  lemma {:induction false} FloorIsBest(q: seq<Ptr>, sym: map<Ptr, KernelSymbol>, list: seq<KernelSymbol>, a: nat)
    requires Loaded(q, sym, list) && Sorted(Addresses(sym), q)
    ensures Floor(Addresses(sym), q, a) == Best(list, a, |list|) + 1
  {
    var keys, f, b := Addresses(sym), Floor(Addresses(sym), q, a), Best(list, a, |list|);
    BestIsFirstGreatest(list, a, |list|);
    FloorIsGreatest(keys, q, a);
    if f != 0 { assert FirstListed(list, f - 1) && keys[f] == list[f - 1].address; }
    if 0 <= b {
      assert Has(q, keys, list[b].address);
      var x :| x in q && Key(keys, x) == list[b].address;
    }
  }

  /** Frees the table: every node is visited once, in address order. */
  method FreeKernelSymbols(t: RbTree) returns (freed: seq<Ptr>)
    requires t.Valid()
    modifies t
    ensures t.Valid() && t.tree == Nil && freed == old(InOrder(t.tree))
  {
    freed := Drain(t);
  }

  // ----- ranges: ELF symbols and memory areas -----

  /** A range of addresses with what it stands for. */
  datatype Range = Range(start: nat, size: nat, name: string, offset: nat)

  /** The range that embeds the node at address `p`. */
  function RangeOf(rs: seq<Range>, p: Ptr): Range
    requires 0 < p <= |rs|
  {
    rs[p - 1]
  }

  function Starts(rs: seq<Range>): Keys { map p: Ptr | 0 < p <= |rs| :: RangeOf(rs, p).start }

  function Sizes(rs: seq<Range>): Keys { map p: Ptr | 0 < p <= |rs| :: RangeOf(rs, p).size }

  predicate Contains(r: Range, a: nat) { r.start <= a < r.start + r.size }

  /** Ranges with different starts are disjoint, ranges with equal starts have equal sizes. */
  ghost predicate Consistent(rs: seq<Range>)
  {
    forall i, j :: 0 <= i < |rs| && 0 <= j < |rs| ==>
      && (rs[i].start < rs[j].start ==> rs[i].start + rs[i].size <= rs[j].start)
      && (rs[i].start == rs[j].start ==> rs[i].size == rs[j].size)
  }

  /** Range `i` starts at the greatest start not above the address. */
  ghost predicate Nearest(rs: seq<Range>, i: int, a: nat)
  {
    0 <= i < |rs| && rs[i].start <= a && forall j :: 0 <= j < |rs| && rs[j].start <= a ==> rs[j].start <= rs[i].start
  }

  /** There is such a range, and all of them contain the address. */
  ghost predicate NearestContain(rs: seq<Range>, a: nat)
  {
    (exists i :: Nearest(rs, i, a)) && forall i :: Nearest(rs, i, a) ==> Contains(rs[i], a)
  }

  /** Node `p` has the start and size of range `i`. */
  ghost predicate SameRange(rs: seq<Range>, i: nat, p: Ptr)
    requires i < |rs|
  {
    0 < p <= |rs| && rs[p - 1].start == rs[i].start && rs[p - 1].size == rs[i].size
  }

  /** An index of ranges: the node of `ranges[i]` has address `i + 1`. */
  class RangeIndex {
    const index: RbTree
    var ranges: seq<Range>

    ghost predicate Valid()
      reads this, index
    {
      && index.Valid() && Sorted(Starts(ranges), InOrder(index.tree))
      && forall p :: p in InOrder(index.tree) <==> 0 < p <= |ranges|
    }

    constructor ()
      ensures Valid() && ranges == [] && fresh(index)
    {
      index := new RbTree();
      ranges := [];
    }

    method Add(r: Range)
      requires Valid()
      modifies this, index
      ensures Valid() && ranges == old(ranges) + [r]
    {
      ghost var q := InOrder(index.tree);
      InOrderNodes(index.tree);
      SortedByOther(Starts(ranges), Starts(ranges + [r]), q);
      ranges := ranges + [r];
      InsertKeepsSorted(Starts(ranges), q, |ranges|);
      Insert(index, Starts(ranges), |ranges|);
    }

    /** The range found covers the address, always, and one is found if those with the
        nearest start contain the address. If the ranges are consistent, one is found
        exactly when some range covers the address, and it is equal to every covering one
        in start and size. */
    method Find(a: nat) returns (found: Ptr)
      requires Valid()
      ensures found != 0 ==> found <= |ranges| && Contains(ranges[found - 1], a)
      ensures NearestContain(ranges, a) ==> found != 0
      ensures Consistent(ranges) ==>
                forall i | 0 <= i < |ranges| && Contains(ranges[i], a) :: SameRange(ranges, i, found)
    {
      found := FindInterval(index, Starts(ranges), Sizes(ranges), a);
      SearchedRange(ranges, index.tree, a);
      if NearestContain(ranges, a) { NearestIsFound(ranges, index.tree, a); }
      if Consistent(ranges) {
        forall i | 0 <= i < |ranges| && Contains(ranges[i], a)
          ensures SameRange(ranges, i, found)
        {
          SearchedRanges(ranges, index.tree, a, i);
        }
      }
    }
  }

  lemma {:induction false} SearchedRange(rs: seq<Range>, t: Tree, a: nat)
    requires forall p :: p in InOrder(t) <==> 0 < p <= |rs|
    ensures var x := Search(Starts(rs), Sizes(rs), t, a); x == 0 || (x <= |rs| && Contains(RangeOf(rs, x), a))
  {
    SearchSound(Starts(rs), Sizes(rs), t, a);
    InOrderNodes(t);
  }

  lemma {:induction false} NearestIsFound(rs: seq<Range>, t: Tree, a: nat)
    requires Sorted(Starts(rs), InOrder(t)) && (forall p :: p in InOrder(t) <==> 0 < p <= |rs|) && NearestContain(rs, a)
    ensures Search(Starts(rs), Sizes(rs), t, a) != 0
  {
    var keys, q := Starts(rs), InOrder(t);
    var i :| Nearest(rs, i, a);
    RangeKey(rs, i + 1);
    FloorIsGreatest(keys, q, a);
    var f := Floor(keys, q, a);
    assert i + 1 in q && f in q;
    RangeKey(rs, f);
    forall j | 0 <= j < |rs| && rs[j].start <= a
      ensures rs[j].start <= rs[f - 1].start
    {
      RangeKey(rs, j + 1);
      assert j + 1 in q;
    }
    assert Nearest(rs, f - 1, a);
    FloorIsFound(keys, Sizes(rs), t, a);
  }

  lemma {:induction false} RangeKey(rs: seq<Range>, p: Ptr)
    requires 0 < p <= |rs|
    ensures Key(Starts(rs), p) == rs[p - 1].start && Key(Sizes(rs), p) == rs[p - 1].size
  {
    assert RangeOf(rs, p) == rs[p - 1];
  }

  lemma {:induction false} LayeredRanges(rs: seq<Range>, q: seq<Ptr>)
    requires Consistent(rs) && forall p :: p in q <==> 0 < p <= |rs|
    ensures Layered(Starts(rs), Sizes(rs), q)
  {
    forall x, y | x in q && y in q
      ensures Key(Starts(rs), x) < Key(Starts(rs), y) ==> Key(Starts(rs), x) + Key(Sizes(rs), x) <= Key(Starts(rs), y)
      ensures Key(Starts(rs), x) == Key(Starts(rs), y) ==> Key(Sizes(rs), x) == Key(Sizes(rs), y)
    {
      assert RangeOf(rs, x) == rs[x - 1] && RangeOf(rs, y) == rs[y - 1];
    }
  }

  lemma {:induction false} SearchedRanges(rs: seq<Range>, t: Tree, a: nat, i: nat)
    requires Sorted(Starts(rs), InOrder(t)) && (forall p :: p in InOrder(t) <==> 0 < p <= |rs|) && Consistent(rs)
    requires i < |rs| && Contains(rs[i], a)
    ensures SameRange(rs, i, Search(Starts(rs), Sizes(rs), t, a))
  {
    var keys, sizes, p := Starts(rs), Sizes(rs), i + 1;
    LayeredRanges(rs, InOrder(t));
    assert RangeOf(rs, p) == rs[i];
    assert p in InOrder(t) && Key(keys, p) == rs[i].start && Key(sizes, p) == rs[i].size;
    SearchIsScan(keys, sizes, t, a);
    assert Covers(keys, sizes, p, a);
    SearchedRange(rs, t, a);
  }

  const UNKNOWN_ELF := "unknown_elf_or_no_symbols"
  const UNKNOWN_FUNCTION := "unknown_function"

  /** The symbol name for an address relative to an ELF file. */
  method FindSymbolName(elf: RangeIndex, a: nat) returns (name: string)
    requires elf.Valid()
    ensures elf.ranges == [] ==> name == "unknown_elf_or_no_symbols"
    ensures elf.ranges != [] ==>
              || name == "unknown_function"
              || exists i :: 0 <= i < |elf.ranges| && Contains(elf.ranges[i], a) && name == elf.ranges[i].name
    ensures NearestContain(elf.ranges, a) ==>
              exists i :: 0 <= i < |elf.ranges| && Contains(elf.ranges[i], a) && name == elf.ranges[i].name
    ensures Consistent(elf.ranges) && elf.ranges != [] ==>
              if exists i :: 0 <= i < |elf.ranges| && Contains(elf.ranges[i], a)
              then exists i :: 0 <= i < |elf.ranges| && Contains(elf.ranges[i], a) && name == elf.ranges[i].name
              else name == "unknown_function"
  {
    if elf.ranges == [] { return UNKNOWN_ELF; }
    var sym := elf.Find(a);
    name := if sym != 0 then elf.ranges[sym - 1].name else UNKNOWN_FUNCTION;
  }

  /** The offset in the mapped file of an address inside a memory area, otherwise 0. */
  function RelativeAddress(a: nat, vma: Range): nat
  {
    if Contains(vma, a) then a - vma.start + vma.offset else 0
  }

  /** Translation keeps distances within an area. */
  lemma {:induction false} KeepsDistance(a: nat, b: nat, vma: Range)
    requires Contains(vma, a) && Contains(vma, b)
    ensures RelativeAddress(a, vma) - RelativeAddress(b, vma) == a - b
    ensures RelativeAddress(vma.start, vma) == vma.offset
  {
  }

  /** Areas with disjoint parts of the file never share a relative address, and within one
      area different addresses have different ones. */
  lemma {:induction false} TranslatesApart(a: nat, v: Range, b: nat, w: Range)
    requires Contains(v, a) && Contains(w, b)
    requires v.offset + v.size <= w.offset || w.offset + w.size <= v.offset || (v == w && a != b)
    ensures RelativeAddress(a, v) != RelativeAddress(b, w)
  {
  }

  /** Memory areas are pairwise disjoint. */
  ghost predicate PairwiseDisjoint(rs: seq<Range>)
  {
    forall i, j, a: nat :: 0 <= i < |rs| && 0 <= j < |rs| && i != j && Contains(rs[i], a) ==> !Contains(rs[j], a)
  }

  lemma {:induction false} DisjointIsConsistent(rs: seq<Range>)
    requires PairwiseDisjoint(rs) && forall i :: 0 <= i < |rs| ==> 0 < rs[i].size
    ensures Consistent(rs)
  {
    forall i, j | 0 <= i < |rs| && 0 <= j < |rs| && i != j
      ensures rs[i].start + rs[i].size <= rs[j].start || rs[j].start + rs[j].size <= rs[i].start
    {
      var a := if rs[i].start < rs[j].start then rs[j].start else rs[i].start;
      assert Contains(rs[i], a) ==> !Contains(rs[j], a);
    }
  }

  /** Looking up an address in a memory map of disjoint areas: the one area that contains
      the address is found, and the relative address lies inside its part of the file. */
  method Resolve(maps: RangeIndex, a: nat) returns (found: Ptr, rel: nat)
    requires maps.Valid() && PairwiseDisjoint(maps.ranges) && forall r :: r in maps.ranges ==> 0 < r.size
    ensures forall i | 0 <= i < |maps.ranges| :: Contains(maps.ranges[i], a) <==> found == i + 1
    ensures found != 0 ==> found <= |maps.ranges|
    ensures found != 0 ==> var r := maps.ranges[found - 1]; r.start <= a && rel == r.offset + (a - r.start)
    ensures found != 0 ==> var r := maps.ranges[found - 1]; r.offset <= rel < r.offset + r.size
    ensures found == 0 ==> rel == 0
  {
    DisjointIsConsistent(maps.ranges);
    found := maps.Find(a);
    rel := if found == 0 then 0 else RelativeAddress(a, maps.ranges[found - 1]);
  }
}
