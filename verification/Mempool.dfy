/** The chunk pool: an array used as a stack, with the allocator behind it. */
module Mempool {
  import opened Sequences

  type Chunk = nat

  ghost function Slots(s: seq<Chunk>): set<Chunk> { set p | p in s }

  /** What holds of the pool array `all`, of which the first `count` slots are free chunks,
      the chunks `held` by clients and the chunks `live` in the allocator. */
  ghost predicate Balanced(all: seq<Chunk>, count: nat, held: set<Chunk>, live: set<Chunk>)
  {
    && count <= |all| && NoDup(all[..count]) && 0 !in live
    && Slots(all[..count]) !! held && live == Slots(all[..count]) + held
    && count + |held| >= |all|
    && forall i :: 0 <= i < |all| ==> all[i] in live
  }

  lemma {:induction false} TakeTop(all: seq<Chunk>, count: nat, held: set<Chunk>, live: set<Chunk>)
    requires Balanced(all, count, held, live) && count > 0
    ensures all[count - 1] != 0 && all[count - 1] !in held && Balanced(all, count - 1, held + {all[count - 1]}, live)
  {
    var c := all[count - 1];
    var s, s' := all[..count], all[..count - 1];
    assert s == s' + [c];
    assert c in s && s[count - 1] == c;
    assert forall i :: 0 <= i < count - 1 ==> s'[i] == s[i];
    assert Slots(s) == Slots(s') + {c};
  }

  lemma {:induction false} HoldNew(all: seq<Chunk>, count: nat, held: set<Chunk>, live: set<Chunk>, c: Chunk)
    requires Balanced(all, count, held, live) && c != 0 && c !in live
    ensures Balanced(all, count, held + {c}, live + {c})
  {
  }

  lemma {:induction false} SlotsMore(s: seq<Chunk>, c: Chunk)
    ensures Slots(s + [c]) == Slots(s) + {c}
    ensures NoDup(s) && c !in Slots(s) ==> NoDup(s + [c])
  {
    assert forall i :: 0 <= i < |s| ==> s[i] in Slots(s);
  }

  lemma {:induction false} PutBack(all: seq<Chunk>, count: nat, held: set<Chunk>, live: set<Chunk>, c: Chunk,
                                   all': seq<Chunk>)
    requires Balanced(all, count, held, live) && count < |all| && c in held && all' == all[count := c]
    ensures all'[..count + 1] == all[..count] + [c] && Balanced(all', count + 1, held - {c}, live)
  {
    SlotsMore(all[..count], c);
    assert all'[..count + 1] == all[..count] + [c];
  }

  lemma {:induction false} DropHeld(all: seq<Chunk>, count: nat, held: set<Chunk>, live: set<Chunk>, c: Chunk)
    requires Balanced(all, count, held, live) && count == |all| && c in held
    ensures Balanced(all, count, held - {c}, live - {c})
  {
    assert all[..count] == all;
    assert forall i :: 0 <= i < |all| ==> all[i] in Slots(all);
  }

  /** Freeing every slot of the array frees live chunks only, each once, and none that a
      client still holds. */
  ghost predicate SafeToFree(all: seq<Chunk>, held: set<Chunk>, live: set<Chunk>)
  {
    NoDup(all) && forall i :: 0 <= i < |all| ==> all[i] in live && all[i] !in held
  }

  /** That is so exactly when the pool is full. */
  lemma {:induction false} SafeIffFull(all: seq<Chunk>, count: nat, held: set<Chunk>, live: set<Chunk>)
    requires Balanced(all, count, held, live)
    ensures SafeToFree(all, held, live) <==> count == |all|
  {
    if count == |all| {
      assert all[..count] == all;
      assert forall i :: 0 <= i < |all| ==> all[i] in Slots(all);
    } else {
      var c := all[count];
      assert c in live;
      if c !in held {
        assert c in all[..count];
        var i :| 0 <= i < count && all[..count][i] == c;
        assert all[i] == all[count];
      }
    }
  }

  class Pool {
    const pool: array<Chunk>
    var count: nat
    ghost var held: set<Chunk>
    ghost var live: set<Chunk>

    ghost predicate Valid()
      reads this, pool
    {
      Balanced(pool[..], count, held, live)
    }

    /** Builds a pool from chunks that the allocator has just handed out. */
    constructor (chunks: seq<Chunk>)
      requires NoDup(chunks) && 0 !in chunks
      ensures Valid() && fresh(pool) && pool[..] == chunks && count == |chunks| && held == {}
    {
      pool := new Chunk[|chunks|](i requires 0 <= i < |chunks| => chunks[i]);
      count := |chunks|;
      held, live := {}, Slots(chunks);
      new;
      assert pool[..] == chunks && chunks[..|chunks|] == chunks;
    }

    /** Takes the chunk on top. An empty pool falls back on the allocator, which returns
        a chunk that is not in use, or null. */
    method Alloc(fallback: Chunk) returns (c: Chunk)
      requires Valid() && fallback !in live
      modifies this
      ensures Valid() && pool[..] == old(pool[..])
      ensures c == if old(count) > 0 then pool[old(count) - 1] else fallback
      ensures count == if old(count) > 0 then old(count) - 1 else 0
      ensures c !in old(held) && held == old(held) + (if c != 0 then {c} else {})
    {
      if count == 0 {
        c := fallback;
        if c != 0 {
          HoldNew(pool[..], count, held, live, c);
          held, live := held + {c}, live + {c};
        }
        return;
      }
      TakeTop(pool[..], count, held, live);
      count := count - 1;
      c := pool[count];
      held := held + {c};
    }

    method PutOnTop(c: Chunk)
      requires Valid() && c in held && count < pool.Length
      modifies this, pool
      ensures Valid() && held == old(held) - {c} && live == old(live)
      ensures count == old(count) + 1 && pool[..count] == old(pool[..count]) + [c]
    {
      ghost var all := pool[..];
      pool[count] := c;
      PutBack(all, count, held, live, c, pool[..]);
      count := count + 1;
      held := held - {c};
    }

    /** Puts a chunk back on top, or frees it if the pool is full. */
    method Free(c: Chunk) returns (freed: bool)
      requires Valid() && (c != 0 ==> c in held)
      modifies this, pool
      ensures Valid() && held == old(held) - {c}
      ensures freed <==> c != 0 && old(count) == pool.Length
      ensures live == if freed then old(live) - {c} else old(live)
      ensures c == 0 || freed ==> count == old(count) && pool[..] == old(pool[..])
      ensures c != 0 && !freed ==> count == old(count) + 1 && pool[..count] == old(pool[..count]) + [c]
    {
      if c == 0 { return false; }
      if count < pool.Length {
        PutOnTop(c);
        freed := false;
      } else {
        DropHeld(pool[..], count, held, live, c);
        held, live := held - {c}, live - {c};
        freed := true;
      }
    }

    /** Frees the chunk in every slot of the array. Where clients hold nothing, that frees
        everything that is live, each chunk once. */
    method Destroy() returns (freed: seq<Chunk>)
      requires Valid()
      ensures freed == pool[..]
      ensures SafeToFree(freed, held, live) <==> count == pool.Length
      ensures held == {} ==> count == pool.Length && SafeToFree(freed, held, live) && Slots(freed) == live
    {
      freed := [];
      for i := 0 to pool.Length
        invariant freed == pool[..i]
      {
        freed := freed + [pool[i]];
      }
      SafeIffFull(pool[..], count, held, live);
      assert count == pool.Length ==> pool[..][..count] == pool[..];
    }
  }
}
