/** Ranges of a file and the blocks that hold them. */
module FileRanges {
  import opened Bytes
  import opened Sequences

  const BLOCK: nat := 4096

  /** The offset of the block that holds the byte at `a`. */
  function BlockStart(a: nat): nat { a / BLOCK * BLOCK }

  /** `buf` is the file from `a` up to `end`. */
  ghost predicate IsFilePart(file: seq<Byte>, a: nat, end: nat, buf: seq<Byte>)
  {
    if a == end then buf == [] else a < end <= |file| && buf == file[a..end]
  }

  /** The blocks that hold the bytes from `a` up to `end`, in order. */
  ghost function BlocksOf(a: nat, end: nat): seq<nat>
    decreases if a < end then end - a else 0
  {
    if a >= end then [] else [BlockStart(a)] + BlocksOf(BlockStart(a) + BLOCK, end)
  }

  /** Blocks of 4096 bytes, one after the other, from the one that holds the first byte to
      the one that holds the last. */
  lemma {:induction false} BlocksAre(a: nat, end: nat)
    requires a < end
    ensures var b := BlocksOf(a, end);
            && |b| == (end - 1) / 4096 - a / 4096 + 1
            && forall i :: 0 <= i < |b| ==> b[i] == (a / 4096 + i) * 4096
    decreases end - a
  {
    var next := BlockStart(a) + BLOCK;
    assert next / 4096 == a / 4096 + 1;
    if next < end {
      BlocksAre(next, end);
      var b, c := BlocksOf(a, end), BlocksOf(next, end);
      forall i | 0 <= i < |b|
        ensures b[i] == (a / 4096 + i) * 4096
      {
        if i > 0 { assert b[i] == c[i - 1]; }
      }
    } else {
      assert BlocksOf(next, end) == [];
      assert (end - 1) / 4096 == a / 4096;
    }
  }

  /** The bytes from `cur` on within one block lie in one more block. */
  lemma {:induction false} BlocksMore(a: nat, cur: nat, n: nat)
    requires a <= cur && (cur == a || cur % BLOCK == 0) && 0 < n <= BLOCK - cur % BLOCK
    ensures BlocksOf(a, cur + n) == BlocksOf(a, cur) + [BlockStart(cur)]
    decreases cur - a
  {
    var next := BlockStart(a) + BLOCK;
    if cur == a {
      assert BlocksOf(next, cur + n) == [];
    } else {
      assert next <= cur;
      BlocksMore(next, cur, n);
    }
  }

  // ----- reading -----

  /** `part` is as much of the file from `cur` on as fits both the request and the block. */
  ghost predicate Copied(file: seq<Byte>, cur: nat, remaining: nat, part: seq<Byte>)
  {
    |part| == Min(remaining, BLOCK - cur % BLOCK) && cur + |part| <= |file| && part == file[cur..cur + |part|]
  }

  /** The file from `offset` up to `cur` is in `buf`, and the read goes on at the start of
      a block until it reaches `end`. */
  ghost predicate Reading(file: seq<Byte>, offset: nat, cur: nat, end: nat, buf: seq<Byte>)
  {
    offset <= cur <= end && IsFilePart(file, offset, cur, buf) && (cur == offset || cur == end || cur % BLOCK == 0)
  }

  lemma {:induction false} FileAppend(file: seq<Byte>, offset: nat, cur: nat, buf: seq<Byte>, part: seq<Byte>)
    requires offset <= cur && IsFilePart(file, offset, cur, buf) && part != []
    requires cur + |part| <= |file| && part == file[cur..cur + |part|]
    ensures IsFilePart(file, offset, cur + |part|, buf + part)
  {
    assert file[offset..cur] + file[cur..cur + |part|] == file[offset..cur + |part|];
  }

  lemma {:induction false} NextBlock(file: seq<Byte>, offset: nat, cur: nat, end: nat, buf: seq<Byte>, part: seq<Byte>,
                                     cur': nat, buf': seq<Byte>, before: seq<nat>)
    requires cur < end && Reading(file, offset, cur, end, buf) && Copied(file, cur, end - cur, part)
    requires cur' == cur + |part| && buf' == buf + part
    ensures cur < cur' <= end && Reading(file, offset, cur', end, buf')
    ensures before + BlocksOf(offset, cur) + [BlockStart(cur)] == before + BlocksOf(offset, cur')
  {
    FileAppend(file, offset, cur, buf, part);
    BlocksMore(offset, cur, |part|);
    SeqAssoc(before, BlocksOf(offset, cur), [BlockStart(cur)]);
  }

  /** How far a read gets: to the end of the request or of the file if it succeeds, less
      far if a block could not be loaded, nowhere if it starts behind the file. */
  ghost predicate ReadResult(size: nat, offset: nat, count: nat, status: int, n: nat)
  {
    if status == 0 then offset < size && offset + n == Min(offset + count, size)
    else status == -1 && if offset >= size then n == 0 else offset + n < Min(offset + count, size)
  }

  /** What a read leaves in the buffer is the file as far as it got, and it has touched the
      blocks of that range in order. */
  ghost predicate ReadOutcome(file: seq<Byte>, size: nat, offset: nat, count: nat, status: int, buf: seq<Byte>,
                              before: seq<nat>, touched: seq<nat>)
  {
    && IsFilePart(file, offset, offset + |buf|, buf) && ReadResult(size, offset, count, status, |buf|)
    && touched == before + BlocksOf(offset, offset + |buf|)
  }

  lemma {:induction false} ReadBehind(file: seq<Byte>, size: nat, offset: nat, count: nat, buf: seq<Byte>,
                                      before: seq<nat>, recent: seq<nat>)
    requires offset >= size && buf == []
    ensures ReadOutcome(file, size, offset, count, -1, buf, before, before)
    ensures !LoadFailed(size, -1, offset + |buf|) && StopsAtAbsent(size, -1, offset + |buf|, recent)
  {
  }

  lemma {:induction false} ReadStops(file: seq<Byte>, size: nat, offset: nat, count: nat, cur: nat, end: nat,
                                     buf: seq<Byte>,
                                     before: seq<nat>, touched: seq<nat>, status: int, recent: seq<nat>)
    requires Reading(file, offset, cur, end, buf) && offset < size && end == Min(offset + count, size)
    requires touched == before + BlocksOf(offset, cur) && status == if cur == end then 0 else -1
    requires cur != end ==> BlockStart(cur) !in recent
    ensures ReadOutcome(file, size, offset, count, status, buf, before, touched)
    ensures StopsAtAbsent(size, status, offset + |buf|, recent)
    ensures LoadFailed(size, status, offset + |buf|) <==> cur != end
  {
  }

  // ----- prefetching -----

  /** The blocks touched by a prefetch from `cur` on that got as far as `end`. */
  ghost function Prefetched(cur: nat, end: nat): seq<nat>
    decreases if cur < end then end - cur else 0
  {
    if cur >= end then [] else BlocksOf(cur, Min(cur + BLOCK, end)) + Prefetched(cur + BLOCK, end)
  }

  /** From a block boundary on, a prefetch touches each block of its range once. */
  lemma {:induction false} AlignedPrefetch(cur: nat, end: nat)
    requires cur % 4096 == 0
    ensures Prefetched(cur, end) == BlocksOf(cur, end)
    decreases if cur < end then end - cur else 0
  {
    if cur < end {
      AlignedPrefetch(cur + BLOCK, end);
      assert BlocksOf(BlockStart(cur) + BLOCK, Min(cur + BLOCK, end)) == [];
    }
  }

  lemma {:induction false} PrefetchedMore(offset: nat, cur: nat, n: nat)
    requires offset <= cur && (cur - offset) % BLOCK == 0 && n <= BLOCK
    ensures Prefetched(offset, cur + n) == Prefetched(offset, cur) + BlocksOf(cur, cur + n)
    decreases cur - offset
  {
    var next := offset + BLOCK;
    if cur == offset {
      assert Prefetched(next, cur + n) == [];
    } else {
      assert next <= cur;
      PrefetchedMore(next, cur, n);
      SeqAssoc(BlocksOf(offset, next), Prefetched(next, cur), BlocksOf(cur, cur + n));
    }
  }

  /** Every piece of a prefetch up to `goal` starts inside the file. */
  ghost predicate StartsInside(cur: nat, goal: nat, size: nat)
    decreases if cur < goal then goal - cur else 0
  {
    cur < goal ==> cur < size && StartsInside(cur + BLOCK, goal, size)
  }

  /** That is so exactly when the last piece starts inside the file. */
  lemma {:induction false} LastPieceInside(cur: nat, goal: nat, size: nat)
    requires cur < goal
    ensures StartsInside(cur, goal, size) <==> cur + (goal - cur - 1) / 4096 * 4096 < size
    decreases goal - cur
  {
    if cur + BLOCK < goal { LastPieceInside(cur + BLOCK, goal, size); }
  }

  /** How far the pieces from `cur` on reach if every block can be loaded; those before it
      have reached `end`. */
  ghost function Reach(cur: nat, goal: nat, size: nat, end: nat): nat
    decreases if cur < goal then goal - cur else 0
  {
    if cur >= goal || cur >= size then end else Reach(cur + BLOCK, goal, size, Min(cur + BLOCK, size))
  }

  /** They reach the end of the last piece or of the file. */
  lemma {:induction false} ReachIs(cur: nat, goal: nat, size: nat, end: nat)
    ensures Reach(cur, goal, size, end) ==
              if cur >= goal || cur >= size then end else Min(cur + (goal - cur + 4095) / 4096 * 4096, size)
    decreases if cur < goal then goal - cur else 0
  {
    if cur < goal && cur < size { ReachIs(cur + BLOCK, goal, size, Min(cur + BLOCK, size)); }
  }

  /** How far a prefetch gets. */
  ghost predicate PrefetchResult(size: nat, offset: nat, count: nat, status: int, end: nat)
  {
    var goal := offset + count;
    && offset <= end
    && if status == 0 then StartsInside(offset, goal, size) && end == Reach(offset, goal, size, offset)
       else status == -1 &&
            (end < size || (!StartsInside(offset, goal, size) && end == Reach(offset, goal, size, offset)))
  }

  /** The pieces before `cur` were prefetched and reached `end`. */
  ghost predicate Prefetching(offset: nat, cur: nat, goal: nat, size: nat, end: nat)
  {
    && offset <= cur && (cur - offset) % BLOCK == 0 && offset <= end && (end == cur || end == size < cur)
    && Reach(cur, goal, size, end) == Reach(offset, goal, size, offset)
    && (StartsInside(offset, goal, size) <==> StartsInside(cur, goal, size))
  }

  /** One more piece, of which `n` bytes were read. */
  lemma {:induction false} NextPiece(offset: nat, cur: nat, count: nat, size: nat, end: nat, status: int, n: nat,
                                     end': nat, before: seq<nat>)
    requires Prefetching(offset, cur, offset + count, size, end) && cur < offset + count
    requires ReadResult(size, cur, BLOCK, status, n) && end' == if n > 0 then cur + n else end
    ensures before + Prefetched(offset, end) + BlocksOf(cur, cur + n) == before + Prefetched(offset, end')
    ensures status == 0 ==> Prefetching(offset, cur + BLOCK, offset + count, size, end')
    ensures status != 0 ==> PrefetchResult(size, offset, count, status, end')
    ensures LoadFailed(size, status, cur + n) <==> LoadFailed(size, status, end')
  {
    if end == cur { PrefetchedMore(offset, cur, n); }
    SeqAssoc(before, Prefetched(offset, end), BlocksOf(cur, cur + n));
  }

  /** A load that failed in the piece stopped it where the prefetch ends. */
  lemma {:induction false} PieceStops(offset: nat, cur: nat, count: nat, size: nat, end: nat, status: int, n: nat,
                                      end': nat)
    requires Prefetching(offset, cur, offset + count, size, end) && end' == if n > 0 then cur + n else end
    ensures LoadFailed(size, status, cur + n) ==> end' == cur + n
  {
  }

  lemma {:induction false} LastPiece(offset: nat, cur: nat, count: nat, size: nat, end: nat)
    requires Prefetching(offset, cur, offset + count, size, end) && offset + count <= cur
    ensures PrefetchResult(size, offset, count, 0, end)
  {
  }

  /** A command that got as far as `end` failed although the file goes on there, which
      only the failure to load a block explains. */
  ghost predicate LoadFailed(size: nat, status: int, end: nat) { status != 0 && end < size }

  /** Only at a block that is not resident does a load fail. */
  ghost predicate StopsAtAbsent(size: nat, status: int, end: nat, recent: seq<nat>)
  {
    LoadFailed(size, status, end) ==> BlockStart(end) !in recent
  }
}
