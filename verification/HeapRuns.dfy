/** What holds over whole histories of allocations, frees and writes. */
module HeapRuns {
  import opened Words
  import opened HeapSpec
  import opened HeapMemory
  import opened HeapModule

  // ---------------------------------------------------------------------------------------------
  // Waste

  /** The rounded requests behind the live blocks, added up. */
  ghost function SumRequested(bs: seq<Block>, requested: map<int, int>): int
    requires forall b :: b in bs && b.used ==> b.addr in requested
  {
    if bs == [] then 0
    else
      var b := bs[|bs| - 1];
      SumRequested(bs[..|bs| - 1], requested) + if b.used then requested[b.addr] else 0
  }

  lemma {:induction false} SlimTotal(bs: seq<Block>, requested: map<int, int>)
    requires forall b :: b in bs && b.used ==>
               b.addr in requested && requested[b.addr] <= b.size <= requested[b.addr] + 32
    ensures SumRequested(bs, requested) <= SumUsed(bs) <= SumRequested(bs, requested) + 32 * CountUsed(bs)
  {
    if bs != [] {
      var n := |bs| - 1;
      assert bs[n] in bs;
      SlimTotal(bs[..n], requested);
    }
  }

  /** In every reachable heap what is charged exceeds the rounded requests by at most 32 bytes
      for each live block. */
  lemma BoundedWaste(heap: Heap)
    requires heap.Valid() && heap.ready
    ensures forall b :: b in heap.blocks && b.used ==> b.addr in heap.requested
    ensures SumRequested(heap.blocks, heap.requested) <= heap.bytesUsed
    ensures heap.bytesUsed <= SumRequested(heap.blocks, heap.requested) + 32 * CountUsed(heap.blocks)
  {
    hide Tiled, Coalesced, Chain, Grained, Granule;
    assert forall b :: b in heap.blocks && b.used ==> b in Live(heap.blocks);
    SlimTotal(heap.blocks, heap.requested);
  }

  /** In every reachable heap no byte is lost between used, free and headers, the two call
      counters differ by the number of live blocks, and every block is 8-aligned. */
  lemma NothingLost(heap: Heap)
    requires heap.Valid() && heap.ready
    ensures heap.bytesUsed + heap.bytesFree + HEADER * |heap.blocks| == HEAP_SIZE
    ensures (heap.allocCount - heap.freeCount) % U32 == CountUsed(heap.blocks)
    ensures forall b :: b in heap.blocks ==> b.addr % 8 == 0 && b.size % 8 == 0
  {
    BytesConserved(heap.blocks, heap.base, heap.end);
    hide Coalesced, Chain, SumUsed, SumFree, CountUsed, Live;
    HeadersAligned(heap.blocks, heap.base, heap.end);
    WrapIsRemainder(heap.allocCount - heap.freeCount);
  }

  /** A block allocated for n bytes holds n bytes exactly when n is at most 0xFFFFFFF8: above that
      `Round` wraps to zero and any free block, split at once, satisfies the request. */
  lemma RequestIsHeld(before: seq<Block>, after: seq<Block>, lo: int, hi: int, n: word, p: int, k: int)
    requires Tiled(before, lo, hi) && hi - lo <= HEAP_SIZE && Placed(before, after, Round(n), p, k)
    ensures after[k].used && after[k].Payload() == p
    ensures n <= after[k].size <==> n <= 0xFFFF_FFF8
  {
    RoundCoversRequest(n);
    TiledIsOrdered(before, lo, hi);
    assert after[k] == Carved(before[k], Round(n))[0];
  }

  // ---------------------------------------------------------------------------------------------
  // Spelled out: what the words in memory and the list come to, in numbers

  /** Every heap that is up: from the first word of the region to its end, header after header, each
      of four words, each pointing to the next, no two free ones in a row. */
  lemma HeapSpelledOut(heap: Heap, i: int)
    requires heap.Valid() && heap.ready && 0 <= i < |heap.blocks|
    ensures heap.first == heap.base && heap.blocks[0].addr == heap.base && heap.end == heap.base + 4_194_304
    ensures var b, m := heap.blocks[i], heap.ram.m;
            && Load(m, b.addr) == 0x5481B07E && Load(m, b.addr + 4) == b.size
            && Load(m, b.addr + 8) == (if b.used then 1 else 0)
            && (i + 1 < |heap.blocks| ==>
                  && Load(m, b.addr + 12) == heap.blocks[i + 1].addr == b.addr + 16 + b.size
                  && (b.used || heap.blocks[i + 1].used))
            && (i + 1 == |heap.blocks| ==> Load(m, b.addr + 12) == 0 && b.addr + 16 + b.size == heap.end)
  {
    hide Grained, SumUsed, SumFree, CountUsed, Live;
    WalkStep(heap.ram.m, heap.blocks, i);
  }

  /** What an allocation of n rounded bytes from block k makes of the list: the block keeps its bytes
      when at most 32 are left over; otherwise it is cut to n bytes and a free block takes the rest. */
  lemma AllocSpelledOut(before: seq<Block>, after: seq<Block>, n: int, p: int, k: int)
    requires Placed(before, after, n, p, k)
    ensures 0 <= k < |before| && !before[k].used && n <= before[k].size && p == before[k].addr + 16
    ensures forall i :: 0 <= i < k ==> before[i].used || before[i].size < n
    ensures |after| == |before| + 1 <==> before[k].size - n > 32
    ensures |after| == |before| <==> before[k].size - n <= 32
    ensures after[k] == Block(before[k].addr, if before[k].size - n > 32 then n else before[k].size, true)
    ensures before[k].size - n > 32 ==>
              after[k + 1] == Block(before[k].addr + 16 + n, before[k].size - n - 16, false)
    ensures after[..k] == before[..k]
    ensures after[k + 1 + |after| - |before|..] == before[k + 1..]
  {
  }

  /** A heap just started, and its first allocation: the words written, in numbers. */
  method FirstAlloc(heap: Heap, baseHint: word, kernelEnd: word, size: word) returns (p: word)
    requires 0 < baseHint == kernelEnd && baseHint % 4096 == 0 && baseHint + 4_194_304 < U32
    requires 8 <= size <= 4_000_000 && size % 8 == 0
    modifies heap, heap.ram
    ensures p == baseHint + 16
    ensures var m, b := heap.ram.m, baseHint;
            && Load(m, b) == 0x5481B07E && Load(m, b + 4) == size && Load(m, b + 8) == 1
            && Load(m, b + 12) == b + 16 + size
            && Load(m, b + 16 + size) == 0x5481B07E && Load(m, b + 20 + size) == 4_194_304 - 32 - size
            && Load(m, b + 24 + size) == 0 && Load(m, b + 28 + size) == 0
    ensures heap.bytesUsed == size && heap.bytesFree == 4_194_304 - 32 - size
    ensures heap.allocCount == 1 && heap.freeCount == 0
  {
    FirstBase(baseHint);
    hide Good, Granule, Placed, PayloadsKept, SameOutside, HeapBase, RegionFits;
    heap.Start(baseHint, kernelEnd);
    ghost var before := heap.blocks;
    ExactRound(size);
    hide Round;
    assert Fits(before[0], Round(size));
    p := heap.Alloc(size);
    ghost var k :| Placed(before, heap.blocks, Round(size), p, k);
    AllocSpelledOut(before, heap.blocks, Round(size), p, k);
    HeapSpelledOut(heap, 0);
    HeapSpelledOut(heap, 1);
    TwoBlocks(heap);
  }

  lemma FirstBase(base: word)
    requires 0 < base && base % 4096 == 0 && base + 4_194_304 < U32
    ensures HeapBase(base, base) == base && RegionFits(base, base)
  {
  }

  lemma ExactRound(n: word)
    requires 8 <= n <= 4_000_000 && n % 8 == 0
    ensures Round(n) == n
  {
  }

  lemma TwoBlocks(heap: Heap)
    requires heap.Valid() && heap.ready && |heap.blocks| == 2 && heap.blocks[0].used && !heap.blocks[1].used
    ensures heap.bytesUsed == heap.blocks[0].size && heap.bytesFree == heap.blocks[1].size
  {
    hide Tiled, Coalesced, Chain, Grained, Live;
    var a, b := heap.blocks[0], heap.blocks[1];
    assert heap.blocks == [a] + [b];
    SumsAppend([a], [b]);
    SumsOne(a);
    SumsOne(b);
  }

  // ---------------------------------------------------------------------------------------------
  // Alloc undone by Free

  /** An allocation released at once leaves the list and both byte counters as they were. */
  method AllocThenFree(heap: Heap, size: word) returns (p: word)
    requires heap.Valid() && heap.ready
    modifies heap, heap.ram
    ensures heap.Valid() && heap.ready
    ensures heap.blocks == old(heap.blocks)
    ensures heap.bytesUsed == old(heap.bytesUsed) && heap.bytesFree == old(heap.bytesFree)
  {
    hide Tiled, Coalesced, Chain, Grained, Live, SumUsed, SumFree, CountUsed, PayloadsKept, SameOutside, Slim;
    hide Carve, Release, Parked, Granule, Round, FirstFit;
    ghost var before := heap.blocks;
    p := heap.Alloc(size);
    if p != 0 {
      ghost var k :| Placed(before, heap.blocks, Round(size), p, k);
      PlacedThenReleased(before, heap.blocks, heap.base, heap.end, Round(size), p, k);
      heap.Free(p);
    }
  }

  lemma PlacedThenReleased(before: seq<Block>, after: seq<Block>, lo: int, hi: int, n: int, p: int, k: int)
    requires WellFormed(before, lo, hi) && Placed(before, after, n, p, k) && Granule(n)
    ensures LiveAt(after, p - HEADER) && FreeOne(after, p - HEADER) == before
    ensures lo <= p - HEADER
  {
    FreeUndoesAlloc(before, lo, hi, k, n);
    CarveWellFormed(before, lo, hi, k, n);
    TiledIsOrdered(after, lo, hi);
    assert after[k] == Carved(before[k], n)[0];
    LiveIndex(after, lo, hi, k);
  }

  // ---------------------------------------------------------------------------------------------
  // Frees in any order

  ghost function Headers(ps: seq<word>): seq<int> {
    seq(|ps|, i requires 0 <= i < |ps| => Wrap(ps[i] - HEADER))
  }

  /** Null, or a pointer the heap handed out: live, or released and not yet reused. */
  ghost predicate Known(m: Mem, bs: seq<Block>, p: word) {
    p == 0 || LiveAt(bs, Wrap(p - HEADER)) || Parked(m, bs, Wrap(p - HEADER))
  }

  /** `Free` of a known pointer. */
  method FreeKnown(heap: Heap, p: word)
    requires heap.Valid() && heap.ready && Known(heap.ram.m, heap.blocks, p)
    modifies heap, heap.ram
    ensures heap.Valid() && heap.ready && heap.base == old(heap.base) && heap.end == old(heap.end)
    ensures heap.blocks == FreeOne(old(heap.blocks), Wrap(p - HEADER))
    ensures LiveAt(old(heap.blocks), Wrap(p - HEADER)) ==> Parked(heap.ram.m, heap.blocks, Wrap(p - HEADER))
    ensures p != 0 ==> Parked(heap.ram.m, heap.blocks, Wrap(p - HEADER))
    ensures forall h :: Parked(old(heap.ram.m), old(heap.blocks), h) ==> Parked(heap.ram.m, heap.blocks, h)
  {
    hide Tiled, Coalesced, Chain, Grained, Live, SumUsed, SumFree, CountUsed, PayloadsKept, SameOutside, Slim;
    hide Parked, Granule, LiveAt, FreeOne, FreeArgument;
    NullIsNotLive(heap.blocks, heap.base, heap.end);
    KnownIsArgument(heap.ram.m, heap.blocks, heap.base, heap.end, p);
    heap.Free(p);
  }

  lemma NullIsNotLive(bs: seq<Block>, lo: int, hi: int)
    requires Tiled(bs, lo, hi) && hi < U32
    ensures !LiveAt(bs, Wrap(0 - HEADER))
  {
    TiledIsOrdered(bs, lo, hi);
  }

  /** Releasing a list of pointers, repeats allowed, is the history FreeAll of their headers. */
  method FreeEach(heap: Heap, ps: seq<word>)
    requires heap.Valid() && heap.ready
    requires forall p :: p in ps ==> Known(heap.ram.m, heap.blocks, p)
    modifies heap, heap.ram
    ensures heap.Valid() && heap.ready && heap.base == old(heap.base) && heap.end == old(heap.end)
    ensures heap.blocks == FreeAll(old(heap.blocks), Headers(ps))
    ensures forall h :: Parked(old(heap.ram.m), old(heap.blocks), h) ==> Parked(heap.ram.m, heap.blocks, h)
  {
    hide Tiled, Coalesced, Chain, Grained, Live, SumUsed, SumFree, CountUsed, PayloadsKept, SameOutside, Slim;
    hide Parked, Granule, LiveAt, FreeOne, FreeArgument;
    ghost var before := heap.blocks;
    var i := 0;
    while i < |ps|
      invariant 0 <= i <= |ps|
      invariant heap.Valid() && heap.ready && heap.base == old(heap.base) && heap.end == old(heap.end)
      invariant forall p :: p in ps ==> Known(heap.ram.m, heap.blocks, p)
      invariant FreeAll(before, Headers(ps)) == FreeAll(heap.blocks, Headers(ps)[i..])
      invariant forall h :: Parked(old(heap.ram.m), old(heap.blocks), h) ==> Parked(heap.ram.m, heap.blocks, h)
    {
      assert ps[i] in ps;
      ghost var m0, bs0 := heap.ram.m, heap.blocks;
      FreeKnown(heap, ps[i]);
      assert Headers(ps)[i..][0] == Wrap(ps[i] - HEADER);
      assert Headers(ps)[i..][1..] == Headers(ps)[i + 1..];
      forall p | p in ps
        ensures Known(heap.ram.m, heap.blocks, p)
      {
        StillKnown(m0, heap.ram.m, bs0, heap.blocks, heap.base, heap.end, ps[i], p);
      }
      i := i + 1;
    }
  }

  lemma KnownIsArgument(m: Mem, bs: seq<Block>, lo: int, hi: int, p: word)
    requires Known(m, bs, p) && Tiled(bs, lo, hi) && 0 <= lo && hi < U32
    ensures p == 0 || FreeArgument(m, bs, Wrap(p - HEADER))
    ensures p == 0 ==> FreeOne(bs, Wrap(p - HEADER)) == bs
  {
    TiledIsOrdered(bs, lo, hi);
    var h: int := Wrap(p - HEADER);
    if p != 0 && !LiveAt(bs, h) {
      assert Wrap(h + 8) == h + 8;
    }
  }

  /** A release, or nothing for a null pointer, leaves every known pointer known. */
  lemma StillKnown(m: Mem, n: Mem, bs: seq<Block>, r: seq<Block>, lo: int, hi: int, p: word, q: word)
    requires WellFormed(bs, lo, hi)
    requires r == FreeOne(bs, Wrap(p - HEADER))
    requires LiveAt(bs, Wrap(p - HEADER)) ==> Parked(n, r, Wrap(p - HEADER))
    requires forall h :: Parked(m, bs, h) ==> Parked(n, r, h)
    requires Known(m, bs, q)
    ensures Known(n, r, q)
  {
    FreeOneLive(bs, lo, hi, Wrap(p - HEADER));
    var h := Wrap(q - HEADER);
    if LiveAt(bs, h) && h != Wrap(p - HEADER) {
      var b :| b in Live(bs) && b.addr == h;
      assert b in Live(r);
    }
  }

  // ---------------------------------------------------------------------------------------------
  // A second free

  /** A step that is not an allocation: a release, or an owner's store into its block. */
  datatype Step = Released(p: word) | Written(a: int, v: word)

  /** Every pointer released in the history is known at its start. */
  ghost predicate AllKnown(m: Mem, bs: seq<Block>, steps: seq<Step>) {
    forall s :: s in steps && s.Released? ==> Known(m, bs, s.p)
  }

  /** Every store goes to a word of a block that is live when it happens. */
  ghost predicate Lawful(bs: seq<Block>, steps: seq<Step>)
    decreases |steps|
  {
    steps == [] ||
    match steps[0]
    case Released(q) => Lawful(FreeOne(bs, Wrap(q - HEADER)), steps[1..])
    case Written(a, v) => InLive(bs, a) && Lawful(bs, steps[1..])
  }

  ghost predicate InLive(bs: seq<Block>, a: int) {
    Aligned(a) && exists b :: b in Live(bs) && b.Payload() <= a < b.End()
  }

  /** The first step of such a history. */
  method Take(heap: Heap, steps: seq<Step>)
    requires heap.Valid() && heap.ready && steps != []
    requires AllKnown(heap.ram.m, heap.blocks, steps) && Lawful(heap.blocks, steps)
    modifies heap, heap.ram
    ensures heap.Valid() && heap.ready
    ensures AllKnown(heap.ram.m, heap.blocks, steps) && Lawful(heap.blocks, steps[1..])
    ensures forall h :: Parked(old(heap.ram.m), old(heap.blocks), h) ==> Parked(heap.ram.m, heap.blocks, h)
    ensures steps[0].Released? && steps[0].p != 0 ==> Parked(heap.ram.m, heap.blocks, Wrap(steps[0].p - HEADER))
    ensures steps[0].Released? ==> heap.blocks == FreeOne(old(heap.blocks), Wrap(steps[0].p - HEADER))
    ensures steps[0].Written? ==>
              && heap.blocks == old(heap.blocks)
              && Put(old(heap.ram.m), heap.ram.m, steps[0].a, steps[0].v)
  {
    hide Tiled, Coalesced, Chain, Grained, SumUsed, SumFree, CountUsed, PayloadsKept, Slim, Live;
    hide Parked, Granule, LiveAt, FreeOne, FreeArgument, Aligned;
    ghost var m0, bs0 := heap.ram.m, heap.blocks;
    match steps[0] {
      case Released(q) =>
        assert steps[0] in steps;
        FreeKnown(heap, q);
        forall s | s in steps && s.Released?
          ensures Known(heap.ram.m, heap.blocks, s.p)
        {
          StillKnown(m0, heap.ram.m, bs0, heap.blocks, heap.base, heap.end, q, s.p);
        }
      case Written(a, v) =>
        ghost var b :| b in Live(bs0) && b.Payload() <= a < b.End();
        LastWord(bs0, heap.base, heap.end, b, a);
        heap.ram.Store(a, v);
        PayloadWritesKeepHeap(m0, heap.ram.m, bs0, heap.base, heap.end, b, a, a + 4);
    }
  }

  /** After p is released, and after any further history without an allocation, of releases and of
      stores by whoever owns the block at the time, p may be given to Free again and is not live;
      FreeAgain is that second call. */
  method ReleaseThenHistory(heap: Heap, p: word, steps: seq<Step>)
    requires heap.Valid() && heap.ready
    requires p != 0 && AllKnown(heap.ram.m, heap.blocks, [Released(p)] + steps)
    requires Lawful(heap.blocks, [Released(p)] + steps)
    modifies heap, heap.ram
    ensures heap.Valid() && heap.ready
    ensures Parked(heap.ram.m, heap.blocks, Wrap(p - HEADER))
    ensures FreeArgument(heap.ram.m, heap.blocks, Wrap(p - HEADER))
    ensures !LiveAt(heap.blocks, Wrap(p - HEADER))
  {
    hide Tiled, Coalesced, Chain, Grained, SumUsed, SumFree, CountUsed, PayloadsKept, SameOutside, Slim;
    hide Parked, Granule, LiveAt, FreeOne, FreeArgument, Lawful, Known;
    var all := [Released(p)] + steps;
    ghost var h := Wrap(p - HEADER);
    assert all[0] == Released(p);
    Take(heap, all);
    var i := 1;
    while i < |all|
      invariant 1 <= i <= |all|
      invariant heap.Valid() && heap.ready
      invariant AllKnown(heap.ram.m, heap.blocks, all[i..]) && Lawful(heap.blocks, all[i..])
      invariant Parked(heap.ram.m, heap.blocks, h)
    {
      assert all[i..][1..] == all[i + 1..];
      Take(heap, all[i..]);
      i := i + 1;
    }
    ParkedIsHarmless(heap.ram.m, heap.blocks, heap.base, heap.end, h);
  }

  lemma ParkedIsHarmless(m: Mem, bs: seq<Block>, lo: int, hi: int, h: word)
    requires Tiled(bs, lo, hi) && 0 <= lo && hi < U32 && Parked(m, bs, h)
    ensures FreeArgument(m, bs, h) && !LiveAt(bs, h)
  {
    TiledIsOrdered(bs, lo, hi);
    ParkedIsNotLive(m, bs, lo, hi, h);
    var at: int := h;
    assert Wrap(at + 8) == at + 8;
  }

  /** The second call: a header still marked free makes Free return without touching anything. */
  method FreeAgain(heap: Heap, p: word)
    requires heap.Valid() && heap.ready
    requires p != 0 && Parked(heap.ram.m, heap.blocks, Wrap(p - HEADER))
    modifies heap, heap.ram
    ensures unchanged(heap) && unchanged(heap.ram)
  {
    hide Tiled, Coalesced, Chain, Grained, SumUsed, SumFree, CountUsed, PayloadsKept, SameOutside, Slim;
    hide Parked, Granule, LiveAt, FreeOne, FreeArgument;
    ParkedIsHarmless(heap.ram.m, heap.blocks, heap.base, heap.end, Wrap(p - HEADER));
    heap.Free(p);
  }
}
