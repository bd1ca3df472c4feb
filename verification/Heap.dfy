/** The allocator itself: static fields, headers in memory, and the loops that walk them. */
module HeapModule {
  import opened Words
  import opened HeapSpec
  import opened HeapMemory

  /** The fields of the allocator as a value. */
  datatype HeapState = HeapState(
    first: word, base: word, end: word, bytesUsed: word, bytesFree: word, allocCount: word, freeCount: word,
    ready: bool, blocks: seq<Block>, requested: map<int, int>)

  /** What every call keeps, once `Start` has run: the headers in m form one well-formed list over
      [base, end), and the counters are exactly its sums. */
  ghost predicate Good(h: HeapState, m: Mem) {
    h.ready ==> && h.first == h.base && 0 < h.base && h.end == h.base + HEAP_SIZE
                && WellFormed(h.blocks, h.base, h.end) && Grained(h.blocks) && Granule(h.base)
                && Chain(m, h.blocks, 0)
                && h.bytesUsed == SumUsed(h.blocks)
                && h.bytesFree == SumFree(h.blocks)
                && Wrap(h.allocCount - h.freeCount) == CountUsed(h.blocks)
                && Slim(h.blocks, h.requested)
  }

  class Heap {
    const ram: Ram
    var first: word
    var base: word
    var end: word
    var bytesUsed: word
    var bytesFree: word
    var allocCount: word
    var freeCount: word
    var ready: bool

    /** The list the headers describe, and the rounded request behind each live block. */
    ghost var blocks: seq<Block>
    ghost var requested: map<int, int>

    ghost function Abs(): HeapState
      reads this
    {
      HeapState(first, base, end, bytesUsed, bytesFree, allocCount, freeCount, ready, blocks, requested)
    }

    ghost predicate Valid()
      reads this, ram
    {
      Good(Abs(), ram.m)
    }

    constructor (ram: Ram)
      ensures Valid() && !ready && this.ram == ram
    {
      this.ram := ram;
      first, base, end := 0, 0, 0;
      bytesUsed, bytesFree, allocCount, freeCount := 0, 0, 0, 0;
      ready := false;
      blocks, requested := [], map[];
    }

    /** One free block over the whole region. The result is a heap exactly when the region fits: the
        code checks neither the rounding of the base nor the end of the region for wrap-around. */
    method Start(baseHint: word, kernelEnd: word)
      modifies this, ram
      ensures ready && allocCount == 0 && freeCount == 0
      ensures Valid() <==> RegionFits(baseHint, kernelEnd)
      ensures RegionFits(baseHint, kernelEnd) ==>
                && base == HeapBase(baseHint, kernelEnd) && end == base + HEAP_SIZE
                && blocks == [Block(base, HEAP_SIZE - HEADER, false)]
      ensures SameOutside(old(ram.m), ram.m, base, base + HEADER)
    {
      hide HeapBase, AlignedBase, RegionFits, HeaderAt, Good;
      base := if baseHint > kernelEnd then baseHint else kernelEnd;
      base := AlignedBase(base);
      end := Wrap(base + HEAP_SIZE);

      first := base;
      AlignedBaseExact(if baseHint > kernelEnd then baseHint else kernelEnd);
      PutHeader(ram, first, HEAP_SIZE - HEADER, 0, 0);

      bytesUsed := 0;
      HeaderSize(ram.m, Block(base, HEAP_SIZE - HEADER, false), 0);
      bytesFree := Load(ram.m, first + 4);
      allocCount := 0;
      freeCount := 0;
      ready := true;

      blocks, requested := [Block(base, HEAP_SIZE - HEADER, false)], map[];
      StartOutcome(Abs(), ram.m, baseHint, kernelEnd);
    }

    /** First fit: the lowest free block that can hold the rounded request, split when more than
        32 bytes would be left over; 0 when there is no such block or the heap is not up. */
    method Alloc(size: word) returns (p: word)
      requires Valid()
      modifies this, ram
      ensures Valid() && ready == old(ready) && base == old(base) && end == old(end) && first == old(first)
      ensures p == 0 <==> !ready || forall i :: 0 <= i < |old(blocks)| ==> !Fits(old(blocks)[i], Round(size))
      ensures p == 0 ==> unchanged(this) && unchanged(ram)
      ensures p != 0 ==> exists k :: Placed(old(blocks), blocks, Round(size), p, k)
      ensures p != 0 ==> requested == old(requested)[p - HEADER := Round(size)]
      ensures p != 0 ==> allocCount == Wrap(old(allocCount) + 1) && freeCount == old(freeCount)
      ensures ready ==> PayloadsKept(old(ram.m), ram.m, Live(old(blocks)))
      ensures ready ==> SameOutside(old(ram.m), ram.m, base, end)
    {
      hide Granule, Round, Tiled, Coalesced, Chain, Grained, Carve, Live, SumUsed, SumFree, CountUsed;
      hide PayloadsKept, SameOutside, Slim;
      if !ready { return 0; }
      PayloadsUnchanged(ram.m, Live(blocks), base, end);
      var n := Round(size);
      var b := first;
      ghost var k := 0;
      HeapShape(blocks, base, end);
      while b != 0
        invariant 0 <= k <= |blocks|
        invariant b == if k < |blocks| then blocks[k].addr else 0
        invariant forall i :: 0 <= i < k ==> !Fits(blocks[i], n)
        decreases |blocks| - k
        modifies {}
      {
        WalkStep(ram.m, blocks, k);
        if Load(ram.m, b + 8) != 0 || Load(ram.m, b + 4) < n {
          b := Load(ram.m, b + 12);
          k := k + 1;
        } else {
          assert FirstFit(blocks, n, k);
          break;
        }
      }
      if b == 0 { return 0; }
      ghost var before := blocks;
      Take(b, n, k);
      assert Placed(before, blocks, n, b + HEADER, k);
      return b + HEADER;
    }

    /** Cuts a free tail off block k when the leftover can host a header and more than 16 bytes. */
    method SplitIfSlack(b: word, n: word, ghost k: int)
      requires Tiled(blocks, base, end) && Chain(ram.m, blocks, 0) && end < U32
      requires 0 <= k < |blocks| && blocks[k].addr == b && Fits(blocks[k], n)
      requires blocks[k].size + HEADER < U32 && 0 <= n && Aligned(b) && Aligned(n)
      requires |Carved(blocks[k], n)| == 2 ==> HEADER <= bytesFree
      modifies this`bytesFree, ram
      ensures bytesFree == old(bytesFree) - (if |Carved(blocks[k], n)| == 2 then HEADER else 0)
      ensures var c := Carved(blocks[k], n);
              && HeaderAt(ram.m, c[0].(used := false), if |c| == 2 then c[1].addr else NextOf(blocks, k, 0))
              && (|c| == 2 ==> HeaderAt(ram.m, c[1], NextOf(blocks, k, 0)))
      ensures SameOutside(old(ram.m), ram.m, b, blocks[k].End())
    {
      hide Tiled, Chain;
      TiledIsOrdered(blocks, base, end);
      WalkStep(ram.m, blocks, k);
      var leftover := Load(ram.m, b + 4) - n;
      if leftover > HEADER + 16 {
        var tail := b + HEADER + n;
        PutHeader(ram, tail, leftover - HEADER, 0, Load(ram.m, b + 12));
        ram.Store(b + 4, n);
        ram.Store(b + 12, tail);
        bytesFree := bytesFree - HEADER;
      }
    }

    method MarkUsed(b: word, n: word, ghost k: int)
      requires Tiled(blocks, base, end) && Chain(ram.m, blocks, 0) && end < U32
      requires 0 <= k < |blocks| && blocks[k].addr == b && Fits(blocks[k], n)
      requires 0 <= base <= b && blocks[k].End() <= end && 0 <= n && Aligned(b) && Aligned(n)
      requires |Carved(blocks[k], n)| == 2 ==> HEADER <= bytesFree
      modifies this`bytesFree, ram
      ensures bytesFree == old(bytesFree) - (if |Carved(blocks[k], n)| == 2 then HEADER else 0)
      ensures Load(ram.m, b + 4) == Carved(blocks[k], n)[0].size
      ensures Chain(ram.m, Carve(blocks, k, n), 0)
      ensures PayloadsKept(old(ram.m), ram.m, Live(blocks)) && SameOutside(old(ram.m), ram.m, base, end)
    {
      hide Tiled, Chain, Carve, Live, PayloadsKept;
      ghost var m0 := ram.m;
      SplitIfSlack(b, n, k);
      ram.Store(b + 8, 1);
      CarvedChain(m0, ram.m, blocks, base, end, k, n);
    }

    /** The rest of `Alloc` once block k, headed at b, is chosen. */
    method Take(b: word, n: word, ghost k: int)
      requires Valid() && ready && Granule(n)
      requires 0 <= k < |blocks| && blocks[k].addr == b && Fits(blocks[k], n)
      modifies this, ram
      ensures Valid() && ready && base == old(base) && end == old(end) && first == old(first)
      ensures blocks == Carve(old(blocks), k, n)
      ensures requested == old(requested)[b := n]
      ensures allocCount == Wrap(old(allocCount) + 1) && freeCount == old(freeCount)
      ensures PayloadsKept(old(ram.m), ram.m, Live(old(blocks)))
      ensures SameOutside(old(ram.m), ram.m, base, end)
    {
      hide Granule, Tiled, Coalesced, Chain, Grained, Carve, Live, SumUsed, SumFree, CountUsed, PayloadsKept;
      hide SameOutside;
      CarveFacts(ram.m, blocks, base, end, k, n);
      CarveSlim(blocks, base, end, k, n, requested);
      BlocksAligned(blocks, base, end);
      GranuleAligned(n);

      MarkUsed(b, n, k);
      bytesUsed := bytesUsed + Load(ram.m, b + 4);
      bytesFree := bytesFree - Load(ram.m, b + 4);
      allocCount := Wrap(allocCount + 1);

      blocks := Carve(blocks, k, n);
      requested := requested[b := n];
    }

    /** Releases the block of payload p and merges it with free neighbours. A null pointer, a bad
        pointer (no magic in front of it) and a block already released change nothing. */
    method Free(p: word)
      requires Valid()
      requires p == 0 || !ready || FreeArgument(ram.m, blocks, Wrap(p - HEADER))
      modifies this, ram
      ensures Valid() && ready == old(ready) && base == old(base) && end == old(end) && first == old(first)
      ensures requested == old(requested)
      ensures !ready || p == 0 ==> unchanged(this) && unchanged(ram)
      ensures ready && p != 0 ==> blocks == FreeOne(old(blocks), Wrap(p - HEADER))
      ensures ready && p != 0 && !LiveAt(old(blocks), Wrap(p - HEADER)) ==> unchanged(this) && unchanged(ram)
      ensures ready && p != 0 && LiveAt(old(blocks), Wrap(p - HEADER)) ==>
                && freeCount == Wrap(old(freeCount) + 1) && allocCount == old(allocCount)
                && Parked(ram.m, blocks, Wrap(p - HEADER))
      ensures ready ==> forall h :: Parked(old(ram.m), old(blocks), h) ==> Parked(ram.m, blocks, h)
      ensures ready ==> PayloadsKept(old(ram.m), ram.m, Live(blocks)) && SameOutside(old(ram.m), ram.m, base, end)
    {
      hide Granule, Tiled, Coalesced, Chain, Grained, Live, SumUsed, SumFree, CountUsed;
      hide PayloadsKept, SameOutside, Slim, Parked;
      PayloadsUnchanged(ram.m, Live(blocks), base, end);
      if !ready || p == 0 { return; }
      var b: int := Wrap(p - HEADER);
      LiveHeader(ram.m, blocks, base, end, b);
      if Peek(ram.m, b) != HEAP_MAGIC {
        return;
      }
      if Peek(ram.m, Wrap(b + 8)) == 0 {
        return;
      }
      ReleaseBlock(b, IndexOf(blocks, b));
    }

    /** The rest of `Free` once p is known to be the payload of live block k, headed at b. */
    method ReleaseBlock(b: word, ghost k: int)
      requires Valid() && ready
      requires 0 <= k < |blocks| && blocks[k].used && blocks[k].addr == b
      modifies this, ram
      ensures Valid() && ready && base == old(base) && end == old(end) && first == old(first)
      ensures blocks == Release(old(blocks), k) && requested == old(requested)
      ensures freeCount == Wrap(old(freeCount) + 1) && allocCount == old(allocCount)
      ensures Parked(ram.m, blocks, b)
      ensures forall h :: Parked(old(ram.m), old(blocks), h) ==> Parked(ram.m, blocks, h)
      ensures PayloadsKept(old(ram.m), ram.m, Live(blocks)) && SameOutside(old(ram.m), ram.m, base, end)
    {
      hide Granule, Tiled, Coalesced, Chain, Grained, Live, SumUsed, SumFree, CountUsed;
      hide PayloadsKept, SameOutside, Slim, Parked, FreeFootprint, Release;
      ReleaseFacts(ram.m, blocks, base, end, k, requested);
      BlocksAligned(blocks, base, end);
      bytesUsed := bytesUsed - Load(ram.m, b + 4);
      bytesFree := bytesFree + Load(ram.m, b + 4);
      freeCount := Wrap(freeCount + 1);
      ghost var m0 := ram.m;
      Coalesce(b, k);
      ReleaseMemoryFacts(m0, ram.m, blocks, base, end, k);
      blocks := Release(blocks, k);
    }

    /** Clears `used`, then merges forward, then backward after a walk from `first`. */
    method Coalesce(b: word, ghost k: int)
      requires Tiled(blocks, base, end) && Chain(ram.m, blocks, 0) && 0 < first == base && end < U32
      requires 0 <= k < |blocks| && blocks[k].used && blocks[k].addr == b
      requires Aligned(b) && (k > 0 ==> Aligned(blocks[k - 1].addr))
      requires bytesFree + HEADER * (|blocks| - |Release(blocks, k)|) < U32
      modifies this`bytesFree, ram
      ensures bytesFree == old(bytesFree) + HEADER * (|blocks| - |Release(blocks, k)|)
      ensures Chain(ram.m, Release(blocks, k), 0)
      ensures FreeFootprint(old(ram.m), ram.m, b, blocks[RunStart(blocks, k)].addr)
      ensures Load(ram.m, b + 8) == 0
    {
      hide Tiled, Chain, Release, Fuse;
      ghost var f, r := Fuse(blocks, k, RunLast(blocks, k)), Release(blocks, k);
      FuseTwice(blocks, k);
      FuseLengths(blocks, k);
      FuseTiled(blocks, base, end, k, RunLast(blocks, k));
      SpanInside(blocks, base, end, k);
      MergeForward(b, k);
      var prev := Predecessor(b, f, k);
      MergeBackward(b, prev, f, k);
    }

    /** `b->used = 0`, and a free successor is absorbed. */
    method MergeForward(b: word, ghost k: int)
      requires Tiled(blocks, base, end) && Chain(ram.m, blocks, 0) && 0 < base && end < U32
      requires 0 <= k < |blocks| && blocks[k].used && blocks[k].addr == b && Aligned(b)
      requires bytesFree + HEADER < U32 || !FreeAt(blocks, k + 1)
      modifies this`bytesFree, ram
      ensures bytesFree == old(bytesFree) + if FreeAt(blocks, k + 1) then HEADER else 0
      ensures Chain(ram.m, Fuse(blocks, k, RunLast(blocks, k)), 0)
      ensures FreeFootprint(old(ram.m), ram.m, b, b) && Load(ram.m, b + 8) == 0
    {
      hide Tiled, Chain, Fuse;
      ghost var j, m0 := RunLast(blocks, k), ram.m;
      RunFacts(ram.m, blocks, base, end, k);
      ram.Store(b + 8, 0);
      var next := Load(ram.m, b + 12);
      if next != 0 && Load(ram.m, next + 8) == 0 {
        ram.Store(b + 4, Load(ram.m, b + 4) + HEADER + Load(ram.m, next + 4));
        ram.Store(b + 12, Load(ram.m, next + 12));
        bytesFree := bytesFree + HEADER;
      }
      FuseChain(m0, ram.m, blocks, base, end, k, j);
    }

    /** The header whose `next` is b, found by walking from `first`; 0 when b is the first. */
    method Predecessor(b: word, ghost f: seq<Block>, ghost k: int) returns (prev: word)
      requires Tiled(f, base, end) && Chain(ram.m, f, 0) && 0 < first == base
      requires 0 <= k < |f| && f[k].addr == b
      ensures prev == if k > 0 then f[k - 1].addr else 0
    {
      HeapWalk(f, base, end, k);
      hide Tiled, Chain;
      prev := 0;
      var cur := first;
      ghost var i := 0;
      while cur != 0 && cur != b
        invariant 0 <= i <= k && cur == f[i].addr
        invariant prev == if i > 0 then f[i - 1].addr else 0
        decreases k - i
      {
        WalkStep(ram.m, f, i);
        prev := cur;
        cur := Load(ram.m, cur + 12);
        i := i + 1;
      }
    }

    /** A free predecessor absorbs block k. */
    method MergeBackward(b: word, prev: word, ghost f: seq<Block>, ghost k: int)
      requires Tiled(f, base, end) && Chain(ram.m, f, 0) && 0 < base && end < U32
      requires 0 <= k < |f| && !f[k].used && f[k].addr == b
      requires prev == (if k > 0 then f[k - 1].addr else 0) && Aligned(prev)
      requires bytesFree + HEADER < U32 || !FreeAt(f, k - 1)
      modifies this`bytesFree, ram
      ensures bytesFree == old(bytesFree) + if FreeAt(f, k - 1) then HEADER else 0
      ensures Chain(ram.m, if FreeAt(f, k - 1) then Fuse(f, k - 1, k) else f, 0)
      ensures forall x {:trigger Load(ram.m, x)} ::
                (FreeAt(f, k - 1) && (x == prev + 4 || x == prev + 12)) || Load(ram.m, x) == Load(old(ram.m), x)
    {
      hide Tiled, Chain, Fuse;
      ghost var m0 := ram.m;
      PairFacts(ram.m, f, base, end, k);
      if prev != 0 && Load(ram.m, prev + 8) == 0 {
        ram.Store(prev + 4, Load(ram.m, prev + 4) + HEADER + Load(ram.m, b + 4));
        ram.Store(prev + 12, Load(ram.m, b + 12));
        bytesFree := bytesFree + HEADER;
        FuseChain(m0, ram.m, f, base, end, k - 1, k);
      }
    }
  }

  lemma FuseLengths(bs: seq<Block>, k: int)
    requires 0 <= k < |bs| && bs[k].used
    ensures |bs| - |Release(bs, k)| == (if FreeAt(bs, k + 1) then 1 else 0) + (if FreeAt(bs, k - 1) then 1 else 0)
    ensures var f := Fuse(bs, k, RunLast(bs, k)); FreeAt(f, k - 1) <==> FreeAt(bs, k - 1)
    ensures var f := Fuse(bs, k, RunLast(bs, k)); k > 0 ==> f[k - 1] == bs[k - 1]
  {
  }

  lemma SpanInside(bs: seq<Block>, lo: int, hi: int, k: int)
    requires Tiled(bs, lo, hi) && 0 <= k < |bs|
    ensures k > 0 ==> bs[k - 1].End() == bs[k].addr && 0 <= bs[k - 1].size
  {
    assert k > 0 ==> bs[k - 1].End() == bs[k].addr;
  }

  /** The headers `MergeForward` reads. */
  lemma RunFacts(m: Mem, bs: seq<Block>, lo: int, hi: int, k: int)
    requires Tiled(bs, lo, hi) && Chain(m, bs, 0) && 0 < lo
    requires 0 <= k < |bs| && bs[k].used
    ensures HeaderAt(m, bs[k], NextOf(bs, k, 0))
    ensures k + 1 < |bs| ==> bs[k].End() == bs[k + 1].addr && HeaderAt(m, bs[k + 1], NextOf(bs, k + 1, 0))
    ensures k + 1 < |bs| ==> bs[k + 1].size >= 0 && bs[k + 1].End() <= hi
    ensures bs[k].size >= 0 && lo <= bs[k].addr && bs[k].End() <= hi
  {
    TiledIsOrdered(bs, lo, hi);
    WalkStep(m, bs, k);
    if k + 1 < |bs| {
      assert bs[k].End() == bs[k + 1].addr;
      WalkStep(m, bs, k + 1);
    }
  }

  /** The headers `MergeBackward` reads. */
  lemma PairFacts(m: Mem, f: seq<Block>, lo: int, hi: int, k: int)
    requires Tiled(f, lo, hi) && Chain(m, f, 0) && 0 < lo
    requires 0 <= k < |f|
    ensures HeaderAt(m, f[k], NextOf(f, k, 0)) && f[k].size >= 0 && f[k].End() <= hi
    ensures k > 0 ==> f[k - 1].End() == f[k].addr && HeaderAt(m, f[k - 1], f[k].addr)
    ensures k > 0 ==> f[k - 1].size >= 0 && lo <= f[k - 1].addr
  {
    TiledIsOrdered(f, lo, hi);
    WalkStep(m, f, k);
    if k > 0 {
      assert f[k - 1].End() == f[k].addr;
      WalkStep(m, f, k - 1);
    }
  }

  lemma HeapWalk(f: seq<Block>, lo: int, hi: int, k: int)
    requires Tiled(f, lo, hi) && 0 < lo && 0 <= k < |f|
    ensures f[0].addr == lo
    ensures forall i :: 0 <= i < |f| ==> 0 < f[i].addr
    ensures forall i :: 0 <= i < k ==> f[i].addr != f[k].addr
  {
    TiledIsOrdered(f, lo, hi);
    OnlyHere(f, lo, hi, k);
  }

  lemma HeapShape(bs: seq<Block>, lo: int, hi: int)
    requires WellFormed(bs, lo, hi) && lo < hi
    ensures bs != [] && bs[0].addr == lo
    ensures forall i :: 0 <= i < |bs| ==> lo <= bs[i].addr && bs[i].End() <= hi
  {
    TiledIsOrdered(bs, lo, hi);
  }

  lemma PayloadsUnchanged(m: Mem, live: set<Block>, lo: int, hi: int)
    ensures PayloadsKept(m, m, live) && SameOutside(m, m, lo, hi)
  {
  }

  /** What `Free` may be given: no magic in front, a header marked free, or a live block. Only a
      forged header, in memory the heap did not mark, is excluded. */
  ghost predicate FreeArgument(m: Mem, bs: seq<Block>, h: int)
    requires 0 <= h < U32
  {
    Peek(m, h) != HEAP_MAGIC || Peek(m, Wrap(h + 8)) == 0 || LiveAt(bs, h)
  }

  lemma LiveHeader(m: Mem, bs: seq<Block>, lo: int, hi: int, h: int)
    requires Tiled(bs, lo, hi) && Grained(bs) && Granule(lo) && Chain(m, bs, 0)
    ensures LiveAt(bs, h) ==> lo <= h && h + HEADER <= hi && Peek(m, h) == HEAP_MAGIC && Peek(m, h + 8) == 1
  {
    if LiveAt(bs, h) {
      TiledIsOrdered(bs, lo, hi);
      BlocksAligned(bs, lo, hi);
      WalkStep(m, bs, IndexOf(bs, h));
    }
  }

  /** Every header stands on a word boundary. */
  lemma BlocksAligned(bs: seq<Block>, lo: int, hi: int)
    requires Tiled(bs, lo, hi) && Grained(bs) && Granule(lo)
    ensures forall i :: 0 <= i < |bs| ==> Aligned(bs[i].addr)
  {
    HeadersAligned(bs, lo, hi);
    hide Aligned, Tiled, Grained;
    forall i | 0 <= i < |bs|
      ensures Aligned(bs[i].addr)
    {
      EightIsAligned(bs[i].addr);
    }
  }

  lemma GranuleAligned(n: int)
    requires Granule(n)
    ensures Aligned(n)
  {
    EightIsAligned(n);
  }

  lemma ReleaseFacts(m: Mem, bs: seq<Block>, lo: int, hi: int, k: int, requested: map<int, int>)
    requires WellFormed(bs, lo, hi) && Grained(bs) && Granule(lo) && Chain(m, bs, 0) && Slim(bs, requested)
    requires 0 <= k < |bs| && bs[k].used
    ensures var r := Release(bs, k);
            && WellFormed(r, lo, hi) && Grained(r) && Slim(r, requested)
            && Load(m, bs[k].addr + 4) == bs[k].size
            && lo <= bs[k].addr && bs[k].End() <= hi
            && SumUsed(r) == SumUsed(bs) - bs[k].size && SumUsed(r) >= 0
            && SumFree(r) == SumFree(bs) + bs[k].size + HEADER * (|bs| - |r|) && |r| <= |bs|
            && SumFree(r) <= hi - lo
            && CountUsed(r) == CountUsed(bs) - 1 && 0 <= CountUsed(r) && HEADER * CountUsed(bs) <= hi - lo
  {
    TiledIsOrdered(bs, lo, hi);
    WalkStep(m, bs, k);
    ReleaseSums(bs, lo, hi, k);
    ReleaseWellFormed(bs, lo, hi, k);
    ReleaseGrained(bs, lo, hi, k);
    ReleaseLive(bs, lo, hi, k);
    BytesConserved(bs, lo, hi);
    BytesConserved(Release(bs, k), lo, hi);
  }

  lemma ReleaseMemoryFacts(m: Mem, n: Mem, bs: seq<Block>, lo: int, hi: int, k: int)
    requires Tiled(bs, lo, hi) && Chain(m, bs, 0) && 0 <= k < |bs| && bs[k].used
    requires FreeFootprint(m, n, bs[k].addr, bs[RunStart(bs, k)].addr)
    requires Load(n, bs[k].addr + 8) == 0 && Aligned(bs[k].addr)
    ensures Parked(n, Release(bs, k), bs[k].addr)
    ensures forall h :: Parked(m, bs, h) ==> Parked(n, Release(bs, k), h)
    ensures PayloadsKept(m, n, Live(Release(bs, k))) && SameOutside(m, n, lo, hi)
  {
    WalkStep(m, bs, k);
    ReleasedIsParked(m, n, bs, lo, hi, k);
    forall h | Parked(m, bs, h)
      ensures Parked(n, Release(bs, k), h)
    {
      ParkedStays(m, n, bs, lo, hi, k, h);
    }
    ReleaseLive(bs, lo, hi, k);
    FootprintInside(m, n, bs, lo, hi, k);
  }

  /** What `Take` needs to know about the list it is about to produce. */
  lemma CarveFacts(m: Mem, bs: seq<Block>, lo: int, hi: int, k: int, n: int)
    requires WellFormed(bs, lo, hi) && Grained(bs) && Chain(m, bs, 0)
    requires 0 <= k < |bs| && Fits(bs[k], n) && Granule(n)
    ensures var r := Carve(bs, k, n); var c := Carved(bs[k], n);
            && WellFormed(r, lo, hi) && Grained(r)
            && lo <= bs[k].addr && bs[k].End() <= hi
            && SumUsed(r) == SumUsed(bs) + c[0].size
            && SumFree(r) == SumFree(bs) - c[0].size - (if |c| == 2 then HEADER else 0)
            && SumFree(r) >= 0 && SumUsed(bs) >= 0 && SumUsed(r) <= hi - lo
            && CountUsed(r) == CountUsed(bs) + 1 && 0 <= CountUsed(bs) && HEADER * CountUsed(r) <= hi - lo
  {
    TiledIsOrdered(bs, lo, hi);
    CarveSums(bs, k, n);
    CarveWellFormed(bs, lo, hi, k, n);
    CarveGrained(bs, k, n);
    BytesConserved(bs, lo, hi);
    BytesConserved(Carve(bs, k, n), lo, hi);
  }

  lemma CarveSlim(bs: seq<Block>, lo: int, hi: int, k: int, n: int, requested: map<int, int>)
    requires Tiled(bs, lo, hi) && Slim(bs, requested)
    requires 0 <= k < |bs| && Fits(bs[k], n)
    ensures Slim(Carve(bs, k, n), requested[bs[k].addr := n])
  {
    CarveLive(bs, lo, hi, k, n);
  }

  /** p is the payload of the first fit k for n bytes, and `after` is `before` with k carved. */
  ghost predicate Placed(before: seq<Block>, after: seq<Block>, n: int, p: int, k: int) {
    FirstFit(before, n, k) && p == before[k].Payload() && after == Carve(before, k, n)
  }

  /** The four field writes that make a block header at b. */
  method PutHeader(ram: Ram, b: word, size: word, used: word, next: word)
    requires used < 2 && Aligned(b)
    modifies ram
    ensures HeaderAt(ram.m, Block(b, size, used == 1), next)
    ensures SameOutside(old(ram.m), ram.m, b, b + HEADER)
  {
    ram.Store(b, HEAP_MAGIC);
    ram.Store(b + 4, size);
    ram.Store(b + 8, used);
    ram.Store(b + 12, next);
  }

  /** Where the heap should go: the first page boundary at or after both the hint and the kernel end. */
  function HeapBase(baseHint: word, kernelEnd: word): int {
    UpPage(if baseHint > kernelEnd then baseHint else kernelEnd)
  }

  /** `if (base & 0xFFF) base = (base + 0xFFF) & ~0xFFF` in 32-bit arithmetic. */
  function AlignedBase(x: word): word
  {
    if x % 4096 != 0 then Wrap(x + 0xFFF) / 4096 * 4096 else x
  }

  lemma UpPageFacts(x: word)
    ensures x <= UpPage(x) <= U32 && (x % 4096 == 0 ==> UpPage(x) == x)
    ensures x + 0xFFF < U32 ==> UpPage(x) < U32
    ensures x + 0xFFF >= U32 && x % 4096 != 0 ==> UpPage(x) == U32
  {
    var q := (x + 0xFFF) / 4096;
    assert UpPage(x) == q * 4096;
    assert q <= 1_048_576;
    if x + 0xFFF < U32 {
      assert q < 1_048_576;
    } else if x % 4096 != 0 {
      assert q == 1_048_576;
    }
  }

  lemma PageMultiple(x: int)
    requires x % 4096 == 0 && 0 <= x
    ensures Granule(x) && Aligned(x)
  {
    assert x == 8 * (512 * (x / 4096));
    TimesEight(512 * (x / 4096));
    EightIsAligned(x);
  }

  lemma TimesEight(q: int)
    ensures 8 * q % 8 == 0
  {
  }

  /** The 32-bit rounding is the page boundary above x, or 0 when that boundary is 2^32. */
  lemma AlignedBaseExact(x: word)
    ensures AlignedBase(x) == if UpPage(x) < U32 then UpPage(x) else 0
    ensures UpPage(x) <= U32 && x <= UpPage(x) && AlignedBase(x) + 4096 <= U32
    ensures AlignedBase(x) % 4096 == 0 && Granule(AlignedBase(x)) && Aligned(AlignedBase(x))
  {
    UpPageFacts(x);
    hide Granule, Aligned;
    if x % 4096 != 0 {
      if x + 0xFFF < U32 {
        assert AlignedBase(x) == UpPage(x);
      } else {
        assert Wrap(x + 0xFFF) / 4096 == 0;
      }
    }
    assert AlignedBase(x) % 4096 == 0;
    PageMultiple(AlignedBase(x));
  }

  /** The region lies above address 0 and ends below 2^32. */
  predicate RegionFits(baseHint: word, kernelEnd: word) {
    0 < HeapBase(baseHint, kernelEnd) && HeapBase(baseHint, kernelEnd) + HEAP_SIZE < U32
  }

  /** A region that fits is page-aligned and clear of both the hint and the kernel. */
  lemma HeapBaseFacts(baseHint: word, kernelEnd: word)
    requires RegionFits(baseHint, kernelEnd)
    ensures HeapBase(baseHint, kernelEnd) % 4096 == 0
    ensures baseHint <= HeapBase(baseHint, kernelEnd) && kernelEnd <= HeapBase(baseHint, kernelEnd)
    ensures HeapBase(baseHint, kernelEnd) < baseHint + 4096 || HeapBase(baseHint, kernelEnd) < kernelEnd + 4096
  {
    AlignedBaseExact(if baseHint > kernelEnd then baseHint else kernelEnd);
  }

  /** A hint in the last page of the address space puts the heap at address 0, over whatever is there. */
  lemma LastPageWraps(baseHint: word, kernelEnd: word)
    requires baseHint > 0xFFFF_F000 && kernelEnd <= baseHint
    ensures AlignedBase(baseHint) == 0 && !RegionFits(baseHint, kernelEnd)
  {
    AlignedBaseExact(baseHint);
    UpPageFacts(baseHint);
  }

  lemma HeaderSize(m: Mem, b: Block, next: int)
    requires HeaderAt(m, b, next)
    ensures Load(m, b.addr + 4) == b.size
  {
  }

  /** The state `Start` leaves is a heap exactly when the region fits. */
  lemma StartOutcome(h: HeapState, m: Mem, baseHint: word, kernelEnd: word)
    requires h.ready && h.first == h.base && h.end == Wrap(h.base + HEAP_SIZE)
    requires h.base == AlignedBase(if baseHint > kernelEnd then baseHint else kernelEnd)
    requires h.bytesUsed == 0 && h.bytesFree == HEAP_SIZE - HEADER && h.allocCount == 0 && h.freeCount == 0
    requires h.blocks == [Block(h.base, HEAP_SIZE - HEADER, false)] && h.requested == map[]
    requires HeaderAt(m, h.blocks[0], 0)
    ensures Good(h, m) <==> RegionFits(baseHint, kernelEnd)
    ensures RegionFits(baseHint, kernelEnd) ==> h.base == HeapBase(baseHint, kernelEnd) && h.end == h.base + HEAP_SIZE
  {
    AlignedBaseExact(if baseHint > kernelEnd then baseHint else kernelEnd);
    SumsOne(h.blocks[0]);
    OneBlockHeap(m, h.base);
    hide HeaderAt, UpPage, AlignedBase, Granule, Tiled, Coalesced, Chain, Grained, Live, SumUsed, SumFree, CountUsed;
  }

  lemma OneBlockHeap(m: Mem, base: int)
    requires HeaderAt(m, Block(base, HEAP_SIZE - HEADER, false), 0)
    ensures var bs := [Block(base, HEAP_SIZE - HEADER, false)];
            WellFormed(bs, base, base + HEAP_SIZE) && Chain(m, bs, 0) && Live(bs) == {} && Grained(bs)
  {
    var bs := [Block(base, HEAP_SIZE - HEADER, false)];
    assert bs[..0] == [];
    assert LinkAt(m, bs, 0, 0);
  }

  /** No live block is more than 32 bytes larger than the rounded request it serves. */
  ghost predicate Slim(bs: seq<Block>, requested: map<int, int>) {
    forall b :: b in Live(bs) ==> b.addr in requested && requested[b.addr] <= b.size <= requested[b.addr] + 32
  }
}
