/** How a block list lies in memory as 16-byte headers linked by `next`. */
module HeapMemory {
  import opened Words
  import opened HeapSpec

  /** `block_header_t` at b.addr: magic, size, used, next. */
  ghost predicate HeaderAt(m: Mem, b: Block, next: int) {
    && Load(m, b.addr) == HEAP_MAGIC
    && Load(m, b.addr + 4) == b.size
    && Load(m, b.addr + 8) == (if b.used then 1 else 0)
    && Load(m, b.addr + 12) == next
  }

  function NextOf(bs: seq<Block>, i: int, last: int): int
    requires 0 <= i < |bs|
  {
    if i + 1 < |bs| then bs[i + 1].addr else last
  }

  /** The headers of bs are in memory, linked in order, the last one pointing to `last`. */
  ghost predicate Chain(m: Mem, bs: seq<Block>, last: int) {
    forall i :: 0 <= i < |bs| ==> LinkAt(m, bs, i, last)
  }

  ghost predicate LinkAt(m: Mem, bs: seq<Block>, i: int, last: int)
    requires 0 <= i < |bs|
  {
    HeaderAt(m, bs[i], NextOf(bs, i, last))
  }

  lemma ChainJoin(m: Mem, a: seq<Block>, b: seq<Block>, last: int)
    requires b != [] && Chain(m, a, b[0].addr) && Chain(m, b, last)
    ensures Chain(m, a + b, last)
  {
    forall i | 0 <= i < |a + b|
      ensures LinkAt(m, a + b, i, last)
    {
      if i < |a| {
        assert LinkAt(m, a, i, b[0].addr);
      } else {
        assert LinkAt(m, b, i - |a|, last);
      }
    }
  }

  lemma ChainSplit(m: Mem, bs: seq<Block>, last: int, k: int)
    requires Chain(m, bs, last) && 0 <= k <= |bs|
    ensures Chain(m, bs[..k], if k < |bs| then bs[k].addr else last)
    ensures Chain(m, bs[k..], last)
  {
    var to := if k < |bs| then bs[k].addr else last;
    forall i | 0 <= i < k
      ensures LinkAt(m, bs[..k], i, to)
    {
      assert LinkAt(m, bs, i, last);
    }
    forall i | 0 <= i < |bs| - k
      ensures LinkAt(m, bs[k..], i, last)
    {
      assert LinkAt(m, bs, k + i, last);
    }
  }

  /** A chain survives changes outside the range it tiles. */
  lemma ChainFrame(m: Mem, n: Mem, bs: seq<Block>, lo: int, hi: int, last: int)
    requires Tiled(bs, lo, hi) && Chain(m, bs, last) && SameOn(m, n, lo, hi)
    ensures Chain(n, bs, last)
  {
    TiledIsOrdered(bs, lo, hi);
    forall i | 0 <= i < |bs|
      ensures LinkAt(n, bs, i, last)
    {
      assert LinkAt(m, bs, i, last);
    }
  }

  lemma ChainBefore(m: Mem, n: Mem, bs: seq<Block>, lo: int, hi: int, i: int, to: int)
    requires Tiled(bs, lo, hi) && Chain(m, bs, 0) && 0 <= i < |bs|
    requires SameOutside(m, n, bs[i].addr, to)
    ensures Chain(n, bs[..i], bs[i].addr)
  {
    ChainSplit(m, bs, 0, i);
    TiledSplit(bs, lo, hi, i);
    ChainFrame(m, n, bs[..i], lo, bs[i].addr, bs[i].addr);
  }

  lemma ChainAfter(m: Mem, n: Mem, bs: seq<Block>, lo: int, hi: int, from: int, j: int)
    requires Tiled(bs, lo, hi) && Chain(m, bs, 0) && 0 <= j < |bs|
    requires SameOutside(m, n, from, bs[j].End())
    ensures Chain(n, bs[j + 1..], 0)
  {
    ChainSplit(m, bs, 0, j + 1);
    TiledSplit(bs, lo, hi, j);
    ChainFrame(m, n, bs[j + 1..], bs[j].End(), hi, 0);
  }

  /** Blocks i..j give way to the chain c over the same bytes; the rest of memory is as before. */
  lemma ChainSplice(m: Mem, n: Mem, bs: seq<Block>, lo: int, hi: int, i: int, j: int, c: seq<Block>)
    requires Tiled(bs, lo, hi) && Chain(m, bs, 0) && 0 <= i <= j < |bs|
    requires SameOutside(m, n, bs[i].addr, bs[j].End())
    requires c != [] && c[0].addr == bs[i].addr && Chain(n, c, NextOf(bs, j, 0))
    ensures Chain(n, bs[..i] + c + bs[j + 1..], 0)
  {
    ChainBefore(m, n, bs, lo, hi, i, bs[j].End());
    var head := bs[..i] + c;
    ChainJoin(n, bs[..i], c, NextOf(bs, j, 0));
    if j + 1 < |bs| {
      ChainAfter(m, n, bs, lo, hi, bs[i].addr, j);
      ChainJoin(n, head, bs[j + 1..], 0);
    } else {
      assert head + bs[j + 1..] == head;
    }
  }

  /** The payload of every block in `live` is word for word the same in m and n. */
  ghost predicate PayloadsKept(m: Mem, n: Mem, live: set<Block>) {
    forall b :: b in live ==> SameOn(m, n, b.Payload(), b.End())
  }

  /** Live payloads survive changes confined to the bytes of blocks i..j, of which none but
      possibly block k is live. */
  lemma PayloadsOutside(m: Mem, n: Mem, bs: seq<Block>, lo: int, hi: int, i: int, j: int, k: int)
    requires Tiled(bs, lo, hi) && 0 <= i <= k <= j < |bs|
    requires forall h :: i <= h <= j && h != k ==> !bs[h].used
    requires SameOutside(m, n, bs[i].addr, bs[j].End())
    ensures PayloadsKept(m, n, Live(bs) - {bs[k]})
    ensures SameOutside(m, n, lo, hi)
  {
    TiledIsOrdered(bs, lo, hi);
    forall b | b in Live(bs) - {bs[k]}
      ensures SameOn(m, n, b.Payload(), b.End())
    {
      var h :| 0 <= h < |bs| && bs[h] == b;
      assert h < i ==> bs[h].End() <= bs[i].addr;
      assert h > j ==> bs[j].End() <= bs[h].addr;
    }
    forall a | !(lo <= a < hi)
      ensures Load(m, a) == Load(n, a)
    {
      assert lo <= bs[i].addr && bs[j].End() <= hi;
    }
  }

  /** h is a header inside free memory that still reads as a released block: the current header
      of a free block, or one that a merge has left behind in a free payload. */
  ghost predicate Parked(m: Mem, bs: seq<Block>, h: int) {
    && Aligned(h)
    && Load(m, h) == HEAP_MAGIC
    && Load(m, h + 8) == 0
    && exists i :: 0 <= i < |bs| && Sheltered(bs[i], h)
  }

  ghost predicate Sheltered(b: Block, h: int) {
    !b.used && (h == b.addr || (b.addr + HEADER <= h && h + HEADER <= b.End()))
  }

  lemma ParkedIsNotLive(m: Mem, bs: seq<Block>, lo: int, hi: int, h: int)
    requires Tiled(bs, lo, hi) && Parked(m, bs, h)
    ensures !LiveAt(bs, h)
  {
    TiledIsOrdered(bs, lo, hi);
    var i :| 0 <= i < |bs| && Sheltered(bs[i], h);
    forall b | b in Live(bs)
      ensures b.addr != h
    {
      var j :| 0 <= j < |bs| && bs[j] == b;
    }
  }

  lemma LiveIndex(bs: seq<Block>, lo: int, hi: int, k: int)
    requires Tiled(bs, lo, hi) && 0 <= k < |bs| && bs[k].used
    ensures LiveAt(bs, bs[k].addr) && IndexOf(bs, bs[k].addr) == k
  {
    assert bs[k] in Live(bs);
    OnlyHere(bs, lo, hi, k);
  }

  // ---------------------------------------------------------------------------------------------
  // What one Alloc does to the headers

  lemma WalkStep(m: Mem, bs: seq<Block>, k: int)
    requires Chain(m, bs, 0) && 0 <= k < |bs|
    ensures Load(m, bs[k].addr) == HEAP_MAGIC
    ensures Load(m, bs[k].addr + 4) == bs[k].size
    ensures Load(m, bs[k].addr + 8) == if bs[k].used then 1 else 0
    ensures Load(m, bs[k].addr + 12) == if k + 1 < |bs| then bs[k + 1].addr else 0
  {
    assert LinkAt(m, bs, k, 0);
  }

  lemma CarvedChain(m: Mem, n: Mem, bs: seq<Block>, lo: int, hi: int, k: int, size: int)
    requires Tiled(bs, lo, hi) && Chain(m, bs, 0)
    requires 0 <= k < |bs| && Fits(bs[k], size) && 0 <= size
    requires SameOutside(m, n, bs[k].addr, bs[k].End())
    requires var c := Carved(bs[k], size);
             && HeaderAt(n, c[0], if |c| == 2 then c[1].addr else NextOf(bs, k, 0))
             && (|c| == 2 ==> HeaderAt(n, c[1], NextOf(bs, k, 0)))
    ensures Chain(n, Carve(bs, k, size), 0)
    ensures PayloadsKept(m, n, Live(bs)) && SameOutside(m, n, lo, hi)
  {
    var c := Carved(bs[k], size);
    assert LinkAt(n, c, 0, NextOf(bs, k, 0));
    assert |c| == 2 ==> LinkAt(n, c, 1, NextOf(bs, k, 0));
    ChainSplice(m, n, bs, lo, hi, k, k, c);
    PayloadsOutside(m, n, bs, lo, hi, k, k, k);
    assert Live(bs) - {bs[k]} == Live(bs);
  }

  // ---------------------------------------------------------------------------------------------
  // What one Free does to the headers

  /** Merging block k with a free successor, then the result with a free predecessor, is Release. */
  lemma FuseTwice(bs: seq<Block>, k: int)
    requires 0 <= k < |bs| && bs[k].used
    ensures var f := Fuse(bs, k, RunLast(bs, k));
            && |f| > k && f[k] == Joined(bs, k, RunLast(bs, k)) && f[..k] == bs[..k]
            && Release(bs, k) == if FreeAt(bs, k - 1) then Fuse(f, k - 1, k) else f
  {
    var f := Fuse(bs, k, RunLast(bs, k));
    assert f[k] == Joined(bs, k, RunLast(bs, k));
    assert f[..k] == bs[..k];
    assert f[k + 1..] == bs[RunLast(bs, k) + 1..];
    if FreeAt(bs, k - 1) {
      assert f[k - 1] == bs[k - 1];
      assert f[..k - 1] == bs[..k - 1];
    }
  }

  /** Blocks i..j become one free block whose header is in place. */
  lemma FuseChain(m: Mem, n: Mem, bs: seq<Block>, lo: int, hi: int, i: int, j: int)
    requires Tiled(bs, lo, hi) && Chain(m, bs, 0) && 0 <= i <= j < |bs|
    requires SameOutside(m, n, bs[i].addr, bs[j].End())
    requires HeaderAt(n, Joined(bs, i, j), NextOf(bs, j, 0))
    ensures Chain(n, Fuse(bs, i, j), 0)
  {
    var c := [Joined(bs, i, j)];
    assert LinkAt(n, c, 0, NextOf(bs, j, 0));
    ChainSplice(m, n, bs, lo, hi, i, j, c);
  }

  /** All that releasing the block headed at b may write: the fields of its header after the
      magic, and size and next of the header s it is merged into. */
  ghost predicate FreeFootprint(m: Mem, n: Mem, b: int, s: int) {
    forall x {:trigger Load(n, x)} ::
      x != b + 4 && x != b + 8 && x != b + 12 && x != s + 4 && x != s + 12 ==> Load(n, x) == Load(m, x)
  }

  lemma FootprintInside(m: Mem, n: Mem, bs: seq<Block>, lo: int, hi: int, k: int)
    requires Tiled(bs, lo, hi) && 0 <= k < |bs| && bs[k].used
    requires FreeFootprint(m, n, bs[k].addr, bs[RunStart(bs, k)].addr)
    ensures PayloadsKept(m, n, Live(bs) - {bs[k]}) && SameOutside(m, n, lo, hi)
  {
    var i, j := RunStart(bs, k), RunLast(bs, k);
    TiledIsOrdered(bs, lo, hi);
    assert SameOutside(m, n, bs[i].addr, bs[j].End()) by {
      assert bs[i].addr <= bs[k].addr && bs[k].End() <= bs[j].End();
    }
    PayloadsOutside(m, n, bs, lo, hi, i, j, k);
  }

  /** Sheltering survives a release: free memory only grows. */
  lemma ShelterGrows(bs: seq<Block>, lo: int, hi: int, k: int, i: int, h: int)
    requires Tiled(bs, lo, hi) && 0 <= k < |bs| && bs[k].used
    requires 0 <= i < |bs| && Sheltered(bs[i], h)
    ensures exists j :: 0 <= j < |Release(bs, k)| && Sheltered(Release(bs, k)[j], h)
  {
    TiledIsOrdered(bs, lo, hi);
    var r, s, l := Release(bs, k), RunStart(bs, k), RunLast(bs, k);
    assert r[s] == Joined(bs, s, l);
    if i < s {
      assert r[i] == bs[i];
    } else if i > l {
      assert r[i - l + s] == bs[i];
    } else {
      assert i < k ==> i == s;
      assert i > k ==> bs[k].End() <= bs[i].addr && i == l;
      assert s < k ==> bs[s].End() <= bs[k].addr;
      assert l > k ==> bs[k].End() <= bs[l].addr;
      assert Sheltered(r[s], h);
    }
  }

  /** Every parked header stays parked when another block is released... */
  lemma ParkedStays(m: Mem, n: Mem, bs: seq<Block>, lo: int, hi: int, k: int, h: int)
    requires Tiled(bs, lo, hi) && 0 <= k < |bs| && bs[k].used
    requires FreeFootprint(m, n, bs[k].addr, bs[RunStart(bs, k)].addr)
    requires Parked(m, bs, h)
    ensures Parked(n, Release(bs, k), h)
  {
    TiledIsOrdered(bs, lo, hi);
    var i :| 0 <= i < |bs| && Sheltered(bs[i], h);
    ShelterGrows(bs, lo, hi, k, i, h);
    var s := RunStart(bs, k);
    assert i < k ==> bs[i].End() <= bs[k].addr;
    assert i > k ==> bs[k].End() <= bs[i].addr;
    assert i < s ==> bs[i].End() <= bs[s].addr;
    assert i > s ==> bs[s].End() <= bs[i].addr;
  }

  /** ... and the header of the released block becomes one. */
  lemma ReleasedIsParked(m: Mem, n: Mem, bs: seq<Block>, lo: int, hi: int, k: int)
    requires Tiled(bs, lo, hi) && 0 <= k < |bs| && bs[k].used
    requires FreeFootprint(m, n, bs[k].addr, bs[RunStart(bs, k)].addr)
    requires Load(m, bs[k].addr) == HEAP_MAGIC && Load(n, bs[k].addr + 8) == 0 && Aligned(bs[k].addr)
    ensures Parked(n, Release(bs, k), bs[k].addr)
  {
    TiledIsOrdered(bs, lo, hi);
    var r, s, l := Release(bs, k), RunStart(bs, k), RunLast(bs, k);
    assert r[s] == Joined(bs, s, l);
    assert s < k ==> bs[s].End() <= bs[k].addr;
    assert l > k ==> bs[k].End() <= bs[l].addr;
    assert Sheltered(r[s], bs[k].addr);
  }

  // ---------------------------------------------------------------------------------------------
  // Owners writing to their own memory

  /** A word that begins inside a live payload ends inside it. */
  lemma LastWord(bs: seq<Block>, lo: int, hi: int, b: Block, a: int)
    requires Tiled(bs, lo, hi) && Grained(bs) && Granule(lo)
    requires b in Live(bs) && b.Payload() <= a < b.End() && Aligned(a)
    ensures a + 4 <= b.End() && Aligned(a + 4)
  {
    HeadersAligned(bs, lo, hi);
    var k :| 0 <= k < |bs| && bs[k] == b;
    hide Tiled, Grained, Aligned;
    EndAligned(b);
    NextWord(a, b.End());
  }

  lemma EndAligned(b: Block)
    requires b.addr % 8 == 0 && b.size % 8 == 0
    ensures Aligned(b.End())
  {
    assert b.End() == 4 * (2 * (b.addr / 8) + 4 + 2 * (b.size / 8));
    TimesFour(2 * (b.addr / 8) + 4 + 2 * (b.size / 8));
  }

  lemma NextWord(a: int, end: int)
    requires Aligned(a) && Aligned(end) && a < end
    ensures a + 4 <= end && Aligned(a + 4)
  {
  }

  /** Word stores confined to one live payload disturb no header, current or parked. */
  lemma PayloadWritesKeepHeap(m: Mem, n: Mem, bs: seq<Block>, lo: int, hi: int, b: Block, from: int, to: int)
    requires Tiled(bs, lo, hi) && Chain(m, bs, 0)
    requires b in Live(bs) && b.Payload() <= from && to <= b.End() && Aligned(from) && Aligned(to)
    requires forall x {:trigger Load(n, x)} :: lo <= x < hi && !(from <= x < to) ==> Load(m, x) == Load(n, x)
    ensures Chain(n, bs, 0)
    ensures forall h :: Parked(m, bs, h) ==> Parked(n, bs, h)
  {
    TiledIsOrdered(bs, lo, hi);
    var k :| 0 <= k < |bs| && bs[k] == b;
    forall i | 0 <= i < |bs|
      ensures LinkAt(n, bs, i, 0)
    {
      WalkStep(m, bs, i);
      assert i < k ==> bs[i].End() <= bs[k].addr;
      assert i > k ==> bs[k].End() <= bs[i].addr;
    }
    forall h | Parked(m, bs, h)
      ensures Parked(n, bs, h)
    {
      var i :| 0 <= i < |bs| && Sheltered(bs[i], h);
      assert i < k ==> bs[i].End() <= bs[k].addr;
      assert i > k ==> bs[k].End() <= bs[i].addr;
    }
  }
}
