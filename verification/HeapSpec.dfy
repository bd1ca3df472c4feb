/**
 The heap as a value: the list of blocks that the in-memory headers describe,
 what one `Alloc` and one `Free` do to that list, and the laws of the list.
 */
module HeapSpec {
  import opened Words

  const HEAP_MAGIC: word := 0x5481B07E
  const HEAP_SIZE: int := 0x0040_0000
  const HEADER: int := 16

  /** One block: header address, payload bytes, and whether it is in use. */
  datatype Block = Block(addr: int, size: int, used: bool) {
    function End(): int { addr + HEADER + size }
    function Payload(): int { addr + HEADER }
  }

  /** `Round`: at least 8, then up to a multiple of 8, in 32-bit arithmetic. */
  function Round(n: word): (r: word)
    ensures Granule(r)
  {
    var n := if n < 8 then 8 else n;
    Wrap(n + 7) / 8 * 8
  }

  /** A request keeps its size exactly when it is at most 0xFFFFFFF8; above that the addition
      wraps and a zero-byte block is asked for instead. */
  lemma RoundCoversRequest(n: word)
    ensures n <= Round(n) <==> n <= 0xFFFF_FFF8
    ensures n <= 0xFFFF_FFF8 ==> 8 <= Round(n) < n + 8 || Round(n) == 8
    ensures n > 0xFFFF_FFF8 ==> Round(n) == 0
  {
    var k := if n < 8 then 8 else n;
    if n <= 0xFFFF_FFF8 {
      assert Wrap(k + 7) == k + 7;
    } else {
      assert Wrap(k + 7) == k + 7 - U32;
    }
  }

  // ---------------------------------------------------------------------------------------------
  // Well-formed block lists

  /** The blocks cover [lo, hi) with no gap and no overlap. The empty list covers an empty range. */
  ghost predicate Tiled(bs: seq<Block>, lo: int, hi: int) {
    && (if bs == [] then lo == hi else bs[0].addr == lo && bs[|bs| - 1].End() == hi)
    && (forall i :: 0 <= i < |bs| ==> bs[i].size >= 0)
    && (forall i, j :: 0 <= i && j == i + 1 && j < |bs| ==> bs[i].End() == bs[j].addr)
  }

  /** No two neighbours are both free. */
  ghost predicate Coalesced(bs: seq<Block>) {
    forall i, j :: 0 <= i && j == i + 1 && j < |bs| ==> bs[i].used || bs[j].used
  }

  ghost predicate WellFormed(bs: seq<Block>, lo: int, hi: int) {
    Tiled(bs, lo, hi) && Coalesced(bs)
  }

  /** All sizes are multiples of 8. */
  ghost predicate Grained(bs: seq<Block>) {
    bs == [] || (bs[|bs| - 1].size % 8 == 0 && Grained(bs[..|bs| - 1]))
  }

  lemma GrainedOne(b: Block)
    ensures Grained([b]) <==> b.size % 8 == 0
  {
    assert [b][..0] == [];
  }

  lemma {:induction false} GrainedJoin(a: seq<Block>, b: seq<Block>)
    ensures Grained(a + b) <==> Grained(a) && Grained(b)
  {
    if b == [] {
      assert a + b == a;
    } else {
      GrainedJoin(a, b[..|b| - 1]);
      assert (a + b)[..|a + b| - 1] == a + b[..|b| - 1];
    }
  }

  /** So every header and every payload is 8-aligned when the region is. */
  lemma {:induction false} HeadersAligned(bs: seq<Block>, lo: int, hi: int)
    requires Tiled(bs, lo, hi) && Grained(bs) && lo % 8 == 0
    ensures hi % 8 == 0
    ensures forall i :: 0 <= i < |bs| ==> bs[i].addr % 8 == 0 && bs[i].size % 8 == 0
  {
    if bs != [] {
      var n := |bs| - 1;
      TiledSplit(bs, lo, hi, n);
      HeadersAligned(bs[..n], lo, bs[n].addr);
      assert forall i :: 0 <= i < n ==> bs[..n][i] == bs[i];
    }
  }

  ghost predicate Ordered(bs: seq<Block>) {
    forall i, j :: 0 <= i < j < |bs| ==> bs[i].End() <= bs[j].addr
  }

  lemma TiledJoin(a: seq<Block>, b: seq<Block>, lo: int, mid: int, hi: int)
    requires Tiled(a, lo, mid) && Tiled(b, mid, hi)
    ensures Tiled(a + b, lo, hi)
  {
    var r := a + b;
    assert forall i :: 0 <= i < |a| ==> r[i] == a[i];
    assert forall i :: |a| <= i < |r| ==> r[i] == b[i - |a|];
  }

  lemma TiledSplit(bs: seq<Block>, lo: int, hi: int, k: int)
    requires Tiled(bs, lo, hi) && 0 <= k < |bs|
    ensures Tiled(bs[..k], lo, bs[k].addr)
    ensures Tiled(bs[k..], bs[k].addr, hi)
    ensures Tiled(bs[k + 1..], bs[k].End(), hi)
  {
    if k > 0 { assert bs[k - 1].End() == bs[k].addr; }
    if k + 1 < |bs| { assert bs[k].End() == bs[k + 1].addr; }
  }

  lemma CoalescedJoin(a: seq<Block>, b: seq<Block>)
    requires Coalesced(a) && Coalesced(b)
    requires a == [] || b == [] || a[|a| - 1].used || b[0].used
    ensures Coalesced(a + b)
  {
    var r := a + b;
    assert forall i :: 0 <= i < |a| ==> r[i] == a[i];
    assert forall i :: |a| <= i < |r| ==> r[i] == b[i - |a|];
  }

  lemma {:induction false} TiledIsOrdered(bs: seq<Block>, lo: int, hi: int)
    requires Tiled(bs, lo, hi)
    ensures Ordered(bs) && lo <= hi
    ensures forall i :: 0 <= i < |bs| ==> lo <= bs[i].addr && bs[i].End() <= hi
  {
    if bs != [] {
      var n := |bs| - 1;
      TiledSplit(bs, lo, hi, n);
      TiledIsOrdered(bs[..n], lo, bs[n].addr);
      assert forall i :: 0 <= i < n ==> bs[..n][i] == bs[i];
    }
  }

  /** The live allocations: address and size of every block in use. */
  ghost function Live(bs: seq<Block>): set<Block> {
    set b | b in bs && b.used
  }

  // ---------------------------------------------------------------------------------------------
  // Accounting

  function SumUsed(bs: seq<Block>): int {
    if bs == [] then 0 else SumUsed(bs[..|bs| - 1]) + (if bs[|bs| - 1].used then bs[|bs| - 1].size else 0)
  }

  function SumFree(bs: seq<Block>): int {
    if bs == [] then 0 else SumFree(bs[..|bs| - 1]) + (if bs[|bs| - 1].used then 0 else bs[|bs| - 1].size)
  }

  function CountUsed(bs: seq<Block>): int {
    if bs == [] then 0 else CountUsed(bs[..|bs| - 1]) + (if bs[|bs| - 1].used then 1 else 0)
  }

  lemma {:induction false} SumsAppend(a: seq<Block>, b: seq<Block>)
    ensures SumUsed(a + b) == SumUsed(a) + SumUsed(b)
    ensures SumFree(a + b) == SumFree(a) + SumFree(b)
    ensures CountUsed(a + b) == CountUsed(a) + CountUsed(b)
  {
    if b == [] {
      assert a + b == a;
    } else {
      var t := b[..|b| - 1];
      SumsAppend(a, t);
      assert (a + b)[..|a + b| - 1] == a + t;
    }
  }

  lemma SumsOne(b: Block)
    ensures SumUsed([b]) == if b.used then b.size else 0
    ensures SumFree([b]) == if b.used then 0 else b.size
    ensures CountUsed([b]) == if b.used then 1 else 0
  {
    assert [b][..0] == [];
  }

  /** Every byte of the region is a used payload, a free payload or a header. */
  lemma {:induction false} BytesConserved(bs: seq<Block>, lo: int, hi: int)
    requires Tiled(bs, lo, hi)
    ensures SumUsed(bs) + SumFree(bs) + HEADER * |bs| == hi - lo
    ensures SumUsed(bs) >= 0 && SumFree(bs) >= 0 && 0 <= CountUsed(bs) <= |bs|
  {
    if bs != [] {
      var n := |bs| - 1;
      TiledSplit(bs, lo, hi, n);
      BytesConserved(bs[..n], lo, bs[n].addr);
    }
  }

  // ---------------------------------------------------------------------------------------------
  // Alloc

  ghost predicate Fits(b: Block, n: int) {
    !b.used && n <= b.size
  }

  /** k is the lowest block that can hold n bytes. */
  ghost predicate FirstFit(bs: seq<Block>, n: int, k: int) {
    && 0 <= k < |bs|
    && Fits(bs[k], n)
    && forall i :: 0 <= i < k ==> !Fits(bs[i], n)
  }

  /** What `Alloc` turns block k into for a rounded request n: itself in use, or a block of
      exactly n bytes followed by a free one when more than 32 bytes are left over. */
  function Carved(b: Block, n: int): (r: seq<Block>)
    ensures |r| > 0
  {
    if b.size - n > HEADER + 16 then
      [Block(b.addr, n, true), Block(b.addr + HEADER + n, b.size - n - HEADER, false)]
    else
      [b.(used := true)]
  }

  function Carve(bs: seq<Block>, k: int, n: int): (r: seq<Block>)
    requires 0 <= k < |bs|
  {
    bs[..k] + Carved(bs[k], n) + bs[k + 1..]
  }

  lemma CarveWellFormed(bs: seq<Block>, lo: int, hi: int, k: int, n: int)
    requires WellFormed(bs, lo, hi)
    requires 0 <= k < |bs| && Fits(bs[k], n) && 0 <= n
    ensures WellFormed(Carve(bs, k, n), lo, hi)
  {
    var c := Carved(bs[k], n);
    TiledSplit(bs, lo, hi, k);
    assert Tiled(c, bs[k].addr, bs[k].End());
    TiledJoin(bs[..k], c, lo, bs[k].addr, bs[k].End());
    TiledJoin(bs[..k] + c, bs[k + 1..], lo, bs[k].End(), hi);
    CoalescedJoin(bs[..k], c);
    CoalescedJoin(bs[..k] + c, bs[k + 1..]);
  }

  lemma CarveLive(bs: seq<Block>, lo: int, hi: int, k: int, n: int)
    requires Tiled(bs, lo, hi)
    requires 0 <= k < |bs| && Fits(bs[k], n)
    ensures Live(Carve(bs, k, n)) == Live(bs) + {Carved(bs[k], n)[0]}
    ensures forall b :: b in Live(bs) ==> b.addr != bs[k].addr
  {
    TiledIsOrdered(bs, lo, hi);
    var r := Carve(bs, k, n);
    var c := Carved(bs[k], n);
    forall b | b in Live(bs)
      ensures b in Live(r) && b.addr != bs[k].addr
    {
      var i :| 0 <= i < |bs| && bs[i] == b;
      assert i < k ==> r[i] == b;
      assert i > k ==> r[i + |c| - 1] == b;
    }
    assert r[k] == c[0];
    assert c[0] in r;
    forall b | b in Live(r)
      ensures b in Live(bs) + {c[0]}
    {
      assert b in bs[..k] || b in c || b in bs[k + 1..];
    }
  }

  lemma CarveSums(bs: seq<Block>, k: int, n: int)
    requires 0 <= k < |bs| && !bs[k].used
    ensures var r := Carve(bs, k, n); var c := Carved(bs[k], n);
            && SumUsed(r) == SumUsed(bs) + c[0].size
            && SumFree(r) == SumFree(bs) - c[0].size - (if |c| == 2 then HEADER else 0)
            && CountUsed(r) == CountUsed(bs) + 1
  {
    var c := Carved(bs[k], n);
    assert bs == bs[..k] + [bs[k]] + bs[k + 1..];
    SumsAppend(bs[..k], [bs[k]]);
    SumsAppend(bs[..k] + [bs[k]], bs[k + 1..]);
    SumsAppend(bs[..k], c);
    SumsAppend(bs[..k] + c, bs[k + 1..]);
    SumsOne(bs[k]);
    SumsOne(c[0]);
    if |c| == 2 {
      SumsOne(c[1]);
      SumsAppend([c[0]], [c[1]]);
      assert c == [c[0]] + [c[1]];
    } else {
      assert c == [c[0]];
    }
  }

  // ---------------------------------------------------------------------------------------------
  // Free

  predicate FreeAt(bs: seq<Block>, i: int) {
    0 <= i < |bs| && !bs[i].used
  }

  /** The first and last block of the free run that releasing block k creates. */
  function RunStart(bs: seq<Block>, k: int): int {
    if FreeAt(bs, k - 1) then k - 1 else k
  }

  function RunLast(bs: seq<Block>, k: int): int {
    if FreeAt(bs, k + 1) then k + 1 else k
  }

  /** Blocks i..j as one free block. */
  function Joined(bs: seq<Block>, i: int, j: int): Block
    requires 0 <= i <= j < |bs|
  {
    Block(bs[i].addr, bs[j].End() - bs[i].addr - HEADER, false)
  }

  /** The list with blocks i..j replaced by one free block. */
  function Fuse(bs: seq<Block>, i: int, j: int): seq<Block>
    requires 0 <= i <= j < |bs|
  {
    bs[..i] + [Joined(bs, i, j)] + bs[j + 1..]
  }

  /** The list after block k is released and merged with its free neighbours. */
  function Release(bs: seq<Block>, k: int): (r: seq<Block>)
    requires 0 <= k < |bs|
  {
    Fuse(bs, RunStart(bs, k), RunLast(bs, k))
  }

  lemma GrainedJoin3(a: seq<Block>, b: seq<Block>, c: seq<Block>)
    ensures Grained(a + b + c) <==> Grained(a) && Grained(b) && Grained(c)
  {
    hide Grained;
    GrainedJoin(a + b, c);
    GrainedJoin(a, b);
  }

  lemma CarvedGrained(b: Block, n: int)
    requires b.size % 8 == 0 && n % 8 == 0
    ensures Grained(Carved(b, n))
  {
    hide Grained;
    var c := Carved(b, n);
    GrainedOne(c[0]);
    if |c| == 2 {
      GrainedOne(c[1]);
      GrainedJoin([c[0]], [c[1]]);
      assert c == [c[0]] + [c[1]];
    } else {
      assert c == [c[0]];
    }
  }

  lemma CarveGrained(bs: seq<Block>, k: int, n: int)
    requires Grained(bs) && 0 <= k < |bs| && Granule(n)
    ensures Grained(Carve(bs, k, n))
  {
    hide Grained;
    assert bs == bs[..k] + [bs[k]] + bs[k + 1..];
    GrainedJoin3(bs[..k], [bs[k]], bs[k + 1..]);
    GrainedOne(bs[k]);
    CarvedGrained(bs[k], n);
    GrainedJoin3(bs[..k], Carved(bs[k], n), bs[k + 1..]);
  }

  lemma JoinedGrained(bs: seq<Block>, lo: int, hi: int, i: int, j: int)
    requires Tiled(bs, lo, hi) && Grained(bs) && lo % 8 == 0 && 0 <= i <= j < |bs|
    ensures Grained([Joined(bs, i, j)])
  {
    hide Grained;
    HeadersAligned(bs, lo, hi);
    GrainedOne(Joined(bs, i, j));
  }

  lemma ReleaseGrained(bs: seq<Block>, lo: int, hi: int, k: int)
    requires Tiled(bs, lo, hi) && Grained(bs) && lo % 8 == 0 && 0 <= k < |bs|
    ensures Grained(Release(bs, k))
  {
    hide Grained;
    var i, j := RunStart(bs, k), RunLast(bs, k);
    assert bs == bs[..i] + bs[i..j + 1] + bs[j + 1..];
    GrainedJoin3(bs[..i], bs[i..j + 1], bs[j + 1..]);
    JoinedGrained(bs, lo, hi, i, j);
    GrainedJoin3(bs[..i], [Joined(bs, i, j)], bs[j + 1..]);
  }

  lemma JoinedFine(bs: seq<Block>, lo: int, hi: int, i: int, j: int)
    requires Tiled(bs, lo, hi) && 0 <= i <= j < |bs|
    ensures Joined(bs, i, j).size >= 0 && Joined(bs, i, j).End() == bs[j].End()
  {
    TiledIsOrdered(bs, lo, hi);
    assert i == j || bs[i].End() <= bs[j].addr;
  }

  lemma FuseTiled(bs: seq<Block>, lo: int, hi: int, i: int, j: int)
    requires Tiled(bs, lo, hi) && 0 <= i <= j < |bs|
    ensures Tiled(Fuse(bs, i, j), lo, hi)
  {
    TiledSplit(bs, lo, hi, i);
    TiledSplit(bs, lo, hi, j);
    JoinedFine(bs, lo, hi, i, j);
    var c := Joined(bs, i, j);
    assert Tiled([c], bs[i].addr, bs[j].End());
    TiledJoin(bs[..i], [c], lo, bs[i].addr, bs[j].End());
    TiledJoin(bs[..i] + [c], bs[j + 1..], lo, bs[j].End(), hi);
  }

  lemma ReleaseWellFormed(bs: seq<Block>, lo: int, hi: int, k: int)
    requires WellFormed(bs, lo, hi) && 0 <= k < |bs| && bs[k].used
    ensures WellFormed(Release(bs, k), lo, hi)
  {
    var i, j := RunStart(bs, k), RunLast(bs, k);
    FuseTiled(bs, lo, hi, i, j);
    assert i > 0 ==> bs[..i][i - 1].used;
    assert j + 1 < |bs| ==> bs[j + 1..][0].used;
    CoalescedJoin(bs[..i], [Joined(bs, i, j)]);
    CoalescedJoin(bs[..i] + [Joined(bs, i, j)], bs[j + 1..]);
  }

  lemma FuseMembers(bs: seq<Block>, i: int, j: int, b: Block)
    requires 0 <= i <= j < |bs| && b.used
    ensures b in Fuse(bs, i, j) <==> b in bs[..i] || b in bs[j + 1..]
  {
  }

  lemma SplitMembers(bs: seq<Block>, i: int, j: int, b: Block)
    requires 0 <= i <= j < |bs|
    ensures b in bs <==> b in bs[..i] || b in bs[i..j + 1] || b in bs[j + 1..]
  {
    assert bs == bs[..i] + bs[i..j + 1] + bs[j + 1..];
  }

  lemma OnlyHere(bs: seq<Block>, lo: int, hi: int, k: int)
    requires Tiled(bs, lo, hi) && 0 <= k < |bs|
    ensures forall i :: 0 <= i < |bs| && i != k ==> bs[i].addr != bs[k].addr
  {
    TiledIsOrdered(bs, lo, hi);
    forall i | 0 <= i < |bs| && i != k
      ensures bs[i].addr != bs[k].addr
    {
    }
  }

  lemma MiddleMember(bs: seq<Block>, i: int, j: int, k: int)
    requires 0 <= k < |bs| && bs[k].used && i == RunStart(bs, k) && j == RunLast(bs, k)
    ensures forall b :: b in bs[i..j + 1] && b.used <==> b == bs[k]
  {
    assert bs[i..j + 1][k - i] == bs[k];
  }

  lemma ReleaseLive(bs: seq<Block>, lo: int, hi: int, k: int)
    requires Tiled(bs, lo, hi) && 0 <= k < |bs| && bs[k].used
    ensures Live(Release(bs, k)) == Live(bs) - {bs[k]}
    ensures forall b :: b in Live(bs) && b.addr == bs[k].addr ==> b == bs[k]
  {
    var i, j := RunStart(bs, k), RunLast(bs, k);
    OnlyHere(bs, lo, hi, k);
    assert bs[k] !in bs[..i] && bs[k] !in bs[j + 1..];
    MiddleMember(bs, i, j, k);
    forall b: Block | b.used
      ensures b in Live(Release(bs, k)) <==> b in Live(bs) - {bs[k]}
    {
      FuseMembers(bs, i, j, b);
      SplitMembers(bs, i, j, b);
    }
  }

  lemma ReleaseSums(bs: seq<Block>, lo: int, hi: int, k: int)
    requires Tiled(bs, lo, hi) && 0 <= k < |bs| && bs[k].used
    ensures var r := Release(bs, k);
            && SumUsed(r) == SumUsed(bs) - bs[k].size
            && SumFree(r) == SumFree(bs) + bs[k].size + HEADER * (|bs| - |r|)
            && CountUsed(r) == CountUsed(bs) - 1
            && |bs| - |r| == (if FreeAt(bs, k + 1) then 1 else 0) + (if FreeAt(bs, k - 1) then 1 else 0)
  {
    var r := Release(bs, k);
    var start, last := RunStart(bs, k), RunLast(bs, k);
    var c := Joined(bs, start, last);
    SumsAppend(bs[..start], [c]);
    SumsAppend(bs[..start] + [c], bs[last + 1..]);
    SumsOne(c);
    SumsSplit3(bs, start, last);
    SumsRange(bs, start, last, k);
    if start < k { assert bs[start].End() == bs[k].addr; }
    if k < last { assert bs[k].End() == bs[last].addr; }
  }

  lemma SumsSplit3(bs: seq<Block>, i: int, j: int)
    requires 0 <= i <= j < |bs|
    ensures SumUsed(bs) == SumUsed(bs[..i]) + SumUsed(bs[i..j + 1]) + SumUsed(bs[j + 1..])
    ensures SumFree(bs) == SumFree(bs[..i]) + SumFree(bs[i..j + 1]) + SumFree(bs[j + 1..])
    ensures CountUsed(bs) == CountUsed(bs[..i]) + CountUsed(bs[i..j + 1]) + CountUsed(bs[j + 1..])
  {
    assert bs == bs[..i] + bs[i..j + 1] + bs[j + 1..];
    SumsAppend(bs[..i], bs[i..j + 1]);
    SumsAppend(bs[..i] + bs[i..j + 1], bs[j + 1..]);
  }

  /** The sums over block k and the free neighbours i..j around it. */
  lemma SumsRange(bs: seq<Block>, i: int, j: int, k: int)
    requires 0 <= i <= k <= j < |bs| && k - 1 <= i && j <= k + 1 && bs[k].used
    requires i < k ==> !bs[i].used
    requires k < j ==> !bs[j].used
    ensures SumUsed(bs[i..j + 1]) == bs[k].size
    ensures SumFree(bs[i..j + 1]) == (if i < k then bs[i].size else 0) + (if k < j then bs[j].size else 0)
    ensures CountUsed(bs[i..j + 1]) == 1
  {
    var a := if i < k then [bs[i]] else [];
    var c := if k < j then [bs[j]] else [];
    assert bs[i..j + 1] == a + [bs[k]] + c;
    SumsAppend(a, [bs[k]]);
    SumsAppend(a + [bs[k]], c);
    SumsOne(bs[i]);
    SumsOne(bs[j]);
    SumsOne(bs[k]);
  }

  // ---------------------------------------------------------------------------------------------
  // The live allocations determine the whole list

  lemma NonEmptyRange(bs: seq<Block>, lo: int, hi: int)
    requires Tiled(bs, lo, hi)
    ensures bs == [] <==> lo == hi
  {
    TiledIsOrdered(bs, lo, hi);
  }

  lemma Tail(bs: seq<Block>, lo: int, hi: int)
    requires WellFormed(bs, lo, hi) && bs != []
    ensures WellFormed(bs[1..], bs[0].End(), hi)
    ensures Live(bs[1..]) == Live(bs) - {bs[0]}
    ensures bs == [bs[0]] + bs[1..]
  {
    TiledSplit(bs, lo, hi, 0);
    OnlyHere(bs, lo, hi, 0);
    assert bs == [bs[0]] + bs[1..];
    assert bs[0] !in bs[1..];
  }

  lemma AtStart(bs: seq<Block>, lo: int, hi: int, b: Block)
    requires Tiled(bs, lo, hi) && b in bs && b.addr == lo
    ensures b == bs[0]
  {
    TiledIsOrdered(bs, lo, hi);
    var i :| 0 <= i < |bs| && bs[i] == b;
    assert bs[0].addr == lo;
  }

  /** Where the first live block begins: the end of the leading free block. */
  lemma LeadingGap(a: seq<Block>, b: seq<Block>, lo: int, hi: int)
    requires WellFormed(a, lo, hi) && WellFormed(b, lo, hi)
    requires Live(a) == Live(b)
    requires a != [] && b != [] && !a[0].used
    ensures !b[0].used && b[0].End() <= a[0].End()
  {
    TiledIsOrdered(b, lo, hi);
    assert b[0].used ==> b[0] in Live(a);
    if b[0] in a { AtStart(a, lo, hi, b[0]); }
    if |a| > 1 {
      assert a[1] in Live(b);
      var j :| 0 <= j < |b| && b[j] == a[1];
      assert j > 0 ==> b[0].End() <= b[j].addr;
    }
  }

  lemma SameFirst(a: seq<Block>, b: seq<Block>, lo: int, hi: int)
    requires WellFormed(a, lo, hi) && WellFormed(b, lo, hi)
    requires Live(a) == Live(b) && a != [] && b != []
    ensures a[0] == b[0]
  {
    if !a[0].used {
      LeadingGap(a, b, lo, hi);
      LeadingGap(b, a, lo, hi);
    } else {
      assert a[0] in Live(b);
      AtStart(b, lo, hi, a[0]);
    }
  }

  /** Two well-formed lists over the same region with the same live allocations are equal. */
  lemma {:induction false} Canonical(a: seq<Block>, b: seq<Block>, lo: int, hi: int)
    requires WellFormed(a, lo, hi) && WellFormed(b, lo, hi)
    requires Live(a) == Live(b)
    ensures a == b
    decreases |a|
  {
    NonEmptyRange(a, lo, hi);
    NonEmptyRange(b, lo, hi);
    if a != [] && b != [] {
      SameFirst(a, b, lo, hi);
      Tail(a, lo, hi);
      Tail(b, lo, hi);
      Canonical(a[1..], b[1..], a[0].End(), hi);
    }
  }

  // ---------------------------------------------------------------------------------------------
  // Allocation undone, frees in any order

  /** Freeing what was just allocated gives back the very list there was before. */
  lemma FreeUndoesAlloc(bs: seq<Block>, lo: int, hi: int, k: int, n: int)
    requires WellFormed(bs, lo, hi)
    requires 0 <= k < |bs| && Fits(bs[k], n) && 0 <= n
    ensures Carve(bs, k, n)[k].used && Release(Carve(bs, k, n), k) == bs
  {
    var r := Carve(bs, k, n);
    assert r[k] == Carved(bs[k], n)[0];
    CarveWellFormed(bs, lo, hi, k, n);
    CarveLive(bs, lo, hi, k, n);
    ReleaseWellFormed(r, lo, hi, k);
    ReleaseLive(r, lo, hi, k);
    assert r[k] !in Live(bs);
    assert Live(Release(r, k)) == Live(bs);
    Canonical(Release(r, k), bs, lo, hi);
  }

  ghost predicate LiveAt(bs: seq<Block>, a: int) {
    exists b :: b in Live(bs) && b.addr == a
  }

  ghost function IndexOf(bs: seq<Block>, a: int): (k: int)
    requires LiveAt(bs, a)
    ensures 0 <= k < |bs| && bs[k].used && bs[k].addr == a
  {
    var b :| b in Live(bs) && b.addr == a;
    var k :| 0 <= k < |bs| && bs[k] == b;
    k
  }

  /** Free of the header address a, as a function of the list. */
  ghost function FreeOne(bs: seq<Block>, a: int): seq<Block> {
    if LiveAt(bs, a) then Release(bs, IndexOf(bs, a)) else bs
  }

  lemma FreeOneLive(bs: seq<Block>, lo: int, hi: int, a: int)
    requires WellFormed(bs, lo, hi)
    ensures WellFormed(FreeOne(bs, a), lo, hi)
    ensures Live(FreeOne(bs, a)) == set b | b in Live(bs) && b.addr != a
  {
    if LiveAt(bs, a) {
      var k := IndexOf(bs, a);
      ReleaseWellFormed(bs, lo, hi, k);
      ReleaseLive(bs, lo, hi, k);
    }
  }

  /** A whole history of frees. */
  ghost function FreeAll(bs: seq<Block>, addrs: seq<int>): seq<Block>
    decreases |addrs|
  {
    if addrs == [] then bs else FreeAll(FreeOne(bs, addrs[0]), addrs[1..])
  }

  lemma {:induction false} FreeAllLive(bs: seq<Block>, lo: int, hi: int, addrs: seq<int>)
    requires WellFormed(bs, lo, hi)
    ensures WellFormed(FreeAll(bs, addrs), lo, hi)
    ensures Live(FreeAll(bs, addrs)) == set b | b in Live(bs) && b.addr !in addrs
    decreases |addrs|
  {
    hide FreeOne, Tiled, Coalesced;
    if addrs != [] {
      FreeOneLive(bs, lo, hi, addrs[0]);
      FreeAllLive(FreeOne(bs, addrs[0]), lo, hi, addrs[1..]);
      assert addrs == [addrs[0]] + addrs[1..];
    }
  }

  /** The order of frees does not matter, nor do repeats: only which addresses were freed. */
  lemma FreeOrderIrrelevant(bs: seq<Block>, lo: int, hi: int, p: seq<int>, q: seq<int>)
    requires WellFormed(bs, lo, hi)
    requires forall a :: a in p <==> a in q
    ensures FreeAll(bs, p) == FreeAll(bs, q)
  {
    FreeAllLive(bs, lo, hi, p);
    FreeAllLive(bs, lo, hi, q);
    Canonical(FreeAll(bs, p), FreeAll(bs, q), lo, hi);
  }

  /** Freeing everything leaves the single block that Start made. */
  lemma FreeEverything(bs: seq<Block>, lo: int, hi: int, addrs: seq<int>)
    requires WellFormed(bs, lo, hi) && bs != []
    requires forall b :: b in Live(bs) ==> b.addr in addrs
    ensures FreeAll(bs, addrs) == [Block(lo, hi - lo - HEADER, false)]
  {
    FreeAllLive(bs, lo, hi, addrs);
    TiledIsOrdered(bs, lo, hi);
    var one := [Block(lo, hi - lo - HEADER, false)];
    assert bs[0].End() <= hi;
    assert Live(one) == {};
    Canonical(FreeAll(bs, addrs), one, lo, hi);
  }
}
