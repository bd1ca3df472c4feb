/** The page bitmap as a value, its byte arithmetic, and the ranges the kernel rounds. */
module PmmSpec {
  import opened Words

  const PAGE: int := 4096
  const MAX_PAGES: int := 1_048_576
  const BITMAP_BYTES: int := 131_072

  // ---------------------------------------------------------------------------------------------
  // One byte of the bitmap

  /** Bit k of a byte. */
  predicate Bit(b: bv8, k: int)
    requires 0 <= k < 8
  {
    b & (1 << k) != 0
  }

  /** `(b >> k) & 1`. */
  lemma ShiftedBit(b: bv8, k: int)
    requires 0 <= k < 8
    ensures (b >> k) & 1 == 1 <==> Bit(b, k)
  {
  }

  lemma SetBit(b: bv8, k: int, j: int)
    requires 0 <= k < 8 && 0 <= j < 8
    ensures Bit(b | (1 << k), j) <==> j == k || Bit(b, j)
  {
  }

  lemma ClearBit(b: bv8, k: int, j: int)
    requires 0 <= k < 8 && 0 <= j < 8
    ensures Bit(b & !(1 << k), j) <==> j != k && Bit(b, j)
  {
  }

  /** A byte is 0xFF exactly when all its bits are set. */
  lemma FullByte(b: bv8)
    ensures b == 0xFF <==> forall k :: 0 <= k < 8 ==> Bit(b, k)
  {
    if forall k :: 0 <= k < 8 ==> Bit(b, k) {
      assert Bit(b, 0) && Bit(b, 1) && Bit(b, 2) && Bit(b, 3);
      assert Bit(b, 4) && Bit(b, 5) && Bit(b, 6) && Bit(b, 7);
    }
  }

  // ---------------------------------------------------------------------------------------------
  // The bitmap as a sequence: true is in use

  ghost function CountFree(used: seq<bool>): int {
    if used == [] then 0 else CountFree(used[..|used| - 1]) + (if used[|used| - 1] then 0 else 1)
  }

  lemma {:induction false} CountFreeBounds(used: seq<bool>)
    ensures 0 <= CountFree(used) <= |used|
    ensures CountFree(used) == 0 <==> forall p :: 0 <= p < |used| ==> used[p]
  {
    if used != [] {
      CountFreeBounds(used[..|used| - 1]);
    }
  }

  lemma {:induction false} CountFreeUpdate(used: seq<bool>, p: int, b: bool)
    requires 0 <= p < |used|
    ensures CountFree(used[p := b]) == CountFree(used) + (if used[p] then 1 else 0) - (if b then 1 else 0)
  {
    var n := |used| - 1;
    if p == n {
      assert used[p := b][..n] == used[..n];
    } else {
      CountFreeUpdate(used[..n], p, b);
      assert used[p := b][..n] == used[..n][p := b];
    }
  }

  /** The lowest free page at or after p; |used| if none. This is the bit-by-bit scan. */
  ghost function LowestFree(used: seq<bool>, p: int): (r: int)
    requires 0 <= p <= |used|
    ensures p <= r <= |used|
    ensures r < |used| ==> !used[r]
    ensures forall q :: p <= q < r ==> used[q]
    decreases |used| - p
  {
    if p == |used| || !used[p] then p else LowestFree(used, p + 1)
  }

  // ---------------------------------------------------------------------------------------------
  // Rounding ranges to pages, in 64 bits with a cast to 32

  function Low32(x: int): int {
    x % U32
  }

  /** The pages `MarkRangeFree` clears: inwards from [addr, addr + size). */
  function InnerFirst(addr: int): int {
    (addr + PAGE - 1) % U64 / PAGE
  }

  function InnerLast(addr: int, size: int): int {
    (addr + size) % U64 / PAGE
  }

  /** The pages `MarkRangeUsed` sets: outwards. */
  function OuterFirst(addr: int): int {
    addr / PAGE
  }

  function OuterLast(addr: int, size: int): int {
    (addr + size + PAGE - 1) % U64 / PAGE
  }

  function Capped(x: int): int {
    if Low32(x) > MAX_PAGES then MAX_PAGES else Low32(x)
  }

  /** Page p lies wholly inside [addr, addr + size). */
  predicate PageInside(p: int, addr: int, size: int) {
    addr <= p * PAGE && (p + 1) * PAGE <= addr + size
  }

  /** Page p has a byte in common with [addr, addr + size). */
  predicate PageTouches(p: int, addr: int, size: int) {
    0 < size && p * PAGE < addr + size && addr < (p + 1) * PAGE
  }

  /** The loop of `MarkRangeFree` visits page p. */
  predicate Frees(p: int, addr: int, size: int) {
    InnerFirst(addr) < InnerLast(addr, size) && Low32(InnerFirst(addr)) <= p < Capped(InnerLast(addr, size))
  }

  predicate Reserves(p: int, addr: int, size: int) {
    OuterFirst(addr) < OuterLast(addr, size) && Low32(OuterFirst(addr)) <= p < Capped(OuterLast(addr, size))
  }

  /** The page numbers of the range survive the cast to 32 bits, or the loop is the same anyway:
      it is capped at MAX_PAGES either way, or empty either way. */
  predicate CastHarmless(f: int, l: int) {
    || l <= f
    || l < U32
    || (if f < MAX_PAGES then Low32(l) >= MAX_PAGES else Low32(f) >= Capped(l))
  }

  /** When `MarkRangeFree` does as it says. If rounding the start up wraps around, the loop begins at
      page 0 and must be empty. If only the end wraps around, nothing is freed, which is right only
      of a range past the last page. Otherwise it depends on the cast. */
  predicate FreeHarmless(addr: int, size: int) {
    var f, l := InnerFirst(addr), InnerLast(addr, size);
    if addr + PAGE - 1 >= U64 then Low32(l) == 0
    else if addr + size >= U64 then f >= MAX_PAGES
    else CastHarmless(f, l)
  }

  /** Pages f <= p < l, or the first few of them: two loops do the same below MAX_PAGES exactly when
      both are empty there or both have the same bounds. */
  lemma SameInterval(f: int, l: int, g: int, h: int)
    requires 0 <= f && 0 <= g
    ensures (forall p :: 0 <= p < MAX_PAGES ==> (Between(f, p, l) <==> Between(g, p, h))) <==>
            var l', h' := if l > MAX_PAGES then MAX_PAGES else l, if h > MAX_PAGES then MAX_PAGES else h;
            if f < l' then g == f && h' == l' else h' <= g
  {
    var l', h' := if l > MAX_PAGES then MAX_PAGES else l, if h > MAX_PAGES then MAX_PAGES else h;
    if f < l' && (g != f || h' != l') {
      assert Between(f, f, l) && Between(f, l' - 1, l);
      assert g < h' ==> Between(g, g, h) && Between(g, h' - 1, h);
    } else if l' <= f && g < h' {
      assert Between(g, g, h);
    }
  }

  predicate Between(lo: int, p: int, hi: int) {
    lo <= p < hi
  }

  /** The pages wholly inside a range, without any wrap-around. */
  lemma InsideIs(p: int, addr: int, size: int)
    ensures PageInside(p, addr, size) <==> Between((addr + PAGE - 1) / PAGE, p, (addr + size) / PAGE)
  {
  }

  /** The bounds of the loop, and what wrapping around does to them. */
  lemma InnerBounds(addr: int, size: int)
    requires 0 <= addr < U64 && 0 <= size < U64
    ensures var f, l, f', l' := InnerFirst(addr), InnerLast(addr, size), (addr + PAGE - 1) / PAGE, (addr + size) / PAGE;
            && 0 <= f <= f' && 0 <= l <= l'
            && (if addr + PAGE - 1 >= U64 then f == 0 && f' >= U32 else f == f')
            && (if addr + size >= U64 then l' == l + U64 / PAGE && l' >= U32 else l == l')
            && (addr + PAGE - 1 < U64 <= addr + size ==> l < f)
  {
  }

  /** `MarkRangeFree` frees exactly the pages that lie wholly inside its range if and only if the
      range is harmless, for every 64-bit address and size. */
  lemma FreesInsideExactly(addr: int, size: int)
    requires 0 <= addr < U64 && 0 <= size < U64
    ensures (forall p :: 0 <= p < MAX_PAGES ==> (Frees(p, addr, size) <==> PageInside(p, addr, size)))
            <==> FreeHarmless(addr, size)
  {
    var f, l, f', l' := InnerFirst(addr), InnerLast(addr, size), (addr + PAGE - 1) / PAGE, (addr + size) / PAGE;
    InnerBounds(addr, size);
    var g, h := if f < l then Low32(f) else 0, if f < l then Capped(l) else 0;
    forall p
      ensures PageInside(p, addr, size) <==> Between(f', p, l')
      ensures Frees(p, addr, size) <==> Between(g, p, h)
    {
      InsideIs(p, addr, size);
    }
    hide Frees, PageInside, InnerFirst, InnerLast;
    SameInterval(f', l', g, h);
    hide Between;
    assert f < U32 ==> Low32(f) == f;
    assert l < U32 ==> Low32(l) == l;
  }

  /** In particular for every range that ends below 2^44. */
  lemma FreesInside(p: int, addr: int, size: int)
    requires 0 <= addr && 0 <= size && addr + size < 0x1000_0000_0000 && 0 <= p < MAX_PAGES
    ensures Frees(p, addr, size) <==> PageInside(p, addr, size)
  {
    assert (addr + size) % U64 == addr + size;
    assert FreeHarmless(addr, size);
    FreesInsideExactly(addr, size);
  }

  /** When `MarkRangeUsed` does as it says: an empty range may visit no page (one inside a page
      does), and a sum that wraps around must leave a loop that covers all pages, or none. */
  predicate ReserveHarmless(addr: int, size: int) {
    var f, l := OuterFirst(addr), OuterLast(addr, size);
    if size == 0 then l <= f || Low32(f) >= Capped(l)
    else if addr + size + PAGE - 1 < U64 then CastHarmless(f, l)
    else if f < MAX_PAGES then f < l && Low32(l) >= MAX_PAGES
    else l <= f || Low32(f) >= Capped(l)
  }

  lemma TouchesIs(p: int, addr: int, size: int)
    requires 0 < size
    ensures PageTouches(p, addr, size) <==> Between(addr / PAGE, p, (addr + size + PAGE - 1) / PAGE)
  {
  }

  lemma OuterBounds(addr: int, size: int)
    requires 0 <= addr < U64 && 0 <= size < U64
    ensures var f, l, l' := OuterFirst(addr), OuterLast(addr, size), (addr + size + PAGE - 1) / PAGE;
            && 0 <= f == addr / PAGE && 0 <= l <= l'
            && (if addr + size + PAGE - 1 >= U64 then l' >= U32 else l == l')
            && (0 < size ==> f < l')
  {
  }

  /** `MarkRangeUsed` reserves exactly the pages its range touches if and only if the range is
      harmless, for every 64-bit address and size. */
  lemma ReservesTouchedExactly(addr: int, size: int)
    requires 0 <= addr < U64 && 0 <= size < U64
    ensures (forall p :: 0 <= p < MAX_PAGES ==> (Reserves(p, addr, size) <==> PageTouches(p, addr, size)))
            <==> ReserveHarmless(addr, size)
  {
    var f, l, l' := OuterFirst(addr), OuterLast(addr, size), (addr + size + PAGE - 1) / PAGE;
    OuterBounds(addr, size);
    var g, h := if f < l then Low32(f) else 0, if f < l then Capped(l) else 0;
    var e := if size == 0 then f else l';
    forall p
      ensures PageTouches(p, addr, size) <==> Between(f, p, e)
      ensures Reserves(p, addr, size) <==> Between(g, p, h)
    {
      if size > 0 { TouchesIs(p, addr, size); }
    }
    hide Reserves, PageTouches, OuterFirst, OuterLast;
    SameInterval(f, e, g, h);
    hide Between;
    assert f < U32 ==> Low32(f) == f;
    assert l < U32 ==> Low32(l) == l;
  }

  lemma ReservesTouched(p: int, addr: int, size: int)
    requires 0 <= addr && 0 < size && addr + size < 0x1000_0000_0000 - PAGE && 0 <= p < MAX_PAGES
    ensures Reserves(p, addr, size) <==> PageTouches(p, addr, size)
  {
    assert (addr + size + PAGE - 1) % U64 == addr + size + PAGE - 1;
    assert ReserveHarmless(addr, size);
    ReservesTouchedExactly(addr, size);
  }

  /** Above it the cast loses the high bits: one page of memory at 2^44 frees page 0. */
  lemma CastFreesTheWrongPage()
    ensures Frees(0, 0x1000_0000_0000, PAGE) && !PageInside(0, 0x1000_0000_0000, PAGE)
  {
  }

  /** Rounding up the last byte of the address space wraps to page 0, which is then freed. */
  lemma StartWraps()
    ensures Frees(0, U64 - 1, 0x1_0001) && !PageInside(0, U64 - 1, 0x1_0001)
  {
  }

  /** A range that ends at 2^64 frees nothing at all. */
  lemma EndWraps(p: int)
    requires 1 <= p < MAX_PAGES
    ensures !Frees(p, PAGE, U64 - PAGE) && PageInside(p, PAGE, U64 - PAGE)
  {
  }

  /** An empty range inside a page reserves that page. */
  lemma EmptyRangeReserves()
    ensures Reserves(0, 1, 0) && !PageTouches(0, 1, 0)
  {
  }
}
