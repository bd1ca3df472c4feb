/** The physical memory manager: one bit per 4 KiB page, and four counters. */
module PmmModule {
  import opened Words
  import opened PmmSpec
  import opened Tags

  class Pmm {
    const ram: Ram
    const bitmap: array<bv8>
    var totalPages: word
    var freePages: word
    var usedPages: word
    var reservedPages: word
    var ready: bool

    /** The bitmap as a sequence of pages, true in use. */
    ghost var used: seq<bool>
    /** The pages AllocPage has handed out and not got back. */
    ghost var held: set<int>
    /** Pages below this number are never handed out. */
    ghost var floor: int
    /** The pages that were free when the manager came up. */
    ghost var pool: set<int>
    /** Pages in use that nobody holds: the kernel's and the heap's. */
    ghost var kernelPages: int

    ghost predicate Mirrored()
      reads this, bitmap
    {
      && bitmap.Length == BITMAP_BYTES && |used| == MAX_PAGES
      && forall b, k :: 0 <= b < BITMAP_BYTES && 0 <= k < 8 ==> used[8 * b + k] == Bit(bitmap[b], k)
    }

    /** The bitmap and the count of free pages agree: this survives any call whatever. */
    ghost predicate Tallied()
      reads `totalPages, `freePages, `used
    {
      totalPages == MAX_PAGES && freePages == CountFree(used)
    }

    ghost predicate Counted()
      reads `totalPages, `freePages, `usedPages, `reservedPages, `used
    {
      Tallied() && freePages + usedPages + reservedPages == MAX_PAGES
    }

    ghost predicate Valid()
      reads this, bitmap
    {
      && Mirrored() && Counted()
      && 1 <= floor <= MAX_PAGES
      && (forall p :: 0 <= p < floor ==> used[p])
      && (forall p :: p in held ==> floor <= p < MAX_PAGES && used[p])
      && 0 <= kernelPages && usedPages == kernelPages + |held|
      && (forall p :: 0 <= p < MAX_PAGES ==> (p in pool <==> !used[p] || p in held))
    }

    constructor (ram: Ram)
      ensures this.ram == ram && bitmap.Length == BITMAP_BYTES && fresh(bitmap) && !ready && held == {}
    {
      this.ram := ram;
      bitmap := new bv8[BITMAP_BYTES](_ => 0);
      totalPages, freePages, usedPages, reservedPages, ready := 0, 0, 0, 0, false;
      used, held, floor, pool, kernelPages := [], {}, 0, {}, 0;
    }

    /** `(bitmap[page >> 3] >> (page & 7)) & 1u`. */
    method IsUsed(page: int) returns (r: bool)
      requires Mirrored() && 0 <= page < MAX_PAGES
      ensures r == used[page]
    {
      var k := page % 8;
      ShiftedBit(bitmap[page / 8], k);
      r := (bitmap[page / 8] >> k) & 1 == 1;
      assert page == 8 * (page / 8) + k;
    }

    /** Stores a byte that differs from the one there in at most bit k. */
    method PutByte(b: int, k: int, v: bv8, inUse: bool)
      requires Mirrored() && 0 <= b < BITMAP_BYTES && 0 <= k < 8
      requires forall j :: 0 <= j < 8 ==> Bit(v, j) == if j == k then inUse else Bit(bitmap[b], j)
      modifies bitmap, `used
      ensures Mirrored() && used == old(used)[8 * b + k := inUse]
    {
      hide Bit;
      bitmap[b] := v;
      used := used[8 * b + k := inUse];
    }

    method SetUsed(page: int)
      requires Mirrored() && 0 <= page < MAX_PAGES
      modifies bitmap, `used
      ensures Mirrored() && used == old(used)[page := true]
    {
      hide Bit;
      var b, k := page / 8, page % 8;
      var v := bitmap[b] | (1 << k);
      SetBits(bitmap[b], k, v);
      PutByte(b, k, v, true);
    }

    method SetFree(page: int)
      requires Mirrored() && 0 <= page < MAX_PAGES
      modifies bitmap, `used
      ensures Mirrored() && used == old(used)[page := false]
    {
      hide Bit;
      var b, k := page / 8, page % 8;
      var v := bitmap[b] & !(1 << k);
      ClearBits(bitmap[b], k, v);
      PutByte(b, k, v, false);
    }

    /** Inward-rounded: only pages that lie wholly in the range become free. Every page freed is
        taken off the reserved ones as long as there are any. */
    method MarkRangeFree(addr: int, size: int)
      requires 0 <= addr < U64 && 0 <= size < U64
      requires Mirrored() && Tallied()
      modifies bitmap, `used, `freePages, `reservedPages
      ensures Mirrored() && Tallied() && freePages >= old(freePages)
      ensures reservedPages == Less(old(reservedPages), freePages - old(freePages))
      ensures forall p :: 0 <= p < MAX_PAGES ==> used[p] == (old(used)[p] && !Frees(p, addr, size))
    {
      var start := (addr + PAGE - 1) % U64 / PAGE * PAGE;
      var end := (addr + size) % U64 / PAGE * PAGE;
      FreeLoop(addr, size);
      hide Bit, InnerFirst, InnerLast, Frees, Low32;
      if end <= start { return; }
      var first := Low32(start / PAGE);
      var last := Low32(end / PAGE);
      if last > MAX_PAGES { last := MAX_PAGES; }
      MarkFree(first, last);
      assert forall p :: Frees(p, addr, size) <==> first <= p < last;
    }

    method MarkFree(first: int, last: int)
      requires 0 <= first && last <= MAX_PAGES
      requires Mirrored() && Tallied()
      modifies bitmap, `used, `freePages, `reservedPages
      ensures Mirrored() && Tallied() && freePages >= old(freePages)
      ensures reservedPages == Less(old(reservedPages), freePages - old(freePages))
      ensures forall p :: 0 <= p < MAX_PAGES ==> used[p] == (old(used)[p] && !(first <= p < last))
    {
      hide Bit;
      var p := first;
      while p < last
        invariant first <= p && (p == first || p <= last)
        invariant Mirrored() && Tallied() && freePages >= old(freePages)
        invariant reservedPages == Less(old(reservedPages), freePages - old(freePages))
        invariant forall q :: 0 <= q < MAX_PAGES ==> used[q] == (old(used)[q] && !(first <= q < p))
      {
        CountFreeBounds(used);
        var u := IsUsed(p);
        if u {
          CountFreeUpdate(used, p, false);
          CountFreeBounds(used[p := false]);
          SetFree(p);
          freePages := freePages + 1;
          if reservedPages > 0 { reservedPages := reservedPages - 1; }
        }
        p := p + 1;
      }
    }

    /** Outward-rounded: every page the range touches is in use afterwards. */
    method MarkRangeUsed(addr: int, size: int)
      requires 0 <= addr < U64 && 0 <= size < U64
      requires Mirrored() && Counted()
      modifies bitmap, `used, `freePages, `usedPages
      ensures Mirrored() && Counted()
      ensures forall p :: 0 <= p < MAX_PAGES ==> used[p] == (old(used)[p] || Reserves(p, addr, size))
    {
      var start := addr / PAGE * PAGE;
      var end := (addr + size + PAGE - 1) % U64 / PAGE * PAGE;
      ReserveLoop(addr, size);
      hide Bit, OuterFirst, OuterLast, Reserves, Low32;
      if end <= start { return; }
      var first := Low32(start / PAGE);
      var last := Low32(end / PAGE);
      if last > MAX_PAGES { last := MAX_PAGES; }
      MarkUsed(first, last);
      assert forall p :: Reserves(p, addr, size) <==> first <= p < last;
    }

    method MarkUsed(first: int, last: int)
      requires 0 <= first && last <= MAX_PAGES
      requires Mirrored() && Counted()
      modifies bitmap, `used, `freePages, `usedPages
      ensures Mirrored() && Counted()
      ensures forall p :: 0 <= p < MAX_PAGES ==> used[p] == (old(used)[p] || first <= p < last)
    {
      hide Bit;
      var p := first;
      while p < last
        invariant first <= p && (p == first || p <= last)
        invariant Mirrored() && Counted()
        invariant forall q :: 0 <= q < MAX_PAGES ==> used[q] == (old(used)[q] || first <= q < p)
      {
        CountFreeBounds(used);
        var u := IsUsed(p);
        if !u {
          CountFreeUpdate(used, p, true);
          SetUsed(p);
          if freePages > 0 { freePages := freePages - 1; }
          usedPages := usedPages + 1;
        }
        p := p + 1;
      }
    }

    /** Start, first step: everything is reserved. */
    method ReserveAll()
      requires bitmap.Length == BITMAP_BYTES
      modifies this, bitmap
      ensures Mirrored() && Counted() && usedPages == 0 && ready == old(ready) && held == old(held)
      ensures forall p :: 0 <= p < MAX_PAGES ==> used[p]
    {
      var i := 0;
      while i < BITMAP_BYTES
        invariant 0 <= i <= BITMAP_BYTES
        invariant forall b :: 0 <= b < i ==> bitmap[b] == 0xFF
        modifies bitmap
      {
        bitmap[i] := 0xFF;
        i := i + 1;
      }
      totalPages := MAX_PAGES;
      usedPages := 0;
      freePages := 0;
      reservedPages := MAX_PAGES;
      FullByte(0xFF);
      used := seq(MAX_PAGES, _ => true);
      CountFreeBounds(used);
    }

    /** The entries of one memory map. */
    method FreeEntries(tag: word, ghost t: Tag, ghost done: seq<Entry>)
      requires TagAt(ram.m, tag, t) && t.typ == TAG_MMAP && tag + Stride(t.size) < U32
      requires Mirrored() && Counted() && usedPages == 0
      requires forall p :: 0 <= p < MAX_PAGES ==> (used[p] <==> !SomeFrees(done, p))
      modifies bitmap, `used, `freePages, `reservedPages
      ensures Mirrored() && Counted() && |used| == MAX_PAGES
      ensures forall p :: 0 <= p < MAX_PAGES ==> (used[p] <==> !SomeFrees(done + Entries(t), p))
    {
      EntriesOf(ram.m, tag, t);
      hide Bit, Frees, Mirrored, Counted, Sane, TagAt, EntryOf, EntryCount, SomeFrees, Entries;
      var entriesSize := Load(ram.m, tag + 4) - 16;
      var each := Load(ram.m, tag + 8);
      var count := entriesSize / each;
      var e := tag + 16;
      var i := 0;
      assert Entries(t)[..0] == [];
      assert done + [] == done;
      while i < count
        invariant 0 <= i <= count
        invariant Mirrored() && Counted() && usedPages == 0 && |used| == MAX_PAGES
        invariant forall p :: 0 <= p < MAX_PAGES ==> (used[p] <==> !SomeFrees(done + Entries(t)[..i], p))
      {
        EntryFits(count, entriesSize, each, i);
        EntryRead(ram.m, tag, t, i);
        FreeEntry(e + i * each, Entries(t)[i], done + Entries(t)[..i]);
        assert done + Entries(t)[..i + 1] == done + Entries(t)[..i] + [Entries(t)[i]];
        i := i + 1;
      }
      assert Entries(t)[..count] == Entries(t);
    }

    /** One memory-map entry, at address `at`. */
    method FreeEntry(at: int, ghost entry: Entry, ghost done: seq<Entry>)
      requires entry == Entry(Wide(Load(ram.m, at), Load(ram.m, at + 4)),
                              Wide(Load(ram.m, at + 8), Load(ram.m, at + 12)), Load(ram.m, at + 16))
      requires Mirrored() && Counted() && usedPages == 0
      requires forall p :: 0 <= p < MAX_PAGES ==> (used[p] <==> !SomeFrees(done, p))
      modifies bitmap, `used, `freePages, `reservedPages
      ensures Mirrored() && Counted() && |used| == MAX_PAGES
      ensures forall p :: 0 <= p < MAX_PAGES ==> (used[p] <==> !SomeFrees(done + [entry], p))
    {
      hide Bit, Frees, SomeFrees, Wide;
      AnotherEntry(done, entry);
      if Load(ram.m, at + 16) == MEMORY_AVAILABLE {
        CountFreeBounds(used);
        MarkRangeFree(Wide(Load(ram.m, at), Load(ram.m, at + 4)), Wide(Load(ram.m, at + 8), Load(ram.m, at + 12)));
        CountFreeBounds(used);
      }
    }

    /** Start, second step: the available entries of every memory map become free. */
    method FreeAvailable(mbi: word, ghost tags: seq<Tag>)
      requires mbi + 8 < U32 && ChainAt(ram.m, mbi + 8, tags) && ChainEnd(mbi + 8, tags) < U32
      requires Mirrored() && Counted() && usedPages == 0
      requires forall p :: 0 <= p < MAX_PAGES ==> used[p]
      modifies bitmap, `used, `freePages, `reservedPages
      ensures Mirrored() && Counted()
      ensures forall p :: 0 <= p < MAX_PAGES ==> (used[p] <==> !SomeFrees(AllEntries(tags), p))
    {
      hide Bit, Counted, SomeFrees, Sane, TagAt, ChainAt, ChainEnd, Entries, Stride;
      var cursor: word := mbi + 8;
      ghost var done, rest := [], tags;
      NoEntries();
      assert [] + AllEntries(rest) == AllEntries(tags);
      while true
        invariant 0 <= cursor && ChainAt(ram.m, cursor, rest) && ChainEnd(cursor, rest) == ChainEnd(mbi + 8, tags)
        invariant Mirrored() && Counted() && usedPages == 0 && |used| == MAX_PAGES
        invariant done + AllEntries(rest) == AllEntries(tags)
        invariant forall p :: 0 <= p < MAX_PAGES ==> (used[p] <==> !SomeFrees(done, p))
        decreases |rest|
      {
        WalkTag(ram.m, cursor, rest);
        var typ := Load(ram.m, cursor);
        if typ == TAG_END {
          assert done + [] == done;
          break;
        }
        ghost var t := rest[0];
        if typ == TAG_MMAP {
          FreeEntries(cursor, t, done);
        } else {
          assert done + [] == done;
        }
        done := done + Entries(t);
        var step := Stride(Load(ram.m, cursor + 4));
        cursor := cursor + step;
        rest := rest[1..];
      }
    }

    lemma Tally()
      requires Counted()
      ensures freePages == CountFree(used) && freePages + usedPages + reservedPages == MAX_PAGES
    {
    }

    /** Brings the manager up from the boot loader's memory map; the kernel with the heap, and the
        first MiB, stay in use. Without boot information it stays down with nothing free. */
    method Start(mbi: word, kernelStart: word, kernelEndPlusHeap: word, ghost tags: seq<Tag>)
      requires bitmap.Length == BITMAP_BYTES && !ready
      requires mbi != 0 ==> mbi + 8 < U32 && ChainAt(ram.m, mbi + 8, tags) && ChainEnd(mbi + 8, tags) < U32
      requires kernelStart <= 0x10_0000 <= kernelEndPlusHeap
      modifies this, bitmap
      ensures ready <==> mbi != 0
      ensures Mirrored() && Counted()
      ensures mbi == 0 ==> freePages == 0 && held == old(held)
      ensures mbi != 0 ==> reservedPages == MAX_PAGES - CountFree(seq(MAX_PAGES, p => !SomeFrees(AllEntries(tags), p)))
      ensures mbi != 0 ==> Valid() && held == {} && floor == Outer(kernelEndPlusHeap)
      ensures mbi != 0 ==> pool == set p | 0 <= p < MAX_PAGES && !used[p]
      ensures mbi != 0 ==> forall p :: 0 <= p < MAX_PAGES ==>
                (used[p] <==> || !SomeFrees(AllEntries(tags), p)
                              || Reserves(p, kernelStart, kernelEndPlusHeap - kernelStart)
                              || Reserves(p, 0, 0x10_0000))
      ensures mbi != 0 && AllHarmless(AllEntries(tags)) && kernelStart < kernelEndPlusHeap ==>
                forall p :: 0 <= p < MAX_PAGES ==>
                  (!used[p] <==> && Usable(AllEntries(tags), p)
                                 && !PageTouches(p, kernelStart, kernelEndPlusHeap - kernelStart)
                                 && p * PAGE >= 0x10_0000)
    {
      hide AllHarmless, Usable, PageTouches;
      hide Bit, Frees, Reserves, SomeFrees, ChainAt, ChainEnd, Counted, CountFree, Outer;
      ReserveAll();
      CountFreeBounds(used);
      Tally();
      if mbi == 0 { return; }
      FreeAvailable(mbi, tags);
      Tally();
      assert used == seq(MAX_PAGES, p => !SomeFrees(AllEntries(tags), p));
      MarkRangeUsed(kernelStart, kernelEndPlusHeap - kernelStart);
      MarkRangeUsed(0, 0x10_0000);
      ready := true;
      KernelFloor(kernelStart, kernelEndPlusHeap);
      held, floor, kernelPages := {}, Outer(kernelEndPlusHeap), usedPages;
      pool := set p | 0 <= p < MAX_PAGES && !used[p];
      EntriesInRange(tags);
      BitmapAfterStart(used, AllEntries(tags), kernelStart, kernelEndPlusHeap);
    }

    /** The scan inside one byte. */
    method FirstClearBit(byteI: int) returns (bit: int)
      requires bitmap.Length == BITMAP_BYTES && 0 <= byteI < BITMAP_BYTES
      ensures 0 <= bit <= 8 && (bit < 8 ==> !Bit(bitmap[byteI], bit))
      ensures forall k :: 0 <= k < bit ==> Bit(bitmap[byteI], k)
    {
      hide Bit;
      bit := 0;
      while bit < 8
        invariant 0 <= bit <= 8
        invariant forall k :: 0 <= k < bit ==> Bit(bitmap[byteI], k)
      {
        BitOfPage(bitmap[byteI], bit);
        if bitmap[byteI] & (1 << bit) == 0 { break; }
        bit := bit + 1;
      }
    }

    /** Hands out the lowest free page, skipping full bytes; 0 when the manager is down or no page
        is free. While nobody has returned a page that was not handed out, that is a page no one
        holds, at or above the floor, one of those free at the start, and 0 means there is none. */
    method AllocPage() returns (address: word)
      requires ready ==> Mirrored() && Tallied()
      modifies this, bitmap
      ensures ready == old(ready) && floor == old(floor) && kernelPages == old(kernelPages) && pool == old(pool)
      ensures !ready ==> address == 0 && used == old(used) && held == old(held)
      ensures ready ==> Mirrored() && Tallied() && reservedPages == old(reservedPages)
      ensures ready && LowestFree(old(used), 0) == MAX_PAGES ==>
                address == 0 && used == old(used) && held == old(held) && usedPages == old(usedPages)
      ensures ready && LowestFree(old(used), 0) < MAX_PAGES ==>
                var p := LowestFree(old(used), 0);
                && address == p * PAGE && used == old(used)[p := true] && held == old(held) + {p}
                && usedPages == Wrap(old(usedPages) + 1)
      ensures ready && old(Valid()) ==> Valid()
      ensures ready && old(Valid()) ==> (address == 0 <==> forall p :: 0 <= p < MAX_PAGES ==> old(used)[p])
      ensures ready && old(Valid()) && address == 0 ==> used == old(used) && held == old(held)
      ensures ready && old(Valid()) && address != 0 ==>
                var p := LowestFree(old(used), 0); floor <= p < MAX_PAGES && p !in old(held) && p in pool
    {
      hide Bit, Tallied, Counted, CountFree, Valid;
      if !ready { return 0; }
      var byteI, bit := 0, 0;
      while byteI < BITMAP_BYTES
        invariant 0 <= byteI <= BITMAP_BYTES
        invariant forall q :: 0 <= q < 8 * byteI ==> used[q]
        modifies {}
      {
        FullByte(bitmap[byteI]);
        if bitmap[byteI] != 0xFF {
          bit := FirstClearBit(byteI);
          PagesOfByte(byteI, bit);
          break;
        }
        PagesOfByte(byteI, 8);
        byteI := byteI + 1;
      }
      if byteI == BITMAP_BYTES {
        LowestFreeEnd(used);
        return 0;
      }
      assert used[8 * byteI + bit] == Bit(bitmap[byteI], bit);
      address := Take(byteI, bit);
    }

    lemma PagesOfByte(b: int, n: int)
      requires Mirrored() && 0 <= b < BITMAP_BYTES && 0 <= n <= 8
      requires forall k :: 0 <= k < n ==> Bit(bitmap[b], k)
      ensures forall q :: 8 * b <= q < 8 * b + n ==> used[q]
    {
      hide Bit;
      forall q | 8 * b <= q < 8 * b + n
        ensures used[q]
      {
        assert used[8 * b + (q - 8 * b)] == Bit(bitmap[b], q - 8 * b);
      }
    }

    /** The rest of `AllocPage` once the free page is found. */
    method Take(byteI: int, bit: int) returns (address: word)
      requires Mirrored() && Tallied() && 0 <= byteI < BITMAP_BYTES && 0 <= bit < 8
      requires !used[8 * byteI + bit] && forall q :: 0 <= q < 8 * byteI + bit ==> used[q]
      modifies `used, `held, `freePages, `usedPages, bitmap
      ensures Mirrored() && Tallied()
      ensures LowestFree(old(used), 0) == 8 * byteI + bit && address == (8 * byteI + bit) * PAGE
      ensures used == old(used)[8 * byteI + bit := true] && held == old(held) + {8 * byteI + bit}
      ensures usedPages == Wrap(old(usedPages) + 1)
      ensures old(Valid()) ==>
                && Valid() && 1 <= floor <= 8 * byteI + bit && 8 * byteI + bit !in old(held)
                && 8 * byteI + bit in pool
    {
      hide Bit;
      var page := byteI * 8 + bit;
      LowestFreeIs(used, 0, page);
      CountFreeBounds(used);
      CountFreeUpdate(used, page, true);
      SetUsed(page);
      freePages := freePages - 1;
      usedPages := Wrap(usedPages + 1);
      held := held + {page};
      return page * PAGE;
    }

    /** Takes back a page; one already free is left alone. The code does not ask whether the page
        was ever handed out: everything the manager promises survives exactly when it was, or when
        the page is free already. */
    method FreePage(address: word)
      requires ready ==> Mirrored() && Tallied()
      modifies this, bitmap
      ensures ready == old(ready) && floor == old(floor) && kernelPages == old(kernelPages) && pool == old(pool)
      ensures !ready || !old(used)[address / PAGE] ==>
                && used == old(used) && held == old(held)
                && usedPages == old(usedPages)
      ensures ready ==> Mirrored() && Tallied() && reservedPages == old(reservedPages)
      ensures ready && old(used)[address / PAGE] ==>
                && used == old(used)[address / PAGE := false] && held == old(held) - {address / PAGE}
                && usedPages == Wrap(old(usedPages) - 1)
      ensures ready && old(Valid()) ==> (Valid() <==> !old(used)[address / PAGE] || address / PAGE in old(held))
    {
      hide Bit;
      if !ready { return; }
      var page := address / PAGE;
      if page >= MAX_PAGES { return; }
      var u := IsUsed(page);
      if !u { return; }
      CountFreeUpdate(used, page, false);
      CountFreeBounds(used[page := false]);
      SetFree(page);
      freePages := freePages + 1;
      usedPages := Wrap(usedPages - 1);
      held := held - {page};
    }
  }

  /** What goes wrong otherwise: after a page of the kernel, of the heap or of the first MiB has been
      returned, the very next allocation hands that page out. For page 0 the address handed out is
      0, which the caller must take for a refusal. */
  method ReturnKernelPage(pmm: Pmm, address: word) returns (got: word)
    requires pmm.ready && pmm.Valid() && address / PAGE < pmm.floor
    modifies pmm, pmm.bitmap
    ensures got == address / PAGE * PAGE && address / PAGE in pmm.held
    ensures address < PAGE ==> got == 0
    ensures pmm.used == old(pmm.used) && !pmm.Valid()
  {
    hide Bit;
    ghost var p := address / PAGE;
    ghost var before := pmm.used;
    pmm.FreePage(address);
    LowestFreeIs(pmm.used, 0, p);
    got := pmm.AllocPage();
    assert before[p := false][p := true] == before;
  }

  /** So it is right after `Start`, with the address of page 0. */
  method ReturnZeroAfterStart(pmm: Pmm, mbi: word, kernelStart: word, end: word,
                              ghost tags: seq<Tag>) returns (got: word)
    requires pmm.bitmap.Length == BITMAP_BYTES && !pmm.ready
    requires mbi != 0 && mbi + 8 < U32 && ChainAt(pmm.ram.m, mbi + 8, tags) && ChainEnd(mbi + 8, tags) < U32
    requires kernelStart <= 0x10_0000 <= end
    modifies pmm, pmm.bitmap
    ensures got == 0 && 0 in pmm.held && !pmm.Valid()
  {
    hide Bit, ChainAt, ChainEnd, SomeFrees, Reserves, AllHarmless, Usable, PageTouches;
    pmm.Start(mbi, kernelStart, end, tags);
    FirstPageReserved(end);
    got := ReturnKernelPage(pmm, 0);
  }

  lemma FirstPageReserved(end: word)
    requires 0x10_0000 <= end
    ensures 0 < Outer(end)
  {
  }

  // ---------------------------------------------------------------------------------------------
  // Spelled out

  /** Page p is bit p % 8 of byte p / 8, 1 for in use; the free pages are the bits that are 0. */
  lemma BitmapSpelledOut(pmm: Pmm, p: int)
    requires pmm.Valid() && 0 <= p < 1_048_576
    ensures pmm.bitmap.Length == 131_072
    ensures pmm.used[p] <==> pmm.bitmap[p / 8] & (1 << (p % 8)) != 0
  {
    var b, k := p / 8, p % 8;
    assert p == 8 * b + k;
    assert pmm.used[8 * b + k] == Bit(pmm.bitmap[b], k);
    BitOfPage(pmm.bitmap[b], k);
  }

  /** One byte of the bitmap: its lowest bit is the first of its eight pages. */
  lemma BitsSpelledOut()
    ensures Bit(1, 0) && !Bit(1, 1) && Bit(2, 1) && !Bit(2, 0) && Bit(128, 7) && !Bit(128, 0)
  {
  }

  /** Memory of type 1 is usable, page by whole page; memory of any other type is not. */
  lemma UsableSpelledOut(e: Entry, p: int)
    ensures Usable([e], p) <==> e.typ == 1 && e.base <= 4096 * p && 4096 * p + 4096 <= e.base + e.length
  {
    assert e in [e];
    assert forall x :: x in [e] <==> x == e;
  }

  /** The page manager brought up on a map of one entry, given by its words: of memory of type 1 below
      2^44 the free pages are those that lie in it whole, at or past both 1 MiB and the heap's end. */
  method StartOneMap(pmm: Pmm, mbi: word, end: word, ghost b: word, ghost l0: word, ghost l1: word, ghost typ: word,
                     ghost res: word)
    requires pmm.bitmap.Length == 131_072 && !pmm.ready && 0 < mbi && mbi + 64 < U32 && 0x10_0000 < end
    requires var m := pmm.ram.m; var a := mbi + 8;
             && Load(m, a) == 6 && Load(m, a + 4) == 40 && Load(m, a + 8) == 24 && Load(m, a + 12) == 0
             && Load(m, a + 16) == b && Load(m, a + 20) == 0 && Load(m, a + 24) == l0 && Load(m, a + 28) == l1
             && Load(m, a + 32) == typ && Load(m, a + 36) == res && Load(m, a + 40) == 0
    requires b + l0 + 0x1_0000_0000 * l1 as int < 0x1000_0000_0000
    modifies pmm, pmm.bitmap
    ensures pmm.ready && pmm.Valid()
    ensures forall p :: 0 <= p < 1_048_576 ==>
              (!pmm.used[p] <==>
                 && typ == 1 && b <= 4096 * p && 4096 * p + 4096 <= b + l0 + 0x1_0000_0000 * l1 as int
                 && end <= 4096 * p)
  {
    hide Usable, AllHarmless, SomeFrees, Reserves, PageTouches, PmmSpec.Bit, Outer, Pmm.Mirrored, Pmm.Counted;
    ghost var t := Tag(6, 40, [24, 0, b, 0, l0, l1, typ, res]);
    ghost var e := Entry(b, l0 + 0x1_0000_0000 * l1 as int, typ);
    OneEntry(b, 0, l0, l1, typ, res);
    EntriesOfOne(t);
    OneMapChain(pmm.ram.m, mbi + 8, t);
    LowEntryHarmless(e);
    pmm.Start(mbi, 0x10_0000, end, [t]);
    forall p | 0 <= p < 1_048_576
      ensures Usable([e], p) && !PageTouches(p, 0x10_0000, end - 0x10_0000) && p * PAGE >= 0x10_0000 <==>
                && typ == 1 && b <= 4096 * p && 4096 * p + 4096 <= b + l0 + 0x1_0000_0000 * l1 as int
                && end <= 4096 * p
    {
      UsableSpelledOut(e, p);
      PastEnd(p, end);
    }
  }

  lemma PastEnd(p: int, end: word)
    requires 0x10_0000 < end
    ensures !PageTouches(p, 0x10_0000, end - 0x10_0000) && p * PAGE >= 0x10_0000 <==> end <= 4096 * p
  {
  }

  lemma OneMapChain(m: Mem, a: int, t: Tag)
    requires Sane(t) && t.typ == 6 && t.size == 40 && |t.body| == 8
    requires Load(m, a) == 6 && Load(m, a + 4) == 40 && Load(m, a + 40) == 0
    requires Load(m, a + 8) == t.body[0] && Load(m, a + 12) == t.body[1] && Load(m, a + 16) == t.body[2]
    requires Load(m, a + 20) == t.body[3] && Load(m, a + 24) == t.body[4] && Load(m, a + 28) == t.body[5]
    requires Load(m, a + 32) == t.body[6] && Load(m, a + 36) == t.body[7]
    ensures ChainAt(m, a, [t]) && ChainEnd(a, [t]) == a + 48
  {
    assert Stride(40) == 40;
    assert [t][1..] == [];
    assert ChainAt(m, a + 40, []);
    assert ChainEnd(a + 40, []) == a + 48;
    assert TagAt(m, a, t);
  }

  lemma LowEntryHarmless(e: Entry)
    requires 0 <= e.base && 0 <= e.length && e.base + e.length < 0x1000_0000_0000
    ensures AllHarmless([e])
  {
    assert (e.base + e.length) % U64 == e.base + e.length;
    assert FreeHarmless(e.base, e.length);
  }

  /** A counter less n, but never below zero. */
  function Less(counter: word, n: int): int {
    if n <= counter then counter - n else 0
  }

  lemma LowestFreeEnd(used: seq<bool>)
    requires forall q :: 0 <= q < |used| ==> used[q]
    ensures LowestFree(used, 0) == |used|
  {
  }

  lemma SetBits(b: bv8, k: int, v: bv8)
    requires 0 <= k < 8 && v == b | (1 << k)
    ensures forall j :: 0 <= j < 8 ==> Bit(v, j) == if j == k then true else Bit(b, j)
  {
    forall j | 0 <= j < 8
      ensures Bit(v, j) == if j == k then true else Bit(b, j)
    {
      SetBit(b, k, j);
    }
  }

  lemma ClearBits(b: bv8, k: int, v: bv8)
    requires 0 <= k < 8 && v == b & !(1 << k)
    ensures forall j :: 0 <= j < 8 ==> Bit(v, j) == if j == k then false else Bit(b, j)
  {
    forall j | 0 <= j < 8
      ensures Bit(v, j) == if j == k then false else Bit(b, j)
    {
      ClearBit(b, k, j);
    }
  }

  /** Some available entry frees page p. */
  ghost predicate SomeFrees(es: seq<Entry>, p: int) {
    exists e :: e in es && e.typ == MEMORY_AVAILABLE && Frees(p, e.base, e.length)
  }

  lemma AnotherEntry(es: seq<Entry>, e: Entry)
    ensures forall p :: SomeFrees(es + [e], p) <==>
              SomeFrees(es, p) || (e.typ == MEMORY_AVAILABLE && Frees(p, e.base, e.length))
  {
    assert forall x :: x in es + [e] <==> x in es || x == e;
  }

  /** The whole 4 KiB of page p lie in one available entry. */
  ghost predicate Usable(es: seq<Entry>, p: int) {
    exists e :: e in es && e.typ == MEMORY_AVAILABLE && PageInside(p, e.base, e.length)
  }

  /** No available entry is one of those `MarkRangeFree` gets wrong. */
  ghost predicate AllHarmless(es: seq<Entry>) {
    forall e :: e in es && e.typ == MEMORY_AVAILABLE ==> FreeHarmless(e.base, e.length)
  }

  lemma EntryInRange(t: Tag)
    ensures forall e :: e in Entries(t) ==> 0 <= e.base < U64 && 0 <= e.length < U64
  {
    hide EntryCount, WordAt;
  }

  lemma {:induction false} EntriesInRange(tags: seq<Tag>)
    ensures forall e :: e in AllEntries(tags) ==> 0 <= e.base < U64 && 0 <= e.length < U64
    decreases |tags|
  {
    hide Entries;
    if tags != [] {
      EntryInRange(tags[0]);
      EntriesInRange(tags[1..]);
    }
  }

  /** What the bitmap means after `Start`: a page is free exactly when its whole 4 KiB lie in one
      available entry and it misses both the kernel with its heap and the first MiB, whatever the
      order and overlap of the entries. */
  lemma FreePagesAfterStart(es: seq<Entry>, kernelStart: word, end: word, p: int)
    requires forall e :: e in es ==> 0 <= e.base < U64 && 0 <= e.length < U64
    requires AllHarmless(es) && kernelStart < end && 0 <= p < MAX_PAGES
    ensures !(!SomeFrees(es, p) || Reserves(p, kernelStart, end - kernelStart) || Reserves(p, 0, 0x10_0000)) <==>
              && Usable(es, p)
              && !PageTouches(p, kernelStart, end - kernelStart)
              && p * PAGE >= 0x10_0000
  {
    hide FreeHarmless;
    forall e | e in es && e.typ == MEMORY_AVAILABLE
      ensures Frees(p, e.base, e.length) <==> PageInside(p, e.base, e.length)
    {
      FreesInsideExactly(e.base, e.length);
    }
    hide Frees, PageInside, Reserves;
    ReservesTouched(p, kernelStart, end - kernelStart);
    ReservesTouched(p, 0, 0x10_0000);
  }

  lemma BitmapAfterStart(used: seq<bool>, es: seq<Entry>, kernelStart: word, end: word)
    requires |used| == MAX_PAGES
    requires forall e :: e in es ==> 0 <= e.base < U64 && 0 <= e.length < U64
    requires forall p :: 0 <= p < MAX_PAGES ==>
               (used[p] <==>
                         || !SomeFrees(es, p) || Reserves(p, kernelStart, end - kernelStart)
                         || Reserves(p, 0, 0x10_0000))
    ensures AllHarmless(es) && kernelStart < end ==>
              forall p :: 0 <= p < MAX_PAGES ==>
                (!used[p] <==>
                          && Usable(es, p) && !PageTouches(p, kernelStart, end - kernelStart)
                          && p * PAGE >= 0x10_0000)
  {
    hide SomeFrees, Reserves, Usable, PageTouches;
    if AllHarmless(es) && kernelStart < end {
      forall p | 0 <= p < MAX_PAGES
        ensures !used[p] <==> Usable(es, p) && !PageTouches(p, kernelStart, end - kernelStart) && p * PAGE >= 0x10_0000
      {
        FreePagesAfterStart(es, kernelStart, end, p);
      }
    }
  }

  lemma BitOfPage(b: bv8, k: int)
    requires 0 <= k < 8
    ensures Bit(b, k) <==> b & (1 << k) != 0
  {
  }

  lemma {:induction false} LowestFreeIs(used: seq<bool>, from: int, p: int)
    requires 0 <= from <= p < |used| && !used[p] && forall q :: from <= q < p ==> used[q]
    ensures LowestFree(used, from) == p
    decreases p - from
  {
    if from < p { LowestFreeIs(used, from + 1, p); }
  }

  /** The number of the first page at or after address a. */
  function Outer(a: int): int {
    (a + PAGE - 1) / PAGE
  }

  lemma KernelFloor(kernelStart: word, end: word)
    requires kernelStart <= 0x10_0000 <= end < U32
    ensures 1 <= Outer(end) <= MAX_PAGES
    ensures forall p :: 0 <= p < Outer(end) ==> Reserves(p, kernelStart, end - kernelStart) || Reserves(p, 0, 0x10_0000)
  {
    forall p | 0 <= p < Outer(end)
      ensures Reserves(p, kernelStart, end - kernelStart) || Reserves(p, 0, 0x10_0000)
    {
      ReservesTouched(p, 0, 0x10_0000);
      if kernelStart < end {
        ReservesTouched(p, kernelStart, end - kernelStart);
      }
    }
  }

  lemma NoEntries()
    ensures forall p :: !SomeFrees([], p)
  {
  }

  lemma ReserveLoop(addr: int, size: int)
    requires 0 <= addr < U64 && 0 <= size < U64
    ensures var start, end := addr / PAGE * PAGE, (addr + size + PAGE - 1) % U64 / PAGE * PAGE;
            && (end <= start ==> forall p :: !Reserves(p, addr, size))
            && (end > start ==> forall p :: Reserves(p, addr, size) <==> Low32(start / PAGE) <= p < Capped(end / PAGE))
            && 0 <= Low32(start / PAGE)
  {
    var f, l := OuterFirst(addr), OuterLast(addr, size);
    assert f * PAGE / PAGE == f && l * PAGE / PAGE == l;
  }

  /** The bounds `MarkRangeFree` computes are those of Frees. */
  lemma FreeLoop(addr: int, size: int)
    requires 0 <= addr < U64 && 0 <= size < U64
    ensures var start, end := (addr + PAGE - 1) % U64 / PAGE * PAGE, (addr + size) % U64 / PAGE * PAGE;
            && (end <= start ==> forall p :: !Frees(p, addr, size))
            && (end > start ==> forall p :: Frees(p, addr, size) <==> Low32(start / PAGE) <= p < Capped(end / PAGE))
            && 0 <= Low32(start / PAGE)
  {
    var f, l := InnerFirst(addr), InnerLast(addr, size);
    assert f * PAGE / PAGE == f && l * PAGE / PAGE == l;
  }
}
