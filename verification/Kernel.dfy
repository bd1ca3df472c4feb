/** Boot: where the heap goes, which pages are free, where the ramdisk is, and why no byte of
    memory ever has two owners. */
module KernelModule {
  import opened Words
  import opened Tags
  import opened HeapSpec
  import opened HeapMemory
  import opened HeapModule
  import P = PmmSpec
  import opened PmmModule
  import I = InitrdModule
  import opened MultibootModule
  import M = Mkinitrd

  const KERNEL_START: word := 0x10_0000

  function ModuleEnd(t: Tag): word {
    WordAt(t, 1)
  }

  ghost predicate IsModule(tags: seq<Tag>, t: Tag) {
    t in tags && t.typ == TAG_MODULE
  }

  /** The highest module end address; 0 when there is no module. */
  ghost function ModulesEnd(tags: seq<Tag>): word
    decreases |tags|
  {
    if tags == [] then 0
    else
      var rest := ModulesEnd(tags[1..]);
      if tags[0].typ == TAG_MODULE && ModuleEnd(tags[0]) > rest then ModuleEnd(tags[0]) else rest
  }

  lemma {:induction false} ModulesEndIsMax(tags: seq<Tag>)
    ensures forall t :: IsModule(tags, t) ==> ModuleEnd(t) <= ModulesEnd(tags)
    ensures ModulesEnd(tags) == 0 || exists t :: IsModule(tags, t) && ModuleEnd(t) == ModulesEnd(tags)
    decreases |tags|
  {
    if tags != [] {
      ModulesEndIsMax(tags[1..]);
      assert tags == [tags[0]] + tags[1..];
      assert forall t :: IsModule(tags, t) <==> IsModule(tags[1..], t) || (t == tags[0] && t.typ == TAG_MODULE);
    }
  }

  /** In terms of the words of the tags: no module ends past the result, and one ends there. */
  lemma ModulesEndSpelledOut(tags: seq<Tag>)
    requires forall t :: t in tags ==> Sane(t)
    ensures forall t :: t in tags && t.typ == 3 ==> |t.body| >= 2 && t.body[1] <= ModulesEnd(tags)
    ensures || ModulesEnd(tags) == 0
            || exists t :: t in tags && t.typ == 3 && |t.body| >= 2 && t.body[1] == ModulesEnd(tags)
  {
    ModulesEndIsMax(tags);
    forall t | t in tags && t.typ == 3
      ensures |t.body| >= 2 && t.body[1] <= ModulesEnd(tags)
    {
      assert IsModule(tags, t);
    }
    if ModulesEnd(tags) != 0 {
      var t :| IsModule(tags, t) && ModuleEnd(t) == ModulesEnd(tags);
      assert t.body[1] == ModulesEnd(tags);
    }
  }

  /** The walk before the heap is up: how far the boot modules reach. */
  method PreScan(ram: Ram, mbi: word, ghost tags: seq<Tag>) returns (initrdEnd: word)
    requires mbi != 0 ==> mbi + 8 < U32 && ChainAt(ram.m, mbi + 8, tags) && ChainEnd(mbi + 8, tags) < U32
    requires mbi == 0 ==> tags == []
    ensures initrdEnd == ModulesEnd(tags)
  {
    hide ChainAt, ChainEnd, TagAt, Sane, Stride, WordAt;
    initrdEnd := 0;
    if mbi == 0 { return; }
    var cur: word := mbi + 8;
    ghost var rest := tags;
    while true
      invariant ChainAt(ram.m, cur, rest) && ChainEnd(cur, rest) == ChainEnd(mbi + 8, tags)
      invariant ModulesEnd(tags) == if ModulesEnd(rest) > initrdEnd then ModulesEnd(rest) else initrdEnd
      decreases |rest|
    {
      WalkTag(ram.m, cur, rest);
      if Load(ram.m, cur) == TAG_END { break; }
      TagFields(ram.m, cur, rest[0]);
      if Load(ram.m, cur) == TAG_MODULE {
        var modEnd := Load(ram.m, cur + 12);
        if modEnd > initrdEnd { initrdEnd := modEnd; }
      }
      cur := cur + Stride(Load(ram.m, cur + 4));
      rest := rest[1..];
    }
  }

  /** A module behind a tag of odd size, word by word: the walk finds where it ends. */
  method OddTagScan(ram: Ram, mbi: word, start: word, end: word) returns (initrdEnd: word)
    requires 0 < mbi && mbi + 48 < U32
    requires Load(ram.m, mbi + 8) == 1 && Load(ram.m, mbi + 12) == 9 && Load(ram.m, mbi + 16) == 0
    requires Load(ram.m, mbi + 20) == 0 && Load(ram.m, mbi + 24) == 3 && Load(ram.m, mbi + 28) == 16
    requires Load(ram.m, mbi + 32) == start && Load(ram.m, mbi + 36) == end && Load(ram.m, mbi + 40) == 0
    ensures initrdEnd == end
  {
    ghost var tags := [Tag(1, 9, [0, 0]), Tag(3, 16, [start, end])];
    OddTagThenModule(ram.m, mbi + 8, start, end);
    OddTagEnd(mbi, start, end);
    initrdEnd := PreScan(ram, mbi, tags);
  }

  lemma OddTagEnd(mbi: word, start: word, end: word)
    requires mbi + 48 < U32
    ensures var tags := [Tag(1, 9, [0, 0]), Tag(3, 16, [start, end])];
            ModulesEnd(tags) == end && ChainEnd(mbi + 8, tags) < U32
  {
    var t, u := Tag(1, 9, [0, 0]), Tag(3, 16, [start, end]);
    assert [t, u][1..] == [u] && [u][1..] == [];
    assert ModulesEnd([u]) == end;
    assert Stride(9) == 16 && Stride(16) == 16;
    assert ChainEnd(mbi + 24, [u]) == ChainEnd(mbi + 40, []);
  }

  lemma OuterCovers(a: int)
    ensures a <= Outer(a) * P.PAGE
  {
  }

  lemma PageBelow(base: word, end: int, floor: int)
    requires base < end <= floor * P.PAGE
    ensures base / P.PAGE < floor && base / P.PAGE * P.PAGE <= base < base / P.PAGE * P.PAGE + P.PAGE
    ensures base / P.PAGE * P.PAGE % P.PAGE == 0 && base / P.PAGE * P.PAGE / P.PAGE == base / P.PAGE
  {
  }

  lemma PageAddress(address: word, p: int)
    requires address == p * P.PAGE && 0 <= p
    ensures address / P.PAGE == p && address % P.PAGE == 0
  {
  }

  /** Memory with the same image in it reads the same second word. */
  lemma SameHeader(m: Mem, n: Mem, base: int, disk: seq<byte>)
    requires I.ImageAt(m, base, disk) && I.ImageAt(n, base, disk) && 8 <= |disk|
    ensures Peek(n, base + 4) == Peek(m, base + 4)
  {
    I.WordFromBytes(m, base + 4);
    I.WordFromBytes(n, base + 4);
    assert ByteAt(m, base + 4) == disk[4] && ByteAt(m, base + 5) == disk[5];
    assert ByteAt(m, base + 6) == disk[6] && ByteAt(m, base + 7) == disk[7];
  }

  /** The ramdisk is out of reach of the heap's headers. */
  lemma DiskSurvives(m: Mem, n: Mem, lo: int, hi: int, base: int, disk: seq<byte>)
    requires SameOutside(m, n, lo, hi) && I.ImageAt(m, base, disk) && base + |disk| <= lo
    ensures I.ImageAt(n, base, disk)
    ensures |disk| >= 8 ==> Peek(n, base + 4) == Peek(m, base + 4)
  {
    hide Peek, ByteAt;
    forall i | 0 <= i < |disk|
      ensures ByteAt(n, base + i) == disk[i]
    {
      SameByte(m, n, base + i);
    }
    if |disk| >= 8 { SameHeader(m, n, base, disk); }
  }

  /** A store into a live block or past the heap disturbs no header. */
  lemma WriteKeepsHeap(h: HeapState, m: Mem, n: Mem, a: int, v: word)
    requires Good(h, m) && h.ready && Put(m, n, a, v) && Aligned(a)
    requires (exists b :: b in Live(h.blocks) && b.Payload() <= a < b.End()) || h.end <= a
    ensures Good(h, n) && h.base <= a
  {
    hide Coalesced, SumUsed, SumFree, CountUsed, Grained, Chain;
    TiledIsOrdered(h.blocks, h.base, h.end);
    if h.end <= a {
      ChainFrame(m, n, h.blocks, h.base, h.end, 0);
    } else {
      var b :| b in Live(h.blocks) && b.Payload() <= a < b.End();
      LastWord(h.blocks, h.base, h.end, b, a);
      PayloadWritesKeepHeap(m, n, h.blocks, h.base, h.end, b, a, a + 4);
    }
  }

  lemma FirstHeader(h: HeapState, m: Mem)
    requires Good(h, m) && h.ready && h.blocks == [Block(h.base, HEAP_SIZE - HEADER, false)]
    ensures HeaderAt(m, h.blocks[0], 0)
  {
    assert LinkAt(m, h.blocks, 0, 0);
  }

  lemma SameByte(m: Mem, n: Mem, a: int)
    requires Load(m, a - a % 4) == Load(n, a - a % 4)
    ensures ByteAt(m, a) == ByteAt(n, a)
  {
  }

  /** A chain of tags survives writes that miss it. */
  lemma InfoSurvives(m: Mem, n: Mem, a: int, tags: seq<Tag>, lo: int, hi: int)
    requires ChainAt(m, a, tags) && SameOutside(m, n, lo, hi)
    requires ChainEnd(a, tags) <= lo || hi <= a
    ensures ChainAt(n, a, tags)
  {
    ChainKept(m, n, a, tags);
  }

  /** A heap header where the boot information begins makes the chain of tags an empty one. */
  lemma InfoClobbered(m: Mem, mbi: int, size: int, next: int)
    requires HeaderAt(m, Block(mbi, size, false), next)
    ensures ChainAt(m, mbi + 8, [])
  {
  }

  lemma {:induction false} FirstImageIsModule(m: Mem, tags: seq<Tag>)
    requires I.FirstImage(m, tags).Some?
    ensures IsModule(tags, I.FirstImage(m, tags).value)
    decreases |tags|
  {
    hide Peek;
    if !(tags[0].typ == TAG_MODULE && Peek(m, WordAt(tags[0], 0)) == I.MAGIC) {
      FirstImageIsModule(m, tags[1..]);
    }
  }

  lemma ModulesBelow(tags: seq<Tag>, base: int)
    requires forall t :: IsModule(tags, t) ==> 0 < WordAt(t, 0) && WordAt(t, 0) + 8 <= ModuleEnd(t)
    requires forall t :: IsModule(tags, t) ==> ModuleEnd(t) <= base
    ensures forall t :: t in tags && t.typ == TAG_MODULE ==> WordAt(t, 0) + 8 <= base
  {
    forall t | t in tags && t.typ == TAG_MODULE
      ensures WordAt(t, 0) + 8 <= base
    {
      assert IsModule(tags, t);
    }
  }

  lemma PeekKept(m: Mem, n: Mem, lo: int, hi: int, a: int)
    requires SameOutside(m, n, lo, hi) && a + 4 <= lo
    ensures Peek(n, a) == Peek(m, a)
  {
    hide ByteAt, Peek;
    I.WordFromBytes(m, a);
    I.WordFromBytes(n, a);
    SameByte(m, n, a);
    SameByte(m, n, a + 1);
    SameByte(m, n, a + 2);
    SameByte(m, n, a + 3);
  }

  /** Which module is chosen does not change with memory past all of them. */
  lemma {:induction false} FirstImageKept(m: Mem, n: Mem, tags: seq<Tag>, lo: int, hi: int)
    requires SameOutside(m, n, lo, hi) && forall t :: t in tags && t.typ == TAG_MODULE ==> WordAt(t, 0) + 8 <= lo
    ensures I.FirstImage(n, tags) == I.FirstImage(m, tags)
    decreases |tags|
  {
    hide Peek;
    if tags != [] {
      assert tags[0] in tags;
      if tags[0].typ == TAG_MODULE { PeekKept(m, n, lo, hi, WordAt(tags[0], 0)); }
      FirstImageKept(m, n, tags[1..], lo, hi);
    }
  }

  /** A packed image is chosen when no module before it has the magic. */
  lemma {:induction false} FirstImageIs(m: Mem, before: seq<Tag>, t: Tag, after: seq<Tag>, files: seq<M.File>)
    requires t.typ == TAG_MODULE
    requires forall u :: u in before && u.typ == TAG_MODULE ==> Peek(m, WordAt(u, 0)) != I.MAGIC
    requires M.Packable(files) && I.ImageAt(m, WordAt(t, 0), M.Image(files))
    ensures I.FirstImage(m, before + [t] + after) == I.Some(t)
    decreases |before|
  {
    hide I.ImageAt, M.Packable, M.Image, Peek;
    if before == [] {
      I.HeaderReadsBack(m, WordAt(t, 0), files);
      assert before + [t] + after == [t] + after;
    } else {
      FirstImageIs(m, before[1..], t, after, files);
      assert (before + [t] + after)[1..] == before[1..] + [t] + after;
      assert (before + [t] + after)[0] == before[0];
    }
  }

  lemma WholeModule(t: Tag, n: int)
    requires ModuleEnd(t) == WordAt(t, 0) + n && n >= 0
    ensures Wrap(WordAt(t, 1) - WordAt(t, 0)) == n
  {
  }

  lemma BytesAreImage(m: Mem, base: int, n: int)
    requires n >= 0
    ensures I.ImageAt(m, base, I.BytesAt(m, base, n))
  {
  }

  class Kernel {
    const ram: Ram
    const heap: Heap
    const pmm: Pmm
    const initrd: I.Initrd
    const multiboot: Multiboot

    /** The boot information as the boot loader laid it down. */
    ghost var tags: seq<Tag>
    /** The module the ramdisk reader has chosen, byte for byte. */
    ghost var disk: seq<byte>

    ghost predicate Wired()
      reads this, pmm
    {
      heap.ram == ram && pmm.ram == ram && initrd.ram == ram && multiboot.ram == ram
    }

    /** Modules lie below the heap, pages handed out above it, in memory the boot loader reported. */
    ghost predicate Valid()
      reads this, ram, heap, pmm, pmm.bitmap, initrd
    {
      && Wired() && heap.Valid() && heap.ready
      && (forall t :: IsModule(tags, t) ==> ModuleEnd(t) <= heap.base)
      && (if pmm.ready then pmm.Valid() && heap.end <= pmm.floor * P.PAGE else pmm.held == {})
      && (pmm.ready && AllHarmless(AllEntries(tags)) ==> forall p :: p in pmm.pool ==> Usable(AllEntries(tags), p))
      && (initrd.ready ==>
            && 0 < initrd.base && initrd.base + |disk| <= heap.base && initrd.entries == initrd.base + 8
            && 8 <= |disk| && initrd.fileCount == Peek(ram.m, initrd.base + 4)
            && I.ImageAt(ram.m, initrd.base, disk))
    }

    constructor (ram: Ram)
      ensures Unbooted()
      ensures this.ram == ram && fresh(heap) && fresh(pmm) && fresh(pmm.bitmap) && fresh(initrd) && fresh(multiboot)
    {
      this.ram := ram;
      heap := new Heap(ram);
      pmm := new Pmm(ram);
      initrd := new I.Initrd(ram);
      multiboot := new Multiboot(ram);
      tags, disk := [], [];
    }

    /** Nothing has been started yet. */
    ghost predicate Unbooted()
      reads this, ram, heap, pmm, initrd
    {
      && Wired() && !heap.ready && heap.Valid() && !pmm.ready && pmm.held == {} && !initrd.ready
      && pmm.bitmap.Length == P.BITMAP_BYTES
    }

    /** What the boot loader hands over: a readable chain of tags, clear of the first heap header, and
        modules that have a start and room for a header. */
    ghost predicate BootInfo(mbi: word, kernelEnd: word, tags: seq<Tag>)
      reads ram
    {
      && KERNEL_START <= kernelEnd && RegionFits(ModulesEnd(tags), kernelEnd)
      && (mbi != 0 ==> mbi + 8 < U32 && ChainAt(ram.m, mbi + 8, tags) && ChainEnd(mbi + 8, tags) < U32)
      && (mbi == 0 ==> tags == [])
      && (var base := HeapBase(ModulesEnd(tags), kernelEnd);
          mbi != 0 ==> ChainEnd(mbi + 8, tags) <= base || base + HEADER <= mbi + 8)
      && forall t :: IsModule(tags, t) ==> 0 < WordAt(t, 0) && WordAt(t, 0) + 8 <= ModuleEnd(t)
    }

    /** Boot, first step: the heap starts past every module. */
    method PlaceHeap(mbi: word, kernelEnd: word, ghost tags: seq<Tag>)
      requires Unbooted() && BootInfo(mbi, kernelEnd, tags)
      modifies ram, heap
      ensures heap.Valid() && heap.ready && heap.base == HeapBase(ModulesEnd(tags), kernelEnd)
      ensures heap.end == heap.base + HEAP_SIZE && heap.blocks == [Block(heap.base, HEAP_SIZE - HEADER, false)]
      ensures KERNEL_START <= heap.base && forall t :: IsModule(tags, t) ==> ModuleEnd(t) <= heap.base
      ensures mbi != 0 ==> ChainAt(ram.m, mbi + 8, tags)
      ensures SameOutside(old(ram.m), ram.m, heap.base, heap.base + HEADER)
    {
      hide ChainAt, ChainEnd, IsModule, ModulesEnd, HeapBase, RegionFits, Good, WordAt;
      ModulesEndIsMax(tags);
      var initrdEnd := PreScan(ram, mbi, tags);
      HeapBaseFacts(initrdEnd, kernelEnd);
      ghost var m0 := ram.m;
      heap.Start(initrdEnd, kernelEnd);
      if mbi != 0 { InfoSurvives(m0, ram.m, mbi + 8, tags, heap.base, heap.base + HEADER); }
    }

    /** `shiro_main` up to the first use of the memory it has arranged. */
    method Boot(mbi: word, kernelEnd: word, ghost tags: seq<Tag>)
      requires Unbooted() && BootInfo(mbi, kernelEnd, tags)
      modifies this, ram, heap, pmm, pmm.bitmap, initrd
      ensures Valid()
      ensures this.tags == tags
      ensures heap.base == HeapBase(ModulesEnd(tags), kernelEnd) && heap.end == heap.base + HEAP_SIZE
      ensures heap.blocks == [Block(heap.base, HEAP_SIZE - HEADER, false)]
      ensures pmm.ready <==> mbi != 0
      ensures pmm.ready ==> pmm.held == {} && forall p :: 0 <= p < P.MAX_PAGES ==>
                (pmm.used[p] <==> || !SomeFrees(AllEntries(tags), p)
                                  || P.Reserves(p, KERNEL_START, heap.end - KERNEL_START)
                                  || P.Reserves(p, 0, 0x10_0000))
      ensures pmm.ready && AllHarmless(AllEntries(tags)) ==> forall p :: 0 <= p < P.MAX_PAGES ==>
                (!pmm.used[p] <==> && Usable(AllEntries(tags), p)
                                   && !P.PageTouches(p, KERNEL_START, heap.end - KERNEL_START)
                                   && p * P.PAGE >= 0x10_0000)
      ensures initrd.ready <==> mbi != 0 && I.FirstImage(ram.m, tags).Some?
      ensures initrd.ready ==>
                && initrd.base == WordAt(I.FirstImage(ram.m, tags).value, 0)
                && disk == I.BytesAt(ram.m, initrd.base, initrd.length)
      ensures initrd.ready ==> initrd.length == Wrap(WordAt(I.FirstImage(ram.m, tags).value, 1) - initrd.base)
      ensures SameOutside(old(ram.m), ram.m, heap.base, heap.base + HEADER)
      ensures mbi != 0 ==> ChainAt(ram.m, mbi + 8, tags)
    {
      hide ChainAt, ChainEnd, IsModule, ModulesEnd, HeapBase, Good, P.Reserves, SomeFrees, Peek;
      hide WordAt, Pmm.Valid, Pmm.Mirrored, Pmm.Counted, Outer, I.FirstImage, AllEntries, RegionFits;
      hide AllHarmless, Usable, P.PageTouches, SameOutside;
      hide I.ImageAt, I.BytesAt;
      PlaceHeap(mbi, kernelEnd, tags);
      pmm.Start(mbi, KERNEL_START, heap.end, tags);
      initrd.Start(mbi, tags);
      OuterCovers(heap.end);
      this.tags := tags;
      if initrd.ready { FirstImageIsModule(ram.m, tags); }
      disk := if initrd.ready then I.BytesAt(ram.m, initrd.base, initrd.length) else [];
      BytesAreImage(ram.m, initrd.base, initrd.length);
    }

    /** The next step: the kernel object is allocated, and only then the boot information is read. It
        is still there if it lies clear of the whole heap. */
    method StartShiro(magic: word, mbi: word, size: word)
      requires Valid()
      requires mbi != 0 ==> mbi + 8 < U32 && ChainAt(ram.m, mbi + 8, tags) && ChainEnd(mbi + 8, tags) < U32
      requires mbi != 0 ==> ChainEnd(mbi + 8, tags) <= heap.base || heap.end <= mbi + 8
      modifies heap, ram, multiboot
      ensures Valid() && heap.base == old(heap.base) && heap.end == old(heap.end)
      ensures mbi != 0 ==> ChainAt(ram.m, mbi + 8, tags)
      ensures multiboot.valid <==> magic == BOOTLOADER_MAGIC && mbi != 0
      ensures multiboot.info == if multiboot.valid then LearnedFrom(NOTHING, mbi + 8, tags) else NOTHING
      ensures multiboot.valid ==> multiboot.info.available == Low64(Available(AllEntries(tags)))
    {
      hide ChainAt, ChainEnd, IsModule, Good, Available, Low64, LearnedFrom, WordAt, Pmm.Valid, AllEntries, Peek;
      hide AllHarmless, Usable, I.ImageAt, Placed, SameOutside, PayloadsKept;
      ghost var m0 := ram.m;
      var shiro := heap.Alloc(size);
      if initrd.ready { DiskSurvives(m0, ram.m, heap.base, heap.end, initrd.base, disk); }
      if mbi != 0 { InfoSurvives(m0, ram.m, mbi + 8, tags, heap.base, heap.end); }
      multiboot.Start(magic, mbi, tags);
    }

    /** Boot when the boot information begins where the heap does, which nothing rules out: the heap's
        first header hides every tag, so no page is free and no module is found, whatever the boot
        loader reported. */
    method BootOverInfo(mbi: word, kernelEnd: word, ghost tags: seq<Tag>)
      requires Unbooted() && KERNEL_START <= kernelEnd && RegionFits(ModulesEnd(tags), kernelEnd)
      requires 0 < mbi && mbi + 16 < U32 && ChainAt(ram.m, mbi + 8, tags) && ChainEnd(mbi + 8, tags) < U32
      requires HeapBase(ModulesEnd(tags), kernelEnd) == mbi
      modifies ram, heap, pmm, pmm.bitmap, initrd
      ensures heap.Valid() && heap.base == mbi && ChainAt(ram.m, mbi + 8, [])
      ensures pmm.ready && pmm.Valid() && forall p :: 0 <= p < P.MAX_PAGES ==> pmm.used[p]
      ensures !initrd.ready
    {
      hide ModulesEnd, HeapBase, RegionFits, Good, P.Reserves, SomeFrees, AllHarmless, Usable, Pmm.Counted, Outer;
      var initrdEnd := PreScan(ram, mbi, tags);
      HeapBaseFacts(initrdEnd, kernelEnd);
      heap.Start(initrdEnd, kernelEnd);
      FirstHeader(heap.Abs(), ram.m);
      InfoClobbered(ram.m, mbi, HEAP_SIZE - HEADER, 0);
      NoEntries();
      pmm.Start(mbi, KERNEL_START, heap.end, []);
      initrd.Start(mbi, []);
    }

    // -------------------------------------------------------------------------------------------
    // Running: page and heap calls in any order

    method AllocPage() returns (address: word)
      requires Valid()
      modifies pmm, pmm.bitmap
      ensures Valid() && pmm.ready == old(pmm.ready)
      ensures address != 0 ==> heap.end <= address && address / P.PAGE !in old(pmm.held)
      ensures address != 0 ==> address % P.PAGE == 0 && pmm.held == old(pmm.held) + {address / P.PAGE}
      ensures address == 0 ==> pmm.held == old(pmm.held)
      ensures address != 0 && AllHarmless(AllEntries(tags)) ==> Usable(AllEntries(tags), address / P.PAGE)
    {
      hide Good, IsModule, Pmm.Mirrored, Pmm.Tallied, I.ImageAt, P.LowestFree, AllHarmless, Usable, Peek;
      address := pmm.AllocPage();
      if address != 0 {
        PageAddress(address, P.LowestFree(old(pmm.used), 0));
      }
    }

    /** Everything stays in place exactly when the page was handed out or is free already. */
    method FreePage(address: word)
      requires Valid()
      modifies pmm, pmm.bitmap
      ensures pmm.ready == old(pmm.ready) && pmm.floor == old(pmm.floor)
      ensures pmm.ready ==> |pmm.used| == |old(pmm.used)| == P.MAX_PAGES
      ensures Valid() <==> !pmm.ready || !old(pmm.used)[address / P.PAGE] || address / P.PAGE in old(pmm.held)
      ensures pmm.held == old(pmm.held) - {address / P.PAGE}
    {
      hide Good, IsModule, Pmm.Tallied, I.ImageAt, P.Bit, AllHarmless, Usable, Peek;
      pmm.FreePage(address);
    }

    /** Returning the heap's first page instead makes the page manager hand it out next: one byte
        with two owners. */
    method ReturnHeapPage() returns (got: word)
      requires Valid() && pmm.ready
      modifies pmm, pmm.bitmap
      ensures got <= heap.base < got + P.PAGE && got / P.PAGE in pmm.held && got % P.PAGE == 0
      ensures heap.blocks != [] && heap.blocks[0].addr < got + P.PAGE && got < heap.blocks[0].End()
    {
      hide IsModule, Pmm.Counted, Pmm.Tallied, Pmm.Mirrored, I.ImageAt, P.Bit, Chain, Coalesced, Grained, SumUsed;
      hide SumFree, CountUsed;
      HeapShape(heap.blocks, heap.base, heap.end);
      PageBelow(heap.base, heap.end, pmm.floor);
      got := ReturnKernelPage(pmm, heap.base);
    }

    method New(size: word) returns (p: word)
      requires Valid()
      modifies heap, ram
      ensures Valid() && heap.base == old(heap.base) && heap.end == old(heap.end)
      ensures p != 0 ==> exists k :: Placed(old(heap.blocks), heap.blocks, Round(size), p, k)
      ensures p == 0 ==> heap.blocks == old(heap.blocks)
    {
      hide Good, IsModule, Pmm.Valid, I.ImageAt, AllHarmless, Usable, Peek, Placed, PayloadsKept, SameOutside;
      ghost var m0 := ram.m;
      p := heap.Alloc(size);
      if initrd.ready { DiskSurvives(m0, ram.m, heap.base, heap.end, initrd.base, disk); }
    }

    method Delete(p: word)
      requires Valid() && (p == 0 || FreeArgument(ram.m, heap.blocks, Wrap(p - HEADER)))
      modifies heap, ram
      ensures Valid() && heap.base == old(heap.base) && heap.end == old(heap.end)
      ensures heap.blocks == if p == 0 then old(heap.blocks) else FreeOne(old(heap.blocks), Wrap(p - HEADER))
    {
      hide Good, IsModule, Pmm.Valid, I.ImageAt, AllHarmless, Usable, Peek, FreeOne, FreeArgument, PayloadsKept;
      hide SameOutside;
      ghost var m0 := ram.m;
      heap.Free(p);
      if initrd.ready && p != 0 { DiskSurvives(m0, ram.m, heap.base, heap.end, initrd.base, disk); }
    }

    lemma PageAbove(p: int)
      requires Valid() && p in pmm.held
      ensures heap.end <= p * P.PAGE
    {
      hide Good, IsModule, Pmm.Mirrored, Pmm.Counted, I.ImageAt, AllHarmless, Usable, Peek;
    }

    /** An owner's store into its own heap block or its own page. */
    method Write(a: int, v: word)
      requires Valid()
      requires Aligned(a)
      requires || (exists b :: b in Live(heap.blocks) && b.Payload() <= a < b.End())
               || (exists p :: p in pmm.held && p * P.PAGE <= a < (p + 1) * P.PAGE)
      modifies ram
      ensures Valid() && Put(old(ram.m), ram.m, a, v)
    {
      hide Good, IsModule, Pmm.Valid, I.ImageAt, AllHarmless, Usable, Peek, Aligned;
      forall p | p in pmm.held
        ensures heap.end <= p * P.PAGE
      {
        PageAbove(p);
      }
      ghost var m0 := ram.m;
      ram.Store(a, v);
      WriteKeepsHeap(heap.Abs(), m0, ram.m, a, v);
      if initrd.ready { DiskSurvives(m0, ram.m, heap.base, a + 1, initrd.base, disk); }
    }

    /** No byte of memory has two owners: two heap blocks, a block and a module, a block and a page
        handed out, a module and a page, and two pages never overlap. */
    lemma NoTwoOwners()
      requires Valid()
      ensures forall i, j :: 0 <= i < j < |heap.blocks| ==> heap.blocks[i].End() <= heap.blocks[j].addr
      ensures forall t, i :: IsModule(tags, t) && 0 <= i < |heap.blocks| ==> ModuleEnd(t) <= heap.blocks[i].addr
      ensures forall p, i :: p in pmm.held && 0 <= i < |heap.blocks| ==> heap.blocks[i].End() <= p * P.PAGE
      ensures forall p, t :: p in pmm.held && IsModule(tags, t) ==> ModuleEnd(t) <= p * P.PAGE
      ensures forall p, q :: p in pmm.held && q in pmm.held && p < q ==> (p + 1) * P.PAGE <= q * P.PAGE
    {
      hide Coalesced, Chain, SumUsed, SumFree, CountUsed, Grained, IsModule, Pmm.Mirrored, Pmm.Counted, I.ImageAt;
      TiledIsOrdered(heap.blocks, heap.base, heap.end);
      forall p | p in pmm.held
        ensures heap.end <= p * P.PAGE
      {
      }
    }
  }
}
