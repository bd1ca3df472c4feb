/** What the kernel learns from the boot information: memory sizes and the framebuffer. */
module MultibootModule {
  import opened Words
  import opened Tags

  const BOOTLOADER_MAGIC: word := 0x36d76289

  /** What a `uint64_t` keeps. */
  function Low64(x: int): (r: int)
    ensures 0 <= r < U64
  {
    x % U64
  }

  /** The fields of `System::Multiboot`; `cmdline` is the address of the string. */
  datatype Info = Info(
    memLower: word, memUpper: word, cmdline: int, mmapCount: int, available: int,
    fbAddr: int, fbWidth: word, fbHeight: word, fbBpp: int, fbType: int)

  const NOTHING: Info := Info(0, 0, 0, 0, 0, 0, 0, 0, 0, 0)

  /** The bytes of all available entries, added up. */
  ghost function Available(es: seq<Entry>): int {
    if es == [] then 0
    else Available(es[..|es| - 1]) + if es[|es| - 1].typ == MEMORY_AVAILABLE then es[|es| - 1].length else 0
  }

  lemma {:induction false} AvailableAppend(a: seq<Entry>, b: seq<Entry>)
    ensures Available(a + b) == Available(a) + Available(b)
  {
    if b == [] {
      assert a + b == a;
    } else {
      AvailableAppend(a, b[..|b| - 1]);
      assert (a + b)[..|a + b| - 1] == a + b[..|b| - 1];
    }
  }

  /** What one tag at address a adds to what is known; a later tag of a kind overrides an earlier
      one, except that available memory accumulates in 64 bits. */
  ghost function Learned(i: Info, a: int, t: Tag): Info {
    if t.typ == TAG_CMDLINE then i.(cmdline := a + 8)
    else if t.typ == TAG_MEMINFO then i.(memLower := WordAt(t, 0), memUpper := WordAt(t, 1))
    else if t.typ == TAG_MMAP then
      i.(mmapCount := EntryCount(t), available := Low64(i.available + Available(Entries(t))))
    else if t.typ == TAG_FRAMEBUFFER then
      i.(fbAddr := Wide(WordAt(t, 0), WordAt(t, 1)), fbWidth := WordAt(t, 3), fbHeight := WordAt(t, 4),
         fbBpp := WordAt(t, 5) % 256, fbType := WordAt(t, 5) / 256 % 256)
    else i
  }

  ghost function LearnedFrom(i: Info, a: int, tags: seq<Tag>): Info
    decreases |tags|
  {
    if tags == [] then i else LearnedFrom(Learned(i, a, tags[0]), a + Stride(tags[0].size), tags[1..])
  }

  /** The total is the sum of the lengths of all available entries of all memory maps. */
  lemma {:induction false} TotalIsSum(i: Info, a: int, tags: seq<Tag>)
    requires 0 <= i.available < U64
    ensures LearnedFrom(i, a, tags).available == Low64(i.available + Available(AllEntries(tags)))
    decreases |tags|
  {
    hide LearnedFrom, Learned, AllEntries, Available, Entries, Low64, Stride;
    if tags == [] {
      NoTag(i, a);
    } else {
      var j, x, y := Learned(i, a, tags[0]), Available(Entries(tags[0])), Available(AllEntries(tags[1..]));
      FirstTag(i, a, tags);
      TotalIsSum(j, a + Stride(tags[0].size), tags[1..]);
      ModSum(i.available + x, y);
    }
  }

  lemma NoTag(i: Info, a: int)
    requires 0 <= i.available < U64
    ensures LearnedFrom(i, a, []).available == Low64(i.available + Available(AllEntries([])))
  {
  }

  lemma FirstTag(i: Info, a: int, tags: seq<Tag>)
    requires 0 <= i.available < U64 && tags != []
    ensures var j := Learned(i, a, tags[0]); var x := Available(Entries(tags[0]));
            && j.available == Low64(i.available + x)
            && LearnedFrom(i, a, tags) == LearnedFrom(j, a + Stride(tags[0].size), tags[1..])
            && Available(AllEntries(tags)) == x + Available(AllEntries(tags[1..]))
  {
    LearnedTotal(i, a, tags[0]);
    hide Learned, Available, Entries, Low64, Stride;
    AvailableAppend(Entries(tags[0]), AllEntries(tags[1..]));
  }

  lemma LearnedTotal(i: Info, a: int, t: Tag)
    requires 0 <= i.available < U64
    ensures Learned(i, a, t).available == Low64(i.available + Available(Entries(t)))
  {
    hide EntryCount, EntryOf;
    if t.typ != TAG_MMAP {
      assert Entries(t) == [];
    }
  }

  lemma LowIs(x: int)
    requires 0 <= x < U64
    ensures Low64(x) == x
  {
  }

  lemma ModSum(x: int, y: int)
    ensures Low64(Low64(x) + y) == Low64(x + y)
  {
    assert x + y == (x % U64 + y) + (x / U64) * U64;
  }

  // ---------------------------------------------------------------------------------------------
  // Field by field

  ghost predicate Without(tags: seq<Tag>, typ: word) {
    forall u :: u in tags ==> u.typ != typ
  }

  /** Tags of other types leave a field alone. */
  lemma {:induction false} Untouched(i: Info, a: int, tags: seq<Tag>)
    ensures var r := LearnedFrom(i, a, tags);
            && (Without(tags, 1) ==> r.cmdline == i.cmdline)
            && (Without(tags, 4) ==> r.memLower == i.memLower && r.memUpper == i.memUpper)
            && (Without(tags, 6) ==> r.mmapCount == i.mmapCount && r.available == i.available)
            && (Without(tags, 8) ==>
                  && r.fbAddr == i.fbAddr && r.fbWidth == i.fbWidth && r.fbHeight == i.fbHeight
                  && r.fbBpp == i.fbBpp && r.fbType == i.fbType)
    decreases |tags|
  {
    hide Available, Entries, EntryCount, Stride, Low64, WordAt, Wide;
    if tags != [] {
      assert tags[0] in tags;
      Untouched(Learned(i, a, tags[0]), a + Stride(tags[0].size), tags[1..]);
    }
  }

  lemma {:induction false} LearnedJoin(i: Info, a: int, before: seq<Tag>, rest: seq<Tag>)
    ensures LearnedFrom(i, a, before + rest) == LearnedFrom(LearnedFrom(i, a, before), ChainEnd(a, before) - 8, rest)
    decreases |before|
  {
    hide Learned, Stride;
    if before == [] {
      assert before + rest == rest;
    } else {
      LearnedJoin(Learned(i, a, before[0]), a + Stride(before[0].size), before[1..], rest);
      assert (before + rest)[1..] == before[1..] + rest && (before + rest)[0] == before[0];
    }
  }

  lemma {:induction false} ChainFrom(m: Mem, a: int, before: seq<Tag>, rest: seq<Tag>)
    requires ChainAt(m, a, before + rest)
    ensures ChainAt(m, ChainEnd(a, before) - 8, rest)
    decreases |before|
  {
    hide TagAt;
    if before == [] {
      assert before + rest == rest;
    } else {
      assert (before + rest)[1..] == before[1..] + rest && (before + rest)[0] == before[0];
      ChainFrom(m, a + Stride(before[0].size), before[1..], rest);
    }
  }

  /** What the last tag of its type in a chain t comes to, in its words: the body starts with the
      third word of the tag. */
  ghost predicate Told(m: Mem, r: Info, t: Tag, after: seq<Tag>) {
    && (t.typ == 1 ==> ChainAt(m, r.cmdline - 8, [t] + after))
    && (t.typ == 4 ==> |t.body| >= 2 && r.memLower == t.body[0] && r.memUpper == t.body[1])
    && (t.typ == 6 ==> |t.body| >= 2 && 16 + r.mmapCount * t.body[0] <= t.size < 16 + (r.mmapCount + 1) * t.body[0])
    && (t.typ == 8 ==>
          && |t.body| >= 6 && r.fbAddr == t.body[0] as int + 0x1_0000_0000 * t.body[1] as int
          && r.fbWidth == t.body[3] && r.fbHeight == t.body[4]
          && r.fbBpp == t.body[5] % 256 && r.fbType == t.body[5] / 256 % 256)
  }

  /** Every field is what the last tag of its type says: the body starts with the tag's third word, and the
      command line where the tag's chain has its third word. */
  lemma LastTagTells(m: Mem, i: Info, a: int, before: seq<Tag>, t: Tag, after: seq<Tag>)
    requires ChainAt(m, a, before + [t] + after) && forall u :: u in after ==> u.typ != t.typ
    ensures var r := LearnedFrom(i, a, before + [t] + after);
            && (t.typ == 1 ==> ChainAt(m, r.cmdline - 8, [t] + after))
            && (t.typ == 4 ==> |t.body| >= 2 && r.memLower == t.body[0] && r.memUpper == t.body[1])
            && (t.typ == 6 ==>
                  |t.body| >= 2 && 16 + r.mmapCount * t.body[0] <= t.size < 16 + (r.mmapCount + 1) * t.body[0])
            && (t.typ == 8 ==>
                  && |t.body| >= 6 && r.fbAddr == t.body[0] as int + 0x1_0000_0000 * t.body[1] as int
                  && r.fbWidth == t.body[3] && r.fbHeight == t.body[4]
                  && r.fbBpp == t.body[5] % 256 && r.fbType == t.body[5] / 256 % 256)
  {
    hide LearnedFrom, ChainAt;
    LastTagTold(m, i, a, before, t, after);
  }

  lemma LastTagTold(m: Mem, i: Info, a: int, before: seq<Tag>, t: Tag, after: seq<Tag>)
    requires ChainAt(m, a, before + [t] + after) && Without(after, t.typ)
    ensures Told(m, LearnedFrom(i, a, before + [t] + after), t, after)
  {
    assert before + [t] + after == before + ([t] + after);
    ChainFrom(m, a, before, [t] + after);
    LearnedJoin(i, a, before, [t] + after);
    var j, b := LearnedFrom(i, a, before), ChainEnd(a, before) - 8;
    assert ([t] + after)[0] == t && ([t] + after)[1..] == after;
    assert TagAt(m, b, t);
    OneTagTells(m, j, b, t, after);
    Untouched(Learned(j, b, t), b + Stride(t.size), after);
    hide Learned, TagAt, Sane, Stride, WordAt, ChainAt;
  }

  lemma OneTagTells(m: Mem, i: Info, a: int, t: Tag, after: seq<Tag>)
    requires ChainAt(m, a, [t] + after) && Sane(t)
    ensures Told(m, Learned(i, a, t), t, after)
  {
    if t.typ == 6 {
      EntriesFit(t);
      assert EntryCount(t) == |Entries(t)| by { EntryCountIs(t); }
    }
    hide ChainAt, Entries, Available;
  }

  /** The total of available memory: type 1 counts in full, anything else not at all. */
  lemma AvailableOne(e: Entry)
    ensures Available([e]) == if e.typ == 1 then e.length else 0
    ensures Low64(Available([e])) == (if e.typ == 1 then e.length else 0) % 0x1_0000_0000_0000_0000
  {
    assert [e][..0] == [];
  }

  class Multiboot {
    const ram: Ram
    var valid: bool
    var info: Info

    constructor (ram: Ram)
      ensures this.ram == ram && !valid && info == NOTHING
    {
      this.ram, valid, info := ram, false, NOTHING;
    }

    /** Walks the whole chain once. A wrong magic or a null pointer leaves everything at zero. */
    method Start(magic: word, mbi: word, ghost tags: seq<Tag>)
      requires mbi != 0 ==> mbi + 8 < U32 && ChainAt(ram.m, mbi + 8, tags) && ChainEnd(mbi + 8, tags) < U32
      modifies this
      ensures valid <==> magic == 0x36d7_6289 && mbi != 0
      ensures info == if valid then LearnedFrom(NOTHING, mbi + 8, tags) else NOTHING
      ensures valid ==> info.available == Low64(Available(AllEntries(tags)))
    {
      hide Learned, ChainAt, ChainEnd, TagAt, Sane, Stride, Entries, Available, EntryCount;
      valid, info := false, NOTHING;
      if magic != BOOTLOADER_MAGIC { return; }
      if mbi == 0 { return; }
      valid := true;
      TotalIsSum(NOTHING, mbi + 8, tags);
      var cursor: word := mbi + 8;
      ghost var rest := tags;
      while true
        invariant valid && ChainAt(ram.m, cursor, rest) && ChainEnd(cursor, rest) == ChainEnd(mbi + 8, tags)
        invariant 0 <= info.available < U64
        invariant LearnedFrom(info, cursor, rest) == LearnedFrom(NOTHING, mbi + 8, tags)
        decreases |rest|
      {
        WalkTag(ram.m, cursor, rest);
        if Load(ram.m, cursor) == TAG_END { break; }
        Learn(cursor, rest[0]);
        cursor := cursor + Stride(Load(ram.m, cursor + 4));
        rest := rest[1..];
      }
    }

    /** The `switch` over the type of one tag. */
    method Learn(tag: word, ghost t: Tag)
      requires TagAt(ram.m, tag, t) && tag + Stride(t.size) < U32 && 0 <= info.available < U64
      modifies `info
      ensures info == Learned(old(info), tag, t) && 0 <= info.available < U64
    {
      TagFields(ram.m, tag, t);
      if t.typ == TAG_MMAP { EntriesOf(ram.m, tag, t); }
      hide Sane, TagAt, Stride, WordAt, Entries, EntryCount;
      var typ := Load(ram.m, tag);
      if typ == TAG_CMDLINE {
        info := info.(cmdline := tag + 8);
      } else if typ == TAG_MEMINFO {
        info := info.(memLower := Load(ram.m, tag + 8), memUpper := Load(ram.m, tag + 12));
      } else if typ == TAG_MMAP {
        var total := AddEntries(tag, t, info.available);
        info := info.(mmapCount := (Load(ram.m, tag + 4) - 16) / Load(ram.m, tag + 8), available := total);
      } else if typ == TAG_FRAMEBUFFER {
        info := info.(fbAddr := Wide(Load(ram.m, tag + 8), Load(ram.m, tag + 12)),
          fbWidth := Load(ram.m, tag + 20), fbHeight := Load(ram.m, tag + 24),
          fbBpp := Load(ram.m, tag + 28) % 256, fbType := Load(ram.m, tag + 28) / 256 % 256);
      }
    }

    /** Adds the available entries of one memory map to a 64-bit total. */
    method AddEntries(tag: word, ghost t: Tag, total0: int) returns (total: int)
      requires TagAt(ram.m, tag, t) && t.typ == TAG_MMAP && tag + Stride(t.size) < U32 && 0 <= total0 < U64
      ensures total == Low64(total0 + Available(Entries(t))) && 0 <= total < U64
    {
      hide Sane, TagAt, EntryOf, EntryCount, Entries, Low64, Wide, Stride;
      EntriesOf(ram.m, tag, t);
      var entriesSize := Load(ram.m, tag + 4) - 16;
      var each := Load(ram.m, tag + 8);
      var count := entriesSize / each;
      var e := tag + 16;
      total := total0;
      var i := 0;
      assert Entries(t)[..0] == [];
      LowIs(total0);
      while i < count
        invariant 0 <= i <= count
        invariant total == Low64(total0 + Available(Entries(t)[..i])) && 0 <= total < U64
      {
        EntryFits(count, entriesSize, each, i);
        EntryRead(ram.m, tag, t, i);
        var at := e + i * each;
        assert Entries(t)[..i + 1][..i] == Entries(t)[..i];
        if Load(ram.m, at + 16) == MEMORY_AVAILABLE {
          ModSum(total0 + Available(Entries(t)[..i]), Wide(Load(ram.m, at + 8), Load(ram.m, at + 12)));
          total := Low64(total + Wide(Load(ram.m, at + 8), Load(ram.m, at + 12)));
        }
        i := i + 1;
      }
      assert Entries(t)[..count] == Entries(t);
    }
  }
}
