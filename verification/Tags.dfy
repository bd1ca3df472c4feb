/**
 The multiboot2 information structure: a chain of 8-aligned tags closed by a tag of type 0
 (Multiboot2 Specification version 2.0, section 3.6.2), and what the kernel reads off it.
 */
module Tags {
  import opened Words

  const TAG_END: word := 0
  const TAG_CMDLINE: word := 1
  const TAG_MODULE: word := 3
  const TAG_MEMINFO: word := 4
  const TAG_MMAP: word := 6
  const TAG_FRAMEBUFFER: word := 8
  const MEMORY_AVAILABLE: word := 1

  /** A tag: type, size in bytes with its header, and the words after the header up to the next tag. */
  datatype Tag = Tag(typ: word, size: word, body: seq<word>)

  /** One memory-map entry (section 3.6.8). */
  datatype Entry = Entry(base: int, length: int, typ: word)

  /** `(tag->size + 7) & ~7u`. */
  function Stride(size: word): int {
    Up8(size)
  }

  function Wide(lo: word, hi: word): (r: int)
    ensures 0 <= r < U64 && r == lo + 0x1_0000_0000 * hi
  {
    lo + hi * U32
  }

  ghost predicate Sane(t: Tag) {
    && t.typ != TAG_END
    && 8 <= t.size < U32 - 8
    && |t.body| == Stride(t.size) / 4 - 2
    && (t.typ == TAG_MODULE ==> t.size >= 16)
    && (t.typ == TAG_MEMINFO ==> t.size >= 16)
    && (t.typ == TAG_MMAP ==> t.size >= 16 && t.body[0] >= 24 && t.body[0] % 4 == 0)
    && (t.typ == TAG_FRAMEBUFFER ==> t.size >= 32)
  }

  /** The chain of tags that starts at address a. */
  ghost predicate ChainAt(m: Mem, a: int, tags: seq<Tag>)
    decreases |tags|
  {
    if tags == [] then Load(m, a) == TAG_END
    else
      && TagAt(m, a, tags[0])
      && ChainAt(m, a + Stride(tags[0].size), tags[1..])
  }

  ghost predicate TagAt(m: Mem, a: int, t: Tag) {
    && Sane(t)
    && Load(m, a) == t.typ && Load(m, a + 4) == t.size
    && forall i :: 0 <= i < |t.body| ==> Load(m, a + 8 + 4 * i) == t.body[i]
  }

  /** The first address past the chain. */
  ghost function ChainEnd(a: int, tags: seq<Tag>): (r: int)
    ensures r >= a + 8
    decreases |tags|
  {
    if tags == [] then a + 8 else
      assert Stride(tags[0].size) >= 0;
      ChainEnd(a + Stride(tags[0].size), tags[1..])
  }

  // ---------------------------------------------------------------------------------------------
  // Encoding: the words a boot loader lays down, and that walking them finds exactly the tags

  function TagWords(t: Tag): seq<word> {
    [t.typ, t.size] + t.body
  }

  function Encode(tags: seq<Tag>): seq<word>
    decreases |tags|
  {
    if tags == [] then [TAG_END, 8] else TagWords(tags[0]) + Encode(tags[1..])
  }

  ghost predicate Holds(m: Mem, a: int, ws: seq<word>) {
    forall i :: 0 <= i < |ws| ==> Load(m, a + 4 * i) == ws[i]
  }

  lemma HoldsSplit(m: Mem, a: int, u: seq<word>, v: seq<word>)
    requires Holds(m, a, u + v)
    ensures Holds(m, a, u) && Holds(m, a + 4 * |u|, v)
  {
    forall i | 0 <= i < |u|
      ensures Load(m, a + 4 * i) == u[i]
    {
      assert (u + v)[i] == u[i];
    }
    forall i | 0 <= i < |v|
      ensures Load(m, a + 4 * |u| + 4 * i) == v[i]
    {
      assert (u + v)[|u| + i] == v[i];
      assert a + 4 * (|u| + i) == a + 4 * |u| + 4 * i;
    }
  }

  /** Memory that holds an encoded list of tags is a chain of exactly those tags. */
  lemma {:induction false} EncodedIsChain(m: Mem, a: int, tags: seq<Tag>)
    requires forall t :: t in tags ==> Sane(t)
    requires Holds(m, a, Encode(tags))
    ensures ChainAt(m, a, tags)
    decreases |tags|
  {
    if tags == [] {
      assert Encode(tags)[0] == TAG_END;
      assert Load(m, a + 4 * 0) == TAG_END;
    } else {
      var t := tags[0];
      HoldsSplit(m, a, TagWords(t), Encode(tags[1..]));
      assert TagWords(t)[0] == t.typ && TagWords(t)[1] == t.size;
      assert Load(m, a + 4 * 0) == t.typ && Load(m, a + 4 * 1) == t.size;
      forall i | 0 <= i < |t.body|
        ensures Load(m, a + 8 + 4 * i) == t.body[i]
      {
        assert TagWords(t)[i + 2] == t.body[i];
        assert a + 4 * (i + 2) == a + 8 + 4 * i;
      }
      assert 4 * |TagWords(t)| == Stride(t.size) by { StrideIsWords(t); }
      EncodedIsChain(m, a + Stride(t.size), tags[1..]);
    }
  }

  lemma StrideIsWords(t: Tag)
    requires Sane(t)
    ensures 4 * |TagWords(t)| == Stride(t.size)
  {
  }

  /** A walk can only ever find one list of tags. */
  lemma {:induction false} ChainIsUnique(m: Mem, a: int, s: seq<Tag>, t: seq<Tag>)
    requires ChainAt(m, a, s) && ChainAt(m, a, t)
    ensures s == t
    decreases |s|
  {
    if s == [] || t == [] {
    } else {
      assert s[0].body == t[0].body;
      ChainIsUnique(m, a + Stride(s[0].size), s[1..], t[1..]);
      assert s == [s[0]] + s[1..] && t == [t[0]] + t[1..];
    }
  }

  /** A chain is unaffected by writes outside it. */
  lemma {:induction false} ChainKept(m: Mem, n: Mem, a: int, tags: seq<Tag>)
    requires ChainAt(m, a, tags) && SameOn(m, n, a, ChainEnd(a, tags))
    ensures ChainAt(n, a, tags)
    decreases |tags|
  {
    if tags == [] {
    } else {
      var t := tags[0];
      StrideIsWords(t);
      assert ChainEnd(a, tags) == ChainEnd(a + Stride(t.size), tags[1..]);
      ChainKept(m, n, a + Stride(t.size), tags[1..]);
      forall i | 0 <= i < |t.body|
        ensures Load(n, a + 8 + 4 * i) == t.body[i]
      {
        assert Load(m, a + 8 + 4 * i) == t.body[i];
      }
    }
  }

  // ---------------------------------------------------------------------------------------------
  // The memory map

  function WordAt(t: Tag, k: int): word {
    if 0 <= k < |t.body| then t.body[k] else 0
  }

  /** Entry i of a memory-map tag; the tag says how large one entry is. */
  function EntryOf(t: Tag, i: int): Entry {
    var k := 2 + i * (WordAt(t, 0) / 4);
    Entry(Wide(WordAt(t, k), WordAt(t, k + 1)), Wide(WordAt(t, k + 2), WordAt(t, k + 3)), WordAt(t, k + 4))
  }

  function EntryCount(t: Tag): int {
    if WordAt(t, 0) == 0 then 0 else (t.size - 16) / WordAt(t, 0)
  }

  /** The entries of a tag: those of the memory map, none for any other tag. */
  ghost function Entries(t: Tag): seq<Entry> {
    if t.typ == TAG_MMAP && t.size >= 16 && EntryCount(t) >= 0 then seq(EntryCount(t), i => EntryOf(t, i)) else []
  }

  lemma EntryFits(count: int, total: int, each: int, i: int)
    requires each >= 24 && total >= 0 && count == total / each && 0 <= i < count
    ensures 0 <= i * each && i * each + each <= total
  {
    assert count * each <= total;
    assert (i + 1) * each <= count * each;
    assert (i + 1) * each == i * each + each;
  }

  /** What the kernel reads at `entries + i * entry_size` is entry i. */
  lemma EntryRead(m: Mem, a: int, t: Tag, i: int)
    requires TagAt(m, a, t) && t.typ == TAG_MMAP && 0 <= i < EntryCount(t)
    ensures var e := a + 16 + i * t.body[0];
            EntryOf(t, i) ==
            Entry(Wide(Load(m, e), Load(m, e + 4)), Wide(Load(m, e + 8), Load(m, e + 12)), Load(m, e + 16))
  {
    var each := t.body[0];
    var w := each / 4;
    EntryFits(EntryCount(t), t.size - 16, each, i);
    assert i * each == 4 * (i * w) by { assert each == 4 * w; }
    var k := 2 + i * w;
    assert 0 <= k && k + 5 <= |t.body|;
    forall j | 0 <= j < 5
      ensures Load(m, a + 16 + i * each + 4 * j) == WordAt(t, k + j)
    {
      assert Load(m, a + 8 + 4 * (k + j)) == t.body[k + j];
      assert a + 8 + 4 * (k + j) == a + 16 + i * each + 4 * j;
    }
    assert Load(m, a + 16 + i * each + 4 * 0) == WordAt(t, k + 0);
    assert Load(m, a + 16 + i * each + 4 * 1) == WordAt(t, k + 1);
    assert Load(m, a + 16 + i * each + 4 * 2) == WordAt(t, k + 2);
    assert Load(m, a + 16 + i * each + 4 * 3) == WordAt(t, k + 3);
    assert Load(m, a + 16 + i * each + 4 * 4) == WordAt(t, k + 4);
  }

  lemma EntriesOf(m: Mem, a: int, t: Tag)
    requires TagAt(m, a, t) && t.typ == TAG_MMAP
    ensures 16 <= t.size == Load(m, a + 4) && |t.body| > 0 && 24 <= t.body[0] == Load(m, a + 8)
    ensures EntryCount(t) == (t.size - 16) / t.body[0] && EntryCount(t) >= 0 && t.size <= Stride(t.size)
    ensures |Entries(t)| == EntryCount(t)
    ensures forall i :: 0 <= i < EntryCount(t) ==> Entries(t)[i] == EntryOf(t, i)
  {
    assert Load(m, a + 8 + 4 * 0) == t.body[0];
    EntryCountIs(t);
    hide EntryOf, EntryCount;
    assert t.typ == TAG_MMAP && t.size >= 16 && EntryCount(t) >= 0;
  }

  lemma EntryCountIs(t: Tag)
    requires |t.body| > 0 && t.body[0] > 0 && t.size >= 16
    ensures EntryCount(t) == (t.size - 16) / t.body[0] && EntryCount(t) >= 0
  {
  }

  /** The fields the kernel reads straight off a tag. */
  lemma TagFields(m: Mem, a: int, t: Tag)
    requires TagAt(m, a, t)
    ensures Load(m, a) == t.typ && Load(m, a + 4) == t.size
    ensures t.size >= 16 ==> WordAt(t, 0) == Load(m, a + 8) && WordAt(t, 1) == Load(m, a + 12)
    ensures t.size >= 32 ==>
              && WordAt(t, 3) == Load(m, a + 20) && WordAt(t, 4) == Load(m, a + 24)
              && WordAt(t, 5) == Load(m, a + 28)
    ensures t.typ == TAG_MODULE || t.typ == TAG_MEMINFO || t.typ == TAG_MMAP ==> t.size >= 16
    ensures t.typ == TAG_FRAMEBUFFER ==> t.size >= 32
    ensures Stride(t.size) >= t.size >= 8
  {
    if t.size >= 16 {
      assert Load(m, a + 8 + 4 * 0) == t.body[0];
      assert Load(m, a + 8 + 4 * 1) == t.body[1];
    }
    if t.size >= 32 {
      assert Load(m, a + 8 + 4 * 3) == t.body[3];
      assert Load(m, a + 8 + 4 * 4) == t.body[4];
      assert Load(m, a + 8 + 4 * 5) == t.body[5];
    }
  }

  // ---------------------------------------------------------------------------------------------
  // Walking

  /** All entries of all memory maps in the chain, in order. */
  ghost function AllEntries(tags: seq<Tag>): seq<Entry>
    decreases |tags|
  {
    if tags == [] then [] else Entries(tags[0]) + AllEntries(tags[1..])
  }

  /** One step of a walk: the cursor stands on a tag or on the end marker. */
  lemma WalkTag(m: Mem, a: int, tags: seq<Tag>)
    requires ChainAt(m, a, tags)
    ensures Load(m, a) == TAG_END <==> tags == []
    ensures tags != [] ==>
              && TagAt(m, a, tags[0]) && ChainAt(m, a + Stride(tags[0].size), tags[1..])
              && ChainEnd(a, tags) == ChainEnd(a + Stride(tags[0].size), tags[1..])
              && a + 16 <= a + Stride(tags[0].size) + 8 <= ChainEnd(a, tags)
              && Load(m, a) == tags[0].typ && Load(m, a + 4) == tags[0].size
    ensures tags == [] ==> AllEntries(tags) == []
    ensures tags != [] ==> AllEntries(tags) == Entries(tags[0]) + AllEntries(tags[1..])
    ensures tags != [] && tags[0].typ != TAG_MMAP ==> Entries(tags[0]) == []
  {
    if tags == [] {
    } else {
      assert ChainEnd(a + Stride(tags[0].size), tags[1..]) >= a + Stride(tags[0].size) + 8;
    }
  }

  // ---------------------------------------------------------------------------------------------
  // Spelled out

  /** The tag after one at a multiple of 8 begins at the first multiple of 8 that is at or past its
      end. */
  lemma NextTag(m: Mem, a: int, tags: seq<Tag>, b: int)
    requires ChainAt(m, a, tags) && tags != [] && a % 8 == 0
    requires b % 8 == 0 && a + tags[0].size <= b < a + tags[0].size + 8
    ensures ChainAt(m, b, tags[1..])
  {
    OnlyMultiple(a + Stride(tags[0].size), b, a + tags[0].size);
  }

  lemma OnlyMultiple(b: int, c: int, lo: int)
    requires b % 8 == 0 && c % 8 == 0 && lo <= b < lo + 8 && lo <= c < lo + 8
    ensures b == c
  {
  }

  /** The words of a tag: type, size, and the body from the third word on. */
  lemma TagWordsAt(m: Mem, a: int, tags: seq<Tag>, i: int)
    requires ChainAt(m, a, tags) && tags != [] && 0 <= i < |tags[0].body|
    ensures Load(m, a) == tags[0].typ != 0 && Load(m, a + 4) == tags[0].size
            && Load(m, a + 8 + 4 * i) == tags[0].body[i]
  {
  }

  /** A chain ends at a tag of type 0, and there only. */
  lemma ChainEndsAtZero(m: Mem, a: int, tags: seq<Tag>)
    requires ChainAt(m, a, tags)
    ensures tags == [] <==> Load(m, a) == 0
  {
  }

  /** How many entries a memory map has: as many as fit after its 16 bytes of header. */
  lemma EntriesFit(t: Tag)
    requires Sane(t) && t.typ == 6
    ensures 16 + |Entries(t)| * t.body[0] <= t.size < 16 + (|Entries(t)| + 1) * t.body[0]
  {
    EntryCountIs(t);
  }

  /** A memory map of one 24-byte entry. */
  lemma OneEntry(b0: word, b1: word, l0: word, l1: word, typ: word, reserved: word)
    ensures var t := Tag(6, 40, [24, 0, b0, b1, l0, l1, typ, reserved]);
            Sane(t) && Entries(t) == [Entry(b0 + 0x1_0000_0000 * b1, l0 + 0x1_0000_0000 * l1, typ)]
  {
    var t := Tag(6, 40, [24, 0, b0, b1, l0, l1, typ, reserved]);
    assert EntryCount(t) == 1;
    assert EntryOf(t, 0) == Entry(Wide(b0, b1), Wide(l0, l1), typ);
  }

  /** The entries of a chain are those of its tags, tag by tag. */
  lemma {:induction false} EntriesJoin(a: seq<Tag>, b: seq<Tag>)
    ensures AllEntries(a + b) == AllEntries(a) + AllEntries(b)
    decreases |a|
  {
    hide Entries;
    if a == [] {
      assert a + b == b;
    } else {
      EntriesJoin(a[1..], b);
      assert (a + b)[1..] == a[1..] + b && (a + b)[0] == a[0];
    }
  }

  /** Only a memory map has any. */
  lemma EntriesOfOne(t: Tag)
    ensures AllEntries([t]) == Entries(t) && (t.typ != 6 ==> Entries(t) == [])
  {
    hide EntryOf, EntryCount;
    assert [t][1..] == [];
    assert AllEntries([t]) == Entries(t) + AllEntries([]);
  }

  /** An empty command line of odd size, padded, and a module: the module is found behind the padding. */
  lemma OddTagThenModule(m: Mem, a: int, start: word, end: word)
    requires Load(m, a) == 1 && Load(m, a + 4) == 9 && Load(m, a + 8) == 0 && Load(m, a + 12) == 0
    requires Load(m, a + 16) == 3 && Load(m, a + 20) == 16 && Load(m, a + 24) == start && Load(m, a + 28) == end
    requires Load(m, a + 32) == 0
    ensures ChainAt(m, a, [Tag(1, 9, [0, 0]), Tag(3, 16, [start, end])])
  {
    var t, u := Tag(1, 9, [0, 0]), Tag(3, 16, [start, end]);
    assert Stride(9) == 16 && Stride(16) == 16;
    assert [u][1..] == [] && [t, u][1..] == [u];
    assert ChainAt(m, a + 32, []);
    assert TagAt(m, a + 16, u);
    assert ChainAt(m, a + 16, [u]);
    assert TagAt(m, a, t);
  }
}
