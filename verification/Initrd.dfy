/** The ramdisk reader: finds the image among the boot modules and files inside it by name. */
module InitrdModule {
  import opened Words
  import opened Tags
  import M = Mkinitrd

  const MAGIC: word := 0x53484952
  const NAME_LEN: int := 32
  const ENTRY_LEN: int := 40

  datatype Option<+T> = None | Some(value: T)

  /** The first module whose first word is the magic. */
  ghost function FirstImage(m: Mem, tags: seq<Tag>): Option<Tag>
    decreases |tags|
  {
    if tags == [] then None
    else if tags[0].typ == TAG_MODULE && Peek(m, WordAt(tags[0], 0)) == MAGIC then Some(tags[0])
    else FirstImage(m, tags[1..])
  }

  /** Four bytes at an address: 82, 73, 72, 83, the letters of the magic back to front. */
  ghost predicate Marked(m: Mem, a: int) {
    ByteAt(m, a) == 82 && ByteAt(m, a + 1) == 73 && ByteAt(m, a + 2) == 72 && ByteAt(m, a + 3) == 83
  }

  /** In terms of words and bytes: the image is a module that is marked, the first such; there is
      none exactly when no module is. */
  lemma {:induction false} FirstImageSpelledOut(m: Mem, tags: seq<Tag>)
    requires forall t :: t in tags ==> Sane(t)
    ensures FirstImage(m, tags).None? <==> forall t :: t in tags && t.typ == 3 ==>
            |t.body| >= 2 && !Marked(m, t.body[0])
    ensures FirstImage(m, tags).Some? ==>
              exists i :: 0 <= i < |tags| && tags[i] == FirstImage(m, tags).value && IsMarked(m, tags[i]) &&
                          forall j :: 0 <= j < i ==> !IsMarked(m, tags[j])
    decreases |tags|
  {
    hide Peek, Marked, Sane;
    if tags != [] {
      var t := tags[0];
      assert t in tags;
      MarkedIsMagic(m, t);
      FirstImageSpelledOut(m, tags[1..]);
      if IsMarked(m, t) {
        assert tags[0] == FirstImage(m, tags).value;
      } else if FirstImage(m, tags[1..]).Some? {
        var i :| 0 <= i < |tags[1..]| && tags[1..][i] == FirstImage(m, tags[1..]).value && IsMarked(m, tags[1..][i]) &&
                 forall j :: 0 <= j < i ==> !IsMarked(m, tags[1..][j]);
        assert tags[i + 1] == tags[1..][i];
        assert forall j :: 1 <= j < i + 1 ==> tags[j] == tags[1..][j - 1];
      }
    }
  }

  ghost predicate IsMarked(m: Mem, t: Tag) {
    t.typ == 3 && |t.body| >= 2 && Marked(m, t.body[0])
  }

  lemma MarkedIsMagic(m: Mem, t: Tag)
    requires Sane(t)
    ensures t.typ == 3 ==> |t.body| >= 2
    ensures IsMarked(m, t) <==> t.typ == 3 && Peek(m, WordAt(t, 0)) == MAGIC
  {
    if t.typ == 3 {
      BytesOfMagic(m, t.body[0]);
    }
  }

  lemma BytesOfMagic(m: Mem, a: int)
    ensures Marked(m, a) <==> Peek(m, a) == MAGIC
  {
    hide Peek, ByteAt;
    WordFromBytes(m, a);
  }

  /** A C string: the bytes up to but excluding the terminating NUL. */
  ghost predicate CString(name: seq<byte>) {
    forall i :: 0 <= i < |name| ==> name[i] != 0
  }

  function CharAt(name: seq<byte>, i: int): byte
    requires 0 <= i
  {
    if i < |name| then name[i] else 0
  }

  /** The 32-byte name field at a agrees with the C string `name`, as far as `strncmp` looks. */
  ghost predicate NameIs(m: Mem, a: int, name: seq<byte>) {
    forall i :: 0 <= i < NAME_LEN && i <= |name| ==> ByteAt(m, a + i) == CharAt(name, i)
  }

  /** Byte i is the first in which the field and the name differ. */
  ghost predicate Differ(m: Mem, a: int, name: seq<byte>, i: int) {
    && 0 <= i < NAME_LEN && i <= |name| && ByteAt(m, a + i) != CharAt(name, i)
    && forall j :: 0 <= j < i ==> ByteAt(m, a + j) == CharAt(name, j) != 0
  }

  /** The lowest entry from i on whose name field agrees with `name`; `count` if none. */
  ghost function FirstNamed(m: Mem, entries: int, count: int, name: seq<byte>, i: int): (r: int)
    requires 0 <= i <= count
    ensures i <= r <= count
    ensures r < count ==> NameIs(m, entries + r * ENTRY_LEN, name)
    ensures forall j :: i <= j < r ==> !NameIs(m, entries + j * ENTRY_LEN, name)
    decreases count - i
  {
    hide NameIs;
    if i == count || NameIs(m, entries + i * ENTRY_LEN, name) then i else FirstNamed(m, entries, count, name, i + 1)
  }

  class Initrd {
    const ram: Ram
    var base: word
    var length: word
    var fileCount: word
    var entries: word
    var ready: bool

    constructor (ram: Ram)
      ensures this.ram == ram && !ready
    {
      this.ram := ram;
      base, length, fileCount, entries, ready := 0, 0, 0, 0, false;
    }

    /** Remembers the first module that starts with the magic; modules without it are skipped. */
    method Start(mbi: word, ghost tags: seq<Tag>)
      requires mbi != 0 ==> mbi + 8 < U32 && ChainAt(ram.m, mbi + 8, tags) && ChainEnd(mbi + 8, tags) < U32
      modifies this
      ensures ready <==> mbi != 0 && FirstImage(ram.m, tags).Some?
      ensures ready ==>
                var t := FirstImage(ram.m, tags).value;
                && base == WordAt(t, 0) && length == Wrap(WordAt(t, 1) - WordAt(t, 0))
                && fileCount == Peek(ram.m, Wrap(base + 4)) && entries == Wrap(base + 8)
      ensures !ready ==> base == 0 && length == 0 && fileCount == 0 && entries == 0
    {
      hide ChainAt, ChainEnd, TagAt, Sane, Stride, WordAt, Peek;
      ready := false;
      base, length, fileCount, entries := 0, 0, 0, 0;
      if mbi == 0 { return; }
      var cursor: word := mbi + 8;
      ghost var rest := tags;
      while true
        invariant ChainAt(ram.m, cursor, rest) && ChainEnd(cursor, rest) == ChainEnd(mbi + 8, tags)
        invariant FirstImage(ram.m, rest) == FirstImage(ram.m, tags)
        invariant !ready && base == 0 && length == 0 && fileCount == 0 && entries == 0
        decreases |rest|
      {
        WalkTag(ram.m, cursor, rest);
        if Load(ram.m, cursor) == TAG_END { break; }
        TagFields(ram.m, cursor, rest[0]);
        if Load(ram.m, cursor) == TAG_MODULE {
          var modStart: int := Load(ram.m, cursor + 8);
          var modEnd: int := Load(ram.m, cursor + 12);
          if Peek(ram.m, modStart) == MAGIC {
            base := modStart;
            length := Wrap(modEnd - modStart);
            fileCount := Peek(ram.m, Wrap(modStart + 4));
            entries := Wrap(modStart + 8);
            ready := true;
            return;
          }
        }
        cursor := cursor + Stride(Load(ram.m, cursor + 4));
        rest := rest[1..];
      }
    }

    /** `strncmp_(a, name, 32)`: zero exactly when the field at a agrees with the name. */
    method Strncmp(a: int, name: seq<byte>) returns (r: int)
      requires CString(name)
      ensures r == 0 <==> NameIs(ram.m, a, name)
      ensures r != 0 ==> exists i :: Differ(ram.m, a, name, i) && r == ByteAt(ram.m, a + i) as int - CharAt(name, i)
    {
      hide ByteAt;
      var i := 0;
      while i < NAME_LEN
        invariant 0 <= i <= NAME_LEN && i <= |name|
        invariant forall j :: 0 <= j < i ==> ByteAt(ram.m, a + j) == CharAt(name, j)
      {
        var ca: int := ByteAt(ram.m, a + i);
        var cb: int := CharAt(name, i);
        if ca != cb {
          assert Differ(ram.m, a, name, i);
          return ca - cb;
        }
        if ca == 0 { return 0; }
        i := i + 1;
      }
      return 0;
    }

    /** The address of the first entry with that name; 0 when there is none. */
    method Find(name: seq<byte>) returns (e: int)
      requires CString(name)
      requires ready ==> entries > 0
      ensures e == 0 <==> !ready || FirstNamed(ram.m, entries, fileCount, name, 0) == fileCount
      ensures e != 0 ==> e == entries + FirstNamed(ram.m, entries, fileCount, name, 0) * ENTRY_LEN
    {
      hide NameIs, CString;
      if !ready { return 0; }
      var i := 0;
      while i < fileCount
        invariant 0 <= i <= fileCount
        invariant FirstNamed(ram.m, entries, fileCount, name, 0) == FirstNamed(ram.m, entries, fileCount, name, i)
      {
        var r := Strncmp(entries + i * ENTRY_LEN, name);
        if r == 0 { return entries + i * ENTRY_LEN; }
        i := i + 1;
      }
      return 0;
    }

    /** The address of a file's bytes. */
    method Data(e: int) returns (d: int)
      ensures d == if !ready || e == 0 then 0 else Wrap(base + Peek(ram.m, e + 36))
    {
      if !ready || e == 0 { return 0; }
      var b: int := base;
      return Wrap(b + Peek(ram.m, e + 36));
    }
  }

  // ---------------------------------------------------------------------------------------------
  // Reading back what the packer wrote

  /** An image lies in memory at base, byte for byte. */
  ghost predicate ImageAt(m: Mem, base: int, image: seq<byte>) {
    forall i :: 0 <= i < |image| ==> ByteAt(m, base + i) == image[i]
  }

  function ByteOf(image: seq<byte>, i: int): byte {
    if 0 <= i < |image| then image[i] else 0
  }

  /** The word a boot loader leaves at address a when it puts an image at base. */
  function LoadedWord(image: seq<byte>, base: int, a: int): word {
    var i := a - base;
    ByteOf(image, i) + 256 * ByteOf(image, i + 1) + 65536 * ByteOf(image, i + 2) + 16777216 * ByteOf(image, i + 3)
  }

  function Loaded(image: seq<byte>, base: int): Mem {
    map a | base <= a < base + |image| :: LoadedWord(image, base, a)
  }

  lemma WordJoin(b0: byte, b1: byte, b2: byte, b3: byte)
    ensures var w := b0 + 256 * b1 + 65536 * b2 + 16777216 * b3;
            w % 256 == b0 && w / 256 % 256 == b1 && w / 65536 % 256 == b2 && w / 16777216 % 256 == b3
  {
    var w := b0 + 256 * b1 + 65536 * b2 + 16777216 * b3;
    assert w / 256 == b1 + 256 * b2 + 65536 * b3;
    assert w / 65536 == b2 + 256 * b3;
    assert w / 16777216 == b3;
  }

  lemma LoadedBytes(image: seq<byte>, base: int, a: int)
    ensures var w, i := LoadedWord(image, base, a), a - base;
            && w % 256 == ByteOf(image, i) && w / 256 % 256 == ByteOf(image, i + 1)
            && w / 65536 % 256 == ByteOf(image, i + 2) && w / 16777216 % 256 == ByteOf(image, i + 3)
  {
    var i := a - base;
    WordJoin(ByteOf(image, i), ByteOf(image, i + 1), ByteOf(image, i + 2), ByteOf(image, i + 3));
  }

  lemma LoadedByte(image: seq<byte>, base: int, a: int, r: int)
    requires a % 4 == 0 && base <= a < base + |image| && 0 <= r < 4
    ensures ByteAt(Loaded(image, base), a + r) == ByteOf(image, a - base + r)
  {
    hide ByteAt, LoadedWord, ByteOf;
    LoadedBytes(image, base, a);
    BytesOfWord(Loaded(image, base), a);
    assert r == 0 || r == 1 || r == 2 || r == 3;
  }

  /** Any image can lie in memory at any aligned address. */
  lemma LoadedIsImage(image: seq<byte>, base: int)
    requires base % 4 == 0
    ensures ImageAt(Loaded(image, base), base, image)
  {
    hide ByteAt, Loaded;
    forall i | 0 <= i < |image|
      ensures ByteAt(Loaded(image, base), base + i) == image[i]
    {
      var r := i % 4;
      assert (base + i - r) % 4 == 0;
      LoadedByte(image, base, base + i - r, r);
      assert base + i - r + r == base + i;
    }
  }

  lemma BytesOfWord(m: Mem, a: int)
    requires a % 4 == 0
    ensures ByteAt(m, a) == Load(m, a) % 256 && ByteAt(m, a + 1) == Load(m, a) / 256 % 256
    ensures ByteAt(m, a + 2) == Load(m, a) / 65536 % 256 && ByteAt(m, a + 3) == Load(m, a) / 16777216 % 256
  {
    assert (a + 1) % 4 == 1 && (a + 2) % 4 == 2 && (a + 3) % 4 == 3;
  }

  /** A little-endian word is its four bytes, wherever it begins. */
  lemma WordFromBytes(m: Mem, a: int)
    ensures Peek(m, a) == ByteAt(m, a) + 256 * ByteAt(m, a + 1) + 65536 * ByteAt(m, a + 2) + 16777216 * ByteAt(m, a + 3)
  {
    hide ByteAt;
    if Aligned(a) {
      BytesOfWord(m, a);
      WordSplit(Load(m, a));
    }
  }

  lemma WordSplit(w: word)
    ensures w == w % 256 + 256 * (w / 256 % 256) + 65536 * (w / 65536 % 256) + 16777216 * (w / 16777216 % 256)
  {
    assert w == 256 * (w / 256) + w % 256;
    assert w / 256 == 256 * (w / 256 / 256) + w / 256 % 256;
    assert w / 65536 == w / 256 / 256;
    assert w / 65536 == 256 * (w / 65536 / 256) + w / 65536 % 256;
    assert w / 16777216 == w / 65536 / 256;
    assert w / 16777216 < 256;
  }

  lemma Le32ReadsBack(m: Mem, a: int, n: word)
    requires forall j :: 0 <= j < 4 ==> ByteAt(m, a + j) == M.Le32(n)[j]
    ensures Peek(m, a) == n
  {
    hide ByteAt, Peek;
    WordFromBytes(m, a);
    assert ByteAt(m, a + 0) == M.Le32(n)[0] && ByteAt(m, a + 1) == M.Le32(n)[1];
    assert ByteAt(m, a + 2) == M.Le32(n)[2] && ByteAt(m, a + 3) == M.Le32(n)[3];
    WordSplit(n);
  }

  /** The bytes of memory from d on. */
  ghost function BytesAt(m: Mem, d: int, n: int): (r: seq<byte>)
    requires n >= 0
    ensures |r| == n
  {
    seq<byte>(n, j => ByteAt(m, d + j))
  }

  lemma BytesAreThose(m: Mem, base: int, image: seq<byte>)
    requires ImageAt(m, base, image)
    ensures BytesAt(m, base, |image|) == image
  {
  }

  lemma SliceInMemory(m: Mem, base: int, image: seq<byte>, i: int, part: seq<byte>)
    requires ImageAt(m, base, image) && 0 <= i && i + |part| <= |image| && image[i..i + |part|] == part
    ensures forall j :: 0 <= j < |part| ==> ByteAt(m, base + i + j) == part[j]
    ensures BytesAt(m, base + i, |part|) == part
  {
    forall j | 0 <= j < |part|
      ensures ByteAt(m, base + i + j) == part[j]
    {
      assert image[i..i + |part|][j] == image[i + j];
      assert base + (i + j) == base + i + j;
    }
  }

  lemma HeaderReadsBack(m: Mem, base: int, files: seq<M.File>)
    requires M.Packable(files) && ImageAt(m, base, M.Image(files))
    ensures Peek(m, base) == MAGIC && Peek(m, base + 4) == |files|
  {
    hide M.Image, M.Le32, Peek, ByteAt, ImageAt;
    M.ImageHead(files);
    SliceInMemory(m, base, M.Image(files), 0, M.Le32(M.MAGIC));
    SliceInMemory(m, base, M.Image(files), 4, M.Le32(|files|));
    Le32ReadsBack(m, base, M.MAGIC);
    Le32ReadsBack(m, base + 4, |files|);
  }

  /** Entry i in memory, byte for byte. */
  lemma EntryInMemory(m: Mem, base: int, files: seq<M.File>, i: int)
    requires M.Packable(files) && ImageAt(m, base, M.Image(files)) && 0 <= i < |files|
    ensures forall j :: 0 <= j < ENTRY_LEN ==> ByteAt(m, base + 8 + i * ENTRY_LEN + j) == M.EntryBytes(files, i)[j]
  {
    hide M.Image, M.EntryBytes, M.Offset;
    M.EntryInImage(files, i);
    SliceInMemory(m, base, M.Image(files), 8 + i * ENTRY_LEN, M.EntryBytes(files, i));
    assert base + (8 + i * ENTRY_LEN) == base + 8 + i * ENTRY_LEN;
  }

  lemma EntryParts(files: seq<M.File>, i: int)
    requires 0 <= i < |files| && |files[i].payload| < U32 && M.Offset(files, i) < U32
    ensures var b := M.EntryBytes(files, i);
            && (forall j :: 0 <= j < NAME_LEN ==> b[j] == M.PackName(files[i].name)[j])
            && (forall j :: 0 <= j < 4 ==> b[32 + j] == M.Le32(|files[i].payload|)[j])
            && (forall j :: 0 <= j < 4 ==> b[36 + j] == M.Le32(M.Offset(files, i))[j])
  {
    hide M.Le32, M.PackName, M.Offset;
  }

  /** Entry i in memory: its name field, its size and its offset. */
  lemma EntryReadsBack(m: Mem, base: int, files: seq<M.File>, i: int)
    requires M.Packable(files) && ImageAt(m, base, M.Image(files)) && 0 <= i < |files|
    ensures var e := base + 8 + i * ENTRY_LEN;
            && (forall j :: 0 <= j < NAME_LEN ==> ByteAt(m, e + j) == M.PackName(files[i].name)[j])
            && Peek(m, e + 32) == |files[i].payload| && Peek(m, e + 36) == M.Offset(files, i)
  {
    hide M.Image, M.Le32, M.PackName, M.Offset, M.EntryBytes, ByteAt, ImageAt, Peek;
    EntryInMemory(m, base, files, i);
    EntryParts(files, i);
    var e := base + 8 + i * ENTRY_LEN;
    var b := M.EntryBytes(files, i);
    forall j | 0 <= j < 4
      ensures ByteAt(m, e + 32 + j) == M.Le32(|files[i].payload|)[j]
    {
      assert ByteAt(m, e + (32 + j)) == b[32 + j];
    }
    forall j | 0 <= j < 4
      ensures ByteAt(m, e + 36 + j) == M.Le32(M.Offset(files, i))[j]
    {
      assert ByteAt(m, e + (36 + j)) == b[36 + j];
    }
    Le32ReadsBack(m, e + 32, |files[i].payload|);
    Le32ReadsBack(m, e + 36, M.Offset(files, i));
  }

  lemma PackedField(stored: seq<byte>)
    ensures forall j :: 0 <= j < NAME_LEN ==> M.PackName(stored)[j] == CharAt(M.Cut(stored), j)
  {
  }

  /** A packed field agrees with a name exactly when the name is what the packer kept. */
  lemma PackedNameIs(m: Mem, e: int, stored: seq<byte>, name: seq<byte>)
    requires CString(stored) && CString(name)
    requires forall j :: 0 <= j < NAME_LEN ==> ByteAt(m, e + j) == M.PackName(stored)[j]
    ensures NameIs(m, e, name) <==> name == M.Cut(stored)
  {
    PackedField(stored);
    hide M.Cut, M.PackName, ByteAt;
    var c := M.Cut(stored);
    assert CString(c) by { CutIsCString(stored); }
    if NameIs(m, e, name) {
      assert |c| <= |name| ==> ByteAt(m, e + |c|) == CharAt(name, |c|) == CharAt(c, |c|);
      assert |name| <= |c| ==> ByteAt(m, e + |name|) == CharAt(name, |name|) == CharAt(c, |name|);
      forall j | 0 <= j < |c| && j < |name|
        ensures name[j] == c[j]
      {
        assert ByteAt(m, e + j) == CharAt(name, j);
        assert ByteAt(m, e + j) == M.PackName(stored)[j];
      }
    }
  }

  lemma CutIsCString(name: seq<byte>)
    requires CString(name)
    ensures CString(M.Cut(name))
  {
  }

  /** Byte-wise lexicographic order, which is the order of the packer's sorted file list. */
  predicate Before(a: seq<byte>, b: seq<byte>)
    decreases |a|
  {
    b != [] && (a == [] || a[0] < b[0] || (a[0] == b[0] && Before(a[1..], b[1..])))
  }

  lemma {:induction false} PrefixIsNotAfter(a: seq<byte>, b: seq<byte>)
    requires a <= b
    ensures !Before(b, a)
    decreases |a|
  {
    if a != [] {
      PrefixIsNotAfter(a[1..], b[1..]);
    }
  }

  /** The names are C strings in strictly ascending order. */
  ghost predicate SortedNames(files: seq<M.File>) {
    && (forall i :: 0 <= i < |files| ==> CString(files[i].name))
    && (forall i, j :: 0 <= i < j < |files| ==> Before(files[i].name, files[j].name))
  }

  /** No file that comes earlier in the archive is cut to the name of file i. */
  lemma NoEarlierNamesake(files: seq<M.File>, j: int, i: int)
    requires SortedNames(files) && 0 <= j < i < |files|
    ensures files[i].name != M.Cut(files[j].name)
  {
    if files[i].name == M.Cut(files[j].name) {
      PrefixIsNotAfter(files[i].name, files[j].name);
      assert false;
    }
  }

  /** Looking up any name in a packed archive finds the first file the packer cut to that name. */
  lemma {:induction false} FoundIsFirstCut(m: Mem, base: int, files: seq<M.File>, name: seq<byte>, i: int)
    requires M.Packable(files) && ImageAt(m, base, M.Image(files))
    requires CString(name) && forall j :: 0 <= j < |files| ==> CString(files[j].name)
    requires 0 <= i <= |files|
    ensures var r := FirstNamed(m, base + 8, |files|, name, i);
            && (r < |files| ==> name == M.Cut(files[r].name))
            && forall j :: i <= j < r ==> name != M.Cut(files[j].name)
    decreases |files| - i
  {
    hide NameIs, M.Image, M.Offset, M.PackName, Peek;
    if i < |files| {
      EntryReadsBack(m, base, files, i);
      PackedNameIs(m, base + 8 + i * ENTRY_LEN, files[i].name, name);
      FoundIsFirstCut(m, base, files, name, i + 1);
    }
  }

  /** The packer and the reader undo each other: in an archive of sorted names a file is found
      under its own name, with its own size and bytes, exactly when its name is at most 31 bytes
      long. This holds even when longer names are cut to the same 31 bytes. */
  lemma PackedFileIsFound(m: Mem, base: int, files: seq<M.File>, i: int)
    requires M.Packable(files) && ImageAt(m, base, M.Image(files))
    requires SortedNames(files) && 0 <= i < |files|
    ensures FirstNamed(m, base + 8, |files|, files[i].name, 0) == i <==> |files[i].name| <= 31
    ensures |files[i].name| > 31 ==> FirstNamed(m, base + 8, |files|, files[i].name, 0) == |files|
    ensures var e := base + 8 + i * ENTRY_LEN;
            && Peek(m, e + 32) == |files[i].payload|
            && BytesAt(m, base + Peek(m, e + 36), |files[i].payload|) == files[i].payload
            && base + Peek(m, e + 36) + |files[i].payload| <= base + |M.Image(files)|
  {
    hide NameIs, M.Image, M.Offset, M.PackName, Peek;
    var name := files[i].name;
    FoundIsFirstCut(m, base, files, name, 0);
    forall j | 0 <= j < i
      ensures name != M.Cut(files[j].name)
    {
      NoEarlierNamesake(files, j, i);
    }
    EntryReadsBack(m, base, files, i);
    M.PayloadInImage(files, i);
    SliceInMemory(m, base, M.Image(files), M.Offset(files, i), files[i].payload);
  }

  /** The entry found has exactly the name looked up, and none is found only if no file has it. */
  ghost predicate LooksUpExactly(files: seq<M.File>, name: seq<byte>, r: int)
    requires 0 <= r <= |files|
  {
    && (r < |files| ==> files[r].name == name)
    && (r == |files| ==> forall j :: 0 <= j < |files| ==> files[j].name != name)
  }

  /** No file too long for its field is asked for, and none that is cut to the name asked for stands
      in for a file that is missing. */
  ghost predicate NotCutTo(files: seq<M.File>, name: seq<byte>) {
    && (forall j :: 0 <= j < |files| && |files[j].name| > 31 ==> files[j].name != name)
    && (forall j :: 0 <= j < |files| && |files[j].name| > 31 && M.Cut(files[j].name) == name ==> Named(files, name))
  }

  ghost predicate Named(files: seq<M.File>, name: seq<byte>) {
    exists k :: 0 <= k < |files| && files[k].name == name
  }

  /** `Find` looks names up exactly, whatever the name, if and only if no over-long name gets in the
      way. */
  lemma FindIsExact(m: Mem, base: int, files: seq<M.File>, name: seq<byte>)
    requires M.Packable(files) && ImageAt(m, base, M.Image(files))
    requires SortedNames(files) && CString(name)
    ensures LooksUpExactly(files, name, FirstNamed(m, base + 8, |files|, name, 0)) <==> NotCutTo(files, name)
  {
    hide NameIs, M.Image, M.Packable, ImageAt, SortedNames, CString;
    var r := FirstNamed(m, base + 8, |files|, name, 0);
    SortedAreCStrings(files);
    FoundIsFirstCut(m, base, files, name, 0);
    if NotCutTo(files, name) && r < |files| && |files[r].name| > 31 {
      var k :| 0 <= k < |files| && files[k].name == name;
      assert k >= r;
      NoEarlierNamesake(files, r, k);
    }
  }

  lemma SortedAreCStrings(files: seq<M.File>)
    requires SortedNames(files)
    ensures forall j :: 0 <= j < |files| ==> CString(files[j].name)
  {
  }

  /** It does not when 31 letters are looked up in an archive of one file, named by 32: that file is
      found, under a name no file has. */
  lemma LongerFileFound(m: Mem, base: int, payload: seq<byte>, letter: byte)
    requires letter != 0
    ensures var files := [M.File(seq<byte>(32, _ => letter), payload)]; var name := seq<byte>(31, _ => letter);
            && SortedNames(files) && CString(name) && !Named(files, name)
            && (M.Packable(files) && ImageAt(m, base, M.Image(files)) ==> FirstNamed(m, base + 8, 1, name, 0) == 0)
  {
    var files := [M.File(seq<byte>(32, _ => letter), payload)];
    var name := seq<byte>(31, _ => letter);
    assert M.Cut(files[0].name) == name;
    assert |files[0].name| == 32;
    if M.Packable(files) && ImageAt(m, base, M.Image(files)) {
      hide M.Image, M.Packable, ImageAt, NameIs;
      FoundIsFirstCut(m, base, files, name, 0);
    }
  }
}
