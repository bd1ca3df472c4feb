/** `cat` and the boot script from end to end: ramdisk, splitter, terminal. */
module CommandsModule {
  import opened Words
  import opened Tags
  import opened HeapSpec
  import opened MultibootModule
  import opened KernelModule
  import opened HeapModule
  import opened PmmModule
  import I = InitrdModule
  import M = Mkinitrd
  import L = Lines
  import T = Terminal

  /** The n bytes at address d. */
  method Read(ram: Ram, d: int, n: word) returns (bytes: seq<byte>)
    ensures bytes == I.BytesAt(ram.m, d, n)
  {
    bytes := [];
    var i := 0;
    while i < n
      invariant 0 <= i <= n
      invariant bytes == I.BytesAt(ram.m, d, i)
    {
      bytes := bytes + [ByteAt(ram.m, d + i)];
      i := i + 1;
    }
  }

  /** The bytes of the first file of that name in the ramdisk. */
  method Fetch(kernel: Kernel, name: seq<byte>) returns (r: I.Option<seq<byte>>)
    requires kernel.Valid() && I.CString(name)
    ensures r.Some? <==> kernel.initrd.ready && Index(kernel, name) < kernel.initrd.fileCount
    ensures r.Some? ==> r.value == FileAt(kernel, Index(kernel, name))
  {
    hide Good, I.ImageAt, I.FirstNamed, IsModule, Pmm.Valid, AllHarmless, Usable, Peek;
    var e := kernel.initrd.Find(name);
    if e == 0 { return I.None; }
    var data := kernel.initrd.Data(e);
    var bytes := Read(kernel.ram, data, Peek(kernel.ram.m, e + 32));
    return I.Some(bytes);
  }

  /** Where entry i says its file starts, and the bytes there. */
  ghost function DataOf(kernel: Kernel, i: int): word
    reads kernel, kernel.ram, kernel.initrd
  {
    Wrap(kernel.initrd.base + Peek(kernel.ram.m, kernel.initrd.entries + i * I.ENTRY_LEN + 36))
  }

  ghost function FileAt(kernel: Kernel, i: int): seq<byte>
    reads kernel, kernel.ram, kernel.initrd
  {
    I.BytesAt(kernel.ram.m, DataOf(kernel, i), Peek(kernel.ram.m, kernel.initrd.entries + i * I.ENTRY_LEN + 32))
  }

  ghost function Index(kernel: Kernel, name: seq<byte>): int
    reads kernel, kernel.ram, kernel.initrd
  {
    I.FirstNamed(kernel.ram.m, kernel.initrd.entries, kernel.initrd.fileCount, name, 0)
  }

  /** The ramdisk is an archive of these files, in the packer's order. */
  ghost predicate Archive(kernel: Kernel, files: seq<M.File>)
    reads kernel, kernel.initrd
  {
    && kernel.initrd.ready
    && M.Packable(files) && I.SortedNames(files) && kernel.disk == M.Image(files)
  }

  /** A boot module that holds a packed image, the first one with the magic, is the archive after boot. */
  method BootArchive(kernel: Kernel, mbi: word, kernelEnd: word, ghost before: seq<Tag>, ghost t: Tag,
                     ghost after: seq<Tag>,
                     ghost files: seq<M.File>)
    requires kernel.Unbooted() && mbi != 0
    requires kernel.BootInfo(mbi, kernelEnd, before + [t] + after)
    requires t.typ == TAG_MODULE
    requires forall u :: u in before && u.typ == TAG_MODULE ==> Peek(kernel.ram.m, WordAt(u, 0)) != I.MAGIC
    requires M.Packable(files) && I.SortedNames(files)
    requires I.ImageAt(kernel.ram.m, WordAt(t, 0), M.Image(files)) && ModuleEnd(t) == WordAt(t, 0) + |M.Image(files)|
    modifies kernel, kernel.ram, kernel.heap, kernel.pmm, kernel.pmm.bitmap, kernel.initrd
    ensures kernel.Valid() && Archive(kernel, files)
  {
    hide Good, I.ImageAt, I.SortedNames, I.FirstImage, Pmm.Valid, M.Packable, M.Image, WordAt;
    hide ChainAt, ChainEnd, RegionFits, ModulesEnd, AllEntries, SomeFrees, AllHarmless, Usable, Peek;
    ghost var tags, m0 := before + [t] + after, kernel.ram.m;
    assert t in tags;
    kernel.Boot(mbi, kernelEnd, tags);
    ModulesBelow(tags, kernel.heap.base);
    FirstImageIs(m0, before, t, after, files);
    FirstImageKept(m0, kernel.ram.m, tags, kernel.heap.base, kernel.heap.base + HEADER);
    DiskSurvives(m0, kernel.ram.m, kernel.heap.base, kernel.heap.base + HEADER, WordAt(t, 0), M.Image(files));
    WholeModule(t, |M.Image(files)|);
    I.BytesAreThose(kernel.ram.m, WordAt(t, 0), M.Image(files));
  }

  /** In every state the kernel reaches after boot, a packed file is fetched under its own
      name with exactly its own bytes if its name is at most 31 bytes long; a longer one is not found. */
  method FetchPacked(kernel: Kernel, ghost files: seq<M.File>, ghost i: int,
                     name: seq<byte>) returns (r: I.Option<seq<byte>>)
    requires kernel.Valid() && Archive(kernel, files) && 0 <= i < |files| && name == files[i].name
    ensures r == if |name| <= 31 then I.Some(files[i].payload) else I.None
  {
    hide Good, I.ImageAt, I.FirstNamed, IsModule, Pmm.Valid, AllHarmless, Usable, Peek, M.Image, M.Offset, M.PackName;
    hide I.BytesAt;
    I.HeaderReadsBack(kernel.ram.m, kernel.initrd.base, files);
    I.PackedFileIsFound(kernel.ram.m, kernel.initrd.base, files, i);
    r := Fetch(kernel, name);
  }

  /** Prints each piece as one line of the current terminal. */
  method PrintAll(shell: T.Shell, pieces: seq<seq<byte>>)
    requires shell.Valid() && forall p :: p in pieces ==> T.NEWLINE !in p
    modifies shell, shell.screens
    ensures shell.Valid() && shell.current == old(shell.current)
    ensures shell.logs == old(shell.logs)[shell.current :=
              old(shell.logs)[shell.current] + T.Rows(pieces, shell.terminalColor, shell.Blank())]
  {
    hide T.Segments, T.RowOf, T.WindowRow;
    ghost var log := shell.logs[shell.current];
    var i := 0;
    assert log + T.Rows(pieces[..0], shell.terminalColor, shell.Blank()) == log;
    while i < |pieces|
      invariant 0 <= i <= |pieces|
      invariant shell.Valid() && shell.current == old(shell.current)
      invariant shell.logs == old(shell.logs)[shell.current :=
                  log + T.Rows(pieces[..i], shell.terminalColor, shell.Blank())]
    {
      T.OneSegment(pieces[i]);
      ghost var color, blank := shell.terminalColor, shell.Blank();
      shell.WriteC(pieces[i]);
      assert log + T.Rows(pieces[..i], color, blank) + T.Rows([pieces[i]], color, blank) ==
             log + (T.Rows(pieces[..i], color, blank) + T.Rows([pieces[i]], color, blank));
      assert T.Rows(pieces[..i + 1], shell.terminalColor, shell.Blank()) ==
             T.Rows(pieces[..i], shell.terminalColor, shell.Blank()) +
             T.Rows([pieces[i]], shell.terminalColor, shell.Blank());
      i := i + 1;
    }
    assert pieces[..i] == pieces;
  }

  lemma {:induction false} PieceBytes(line: L.Text)
    ensures forall p, b :: p in L.Pieces(line) && b in p ==> b in line
    decreases |line|
  {
    if |line| > L.WIDTH {
      PieceBytes(line[L.WIDTH..]);
    }
  }

  lemma {:induction false} CutBytes(lines: seq<L.Text>)
    requires forall l :: l in lines ==> L.LF !in l
    ensures forall p :: p in L.CutAll(lines) ==> L.LF !in p
  {
    if lines != [] {
      PieceBytes(lines[0]);
      CutBytes(lines[1..]);
    }
  }

  /** What `cat` prints contains no newline, so every piece is one row. */
  lemma NoNewlines(data: L.Text)
    ensures forall p :: p in L.Strings(L.Layout(data)) ==> T.NEWLINE !in p
  {
    L.SplitUnlines(L.DropCr(data));
    CutBytes(L.Split(L.DropCr(data)));
    var ps := L.Layout(data);
    forall p | p in L.Strings(ps)
      ensures T.NEWLINE !in p
    {
      var i :| 0 <= i < |ps| && L.Strings(ps)[i] == p;
      assert ps[i] in ps;
      assert p <= ps[i];
    }
  }

  /** The bytes of a message. */
  function Ascii(s: string): (r: seq<byte>)
    ensures |r| == |s|
  {
    seq(|s|, i requires 0 <= i < |s| => s[i] as int % 256)
  }

  /** Copies a C string into a buffer of cap bytes at idx, as much of it as fits before a NUL. */
  method AppendStr(dst: array<byte>, idx: int, cap: int, s: seq<byte>) returns (j: int)
    requires 0 <= idx < cap <= dst.Length && I.CString(s)
    modifies dst
    ensures j == if idx + |s| < cap then idx + |s| else cap - 1
    ensures dst[..j] == old(dst[..idx]) + s[..j - idx] && dst[j] == 0
  {
    j := idx;
    while j - idx < |s| && j < cap - 1
      invariant idx <= j < cap && j - idx <= |s|
      invariant dst[..j] == old(dst[..idx]) + s[..j - idx]
    {
      dst[j] := s[j - idx];
      j := j + 1;
    }
    dst[j] := 0;
  }

  /** "cat: file not found: " and the name, as much as fits 79 bytes. */
  function Missing(name: seq<byte>): seq<byte> {
    var m := Ascii("cat: file not found: ") + name;
    if |m| <= 79 then m else m[..79]
  }

  /** The message built in an 80-byte buffer. */
  method MissingMessage(name: seq<byte>) returns (text: seq<byte>)
    requires I.CString(name)
    ensures text == Missing(name)
  {
    var prefix := Ascii("cat: file not found: ");
    MissingIs(prefix, name);
    hide Ascii, Missing;
    var buf := new byte[80](_ => 0);
    var j := AppendStr(buf, 0, 80, prefix);
    assert prefix[..j] == prefix;
    j := AppendStr(buf, j, 80, name);
    text := buf[..j];
  }

  lemma MissingIs(prefix: seq<byte>, name: seq<byte>)
    requires prefix == Ascii("cat: file not found: ")
    ensures |prefix| == 21 && I.CString(prefix)
    ensures |name| < 59 ==> Missing(name) == prefix + name[..|name|]
    ensures |name| >= 59 ==> Missing(name) == prefix + name[..58]
  {
    assert name[..|name|] == name;
  }

  /** What looking a file up can come to. */
  datatype Found = NotFound | Unreadable | Content(bytes: seq<byte>)

  ghost function Looked(kernel: Kernel, name: seq<byte>): Found
    reads kernel, kernel.ram, kernel.initrd
  {
    if Index(kernel, name) >= kernel.initrd.fileCount then NotFound
    else if DataOf(kernel, Index(kernel, name)) == 0 then Unreadable
    else Content(FileAt(kernel, Index(kernel, name)))
  }

  /** Find, Data, and the bytes. */
  method LookUp(kernel: Kernel, name: seq<byte>) returns (r: Found)
    requires kernel.Valid() && I.CString(name) && kernel.initrd.ready
    ensures r == Looked(kernel, name)
  {
    hide Good, I.ImageAt, I.FirstNamed, IsModule, Pmm.Valid, AllHarmless, Usable, Peek, I.CString, I.BytesAt;
    var e := kernel.initrd.Find(name);
    if e == 0 { return NotFound; }
    var data := kernel.initrd.Data(e);
    if data == 0 { return Unreadable; }
    var bytes := Read(kernel.ram, data, Peek(kernel.ram.m, e + 32));
    return Content(bytes);
  }

  /** What `cat name` prints, line by line. */
  ghost function CatLines(kernel: Kernel, name: seq<byte>): seq<seq<byte>>
    reads kernel, kernel.ram, kernel.initrd
  {
    if name == [] then T.Segments(Ascii("usage: cat <filename>"))
    else if !kernel.initrd.ready then T.Segments(Ascii("cat: initrd not loaded"))
    else
      match Looked(kernel, name)
      case NotFound => T.Segments(Missing(name))
      case Unreadable => T.Segments(Ascii("cat: read error"))
      case Content(bytes) => L.Strings(L.Layout(bytes))
  }

  /** `cat name`: the file's lines, cut at 79 columns, or the error message, become the newest rows
      of the current terminal. */
  method Cat(kernel: Kernel, shell: T.Shell, name: seq<byte>)
    requires kernel.Valid() && I.CString(name) && shell.Valid()
    requires {shell as object, shell.screens} !!
             {kernel, kernel.ram, kernel.heap, kernel.pmm, kernel.initrd, kernel.pmm.bitmap}
    modifies shell, shell.screens
    ensures shell.Valid() && shell.current == old(shell.current)
    ensures shell.logs == old(shell.logs)[shell.current := old(shell.logs)[shell.current] +
              T.Rows(CatLines(kernel, name), shell.terminalColor, shell.Blank())]
  {
    hide Good, I.ImageAt, I.FirstNamed, IsModule, Pmm.Valid, AllHarmless, Usable, Peek, I.CString;
    hide L.Layout, L.Strings, T.Rows, T.Segments, Ascii, Missing, Looked;
    if name == [] {
      shell.WriteC(Ascii("usage: cat <filename>"));
      return;
    }
    if !kernel.initrd.ready {
      shell.WriteC(Ascii("cat: initrd not loaded"));
      return;
    }
    var found := LookUp(kernel, name);
    match found {
      case NotFound =>
        var text := MissingMessage(name);
        shell.WriteC(text);
      case Unreadable =>
        shell.WriteC(Ascii("cat: read error"));
      case Content(bytes) =>
        var pieces := L.Cat(bytes);
        NoNewlines(bytes);
        PrintAll(shell, pieces);
    }
  }

  /** For a packed file with a name of 1 to 31 bytes that is the file itself, line by line. */
  lemma CatPacked(kernel: Kernel, files: seq<M.File>, i: int)
    requires kernel.Valid() && Archive(kernel, files) && 0 <= i < |files|
    requires 1 <= |files[i].name| <= 31
    ensures CatLines(kernel, files[i].name) == L.Strings(L.Layout(files[i].payload))
  {
    hide Good, I.ImageAt, I.FirstNamed, IsModule, Pmm.Valid, AllHarmless, Usable, Peek, M.Image, M.Offset, M.PackName;
    hide I.BytesAt;
    hide L.Layout, L.Strings, T.Segments, Missing;
    I.HeaderReadsBack(kernel.ram.m, kernel.initrd.base, files);
    I.PackedFileIsFound(kernel.ram.m, kernel.initrd.base, files, i);
  }

  /** In an archive of one file named by 32 letters, `cat` of 31 of them, a name no file has, prints it. */
  lemma CatPrintsLongerFile(kernel: Kernel, payload: seq<byte>, letter: byte)
    requires kernel.Valid() && letter != 0 && Archive(kernel, [M.File(seq<byte>(32, _ => letter), payload)])
    ensures CatLines(kernel, seq<byte>(31, _ => letter)) == L.Strings(L.Layout(payload))
  {
    hide Good, I.ImageAt, I.FirstNamed, IsModule, Pmm.Valid, AllHarmless, Usable, Peek, M.Image, M.Offset, M.PackName;
    hide I.BytesAt;
    hide L.Layout, L.Strings, T.Segments, Missing;
    var files := [M.File(seq<byte>(32, _ => letter), payload)];
    I.HeaderReadsBack(kernel.ram.m, kernel.initrd.base, files);
    I.LongerFileFound(kernel.ram.m, kernel.initrd.base, payload, letter);
    I.PackedFileIsFound(kernel.ram.m, kernel.initrd.base, files, 0);
  }

  /** "init.sh" */
  const INIT_SH: seq<byte> := [105, 110, 105, 116, 46, 115, 104]

  /** The end of `shiro_main`: the commands of the boot script, in the order they are dispatched. */
  method BootScript(kernel: Kernel) returns (dispatched: seq<seq<byte>>)
    requires kernel.Valid()
    ensures kernel.initrd.ready && Index(kernel, INIT_SH) < kernel.initrd.fileCount ==>
              dispatched == L.Strings(L.Commands(L.Layout(FileAt(kernel, Index(kernel, INIT_SH)))))
    ensures !(kernel.initrd.ready && Index(kernel, INIT_SH) < kernel.initrd.fileCount) ==> dispatched == []
  {
    hide L.Layout, L.Strings, L.Commands, I.BytesAt, I.FirstNamed, Kernel.Valid;
    var file := Fetch(kernel, INIT_SH);
    if file.None? { return []; }
    dispatched := L.RunScript(file.value);
  }

  // ---------------------------------------------------------------------------------------------
  // Spelled out: what `cat` leaves in row 22 of the screen, byte by byte

  /** `cat` alone: "usage: cat <filename>". */
  method CatUsage(kernel: Kernel, shell: T.Shell)
    requires kernel.Valid() && shell.Valid()
    requires {shell as object, shell.screens} !!
             {kernel, kernel.ram, kernel.heap, kernel.pmm, kernel.initrd, kernel.pmm.bitmap}
    modifies shell, shell.screens
    ensures shell.Valid() && shell.current == old(shell.current)
    ensures var text := [117, 115, 97, 103, 101, 58, 32, 99, 97, 116, 32, 60, 102, 105, 108, 101, 110, 97, 109, 101,
            62];
            forall i :: 1760 <= i < 1840 ==>
              shell.screens[shell.current, i] % 256 == if i - 1760 < |text| then text[i - 1760] else 32
  {
    hide T.Rows, T.Segments, Ascii;
    ghost var log := shell.logs[shell.current];
    UsageBytes();
    Cat(kernel, shell, []);
    shell.NewestCells(Ascii("usage: cat <filename>"), log);
  }

  lemma UsageBytes()
    ensures Ascii("usage: cat <filename>") == [117, 115, 97, 103, 101, 58, 32, 99, 97, 116, 32, 60, 102, 105, 108, 101,
            110, 97, 109, 101, 62]
  {
  }

  /** `cat name` without a ramdisk: "cat: initrd not loaded". */
  method CatNotLoaded(kernel: Kernel, shell: T.Shell, name: seq<byte>)
    requires kernel.Valid() && shell.Valid() && I.CString(name) && name != [] && !kernel.initrd.ready
    requires {shell as object, shell.screens} !!
             {kernel, kernel.ram, kernel.heap, kernel.pmm, kernel.initrd, kernel.pmm.bitmap}
    modifies shell, shell.screens
    ensures shell.Valid() && shell.current == old(shell.current)
    ensures var text := [99, 97, 116, 58, 32, 105, 110, 105, 116, 114, 100, 32, 110, 111, 116, 32, 108, 111, 97, 100,
            101, 100];
            forall i :: 1760 <= i < 1840 ==>
              shell.screens[shell.current, i] % 256 == if i - 1760 < |text| then text[i - 1760] else 32
  {
    hide T.Rows, T.Segments, Ascii;
    ghost var log := shell.logs[shell.current];
    NotLoadedBytes();
    Cat(kernel, shell, name);
    shell.NewestCells(Ascii("cat: initrd not loaded"), log);
  }

  lemma NotLoadedBytes()
    ensures Ascii("cat: initrd not loaded") == [99, 97, 116, 58, 32, 105, 110, 105, 116, 114, 100, 32, 110, 111, 116,
            32, 108, 111, 97, 100, 101, 100]
  {
  }

  /** `cat name` when the file's data would lie at address 0: "cat: read error". */
  method CatReadError(kernel: Kernel, shell: T.Shell, name: seq<byte>)
    requires kernel.Valid() && shell.Valid() && I.CString(name) && name != [] && kernel.initrd.ready
    requires Index(kernel, name) < kernel.initrd.fileCount
    requires var e := kernel.initrd.entries + 40 * Index(kernel, name);
             kernel.initrd.base + Peek(kernel.ram.m, e + 36) == 0x1_0000_0000
    requires {shell as object, shell.screens} !!
             {kernel, kernel.ram, kernel.heap, kernel.pmm, kernel.initrd, kernel.pmm.bitmap}
    modifies shell, shell.screens
    ensures shell.Valid() && shell.current == old(shell.current)
    ensures var text := [99, 97, 116, 58, 32, 114, 101, 97, 100, 32, 101, 114, 114, 111, 114];
            forall i :: 1760 <= i < 1840 ==>
              shell.screens[shell.current, i] % 256 == if i - 1760 < |text| then text[i - 1760] else 32
  {
    hide T.Rows, T.Segments, Ascii, I.FirstNamed, Peek, Good, Pmm.Valid, I.ImageAt, AllHarmless, Usable;
    hide CatLines, Kernel.Valid, I.CString;
    ghost var log := shell.logs[shell.current];
    ReadErrorBytes();
    DataAtZero(kernel, name);
    Cat(kernel, shell, name);
    shell.NewestCells(Ascii("cat: read error"), log);
  }

  lemma DataAtZero(kernel: Kernel, name: seq<byte>)
    requires name != [] && kernel.initrd.ready
    requires Index(kernel, name) < kernel.initrd.fileCount
    requires var e := kernel.initrd.entries + 40 * Index(kernel, name);
             kernel.initrd.base + Peek(kernel.ram.m, e + 36) == 0x1_0000_0000
    ensures CatLines(kernel, name) == T.Segments(Ascii("cat: read error"))
  {
    hide T.Segments, Ascii, Index, Peek, FileAt;
    var e := kernel.initrd.entries + 40 * Index(kernel, name);
    assert kernel.initrd.entries + Index(kernel, name) * I.ENTRY_LEN + 36 == e + 36;
    assert DataOf(kernel, Index(kernel, name)) == 0;
  }

  lemma ReadErrorBytes()
    ensures Ascii("cat: read error") == [99, 97, 116, 58, 32, 114, 101, 97, 100, 32, 101, 114, 114, 111, 114]
  {
  }

  /** `cat name` when the archive has no file of that name, nor a longer one that begins with it at 31
      bytes: "cat: file not found: " and the name, cut at 79. */
  method CatMissing(kernel: Kernel, shell: T.Shell, ghost files: seq<M.File>, name: seq<byte>)
    requires kernel.Valid() && shell.Valid() && I.CString(name) && name != [] && 10 !in name
    requires Archive(kernel, files)
    requires forall j :: 0 <= j < |files| ==>
               files[j].name != name && !(|files[j].name| > 31 && files[j].name[..31] == name)
    requires {shell as object, shell.screens} !!
             {kernel, kernel.ram, kernel.heap, kernel.pmm, kernel.initrd, kernel.pmm.bitmap}
    modifies shell, shell.screens
    ensures shell.Valid() && shell.current == old(shell.current)
    ensures var text := [99, 97, 116, 58, 32, 102, 105, 108, 101, 32, 110, 111, 116, 32, 102, 111, 117, 110, 100, 58,
            32] + name;
            forall i :: 1760 <= i < 1840 ==>
              shell.screens[shell.current, i] % 256 == if i - 1760 < |text| && i - 1760 < 79 then text[i - 1760] else 32
  {
    hide T.Rows, T.Segments, Ascii, Missing, I.FirstNamed, Peek, Good, Pmm.Valid, I.ImageAt, AllHarmless, Usable;
    hide M.Image, M.Packable, I.SortedNames;
    ghost var log := shell.logs[shell.current];
    NotInArchive(kernel, files, name);
    MissingBytes(name);
    Cat(kernel, shell, name);
    shell.NewestCells(Missing(name), log);
  }

  lemma NotInArchive(kernel: Kernel, files: seq<M.File>, name: seq<byte>)
    requires kernel.Valid() && I.CString(name) && Archive(kernel, files)
    requires forall j :: 0 <= j < |files| ==>
               files[j].name != name && !(|files[j].name| > 31 && files[j].name[..31] == name)
    ensures Index(kernel, name) == kernel.initrd.fileCount
  {
    hide M.Image, Peek, I.FirstNamed, Good, Pmm.Valid, I.ImageAt, AllHarmless, Usable;
    I.HeaderReadsBack(kernel.ram.m, kernel.initrd.base, files);
    I.FoundIsFirstCut(kernel.ram.m, kernel.initrd.base, files, name, 0);
  }

  lemma MissingBytes(name: seq<byte>)
    requires 10 !in name
    ensures var text := [99, 97, 116, 58, 32, 102, 105, 108, 101, 32, 110, 111, 116, 32, 102, 111, 117, 110, 100, 58,
            32] + name;
            && 10 !in Missing(name) && |Missing(name)| <= 79
            && forall i :: 0 <= i < 79 ==>
                 && (i < |Missing(name)| <==> i < |text|)
                 && (i < |text| ==> Missing(name)[i] == text[i])
  {
    NotFoundBytes();
    hide Ascii;
  }

  lemma NotFoundBytes()
    ensures Ascii("cat: file not found: ") == [99, 97, 116, 58, 32, 102, 105, 108, 101, 32, 110, 111, 116, 32, 102,
            111, 117, 110, 100, 58, 32]
  {
  }

  /** `cat name` of a file that is one short line: the line. */
  method CatOneLine(kernel: Kernel, shell: T.Shell, ghost files: seq<M.File>, ghost i: int, name: seq<byte>)
    requires kernel.Valid() && shell.Valid() && Archive(kernel, files) && 0 <= i < |files| && name == files[i].name
    requires 1 <= |name| <= 31 && I.CString(name)
    requires var line := files[i].payload; 1 <= |line| <= 79 && 0 !in line && 10 !in line && 13 !in line
    requires {shell as object, shell.screens} !!
             {kernel, kernel.ram, kernel.heap, kernel.pmm, kernel.initrd, kernel.pmm.bitmap}
    modifies shell, shell.screens
    ensures shell.Valid() && shell.current == old(shell.current)
    ensures var line := files[i].payload;
            forall i :: 1760 <= i < 1840 ==>
              shell.screens[shell.current, i] % 256 == if i - 1760 < |line| then line[i - 1760] else 32
  {
    hide T.Rows, T.Segments, CatLines, Peek, Good, Pmm.Valid, I.ImageAt, AllHarmless, Usable, M.Image, M.Packable;
    hide L.Layout, L.Strings, L.CStr, I.SortedNames;
    ghost var log := shell.logs[shell.current];
    CatPacked(kernel, files, i);
    ghost var line := files[i].payload;
    L.EndOfText(line);
    L.StringsAreTexts([line]);
    T.OneSegment(line);
    Cat(kernel, shell, name);
    shell.NewestCells(line, log);
  }

  /** The boot script from end to end: a packed file named by the bytes of "init.sh" is the one whose
      commands are dispatched. */
  method BootPacked(kernel: Kernel, ghost files: seq<M.File>, ghost i: int) returns (dispatched: seq<seq<byte>>)
    requires kernel.Valid() && Archive(kernel, files) && 0 <= i < |files|
    requires files[i].name == [105, 110, 105, 116, 46, 115, 104]
    ensures dispatched == L.Strings(L.Commands(L.Layout(files[i].payload)))
  {
    hide Good, I.ImageAt, I.FirstNamed, IsModule, Pmm.Valid, AllHarmless, Usable, Peek, M.Image, M.Offset, M.PackName;
    hide I.BytesAt, L.Layout, L.Strings, L.Commands;
    I.HeaderReadsBack(kernel.ram.m, kernel.initrd.base, files);
    I.PackedFileIsFound(kernel.ram.m, kernel.initrd.base, files, i);
    dispatched := BootScript(kernel);
  }
}
