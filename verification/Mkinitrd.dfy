/**
 The ramdisk packer: a header, a table of fixed-size entries and the payloads end to end,
 little-endian, offsets from the start of the image.
 */
module Mkinitrd {
  import opened Words

  const MAGIC: word := 0x53484952
  const NAME_LEN: int := 32
  const ENTRY_LEN: int := 40

  datatype File = File(name: seq<byte>, payload: seq<byte>)

  datatype Result<+T> = Ok(value: T) | StructError

  // ---------------------------------------------------------------------------------------------
  // The format

  /** `struct.pack("<I", n)`. */
  function Le32(n: word): (r: seq<byte>)
    ensures |r| == 4
  {
    [n % 256, n / 256 % 256, n / 65536 % 256, n / 16777216]
  }

  function Zeros(n: int): (r: seq<byte>)
    requires n >= 0
    ensures |r| == n && forall i :: 0 <= i < n ==> r[i] == 0
  {
    seq(n, _ => 0)
  }

  /** The name cut to 31 bytes. */
  function Cut(name: seq<byte>): (r: seq<byte>)
    ensures |r| <= NAME_LEN - 1 && r <= name
    ensures |name| <= NAME_LEN - 1 <==> r == name
  {
    if |name| > NAME_LEN - 1 then name[..NAME_LEN - 1] else name
  }

  /** `pack_name`: the cut name, padded with NULs to 32 bytes. */
  function PackName(name: seq<byte>): (r: seq<byte>)
    ensures |r| == NAME_LEN
  {
    Cut(name) + Zeros(NAME_LEN - |Cut(name)|)
  }

  /** The bytes of the first k payloads. */
  function PayloadBytes(files: seq<File>, k: int): (r: int)
    requires 0 <= k <= |files|
    ensures r >= 0
  {
    if k == 0 then 0 else PayloadBytes(files, k - 1) + |files[k - 1].payload|
  }

  function HeaderSize(files: seq<File>): int {
    8 + |files| * ENTRY_LEN
  }

  /** Where payload i starts. */
  function Offset(files: seq<File>, i: int): nat
    requires 0 <= i <= |files|
  {
    HeaderSize(files) + PayloadBytes(files, i)
  }

  /** The count, and the sizes and offsets of the first k files, fit in 32 bits. */
  ghost predicate Fits(files: seq<File>, k: int)
    requires 0 <= k <= |files|
  {
    && |files| < U32
    && forall i :: 0 <= i < k ==> |files[i].payload| < U32 && Offset(files, i) < U32
  }

  /** All numbers of the format fit in 32 bits. */
  ghost predicate Packable(files: seq<File>) {
    Fits(files, |files|)
  }

  function EntryBytes(files: seq<File>, i: int): (r: seq<byte>)
    requires 0 <= i < |files| && |files[i].payload| < U32 && Offset(files, i) < U32
    ensures |r| == ENTRY_LEN
  {
    PackName(files[i].name) + Le32(|files[i].payload|) + Le32(Offset(files, i))
  }

  /** The first k entries of the table. */
  ghost function Table(files: seq<File>, k: int): (r: seq<byte>)
    requires 0 <= k <= |files| && Fits(files, k)
    ensures |r| == k * ENTRY_LEN
  {
    if k == 0 then [] else Table(files, k - 1) + EntryBytes(files, k - 1)
  }

  /** The first k payloads. */
  ghost function Payloads(files: seq<File>, k: int): (r: seq<byte>)
    requires 0 <= k <= |files|
    ensures |r| == PayloadBytes(files, k)
  {
    if k == 0 then [] else Payloads(files, k - 1) + files[k - 1].payload
  }

  /** The whole image. */
  ghost function Image(files: seq<File>): (r: seq<byte>)
    requires Packable(files)
    ensures |r| == Offset(files, |files|)
  {
    Le32(MAGIC) + Le32(|files|) + Table(files, |files|) + Payloads(files, |files|)
  }

  // ---------------------------------------------------------------------------------------------
  // Where things lie in an image

  lemma SliceLeft(a: seq<byte>, b: seq<byte>, i: int, j: int)
    requires 0 <= i <= j <= |a|
    ensures (a + b)[i..j] == a[i..j]
  {
  }

  lemma SliceRight(a: seq<byte>, b: seq<byte>, i: int, j: int)
    requires |a| <= i <= j <= |a| + |b|
    ensures (a + b)[i..j] == b[i - |a|..j - |a|]
  {
  }

  lemma {:induction false} TableAt(files: seq<File>, k: int, i: int)
    requires Packable(files) && 0 <= i < k <= |files|
    ensures Table(files, k)[i * ENTRY_LEN..(i + 1) * ENTRY_LEN] == EntryBytes(files, i)
    decreases k
  {
    hide EntryBytes;
    var t, e := Table(files, k - 1), EntryBytes(files, k - 1);
    if i < k - 1 {
      TableAt(files, k - 1, i);
      SliceLeft(t, e, i * ENTRY_LEN, (i + 1) * ENTRY_LEN);
    } else {
      SliceRight(t, e, i * ENTRY_LEN, (i + 1) * ENTRY_LEN);
    }
  }

  lemma {:induction false} PayloadAt(files: seq<File>, k: int, i: int)
    requires 0 <= i < k <= |files|
    ensures PayloadBytes(files, i) + |files[i].payload| <= PayloadBytes(files, k)
    ensures Payloads(files, k)[PayloadBytes(files, i)..PayloadBytes(files, i) + |files[i].payload|] == files[i].payload
    decreases k
  {
    var p, n := PayloadBytes(files, i), |files[i].payload|;
    if i < k - 1 {
      PayloadAt(files, k - 1, i);
      SliceLeft(Payloads(files, k - 1), files[k - 1].payload, p, p + n);
    } else {
      SliceRight(Payloads(files, k - 1), files[k - 1].payload, p, p + n);
    }
  }

  function Head(n: word): (r: seq<byte>)
    ensures |r| == 8 && r[..4] == Le32(MAGIC) && r[4..8] == Le32(n)
  {
    Le32(MAGIC) + Le32(n)
  }

  lemma ImageHead(files: seq<File>)
    requires Packable(files)
    ensures |Image(files)| >= 8
    ensures Image(files)[..4] == Le32(MAGIC) && Image(files)[4..8] == Le32(|files|)
  {
    hide Le32, Table, Payloads;
    var n := |files|;
    assert Image(files) == Head(|files|) + (Table(files, n) + Payloads(files, n));
    SliceLeft(Head(|files|), Table(files, n) + Payloads(files, n), 0, 4);
    SliceLeft(Head(|files|), Table(files, n) + Payloads(files, n), 4, 8);
  }

  /** Entry i of the table, in the image. */
  lemma EntryInImage(files: seq<File>, i: int)
    requires Packable(files) && 0 <= i < |files|
    ensures 0 <= 8 + i * ENTRY_LEN && 8 + (i + 1) * ENTRY_LEN <= HeaderSize(files) <= |Image(files)|
    ensures Image(files)[8 + i * ENTRY_LEN..8 + (i + 1) * ENTRY_LEN] == EntryBytes(files, i)
  {
    hide EntryBytes, Le32, PackName, Table, Payloads, Head, Zeros, Cut;
    var n := |files|;
    TableAt(files, n, i);
    ImageIs(files);
    ThreeParts(Head(n), Table(files, n), Payloads(files, n), i * ENTRY_LEN, (i + 1) * ENTRY_LEN, 0, 0);
  }

  /** Payload i, in the image. */
  lemma PayloadInImage(files: seq<File>, i: int)
    requires Packable(files) && 0 <= i < |files|
    ensures HeaderSize(files) <= Offset(files, i) && Offset(files, i) + |files[i].payload| <= |Image(files)|
    ensures Image(files)[Offset(files, i)..Offset(files, i) + |files[i].payload|] == files[i].payload
  {
    hide EntryBytes, Le32, PackName, Table, Payloads, Head, Zeros, Cut;
    var n, p := |files|, PayloadBytes(files, i);
    PayloadAt(files, n, i);
    ImageIs(files);
    ThreeParts(Head(n), Table(files, n), Payloads(files, n), 0, 0, p, p + |files[i].payload|);
  }

  lemma ImageIs(files: seq<File>)
    requires Packable(files)
    ensures Image(files) == Head(|files|) + Table(files, |files|) + Payloads(files, |files|)
  {
    hide Le32, Table, Payloads;
  }

  /** Slices of the second and third of three parts. */
  lemma ThreeParts(a: seq<byte>, b: seq<byte>, c: seq<byte>, i: int, j: int, k: int, l: int)
    requires 0 <= i <= j <= |b| && 0 <= k <= l <= |c|
    ensures (a + b + c)[|a| + i..|a| + j] == b[i..j]
    ensures (a + b + c)[|a| + |b| + k..|a| + |b| + l] == c[k..l]
  {
    SliceLeft(a + b, c, |a| + i, |a| + j);
    SliceRight(a, b, |a| + i, |a| + j);
    SliceRight(a + b, c, |a| + |b| + k, |a| + |b| + l);
  }

  /** The image byte by byte: marker and count; for every file 32 bytes of name, cut at 31 and filled
      up with zeros, then size and offset, low byte first; and its payload at that offset. */
  lemma ImageSpelledOut(files: seq<File>, i: int, j: int)
    requires Packable(files) && 0 <= i < |files|
    ensures var r, f, e := Image(files), files[i], 8 + 40 * i;
            && 0 <= e && e + 40 <= |r|
            && (0 <= j < 31 ==> r[e + j] == if j < |f.name| then f.name[j] else 0) && r[e + 31] == 0
            && r[e + 32] as int + 256 * r[e + 33] as int + 65536 * r[e + 34] as int + 16777216 * r[e + 35] as int
               == |f.payload|
            && r[e + 36] as int + 256 * r[e + 37] as int + 65536 * r[e + 38] as int + 16777216 * r[e + 39] as int
               == Offset(files, i)
            && (0 <= j < |f.payload| ==> Offset(files, i) + j < |r| && r[Offset(files, i) + j] == f.payload[j])
  {
    hide Image, Offset, Le32, PackName, Cut, Zeros;
    EntryInImage(files, i);
    PayloadInImage(files, i);
    var r, f, e := Image(files), files[i], 8 + i * ENTRY_LEN;
    var entry, name := EntryBytes(files, i), PackName(f.name);
    assert r[e..e + 40] == entry && entry == name + (Le32(|f.payload|) + Le32(Offset(files, i)));
    if 0 <= j < |f.payload| {
      assert r[Offset(files, i)..Offset(files, i) + |f.payload|][j] == f.payload[j];
    }
    if 0 <= j < 31 { assert r[e + j] == entry[j]; }
    assert r[e + 31] == entry[31] && r[e + 32] == entry[32] && r[e + 33] == entry[33] && r[e + 34] == entry[34];
    assert r[e + 35] == entry[35] && r[e + 36] == entry[36] && r[e + 37] == entry[37] && r[e + 38] == entry[38];
    assert r[e + 39] == entry[39];
    NameBytes(f.name);
    WordBytes(|f.payload|);
    WordBytes(Offset(files, i));
  }

  lemma NameBytes(name: seq<byte>)
    ensures forall j :: 0 <= j < 31 ==> PackName(name)[j] == if j < |name| then name[j] else 0
    ensures PackName(name)[31] == 0
  {
  }

  lemma WordBytes(n: word)
    ensures var b := Le32(n);
            b[0] as int + 256 * b[1] as int + 65536 * b[2] as int + 16777216 * b[3] as int == n
  {
    assert n == 256 * (n / 256) + n % 256;
    assert n / 256 == 256 * (n / 65536) + n / 256 % 256;
    assert n / 65536 == 256 * (n / 16777216) + n / 65536 % 256;
  }

  /** Where the payloads lie: after header and table, one after the other. */
  lemma OffsetsSpelledOut(files: seq<File>, i: int)
    requires 0 <= i < |files|
    ensures Offset(files, 0) == 8 + 40 * |files|
    ensures Offset(files, i + 1) == Offset(files, i) + |files[i].payload|
  {
  }

  lemma HeadSpelledOut(files: seq<File>)
    requires Packable(files)
    ensures var r := Image(files);
            && |r| >= 8 && r[0] == 82 && r[1] == 73 && r[2] == 72 && r[3] == 83
            && r[4] as int + 256 * r[5] as int + 65536 * r[6] as int + 16777216 * r[7] as int == |files|
  {
    hide Image;
    ImageHead(files);
    var r := Image(files);
    assert r[0] == r[..4][0] && r[1] == r[..4][1] && r[2] == r[..4][2] && r[3] == r[..4][3];
    assert r[4] == r[4..8][0] && r[5] == r[4..8][1] && r[6] == r[4..8][2] && r[7] == r[4..8][3];
    WordBytes(|files|);
  }

  // ---------------------------------------------------------------------------------------------
  // The packer

  /** `out[pos:pos + len(bytes)] = bytes`, where only zeros lie at or after pos. */
  method Blit(out: array<byte>, ghost before: seq<byte>, pos: int, bytes: seq<byte>)
    requires pos == |before| && pos + |bytes| <= out.Length
    requires out[..] == before + Zeros(out.Length - pos)
    modifies out
    ensures out[..] == before + bytes + Zeros(out.Length - pos - |bytes|)
  {
    var i := 0;
    while i < |bytes|
      invariant 0 <= i <= |bytes|
      invariant out[..] == before + bytes[..i] + Zeros(out.Length - pos - i)
    {
      out[pos + i] := bytes[i];
      i := i + 1;
    }
    assert bytes[..i] == bytes;
  }

  /** The offset of each payload, and the length of the image. */
  method Offsets(files: seq<File>) returns (offsets: seq<nat>, total: nat)
    ensures |offsets| == |files| && total == Offset(files, |files|)
    ensures forall j :: 0 <= j < |files| ==> offsets[j] == Offset(files, j)
  {
    offsets := [];
    total := 4 + 4 + |files| * (NAME_LEN + 4 + 4);
    var i := 0;
    while i < |files|
      invariant 0 <= i <= |files| && |offsets| == i
      invariant total == Offset(files, i)
      invariant forall j :: 0 <= j < i ==> offsets[j] == Offset(files, j)
    {
      offsets := offsets + [total];
      total := total + |files[i].payload|;
      i := i + 1;
    }
  }

  /** The table loop; false when a size or an offset does not fit. */
  method WriteTable(out: array<byte>, files: seq<File>, offsets: seq<nat>) returns (ok: bool)
    requires |files| < U32 && |offsets| == |files| && out.Length == Offset(files, |files|)
    requires forall j :: 0 <= j < |files| ==> offsets[j] == Offset(files, j)
    requires out[..] == Head(|files|) + Zeros(out.Length - 8)
    modifies out
    ensures ok <==> Packable(files)
    ensures ok ==> out[..] == Head(|files|) + Table(files, |files|) + Zeros(PayloadBytes(files, |files|))
  {
    hide Zeros, PackName, Le32, Head, Offset;
    var pos := 8;
    var i := 0;
    TableFits(files);
    assert Head(|files|) + Table(files, 0) == Head(|files|);
    while i < |files|
      invariant 0 <= i <= |files| && pos == 8 + i * ENTRY_LEN
      invariant Fits(files, i)
      invariant out[..] == Head(|files|) + Table(files, i) + Zeros(out.Length - pos)
    {
      if |files[i].payload| >= U32 || offsets[i] >= U32 { return false; }
      ghost var before := Head(|files|) + Table(files, i);
      var name, rest := PackName(files[i].name), Le32(|files[i].payload|) + Le32(offsets[i]);
      Blit(out, before, pos, name);
      pos := pos + NAME_LEN;
      Blit(out, before + name, pos, rest);
      pos := pos + 8;
      assert before + name + rest == Head(|files|) + Table(files, i + 1);
      i := i + 1;
    }
    return true;
  }

  lemma TableFits(files: seq<File>)
    ensures Offset(files, |files|) == 8 + |files| * ENTRY_LEN + PayloadBytes(files, |files|)
    ensures Fits(files, 0) <==> |files| < U32
  {
  }

  /** The payload loop. */
  method WritePayloads(out: array<byte>, files: seq<File>, offsets: seq<nat>, ghost before: seq<byte>)
    requires |offsets| == |files| && |before| == HeaderSize(files) && out.Length == Offset(files, |files|)
    requires forall j :: 0 <= j < |files| ==> offsets[j] == Offset(files, j)
    requires out[..] == before + Zeros(PayloadBytes(files, |files|))
    modifies out
    ensures out[..] == before + Payloads(files, |files|)
  {
    hide Zeros;
    var i := 0;
    assert before + Payloads(files, 0) == before;
    while i < |files|
      invariant 0 <= i <= |files|
      invariant PayloadBytes(files, i) <= PayloadBytes(files, |files|)
      invariant out[..] == before + Payloads(files, i) + Zeros(PayloadBytes(files, |files|) - PayloadBytes(files, i))
    {
      PayloadAt(files, |files|, i);
      Blit(out, before + Payloads(files, i), offsets[i], files[i].payload);
      assert before + Payloads(files, i) + files[i].payload == before + Payloads(files, i + 1);
      i := i + 1;
    }
    assert out[..] == before + Payloads(files, |files|) + Zeros(0);
    NoZeros(before + Payloads(files, |files|));
  }

  lemma NoZeros(a: seq<byte>)
    ensures a + Zeros(0) == a
  {
  }

  /** Packs the files in the order given. A count, size or offset that does not fit in 32 bits is
      `struct.error`; otherwise the result is the image, byte for byte. */
  method Pack(files: seq<File>) returns (r: Result<seq<byte>>)
    ensures r.Ok? <==> Packable(files)
    ensures r.Ok? ==> r.value == Image(files)
  {
    var offsets, total := Offsets(files);
    TableFits(files);
    var out := new byte[total](_ => 0);
    assert out[..] == [] + Zeros(total);
    if |files| >= U32 { return StructError; }
    Blit(out, [], 0, Head(|files|));
    assert [] + Head(|files|) == Head(|files|);
    var ok := WriteTable(out, files, offsets);
    if !ok { return StructError; }
    WritePayloads(out, files, offsets, Head(|files|) + Table(files, |files|));
    return Ok(out[..]);
  }
}
