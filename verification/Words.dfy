/** 32-bit machine words and the shared physical memory they live in. */
module Words {

  const U32: int := 0x1_0000_0000
  const U64: int := 0x1_0000_0000_0000_0000

  type word = x: int | 0 <= x < 0x1_0000_0000

  /** What a `uint32_t` keeps of a sum or difference of two words. */
  function Wrap(x: int): word
    requires -U32 <= x < 2 * U32
  {
    if x >= U32 then x - U32 else if x < 0 then x + U32 else x
  }

  lemma WrapIsRemainder(x: int)
    requires -U32 <= x < 2 * U32
    ensures Wrap(x) == x % U32
  {
  }

  /** A multiple of the allocation granularity. */
  predicate Granule(n: int) {
    n >= 0 && n % 8 == 0
  }

  lemma EightIsAligned(x: int)
    requires x % 8 == 0
    ensures Aligned(x)
  {
    assert x == 4 * (2 * (x / 8));
    TimesFour(2 * (x / 8));
  }

  lemma TimesFour(q: int)
    ensures Aligned(4 * q)
  {
  }

  /** `(x + 7) & ~7` on an unbounded integer. */
  function Up8(x: int): (r: int)
    ensures r % 8 == 0 && x <= r < x + 8
  {
    (x + 7) / 8 * 8
  }

  /** `(x + 0xFFF) & ~0xFFF` on an unbounded integer. */
  function UpPage(x: int): (r: int)
    ensures r % 4096 == 0 && x <= r < x + 4096
  {
    (x + 4095) / 4096 * 4096
  }

  /** A word boundary: the only place a word can be stored at or loaded from whole. */
  predicate Aligned(a: int) {
    a % 4 == 0
  }

  /** Physical memory: the 32-bit word at each word boundary. */
  type Mem = map<int, word>

  function Load(m: Mem, a: int): word {
    if a in m then m[a] else 0
  }

  type byte = x: int | 0 <= x < 256

  /** Little-endian byte `a` of memory. */
  function ByteAt(m: Mem, a: int): byte {
    var w := Load(m, a - a % 4);
    if a % 4 == 0 then w % 256
    else if a % 4 == 1 then w / 256 % 256
    else if a % 4 == 2 then w / 65536 % 256
    else w / 16777216 % 256
  }

  /** The word read at any byte address, one that straddles two words included. */
  function Peek(m: Mem, a: int): word {
    if Aligned(a) then Load(m, a)
    else ByteAt(m, a) + 256 * ByteAt(m, a + 1) + 65536 * ByteAt(m, a + 2) + 16777216 * ByteAt(m, a + 3)
  }

  /** n is m with the word at a replaced by v. */
  ghost predicate Put(m: Mem, n: Mem, a: int, v: word) {
    forall x {:trigger Load(n, x)} :: Load(n, x) == if x == a then v else Load(m, x)
  }

  /** m and n hold the same words at every address in [lo, hi). */
  ghost predicate SameOn(m: Mem, n: Mem, lo: int, hi: int) {
    forall a {:trigger Load(n, a)} :: lo <= a < hi ==> Load(m, a) == Load(n, a)
  }

  /** m and n hold the same words at every address outside [lo, hi). */
  ghost predicate SameOutside(m: Mem, n: Mem, lo: int, hi: int) {
    forall a {:trigger Load(n, a)} :: !(lo <= a < hi) ==> Load(m, a) == Load(n, a)
  }

  /** The RAM every component shares. */
  class Ram {
    var m: Mem

    method Store(a: int, v: word)
      requires Aligned(a)
      modifies this
      ensures Put(old(m), m, a, v)
    {
      m := m[a := v];
    }
  }
}
