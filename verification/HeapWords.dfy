/** Memory as the allocator sees it: 4-byte words at 4-aligned byte addresses,
    header and footer words packing a size with an allocated bit, 8-byte link
    pointers that take two words, and single bytes for memcpy. */
module HeapWords {

  const WORD_LIMIT := 0x1_0000_0000
  const POINTER_LIMIT := 0x1_0000_0000_0000_0000

  type Word = w: int | 0 <= w < 0x1_0000_0000
  type Byte = b: int | 0 <= b < 256

  /** The words of the heap, keyed by byte address. */
  type Memory = map<int, Word>

  // ---- headers and footers ----

  /** `size | alloc`; the low three bits of a block size are clear. */
  function Pack(size: int, alloc: bool): Word
    requires 0 <= size < 0x8000_0000 && size % 8 == 0
  {
    size + if alloc then 1 else 0
  }

  /** `word & ~0x7` */
  function SizeField(w: Word): (size: Word) {
    w - w % 8
  }

  /** `word & 0x1` */
  predicate AllocField(w: Word) {
    w % 2 == 1
  }

  lemma PackFields(size: int, alloc: bool)
    requires 0 <= size < 0x8000_0000 && size % 8 == 0
    ensures SizeField(Pack(size, alloc)) == size
    ensures AllocField(Pack(size, alloc)) == alloc
    ensures Pack(size, alloc) == if alloc then size + 1 else size
  {
    var k, b := size / 8, if alloc then 1 else 0;
    assert size == 8 * k;
    LowDigit(k, 8, b);
    LowDigit(4 * k, 2, b);
  }

  /** The digit b behind k times the base. */
  lemma LowDigit(k: int, radix: int, b: int)
    requires (radix == 8 || radix == 2) && 0 <= b < radix
    ensures (radix * k + b) % radix == b
  {
    var w := radix * k + b;
    var q, r := w / radix, w % radix;
    assert w == radix * q + r && 0 <= r < radix;
    if radix == 8 {
      assert 8 * (k - q) == r - b;
    } else {
      assert 2 * (k - q) == r - b;
    }
  }

  // ---- link pointers ----

  /** The eight bytes at a, read as a pointer. */
  function GetPtr(mem: Memory, a: int): int
    requires a in mem && a + 4 in mem
  {
    mem[a] + WORD_LIMIT * mem[a + 4]
  }

  function SetPtr(mem: Memory, a: int, v: int): (r: Memory)
    requires 0 <= v < POINTER_LIMIT
    requires a in mem && a + 4 in mem
    ensures r.Keys == mem.Keys
    ensures GetPtr(r, a) == v
    ensures forall x | x in mem && x != a && x != a + 4 :: r[x] == mem[x]
  {
    mem[a := v % WORD_LIMIT][a + 4 := v / WORD_LIMIT]
  }

  // ---- bytes ----

  /** Byte k of a word, least significant first. */
  function ByteOfWord(w: Word, k: int): Byte
    requires 0 <= k < 4
  {
    if k == 0 then w % 256
    else if k == 1 then w / 256 % 256
    else if k == 2 then w / 65536 % 256
    else w / 16777216
  }

  function WithByte(w: Word, k: int, b: Byte): Word
    requires 0 <= k < 4
  {
    WordOfBytes(
      if k == 0 then b else ByteOfWord(w, 0),
      if k == 1 then b else ByteOfWord(w, 1),
      if k == 2 then b else ByteOfWord(w, 2),
      if k == 3 then b else ByteOfWord(w, 3))
  }

  function WordOfBytes(b0: Byte, b1: Byte, b2: Byte, b3: Byte): Word {
    b0 + 256 * b1 + 65536 * b2 + 16777216 * b3
  }

  lemma WordOfBytesParts(b0: Byte, b1: Byte, b2: Byte, b3: Byte, k: int)
    requires 0 <= k < 4
    ensures ByteOfWord(WordOfBytes(b0, b1, b2, b3), k)
         == if k == 0 then b0 else if k == 1 then b1 else if k == 2 then b2 else b3
  {
    if k == 0 {
      LowPart(b0, b1 + 256 * b2 + 65536 * b3, 256);
    } else if k == 1 {
      HighPart(b0, b1 + 256 * b2 + 65536 * b3, 256);
      LowPart(b1, b2 + 256 * b3, 256);
    } else if k == 2 {
      HighPart(b0 + 256 * b1, b2 + 256 * b3, 65536);
      LowPart(b2, b3, 256);
    } else {
      HighPart(b0 + 256 * b1 + 65536 * b2, b3, 16777216);
    }
  }

  lemma LowPart(low: int, high: int, unit: int)
    requires 0 <= low < unit && unit == 256
    ensures (low + unit * high) % unit == low
  {
  }

  lemma HighPart(low: int, high: int, unit: int)
    requires 0 <= low < unit && (unit == 256 || unit == 65536 || unit == 16777216)
    ensures (low + unit * high) / unit == high
  {
    if unit == 256 { } else if unit == 65536 { } else { }
  }

  lemma WithByteParts(w: Word, k: int, b: Byte, j: int)
    requires 0 <= k < 4 && 0 <= j < 4
    ensures ByteOfWord(WithByte(w, k, b), j) == if j == k then b else ByteOfWord(w, j)
  {
    WordOfBytesParts(
      if k == 0 then b else ByteOfWord(w, 0),
      if k == 1 then b else ByteOfWord(w, 1),
      if k == 2 then b else ByteOfWord(w, 2),
      if k == 3 then b else ByteOfWord(w, 3), j);
  }

  /** The word that holds the byte at address a. */
  function WordAddress(a: int): int {
    a - a % 4
  }

  predicate HasByte(mem: Memory, a: int) {
    WordAddress(a) in mem
  }

  function GetByte(mem: Memory, a: int): Byte
    requires HasByte(mem, a)
  {
    ByteOfWord(mem[WordAddress(a)], a % 4)
  }

  function SetByte(mem: Memory, a: int, b: Byte): Memory
    requires HasByte(mem, a)
  {
    mem[WordAddress(a) := WithByte(mem[WordAddress(a)], a % 4, b)]
  }

  /** A byte store changes exactly that byte. */
  lemma SetByteReads(mem: Memory, a: int, b: Byte, x: int)
    requires HasByte(mem, a) && HasByte(mem, x)
    ensures GetByte(SetByte(mem, a, b), x) == if x == a then b else GetByte(mem, x)
  {
    if WordAddress(x) == WordAddress(a) {
      WithByteParts(mem[WordAddress(a)], a % 4, b, x % 4);
      assert x % 4 == a % 4 ==> x == a;
    }
  }

  // ---- memcpy ----

  /** Only words that meet [dst, dst+n) may differ. */
  ghost predicate BytesWritten(m0: Memory, m: Memory, dst: int, n: int) {
    && m.Keys == m0.Keys
    && (forall x | x in m0 && (x + 4 <= dst || dst + n <= x) :: m[x] == m0[x])
  }

  /** Byte x once the first i bytes of src stand at dst. */
  ghost predicate CopiedAt(m0: Memory, m: Memory, dst: int, src: int, i: int, x: int) {
    && HasByte(m0, x) && HasByte(m, x)
    && (if dst <= x < dst + i
        then HasByte(m0, src + (x - dst)) && GetByte(m, x) == GetByte(m0, src + (x - dst))
        else GetByte(m, x) == GetByte(m0, x))
  }

  ghost predicate Copied(m0: Memory, m: Memory, dst: int, src: int, i: int) {
    forall x | HasByte(m0, x) :: CopiedAt(m0, m, dst, src, i, x)
  }

  lemma HasByteKeys(m0: Memory, m: Memory, x: int)
    requires m.Keys == m0.Keys
    ensures HasByte(m, x) == HasByte(m0, x)
  {
    assert WordAddress(x) in m.Keys <==> WordAddress(x) in m0.Keys;
  }

  lemma CopyStep(m0: Memory, m: Memory, dst: int, src: int, n: int, i: int)
    requires BytesWritten(m0, m, dst, n) && Copied(m0, m, dst, src, i)
    requires 0 <= i < n && (dst + n <= src || src + n <= dst)
    requires HasByte(m0, dst + i) && HasByte(m0, src + i)
    requires HasByte(m, dst + i) && HasByte(m, src + i)
    ensures var b := GetByte(m, src + i); var after := SetByte(m, dst + i, b);
            BytesWritten(m0, after, dst, n) && Copied(m0, after, dst, src, i + 1)
  {
    var b := GetByte(m, src + i);
    var after := SetByte(m, dst + i, b);
    SetByteFrame(m, dst + i, b);
    hide GetByte, SetByte, HasByte;
    assert BytesWritten(m0, after, dst, n) by {
      hide Copied;
      forall x | x in m0 && (x + 4 <= dst || dst + n <= x) ensures after[x] == m0[x] {
        assert x in m.Keys;
      }
    }
    assert CopiedAt(m0, m, dst, src, i, src + i);
    assert m.Keys == m0.Keys;
    hide BytesWritten;
    forall x | HasByte(m0, x) ensures CopiedAt(m0, after, dst, src, i + 1, x) {
      assert CopiedAt(m0, m, dst, src, i, x);
      HasByteKeys(m, after, x);
      SetByteReads(m, dst + i, b, x);
    }
  }

  lemma SetByteFrame(m: Memory, a: int, b: Byte)
    requires HasByte(m, a)
    ensures SetByte(m, a, b).Keys == m.Keys
    ensures forall x | x in m && (x + 4 <= a || a + 1 <= x) :: SetByte(m, a, b)[x] == m[x]
  {
    hide WithByte;
    assert WordAddress(a) <= a < WordAddress(a) + 4;
  }

  /** The n bytes from a are mapped. */
  ghost predicate Readable(m: Memory, a: int, n: int) {
    forall x | a <= x < a + n :: HasByte(m, x)
  }

  /** The n bytes at a in m0 are the n bytes at b in m. */
  ghost predicate SameBytes(m0: Memory, a: int, m: Memory, b: int, n: int) {
    forall x | a <= x < a + n ::
      HasByte(m0, x) && HasByte(m, b + (x - a)) && GetByte(m0, x) == GetByte(m, b + (x - a))
  }
}
