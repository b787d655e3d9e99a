/**
 The mark bits of tenured cells: the address arithmetic of `public/HeapAPI.h`, for both
 chunk sizes and both word sizes.
 */
module MarkBits {
  import opened Words

  /** The constants of a build: chunk size, place and size of the mark bitmap, and bytes per word. */
  datatype Layout = Layout(chunkShift: nat, bitmapOffset: nat, bitmapBits: nat, wordBytes: nat)

  predicate IsLayout(c: Layout) {
    && ((c.chunkShift == 18 && c.bitmapOffset == 258104 && c.bitmapBits == 31744)
        || (c.chunkShift == 20 && c.bitmapOffset == 1032352 && c.bitmapBits == 129024))
    && (c.wordBytes == 4 || c.wordBytes == 8)
  }

  const CELL_BYTES_PER_MARK_BIT: nat := 8
  const MIN_CELL_BYTES: nat := 16

  function ChunkSize(c: Layout): (s: nat)
    requires IsLayout(c)
    ensures s == Pow2(c.chunkShift)
  {
    ChunkSizes();
    if c.chunkShift == 18 then 262144 else 1048576
  }

  lemma ChunkSizes()
    ensures Pow2(18) == 262144 && Pow2(20) == 1048576 && Pow2(2) == 4
  {
    Pow2Values();
    Pow2Add(2, 18);
  }

  function WordBits(c: Layout): nat {
    c.wordBytes * 8
  }

  datatype ColorBit = BlackBit | GrayOrBlackBit

  function ColorIndex(b: ColorBit): nat {
    if b.BlackBit? then 0 else 1
  }

  predicate IsAddress(addr: nat, c: Layout) {
    addr < Pow2(WordBits(c))
  }

  function ChunkBase(addr: nat, c: Layout): (base: nat)
    requires IsLayout(c)
  {
    addr - addr % ChunkSize(c)
  }

  /** An aligned cell of at least 16 bytes inside the arenas, the area the bitmap has bits for. */
  ghost predicate IsCell(addr: nat, c: Layout)
    requires IsLayout(c)
  {
    && IsAddress(addr, c) && addr % 8 == 0
    && addr % ChunkSize(c) + MIN_CELL_BYTES <= c.bitmapBits * CELL_BYTES_PER_MARK_BIT
  }

  lemma WordIsWide(c: Layout)
    requires IsLayout(c)
    ensures ChunkSize(c) <= Pow2(WordBits(c)) && 0 <= ChunkSize(c) - 1 < Pow2(WordBits(c))
    ensures c.chunkShift <= WordBits(c) && WordBits(c) > 0
  {
    hide Pow2;
    Pow2Grows(c.chunkShift, WordBits(c));
  }

  function GetGCThingMarkBitmap(addr: nat, c: Layout): nat
    requires IsLayout(c)
  {
    WordIsWide(c);
    Or(And(addr, Not(ChunkSize(c) - 1, WordBits(c))), c.bitmapOffset)
  }

  /** The address of the word holding one of a cell's mark bits, and the bit's mask in it. */
  function GetGCThingMarkWordAndMask(addr: nat, colorBit: ColorBit, c: Layout): (nat, nat)
    requires IsLayout(c)
  {
    hide Pow2, And, Or;
    WordIsWide(c);
    var bit := And(addr, ChunkSize(c) - 1) / CELL_BYTES_PER_MARK_BIT + ColorIndex(colorBit);
    var nbits := WordBits(c);
    DivNonNegative(bit, nbits);
    MulNonNegative(bit / nbits, c.wordBytes);
    (GetGCThingMarkBitmap(addr, c) + (bit / nbits) * c.wordBytes, Shl(1, bit % nbits, nbits))
  }

  // ---------------------------------------------------------------------------
  // Where the bits are
  // ---------------------------------------------------------------------------

  /** The index of a mark bit in its chunk's bitmap. */
  function BitIndex(addr: nat, colorBit: ColorBit, c: Layout): nat
    requires IsLayout(c)
  {
    addr % ChunkSize(c) / 8 + ColorIndex(colorBit)
  }

  lemma BitmapIsInChunk(addr: nat, c: Layout)
    requires IsLayout(c) && IsAddress(addr, c)
    ensures GetGCThingMarkBitmap(addr, c) == ChunkBase(addr, c) + c.bitmapOffset
  {
    hide Pow2, And, Or;
    WordIsWide(c);
    ClearLow(addr, c.chunkShift, WordBits(c));
    var size := ChunkSize(c);
    DivModUnique(ChunkBase(addr, c), size, addr / size, 0);
    OrDisjoint(ChunkBase(addr, c), c.bitmapOffset, c.chunkShift);
  }

  /** The word and mask, in closed form. */
  lemma WordAndMaskAre(addr: nat, colorBit: ColorBit, c: Layout)
    requires IsLayout(c) && IsCell(addr, c)
    ensures var bit, n := BitIndex(addr, colorBit, c), WordBits(c);
            && bit < c.bitmapBits && n > 0
            && GetGCThingMarkWordAndMask(addr, colorBit, c)
               == (ChunkBase(addr, c) + c.bitmapOffset + (bit / n) * c.wordBytes, Pow2(bit % n))
  {
    hide Pow2, And, Or, Shl, GetGCThingMarkBitmap;
    BitmapIsInChunk(addr, c);
    AndLowMask(addr, c.chunkShift);
    WordIsWide(c);
    IndexIsInBitmap(addr, colorBit, c);
    hide BitIndex;
    OneShifted(BitIndex(addr, colorBit, c) % WordBits(c), WordBits(c));
  }

  /**
   The black bit of a cell is the bit of the bitmap at the cell's index, which counts the
   8-byte units before it in its chunk; the gray-or-black bit is the next one.
   */
  lemma MarkBitPlaces(addr: nat, colorBit: ColorBit, inChunk: nat, bitmap: nat, c: Layout)
    requires IsLayout(c) && addr < Pow2(8 * c.wordBytes) && addr % 8 == 0
    requires c.chunkShift == 18 ==> inChunk == addr % 262144 <= 253952 - 16 && bitmap == addr - inChunk + 258104
    requires c.chunkShift == 20 ==> inChunk == addr % 1048576 <= 1032192 - 16 && bitmap == addr - inChunk + 1032352
    ensures var i := inChunk / 8 + if colorBit == BlackBit then 0 else 1;
            GetGCThingMarkWordAndMask(addr, colorBit, c)
              == if c.wordBytes == 8 then (bitmap + i / 64 * 8, Pow2(i % 64)) else (bitmap + i / 32 * 4, Pow2(i % 32))
  {
    hide *;
    CellInNumbers(addr, colorBit, inChunk, bitmap, c);
    WordAndMaskAre(addr, colorBit, c);
    PlaceInWords(bitmap, BitIndex(addr, colorBit, c), c);
  }

  lemma PlaceInWords(bitmap: nat, bit: nat, c: Layout)
    requires IsLayout(c)
    ensures var n := WordBits(c);
            && n > 0 && bit % n >= 0
            && (bitmap + (bit / n) * c.wordBytes, Pow2(bit % n))
               == if c.wordBytes == 8 then (bitmap + bit / 64 * 8, Pow2(bit % 64)) else (bitmap + bit / 32 * 4, Pow2(bit % 32))
  {
    hide Pow2;
  }

  lemma CellInNumbers(addr: nat, colorBit: ColorBit, inChunk: nat, bitmap: nat, c: Layout)
    requires IsLayout(c) && addr < Pow2(8 * c.wordBytes) && addr % 8 == 0
    requires c.chunkShift == 18 ==> inChunk == addr % 262144 <= 253952 - 16 && bitmap == addr - inChunk + 258104
    requires c.chunkShift == 20 ==> inChunk == addr % 1048576 <= 1032192 - 16 && bitmap == addr - inChunk + 1032352
    ensures IsCell(addr, c) && ChunkBase(addr, c) + c.bitmapOffset == bitmap
    ensures BitIndex(addr, colorBit, c) == inChunk / 8 + if colorBit == BlackBit then 0 else 1
  {
    hide Pow2;
  }

  lemma IndexIsInBitmap(addr: nat, colorBit: ColorBit, c: Layout)
    requires IsLayout(c) && IsCell(addr, c)
    ensures BitIndex(addr, colorBit, c) < c.bitmapBits
    ensures BitIndex(addr, colorBit, c) == (addr % ChunkSize(c)) / CELL_BYTES_PER_MARK_BIT + ColorIndex(colorBit)
  {
    hide IsAddress;
    var x := addr % ChunkSize(c);
    assert x + 16 <= c.bitmapBits * 8 ==> x / 8 + 2 <= c.bitmapBits;
  }

  /**
   Every mark word lies, aligned, in the bitmap: past the arenas, in the cell's own chunk, and
   before the two pointers and the 64-bit location that end it.
   */
  lemma MarkWordIsInBitmap(addr: nat, colorBit: ColorBit, c: Layout)
    requires IsLayout(c) && IsCell(addr, c)
    ensures var word, base := GetGCThingMarkWordAndMask(addr, colorBit, c).0, ChunkBase(addr, c);
            && base + c.bitmapBits * CELL_BYTES_PER_MARK_BIT <= base + c.bitmapOffset <= word
            && word + c.wordBytes <= base + c.bitmapOffset + c.bitmapBits / 8 <= base + ChunkSize(c) - (2 * c.wordBytes + 8)
            && IsAligned(word - base, c)
  {
    WordAndMaskAre(addr, colorBit, c);
    hide Pow2, GetGCThingMarkWordAndMask, BitIndex, ChunkBase, IsCell, IsAligned;
    WordFits(BitIndex(addr, colorBit, c), c);
  }

  predicate IsAligned(offset: int, c: Layout)
    requires IsLayout(c)
  {
    offset % c.wordBytes == 0
  }

  lemma WordFits(bit: nat, c: Layout)
    requires IsLayout(c) && bit < c.bitmapBits
    ensures WordBits(c) > 0
    ensures 0 <= (bit / WordBits(c)) * c.wordBytes && (bit / WordBits(c)) * c.wordBytes + c.wordBytes <= c.bitmapBits / 8
    ensures IsAligned(c.bitmapOffset + (bit / WordBits(c)) * c.wordBytes, c)
  {
    hide IsAligned;
    if c.wordBytes == 4 {
      FourByteWords(bit, c);
    } else {
      EightByteWords(bit, c);
    }
  }

  lemma FourByteWords(bit: nat, c: Layout)
    requires IsLayout(c) && bit < c.bitmapBits && c.wordBytes == 4
    ensures (bit / 32) * 4 + 4 <= c.bitmapBits / 8 && IsAligned(c.bitmapOffset + (bit / 32) * 4, c)
  {
  }

  lemma EightByteWords(bit: nat, c: Layout)
    requires IsLayout(c) && bit < c.bitmapBits && c.wordBytes == 8
    ensures (bit / 64) * 8 + 8 <= c.bitmapBits / 8 && IsAligned(c.bitmapOffset + (bit / 64) * 8, c)
  {
  }

  /** Two mark bits of one bitmap share word and mask only if they are the same bit. */
  lemma SameBit(i: nat, j: nat, wordBytes: nat, n: nat)
    requires wordBytes > 0 && n > 0 && (i / n) * wordBytes == (j / n) * wordBytes && Pow2(i % n) == Pow2(j % n)
    ensures i == j
  {
    Pow2Injective(i % n, j % n);
    SplitUnique(wordBytes, i / n, 0, j / n, 0);
  }

  ghost predicate Apart(a: nat, b: nat) {
    a + MIN_CELL_BYTES <= b || b + MIN_CELL_BYTES <= a
  }

  /** Distinct bits of non-overlapping cells, in one chunk or in two, are at distinct places. */
  lemma MarkBitsDistinct(a: nat, x: ColorBit, b: nat, y: ColorBit, c: Layout)
    requires IsLayout(c) && IsCell(a, c) && IsCell(b, c)
    requires a + 16 <= b || b + 16 <= a || (a == b && x != y)
    ensures GetGCThingMarkWordAndMask(a, x, c) != GetGCThingMarkWordAndMask(b, y, c)
  {
    WordAndMaskAre(a, x, c);
    WordAndMaskAre(b, y, c);
    MarkWordIsInBitmap(a, x, c);
    MarkWordIsInBitmap(b, y, c);
    hide Pow2, GetGCThingMarkWordAndMask;
    if ChunkBase(a, c) == ChunkBase(b, c) {
      if GetGCThingMarkWordAndMask(a, x, c) == GetGCThingMarkWordAndMask(b, y, c) {
        SameBit(BitIndex(a, x, c), BitIndex(b, y, c), c.wordBytes, WordBits(c));
      }
    } else {
      ChunksApart(a, b, ChunkSize(c));
    }
  }

  /** Different chunks do not overlap. */
  lemma ChunksApart(a: nat, b: nat, size: nat)
    requires size > 0 && a - a % size != b - b % size
    ensures (a - a % size) + size <= b - b % size || (b - b % size) + size <= a - a % size
  {
    var i, j := a / size, b / size;
    assert a - a % size == i * size && b - b % size == j * size;
    if i < j {
      MulDistributes(j, i, size);
      MulAtLeast(j - i, size);
    } else {
      MulDistributes(i, j, size);
      if i > j {
        MulAtLeast(i - j, size);
      }
    }
  }

  // ---------------------------------------------------------------------------
  // Colours
  // ---------------------------------------------------------------------------

  datatype Color = White | Gray | Black

  /** The words of memory by address. */
  type Heap = map<nat, nat>

  /** The address of the word that holds a cell's mark bit. */
  ghost function MarkWord(cell: nat, x: ColorBit, c: Layout): nat
    requires IsLayout(c)
  {
    WordIsWide(c);
    MulNonNegative(BitIndex(cell, x, c) / WordBits(c), c.wordBytes);
    ChunkBase(cell, c) + c.bitmapOffset + (BitIndex(cell, x, c) / WordBits(c)) * c.wordBytes
  }

  ghost predicate HasWords(h: Heap, c: Layout)
    requires IsLayout(c)
  {
    forall a, x :: IsCell(a, c) ==> MarkWord(a, x, c) in h && h[MarkWord(a, x, c)] < Pow2(WordBits(c))
  }

  /** The bit of the chunk's bitmap, in words from the bitmap's offset on, at the cell's place. */
  ghost predicate BitIsSet(h: Heap, cell: nat, x: ColorBit, c: Layout)
    requires IsLayout(c) && MarkWord(cell, x, c) in h
  {
    WordIsWide(c);
    Bit(h[MarkWord(cell, x, c)], BitIndex(cell, x, c) % WordBits(c)) == 1
  }

  lemma WordsPresent(h: Heap, cell: nat, x: ColorBit, c: Layout)
    requires IsLayout(c) && HasWords(h, c) && IsCell(cell, c)
    ensures var w := GetGCThingMarkWordAndMask(cell, x, c).0;
            w == MarkWord(cell, x, c) && w in h && h[w] < Pow2(WordBits(c))
  {
    hide Pow2, GetGCThingMarkWordAndMask, IsCell, BitIndex, ChunkBase;
    WordAndMaskAre(cell, x, c);
  }

  /** Testing a word with a mask reads the bit. */
  lemma MaskReadsBit(h: Heap, cell: nat, x: ColorBit, c: Layout)
    requires IsLayout(c) && HasWords(h, c) && IsCell(cell, c)
    ensures var (word, mask) := GetGCThingMarkWordAndMask(cell, x, c);
            && word == MarkWord(cell, x, c) && word in h
            && (And(h[word], mask) != 0 <==> BitIsSet(h, cell, x, c))
  {
    hide Pow2, And, Bit, GetGCThingMarkWordAndMask, IsCell, BitIndex, HasWords, ChunkBase;
    WordAndMaskAre(cell, x, c);
    WordsPresent(h, cell, x, c);
    TestBit(h[MarkWord(cell, x, c)], BitIndex(cell, x, c) % WordBits(c));
  }

  /** The colour table of the header. */
  ghost function ColorOf(h: Heap, cell: nat, c: Layout): Color
    requires IsLayout(c) && HasWords(h, c) && IsCell(cell, c)
  {
    if BitIsSet(h, cell, BlackBit, c) then Black
    else if BitIsSet(h, cell, GrayOrBlackBit, c) then Gray
    else White
  }

  predicate TenuredCellIsMarkedGray(h: Heap, cell: nat, c: Layout)
    requires IsLayout(c) && HasWords(h, c) && IsCell(cell, c)
  {
    WordsPresent(h, cell, GrayOrBlackBit, c);
    WordsPresent(h, cell, BlackBit, c);
    var (grayWord, grayMask) := GetGCThingMarkWordAndMask(cell, GrayOrBlackBit, c);
    if And(h[grayWord], grayMask) == 0 then
      false
    else
      var (blackWord, blackMask) := GetGCThingMarkWordAndMask(cell, BlackBit, c);
      And(h[blackWord], blackMask) == 0
  }

  lemma GrayTestDecodesTable(h: Heap, cell: nat, c: Layout)
    requires IsLayout(c) && HasWords(h, c) && IsCell(cell, c)
    ensures TenuredCellIsMarkedGray(h, cell, c) <==> ColorOf(h, cell, c) == Gray
  {
    hide GetGCThingMarkWordAndMask, BitIsSet, HasWords, IsCell, And;
    MaskReadsBit(h, cell, GrayOrBlackBit, c);
    MaskReadsBit(h, cell, BlackBit, c);
  }

  /** The bit of a bitmap at an index, the bitmap being the words from an address on. */
  ghost predicate BitmapBit(h: Heap, bitmap: nat, i: nat, wordBytes: nat) {
    if wordBytes == 8 then bitmap + i / 64 * 8 in h && (h[bitmap + i / 64 * 8] / Pow2(i % 64)) % 2 == 1
    else bitmap + i / 32 * 4 in h && (h[bitmap + i / 32 * 4] / Pow2(i % 32)) % 2 == 1
  }

  lemma MaskReadsBitmap(h: Heap, cell: nat, x: ColorBit, bitmap: nat, i: nat, c: Layout)
    requires IsLayout(c) && HasWords(h, c) && IsCell(cell, c)
    requires GetGCThingMarkWordAndMask(cell, x, c)
          == if c.wordBytes == 8 then (bitmap + i / 64 * 8, Pow2(i % 64)) else (bitmap + i / 32 * 4, Pow2(i % 32))
    ensures var (word, mask) := GetGCThingMarkWordAndMask(cell, x, c);
            word in h && (And(h[word], mask) != 0 <==> BitmapBit(h, bitmap, i, c.wordBytes))
  {
    hide Pow2, And, GetGCThingMarkWordAndMask, IsCell, HasWords, BitmapBit, IsLayout;
    WordsPresent(h, cell, x, c);
    var (word, mask) := GetGCThingMarkWordAndMask(cell, x, c);
    PlaceReads(h, bitmap, i, c.wordBytes, word, mask);
  }

  lemma PlaceReads(h: Heap, bitmap: nat, i: nat, wordBytes: nat, word: nat, mask: nat)
    requires (word, mask) == if wordBytes == 8 then (bitmap + i / 64 * 8, Pow2(i % 64)) else (bitmap + i / 32 * 4, Pow2(i % 32))
    requires word in h
    ensures And(h[word], mask) != 0 <==> BitmapBit(h, bitmap, i, wordBytes)
  {
    hide Pow2, And;
    TestBit(h[word], if wordBytes == 8 then i % 64 else i % 32);
  }

  /** A cell is black when the bit of the bitmap at its index is set, else gray when the next one is set. */
  lemma ColorInNumbers(h: Heap, cell: nat, inChunk: nat, bitmap: nat, c: Layout)
    requires IsLayout(c) && HasWords(h, c) && IsCell(cell, c)
    requires c.chunkShift == 18 ==> inChunk == cell % 262144 && bitmap == cell - inChunk + 258104
    requires c.chunkShift == 20 ==> inChunk == cell % 1048576 && bitmap == cell - inChunk + 1032352
    ensures TenuredCellIsMarkedGray(h, cell, c)
       <==> BitmapBit(h, bitmap, inChunk / 8 + 1, c.wordBytes) && !BitmapBit(h, bitmap, inChunk / 8, c.wordBytes)
    ensures ColorOf(h, cell, c) == if BitmapBit(h, bitmap, inChunk / 8, c.wordBytes) then Black
                                   else if BitmapBit(h, bitmap, inChunk / 8 + 1, c.wordBytes) then Gray else White
  {
    hide *;
    NumbersOfCell(cell, inChunk, c);
    MarkBitPlaces(cell, GrayOrBlackBit, inChunk, bitmap, c);
    MarkBitPlaces(cell, BlackBit, inChunk, bitmap, c);
    ColorByPlaces(h, cell, inChunk / 8, bitmap, c);
  }

  lemma ColorByPlaces(h: Heap, cell: nat, i: nat, bitmap: nat, c: Layout)
    requires IsLayout(c) && HasWords(h, c) && IsCell(cell, c)
    requires GetGCThingMarkWordAndMask(cell, BlackBit, c)
          == if c.wordBytes == 8 then (bitmap + i / 64 * 8, Pow2(i % 64)) else (bitmap + i / 32 * 4, Pow2(i % 32))
    requires GetGCThingMarkWordAndMask(cell, GrayOrBlackBit, c)
          == if c.wordBytes == 8 then (bitmap + (i + 1) / 64 * 8, Pow2((i + 1) % 64)) else (bitmap + (i + 1) / 32 * 4, Pow2((i + 1) % 32))
    ensures TenuredCellIsMarkedGray(h, cell, c) <==> BitmapBit(h, bitmap, i + 1, c.wordBytes) && !BitmapBit(h, bitmap, i, c.wordBytes)
    ensures ColorOf(h, cell, c) == if BitmapBit(h, bitmap, i, c.wordBytes) then Black
                                   else if BitmapBit(h, bitmap, i + 1, c.wordBytes) then Gray else White
  {
    hide Pow2, And, GetGCThingMarkWordAndMask, IsCell, HasWords, BitmapBit, IsLayout, BitIsSet;
    MaskReadsBit(h, cell, BlackBit, c);
    MaskReadsBit(h, cell, GrayOrBlackBit, c);
    MaskReadsBitmap(h, cell, GrayOrBlackBit, bitmap, i + 1, c);
    MaskReadsBitmap(h, cell, BlackBit, bitmap, i, c);
  }

  lemma NumbersOfCell(addr: nat, inChunk: nat, c: Layout)
    requires IsLayout(c) && IsCell(addr, c)
    requires c.chunkShift == 18 ==> inChunk == addr % 262144
    requires c.chunkShift == 20 ==> inChunk == addr % 1048576
    ensures addr < Pow2(8 * c.wordBytes) && addr % 8 == 0
    ensures c.chunkShift == 18 ==> inChunk <= 253952 - 16
    ensures c.chunkShift == 20 ==> inChunk <= 1032192 - 16
  {
    hide Pow2;
  }

  /** Setting or clearing one mark bit by its word and mask. */
  ghost function WriteBit(h: Heap, cell: nat, x: ColorBit, on: bool, c: Layout): Heap
    requires IsLayout(c) && HasWords(h, c) && IsCell(cell, c)
  {
    WordsPresent(h, cell, x, c);
    var (word, mask) := GetGCThingMarkWordAndMask(cell, x, c);
    h[word := if on then Or(h[word], mask) else if mask < Pow2(WordBits(c)) then And(h[word], Not(mask, WordBits(c))) else h[word]]
  }

  /** Writing one mark bit keeps every word in place and of word size. */
  lemma WriteKeepsWords(h: Heap, cell: nat, x: ColorBit, on: bool, c: Layout)
    requires IsLayout(c) && HasWords(h, c) && IsCell(cell, c)
    ensures HasWords(WriteBit(h, cell, x, on, c), c)
  {
    hide Pow2, GetGCThingMarkWordAndMask, IsCell, BitIndex, Or, And, MarkWord;
    WordAndMaskAre(cell, x, c);
    WordsPresent(h, cell, x, c);
    var (word, mask) := GetGCThingMarkWordAndMask(cell, x, c);
    var k, n := BitIndex(cell, x, c) % WordBits(c), WordBits(c);
    Pow2Grows(k, n);
    SetStaysWord(h[word], k, n);
    ClearBit(h[word], k, n);
    MulNonNegative(Bit(h[word], k), Pow2(k));
  }

  lemma SetStaysWord(x: nat, k: nat, n: nat)
    requires k < n && x < Pow2(n)
    ensures Or(x, Pow2(k)) < Pow2(n)
  {
    Pow2Grows(k, n);
    OrBelow(x, Pow2(k), n);
  }

  /** A mark bit written reads back; every other mark bit of the cells concerned is as before. */
  lemma ReadAfterWrite(h: Heap, a: nat, x: ColorBit, on: bool, b: nat, y: ColorBit, c: Layout)
    requires IsLayout(c) && HasWords(h, c) && IsCell(a, c) && IsCell(b, c) && (a == b || Apart(a, b))
    ensures HasWords(WriteBit(h, a, x, on, c), c)
    ensures BitIsSet(WriteBit(h, a, x, on, c), b, y, c) == if a == b && x == y then on else BitIsSet(h, b, y, c)
  {
    hide Pow2, GetGCThingMarkWordAndMask, IsCell, BitIndex, Or, And, Bit, HasWords, MarkWord;
    WriteKeepsWords(h, a, x, on, c);
    WordsPresent(h, a, x, c);
    WordsPresent(h, b, y, c);
    WordAndMaskAre(a, x, c);
    WordAndMaskAre(b, y, c);
    if !(a == b && x == y) {
      MarkBitsDistinct(a, x, b, y, c);
    }
    var n := WordBits(c);
    var i, j := BitIndex(a, x, c) % n, BitIndex(b, y, c) % n;
    var (wordA, maskA) := GetGCThingMarkWordAndMask(a, x, c);
    var (wordB, maskB) := GetGCThingMarkWordAndMask(b, y, c);
    Pow2Grows(i, n);
    if wordA == wordB {
      BitAfterSet(h[wordA], i, j);
      BitAfterClear(h[wordA], i, j, n);
    }
  }

  /** Colouring a cell: both of its mark bits are written; black cells may have either gray bit. */
  ghost function Recolor(h: Heap, cell: nat, color: Color, grayBitIfBlack: bool, c: Layout): Heap
    requires IsLayout(c) && HasWords(h, c) && IsCell(cell, c)
  {
    var h1 := WriteBit(h, cell, BlackBit, color.Black?, c);
    WriteKeepsWords(h, cell, BlackBit, color.Black?, c);
    WriteBit(h1, cell, GrayOrBlackBit, color.Gray? || (color.Black? && grayBitIfBlack), c)
  }

  /** Recolouring a cell gives it that colour and changes no other cell's, in its chunk or in any other. */
  lemma RecolorChangesOneCell(h: Heap, a: nat, color: Color, grayBitIfBlack: bool, b: nat, c: Layout)
    requires IsLayout(c) && HasWords(h, c) && IsCell(a, c) && IsCell(b, c) && (a == b || Apart(a, b))
    ensures HasWords(Recolor(h, a, color, grayBitIfBlack, c), c)
    ensures ColorOf(Recolor(h, a, color, grayBitIfBlack, c), b, c) == if a == b then color else ColorOf(h, b, c)
    ensures TenuredCellIsMarkedGray(Recolor(h, a, color, grayBitIfBlack, c), b, c)
       <==> if a == b then color == Gray else TenuredCellIsMarkedGray(h, b, c)
  {
    hide WriteBit, BitIsSet, HasWords, IsCell, TenuredCellIsMarkedGray;
    var gray := color.Gray? || (color.Black? && grayBitIfBlack);
    ReadAfterWrite(h, a, BlackBit, color.Black?, b, BlackBit, c);
    ReadAfterWrite(h, a, BlackBit, color.Black?, b, GrayOrBlackBit, c);
    var h1 := WriteBit(h, a, BlackBit, color.Black?, c);
    ReadAfterWrite(h1, a, GrayOrBlackBit, gray, b, BlackBit, c);
    ReadAfterWrite(h1, a, GrayOrBlackBit, gray, b, GrayOrBlackBit, c);
    GrayTestDecodesTable(h, b, c);
    GrayTestDecodesTable(Recolor(h, a, color, grayBitIfBlack, c), b, c);
  }
}
