/** Bytes, words and bit fields of the instruction stream: big-endian access, sign extension
    and the overlay and extraction of one bit field of a 16-bit word. */
module Words {
  type Byte = bv8
  type Word = bv16
  type Long = bv32

  /** The error codes are the negative return values of the C functions. */
  datatype Result<+T> = Ok(value: T) | Err(code: int)

  // ---------- bit fields ----------

  /** The position of a bit in a word. */
  type BitIndex = bv4

  function WidthMask(hi: BitIndex, lo: BitIndex): Word
    requires lo <= hi
  {
    0xFFFF >> (15 - (hi - lo))
  }

  /** The mask as the C code writes it, one bit past the width minus one. */
  lemma WidthMaskAsShift(hi: BitIndex, lo: BitIndex)
    requires lo <= hi
    ensures var width: Word := (hi - lo) as Word + 1;
            WidthMask(hi, lo) == (1 << width) - 1
  {
  }

  /** The bits of the word that the field occupies. */
  function FieldMask(hi: BitIndex, lo: BitIndex): Word
    requires lo <= hi
  {
    WidthMask(hi, lo) << lo
  }

  /** The bits of a word that a mask keeps. */
  function Under(word: Word, mask: Word): Word { word & mask }

  /** The two words have no set bit in common. */
  predicate Apart(a: Word, b: Word) { a & b == 0 }

  /** The encoder's step: the bits under the mask, moved up to `lo`, are replaced by the value. */
  function OverlayMasked(word: Word, mask: Word, lo: BitIndex, value: Word): Word {
    (word & !(mask << lo)) | ((value & mask) << lo)
  }

  /** The decoder's step: the bits at `lo` and above that the mask keeps. */
  function ExtractMasked(word: Word, mask: Word, lo: BitIndex): Word {
    (word >> lo) & mask
  }

  function Overlay(word: Word, hi: BitIndex, lo: BitIndex, value: Word): Word
    requires lo <= hi
  {
    OverlayMasked(word, WidthMask(hi, lo), lo, value)
  }

  function ExtractBits16(word: Word, hi: BitIndex, lo: BitIndex): Word
    requires lo <= hi
  {
    ExtractMasked(word, WidthMask(hi, lo), lo)
  }

  /** Case split over the sixteen positions, which lets the solver shift by constants. */
  lemma SomePosition(lo: BitIndex)
    ensures || lo == 0 || lo == 1 || lo == 2 || lo == 3 || lo == 4 || lo == 5 || lo == 6 || lo == 7
            || lo == 8 || lo == 9 || lo == 10 || lo == 11 || lo == 12 || lo == 13 || lo == 14 || lo == 15
  {
  }

  /** No bit of the mask is shifted out of the word. */
  predicate Movable(mask: Word, lo: BitIndex) {
    (mask << lo) >> lo == mask
  }

  lemma WidthMaskMovable(hi: BitIndex, lo: BitIndex)
    requires lo <= hi
    ensures Movable(WidthMask(hi, lo), lo)
  {
  }

  lemma OverlaidBits(word: Word, mask: Word, lo: BitIndex, value: Word)
    requires Movable(mask, lo)
    ensures (((word & !(mask << lo)) | ((value & mask) << lo)) >> lo) & mask == value & mask
  {
    SomePosition(lo);
  }

  lemma ExtractMaskedOverlay(word: Word, mask: Word, lo: BitIndex, value: Word)
    requires Movable(mask, lo)
    ensures ExtractMasked(OverlayMasked(word, mask, lo, value), mask, lo) == value & mask
  {
    hide Movable;
    OverlaidBits(word, mask, lo, value);
  }

  /** Reading a field just written returns the value cut to the width of the field. */
  lemma ExtractOverlay(word: Word, hi: BitIndex, lo: BitIndex, value: Word)
    requires lo <= hi
    ensures ExtractBits16(Overlay(word, hi, lo, value), hi, lo) == Under(value, WidthMask(hi, lo))
  {
    hide Movable, WidthMask, ExtractMasked, OverlayMasked;
    WidthMaskMovable(hi, lo);
    ExtractMaskedOverlay(word, WidthMask(hi, lo), lo, value);
  }

  lemma KeptBits(word: Word, mask: Word, lo: BitIndex, value: Word, other: Word)
    requires (mask << lo) & other == 0
    ensures ((word & !(mask << lo)) | ((value & mask) << lo)) & other == word & other
  {
    SomePosition(lo);
  }

  lemma OverlayMaskedElsewhere(word: Word, mask: Word, lo: BitIndex, value: Word, other: Word)
    requires Apart(mask << lo, other)
    ensures Under(OverlayMasked(word, mask, lo, value), other) == Under(word, other)
  {
    KeptBits(word, mask, lo, value, other);
  }

  /** Writing a field leaves the bits outside it alone. */
  lemma OverlayElsewhere(word: Word, hi: BitIndex, lo: BitIndex, value: Word, other: Word)
    requires lo <= hi && Apart(FieldMask(hi, lo), other)
    ensures Under(Overlay(word, hi, lo, value), other) == Under(word, other)
  {
    hide WidthMask, Apart, Under, OverlayMasked;
    OverlayMaskedElsewhere(word, WidthMask(hi, lo), lo, value, other);
  }

  lemma MaskedReadsItsField(word: Word, word': Word, mask: Word, lo: BitIndex)
    requires Movable(mask, lo) && Under(word, mask << lo) == Under(word', mask << lo)
    ensures ExtractMasked(word, mask, lo) == ExtractMasked(word', mask, lo)
  {
    SomePosition(lo);
  }

  lemma ExtractReadsItsField(word: Word, word': Word, hi: BitIndex, lo: BitIndex)
    requires lo <= hi && Under(word, FieldMask(hi, lo)) == Under(word', FieldMask(hi, lo))
    ensures ExtractBits16(word, hi, lo) == ExtractBits16(word', hi, lo)
  {
    hide Movable, WidthMask, ExtractMasked, Under;
    WidthMaskMovable(hi, lo);
    MaskedReadsItsField(word, word', WidthMask(hi, lo), lo);
  }

  lemma ApartCommutes(a: Word, b: Word)
    requires Apart(a, b)
    ensures Apart(b, a)
  {
  }

  lemma MaskedBase(base: Word, mask: Word)
    requires Apart(base, !mask)
    ensures Under(Under(base, mask), mask) == base
  {
  }

  // ---------- sign extension ----------

  function SignExtend32(value: Long, bits: Long): Long {
    if bits == 0 || bits >= 32 then value
    else
      var signBit := 1 << (bits - 1);
      var mask := (1 << bits) - 1;
      if value & mask & signBit != 0 then (value & mask) | !mask else value & mask
  }

  function Low8(value: Long): Byte { (value & 0xFF) as Byte }
  function Low16(value: Long): Word { (value & 0xFFFF) as Word }
  function High16(value: Long): Word { (value >> 16) as Word }
  function ToByte(value: Word): Byte { (value & 0xFF) as Byte }

  /** A long with its upper or lower half replaced. */
  function WithHigh(value: Long, word: Word): Long { (value & 0x0000FFFF) | ((word as Long) << 16) }
  function WithLow(value: Long, word: Word): Long { (value & 0xFFFF0000) | word as Long }

  function SignExtend16(word: Word): Long { SignExtend32(word as Long, 16) }
  function SignExtend8(byte: Byte): Long { SignExtend32(byte as Long, 8) }

  predicate FitsSignedWord(value: Long) { SignExtend16(Low16(value)) == value }
  predicate FitsSignedByte(value: Long) { SignExtend8(Low8(value)) == value }
  predicate FitsUnsignedWord(value: Long) { High16(value) == 0 }

  /** The low byte of the value is this one. */
  predicate LowByteIs(value: Long, byte: Byte) { Low8(value) == byte }

  lemma HalvesDetermine(a: Long, b: Long)
    requires Low16(a) == Low16(b) && High16(a) == High16(b)
    ensures a == b
  {
  }

  lemma WordOfLow(value: Long)
    requires FitsUnsignedWord(value)
    ensures Low16(value) as Long == value
  {
  }

  lemma ByteOfField(byte: Byte)
    ensures ToByte(Under(byte as Word, 0xFF)) == byte
    ensures byte as Word == 0 <==> byte == 0
  {
  }

  // ---------- big-endian access ----------

  function ReadU16(data: seq<Byte>, offset: nat): Word
    requires offset + 2 <= |data|
  {
    ((data[offset] as Word) << 8) | (data[offset + 1] as Word)
  }

  function ReadU32(data: seq<Byte>, offset: nat): Long
    requires offset + 4 <= |data|
  {
    ((data[offset] as Long) << 24) | ((data[offset + 1] as Long) << 16) |
    ((data[offset + 2] as Long) << 8) | (data[offset + 3] as Long)
  }

  function HighByte(word: Word): Byte { (word >> 8) as Byte }
  function LowByte(word: Word): Byte { (word & 0xFF) as Byte }

  /** The byte image of a list of words, high byte first. */
  function BytesOf(words: seq<Word>): (bytes: seq<Byte>)
    ensures |bytes| == 2 * |words|
  {
    seq(2 * |words|, i requires 0 <= i < 2 * |words| =>
      if i % 2 == 0 then HighByte(words[i / 2]) else LowByte(words[i / 2]))
  }

  /** Words and whatever bytes lie behind them, as the decoder sees an instruction in its section. */
  function Image(words: seq<Word>, rest: seq<Byte>): (bytes: seq<Byte>)
    ensures |bytes| == 2 * |words| + |rest|
  {
    BytesOf(words) + rest
  }

  lemma JoinBytes(word: Word)
    ensures ((HighByte(word) as Word) << 8) | (LowByte(word) as Word) == word
  {
  }

  lemma JoinFourBytes(value: Long)
    ensures ((((value >> 16) as Word >> 8) as Byte as Long) << 24) |
            ((((value >> 16) as Word & 0xFF) as Byte as Long) << 16) |
            ((((value & 0xFFFF) as Word >> 8) as Byte as Long) << 8) |
            (((value & 0xFFFF) as Word & 0xFF) as Byte as Long) == value
  {
  }

  lemma ReadBackWord(words: seq<Word>, rest: seq<Byte>, i: nat)
    requires i < |words|
    ensures ReadU16(Image(words, rest), 2 * i) == words[i]
  {
    var bytes := Image(words, rest);
    assert bytes[2 * i] == HighByte(words[i]) && bytes[2 * i + 1] == LowByte(words[i]);
    JoinBytes(words[i]);
  }

  lemma ReadBackLong(words: seq<Word>, rest: seq<Byte>, i: nat, value: Long)
    requires i + 1 < |words| && words[i] == High16(value) && words[i + 1] == Low16(value)
    ensures ReadU32(Image(words, rest), 2 * i) == value
  {
    var bytes := Image(words, rest);
    assert bytes[2 * i] == HighByte(words[i]) && bytes[2 * i + 1] == LowByte(words[i]);
    assert bytes[2 * i + 2] == HighByte(words[i + 1]) && bytes[2 * i + 3] == LowByte(words[i + 1]);
    JoinFourBytes(value);
  }
}
