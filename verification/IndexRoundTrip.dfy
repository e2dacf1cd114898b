/** Brief and full extension words: the decoder recovers every indexed operand, and exactly when
    the bytes behind a full extension allow it to see where the extension ends. */
module IndexRoundTrip {
  import opened Wrappers
  import opened Words
  import opened FormTable
  import opened Assembler
  import opened Disassembler

  predicate RegistersInRange(index: IndexWord) {
    index.isAddress <= 1 && index.reg <= 7 && index.long <= 1 && index.scale <= 3
  }

  /** A brief operand with its fields in range and its displacement byte sign extended. */
  predicate BriefNormal(operand: Operand) {
    && RegistersInRange(operand.index)
    && operand.index == NO_INDEX.(isAddress := operand.index.isAddress, reg := operand.index.reg,
                                  long := operand.index.long, scale := operand.index.scale)
    && FitsSignedByte(operand.value)
  }

  /** A displacement that its size says is there, and only then. */
  predicate DisplacementNormal(size: Byte, value: Long) {
    && (size == FULL_EXT_BD_WORD ==> FitsSignedWord(value))
    && (size != FULL_EXT_BD_WORD && size != FULL_EXT_BD_LONG ==> value == 0)
  }

  predicate FullNormal(operand: Operand) {
    && operand.value == 0
    && operand.index.UsesFull()
    && RegistersInRange(operand.index)
    && operand.index.baseSuppress <= 1 && operand.index.indexSuppress <= 1
    && operand.index.baseDispSize <= 3 && operand.index.iis <= 7
    && (operand.index.outerDispSize == 0 || operand.index.outerDispSize == FULL_EXT_BD_WORD
        || operand.index.outerDispSize == FULL_EXT_BD_LONG)
    && DisplacementNormal(operand.index.baseDispSize, operand.index.baseDisp)
    && DisplacementNormal(operand.index.outerDispSize, operand.index.outerDisp)
  }

  predicate IndexNormal(operand: Operand) {
    if operand.index.UsesFull() then FullNormal(operand) else BriefNormal(operand)
  }

  /** The operand before its extension has been read. */
  function Unread(operand: Operand): Operand { operand.(value := 0, index := NO_INDEX) }

  /** Whether the decoder can tell the outer displacement when `surplus` bytes lie between the
      extension and the shortest possible remainder of the instruction. */
  predicate OuterRecognised(outerDispSize: Byte, surplus: nat) {
    if outerDispSize == 0 then surplus != 2 && surplus != 4 else surplus == 0
  }

  // ---------- the extension word ----------

  lemma FormatBitsComeBack(baseSuppress: Byte, indexSuppress: Byte, baseDispSize: Byte, iis: Byte, low: Word, word: Word)
    requires baseSuppress <= 1 && indexSuppress <= 1 && baseDispSize <= 3 && iis <= 7
    requires low == (1 << 8) | ((baseSuppress & 0x1) as Word << 7) | ((indexSuppress & 0x1) as Word << 6) |
                    ((baseDispSize & 0x3) as Word << 4) | (iis & 0x7) as Word
    requires word & 0x1FF == low
    ensures ToByte((word >> 7) & 0x1) == baseSuppress && ToByte((word >> 6) & 0x1) == indexSuppress
    ensures ToByte((word >> 4) & 0x3) == baseDispSize && ToByte(word & 0x7) == iis
    ensures (word >> 8) & 0x1 != 0
  {
  }

  /** The decoder reads the register fields of the index from the word. */
  predicate RegistersRead(word: Word, index: IndexWord) {
    && ToByte((word >> 15) & 0x1) == index.isAddress && ToByte((word >> 12) & 0x7) == index.reg
    && ToByte((word >> 11) & 0x1) == index.long && ToByte((word >> 9) & 0x3) == index.scale
  }

  predicate FormatRead(word: Word, index: IndexWord) {
    && ToByte((word >> 7) & 0x1) == index.baseSuppress && ToByte((word >> 6) & 0x1) == index.indexSuppress
    && ToByte((word >> 4) & 0x3) == index.baseDispSize && ToByte(word & 0x7) == index.iis
  }

  /** The nine bits of an extension word that depend on its format. */
  function FormatPart(word: Word): Word { word & 0x1FF }

  function WithFormat(index: IndexWord, low: Word): Word { IndexRegisterBits(index) | low }

  lemma RegisterFields(index: IndexWord, low: Word, word: Word)
    requires RegistersInRange(index) && low <= 0x1FF
    requires word == (((index.isAddress & 0x1) as Word << 15) | ((index.reg & 0x7) as Word << 12) |
                      ((index.long & 0x1) as Word << 11) | ((index.scale & 0x3) as Word << 9)) | low
    ensures RegistersRead(word, index)
  {
  }

  lemma RegisterBitsLeaveRoom(index: IndexWord, low: Word, word: Word)
    requires low <= 0x1FF
    requires word == (((index.isAddress & 0x1) as Word << 15) | ((index.reg & 0x7) as Word << 12) |
                      ((index.long & 0x1) as Word << 11) | ((index.scale & 0x3) as Word << 9)) | low
    ensures FormatPart(word) == low
  {
  }

  lemma RegistersComeBack(index: IndexWord, low: Word)
    requires RegistersInRange(index) && low <= 0x1FF
    ensures RegistersRead(WithFormat(index, low), index) && FormatPart(WithFormat(index, low)) == low
  {
    hide RegistersRead, RegistersInRange, FormatPart;
    RegisterFields(index, low, WithFormat(index, low));
    RegisterBitsLeaveRoom(index, low, WithFormat(index, low));
  }

  lemma FormatComesBack(index: IndexWord, word: Word)
    requires index.baseSuppress <= 1 && index.indexSuppress <= 1 && index.baseDispSize <= 3 && index.iis <= 7
    requires FormatPart(word) == FullFormatBits(index)
    ensures FormatRead(word, index) && IsFullFormat(word)
  {
    hide ToByte;
    FormatBitsComeBack(index.baseSuppress, index.indexSuppress, index.baseDispSize, index.iis, FullFormatBits(index), word);
  }

  lemma FormatBitsFit(index: IndexWord)
    ensures FullFormatBits(index) <= 0x1FF
  {
  }

  lemma BriefByteComesBack(value: Long, word: Word)
    requires FormatPart(word) == Low8(value) as Word
    ensures ToByte(word & 0xFF) == Low8(value) && !IsFullFormat(word)
  {
  }

  lemma BriefByteFits(value: Long)
    ensures Low8(value) as Word <= 0x1FF
  {
  }

  lemma BriefWordIs(index: IndexWord, value: Long)
    ensures BriefExtensionWord(index, value) == WithFormat(index, Low8(value) as Word)
  {
    hide IndexRegisterBits;
    assert (value & 0xFF) as Word == Low8(value) as Word;
  }

  lemma BriefWordComesBack(index: IndexWord, value: Long)
    requires RegistersInRange(index)
    ensures var word := BriefExtensionWord(index, value);
            && BriefIndex(word, NO_INDEX) == NO_INDEX.(isAddress := index.isAddress, reg := index.reg,
                                                       long := index.long, scale := index.scale)
            && ToByte(word & 0xFF) == Low8(value) && !IsFullFormat(word)
  {
    hide ToByte, Low8, IsFullFormat, FormatPart, IndexRegisterBits, BriefExtensionWord, WithFormat;
    BriefWordIs(index, value);
    BriefByteFits(value);
    RegistersComeBack(index, Low8(value) as Word);
    BriefByteComesBack(value, BriefExtensionWord(index, value));
  }

  lemma FullWordComesBack(index: IndexWord)
    requires RegistersInRange(index) && index.baseSuppress <= 1 && index.indexSuppress <= 1
    requires index.baseDispSize <= 3 && index.iis <= 7
    ensures var word := FullExtensionWord(index);
            && FullIndex(word, NO_INDEX) == index.(outerDispSize := 0, baseDisp := 0, outerDisp := 0)
            && IsFullFormat(word)
  {
    hide ToByte, IsFullFormat, FormatPart, FullFormatBits, IndexRegisterBits;
    FormatBitsFit(index);
    assert FullExtensionWord(index) == WithFormat(index, FullFormatBits(index));
    RegistersComeBack(index, FullFormatBits(index));
    FormatComesBack(index, FullExtensionWord(index));
  }

  // ---------- the displacements ----------

  /** The words of a displacement, read back at their place in the data. */
  lemma DisplacementComesBack(words: seq<Word>, rest: seq<Byte>, i: nat, size: Byte, value: Long)
    requires DisplacementNormal(size, value)
    requires i + |DisplacementWords(size, value)| <= |words|
    requires words[i..i + |DisplacementWords(size, value)|] == DisplacementWords(size, value)
    ensures size == FULL_EXT_BD_WORD ==>
              i + 1 <= |words| && SignExtend16(ReadU16(Image(words, rest), 2 * i)) == value
    ensures size == FULL_EXT_BD_LONG ==>
              i + 2 <= |words| && ReadU32(Image(words, rest), 2 * i) == value
  {
    hide ReadU16, ReadU32, Low16, High16, SignExtend16;
    var part := DisplacementWords(size, value);
    if size == FULL_EXT_BD_WORD {
      assert words[i] == part[0];
      ReadBackWord(words, rest, i);
    } else if size == FULL_EXT_BD_LONG {
      assert words[i] == part[0] && words[i + 1] == part[1];
      ReadBackLong(words, rest, i, value);
    }
  }

  // ---------- the operand ----------

  lemma BriefRoundTrip(operand: Operand, before: seq<Word>, after: seq<Word>, rest: seq<Byte>, minimum: nat, allowFull: bool)
    requires BriefNormal(operand) && minimum <= 2 * |after| + |rest|
    ensures var data := Image(before + IndexWords(operand) + after, rest);
            var offset := 2 * |before|;
            DecodedIndex(data, |data| - minimum, Unread(operand), offset, allowFull)
            == Some((operand, offset + 2 * |IndexWords(operand)|))
  {
    hide ReadU16, BriefExtensionWord, BriefIndex, ToByte, SignExtend8, Low8, IsFullFormat;
    var words := before + IndexWords(operand) + after;
    ReadBackWord(words, rest, |before|);
    assert words[|before|] == BriefExtensionWord(operand.index, operand.value);
    BriefWordComesBack(operand.index, operand.value);
  }

  /** The base displacement follows the extension word and is read whatever comes behind it. */
  lemma BaseDisplacementComesBack(operand: Operand, words: seq<Word>, rest: seq<Byte>, first: nat, size: nat)
    requires FullNormal(operand)
    requires first + |DisplacementWords(operand.index.baseDispSize, operand.index.baseDisp)| <= |words|
    requires words[first..first + |DisplacementWords(operand.index.baseDispSize, operand.index.baseDisp)|]
             == DisplacementWords(operand.index.baseDispSize, operand.index.baseDisp)
    requires 2 * (first + |DisplacementWords(operand.index.baseDispSize, operand.index.baseDisp)|) <= size
    requires size <= 2 * |words| + |rest|
    ensures ReadBaseDisplacement(Image(words, rest), size, 2 * first,
                                 operand.index.(outerDispSize := 0, baseDisp := 0, outerDisp := 0))
            == Some((operand.index.(outerDispSize := 0, outerDisp := 0),
                     2 * (first + |DisplacementWords(operand.index.baseDispSize, operand.index.baseDisp)|)))
  {
    hide ReadU16, ReadU32, Low16, High16, SignExtend16, FitsSignedWord;
    DisplacementComesBack(words, rest, first, operand.index.baseDispSize, operand.index.baseDisp);
  }

  /** The outer displacement is recovered exactly when it can be recognised. */
  lemma OuterDisplacementComesBack(operand: Operand, words: seq<Word>, rest: seq<Byte>, first: nat, surplus: nat)
    requires FullNormal(operand)
    requires first + |DisplacementWords(operand.index.outerDispSize, operand.index.outerDisp)| <= |words|
    requires words[first..first + |DisplacementWords(operand.index.outerDispSize, operand.index.outerDisp)|]
             == DisplacementWords(operand.index.outerDispSize, operand.index.outerDisp)
    requires 2 * (first + |DisplacementWords(operand.index.outerDispSize, operand.index.outerDisp)|) + surplus
             <= 2 * |words| + |rest|
    ensures var length := |DisplacementWords(operand.index.outerDispSize, operand.index.outerDisp)|;
            ReadOuterDisplacement(Image(words, rest), 2 * (first + length) + surplus, 2 * first,
                                  operand.index.(outerDispSize := 0, outerDisp := 0))
            == (operand.index, 2 * (first + length))
            <==> OuterRecognised(operand.index.outerDispSize, surplus)
  {
    hide ReadU16, ReadU32, Low16, High16, SignExtend16, FitsSignedWord;
    DisplacementComesBack(words, rest, first, operand.index.outerDispSize, operand.index.outerDisp);
  }

  /** A full extension is recovered, and the offset advanced by its length, exactly when its outer
      displacement can be recognised from the number of bytes behind it. */
  lemma FullRoundTrip(operand: Operand, before: seq<Word>, after: seq<Word>, rest: seq<Byte>, minimum: nat)
    requires FullNormal(operand) && minimum <= 2 * |after| + |rest|
    ensures var data := Image(before + IndexWords(operand) + after, rest);
            var offset := 2 * |before|;
            DecodedIndex(data, |data| - minimum, Unread(operand), offset, true)
            == Some((operand, offset + 2 * |IndexWords(operand)|))
            <==> OuterRecognised(operand.index.outerDispSize, 2 * |after| + |rest| - minimum)
  {
    hide ReadU16, FullExtensionWord, FullIndex, BriefIndex, ToByte, SignExtend8, IsFullFormat, FullNormal,
         ReadBaseDisplacement, ReadOuterDisplacement, DisplacementWords, OuterRecognised;
    var index := operand.index;
    var inner := DisplacementWords(index.baseDispSize, index.baseDisp);
    var outer := DisplacementWords(index.outerDispSize, index.outerDisp);
    FullParts(operand);
    var words := before + ([FullExtensionWord(index)] + inner + outer) + after;
    var first, second := |before| + 1, |before| + 1 + |inner|;
    assert words[|before|] == FullExtensionWord(index);
    assert words[first..second] == inner;
    assert words[second..second + |outer|] == outer;
    ReadBackWord(words, rest, |before|);
    FullWordComesBack(index);
    BaseDisplacementComesBack(operand, words, rest, first, 2 * |words| + |rest| - minimum);
    OuterDisplacementComesBack(operand, words, rest, second, 2 * |after| + |rest| - minimum);
  }

  lemma FullParts(operand: Operand)
    requires FullNormal(operand)
    ensures operand.value == 0 && RegistersInRange(operand.index)
    ensures operand.index.baseSuppress <= 1 && operand.index.indexSuppress <= 1
    ensures operand.index.baseDispSize <= 3 && operand.index.iis <= 7
    ensures IndexWords(operand) == [FullExtensionWord(operand.index)]
                                   + DisplacementWords(operand.index.baseDispSize, operand.index.baseDisp)
                                   + DisplacementWords(operand.index.outerDispSize, operand.index.outerDisp)
  {
  }

  /** The decoder sees enough bytes to allow the full format, and recovers the indexed operand
      exactly when it is brief or its outer displacement can be recognised. */
  lemma IndexedExtensionRoundTrip(operand: Operand, before: seq<Word>, after: seq<Word>, rest: seq<Byte>, minimum: nat)
    requires IndexNormal(operand) && minimum <= 2 * |after| + |rest|
    ensures var data := Image(before + IndexWords(operand) + after, rest);
            var offset := 2 * |before|;
            && |data| > offset + minimum
            && (DecodedIndex(data, |data| - minimum, Unread(operand), offset, |data| > offset + minimum)
                == Some((operand, offset + 2 * |IndexWords(operand)|))
                <==> (operand.index.UsesFull() ==>
                        OuterRecognised(operand.index.outerDispSize, 2 * |after| + |rest| - minimum)))
  {
    hide DecodedIndex;
    if operand.index.UsesFull() {
      FullRoundTrip(operand, before, after, rest, minimum);
    } else {
      BriefRoundTrip(operand, before, after, rest, minimum, true);
    }
  }
}
