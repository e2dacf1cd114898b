/** The branches whose displacement is a byte in the opword or a word behind it, for every size
    suffix and every displacement: exactly which of them survive. */
module BranchRoundTrip {
  import opened Wrappers
  import opened Words
  import opened FormTable
  import opened Assembler
  import opened Disassembler
  import opened FieldRoundTrip

  /** A row with a label as its only operand and its displacement byte as its only field. */
  predicate BranchForm(form: Form) {
    && WellFormed(form)
    && form.operandKinds == [Label] && form.boundBases == [] && |form.patches| == 1
    && form.patches[0].kind.Displacement8? && form.patches[0].wordIndex == 0
    && form.extensions == [ExtensionDef(LabelDisp16IfZero, 0, 0)]
    && form.branchLongBytes == 4
  }

  /** What the proofs use of such a row. */
  predicate BranchFacts(form: Form) {
    && StructureOk(form) && WordsOk(form) && !form.mnemonic.NoMnemonic?
    && form.operandKinds == [Label] && form.boundBases == [] && |form.patches| == 1
    && form.patches[0].kind.Displacement8? && form.patches[0].wordIndex == 0 && form.patches[0].operandIndex == 0
    && form.patches[0].source.WholeValue? && form.patches[0].Mask() == 0xFF
    && form.extensions == [ExtensionDef(LabelDisp16IfZero, 0, 0)]
    && form.branchWordSignal == 0 && form.branchLongSignal != 0 && form.branchWordBytes == 2 && form.branchLongBytes == 4
  }

  lemma FactsOfBranch(form: Form)
    requires BranchForm(form)
    ensures BranchFacts(form)
  {
    hide WordsOk, SizesOk, ExtensionsOk, MovemOk, KindsOk, WidthMask;
  }

  function LabelOperand(value: Long): Operand { NO_OPERAND.(kind := Label, value := value) }

  /** The byte that the encoder puts into the opword. */
  function DisplacementByte(form: Form, suffix: Suffix, value: Long): Byte {
    match suffix
    case SizeW => form.branchWordSignal
    case SizeL => form.branchLongSignal
    case _ => Low8(value)
  }

  /** The words behind the opword of an encoded branch. */
  function BranchTail(form: Form, suffix: Suffix, value: Long): seq<Word> {
    if DisplacementByte(form, suffix, value) == 0 then [Low16(value)] else []
  }

  lemma BranchFields(form: Form, suffix: Suffix, value: Long)
    requires BranchFacts(form) && suffix != Bare
    ensures PatchValuesOf(form, suffix, [LabelOperand(value)]) == Ok([DisplacementByte(form, suffix, value) as Word])
  {
    hide Low8, Low16, High16, WordsOk, WidthMask, StructureOk, RegisterOf, RegisterKindOf;
    OneValue(form, suffix, LabelOperand(value));
  }

  lemma EncodedBranch(form: Form, suffix: Suffix, value: Long, maxBytes: nat)
    requires BranchFacts(form) && suffix != Bare && maxBytes >= 4
    ensures AssembledBytes(form, [DisplacementByte(form, suffix, value) as Word], [LabelOperand(value)], maxBytes)
            == Ok(BytesOf(LeadingWords(form, [DisplacementByte(form, suffix, value) as Word])
                          + BranchTail(form, suffix, value)))
  {
    hide FixedWord, Low8, Low16, WordsOk, WidthMask, BytesOf, EmittedWords;
    var operand := LabelOperand(value);
    var byte := DisplacementByte(form, suffix, value);
    var fields := [byte as Word];
    hide DisplacementByte;
    ByteOfField(byte);
    OneExtension(form, fields, operand);
    assert [FixedWord(form, fields, 0)] + (BoundWords(form, fields) + BranchTail(form, suffix, value))
           == LeadingWords(form, fields) + BranchTail(form, suffix, value);
  }

  lemma OneValue(form: Form, suffix: Suffix, operand: Operand)
    requires |form.patches| == 1
    ensures PatchValues(form, suffix, [operand], 1)
            == match FieldValue(form, form.patches[0], suffix, [operand])
               case Err(code) => Err(code)
               case Ok(value) => Ok([value])
  {
    hide FieldValue;
    assert forall value: Word :: [] + [value] == [value];
    assert PatchValues(form, suffix, [operand], 0) == Ok([]);
  }

  lemma OneExtension(form: Form, fields: seq<Word>, operand: Operand)
    requires BranchFacts(form) && |fields| == 1
    ensures EmittedWords(form, fields, [operand], MAX_EXTENSION_WORDS, 1)
            == Ok(BoundWords(form, fields) + if fields[0] == 0 then [Low16(operand.value)] else [])
  {
    hide FixedWord, Low16, WordsOk, WidthMask;
    assert EmittedWords(form, fields, [operand], MAX_EXTENSION_WORDS, 0) == Ok(BoundWords(form, fields));
    assert form.extensions[0] == ExtensionDef(LabelDisp16IfZero, 0, 0);
    assert ExtensionWords(form, form.extensions[0], fields, [operand])
           == Ok(if fields[0] == 0 then [Low16(operand.value)] else []);
  }

  // ---------- decoding ----------

  lemma SignedByte(byte: Byte)
    ensures Low8(SignExtend8(byte)) == byte
    ensures Low8(0) == 0
  {
  }

  /** The label once the displacement byte has been applied. */
  function PatchedLabel(form: Form, byte: Byte): Operand {
    if byte != form.branchWordSignal && byte != form.branchLongSignal then LabelOperand(SignExtend8(byte))
    else LabelOperand(0)
  }

  lemma LabelIsPatched(form: Form, fields: seq<Word>, byte: Byte)
    requires BranchFacts(form) && |fields| == 1 && ToByte(fields[0]) == byte
    ensures PatchedOperands(form, fields, 1) == [PatchedLabel(form, byte)]
  {
    hide WordsOk, WidthMask, ToByte, SignExtend8;
    assert BlankOperands(form) == [LabelOperand(0)];
    assert PatchedOperands(form, fields, 0) == [LabelOperand(0)];
  }

  lemma BranchSuffix(form: Form, fields: seq<Word>, byte: Byte)
    requires BranchFacts(form) && |fields| == 1 && ToByte(fields[0]) == byte
    ensures DecodedSuffix(form, fields) == if byte == form.branchWordSignal then SizeW
                                           else if byte == form.branchLongSignal then SizeL else SizeB
    ensures ValidFields(form, fields)
  {
    hide WordsOk, WidthMask, ToByte;
  }

  /** What the extension makes of the label. */
  lemma LabelIsExtended(form: Form, byte: Byte, data: seq<Byte>, suffix: Suffix)
    requires BranchFacts(form)
    ensures var r := DecodedExtensions(form, data, [PatchedLabel(form, byte)], suffix, 2, 0);
            if byte == form.branchWordSignal || byte == form.branchLongSignal
            then (r.Some? <==> 4 <= |data|)
                 && (r.Some? ==> r == Some(([LabelOperand(SignExtend16(ReadU16(data, 2)))], 4)))
            else r == Some(([LabelOperand(SignExtend8(byte))], 2))
  {
    hide WordsOk, WidthMask, SignExtend8, SignExtend16, Low8, ReadU16;
    SignedByte(byte);
    var operands := [PatchedLabel(form, byte)];
    var step := DecodedExtension(form, 0, data, operands, suffix, 2);
    assert step == ReadSignalled(form, data, operands[0], 2);
    if step.Some? {
      assert operands[0 := step.value.0] == [step.value.0];
      assert DecodedExtensions(form, data, [step.value.0], suffix, step.value.1, 1) == Some(([step.value.0], step.value.1));
    }
  }

  /** What the decoder makes of the bytes of a branch: for a long one it reads the word behind it. */
  function DecodedBranch(form: Form, byte: Byte, value: Long, rest: seq<Byte>): Option<Decoded> {
    if byte == form.branchWordSignal then Some(Decoded([LabelOperand(SignExtend16(Low16(value)))], SizeW, 4))
    else if byte == form.branchLongSignal then
      if |rest| < 2 then None else Some(Decoded([LabelOperand(SignExtend16(ReadU16(rest, 0)))], SizeL, 4))
    else Some(Decoded([LabelOperand(SignExtend8(byte))], SizeB, 2))
  }

  lemma LabelAllowed(form: Form, operand: Operand)
    requires StructureOk(form) && form.operandKinds == [Label] && operand.kind.Label?
    ensures EaModeAllowed(form, 0, operand)
  {
    hide WordsOk;
  }

  function SignalledSuffix(form: Form, byte: Byte): Suffix {
    if byte == form.branchWordSignal then SizeW else if byte == form.branchLongSignal then SizeL else SizeB
  }

  /** The decoder comes to the extension of the label with the displacement byte applied. */
  predicate Reached(form: Form, data: seq<Byte>, byte: Byte)
    requires BranchFacts(form)
  {
    && MatchesForm(form, data)
    && var fields := ExtractedFields(form, data);
       && ValidFields(form, fields) && DecodedSuffix(form, fields) == SignalledSuffix(form, byte)
       && PatchedOperands(form, fields, 1) == [PatchedLabel(form, byte)]
  }

  /** The extension makes this of the label. */
  predicate Read(form: Form, data: seq<Byte>, byte: Byte, outcome: Option<Decoded>)
    requires BranchFacts(form)
  {
    var r := DecodedExtensions(form, data, [PatchedLabel(form, byte)], SignalledSuffix(form, byte), 2, 0);
    match outcome
    case None => r.None?
    case Some(branch) =>
      && r == Some((branch.operands, branch.byteCount)) && branch.suffix == SignalledSuffix(form, byte)
      && |branch.operands| == 1 && branch.operands[0].kind.Label?
  }

  /** The extensions of the label settle the outcome, which has no other operand and no mask. */
  lemma LabelOutcome(form: Form, data: seq<Byte>, byte: Byte, outcome: Option<Decoded>)
    requires BranchFacts(form) && Reached(form, data, byte) && Read(form, data, byte, outcome)
    ensures DecodedAs(form, data) == outcome
  {
    hide MatchesForm, ValidFields, ExtractedFields, DecodedExtensions, PatchedOperands, DecodedSuffix, EaModeAllowed,
         PredecrementMode, WordsOk, WidthMask, ReadU16, PatchedLabel, SignalledSuffix;
    if outcome.Some? { LabelAllowed(form, outcome.value.operands[0]); }
  }

  /** Behind an opword alone the decoder reads the bytes of the next instruction. */
  lemma LongSignalReadsOn(words: seq<Word>, rest: seq<Byte>)
    requires |words| == 1 && |rest| >= 2
    ensures ReadU16(Image(words, rest), 2) == ReadU16(rest, 0)
  {
    assert Image(words, rest)[2] == rest[0] && Image(words, rest)[3] == rest[1];
  }

  lemma BranchIsRead(form: Form, byte: Byte, value: Long, words: seq<Word>, rest: seq<Byte>)
    requires BranchFacts(form) && |words| == (if byte == 0 then 2 else 1) && (byte == 0 ==> words[1] == Low16(value))
    ensures Read(form, Image(words, rest), byte, DecodedBranch(form, byte, value, rest))
  {
    hide WidthMask, SignExtend8, SignExtend16, Low16, ReadU16, DecodedExtensions, WordsOk, Image, PatchedLabel;
    LabelIsExtended(form, byte, Image(words, rest), SignalledSuffix(form, byte));
    if byte == form.branchWordSignal {
      ReadBackWord(words, rest, 1);
    } else if byte == form.branchLongSignal && |rest| >= 2 {
      LongSignalReadsOn(words, rest);
    }
  }

  lemma BranchIsReached(form: Form, byte: Byte, tail: seq<Word>, rest: seq<Byte>)
    requires BranchFacts(form)
    ensures Reached(form, Image(LeadingWords(form, [byte as Word]) + tail, rest), byte)
  {
    hide WidthMask, SignExtend8, ToByte, Under, PatchedOperands, DecodedSuffix, ValidFields, WordsOk, MatchesForm,
         ExtractedFields, FixedWord, Image, LeadingWords;
    var cut := CutFields(form, [byte as Word]);
    OverlayInverse(form, [byte as Word], tail, rest);
    ByteOfField(byte);
    BranchSuffix(form, cut, byte);
    LabelIsPatched(form, cut, byte);
  }

  /** What the decoder makes of an encoded branch, whatever lies behind it. */
  lemma BranchDecodes(form: Form, suffix: Suffix, value: Long, rest: seq<Byte>)
    requires BranchFacts(form)
    ensures var byte := DisplacementByte(form, suffix, value);
            DecodedAs(form, Image(LeadingWords(form, [byte as Word]) + BranchTail(form, suffix, value), rest))
            == DecodedBranch(form, byte, value, rest)
  {
    hide Low16, StructureOk, WordsOk, Image, DisplacementByte, DecodedAs, DecodedBranch, Read, Reached;
    var byte := DisplacementByte(form, suffix, value);
    var words := LeadingWords(form, [byte as Word]) + BranchTail(form, suffix, value);
    BranchIsReached(form, byte, BranchTail(form, suffix, value), rest);
    BranchIsRead(form, byte, value, words, rest);
    LabelOutcome(form, Image(words, rest), byte, DecodedBranch(form, byte, value, rest));
  }

  // ---------- exactly which branches survive ----------

  /** The displacements that a suffix can carry; a byte branch must not look like another. */
  predicate BranchSurvives(form: Form, suffix: Suffix, value: Long) {
    match suffix
    case SizeB => FitsSignedByte(value) && !LowByteIs(value, form.branchWordSignal) && !LowByteIs(value, form.branchLongSignal)
    case SizeW => FitsSignedWord(value)
    case _ => false
  }

  /** A branch of any size and displacement is assembled, and it is decoded to the same label, suffix
      and length, with any bytes behind it, exactly when it survives: long branches never do. */
  lemma BranchExactly(form: Form, suffix: Suffix, value: Long, maxBytes: nat, rest: seq<Byte>)
    requires BranchForm(form) && suffix != Bare && maxBytes >= 4
    ensures var operands := [LabelOperand(value)];
            && PatchValuesOf(form, suffix, operands).Ok?
            && var bytes := AssembledBytes(form, PatchValuesOf(form, suffix, operands).value, operands, maxBytes);
               && bytes.Ok?
               && (DecodedAs(form, bytes.value + rest) == Some(Decoded(operands, suffix, |bytes.value|))
                   <==> BranchSurvives(form, suffix, value))
  {
    hide BranchForm, WordsOk, StructureOk, WidthMask, SignExtend8, SignExtend16, Low8, Low16, PatchValuesOf, AssembledBytes,
         DecodedAs, BytesOf, LeadingWords;
    FactsOfBranch(form);
    BranchFields(form, suffix, value);
    EncodedBranch(form, suffix, value, maxBytes);
    BranchDecodes(form, suffix, value, rest);
  }

  // ---------- branches that do not survive ----------

  /** The row of BRA. */
  const BRA := Form(Mnemonic(0), [Label], 7, 3, 0, 0, {0, 1, 2, 3, 4, 5}, [], 0x6000, 0xFF00,
                    [FieldPatch(Displacement8, 0, 7, 0, 0, WholeValue)], [ExtensionDef(LabelDisp16IfZero, 0, 0)],
                    [], [], NO_SIZES, NO_SIZES, 0, 2, 0xFF, 4, [0], false, [0])

  lemma BraStructure()
    ensures StructureOk(BRA) && BRA.patches[0].Mask() == 0xFF && BRA.patches[0].FieldBits() == 0xFF
  {
  }

  lemma BraWords()
    ensures StructureOk(BRA) && WordsOk(BRA)
  {
    BraStructure();
    hide WidthMask, FieldMask;
    assert BRA.patches[0].FieldBits() == 0xFF;
  }

  lemma BraSizes()
    ensures StructureOk(BRA) && SizesOk(BRA)
  {
    BraStructure();
    hide WidthMask, FieldMask, Under;
  }

  lemma BraDisplacement()
    ensures StructureOk(BRA) && BranchOk(BRA)
  {
    BraStructure();
    hide WidthMask, FieldMask;
    assert BRA.extensions[0].kind.LabelDisp16IfZero?;
  }

  lemma BraIsBranch()
    ensures BranchForm(BRA)
  {
    BraStructure();
    BraWords();
    BraSizes();
    BraDisplacement();
    hide WordsOk, SizesOk, BranchOk, WidthMask, FieldMask;
  }

  /** The bytes of a branch of this row. */
  function BraBytes(suffix: Suffix, value: Long): seq<Byte>
    requires suffix != Bare
  {
    var byte := DisplacementByte(BRA, suffix, value);
    [0x60, byte] + if byte == 0 then [HighByte(Low16(value)), LowByte(Low16(value))] else []
  }

  lemma BraOverlay(byte: Byte)
    ensures Overlay(Under(0x6000, 0xFF00), 7, 0, byte as Word) == 0x6000 | byte as Word
    ensures HighByte(0x6000 | byte as Word) == 0x60 && LowByte(0x6000 | byte as Word) == byte
  {
  }

  lemma BraOpword(byte: Byte)
    ensures StructureOk(BRA) && LeadingWords(BRA, [byte as Word]) == [0x6000 | byte as Word]
  {
    BraStructure();
    BraOverlay(byte);
    hide Overlay, Under, WidthMask, FieldMask, StructureOk;
    var fields := [byte as Word];
    var seed := Under(0x6000, 0xFF00);
    assert Overlaid(BRA.patches, fields, 0, seed, 0) == seed;
    assert Overlaid(BRA.patches, fields, 0, seed, 1) == Overlay(seed, 7, 0, fields[0]);
  }

  lemma BytesOfBranch(byte: Byte, value: Long)
    ensures BytesOf([0x6000 | byte as Word]) == [0x60, byte]
    ensures BytesOf([0x6000 | byte as Word] + [Low16(value)])
            == [0x60, byte] + [HighByte(Low16(value)), LowByte(Low16(value))]
  {
    BraOverlay(byte);
    hide Overlay, Under, Low16, HighByte, LowByte;
  }

  /** A branch as the encoder makes it and the decoder reads it. */
  predicate BothWays(form: Form, suffix: Suffix, value: Long, bytes: seq<Byte>, rest: seq<Byte>)
    requires StructureOk(form)
  {
    var fields := PatchValuesOf(form, suffix, [LabelOperand(value)]);
    && fields.Ok? && AssembledBytes(form, fields.value, [LabelOperand(value)], 4) == Ok(bytes)
    && DecodedAs(form, bytes + rest) == DecodedBranch(form, DisplacementByte(form, suffix, value), value, rest)
  }

  lemma BranchBothWays(form: Form, suffix: Suffix, value: Long, rest: seq<Byte>)
    requires BranchFacts(form) && suffix != Bare
    ensures var words := LeadingWords(form, [DisplacementByte(form, suffix, value) as Word]) + BranchTail(form, suffix, value);
            BothWays(form, suffix, value, BytesOf(words), rest)
  {
    hide WordsOk, WidthMask, FieldMask, StructureOk, Low8, Low16, LeadingWords, AssembledBytes, PatchValuesOf, DecodedAs,
         DecodedBranch, BytesOf, DisplacementByte, BranchTail;
    BranchFields(form, suffix, value);
    EncodedBranch(form, suffix, value, 4);
    BranchDecodes(form, suffix, value, rest);
  }

  lemma BraBothWays(suffix: Suffix, value: Long, rest: seq<Byte>)
    requires suffix != Bare
    ensures StructureOk(BRA) && BothWays(BRA, suffix, value, BraBytes(suffix, value), rest)
  {
    hide BranchFacts, BranchForm, WordsOk, WidthMask, FieldMask, StructureOk, Low8, Low16, LeadingWords, BothWays, HighByte, LowByte,
         BytesOf, DisplacementByte;
    var byte := DisplacementByte(BRA, suffix, value);
    BraIsBranch();
    FactsOfBranch(BRA);
    BranchBothWays(BRA, suffix, value, rest);
    BraOpword(byte);
    BytesOfBranch(byte, value);
    assert [0x6000 | byte as Word] + [] == [0x6000 | byte as Word] && [0x60, byte] + [] == [0x60, byte];
  }

  lemma BraExamples()
    ensures BraBytes(SizeB, 0xFFFF_FFFF) == [0x60, 0xFF] && DisplacementByte(BRA, SizeB, 0xFFFF_FFFF) == 0xFF
    ensures BraBytes(SizeB, 0) == [0x60, 0, 0, 0] && DisplacementByte(BRA, SizeB, 0) == 0
    ensures BraBytes(SizeL, 0x12345) == [0x60, 0xFF] && DisplacementByte(BRA, SizeL, 0x12345) == 0xFF
    ensures !BranchSurvives(BRA, SizeB, 0xFFFF_FFFF) && !BranchSurvives(BRA, SizeB, 0) && !BranchSurvives(BRA, SizeL, 0x12345)
  {
  }

  lemma WordsRead()
    ensures SignExtend16(ReadU16([0x4E, 0x71], 0)) == 0x4E71 && SignExtend16(Low16(0)) == 0
  {
  }

  lemma TheWayBack(form: Form, suffix: Suffix, value: Long, bytes: seq<Byte>, rest: seq<Byte>)
    requires StructureOk(form) && BothWays(form, suffix, value, bytes, rest)
    ensures DecodedAs(form, bytes + rest) == DecodedBranch(form, DisplacementByte(form, suffix, value), value, rest)
  {
    hide PatchValuesOf, AssembledBytes, DecodedAs, DecodedBranch, DisplacementByte;
  }

  /** A byte branch by -1 looks like a long one: the decoder takes the next word for its displacement,
      or fails when there is none. */
  lemma ByteBranchLooksLong()
    ensures StructureOk(BRA) && !BranchSurvives(BRA, SizeB, 0xFFFF_FFFF)
    ensures BothWays(BRA, SizeB, 0xFFFF_FFFF, [0x60, 0xFF], [0x4E, 0x71]) && BothWays(BRA, SizeB, 0xFFFF_FFFF, [0x60, 0xFF], [])
    ensures DecodedAs(BRA, [0x60, 0xFF] + [0x4E, 0x71]) == Some(Decoded([LabelOperand(0x4E71)], SizeL, 4))
    ensures DecodedAs(BRA, [0x60, 0xFF] + []) == None
  {
    hide StructureOk, BothWays, DecodedAs, WidthMask, BraBytes, DisplacementByte, BranchSurvives, SignExtend16, SignExtend8, ReadU16, Low16;
    BraExamples();
    WordsRead();
    BraBothWays(SizeB, 0xFFFF_FFFF, [0x4E, 0x71]);
    TheWayBack(BRA, SizeB, 0xFFFF_FFFF, [0x60, 0xFF], [0x4E, 0x71]);
    BraBothWays(SizeB, 0xFFFF_FFFF, []);
    TheWayBack(BRA, SizeB, 0xFFFF_FFFF, [0x60, 0xFF], []);
  }

  /** A byte branch by 0 looks like a word one. */
  lemma ByteBranchLooksWord()
    ensures StructureOk(BRA) && BothWays(BRA, SizeB, 0, [0x60, 0, 0, 0], []) && !BranchSurvives(BRA, SizeB, 0)
    ensures DecodedAs(BRA, [0x60, 0, 0, 0] + []) == Some(Decoded([LabelOperand(0)], SizeW, 4))
  {
    hide StructureOk, BothWays, DecodedAs, WidthMask, BraBytes, DisplacementByte, BranchSurvives, SignExtend16, SignExtend8, ReadU16, Low16;
    BraExamples();
    WordsRead();
    BraBothWays(SizeB, 0, []);
    TheWayBack(BRA, SizeB, 0, [0x60, 0, 0, 0], []);
  }

  /** The displacement of a long branch is not written, and the decoder reads another. */
  lemma LongBranchIsLost()
    ensures StructureOk(BRA) && BothWays(BRA, SizeL, 0x12345, [0x60, 0xFF], [0x4E, 0x71])
    ensures !BranchSurvives(BRA, SizeL, 0x12345)
    ensures DecodedAs(BRA, [0x60, 0xFF] + [0x4E, 0x71]) == Some(Decoded([LabelOperand(0x4E71)], SizeL, 4))
  {
    hide StructureOk, BothWays, DecodedAs, WidthMask, BraBytes, DisplacementByte, BranchSurvives, SignExtend16, SignExtend8, ReadU16, Low16;
    BraExamples();
    WordsRead();
    BraBothWays(SizeL, 0x12345, [0x4E, 0x71]);
    TheWayBack(BRA, SizeL, 0x12345, [0x60, 0xFF], [0x4E, 0x71]);
  }
}
