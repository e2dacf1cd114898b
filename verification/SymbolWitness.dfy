/** A bit-field test of a place named relative to the program counter: the row of BFTST as it stands in
    the instruction tables, and a reference that leads elsewhere once it has been encoded and decoded. */
module SymbolWitness {
  import opened Wrappers
  import opened Words
  import opened FormTable
  import opened Assembler
  import opened Disassembler
  import opened FieldRoundTrip
  import opened PatchRoundTrip
  import opened SizeRoundTrip
  import opened InstructionRoundTrip
  import opened IrCodec
  import opened Spans
  import opened SymbolTargets
  import opened SymbolRoundTrip
  import E = ExtensionRoundTrip
  import F = FormSearch

  const MODE_PATCH := FieldPatch(Mode, 0, 5, 3, 0, EaMode)
  const REGISTER_PATCH := FieldPatch(Register, 0, 2, 0, 0, EaReg)
  const OFFSET_KIND_PATCH := FieldPatch(BitfieldOffsetDa, 1, 11, 11, 0, BfOffsetKind)
  const OFFSET_PATCH := FieldPatch(Offset, 1, 10, 6, 0, BfOffset)
  const WIDTH_KIND_PATCH := FieldPatch(BitfieldWidthDa, 1, 5, 5, 0, BfWidthKind)
  const WIDTH_PATCH := FieldPatch(Width, 1, 4, 0, 0, BfWidth)

  const BFTST := Form(Mnemonic(0), [BfEa], 0, 0, 0, 0, {2, 3, 4}, [], 0xE8C0, 0xFFC0,
                      [MODE_PATCH, REGISTER_PATCH, OFFSET_KIND_PATCH, OFFSET_PATCH, WIDTH_KIND_PATCH, WIDTH_PATCH],
                      [ExtensionDef(EaSingleWord, 0, 0), ExtensionDef(EaLongAddress, 0, 0), ExtensionDef(EaIndex, 0, 0)],
                      [0], [0xF000], NO_SIZES, NO_SIZES, 0, 0, 0, 0, [0], false, [0x0FFF_FF00_00FF_00FF])

  lemma BftstFields()
    ensures MODE_PATCH.Ordered() && REGISTER_PATCH.Ordered() && OFFSET_KIND_PATCH.Ordered() && OFFSET_PATCH.Ordered()
            && WIDTH_KIND_PATCH.Ordered() && WIDTH_PATCH.Ordered()
    ensures MODE_PATCH.FieldBits() == 0x38 && REGISTER_PATCH.FieldBits() == 0x07
    ensures OFFSET_KIND_PATCH.FieldBits() == 0x800 && OFFSET_PATCH.FieldBits() == 0x7C0
    ensures WIDTH_KIND_PATCH.FieldBits() == 0x20 && WIDTH_PATCH.FieldBits() == 0x1F
    ensures MODE_PATCH.Mask() == 7 && REGISTER_PATCH.Mask() == 7 && OFFSET_KIND_PATCH.Mask() == 1
    ensures OFFSET_PATCH.Mask() == 0x1F && WIDTH_KIND_PATCH.Mask() == 1 && WIDTH_PATCH.Mask() == 0x1F
  {
  }

  lemma BftstStructure()
    ensures StructureOk(BFTST)
  {
    hide WidthMask, FieldMask;
  }

  lemma BftstWords()
    ensures StructureOk(BFTST) && WordsOk(BFTST)
  {
    hide WidthMask, FieldMask;
    BftstStructure();
    BftstFields();
  }

  lemma BftstSizes()
    ensures StructureOk(BFTST) && SizesOk(BFTST)
  {
    hide WidthMask, FieldMask, Under;
    BftstStructure();
  }

  lemma BftstIsNoBranch()
    ensures StructureOk(BFTST) && BranchOk(BFTST)
  {
    hide WidthMask, FieldMask, Under;
    BftstStructure();
  }

  lemma BftstKinds()
    ensures StructureOk(BFTST) && MovemOk(BFTST) && KindsOk(BFTST)
  {
    hide WidthMask, FieldMask, Under;
    BftstStructure();
  }

  lemma BftstExtensions()
    ensures StructureOk(BFTST) && ExtensionsOk(BFTST)
  {
    hide WidthMask, FieldMask, Under;
    BftstStructure();
  }

  lemma BftstIsWellFormed()
    ensures WellFormed(BFTST)
  {
    hide StructureOk, WordsOk, SizesOk, BranchOk, MovemOk, KindsOk, ExtensionsOk;
    BftstWords();
    BftstSizes();
    BftstIsNoBranch();
    BftstKinds();
    BftstExtensions();
  }

  // ---------- the instruction ----------

  /** The operand `(value,pc){0:8}`. */
  function PlaceOperand(value: Long): Operand { Operand(BfEa, 0, 0, 0, 0, 0, 0, 0, 8, 7, 2, value, NO_INDEX) }

  function BftstOf(value: Long): Instruction {
    Instruction(Mnemonic(0), 0, Bare, CPU_68020, [OperandIR(BfEa, PlaceOperand(value))])
  }

  lemma BftstInRange(value: Long)
    ensures StructureOk(BFTST) && PatchesInRange(BFTST, Bare, [PlaceOperand(value)])
    ensures KindsMatch(BFTST, [PlaceOperand(value)]) && BranchTold(BFTST, Bare, [PlaceOperand(value)])
    ensures EaModeAllowed(BFTST, 0, PlaceOperand(value))
  {
    hide WidthMask, FieldMask;
    BftstStructure();
    BftstFields();
  }

  lemma BftstExpressible(value: Long)
    requires FitsSignedWord(value)
    ensures StructureOk(BFTST) && E.ExtensionsExpressible(BFTST, Bare, [PlaceOperand(value)])
  {
    hide WidthMask, FieldMask, FitsSignedWord;
    BftstStructure();
  }

  lemma BftstNothingLost(value: Long)
    ensures StructureOk(BFTST) && NothingLost(BFTST, Bare, [PlaceOperand(value)], 0)
  {
    hide WidthMask, FieldMask;
    BftstStructure();
    var operands := [PlaceOperand(value)];
    assert E.ActiveAt(BFTST, Bare, operands, 0);
    assert E.Awaits(BFTST, Bare, operands, 0, 0);
    var pending := E.Pending(BFTST, Bare, operands, 0)[0];
    assert pending == PlaceOperand(0);
    forall slot: Slot | !CarriedBy(BFTST, Bare, operands, 6, 0, slot)
      ensures Agree(BlankOperands(BFTST)[0], pending, slot)
    {
      assert Carries(BFTST.patches[0], BfEa, Bare, EaModeSlot) && Carries(BFTST.patches[1], BfEa, Bare, EaRegSlot);
      assert Carries(BFTST.patches[5], BfEa, Bare, BfWidthSlot);
    }
  }

  lemma BftstSelected(value: Long)
    ensures KindsFit(BFTST, BftstOf(value).operands) && PlainOperand(BftstOf(value).operands[0])
    ensures EncodedValues(BftstOf(value)) == [PlaceOperand(value)]
    ensures ResolveSizeSuffix(BFTST, [PlaceOperand(value)], Bare, CPU_ANY) == Bare && ToldSuffix(BFTST, Bare) == Bare
    ensures SelectsForm([BFTST], Mnemonic(0), [PlaceOperand(value)], Bare, CPU_68020, 0)
    ensures DecoderViews(BFTST, [PlaceOperand(value)]) == [PlaceOperand(value)]
  {
  }

  lemma BftstNormalised(value: Long)
    requires FitsSignedWord(value)
    ensures StructureOk(BFTST) && Normalised(BFTST, Bare, [PlaceOperand(value)])
    ensures ImmediatesSettled(BFTST, Bare, [PlaceOperand(value)])
  {
    hide StructureOk, KindsMatch, PatchesInRange, E.ExtensionsExpressible, BranchTold, NothingLost, EaModeAllowed, FitsSignedWord;
    BftstInRange(value);
    BftstExpressible(value);
    BftstNothingLost(value);
  }

  lemma BftstIsEncodable(value: Long)
    requires FitsSignedWord(value)
    ensures Encodable([BFTST], BftstOf(value))
  {
    hide WellFormed, StructureOk, Normalised, SelectsForm, ImmediatesSettled, FitsSignedWord, KindsFit, PlainOperand, EncodedValues,
         ResolveSizeSuffix, ToldSuffix, DecoderViews;
    BftstIsWellFormed();
    BftstSelected(value);
    BftstNormalised(value);
  }

  lemma BftstTail(value: Long, fields: seq<Word>)
    requires FitsSignedWord(value) && |fields| == 6
    ensures StructureOk(BFTST) && |E.TailWords(BFTST, fields, [PlaceOperand(value)], 0)| == 1
  {
    hide WidthMask, FieldMask, FitsSignedWord, FixedWord, FitsAbsoluteWord;
    BftstStructure();
    SignedFitsAbsolute(value);
    var operands := [PlaceOperand(value)];
    assert ExtensionWords(BFTST, BFTST.extensions[0], fields, operands) == Ok([Low16(value)]);
    assert ExtensionWords(BFTST, BFTST.extensions[1], fields, operands) == Ok([]);
    assert ExtensionWords(BFTST, BFTST.extensions[2], fields, operands) == Ok([]);
    assert E.TailWords(BFTST, fields, operands, 3) == [];
    assert E.TailWords(BFTST, fields, operands, 2) == [];
    assert E.TailWords(BFTST, fields, operands, 1) == [];
  }

  lemma BftstFits(value: Long)
    requires FitsSignedWord(value)
    ensures StructureOk(BFTST) && SizeAvailable(BFTST, Bare) && WordsFitIn(BFTST, Bare, [PlaceOperand(value)], 6)
  {
    hide WellFormed, StructureOk, Normalised, FitsSignedWord, E.TailWords;
    BftstIsWellFormed();
    BftstStructure();
    BftstNormalised(value);
    EncoderAccepts(BFTST, Bare, [PlaceOperand(value)], 6);
    BftstTail(value, PatchValues(BFTST, Bare, [PlaceOperand(value)], 6).value);
  }

  // ---------- the reference ----------

  /** At offset 0, with every symbol defined. */
  const CONTEXT := Context(BFTST, Bare, 0, false, (k, i) => NO_OPERAND)

  /** The symbol stands for 0x100. */
  const REFERENCE := Reference(Defined(0x100), 0, false)

  lemma BftstIsResolved()
    ensures Names(BftstOf(0), [Some(REFERENCE)], 0) && TargetOf(REFERENCE, false) == Some(0x100)
    ensures Resolved(CONTEXT, BftstOf(0), [Some(REFERENCE)]) == Some(BftstOf(0x100))
  {
    var references := [Some(REFERENCE)];
    assert ValuesOf(BftstOf(0).operands) == [PlaceOperand(0)];
    assert AppliedOf(CONTEXT, [PlaceOperand(0)], references, 0) == Some([PlaceOperand(0)]);
    assert [PlaceOperand(0)][0 := PlaceOperand(0x100)] == [PlaceOperand(0x100)];
    assert AppliedOf(CONTEXT, [PlaceOperand(0)], references, 1) == Some([PlaceOperand(0x100)]);
    assert WithValues(BftstOf(0), [PlaceOperand(0x100)]).operands == BftstOf(0x100).operands;
  }

  lemma BftstSurvives(extra: nat)
    ensures StructureOk(BFTST) && Survives([BFTST], BftstOf(0x100), 6, extra) && ToldOf(BFTST, BftstOf(0x100)) == Bare
  {
    hide WellFormed, StructureOk, Normalised, SelectsForm, ImmediatesSettled, KindsFit, PlainOperand, EncodedValues,
         ResolveSizeSuffix, ToldSuffix, DecoderViews, Encodable, EncodedOne, SizeAvailable, WordsFitIn, AllRecognised;
    BftstStructure();
    assert FitsSignedWord(0x100);
    BftstIsEncodable(0x100);
    BftstSelected(0x100);
    BftstFits(0x100);
    EncodableIsEncoded([BFTST], BftstOf(0x100), 6);
    BftstRecognised(extra);
  }

  lemma BftstRecognised(extra: nat)
    ensures StructureOk(BFTST) && AllRecognised(BFTST, Bare, [PlaceOperand(0x100)], extra)
  {
    hide WidthMask, FieldMask, E.Surplus;
    BftstStructure();
  }

  lemma BftstPlace()
    ensures PlaceOf(BFTST, BftstOf(0x100), 0, 0) == 4
    ensures Plus(4, SignExtend16(Low16(0x100))) == 0x104
    ensures InReach(BFTST, BftstOf(0x100), 0, 0x104, 0, 0x200)
  {
  }

  /** The symbol at 0x100 is taken for a displacement: decoded again, the instruction leads to 0x104. */
  lemma BitFieldLeadsElsewhere(rest: seq<Byte>)
    ensures StructureOk(BFTST) && TargetOf(REFERENCE, false) == Some(0x100)
    ensures Resolved(CONTEXT, BftstOf(0), [Some(REFERENCE)]) == Some(BftstOf(0x100))
    ensures EncodedOne([BFTST], BftstOf(0x100), 6).Some?
    ensures var decoded := DecodedAs(BFTST, EncodedOne([BFTST], BftstOf(0x100), 6).value + rest);
            && decoded.Some? && |decoded.value.operands| == 1
            && CandidateTarget(BFTST, decoded.value, 0, 0, 0x200) == Some(0x104)
  {
    hide StructureOk, Encodable, EncodedOne, DecodedAs, CandidateTarget, AllRecognised, Resolved, PlaceOf, InReach, KindsOk,
         Plus, Low16, SignExtend16, FromCandidate, RelativeBaseOf, ToldOf, DecoderViews;
    BftstIsResolved();
    BftstSurvives(|rest|);
    SurvivorIsTakenOver([BFTST], BftstOf(0x100), 6, rest);
    var decoded := DecodedAs(BFTST, EncodedOne([BFTST], BftstOf(0x100), 6).value + rest).value;
    CollectedTarget(BFTST, BftstOf(0x100), decoded, 0, 0, 0x200);
    BftstPlace();
  }

  lemma SmallNumbers()
    ensures FitsSignedWord(0x100) && Wrapped(0) == 0
  {
  }

  /** All that the round trip of a reference asks for is met here, and it says that this one is lost. */
  lemma BitFieldIsNoReturn(rest: seq<Byte>)
    ensures StructureOk(BFTST) && EncodedOne([BFTST], BftstOf(0x100), 6).Some?
    ensures var decoded := DecodedAs(BFTST, EncodedOne([BFTST], BftstOf(0x100), 6).value + rest);
            && decoded.Some? && |decoded.value.operands| == 1
            && CandidateTarget(BFTST, decoded.value, 0, 0, 0x200) != TargetOf(REFERENCE, false)
  {
    hide StructureOk, Encodable, EncodedOne, DecodedAs, CandidateTarget, AllRecognised, Resolved, PlaceOf, InReach, KindsOk,
         Plus, Low16, SignExtend16, FromCandidate, RelativeBaseOf, ToldOf, DecoderViews, TargetOf, FitsSignedWord, Wrapped;
    BftstIsResolved();
    BftstSurvives(|rest|);
    BftstPlace();
    SmallNumbers();
    ReferenceComesBack([BFTST], CONTEXT, BftstOf(0), [Some(REFERENCE)], 0, 0, 0x200, 6, rest);
  }

  // ---------- the search ----------

  /** A table of this row alone, which every bucket lists. */
  const INDEX := F.Index([BFTST], bucket => [0])

  lemma BftstIsUnrivalled()
    ensures F.ListsRows(INDEX) && F.Unrivalled(INDEX, 0, CPU_68020) && F.Offers(INDEX, 0, BFTST, CPU_68020)
  {
    hide StructureOk, F.Compatible, F.FixedApart;
    BftstStructure();
    forall opword: Word
      ensures F.LeadsBucket(INDEX, INDEX.buckets(F.BucketOf(opword)), 0, CPU_68020)
    {
      assert INDEX.buckets(F.BucketOf(opword))[0] == 0;
    }
  }

  /** The search finds the encoded instruction again, whatever lies behind it. */
  lemma BftstIsFound(rest: seq<Byte>)
    ensures StructureOk(BFTST) && F.ListsRows(INDEX) && EncodedOne([BFTST], BftstOf(0x100), 6).Some?
    ensures var bytes := EncodedOne([BFTST], BftstOf(0x100), 6).value;
            F.FindsAgain(INDEX, 0, BftstOf(0x100), Bare, bytes + rest, |bytes|, CPU_68020, (form, decoded) => true)
  {
    hide StructureOk, Encodable, EncodedOne, DecodedAs, AllRecognised, F.ListsRows, F.Unrivalled, F.Offers, F.FindsAgain,
         DecoderViews, ToldSuffix, ResolveSizeSuffix, EncodedValues;
    BftstSurvives(|rest|);
    BftstSelected(0x100);
    BftstIsUnrivalled();
    F.UnrivalledRoundTrip([BFTST], BftstOf(0x100), 6, rest, INDEX, 0, CPU_68020, (form, decoded) => true);
  }
}
