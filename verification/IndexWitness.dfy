/** Full extension words whose end the decoder does not see: the row of MOVE as it stands in the
    instruction tables, with an indexed operand on either side. */
module IndexWitness {
  import opened Wrappers
  import opened Words
  import opened FormTable
  import opened Assembler
  import opened Disassembler
  import opened FieldRoundTrip
  import opened IndexRoundTrip
  import opened PatchRoundTrip
  import opened SizeRoundTrip
  import opened InstructionRoundTrip
  import E = ExtensionRoundTrip

  const SIZE_PATCH := FieldPatch(Size, 0, 13, 12, -1, NoValue)
  const TO_REGISTER := FieldPatch(Register, 0, 11, 9, 1, EaReg)
  const TO_MODE := FieldPatch(Mode, 0, 8, 6, 1, EaMode)
  const FROM_MODE := FieldPatch(Mode, 0, 5, 3, 0, EaMode)
  const FROM_REGISTER := FieldPatch(Register, 0, 2, 0, 0, EaReg)

  const MOVE := Form(Mnemonic(0), [Ea, Ea], 7, 7, 0, 0, {0, 1, 2, 3, 4, 5}, [], 0, 0xC000,
                     [SIZE_PATCH, TO_REGISTER, TO_MODE, FROM_MODE, FROM_REGISTER],
                     [ExtensionDef(EaSingleWord, 0, 0), ExtensionDef(EaLongAddress, 0, 0), ExtensionDef(EaImmediate, 0, 0),
                      ExtensionDef(EaIndex, 0, 0), ExtensionDef(EaSingleWord, 1, 0), ExtensionDef(EaLongAddress, 1, 0),
                      ExtensionDef(EaImmediate, 1, 0), ExtensionDef(EaIndex, 1, 0)],
                     [], [], SizeValues(1, 3, 2), NO_SIZES, 0, 0, 0, 0, [0, 0], false,
                     [0x1FFF_FFFF_FFFF_FFFF, 0x03FF_FFFF_FFFF_00FF])

  lemma MoveFields()
    ensures SIZE_PATCH.Ordered() && TO_REGISTER.Ordered() && TO_MODE.Ordered() && FROM_MODE.Ordered() && FROM_REGISTER.Ordered()
    ensures SIZE_PATCH.FieldBits() == 0x3000 && TO_REGISTER.FieldBits() == 0xE00 && TO_MODE.FieldBits() == 0x1C0
    ensures FROM_MODE.FieldBits() == 0x38 && FROM_REGISTER.FieldBits() == 0x07
    ensures SIZE_PATCH.Mask() == 3 && TO_REGISTER.Mask() == 7 && TO_MODE.Mask() == 7 && FROM_MODE.Mask() == 7
    ensures FROM_REGISTER.Mask() == 7
  {
  }

  lemma MoveStructure()
    ensures StructureOk(MOVE)
  {
    hide WidthMask, FieldMask;
  }

  lemma MoveWords()
    ensures StructureOk(MOVE) && WordsOk(MOVE)
  {
    hide WidthMask, FieldMask;
    MoveStructure();
    MoveFields();
  }

  lemma MoveSizes()
    ensures StructureOk(MOVE) && SizesOk(MOVE)
  {
    hide WidthMask, FieldMask;
    MoveStructure();
    MoveFields();
    assert MOVE.patches[0].kind.Size?;
  }

  lemma MoveIsNoBranch()
    ensures StructureOk(MOVE) && BranchOk(MOVE)
  {
    hide WidthMask, FieldMask, Under;
    MoveStructure();
  }

  lemma MoveKinds()
    ensures StructureOk(MOVE) && MovemOk(MOVE) && KindsOk(MOVE)
  {
    hide WidthMask, FieldMask, Under;
    MoveStructure();
  }

  lemma MoveExtensions()
    ensures StructureOk(MOVE) && ExtensionsOk(MOVE)
  {
    hide WidthMask, FieldMask, Under, FieldPatch.CarriesValue;
    MoveStructure();
    MoveCarriesNoValue();
  }

  lemma MoveCarriesNoValue()
    ensures forall i :: 0 <= i < 5 ==> !MOVE.patches[i].CarriesValue()
  {
  }

  lemma MoveIsWellFormed()
    ensures WellFormed(MOVE)
  {
    hide StructureOk, WordsOk, SizesOk, BranchOk, MovemOk, KindsOk, ExtensionsOk;
    MoveWords();
    MoveSizes();
    MoveIsNoBranch();
    MoveKinds();
    MoveExtensions();
  }

  // ---------- two full indexes ----------

  /** Register D0 with neither base register nor displacement. */
  const FROM := Operand(Ea, 0, 0, 0, 0, 0, 0, 0, 0, 6, 0, 0, IndexWord(0, 0, 0, 0, 1, 0, 1, 0, 0, 0, 0))

  /** Register D0 and a base displacement of one word. */
  const TO := Operand(Ea, 0, 0, 0, 0, 0, 0, 0, 0, 6, 0, 0, IndexWord(0, 0, 0, 0, 0, 0, 2, 0, 0, 0x10, 0))

  lemma MoveInRange()
    ensures StructureOk(MOVE) && PatchesInRange(MOVE, SizeW, [FROM, TO])
    ensures KindsMatch(MOVE, [FROM, TO]) && BranchTold(MOVE, SizeW, [FROM, TO])
    ensures forall k :: 0 <= k < 2 ==> EaModeAllowed(MOVE, k, [FROM, TO][k])
  {
    hide WidthMask, FieldMask;
    MoveStructure();
    MoveFields();
  }

  lemma OperandsAreNormal()
    ensures IndexNormal(FROM) && IndexNormal(TO)
  {
  }

  lemma MoveExpressible()
    ensures StructureOk(MOVE) && E.ExtensionsExpressible(MOVE, SizeW, [FROM, TO])
  {
    hide WidthMask, FieldMask, FitsSignedWord, IndexNormal;
    MoveStructure();
    OperandsAreNormal();
  }

  lemma MoveNothingLost(k: nat)
    requires k < 2
    ensures StructureOk(MOVE) && NothingLost(MOVE, SizeW, [FROM, TO], k)
  {
    hide WidthMask, FieldMask;
    MoveStructure();
    var operands := [FROM, TO];
    var index := if k == 0 then 3 else 7;
    assert E.ActiveAt(MOVE, SizeW, operands, index);
    assert E.Awaits(MOVE, SizeW, operands, 0, k);
    var pending := E.Pending(MOVE, SizeW, operands, 0)[k];
    assert pending == NO_OPERAND.(kind := Ea, eaMode := 6);
    forall slot: Slot | !CarriedBy(MOVE, SizeW, operands, 5, k, slot)
      ensures Agree(BlankOperands(MOVE)[k], pending, slot)
    {
      assert Carries(MOVE.patches[if k == 0 then 3 else 2], Ea, SizeW, EaModeSlot);
    }
  }

  lemma MoveIsNormalised()
    ensures StructureOk(MOVE) && ToldSuffix(MOVE, SizeW) == SizeW && SizeAvailable(MOVE, SizeW)
    ensures Normalised(MOVE, SizeW, [FROM, TO]) && ImmediatesSettled(MOVE, SizeW, [FROM, TO])
  {
    hide StructureOk, KindsMatch, PatchesInRange, E.ExtensionsExpressible, BranchTold, NothingLost, EaModeAllowed;
    MoveInRange();
    MoveExpressible();
    MoveNothingLost(0);
    MoveNothingLost(1);
    assert MOVE.patches[0].kind.Size?;
    assert MOVE.HasField(Size);
  }

  lemma MoveSurplus()
    ensures StructureOk(MOVE)
    ensures E.Surplus(MOVE, SizeW, [FROM, TO], 8) == 0 && E.Surplus(MOVE, SizeW, [FROM, TO], 4) == 2
  {
    hide WidthMask, FieldMask;
    MoveStructure();
    var operands := [FROM, TO];
    assert DisplacementWords(2, 0x10) == [Low16(0x10)] && DisplacementWords(0, 0) == [];
    assert E.ActiveAt(MOVE, SizeW, operands, 7) && TO.index.UsesFull();
    assert E.Surplus(MOVE, SizeW, operands, 8) == 0;
    assert E.Surplus(MOVE, SizeW, operands, 7) == 2;
    assert E.Surplus(MOVE, SizeW, operands, 6) == 2;
    assert E.Surplus(MOVE, SizeW, operands, 5) == 2;
  }

  lemma MoveRecognised(extra: nat)
    ensures StructureOk(MOVE)
    ensures AllRecognised(MOVE, SizeW, [FROM, TO], extra) <==> extra != 0 && extra != 2 && extra != 4
  {
    hide WidthMask, FieldMask, E.Surplus;
    MoveStructure();
    MoveSurplus();
    var operands := [FROM, TO];
    assert E.ActiveAt(MOVE, SizeW, operands, 3) && E.ActiveAt(MOVE, SizeW, operands, 7);
    assert FROM.index.UsesFull() && TO.index.UsesFull();
    assert E.Recognised(MOVE, SizeW, operands, 3, extra) <==> extra != 0 && extra != 2;
    assert E.Recognised(MOVE, SizeW, operands, 7, extra) <==> extra != 2 && extra != 4;
  }

  lemma MoveTail(fields: seq<Word>)
    requires |fields| == 5
    ensures StructureOk(MOVE) && |E.TailWords(MOVE, fields, [FROM, TO], 0)| == 3
  {
    hide WidthMask, FieldMask, FullExtensionWord;
    MoveStructure();
    var operands := [FROM, TO];
    assert |IndexWords(FROM)| == 1 && |IndexWords(TO)| == 2;
    assert forall e :: 0 <= e < 8 && e != 3 && e != 7 ==> ExtensionWords(MOVE, MOVE.extensions[e], fields, operands) == Ok([]);
    assert ExtensionWords(MOVE, MOVE.extensions[3], fields, operands) == Ok(IndexWords(FROM));
    assert ExtensionWords(MOVE, MOVE.extensions[7], fields, operands) == Ok(IndexWords(TO));
    assert |E.TailWords(MOVE, fields, operands, 7)| == 2;
    assert |E.TailWords(MOVE, fields, operands, 6)| == 2;
    assert |E.TailWords(MOVE, fields, operands, 5)| == 2;
    assert |E.TailWords(MOVE, fields, operands, 4)| == 2;
    assert |E.TailWords(MOVE, fields, operands, 3)| == 3;
    assert |E.TailWords(MOVE, fields, operands, 2)| == 3;
    assert |E.TailWords(MOVE, fields, operands, 1)| == 3;
  }

  /** The move is encoded, and decoded it loses an index when nothing follows it, or two bytes, or four;
      with any other number of bytes behind it, it comes back. */
  lemma MoveComesBackExactly(rest: seq<Byte>)
    ensures StructureOk(MOVE)
    ensures var fields := PatchValues(MOVE, SizeW, [FROM, TO], 5);
            && fields.Ok?
            && var bytes := AssembledBytes(MOVE, fields.value, [FROM, TO], 8);
               && bytes.Ok?
               && if |rest| == 0 || |rest| == 2 || |rest| == 4
                  then LosesAnIndex(DecodedAs(MOVE, bytes.value + rest), [FROM, TO])
                  else DecodedAs(MOVE, bytes.value + rest) == Some(Decoded([FROM, TO], SizeW, |bytes.value|))
  {
    hide WellFormed, StructureOk, Normalised, ImmediatesSettled, AllRecognised, AssembledBytes, DecodedAs, Encodes, ToldSuffix,
         SizeAvailable, E.TailWords, LosesAnIndex;
    MoveIsWellFormed();
    MoveStructure();
    MoveIsNormalised();
    EncoderAccepts(MOVE, SizeW, [FROM, TO], 8);
    var fields := PatchValues(MOVE, SizeW, [FROM, TO], 5).value;
    MoveTail(fields);
    MoveRecognised(|rest|);
    FormRoundTrip(MOVE, SizeW, [FROM, TO], fields, 8, rest);
  }
}
