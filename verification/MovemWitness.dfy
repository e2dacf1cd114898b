/** A register list stored downwards: the row of MOVEM as it stands in the instruction tables. */
module MovemWitness {
  import opened Wrappers
  import opened Words
  import opened FormTable
  import opened RegisterMask
  import opened Assembler
  import opened Disassembler
  import opened FieldRoundTrip
  import opened PatchRoundTrip
  import opened SizeRoundTrip
  import opened InstructionRoundTrip
  import E = ExtensionRoundTrip

  const SIZE_PATCH := FieldPatch(Size, 0, 6, 6, -1, NoValue)
  const MODE_PATCH := FieldPatch(Mode, 0, 5, 3, 1, EaMode)
  const REGISTER_PATCH := FieldPatch(Register, 0, 2, 0, 1, EaReg)
  const LIST_PATCH := FieldPatch(ReglistMask, 1, 15, 0, 0, WholeValue)

  const MOVEM := Form(Movem, [Reglist, Ea], 6, 6, 0, 0, {0, 1, 2, 3, 4, 5}, [], 0x4880, 0xFF80,
                      [SIZE_PATCH, MODE_PATCH, REGISTER_PATCH, LIST_PATCH],
                      [ExtensionDef(EaSingleWord, 1, 0), ExtensionDef(EaLongAddress, 1, 0), ExtensionDef(EaImmediate, 1, 0),
                       ExtensionDef(EaIndex, 1, 0)],
                      [0], [0], SizeValues(UNSET, 0, 1), NO_SIZES, 0, 0, 0, 0, [0, 0], false,
                      [0, 0x0FFF_FFFF_FFFF_0000])

  lemma MovemFields()
    ensures SIZE_PATCH.Ordered() && MODE_PATCH.Ordered() && REGISTER_PATCH.Ordered() && LIST_PATCH.Ordered()
    ensures SIZE_PATCH.FieldBits() == 0x40 && MODE_PATCH.FieldBits() == 0x38 && REGISTER_PATCH.FieldBits() == 0x07
    ensures LIST_PATCH.FieldBits() == 0xFFFF && SIZE_PATCH.Mask() == 1 && MODE_PATCH.Mask() == 7
    ensures REGISTER_PATCH.Mask() == 7 && LIST_PATCH.Mask() == 0xFFFF
  {
  }

  lemma MovemStructure()
    ensures StructureOk(MOVEM)
  {
    hide WidthMask, FieldMask;
  }

  lemma MovemWords()
    ensures StructureOk(MOVEM) && WordsOk(MOVEM)
  {
    hide WidthMask, FieldMask;
    MovemStructure();
    MovemFields();
  }

  lemma MovemSizes()
    ensures StructureOk(MOVEM) && SizesOk(MOVEM)
  {
    hide WidthMask, FieldMask;
    MovemStructure();
    MovemFields();
    assert MOVEM.patches[0].kind.Size?;
  }

  lemma MovemIsNoBranch()
    ensures StructureOk(MOVEM) && BranchOk(MOVEM)
  {
    hide WidthMask, FieldMask, Under;
    MovemStructure();
  }

  lemma MovemKinds()
    ensures StructureOk(MOVEM) && KindsOk(MOVEM)
  {
    hide WidthMask, FieldMask, Under;
    MovemStructure();
  }

  lemma MovemList()
    ensures StructureOk(MOVEM) && MovemOk(MOVEM)
  {
    hide WidthMask, FieldMask, Under;
    MovemStructure();
    MovemFields();
    assert MOVEM.patches[1] == MODE_PATCH;
  }

  lemma MovemExtensions()
    ensures StructureOk(MOVEM) && ExtensionsOk(MOVEM)
  {
    hide WidthMask, FieldMask, Under;
    MovemStructure();
  }

  lemma MovemIsWellFormed()
    ensures WellFormed(MOVEM)
  {
    hide StructureOk, WordsOk, SizesOk, BranchOk, MovemOk, KindsOk, ExtensionsOk;
    MovemWords();
    MovemSizes();
    MovemIsNoBranch();
    MovemKinds();
    MovemList();
    MovemExtensions();
  }

  // ---------- storing one register downwards ----------

  /** D0 is bit 15 of the list when registers are stored downwards. */
  const LIST := NO_OPERAND.(kind := Reglist, value := 0x8000)

  const DOWN_FROM_A7 := NO_OPERAND.(kind := Ea, eaMode := 4, eaReg := 7)

  lemma MovemInRange()
    ensures StructureOk(MOVEM) && PatchesInRange(MOVEM, SizeW, [LIST, DOWN_FROM_A7])
  {
    hide WidthMask, FieldMask;
    MovemStructure();
    MovemFields();
  }

  lemma MovemAllowed()
    ensures StructureOk(MOVEM)
    ensures KindsMatch(MOVEM, [LIST, DOWN_FROM_A7]) && BranchTold(MOVEM, SizeW, [LIST, DOWN_FROM_A7])
    ensures forall k :: 0 <= k < 2 ==> EaModeAllowed(MOVEM, k, [LIST, DOWN_FROM_A7][k])
  {
    hide WidthMask, FieldMask;
    MovemStructure();
  }

  lemma MovemExpressible()
    ensures StructureOk(MOVEM) && E.ExtensionsExpressible(MOVEM, SizeW, [LIST, DOWN_FROM_A7])
  {
    hide WidthMask, FieldMask;
    MovemStructure();
  }

  lemma MovemNothingLost(k: nat)
    requires k < 2
    ensures StructureOk(MOVEM) && NothingLost(MOVEM, SizeW, [LIST, DOWN_FROM_A7], k)
  {
    hide WidthMask, FieldMask;
    MovemStructure();
    var operands := [LIST, DOWN_FROM_A7];
    forall e | 0 <= e < 4 ensures !E.ActiveAt(MOVEM, SizeW, operands, e) {}
    assert E.Pending(MOVEM, SizeW, operands, 0)[k] == operands[k];
    forall slot: Slot | !CarriedBy(MOVEM, SizeW, operands, 4, k, slot)
      ensures Agree(BlankOperands(MOVEM)[k], operands[k], slot)
    {
      if k == 0 {
        assert Carries(MOVEM.patches[3], Reglist, SizeW, LowSlot) && Carries(MOVEM.patches[3], Reglist, SizeW, HighSlot);
      } else {
        assert Carries(MOVEM.patches[1], Ea, SizeW, EaModeSlot) && Carries(MOVEM.patches[2], Ea, SizeW, EaRegSlot);
      }
    }
  }

  lemma MovemIsNormalised()
    ensures StructureOk(MOVEM) && ToldSuffix(MOVEM, SizeW) == SizeW && SizeAvailable(MOVEM, SizeW)
    ensures Normalised(MOVEM, SizeW, [LIST, DOWN_FROM_A7]) && ImmediatesSettled(MOVEM, SizeW, [LIST, DOWN_FROM_A7])
    ensures forall extra: nat :: AllRecognised(MOVEM, SizeW, [LIST, DOWN_FROM_A7], extra)
  {
    hide StructureOk, KindsMatch, PatchesInRange, E.ExtensionsExpressible, BranchTold, NothingLost, EaModeAllowed;
    MovemInRange();
    MovemAllowed();
    MovemExpressible();
    MovemNothingLost(0);
    MovemNothingLost(1);
    assert MOVEM.patches[0].kind.Size?;
    assert MOVEM.HasField(Size);
  }

  lemma MovemTail(fields: seq<Word>)
    requires |fields| == 4
    ensures StructureOk(MOVEM) && E.TailWords(MOVEM, fields, [LIST, DOWN_FROM_A7], 0) == []
  {
    hide WidthMask, FieldMask;
    MovemStructure();
    var operands := [LIST, DOWN_FROM_A7];
    forall e | 0 <= e < 4 ensures ExtensionWords(MOVEM, MOVEM.extensions[e], fields, operands) == Ok([]) {}
    assert E.TailWords(MOVEM, fields, operands, 4) == [];
    assert E.TailWords(MOVEM, fields, operands, 3) == [];
    assert E.TailWords(MOVEM, fields, operands, 2) == [];
    assert E.TailWords(MOVEM, fields, operands, 1) == [];
  }

  lemma {:induction false} NothingBelow(count: nat)
    requires count <= 15
    ensures ReversedPart(0x8000, count) == 0
  {
    hide Has, Join;
    if count > 0 {
      NothingBelow(count - 1);
      HighestBit(count - 1);
    }
  }

  lemma HighestBit(index: nat)
    requires index < 16
    ensures Has(0x8000, index) <==> index == 15
  {
    hide Meets;
    BitsDisjoint(15, index);
  }

  lemma FirstRegister()
    ensures WithReversedMask(LIST) == LIST.(value := 1)
  {
    hide Has, Bit;
    NothingBelow(15);
    HighestBit(15);
    BitValues();
    assert Low16(0x8000) == 0x8000;
    assert Reversed(0x8000) == 1;
  }

  /** The mode shows in the opword, and the decoder turns the list: D0 is bit 0 again. */
  lemma MovemTurnsTheList(rest: seq<Byte>)
    ensures StructureOk(MOVEM)
    ensures var fields := PatchValues(MOVEM, SizeW, [LIST, DOWN_FROM_A7], 4);
            && fields.Ok? && PredecrementMode(FixedWord(MOVEM, fields.value, 0))
            && var bytes := AssembledBytes(MOVEM, fields.value, [LIST, DOWN_FROM_A7], 4);
               && bytes.Ok? && |bytes.value| == 4
               && DecodedAs(MOVEM, bytes.value + rest) == Some(Decoded([LIST.(value := 1), DOWN_FROM_A7], SizeW, 4))
  {
    hide WellFormed, StructureOk, Normalised, ImmediatesSettled, AllRecognised, DecodedAs, Encodes, ToldSuffix,
         SizeAvailable, E.TailWords, LosesAnIndex, AssembledBytes, WithReversedMask, PredecrementMode, FixedWord, BytesOf;
    MovemIsWellFormed();
    MovemStructure();
    MovemIsNormalised();
    EncoderAccepts(MOVEM, SizeW, [LIST, DOWN_FROM_A7], 4);
    var fields := PatchValues(MOVEM, SizeW, [LIST, DOWN_FROM_A7], 4).value;
    MovemTail(fields);
    ModeShows(MOVEM, SizeW, [LIST, DOWN_FROM_A7], fields);
    AssembledParts(MOVEM, fields, [LIST, DOWN_FROM_A7], 4);
    FormRoundTrip(MOVEM, SizeW, [LIST, DOWN_FROM_A7], fields, 4, rest);
    FirstRegister();
    assert [LIST, DOWN_FROM_A7][0 := LIST.(value := 1)] == [LIST.(value := 1), DOWN_FROM_A7];
  }
}
