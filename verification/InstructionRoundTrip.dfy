/** Whole instructions: the bytes that the encoder assembles for a form match that form, and the
    decoder makes the same operands, suffix and length of them. */
module InstructionRoundTrip {
  import opened Wrappers
  import opened Words
  import opened FormTable
  import opened RegisterMask
  import opened Assembler
  import opened Disassembler
  import opened FieldRoundTrip
  import opened IndexRoundTrip
  import opened PatchRoundTrip
  import opened SizeRoundTrip
  import E = ExtensionRoundTrip

  // ---------- operands that survive ----------

  /** Whatever no patch carries and no extension holds is as in a blank operand. */
  predicate NothingLost(form: Form, told: Suffix, operands: seq<Operand>, k: nat)
    requires StructureOk(form) && |operands| == |form.operandKinds| && k < |operands|
  {
    && (!E.Awaits(form, told, operands, 0, k) ==> operands[k].index == NO_INDEX)
    && forall slot: Slot :: !CarriedBy(form, told, operands, |form.patches|, k, slot) ==>
         Agree(BlankOperands(form)[k], E.Pending(form, told, operands, 0)[k], slot)
  }

  /** Operands as the decoder presents them, in range of the fields and extensions of the form. */
  predicate Normalised(form: Form, told: Suffix, operands: seq<Operand>)
    requires StructureOk(form)
  {
    && |operands| == |form.operandKinds|
    && KindsMatch(form, operands)
    && PatchesInRange(form, told, operands)
    && E.ExtensionsExpressible(form, told, operands)
    && BranchTold(form, told, operands)
    && (forall k :: 0 <= k < |operands| ==> NothingLost(form, told, operands, k))
    && (forall k :: 0 <= k < |operands| ==> EaModeAllowed(form, k, operands[k]))
  }

  /** The encoder and decoder agree on the length of immediates, if an immediate is there. */
  predicate ImmediatesSettled(form: Form, told: Suffix, operands: seq<Operand>)
    requires StructureOk(form) && |operands| == |form.operandKinds|
  {
    forall e: nat :: e < |form.extensions| && form.extensions[e].kind.EaImmediate? && E.ActiveAt(form, told, operands, e) ==>
      ImmediateSizeSettled(form, operands)
  }

  // ---------- the steps ----------

  lemma EncodedOperandFields(form: Form, suffix: Suffix, operands: seq<Operand>, fields: seq<Word>)
    requires StructureOk(form) && SizesOk(form) && |operands| == |form.operandKinds|
    requires Encodes(form, suffix, operands, fields)
    ensures FieldsOf(form, ToldSuffix(form, suffix), operands, CutFields(form, fields))
  {
    hide OperandField, WidthMask, Under, SizesFit, SizeValues.Of, SuffixOfSingleSize;
    forall i | 0 <= i < |form.patches| && 0 <= form.patches[i].operandIndex && !form.patches[i].source.NoValue?
      ensures var field := OperandField(form, form.patches[i], ToldSuffix(form, suffix),
                                        operands[form.patches[i].operandIndex]);
              field.Ok? && CutFields(form, fields)[i] == Under(field.value, form.patches[i].Mask())
    {
      SuffixMattersToBranches(form, form.patches[i], suffix, ToldSuffix(form, suffix),
                              operands[form.patches[i].operandIndex]);
    }
  }

  lemma SuffixMattersToBranches(form: Form, patch: FieldPatch, suffix: Suffix, other: Suffix, operand: Operand)
    requires suffix == other || !patch.kind.Displacement8?
    ensures OperandField(form, patch, suffix, operand) == OperandField(form, patch, other, operand)
  {
    hide RegisterOf, RegisterKindOf, Low16, High16, Low8;
  }

  lemma CarriedIsThere(form: Form, told: Suffix, operands: seq<Operand>, k: nat, slot: Slot)
    requires StructureOk(form) && BranchOk(form) && ExtensionsOk(form) && |operands| == |form.operandKinds| && k < |operands|
    requires CarriedBy(form, told, operands, |form.patches|, k, slot)
    ensures Agree(operands[k], E.Pending(form, told, operands, 0)[k], slot)
  {
    hide BranchOk, Unread, Agree, Carries, E.ActiveAt;
    AgreeIsReflexive(operands[k], slot);
    if E.Awaits(form, told, operands, 0, k) {
      var i :| 0 <= i < |form.patches| && form.patches[i].operandIndex == k
               && Carries(form.patches[i], operands[k].kind, told, slot);
      var e :| 0 <= e < |form.extensions| && form.extensions[e].operandIndex == k && E.ActiveAt(form, told, operands, e);
      CarriedValueIsInactive(form, told, operands, i, e, slot);
      UnreadAgrees(operands[k], slot);
    }
  }

  lemma CarriedValueIsInactive(form: Form, told: Suffix, operands: seq<Operand>, i: nat, e: nat, slot: Slot)
    requires StructureOk(form) && BranchOk(form) && ExtensionsOk(form) && |operands| == |form.operandKinds|
    requires i < |form.patches| && e < |form.extensions|
    requires form.patches[i].operandIndex == form.extensions[e].operandIndex
    requires Carries(form.patches[i], operands[form.extensions[e].operandIndex].kind, told, slot)
    requires E.ActiveAt(form, told, operands, e)
    ensures !slot.HighSlot? && !slot.LowSlot?
  {
    hide WidthMask, IsSingleWordMode, IsLongAddressMode, IsImmediateMode, IsIndexMode;
  }

  /** Reading an extension concerns the value and the index only. */
  lemma UnreadAgrees(operand: Operand, slot: Slot)
    requires !slot.HighSlot? && !slot.LowSlot?
    ensures Agree(operand, Unread(operand), slot)
  {
    hide High16, Low16;
  }

  /** The decoder's operands when all patches are applied are those that await their extensions. */
  lemma PatchedArePending(form: Form, told: Suffix, operands: seq<Operand>, fields: seq<Word>)
    requires StructureOk(form) && BranchOk(form) && ExtensionsOk(form) && Normalised(form, told, operands)
    requires |fields| == |form.patches| && FieldsOf(form, told, operands, fields)
    ensures PatchedOperands(form, fields, |form.patches|) == E.Pending(form, told, operands, 0)
  {
    hide BranchOk, ExtensionsOk, KindsMatch, PatchesInRange, E.ExtensionsExpressible, BranchTold, EaModeAllowed,
         E.Pending, PatchedOperands, FieldsOf, Agree, CarriedBy, E.Awaits;
    forall k | 0 <= k < |operands|
      ensures PatchedOperands(form, fields, |form.patches|)[k] == E.Pending(form, told, operands, 0)[k]
    {
      var target := E.Pending(form, told, operands, 0)[k];
      assert NothingLost(form, told, operands, k);
      PendingOperand(form, told, operands, k);
      forall slot: Slot ensures Agree(SlotOrigin(form, told, operands, |form.patches|, k, slot), target, slot) {
        if CarriedBy(form, told, operands, |form.patches|, k, slot) {
          CarriedIsThere(form, told, operands, k, slot);
        }
      }
      PatchesRestore(form, told, operands, fields, k, target);
    }
  }

  lemma PendingOperand(form: Form, told: Suffix, operands: seq<Operand>, k: nat)
    requires StructureOk(form) && |operands| == |form.operandKinds| && k < |operands|
    requires !E.Awaits(form, told, operands, 0, k) ==> operands[k].index == NO_INDEX
    ensures var pending := E.Pending(form, told, operands, 0)[k];
            pending.kind == operands[k].kind && pending.index == NO_INDEX
  {
    hide E.Awaits;
  }

  /** The emitted words are the bound words and then those of the extensions. */
  lemma {:induction false} EmittedSplit(form: Form, fields: seq<Word>, operands: seq<Operand>, capacity: nat, j: nat)
    requires StructureOk(form) && |fields| == |form.patches| && |operands| == |form.operandKinds|
    requires j <= |form.extensions| && EmittedWords(form, fields, operands, capacity, |form.extensions|).Ok?
    ensures EmittedWords(form, fields, operands, capacity, j).Ok?
    ensures EmittedWords(form, fields, operands, capacity, |form.extensions|).value
            == EmittedWords(form, fields, operands, capacity, j).value + E.TailWords(form, fields, operands, j)
    ensures forall e :: j <= e < |form.extensions| ==> ExtensionWords(form, form.extensions[e], fields, operands).Ok?
    decreases |form.extensions| - j
  {
    hide ExtensionWords, FixedWord;
    if j < |form.extensions| {
      EmittedSplit(form, fields, operands, capacity, j + 1);
    }
  }

  /** The bytes of an assembled instruction: leading words, then extensions. */
  lemma AssembledParts(form: Form, fields: seq<Word>, operands: seq<Operand>, maxBytes: nat)
    requires StructureOk(form) && AssembledBytes(form, fields, operands, maxBytes).Ok?
    ensures |fields| == |form.patches| && |operands| == |form.operandKinds|
    ensures AssembledBytes(form, fields, operands, maxBytes).value
            == BytesOf(LeadingWords(form, fields) + E.TailWords(form, fields, operands, 0))
    ensures forall e :: 0 <= e < |form.extensions| ==> ExtensionWords(form, form.extensions[e], fields, operands).Ok?
  {
    hide ExtensionWords, FixedWord, BytesOf;
    EmittedSplit(form, fields, operands, MAX_EXTENSION_WORDS, 0);
    var tail := E.TailWords(form, fields, operands, 0);
    assert [FixedWord(form, fields, 0)] + (BoundWords(form, fields) + tail) == LeadingWords(form, fields) + tail;
  }

  /** What the encoded instruction promises to the reader of its extensions. */
  lemma EncodedIsExpressible(form: Form, suffix: Suffix, operands: seq<Operand>, fields: seq<Word>)
    requires WellFormed(form) && Encodes(form, suffix, operands, fields)
    requires Normalised(form, ToldSuffix(form, suffix), operands)
    requires ImmediatesSettled(form, ToldSuffix(form, suffix), operands)
    requires forall e :: 0 <= e < |form.extensions| ==> ExtensionWords(form, form.extensions[e], fields, operands).Ok?
    ensures E.Expressible(form, fields, ToldSuffix(form, suffix), operands)
  {
    hide WordsOk, KindsOk, MovemOk, SizesOk, BranchOk, ExtensionsOk, KindsMatch, PatchesInRange, NothingLost, EaModeAllowed,
         E.ExtensionsExpressible, ExtensionWords, EmitsLongImmediate, Encodes, BranchTold, E.ActiveAt, ToldSuffix,
         ImmediateSizeSettled;
    EncodesLength(form, suffix, operands, fields);
    EncodedLabels(form, suffix, operands, fields);
    forall e | 0 <= e < |form.extensions| && form.extensions[e].kind.EaImmediate?
               && E.ActiveAt(form, ToldSuffix(form, suffix), operands, e)
      ensures EmitsLongImmediate(form, fields, operands) <==> ToldSuffix(form, suffix).SizeL?
    {
      NoImmediateBranch(form, e);
      ImmediateWidthsAgree(form, suffix, operands, fields);
    }
  }

  lemma NoImmediateBranch(form: Form, e: nat)
    requires StructureOk(form) && BranchOk(form) && e < |form.extensions| && form.extensions[e].kind.EaImmediate?
    ensures !form.HasField(Displacement8)
  {
    hide WidthMask;
  }

  lemma EncodedLabels(form: Form, suffix: Suffix, operands: seq<Operand>, fields: seq<Word>)
    requires StructureOk(form) && BranchOk(form) && Encodes(form, suffix, operands, fields)
    requires |operands| == |form.operandKinds| && BranchTold(form, ToldSuffix(form, suffix), operands)
    requires |fields| == |form.patches|
    ensures E.LabelFields(form, fields, ToldSuffix(form, suffix), operands)
  {
    hide WidthMask, Encodes, BranchTold;
    forall e | 0 <= e < |form.extensions| && form.extensions[e].kind.LabelDisp16IfZero?
      ensures fields[form.extensions[e].patchIndex] == 0 <==> ToldSuffix(form, suffix).SizeW?
    {
      var i := form.extensions[e].patchIndex;
      assert form.patches[i].kind.Displacement8? && form.HasField(Displacement8);
      BranchField(form, suffix, operands, fields, i);
    }
  }

  // ---------- the register mask of MOVEM ----------

  /** A register list stored to memory in the predecrement mode. */
  predicate StoresDownwards(form: Form, operands: seq<Operand>) {
    form.mnemonic.Movem? && |operands| == 2 && operands[0].kind.Reglist? && operands[1].kind.Ea? && operands[1].eaMode == 4
  }

  /** The operands with the register mask read from the other end when the mode asks for it. */
  function MaskTurned(form: Form, operands: seq<Operand>): (turned: seq<Operand>)
    ensures |turned| == |operands|
  {
    if StoresDownwards(form, operands) then operands[0 := WithReversedMask(operands[0])] else operands
  }

  lemma ModeBits(word: Word)
    ensures PredecrementMode(word) <==> ExtractBits16(word, 5, 3) == 4
  {
  }

  lemma FourAsWord(byte: Byte)
    ensures byte as Word == 4 <==> byte == 4
  {
  }

  lemma MovemKinds(form: Form, operands: seq<Operand>)
    requires WellFormed(form) && |operands| == |form.operandKinds| && KindsMatch(form, operands)
    requires form.mnemonic.Movem? && |operands| >= 2 && operands[0].kind.Reglist?
    ensures form.operandKinds[0].Reglist? && |operands| == 2 && operands[1].kind.Ea?
    ensures exists i :: 0 <= i < |form.patches| && ModePatch(form.patches[i])
  {
    hide WordsOk, SizesOk, BranchOk, ExtensionsOk, KindsOk, WidthMask;
    assert BlankOperands(form)[0].kind == operands[0].kind && BlankOperands(form)[1].kind == operands[1].kind;
    var i :| 0 <= i < |form.patches| && form.patches[i].source.EaMode? && form.patches[i].operandIndex == 1
             && form.patches[i].wordIndex == 0 && form.patches[i].hi == 5 && form.patches[i].lo == 3;
    assert ModePatch(form.patches[i]);
  }

  predicate ModePatch(patch: FieldPatch) {
    && patch.source.EaMode? && patch.operandIndex == 1
    && patch.wordIndex == 0 && patch.hi == 5 && patch.lo == 3
  }

  /** The mode bits of the opword show whether the register list is stored downwards. */
  lemma ModeShows(form: Form, suffix: Suffix, operands: seq<Operand>, fields: seq<Word>)
    requires WellFormed(form) && Encodes(form, suffix, operands, fields)
    requires Normalised(form, ToldSuffix(form, suffix), operands)
    requires form.mnemonic.Movem? && |operands| >= 2 && operands[0].kind.Reglist?
    ensures |fields| == |form.patches|
    ensures StoresDownwards(form, operands) <==> PredecrementMode(FixedWord(form, fields, 0))
  {
    hide WordsOk, SizesOk, BranchOk, ExtensionsOk, KindsOk, MovemOk, KindsMatch, NothingLost, EaModeAllowed, PatchesInRange,
         E.ExtensionsExpressible, BranchTold, FixedWord, ExtractBits16, PredecrementMode, ToldSuffix, Under, WidthMask;
    MovemKinds(form, operands);
    var i :| 0 <= i < |form.patches| && ModePatch(form.patches[i]);
    FieldComesBack(form, fields, i);
    ModeIsInRange(form, suffix, operands, fields, i);
    ModeBits(FixedWord(form, fields, 0));
    FourAsWord(operands[1].eaMode);
  }

  lemma ModeIsInRange(form: Form, suffix: Suffix, operands: seq<Operand>, fields: seq<Word>, i: nat)
    requires StructureOk(form) && SizesOk(form) && |operands| == |form.operandKinds| && Encodes(form, suffix, operands, fields)
    requires PatchesInRange(form, ToldSuffix(form, suffix), operands)
    requires i < |form.patches| && ModePatch(form.patches[i])
    ensures Under(fields[i], form.patches[i].Mask()) == operands[1].eaMode as Word
  {
    hide Under, WidthMask, ToldSuffix, SizesFit;
    var patch := form.patches[i];
    assert FieldValue(form, patch, suffix, operands) == Ok(fields[i]);
    assert PatchInRange(form, patch, ToldSuffix(form, suffix), operands[1]);
  }

  lemma TurningKeepsIndex(operand: Operand)
    ensures WithReversedMask(operand).index == operand.index
  {
    hide Reversed, Low16;
  }

  /** The decoder turns the mask when the encoder's caller had turned it. */
  lemma MaskTurnsBack(form: Form, suffix: Suffix, operands: seq<Operand>, fields: seq<Word>, tail: seq<Word>,
                      rest: seq<Byte>)
    requires WellFormed(form) && Encodes(form, suffix, operands, fields)
    requires Normalised(form, ToldSuffix(form, suffix), operands)
    ensures |fields| == |form.patches|
    ensures IsMovemPredecrement(form, Image(LeadingWords(form, fields) + tail, rest), operands)
            <==> StoresDownwards(form, operands)
  {
    hide WordsOk, SizesOk, BranchOk, ExtensionsOk, KindsOk, MovemOk, KindsMatch, NothingLost, EaModeAllowed, PatchesInRange,
         E.ExtensionsExpressible, BranchTold, ToldSuffix, Encodes, PredecrementMode, FixedWord, Image, ReadU16;
    EncodesLength(form, suffix, operands, fields);
    ReadBackWord(LeadingWords(form, fields) + tail, rest, 0);
    if form.mnemonic.Movem? && |operands| >= 2 && operands[0].kind.Reglist? {
      ModeShows(form, suffix, operands, fields);
    }
  }

  /** Whether the suffix or the told suffix is meant makes no difference to a branch. */
  lemma BranchesStayTold(form: Form, suffix: Suffix, operands: seq<Operand>)
    requires StructureOk(form) && |operands| == |form.operandKinds|
    requires BranchTold(form, ToldSuffix(form, suffix), operands)
    ensures BranchTold(form, suffix, operands)
  {
    hide LowByteIs, SuffixOfSingleSize;
  }

  // ---------- the theorem ----------

  /** The end of every full extension is recognised, with `extra` bytes behind the instruction. */
  predicate AllRecognised(form: Form, told: Suffix, operands: seq<Operand>, extra: nat)
    requires StructureOk(form) && |operands| == |form.operandKinds|
  {
    forall e: nat :: e < |form.extensions| ==> E.Recognised(form, told, operands, e, extra)
  }

  /** The decoder comes to its extensions with the pending operands of the encoded instruction. */
  predicate ReachesExtensions(form: Form, data: seq<Byte>, told: Suffix, operands: seq<Operand>)
    requires StructureOk(form) && |operands| == |form.operandKinds|
  {
    && MatchesForm(form, data)
    && var fields := ExtractedFields(form, data);
       && DecodedSuffix(form, fields) == told
       && ValidFields(form, fields)
       && PatchedOperands(form, fields, |form.patches|) == E.Pending(form, told, operands, 0)
  }

  lemma EncodedReachesExtensions(form: Form, suffix: Suffix, operands: seq<Operand>, fields: seq<Word>, tail: seq<Word>,
                                 rest: seq<Byte>)
    requires WellFormed(form) && Encodes(form, suffix, operands, fields)
    requires Normalised(form, ToldSuffix(form, suffix), operands)
    ensures |fields| == |form.patches|
    ensures ReachesExtensions(form, Image(LeadingWords(form, fields) + tail, rest), ToldSuffix(form, suffix), operands)
  {
    hide WordsOk, SizesOk, BranchOk, ExtensionsOk, KindsOk, MovemOk, KindsMatch, NothingLost, EaModeAllowed, PatchesInRange,
         E.ExtensionsExpressible, BranchTold, ToldSuffix, Encodes, ExtractedFields, CutFields, ValidFields,
         DecodedSuffix, PatchedOperands, E.Pending, Image, LeadingWords, MatchesForm;
    EncodesLength(form, suffix, operands, fields);
    OverlayInverse(form, fields, tail, rest);
    EncodedFieldsAreValid(form, suffix, operands, fields);
    BranchesStayTold(form, suffix, operands);
    SuffixComesBack(form, suffix, operands, fields);
    EncodedOperandFields(form, suffix, operands, fields);
    PatchedArePending(form, ToldSuffix(form, suffix), operands, CutFields(form, fields));
  }

  /** The decoder fails, or some operand comes back with another index. */
  predicate LosesAnIndex(decoded: Option<Decoded>, operands: seq<Operand>) {
    decoded.Some? ==>
      && |decoded.value.operands| == |operands|
      && exists k :: 0 <= k < |operands| && decoded.value.operands[k].index != operands[k].index
  }

  /** From there on the outcome is that of the extensions, the mode check and the mask. */
  lemma OutcomeOfExtensions(form: Form, data: seq<Byte>, told: Suffix, operands: seq<Operand>, length: nat)
    requires StructureOk(form) && |operands| == |form.operandKinds|
    requires ReachesExtensions(form, data, told, operands)
    requires forall k :: 0 <= k < |operands| ==> EaModeAllowed(form, k, operands[k])
    requires IsMovemPredecrement(form, data, operands) <==> StoresDownwards(form, operands)
    ensures var r := DecodedExtensions(form, data, E.Pending(form, told, operands, 0), told, 2 + 2 * |form.boundBases|, 0);
            && (r == Some((operands, length)) ==>
                  DecodedAs(form, data) == Some(Decoded(MaskTurned(form, operands), told, length)))
            && ((r.Some? ==> exists k :: 0 <= k < |operands| && r.value.0[k].index != operands[k].index) ==>
                  LosesAnIndex(DecodedAs(form, data), operands))
  {
    hide ExtractedFields, ValidFields, DecodedSuffix, PatchedOperands, DecodedExtensions, E.Pending, MatchesForm,
         IsMovemPredecrement, WithReversedMask, StoresDownwards, EaModeAllowed;
    forall operand: Operand ensures WithReversedMask(operand).index == operand.index { TurningKeepsIndex(operand); }
    var r := DecodedExtensions(form, data, E.Pending(form, told, operands, 0), told, 2 + 2 * |form.boundBases|, 0);
    var decoded := DecodedAs(form, data);
    if r.Some? && decoded.Some? {
      forall k | 0 <= k < |operands| ensures decoded.value.operands[k].index == r.value.0[k].index {
      }
    }
  }

  /** The encoder's bytes match the form wherever they stand, and decoding them against it, with any
      bytes behind them, restores the operands, the suffix and the length when the end of every full
      extension is recognised; otherwise the decoder fails or changes an index. A mask that is stored
      downwards comes back turned. */
  lemma FormRoundTrip(form: Form, suffix: Suffix, operands: seq<Operand>, fields: seq<Word>, maxBytes: nat,
                      rest: seq<Byte>)
    requires WellFormed(form) && Encodes(form, suffix, operands, fields)
    requires Normalised(form, ToldSuffix(form, suffix), operands)
    requires ImmediatesSettled(form, ToldSuffix(form, suffix), operands)
    requires AssembledBytes(form, fields, operands, maxBytes).Ok?
    ensures var bytes := AssembledBytes(form, fields, operands, maxBytes).value;
            && MatchesForm(form, bytes + rest)
            && if AllRecognised(form, ToldSuffix(form, suffix), operands, |rest|)
               then DecodedAs(form, bytes + rest)
                    == Some(Decoded(MaskTurned(form, operands), ToldSuffix(form, suffix), |bytes|))
               else LosesAnIndex(DecodedAs(form, bytes + rest), operands)
  {
    hide WordsOk, SizesOk, BranchOk, ExtensionsOk, KindsOk, MovemOk, KindsMatch, NothingLost, EaModeAllowed, PatchesInRange,
         E.ExtensionsExpressible, BranchTold, ToldSuffix, AssembledBytes, Encodes, DecodedAs, MaskTurned,
         ExtractedFields, DecodedSuffix, ValidFields, PatchedOperands,
         DecodedExtensions, E.Pending, E.Expressible, E.Recognised, BytesOf, LeadingWords,
         MatchesForm, IsMovemPredecrement, StoresDownwards, ImmediatesSettled;
    var told := ToldSuffix(form, suffix);
    AssembledParts(form, fields, operands, maxBytes);
    EncodedIsExpressible(form, suffix, operands, fields);
    var tail := E.TailWords(form, fields, operands, 0);
    EncodedReachesExtensions(form, suffix, operands, fields, tail, rest);
    MaskTurnsBack(form, suffix, operands, fields, tail, rest);
    OutcomeOfExtensions(form, Image(LeadingWords(form, fields) + tail, rest), told, operands,
                        2 * |LeadingWords(form, fields) + tail|);
    E.TailRoundTrip(form, fields, told, operands, 0, LeadingWords(form, fields), rest);
  }

  // ---------- the encoder accepts normalised operands ----------

  /** The form has a value for the suffix wherever it shows a size. */
  predicate SizeAvailable(form: Form, suffix: Suffix) {
    && (form.HasField(Size) ==> form.sizeValues.Of(suffix) != UNSET)
    && (form.HasField(Opmode) ==> form.opmodeValues.Of(suffix) != UNSET)
  }

  lemma PatchHasValue(form: Form, suffix: Suffix, operands: seq<Operand>, i: nat)
    requires StructureOk(form) && |operands| == |form.operandKinds| && SizeAvailable(form, suffix)
    requires PatchesInRange(form, ToldSuffix(form, suffix), operands) && i < |form.patches|
    ensures FieldValue(form, form.patches[i], suffix, operands).Ok?
  {
    hide OperandField, WidthMask, Under, SizeValues.Of, SuffixOfSingleSize;
    var patch := form.patches[i];
    if 0 <= patch.operandIndex {
      assert PatchInRange(form, patch, ToldSuffix(form, suffix), operands[patch.operandIndex]);
      SuffixMattersToBranches(form, patch, suffix, ToldSuffix(form, suffix), operands[patch.operandIndex]);
    }
  }

  lemma {:induction false} PatchesHaveValues(form: Form, suffix: Suffix, operands: seq<Operand>, count: nat)
    requires StructureOk(form) && |operands| == |form.operandKinds| && SizeAvailable(form, suffix)
    requires PatchesInRange(form, ToldSuffix(form, suffix), operands) && count <= |form.patches|
    ensures PatchValues(form, suffix, operands, count).Ok?
  {
    hide FieldValue, PatchesInRange, SizeAvailable, ToldSuffix;
    if count > 0 {
      PatchesHaveValues(form, suffix, operands, count - 1);
      PatchHasValue(form, suffix, operands, count - 1);
    }
  }

  lemma SignedFitsAbsolute(value: Long)
    requires FitsSignedWord(value)
    ensures FitsAbsoluteWord(value)
  {
  }

  lemma ExtensionHasWords(form: Form, told: Suffix, operands: seq<Operand>, fields: seq<Word>, e: nat)
    requires StructureOk(form) && |operands| == |form.operandKinds| && |fields| == |form.patches|
    requires E.ExtensionsExpressible(form, told, operands) && e < |form.extensions|
    ensures ExtensionWords(form, form.extensions[e], fields, operands).Ok?
  {
    hide FitsAbsoluteWord, FitsSignedWord, FitsUnsignedWord, IndexNormal, IsLongAddressMode, IsImmediateMode, IsIndexMode,
         E.SignalFree, ImmediateWords, IndexWords, Low16, High16, BlankOperands;
    var operand := operands[form.extensions[e].operandIndex];
    if form.extensions[e].kind.EaSingleWord? && operand.IsMemoryEa() && operand.SingleWordMode() {
      SignedFitsAbsolute(operand.value);
    }
  }

  lemma {:induction false} WordsFit(form: Form, fields: seq<Word>, operands: seq<Operand>, capacity: nat, j: nat)
    requires StructureOk(form) && |operands| == |form.operandKinds| && |fields| == |form.patches|
    requires forall e :: 0 <= e < |form.extensions| ==> ExtensionWords(form, form.extensions[e], fields, operands).Ok?
    requires |form.boundBases| + |E.TailWords(form, fields, operands, 0)| <= capacity && j <= |form.extensions|
    ensures var emitted := EmittedWords(form, fields, operands, capacity, j);
            emitted.Ok? && |emitted.value| + |E.TailWords(form, fields, operands, j)|
                           == |form.boundBases| + |E.TailWords(form, fields, operands, 0)|
  {
    hide ExtensionWords, FixedWord;
    if j > 0 { WordsFit(form, fields, operands, capacity, j - 1); }
  }

  /** Normalised operands are assembled whenever the suffix has a value and the words fit. */
  lemma EncoderAccepts(form: Form, suffix: Suffix, operands: seq<Operand>, maxBytes: nat)
    requires WellFormed(form) && SizeAvailable(form, suffix)
    requires Normalised(form, ToldSuffix(form, suffix), operands)
    ensures var values := PatchValues(form, suffix, operands, |form.patches|);
            && values.Ok? && Encodes(form, suffix, operands, values.value)
            && var words := |form.boundBases| + |E.TailWords(form, values.value, operands, 0)|;
               words <= MAX_EXTENSION_WORDS && 2 + 2 * words <= maxBytes ==>
                 AssembledBytes(form, values.value, operands, maxBytes).Ok?
  {
    hide WordsOk, SizesOk, BranchOk, ExtensionsOk, KindsOk, MovemOk, KindsMatch, NothingLost, EaModeAllowed, PatchesInRange,
         E.ExtensionsExpressible, BranchTold, ToldSuffix, ExtensionWords, FieldValue, FixedWord, BytesOf, SizeAvailable;
    PatchesHaveValues(form, suffix, operands, |form.patches|);
    var fields := PatchValues(form, suffix, operands, |form.patches|).value;
    forall e | 0 <= e < |form.extensions| ensures ExtensionWords(form, form.extensions[e], fields, operands).Ok? {
      ExtensionHasWords(form, ToldSuffix(form, suffix), operands, fields, e);
    }
    if |form.boundBases| + |E.TailWords(form, fields, operands, 0)| <= MAX_EXTENSION_WORDS {
      WordsFit(form, fields, operands, MAX_EXTENSION_WORDS, |form.extensions|);
    }
  }
}
