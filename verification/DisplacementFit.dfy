/** Displacements that do not fit: the encoder cuts them to their field without a word, and the
    reference then leads elsewhere. Together with the round trip this says exactly when it comes back. */
module DisplacementFit {
  import opened Wrappers
  import opened Words
  import opened FormTable
  import opened Assembler
  import opened Disassembler
  import opened SizeRoundTrip
  import opened IndexRoundTrip
  import opened PatchRoundTrip
  import opened InstructionRoundTrip
  import opened IrCodec
  import opened Spans
  import opened SymbolTargets
  import opened SymbolRoundTrip
  import E = ExtensionRoundTrip

  // ---------- operands that differ in one value ----------

  function WithValue(operands: seq<Operand>, k: nat, value: Long): (changed: seq<Operand>)
    requires k < |operands|
    ensures |changed| == |operands|
  {
    operands[k := operands[k].(value := value)]
  }

  predicate SameField(patch: FieldPatch, suffix: Suffix, a: Long, b: Long) {
    match patch.source
    case ValueHi16 => High16(a) == High16(b)
    case ValueLo16 => Low16(a) == Low16(b)
    case WholeValue => if patch.kind.Displacement8? then suffix.SizeB? ==> Low8(a) == Low8(b) else Low16(a) == Low16(b)
    case _ => true
  }

  /** No field of operand `k` tells the two values apart. */
  predicate SameFields(form: Form, suffix: Suffix, k: nat, a: Long, b: Long) {
    forall i :: 0 <= i < |form.patches| && form.patches[i].operandIndex == k ==> SameField(form.patches[i], suffix, a, b)
  }

  predicate SameWords(form: Form, e: nat, fields: seq<Word>, operand: Operand, a: Long, b: Long)
    requires StructureOk(form) && e < |form.extensions| && |fields| == |form.patches|
  {
    match form.extensions[e].kind
    case EaSingleWord =>
      operand.IsMemoryEa() && operand.SingleWordMode() ==>
        operand.eaMode == 7 && operand.eaReg != 0 && Low16(a) == Low16(b)
    case EaLongAddress => !(operand.IsMemoryEa() && operand.LongAddressMode())
    case EaImmediate => !operand.kind.Imm? && !operand.ImmediateMode()
    case EaIndex => operand.IsMemoryEa() && operand.IndexMode() && !operand.index.UsesFull() ==> Low8(a) == Low8(b)
    case LabelDisp16IfZero => fields[form.extensions[e].patchIndex] == 0 ==> Low16(a) == Low16(b)
    case _ => Low16(a) == Low16(b)
  }

  /** No extension of operand `k` does. */
  predicate SameExtensions(form: Form, k: nat, fields: seq<Word>, operand: Operand, a: Long, b: Long)
    requires StructureOk(form) && |fields| == |form.patches|
  {
    forall e :: 0 <= e < |form.extensions| && form.extensions[e].operandIndex == k ==> SameWords(form, e, fields, operand, a, b)
  }

  lemma {:induction false} NarrowingIgnoresValue(form: Form, operands: seq<Operand>, k: nat, value: Long, mask: Byte, i: nat)
    requires k < |operands|
    ensures NarrowedSizeMask(form, WithValue(operands, k, value), mask, i) == NarrowedSizeMask(form, operands, mask, i)
    decreases |operands| - i
  {
    if i < |operands| { NarrowingIgnoresValue(form, operands, k, value, mask, i + 1); }
  }

  lemma SuffixIgnoresValue(form: Form, operands: seq<Operand>, k: nat, value: Long, explicit: Suffix, cpu: nat)
    requires k < |operands|
    ensures EffectiveSizeMaskForOperands(form, WithValue(operands, k, value), cpu) == EffectiveSizeMaskForOperands(form, operands, cpu)
    ensures ResolveSizeSuffix(form, WithValue(operands, k, value), explicit, cpu) == ResolveSizeSuffix(form, operands, explicit, cpu)
  {
    hide NarrowedSizeMask, WithValue;
    NarrowingIgnoresValue(form, operands, k, value, form.EffectiveSizeMaskForCpu(cpu), 0);
  }

  lemma FormIgnoresValue(form: Form, operands: seq<Operand>, k: nat, value: Long, suffix: Suffix, cpu: nat)
    requires k < |operands|
    ensures OperandsMatchForm(form, WithValue(operands, k, value), suffix, cpu) <==> OperandsMatchForm(form, operands, suffix, cpu)
  {
    hide EffectiveSizeMaskForOperands, MaskHas, OperandSupportsCpu, OperandMatchesKind;
    SuffixIgnoresValue(form, operands, k, value, suffix, cpu);
    MatchingIgnoresValue(form, operands, k, value, cpu);
  }

  lemma SelectionIgnoresValue(table: seq<Form>, mnemonic: Mnemonic, operands: seq<Operand>, k: nat, value: Long, suffix: Suffix,
                              cpu: nat, f: nat)
    requires k < |operands|
    ensures SelectsForm(table, mnemonic, WithValue(operands, k, value), suffix, cpu, f)
            <==> SelectsForm(table, mnemonic, operands, suffix, cpu, f)
  {
    hide OperandsMatchForm, WithValue;
    forall form: Form
      ensures OperandsMatchForm(form, WithValue(operands, k, value), suffix, cpu) <==> OperandsMatchForm(form, operands, suffix, cpu)
    {
      FormIgnoresValue(form, operands, k, value, suffix, cpu);
    }
  }

  lemma SelectedIgnoresValue(table: seq<Form>, mnemonic: Mnemonic, operands: seq<Operand>, k: nat, value: Long, suffix: Suffix,
                             cpu: nat)
    requires k < |operands|
    ensures Selected(table, mnemonic, WithValue(operands, k, value), suffix, cpu)
            == Selected(table, mnemonic, operands, suffix, cpu)
  {
    hide SelectsForm, WithValue;
    forall f: nat
      ensures SelectsForm(table, mnemonic, WithValue(operands, k, value), suffix, cpu, f)
              <==> SelectsForm(table, mnemonic, operands, suffix, cpu, f)
    {
      SelectionIgnoresValue(table, mnemonic, operands, k, value, suffix, cpu, f);
    }
    SelectedIs(table, mnemonic, WithValue(operands, k, value), suffix, cpu, Selected(table, mnemonic, operands, suffix, cpu));
  }

  lemma MatchingIgnoresValue(form: Form, operands: seq<Operand>, k: nat, value: Long, cpu: nat)
    requires k < |operands|
    ensures forall i :: 0 <= i < |operands| ==>
              && (OperandSupportsCpu(WithValue(operands, k, value)[i], cpu) <==> OperandSupportsCpu(operands[i], cpu))
              && WithValue(operands, k, value)[i].reg == operands[i].reg
              && forall kind :: OperandMatchesKind(WithValue(operands, k, value)[i], kind) <==> OperandMatchesKind(operands[i], kind)
  {
    hide IsLongAddressMode, IndexWord.UsesFull;
  }

  lemma RegistersIgnoreValue(operand: Operand, value: Long)
    ensures RegisterOf(operand.(value := value)) == RegisterOf(operand)
    ensures RegisterKindOf(operand.(value := value)) == RegisterKindOf(operand)
  {
  }

  predicate IsBitfieldSource(source: ValueSource) {
    source.BfOffset? || source.BfOffsetKind? || source.BfWidth? || source.BfWidthKind?
  }

  lemma BitfieldFieldIgnoresValue(form: Form, patch: FieldPatch, suffix: Suffix, operand: Operand, value: Long)
    requires IsBitfieldSource(patch.source)
    ensures OperandField(form, patch, suffix, operand.(value := value)) == OperandField(form, patch, suffix, operand)
  {
    hide Low8, Low16, High16, RegisterOf, RegisterKindOf;
  }

  lemma RegisterFieldIgnoresValue(form: Form, patch: FieldPatch, suffix: Suffix, operand: Operand, value: Long)
    requires !patch.CarriesValue() && !IsBitfieldSource(patch.source)
    ensures OperandField(form, patch, suffix, operand.(value := value)) == OperandField(form, patch, suffix, operand)
  {
    hide Low8, Low16, High16, RegisterOf, RegisterKindOf;
    RegistersIgnoreValue(operand, value);
  }

  lemma HalfFieldIgnoresValue(form: Form, patch: FieldPatch, suffix: Suffix, operand: Operand, value: Long)
    requires patch.source.ValueHi16? || patch.source.ValueLo16?
    requires SameField(patch, suffix, operand.value, value)
    ensures OperandField(form, patch, suffix, operand.(value := value)) == OperandField(form, patch, suffix, operand)
  {
    hide Low8, Low16, High16, RegisterOf, RegisterKindOf;
  }

  lemma WholeFieldIgnoresValue(form: Form, patch: FieldPatch, suffix: Suffix, operand: Operand, value: Long)
    requires patch.source.WholeValue? && SameField(patch, suffix, operand.value, value)
    ensures OperandField(form, patch, suffix, operand.(value := value)) == OperandField(form, patch, suffix, operand)
  {
    hide Low8, Low16, High16, RegisterOf, RegisterKindOf;
  }

  lemma FieldIgnoresValue(form: Form, patch: FieldPatch, suffix: Suffix, operand: Operand, value: Long)
    requires SameField(patch, suffix, operand.value, value)
    ensures OperandField(form, patch, suffix, operand.(value := value)) == OperandField(form, patch, suffix, operand)
  {
    hide OperandField, SameField;
    if patch.source.WholeValue? { WholeFieldIgnoresValue(form, patch, suffix, operand, value); }
    else if patch.CarriesValue() { HalfFieldIgnoresValue(form, patch, suffix, operand, value); }
    else if IsBitfieldSource(patch.source) { BitfieldFieldIgnoresValue(form, patch, suffix, operand, value); }
    else { RegisterFieldIgnoresValue(form, patch, suffix, operand, value); }
  }

  lemma PatchIgnoresValue(form: Form, patch: FieldPatch, suffix: Suffix, operands: seq<Operand>, k: nat, value: Long)
    requires k < |operands| && (patch.operandIndex == k ==> SameField(patch, suffix, operands[k].value, value))
    ensures FieldValue(form, patch, suffix, WithValue(operands, k, value)) == FieldValue(form, patch, suffix, operands)
  {
    hide OperandField, SizeValues.Of, SameField;
    if patch.operandIndex == k { FieldIgnoresValue(form, patch, suffix, operands[k], value); }
  }

  lemma {:induction false} FieldsIgnoreValue(form: Form, suffix: Suffix, operands: seq<Operand>, k: nat, value: Long, count: nat)
    requires k < |operands| && SameFields(form, suffix, k, operands[k].value, value) && count <= |form.patches|
    ensures PatchValues(form, suffix, WithValue(operands, k, value), count) == PatchValues(form, suffix, operands, count)
  {
    hide FieldValue, SameField, WithValue;
    if count > 0 {
      FieldsIgnoreValue(form, suffix, operands, k, value, count - 1);
      PatchIgnoresValue(form, form.patches[count - 1], suffix, operands, k, value);
    }
  }

  lemma ExtensionIgnoresValue(form: Form, fields: seq<Word>, operands: seq<Operand>, k: nat, value: Long, e: nat)
    requires StructureOk(form) && |fields| == |form.patches| && k < |operands| == |form.operandKinds|
    requires SameExtensions(form, k, fields, operands[k], operands[k].value, value) && e < |form.extensions|
    ensures ExtensionWords(form, form.extensions[e], fields, WithValue(operands, k, value))
            == ExtensionWords(form, form.extensions[e], fields, operands)
  {
    hide IsSingleWordMode, IsLongAddressMode, IsImmediateMode, IsIndexMode, Low16, High16, Low8, FitsAbsoluteWord,
         FullExtensionWord, DisplacementWords, ResolveSizeSuffix, FormSizeBytesOf, IndexWord.UsesFull, BriefExtensionWord;
    SuffixIgnoresValue(form, operands, k, value, Bare, CPU_ANY);
    if form.extensions[e].operandIndex == k {
      assert SameWords(form, e, fields, operands[k], operands[k].value, value);
      BriefIgnoresHighBits(operands[k].index, operands[k].value, value);
    }
  }

  lemma BriefIgnoresHighBits(index: IndexWord, a: Long, b: Long)
    ensures Low8(a) == Low8(b) ==> BriefExtensionWord(index, a) == BriefExtensionWord(index, b)
  {
    hide Low8, BriefExtensionWord, WithFormat;
    BriefWordIs(index, a);
    BriefWordIs(index, b);
    if Low8(a) == Low8(b) { assert WithFormat(index, Low8(a) as Word) == WithFormat(index, Low8(b) as Word); }
  }

  lemma {:induction false} EmittedIgnoresValue(form: Form, fields: seq<Word>, operands: seq<Operand>, k: nat, value: Long,
                                               capacity: nat, count: nat)
    requires StructureOk(form) && |fields| == |form.patches| && k < |operands| == |form.operandKinds|
    requires SameExtensions(form, k, fields, operands[k], operands[k].value, value) && count <= |form.extensions|
    ensures EmittedWords(form, fields, WithValue(operands, k, value), capacity, count)
            == EmittedWords(form, fields, operands, capacity, count)
  {
    hide ExtensionWords, FixedWord, SameExtensions, WithValue;
    if count > 0 {
      EmittedIgnoresValue(form, fields, operands, k, value, capacity, count - 1);
      ExtensionIgnoresValue(form, fields, operands, k, value, count - 1);
    }
  }

  lemma BytesIgnoreValue(form: Form, fields: seq<Word>, operands: seq<Operand>, k: nat, value: Long, maxBytes: nat)
    requires StructureOk(form) && |fields| == |form.patches| && k < |operands| == |form.operandKinds|
    requires SameExtensions(form, k, fields, operands[k], operands[k].value, value)
    ensures AssembledBytes(form, fields, WithValue(operands, k, value), maxBytes)
            == AssembledBytes(form, fields, operands, maxBytes)
  {
    hide EmittedWords, FixedWord, BytesOf, SameExtensions, WithValue;
    EmittedIgnoresValue(form, fields, operands, k, value, MAX_EXTENSION_WORDS, |form.extensions|);
  }

  // ---------- the cut ----------

  /** The displacement of operand `k` is a byte in the opword. */
  predicate InByteField(form: Form, told: Suffix, k: nat) {
    told.SizeB? && exists i :: 0 <= i < |form.patches| && form.patches[i].operandIndex == k && form.patches[i].kind.Displacement8?
  }

  predicate InIndexWord(form: Form, k: nat, operand: Operand) {
    operand.eaReg == 3 && exists e :: 0 <= e < |form.extensions| && form.extensions[e].operandIndex == k && form.extensions[e].kind.EaIndex?
  }

  /** What the instruction keeps of a displacement: a word, or a byte in a byte branch or a brief index
      word. The full index format has no place for it. */
  function CutValue(form: Form, told: Suffix, k: nat, operand: Operand): Long {
    if operand.kind.Label? then
      if InByteField(form, told, k) then SignExtend8(Low8(operand.value)) else SignExtend16(Low16(operand.value))
    else if !InIndexWord(form, k, operand) then SignExtend16(Low16(operand.value))
    else if operand.index.UsesFull() then 0
    else SignExtend8(Low8(operand.value))
  }

  lemma LowUnderHigh(word: Word)
    ensures Low16(word as Long) == word
    ensures Low16(word as Long | 0xFFFF_0000) == word
  {
  }

  lemma SignedWordIs(word: Word)
    ensures SignExtend16(word) == word as Long || SignExtend16(word) == word as Long | 0xFFFF_0000
  {
    var value := word as Long;
    assert value & 0xFFFF == value;
    assert !(0xFFFF as Long) == 0xFFFF_0000;
  }

  lemma SignedWord(word: Word)
    ensures Low16(SignExtend16(word)) == word
  {
    LowUnderHigh(word);
    SignedWordIs(word);
    hide Low16, SignExtend16;
  }

  lemma SignedByte(byte: Byte)
    ensures Low8(SignExtend8(byte)) == byte
  {
  }

  lemma ByteOfWord(value: Long)
    ensures Low8(value) == ToByte(Low16(value))
  {
  }

  lemma CutKeeps(value: Long)
    ensures Low16(SignExtend16(Low16(value))) == Low16(value) && Low8(SignExtend16(Low16(value))) == Low8(value)
    ensures Low8(SignExtend8(Low8(value))) == Low8(value)
  {
    hide Low16, Low8, SignExtend16, SignExtend8, ToByte;
    SignedWord(Low16(value));
    SignedByte(Low8(value));
    ByteOfWord(value);
    ByteOfWord(SignExtend16(Low16(value)));
  }

  /** The label or program-counter relative operand at `k` is one of a well-formed row. */
  predicate Hosts(form: Form, k: nat, operand: Operand) {
    && StructureOk(form) && BranchOk(form) && ExtensionsOk(form) && k < |form.operandKinds|
    && NamesTarget(operand)
    && (operand.kind.Label? <==> form.operandKinds[k].Label?)
    && forall i :: 0 <= i < |form.patches| && form.patches[i].operandIndex == k ==> !form.patches[i].source.ValueHi16?
  }

  lemma CutKeepsFields(form: Form, told: Suffix, suffix: Suffix, k: nat, operand: Operand)
    requires Hosts(form, k, operand) && (form.HasField(Displacement8) ==> told == suffix)
    ensures SameFields(form, suffix, k, operand.value, CutValue(form, told, k, operand))
  {
    hide Low16, Low8, High16, SignExtend16, SignExtend8, StructureOk, WidthMask, IndexWord.UsesFull;
    CutKeeps(operand.value);
    forall i | 0 <= i < |form.patches| && form.patches[i].operandIndex == k
      ensures SameField(form.patches[i], suffix, operand.value, CutValue(form, told, k, operand))
    {
    }
  }

  /** The byte in the opword is no signal, so that no word follows it. */
  predicate ByteShows(form: Form, k: nat, fields: seq<Word>)
    requires StructureOk(form) && |fields| == |form.patches|
  {
    forall e :: 0 <= e < |form.extensions| && form.extensions[e].operandIndex == k ==>
      (form.extensions[e].kind.LabelDisp16IfZero? ==> fields[form.extensions[e].patchIndex] != 0)
  }

  lemma CutKeepsWords(form: Form, told: Suffix, k: nat, operand: Operand, fields: seq<Word>)
    requires Hosts(form, k, operand) && |fields| == |form.patches|
    requires InByteField(form, told, k) ==> ByteShows(form, k, fields)
    ensures SameExtensions(form, k, fields, operand, operand.value, CutValue(form, told, k, operand))
  {
    hide Low16, Low8, High16, SignExtend16, SignExtend8, WidthMask, IndexWord.UsesFull;
    CutKeeps(operand.value);
    forall e | 0 <= e < |form.extensions| && form.extensions[e].operandIndex == k
      ensures SameWords(form, e, fields, operand, operand.value, CutValue(form, told, k, operand))
    {
    }
  }

  // ---------- the cut instruction ----------

  function WithOperandValue(instruction: Instruction, k: nat, value: Long): (changed: Instruction)
    requires k < |instruction.operands|
    ensures |changed.operands| == |instruction.operands|
  {
    var operand := instruction.operands[k];
    instruction.(operands := instruction.operands[k := operand.(value := operand.value.(value := value))])
  }

  lemma ChangedValues(instruction: Instruction, k: nat, value: Long)
    requires k < |instruction.operands| && PlainOperand(instruction.operands[k]) && NamesTarget(instruction.operands[k].value)
    ensures EncodedValues(WithOperandValue(instruction, k, value)) == WithValue(EncodedValues(instruction), k, value)
    ensures EncodedValues(instruction)[k] == instruction.operands[k].value
  {
    hide WithReversedMask, IsPcMode, ToAsmValue;
    var changed := WithOperandValue(instruction, k, value);
    PlainAsmValue(instruction.operands[k]);
    PlainAsmValue(changed.operands[k]);
    assert UsesTurnedMask(changed) == UsesTurnedMask(instruction) by { TargetIsNoMask(instruction, k, value); }
    TargetIsNoMask(instruction, k, value);
  }

  lemma TargetIsNoMask(instruction: Instruction, k: nat, value: Long)
    requires k < |instruction.operands| && PlainOperand(instruction.operands[k]) && NamesTarget(instruction.operands[k].value)
    ensures UsesTurnedMask(WithOperandValue(instruction, k, value)) == UsesTurnedMask(instruction)
    ensures UsesTurnedMask(instruction) ==> k != 0 && k != 1
  {
  }

  lemma ByteOfSurvivor(form: Form, told: Suffix, suffix: Suffix, operands: seq<Operand>, fields: seq<Word>, k: nat)
    requires WellFormed(form) && |operands| == |form.operandKinds| && BranchTold(form, told, operands)
    requires (form.HasField(Displacement8) ==> told == suffix) && Encodes(form, suffix, operands, fields)
    requires k < |operands| && InByteField(form, told, k)
    ensures |fields| == |form.patches| && ByteShows(form, k, fields)
  {
    hide WordsOk, SizesOk, ExtensionsOk, MovemOk, KindsOk, WidthMask, Low16, High16;
    forall e | 0 <= e < |form.extensions| && form.extensions[e].operandIndex == k && form.extensions[e].kind.LabelDisp16IfZero?
      ensures fields[form.extensions[e].patchIndex] != 0
    {
      var i := form.extensions[e].patchIndex;
      assert FieldValue(form, form.patches[i], suffix, operands) == Ok(fields[i]);
      ByteOfField(Low8(operands[k].value));
    }
  }

  lemma ResolvesOnce(form: Form, operands: seq<Operand>, explicit: Suffix)
    ensures ResolveSizeSuffix(form, operands, ResolveSizeSuffix(form, operands, explicit, CPU_ANY), CPU_ANY)
            == ResolveSizeSuffix(form, operands, explicit, CPU_ANY)
  {
    hide EffectiveSizeMaskForOperands;
  }

  lemma KindsIgnoreValue(form: Form, instruction: Instruction, k: nat, value: Long)
    requires k < |instruction.operands|
    ensures KindsFit(form, WithOperandValue(instruction, k, value).operands) <==> KindsFit(form, instruction.operands)
  {
    hide IsLongAddressMode;
    var changed := WithOperandValue(instruction, k, value);
    forall i: nat, kind: OperandKind | i < |instruction.operands|
      ensures MatchesFormKind(changed.operands[i], kind) <==> MatchesFormKind(instruction.operands[i], kind)
    {
    }
  }

  /** The fields and words of the operand do not tell the two values apart, in whatever the fields hold. */
  predicate Indistinct(form: Form, chosen: Suffix, k: nat, operand: Operand, value: Long, fields: seq<Word>)
    requires StructureOk(form)
  {
    && SameFields(form, chosen, k, operand.value, value)
    && |fields| == |form.patches| && SameExtensions(form, k, fields, operand, operand.value, value)
  }

  /** The encoder's fields for an instruction of a row, when it has any. */
  function FieldsFor(form: Form, instruction: Instruction): Result<seq<Word>> {
    var values := EncodedValues(instruction);
    PatchValues(form, ResolveSizeSuffix(form, values, instruction.suffix, CPU_ANY), values, |form.patches|)
  }

  /** The encoder does not tell an instruction from the one with another value that its fields and words
      do not tell apart. */
  lemma EncodesAlike(table: seq<Form>, instruction: Instruction, k: nat, value: Long, maxBytes: nat)
    requires forall i :: 0 <= i < |table| ==> StructureOk(table[i])
    requires k < |instruction.operands| && NamesTarget(instruction.operands[k].value)
    requires var cut := WithOperandValue(instruction, k, value);
             && Encodable(table, cut) && EncodedOne(table, cut, maxBytes).Some?
             && var form := table[cut.formIndex];
                var fields := FieldsFor(form, cut);
                fields.Ok? && Indistinct(form, ResolveSizeSuffix(form, EncodedValues(cut), cut.suffix, CPU_ANY), k,
                                         instruction.operands[k].value, value, fields.value)
    ensures EncodedOne(table, instruction, maxBytes) == EncodedOne(table, WithOperandValue(instruction, k, value), maxBytes)
    ensures ToldOf(table[instruction.formIndex], instruction)
            == ToldOf(table[instruction.formIndex], WithOperandValue(instruction, k, value))
  {
    hide StructureOk, WellFormed, SelectsForm, Normalised, ImmediatesSettled, PatchValues, AssembledBytes, EncodedValues,
         PlainOperand, ToldSuffix, EffectiveSizeMaskForOperands, SameFields, SameExtensions, Selected, NamesTarget,
         ResolveSizeSuffix, WithValue, AllRecognised, DecoderViews, MatchesFormKind, KindsFit;
    var cut := WithOperandValue(instruction, k, value);
    var form := table[instruction.formIndex];
    EncodableParts(table, cut);
    EncodedParts(table, cut, maxBytes);
    NamedRow(form);
    PlainBefore(instruction, k, value);
    ChangedValues(instruction, k, value);
    KindsIgnoreValue(form, instruction, k, value);
    var values, cuts := EncodedValues(instruction), EncodedValues(cut);
    SuffixIgnoresValue(form, values, k, value, instruction.suffix, CPU_ANY);
    var chosen := ResolveSizeSuffix(form, cuts, cut.suffix, CPU_ANY);
    ResolvesOnce(form, values, instruction.suffix);
    ResolvesOnce(form, cuts, instruction.suffix);
    FieldsIgnoreValue(form, chosen, values, k, value, |form.patches|);
    SelectedIgnoresValue(table, form.mnemonic, values, k, value, chosen, instruction.cpu);
    OwnRowIsSelected(table, cut);
    BytesIgnoreValue(form, FieldsFor(form, cut).value, values, k, value, maxBytes);
  }

  lemma OwnRowIsSelected(table: seq<Form>, instruction: Instruction)
    requires Encodable(table, instruction)
    ensures var form := table[instruction.formIndex];
            var values := EncodedValues(instruction);
            Selected(table, form.mnemonic, values, ResolveSizeSuffix(form, values, instruction.suffix, CPU_ANY), instruction.cpu)
            == Some(instruction.formIndex)
  {
    hide StructureOk, WellFormed, SelectsForm, Normalised, ImmediatesSettled, EncodedValues, PlainOperand, ToldSuffix, KindsFit,
         ResolveSizeSuffix;
    NamedRow(table[instruction.formIndex]);
    var form := table[instruction.formIndex];
    var values := EncodedValues(instruction);
    SelectedIs(table, form.mnemonic, values, ResolveSizeSuffix(form, values, instruction.suffix, CPU_ANY), instruction.cpu,
               Some(instruction.formIndex));
  }

  lemma PlainBefore(instruction: Instruction, k: nat, value: Long)
    requires k < |instruction.operands|
    requires PlainOperand(WithOperandValue(instruction, k, value).operands[k])
    ensures PlainOperand(instruction.operands[k])
  {
  }

  // ---------- exactly when a displacement comes back ----------

  /** The instruction with the displacement of operand `k` cut to what its row keeps of it. */
  function Cut(form: Form, instruction: Instruction, k: nat): Instruction
    requires k < |instruction.operands|
  {
    WithOperandValue(instruction, k, CutValue(form, ToldOf(form, instruction), k, instruction.operands[k].value))
  }

  /** No field of operand `k` holds the upper half of its value. */
  predicate NoUpperHalf(form: Form, k: nat) {
    forall i :: 0 <= i < |form.patches| && form.patches[i].operandIndex == k ==> !form.patches[i].source.ValueHi16?
  }

  /** Cutting a displacement to its field does not change the bytes. */
  lemma CutEncodesAlike(table: seq<Form>, instruction: Instruction, k: nat, maxBytes: nat)
    requires forall i :: 0 <= i < |table| ==> StructureOk(table[i])
    requires instruction.formIndex < |table| && k < |instruction.operands|
    requires NamesTarget(instruction.operands[k].value) && NoUpperHalf(table[instruction.formIndex], k)
    requires var cut := Cut(table[instruction.formIndex], instruction, k);
             Encodable(table, cut) && EncodedOne(table, cut, maxBytes).Some?
    ensures var cut := Cut(table[instruction.formIndex], instruction, k);
            && EncodedOne(table, instruction, maxBytes) == EncodedOne(table, cut, maxBytes)
            && ToldOf(table[instruction.formIndex], instruction) == ToldOf(table[instruction.formIndex], cut)
  {
    hide EncodedOne, EncodedValues, ToldSuffix, ResolveSizeSuffix, SameFields, SameExtensions, CutValue, PatchValues, Encodable,
         InByteField, ByteShows, Hosts, NamesTarget, NoUpperHalf;
    var form := table[instruction.formIndex];
    var operand := instruction.operands[k].value;
    var told := ToldOf(form, instruction);
    var value := CutValue(form, told, k, operand);
    var cut := Cut(form, instruction, k);
    CutShares(form, instruction, k, value);
    CutIsHosted(table, instruction, k, maxBytes);
    var chosen := ResolveSizeSuffix(form, EncodedValues(cut), cut.suffix, CPU_ANY);
    var fields := FieldsFor(form, cut).value;
    CutKeepsFields(form, told, chosen, k, operand);
    CutKeepsWords(form, told, k, operand, fields);
    EncodesAlike(table, instruction, k, value, maxBytes);
  }

  lemma CutShares(form: Form, instruction: Instruction, k: nat, value: Long)
    requires k < |instruction.operands| && NamesTarget(instruction.operands[k].value)
    ensures PlainOperand(WithOperandValue(instruction, k, value).operands[k]) ==>
              ToldOf(form, WithOperandValue(instruction, k, value)) == ToldOf(form, instruction)
  {
    hide EncodedValues, ResolveSizeSuffix, ToldSuffix, WithValue, NamesTarget;
    if PlainOperand(WithOperandValue(instruction, k, value).operands[k]) {
      PlainBefore(instruction, k, value);
      ChangedValues(instruction, k, value);
      SuffixIgnoresValue(form, EncodedValues(instruction), k, value, instruction.suffix, CPU_ANY);
    }
  }

  /** What the cut instruction, being encodable, says of the row and its fields. */
  lemma CutIsHosted(table: seq<Form>, instruction: Instruction, k: nat, maxBytes: nat)
    requires forall i :: 0 <= i < |table| ==> StructureOk(table[i])
    requires instruction.formIndex < |table| && k < |instruction.operands|
    requires NamesTarget(instruction.operands[k].value) && NoUpperHalf(table[instruction.formIndex], k)
    requires var cut := Cut(table[instruction.formIndex], instruction, k);
             Encodable(table, cut) && EncodedOne(table, cut, maxBytes).Some?
    ensures var form := table[instruction.formIndex];
            var cut := Cut(form, instruction, k);
            var chosen := ResolveSizeSuffix(form, EncodedValues(cut), cut.suffix, CPU_ANY);
            var fields := FieldsFor(form, cut);
            && PlainOperand(cut.operands[k]) && Hosts(form, k, instruction.operands[k].value)
            && (form.HasField(Displacement8) ==> ToldOf(form, instruction) == chosen)
            && fields.Ok? && |fields.value| == |form.patches|
            && (InByteField(form, ToldOf(form, instruction), k) ==> ByteShows(form, k, fields.value))
  {
    hide EncodedValues, ResolveSizeSuffix, PatchValues, CutValue, EncodedOne, InByteField, ByteShows, WellFormed, Encodable,
         StructureOk, NoUpperHalf, NamesTarget, ToldSuffix, BranchTold, Hosts, PlainOperand;
    var form := table[instruction.formIndex];
    var cut := Cut(form, instruction, k);
    var value := CutValue(form, ToldOf(form, instruction), k, instruction.operands[k].value);
    EncodedParts(table, cut, maxBytes);
    RowOfEncodable(table, cut);
    PlainBefore(instruction, k, value);
    CutShares(form, instruction, k, value);
    HostOfTarget(form, cut, instruction, k, value);
    ToldIsChosen(form, ResolveSizeSuffix(form, EncodedValues(cut), cut.suffix, CPU_ANY));
    if InByteField(form, ToldOf(form, instruction), k) {
      ByteFieldIsField(form, ToldOf(form, instruction), k);
      SameBranch(form, ToldOf(form, cut), EncodedValues(cut));
      ByteOfSurvivor(form, ToldOf(form, cut), ResolveSizeSuffix(form, EncodedValues(cut), cut.suffix, CPU_ANY),
                     EncodedValues(cut), FieldsFor(form, cut).value, k);
    }
  }

  lemma RowOfEncodable(table: seq<Form>, instruction: Instruction)
    requires forall i :: 0 <= i < |table| ==> StructureOk(table[i])
    requires Encodable(table, instruction)
    ensures instruction.formIndex < |table|
    ensures var form := table[instruction.formIndex];
            && WellFormed(form) && |EncodedValues(instruction)| == |form.operandKinds| && KindsFit(form, instruction.operands)
            && (forall i :: 0 <= i < |instruction.operands| ==> PlainOperand(instruction.operands[i]))
            && BranchTold(form, ToldOf(form, instruction), DecoderViews(form, EncodedValues(instruction)))
  {
    hide SelectsForm, ImmediatesSettled, EncodedValues, ResolveSizeSuffix, KindsMatch, PatchesInRange, E.ExtensionsExpressible,
         NothingLost, EaModeAllowed, BranchTold, WordsOk, SizesOk, BranchOk, ExtensionsOk, MovemOk, KindsOk, StructureOk,
         ToldSuffix, MatchesFormKind, PlainOperand;
  }

  lemma ToldIsChosen(form: Form, chosen: Suffix)
    ensures form.HasField(Displacement8) ==> ToldSuffix(form, chosen) == chosen
  {
    hide SuffixOfSingleSize;
  }

  lemma ByteFieldIsField(form: Form, told: Suffix, k: nat)
    requires InByteField(form, told, k)
    ensures form.HasField(Displacement8)
  {
  }

  lemma SameBranch(form: Form, told: Suffix, values: seq<Operand>)
    requires StructureOk(form) && |values| == |form.operandKinds|
    requires BranchTold(form, told, DecoderViews(form, values))
    ensures BranchTold(form, told, values)
  {
    hide LowByteIs;
    forall i | 0 <= i < |form.patches| && form.patches[i].kind.Displacement8? && 0 <= form.patches[i].operandIndex
      ensures DecoderViews(form, values)[form.patches[i].operandIndex].value == values[form.patches[i].operandIndex].value
    {
    }
  }

  lemma HostOfTarget(form: Form, cut: Instruction, instruction: Instruction, k: nat, value: Long)
    requires WellFormed(form) && k < |instruction.operands| && cut == WithOperandValue(instruction, k, value)
    requires KindsFit(form, cut.operands) && PlainOperand(cut.operands[k]) && PlainOperand(instruction.operands[k])
    requires NamesTarget(instruction.operands[k].value) && NoUpperHalf(form, k)
    ensures Hosts(form, k, instruction.operands[k].value)
  {
    hide WordsOk, SizesOk, BranchOk, ExtensionsOk, MovemOk, KindsOk, StructureOk, IsPcMode, IsLongAddressMode;
    assert MatchesFormKind(cut.operands[k], form.operandKinds[k]);
  }

  /** The displacement of operand `k` fits what its row has for it. */
  predicate Fits(form: Form, told: Suffix, k: nat, operand: Operand) {
    if operand.kind.Label? then
      if InByteField(form, told, k) then FitsSignedByte(operand.value) else FitsSignedWord(operand.value)
    else if !InIndexWord(form, k, operand) then FitsSignedWord(operand.value)
    else if operand.index.UsesFull() then operand.value == 0
    else FitsSignedByte(operand.value)
  }

  /** The cut displacement leads to the target exactly when there was nothing to cut. */
  lemma CutLeads(form: Form, told: Suffix, k: nat, operand: Operand, target: Long, place: Long)
    requires operand.value == Minus(target, place)
    ensures Plus(place, CutValue(form, told, k, operand)) == target <==> Fits(form, told, k, operand)
  {
    hide InByteField, InIndexWord, IndexWord.UsesFull, SignExtend16, SignExtend8, Low16, Low8, Plus, Minus;
    FieldKeepsTarget(target, place);
    PlusAndMinus(target, place, 0);
  }

  /** Reading the cut displacement back as a word does not change it. */
  lemma CutIsSettled(form: Form, told: Suffix, k: nat, operand: Operand)
    requires !operand.kind.Label? && operand.eaReg == 2
    ensures SignExtend16(Low16(CutValue(form, told, k, operand))) == CutValue(form, told, k, operand)
  {
    hide SignExtend16, SignExtend8, Low16, Low8, InByteField, IndexWord.UsesFull;
    SignedWord(Low16(operand.value));
  }

  lemma ChangeKeepsPlace(form: Form, instruction: Instruction, k: nat, value: Long, offset: nat)
    requires k < |instruction.operands|
    ensures PlaceOf(form, WithOperandValue(instruction, k, value), k, offset) == PlaceOf(form, instruction, k, offset)
    ensures forall target: Long, sectionSize: nat ::
              InReach(form, WithOperandValue(instruction, k, value), k, target, offset, sectionSize)
              <==> InReach(form, instruction, k, target, offset, sectionSize)
  {
    hide RelativeBaseOf, Plus, Wrapped;
    var changed := WithOperandValue(instruction, k, value);
    assert ValuesOf(changed.operands)[..k] == ValuesOf(instruction.operands)[..k];
    BaseOfPrefix(form, ValuesOf(changed.operands), ValuesOf(instruction.operands), instruction.suffix, k);
  }

  lemma ChangeKeepsBase(form: Form, instruction: Instruction, told: Suffix, k: nat, value: Long)
    requires |form.operandKinds| == |instruction.operands| && k < |instruction.operands|
    requires BaseSettled(form, instruction, told, k)
    ensures BaseSettled(form, WithOperandValue(instruction, k, value), told, k)
  {
    hide OperandWordCount;
    forall i | 0 <= i < k
      ensures WithOperandValue(instruction, k, value).operands[i] == instruction.operands[i]
    {
    }
  }

  /** A reference to any target is resolved and the instruction encoded, whatever its displacement: the
      bytes are those of the cut displacement, and the collector finds the target again exactly when
      the displacement fits and the target is in reach. */
  lemma DisplacementExactly(table: seq<Form>, context: Context, instruction: Instruction, references: seq<Option<Reference>>,
                            k: nat, offset: nat, sectionSize: nat, maxBytes: nat, rest: seq<Byte>)
    requires forall i :: 0 <= i < |table| ==> StructureOk(table[i])
    requires Names(instruction, references, k) && instruction.formIndex < |table|
    requires context.form == table[instruction.formIndex] && context.suffix == instruction.suffix
    requires offset < ADDRESS_LIMIT && context.offset == Wrapped(offset)
    requires !instruction.operands[k].value.kind.BfEa? && NoUpperHalf(context.form, k)
    requires Resolved(context, instruction, references).Some?
    requires var resolved := Resolved(context, instruction, references).value;
             && k < |resolved.operands| == |context.form.operandKinds|
             && Survives(table, Cut(context.form, resolved, k), maxBytes, |rest|)
             && BaseSettled(context.form, resolved, ToldOf(context.form, resolved), k)
    ensures var resolved := Resolved(context, instruction, references).value;
            var target := TargetOf(references[k].value, context.allowUndefined);
            var bytes := EncodedOne(table, resolved, maxBytes);
            && target.Some? && bytes.Some?
            && bytes == EncodedOne(table, Cut(context.form, resolved, k), maxBytes)
            && var decoded := DecodedAs(context.form, bytes.value + rest);
               && decoded.Some? && |decoded.value.operands| == |context.form.operandKinds|
               && (CandidateTarget(context.form, decoded.value, k, offset, sectionSize) == target <==>
                     && Fits(context.form, ToldOf(context.form, resolved), k, resolved.operands[k].value)
                     && (resolved.operands[k].value.kind.Label?
                         || InReach(context.form, resolved, k, target.value, offset, sectionSize)))
  {
    hide EncodedOne, StructureOk, KindsOk, DecodedAs, PlainOperand, FromCandidate, CandidateTarget, BaseSettled, PlaceOf,
         ToldOf, Plus, Minus, SignExtend16, Low16, Resolved, TargetOf, Encodable, AllRecognised, IsPcMode, InReach, Fits, CutValue,
         NoUpperHalf;
    ResolvedHolds(context, instruction, references, k, offset);
    ResolvedForm(context, instruction, references);
    var form := context.form;
    var resolved := Resolved(context, instruction, references).value;
    var operand := resolved.operands[k].value;
    var target := TargetOf(references[k].value, context.allowUndefined).value;
    var told := ToldOf(form, resolved);
    var value := CutValue(form, told, k, operand);
    var cut := Cut(form, resolved, k);
    CutEncodesAlike(table, resolved, k, maxBytes);
    SurvivorIsTakenOver(table, cut, maxBytes, rest);
    ChangeKeepsBase(form, resolved, told, k, value);
    ChangeKeepsPlace(form, resolved, k, value, offset);
    var decoded := DecodedAs(form, EncodedOne(table, cut, maxBytes).value + rest).value;
    CollectedTarget(form, cut, decoded, k, offset, sectionSize);
    CutLeads(form, told, k, operand, target, PlaceOf(form, resolved, k, offset));
    if !operand.kind.Label? && operand.eaReg == 2 { CutIsSettled(form, told, k, operand); }
  }
}
