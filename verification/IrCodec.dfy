/** Instructions of the analysis: how operands are brought into the assembler's form, encoded, and
    taken over again from the decoder's candidate. */
module IrCodec {
  import opened Wrappers
  import opened Words
  import opened FormTable
  import opened RegisterMask
  import opened Assembler
  import opened Disassembler
  import opened FieldRoundTrip
  import opened PatchRoundTrip
  import opened SizeRoundTrip
  import opened InstructionRoundTrip
  import E = ExtensionRoundTrip

  datatype OperandIR = OperandIR(kind: OperandKind, value: Operand)

  /** An instruction names its form by its index; the row without a mnemonic means that none is known. */
  datatype Instruction = Instruction(mnemonic: Mnemonic, formIndex: nat, suffix: Suffix, cpu: nat, operands: seq<OperandIR>)

  predicate MatchesFormKind(operand: OperandIR, kind: OperandKind) {
    match kind
    case Ind => operand.kind.Ea? && operand.value.eaMode == 2
    case Postinc => operand.kind.Ea? && operand.value.eaMode == 3
    case Predec => operand.kind.Ea? && operand.value.eaMode == 4
    case Absl => operand.kind.Ea? && operand.value.LongAddressMode()
    case Ea => operand.kind.Ea? || operand.kind.Ind? || operand.kind.Postinc? || operand.kind.Predec? || operand.kind.Absl?
    case _ => operand.kind == kind
  }

  function ToAsmValue(operand: OperandIR): Operand {
    var value := operand.value.(kind := operand.kind);
    match operand.kind
    case Ind => value.(kind := Ea, eaMode := 2)
    case Postinc => value.(kind := Ea, eaMode := 3)
    case Predec => value.(kind := Ea, eaMode := 4, eaReg := operand.value.reg)
    case Absl => value.(kind := Ea, eaMode := 7, eaReg := 1)
    case _ => value
  }

  function AsmValues(operands: seq<OperandIR>): (values: seq<Operand>)
    ensures |values| == |operands|
  {
    seq(|operands|, k requires 0 <= k < |operands| => ToAsmValue(operands[k]))
  }

  /** An operand of the decoder's candidate as the analysis keeps it. */
  function FromCandidate(kind: OperandKind, value: Operand): OperandIR {
    match kind
    case Ind => OperandIR(Ea, value.(kind := Ea, eaMode := 2))
    case Postinc => OperandIR(Ea, value.(kind := Ea, eaMode := 3))
    case Predec => OperandIR(Ea, value.(kind := Ea, eaMode := 4))
    case Absl => OperandIR(Ea, value.(kind := Ea, eaMode := 7, eaReg := 1))
    case _ => OperandIR(kind, value)
  }

  /** The candidate that one form makes of the bytes, as an instruction. */
  function CandidateInstruction(form: Form, formIndex: nat, cpu: nat, decoded: Decoded): Instruction
    requires |decoded.operands| == |form.operandKinds|
  {
    Instruction(form.mnemonic, formIndex, decoded.suffix, cpu,
      seq(|decoded.operands|, k requires 0 <= k < |decoded.operands| =>
        FromCandidate(form.operandKinds[k], decoded.operands[k])))
  }

  // ---------- encoding ----------

  const PATCH_VALUE_SLOTS: nat := 32

  /** The row that the table search finds, if there is one. */
  ghost function Selected(table: seq<Form>, mnemonic: Mnemonic, operands: seq<Operand>, suffix: Suffix, cpu: nat)
    : (found: Option<nat>)
    ensures found.Some? ==> found.value < |table| && SelectsForm(table, mnemonic, operands, suffix, cpu, found.value)
    ensures found.None? ==> mnemonic.NoMnemonic? || forall f: nat :: !SelectsForm(table, mnemonic, operands, suffix, cpu, f)
  {
    if !mnemonic.NoMnemonic? && exists f: nat :: SelectsForm(table, mnemonic, operands, suffix, cpu, f) then
      var f: nat :| SelectsForm(table, mnemonic, operands, suffix, cpu, f);
      Some(f)
    else None
  }

  ghost function FormOf(table: seq<Form>, instruction: Instruction): Option<nat>
    requires instruction.formIndex < |table|
  {
    if !table[instruction.formIndex].mnemonic.NoMnemonic? then Some(instruction.formIndex)
    else Selected(table, instruction.mnemonic, AsmValues(instruction.operands), instruction.suffix, instruction.cpu)
  }

  predicate KindsFit(form: Form, operands: seq<OperandIR>) {
    && |operands| == |form.operandKinds|
    && forall k :: 0 <= k < |operands| ==> MatchesFormKind(operands[k], form.operandKinds[k])
  }

  predicate UsesTurnedMask(instruction: Instruction) {
    && instruction.mnemonic.Movem? && |instruction.operands| == 2
    && instruction.operands[0].kind.Reglist? && instruction.operands[1].kind.Ea?
    && instruction.operands[1].value.eaMode == 4
  }

  /** The operand values that the assembler gets. */
  function EncodedValues(instruction: Instruction): (values: seq<Operand>)
    ensures |values| == |instruction.operands|
  {
    var values := AsmValues(instruction.operands);
    if UsesTurnedMask(instruction) then values[0 := WithReversedMask(values[0])] else values
  }

  /** The bytes of an instruction, or None when it cannot be encoded. */
  ghost function EncodedOne(table: seq<Form>, instruction: Instruction, maxBytes: nat): Option<seq<Byte>>
    requires forall i :: 0 <= i < |table| ==> StructureOk(table[i])
    requires instruction.formIndex < |table|
  {
    var found := FormOf(table, instruction);
    if found.None? || !KindsFit(table[found.value], instruction.operands)
       || |table[found.value].patches| > PATCH_VALUE_SLOTS then None
    else
      var form := table[found.value];
      var values := EncodedValues(instruction);
      var chosen := ResolveSizeSuffix(form, values, instruction.suffix, CPU_ANY);
      var fields := PatchValuesOf(form, chosen, values);
      if fields.Err? then None
      else
        var row := Selected(table, form.mnemonic, values, chosen, instruction.cpu);
        if row.None? then None
        else
          match AssembledBytes(table[row.value], fields.value, values, maxBytes)
          case Err(_) => None
          case Ok(bytes) => Some(bytes)
  }

  lemma SelectedIs(table: seq<Form>, mnemonic: Mnemonic, operands: seq<Operand>, suffix: Suffix, cpu: nat,
                   found: Option<nat>)
    requires found.Some? ==> !mnemonic.NoMnemonic? && SelectsForm(table, mnemonic, operands, suffix, cpu, found.value)
    requires found.None? ==> mnemonic.NoMnemonic? || forall i: nat :: !SelectsForm(table, mnemonic, operands, suffix, cpu, i)
    ensures Selected(table, mnemonic, operands, suffix, cpu) == found
  {
    hide SelectsForm;
    if found.Some? {
      SelectionIsUnique(table, mnemonic, operands, suffix, cpu, found.value,
                        Selected(table, mnemonic, operands, suffix, cpu).value);
    }
  }

  lemma AssembledSize(form: Form, fields: seq<Word>, operands: seq<Operand>, maxBytes: nat)
    requires StructureOk(form) && AssembledBytes(form, fields, operands, maxBytes).Ok?
    ensures 2 <= |AssembledBytes(form, fields, operands, maxBytes).value| <= maxBytes
  {
    hide EmittedWordsOf, FixedWord;
  }

  /** The number of bytes written, 0 when the instruction cannot be encoded. */
  method EncodeOne(table: seq<Form>, instruction: Instruction, outBytes: array<Byte>) returns (byteCount: nat)
    requires forall i :: 0 <= i < |table| ==> StructureOk(table[i])
    requires instruction.formIndex < |table|
    modifies outBytes
    ensures match EncodedOne(table, instruction, outBytes.Length)
            case None => byteCount == 0
            case Some(bytes) => 2 <= byteCount == |bytes| <= outBytes.Length && outBytes[..byteCount] == bytes
  {
    hide StructureOk, PatchValuesOf, AssembledBytes, ResolveSizeSuffix, SelectsForm, WithReversedMask, ToAsmValue;
    var values := AsmValues(instruction.operands);
    var index := instruction.formIndex;
    if table[index].mnemonic.NoMnemonic? {
      var found := FormIndexForOperands(table, instruction.mnemonic, values, instruction.suffix, instruction.cpu);
      SelectedIs(table, instruction.mnemonic, values, instruction.suffix, instruction.cpu, found);
      if found.None? { return 0; }
      index := found.value;
    }
    var form := table[index];
    if |instruction.operands| != |form.operandKinds| { return 0; }
    for k := 0 to |instruction.operands|
      invariant forall j :: 0 <= j < k ==> MatchesFormKind(instruction.operands[j], form.operandKinds[j])
    {
      if !MatchesFormKind(instruction.operands[k], form.operandKinds[k]) { return 0; }
    }
    if UsesTurnedMask(instruction) {
      var turned := ReverseMaskOf(values[0]);
      values := values[0 := turned];
    }
    assert values == EncodedValues(instruction);
    var chosen := ResolveSizeSuffix(form, values, instruction.suffix, CPU_ANY);
    if |form.patches| > PATCH_VALUE_SLOTS { return 0; }
    var fields := new Word[PATCH_VALUE_SLOTS];
    var built := BuildPatchValues(form, chosen, values, fields);
    if built != 0 { return 0; }
    var code, count := AssembleInstruction(table, form.mnemonic, chosen, instruction.cpu, fields[..|form.patches|], values,
                                           outBytes);
    var row := Selected(table, form.mnemonic, values, chosen, instruction.cpu);
    if code != 0 { return 0; }
    AssembledSize(table[row.value], fields[..|form.patches|], values, outBytes.Length);
    return count;
  }

  // ---------- the decoder's view of an instruction ----------

  /** An operand as the decoder leaves it: the mode of a postincrement operand is not in its bits. */
  function DecoderView(kind: OperandKind, value: Operand): Operand {
    if kind.Postinc? then value.(eaMode := 0) else value
  }

  function DecoderViews(form: Form, values: seq<Operand>): (views: seq<Operand>)
    requires |values| == |form.operandKinds|
    ensures |views| == |values|
  {
    seq(|values|, k requires 0 <= k < |values| => DecoderView(form.operandKinds[k], values[k]))
  }

  /** An operand of the analysis whose kind is that of its value and of no addressing mode. */
  predicate PlainOperand(operand: OperandIR) {
    && operand.kind == operand.value.kind
    && !operand.kind.Ind? && !operand.kind.Postinc? && !operand.kind.Predec? && !operand.kind.Absl?
  }

  lemma PlainAsmValue(operand: OperandIR)
    requires PlainOperand(operand)
    ensures ToAsmValue(operand) == operand.value
  {
  }

  /** Taking over the decoder's view of a fitting operand gives the operand back. */
  lemma ViewIsUndone(kind: OperandKind, operand: OperandIR)
    requires PlainOperand(operand) && MatchesFormKind(operand, kind)
    ensures FromCandidate(kind, DecoderView(kind, operand.value)) == operand
  {
  }

  /** Direct decoding keeps the kinds of the form, and the encoder refuses four of them: such an
      instruction passes the kind check exactly when its form has none of the four. */
  lemma DirectOperandsFit(form: Form, values: seq<Operand>)
    requires |values| == |form.operandKinds|
    ensures KindsFit(form, seq(|values|, k requires 0 <= k < |values| => OperandIR(form.operandKinds[k], values[k])))
            <==> forall k :: 0 <= k < |form.operandKinds| ==>
                   var kind := form.operandKinds[k];
                   !kind.Ind? && !kind.Postinc? && !kind.Predec? && !kind.Absl?
  {
    hide IsLongAddressMode;
    var operands := seq(|values|, k requires 0 <= k < |values| => OperandIR(form.operandKinds[k], values[k]));
    forall k | 0 <= k < |values|
      ensures MatchesFormKind(operands[k], form.operandKinds[k])
              <==> var kind := form.operandKinds[k]; !kind.Ind? && !kind.Postinc? && !kind.Predec? && !kind.Absl?
    {
    }
  }

  // ---------- the mode of a postincrement operand is not encoded ----------

  /** The two operands differ at most in the mode of a postincrement operand. */
  predicate SameButMode(kind: OperandKind, value: Operand, view: Operand) {
    && view == DecoderView(kind, value)
    && (kind.Postinc? ==> value.kind.Ea? && value.eaMode == 3)
  }

  predicate ViewOf(form: Form, values: seq<Operand>, views: seq<Operand>) {
    && |values| == |views| == |form.operandKinds|
    && forall k :: 0 <= k < |values| ==> SameButMode(form.operandKinds[k], values[k], views[k])
  }

  /** Neither mode of a postincrement operand brings an extension. */
  lemma ModesWithoutWords(reg: Byte)
    ensures !IsSingleWordMode(0, reg) && !IsLongAddressMode(0, reg) && !IsImmediateMode(0, reg) && !IsIndexMode(0, reg)
    ensures !IsSingleWordMode(3, reg) && !IsLongAddressMode(3, reg) && !IsImmediateMode(3, reg) && !IsIndexMode(3, reg)
  {
  }

  lemma PatchIgnoresMode(form: Form, values: seq<Operand>, views: seq<Operand>, suffix: Suffix, i: nat)
    requires StructureOk(form) && KindsOk(form) && ViewOf(form, values, views) && i < |form.patches|
    ensures FieldValue(form, form.patches[i], suffix, values) == FieldValue(form, form.patches[i], suffix, views)
  {
    hide Low8, Low16, High16;
    var k := form.patches[i].operandIndex;
    if 0 <= k { assert SameButMode(form.operandKinds[k], values[k], views[k]); }
  }

  lemma {:induction false} PatchesIgnoreMode(form: Form, values: seq<Operand>, views: seq<Operand>, suffix: Suffix,
                                             count: nat)
    requires StructureOk(form) && KindsOk(form) && ViewOf(form, values, views) && count <= |form.patches|
    ensures PatchValues(form, suffix, values, count) == PatchValues(form, suffix, views, count)
  {
    hide FieldValue, ViewOf, KindsOk;
    if count > 0 {
      PatchesIgnoreMode(form, values, views, suffix, count - 1);
      PatchIgnoresMode(form, values, views, suffix, count - 1);
    }
  }

  lemma {:induction false} NarrowingIgnoresMode(form: Form, values: seq<Operand>, views: seq<Operand>, mask: Byte, k: nat)
    requires ViewOf(form, values, views)
    ensures NarrowedSizeMask(form, values, mask, k) == NarrowedSizeMask(form, views, mask, k)
    decreases |values| - k
  {
    hide ViewOf;
    if k < |values| && k < |form.operandKinds| {
      ViewAt(form, values, views, k);
      NarrowingIgnoresMode(form, values, views, mask, k + 1);
    }
    ViewLength(form, values, views);
  }

  lemma ViewAt(form: Form, values: seq<Operand>, views: seq<Operand>, k: nat)
    requires ViewOf(form, values, views) && k < |values|
    ensures k < |form.operandKinds| && k < |views| && SameButMode(form.operandKinds[k], values[k], views[k])
  {
    hide SameButMode;
  }

  lemma ViewLength(form: Form, values: seq<Operand>, views: seq<Operand>)
    requires ViewOf(form, values, views)
    ensures |values| == |views| == |form.operandKinds|
  {
  }

  lemma SuffixIgnoresMode(form: Form, values: seq<Operand>, views: seq<Operand>, explicit: Suffix)
    requires ViewOf(form, values, views)
    ensures ResolveSizeSuffix(form, values, explicit, CPU_ANY) == ResolveSizeSuffix(form, views, explicit, CPU_ANY)
  {
    hide ViewOf, NarrowedSizeMask;
    NarrowingIgnoresMode(form, values, views, form.EffectiveSizeMaskForCpu(CPU_ANY), 0);
  }

  lemma ExtensionIgnoresMode(form: Form, values: seq<Operand>, views: seq<Operand>, fields: seq<Word>, e: nat)
    requires StructureOk(form) && ViewOf(form, values, views) && |fields| == |form.patches| && e < |form.extensions|
    ensures ExtensionWords(form, form.extensions[e], fields, values) == ExtensionWords(form, form.extensions[e], fields, views)
  {
    hide ViewOf, IsSingleWordMode, IsLongAddressMode, IsImmediateMode, IsIndexMode, Low16, High16, FitsAbsoluteWord,
         BriefExtensionWord, FullExtensionWord, DisplacementWords, ResolveSizeSuffix, FormSizeBytesOf;
    ViewLength(form, values, views);
    var k := form.extensions[e].operandIndex;
    ViewAt(form, values, views, k);
    SuffixIgnoresMode(form, values, views, Bare);
    ModesWithoutWords(values[k].eaReg);
  }

  lemma {:induction false} EmittedIgnoresMode(form: Form, values: seq<Operand>, views: seq<Operand>, fields: seq<Word>,
                                              capacity: nat, count: nat)
    requires StructureOk(form) && ViewOf(form, values, views) && |fields| == |form.patches| && count <= |form.extensions|
    ensures |values| == |views| == |form.operandKinds|
    ensures EmittedWords(form, fields, values, capacity, count) == EmittedWords(form, fields, views, capacity, count)
  {
    hide ViewOf, ExtensionWords, FixedWord;
    ViewLength(form, values, views);
    if count > 0 {
      EmittedIgnoresMode(form, values, views, fields, capacity, count - 1);
      ExtensionIgnoresMode(form, values, views, fields, count - 1);
    }
  }

  /** The bytes do not depend on the mode of a postincrement operand. */
  lemma BytesIgnoreMode(form: Form, values: seq<Operand>, views: seq<Operand>, fields: seq<Word>, maxBytes: nat)
    requires StructureOk(form) && ViewOf(form, values, views) && |fields| == |form.patches|
    ensures AssembledBytes(form, fields, values, maxBytes) == AssembledBytes(form, fields, views, maxBytes)
  {
    hide ViewOf, EmittedWords, FixedWord, BytesOf;
    ViewLength(form, values, views);
    EmittedIgnoresMode(form, values, views, fields, MAX_EXTENSION_WORDS, |form.extensions|);
  }

  // ---------- the round trip of instructions ----------

  /** The candidate decoded at the start of the data is the instruction itself, its suffix told by the bits. */
  predicate Reconstructs(form: Form, instruction: Instruction, told: Suffix, data: seq<Byte>, length: nat)
    requires StructureOk(form)
  {
    match DecodedAs(form, data)
    case None => false
    case Some(decoded) =>
      && |decoded.operands| == |form.operandKinds|
      && CandidateInstruction(form, instruction.formIndex, instruction.cpu, decoded) == instruction.(suffix := told)
      && decoded.byteCount == length
  }

  /** What the instruction must be for its form. */
  predicate Encodable(table: seq<Form>, instruction: Instruction) {
    && instruction.formIndex < |table|
    && var form := table[instruction.formIndex];
       && WellFormed(form)
       && instruction.mnemonic == form.mnemonic
       && KindsFit(form, instruction.operands)
       && (forall k :: 0 <= k < |instruction.operands| ==> PlainOperand(instruction.operands[k]))
       && (UsesTurnedMask(instruction) ==> FitsUnsignedWord(instruction.operands[0].value.value))
       && var values := EncodedValues(instruction);
          var chosen := ResolveSizeSuffix(form, values, instruction.suffix, CPU_ANY);
          && SelectsForm(table, form.mnemonic, values, chosen, instruction.cpu, instruction.formIndex)
          && Normalised(form, ToldSuffix(form, chosen), DecoderViews(form, values))
          && ImmediatesSettled(form, ToldSuffix(form, chosen), DecoderViews(form, values))
  }

  lemma EncodedParts(table: seq<Form>, instruction: Instruction, maxBytes: nat)
    requires forall i :: 0 <= i < |table| ==> StructureOk(table[i])
    requires Encodable(table, instruction) && EncodedOne(table, instruction, maxBytes).Some?
    ensures var form := table[instruction.formIndex];
            var values := EncodedValues(instruction);
            var chosen := ResolveSizeSuffix(form, values, instruction.suffix, CPU_ANY);
            var fields := PatchValues(form, chosen, values, |form.patches|);
            && fields.Ok?
            && AssembledBytes(form, fields.value, values, maxBytes) == Ok(EncodedOne(table, instruction, maxBytes).value)
  {
    hide StructureOk, WellFormed, SelectsForm, Normalised, ImmediatesSettled, PatchValues, AssembledBytes,
         EncodedValues, KindsFit, PlainOperand, ToldSuffix, EffectiveSizeMaskForOperands;
    var form := table[instruction.formIndex];
    NamedRow(form);
    var values := EncodedValues(instruction);
    var chosen := ResolveSizeSuffix(form, values, instruction.suffix, CPU_ANY);
    var row := Selected(table, form.mnemonic, values, chosen, instruction.cpu);
    if row.Some? {
      SelectionIsUnique(table, form.mnemonic, values, chosen, instruction.cpu, instruction.formIndex, row.value);
    }
  }

  /** Bound words and extension words fit their buffer, and the whole instruction fits the bytes. */
  predicate WordsFitIn(form: Form, suffix: Suffix, values: seq<Operand>, maxBytes: nat)
    requires StructureOk(form) && |values| == |form.operandKinds|
  {
    var fields := PatchValues(form, suffix, values, |form.patches|);
    && fields.Ok?
    && var words := |form.boundBases| + |E.TailWords(form, fields.value, values, 0)|;
       words <= MAX_EXTENSION_WORDS && 2 + 2 * words <= maxBytes
  }

  /** An encodable instruction is encoded whenever its suffix has a value and its words fit. */
  lemma EncodableIsEncoded(table: seq<Form>, instruction: Instruction, maxBytes: nat)
    requires forall i :: 0 <= i < |table| ==> StructureOk(table[i])
    requires Encodable(table, instruction) && |instruction.operands| == |table[instruction.formIndex].operandKinds|
    requires var form := table[instruction.formIndex];
             var values := EncodedValues(instruction);
             var chosen := ResolveSizeSuffix(form, values, instruction.suffix, CPU_ANY);
             && |form.patches| <= PATCH_VALUE_SLOTS && SizeAvailable(form, chosen)
             && WordsFitIn(form, chosen, DecoderViews(form, values), maxBytes)
    ensures EncodedOne(table, instruction, maxBytes).Some?
  {
    hide StructureOk, WellFormed, SelectsForm, Normalised, ImmediatesSettled, PatchValues, AssembledBytes, KindsOk, ViewOf,
         EncodedValues, KindsFit, PlainOperand, ToldSuffix, EffectiveSizeMaskForOperands, DecoderViews, SizeAvailable;
    var form := table[instruction.formIndex];
    NamedRow(form);
    EncodableParts(table, instruction);
    ViewsAreViews(form, instruction);
    var values := EncodedValues(instruction);
    var views := DecoderViews(form, values);
    var chosen := ResolveSizeSuffix(form, values, instruction.suffix, CPU_ANY);
    EncoderAccepts(form, chosen, views, maxBytes);
    PatchesIgnoreMode(form, values, views, chosen, |form.patches|);
    BytesIgnoreMode(form, values, views, PatchValues(form, chosen, values, |form.patches|).value, maxBytes);
    SelectedIs(table, form.mnemonic, values, chosen, instruction.cpu, Some(instruction.formIndex));
  }

  lemma NamedRow(form: Form)
    requires WellFormed(form)
    ensures !form.mnemonic.NoMnemonic? && StructureOk(form) && KindsOk(form)
  {
    hide StructureOk, WordsOk, SizesOk, BranchOk, ExtensionsOk, MovemOk, KindsOk;
  }

  lemma TurnedTwice(operand: Operand)
    requires FitsUnsignedWord(operand.value)
    ensures WithReversedMask(WithReversedMask(operand)) == operand
  {
    hide Reversed, FitsUnsignedWord;
    var mask := Reversed(Low16(operand.value));
    ReversalIsAnInvolution(Low16(operand.value));
    LowOfWord(mask);
    WordOfLow(operand.value);
  }

  lemma LowOfWord(word: Word)
    ensures Low16(word as Long) == word
  {
  }

  lemma TurningKeepsTheRest(operand: Operand)
    ensures var turned := WithReversedMask(operand);
            turned.kind == operand.kind && turned.eaMode == operand.eaMode && turned.index == operand.index
  {
    hide Reversed, Low16;
  }

  /** An operand of a fitting instruction and what the encoder and the decoder make of it. */
  predicate Travels(form: Form, operand: OperandIR, value: Operand, view: Operand, k: nat)
    requires k < |form.operandKinds|
  {
    && SameButMode(form.operandKinds[k], value, view)
    && view.index == operand.value.index
    && FromCandidate(form.operandKinds[k], DecoderView(form.operandKinds[k], operand.value)) == operand
  }

  predicate FitsAndIsPlain(form: Form, operands: seq<OperandIR>) {
    && KindsFit(form, operands)
    && forall k :: 0 <= k < |operands| ==> PlainOperand(operands[k])
  }

  lemma OperandTravels(form: Form, instruction: Instruction, k: nat)
    requires FitsAndIsPlain(form, instruction.operands) && k < |instruction.operands|
    ensures Travels(form, instruction.operands[k], EncodedValues(instruction)[k],
                    DecoderViews(form, EncodedValues(instruction))[k], k)
  {
    hide WithReversedMask, FromCandidate, ToAsmValue;
    var operand := instruction.operands[k];
    PlainAsmValue(operand);
    ViewIsUndone(form.operandKinds[k], operand);
    TurningKeepsTheRest(operand.value);
  }

  lemma ViewsAreViews(form: Form, instruction: Instruction)
    requires FitsAndIsPlain(form, instruction.operands)
    ensures ViewOf(form, EncodedValues(instruction), DecoderViews(form, EncodedValues(instruction)))
  {
    hide EncodedValues, DecoderView, MatchesFormKind, PlainOperand, FromCandidate;
    forall k | 0 <= k < |instruction.operands|
      ensures SameButMode(form.operandKinds[k], EncodedValues(instruction)[k],
                          DecoderViews(form, EncodedValues(instruction))[k])
    {
      OperandTravels(form, instruction, k);
    }
  }

  /** The encoder turns the mask exactly when the decoder will turn it back. */
  lemma TurnedTogether(form: Form, instruction: Instruction)
    requires FitsAndIsPlain(form, instruction.operands) && instruction.mnemonic == form.mnemonic
    ensures StoresDownwards(form, DecoderViews(form, EncodedValues(instruction))) <==> UsesTurnedMask(instruction)
  {
    hide WithReversedMask, FromCandidate, ToAsmValue;
    if |instruction.operands| == 2 {
      PlainAsmValue(instruction.operands[0]);
      PlainAsmValue(instruction.operands[1]);
      TurningKeepsTheRest(instruction.operands[0].value);
    }
  }

  /** Turned back, every operand is the decoder's view of the instruction's own operand. */
  lemma TurnedBack(form: Form, instruction: Instruction, k: nat)
    requires FitsAndIsPlain(form, instruction.operands) && instruction.mnemonic == form.mnemonic
    requires UsesTurnedMask(instruction) ==> FitsUnsignedWord(instruction.operands[0].value.value)
    requires k < |instruction.operands|
    ensures MaskTurned(form, DecoderViews(form, EncodedValues(instruction)))[k]
            == DecoderView(form.operandKinds[k], instruction.operands[k].value)
  {
    hide WithReversedMask, FromCandidate, ToAsmValue, FitsUnsignedWord, StoresDownwards;
    TurnedTogether(form, instruction);
    PlainAsmValue(instruction.operands[k]);
    if UsesTurnedMask(instruction) && k == 0 { TurnedTwice(instruction.operands[0].value); }
  }

  lemma EncodableParts(table: seq<Form>, instruction: Instruction)
    requires Encodable(table, instruction)
    ensures instruction.formIndex < |table|
    ensures FitsAndIsPlain(table[instruction.formIndex], instruction.operands)
    ensures |instruction.operands| == |table[instruction.formIndex].operandKinds|
  {
    hide WellFormed, MatchesFormKind, PlainOperand, SelectsForm, Normalised, ImmediatesSettled, EncodedValues, ToldSuffix,
         ResolveSizeSuffix;
  }

  lemma CandidateKeepsIndex(kind: OperandKind, value: Operand)
    ensures FromCandidate(kind, value).value.index == value.index
  {
  }

  /** An instruction that is encoded and decoded again against its form, with any bytes behind it, is
      reconstructed exactly when the end of every full extension is recognised. */
  lemma EncodeDecodeRoundTrip(table: seq<Form>, instruction: Instruction, maxBytes: nat, rest: seq<Byte>)
    requires forall i :: 0 <= i < |table| ==> StructureOk(table[i])
    requires Encodable(table, instruction) && EncodedOne(table, instruction, maxBytes).Some?
    ensures var form := table[instruction.formIndex];
            var values := EncodedValues(instruction);
            var told := ToldSuffix(form, ResolveSizeSuffix(form, values, instruction.suffix, CPU_ANY));
            var bytes := EncodedOne(table, instruction, maxBytes).value;
            && MatchesForm(form, bytes + rest)
            && (Reconstructs(form, instruction, told, bytes + rest, |bytes|) <==>
                  AllRecognised(form, told, DecoderViews(form, values), |rest|))
  {
    hide StructureOk, SelectsForm, Normalised, ImmediatesSettled, PatchValues, AssembledBytes, EncodedValues, KindsFit,
         PlainOperand, ToldSuffix, EffectiveSizeMaskForOperands, ResolveSizeSuffix, WellFormed, KindsOk, EncodedOne,
         MatchesForm, DecodedAs, AllRecognised, DecoderView, ViewOf, FromCandidate, MaskTurned, FieldValue,
         UsesTurnedMask, FitsUnsignedWord;
    EncodableParts(table, instruction);
    var form := table[instruction.formIndex];
    var values := EncodedValues(instruction);
    var views := DecoderViews(form, values);
    var chosen := ResolveSizeSuffix(form, values, instruction.suffix, CPU_ANY);
    NamedRow(form);
    EncodedParts(table, instruction, maxBytes);
    ViewsAreViews(form, instruction);
    PatchesIgnoreMode(form, values, views, chosen, |form.patches|);
    var fields := PatchValues(form, chosen, values, |form.patches|).value;
    BytesIgnoreMode(form, values, views, fields, maxBytes);
    FormRoundTrip(form, chosen, views, fields, maxBytes, rest);
    forall k | 0 <= k < |instruction.operands|
      ensures MaskTurned(form, views)[k] == DecoderView(form.operandKinds[k], instruction.operands[k].value)
      ensures Travels(form, instruction.operands[k], values[k], views[k], k)
    {
      TurnedBack(form, instruction, k);
      OperandTravels(form, instruction, k);
    }
    forall kind: OperandKind, value: Operand ensures FromCandidate(kind, value).value.index == value.index {
      CandidateKeepsIndex(kind, value);
    }
  }
}
