/** The table-driven encoder: patch values, opword and bound words, extension words, bytes.

    Each routine that the assembler writes as a loop over output parameters is a method here,
    specified by the function of the same meaning that the round-trip proofs use. */
module Assembler {
  import opened Wrappers
  import opened Words
  import opened FormTable

  // ---------- sizes ----------

  function SuffixFromMask(mask: Byte): Suffix {
    if mask == SIZE_B then SizeB else if mask == SIZE_W then SizeW else if mask == SIZE_L then SizeL else Bare
  }

  predicate MaskHas(mask: Byte, suffix: Suffix) {
    match suffix
    case Bare => true
    case SizeB => mask & SIZE_B != 0
    case SizeW => mask & SIZE_W != 0
    case SizeL => mask & SIZE_L != 0
  }

  function SizeBytes(suffix: Suffix): nat {
    match suffix
    case SizeB => 1
    case SizeW => 2
    case SizeL => 4
    case Bare => 0
  }

  /** The size mask after the first effective address from operand `k` on has narrowed it. */
  function NarrowedSizeMask(form: Form, operands: seq<Operand>, mask: Byte, k: nat): Byte
    decreases |operands| - k
  {
    if k >= |operands| || k >= |form.operandKinds| then mask
    else if (form.operandKinds[k].Ea? || form.operandKinds[k].BfEa?) && operands[k].IsMemoryEa() then
      if operands[k].eaMode == 0 && form.eaDnSizeMask != 0 then form.eaDnSizeMask
      else if operands[k].eaMode != 0 && form.eaMemorySizeMask != 0 then form.eaMemorySizeMask
      else NarrowedSizeMask(form, operands, mask, k + 1)
    else NarrowedSizeMask(form, operands, mask, k + 1)
  }

  function EffectiveSizeMaskForOperands(form: Form, operands: seq<Operand>, cpu: nat): Byte {
    var mask := form.EffectiveSizeMaskForCpu(cpu);
    if form.eaDnSizeMask == 0 && form.eaMemorySizeMask == 0 then mask
    else NarrowedSizeMask(form, operands, mask, 0)
  }

  function ResolveSizeSuffix(form: Form, operands: seq<Operand>, explicit: Suffix, cpu: nat): Suffix {
    if explicit != Bare then explicit
    else if form.HasField(Size) || form.HasField(Displacement8) then SizeW
    else if form.sizeValues.l != UNSET && form.sizeValues.b == UNSET && form.sizeValues.w == UNSET then SizeL
    else SuffixFromMask(EffectiveSizeMaskForOperands(form, operands, cpu))
  }

  // ---------- choosing a form ----------

  predicate OperandSupportsCpu(operand: Operand, cpu: nat) {
    cpu == CPU_ANY || !(operand.kind.Ea? && operand.index.UsesFull()) || cpu >= CPU_68020
  }

  predicate OperandMatchesKind(operand: Operand, kind: OperandKind) {
    match kind
    case Ind => operand.kind.Ea? && operand.eaMode == 2
    case Postinc => operand.kind.Ea? && operand.eaMode == 3
    case Predec => operand.kind.Ea? && operand.eaMode == 4
    case Absl => operand.kind.Ea? && operand.LongAddressMode()
    case _ => operand.kind == kind
  }

  predicate OperandsMatchForm(form: Form, operands: seq<Operand>, suffix: Suffix, cpu: nat) {
    && |form.operandKinds| == |operands|
    && form.SupportsCpu(cpu)
    && (forall k :: 0 <= k < |operands| ==>
          && OperandSupportsCpu(operands[k], cpu)
          && OperandMatchesKind(operands[k], form.operandKinds[k])
          && (form.operandKinds[k].CtrlReg? ==>
                form.controlRegisters == [] || operands[k].reg in form.controlRegisters))
    && MaskHas(EffectiveSizeMaskForOperands(form, operands, cpu), suffix)
  }

  /** The first row of the mnemonic that the operands match. */
  predicate SelectsForm(table: seq<Form>, mnemonic: Mnemonic, operands: seq<Operand>, suffix: Suffix, cpu: nat,
                        index: nat)
  {
    && index < |table|
    && table[index].mnemonic == mnemonic && OperandsMatchForm(table[index], operands, suffix, cpu)
    && forall i :: 0 <= i < index ==>
         !(table[i].mnemonic == mnemonic && OperandsMatchForm(table[i], operands, suffix, cpu))
  }

  method FormIndexForOperands(table: seq<Form>, mnemonic: Mnemonic, operands: seq<Operand>, suffix: Suffix, cpu: nat)
    returns (found: Option<nat>)
    ensures found.Some? ==> !mnemonic.NoMnemonic? && SelectsForm(table, mnemonic, operands, suffix, cpu, found.value)
    ensures found.None? ==> mnemonic.NoMnemonic? ||
                            forall i: nat :: !SelectsForm(table, mnemonic, operands, suffix, cpu, i)
  {
    if mnemonic.NoMnemonic? { return None; }
    for index := 0 to |table|
      invariant forall i :: 0 <= i < index ==>
                  !(table[i].mnemonic == mnemonic && OperandsMatchForm(table[i], operands, suffix, cpu))
    {
      var form := table[index];
      if |form.operandKinds| == |operands| && form.mnemonic == mnemonic && form.SupportsCpu(cpu) {
        var k := 0;
        while k < |operands|
          invariant 0 <= k <= |operands|
          invariant forall j :: 0 <= j < k ==>
                      && OperandSupportsCpu(operands[j], cpu)
                      && OperandMatchesKind(operands[j], form.operandKinds[j])
                      && (form.operandKinds[j].CtrlReg? ==>
                            form.controlRegisters == [] || operands[j].reg in form.controlRegisters)
        {
          if !OperandSupportsCpu(operands[k], cpu) { break; }
          if !OperandMatchesKind(operands[k], form.operandKinds[k]) { break; }
          if form.operandKinds[k].CtrlReg? && form.controlRegisters != []
             && operands[k].reg !in form.controlRegisters { break; }
          k := k + 1;
        }
        if k == |operands| && MaskHas(EffectiveSizeMaskForOperands(form, operands, cpu), suffix) {
          return Some(index);
        }
      }
    }
    return None;
  }

  // ---------- patch values ----------

  /** What one patch writes, before the field masks it. */
  function FieldValue(form: Form, patch: FieldPatch, suffix: Suffix, operands: seq<Operand>): (r: Result<Word>)
    ensures r.Err? ==> r.code < 0
  {
    match patch.kind
    case Size => if form.sizeValues.Of(suffix) == UNSET then Err(-3) else Ok(form.sizeValues.Of(suffix) as Word)
    case Opmode => if form.opmodeValues.Of(suffix) == UNSET then Err(-3) else Ok(form.opmodeValues.Of(suffix) as Word)
    case _ =>
      if patch.source.NoValue? then Ok(0)
      else if !(0 <= patch.operandIndex < |operands|) then Err(-4)
      else OperandField(form, patch, suffix, operands[patch.operandIndex])
  }

  function OperandField(form: Form, patch: FieldPatch, suffix: Suffix, operand: Operand): (r: Result<Word>)
    ensures r.Err? ==> r.code < 0
  {
    match patch.source
    case NoValue => Ok(0)
    case OpmodeValue => Err(-8)
    case Reg => Ok(RegisterOf(operand))
    case RegFirst => Ok(RegisterOf(operand))
    case RegSecond => Ok(operand.pairReg as Word)
    case RegKind => Ok(RegisterKindOf(operand))
    case RegKindFirst => Ok(RegisterKindOf(operand))
    case RegKindSecond => Ok(if operand.pairRegIsAddress != 0 then 1 else 0)
    case BfOffset => Ok(if operand.bfOffset == 32 then 0 else operand.bfOffset as Word)
    case BfOffsetKind => Ok(if operand.bfOffsetIsRegister != 0 then 1 else 0)
    case BfWidth => Ok(if operand.bfWidth == 32 then 0 else operand.bfWidth as Word)
    case BfWidthKind => Ok(if operand.bfWidthIsRegister != 0 then 1 else 0)
    case EaReg => Ok(operand.eaReg as Word)
    case EaMode => Ok(operand.eaMode as Word)
    case ValueHi16 => Ok(High16(operand.value))
    case ValueLo16 => Ok(Low16(operand.value))
    case WholeValue =>
      if patch.kind.Displacement8? then
        match suffix
        case SizeB => Ok(Low8(operand.value) as Word)
        case SizeW => Ok(form.branchWordSignal as Word)
        case SizeL => Ok(form.branchLongSignal as Word)
        case Bare => Err(-7)
      else Ok(Low16(operand.value))
  }

  function RegisterOf(operand: Operand): Word {
    if operand.IsMemoryEa() then operand.eaReg as Word else operand.reg as Word
  }

  function RegisterKindOf(operand: Operand): Word {
    if operand.IsMemoryEa() then (if operand.eaMode != 0 then 1 else 0)
    else if operand.regIsAddress != 0 then 1 else 0
  }

  /** The values of the first `count` patches, or the error of the first patch that has none. */
  function PatchValues(form: Form, suffix: Suffix, operands: seq<Operand>, count: nat): (r: Result<seq<Word>>)
    requires count <= |form.patches|
    ensures r.Ok? ==> |r.value| == count
    ensures r.Ok? ==> forall i :: 0 <= i < count ==> FieldValue(form, form.patches[i], suffix, operands) == Ok(r.value[i])
  {
    if count == 0 then Ok([])
    else
      var prior := PatchValues(form, suffix, operands, count - 1);
      if prior.Err? then prior
      else
        match FieldValue(form, form.patches[count - 1], suffix, operands)
        case Err(code) => Err(code)
        case Ok(value) => Ok(prior.value + [value])
  }

  function PatchValuesOf(form: Form, suffix: Suffix, operands: seq<Operand>): Result<seq<Word>> {
    if form.mnemonic.NoMnemonic? then Err(-1)
    else if |operands| != |form.operandKinds| then Err(-2)
    else PatchValues(form, ResolveSizeSuffix(form, operands, suffix, CPU_ANY), operands, |form.patches|)
  }

  method BuildPatchValues(form: Form, suffix: Suffix, operands: seq<Operand>, outFields: array<Word>)
    returns (code: int)
    modifies outFields
    ensures outFields.Length < |form.patches| ==> code != 0
    ensures outFields.Length >= |form.patches| ==>
              match PatchValuesOf(form, suffix, operands)
              case Err(e) => code == e && code != 0
              case Ok(values) => code == 0 && outFields[..|form.patches|] == values
  {
    hide FieldValue;
    if form.mnemonic.NoMnemonic? { return -1; }
    if |operands| != |form.operandKinds| || outFields.Length < |form.patches| { return -2; }
    var resolved := ResolveSizeSuffix(form, operands, suffix, CPU_ANY);
    var count := |form.patches|;
    for i := 0 to count
      invariant PatchValues(form, resolved, operands, i) == Ok(outFields[..i])
    {
      var value := FieldValue(form, form.patches[i], resolved, operands);
      if value.Err? {
        PatchValuesStop(form, resolved, operands, i, count);
        return value.code;
      }
      outFields[i] := value.value;
      assert outFields[..i + 1] == outFields[..i] + [value.value];
    }
    return 0;
  }

  /** Once a patch has no value, no longer list has one either. */
  lemma PatchValuesStop(form: Form, suffix: Suffix, operands: seq<Operand>, i: nat, count: nat)
    requires i < count <= |form.patches| && PatchValues(form, suffix, operands, i).Ok?
    requires FieldValue(form, form.patches[i], suffix, operands).Err?
    ensures PatchValues(form, suffix, operands, count) == Err(FieldValue(form, form.patches[i], suffix, operands).code)
  {
    hide FieldValue;
    if count > i + 1 { PatchValuesStop(form, suffix, operands, i, count - 1); }
  }

  // ---------- opword and bound words ----------

  /** The word after the first `count` patches of the form have been laid over the seed. */
  function Overlaid(patches: seq<FieldPatch>, fields: seq<Word>, word: nat, seed: Word, count: nat): Word
    requires count <= |patches| && count <= |fields|
    requires forall i :: 0 <= i < |patches| ==> patches[i].Ordered()
  {
    if count == 0 then seed
    else
      var prior := Overlaid(patches, fields, word, seed, count - 1);
      var patch := patches[count - 1];
      if patch.wordIndex == word then Overlay(prior, patch.hi, patch.lo, fields[count - 1]) else prior
  }

  /** The opword (word 0) or bound word of the instruction. */
  function FixedWord(form: Form, fields: seq<Word>, word: nat): Word
    requires StructureOk(form) && |fields| == |form.patches| && word <= |form.boundBases|
  {
    Overlaid(form.patches, fields, word, Under(form.FixedBits(word), form.FixedMask(word)), |form.patches|)
  }

  /** Lays every patch of one word over its fixed bits. */
  method OverlayPatches(form: Form, fields: seq<Word>, word: nat, seed: Word) returns (result: Word)
    requires StructureOk(form) && |form.patches| <= |fields|
    ensures result == Overlaid(form.patches, fields, word, seed, |form.patches|)
  {
    result := seed;
    for i := 0 to |form.patches|
      invariant result == Overlaid(form.patches, fields, word, seed, i)
    {
      var patch := form.patches[i];
      if patch.wordIndex != word { continue; }
      result := Overlay(result, patch.hi, patch.lo, fields[i]);
    }
  }

  method EncodeOpword(form: Form, fields: seq<Word>) returns (r: Result<Word>)
    requires StructureOk(form)
    ensures form.mnemonic.NoMnemonic? ==> r == Err(-1)
    ensures !form.mnemonic.NoMnemonic? && |fields| < |form.patches| ==> r == Err(-2)
    ensures !form.mnemonic.NoMnemonic? && |fields| >= |form.patches| ==>
              r == Ok(FixedWord(form, fields[..|form.patches|], 0))
  {
    if form.mnemonic.NoMnemonic? { return Err(-1); }
    if |fields| < |form.patches| { return Err(-2); }
    var opword := OverlayPatches(form, fields[..|form.patches|], 0, Under(form.opwordBase, form.opwordMask));
    return Ok(opword);
  }

  method EmitBoundExtensionWord(form: Form, word: nat, fields: seq<Word>, outWords: array<Word>, wordCount: nat)
    returns (code: int, newCount: nat)
    requires StructureOk(form) && |fields| == |form.patches|
    requires 1 <= word <= |form.boundBases| && wordCount <= outWords.Length
    modifies outWords
    ensures code == 0 <==> wordCount < outWords.Length
    ensures code != 0 ==> code == -4 && newCount == wordCount
    ensures code == 0 ==> newCount == wordCount + 1
    ensures code == 0 ==> outWords[..newCount] == old(outWords[..wordCount]) + [FixedWord(form, fields, word)]
  {
    var extension := OverlayPatches(form, fields, word, Under(form.boundBases[word - 1], form.boundMasks[word - 1]));
    code, newCount := AppendWord(outWords, wordCount, extension);
  }

  method AppendWord(outWords: array<Word>, wordCount: nat, word: Word) returns (code: int, newCount: nat)
    requires wordCount <= outWords.Length
    modifies outWords
    ensures if wordCount < outWords.Length
            then code == 0 && newCount == wordCount + 1 && outWords[..newCount] == old(outWords[..wordCount]) + [word]
            else code == -4 && newCount == wordCount
  {
    if wordCount >= outWords.Length { return -4, wordCount; }
    outWords[wordCount] := word;
    return 0, wordCount + 1;
  }

  method AppendLongWords(outWords: array<Word>, wordCount: nat, value: Long) returns (code: int, newCount: nat)
    requires wordCount <= outWords.Length
    modifies outWords
    ensures if wordCount + 1 < outWords.Length
            then code == 0 && newCount == wordCount + 2 &&
                 outWords[..newCount] == old(outWords[..wordCount]) + [High16(value), Low16(value)]
            else code == -4 && newCount == wordCount
  {
    if wordCount + 1 >= outWords.Length { return -4, wordCount; }
    outWords[wordCount] := High16(value);
    outWords[wordCount + 1] := Low16(value);
    return 0, wordCount + 2;
  }

  // ---------- extension words ----------

  predicate FitsAbsoluteWord(value: Long) {
    value <= 0xFFFF || value <= 0x7FFF || value >= 0xFFFF8000
  }

  /** The size whose size or opmode value this is, the first that matches. */
  function SizeNamedBy(form: Form, value: Word): Suffix {
    if value == form.sizeValues.b as Word || value == form.opmodeValues.b as Word then SizeB
    else if value == form.sizeValues.w as Word || value == form.opmodeValues.w as Word then SizeW
    else if value == form.sizeValues.l as Word || value == form.opmodeValues.l as Word then SizeL
    else Bare
  }

  /** The size that the size and opmode fields from patch `i` on name, the first match counting. */
  function SuffixInFields(form: Form, fields: seq<Word>, i: nat): Suffix
    requires i <= |form.patches| == |fields|
    decreases |form.patches| - i
  {
    if i == |form.patches| then Bare
    else if (form.patches[i].kind.Size? || form.patches[i].kind.Opmode?) && SizeNamedBy(form, fields[i]) != Bare
    then SizeNamedBy(form, fields[i])
    else SuffixInFields(form, fields, i + 1)
  }

  /** The encoder's own idea of the operand size in bytes; 0 when the form does not say. */
  function FormSizeBytesOf(form: Form, fields: seq<Word>): nat {
    if |fields| != |form.patches| then 0
    else
      var suffix := SuffixInFields(form, fields, 0);
      SizeBytes(if suffix != Bare then suffix else SuffixFromMask(form.EffectiveSizeMask()))
  }

  method FormSizeBytes(form: Form, fields: seq<Word>) returns (bytes: nat)
    ensures bytes == FormSizeBytesOf(form, fields)
  {
    if |fields| != |form.patches| { return 0; }
    var suffix := Bare;
    var i := 0;
    while suffix == Bare && i < |form.patches|
      invariant 0 <= i <= |form.patches|
      invariant SuffixInFields(form, fields, 0) == if suffix == Bare then SuffixInFields(form, fields, i) else suffix
    {
      if form.patches[i].kind.Size? || form.patches[i].kind.Opmode? { suffix := SizeNamedBy(form, fields[i]); }
      i := i + 1;
    }
    if suffix != Bare { return SizeBytes(suffix); }
    return SizeBytes(SuffixFromMask(form.EffectiveSizeMask()));
  }

  /** The immediate takes two words exactly when the encoder settles on a long. */
  predicate EmitsLongImmediate(form: Form, fields: seq<Word>, operands: seq<Operand>) {
    var bytes := FormSizeBytesOf(form, fields);
    (if bytes == 0 then SizeBytes(ResolveSizeSuffix(form, operands, Bare, CPU_ANY)) else bytes) > 2
  }

  function ImmediateWords(form: Form, fields: seq<Word>, operands: seq<Operand>, operand: Operand): seq<Word> {
    if EmitsLongImmediate(form, fields, operands) then [High16(operand.value), Low16(operand.value)]
    else [Low16(operand.value)]
  }

  /** The index register, its size and its scale: the same bits in both formats. */
  function IndexRegisterBits(index: IndexWord): Word {
    ((index.isAddress & 0x1) as Word << 15) | ((index.reg & 0x7) as Word << 12) |
    ((index.long & 0x1) as Word << 11) | ((index.scale & 0x3) as Word << 9)
  }

  function FullFormatBits(index: IndexWord): Word {
    (1 << 8) | ((index.baseSuppress & 0x1) as Word << 7) | ((index.indexSuppress & 0x1) as Word << 6) |
    ((index.baseDispSize & 0x3) as Word << 4) | (index.iis & 0x7) as Word
  }

  function BriefExtensionWord(index: IndexWord, value: Long): Word {
    IndexRegisterBits(index) | (value & 0xFF) as Word
  }

  function FullExtensionWord(index: IndexWord): Word {
    IndexRegisterBits(index) | FullFormatBits(index)
  }

  /** A base or outer displacement: nothing, a word or a long word. */
  function DisplacementWords(size: Byte, value: Long): seq<Word> {
    if size == FULL_EXT_BD_WORD then [Low16(value)]
    else if size == FULL_EXT_BD_LONG then [High16(value), Low16(value)]
    else []
  }

  function IndexWords(operand: Operand): seq<Word> {
    if !operand.index.UsesFull() then [BriefExtensionWord(operand.index, operand.value)]
    else [FullExtensionWord(operand.index)]
         + DisplacementWords(operand.index.baseDispSize, operand.index.baseDisp)
         + DisplacementWords(operand.index.outerDispSize, operand.index.outerDisp)
  }

  /** The words of one extension, or -7 for an absolute short address out of range. */
  function ExtensionWords(form: Form, extension: ExtensionDef, fields: seq<Word>, operands: seq<Operand>)
    : Result<seq<Word>>
    requires extension.operandIndex < |operands| && extension.Indexes(|fields|)
  {
    var operand := operands[extension.operandIndex];
    match extension.kind
    case EaSingleWord =>
      if !(operand.IsMemoryEa() && operand.SingleWordMode()) then Ok([])
      else if operand.eaMode == 7 && operand.eaReg == 0 && !FitsAbsoluteWord(operand.value) then Err(-7)
      else Ok([Low16(operand.value)])
    case EaLongAddress =>
      if operand.IsMemoryEa() && operand.LongAddressMode()
      then Ok([High16(operand.value), Low16(operand.value)]) else Ok([])
    case EaImmediate =>
      if (operand.kind.Ea? && operand.ImmediateMode()) || operand.kind.Imm?
      then Ok(ImmediateWords(form, fields, operands, operand)) else Ok([])
    case EaIndex =>
      if operand.IsMemoryEa() && operand.IndexMode() then Ok(IndexWords(operand)) else Ok([])
    case LabelDisp16IfZero =>
      if fields[extension.patchIndex] == 0 then Ok([Low16(operand.value)]) else Ok([])
    case LabelDisp16Always => Ok([Low16(operand.value)])
    case Disp16Always => Ok([Low16(operand.value)])
  }

  method EmitIndexExtension(operand: Operand, outWords: array<Word>, wordCount: nat)
    returns (code: int, newCount: nat)
    requires wordCount <= outWords.Length
    modifies outWords
    ensures wordCount <= newCount <= outWords.Length
    ensures code == 0 <==> wordCount + |IndexWords(operand)| <= outWords.Length
    ensures code != 0 ==> code == -4
    ensures code == 0 ==> newCount == wordCount + |IndexWords(operand)|
    ensures code == 0 ==> outWords[..newCount] == old(outWords[..wordCount]) + IndexWords(operand)
  {
    hide BriefExtensionWord, FullExtensionWord, DisplacementWords;
    if !operand.index.UsesFull() {
      code, newCount := AppendWord(outWords, wordCount, BriefExtensionWord(operand.index, operand.value));
      return;
    }
    var full := FullExtensionWord(operand.index);
    ghost var start := outWords[..wordCount];
    ghost var inner := DisplacementWords(operand.index.baseDispSize, operand.index.baseDisp);
    ghost var outer := DisplacementWords(operand.index.outerDispSize, operand.index.outerDisp);
    assert start + ([full] + inner + outer) == start + [full] + inner + outer;
    code, newCount := AppendWord(outWords, wordCount, full);
    if code != 0 { return; }
    code, newCount := AppendDisplacement(outWords, newCount, operand.index.baseDispSize, operand.index.baseDisp);
    if code != 0 { return; }
    code, newCount := AppendDisplacement(outWords, newCount, operand.index.outerDispSize, operand.index.outerDisp);
  }

  method AppendDisplacement(outWords: array<Word>, wordCount: nat, size: Byte, value: Long)
    returns (code: int, newCount: nat)
    requires wordCount <= outWords.Length
    modifies outWords
    ensures wordCount <= newCount <= outWords.Length
    ensures if wordCount + |DisplacementWords(size, value)| <= outWords.Length
            then code == 0 && newCount == wordCount + |DisplacementWords(size, value)| &&
                 outWords[..newCount] == old(outWords[..wordCount]) + DisplacementWords(size, value)
            else code == -4
  {
    code, newCount := 0, wordCount;
    if size == FULL_EXT_BD_WORD {
      code, newCount := AppendWord(outWords, wordCount, Low16(value));
    } else if size == FULL_EXT_BD_LONG {
      code, newCount := AppendLongWords(outWords, wordCount, value);
    }
  }

  method EmitOneExtension(form: Form, extension: ExtensionDef, fields: seq<Word>, operands: seq<Operand>,
                          outWords: array<Word>, wordCount: nat)
    returns (code: int, newCount: nat)
    requires extension.operandIndex < |operands| && extension.Indexes(|fields|)
    requires wordCount <= outWords.Length
    modifies outWords
    ensures wordCount <= newCount <= outWords.Length
    ensures match ExtensionWords(form, extension, fields, operands)
            case Err(e) => code == e && code != 0
            case Ok(words) =>
              if wordCount + |words| <= outWords.Length
              then code == 0 && newCount == wordCount + |words| && outWords[..newCount] == old(outWords[..wordCount]) + words
              else code == -4
  {
    hide IndexWords, Low16, High16, FitsAbsoluteWord;
    var operand := operands[extension.operandIndex];
    code, newCount := 0, wordCount;
    match extension.kind {
      case EaSingleWord =>
        if operand.IsMemoryEa() && operand.SingleWordMode() {
          if operand.eaMode == 7 && operand.eaReg == 0 && !FitsAbsoluteWord(operand.value) { return -7, wordCount; }
          code, newCount := AppendWord(outWords, wordCount, Low16(operand.value));
        }
      case EaLongAddress =>
        if operand.IsMemoryEa() && operand.LongAddressMode() {
          code, newCount := AppendLongWords(outWords, wordCount, operand.value);
        }
      case EaImmediate =>
        if (operand.kind.Ea? && operand.ImmediateMode()) || operand.kind.Imm? {
          var sizeBytes := FormSizeBytes(form, fields);
          if sizeBytes == 0 { sizeBytes := SizeBytes(ResolveSizeSuffix(form, operands, Bare, CPU_ANY)); }
          if sizeBytes == 0 { sizeBytes := 2; }
          if sizeBytes <= 2 { code, newCount := AppendWord(outWords, wordCount, Low16(operand.value)); }
          else { code, newCount := AppendLongWords(outWords, wordCount, operand.value); }
        }
      case EaIndex =>
        if operand.IsMemoryEa() && operand.IndexMode() {
          code, newCount := EmitIndexExtension(operand, outWords, wordCount);
        }
      case LabelDisp16IfZero =>
        if fields[extension.patchIndex] == 0 {
          code, newCount := AppendWord(outWords, wordCount, Low16(operand.value));
        }
      case LabelDisp16Always =>
        code, newCount := AppendWord(outWords, wordCount, Low16(operand.value));
      case Disp16Always =>
        code, newCount := AppendWord(outWords, wordCount, Low16(operand.value));
    }
  }

  /** The bound words of the instruction, in order. */
  function BoundWords(form: Form, fields: seq<Word>): (words: seq<Word>)
    requires StructureOk(form) && |fields| == |form.patches|
    ensures |words| == |form.boundBases|
  {
    seq(|form.boundBases|, i requires 0 <= i < |form.boundBases| => FixedWord(form, fields, i + 1))
  }

  /** Bound words followed by the words of the first `count` extensions, within `capacity` words. */
  function EmittedWords(form: Form, fields: seq<Word>, operands: seq<Operand>, capacity: nat, count: nat)
    : (r: Result<seq<Word>>)
    requires StructureOk(form) && |fields| == |form.patches| && |operands| == |form.operandKinds|
    requires count <= |form.extensions|
    ensures r.Ok? ==> |r.value| <= capacity
  {
    if count == 0 then
      if |form.boundBases| <= capacity then Ok(BoundWords(form, fields)) else Err(-4)
    else
      var prior := EmittedWords(form, fields, operands, capacity, count - 1);
      if prior.Err? then prior
      else
        match ExtensionWords(form, form.extensions[count - 1], fields, operands)
        case Err(code) => Err(code)
        case Ok(words) => if |prior.value| + |words| <= capacity then Ok(prior.value + words) else Err(-4)
  }

  function EmittedWordsOf(form: Form, fields: seq<Word>, operands: seq<Operand>, capacity: nat): Result<seq<Word>>
    requires StructureOk(form)
  {
    if form.mnemonic.NoMnemonic? then Err(-1)
    else if |fields| != |form.patches| then Err(-2)
    else if |operands| != |form.operandKinds| then Err(-3)
    else EmittedWords(form, fields, operands, capacity, |form.extensions|)
  }

  lemma EmittedWordsStop(form: Form, fields: seq<Word>, operands: seq<Operand>, capacity: nat, i: nat, count: nat)
    requires StructureOk(form) && |fields| == |form.patches| && |operands| == |form.operandKinds|
    requires i <= count <= |form.extensions|
    requires EmittedWords(form, fields, operands, capacity, i).Err?
    ensures EmittedWords(form, fields, operands, capacity, count) == EmittedWords(form, fields, operands, capacity, i)
  {
    if i < count { EmittedWordsStop(form, fields, operands, capacity, i, count - 1); }
  }

  method EmitExtensions(form: Form, fields: seq<Word>, operands: seq<Operand>, outWords: array<Word>)
    returns (code: int, wordCount: nat)
    requires StructureOk(form)
    modifies outWords
    ensures wordCount <= outWords.Length
    ensures match EmittedWordsOf(form, fields, operands, outWords.Length)
            case Err(e) => code == e && code != 0
            case Ok(words) => code == 0 && wordCount == |words| && outWords[..wordCount] == words
  {
    hide ExtensionWords, FixedWord;
    wordCount := 0;
    if form.mnemonic.NoMnemonic? { return -1, 0; }
    if |fields| != |form.patches| { return -2, 0; }
    if |operands| != |form.operandKinds| { return -3, 0; }
    var bound := |form.boundBases|;
    for word := 1 to bound + 1
      invariant wordCount == word - 1 <= outWords.Length
      invariant outWords[..wordCount] == BoundWords(form, fields)[..wordCount]
    {
      var result;
      result, wordCount := EmitBoundExtensionWord(form, word, fields, outWords, wordCount);
      if result != 0 {
        EmittedWordsStop(form, fields, operands, outWords.Length, 0, |form.extensions|);
        return -4, wordCount;
      }
    }
    assert BoundWords(form, fields)[..bound] == BoundWords(form, fields);
    for i := 0 to |form.extensions|
      invariant wordCount <= outWords.Length
      invariant EmittedWords(form, fields, operands, outWords.Length, i) == Ok(outWords[..wordCount])
    {
      var result;
      result, wordCount := EmitOneExtension(form, form.extensions[i], fields, operands, outWords, wordCount);
      if result != 0 {
        assert EmittedWords(form, fields, operands, outWords.Length, i + 1) == Err(result);
        EmittedWordsStop(form, fields, operands, outWords.Length, i + 1, |form.extensions|);
        return result, wordCount;
      }
    }
    return 0, wordCount;
  }

  // ---------- whole instructions ----------

  const MAX_EXTENSION_WORDS: nat := 8

  /** The bytes of an instruction assembled against one row from values for its patches. */
  function AssembledBytes(form: Form, fields: seq<Word>, operands: seq<Operand>, maxBytes: nat): Result<seq<Byte>>
    requires StructureOk(form)
  {
    if form.mnemonic.NoMnemonic? then Err(-2)
    else if |fields| < |form.patches| then Err(-3)
    else
      match EmittedWordsOf(form, fields, operands, MAX_EXTENSION_WORDS)
      case Err(_) => Err(-4)
      case Ok(words) =>
        if maxBytes < 2 + 2 * |words| then Err(-5)
        else Ok(BytesOf([FixedWord(form, fields, 0)] + words))
  }

  lemma SelectionIsUnique(table: seq<Form>, mnemonic: Mnemonic, operands: seq<Operand>, suffix: Suffix, cpu: nat,
                          f: nat, g: nat)
    requires SelectsForm(table, mnemonic, operands, suffix, cpu, f)
    requires SelectsForm(table, mnemonic, operands, suffix, cpu, g)
    ensures f == g
  {
  }

  method WriteWords(opword: Word, extWords: array<Word>, extCount: nat, outBytes: array<Byte>)
    returns (byteCount: nat)
    requires extCount <= extWords.Length && 2 + extCount * 2 <= outBytes.Length
    modifies outBytes
    ensures byteCount == 2 + 2 * extCount
    ensures outBytes[..byteCount] == BytesOf([opword] + extWords[..extCount])
  {
    hide HighByte, LowByte;
    ghost var words := [opword] + extWords[..extCount];
    outBytes[0], outBytes[1] := HighByte(opword), LowByte(opword);
    byteCount := 2;
    for index := 0 to extCount
      invariant byteCount == 2 + 2 * index
      invariant forall i :: 0 <= i < byteCount ==> outBytes[i] == BytesOf(words)[i]
    {
      assert words[1 + index] == extWords[index];
      outBytes[byteCount] := HighByte(extWords[index]);
      outBytes[byteCount + 1] := LowByte(extWords[index]);
      byteCount := byteCount + 2;
    }
    assert outBytes[..byteCount] == BytesOf(words);
  }

  method AssembleInstruction(table: seq<Form>, mnemonic: Mnemonic, suffix: Suffix, cpu: nat,
                             fields: seq<Word>, operands: seq<Operand>, outBytes: array<Byte>)
    returns (code: int, byteCount: nat)
    requires forall i :: 0 <= i < |table| ==> StructureOk(table[i])
    modifies outBytes
    ensures byteCount <= outBytes.Length
    ensures forall f: nat :: SelectsForm(table, mnemonic, operands, suffix, cpu, f) && !mnemonic.NoMnemonic? ==>
              match AssembledBytes(table[f], fields, operands, outBytes.Length)
              case Err(e) => code == e && code != 0
              case Ok(bytes) => code == 0 && byteCount == |bytes| && outBytes[..byteCount] == bytes
    ensures (mnemonic.NoMnemonic? || forall f: nat :: !SelectsForm(table, mnemonic, operands, suffix, cpu, f)) ==> code == -2
  {
    byteCount := 0;
    var found := FormIndexForOperands(table, mnemonic, operands, suffix, cpu);
    if found.None? { return -2, 0; }
    var form := table[found.value];
    forall f: nat | SelectsForm(table, mnemonic, operands, suffix, cpu, f) ensures f == found.value {
      SelectionIsUnique(table, mnemonic, operands, suffix, cpu, f, found.value);
    }
    var opword := EncodeOpword(form, fields);
    if opword.Err? { return -3, 0; }
    var extWords := new Word[MAX_EXTENSION_WORDS];
    var result, extCount := EmitExtensions(form, fields, operands, extWords);
    if result != 0 { return -4, 0; }
    if outBytes.Length < 2 + extCount * 2 { return -5, 0; }
    assert fields[..|form.patches|] == fields;
    byteCount := WriteWords(opword.value, extWords, extCount, outBytes);
    return 0, byteCount;
  }
}
