/** The table-driven decoder: mask match, patch extraction, size suffix, operands, extensions.

    The operands are an array that the decoder fills in place; the functions beside each
    method say what it leaves there. */
module Disassembler {
  import opened Wrappers
  import opened Words
  import opened FormTable
  import opened RegisterMask
  import Assembler

  // ---------- matching and extraction ----------

  predicate WordMatches(form: Form, data: seq<Byte>, word: nat)
    requires StructureOk(form) && word <= |form.boundBases| && 2 * word + 2 <= |data|
  {
    Under(ReadU16(data, 2 * word), form.FixedMask(word)) == form.FixedBits(word)
  }

  /** The opword and bound words agree with the fixed bits of the form. */
  predicate MatchesForm(form: Form, data: seq<Byte>)
    requires StructureOk(form)
  {
    && 2 + 2 * |form.boundBases| <= |data|
    && forall w :: 0 <= w <= |form.boundBases| ==> WordMatches(form, data, w)
  }

  method MatchForm(form: Form, data: seq<Byte>) returns (matched: bool)
    requires StructureOk(form)
    ensures matched == MatchesForm(form, data)
  {
    hide WordMatches;
    if |data| < 2 { return false; }
    if !WordMatches(form, data, 0) { return false; }
    if |data| < 2 + |form.boundBases| * 2 { return false; }
    for word := 0 to |form.boundBases|
      invariant forall w :: 0 <= w <= word ==> WordMatches(form, data, w)
    {
      if !WordMatches(form, data, word + 1) { return false; }
    }
    return true;
  }

  /** The field values that lie in the first words of the data. */
  function ExtractedFields(form: Form, data: seq<Byte>): (fields: seq<Word>)
    requires StructureOk(form) && 2 + 2 * |form.boundBases| <= |data|
    ensures |fields| == |form.patches|
  {
    seq(|form.patches|, i requires 0 <= i < |form.patches| =>
      ExtractBits16(ReadU16(data, 2 * form.patches[i].wordIndex), form.patches[i].hi, form.patches[i].lo))
  }

  method ExtractPatchValues(form: Form, data: seq<Byte>, fields: array<Word>)
    requires StructureOk(form) && 2 + 2 * |form.boundBases| <= |data| && |form.patches| <= fields.Length
    modifies fields
    ensures fields[..|form.patches|] == ExtractedFields(form, data)
  {
    hide ExtractBits16, ReadU16;
    for i := 0 to |form.patches|
      invariant fields[..i] == ExtractedFields(form, data)[..i]
    {
      var patch := form.patches[i];
      fields[i] := ExtractBits16(ReadU16(data, patch.wordIndex * 2), patch.hi, patch.lo);
      assert fields[..i + 1] == ExtractedFields(form, data)[..i + 1];
    }
  }

  /** Every size and opmode field holds one of the values of the form. */
  predicate ValidFields(form: Form, fields: seq<Word>)
    requires |fields| == |form.patches|
  {
    forall i :: 0 <= i < |form.patches| ==>
      && (form.patches[i].kind.Size? ==> form.sizeValues.Has(fields[i]))
      && (form.patches[i].kind.Opmode? ==> form.opmodeValues.Has(fields[i]))
  }

  method ValidatePatchValues(form: Form, fields: seq<Word>) returns (valid: bool)
    requires |fields| == |form.patches|
    ensures valid == ValidFields(form, fields)
  {
    for i := 0 to |form.patches|
      invariant forall j :: 0 <= j < i ==>
                  && (form.patches[j].kind.Size? ==> form.sizeValues.Has(fields[j]))
                  && (form.patches[j].kind.Opmode? ==> form.opmodeValues.Has(fields[j]))
    {
      if form.patches[i].kind.Size? && !form.sizeValues.Has(fields[i]) { return false; }
      if form.patches[i].kind.Opmode? && !form.opmodeValues.Has(fields[i]) { return false; }
    }
    return true;
  }

  // ---------- size suffix ----------

  /** The first patch of a kind, counting from patch `i`. */
  function FirstPatch(form: Form, kind: FieldKind, i: nat): (found: Option<nat>)
    requires i <= |form.patches|
    ensures found.Some? ==> i <= found.value < |form.patches| && form.patches[found.value].kind == kind
    ensures found.None? ==> forall j :: i <= j < |form.patches| ==> form.patches[j].kind != kind
    decreases |form.patches| - i
  {
    if i == |form.patches| then None
    else if form.patches[i].kind == kind then Some(i)
    else FirstPatch(form, kind, i + 1)
  }

  function SuffixOfValue(values: SizeValues, value: Word): Suffix {
    if values.b != UNSET && value == values.b as Word then SizeB
    else if values.w != UNSET && value == values.w as Word then SizeW
    else if values.l != UNSET && value == values.l as Word then SizeL
    else Bare
  }

  function SizeVariantCount(mask: Byte): nat {
    (if mask & SIZE_B != 0 then 1 else 0) + (if mask & SIZE_W != 0 then 1 else 0) + (if mask & SIZE_L != 0 then 1 else 0)
  }

  /** The suffix that a form with a single size has without saying so in its bits. */
  function SuffixOfSingleSize(mask: Byte): Suffix {
    if SizeVariantCount(mask) != 1 then Bare
    else if mask & SIZE_B != 0 then SizeB
    else if mask & SIZE_W != 0 then SizeW
    else SizeL
  }

  function DecodedSuffix(form: Form, fields: seq<Word>): Suffix
    requires |fields| == |form.patches|
  {
    var branch := FirstPatch(form, Displacement8, 0);
    if branch.Some? then
      if ToByte(fields[branch.value]) == form.branchWordSignal then SizeW
      else if ToByte(fields[branch.value]) == form.branchLongSignal then SizeL
      else SizeB
    else
      var size := FirstPatch(form, Size, 0);
      if size.Some? && SuffixOfValue(form.sizeValues, fields[size.value]) != Bare
      then SuffixOfValue(form.sizeValues, fields[size.value])
      else
        var opmode := FirstPatch(form, Opmode, 0);
        if opmode.Some? && SuffixOfValue(form.opmodeValues, fields[opmode.value]) != Bare
        then SuffixOfValue(form.opmodeValues, fields[opmode.value])
        else SuffixOfSingleSize(form.EffectiveSizeMask())
  }

  // ---------- operands from patches ----------

  /** The operand of kind `kind` before any patch: the decoder's `init_operand`. */
  function BlankOperand(kind: OperandKind, shape: nat): Operand {
    var blankKind :=
      match kind
      case Ind => Ea
      case Absl => Ea
      case Postinc => Ea
      case Predec => NoOperand
      case _ => kind;
    var blank := NO_OPERAND.(kind := blankKind, regIsAddress := if kind.An? then 1 else 0);
    var fixed :=
      if kind.Absl? then blank.(eaMode := 7, eaReg := 1)
      else if kind.Ind? then blank.(eaMode := 2)
      else blank;
    if blankKind.Ea? && shape == 1 then fixed.(eaMode := 4)
    else if blankKind.Ea? && shape == 2 then fixed.(eaMode := 5)
    else fixed
  }

  function BlankOperands(form: Form): (operands: seq<Operand>)
    requires StructureOk(form)
    ensures |operands| == |form.operandKinds|
  {
    seq(|form.operandKinds|, k requires 0 <= k < |form.operandKinds| =>
      BlankOperand(form.operandKinds[k], form.shapes[k]))
  }

  /** One patch value written into its operand. */
  function PatchedOperand(form: Form, patch: FieldPatch, value: Word, operand: Operand): Operand
    requires patch.Ordered()
  {
    match patch.source
    case Reg | RegFirst | RegSecond => PatchedRegister(patch.source, value, operand)
    case RegKind | RegKindFirst | RegKindSecond => PatchedRegisterKind(patch.source, value, operand)
    case BfOffset | BfOffsetKind | BfWidth | BfWidthKind => PatchedBitfield(patch.source, value, operand)
    case EaMode | EaReg => PatchedAddress(patch.source, value, operand)
    case ValueHi16 | ValueLo16 => PatchedHalf(patch.source, value, operand)
    case WholeValue => PatchedValue(form, patch, value, operand)
    case NoValue | OpmodeValue => operand
  }

  function Flag(value: Word): Byte { if value != 0 then 1 else 0 }

  function PatchedRegister(source: ValueSource, value: Word, operand: Operand): Operand {
    if source.RegSecond? then operand.(pairReg := ToByte(value))
    else if operand.kind.Ea? then operand.(reg := ToByte(value), eaReg := ToByte(value))
    else operand.(reg := ToByte(value))
  }

  function PatchedRegisterKind(source: ValueSource, value: Word, operand: Operand): Operand {
    if source.RegKindSecond? then operand.(pairRegIsAddress := Flag(value))
    else operand.(regIsAddress := Flag(value))
  }

  function PatchedBitfield(source: ValueSource, value: Word, operand: Operand): Operand {
    if source.BfOffset? then operand.(bfOffset := ToByte(value))
    else if source.BfOffsetKind? then operand.(bfOffsetIsRegister := Flag(value))
    else if source.BfWidth? then operand.(bfWidth := ToByte(value))
    else operand.(bfWidthIsRegister := Flag(value))
  }

  function PatchedAddress(source: ValueSource, value: Word, operand: Operand): Operand {
    if source.EaMode? then operand.(eaMode := ToByte(value))
    else if operand.kind.Rn? then operand.(eaReg := ToByte(value), reg := ToByte(value))
    else operand.(eaReg := ToByte(value))
  }

  function PatchedHalf(source: ValueSource, value: Word, operand: Operand): Operand {
    if source.ValueHi16? then operand.(value := WithHigh(operand.value, value))
    else operand.(value := WithLow(operand.value, value))
  }

  function PatchedValue(form: Form, patch: FieldPatch, value: Word, operand: Operand): Operand
    requires patch.Ordered()
  {
    if operand.kind.Label? && patch.kind.Displacement8? then
      if ToByte(value) != form.branchWordSignal && ToByte(value) != form.branchLongSignal
      then operand.(value := SignExtend8(ToByte(value))) else operand
    else if patch.kind.Displacement8? then operand.(value := SignExtend8(ToByte(value)))
    else if patch.kind.Displacement16? then operand.(value := SignExtend16(value))
    else if operand.kind.Imm? && patch.Mask() == 7 && form.inlineZeroMeansEight && value == 0 then operand.(value := 8)
    else operand.(value := value as Long)
  }

  /** The operands after the first `count` patches. */
  function PatchedOperands(form: Form, fields: seq<Word>, count: nat): (operands: seq<Operand>)
    requires StructureOk(form) && |fields| == |form.patches| && count <= |form.patches|
    ensures |operands| == |form.operandKinds|
  {
    if count == 0 then BlankOperands(form)
    else
      var prior := PatchedOperands(form, fields, count - 1);
      var patch := form.patches[count - 1];
      if patch.operandIndex < 0 then prior
      else prior[patch.operandIndex := PatchedOperand(form, patch, fields[count - 1], prior[patch.operandIndex])]
  }

  // ---------- operands from extensions ----------

  /** The fewest bytes that one extension of this operand can take. */
  function MinimumBytes(form: Form, extension: ExtensionDef, operand: Operand, suffix: Suffix): nat {
    match extension.kind
    case EaSingleWord => if operand.SingleWordMode() then 2 else 0
    case EaLongAddress => if operand.LongAddressMode() then 4 else 0
    case EaImmediate =>
      if operand.kind.Imm? || (operand.kind.Ea? && operand.ImmediateMode())
      then (if suffix == SizeL then 4 else 2) else 0
    case EaIndex => if operand.IndexMode() then 2 else 0
    case LabelDisp16IfZero =>
      if LowByteIs(operand.value, form.branchWordSignal) then form.branchWordBytes
      else if LowByteIs(operand.value, form.branchLongSignal) then form.branchLongBytes
      else 0
    case LabelDisp16Always => form.branchWordBytes
    case Disp16Always => 2
  }

  function MinimumTail(form: Form, operands: seq<Operand>, suffix: Suffix, start: nat): nat
    requires StructureOk(form) && |operands| == |form.operandKinds| && start <= |form.extensions|
    decreases |form.extensions| - start
  {
    if start == |form.extensions| then 0
    else
      MinimumBytes(form, form.extensions[start], operands[form.extensions[start].operandIndex], suffix)
      + MinimumTail(form, operands, suffix, start + 1)
  }

  method MinimumRemainingExtensionBytes(form: Form, start: nat, operands: array<Operand>, suffix: Suffix)
    returns (total: nat)
    requires StructureOk(form) && operands.Length == |form.operandKinds| && start <= |form.extensions|
    ensures total == MinimumTail(form, operands[..], suffix, start)
  {
    hide MinimumBytes;
    total := 0;
    for i := start to |form.extensions|
      invariant total + MinimumTail(form, operands[..], suffix, i) == MinimumTail(form, operands[..], suffix, start)
    {
      var extension := form.extensions[i];
      total := total + MinimumBytes(form, extension, operands[extension.operandIndex], suffix);
    }
  }

  function BriefIndex(word: Word, index: IndexWord): IndexWord {
    index.(isAddress := ToByte((word >> 15) & 0x1), reg := ToByte((word >> 12) & 0x7),
           long := ToByte((word >> 11) & 0x1), scale := ToByte((word >> 9) & 0x3))
  }

  function FullIndex(word: Word, index: IndexWord): IndexWord {
    BriefIndex(word, index).(baseSuppress := ToByte((word >> 7) & 0x1), indexSuppress := ToByte((word >> 6) & 0x1),
                             baseDispSize := ToByte((word >> 4) & 0x3), iis := ToByte(word & 0x7))
  }

  predicate IsFullFormat(word: Word) { (word >> 8) & 0x1 != 0 }

  /** A base displacement read back, and the offset behind it. */
  function ReadBaseDisplacement(data: seq<Byte>, size: nat, offset: nat, index: IndexWord): Option<(IndexWord, nat)>
    requires size <= |data|
  {
    if index.baseDispSize == FULL_EXT_BD_WORD then
      if offset + 2 > size then None
      else Some((index.(baseDisp := SignExtend16(ReadU16(data, offset))), offset + 2))
    else if index.baseDispSize == FULL_EXT_BD_LONG then
      if offset + 4 > size then None
      else Some((index.(baseDisp := ReadU32(data, offset)), offset + 4))
    else Some((index, offset))
  }

  /** The outer displacement is recognised by the number of bytes that remain. */
  function ReadOuterDisplacement(data: seq<Byte>, size: nat, offset: nat, index: IndexWord): (IndexWord, nat)
    requires offset <= size <= |data|
  {
    if size - offset == 2 then
      (index.(outerDispSize := FULL_EXT_BD_WORD, outerDisp := SignExtend16(ReadU16(data, offset))), offset + 2)
    else if size - offset == 4 then
      (index.(outerDispSize := FULL_EXT_BD_LONG, outerDisp := ReadU32(data, offset)), offset + 4)
    else (index, offset)
  }

  /** The operand and offset after an index extension at `offset`, reading below `size` only. */
  function DecodedIndex(data: seq<Byte>, size: nat, operand: Operand, offset: nat, allowFull: bool)
    : (r: Option<(Operand, nat)>)
    requires size <= |data|
    ensures r.Some? ==> offset + 2 <= r.value.1 <= size
  {
    if offset + 2 > size then None
    else
      var word := ReadU16(data, offset);
      if allowFull && IsFullFormat(word) then
        var inner := ReadBaseDisplacement(data, size, offset + 2, FullIndex(word, operand.index));
        if inner.None? then None
        else
          var outer := ReadOuterDisplacement(data, size, inner.value.1, inner.value.0);
          Some((operand.(value := 0, index := outer.0), outer.1))
      else
        Some((operand.(value := SignExtend8(ToByte(word & 0xFF)), index := BriefIndex(word, operand.index)), offset + 2))
  }

  method DecodeIndexExtension(data: seq<Byte>, size: nat, operands: array<Operand>, k: nat, offset: nat, allowFull: bool)
    returns (ok: bool, newOffset: nat)
    requires size <= |data| && k < operands.Length
    modifies operands
    ensures var r := DecodedIndex(data, size, old(operands[k]), offset, allowFull);
            && ok == r.Some?
            && (ok ==> operands[..] == old(operands[..])[k := r.value.0] && newOffset == r.value.1)
      {
    hide BriefIndex, FullIndex, ToByte, ReadU16, ReadU32, SignExtend8, SignExtend16, IsFullFormat;
    newOffset := offset;
    if offset + 2 > size { return false, offset; }
    var word := ReadU16(data, offset);
    newOffset := offset + 2;
    var operand := operands[k];
    operands[k] := operand.(index := BriefIndex(word, operand.index), value := SignExtend8(ToByte(word & 0xFF)));
    if allowFull && IsFullFormat(word) {
      var index := FullIndex(word, operand.index);
      if index.baseDispSize == FULL_EXT_BD_WORD {
        if newOffset + 2 > size { return false, newOffset; }
        index := index.(baseDisp := SignExtend16(ReadU16(data, newOffset)));
        newOffset := newOffset + 2;
      } else if index.baseDispSize == FULL_EXT_BD_LONG {
        if newOffset + 4 > size { return false, newOffset; }
        index := index.(baseDisp := ReadU32(data, newOffset));
        newOffset := newOffset + 4;
      }
      var remaining := size - newOffset;
      if remaining == 2 {
        index := index.(outerDispSize := FULL_EXT_BD_WORD, outerDisp := SignExtend16(ReadU16(data, newOffset)));
        newOffset := newOffset + 2;
      } else if remaining == 4 {
        index := index.(outerDispSize := FULL_EXT_BD_LONG, outerDisp := ReadU32(data, newOffset));
        newOffset := newOffset + 4;
      }
      operands[k] := operands[k].(value := 0, index := index);
    }
    return true, newOffset;
  }

  function ReadWordValue(data: seq<Byte>, operand: Operand, offset: nat): Option<(Operand, nat)> {
    if offset + 2 > |data| then None else Some((operand.(value := SignExtend16(ReadU16(data, offset))), offset + 2))
  }

  function ReadLongValue(data: seq<Byte>, operand: Operand, offset: nat): Option<(Operand, nat)> {
    if offset + 4 > |data| then None else Some((operand.(value := ReadU32(data, offset)), offset + 4))
  }

  /** A branch displacement of the size that the form gives to the signal in the opword. */
  function ReadBranchValue(data: seq<Byte>, operand: Operand, offset: nat, bytes: nat): Option<(Operand, nat)> {
    if bytes == 2 then ReadWordValue(data, operand, offset)
    else if bytes == 4 then ReadLongValue(data, operand, offset)
    else Some((operand, offset))
  }

  /** A displacement behind the opword, when the byte in the opword says that there is one. */
  function ReadSignalled(form: Form, data: seq<Byte>, operand: Operand, offset: nat): Option<(Operand, nat)> {
    if LowByteIs(operand.value, form.branchWordSignal) then ReadBranchValue(data, operand, offset, form.branchWordBytes)
    else if LowByteIs(operand.value, form.branchLongSignal) then ReadBranchValue(data, operand, offset, form.branchLongBytes)
    else Some((operand, offset))
  }

  /** An immediate of the size that the suffix says. */
  function ReadImmediate(data: seq<Byte>, operand: Operand, suffix: Suffix, offset: nat): Option<(Operand, nat)> {
    if suffix == SizeL then ReadLongValue(data, operand, offset)
    else if offset + 2 > |data| then None
    else Some((operand.(value := ReadU16(data, offset) as Long), offset + 2))
  }

  /** One extension read into its operand, when the later ones take `tail` bytes at least. */
  function ReadExtension(form: Form, kind: ExtensionKind, data: seq<Byte>, operand: Operand, suffix: Suffix,
                         offset: nat, tail: nat): (r: Option<(Operand, nat)>)
  {
    match kind
    case EaSingleWord =>
      if operand.SingleWordMode() then ReadWordValue(data, operand, offset) else Some((operand, offset))
    case EaLongAddress =>
      if operand.LongAddressMode() then ReadLongValue(data, operand, offset) else Some((operand, offset))
    case EaImmediate =>
      if operand.kind.Imm? || (operand.kind.Ea? && operand.ImmediateMode()) then
        ReadImmediate(data, operand, suffix, offset)
      else Some((operand, offset))
    case EaIndex =>
      if !operand.IndexMode() then Some((operand, offset))
      else if tail > |data| then None
      else DecodedIndex(data, |data| - tail, operand, offset, |data| > offset + tail)
    case LabelDisp16IfZero => ReadSignalled(form, data, operand, offset)
    case LabelDisp16Always => ReadBranchValue(data, operand, offset, form.branchWordBytes)
    case Disp16Always => ReadWordValue(data, operand, offset)
  }

  /** The operand of extension `j` and the offset after it. */
  function DecodedExtension(form: Form, j: nat, data: seq<Byte>, operands: seq<Operand>, suffix: Suffix, offset: nat)
    : (r: Option<(Operand, nat)>)
    requires StructureOk(form) && |operands| == |form.operandKinds| && j < |form.extensions|
  {
    ReadExtension(form, form.extensions[j].kind, data, operands[form.extensions[j].operandIndex], suffix, offset,
                  MinimumTail(form, operands, suffix, j + 1))
  }

  /** Operands and offset after the extensions from `j` on. */
  function DecodedExtensions(form: Form, data: seq<Byte>, operands: seq<Operand>, suffix: Suffix, offset: nat, j: nat)
    : (r: Option<(seq<Operand>, nat)>)
    requires StructureOk(form) && |operands| == |form.operandKinds| && j <= |form.extensions|
    ensures r.Some? ==> |r.value.0| == |operands|
    decreases |form.extensions| - j
  {
    if j == |form.extensions| then Some((operands, offset))
    else
      var step := DecodedExtension(form, j, data, operands, suffix, offset);
      if step.None? then None
      else
        DecodedExtensions(form, data, operands[form.extensions[j].operandIndex := step.value.0], suffix,
                          step.value.1, j + 1)
  }

  method ReadWord(data: seq<Byte>, operands: array<Operand>, k: nat, offset: nat) returns (ok: bool, newOffset: nat)
    requires k < operands.Length
    modifies operands
    ensures var r := ReadWordValue(data, old(operands[k]), offset);
            ok == r.Some? && (ok ==> operands[..] == old(operands[..])[k := r.value.0] && newOffset == r.value.1)
  {
    if offset + 2 > |data| { return false, offset; }
    operands[k] := operands[k].(value := SignExtend16(ReadU16(data, offset)));
    return true, offset + 2;
  }

  method ReadLong(data: seq<Byte>, operands: array<Operand>, k: nat, offset: nat) returns (ok: bool, newOffset: nat)
    requires k < operands.Length
    modifies operands
    ensures var r := ReadLongValue(data, old(operands[k]), offset);
            ok == r.Some? && (ok ==> operands[..] == old(operands[..])[k := r.value.0] && newOffset == r.value.1)
  {
    if offset + 4 > |data| { return false, offset; }
    operands[k] := operands[k].(value := ReadU32(data, offset));
    return true, offset + 4;
  }

  method ReadBranch(data: seq<Byte>, operands: array<Operand>, k: nat, offset: nat, bytes: nat)
    returns (ok: bool, newOffset: nat)
    requires k < operands.Length
    modifies operands
    ensures var r := ReadBranchValue(data, old(operands[k]), offset, bytes);
            ok == r.Some? && (ok ==> operands[..] == old(operands[..])[k := r.value.0] && newOffset == r.value.1)
  {
    ok, newOffset := true, offset;
    if bytes == 2 { ok, newOffset := ReadWord(data, operands, k, offset); }
    else if bytes == 4 { ok, newOffset := ReadLong(data, operands, k, offset); }
  }

  method DecodeOneExtension(form: Form, j: nat, data: seq<Byte>, operands: array<Operand>, suffix: Suffix, offset: nat)
    returns (ok: bool, newOffset: nat)
    requires StructureOk(form) && operands.Length == |form.operandKinds| && j < |form.extensions|
    modifies operands
    ensures var r := DecodedExtension(form, j, data, old(operands[..]), suffix, offset);
            && ok == r.Some?
            && (ok ==> operands[..] == old(operands[..])[form.extensions[j].operandIndex := r.value.0])
            && (ok ==> newOffset == r.value.1)
  {
    hide ReadWordValue, ReadLongValue, ReadBranchValue, DecodedIndex, LowByteIs, ReadU16, IsSingleWordMode,
         IsLongAddressMode, IsImmediateMode, IsIndexMode;
    var extension := form.extensions[j];
    var k := extension.operandIndex;
    ok, newOffset := true, offset;
    match extension.kind {
      case EaSingleWord =>
        if operands[k].SingleWordMode() { ok, newOffset := ReadWord(data, operands, k, offset); }
      case EaLongAddress =>
        if operands[k].LongAddressMode() { ok, newOffset := ReadLong(data, operands, k, offset); }
      case EaImmediate =>
        if operands[k].kind.Imm? || (operands[k].kind.Ea? && operands[k].ImmediateMode()) {
          if suffix == SizeL { ok, newOffset := ReadLong(data, operands, k, offset); }
          else if offset + 2 > |data| { ok := false; }
          else {
            operands[k] := operands[k].(value := ReadU16(data, offset) as Long);
            newOffset := offset + 2;
          }
        }
      case EaIndex =>
        if operands[k].IndexMode() {
          var tail := MinimumRemainingExtensionBytes(form, j + 1, operands, suffix);
          if tail > |data| { ok := false; }
          else {
            ok, newOffset := DecodeIndexExtension(data, |data| - tail, operands, k, offset, |data| > offset + tail);
          }
        }
      case LabelDisp16IfZero =>
        if LowByteIs(operands[k].value, form.branchWordSignal) {
          ok, newOffset := ReadBranch(data, operands, k, offset, form.branchWordBytes);
        } else if LowByteIs(operands[k].value, form.branchLongSignal) {
          ok, newOffset := ReadBranch(data, operands, k, offset, form.branchLongBytes);
        }
      case LabelDisp16Always =>
        ok, newOffset := ReadBranch(data, operands, k, offset, form.branchWordBytes);
      case Disp16Always =>
        ok, newOffset := ReadWord(data, operands, k, offset);
    }
  }

  method DecodeExtensions(form: Form, data: seq<Byte>, operands: array<Operand>, suffix: Suffix)
    returns (ok: bool, byteCount: nat)
    requires StructureOk(form) && operands.Length == |form.operandKinds|
    modifies operands
    ensures var r := DecodedExtensions(form, data, old(operands[..]), suffix, 2 + 2 * |form.boundBases|, 0);
            ok == r.Some? && (ok ==> operands[..] == r.value.0 && byteCount == r.value.1)
  {
    hide DecodedExtension;
    byteCount := 2 + 2 * |form.boundBases|;
    ghost var start := operands[..];
    for j := 0 to |form.extensions|
      invariant DecodedExtensions(form, data, start, suffix, 2 + 2 * |form.boundBases|, 0)
                == DecodedExtensions(form, data, operands[..], suffix, byteCount, j)
    {
      ok, byteCount := DecodeOneExtension(form, j, data, operands, suffix, byteCount);
      if !ok { return; }
    }
    ok := true;
  }

  // ---------- whole instructions ----------

  /** Table of effective address modes allowed at operand `k`; no entry allows every mode. */
  predicate EaModeAllowed(form: Form, k: nat, operand: Operand)
    requires k < |form.eaModeMasks|
  {
    !operand.IsMemoryEa() || form.eaModeMasks[k] == 0 ||
    (operand.eaMode <= 7 && operand.eaReg <= 7 &&
     form.eaModeMasks[k] & (1 << (operand.eaMode * 8 + operand.eaReg)) != 0)
  }

  predicate IsMovemPredecrement(form: Form, data: seq<Byte>, operands: seq<Operand>)
    requires 2 <= |data| && |operands| == |form.operandKinds|
  {
    form.mnemonic.Movem? && |operands| >= 2 && operands[0].kind.Reglist? && PredecrementMode(ReadU16(data, 0))
  }

  /** The mode field of the opword is that of the predecrement mode. */
  predicate PredecrementMode(opword: Word) { (opword >> 3) & 0x7 == 4 }

  function WithReversedMask(operand: Operand): Operand {
    operand.(value := Reversed(Low16(operand.value)) as Long)
  }

  datatype Decoded = Decoded(operands: seq<Operand>, suffix: Suffix, byteCount: nat)

  /** What the decoder makes of the data when it tries this form. */
  function DecodedAs(form: Form, data: seq<Byte>): Option<Decoded>
    requires StructureOk(form)
  {
    if !MatchesForm(form, data) then None
    else
      var fields := ExtractedFields(form, data);
      var suffix := DecodedSuffix(form, fields);
      if !ValidFields(form, fields) then None
      else
        var extended := DecodedExtensions(form, data, PatchedOperands(form, fields, |form.patches|), suffix,
                                          2 + 2 * |form.boundBases|, 0);
        if extended.None? then None
        else
          var operands := extended.value.0;
          if exists k :: 0 <= k < |operands| && !EaModeAllowed(form, k, operands[k]) then None
          else if IsMovemPredecrement(form, data, operands)
          then Some(Decoded(operands[0 := WithReversedMask(operands[0])], suffix, extended.value.1))
          else Some(Decoded(operands, suffix, extended.value.1))
  }

  method InitOperands(form: Form, operands: array<Operand>)
    requires StructureOk(form) && operands.Length == |form.operandKinds|
    modifies operands
    ensures operands[..] == BlankOperands(form)
  {
    hide BlankOperand;
    for k := 0 to |form.operandKinds|
      invariant operands[..k] == BlankOperands(form)[..k]
    {
      operands[k] := BlankOperand(form.operandKinds[k], form.shapes[k]);
      assert operands[..k + 1] == BlankOperands(form)[..k + 1];
    }
  }

  method ApplyPatches(form: Form, fields: seq<Word>, operands: array<Operand>)
    requires StructureOk(form) && |fields| == |form.patches| && operands.Length == |form.operandKinds|
    requires operands[..] == BlankOperands(form)
    modifies operands
    ensures operands[..] == PatchedOperands(form, fields, |form.patches|)
  {
    hide PatchedOperand;
    for i := 0 to |form.patches|
      invariant operands[..] == PatchedOperands(form, fields, i)
    {
      var patch := form.patches[i];
      if patch.operandIndex < 0 { continue; }
      operands[patch.operandIndex] := PatchedOperand(form, patch, fields[i], operands[patch.operandIndex]);
    }
  }

  method DecodeOperands(form: Form, fields: seq<Word>, suffix: Suffix, data: seq<Byte>, operands: array<Operand>)
    returns (ok: bool, byteCount: nat)
    requires StructureOk(form) && |fields| == |form.patches| && operands.Length == |form.operandKinds|
    requires 2 <= |data|
    modifies operands
    ensures var r := DecodedExtensions(form, data, PatchedOperands(form, fields, |form.patches|), suffix,
                                       2 + 2 * |form.boundBases|, 0);
            && (ok <==> r.Some? && forall k :: 0 <= k < |r.value.0| ==> EaModeAllowed(form, k, r.value.0[k]))
            && (ok ==> byteCount == r.value.1
                       && operands[..] == if IsMovemPredecrement(form, data, r.value.0)
                                          then r.value.0[0 := WithReversedMask(r.value.0[0])] else r.value.0)
  {
    InitOperands(form, operands);
    ApplyPatches(form, fields, operands);
    hide PatchedOperands, DecodedExtensions, EaModeAllowed, IsMovemPredecrement, WithReversedMask;
    ok, byteCount := DecodeExtensions(form, data, operands, suffix);
    if !ok { return; }
    ok := CheckEaModes(form, operands);
    if ok { RestoreMovemMask(form, data, operands); }
  }

  method CheckEaModes(form: Form, operands: array<Operand>) returns (allowed: bool)
    requires StructureOk(form) && operands.Length == |form.operandKinds|
    ensures allowed <==> forall k :: 0 <= k < operands.Length ==> EaModeAllowed(form, k, operands[..][k])
  {
    hide EaModeAllowed;
    for k := 0 to operands.Length
      invariant forall j :: 0 <= j < k ==> EaModeAllowed(form, j, operands[..][j])
    {
      assert operands[..][k] == operands[k];
      if !EaModeAllowed(form, k, operands[k]) { return false; }
    }
    return true;
  }

  /** The predecrement mode of MOVEM lists the registers from the other end. */
  method RestoreMovemMask(form: Form, data: seq<Byte>, operands: array<Operand>)
    requires StructureOk(form) && operands.Length == |form.operandKinds| && 2 <= |data|
    modifies operands
    ensures operands[..] == if IsMovemPredecrement(form, data, old(operands[..]))
                            then old(operands[..])[0 := WithReversedMask(old(operands[0]))] else old(operands[..])
  {
    hide ReadU16, PredecrementMode, WithReversedMask;
    if IsMovemPredecrement(form, data, operands[..]) {
      var restored := ReverseMaskOf(operands[0]);
      operands[0] := restored;
    }
  }

  method ReverseMaskOf(operand: Operand) returns (restored: Operand)
    ensures restored == WithReversedMask(operand)
  {
    hide Low16, Reversed;
    var reversed := ReverseReglistMask(Low16(operand.value));
    restored := operand.(value := reversed as Long);
  }

  const MAX_PATCHES: nat := 32

  /** The attempt of the decoder to read the data as one form. */
  method DisassembleAs(form: Form, data: seq<Byte>) returns (decoded: Option<Decoded>)
    requires StructureOk(form) && |form.patches| <= MAX_PATCHES
    ensures decoded == DecodedAs(form, data)
  {
    hide WordMatches, ExtractedFields, ValidFields, DecodedSuffix, PatchedOperands, DecodedExtensions, EaModeAllowed;
    var matched := MatchForm(form, data);
    if !matched { return None; }
    var buffer := new Word[MAX_PATCHES];
    ExtractPatchValues(form, data, buffer);
    var fields := buffer[..|form.patches|];
    var valid := ValidatePatchValues(form, fields);
    if !valid { return None; }
    var suffix := DecodedSuffix(form, fields);
    var operands := new Operand[|form.operandKinds|](_ => NO_OPERAND);
    var ok, byteCount := DecodeOperands(form, fields, suffix, data, operands);
    if !ok { return None; }
    return Some(Decoded(operands[..], suffix, byteCount));
  }
}
