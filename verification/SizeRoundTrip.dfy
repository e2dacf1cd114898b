/** The size of an instruction: the suffix that the decoder reports and the length that the encoder
    gives to immediates, told apart from the same field values. */
module SizeRoundTrip {
  import opened Wrappers
  import opened Words
  import opened FormTable
  import opened Assembler
  import opened Disassembler
  import opened FieldRoundTrip

  /** The form says its size in its bits. */
  predicate ShowsSize(form: Form) { form.HasField(Size) || form.HasField(Opmode) || form.HasField(Displacement8) }

  /** The suffix that the bits of an instruction can tell. */
  function ToldSuffix(form: Form, suffix: Suffix): Suffix {
    if ShowsSize(form) then suffix else SuffixOfSingleSize(form.EffectiveSizeMask())
  }

  /** The values that the encoder gives to the patches for the suffix. */
  predicate Encodes(form: Form, suffix: Suffix, operands: seq<Operand>, fields: seq<Word>) {
    && |fields| == |form.patches|
    && forall i :: 0 <= i < |form.patches| ==> FieldValue(form, form.patches[i], suffix, operands) == Ok(fields[i])
  }

  /** A displacement byte holds the displacement of a byte branch or the signal of another. */
  predicate BranchTold(form: Form, suffix: Suffix, operands: seq<Operand>)
    requires StructureOk(form) && |operands| == |form.operandKinds|
  {
    forall i :: 0 <= i < |form.patches| && form.patches[i].kind.Displacement8? && 0 <= form.patches[i].operandIndex ==>
      var value := operands[form.patches[i].operandIndex].value;
      || suffix.SizeW?
      || (suffix.SizeB? && !LowByteIs(value, form.branchWordSignal) && !LowByteIs(value, form.branchLongSignal))
  }

  /** The field of a size or opmode patch: the value of the suffix, which its width does not cut. */
  lemma SizeField(form: Form, suffix: Suffix, operands: seq<Operand>, fields: seq<Word>, i: nat)
    requires StructureOk(form) && SizesOk(form) && Encodes(form, suffix, operands, fields) && i < |form.patches|
    ensures form.patches[i].kind.Size? ==>
              form.sizeValues.Of(suffix) != UNSET && fields[i] == form.sizeValues.Of(suffix) as Word
              && CutFields(form, fields)[i] == fields[i]
    ensures form.patches[i].kind.Opmode? ==>
              form.opmodeValues.Of(suffix) != UNSET && fields[i] == form.opmodeValues.Of(suffix) as Word
              && CutFields(form, fields)[i] == fields[i]
  {
    hide Under, WidthMask, OperandField, SizeValues.Of, SizeValues.AllUnset, SizeValues.Distinct;
  }

  lemma OwnValue(values: SizeValues, suffix: Suffix)
    requires values.Distinct() && values.Of(suffix) != UNSET
    ensures suffix != Bare
    ensures values.Has(values.Of(suffix) as Word) && SuffixOfValue(values, values.Of(suffix) as Word) == suffix
  {
  }

  /** The decoder accepts the size fields of every encoded instruction. */
  lemma EncodedFieldsAreValid(form: Form, suffix: Suffix, operands: seq<Operand>, fields: seq<Word>)
    requires StructureOk(form) && SizesOk(form) && Encodes(form, suffix, operands, fields)
    ensures ValidFields(form, CutFields(form, fields))
  {
    hide FieldValue, CutFields, SizeValues.Of, SizeValues.Has, SizeValues.Distinct, SizesFit, SuffixOfValue;
    forall i | 0 <= i < |form.patches|
      ensures form.patches[i].kind.Size? ==> form.sizeValues.Has(CutFields(form, fields)[i])
      ensures form.patches[i].kind.Opmode? ==> form.opmodeValues.Has(CutFields(form, fields)[i])
    {
      SizeField(form, suffix, operands, fields, i);
      if form.patches[i].kind.Size? { OwnValue(form.sizeValues, suffix); }
      if form.patches[i].kind.Opmode? { OwnValue(form.opmodeValues, suffix); }
    }
  }

  lemma BranchField(form: Form, suffix: Suffix, operands: seq<Operand>, fields: seq<Word>, i: nat)
    requires StructureOk(form) && BranchOk(form) && Encodes(form, suffix, operands, fields)
    requires |operands| == |form.operandKinds| && BranchTold(form, suffix, operands)
    requires i < |form.patches| && form.patches[i].kind.Displacement8?
    ensures var byte := ToByte(CutFields(form, fields)[i]);
            if suffix.SizeW? then byte == form.branchWordSignal
            else suffix.SizeB? && byte != form.branchWordSignal && byte != form.branchLongSignal
    ensures form.branchWordSignal == 0 && (fields[i] == 0 <==> suffix.SizeW?)
  {
    var patch := form.patches[i];
    var value := operands[patch.operandIndex].value;
    assert FieldValue(form, patch, suffix, operands) == OperandField(form, patch, suffix, operands[patch.operandIndex]);
    ByteOfField(form.branchWordSignal);
    ByteOfField(Low8(value));
  }

  /** The decoder reports the suffix that the instruction was encoded with, when its bits tell. */
  lemma SuffixComesBack(form: Form, suffix: Suffix, operands: seq<Operand>, fields: seq<Word>)
    requires StructureOk(form) && SizesOk(form) && BranchOk(form) && Encodes(form, suffix, operands, fields)
    requires |operands| == |form.operandKinds| && BranchTold(form, suffix, operands)
    ensures DecodedSuffix(form, CutFields(form, fields)) == ToldSuffix(form, suffix)
  {
    hide FieldValue, CutFields, SizeValues.Of, SizeValues.Has, SizesFit, SuffixOfValue, BranchTold,
         ToByte, WidthMask, SuffixOfSingleSize;
    var branch := FirstPatch(form, Displacement8, 0);
    var size := FirstPatch(form, Size, 0);
    var opmode := FirstPatch(form, Opmode, 0);
    if branch.Some? {
      BranchField(form, suffix, operands, fields, branch.value);
    } else {
      if size.Some? {
        SizeField(form, suffix, operands, fields, size.value);
        OwnValue(form.sizeValues, suffix);
      }
      if opmode.Some? {
        SizeField(form, suffix, operands, fields, opmode.value);
        OwnValue(form.opmodeValues, suffix);
      }
    }
  }

  /** A field with a size value of the form names that size only. */
  lemma NamedSize(form: Form, suffix: Suffix)
    requires form.sizeValues.Distinct() && form.opmodeValues.AllUnset() && form.sizeValues.Of(suffix) != UNSET
    ensures SizeNamedBy(form, form.sizeValues.Of(suffix) as Word) == suffix != Bare
  {
  }

  lemma NamedOpmode(form: Form, suffix: Suffix)
    requires form.opmodeValues.Distinct() && form.sizeValues.AllUnset() && form.opmodeValues.Of(suffix) != UNSET
    ensures SizeNamedBy(form, form.opmodeValues.Of(suffix) as Word) == suffix != Bare
  {
  }

  /** The encoder finds the same suffix in its field values. */
  lemma {:induction false} SuffixIsNamed(form: Form, suffix: Suffix, operands: seq<Operand>, fields: seq<Word>, i: nat)
    requires StructureOk(form) && SizesOk(form) && Encodes(form, suffix, operands, fields) && i <= |form.patches|
    ensures SuffixInFields(form, fields, i)
            == if exists j :: i <= j < |form.patches| && (form.patches[j].kind.Size? || form.patches[j].kind.Opmode?)
               then suffix else Bare
    decreases |form.patches| - i
  {
    hide FieldValue, CutFields, SizeValues.Of, SizesFit, SizeNamedBy, SizeValues.Distinct, SizeValues.AllUnset, Encodes;
    if i < |form.patches| {
      EncodesLength(form, suffix, operands, fields);
      SuffixIsNamed(form, suffix, operands, fields, i + 1);
      SizeField(form, suffix, operands, fields, i);
      if form.patches[i].kind.Size? { NamedSize(form, suffix); }
      if form.patches[i].kind.Opmode? { NamedOpmode(form, suffix); }
    }
  }

  lemma EncodesLength(form: Form, suffix: Suffix, operands: seq<Operand>, fields: seq<Word>)
    requires Encodes(form, suffix, operands, fields)
    ensures |fields| == |form.patches|
  {
  }

  lemma SingleSizeMask(mask: Byte)
    requires mask <= 7
    ensures SuffixFromMask(mask) == SuffixOfSingleSize(mask)
  {
  }

  /** The encoder and the decoder give immediates the same length exactly when the form shows its
      size, has a single one, or leaves a size that is not long to the operands. */
  lemma ImmediateWidthsAgree(form: Form, suffix: Suffix, operands: seq<Operand>, fields: seq<Word>)
    requires StructureOk(form) && SizesOk(form) && Encodes(form, suffix, operands, fields)
    requires !form.HasField(Displacement8)
    ensures (EmitsLongImmediate(form, fields, operands) <==> ToldSuffix(form, suffix).SizeL?)
            <==> ImmediateSizeSettled(form, operands)
  {
    hide Encodes, SizesOk, SuffixFromMask, SuffixOfSingleSize, ResolveSizeSuffix;
    EncodesLength(form, suffix, operands, fields);
    SuffixIsNamed(form, suffix, operands, fields, 0);
    MaskIsSmall(form);
    SingleSizeMask(form.EffectiveSizeMask());
    ShownSizeIsNotBare(form, suffix, operands, fields);
  }

  /** A caller can check this before encoding. */
  predicate ImmediateSizeSettled(form: Form, operands: seq<Operand>) {
    || ShowsSize(form)
    || SuffixOfSingleSize(form.EffectiveSizeMask()) != Bare
    || ResolveSizeSuffix(form, operands, Bare, CPU_ANY) != SizeL
  }

  lemma MaskIsSmall(form: Form)
    requires StructureOk(form) && SizesOk(form)
    ensures form.EffectiveSizeMask() <= 7
  {
    hide SizesFit;
  }

  lemma ShownSizeIsNotBare(form: Form, suffix: Suffix, operands: seq<Operand>, fields: seq<Word>)
    requires StructureOk(form) && SizesOk(form) && Encodes(form, suffix, operands, fields)
    ensures form.HasField(Size) || form.HasField(Opmode) ==> suffix != Bare
  {
    hide FieldValue, SizesFit, SizeValues.Of, Encodes;
    EncodesLength(form, suffix, operands, fields);
    forall i | 0 <= i < |form.patches|
      ensures form.patches[i].kind.Size? || form.patches[i].kind.Opmode? ==> suffix != Bare
    {
      SizeField(form, suffix, operands, fields, i);
      if form.patches[i].kind.Size? { OwnValue(form.sizeValues, suffix); }
      if form.patches[i].kind.Opmode? { OwnValue(form.opmodeValues, suffix); }
    }
  }
}
