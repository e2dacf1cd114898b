/** From symbol to target and back: an instruction is resolved, encoded at its offset, decoded there
    among other bytes, and the analysis collects the target of its reference. */
module SymbolRoundTrip {
  import opened Wrappers
  import opened Words
  import opened FormTable
  import opened Assembler
  import opened Disassembler
  import opened FieldRoundTrip
  import opened SizeRoundTrip
  import opened InstructionRoundTrip
  import opened IrCodec
  import opened Spans
  import opened SymbolTargets

  // ---------- resolving an instruction ----------

  function WithValues(instruction: Instruction, values: seq<Operand>): Instruction
    requires |values| == |instruction.operands|
  {
    instruction.(operands := seq(|values|, i requires 0 <= i < |values| => OperandIR(instruction.operands[i].kind, values[i])))
  }

  /** The instruction with its references resolved; None when one of them has no target. */
  function Resolved(context: Context, instruction: Instruction, references: seq<Option<Reference>>): Option<Instruction>
    requires |references| == |instruction.operands|
  {
    match AppliedOf(context, ValuesOf(instruction.operands), references, |references|)
    case None => None
    case Some(values) => Some(WithValues(instruction, values))
  }

  /** Operand `k` names a target relative to where the instruction is. */
  predicate NamesTarget(operand: Operand) { operand.kind.Label? || HasPcTarget(operand) }

  predicate Names(instruction: Instruction, references: seq<Option<Reference>>, k: nat) {
    && k < |instruction.operands| == |references|
    && references[k].Some? && !references[k].value.absolute
    && NamesTarget(instruction.operands[k].value)
    && (k <= 1 || !IsPcRelative(instruction.operands[k].value))
  }

  /** The place that the displacement of operand `k` counts from. */
  function PlaceOf(form: Form, instruction: Instruction, k: nat, offset: nat): Long
    requires k < |instruction.operands|
  {
    if instruction.operands[k].value.kind.Label? then Plus(Wrapped(offset), 2)
    else Plus(Wrapped(offset), Wrapped(RelativeBaseOf(form, ValuesOf(instruction.operands), instruction.suffix, k)))
  }

  /** Resolving leaves the displacement of the target from its place, but the target itself in a
      bit-field operand. */
  lemma ResolvedHolds(context: Context, instruction: Instruction, references: seq<Option<Reference>>, k: nat, offset: nat)
    requires Names(instruction, references, k) && Wrapped(offset) == context.offset && context.suffix == instruction.suffix
    requires Resolved(context, instruction, references).Some?
    ensures var resolved := Resolved(context, instruction, references).value;
            var target := TargetOf(references[k].value, context.allowUndefined);
            && target.Some? && k < |resolved.operands| == |instruction.operands|
            && resolved.operands[k].value
               == instruction.operands[k].value.(value :=
                    if instruction.operands[k].value.kind.BfEa? then target.value
                    else Minus(target.value, PlaceOf(context.form, resolved, k, offset)))
  {
    hide OperandWordCount, RelativeBaseOf, IsPcMode, Wrapped, Plus, Minus, AppliedOf, TargetOf;
    var values := ValuesOf(instruction.operands);
    assert values[k] == instruction.operands[k].value;
    ResolvedDisplacement(context, values, references, k);
    var applied := AppliedOf(context, values, references, |references|).value;
    assert ValuesOf(WithValues(instruction, applied).operands) == applied;
  }

  // ---------- collecting the target ----------

  /** The words before operand `k` are counted alike for the told suffix and for the given one. */
  predicate BaseSettled(form: Form, instruction: Instruction, told: Suffix, k: nat)
    requires |form.operandKinds| == |instruction.operands|
  {
    forall i :: 0 <= i < k && i < |instruction.operands| ==>
      && !form.operandKinds[i].Absl?
      && OperandWordCount(instruction.operands[i].value, told) == OperandWordCount(instruction.operands[i].value, instruction.suffix)
  }

  lemma {:induction false} SettledBases(form: Form, instruction: Instruction, told: Suffix, k: nat)
    requires |form.operandKinds| == |instruction.operands| && k <= |instruction.operands|
    requires BaseSettled(form, instruction, told, k)
    ensures RelativeBaseOf(form, ValuesOf(instruction.operands), told, k)
            == RelativeBaseOf(form, ValuesOf(instruction.operands), instruction.suffix, k)
  {
    hide OperandWordCount;
    if k > 0 { SettledBases(form, instruction, told, k - 1); }
  }

  /** What the collector makes of a taken over operand: its value, counted from its place. */
  lemma CollectedTarget(form: Form, instruction: Instruction, decoded: Decoded, k: nat, offset: nat, sectionSize: nat)
    requires StructureOk(form) && KindsOk(form) && TakenOver(form, instruction.operands, decoded)
    requires k < |instruction.operands| && offset < ADDRESS_LIMIT && NamesTarget(instruction.operands[k].value)
    requires BaseSettled(form, instruction, decoded.suffix, k)
    ensures var operand := instruction.operands[k].value;
            var displacement := if HasPcTarget(operand) && operand.eaReg == 2 then SignExtend16(Low16(operand.value))
                                else operand.value;
            var target := Plus(PlaceOf(form, instruction, k, offset), displacement);
            CandidateTarget(form, decoded, k, offset, sectionSize)
            == if operand.kind.Label? || InReach(form, instruction, k, target, offset, sectionSize) then Some(target)
               else None
  {
    hide OperandWordCount, FromCandidate, RelativeBaseOf, Wrapped, SignExtend16, Low16, Plus, StructureOk, KindsOk, IsPcMode,
         PlainOperand, BaseSettled;
    BasesAgree(form, instruction.operands, decoded, decoded.suffix, k);
    SettledBases(form, instruction, decoded.suffix, k);
    NoLongBefore(form, instruction, decoded.suffix, k);
    assert FromCandidate(form.operandKinds[k], decoded.operands[k]) == instruction.operands[k];
  }

  lemma NoLongBefore(form: Form, instruction: Instruction, told: Suffix, k: nat)
    requires |form.operandKinds| == |instruction.operands| && k <= |instruction.operands|
    requires BaseSettled(form, instruction, told, k)
    ensures forall i :: 0 <= i < k ==> !form.operandKinds[i].Absl?
  {
    hide OperandWordCount;
  }

  /** The collector keeps a target inside the section, counted from a place in the address space. */
  predicate InReach(form: Form, instruction: Instruction, k: nat, target: Long, offset: nat, sectionSize: nat)
    requires k < |instruction.operands|
  {
    && offset + RelativeBaseOf(form, ValuesOf(instruction.operands), instruction.suffix, k) < ADDRESS_LIMIT
    && (target as nat) < sectionSize
  }

  // ---------- encoding and decoding in between ----------

  function ToldOf(form: Form, instruction: Instruction): Suffix {
    ToldSuffix(form, ResolveSizeSuffix(form, EncodedValues(instruction), instruction.suffix, CPU_ANY))
  }

  /** The instruction is encoded, and decoding it with `extra` bytes behind it gives it back. */
  ghost predicate Survives(table: seq<Form>, instruction: Instruction, maxBytes: nat, extra: nat)
    requires forall i :: 0 <= i < |table| ==> StructureOk(table[i])
  {
    && Encodable(table, instruction) && EncodedOne(table, instruction, maxBytes).Some?
    && var form := table[instruction.formIndex];
       |instruction.operands| == |form.operandKinds|
       && AllRecognised(form, ToldOf(form, instruction), DecoderViews(form, EncodedValues(instruction)), extra)
  }

  /** What the analysis takes over of the encoded instruction. */
  lemma SurvivorIsTakenOver(table: seq<Form>, instruction: Instruction, maxBytes: nat, rest: seq<Byte>)
    requires forall i :: 0 <= i < |table| ==> StructureOk(table[i])
    requires Survives(table, instruction, maxBytes, |rest|)
    ensures instruction.formIndex < |table|
    ensures var form := table[instruction.formIndex];
            var decoded := DecodedAs(form, EncodedOne(table, instruction, maxBytes).value + rest);
            && KindsOk(form) && decoded.Some? && TakenOver(form, instruction.operands, decoded.value)
            && decoded.value.suffix == ToldOf(form, instruction)
            && decoded.value.byteCount == |EncodedOne(table, instruction, maxBytes).value|
  {
    hide Encodable, EncodedOne, AllRecognised, ToldSuffix, ResolveSizeSuffix, StructureOk, KindsOk, DecodedAs, EncodedValues,
         PlainOperand, FromCandidate, MatchesForm, MatchesFormKind, DecoderViews;
    EncodableParts(table, instruction);
    var form := table[instruction.formIndex];
    EncodeDecodeRoundTrip(table, instruction, maxBytes, rest);
    EncodableRow(table, instruction);
    CandidateOperands(form, instruction,
                      DecodedAs(form, EncodedOne(table, instruction, maxBytes).value + rest).value, ToldOf(form, instruction));
  }

  lemma EncodableRow(table: seq<Form>, instruction: Instruction)
    requires Encodable(table, instruction)
    ensures KindsOk(table[instruction.formIndex])
  {
    hide WellFormed, KindsFit, PlainOperand, SelectsForm, Normalised, ImmediatesSettled, EncodedValues, ToldSuffix,
         ResolveSizeSuffix, KindsOk;
    NamedRow(table[instruction.formIndex]);
  }

  lemma CandidateOperands(form: Form, instruction: Instruction, decoded: Decoded, told: Suffix)
    requires |decoded.operands| == |form.operandKinds| == |instruction.operands|
    requires CandidateInstruction(form, instruction.formIndex, instruction.cpu, decoded) == instruction.(suffix := told)
    ensures decoded.suffix == told
    ensures forall i :: 0 <= i < |instruction.operands| ==>
              FromCandidate(form.operandKinds[i], decoded.operands[i]) == instruction.operands[i]
  {
    hide FromCandidate;
    forall i | 0 <= i < |instruction.operands|
      ensures FromCandidate(form.operandKinds[i], decoded.operands[i]) == instruction.operands[i]
    {
      assert CandidateInstruction(form, instruction.formIndex, instruction.cpu, decoded).operands[i]
             == FromCandidate(form.operandKinds[i], decoded.operands[i]);
    }
  }

  // ---------- the round trip of a reference ----------

  /** A reference is resolved, the instruction encoded, and decoded with any bytes behind it: the
      collector finds the target again for every label, and for a program-counter relative operand in
      its reach unless it is a bit-field operand, into which the target itself was written. Such an
      operand leads to its target only from the place 0. */
  lemma ReferenceComesBack(table: seq<Form>, context: Context, instruction: Instruction, references: seq<Option<Reference>>,
                           k: nat, offset: nat, sectionSize: nat, maxBytes: nat, rest: seq<Byte>)
    requires forall i :: 0 <= i < |table| ==> StructureOk(table[i])
    requires Names(instruction, references, k) && instruction.formIndex < |table|
    requires context.form == table[instruction.formIndex] && context.suffix == instruction.suffix
    requires offset < ADDRESS_LIMIT && context.offset == Wrapped(offset)
    requires Resolved(context, instruction, references).Some?
    requires var resolved := Resolved(context, instruction, references).value;
             && Survives(table, resolved, maxBytes, |rest|)
             && BaseSettled(context.form, resolved, ToldOf(context.form, resolved), k)
             && var operand := resolved.operands[k].value;
                (HasPcTarget(operand) && operand.eaReg == 2 ==> FitsSignedWord(operand.value))
    ensures var resolved := Resolved(context, instruction, references).value;
            var target := TargetOf(references[k].value, context.allowUndefined);
            var decoded := DecodedAs(context.form, EncodedOne(table, resolved, maxBytes).value + rest);
            && target.Some? && decoded.Some? && |decoded.value.operands| == |context.form.operandKinds|
            && (CandidateTarget(context.form, decoded.value, k, offset, sectionSize) == target <==>
                  var operand := resolved.operands[k].value;
                  || operand.kind.Label?
                  || (InReach(context.form, resolved, k, target.value, offset, sectionSize)
                      && (operand.kind.BfEa? ==> PlaceOf(context.form, resolved, k, offset) == 0)))
  {
    hide EncodedOne, StructureOk, KindsOk, DecodedAs, PlainOperand, FromCandidate, CandidateTarget, BaseSettled, PlaceOf,
         ToldOf, Plus, Minus, SignExtend16, Low16, Resolved, TargetOf, Encodable, AllRecognised, IsPcMode, InReach;
    ResolvedHolds(context, instruction, references, k, offset);
    var resolved := Resolved(context, instruction, references).value;
    var target := TargetOf(references[k].value, context.allowUndefined).value;
    ResolvedForm(context, instruction, references);
    SurvivorIsTakenOver(table, resolved, maxBytes, rest);
    var decoded := DecodedAs(context.form, EncodedOne(table, resolved, maxBytes).value + rest).value;
    CollectedTarget(context.form, resolved, decoded, k, offset, sectionSize);
    var place := PlaceOf(context.form, resolved, k, offset);
    PlusAndMinus(target, place, resolved.operands[k].value.value);
    FromZero(target, place);
  }

  lemma ResolvedForm(context: Context, instruction: Instruction, references: seq<Option<Reference>>)
    requires |references| == |instruction.operands| && Resolved(context, instruction, references).Some?
    ensures Resolved(context, instruction, references).value.formIndex == instruction.formIndex
  {
    hide AppliedOf;
  }

  lemma FromZero(target: Long, place: Long)
    ensures Plus(place, target) == target <==> place == 0
  {
    PlusCommutes(place, target);
    PlusAndMinus(target, target, place);
    NoDifference(target);
    hide Plus, Minus;
  }

  lemma PlusCommutes(a: Long, b: Long)
    ensures Plus(a, b) == Plus(b, a)
  {
  }

  lemma NoDifference(a: Long)
    ensures Minus(a, a) == 0
  {
  }
}
