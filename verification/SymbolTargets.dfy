/** Symbols and targets: a displacement computed from a symbol when an instruction is resolved, and
    the target computed from the displacement when the encoded instruction is decoded. */
module SymbolTargets {
  import opened Wrappers
  import opened Words
  import opened FormTable
  import opened Assembler
  import opened Disassembler
  import opened FieldRoundTrip
  import opened SizeRoundTrip
  import opened InstructionRoundTrip
  import opened IrCodec
  import opened Spans
  import E = ExtensionRoundTrip

  // ---------- the base of a program-counter relative operand ----------

  /** The bytes before the extension words of operand `k`, as the resolver and the analysis count. */
  function RelativeBaseOf(form: Form, operands: seq<Operand>, suffix: Suffix, k: nat): (base: nat)
    requires k <= |operands|
    ensures base >= 2 + 2 * |form.boundBases|
  {
    if k == 0 then 2 + 2 * |form.boundBases|
    else RelativeBaseOf(form, operands, suffix, k - 1) + 2 * OperandWordCount(operands[k - 1], suffix)
  }

  method RelativeBase(form: Form, operands: seq<Operand>, suffix: Suffix, k: nat) returns (base: nat)
    requires k <= |operands|
    ensures base == RelativeBaseOf(form, operands, suffix, k)
  {
    hide OperandWordCount;
    base := 2;
    base := base + |form.boundBases| * 2;
    for i := 0 to k
      invariant base == RelativeBaseOf(form, operands, suffix, i)
    {
      base := base + OperandWordCount(operands[i], suffix) * 2;
    }
  }

  // Addresses are computed modulo 2^32.
  function Wrapped(n: nat): Long { (n % ADDRESS_LIMIT) as Long }
  function Plus(a: Long, b: Long): Long { a + b }
  function Minus(a: Long, b: Long): Long { a - b }

  // ---------- from symbol to displacement ----------

  datatype Lookup = NotFound | Undefined | Defined(value: Long)

  datatype Reference = Reference(symbol: Lookup, addend: Long, absolute: bool)

  /** While operand `k` is resolved, the base is counted over an array read with the element size of
      another one: from the second operand on something else is read in place of operand `i`. */
  type Stray = (nat, nat) -> Operand

  function ReadOperands(operands: seq<Operand>, k: nat, stray: Stray): (seen: seq<Operand>)
    ensures |seen| == |operands|
  {
    seq(|operands|, i requires 0 <= i < |operands| => if i == 0 then operands[0] else stray(k, i))
  }

  /** What the resolver takes for program-counter relative; bit-field operands are not. */
  predicate IsPcRelative(operand: Operand) { operand.kind.Ea? && IsPcMode(operand.eaMode, operand.eaReg) }
  predicate IsPcMode(mode: Byte, reg: Byte) { mode == 7 && (reg == 2 || reg == 3) }

  /** The value that a resolved reference leaves in the operand. */
  function ResolvedOperand(form: Form, operands: seq<Operand>, suffix: Suffix, k: nat, reference: Reference, target: Long,
                           offset: Long, stray: Stray): Operand
    requires k < |operands|
  {
    var operand := operands[k];
    if reference.absolute then
      if operand.kind.Label?
      then operand.(kind := Ea, eaMode := 7, eaReg := if suffix.SizeL? then 1 else 0, value := target)
      else operand.(value := target)
    else if IsPcRelative(operand) then
      operand.(value := Minus(target, Plus(offset, Wrapped(RelativeBaseOf(form, ReadOperands(operands, k, stray), suffix, k)))))
    else if operand.kind.Label? then operand.(value := Minus(target, Plus(offset, 2)))
    else operand.(value := target)
  }

  /** The address that a reference stands for; None when it cannot be resolved. */
  function TargetOf(reference: Reference, allowUndefined: bool): Option<Long> {
    match reference.symbol
    case NotFound => None
    case Undefined => if allowUndefined then Some(reference.addend) else None
    case Defined(value) => Some(Plus(value, reference.addend))
  }

  /** Where an instruction is resolved: its form and suffix, its offset, and what the symbols may be. */
  datatype Context = Context(form: Form, suffix: Suffix, offset: Long, allowUndefined: bool, stray: Stray)

  /** The operands after the references of the first `k` have been resolved, in place and in order. */
  function AppliedOf(context: Context, operands: seq<Operand>, references: seq<Option<Reference>>, k: nat)
    : (applied: Option<seq<Operand>>)
    requires |references| == |operands| && k <= |operands|
    ensures applied.Some? ==> |applied.value| == |operands|
  {
    if k == 0 then Some(operands)
    else
      var prior := AppliedOf(context, operands, references, k - 1);
      if prior.None? || references[k - 1].None? then prior
      else
        var target := TargetOf(references[k - 1].value, context.allowUndefined);
        if target.None? then None
        else
          Some(prior.value[k - 1 := ResolvedOperand(context.form, prior.value, context.suffix, k - 1,
                                                    references[k - 1].value, target.value, context.offset, context.stray)])
  }

  method ApplySymbolRefs(context: Context, operands: array<Operand>, references: seq<Option<Reference>>)
    returns (ok: bool)
    requires |references| == operands.Length
    modifies operands
    ensures var applied := AppliedOf(context, old(operands[..]), references, operands.Length);
            ok == applied.Some? && (ok ==> operands[..] == applied.value)
  {
    hide ResolvedOperand, TargetOf;
    ghost var before := operands[..];
    for k := 0 to operands.Length
      invariant AppliedOf(context, before, references, k) == Some(operands[..])
    {
      if references[k].None? { continue; }
      var target := TargetOf(references[k].value, context.allowUndefined);
      if target.None? {
        UnresolvedStays(context, before, references, k + 1, operands.Length);
        return false;
      }
      operands[k] := ResolvedOperand(context.form, operands[..], context.suffix, k, references[k].value, target.value,
                                     context.offset, context.stray);
    }
    ok := true;
  }

  lemma {:induction false} UnresolvedStays(context: Context, operands: seq<Operand>, references: seq<Option<Reference>>,
                                           i: nat, k: nat)
    requires |references| == |operands| && i <= k <= |operands|
    requires AppliedOf(context, operands, references, i).None?
    ensures AppliedOf(context, operands, references, k).None?
  {
    hide ResolvedOperand, TargetOf;
    if i < k { UnresolvedStays(context, operands, references, i, k - 1); }
  }

  // ---------- what resolving leaves in one operand ----------

  /** Resolving later operands leaves the earlier ones alone. */
  lemma {:induction false} EarlierStay(context: Context, operands: seq<Operand>, references: seq<Option<Reference>>,
                                       i: nat, k: nat)
    requires |references| == |operands| && i <= k <= |operands|
    requires AppliedOf(context, operands, references, k).Some?
    ensures AppliedOf(context, operands, references, i).Some?
    ensures AppliedOf(context, operands, references, i).value[..i] == AppliedOf(context, operands, references, k).value[..i]
  {
    hide ResolvedOperand, TargetOf;
    if i < k { EarlierStay(context, operands, references, i, k - 1); }
  }

  lemma {:induction false} BaseOfPrefix(form: Form, a: seq<Operand>, b: seq<Operand>, suffix: Suffix, k: nat)
    requires k <= |a| && k <= |b| && a[..k] == b[..k]
    ensures RelativeBaseOf(form, a, suffix, k) == RelativeBaseOf(form, b, suffix, k)
  {
    hide OperandWordCount;
    if k > 0 {
      assert a[..k - 1] == a[..k][..k - 1] && b[..k - 1] == b[..k][..k - 1];
      BaseOfPrefix(form, a, b, suffix, k - 1);
      assert a[k - 1] == a[..k][k - 1] && b[k - 1] == b[..k][k - 1];
    }
  }

  /** The value of operand `k` once its reference is resolved: the displacement of the target from the
      place it is relative to, or the target itself. */
  function ResolvedValue(form: Form, operands: seq<Operand>, suffix: Suffix, k: nat, target: Long, offset: Long): Long
    requires k < |operands|
  {
    if IsPcRelative(operands[k]) then Minus(target, Plus(offset, Wrapped(RelativeBaseOf(form, operands, suffix, k))))
    else if operands[k].kind.Label? then Minus(target, Plus(offset, 2))
    else target
  }

  /** After resolving, an operand with a reference that is not absolute holds the displacement of its
      target, seen from the resolved instruction: the first two operands are read as they are. */
  lemma ResolvedDisplacement(context: Context, operands: seq<Operand>, references: seq<Option<Reference>>, k: nat)
    requires |references| == |operands| && k < |operands| && references[k].Some? && !references[k].value.absolute
    requires k <= 1 || !IsPcRelative(operands[k])
    requires AppliedOf(context, operands, references, |operands|).Some?
    ensures var resolved := AppliedOf(context, operands, references, |operands|).value;
            var target := TargetOf(references[k].value, context.allowUndefined);
            && target.Some?
            && resolved[k] == operands[k].(value := ResolvedValue(context.form, resolved, context.suffix, k, target.value,
                                                                  context.offset))
  {
    hide OperandWordCount, RelativeBaseOf, ResolvedOperand, ResolvedValue, IsPcMode, Wrapped, Plus, Minus;
    var n := |operands|;
    EarlierStay(context, operands, references, k + 1, n);
    EarlierStay(context, operands, references, k, n);
    var before := AppliedOf(context, operands, references, k).value;
    var after := AppliedOf(context, operands, references, k + 1).value;
    var resolved := AppliedOf(context, operands, references, n).value;
    LaterUntouched(context, operands, references, k, k);
    RelativeResolved(context, before, resolved, k, references[k].value);
    assert resolved[..k + 1][k] == after[..k + 1][k];
  }

  lemma RelativeResolved(context: Context, before: seq<Operand>, resolved: seq<Operand>, k: nat, reference: Reference)
    requires k < |before| == |resolved| && before[..k] == resolved[..k] && !reference.absolute
    requires k <= 1 || !IsPcRelative(before[k])
    ensures forall target: Long ::
              var operand := ResolvedOperand(context.form, before, context.suffix, k, reference, target, context.offset,
                                             context.stray);
              resolved[k] == operand ==>
                operand == before[k].(value := ResolvedValue(context.form, resolved, context.suffix, k, target,
                                                             context.offset))
  {
    hide OperandWordCount, RelativeBaseOf, IsPcMode, Wrapped, Plus, Minus, SignExtend16, Low16;
    if k <= 1 {
      var seen := ReadOperands(before, k, context.stray);
      assert seen[..k] == before[..k];
      BaseOfPrefix(context.form, seen, resolved, context.suffix, k);
    }
  }

  lemma {:induction false} LaterUntouched(context: Context, operands: seq<Operand>, references: seq<Option<Reference>>,
                                          i: nat, k: nat)
    requires |references| == |operands| && i <= k < |operands|
    requires AppliedOf(context, operands, references, i).Some?
    ensures AppliedOf(context, operands, references, i).value[k] == operands[k]
  {
    hide ResolvedOperand, TargetOf;
    if i > 0 {
      EarlierStay(context, operands, references, i - 1, i);
      LaterUntouched(context, operands, references, i - 1, k);
    }
  }

  // ---------- from displacement to target ----------

  lemma AddedBack(target: Long, place: Long)
    ensures Plus(place, target - place) == target
  {
  }

  lemma TakenBack(displacement: Long, place: Long)
    ensures Minus(place + displacement, place) == displacement
  {
  }

  /** A displacement leads back to its target. */
  lemma DisplacementIsUndone(target: Long, place: Long, displacement: Long)
    requires displacement == target - place
    ensures Plus(place, displacement) == target
  {
    hide Plus;
    AddedBack(target, place);
  }

  /** Only one displacement leads to a target. */
  lemma TargetIsUndone(displacement: Long, place: Long, target: Long)
    requires target == place + displacement
    ensures Minus(target, place) == displacement
  {
    hide Minus;
    TakenBack(displacement, place);
  }

  lemma PlusAndMinus(target: Long, place: Long, displacement: Long)
    ensures Plus(place, displacement) == target <==> displacement == Minus(target, place)
  {
    DisplacementIsUndone(target, place, Minus(target, place));
    TargetIsUndone(displacement, place, Plus(place, displacement));
    hide Plus, Minus;
  }

  /** The target survives a word or byte field exactly when its displacement fits the field. */
  lemma FieldKeepsTarget(target: Long, place: Long)
    ensures var displacement := Minus(target, place);
            && (Plus(place, SignExtend16(Low16(displacement))) == target <==> FitsSignedWord(displacement))
            && (Plus(place, SignExtend8(Low8(displacement))) == target <==> FitsSignedByte(displacement))
  {
    hide SignExtend16, SignExtend8, Low16, Low8, Plus, Minus;
    PlusAndMinus(target, place, SignExtend16(Low16(Minus(target, place))));
    PlusAndMinus(target, place, SignExtend8(Low8(Minus(target, place))));
  }

  /** The operands of the candidate under the kinds of the form, from which the base is counted. */
  function LayoutKinds(form: Form, operands: seq<Operand>): (layout: seq<Operand>)
    requires |operands| == |form.operandKinds|
    ensures |layout| == |operands|
  {
    seq(|operands|, k requires 0 <= k < |operands| => operands[k].(kind := form.operandKinds[k]))
  }

  /** What the collector takes for program-counter relative, bit-field operands included. */
  predicate HasPcTarget(operand: Operand) { operand.IsMemoryEa() && IsPcMode(operand.eaMode, operand.eaReg) }

  /** The relative target that the analysis takes from operand `k` of a candidate, if it keeps one. */
  function CandidateTarget(form: Form, decoded: Decoded, k: nat, offset: nat, sectionSize: nat): Option<Long>
    requires |decoded.operands| == |form.operandKinds| && k < |decoded.operands| && offset < ADDRESS_LIMIT
  {
    var operand := FromCandidate(form.operandKinds[k], decoded.operands[k]).value;
    if operand.kind.Label? then Some(Plus(Plus(Wrapped(offset), 2), operand.value))
    else if !HasPcTarget(operand) then None
    else
      var base := RelativeBaseOf(form, LayoutKinds(form, decoded.operands), decoded.suffix, k);
      if base >= ADDRESS_LIMIT - offset then None
      else
        var displacement := if operand.eaReg == 2 then SignExtend16(Low16(operand.value)) else operand.value;
        var target := Plus(Plus(Wrapped(offset), Wrapped(base)), displacement);
        if (target as nat) < sectionSize then Some(target) else None
  }

  // ---------- the base on both sides ----------

  function ValuesOf(operands: seq<OperandIR>): (values: seq<Operand>)
    ensures |values| == |operands|
  {
    seq(|operands|, k requires 0 <= k < |operands| => operands[k].value)
  }

  lemma ModesWithoutExtension(reg: Byte)
    ensures !IsSingleWordMode(2, reg) && !IsLongAddressMode(2, reg) && !IsImmediateMode(2, reg) && !IsIndexMode(2, reg)
    ensures IsLongAddressMode(7, 1) && !IsSingleWordMode(7, 1)
  {
  }

  lemma CountOfIndirect(raw: Operand, suffix: Suffix)
    ensures OperandWordCount(raw.(kind := Ind), suffix) == 0
    ensures OperandWordCount(raw.(kind := Ea, eaMode := 2), suffix) == 0
  {
    hide IsSingleWordMode, IsLongAddressMode, IsImmediateMode, IsIndexMode, IndexWordCount;
    ModesWithoutExtension(raw.eaReg);
  }

  lemma CountOfPostincrement(raw: Operand, suffix: Suffix)
    ensures OperandWordCount(raw.(kind := Postinc), suffix) == 0
    ensures OperandWordCount(raw.(kind := Ea, eaMode := 3), suffix) == 0
  {
    hide IsSingleWordMode, IsLongAddressMode, IsImmediateMode, IsIndexMode, IndexWordCount;
    ModesWithoutWords(raw.eaReg);
  }

  lemma CountOfAbsolute(raw: Operand, suffix: Suffix)
    ensures OperandWordCount(raw.(kind := Absl), suffix) == 0
    ensures OperandWordCount(raw.(kind := Ea, eaMode := 7, eaReg := 1), suffix) == 2
  {
    hide IsSingleWordMode, IsLongAddressMode, IsImmediateMode, IsIndexMode, IndexWordCount;
    ModesWithoutExtension(1);
  }

  lemma PlainKindIsKept(kind: OperandKind, raw: Operand)
    requires PlainOperand(FromCandidate(kind, raw))
    requires !kind.Ind? && !kind.Postinc? && !kind.Predec? && !kind.Absl?
    ensures raw.(kind := kind) == FromCandidate(kind, raw).value
  {
  }

  /** Resolver and analysis count the same words for an operand exactly when its form kind is not
      that of an absolute long address, which the analysis does not count. */
  lemma CountsAgreeUnlessAbsolute(kind: OperandKind, raw: Operand, operand: OperandIR, suffix: Suffix)
    requires FromCandidate(kind, raw) == operand && PlainOperand(operand) && !kind.Predec?
    ensures OperandWordCount(raw.(kind := kind), suffix) == OperandWordCount(operand.value, suffix) <==> !kind.Absl?
  {
    hide OperandWordCount;
    match kind {
      case Ind => CountOfIndirect(raw, suffix);
      case Postinc => CountOfPostincrement(raw, suffix);
      case Absl => CountOfAbsolute(raw, suffix);
      case _ => PlainKindIsKept(kind, raw);
    }
  }

  predicate TakenOver(form: Form, operands: seq<OperandIR>, decoded: Decoded) {
    && |decoded.operands| == |form.operandKinds| == |operands|
    && forall i :: 0 <= i < |operands| ==>
         PlainOperand(operands[i]) && FromCandidate(form.operandKinds[i], decoded.operands[i]) == operands[i]
  }

  /** The candidate's base of an operand never lies behind that of the instruction, and it is the same
      exactly when no absolute long address comes before the operand. */
  lemma {:induction false} BasesAgree(form: Form, operands: seq<OperandIR>, decoded: Decoded, suffix: Suffix, k: nat)
    requires StructureOk(form) && KindsOk(form) && TakenOver(form, operands, decoded) && k <= |operands|
    ensures var candidate := RelativeBaseOf(form, LayoutKinds(form, decoded.operands), suffix, k);
            var instruction := RelativeBaseOf(form, ValuesOf(operands), suffix, k);
            && candidate <= instruction
            && (candidate == instruction <==> forall i :: 0 <= i < k ==> !form.operandKinds[i].Absl?)
  {
    hide OperandWordCount, FromCandidate, PlainOperand, StructureOk;
    if k > 0 {
      BasesAgree(form, operands, decoded, suffix, k - 1);
      CountsCompare(form.operandKinds[k - 1], decoded.operands[k - 1], operands[k - 1], suffix);
    }
  }

  lemma CountsCompare(kind: OperandKind, raw: Operand, operand: OperandIR, suffix: Suffix)
    requires FromCandidate(kind, raw) == operand && PlainOperand(operand) && !kind.Predec?
    ensures kind.Absl? ==> OperandWordCount(raw.(kind := kind), suffix) == 0 && OperandWordCount(operand.value, suffix) == 2
    ensures !kind.Absl? ==> OperandWordCount(raw.(kind := kind), suffix) == OperandWordCount(operand.value, suffix)
  {
    hide OperandWordCount;
    if kind.Absl? { CountOfAbsolute(raw, suffix); } else { CountsAgreeUnlessAbsolute(kind, raw, operand, suffix); }
  }
}
