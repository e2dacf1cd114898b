/** Operands through their patches: writing the encoder's field values into blank operands gives
    back every part of the operand that some patch carries, and leaves the rest blank. */
module PatchRoundTrip {
  import opened Words
  import opened FormTable
  import opened Assembler
  import opened Disassembler

  /** The parts of an operand that patches read and write. */
  datatype Slot =
    | RegSlot | PairRegSlot | RegKindSlot | PairKindSlot | BfOffsetSlot | BfOffsetKindSlot
    | BfWidthSlot | BfWidthKindSlot | EaModeSlot | EaRegSlot | HighSlot | LowSlot

  /** The two operands have the same content in one slot. */
  predicate Agree(a: Operand, b: Operand, slot: Slot) {
    match slot
    case RegSlot => a.reg == b.reg
    case PairRegSlot => a.pairReg == b.pairReg
    case RegKindSlot => a.regIsAddress == b.regIsAddress
    case PairKindSlot => a.pairRegIsAddress == b.pairRegIsAddress
    case BfOffsetSlot => a.bfOffset == b.bfOffset
    case BfOffsetKindSlot => a.bfOffsetIsRegister == b.bfOffsetIsRegister
    case BfWidthSlot => a.bfWidth == b.bfWidth
    case BfWidthKindSlot => a.bfWidthIsRegister == b.bfWidthIsRegister
    case EaModeSlot => a.eaMode == b.eaMode
    case EaRegSlot => a.eaReg == b.eaReg
    case HighSlot => High16(a.value) == High16(b.value)
    case LowSlot => Low16(a.value) == Low16(b.value)
  }

  lemma AgreeIsReflexive(a: Operand, slot: Slot)
    ensures Agree(a, a, slot)
  {
  }

  lemma AgreeIsTransitive(a: Operand, b: Operand, c: Operand, slot: Slot)
    requires Agree(a, b, slot) && Agree(b, c, slot)
    ensures Agree(a, c, slot)
  {
    hide Low16, High16;
  }

  lemma SlotsDetermine(a: Operand, b: Operand)
    requires a.kind == b.kind && a.index == b.index
    requires forall slot: Slot :: Agree(a, b, slot)
    ensures a == b
  {
    hide Low16, High16;
    assert Agree(a, b, RegSlot) && Agree(a, b, PairRegSlot) && Agree(a, b, RegKindSlot) && Agree(a, b, PairKindSlot);
    assert Agree(a, b, BfOffsetSlot) && Agree(a, b, BfOffsetKindSlot);
    assert Agree(a, b, BfWidthSlot) && Agree(a, b, BfWidthKindSlot);
    assert Agree(a, b, EaModeSlot) && Agree(a, b, EaRegSlot) && Agree(a, b, HighSlot) && Agree(a, b, LowSlot);
    HalvesDetermine(a.value, b.value);
  }

  /** The slot of the second operand copied into the first. */
  function Put(to: Operand, from: Operand, slot: Slot): Operand {
    match slot
    case RegSlot => to.(reg := from.reg)
    case PairRegSlot => to.(pairReg := from.pairReg)
    case RegKindSlot => to.(regIsAddress := from.regIsAddress)
    case PairKindSlot => to.(pairRegIsAddress := from.pairRegIsAddress)
    case BfOffsetSlot => to.(bfOffset := from.bfOffset)
    case BfOffsetKindSlot => to.(bfOffsetIsRegister := from.bfOffsetIsRegister)
    case BfWidthSlot => to.(bfWidth := from.bfWidth)
    case BfWidthKindSlot => to.(bfWidthIsRegister := from.bfWidthIsRegister)
    case EaModeSlot => to.(eaMode := from.eaMode)
    case EaRegSlot => to.(eaReg := from.eaReg)
    case HighSlot => to.(value := WithHigh(to.value, High16(from.value)))
    case LowSlot => to.(value := WithLow(to.value, Low16(from.value)))
  }

  lemma ValueHalves(value: Long, word: Word)
    ensures High16(WithHigh(value, word)) == word && Low16(WithHigh(value, word)) == Low16(value)
    ensures Low16(WithLow(value, word)) == word && High16(WithLow(value, word)) == High16(value)
  {
  }

  /** Copying one slot copies that slot and nothing else. */
  predicate PutKeeps(to: Operand, from: Operand, slot: Slot, other: Slot) {
    var next := Put(to, from, slot);
    && next.kind == to.kind && next.index == to.index
    && (if other == slot then Agree(next, from, other) else Agree(next, to, other))
  }

  lemma PutKeepsRegisters(to: Operand, from: Operand, slot: Slot, other: Slot)
    requires slot.RegSlot? || slot.PairRegSlot? || slot.RegKindSlot?
             || slot.PairKindSlot? || slot.BfOffsetSlot? || slot.BfOffsetKindSlot?
    ensures PutKeeps(to, from, slot, other)
  {
    hide Low16, High16, WithHigh, WithLow;
  }

  lemma PutKeepsAddress(to: Operand, from: Operand, slot: Slot, other: Slot)
    requires slot.BfWidthSlot? || slot.BfWidthKindSlot? || slot.EaModeSlot?
             || slot.EaRegSlot? || slot.HighSlot? || slot.LowSlot?
    ensures PutKeeps(to, from, slot, other)
  {
    hide Low16, High16, WithHigh, WithLow;
    ValueHalves(to.value, High16(from.value));
    ValueHalves(to.value, Low16(from.value));
  }

  lemma PutAgrees(to: Operand, from: Operand, slot: Slot, other: Slot)
    ensures PutKeeps(to, from, slot, other)
  {
    hide PutKeeps;
    match slot {
      case RegSlot | PairRegSlot | RegKindSlot | PairKindSlot | BfOffsetSlot | BfOffsetKindSlot =>
        PutKeepsRegisters(to, from, slot, other);
      case BfWidthSlot | BfWidthKindSlot | EaModeSlot | EaRegSlot | HighSlot | LowSlot =>
        PutKeepsAddress(to, from, slot, other);
    }
  }

  /** The slot that a value source other than the whole value stands for. */
  function SlotOf(source: ValueSource): Slot {
    match source
    case RegSecond => PairRegSlot
    case RegKind | RegKindFirst => RegKindSlot
    case RegKindSecond => PairKindSlot
    case BfOffset => BfOffsetSlot
    case BfOffsetKind => BfOffsetKindSlot
    case BfWidth => BfWidthSlot
    case BfWidthKind => BfWidthKindSlot
    case EaMode => EaModeSlot
    case EaReg => EaRegSlot
    case ValueHi16 => HighSlot
    case ValueLo16 => LowSlot
    case _ => RegSlot
  }

  /** The slots that a patch carries for an operand of this kind. */
  function CarriedSlots(patch: FieldPatch, kind: OperandKind, suffix: Suffix): seq<Slot> {
    if patch.source.WholeValue? then
      if patch.kind.Displacement8? && !suffix.SizeB? then [] else [HighSlot, LowSlot]
    else if patch.source.NoValue? || patch.source.OpmodeValue? then []
    else if (patch.source.Reg? || patch.source.RegFirst?) && kind.Ea? then [RegSlot, EaRegSlot]
    else [SlotOf(patch.source)]
  }

  predicate Carries(patch: FieldPatch, kind: OperandKind, suffix: Suffix, slot: Slot) {
    slot in CarriedSlots(patch, kind, suffix)
  }

  /** The operand with every listed slot copied in. */
  function PutAll(to: Operand, from: Operand, slots: seq<Slot>): Operand
    decreases |slots|
  {
    if slots == [] then to else PutAll(Put(to, from, slots[0]), from, slots[1..])
  }

  lemma {:induction false} PutAllAgrees(to: Operand, from: Operand, slots: seq<Slot>, slot: Slot)
    ensures var next := PutAll(to, from, slots);
            && next.kind == to.kind && next.index == to.index
            && (if slot in slots then Agree(next, from, slot) else Agree(next, to, slot))
    decreases |slots|
  {
    hide Agree, Put;
    if slots == [] {
      AgreeIsReflexive(to, slot);
    } else {
      var next := Put(to, from, slots[0]);
      PutAgrees(to, from, slots[0], slot);
      PutAllAgrees(next, from, slots[1..], slot);
      if slot !in slots[1..] {
        if slot == slots[0] { AgreeIsTransitive(PutAll(to, from, slots), next, from, slot); }
        else { AgreeIsTransitive(PutAll(to, from, slots), next, to, slot); }
      }
    }
  }

  /** A three-bit count in the opword where the field value zero stands for eight. */
  predicate IsCountField(form: Form, patch: FieldPatch, operand: Operand)
    requires patch.Ordered()
  {
    operand.kind.Imm? && patch.source.WholeValue? && !patch.kind.Displacement8? && !patch.kind.Displacement16?
    && patch.Mask() == 7 && form.inlineZeroMeansEight
  }

  /** The operand is one that the patch can express: its value fits the field as the decoder reads it. */
  predicate PatchInRange(form: Form, patch: FieldPatch, suffix: Suffix, operand: Operand)
    requires patch.Ordered()
  {
    var field := OperandField(form, patch, suffix, operand);
    && field.Ok?
    && (if IsCountField(form, patch, operand) then 1 <= operand.value <= 8
        else Under(field.value, patch.Mask()) == field.value)
    && match patch.source
       case Reg => !operand.kind.BfEa? && (operand.kind.Ea? ==> operand.reg == operand.eaReg)
       case RegFirst => !operand.kind.BfEa? && (operand.kind.Ea? ==> operand.reg == operand.eaReg)
       case RegKind => !operand.IsMemoryEa() && operand.regIsAddress <= 1
       case RegKindFirst => !operand.IsMemoryEa() && operand.regIsAddress <= 1
       case RegKindSecond => operand.pairRegIsAddress <= 1
       case BfOffset => operand.bfOffset != 32
       case BfOffsetKind => operand.bfOffsetIsRegister <= 1
       case BfWidth => operand.bfWidth != 32
       case BfWidthKind => operand.bfWidthIsRegister <= 1
       case EaReg => !operand.kind.Rn?
       case WholeValue =>
         if patch.kind.Displacement8? then
           && operand.kind.Label?
           && (suffix.SizeB? ==> FitsSignedByte(operand.value)
                                 && Low8(operand.value) != form.branchWordSignal
                                 && Low8(operand.value) != form.branchLongSignal)
         else if patch.kind.Displacement16? then FitsSignedWord(operand.value)
         else High16(operand.value) == 0
       case _ => true
  }

  // ---------- one patch ----------

  lemma ByteComesBack(byte: Byte)
    ensures ToByte(byte as Word) == byte
  {
  }

  lemma FlagComesBack(flag: Byte)
    requires flag <= 1
    ensures Flag(if flag != 0 then 1 else 0) == flag
  {
  }

  /** The value the decoder puts in place of the field value of a count. */
  lemma CountComesBack(value: Long)
    requires 1 <= value <= 8
    ensures (if Under(Low16(value), 7) == 0 then 8 else Under(Low16(value), 7) as Long) == value
  {
  }

  lemma ByteSignals(byte: Byte)
    ensures Under(byte as Word, 0xFF) == byte as Word
  {
  }

  lemma WholeValueStep(form: Form, patch: FieldPatch, suffix: Suffix, operand: Operand, current: Operand)
    requires patch.Ordered() && patch.source.WholeValue? && PatchInRange(form, patch, suffix, operand)
    requires operand.kind == current.kind
    requires patch.kind.Displacement8? ==> patch.Mask() == 0xFF
    ensures var field := Under(OperandField(form, patch, suffix, operand).value, patch.Mask());
            PatchedValue(form, patch, field, current)
            == if patch.kind.Displacement8? && !suffix.SizeB? then current else current.(value := operand.value)
  {
    hide ToByte, Low8, Low16, High16, Under, SignExtend8, SignExtend16, WidthMask;
    if patch.kind.Displacement8? {
      ByteComesBack(Low8(operand.value));
      ByteSignals(Low8(operand.value));
      ByteComesBack(form.branchWordSignal);
      ByteSignals(form.branchWordSignal);
      ByteComesBack(form.branchLongSignal);
      ByteSignals(form.branchLongSignal);
    } else if !patch.kind.Displacement16? {
      WordOfLow(operand.value);
      if IsCountField(form, patch, operand) { CountComesBack(operand.value); }
    }
  }

  /** The current operand with the carried slots taken over from the operand. */
  function Transferred(patch: FieldPatch, suffix: Suffix, operand: Operand, current: Operand): Operand {
    PutAll(current, operand, CarriedSlots(patch, operand.kind, suffix))
  }

  lemma PutOne(to: Operand, from: Operand, slot: Slot)
    ensures PutAll(to, from, [slot]) == Put(to, from, slot)
  {
    hide Put;
    assert [slot][1..] == [];
  }

  lemma PutTwo(to: Operand, from: Operand, first: Slot, second: Slot)
    ensures PutAll(to, from, [first, second]) == Put(Put(to, from, first), from, second)
  {
    hide Put;
    assert [first, second][1..] == [second];
    PutOne(Put(to, from, first), from, second);
  }

  lemma PutWhole(to: Operand, from: Operand)
    ensures PutAll(to, from, [HighSlot, LowSlot]) == to.(value := from.value)
  {
    hide PutAll, Low16, High16, WithHigh, WithLow;
    PutTwo(to, from, HighSlot, LowSlot);
    var high := WithHigh(to.value, High16(from.value));
    ValueHalves(to.value, High16(from.value));
    ValueHalves(high, Low16(from.value));
    HalvesDetermine(WithLow(high, Low16(from.value)), from.value);
  }

  lemma RegisterTransfers(source: ValueSource, operand: Operand, current: Operand)
    requires source.Reg? || source.RegFirst?
    requires operand.kind == current.kind && !operand.kind.BfEa?
    requires operand.kind.Ea? ==> operand.reg == operand.eaReg
    ensures PatchedRegister(source, RegisterOf(operand), current)
            == PutAll(current, operand, if operand.kind.Ea? then [RegSlot, EaRegSlot] else [RegSlot])
  {
    hide ToByte, PutAll;
    ByteComesBack(operand.reg);
    if operand.kind.Ea? { PutTwo(current, operand, RegSlot, EaRegSlot); } else { PutOne(current, operand, RegSlot); }
  }

  lemma RegisterKindTransfers(operand: Operand, current: Operand)
    requires !operand.IsMemoryEa() && operand.regIsAddress <= 1
    ensures PatchedRegisterKind(RegKind, RegisterKindOf(operand), current) == Put(current, operand, RegKindSlot)
    ensures PatchedRegisterKind(RegKindFirst, RegisterKindOf(operand), current) == Put(current, operand, RegKindSlot)
  {
    hide Flag;
    FlagComesBack(operand.regIsAddress);
  }

  lemma PairTransfers(operand: Operand, current: Operand)
    ensures PatchedRegister(RegSecond, operand.pairReg as Word, current) == Put(current, operand, PairRegSlot)
    ensures operand.pairRegIsAddress <= 1 ==>
              PatchedRegisterKind(RegKindSecond, if operand.pairRegIsAddress != 0 then 1 else 0, current)
              == Put(current, operand, PairKindSlot)
  {
    hide ToByte, Flag;
    ByteComesBack(operand.pairReg);
    if operand.pairRegIsAddress <= 1 { FlagComesBack(operand.pairRegIsAddress); }
  }

  lemma BitfieldTransfers(operand: Operand, current: Operand)
    ensures PatchedBitfield(BfOffset, operand.bfOffset as Word, current) == Put(current, operand, BfOffsetSlot)
    ensures PatchedBitfield(BfWidth, operand.bfWidth as Word, current) == Put(current, operand, BfWidthSlot)
    ensures operand.bfOffsetIsRegister <= 1 ==>
              PatchedBitfield(BfOffsetKind, if operand.bfOffsetIsRegister != 0 then 1 else 0, current)
              == Put(current, operand, BfOffsetKindSlot)
    ensures operand.bfWidthIsRegister <= 1 ==>
              PatchedBitfield(BfWidthKind, if operand.bfWidthIsRegister != 0 then 1 else 0, current)
              == Put(current, operand, BfWidthKindSlot)
  {
    hide ToByte, Flag;
    ByteComesBack(operand.bfOffset);
    ByteComesBack(operand.bfWidth);
    if operand.bfOffsetIsRegister <= 1 { FlagComesBack(operand.bfOffsetIsRegister); }
    if operand.bfWidthIsRegister <= 1 { FlagComesBack(operand.bfWidthIsRegister); }
  }

  lemma AddressTransfers(operand: Operand, current: Operand)
    ensures PatchedAddress(EaMode, operand.eaMode as Word, current) == Put(current, operand, EaModeSlot)
    ensures !current.kind.Rn? ==>
              PatchedAddress(EaReg, operand.eaReg as Word, current) == Put(current, operand, EaRegSlot)
  {
    hide ToByte;
    ByteComesBack(operand.eaMode);
    ByteComesBack(operand.eaReg);
  }

  lemma HalfTransfers(operand: Operand, current: Operand)
    ensures PatchedHalf(ValueHi16, High16(operand.value), current) == Put(current, operand, HighSlot)
    ensures PatchedHalf(ValueLo16, Low16(operand.value), current) == Put(current, operand, LowSlot)
  {
    hide WithHigh, WithLow, High16, Low16;
  }

  /** The operand after the decoder has read back the field that the encoder wrote. */
  function Reread(form: Form, patch: FieldPatch, suffix: Suffix, operand: Operand, current: Operand): Operand
    requires patch.Ordered() && PatchInRange(form, patch, suffix, operand)
  {
    PatchedOperand(form, patch, Under(OperandField(form, patch, suffix, operand).value, patch.Mask()), current)
  }

  lemma RegisterPatchTransfers(form: Form, patch: FieldPatch, suffix: Suffix, operand: Operand, current: Operand)
    requires patch.Ordered() && PatchInRange(form, patch, suffix, operand) && operand.kind == current.kind
    requires patch.source.Reg? || patch.source.RegFirst? || patch.source.RegSecond?
             || patch.source.RegKind? || patch.source.RegKindFirst? || patch.source.RegKindSecond?
    ensures Reread(form, patch, suffix, operand, current) == Transferred(patch, suffix, operand, current)
  {
    hide Under, WidthMask, PatchedValue, PatchedRegister, PatchedRegisterKind, PatchedBitfield, PatchedAddress,
         PatchedHalf, Put, PutAll, RegisterOf, RegisterKindOf, High16, Low16, Low8;
    if patch.source.Reg? || patch.source.RegFirst? {
      RegisterTransfers(patch.source, operand, current);
    } else if patch.source.RegKind? || patch.source.RegKindFirst? {
      RegisterKindTransfers(operand, current);
      PutOne(current, operand, RegKindSlot);
    } else {
      PairTransfers(operand, current);
      PutOne(current, operand, SlotOf(patch.source));
    }
  }

  lemma BitfieldPatchTransfers(form: Form, patch: FieldPatch, suffix: Suffix, operand: Operand, current: Operand)
    requires patch.Ordered() && PatchInRange(form, patch, suffix, operand) && operand.kind == current.kind
    requires patch.source.BfOffset? || patch.source.BfOffsetKind?
             || patch.source.BfWidth? || patch.source.BfWidthKind?
    ensures Reread(form, patch, suffix, operand, current) == Transferred(patch, suffix, operand, current)
  {
    hide Under, WidthMask, PatchedValue, PatchedRegister, PatchedRegisterKind, PatchedBitfield, PatchedAddress,
         PatchedHalf, Put, PutAll, RegisterOf, RegisterKindOf, High16, Low16, Low8;
    BitfieldTransfers(operand, current);
    PutOne(current, operand, SlotOf(patch.source));
  }

  lemma AddressPatchTransfers(form: Form, patch: FieldPatch, suffix: Suffix, operand: Operand, current: Operand)
    requires patch.Ordered() && PatchInRange(form, patch, suffix, operand) && operand.kind == current.kind
    requires patch.source.EaMode? || patch.source.EaReg?
    ensures Reread(form, patch, suffix, operand, current) == Transferred(patch, suffix, operand, current)
  {
    hide Under, WidthMask, PatchedValue, PatchedRegister, PatchedRegisterKind, PatchedBitfield, PatchedAddress,
         PatchedHalf, Put, PutAll, RegisterOf, RegisterKindOf, High16, Low16, Low8;
    AddressTransfers(operand, current);
    PutOne(current, operand, SlotOf(patch.source));
  }

  lemma HalfPatchTransfers(form: Form, patch: FieldPatch, suffix: Suffix, operand: Operand, current: Operand)
    requires patch.Ordered() && PatchInRange(form, patch, suffix, operand) && operand.kind == current.kind
    requires patch.source.ValueHi16? || patch.source.ValueLo16?
    ensures Reread(form, patch, suffix, operand, current) == Transferred(patch, suffix, operand, current)
  {
    hide Under, WidthMask, PatchedValue, PatchedRegister, PatchedRegisterKind, PatchedBitfield, PatchedAddress,
         PatchedHalf, Put, PutAll, RegisterOf, RegisterKindOf, High16, Low16, Low8;
    HalfTransfers(operand, current);
    PutOne(current, operand, SlotOf(patch.source));
  }

  lemma ValuePatchTransfers(form: Form, patch: FieldPatch, suffix: Suffix, operand: Operand, current: Operand)
    requires patch.Ordered() && PatchInRange(form, patch, suffix, operand) && operand.kind == current.kind
    requires patch.source.WholeValue? && (patch.kind.Displacement8? ==> patch.Mask() == 0xFF)
    ensures Reread(form, patch, suffix, operand, current) == Transferred(patch, suffix, operand, current)
  {
    hide Under, WidthMask, PatchedValue, PatchedRegister, PatchedRegisterKind, PatchedBitfield, PatchedAddress,
         PatchedHalf, Put, PutAll, RegisterOf, RegisterKindOf, High16, Low16, Low8;
    WholeValueStep(form, patch, suffix, operand, current);
    PutWhole(current, operand);
    NothingPut(current, operand);
  }

  /** Decoding the encoder's field value transfers exactly the carried slots. */
  lemma PatchTransfers(form: Form, patch: FieldPatch, suffix: Suffix, operand: Operand, current: Operand)
    requires patch.Ordered() && PatchInRange(form, patch, suffix, operand) && operand.kind == current.kind
    requires patch.kind.Displacement8? && patch.source.WholeValue? ==> patch.Mask() == 0xFF
    ensures Reread(form, patch, suffix, operand, current) == Transferred(patch, suffix, operand, current)
  {
    hide PatchInRange, Transferred, WidthMask, OperandField, PutAll;
    match patch.source {
      case Reg | RegFirst | RegKind | RegKindFirst | RegSecond | RegKindSecond =>
        RegisterPatchTransfers(form, patch, suffix, operand, current);
      case BfOffset | BfOffsetKind | BfWidth | BfWidthKind =>
        BitfieldPatchTransfers(form, patch, suffix, operand, current);
      case EaMode | EaReg => AddressPatchTransfers(form, patch, suffix, operand, current);
      case ValueHi16 | ValueLo16 => HalfPatchTransfers(form, patch, suffix, operand, current);
      case WholeValue => ValuePatchTransfers(form, patch, suffix, operand, current);
      case NoValue | OpmodeValue => NothingCarried(form, patch, suffix, operand, current);
    }
  }

  lemma NothingCarried(form: Form, patch: FieldPatch, suffix: Suffix, operand: Operand, current: Operand)
    requires patch.Ordered() && PatchInRange(form, patch, suffix, operand)
    requires patch.source.NoValue? || patch.source.OpmodeValue?
    ensures Reread(form, patch, suffix, operand, current) == Transferred(patch, suffix, operand, current)
  {
    hide Under, WidthMask, High16, Low16, Low8;
    NothingPut(current, operand);
  }

  lemma NothingPut(to: Operand, from: Operand)
    ensures PutAll(to, from, []) == to
  {
  }

  // ---------- all patches ----------

  /** One of the first `count` patches carries the slot of operand `k`. */
  predicate CarriedBy(form: Form, suffix: Suffix, operands: seq<Operand>, count: nat, k: nat, slot: Slot)
    requires count <= |form.patches| && k < |operands|
  {
    exists i :: 0 <= i < count && form.patches[i].operandIndex == k
                && Carries(form.patches[i], operands[k].kind, suffix, slot)
  }

  /** Every patch of every operand is in range for the suffix. */
  predicate PatchesInRange(form: Form, suffix: Suffix, operands: seq<Operand>)
    requires StructureOk(form) && |operands| == |form.operandKinds|
  {
    forall i :: 0 <= i < |form.patches| && 0 <= form.patches[i].operandIndex ==>
      PatchInRange(form, form.patches[i], suffix, operands[form.patches[i].operandIndex])
  }

  predicate KindsMatch(form: Form, operands: seq<Operand>)
    requires StructureOk(form) && |operands| == |form.operandKinds|
  {
    forall k :: 0 <= k < |operands| ==> operands[k].kind == BlankOperands(form)[k].kind
  }

  /** The field values, as the decoder extracts them, of patches that belong to an operand. */
  predicate FieldsOf(form: Form, suffix: Suffix, operands: seq<Operand>, fields: seq<Word>)
    requires StructureOk(form) && |operands| == |form.operandKinds| && |fields| == |form.patches|
  {
    forall i :: 0 <= i < |form.patches| && 0 <= form.patches[i].operandIndex && !form.patches[i].source.NoValue? ==>
      var field := OperandField(form, form.patches[i], suffix, operands[form.patches[i].operandIndex]);
      field.Ok? && fields[i] == Under(field.value, form.patches[i].Mask())
  }

  /** The decoder does not look at a field without a value source. */
  lemma UnusedValue(form: Form, patch: FieldPatch, value: Word, current: Operand)
    requires patch.Ordered()
    ensures patch.source.NoValue? ==>
              forall other: Word :: PatchedOperand(form, patch, other, current) == PatchedOperand(form, patch, value, current)
  {
  }

  /** A patch that belongs to the operand moves the carried slots on and keeps the others. */
  lemma PatchStep(form: Form, suffix: Suffix, operand: Operand, patch: FieldPatch, value: Word, current: Operand,
                  origin: Operand, slot: Slot)
    requires patch.Ordered() && PatchInRange(form, patch, suffix, operand) && operand.kind == current.kind
    requires patch.kind.Displacement8? && patch.source.WholeValue? ==> patch.Mask() == 0xFF
    requires !patch.source.NoValue? ==> value == Under(OperandField(form, patch, suffix, operand).value, patch.Mask())
    requires Agree(current, origin, slot)
    ensures var next := PatchedOperand(form, patch, value, current);
            && next.kind == current.kind && next.index == current.index
            && Agree(next, if Carries(patch, operand.kind, suffix, slot) then operand else origin, slot)
  {
    hide Agree, PatchInRange, CarriedSlots, PatchedOperand, OperandField, PutAll, Under, WidthMask;
    PatchTransfers(form, patch, suffix, operand, current);
    UnusedValue(form, patch, value, current);
    PutAllAgrees(current, operand, CarriedSlots(patch, operand.kind, suffix), slot);
    if !Carries(patch, operand.kind, suffix, slot) {
      AgreeIsTransitive(PatchedOperand(form, patch, value, current), current, origin, slot);
    }
  }

  /** The operand that slot `slot` of operand `k` comes from after the first `count` patches. */
  function SlotOrigin(form: Form, suffix: Suffix, operands: seq<Operand>, count: nat, k: nat, slot: Slot): Operand
    requires StructureOk(form) && |operands| == |form.operandKinds|
    requires count <= |form.patches| && k < |operands|
  {
    if CarriedBy(form, suffix, operands, count, k, slot) then operands[k] else BlankOperands(form)[k]
  }

  lemma OriginStart(form: Form, suffix: Suffix, operands: seq<Operand>, k: nat, slot: Slot)
    requires StructureOk(form) && |operands| == |form.operandKinds| && k < |operands|
    ensures SlotOrigin(form, suffix, operands, 0, k, slot) == BlankOperands(form)[k]
    ensures Agree(BlankOperands(form)[k], SlotOrigin(form, suffix, operands, 0, k, slot), slot)
    ensures BlankOperands(form)[k].index == NO_INDEX
  {
    hide Agree, Carries;
    AgreeIsReflexive(BlankOperands(form)[k], slot);
  }

  lemma OriginStep(form: Form, suffix: Suffix, operands: seq<Operand>, count: nat, k: nat, slot: Slot)
    requires StructureOk(form) && |operands| == |form.operandKinds|
    requires 0 < count <= |form.patches| && k < |operands|
    ensures var patch := form.patches[count - 1];
            SlotOrigin(form, suffix, operands, count, k, slot)
            == if patch.operandIndex == k && Carries(patch, operands[k].kind, suffix, slot) then operands[k]
               else SlotOrigin(form, suffix, operands, count - 1, k, slot)
  {
    hide Carries, StructureOk;
  }

  lemma DisplacementIsAByte(form: Form, i: nat)
    requires StructureOk(form) && BranchOk(form) && i < |form.patches|
    ensures form.patches[i].kind.Displacement8? ==> form.patches[i].Mask() == 0xFF
  {
    hide WidthMask;
  }

  lemma {:induction false} PatchesCarry(form: Form, suffix: Suffix, operands: seq<Operand>, fields: seq<Word>,
                                        count: nat, k: nat, slot: Slot)
    requires StructureOk(form) && BranchOk(form)
    requires |operands| == |form.operandKinds| && |fields| == |form.patches| && count <= |form.patches|
    requires PatchesInRange(form, suffix, operands) && KindsMatch(form, operands)
    requires FieldsOf(form, suffix, operands, fields)
    requires k < |operands|
    ensures var patched := PatchedOperands(form, fields, count)[k];
            && patched.kind == operands[k].kind && patched.index == NO_INDEX
            && Agree(patched, SlotOrigin(form, suffix, operands, count, k, slot), slot)
  {
    hide Agree, PatchInRange, Carries, PatchedOperand, OperandField, Transferred, Under, WidthMask, SlotOrigin, BranchOk;
    if count == 0 {
      OriginStart(form, suffix, operands, k, slot);
    } else {
      PatchesCarry(form, suffix, operands, fields, count - 1, k, slot);
      OriginStep(form, suffix, operands, count, k, slot);
      if form.patches[count - 1].operandIndex == k {
        var current := PatchedOperands(form, fields, count - 1)[k];
        DisplacementIsAByte(form, count - 1);
        PatchStep(form, suffix, operands[k], form.patches[count - 1], fields[count - 1], current,
                  SlotOrigin(form, suffix, operands, count - 1, k, slot), slot);
      }
    }
  }

  /** The decoder's operands after all patches, when every slot that no patch carries is blank. */
  lemma PatchesRestore(form: Form, suffix: Suffix, operands: seq<Operand>, fields: seq<Word>, k: nat, target: Operand)
    requires StructureOk(form) && BranchOk(form)
    requires |operands| == |form.operandKinds| && |fields| == |form.patches|
    requires PatchesInRange(form, suffix, operands) && KindsMatch(form, operands)
    requires FieldsOf(form, suffix, operands, fields)
    requires k < |operands| && target.kind == operands[k].kind && target.index == NO_INDEX
    requires forall slot: Slot ::
               Agree(SlotOrigin(form, suffix, operands, |form.patches|, k, slot), target, slot)
    ensures PatchedOperands(form, fields, |form.patches|)[k] == target
  {
    hide Agree, PatchedOperands, SlotOrigin, BlankOperands, PatchesInRange, KindsMatch, FieldsOf, BranchOk;
    var patched := PatchedOperands(form, fields, |form.patches|)[k];
    forall slot: Slot ensures Agree(patched, target, slot) {
      PatchesCarry(form, suffix, operands, fields, |form.patches|, k, slot);
      AgreeIsTransitive(patched, SlotOrigin(form, suffix, operands, |form.patches|, k, slot), target, slot);
    }
    PatchesCarry(form, suffix, operands, fields, |form.patches|, k, RegSlot);
    SlotsDetermine(patched, target);
  }
}
