/** The rows of the instruction form table and the operand values they describe.

    The generated tables are a parameter: everything is stated for an arbitrary row, and
    `WellFormed` collects what the encoder and the decoder together rely on. */
module FormTable {
  import opened Words

  datatype OperandKind =
    | NoOperand | An | Absl | BfEa | CacheSel | Ccr | CtrlReg | Dn | DnPair | Ea | Imm | Ind
    | Label | Postinc | Predec | Reglist | Rn | RnPair | Sr | Usp

  datatype FieldKind =
    | Register | BitfieldOffsetDa | BitfieldWidthDa | Cache | Da | Mode | Id | Opmode | Offset
    | Size | Data | Displacement8 | Displacement16 | ReglistMask | Width

  datatype ValueSource =
    | NoValue | BfOffset | BfOffsetKind | BfWidth | BfWidthKind | OpmodeValue
    | Reg | RegFirst | RegSecond | RegKind | RegKindFirst | RegKindSecond
    | EaReg | EaMode | ValueHi16 | ValueLo16 | WholeValue

  datatype ExtensionKind =
    | EaSingleWord | EaLongAddress | EaImmediate | EaIndex
    | LabelDisp16IfZero | LabelDisp16Always | Disp16Always

  /** The size suffix of an instruction; `Bare` is the C code's '\0'. */
  datatype Suffix = Bare | SizeB | SizeW | SizeL

  /** Size bits of the masks in a form row. */
  const SIZE_B: Byte := 1
  const SIZE_W: Byte := 2
  const SIZE_L: Byte := 4

  /** A size or opmode value that the form does not have. */
  const UNSET: Byte := 255

  const CPU_68000: nat := 0
  const CPU_68020: nat := 2
  const CPU_68060: nat := 5
  const CPU_ANY: nat := 255

  const FULL_EXT_BD_WORD: Byte := 2
  const FULL_EXT_BD_LONG: Byte := 3

  datatype FieldPatch = FieldPatch(
    kind: FieldKind, wordIndex: nat, hi: BitIndex, lo: BitIndex, operandIndex: int, source: ValueSource)
  {
    predicate Ordered() { lo <= hi }

    function Mask(): Word
      requires Ordered()
    {
      WidthMask(hi, lo)
    }

    function FieldBits(): Word
      requires Ordered()
    {
      FieldMask(hi, lo)
    }

    predicate CarriesValue() {
      source.WholeValue? || source.ValueHi16? || source.ValueLo16?
    }
  }

  datatype ExtensionDef = ExtensionDef(kind: ExtensionKind, operandIndex: nat, patchIndex: nat) {
    /** Only the conditional word looks at a patch; in other kinds the index means nothing. */
    predicate Indexes(count: nat) { kind.LabelDisp16IfZero? ==> patchIndex < count }
  }

  /** The fields of a brief or full extension word, with the two displacements of the full format. */
  datatype IndexWord = IndexWord(
    isAddress: Byte, reg: Byte, long: Byte, scale: Byte,
    baseSuppress: Byte, indexSuppress: Byte, baseDispSize: Byte, outerDispSize: Byte, iis: Byte,
    baseDisp: Long, outerDisp: Long)
  {
    /** The operand needs the full format. */
    predicate UsesFull() {
      baseSuppress != 0 || indexSuppress != 0 || baseDispSize != 0 || outerDispSize != 0 || iis != 0
    }
  }

  const NO_INDEX := IndexWord(0, 0, 0, 0, 0, 0, 0, 0, 0, 0, 0)

  datatype Operand = Operand(
    kind: OperandKind, reg: Byte, pairReg: Byte, regIsAddress: Byte, pairRegIsAddress: Byte,
    bfOffsetIsRegister: Byte, bfOffset: Byte, bfWidthIsRegister: Byte, bfWidth: Byte,
    eaMode: Byte, eaReg: Byte, value: Long, index: IndexWord)
  {
    predicate IsMemoryEa() { kind.Ea? || kind.BfEa? }

    predicate SingleWordMode() { IsSingleWordMode(eaMode, eaReg) }
    predicate LongAddressMode() { IsLongAddressMode(eaMode, eaReg) }
    predicate ImmediateMode() { IsImmediateMode(eaMode, eaReg) }
    predicate IndexMode() { IsIndexMode(eaMode, eaReg) }
  }

  // The addressing modes that bring extension words, by mode and register field.
  predicate IsSingleWordMode(mode: Byte, reg: Byte) { mode == 5 || (mode == 7 && (reg == 0 || reg == 2)) }
  predicate IsLongAddressMode(mode: Byte, reg: Byte) { mode == 7 && reg == 1 }
  predicate IsImmediateMode(mode: Byte, reg: Byte) { mode == 7 && reg == 4 }
  predicate IsIndexMode(mode: Byte, reg: Byte) { mode == 6 || (mode == 7 && reg == 3) }

  const NO_OPERAND := Operand(NoOperand, 0, 0, 0, 0, 0, 0, 0, 0, 0, 0, 0, NO_INDEX)

  datatype SizeValues = SizeValues(b: Byte, w: Byte, l: Byte)
  {
    function Of(suffix: Suffix): Byte {
      match suffix
      case Bare => UNSET
      case SizeB => b
      case SizeW => w
      case SizeL => l
    }

    predicate AllUnset() { b == UNSET && w == UNSET && l == UNSET }

    /** No two sizes of the form share a value. */
    predicate Distinct() {
      && (b != UNSET ==> b != w && b != l)
      && (w != UNSET ==> w != l)
    }

    /** The value is one of those the form has. */
    predicate Has(value: Word) {
      || (b != UNSET && value == b as Word)
      || (w != UNSET && value == w as Word)
      || (l != UNSET && value == l as Word)
    }
  }

  /** A form that shows no size. */
  const NO_SIZES := SizeValues(UNSET, UNSET, UNSET)

  datatype Mnemonic = NoMnemonic | Movem | Mnemonic(id: nat)

  /** One row of the assembler table together with the columns that only the disassembler has. */
  datatype Form = Form(
    mnemonic: Mnemonic, operandKinds: seq<OperandKind>,
    sizeMask: Byte, sizeMask68000: Byte, eaDnSizeMask: Byte, eaMemorySizeMask: Byte, cpus: set<nat>,
    controlRegisters: seq<Byte>,
    opwordBase: Word, opwordMask: Word, patches: seq<FieldPatch>, extensions: seq<ExtensionDef>,
    boundBases: seq<Word>, boundMasks: seq<Word>,
    sizeValues: SizeValues, opmodeValues: SizeValues,
    branchWordSignal: Byte, branchWordBytes: nat, branchLongSignal: Byte, branchLongBytes: nat,
    shapes: seq<nat>, inlineZeroMeansEight: bool, eaModeMasks: seq<bv64>)
  {
    predicate HasField(kind: FieldKind) {
      exists i :: 0 <= i < |patches| && patches[i].kind == kind
    }

    /** The value of the fixed bits of a word of the instruction: the opword is word 0. */
    function FixedBits(word: nat): Word
      requires word <= |boundBases| && |boundBases| == |boundMasks|
    {
      if word == 0 then opwordBase else boundBases[word - 1]
    }

    function FixedMask(word: nat): Word
      requires word <= |boundMasks|
    {
      if word == 0 then opwordMask else boundMasks[word - 1]
    }

    function EffectiveSizeMask(): Byte {
      if sizeMask != 0 then sizeMask else sizeMask68000
    }

    function EffectiveSizeMaskForCpu(cpu: nat): Byte {
      if cpu == CPU_68000 && sizeMask68000 != 0 then sizeMask68000 else EffectiveSizeMask()
    }

    predicate SupportsCpu(cpu: nat) { cpu == CPU_ANY || cpu in cpus }
  }

  // ---------- what the two halves rely on ----------

  /** Array bounds of a row. */
  predicate StructureOk(form: Form) {
    && |form.boundBases| == |form.boundMasks|
    && |form.shapes| == |form.operandKinds| == |form.eaModeMasks|
    && (forall i :: 0 <= i < |form.patches| ==>
          && form.patches[i].Ordered()
          && form.patches[i].wordIndex <= |form.boundBases|
          && -1 <= form.patches[i].operandIndex < |form.operandKinds|
          && (form.patches[i].operandIndex < 0 ==> form.patches[i].source.NoValue?))
    && (forall i :: 0 <= i < |form.extensions| ==>
          && form.extensions[i].operandIndex < |form.operandKinds|
          && form.extensions[i].Indexes(|form.patches|))
  }

  /** Patches of one word are disjoint and outside its mask, and the base lies under the mask. */
  predicate WordsOk(form: Form)
    requires StructureOk(form)
  {
    && (forall w :: 0 <= w <= |form.boundBases| ==> Apart(form.FixedBits(w), !form.FixedMask(w)))
    && (forall i :: 0 <= i < |form.patches| ==>
          Apart(form.patches[i].FieldBits(), form.FixedMask(form.patches[i].wordIndex)))
    && (forall i, j :: 0 <= i < j < |form.patches| && form.patches[i].wordIndex == form.patches[j].wordIndex ==>
          Apart(form.patches[i].FieldBits(), form.patches[j].FieldBits()))
  }

  /** Every size value fits the fields it is written to. */
  predicate SizesFit(form: Form, values: SizeValues, kind: FieldKind)
    requires StructureOk(form)
  {
    forall i, s: Suffix :: 0 <= i < |form.patches| && form.patches[i].kind == kind && values.Of(s) != UNSET ==>
      Under(values.Of(s) as Word, form.patches[i].Mask()) == values.Of(s) as Word
  }

  /** The size of an instruction can be told from its size or opmode field, when it has one. */
  predicate SizesOk(form: Form)
    requires StructureOk(form)
  {
    && form.sizeValues.Distinct() && form.opmodeValues.Distinct()
    && SizesFit(form, form.sizeValues, Size) && SizesFit(form, form.opmodeValues, Opmode)
    && (forall i :: 0 <= i < |form.patches| && (form.patches[i].kind.Size? || form.patches[i].kind.Opmode?) ==>
          form.patches[i].source.NoValue?)
    && form.EffectiveSizeMask() <= 7
    && (form.HasField(Size) ==> form.opmodeValues.AllUnset())
    && (form.HasField(Opmode) ==> form.sizeValues.AllUnset())
  }

  /** A displacement byte in the opword belongs to a label and comes with the conditional word. */
  predicate BranchOk(form: Form)
    requires StructureOk(form)
  {
    && (forall i :: 0 <= i < |form.patches| && form.patches[i].kind.Displacement8? ==>
          && form.patches[i].source.WholeValue?
          && form.patches[i].Mask() == 0xFF
          && 0 <= form.patches[i].operandIndex
          && form.operandKinds[form.patches[i].operandIndex].Label?
          && (exists e :: 0 <= e < |form.extensions| && form.extensions[e].kind.LabelDisp16IfZero?
                          && form.extensions[e].patchIndex == i))
    && (forall i, j :: 0 <= i < j < |form.patches| && form.patches[i].kind.Displacement8? ==>
          !form.patches[j].kind.Displacement8?)
    && (form.HasField(Displacement8) ==>
          && !form.HasField(Size) && !form.HasField(Opmode)
          && forall e :: 0 <= e < |form.extensions| ==> !form.extensions[e].kind.EaImmediate?)
    && (forall e :: 0 <= e < |form.extensions| && form.extensions[e].kind.LabelDisp16IfZero? ==>
          && form.patches[form.extensions[e].patchIndex].kind.Displacement8?
          && form.patches[form.extensions[e].patchIndex].operandIndex == form.extensions[e].operandIndex
          && form.branchWordSignal == 0 && form.branchLongSignal != 0 && form.branchWordBytes == 2)
    && (forall e :: 0 <= e < |form.extensions| && form.extensions[e].kind.LabelDisp16Always? ==>
          form.branchWordBytes == 2)
  }

  predicate IsEaExtension(kind: ExtensionKind) {
    kind.EaSingleWord? || kind.EaLongAddress? || kind.EaImmediate? || kind.EaIndex?
  }

  /** An operand kind that the decoder materialises as an effective address. */
  predicate IsEaKind(kind: OperandKind) {
    kind.Ea? || kind.BfEa? || kind.Ind? || kind.Absl? || kind.Postinc?
  }

  /** At most one extension of an operand can be active, and it is the only carrier of the value. */
  predicate ExtensionsOk(form: Form)
    requires StructureOk(form)
  {
    && (forall d, e :: 0 <= d < e < |form.extensions|
                       && form.extensions[d].operandIndex == form.extensions[e].operandIndex ==>
          && form.extensions[d].kind != form.extensions[e].kind
          && IsEaExtension(form.extensions[d].kind) && IsEaExtension(form.extensions[e].kind))
    && (forall e :: 0 <= e < |form.extensions| ==>
          var kind := form.operandKinds[form.extensions[e].operandIndex];
          match form.extensions[e].kind
          case EaImmediate => IsEaKind(kind) || kind.Imm?
          case LabelDisp16IfZero => kind.Label?
          case LabelDisp16Always => true
          case Disp16Always => true
          case _ => IsEaKind(kind))
    && (forall e, i :: 0 <= e < |form.extensions| && 0 <= i < |form.patches|
                       && form.patches[i].operandIndex == form.extensions[e].operandIndex
                       && form.patches[i].CarriesValue() ==>
          form.extensions[e].kind.LabelDisp16IfZero? && form.patches[i].kind.Displacement8?)
  }

  /** MOVEM to memory: the mode field of the destination is bits 5 to 3, the mask a whole word. */
  predicate MovemOk(form: Form)
    requires StructureOk(form)
  {
    form.mnemonic.Movem? && |form.operandKinds| >= 2 && form.operandKinds[0].Reglist? ==>
      && |form.operandKinds| == 2
      && form.operandKinds[1].Ea?
      && (exists i :: 0 <= i < |form.patches| && form.patches[i].source.EaMode? && form.patches[i].operandIndex == 1
                      && form.patches[i].wordIndex == 0 && form.patches[i].hi == 5 && form.patches[i].lo == 3)
      && (forall i :: 0 <= i < |form.patches| && form.patches[i].operandIndex == 0 ==>
            form.patches[i].kind.ReglistMask? && form.patches[i].source.WholeValue?
            && form.patches[i].Mask() == 0xFFFF)
      && (forall e :: 0 <= e < |form.extensions| ==> form.extensions[e].operandIndex != 0)
  }

  /** The decoder fixes the mode of these kinds itself and has no case for PREDEC. */
  predicate KindsOk(form: Form)
    requires StructureOk(form)
  {
    && (forall k :: 0 <= k < |form.operandKinds| ==>
          !form.operandKinds[k].Predec? && !form.operandKinds[k].CtrlReg?)
    && (forall i :: 0 <= i < |form.patches| && 0 <= form.patches[i].operandIndex
                    && form.operandKinds[form.patches[i].operandIndex].Postinc? ==>
          form.patches[i].source.Reg?)
  }

  predicate WellFormed(form: Form) {
    && StructureOk(form)
    && !form.mnemonic.NoMnemonic?
    && WordsOk(form)
    && SizesOk(form)
    && BranchOk(form)
    && ExtensionsOk(form)
    && MovemOk(form)
    && KindsOk(form)
  }
}
