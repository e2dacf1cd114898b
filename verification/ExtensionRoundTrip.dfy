/** The whole list of extensions: the decoder re-reads with its own length logic what the encoder
    appended, operand by operand, and ends exactly at the end of the instruction. */
module ExtensionRoundTrip {
  import opened Wrappers
  import opened Words
  import opened FormTable
  import opened Assembler
  import opened Disassembler
  import opened IndexRoundTrip

  // ---------- active extensions ----------

  /** An extension of this kind has words for this operand. */
  predicate Active(kind: ExtensionKind, suffix: Suffix, operand: Operand) {
    match kind
    case EaSingleWord => operand.IsMemoryEa() && operand.SingleWordMode()
    case EaLongAddress => operand.IsMemoryEa() && operand.LongAddressMode()
    case EaImmediate => (operand.kind.Ea? && operand.ImmediateMode()) || operand.kind.Imm?
    case EaIndex => operand.IsMemoryEa() && operand.IndexMode()
    case LabelDisp16IfZero => suffix.SizeW?
    case LabelDisp16Always | Disp16Always => true
  }

  predicate ActiveAt(form: Form, suffix: Suffix, operands: seq<Operand>, e: nat)
    requires StructureOk(form) && |operands| == |form.operandKinds| && e < |form.extensions|
  {
    Active(form.extensions[e].kind, suffix, operands[form.extensions[e].operandIndex])
  }

  /** Operand `k` has an active extension from `j` on. */
  predicate Awaits(form: Form, suffix: Suffix, operands: seq<Operand>, j: nat, k: nat)
    requires StructureOk(form) && |operands| == |form.operandKinds|
  {
    exists e :: j <= e < |form.extensions| && form.extensions[e].operandIndex == k && ActiveAt(form, suffix, operands, e)
  }

  /** The operands as the decoder holds them before it has read extension `j`. */
  function Pending(form: Form, suffix: Suffix, operands: seq<Operand>, j: nat): (pending: seq<Operand>)
    requires StructureOk(form) && |operands| == |form.operandKinds|
    ensures |pending| == |operands|
  {
    seq(|operands|, k requires 0 <= k < |operands| =>
      if Awaits(form, suffix, operands, j, k) then Unread(operands[k]) else operands[k])
  }

  /** The operand is one that its active extension can express. */
  predicate ExtensionNormal(kind: ExtensionKind, suffix: Suffix, operand: Operand) {
    Active(kind, suffix, operand) ==>
      match kind
      case EaSingleWord | LabelDisp16IfZero | LabelDisp16Always | Disp16Always =>
        FitsSignedWord(operand.value) && operand.index == NO_INDEX
      case EaLongAddress => operand.index == NO_INDEX
      case EaImmediate => operand.index == NO_INDEX && (suffix.SizeL? || FitsUnsignedWord(operand.value))
      case EaIndex => IndexNormal(operand)
  }

  /** A label whose displacement byte is in the opword does not look like a signal. */
  predicate SignalFree(form: Form, kind: ExtensionKind, suffix: Suffix, operand: Operand) {
    kind.LabelDisp16IfZero? ==>
      || suffix.SizeW?
      || (suffix.SizeB? && !LowByteIs(operand.value, form.branchWordSignal) && !LowByteIs(operand.value, form.branchLongSignal))
  }

  /** Everything the extensions ask of the operands; the kinds are those of the form. */
  predicate ExtensionsExpressible(form: Form, suffix: Suffix, operands: seq<Operand>)
    requires StructureOk(form) && |operands| == |form.operandKinds|
  {
    forall e :: 0 <= e < |form.extensions| ==>
      var operand := operands[form.extensions[e].operandIndex];
      && operand.kind == BlankOperands(form)[form.extensions[e].operandIndex].kind
      && ExtensionNormal(form.extensions[e].kind, suffix, operand)
      && SignalFree(form, form.extensions[e].kind, suffix, operand)
  }

  /** The encoder and the decoder agree on the length of immediates, when there are any. */
  predicate ImmediatesAgree(form: Form, fields: seq<Word>, suffix: Suffix, operands: seq<Operand>)
    requires StructureOk(form) && |operands| == |form.operandKinds|
  {
    forall e :: 0 <= e < |form.extensions| && form.extensions[e].kind.EaImmediate? && ActiveAt(form, suffix, operands, e) ==>
      (EmitsLongImmediate(form, fields, operands) <==> suffix.SizeL?)
  }

  /** The displacement field of a conditional label word holds the signal or the displacement. */
  predicate LabelFields(form: Form, fields: seq<Word>, suffix: Suffix, operands: seq<Operand>)
    requires StructureOk(form) && |operands| == |form.operandKinds| && |fields| == |form.patches|
  {
    forall e :: 0 <= e < |form.extensions| && form.extensions[e].kind.LabelDisp16IfZero? ==>
      (fields[form.extensions[e].patchIndex] == 0 <==> suffix.SizeW?)
  }

  // ---------- lengths ----------

  /** The words of the extensions from `j` on. */
  function TailWords(form: Form, fields: seq<Word>, operands: seq<Operand>, j: nat): seq<Word>
    requires StructureOk(form) && |operands| == |form.operandKinds| && |fields| == |form.patches|
    requires j <= |form.extensions|
    decreases |form.extensions| - j
  {
    if j == |form.extensions| then []
    else
      match ExtensionWords(form, form.extensions[j], fields, operands)
      case Ok(words) => words + TailWords(form, fields, operands, j + 1)
      case Err(_) => []
  }

  /** The fewest bytes that this extension can take for any operand of the same shape. */
  function LeastBytes(kind: ExtensionKind, suffix: Suffix, operand: Operand): nat {
    if !Active(kind, suffix, operand) then 0
    else if kind.EaLongAddress? || (kind.EaImmediate? && suffix.SizeL?) then 4
    else 2
  }

  /** The bytes of displacements that only the encoder knows about. */
  function Surplus(form: Form, suffix: Suffix, operands: seq<Operand>, j: nat): nat
    requires StructureOk(form) && |operands| == |form.operandKinds| && j <= |form.extensions|
    decreases |form.extensions| - j
  {
    if j == |form.extensions| then 0
    else
      var operand := operands[form.extensions[j].operandIndex];
      (if form.extensions[j].kind.EaIndex? && ActiveAt(form, suffix, operands, j) && operand.index.UsesFull()
       then 2 * |DisplacementWords(operand.index.baseDispSize, operand.index.baseDisp)|
            + 2 * |DisplacementWords(operand.index.outerDispSize, operand.index.outerDisp)|
       else 0)
      + Surplus(form, suffix, operands, j + 1)
  }

  /** The decoder can tell where the full extension at `e`, if it is one, ends, when `extra` bytes lie
      behind the instruction. */
  predicate Recognised(form: Form, suffix: Suffix, operands: seq<Operand>, e: nat, extra: nat)
    requires StructureOk(form) && |operands| == |form.operandKinds| && e < |form.extensions|
  {
    var operand := operands[form.extensions[e].operandIndex];
    form.extensions[e].kind.EaIndex? && ActiveAt(form, suffix, operands, e) && operand.index.UsesFull() ==>
      OuterRecognised(operand.index.outerDispSize, Surplus(form, suffix, operands, e + 1) + extra)
  }

  /** Length of one extension: the fewest bytes and the displacements of a full index. */
  lemma ExtensionLength(form: Form, fields: seq<Word>, suffix: Suffix, operands: seq<Operand>, e: nat)
    requires StructureOk(form) && |operands| == |form.operandKinds| && |fields| == |form.patches|
    requires e < |form.extensions|
    requires ImmediatesAgree(form, fields, suffix, operands) && LabelFields(form, fields, suffix, operands)
    requires ExtensionWords(form, form.extensions[e], fields, operands).Ok?
    ensures var operand := operands[form.extensions[e].operandIndex];
            2 * |ExtensionWords(form, form.extensions[e], fields, operands).value|
            == LeastBytes(form.extensions[e].kind, suffix, operand)
               + (Surplus(form, suffix, operands, e) - Surplus(form, suffix, operands, e + 1))
  {
    hide Low16, High16, EmitsLongImmediate, BriefExtensionWord, FullExtensionWord, DisplacementWords, FitsAbsoluteWord;
  }

  // ---------- at most one active extension an operand ----------

  predicate Expressible(form: Form, fields: seq<Word>, suffix: Suffix, operands: seq<Operand>) {
    && StructureOk(form) && BranchOk(form) && ExtensionsOk(form)
    && |operands| == |form.operandKinds| && |fields| == |form.patches|
    && ExtensionsExpressible(form, suffix, operands)
    && ImmediatesAgree(form, fields, suffix, operands)
    && LabelFields(form, fields, suffix, operands)
    && forall e :: 0 <= e < |form.extensions| ==> ExtensionWords(form, form.extensions[e], fields, operands).Ok?
  }

  /** What is known of one extension and its operand. */
  predicate ExtensionFacts(form: Form, fields: seq<Word>, suffix: Suffix, operand: Operand, extension: ExtensionDef)
    requires extension.Indexes(|fields|)
  {
    && ExtensionNormal(extension.kind, suffix, operand)
    && SignalFree(form, extension.kind, suffix, operand)
    && (extension.kind.EaSingleWord? || extension.kind.EaLongAddress? || extension.kind.EaIndex? ==> operand.IsMemoryEa())
    && (extension.kind.LabelDisp16IfZero? ==>
          && (fields[extension.patchIndex] == 0 <==> suffix.SizeW?)
          && form.branchWordSignal == 0 && form.branchWordBytes == 2)
    && (extension.kind.LabelDisp16Always? ==> form.branchWordBytes == 2)
  }

  lemma BlankKinds(form: Form, k: nat)
    requires StructureOk(form) && k < |form.operandKinds| && IsEaKind(form.operandKinds[k])
    ensures BlankOperands(form)[k].kind.Ea? || BlankOperands(form)[k].kind.BfEa?
  {
  }

  lemma FactsOf(form: Form, fields: seq<Word>, suffix: Suffix, operands: seq<Operand>, e: nat)
    requires Expressible(form, fields, suffix, operands) && e < |form.extensions|
    ensures ExtensionFacts(form, fields, suffix, operands[form.extensions[e].operandIndex], form.extensions[e])
  {
    hide ExtensionNormal, SignalFree, LowByteIs, ExtensionWords, EmitsLongImmediate, BlankOperands, ImmediatesAgree;
    if IsEaKind(form.operandKinds[form.extensions[e].operandIndex]) { BlankKinds(form, form.extensions[e].operandIndex); }
  }

  lemma OneActive(form: Form, fields: seq<Word>, suffix: Suffix, operands: seq<Operand>, d: nat, e: nat)
    requires Expressible(form, fields, suffix, operands) && d < e < |form.extensions|
    requires form.extensions[d].operandIndex == form.extensions[e].operandIndex
    ensures IsEaExtension(form.extensions[d].kind) && IsEaExtension(form.extensions[e].kind)
    ensures !(ActiveAt(form, suffix, operands, d) && ActiveAt(form, suffix, operands, e))
  {
    hide ExtensionNormal, SignalFree, ExtensionWords, BlankOperands, BranchOk, WidthMask, LowByteIs;
    FactsOf(form, fields, suffix, operands, d);
    FactsOf(form, fields, suffix, operands, e);
  }

  /** Reading extension `j` concerns its own operand only: it moves from unread to read when the
      extension is active, and stays as it is otherwise. */
  lemma PendingStep(form: Form, fields: seq<Word>, suffix: Suffix, operands: seq<Operand>, j: nat)
    requires Expressible(form, fields, suffix, operands) && j < |form.extensions|
    ensures var k := form.extensions[j].operandIndex;
            && Pending(form, suffix, operands, j)[k := Pending(form, suffix, operands, j + 1)[k]]
               == Pending(form, suffix, operands, j + 1)
            && (if ActiveAt(form, suffix, operands, j)
                then Pending(form, suffix, operands, j)[k] == Unread(operands[k])
                     && Pending(form, suffix, operands, j + 1)[k] == operands[k]
                else Pending(form, suffix, operands, j)[k] == Pending(form, suffix, operands, j + 1)[k])
  {
    hide BranchOk, ExtensionsOk, ExtensionsExpressible, ImmediatesAgree, LabelFields, ExtensionWords, ActiveAt, Unread;
    var k := form.extensions[j].operandIndex;
    if ActiveAt(form, suffix, operands, j) {
      forall e | j + 1 <= e < |form.extensions| && form.extensions[e].operandIndex == k
        ensures !ActiveAt(form, suffix, operands, e)
      {
        OneActive(form, fields, suffix, operands, j, e);
      }
    }
  }

  // ---------- how long the rest is ----------

  /** The decoder's operand is the one to be read, or still lacks what the extension holds. */
  predicate Pends(kind: ExtensionKind, suffix: Suffix, pending: Operand, operand: Operand) {
    && (pending == operand || pending == Unread(operand))
    && (kind.LabelDisp16IfZero? ==> pending == if suffix.SizeW? then Unread(operand) else operand)
  }

  lemma PendingPends(form: Form, fields: seq<Word>, suffix: Suffix, operands: seq<Operand>, j: nat, e: nat)
    requires Expressible(form, fields, suffix, operands) && j <= e < |form.extensions|
    ensures var k := form.extensions[e].operandIndex;
            Pends(form.extensions[e].kind, suffix, Pending(form, suffix, operands, j)[k], operands[k])
  {
    hide BranchOk, ExtensionsOk, ExtensionsExpressible, ImmediatesAgree, LabelFields, ExtensionWords, Unread;
    var k := form.extensions[e].operandIndex;
    if form.extensions[e].kind.LabelDisp16IfZero? {
      forall d | j <= d < |form.extensions| && form.extensions[d].operandIndex == k ensures d == e {
        if d < e { OneActive(form, fields, suffix, operands, d, e); }
        if e < d { OneActive(form, fields, suffix, operands, e, d); }
      }
      assert Awaits(form, suffix, operands, j, k) <==> ActiveAt(form, suffix, operands, e);
    }
  }

  /** The addressing mode is that of the operand whether or not its extension has been read. */
  lemma UnreadShape(operand: Operand)
    ensures var unread := Unread(operand);
            && unread.kind == operand.kind
            && (unread.SingleWordMode() <==> operand.SingleWordMode())
            && (unread.LongAddressMode() <==> operand.LongAddressMode())
            && (unread.ImmediateMode() <==> operand.ImmediateMode())
            && (unread.IndexMode() <==> operand.IndexMode())
            && unread.value == 0 && unread.index == NO_INDEX
  {
    hide IsSingleWordMode, IsLongAddressMode, IsImmediateMode, IsIndexMode;
  }

  lemma EstimateOfEa(form: Form, extension: ExtensionDef, suffix: Suffix, pending: Operand, operand: Operand)
    requires pending == operand || pending == Unread(operand)
    requires !extension.kind.LabelDisp16IfZero? && (extension.kind.LabelDisp16Always? ==> form.branchWordBytes == 2)
    requires extension.kind.EaSingleWord? || extension.kind.EaLongAddress? || extension.kind.EaIndex? ==> operand.IsMemoryEa()
    ensures MinimumBytes(form, extension, pending, suffix) == LeastBytes(extension.kind, suffix, operand)
  {
    hide LowByteIs, Unread, IsSingleWordMode, IsLongAddressMode, IsImmediateMode, IsIndexMode;
    UnreadShape(operand);
  }

  lemma EstimateOfLabel(form: Form, extension: ExtensionDef, suffix: Suffix, operand: Operand)
    requires extension.kind.LabelDisp16IfZero? && SignalFree(form, extension.kind, suffix, operand)
    requires form.branchWordSignal == 0 && form.branchWordBytes == 2
    ensures MinimumBytes(form, extension, if suffix.SizeW? then Unread(operand) else operand, suffix)
            == LeastBytes(extension.kind, suffix, operand)
  {
    hide LowByteIs, Unread, IsSingleWordMode, IsLongAddressMode, IsImmediateMode, IsIndexMode;
    UnreadShape(operand);
    ZeroByte();
  }

  lemma EstimateOfOne(form: Form, fields: seq<Word>, suffix: Suffix, pending: Operand, operand: Operand,
                    extension: ExtensionDef)
    requires extension.Indexes(|fields|) && ExtensionFacts(form, fields, suffix, operand, extension)
    requires Pends(extension.kind, suffix, pending, operand)
    ensures MinimumBytes(form, extension, pending, suffix) == LeastBytes(extension.kind, suffix, operand)
  {
    hide MinimumBytes, LeastBytes, ExtensionNormal, SignalFree, Unread;
    if extension.kind.LabelDisp16IfZero? { EstimateOfLabel(form, extension, suffix, operand); }
    else { EstimateOfEa(form, extension, suffix, pending, operand); }
  }

  /** While an extension is still to be read, the decoder's estimate for it is its least length. */
  lemma EstimateIsLeast(form: Form, fields: seq<Word>, suffix: Suffix, operands: seq<Operand>, j: nat, e: nat)
    requires Expressible(form, fields, suffix, operands) && j <= e < |form.extensions|
    ensures var extension := form.extensions[e];
            MinimumBytes(form, extension, Pending(form, suffix, operands, j)[extension.operandIndex], suffix)
            == LeastBytes(extension.kind, suffix, operands[extension.operandIndex])
  {
    hide BranchOk, ExtensionsOk, ExtensionsExpressible, ImmediatesAgree, LabelFields, ExtensionWords, ExtensionFacts,
         Pending, Pends, MinimumBytes, LeastBytes;
    var k := form.extensions[e].operandIndex;
    FactsOf(form, fields, suffix, operands, e);
    PendingPends(form, fields, suffix, operands, j, e);
    EstimateOfOne(form, fields, suffix, Pending(form, suffix, operands, j)[k], operands[k], form.extensions[e]);
  }

  lemma ZeroByte()
    ensures LowByteIs(0, 0)
  {
  }

  /** The decoder's estimate for the extensions from `i` on, and what it does not know of, make up
      the length of the emitted words. */
  lemma {:induction false} TailLength(form: Form, fields: seq<Word>, suffix: Suffix, operands: seq<Operand>, j: nat, i: nat)
    requires Expressible(form, fields, suffix, operands) && j <= i <= |form.extensions|
    ensures 2 * |TailWords(form, fields, operands, i)|
            == MinimumTail(form, Pending(form, suffix, operands, j), suffix, i) + Surplus(form, suffix, operands, i)
    decreases |form.extensions| - i
  {
    hide BranchOk, ExtensionsOk, ExtensionsExpressible, ImmediatesAgree, LabelFields, ExtensionWords, Pending,
         MinimumBytes, LeastBytes, ActiveAt, DisplacementWords;
    if i < |form.extensions| {
      TailLength(form, fields, suffix, operands, j, i + 1);
      EstimateIsLeast(form, fields, suffix, operands, j, i);
      ExtensionLength(form, fields, suffix, operands, i);
    }
  }

  // ---------- one extension ----------

  lemma WordComesBack(before: seq<Word>, value: Long, after: seq<Word>, rest: seq<Byte>, pending: Operand)
    requires FitsSignedWord(value)
    ensures ReadWordValue(Image(before + [Low16(value)] + after, rest), pending, 2 * |before|)
            == Some((pending.(value := value), 2 * |before| + 2))
  {
    hide ReadU16, SignExtend16, Low16;
    var words := before + [Low16(value)] + after;
    assert words[|before|] == Low16(value);
    ReadBackWord(words, rest, |before|);
  }

  lemma LongComesBack(before: seq<Word>, value: Long, after: seq<Word>, rest: seq<Byte>, pending: Operand)
    ensures ReadLongValue(Image(before + [High16(value), Low16(value)] + after, rest), pending, 2 * |before|)
            == Some((pending.(value := value), 2 * |before| + 4))
  {
    hide ReadU32, High16, Low16;
    var words := before + [High16(value), Low16(value)] + after;
    assert words[|before|] == High16(value) && words[|before| + 1] == Low16(value);
    ReadBackLong(words, rest, |before|, value);
  }

  lemma ShortImmediateComesBack(before: seq<Word>, value: Long, after: seq<Word>, rest: seq<Byte>, pending: Operand, suffix: Suffix)
    requires FitsUnsignedWord(value) && !suffix.SizeL?
    ensures ReadImmediate(Image(before + [Low16(value)] + after, rest), pending, suffix, 2 * |before|)
            == Some((pending.(value := value), 2 * |before| + 2))
  {
    hide ReadU16, Low16, FitsUnsignedWord;
    var words := before + [Low16(value)] + after;
    assert words[|before|] == Low16(value);
    ReadBackWord(words, rest, |before|);
    WordOfLow(value);
  }

  lemma LongImmediateComesBack(before: seq<Word>, value: Long, after: seq<Word>, rest: seq<Byte>, pending: Operand, suffix: Suffix)
    requires suffix.SizeL?
    ensures ReadImmediate(Image(before + [High16(value), Low16(value)] + after, rest), pending, suffix, 2 * |before|)
            == Some((pending.(value := value), 2 * |before| + 4))
  {
    hide High16, Low16, ReadLongValue;
    LongComesBack(before, value, after, rest, pending);
  }

  /** An extension without words for the operand changes nothing. */
  lemma InactiveIsSkipped(form: Form, fields: seq<Word>, suffix: Suffix, operands: seq<Operand>, extension: ExtensionDef,
                          pending: Operand, data: seq<Byte>, offset: nat, tail: nat)
    requires extension.Indexes(|fields|) && extension.operandIndex < |operands|
    requires ExtensionFacts(form, fields, suffix, operands[extension.operandIndex], extension)
    requires Pends(extension.kind, suffix, pending, operands[extension.operandIndex])
    requires !Active(extension.kind, suffix, operands[extension.operandIndex])
    ensures ExtensionWords(form, extension, fields, operands) == Ok([])
    ensures ReadExtension(form, extension.kind, data, pending, suffix, offset, tail) == Some((pending, offset))
  {
    hide ExtensionNormal, Unread, ReadExtension, ExtensionWords, LowByteIs;
    if extension.kind.LabelDisp16IfZero? {
      InactiveLabel(form, fields, suffix, operands, extension, data, offset, tail);
    } else {
      InactiveEa(form, fields, suffix, operands, extension, pending, data, offset, tail);
    }
  }

  lemma InactiveLabel(form: Form, fields: seq<Word>, suffix: Suffix, operands: seq<Operand>, extension: ExtensionDef,
                      data: seq<Byte>, offset: nat, tail: nat)
    requires extension.Indexes(|fields|) && extension.operandIndex < |operands|
    requires extension.kind.LabelDisp16IfZero? && !suffix.SizeW? && fields[extension.patchIndex] != 0
    requires SignalFree(form, extension.kind, suffix, operands[extension.operandIndex])
    ensures ExtensionWords(form, extension, fields, operands) == Ok([])
    ensures ReadExtension(form, extension.kind, data, operands[extension.operandIndex], suffix, offset, tail)
            == Some((operands[extension.operandIndex], offset))
  {
    hide LowByteIs, ReadBranchValue;
  }

  lemma InactiveEa(form: Form, fields: seq<Word>, suffix: Suffix, operands: seq<Operand>, extension: ExtensionDef,
                   pending: Operand, data: seq<Byte>, offset: nat, tail: nat)
    requires extension.Indexes(|fields|) && extension.operandIndex < |operands|
    requires !extension.kind.LabelDisp16IfZero? && !Active(extension.kind, suffix, operands[extension.operandIndex])
    requires pending == operands[extension.operandIndex] || pending == Unread(operands[extension.operandIndex])
    requires extension.kind.EaSingleWord? || extension.kind.EaLongAddress? || extension.kind.EaIndex? ==>
               operands[extension.operandIndex].IsMemoryEa()
    ensures ExtensionWords(form, extension, fields, operands) == Ok([])
    ensures ReadExtension(form, extension.kind, data, pending, suffix, offset, tail) == Some((pending, offset))
  {
    hide Unread, IsSingleWordMode, IsLongAddressMode, IsImmediateMode, IsIndexMode, ReadWordValue, ReadLongValue,
         ReadBranchValue, ReadSignalled, ReadImmediate, DecodedIndex, IndexWords, ImmediateWords, Low16, High16,
         FitsAbsoluteWord;
    UnreadShape(operands[extension.operandIndex]);
  }

  /** The words of the extension, wherever they stand, are read back into the operand. */
  predicate ComesBack(form: Form, fields: seq<Word>, suffix: Suffix, operands: seq<Operand>, extension: ExtensionDef,
                      before: seq<Word>, after: seq<Word>, rest: seq<Byte>, tail: nat)
    requires extension.Indexes(|fields|) && extension.operandIndex < |operands|
    requires ExtensionWords(form, extension, fields, operands).Ok?
  {
    var words := ExtensionWords(form, extension, fields, operands).value;
    var operand := operands[extension.operandIndex];
    ReadExtension(form, extension.kind, Image(before + words + after, rest), Unread(operand), suffix, 2 * |before|, tail)
    == Some((operand, 2 * |before| + 2 * |words|))
  }

  lemma SingleWordComesBack(form: Form, fields: seq<Word>, suffix: Suffix, operands: seq<Operand>, extension: ExtensionDef,
              before: seq<Word>, after: seq<Word>, rest: seq<Byte>, tail: nat)
    requires extension.Indexes(|fields|) && extension.operandIndex < |operands|
    requires ExtensionNormal(extension.kind, suffix, operands[extension.operandIndex])
    requires Active(extension.kind, suffix, operands[extension.operandIndex])
    requires extension.kind.EaSingleWord?
    requires ExtensionWords(form, extension, fields, operands).Ok?
    ensures ComesBack(form, fields, suffix, operands, extension, before, after, rest, tail)
  {
    hide Unread, IsSingleWordMode, IsLongAddressMode, IsImmediateMode, IsIndexMode, ReadWordValue, Low16, FitsSignedWord, FitsAbsoluteWord;
    var operand := operands[extension.operandIndex];
    UnreadShape(operand);
    UnreadRestored(operand);
    WordComesBack(before, operand.value, after, rest, Unread(operand));
  }

  lemma AddressComesBack(form: Form, fields: seq<Word>, suffix: Suffix, operands: seq<Operand>, extension: ExtensionDef,
              before: seq<Word>, after: seq<Word>, rest: seq<Byte>, tail: nat)
    requires extension.Indexes(|fields|) && extension.operandIndex < |operands|
    requires ExtensionNormal(extension.kind, suffix, operands[extension.operandIndex])
    requires Active(extension.kind, suffix, operands[extension.operandIndex])
    requires extension.kind.EaLongAddress?
    requires ExtensionWords(form, extension, fields, operands).Ok?
    ensures ComesBack(form, fields, suffix, operands, extension, before, after, rest, tail)
  {
    hide Unread, IsSingleWordMode, IsLongAddressMode, IsImmediateMode, IsIndexMode, ReadLongValue, Low16, High16;
    var operand := operands[extension.operandIndex];
    UnreadShape(operand);
    UnreadRestored(operand);
    LongComesBack(before, operand.value, after, rest, Unread(operand));
  }

  lemma ImmediateComesBack(form: Form, fields: seq<Word>, suffix: Suffix, operands: seq<Operand>, extension: ExtensionDef,
              before: seq<Word>, after: seq<Word>, rest: seq<Byte>, tail: nat)
    requires extension.Indexes(|fields|) && extension.operandIndex < |operands|
    requires ExtensionNormal(extension.kind, suffix, operands[extension.operandIndex])
    requires Active(extension.kind, suffix, operands[extension.operandIndex])
    requires extension.kind.EaImmediate?
    requires EmitsLongImmediate(form, fields, operands) <==> suffix.SizeL?
    requires ExtensionWords(form, extension, fields, operands).Ok?
    ensures ComesBack(form, fields, suffix, operands, extension, before, after, rest, tail)
  {
    hide Unread, IsSingleWordMode, IsLongAddressMode, IsImmediateMode, IsIndexMode, ReadImmediate, Low16, High16, EmitsLongImmediate,
         FitsUnsignedWord;
    var operand := operands[extension.operandIndex];
    UnreadShape(operand);
    UnreadRestored(operand);
    if suffix.SizeL? { LongImmediateComesBack(before, operand.value, after, rest, Unread(operand), suffix); }
    else { ShortImmediateComesBack(before, operand.value, after, rest, Unread(operand), suffix); }
  }

  lemma DisplacementWordComesBack(form: Form, fields: seq<Word>, suffix: Suffix, operands: seq<Operand>, extension: ExtensionDef,
              before: seq<Word>, after: seq<Word>, rest: seq<Byte>, tail: nat)
    requires extension.Indexes(|fields|) && extension.operandIndex < |operands|
    requires ExtensionNormal(extension.kind, suffix, operands[extension.operandIndex])
    requires Active(extension.kind, suffix, operands[extension.operandIndex])
    requires extension.kind.LabelDisp16IfZero? || extension.kind.LabelDisp16Always? || extension.kind.Disp16Always?
    requires !extension.kind.Disp16Always? ==> form.branchWordBytes == 2
    requires extension.kind.LabelDisp16IfZero? ==> form.branchWordSignal == 0 && fields[extension.patchIndex] == 0
    requires ExtensionWords(form, extension, fields, operands).Ok?
    ensures ComesBack(form, fields, suffix, operands, extension, before, after, rest, tail)
  {
    hide Unread, LowByteIs, ReadWordValue, Low16, FitsSignedWord;
    var operand := operands[extension.operandIndex];
    UnreadShape(operand);
    UnreadRestored(operand);
    ZeroByte();
    WordComesBack(before, operand.value, after, rest, Unread(operand));
  }

  /** The words of an extension that is not an index are read back whatever comes behind them. */
  lemma ActiveComesBack(form: Form, fields: seq<Word>, suffix: Suffix, operands: seq<Operand>, extension: ExtensionDef,
                        before: seq<Word>, after: seq<Word>, rest: seq<Byte>, tail: nat)
    requires extension.Indexes(|fields|) && extension.operandIndex < |operands|
    requires ExtensionFacts(form, fields, suffix, operands[extension.operandIndex], extension)
    requires Active(extension.kind, suffix, operands[extension.operandIndex]) && !extension.kind.EaIndex?
    requires extension.kind.EaImmediate? ==> (EmitsLongImmediate(form, fields, operands) <==> suffix.SizeL?)
    requires ExtensionWords(form, extension, fields, operands).Ok?
    ensures ComesBack(form, fields, suffix, operands, extension, before, after, rest, tail)
  {
    hide ComesBack, ExtensionNormal, ExtensionWords, SignalFree, EmitsLongImmediate, IsSingleWordMode, IsLongAddressMode,
         IsImmediateMode, IsIndexMode;
    match extension.kind {
      case EaSingleWord => SingleWordComesBack(form, fields, suffix, operands, extension, before, after, rest, tail);
      case EaLongAddress => AddressComesBack(form, fields, suffix, operands, extension, before, after, rest, tail);
      case EaImmediate => ImmediateComesBack(form, fields, suffix, operands, extension, before, after, rest, tail);
      case LabelDisp16IfZero | LabelDisp16Always | Disp16Always =>
        DisplacementWordComesBack(form, fields, suffix, operands, extension, before, after, rest, tail);
    }
  }

  lemma UnreadRestored(operand: Operand)
    ensures operand.index == NO_INDEX ==> Unread(operand).(value := operand.value) == operand
  {
  }

  lemma IndexIsRead(form: Form, data: seq<Byte>, pending: Operand, suffix: Suffix, offset: nat, tail: nat)
    requires pending.IndexMode() && tail <= |data|
    ensures ReadExtension(form, EaIndex, data, pending, suffix, offset, tail)
            == DecodedIndex(data, |data| - tail, pending, offset, |data| > offset + tail)
  {
    hide DecodedIndex, IsIndexMode, ReadWordValue, ReadLongValue, ReadImmediate, ReadSignalled, ReadBranchValue;
  }

  lemma IndexIsEmitted(form: Form, fields: seq<Word>, operands: seq<Operand>, extension: ExtensionDef)
    requires extension.Indexes(|fields|) && extension.operandIndex < |operands| && extension.kind.EaIndex?
    requires operands[extension.operandIndex].IsMemoryEa() && operands[extension.operandIndex].IndexMode()
    ensures ExtensionWords(form, extension, fields, operands) == Ok(IndexWords(operands[extension.operandIndex]))
  {
    hide IsIndexMode, IsSingleWordMode, IsLongAddressMode, IsImmediateMode, IndexWords, ImmediateWords, Low16, High16,
         FitsAbsoluteWord;
  }

  /** The words of an index are read back exactly when the end of a full extension is recognised. */
  lemma IndexComesBack(form: Form, fields: seq<Word>, suffix: Suffix, operands: seq<Operand>, extension: ExtensionDef,
                       before: seq<Word>, after: seq<Word>, rest: seq<Byte>, tail: nat)
    requires extension.Indexes(|fields|) && extension.operandIndex < |operands|
    requires extension.kind.EaIndex? && IndexNormal(operands[extension.operandIndex])
    requires operands[extension.operandIndex].IsMemoryEa() && operands[extension.operandIndex].IndexMode()
    requires tail <= 2 * |after| + |rest|
    ensures ExtensionWords(form, extension, fields, operands).Ok?
    ensures var operand := operands[extension.operandIndex];
            ComesBack(form, fields, suffix, operands, extension, before, after, rest, tail)
            <==> (operand.index.UsesFull() ==> OuterRecognised(operand.index.outerDispSize, 2 * |after| + |rest| - tail))
  {
    hide ReadExtension, Unread, DecodedIndex, IndexWords, OuterRecognised, IndexNormal, IndexWord.UsesFull,
         ExtensionWords, FitsSignedWord, FitsUnsignedWord, Image, IsIndexMode, IsSingleWordMode, IsLongAddressMode,
         IsImmediateMode;
    var operand := operands[extension.operandIndex];
    UnreadShape(operand);
    IndexIsRead(form, Image(before + IndexWords(operand) + after, rest), Unread(operand), suffix, 2 * |before|, tail);
    IndexIsEmitted(form, fields, operands, extension);
    IndexedExtensionRoundTrip(operand, before, after, rest, tail);
  }

  // ---------- all extensions ----------

  /** Extension `j` is read as the encoder meant it exactly when its end is recognised. */
  lemma ExtensionStep(form: Form, fields: seq<Word>, suffix: Suffix, operands: seq<Operand>, j: nat, before: seq<Word>,
                      rest: seq<Byte>)
    requires Expressible(form, fields, suffix, operands) && j < |form.extensions|
    ensures var extension := form.extensions[j];
            var words := ExtensionWords(form, extension, fields, operands).value;
            DecodedExtension(form, j, Image(before + TailWords(form, fields, operands, j), rest),
                             Pending(form, suffix, operands, j), suffix, 2 * |before|)
            == Some((Pending(form, suffix, operands, j + 1)[extension.operandIndex], 2 * |before| + 2 * |words|))
            <==> Recognised(form, suffix, operands, j, |rest|)
  {
    hide BranchOk, ExtensionsOk, ExtensionsExpressible, LabelFields, ExtensionWords, ExtensionFacts, Pending, Active,
         ReadExtension, MinimumTail, Surplus, Image, OuterRecognised, Unread, EmitsLongImmediate, Pends,
         IndexWord.UsesFull, ExtensionNormal;
    var extension := form.extensions[j];
    var k := extension.operandIndex;
    var words := ExtensionWords(form, extension, fields, operands).value;
    var after := TailWords(form, fields, operands, j + 1);
    var pending := Pending(form, suffix, operands, j);
    var tail := MinimumTail(form, pending, suffix, j + 1);
    assert before + TailWords(form, fields, operands, j) == before + words + after;
    FactsOf(form, fields, suffix, operands, j);
    PendingStep(form, fields, suffix, operands, j);
    TailLength(form, fields, suffix, operands, j, j + 1);
    ExtensionIsNormal(form, fields, suffix, operands[k], extension);
    if !ActiveAt(form, suffix, operands, j) {
      PendingPends(form, fields, suffix, operands, j, j);
      InactiveIsSkipped(form, fields, suffix, operands, extension, pending[k], Image(before + words + after, rest),
                        2 * |before|, tail);
    } else if extension.kind.EaIndex? {
      ActiveIndex(extension.kind, suffix, operands[k]);
      IndexComesBack(form, fields, suffix, operands, extension, before, after, rest, tail);
    } else {
      ActiveComesBack(form, fields, suffix, operands, extension, before, after, rest, tail);
    }
  }

  lemma ActiveIndex(kind: ExtensionKind, suffix: Suffix, operand: Operand)
    requires kind.EaIndex? && Active(kind, suffix, operand) && ExtensionNormal(kind, suffix, operand)
    ensures IndexNormal(operand) && operand.IsMemoryEa() && operand.IndexMode()
  {
  }

  lemma ExtensionIsNormal(form: Form, fields: seq<Word>, suffix: Suffix, operand: Operand, extension: ExtensionDef)
    requires extension.Indexes(|fields|) && ExtensionFacts(form, fields, suffix, operand, extension)
    ensures ExtensionNormal(extension.kind, suffix, operand)
  {
    hide ExtensionNormal, SignalFree;
  }

  /** When every end is recognised, the decoder restores all operands and stops at the end. */
  lemma {:induction false} TailComesBack(form: Form, fields: seq<Word>, suffix: Suffix, operands: seq<Operand>, j: nat,
                                         before: seq<Word>, rest: seq<Byte>)
    requires Expressible(form, fields, suffix, operands) && j <= |form.extensions|
    requires forall e: nat :: j <= e < |form.extensions| ==> Recognised(form, suffix, operands, e, |rest|)
    ensures var data := Image(before + TailWords(form, fields, operands, j), rest);
            DecodedExtensions(form, data, Pending(form, suffix, operands, j), suffix, 2 * |before|, j)
            == Some((operands, |data| - |rest|))
    decreases |form.extensions| - j
  {
    hide BranchOk, ExtensionsOk, ExtensionsExpressible, ImmediatesAgree, LabelFields, ExtensionWords, ActiveAt,
         Recognised, DecodedExtension, Image, Unread;
    if j == |form.extensions| {
      assert Pending(form, suffix, operands, j) == operands;
      assert before + TailWords(form, fields, operands, j) == before;
    } else {
      var words := ExtensionWords(form, form.extensions[j], fields, operands).value;
      hide Pending;
      ExtensionStep(form, fields, suffix, operands, j, before, rest);
      PendingStep(form, fields, suffix, operands, j);
      TailComesBack(form, fields, suffix, operands, j + 1, before + words, rest);
      assert before + TailWords(form, fields, operands, j) == before + words + TailWords(form, fields, operands, j + 1);
    }
  }

  // ---------- an end that is not recognised ----------

  /** The words that a displacement of this size takes. */
  function DisplacementLength(size: Byte): nat {
    if size == FULL_EXT_BD_WORD then 1 else if size == FULL_EXT_BD_LONG then 2 else 0
  }

  lemma LengthBySize(size: Byte, value: Long)
    ensures |DisplacementWords(size, value)| == DisplacementLength(size)
  {
    hide Low16, High16;
  }

  lemma BaseAdvances(data: seq<Byte>, size: nat, offset: nat, index: IndexWord)
    requires size <= |data|
    ensures var r := ReadBaseDisplacement(data, size, offset, index);
            r.Some? ==> r.value.0.baseDispSize == index.baseDispSize && r.value.0.outerDispSize == index.outerDispSize
                        && r.value.1 == offset + 2 * DisplacementLength(index.baseDispSize) && offset <= r.value.1
                        && (offset <= size ==> r.value.1 <= size)
  {
    hide ReadU16, ReadU32, SignExtend16;
  }

  lemma OuterAdvances(data: seq<Byte>, size: nat, offset: nat, index: IndexWord)
    requires offset <= size <= |data| && index.outerDispSize == 0
    ensures var r := ReadOuterDisplacement(data, size, offset, index);
            && r.0.baseDispSize == index.baseDispSize
            && r.1 == offset + 2 * DisplacementLength(r.0.outerDispSize)
  {
    hide ReadU16, ReadU32, SignExtend16;
  }

  /** The decoder's offset behind a full index is fixed by the sizes that it found. */
  lemma OffsetFollowsSizes(data: seq<Byte>, size: nat, pending: Operand, offset: nat, allowFull: bool)
    requires size <= |data| && pending.index == NO_INDEX
    ensures var r := DecodedIndex(data, size, pending, offset, allowFull);
            r.Some? && r.value.0.index.UsesFull() ==>
              var index := r.value.0.index;
              && r.value.0 == pending.(value := 0, index := index)
              && r.value.1 == offset + 2 + 2 * DisplacementLength(index.baseDispSize)
                                       + 2 * DisplacementLength(index.outerDispSize)
  {
    hide ReadU16, SignExtend8, BriefIndex, FullIndex, IsFullFormat, ToByte, ReadBaseDisplacement, ReadOuterDisplacement,
         DisplacementLength, IndexWord.UsesFull;
    if offset + 2 <= size {
      var word := ReadU16(data, offset);
      BriefKeepsFormat(word);
      FullKeepsDisplacements(word);
      var index := FullIndex(word, NO_INDEX);
      BaseAdvances(data, size, offset + 2, index);
      var inner := ReadBaseDisplacement(data, size, offset + 2, index);
      if inner.Some? { OuterAdvances(data, size, inner.value.1, inner.value.0); }
    }
  }

  lemma OffsetFollowsIndex(data: seq<Byte>, size: nat, operand: Operand, offset: nat, allowFull: bool)
    requires size <= |data| && FullNormal(operand)
    ensures var r := DecodedIndex(data, size, Unread(operand), offset, allowFull);
            r.Some? && r.value.0.index == operand.index ==> r == Some((operand, offset + 2 * |IndexWords(operand)|))
  {
    hide DecodedIndex, FullExtensionWord, DisplacementWords, DisplacementLength, FullNormal, IndexWord.UsesFull,
         Unread, IndexWords, RegistersInRange;
    FullParts(operand);
    UnreadRefilled(operand);
    FullUsesFull(operand);
    LengthBySize(operand.index.baseDispSize, operand.index.baseDisp);
    LengthBySize(operand.index.outerDispSize, operand.index.outerDisp);
    OffsetFollowsSizes(data, size, Unread(operand), offset, allowFull);
  }

  lemma UnreadRefilled(operand: Operand)
    ensures Unread(operand).index == NO_INDEX
    ensures operand.value == 0 ==> Unread(operand).(value := 0, index := operand.index) == operand
  {
  }

  lemma FullUsesFull(operand: Operand)
    requires FullNormal(operand)
    ensures operand.index.UsesFull()
  {
  }

  lemma BriefKeepsFormat(word: Word)
    ensures !BriefIndex(word, NO_INDEX).UsesFull()
  {
    hide ToByte;
  }

  lemma FullKeepsDisplacements(word: Word)
    ensures FullIndex(word, NO_INDEX).outerDispSize == 0
  {
    hide ToByte;
  }

  /** An extension that is not recognised leaves another index in its operand, or none. */
  lemma UnrecognisedIsMisread(form: Form, fields: seq<Word>, suffix: Suffix, operands: seq<Operand>, j: nat,
                              before: seq<Word>, rest: seq<Byte>)
    requires Expressible(form, fields, suffix, operands) && j < |form.extensions|
    requires !Recognised(form, suffix, operands, j, |rest|)
    ensures form.extensions[j].kind.EaIndex?
    ensures var r := DecodedExtension(form, j, Image(before + TailWords(form, fields, operands, j), rest),
                                      Pending(form, suffix, operands, j), suffix, 2 * |before|);
            r.Some? ==> r.value.0.index != operands[form.extensions[j].operandIndex].index
  {
    hide BranchOk, ExtensionsOk, ExtensionsExpressible, LabelFields, ImmediatesAgree, ExtensionFacts, Pending,
         MinimumTail, Surplus, Image, OuterRecognised, Unread, DecodedIndex, IndexWords, FullNormal, BriefNormal,
         IsSingleWordMode, IsLongAddressMode, IsImmediateMode, IsIndexMode, DecodedExtension, ExtensionWords;
    var extension := form.extensions[j];
    var operand := operands[extension.operandIndex];
    var data := Image(before + TailWords(form, fields, operands, j), rest);
    FactsOf(form, fields, suffix, operands, j);
    ExtensionIsNormal(form, fields, suffix, operand, extension);
    PendingStep(form, fields, suffix, operands, j);
    ExtensionStep(form, fields, suffix, operands, j, before, rest);
    MisreadIndex(form, fields, suffix, operands, j, data, 2 * |before|);
  }

  lemma MisreadIndex(form: Form, fields: seq<Word>, suffix: Suffix, operands: seq<Operand>, j: nat, data: seq<Byte>,
                     offset: nat)
    requires StructureOk(form) && |operands| == |form.operandKinds| && |fields| == |form.patches|
    requires j < |form.extensions| && form.extensions[j].kind.EaIndex?
    requires var operand := operands[form.extensions[j].operandIndex];
             operand.IsMemoryEa() && operand.IndexMode() && FullNormal(operand)
    requires Pending(form, suffix, operands, j)[form.extensions[j].operandIndex]
             == Unread(operands[form.extensions[j].operandIndex])
    ensures var operand := operands[form.extensions[j].operandIndex];
            var r := DecodedExtension(form, j, data, Pending(form, suffix, operands, j), suffix, offset);
            && ExtensionWords(form, form.extensions[j], fields, operands) == Ok(IndexWords(operand))
            && (r.Some? && r.value.0.index == operand.index ==>
                  r == Some((operand, offset + 2 * |IndexWords(operand)|)))
  {
    hide Pending, MinimumTail, Unread, DecodedIndex, IndexWords, FullNormal,
         IsSingleWordMode, IsLongAddressMode, IsImmediateMode, IsIndexMode, ReadWordValue, ReadLongValue, ReadImmediate,
         ReadSignalled, ReadBranchValue, ImmediateWords, FitsAbsoluteWord, Low16, High16, MinimumBytes;
    var operand := operands[form.extensions[j].operandIndex];
    UnreadShape(operand);
    var tail := MinimumTail(form, Pending(form, suffix, operands, j), suffix, j + 1);
    if tail <= |data| {
      OffsetFollowsIndex(data, |data| - tail, operand, offset, |data| > offset + tail);
    }
  }

  /** Extensions that are not an index of operand `k` leave its index alone. */
  lemma {:induction false} IndexStays(form: Form, data: seq<Byte>, operands: seq<Operand>, suffix: Suffix, offset: nat,
                                      j: nat, k: nat)
    requires StructureOk(form) && |operands| == |form.operandKinds| && j <= |form.extensions| && k < |operands|
    requires forall e :: j <= e < |form.extensions| && form.extensions[e].operandIndex == k ==>
               !form.extensions[e].kind.EaIndex?
    ensures var r := DecodedExtensions(form, data, operands, suffix, offset, j);
            r.Some? ==> r.value.0[k].index == operands[k].index
    decreases |form.extensions| - j
  {
    hide MinimumTail, ReadExtension;
    if j < |form.extensions| {
      var step := DecodedExtension(form, j, data, operands, suffix, offset);
      if step.Some? {
        if form.extensions[j].operandIndex == k {
          OtherKindsKeepIndex(form, form.extensions[j].kind, data, operands[k], suffix, offset,
                              MinimumTail(form, operands, suffix, j + 1));
        }
        IndexStays(form, data, operands[form.extensions[j].operandIndex := step.value.0], suffix, step.value.1, j + 1, k);
      }
    }
  }

  lemma OtherKindsKeepIndex(form: Form, kind: ExtensionKind, data: seq<Byte>, operand: Operand, suffix: Suffix,
                            offset: nat, tail: nat)
    requires !kind.EaIndex?
    ensures var r := ReadExtension(form, kind, data, operand, suffix, offset, tail);
            r.Some? ==> r.value.0.index == operand.index
  {
    hide ReadWordValue, ReadLongValue, ReadImmediate, ReadSignalled, ReadBranchValue, DecodedIndex,
         IsSingleWordMode, IsLongAddressMode, IsImmediateMode, IsIndexMode;
    WordsKeepIndex(data, operand, suffix, offset);
    LabelsKeepIndex(form, data, operand, offset);
  }

  lemma WordsKeepIndex(data: seq<Byte>, operand: Operand, suffix: Suffix, offset: nat)
    ensures var r := ReadWordValue(data, operand, offset); r.Some? ==> r.value.0.index == operand.index
    ensures var r := ReadLongValue(data, operand, offset); r.Some? ==> r.value.0.index == operand.index
    ensures var r := ReadImmediate(data, operand, suffix, offset); r.Some? ==> r.value.0.index == operand.index
  {
    hide ReadU16, ReadU32, SignExtend16;
  }

  lemma LabelsKeepIndex(form: Form, data: seq<Byte>, operand: Operand, offset: nat)
    ensures forall bytes: nat :: var r := ReadBranchValue(data, operand, offset, bytes);
              r.Some? ==> r.value.0.index == operand.index
    ensures var r := ReadSignalled(form, data, operand, offset); r.Some? ==> r.value.0.index == operand.index
  {
    hide ReadWordValue, ReadLongValue, LowByteIs;
    WordsKeepIndex(data, operand, Bare, offset);
  }

  /** An operand has one index extension at most. */
  lemma OneIndex(form: Form, d: nat, e: nat)
    requires StructureOk(form) && ExtensionsOk(form) && d < e < |form.extensions|
    requires form.extensions[d].operandIndex == form.extensions[e].operandIndex && form.extensions[d].kind.EaIndex?
    ensures !form.extensions[e].kind.EaIndex?
  {
  }

  /** The decoder restores the operands and ends at the end of the bytes when it recognises the end
      of every full extension; otherwise it fails or some operand gets another index. */
  lemma {:induction false} TailRoundTrip(form: Form, fields: seq<Word>, suffix: Suffix, operands: seq<Operand>, j: nat,
                                         before: seq<Word>, rest: seq<Byte>)
    requires Expressible(form, fields, suffix, operands) && j <= |form.extensions|
    ensures var data := Image(before + TailWords(form, fields, operands, j), rest);
            var r := DecodedExtensions(form, data, Pending(form, suffix, operands, j), suffix, 2 * |before|, j);
            if forall e: nat :: j <= e < |form.extensions| ==> Recognised(form, suffix, operands, e, |rest|)
            then r == Some((operands, |data| - |rest|))
            else r.Some? ==> exists k :: 0 <= k < |operands| && r.value.0[k].index != operands[k].index
    decreases |form.extensions| - j
  {
    hide BranchOk, ExtensionsExpressible, ImmediatesAgree, LabelFields, ExtensionWords, ActiveAt, Recognised,
         DecodedExtension, Image, Unread, Pending;
    if forall e: nat :: j <= e < |form.extensions| ==> Recognised(form, suffix, operands, e, |rest|) {
      TailComesBack(form, fields, suffix, operands, j, before, rest);
    } else if !Recognised(form, suffix, operands, j, |rest|) {
      UnrecognisedIsMisread(form, fields, suffix, operands, j, before, rest);
      var k := form.extensions[j].operandIndex;
      var data := Image(before + TailWords(form, fields, operands, j), rest);
      var pending := Pending(form, suffix, operands, j);
      var step := DecodedExtension(form, j, data, pending, suffix, 2 * |before|);
      forall e | j + 1 <= e < |form.extensions| && form.extensions[e].operandIndex == k
        ensures !form.extensions[e].kind.EaIndex?
      {
        OneIndex(form, j, e);
      }
      if step.Some? { IndexStays(form, data, pending[k := step.value.0], suffix, step.value.1, j + 1, k); }
    } else {
      var words := ExtensionWords(form, form.extensions[j], fields, operands).value;
      ExtensionStep(form, fields, suffix, operands, j, before, rest);
      PendingStep(form, fields, suffix, operands, j);
      TailRoundTrip(form, fields, suffix, operands, j + 1, before + words, rest);
      assert before + TailWords(form, fields, operands, j) == before + words + TailWords(form, fields, operands, j + 1);
    }
  }
}
