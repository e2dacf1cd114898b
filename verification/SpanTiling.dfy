/** The spans of the emitter and of the analysis are the same, and the spans of an instruction's
    operands tile the bytes behind its opword and bound words. */
module SpanTiling {
  import opened Wrappers
  import opened Words
  import opened FormTable
  import opened Assembler
  import opened SizeRoundTrip
  import opened Spans

  /** The encoder's words for the operands, when they fit its buffer. */
  predicate Emits(form: Form, fields: seq<Word>, operands: seq<Operand>) {
    && StructureOk(form) && ExtensionsOk(form)
    && |fields| == |form.patches| && |operands| == |form.operandKinds|
    && (forall k :: 0 <= k < |operands| ==> KindFits(form.operandKinds[k], operands[k]))
    && EmittedWords(form, fields, operands, SPAN_SLOTS, |form.extensions|).Ok?
  }

  /** An immediate operand is no effective address and a label is neither. */
  predicate KindFits(kind: OperandKind, operand: Operand) {
    if IsEaKind(kind) then operand.IsMemoryEa() else operand.kind == kind
  }

  /** The words of extension `e`. */
  function WordsOf(form: Form, fields: seq<Word>, operands: seq<Operand>, e: nat): seq<Word>
    requires StructureOk(form) && |fields| == |form.patches| && |operands| == |form.operandKinds|
    requires e < |form.extensions|
  {
    match ExtensionWords(form, form.extensions[e], fields, operands)
    case Ok(words) => words
    case Err(_) => []
  }

  /** The number of words before extension `e`, behind the opword. */
  function Start(form: Form, fields: seq<Word>, operands: seq<Operand>, e: nat): nat
    requires StructureOk(form) && |fields| == |form.patches| && |operands| == |form.operandKinds|
    requires e <= |form.extensions|
  {
    if e == 0 then |form.boundBases|
    else Start(form, fields, operands, e - 1) + |WordsOf(form, fields, operands, e - 1)|
  }

  lemma {:induction false} StartIsEmitted(form: Form, fields: seq<Word>, operands: seq<Operand>, e: nat)
    requires StructureOk(form) && |fields| == |form.patches| && |operands| == |form.operandKinds|
    requires e <= |form.extensions| && EmittedWords(form, fields, operands, SPAN_SLOTS, e).Ok?
    ensures |EmittedWords(form, fields, operands, SPAN_SLOTS, e).value| == Start(form, fields, operands, e)
    ensures forall d :: 0 <= d < e ==> ExtensionWords(form, form.extensions[d], fields, operands).Ok?
  {
    hide ExtensionWords, FixedWord;
    if e > 0 {
      EmittedPrefix(form, fields, operands, e);
      StartIsEmitted(form, fields, operands, e - 1);
    }
  }

  lemma {:induction false} StartsGrow(form: Form, fields: seq<Word>, operands: seq<Operand>, d: nat, e: nat)
    requires StructureOk(form) && |fields| == |form.patches| && |operands| == |form.operandKinds|
    requires d < e <= |form.extensions|
    ensures Start(form, fields, operands, d) + |WordsOf(form, fields, operands, d)| <= Start(form, fields, operands, e)
  {
    hide WordsOf;
    if d + 1 < e { StartsGrow(form, fields, operands, d, e - 1); }
  }

  lemma WordsNeedMode(form: Form, fields: seq<Word>, operands: seq<Operand>, e: nat)
    requires Emits(form, fields, operands) && e < |form.extensions| && WordsOf(form, fields, operands, e) != []
    ensures var operand := operands[form.extensions[e].operandIndex];
            match form.extensions[e].kind
            case EaSingleWord => operand.IsMemoryEa() && operand.SingleWordMode()
            case EaLongAddress => operand.IsMemoryEa() && operand.LongAddressMode()
            case EaImmediate => (operand.IsMemoryEa() && operand.ImmediateMode()) || operand.kind.Imm?
            case EaIndex => operand.IsMemoryEa() && operand.IndexMode()
            case _ => true
  {
    hide ExtensionsOk, KindFits, EmittedWords, IsSingleWordMode, IsLongAddressMode, IsImmediateMode, IsIndexMode, Low16, High16,
         FitsAbsoluteWord, ImmediateWords, IndexWords;
  }

  lemma ModesExclude(mode: Byte, reg: Byte)
    ensures IsSingleWordMode(mode, reg) ==>
              !IsLongAddressMode(mode, reg) && !IsImmediateMode(mode, reg) && !IsIndexMode(mode, reg)
    ensures IsLongAddressMode(mode, reg) ==> !IsImmediateMode(mode, reg) && !IsIndexMode(mode, reg)
    ensures IsImmediateMode(mode, reg) ==> !IsIndexMode(mode, reg)
  {
  }

  /** An operand has words of one extension at most. */
  lemma OneExtension(form: Form, fields: seq<Word>, operands: seq<Operand>, d: nat, e: nat)
    requires Emits(form, fields, operands) && d < e < |form.extensions|
    requires form.extensions[d].operandIndex == form.extensions[e].operandIndex
    ensures WordsOf(form, fields, operands, d) == [] || WordsOf(form, fields, operands, e) == []
  {
    hide EmittedWords, WordsOf, IsSingleWordMode, IsLongAddressMode, IsImmediateMode, IsIndexMode;
    var k := form.extensions[d].operandIndex;
    assert KindFits(form.operandKinds[k], operands[k]);
    ModesExclude(operands[k].eaMode, operands[k].eaReg);
    if WordsOf(form, fields, operands, d) != [] { WordsNeedMode(form, fields, operands, d); }
    if WordsOf(form, fields, operands, e) != [] { WordsNeedMode(form, fields, operands, e); }
  }

  // ---------- the emitter's span ----------

  /** Extension `e` holds the words of operand `k`. */
  predicate Holds(form: Form, fields: seq<Word>, operands: seq<Operand>, k: nat, e: nat)
    requires StructureOk(form) && |fields| == |form.patches| && |operands| == |form.operandKinds|
  {
    e < |form.extensions| && form.extensions[e].operandIndex == k && WordsOf(form, fields, operands, e) != []
  }

  lemma {:induction false} ScanFinds(form: Form, fields: seq<Word>, operands: seq<Operand>, k: nat, i: nat)
    requires Emits(form, fields, operands) && i <= |form.extensions|
    requires EmittedWords(form, fields, operands, SPAN_SLOTS, i).Ok?
    ensures var r := EmittedScan(form, fields, operands, k, i);
            && r.Some?
            && (r.value.1 == 0 <==> forall e: nat :: e < i ==> !Holds(form, fields, operands, k, e))
            && (forall e: nat :: e < i && Holds(form, fields, operands, k, e) ==>
                  r.value == (Start(form, fields, operands, e), |WordsOf(form, fields, operands, e)|))
  {
    hide EmittedWords, ExtensionsOk, KindFits, WordsOf;
    if i > 0 {
      EmittedPrefix(form, fields, operands, i);
      ScanFinds(form, fields, operands, k, i - 1);
      StartIsEmitted(form, fields, operands, i);
      StartIsEmitted(form, fields, operands, i - 1);
      if Holds(form, fields, operands, k, i - 1) {
        forall d: nat | d < i - 1 ensures !Holds(form, fields, operands, k, d) {
          if form.extensions[d].operandIndex == k { OneExtension(form, fields, operands, d, i - 1); }
        }
      }
    }
  }

  // ---------- the analysis counts the same words ----------

  /** The analysis expects as many words as the encoder emits for extension `e`. */
  predicate CountAgrees(form: Form, fields: seq<Word>, operands: seq<Operand>, suffix: Suffix, e: nat)
    requires StructureOk(form) && |fields| == |form.patches| && |operands| == |form.operandKinds|
    requires e < |form.extensions|
  {
    ExtensionWordCount(form.extensions[e].kind, operands[form.extensions[e].operandIndex], suffix)
    == |WordsOf(form, fields, operands, e)|
  }

  /** When it does: immediates need the encoder's size to be the suffix, and to belong to no
      bit-field operand; a label word is expected unless the suffix is that of a byte. */
  predicate CountSettled(form: Form, fields: seq<Word>, operands: seq<Operand>, suffix: Suffix, e: nat)
    requires StructureOk(form) && |fields| == |form.patches| && |operands| == |form.operandKinds|
    requires e < |form.extensions|
  {
    var operand := operands[form.extensions[e].operandIndex];
    match form.extensions[e].kind
    case EaImmediate =>
      && !(operand.kind.BfEa? && operand.ImmediateMode())
      && ((operand.kind.Ea? && operand.ImmediateMode()) || operand.kind.Imm? ==>
            (EmitsLongImmediate(form, fields, operands) <==> suffix.SizeL?))
    case LabelDisp16IfZero => fields[form.extensions[e].patchIndex] == 0 <==> !suffix.SizeB?
    case _ => true
  }

  lemma IndexLength(operand: Operand)
    ensures |IndexWords(operand)| == IndexWordCount(operand.index)
  {
    hide BriefExtensionWord, FullExtensionWord, Low16, High16;
  }

  lemma CountsAgreeExactly(form: Form, fields: seq<Word>, operands: seq<Operand>, suffix: Suffix, e: nat)
    requires Emits(form, fields, operands) && e < |form.extensions|
    requires ExtensionWords(form, form.extensions[e], fields, operands).Ok?
    ensures CountAgrees(form, fields, operands, suffix, e) <==> CountSettled(form, fields, operands, suffix, e)
  {
    hide ExtensionsOk, KindFits, EmittedWords, IsSingleWordMode, IsLongAddressMode, IsImmediateMode, IsIndexMode, Low16, High16,
         FitsAbsoluteWord, IndexWords, IndexWordCount, EmitsLongImmediate;
    var operand := operands[form.extensions[e].operandIndex];
    IndexLength(operand);
    ModesExclude(operand.eaMode, operand.eaReg);
  }

  /** A conditional label word is counted right for word branches, and for byte branches whose
      displacement byte is not zero; never for long branches. */
  lemma LabelCountSettled(form: Form, fields: seq<Word>, operands: seq<Operand>, suffix: Suffix, e: nat)
    requires StructureOk(form) && BranchOk(form) && |operands| == |form.operandKinds|
    requires Encodes(form, suffix, operands, fields)
    requires e < |form.extensions| && form.extensions[e].kind.LabelDisp16IfZero?
    ensures |fields| == |form.patches|
    ensures CountSettled(form, fields, operands, suffix, e) <==>
              (suffix.SizeW? || (suffix.SizeB? && !LowByteIs(operands[form.extensions[e].operandIndex].value, 0)))
  {
    hide WidthMask;
    var i := form.extensions[e].patchIndex;
    assert FieldValue(form, form.patches[i], suffix, operands)
           == OperandField(form, form.patches[i], suffix, operands[form.patches[i].operandIndex]);
  }

  lemma {:induction false} StorageFinds(form: Form, fields: seq<Word>, operands: seq<Operand>, suffix: Suffix, k: nat, i: nat)
    requires Emits(form, fields, operands) && i <= |form.extensions|
    requires forall e: nat :: i <= e < |form.extensions| ==> CountAgrees(form, fields, operands, suffix, e)
    ensures var r := StorageScan(form, operands, suffix, k, i, 1 + Start(form, fields, operands, i));
            && (r.None? ==> forall e: nat :: i <= e ==> !Holds(form, fields, operands, k, e))
            && (r.Some? ==> exists e: nat :: i <= e && Holds(form, fields, operands, k, e)
                              && r.value == (1 + Start(form, fields, operands, e), |WordsOf(form, fields, operands, e)|))
    decreases |form.extensions| - i
  {
    hide EmittedWords, ExtensionsOk, KindFits, WordsOf, ExtensionWordCount;
    if i < |form.extensions| {
      assert CountAgrees(form, fields, operands, suffix, i);
      StorageFinds(form, fields, operands, suffix, k, i + 1);
      if Holds(form, fields, operands, k, i) {
        assert StorageScan(form, operands, suffix, k, i, 1 + Start(form, fields, operands, i))
               == Some((1 + Start(form, fields, operands, i), |WordsOf(form, fields, operands, i)|));
      }
    }
  }

  // ---------- the two spans are the same ----------

  /** The encoder's side of an instruction whose lengths the analysis expects. */
  predicate LengthsAgree(form: Form, operands: seq<Operand>, explicit: Suffix) {
    && PatchValuesOf(form, explicit, operands).Ok?
    && |PatchValuesOf(form, explicit, operands).value| <= SPAN_SLOTS
    && var fields := PatchValuesOf(form, explicit, operands).value;
       && Emits(form, fields, operands)
       && forall e: nat :: e < |form.extensions| ==>
            CountSettled(form, fields, operands, ResolveSizeSuffix(form, operands, explicit, CPU_ANY), e)
  }

  /** The words behind the opword. */
  function TotalWords(form: Form, operands: seq<Operand>, explicit: Suffix): nat
    requires LengthsAgree(form, operands, explicit)
  {
    Start(form, PatchValuesOf(form, explicit, operands).value, operands, |form.extensions|)
  }

  lemma AllCountsAgree(form: Form, operands: seq<Operand>, explicit: Suffix)
    requires LengthsAgree(form, operands, explicit)
    ensures var fields := PatchValuesOf(form, explicit, operands).value;
            var suffix := ResolveSizeSuffix(form, operands, explicit, CPU_ANY);
            forall e: nat :: e < |form.extensions| ==> CountAgrees(form, fields, operands, suffix, e)
  {
    hide Emits, CountAgrees, PatchValuesOf, ResolveSizeSuffix, ExtensionWords;
    var fields := PatchValuesOf(form, explicit, operands).value;
    var suffix := ResolveSizeSuffix(form, operands, explicit, CPU_ANY);
    EmitsParts(form, fields, operands);
    forall e: nat | e < |form.extensions| ensures CountAgrees(form, fields, operands, suffix, e) {
      CountsAgreeExactly(form, fields, operands, suffix, e);
    }
  }

  lemma EmitsParts(form: Form, fields: seq<Word>, operands: seq<Operand>)
    requires Emits(form, fields, operands)
    ensures StructureOk(form) && |fields| == |form.patches| && |operands| == |form.operandKinds|
    ensures forall d :: 0 <= d < |form.extensions| ==> ExtensionWords(form, form.extensions[d], fields, operands).Ok?
  {
    hide ExtensionsOk, ExtensionWords, KindFits;
    StartIsEmitted(form, fields, operands, |form.extensions|);
  }

  /** The emitter's span is that of the extension that holds the operand's words. */
  lemma EmittedSpanIs(form: Form, operands: seq<Operand>, explicit: Suffix, k: nat)
    requires LengthsAgree(form, operands, explicit) && k < |operands|
    ensures var fields := PatchValuesOf(form, explicit, operands).value;
            var span := EmittedSpanOf(form, operands, explicit, k);
            && span.Some?
            && (span.value.1 == 0 <==> forall e: nat :: !Holds(form, fields, operands, k, e))
            && (span.value.1 == 0 ==> span.value.0 == 0)
            && (forall e: nat :: Holds(form, fields, operands, k, e) ==>
                  span.value == (2 + 2 * Start(form, fields, operands, e), 2 * |WordsOf(form, fields, operands, e)|))
  {
    hide CountSettled, PatchValuesOf, ResolveSizeSuffix, ExtensionsOk, KindFits, WordsOf, Start, EmittedScan, EmittedWords;
    var fields := PatchValuesOf(form, explicit, operands).value;
    PatchCount(form, explicit, operands);
    ScanFinds(form, fields, operands, k, |form.extensions|);
  }

  /** The emitter and the analysis find the same bytes for every operand, except that the analysis gives
      the label of a byte branch its displacement byte in the opword, where the emitter has no words, and
      that it gives no span that would start beyond the address space. */
  lemma SpansAgree(form: Form, operands: seq<Operand>, explicit: Suffix, k: nat, offset: nat)
    requires LengthsAgree(form, operands, explicit) && k < |operands| && offset < ADDRESS_LIMIT
    ensures var emitted := EmittedSpanOf(form, operands, explicit, k);
            && emitted.Some?
            && StorageSpanOf(form, operands, explicit, k, offset)
               == if operands[k].kind.Label? && explicit.SizeB? then Some(((offset + 1) % ADDRESS_LIMIT, 1))
                  else if emitted.value.1 == 0 || offset + emitted.value.0 >= ADDRESS_LIMIT then None
                  else Some((offset + emitted.value.0, emitted.value.1))
  {
    hide CountSettled, CountAgrees, PatchValuesOf, ResolveSizeSuffix, ExtensionsOk, KindFits, WordsOf, EmittedSpanOf,
         EmittedWords, Holds, StorageScan;
    var fields := PatchValuesOf(form, explicit, operands).value;
    PatchCount(form, explicit, operands);
    AllCountsAgree(form, operands, explicit);
    EmittedSpanIs(form, operands, explicit, k);
    StorageFinds(form, fields, operands, ResolveSizeSuffix(form, operands, explicit, CPU_ANY), k, 0);
  }

  // ---------- tiling ----------

  lemma HeldBeforeEnd(form: Form, fields: seq<Word>, operands: seq<Operand>, k: nat)
    requires StructureOk(form) && |fields| == |form.patches| && |operands| == |form.operandKinds|
    ensures forall e: nat :: Holds(form, fields, operands, k, e) ==>
              Start(form, fields, operands, e) + |WordsOf(form, fields, operands, e)|
              <= Start(form, fields, operands, |form.extensions|)
  {
    hide WordsOf;
    forall e: nat | Holds(form, fields, operands, k, e)
      ensures Start(form, fields, operands, e) + |WordsOf(form, fields, operands, e)|
              <= Start(form, fields, operands, |form.extensions|)
    {
      StartsGrow(form, fields, operands, e, |form.extensions|);
    }
  }

  /** The span of operand `k` covers this byte of the instruction. */
  predicate Covers(form: Form, operands: seq<Operand>, explicit: Suffix, k: nat, position: nat)
    requires StructureOk(form)
  {
    match EmittedSpanOf(form, operands, explicit, k)
    case None => false
    case Some((start, size)) => start <= position < start + size
  }

  /** Every word behind the bound words belongs to some extension. */
  lemma {:induction false} WordIsHeld(form: Form, fields: seq<Word>, operands: seq<Operand>, i: nat, word: nat)
    requires StructureOk(form) && |fields| == |form.patches| && |operands| == |form.operandKinds|
    requires i <= |form.extensions| && |form.boundBases| <= word < Start(form, fields, operands, i)
    ensures exists e: nat, k: nat :: k < |operands| && Holds(form, fields, operands, k, e)
              && Start(form, fields, operands, e) <= word < Start(form, fields, operands, e) + |WordsOf(form, fields, operands, e)|
  {
    hide WordsOf;
    if i > 0 {
      if word < Start(form, fields, operands, i - 1) {
        WordIsHeld(form, fields, operands, i - 1, word);
      } else {
        assert Holds(form, fields, operands, form.extensions[i - 1].operandIndex, i - 1);
      }
    }
  }

  /** A byte is covered exactly by the operand whose extension holds its word. */
  lemma CoveredByHolder(form: Form, operands: seq<Operand>, explicit: Suffix, k: nat, position: nat)
    requires LengthsAgree(form, operands, explicit) && k < |operands| && 2 <= position
    ensures var fields := PatchValuesOf(form, explicit, operands).value;
            Covers(form, operands, explicit, k, position) <==>
            exists e: nat :: Holds(form, fields, operands, k, e)
              && Start(form, fields, operands, e) <= (position - 2) / 2
                 < Start(form, fields, operands, e) + |WordsOf(form, fields, operands, e)|
  {
    hide PatchValuesOf, EmittedSpanOf, Emits, WordsOf, Start, Holds;
    EmitsParts(form, PatchValuesOf(form, explicit, operands).value, operands);
    EmittedSpanIs(form, operands, explicit, k);
  }

  lemma StartIsBehindBound(form: Form, fields: seq<Word>, operands: seq<Operand>, e: nat)
    requires StructureOk(form) && |fields| == |form.patches| && |operands| == |form.operandKinds| && e <= |form.extensions|
    ensures |form.boundBases| <= Start(form, fields, operands, e)
  {
  }

  /** Together the operands' spans are exactly the bytes behind the opword and the bound words. */
  lemma SpansCover(form: Form, operands: seq<Operand>, explicit: Suffix, position: nat)
    requires LengthsAgree(form, operands, explicit) && 2 <= position
    ensures (exists k: nat :: k < |operands| && Covers(form, operands, explicit, k, position)) <==>
            2 + 2 * |form.boundBases| <= position < 2 + 2 * TotalWords(form, operands, explicit)
  {
    hide PatchValuesOf, EmittedSpanOf, Emits, WordsOf, Start, Covers, CountSettled, ResolveSizeSuffix;
    var fields := PatchValuesOf(form, explicit, operands).value;
    EmitsParts(form, fields, operands);
    var word := (position - 2) / 2;
    if |form.boundBases| <= word < Start(form, fields, operands, |form.extensions|) {
      WordIsHeld(form, fields, operands, |form.extensions|, word);
      var e: nat, k: nat :| k < |operands| && Holds(form, fields, operands, k, e)
        && Start(form, fields, operands, e) <= word < Start(form, fields, operands, e) + |WordsOf(form, fields, operands, e)|;
      CoveredByHolder(form, operands, explicit, k, position);
    }
    if k: nat :| k < |operands| && Covers(form, operands, explicit, k, position) {
      CoveredByHolder(form, operands, explicit, k, position);
      var e: nat :| Holds(form, fields, operands, k, e)
        && Start(form, fields, operands, e) <= word < Start(form, fields, operands, e) + |WordsOf(form, fields, operands, e)|;
      StartIsBehindBound(form, fields, operands, e);
      HeldBeforeEnd(form, fields, operands, k);
    }
  }

  /** No byte lies in the spans of two operands. */
  lemma SpansAreDisjoint(form: Form, operands: seq<Operand>, explicit: Suffix, j: nat, k: nat, position: nat)
    requires LengthsAgree(form, operands, explicit) && 2 <= position && j < |operands| && k < |operands|
    requires Covers(form, operands, explicit, j, position) && Covers(form, operands, explicit, k, position)
    ensures j == k
  {
    hide PatchValuesOf, EmittedSpanOf, Emits, WordsOf, Start, Covers, CountSettled, ResolveSizeSuffix;
    var fields := PatchValuesOf(form, explicit, operands).value;
    EmitsParts(form, fields, operands);
    var word := (position - 2) / 2;
    CoveredByHolder(form, operands, explicit, j, position);
    CoveredByHolder(form, operands, explicit, k, position);
    var d: nat :| Holds(form, fields, operands, j, d)
      && Start(form, fields, operands, d) <= word < Start(form, fields, operands, d) + |WordsOf(form, fields, operands, d)|;
    var e: nat :| Holds(form, fields, operands, k, e)
      && Start(form, fields, operands, e) <= word < Start(form, fields, operands, e) + |WordsOf(form, fields, operands, e)|;
    if d < e { StartsGrow(form, fields, operands, d, e); }
    if e < d { StartsGrow(form, fields, operands, e, d); }
  }
}
