/** Where the extension words of an operand lie: the span that the emitter itself finds, the span
    that the analysis computes from the decoded candidate, and the tiling of the instruction. */
module Spans {
  import opened Wrappers
  import opened Words
  import opened FormTable
  import opened Assembler
  import E = ExtensionRoundTrip

  // ---------- the lengths that the analysis computes ----------

  function OperandWordCount(operand: Operand, suffix: Suffix): nat {
    if operand.kind.Label? then (if suffix.SizeB? then 0 else 1)
    else if !operand.IsMemoryEa() then 0
    else if operand.SingleWordMode() then 1
    else if operand.LongAddressMode() then 2
    else if operand.ImmediateMode() then (if suffix.SizeL? then 2 else 1)
    else if operand.IndexMode() then IndexWordCount(operand.index)
    else 0
  }

  function IndexWordCount(index: IndexWord): nat {
    if !index.UsesFull() then 1
    else 1 + DisplacementCount(index.baseDispSize) + DisplacementCount(index.outerDispSize)
  }

  function DisplacementCount(size: Byte): nat {
    if size == FULL_EXT_BD_WORD then 1 else if size == FULL_EXT_BD_LONG then 2 else 0
  }

  function ExtensionWordCount(kind: ExtensionKind, operand: Operand, suffix: Suffix): nat {
    match kind
    case EaSingleWord => if operand.IsMemoryEa() && operand.SingleWordMode() then 1 else 0
    case EaLongAddress => if operand.IsMemoryEa() && operand.LongAddressMode() then 2 else 0
    case EaImmediate =>
      if (operand.IsMemoryEa() && operand.ImmediateMode()) || operand.kind.Imm?
      then (if suffix.SizeL? then 2 else 1) else 0
    case EaIndex => if operand.IsMemoryEa() && operand.IndexMode() then OperandWordCount(operand, suffix) else 0
    case LabelDisp16IfZero => if suffix.SizeB? then 0 else 1
    case LabelDisp16Always | Disp16Always => 1
  }

  /** The first extension word of operand `k` from extension `i` on, as an index into the words of
      the instruction, and the number of its words. */
  function StorageScan(form: Form, operands: seq<Operand>, suffix: Suffix, k: nat, i: nat, wordIndex: nat)
    : (found: Option<(nat, nat)>)
    requires StructureOk(form) && |operands| == |form.operandKinds| && i <= |form.extensions|
    ensures found.Some? ==> wordIndex <= found.value.0 && found.value.1 != 0
    decreases |form.extensions| - i
  {
    if i == |form.extensions| then None
    else
      var extension := form.extensions[i];
      var count := ExtensionWordCount(extension.kind, operands[extension.operandIndex], suffix);
      if extension.operandIndex == k && count != 0 then Some((wordIndex, count))
      else StorageScan(form, operands, suffix, k, i + 1, wordIndex + count)
  }

  const ADDRESS_LIMIT: nat := 0x1_0000_0000

  /** The bytes of operand `k` in the section, by the analysis; operands are in layout form. */
  function StorageSpanOf(form: Form, operands: seq<Operand>, explicit: Suffix, k: nat, offset: nat): Option<(nat, nat)>
    requires StructureOk(form) && |operands| == |form.operandKinds| && offset < ADDRESS_LIMIT
  {
    if k >= |operands| then None
    else if operands[k].kind.Label? && explicit.SizeB? then Some(((offset + 1) % ADDRESS_LIMIT, 1))
    else if form.mnemonic.NoMnemonic? then None
    else
      match StorageScan(form, operands, ResolveSizeSuffix(form, operands, explicit, CPU_ANY), k, 0, 1 + |form.boundBases|)
      case None => None
      case Some((wordIndex, count)) =>
        if offset >= ADDRESS_LIMIT - 2 * wordIndex then None else Some((offset + 2 * wordIndex, 2 * count))
  }

  method StorageSpan(form: Form, operands: seq<Operand>, explicit: Suffix, k: nat, offset: nat)
    returns (found: Option<(nat, nat)>)
    requires StructureOk(form) && |operands| == |form.operandKinds| && offset < ADDRESS_LIMIT
    ensures found == StorageSpanOf(form, operands, explicit, k, offset)
  {
    hide ExtensionWordCount, ResolveSizeSuffix;
    if k >= |operands| { return None; }
    if operands[k].kind.Label? && explicit.SizeB? { return Some(((offset + 1) % ADDRESS_LIMIT, 1)); }
    if form.mnemonic.NoMnemonic? { return None; }
    var suffix := ResolveSizeSuffix(form, operands, explicit, CPU_ANY);
    var wordIndex := 1 + |form.boundBases|;
    for i := 0 to |form.extensions|
      invariant wordIndex >= 1
      invariant StorageScan(form, operands, suffix, k, 0, 1 + |form.boundBases|)
                == StorageScan(form, operands, suffix, k, i, wordIndex)
    {
      var extension := form.extensions[i];
      var count := ExtensionWordCount(extension.kind, operands[extension.operandIndex], suffix);
      if extension.operandIndex == k && count != 0 {
        if offset >= ADDRESS_LIMIT - 2 * wordIndex { return None; }
        return Some((offset + 2 * wordIndex, 2 * count));
      }
      wordIndex := wordIndex + count;
    }
    return None;
  }

  // ---------- the span that the emitter finds ----------

  const SPAN_SLOTS: nat := 64

  /** First word and length of operand `k` in the words of the first `i` extensions; None when its
      words are not contiguous. */
  function EmittedScan(form: Form, fields: seq<Word>, operands: seq<Operand>, k: nat, i: nat): Option<(nat, nat)>
    requires StructureOk(form) && |fields| == |form.patches| && |operands| == |form.operandKinds|
    requires i <= |form.extensions| && EmittedWords(form, fields, operands, SPAN_SLOTS, i).Ok?
  {
    if i == 0 then Some((0, 0))
    else
      var prior := EmittedScan(form, fields, operands, k, i - 1);
      var before := |EmittedWords(form, fields, operands, SPAN_SLOTS, i - 1).value|;
      var count := |EmittedWords(form, fields, operands, SPAN_SLOTS, i).value| - before;
      if prior.None? || form.extensions[i - 1].operandIndex != k || count == 0 then prior
      else if prior.value.1 != 0 && prior.value.0 + prior.value.1 != before then None
      else Some((if prior.value.1 == 0 then before else prior.value.0, prior.value.1 + count))
  }

  /** Offset and extent of the words of operand `k`, both 0 when it has none. */
  function EmittedSpanOf(form: Form, operands: seq<Operand>, suffix: Suffix, k: nat): Option<(nat, nat)>
    requires StructureOk(form)
  {
    if k >= |operands| || |form.patches| > SPAN_SLOTS then None
    else
      match PatchValuesOf(form, suffix, operands)
      case Err(_) => None
      case Ok(fields) =>
        if EmittedWords(form, fields, operands, SPAN_SLOTS, |form.extensions|).Err? then None
        else
          EmittedPrefix(form, fields, operands, |form.extensions|);
          match EmittedScan(form, fields, operands, k, |form.extensions|)
          case None => None
          case Some((first, length)) => if length == 0 then Some((0, 0)) else Some((2 + 2 * first, 2 * length))
  }

  lemma EmittedPrefix(form: Form, fields: seq<Word>, operands: seq<Operand>, i: nat)
    requires StructureOk(form) && |fields| == |form.patches| && |operands| == |form.operandKinds|
    requires i <= |form.extensions| && EmittedWords(form, fields, operands, SPAN_SLOTS, i).Ok?
    ensures i > 0 ==> EmittedWords(form, fields, operands, SPAN_SLOTS, i - 1).Ok?
  {
    hide ExtensionWords, FixedWord;
  }

  lemma {:induction false} BrokenScanStays(form: Form, fields: seq<Word>, operands: seq<Operand>, k: nat, i: nat, j: nat)
    requires StructureOk(form) && |fields| == |form.patches| && |operands| == |form.operandKinds|
    requires i <= j <= |form.extensions| && EmittedWords(form, fields, operands, SPAN_SLOTS, j).Ok?
    requires EmittedWords(form, fields, operands, SPAN_SLOTS, i).Ok? && EmittedScan(form, fields, operands, k, i).None?
    ensures EmittedScan(form, fields, operands, k, j).None?
  {
    hide EmittedWords;
    if i < j {
      EmittedPrefix(form, fields, operands, j);
      BrokenScanStays(form, fields, operands, k, i, j - 1);
    }
  }

  /** The emitter's bound words, into a fresh buffer. */
  method EmitBoundWords(form: Form, fields: seq<Word>, operands: seq<Operand>, outWords: array<Word>)
    returns (ok: bool, count: nat)
    requires StructureOk(form) && |fields| == |form.patches| && |operands| == |form.operandKinds|
    requires outWords.Length == SPAN_SLOTS
    modifies outWords
    ensures ok == EmittedWords(form, fields, operands, SPAN_SLOTS, 0).Ok?
    ensures ok ==> count <= SPAN_SLOTS && EmittedWords(form, fields, operands, SPAN_SLOTS, 0) == Ok(outWords[..count])
  {
    hide ExtensionWords, FixedWord;
    count := 0;
    for word := 1 to |form.boundBases| + 1
      invariant count == word - 1 <= SPAN_SLOTS
      invariant outWords[..count] == BoundWords(form, fields)[..count]
    {
      var result;
      result, count := EmitBoundExtensionWord(form, word, fields, outWords, count);
      if result != 0 { return false, count; }
    }
    assert BoundWords(form, fields)[..count] == BoundWords(form, fields);
    ok := true;
  }

  /** Emits extension `i` and takes its words into the span of operand `k`. */
  method EmitIntoSpan(form: Form, fields: seq<Word>, operands: seq<Operand>, k: nat, i: nat, words: array<Word>,
                      count: nat, first: nat, length: nat)
    returns (ok: bool, newCount: nat, newFirst: nat, newLength: nat)
    requires StructureOk(form) && |fields| == |form.patches| && |operands| == |form.operandKinds|
    requires words.Length == SPAN_SLOTS && count <= SPAN_SLOTS && i < |form.extensions|
    requires EmittedWords(form, fields, operands, SPAN_SLOTS, i) == Ok(words[..count])
    requires EmittedScan(form, fields, operands, k, i) == Some((first, length))
    modifies words
    ensures ok == (EmittedWords(form, fields, operands, SPAN_SLOTS, i + 1).Ok? &&
                   EmittedScan(form, fields, operands, k, i + 1).Some?)
    ensures ok ==> newCount <= SPAN_SLOTS
                   && EmittedWords(form, fields, operands, SPAN_SLOTS, i + 1) == Ok(words[..newCount])
                   && EmittedScan(form, fields, operands, k, i + 1) == Some((newFirst, newLength))
  {
    hide ExtensionWords, FixedWord;
    newFirst, newLength := first, length;
    var result;
    result, newCount := EmitOneExtension(form, form.extensions[i], fields, operands, words, count);
    if result != 0 { return false, newCount, first, length; }
    if form.extensions[i].operandIndex != k || count == newCount { return true, newCount, first, length; }
    if length != 0 && first + length != count { return false, newCount, first, length; }
    if length == 0 { newFirst := count; }
    newLength := length + newCount - count;
    ok := true;
  }

  /** None stands for the failure return of the routine. */
  method OperandExtensionSpan(form: Form, operands: seq<Operand>, suffix: Suffix, k: nat) returns (found: Option<(nat, nat)>)
    requires StructureOk(form)
    ensures found == EmittedSpanOf(form, operands, suffix, k)
  {
    hide ExtensionWords, FixedWord, PatchValuesOf, EmittedWords, EmittedScan;
    PatchCount(form, suffix, operands);
    if k >= |operands| || |form.patches| > SPAN_SLOTS { return None; }
    var buffer := new Word[SPAN_SLOTS];
    var built := BuildPatchValues(form, suffix, operands, buffer);
    if built != 0 { return None; }
    var fields := buffer[..|form.patches|];
    var words := new Word[SPAN_SLOTS];
    var ok: bool, count: nat := EmitBoundWords(form, fields, operands, words);
    if !ok {
      EmittedWordsStop(form, fields, operands, SPAN_SLOTS, 0, |form.extensions|);
      return None;
    }
    var first: nat, length: nat := 0, 0;
    StartOfScan(form, fields, operands, k);
    for i := 0 to |form.extensions|
      invariant count <= SPAN_SLOTS
      invariant EmittedWords(form, fields, operands, SPAN_SLOTS, i) == Ok(words[..count])
      invariant EmittedScan(form, fields, operands, k, i) == Some((first, length))
    {
      ok, count, first, length := EmitIntoSpan(form, fields, operands, k, i, words, count, first, length);
      if !ok {
        SpanStops(form, fields, operands, k, i + 1);
        return None;
      }
    }
    if length == 0 { return Some((0, 0)); }
    return Some((2 + first * 2, length * 2));
  }

  lemma StartOfScan(form: Form, fields: seq<Word>, operands: seq<Operand>, k: nat)
    requires StructureOk(form) && |fields| == |form.patches| && |operands| == |form.operandKinds|
    requires EmittedWords(form, fields, operands, SPAN_SLOTS, 0).Ok?
    ensures EmittedScan(form, fields, operands, k, 0) == Some((0, 0))
  {
  }

  /** A failure on the way is a failure at the end. */
  lemma SpanStops(form: Form, fields: seq<Word>, operands: seq<Operand>, k: nat, i: nat)
    requires StructureOk(form) && |fields| == |form.patches| && |operands| == |form.operandKinds| && i <= |form.extensions|
    requires !(EmittedWords(form, fields, operands, SPAN_SLOTS, i).Ok? &&
               EmittedScan(form, fields, operands, k, i).Some?)
    ensures !(EmittedWords(form, fields, operands, SPAN_SLOTS, |form.extensions|).Ok? &&
              EmittedScan(form, fields, operands, k, |form.extensions|).Some?)
  {
    hide EmittedWords, EmittedScan;
    if EmittedWords(form, fields, operands, SPAN_SLOTS, i).Err? {
      EmittedWordsStop(form, fields, operands, SPAN_SLOTS, i, |form.extensions|);
    } else if EmittedWords(form, fields, operands, SPAN_SLOTS, |form.extensions|).Ok? {
      BrokenScanStays(form, fields, operands, k, i, |form.extensions|);
    }
  }

  lemma PatchCount(form: Form, suffix: Suffix, operands: seq<Operand>)
    ensures PatchValuesOf(form, suffix, operands).Ok? ==>
              |PatchValuesOf(form, suffix, operands).value| == |form.patches| && |operands| == |form.operandKinds|
              && !form.mnemonic.NoMnemonic?
  {
    hide FieldValue, ResolveSizeSuffix;
  }
}
