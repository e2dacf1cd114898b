/** Bit fields: what the encoder lays over the fixed words is what the decoder extracts. */
module FieldRoundTrip {
  import opened Words
  import opened FormTable
  import opened Assembler
  import opened Disassembler

  /** Laying patches over a word never touches bits outside their fields. */
  lemma {:induction false} OverlaidElsewhere(form: Form, fields: seq<Word>, word: nat, seed: Word, count: nat, other: Word)
    requires StructureOk(form) && count <= |form.patches| == |fields|
    requires forall i :: 0 <= i < count && form.patches[i].wordIndex == word ==>
               Apart(form.patches[i].FieldBits(), other)
    ensures Under(Overlaid(form.patches, fields, word, seed, count), other) == Under(seed, other)
  {
    hide Overlay, FieldMask, Under, Apart;
    if count != 0 {
      OverlaidElsewhere(form, fields, word, seed, count - 1, other);
      var patch := form.patches[count - 1];
      if patch.wordIndex == word {
        OverlayElsewhere(Overlaid(form.patches, fields, word, seed, count - 1), patch.hi, patch.lo, fields[count - 1], other);
      }
    }
  }

  /** The fixed bits of every emitted word are those of the form, so the mask match succeeds. */
  lemma FixedBitsSurvive(form: Form, fields: seq<Word>, word: nat)
    requires StructureOk(form) && WordsOk(form) && |fields| == |form.patches| && word <= |form.boundBases|
    ensures Under(FixedWord(form, fields, word), form.FixedMask(word)) == form.FixedBits(word)
  {
    hide Overlay, FieldMask, Overlaid, Under, Apart;
    var base, mask := form.FixedBits(word), form.FixedMask(word);
    OverlaidElsewhere(form, fields, word, Under(base, mask), |form.patches|, mask);
    MaskedBase(base, mask);
  }

  /** A field does not notice a value written to a field apart from it. */
  lemma ApartFieldsKeep(word: Word, patch: FieldPatch, other: FieldPatch, value: Word)
    requires patch.Ordered() && other.Ordered() && Apart(patch.FieldBits(), other.FieldBits())
    ensures ExtractBits16(Overlay(word, other.hi, other.lo, value), patch.hi, patch.lo)
            == ExtractBits16(word, patch.hi, patch.lo)
  {
    hide Overlay, FieldMask, ExtractBits16, Apart, Under;
    ApartCommutes(patch.FieldBits(), other.FieldBits());
    OverlayElsewhere(word, other.hi, other.lo, value, FieldMask(patch.hi, patch.lo));
    ExtractReadsItsField(Overlay(word, other.hi, other.lo, value), word, patch.hi, patch.lo);
  }

  /** Field `i` of the word is its own value as soon as patch `i` has been laid over it. */
  lemma {:induction false} FieldStays(form: Form, fields: seq<Word>, seed: Word, i: nat, count: nat)
    requires StructureOk(form) && WordsOk(form) && i < count <= |form.patches| == |fields|
    ensures var patch := form.patches[i];
            ExtractBits16(Overlaid(form.patches, fields, patch.wordIndex, seed, count), patch.hi, patch.lo)
            == Under(fields[i], patch.Mask())
  {
    hide Overlay, FieldMask, ExtractBits16, WidthMask, Apart, Under;
    var patch := form.patches[i];
    var prior := Overlaid(form.patches, fields, patch.wordIndex, seed, count - 1);
    var last := form.patches[count - 1];
    if i == count - 1 {
      ExtractOverlay(prior, patch.hi, patch.lo, fields[i]);
    } else {
      FieldStays(form, fields, seed, i, count - 1);
      if last.wordIndex == patch.wordIndex {
        ApartFieldsKeep(prior, patch, last, fields[count - 1]);
      }
    }
  }

  /** Extraction from the emitted word returns every value modulo the width of its field. */
  lemma FieldComesBack(form: Form, fields: seq<Word>, i: nat)
    requires StructureOk(form) && WordsOk(form) && i < |form.patches| == |fields|
    ensures var patch := form.patches[i];
            ExtractBits16(FixedWord(form, fields, patch.wordIndex), patch.hi, patch.lo) == Under(fields[i], patch.Mask())
  {
    hide Overlaid, ExtractBits16, Under;
    var word := form.patches[i].wordIndex;
    FieldStays(form, fields, Under(form.FixedBits(word), form.FixedMask(word)), i, |form.patches|);
  }

  /** The words that start every instruction of the form: opword, then bound words. */
  function LeadingWords(form: Form, fields: seq<Word>): (words: seq<Word>)
    requires StructureOk(form) && |fields| == |form.patches|
    ensures |words| == 1 + |form.boundBases|
  {
    [FixedWord(form, fields, 0)] + BoundWords(form, fields)
  }

  /** Every value cut to the width of its field. */
  function CutFields(form: Form, fields: seq<Word>): (cut: seq<Word>)
    requires StructureOk(form) && |fields| == |form.patches|
    ensures |cut| == |fields|
  {
    seq(|fields|, i requires 0 <= i < |fields| => Under(fields[i], form.patches[i].Mask()))
  }

  /** The bit-field overlay inverse over a whole instruction: data that starts with the emitted
      words matches the form, and extraction yields every field value cut to its width. */
  lemma OverlayInverse(form: Form, fields: seq<Word>, tail: seq<Word>, rest: seq<Byte>)
    requires StructureOk(form) && WordsOk(form) && |fields| == |form.patches|
    ensures var data := Image(LeadingWords(form, fields) + tail, rest);
            && MatchesForm(form, data)
            && ExtractedFields(form, data) == CutFields(form, fields)
  {
    hide FixedWord, ExtractBits16, ReadU16, WidthMask, Under;
    var words := LeadingWords(form, fields) + tail;
    var data := Image(words, rest);
    forall w | 0 <= w <= |form.boundBases|
      ensures ReadU16(data, 2 * w) == FixedWord(form, fields, w) && WordMatches(form, data, w)
    {
      ReadBackWord(words, rest, w);
      FixedBitsSurvive(form, fields, w);
    }
    forall i | 0 <= i < |form.patches| ensures ExtractedFields(form, data)[i] == CutFields(form, fields)[i] {
      FieldComesBack(form, fields, i);
    }
  }
}
