/** The search of the disassembler for a form: it tries the candidates of one bucket only, and finds
    a form whenever any row of the table can read the data. */
module FormSearch {
  import opened Wrappers
  import opened Words
  import opened FormTable
  import opened Assembler
  import opened Disassembler
  import opened IrCodec
  import opened SizeRoundTrip
  import opened InstructionRoundTrip

  /** A candidate that stands for no row. */
  const FORM_NONE: nat := 0xFFFF

  /** The rows and, for the upper twelve bits of an opword, the rows to try in their order. */
  datatype Index = Index(rows: seq<Form>, buckets: Word -> seq<nat>)

  datatype Found = Found(row: nat, decoded: Decoded)

  /** Looking up control registers and rendering may still reject what was read; they are a parameter. */
  type Acceptance = (Form, Decoded) -> bool

  function BucketOf(opword: Word): Word { opword >> 4 }

  predicate RowsAreThere(index: Index, list: seq<nat>) {
    forall i :: 0 <= i < |list| ==> list[i] == FORM_NONE || list[i] < |index.rows|
  }

  predicate Sound(index: Index) {
    (forall d :: 0 <= d < |index.rows| ==> StructureOk(index.rows[d])) && |index.rows| <= FORM_NONE
  }

  ghost predicate ListsRows(index: Index) {
    Sound(index) && forall bucket: Word :: RowsAreThere(index, index.buckets(bucket))
  }

  /** The upper twelve bits of the opword do not contradict the row. */
  predicate Compatible(form: Form, opword: Word)
    requires StructureOk(form)
  {
    Under(Under(opword, form.FixedMask(0)), 0xFFF0) == Under(form.FixedBits(0), 0xFFF0)
  }

  /** Every row is listed under all opwords that it is compatible with. */
  ghost predicate Complete(index: Index) {
    && ListsRows(index)
    && forall d: nat, opword: Word :: d < |index.rows| && Compatible(index.rows[d], opword) ==>
         d in index.buckets(BucketOf(opword))
  }

  // ---------- the search ----------

  /** What comes of trying one candidate. */
  function Attempt(index: Index, candidate: nat, data: seq<Byte>, cpu: nat, accepts: Acceptance): Option<Decoded>
    requires Sound(index) && (candidate == FORM_NONE || candidate < |index.rows|)
  {
    if candidate == FORM_NONE then None
    else
      var form := index.rows[candidate];
      if !form.SupportsCpu(cpu) || |form.patches| > MAX_PATCHES then None
      else
        var decoded := DecodedAs(form, data);
        if decoded.Some? && accepts(form, decoded.value) then decoded else None
  }

  /** The first candidate of the list that can be read. */
  function FirstReadable(index: Index, list: seq<nat>, data: seq<Byte>, cpu: nat, accepts: Acceptance): (found: Option<Found>)
    requires Sound(index) && RowsAreThere(index, list)
  {
    if list == [] then None
    else
      assert RowsAreThere(index, list[1..]);
      var decoded := Attempt(index, list[0], data, cpu, accepts);
      if decoded.Some? then Some(Found(list[0], decoded.value)) else FirstReadable(index, list[1..], data, cpu, accepts)
  }

  ghost function Searched(index: Index, data: seq<Byte>, cpu: nat, accepts: Acceptance): Option<Found>
    requires ListsRows(index)
  {
    if |data| < 2 then None
    else FirstReadable(index, index.buckets(BucketOf(ReadU16(data, 0))), data, cpu, accepts)
  }

  lemma {:induction false} SkipUnreadable(index: Index, list: seq<nat>, data: seq<Byte>, cpu: nat, accepts: Acceptance, n: nat)
    requires Sound(index) && RowsAreThere(index, list) && n <= |list|
    requires forall i :: 0 <= i < n ==> Attempt(index, list[i], data, cpu, accepts).None?
    ensures RowsAreThere(index, list[n..])
    ensures FirstReadable(index, list, data, cpu, accepts) == FirstReadable(index, list[n..], data, cpu, accepts)
  {
    hide Attempt, Sound;
    if n == 0 {
      assert list[0..] == list;
    } else {
      SkipUnreadable(index, list[1..], data, cpu, accepts, n - 1);
      assert list[1..][n - 1..] == list[n..];
    }
  }

  method DisassembleOne(index: Index, data: seq<Byte>, cpu: nat, accepts: Acceptance) returns (found: Option<Found>)
    requires ListsRows(index)
    ensures found == Searched(index, data, cpu, accepts)
  {
    hide DecodedAs, ReadU16;
    if |data| < 2 { return None; }
    var list := index.buckets(BucketOf(ReadU16(data, 0)));
    assert RowsAreThere(index, list);
    for i := 0 to |list|
      invariant forall j :: 0 <= j < i ==> Attempt(index, list[j], data, cpu, accepts).None?
    {
      if list[i] == FORM_NONE { continue; }
      var form := index.rows[list[i]];
      if !form.SupportsCpu(cpu) || |form.patches| > MAX_PATCHES { continue; }
      var decoded := DisassembleAs(form, data);
      if decoded.None? || !accepts(form, decoded.value) { continue; }
      SkipUnreadable(index, list, data, cpu, accepts, i);
      return Some(Found(list[i], decoded.value));
    }
    SkipUnreadable(index, list, data, cpu, accepts, |list|);
    return None;
  }

  // ---------- what is found ----------

  /** The row found reads the data, and every candidate before it does not; nothing is found only
      when no candidate reads them. */
  lemma {:induction false} FoundIsFirst(index: Index, list: seq<nat>, data: seq<Byte>, cpu: nat, accepts: Acceptance)
    requires Sound(index) && RowsAreThere(index, list)
    ensures match FirstReadable(index, list, data, cpu, accepts)
            case None => forall i :: 0 <= i < |list| ==> Attempt(index, list[i], data, cpu, accepts).None?
            case Some(found) =>
              exists i :: 0 <= i < |list| && list[i] == found.row
                          && Attempt(index, list[i], data, cpu, accepts) == Some(found.decoded)
                          && forall j :: 0 <= j < i ==> Attempt(index, list[j], data, cpu, accepts).None?
  {
    hide Attempt, Sound;
    if list != [] && Attempt(index, list[0], data, cpu, accepts).None? {
      FoundIsFirst(index, list[1..], data, cpu, accepts);
      var found := FirstReadable(index, list[1..], data, cpu, accepts);
      if found.Some? {
        var i :| 0 <= i < |list| - 1 && list[1..][i] == found.value.row
                 && Attempt(index, list[1..][i], data, cpu, accepts) == Some(found.value.decoded)
                 && forall j :: 0 <= j < i ==> Attempt(index, list[1..][j], data, cpu, accepts).None?;
        forall j | 0 <= j < i + 1
          ensures Attempt(index, list[j], data, cpu, accepts).None?
        {
          assert j > 0 ==> list[j] == list[1..][j - 1];
        }
        assert list[i + 1] == list[1..][i];
      } else {
        forall j | 0 <= j < |list|
          ensures Attempt(index, list[j], data, cpu, accepts).None?
        {
          assert j > 0 ==> list[j] == list[1..][j - 1];
        }
      }
    }
  }

  /** A row that reads the data is in the bucket of their opword. */
  lemma ReaderIsListed(index: Index, d: nat, data: seq<Byte>, cpu: nat, accepts: Acceptance)
    requires Complete(index) && d < |index.rows| && Attempt(index, d, data, cpu, accepts).Some?
    ensures 2 <= |data| && d in index.buckets(BucketOf(ReadU16(data, 0)))
  {
    hide ExtractedFields, DecodedSuffix, ValidFields, PatchedOperands, DecodedExtensions, ReadU16, Under, BucketOf;
    var form := index.rows[d];
    assert MatchesForm(form, data);
    assert WordMatches(form, data, 0);
    assert Compatible(form, ReadU16(data, 0));
  }

  /** Looking into one bucket finds a form exactly when some row of the whole table reads the data. */
  lemma BucketIsEnough(index: Index, data: seq<Byte>, cpu: nat, accepts: Acceptance)
    requires Complete(index)
    ensures Searched(index, data, cpu, accepts).Some? <==>
            exists d: nat :: d < |index.rows| && Attempt(index, d, data, cpu, accepts).Some?
  {
    hide DecodedAs, ReadU16, Compatible;
    if 2 <= |data| {
      var list := index.buckets(BucketOf(ReadU16(data, 0)));
      assert RowsAreThere(index, list);
      FoundIsFirst(index, list, data, cpu, accepts);
      forall d: nat | d < |index.rows| && Attempt(index, d, data, cpu, accepts).Some?
        ensures Searched(index, data, cpu, accepts).Some?
      {
        ReaderIsListed(index, d, data, cpu, accepts);
      }
    } else {
      forall d: nat | d < |index.rows|
        ensures Attempt(index, d, data, cpu, accepts).None?
      {
        if Attempt(index, d, data, cpu, accepts).Some? { ReaderIsListed(index, d, data, cpu, accepts); }
      }
    }
  }

  /** No candidate tried before row `d` reads the data. */
  ghost predicate NoneBefore(index: Index, d: nat, data: seq<Byte>, cpu: nat, accepts: Acceptance)
    requires ListsRows(index) && 2 <= |data|
  {
    var list := index.buckets(BucketOf(ReadU16(data, 0)));
    exists i: nat :: i < |list| && list[i] == d
                     && forall j :: 0 <= j < i ==> CannotRead(index, list, j, data, cpu, accepts)
  }

  predicate CannotRead(index: Index, list: seq<nat>, j: nat, data: seq<Byte>, cpu: nat, accepts: Acceptance)
    requires Sound(index)
  {
    j < |list| && (list[j] == FORM_NONE || list[j] < |index.rows|)
    && Attempt(index, list[j], data, cpu, accepts).None?
  }

  /** Row `d` is the one found exactly when it reads the data and none tried before it does. */
  lemma FoundExactly(index: Index, d: nat, data: seq<Byte>, cpu: nat, accepts: Acceptance, decoded: Decoded)
    requires ListsRows(index) && d < |index.rows| && 2 <= |data|
    ensures Searched(index, data, cpu, accepts) == Some(Found(d, decoded)) <==>
            Attempt(index, d, data, cpu, accepts) == Some(decoded) && NoneBefore(index, d, data, cpu, accepts)
  {
    hide Attempt, ReadU16, BucketOf;
    var list := index.buckets(BucketOf(ReadU16(data, 0)));
    assert RowsAreThere(index, list);
    FoundIsFirst(index, list, data, cpu, accepts);
    if Searched(index, data, cpu, accepts) == Some(Found(d, decoded)) {
      var i: nat :| i < |list| && list[i] == d
                    && Attempt(index, list[i], data, cpu, accepts) == Some(decoded)
                    && forall j :: 0 <= j < i ==> Attempt(index, list[j], data, cpu, accepts).None?;
      assert forall j: nat :: j < i ==> CannotRead(index, list, j, data, cpu, accepts);
    }
    if Attempt(index, d, data, cpu, accepts) == Some(decoded) && NoneBefore(index, d, data, cpu, accepts) {
      var i: nat :| i < |list| && list[i] == d
                    && forall j :: 0 <= j < i ==> CannotRead(index, list, j, data, cpu, accepts);
      forall j | 0 <= j < i ensures Attempt(index, list[j], data, cpu, accepts).None? {
        assert CannotRead(index, list, j, data, cpu, accepts);
      }
      SkipUnreadable(index, list, data, cpu, accepts, i);
    }
  }

  // ---------- rows that exclude each other ----------

  /** A bit that both rows fix is fixed to different values. */
  predicate FixedApart(a: Form, b: Form)
    requires StructureOk(a) && StructureOk(b)
  {
    exists w: nat :: w <= |a.boundBases| && w <= |b.boundBases| && FixedApartIn(a, b, w)
  }

  predicate FixedApartIn(a: Form, b: Form, w: nat)
    requires StructureOk(a) && StructureOk(b) && w <= |a.boundBases| && w <= |b.boundBases|
  {
    Under(a.FixedBits(w), b.FixedMask(w)) != Under(b.FixedBits(w), a.FixedMask(w))
  }

  lemma UnderBoth(word: Word, a: Word, b: Word)
    ensures Under(Under(word, a), b) == Under(Under(word, b), a)
  {
  }

  /** No data match two such rows. */
  lemma FixedApartExcludes(a: Form, b: Form, data: seq<Byte>)
    requires StructureOk(a) && StructureOk(b) && FixedApart(a, b)
    requires MatchesForm(a, data)
    ensures !MatchesForm(b, data)
  {
    hide Under, ReadU16;
    var w: nat :| w <= |a.boundBases| && w <= |b.boundBases| && FixedApartIn(a, b, w);
    if MatchesForm(b, data) {
      assert WordMatches(a, data, w) && WordMatches(b, data, w);
      UnderBoth(ReadU16(data, 2 * w), a.FixedMask(w), b.FixedMask(w));
    }
  }

  /** The candidate cannot read data of row `d` on this CPU: that is seen in the table. */
  predicate Excluded(index: Index, candidate: nat, d: nat, cpu: nat)
    requires Sound(index) && d < |index.rows| && (candidate == FORM_NONE || candidate < |index.rows|)
  {
    || candidate == FORM_NONE
    || !index.rows[candidate].SupportsCpu(cpu)
    || |index.rows[candidate].patches| > MAX_PATCHES
    || FixedApart(index.rows[d], index.rows[candidate])
  }

  /** In every bucket that row `d` belongs to, all candidates in front of it are excluded. */
  ghost predicate Unrivalled(index: Index, d: nat, cpu: nat)
    requires ListsRows(index) && d < |index.rows|
  {
    forall opword: Word :: Compatible(index.rows[d], opword) ==> LeadsBucket(index, index.buckets(BucketOf(opword)), d, cpu)
  }

  ghost predicate LeadsBucket(index: Index, list: seq<nat>, d: nat, cpu: nat)
    requires Sound(index) && d < |index.rows| && RowsAreThere(index, list)
  {
    exists i: nat :: i < |list| && list[i] == d && forall j :: 0 <= j < i ==> Excluded(index, list[j], d, cpu)
  }

  /** For data of an unrivalled row nothing tried earlier can be in the way. */
  lemma UnrivalledIsFirst(index: Index, d: nat, data: seq<Byte>, cpu: nat, accepts: Acceptance)
    requires ListsRows(index) && d < |index.rows| && Unrivalled(index, d, cpu) && MatchesForm(index.rows[d], data)
    ensures 2 <= |data| && NoneBefore(index, d, data, cpu, accepts)
  {
    hide ReadU16, Under, BucketOf, StructureOk, FixedApart, DecodedAs, ExtractedFields, DecodedSuffix, ValidFields,
         PatchedOperands, DecodedExtensions;
    var form := index.rows[d];
    assert WordMatches(form, data, 0);
    var opword := ReadU16(data, 0);
    assert Compatible(form, opword);
    var list := index.buckets(BucketOf(opword));
    assert RowsAreThere(index, list);
    var i: nat :| i < |list| && list[i] == d && forall j :: 0 <= j < i ==> Excluded(index, list[j], d, cpu);
    forall j: nat | j < i
      ensures CannotRead(index, list, j, data, cpu, accepts)
    {
      assert Excluded(index, list[j], d, cpu);
      ExcludedCannotRead(index, list[j], d, data, cpu, accepts);
    }
  }

  lemma ExcludedCannotRead(index: Index, candidate: nat, d: nat, data: seq<Byte>, cpu: nat, accepts: Acceptance)
    requires Sound(index) && d < |index.rows| && (candidate == FORM_NONE || candidate < |index.rows|)
    requires Excluded(index, candidate, d, cpu) && MatchesForm(index.rows[d], data)
    ensures Attempt(index, candidate, data, cpu, accepts).None?
  {
    hide MatchesForm, FixedApart, ExtractedFields, DecodedSuffix, ValidFields, PatchedOperands, DecodedExtensions;
    if candidate != FORM_NONE && FixedApart(index.rows[d], index.rows[candidate]) {
      FixedApartExcludes(index.rows[d], index.rows[candidate], data);
    }
  }

  // ---------- encoding, then searching ----------

  /** The search finds the instruction again: its own row, and the operands, size and length of it. */
  ghost predicate FindsAgain(index: Index, d: nat, instruction: Instruction, told: Suffix, data: seq<Byte>, length: nat,
                             cpu: nat, accepts: Acceptance)
    requires ListsRows(index) && d < |index.rows|
  {
    match Searched(index, data, cpu, accepts)
    case None => false
    case Some(found) => found.row == d && Reconstructs(index.rows[d], instruction, told, data, length)
  }

  /** What is needed of row `d` to be the one of the instruction, for this CPU. */
  predicate Offers(index: Index, d: nat, form: Form, cpu: nat) {
    d < |index.rows| && index.rows[d] == form && form.SupportsCpu(cpu) && |form.patches| <= MAX_PATCHES
  }

  /** An instruction that is encoded, and whose bytes are then searched in the whole table, with any
      bytes behind them, is found again exactly when its full extensions are recognised and no row
      tried earlier reads the bytes. */
  lemma SearchRoundTrip(table: seq<Form>, instruction: Instruction, maxBytes: nat, rest: seq<Byte>, index: Index, d: nat,
                        cpu: nat, accepts: Acceptance)
    requires forall i :: 0 <= i < |table| ==> StructureOk(table[i])
    requires Encodable(table, instruction) && EncodedOne(table, instruction, maxBytes).Some?
    requires ListsRows(index) && Offers(index, d, table[instruction.formIndex], cpu)
    requires var data := EncodedOne(table, instruction, maxBytes).value + rest;
             var decoded := DecodedAs(table[instruction.formIndex], data);
             decoded.Some? ==> accepts(table[instruction.formIndex], decoded.value)
    ensures var form := table[instruction.formIndex];
            var values := EncodedValues(instruction);
            var told := ToldSuffix(form, ResolveSizeSuffix(form, values, instruction.suffix, CPU_ANY));
            var bytes := EncodedOne(table, instruction, maxBytes).value;
            && 2 <= |bytes + rest| && MatchesForm(form, bytes + rest)
            && (FindsAgain(index, d, instruction, told, bytes + rest, |bytes|, cpu, accepts) <==>
                  AllRecognised(form, told, DecoderViews(form, values), |rest|)
                  && NoneBefore(index, d, bytes + rest, cpu, accepts))
  {
    hide StructureOk, Encodable, EncodedOne, EncodedValues, ToldSuffix, ResolveSizeSuffix, DecoderViews, AllRecognised,
         DecodedAs, Searched, NoneBefore, RowsAreThere, CandidateInstruction, WordMatches;
    EncodableParts(table, instruction);
    var form := table[instruction.formIndex];
    EncodeDecodeRoundTrip(table, instruction, maxBytes, rest);
    var data := EncodedOne(table, instruction, maxBytes).value + rest;
    assert MatchesForm(form, data);
    if DecodedAs(form, data).Some? {
      FoundExactly(index, d, data, cpu, accepts, DecodedAs(form, data).value);
    }
    if Searched(index, data, cpu, accepts).Some? {
      FoundExactly(index, d, data, cpu, accepts, Searched(index, data, cpu, accepts).value.decoded);
    }
  }

  /** For a row without rivals in the table the recognised extensions alone decide. */
  lemma UnrivalledRoundTrip(table: seq<Form>, instruction: Instruction, maxBytes: nat, rest: seq<Byte>, index: Index,
                            d: nat, cpu: nat, accepts: Acceptance)
    requires forall i :: 0 <= i < |table| ==> StructureOk(table[i])
    requires Encodable(table, instruction) && EncodedOne(table, instruction, maxBytes).Some?
    requires ListsRows(index) && Offers(index, d, table[instruction.formIndex], cpu) && Unrivalled(index, d, cpu)
    requires var data := EncodedOne(table, instruction, maxBytes).value + rest;
             var decoded := DecodedAs(table[instruction.formIndex], data);
             decoded.Some? ==> accepts(table[instruction.formIndex], decoded.value)
    ensures var form := table[instruction.formIndex];
            var values := EncodedValues(instruction);
            var told := ToldSuffix(form, ResolveSizeSuffix(form, values, instruction.suffix, CPU_ANY));
            var bytes := EncodedOne(table, instruction, maxBytes).value;
            FindsAgain(index, d, instruction, told, bytes + rest, |bytes|, cpu, accepts) <==>
              AllRecognised(form, told, DecoderViews(form, values), |rest|)
  {
    hide StructureOk, Encodable, EncodedOne, EncodedValues, ToldSuffix, ResolveSizeSuffix, DecoderViews, AllRecognised,
         DecodedAs, NoneBefore, RowsAreThere, FindsAgain, MatchesForm, Unrivalled;
    EncodableParts(table, instruction);
    SearchRoundTrip(table, instruction, maxBytes, rest, index, d, cpu, accepts);
    UnrivalledIsFirst(index, d, EncodedOne(table, instruction, maxBytes).value + rest, cpu, accepts);
  }
}
