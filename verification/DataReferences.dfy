/** Data references of a section: what a manual reference must satisfy to be stored, and what the
    stored ones satisfy after any sequence of appends. */
module DataReferences {
  const OFFSET_MAX: nat := 0xFFFF_FFFF
  const WORD_MAX: nat := 0xFFFF

  datatype SourceKind = UnknownSource | TableEntry | Manual
  datatype ReferenceKind = UnknownKind | BaseDisplacement | BaseDisplacementRange

  /** The base and target are section index and offset; flags are the set of their bits. */
  datatype Reference = Reference(
    sourceKind: SourceKind, targetKnown: bool, kind: ReferenceKind, sourceOffset: nat,
    rawValue: nat, rawWidth: nat, rawSigned: bool, scale: nat, hasBase: bool,
    baseSection: nat, baseOffset: nat, targetSection: nat, targetOffset: nat, ownerElementOffset: nat,
    ownerKind: string, ownerId: string, ownerLayout: string, mode: string,
    tableStart: nat, tableEntry: nat,
    evidence: set<nat>, roles: set<nat>, targetKind: nat, targetTable: nat, targetPattern: nat)

  // ---------- manual references ----------

  /** The raw value as a number, a signed word when it is signed. */
  function Value(reference: Reference): int {
    if reference.rawSigned && reference.rawValue % 0x10000 >= 0x8000 then reference.rawValue % 0x10000 - 0x10000
    else if reference.rawSigned then reference.rawValue % 0x10000
    else reference.rawValue
  }

  function Scale(reference: Reference): nat { if reference.scale != 0 then reference.scale else 1 }

  /** Base and scaled value lead to the target. */
  predicate Leads(reference: Reference) {
    reference.baseOffset + Value(reference) * Scale(reference) == reference.targetOffset
  }

  predicate ManualOk(reference: Reference, section: nat) {
    && reference.ownerKind != [] && reference.ownerId != [] && reference.ownerLayout != []
    && (reference.mode == "bidirectional" || reference.mode == "source_only" || reference.mode == "none")
    && !reference.kind.UnknownKind?
    && (reference.kind.BaseDisplacement? ==> reference.rawSigned && reference.scale <= 1)
    && (reference.kind.BaseDisplacementRange? ==> reference.scale != 0)
    && reference.hasBase && reference.rawWidth == 2 && reference.rawValue <= WORD_MAX
    && reference.sourceOffset <= OFFSET_MAX - 2
    && reference.baseSection == reference.targetSection == section
    && Leads(reference)
  }

  /** The stored reference has the owner of the new one; the words of a range may share an owner. */
  predicate SameOwner(existing: Reference, reference: Reference) {
    && existing.sourceKind.Manual? && existing.ownerId == reference.ownerId
    && (!reference.kind.BaseDisplacementRange? || existing.sourceOffset == reference.sourceOffset)
  }

  predicate SameRelation(a: Reference, b: Reference) {
    && a.sourceOffset == b.sourceOffset && a.kind == b.kind
    && a.rawValue == b.rawValue && a.rawWidth == b.rawWidth && a.rawSigned == b.rawSigned && a.scale == b.scale
    && a.hasBase == b.hasBase && a.baseSection == b.baseSection && a.baseOffset == b.baseOffset
    && a.targetSection == b.targetSection && a.targetOffset == b.targetOffset
    && a.ownerElementOffset == b.ownerElementOffset
    && a.ownerKind == b.ownerKind && a.ownerLayout == b.ownerLayout && a.mode == b.mode
  }

  predicate Overlaps(existing: Reference, reference: Reference) {
    && existing.sourceKind.Manual?
    && existing.sourceOffset < reference.sourceOffset + 2
    && reference.sourceOffset < existing.sourceOffset + existing.rawWidth
  }

  predicate SameEntry(existing: Reference, reference: Reference) {
    && existing.sourceKind == reference.sourceKind && existing.sourceOffset == reference.sourceOffset
    && existing.tableStart == reference.tableStart && existing.tableEntry == reference.tableEntry
    && existing.targetSection == reference.targetSection && existing.targetOffset == reference.targetOffset
  }

  function Merged(existing: Reference, reference: Reference): Reference {
    existing.(evidence := existing.evidence + reference.evidence, roles := existing.roles + reference.roles,
              targetKind := if existing.targetKind == 0 then reference.targetKind else existing.targetKind,
              targetTable := if existing.targetTable == 0 then reference.targetTable else existing.targetTable,
              targetPattern := if existing.targetPattern == 0 then reference.targetPattern else existing.targetPattern)
  }

  // ---------- one append ----------

  datatype Verdict = Refuse | Known | MergeInto(index: nat) | Append

  /** What the first decisive stored reference from `i` on makes of the new one. */
  function VerdictFrom(stored: seq<Reference>, reference: Reference, i: nat): (verdict: Verdict)
    ensures verdict.MergeInto? ==> i <= verdict.index < |stored| && SameEntry(stored[verdict.index], reference)
                                   && !reference.sourceKind.Manual?
    decreases |stored| - i
  {
    if i >= |stored| then Append
    else if reference.sourceKind.Manual? && SameOwner(stored[i], reference) then
      if SameRelation(stored[i], reference) then Known else Refuse
    else if reference.sourceKind.Manual? && Overlaps(stored[i], reference) then Refuse
    else if !reference.sourceKind.Manual? && SameEntry(stored[i], reference) then MergeInto(i)
    else VerdictFrom(stored, reference, i + 1)
  }

  /** A reference without a source or target is skipped. */
  predicate Skipped(reference: Reference) { reference.sourceKind.UnknownSource? || !reference.targetKnown }

  function VerdictOf(stored: seq<Reference>, reference: Reference, section: nat): Verdict {
    if Skipped(reference) then Known
    else if reference.sourceKind.Manual? && !ManualOk(reference, section) then Refuse
    else VerdictFrom(stored, reference, 0)
  }

  /** The references after an append, when there is memory for it. */
  function AppendedTo(stored: seq<Reference>, reference: Reference, section: nat): seq<Reference> {
    match VerdictOf(stored, reference, section)
    case Refuse => stored
    case Known => stored
    case MergeInto(index) =>
      if index < |stored| then stored[index := Merged(stored[index], reference)] else stored
    case Append => stored + [reference]
  }

  // ---------- the list in memory ----------

  const FIRST_CAPACITY: nat := 16

  /** The stored list and the room it has, or a list whose memory is gone. */
  datatype State = Kept(items: seq<Reference>, capacity: nat) | Lost

  const START := Kept([], 0)

  /** An append, and whether the list could be grown and the texts of a manual reference copied. */
  datatype Attempt = Attempt(reference: Reference, grown: bool, copied: bool)

  /** The new reference needs more room than there is, and there is no memory for it. */
  predicate GrowthFails(state: State, attempt: Attempt, section: nat)
    requires state.Kept?
  {
    VerdictOf(state.items, attempt.reference, section) == Append && |state.items| >= state.capacity && !attempt.grown
  }

  predicate CopyFails(state: State, attempt: Attempt, section: nat)
    requires state.Kept?
  {
    VerdictOf(state.items, attempt.reference, section) == Append && attempt.reference.sourceKind.Manual? && !attempt.copied
  }

  function GrownCapacity(state: State): nat
    requires state.Kept?
  {
    if |state.items| < state.capacity then state.capacity
    else if state.capacity == 0 then FIRST_CAPACITY else state.capacity * 2
  }

  /** The answer: 0, or -1 for a refusal or for want of memory. */
  function Answer(state: State, attempt: Attempt, section: nat): int
    requires state.Kept?
  {
    if VerdictOf(state.items, attempt.reference, section) == Refuse || GrowthFails(state, attempt, section)
       || CopyFails(state, attempt, section) then -1 else 0
  }

  /** One append. A failed growth leaves no list behind, although its count stays. */
  function Step(state: State, attempt: Attempt, section: nat): State {
    if state.Lost? then state
    else if GrowthFails(state, attempt, section) then if state.items == [] then state else Lost
    else if VerdictOf(state.items, attempt.reference, section) == Append then
      Kept(if CopyFails(state, attempt, section) then state.items else state.items + [attempt.reference], GrownCapacity(state))
    else state.(items := AppendedTo(state.items, attempt.reference, section))
  }

  class SectionAnalysis {
    const sectionIndex: nat
    var references: array?<Reference>
    var count: nat
    var capacity: nat

    predicate Sound()
      reads this
    {
      count <= capacity && (if references == null then count == capacity else references.Length == capacity)
    }

    ghost function Current(): State
      requires Sound()
      reads this, references
    {
      if references != null then Kept(references[..count], capacity)
      else if count == 0 then Kept([], capacity) else Lost
    }

    constructor (sectionIndex: nat)
      ensures this.sectionIndex == sectionIndex && Sound() && Current() == START
    {
      this.sectionIndex := sectionIndex;
      references, count, capacity := null, 0, 0;
    }

    /** Appends one reference. The flags say whether the list could be grown, if it has to be, and whether
        the texts of a manual reference could be copied. */
    method AppendDataReference(reference: Reference, grown: bool, copied: bool) returns (code: int)
      requires Sound() && Current().Kept?
      modifies this, references
      ensures Sound() && Current() == Step(old(Current()), Attempt(reference, grown, copied), sectionIndex)
      ensures code == Answer(old(Current()), Attempt(reference, grown, copied), sectionIndex)
    {
      hide ManualOk, SameRelation, SameOwner, Overlaps, SameEntry, Merged;
      ghost var before := Current();
      if Skipped(reference) { return 0; }
      if reference.sourceKind.Manual? && !ManualOk(reference, sectionIndex) { return -1; }
      var index := 0;
      while index < count
        invariant 0 <= index <= count
        invariant VerdictFrom(before.items, reference, 0) == VerdictFrom(before.items, reference, index)
      {
        var existing := references[index];
        assert existing == before.items[index];
        if reference.sourceKind.Manual? && SameOwner(existing, reference) {
          if !SameRelation(existing, reference) { return -1; }
          return 0;
        }
        if reference.sourceKind.Manual? && Overlaps(existing, reference) { return -1; }
        if !reference.sourceKind.Manual? && SameEntry(existing, reference) {
          references[index] := Merged(existing, reference);
          assert references[..count] == before.items[index := Merged(existing, reference)];
          return 0;
        }
        index := index + 1;
      }
      Grow(grown);
      if references == null { return -1; }
      if reference.sourceKind.Manual? && !copied { return -1; }
      references[count] := reference;
      count := count + 1;
      assert references[..count] == before.items + [reference];
      return 0;
    }

    /** Room for one more reference, or no list at all. */
    method Grow(grown: bool)
      requires Sound() && Current().Kept?
      modifies this
      ensures count == old(count) && Sound()
      ensures old(count) >= old(capacity) && !grown ==> references == null && capacity == old(capacity)
      ensures old(count) < old(capacity) || grown ==>
                references != null && count < capacity && references[..count] == old(Current()).items
                && capacity == GrownCapacity(old(Current())) && (references == old(references) || fresh(references))
    {
      if count < capacity { return; }
      if !grown {
        references := null;
        return;
      }
      var items := new Reference[if capacity == 0 then FIRST_CAPACITY else capacity * 2];
      if references != null {
        var from := references;
        forall i | 0 <= i < count { items[i] := from[i]; }
      }
      references, capacity := items, items.Length;
    }
  }

  // ---------- what is stored ----------

  predicate WordsDisjoint(a: Reference, b: Reference) {
    a.sourceOffset + 2 <= b.sourceOffset || b.sourceOffset + 2 <= a.sourceOffset
  }

  /** Stored manual references are well formed and their source words pairwise disjoint. */
  predicate ManualsOk(stored: seq<Reference>, section: nat) {
    && (forall i :: 0 <= i < |stored| && stored[i].sourceKind.Manual? ==> ManualOk(stored[i], section))
    && (forall i, j :: 0 <= i < j < |stored| && stored[i].sourceKind.Manual? && stored[j].sourceKind.Manual? ==>
          WordsDisjoint(stored[i], stored[j]))
  }

  /** A manual reference is appended exactly when no stored one has its owner or overlaps it. */
  lemma {:induction false} AppendVerdict(stored: seq<Reference>, reference: Reference, i: nat)
    requires reference.sourceKind.Manual? && i <= |stored|
    ensures VerdictFrom(stored, reference, i) == Append
            <==> forall j :: i <= j < |stored| ==> !SameOwner(stored[j], reference) && !Overlaps(stored[j], reference)
    decreases |stored| - i
  {
    hide SameRelation, SameOwner, Overlaps, SameEntry;
    if i < |stored| { AppendVerdict(stored, reference, i + 1); }
  }

  lemma AppendedExactly(stored: seq<Reference>, reference: Reference, section: nat)
    requires reference.sourceKind.Manual? && !Skipped(reference) && ManualOk(reference, section)
    ensures AppendedTo(stored, reference, section) == stored + [reference]
            <==> forall j :: 0 <= j < |stored| ==> !SameOwner(stored[j], reference) && !Overlaps(stored[j], reference)
  {
    hide ManualOk, SameOwner, Overlaps, VerdictFrom;
    AppendVerdict(stored, reference, 0);
    assert |stored + [reference]| == |stored| + 1;
  }

  lemma ApartWords(existing: Reference, reference: Reference, section: nat)
    requires existing.sourceKind.Manual? && ManualOk(existing, section) && !Overlaps(existing, reference)
    ensures WordsDisjoint(existing, reference)
  {
  }

  /** An append keeps the stored manual references as they should be. */
  lemma AppendKeepsManuals(stored: seq<Reference>, reference: Reference, section: nat)
    requires ManualsOk(stored, section)
    ensures ManualsOk(AppendedTo(stored, reference, section), section)
  {
    hide ManualOk, SameRelation, SameOwner, Overlaps, VerdictFrom, WordsDisjoint;
    var verdict := VerdictOf(stored, reference, section);
    if verdict.Append? && reference.sourceKind.Manual? {
      AppendVerdict(stored, reference, 0);
      forall i | 0 <= i < |stored| && stored[i].sourceKind.Manual? ensures WordsDisjoint(stored[i], reference) {
        ApartWords(stored[i], reference, section);
      }
    }
  }

  /** A run of appends, each with what memory there was for it. */
  function Run(state: State, attempts: seq<Attempt>, section: nat): State
    decreases |attempts|
  {
    if attempts == [] then state else Run(Step(state, attempts[0], section), attempts[1..], section)
  }

  /** The list has room for what it holds, and its manual references are as they should be. */
  predicate StateOk(state: State, section: nat) {
    state.Kept? ==> |state.items| <= state.capacity && ManualsOk(state.items, section)
  }

  lemma StepKeepsManuals(state: State, attempt: Attempt, section: nat)
    requires StateOk(state, section)
    ensures StateOk(Step(state, attempt, section), section)
  {
    hide ManualsOk, VerdictOf;
    if state.Kept? { AppendKeepsManuals(state.items, attempt.reference, section); }
  }

  /** After any run of appends, whatever memory there was for each, the stored manual references have
      pairwise disjoint source words, and base and scaled value of each lead to its target. */
  lemma {:induction false} RunKeepsManuals(state: State, attempts: seq<Attempt>, section: nat)
    requires StateOk(state, section)
    ensures StateOk(Run(state, attempts, section), section)
    ensures var end := Run(state, attempts, section);
            end.Kept? ==> forall i :: 0 <= i < |end.items| && end.items[i].sourceKind.Manual? ==> Leads(end.items[i])
    decreases |attempts|
  {
    hide Step, Leads;
    if attempts != [] {
      StepKeepsManuals(state, attempts[0], section);
      RunKeepsManuals(Step(state, attempts[0], section), attempts[1..], section);
    }
  }

  /** The list is lost exactly when it is full, holds something, and cannot be grown for a reference that
      is to be added. Every other answer of -1 leaves the stored references as they were. */
  lemma LostExactly(state: State, attempt: Attempt, section: nat)
    requires state.Kept?
    ensures Step(state, attempt, section).Lost? <==> GrowthFails(state, attempt, section) && state.items != []
    ensures Answer(state, attempt, section) == -1 && !Step(state, attempt, section).Lost? ==>
              Step(state, attempt, section).items == state.items
  {
    hide VerdictFrom, ManualOk;
  }

  /** When the list can always be grown, it is never lost, and it holds what the appends make of it. */
  lemma {:induction false} GrowingRunAppendsAll(state: State, attempts: seq<Attempt>, section: nat)
    requires state.Kept? && forall i :: 0 <= i < |attempts| ==> attempts[i].grown && attempts[i].copied
    ensures Run(state, attempts, section).Kept?
    ensures Run(state, attempts, section).items
            == AppendedAll(state.items, seq(|attempts|, i requires 0 <= i < |attempts| => attempts[i].reference), section)
    decreases |attempts|
  {
    hide VerdictFrom, ManualOk;
    var references := seq(|attempts|, i requires 0 <= i < |attempts| => attempts[i].reference);
    if attempts != [] {
      var rest := attempts[1..];
      assert references[1..] == seq(|rest|, i requires 0 <= i < |rest| => rest[i].reference);
      GrowingRunAppendsAll(Step(state, attempts[0], section), rest, section);
    }
  }

  function AppendedAll(stored: seq<Reference>, references: seq<Reference>, section: nat): seq<Reference>
    decreases |references|
  {
    if references == [] then stored else AppendedAll(AppendedTo(stored, references[0], section), references[1..], section)
  }

  /** A manual append, refused or not, never changes a stored reference as long as there is a list. */
  lemma ManualAppendOnlyAdds(state: State, attempt: Attempt, section: nat)
    requires state.Kept? && attempt.reference.sourceKind.Manual?
    ensures Step(state, attempt, section).Kept? ==> state.items <= Step(state, attempt, section).items
    ensures Answer(state, attempt, section) == -1 && Step(state, attempt, section).Kept? ==>
              Step(state, attempt, section).items == state.items
  {
    hide ManualOk, VerdictFrom;
  }

  // ---------- a list that is lost ----------

  /** A table entry's reference, told apart by its offset. */
  function Entry(offset: nat): Reference {
    Reference(TableEntry, true, UnknownKind, offset, 0, 0, false, 0, false, 0, 0, 0, 0, 0, [], [], [], [],
              0, 0, {}, {}, 0, 0, 0)
  }

  function Entries(n: nat): (entries: seq<Reference>)
    ensures |entries| == n
  {
    seq(n, i requires 0 <= i < n => Entry(i))
  }

  lemma {:induction false} EntryIsNew(n: nat, i: nat)
    requires i <= n
    ensures VerdictFrom(Entries(n), Entry(n), i) == Append
    decreases n - i
  {
    if i < n { EntryIsNew(n, i + 1); }
  }

  /** The appends of the entries from `n` up to the sixteenth, each with memory. */
  function Attempts(n: nat): seq<Attempt>
    requires n <= FIRST_CAPACITY
  {
    seq(FIRST_CAPACITY - n, i requires 0 <= i < FIRST_CAPACITY - n => Attempt(Entry(n + i), true, true))
  }

  lemma {:induction false} FillsUp(n: nat)
    requires n <= FIRST_CAPACITY
    ensures Run(Kept(Entries(n), if n == 0 then 0 else FIRST_CAPACITY), Attempts(n), 0)
            == Kept(Entries(FIRST_CAPACITY), FIRST_CAPACITY)
    decreases FIRST_CAPACITY - n
  {
    if n < FIRST_CAPACITY {
      EntryIsNew(n, 0);
      assert Attempts(n)[0] == Attempt(Entry(n), true, true) && Attempts(n)[1..] == Attempts(n + 1);
      assert Entries(n) + [Entry(n)] == Entries(n + 1);
      FillsUp(n + 1);
    }
  }

  /** Sixteen references of table entries fill the first memory; with none for the seventeenth the
      answer is -1 and the sixteen are gone. */
  lemma SixteenAreLost()
    ensures Run(START, Attempts(0), 0) == Kept(Entries(FIRST_CAPACITY), FIRST_CAPACITY)
    ensures Step(Run(START, Attempts(0), 0), Attempt(Entry(FIRST_CAPACITY), false, true), 0) == Lost
    ensures Answer(Run(START, Attempts(0), 0), Attempt(Entry(FIRST_CAPACITY), false, true), 0) == -1
  {
    FillsUp(0);
    assert Entries(0) == [];
    EntryIsNew(FIRST_CAPACITY, 0);
  }
}
