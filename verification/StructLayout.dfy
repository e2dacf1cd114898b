/** The fields of a custom structure that its layout emits, and the names of layout constants. */
module StructLayout {
  import opened Wrappers
  import opened CustomStructs

  // ---------- sorting the fields by offset ----------

  /** Where field `f` goes: before the fields at the end that start later. */
  function InsertPosition(record: Struct, sorted: seq<nat>, f: nat, at: nat): (position: nat)
    requires at <= |sorted| && f < |record.fields| && InRange(record, sorted)
    ensures position <= at
  {
    if at > 0 && record.fields[f].offset < record.fields[sorted[at - 1]].offset
    then InsertPosition(record, sorted, f, at - 1) else at
  }

  predicate InRange(record: Struct, indices: seq<nat>) {
    forall i :: 0 <= i < |indices| ==> indices[i] < |record.fields|
  }

  function InsertedAt(sorted: seq<nat>, position: nat, f: nat): seq<nat>
    requires position <= |sorted|
  {
    sorted[..position] + [f] + sorted[position..]
  }

  /** The indices of the first `n` fields, by offset and then by index. */
  function SortedFields(record: Struct, n: nat): (sorted: seq<nat>)
    requires n <= |record.fields|
    ensures |sorted| == n && InRange(record, sorted)
  {
    if n == 0 then []
    else
      var prior := SortedFields(record, n - 1);
      InsertedAt(prior, InsertPosition(record, prior, n - 1, n - 1), n - 1)
  }

  predicate OrderedByOffset(record: Struct, indices: seq<nat>)
    requires InRange(record, indices)
  {
    forall i, j :: 0 <= i < j < |indices| ==> record.fields[indices[i]].offset <= record.fields[indices[j]].offset
  }

  predicate Distinct(indices: seq<nat>) { forall i, j :: 0 <= i < j < |indices| ==> indices[i] != indices[j] }

  lemma {:induction false} PositionSplits(record: Struct, sorted: seq<nat>, f: nat, at: nat)
    requires at <= |sorted| && f < |record.fields| && InRange(record, sorted) && OrderedByOffset(record, sorted)
    ensures var position := InsertPosition(record, sorted, f, at);
            && (forall i :: 0 <= i < position ==> record.fields[sorted[i]].offset <= record.fields[f].offset)
            && (forall i :: position <= i < at ==> record.fields[f].offset < record.fields[sorted[i]].offset)
  {
    if at > 0 && record.fields[f].offset < record.fields[sorted[at - 1]].offset {
      PositionSplits(record, sorted, f, at - 1);
    }
  }

  lemma InsertedMembers(sorted: seq<nat>, position: nat, f: nat)
    requires position <= |sorted|
    ensures forall g :: g in InsertedAt(sorted, position, f) <==> g == f || g in sorted
  {
    assert sorted == sorted[..position] + sorted[position..];
  }

  lemma InsertedDistinct(sorted: seq<nat>, position: nat, f: nat)
    requires position <= |sorted| && Distinct(sorted) && f !in sorted
    ensures Distinct(InsertedAt(sorted, position, f))
  {
    assert forall i :: 0 <= i < |sorted| ==> sorted[i] != f;
  }

  lemma InsertedOrdered(record: Struct, sorted: seq<nat>, position: nat, f: nat)
    requires f < |record.fields| && InRange(record, sorted) && OrderedByOffset(record, sorted) && position <= |sorted|
    requires forall i :: 0 <= i < position ==> record.fields[sorted[i]].offset <= record.fields[f].offset
    requires forall i :: position <= i < |sorted| ==> record.fields[f].offset < record.fields[sorted[i]].offset
    ensures InRange(record, InsertedAt(sorted, position, f)) && OrderedByOffset(record, InsertedAt(sorted, position, f))
  {
  }

  /** Sorting gives every field once, ordered by offset. */
  lemma {:induction false} SortedFieldsAre(record: Struct, n: nat)
    requires n <= |record.fields|
    ensures OrderedByOffset(record, SortedFields(record, n)) && Distinct(SortedFields(record, n))
    ensures forall f :: f in SortedFields(record, n) <==> 0 <= f < n
  {
    hide InsertedAt, InsertPosition, OrderedByOffset, Distinct, InRange;
    if n > 0 {
      SortedFieldsAre(record, n - 1);
      var prior := SortedFields(record, n - 1);
      var position := InsertPosition(record, prior, n - 1, n - 1);
      PositionSplits(record, prior, n - 1, n - 1);
      InsertedMembers(prior, position, n - 1);
      InsertedDistinct(prior, position, n - 1);
      InsertedOrdered(record, prior, position, n - 1);
    } else {
      NothingSorted(record);
    }
  }

  lemma NothingSorted(record: Struct)
    ensures InRange(record, []) && OrderedByOffset(record, []) && Distinct([])
  {
  }

  // ---------- choosing the fields ----------

  predicate Emittable(record: Struct, field: Field, cursor: nat) {
    field.name != [] && field.size != 0 && cursor <= field.offset && Inside(field, record.size)
  }

  /** The chosen ones of the sorted fields from `i` on, the last chosen field ending at the cursor. */
  function EmittedFrom(record: Struct, sorted: seq<nat>, i: nat, cursor: nat): seq<nat>
    requires InRange(record, sorted) && i <= |sorted|
    decreases |sorted| - i
  {
    if i == |sorted| then []
    else
      var field := record.fields[sorted[i]];
      if Emittable(record, field, cursor)
      then [sorted[i]] + EmittedFrom(record, sorted, i + 1, field.offset + field.size)
      else EmittedFrom(record, sorted, i + 1, cursor)
  }

  function LayoutOf(record: Struct): seq<nat> {
    EmittedFrom(record, SortedFields(record, |record.fields|), 0, 0)
  }

  /** Insertion into the sorted part of the buffer. */
  method InsertField(record: Struct, sorted: array<nat>, count: nat, f: nat)
    requires f < |record.fields| && count < sorted.Length && InRange(record, sorted[..count])
    modifies sorted
    ensures sorted[..count + 1]
            == InsertedAt(old(sorted[..count]), InsertPosition(record, old(sorted[..count]), f, count), f)
  {
    hide InRange;
    InRangeOf(record, sorted[..count]);
    ghost var before := sorted[..count];
    var at := count;
    while at > 0 && record.fields[f].offset < record.fields[sorted[at - 1]].offset
      invariant 0 <= at <= count
      invariant forall i :: 0 <= i < at ==> sorted[i] == before[i]
      invariant forall i :: at < i <= count ==> sorted[i] == before[i - 1]
      invariant InsertPosition(record, before, f, count) == InsertPosition(record, before, f, at)
    {
      sorted[at] := sorted[at - 1];
      at := at - 1;
    }
    sorted[at] := f;
    assert at == InsertPosition(record, before, f, count);
    assert forall i :: 0 <= i <= count ==> sorted[i] == InsertedAt(before, at, f)[i];
  }

  lemma InRangeOf(record: Struct, indices: seq<nat>)
    requires InRange(record, indices)
    ensures forall i :: 0 <= i < |indices| ==> indices[i] < |record.fields|
  {
  }

  /** The indices of the emitted fields; None when the structure has too many or the room is short. */
  method LayoutFields(record: Struct, capacity: nat) returns (emitted: Option<seq<nat>>)
    ensures emitted == if |record.fields| > FIELD_LIMIT || capacity < |record.fields| then None else Some(LayoutOf(record))
  {
    if |record.fields| > FIELD_LIMIT || capacity < |record.fields| { return None; }
    var sorted := new nat[FIELD_LIMIT];
    for f := 0 to |record.fields|
      invariant sorted[..f] == SortedFields(record, f)
    {
      InsertField(record, sorted, f, f);
    }
    var indices := ChooseFields(record, sorted[..|record.fields|]);
    return Some(indices);
  }

  /** The second loop: the sorted fields that start behind the last chosen one. */
  method ChooseFields(record: Struct, sorted: seq<nat>) returns (indices: seq<nat>)
    requires InRange(record, sorted)
    ensures indices == EmittedFrom(record, sorted, 0, 0)
  {
    hide Emittable;
    indices := [];
    var cursor: nat := 0;
    for f := 0 to |sorted|
      invariant EmittedFrom(record, sorted, 0, 0) == indices + EmittedFrom(record, sorted, f, cursor)
    {
      var field := record.fields[sorted[f]];
      if !Emittable(record, field, cursor) { continue; }
      ghost var rest := EmittedFrom(record, sorted, f + 1, field.offset + field.size);
      assert indices + ([sorted[f]] + rest) == (indices + [sorted[f]]) + rest;
      indices := indices + [sorted[f]];
      cursor := field.offset + field.size;
    }
    assert indices + [] == indices;
  }

  // ---------- what the layout is ----------

  predicate DisjointFields(a: Field, b: Field) { a.offset + a.size <= b.offset || b.offset + b.size <= a.offset }

  /** What the fields emitted behind the cursor are. */
  lemma {:induction false} EmittedFromAre(record: Struct, sorted: seq<nat>, i: nat, cursor: nat)
    requires InRange(record, sorted) && i <= |sorted| && Distinct(sorted)
    ensures var emitted := EmittedFrom(record, sorted, i, cursor);
            && InRange(record, emitted)
            && (forall k :: 0 <= k < |emitted| ==>
                  emitted[k] in sorted[i..] && Emittable(record, record.fields[emitted[k]], cursor))
            && (forall j, k :: 0 <= j < k < |emitted| ==>
                  record.fields[emitted[j]].offset + record.fields[emitted[j]].size <= record.fields[emitted[k]].offset)
    decreases |sorted| - i
  {
    if i < |sorted| {
      var field := record.fields[sorted[i]];
      assert sorted[i..] == [sorted[i]] + sorted[i + 1..];
      EmittedFromAre(record, sorted, i + 1, if Emittable(record, field, cursor) then field.offset + field.size else cursor);
    }
  }

  /** An emittable field that is left out behind the cursor overlaps a field emitted before it. */
  predicate Covered(record: Struct, emitted: seq<nat>, g: nat)
    requires InRange(record, emitted) && g < |record.fields|
  {
    exists k :: 0 <= k < |emitted| && record.fields[emitted[k]].offset <= record.fields[g].offset
                && Overlap(record.fields[emitted[k]], record.fields[g])
  }

  /** A field that could be emitted and is not starts before the cursor or overlaps an emitted one. */
  lemma {:induction false} LeftOutIsCovered(record: Struct, sorted: seq<nat>, i: nat, cursor: nat, j: nat)
    requires InRange(record, sorted) && OrderedByOffset(record, sorted) && Distinct(sorted)
    requires i <= j < |sorted| && Emittable(record, record.fields[sorted[j]], 0)
    requires sorted[j] !in EmittedFrom(record, sorted, i, cursor)
    ensures InRange(record, EmittedFrom(record, sorted, i, cursor))
    ensures record.fields[sorted[j]].offset < cursor
            || Covered(record, EmittedFrom(record, sorted, i, cursor), sorted[j])
    decreases |sorted| - i
  {
    EmittedFromAre(record, sorted, i, cursor);
    var field := record.fields[sorted[i]];
    var next := if Emittable(record, field, cursor) then field.offset + field.size else cursor;
    if i < j {
      LeftOutIsCovered(record, sorted, i + 1, next, j);
      CoverGrows(record, sorted, i, cursor, next, j);
    }
  }

  lemma CoverGrows(record: Struct, sorted: seq<nat>, i: nat, cursor: nat, next: nat, j: nat)
    requires InRange(record, sorted) && OrderedByOffset(record, sorted) && i < j < |sorted|
    requires Emittable(record, record.fields[sorted[j]], 0)
    requires next == if Emittable(record, record.fields[sorted[i]], cursor)
                     then record.fields[sorted[i]].offset + record.fields[sorted[i]].size else cursor
    requires InRange(record, EmittedFrom(record, sorted, i, cursor)) && InRange(record, EmittedFrom(record, sorted, i + 1, next))
    requires record.fields[sorted[j]].offset < next || Covered(record, EmittedFrom(record, sorted, i + 1, next), sorted[j])
    ensures record.fields[sorted[j]].offset < cursor || Covered(record, EmittedFrom(record, sorted, i, cursor), sorted[j])
  {
    var emitted, rest := EmittedFrom(record, sorted, i, cursor), EmittedFrom(record, sorted, i + 1, next);
    if Emittable(record, record.fields[sorted[i]], cursor) {
      assert emitted[0] == sorted[i];
      if Covered(record, rest, sorted[j]) {
        var k :| 0 <= k < |rest| && record.fields[rest[k]].offset <= record.fields[sorted[j]].offset
                 && Overlap(record.fields[rest[k]], record.fields[sorted[j]]);
        assert emitted[k + 1] == rest[k];
      }
    }
  }

  /** The emitted fields are distinct, in order, inside the structure and pairwise disjoint. */
  lemma LayoutIsOrderly(record: Struct)
    ensures var emitted := LayoutOf(record);
            && InRange(record, emitted) && Distinct(emitted) && OrderedByOffset(record, emitted)
            && (forall k :: 0 <= k < |emitted| ==> Emittable(record, record.fields[emitted[k]], 0))
            && (forall j, k :: 0 <= j < k < |emitted| ==>
                  DisjointFields(record.fields[emitted[j]], record.fields[emitted[k]]))
  {
    hide SortedFields, EmittedFrom;
    SortedFieldsAre(record, |record.fields|);
    EmittedFromAre(record, SortedFields(record, |record.fields|), 0, 0);
  }

  /** Every named, sized field inside the structure that is left out overlaps an emitted field that
      starts no later. */
  lemma LeftOutOverlaps(record: Struct, g: nat)
    requires g < |record.fields| && Emittable(record, record.fields[g], 0) && g !in LayoutOf(record)
    ensures InRange(record, LayoutOf(record)) && Covered(record, LayoutOf(record), g)
  {
    hide SortedFields, EmittedFrom, Covered, OrderedByOffset, Distinct;
    var sorted := SortedFields(record, |record.fields|);
    SortedFieldsAre(record, |record.fields|);
    assert g in sorted;
    var j :| 0 <= j < |sorted| && sorted[j] == g;
    LeftOutIsCovered(record, sorted, 0, 0, j);
  }

  // ---------- layout constants ----------

  const NAME_CAPACITY: nat := 256

  /** The constant of field `f` of structure `s`, both counted from 1, or of the size for field 0;
      None when there is none or its name does not fit. */
  function LayoutConstant(structs: seq<Struct>, s: nat, f: nat, capacity: nat): Option<(string, nat)> {
    if s == 0 || s > |structs| then None
    else
      var record := structs[s - 1];
      if record.name == [] || record.size == 0 then None
      else if f == 0 then FittingName(record.name + "_SIZEOF", record.size, capacity)
      else if |record.fields| > FIELD_LIMIT || f > |record.fields| || f - 1 !in LayoutOf(record) then None
      else FittingName(record.name + "_" + record.fields[f - 1].name, record.fields[f - 1].offset, capacity)
  }

  function FittingName(name: string, value: nat, capacity: nat): Option<(string, nat)> {
    if |name| < capacity then Some((name, value)) else None
  }

  /** Field `f` of structure `s` generates the name. */
  predicate Generates(structs: seq<Struct>, s: nat, f: nat, name: string) {
    LayoutConstant(structs, s, f, NAME_CAPACITY).Some? && LayoutConstant(structs, s, f, NAME_CAPACITY).value.0 == name
  }

  datatype Found = Found(s: nat, f: nat, value: nat)

  /** The pairs before field `f` of structure `s` in the order of the search. */
  predicate Before(a: nat, b: nat, s: nat, f: nat) { a < s || (a == s && b < f) }

  /** What the search knows when it comes to field `f` of structure `s`. */
  ghost predicate Searched(structs: seq<Struct>, name: string, s: nat, f: nat, code: int, found: Found) {
    && 0 <= code <= 1
    && (code == 1 ==> Before(found.s, found.f, s, f) && IsConstant(structs, name, found))
    && forall a: nat, b: nat :: Before(a, b, s, f) && Generates(structs, a, b, name) ==>
         code == 1 && a == found.s && b == found.f
  }

  predicate IsConstant(structs: seq<Struct>, name: string, found: Found) {
    LayoutConstant(structs, found.s, found.f, NAME_CAPACITY) == Some((name, found.value))
  }

  /** Two pairs generate the name. */
  ghost predicate Several(structs: seq<Struct>, name: string) {
    exists a: nat, b: nat, s: nat, f: nat ::
      Generates(structs, a, b, name) && Generates(structs, s, f, name) && (a != s || b != f)
  }

  /** Only fields of a structure generate names for it. */
  lemma GeneratedInside(structs: seq<Struct>, name: string, s: nat, f: nat)
    requires Generates(structs, s, f, name)
    ensures 1 <= s <= |structs| && f <= |structs[s - 1].fields|
  {
    hide LayoutOf;
  }

  lemma ConstantIsGenerated(structs: seq<Struct>, name: string, found: Found)
    requires IsConstant(structs, name, found)
    ensures Generates(structs, found.s, found.f, name)
  {
    hide LayoutConstant;
  }

  /** The inner loop: the size and the fields of one structure. */
  method SearchStruct(structs: seq<Struct>, name: string, s: nat, code: int, found: Found)
    returns (several: bool, newCode: int, newFound: Found)
    requires 1 <= s <= |structs| && Searched(structs, name, s, 0, code, found)
    ensures several ==> Several(structs, name)
    ensures !several ==> Searched(structs, name, s + 1, 0, newCode, newFound)
  {
    hide LayoutConstant;
    several, newCode, newFound := false, code, found;
    for f := 0 to |structs[s - 1].fields| + 1
      invariant Searched(structs, name, s, f, newCode, newFound)
    {
      var constant := LayoutConstant(structs, s, f, NAME_CAPACITY);
      assert Generates(structs, s, f, name) <==> constant.Some? && constant.value.0 == name;
      if constant.None? || constant.value.0 != name { continue; }
      if newCode == 1 {
        ConstantIsGenerated(structs, name, newFound);
        return true, newCode, newFound;
      }
      newCode, newFound := 1, Found(s, f, constant.value.1);
    }
    forall a: nat, b: nat | Before(a, b, s + 1, 0) && Generates(structs, a, b, name)
      ensures Before(a, b, s, |structs[s - 1].fields| + 1)
    {
      GeneratedInside(structs, name, a, b);
    }
  }

  /** 1 and the pair that generates the name; 0 for none, -1 for several. */
  method FindLayoutConstant(structs: seq<Struct>, name: string) returns (code: int, found: Found)
    ensures |structs| > STRUCT_LIMIT || (exists s :: 0 <= s < |structs| && |structs[s].fields| > FIELD_LIMIT) ==> code != 1
    ensures |structs| <= STRUCT_LIMIT && (forall s :: 0 <= s < |structs| ==> |structs[s].fields| <= FIELD_LIMIT) ==>
              && (code == 0 <==> forall s: nat, f: nat :: !Generates(structs, s, f, name))
              && (code == -1 <==> Several(structs, name))
              && -1 <= code <= 1
    ensures code == 1 ==>
              && IsConstant(structs, name, found)
              && forall s: nat, f: nat :: Generates(structs, s, f, name) ==> s == found.s && f == found.f
  {
    hide LayoutConstant;
    found := Found(0, 0, 0);
    if |structs| > STRUCT_LIMIT { return 0, found; }
    code := 0;
    forall s: nat, f: nat | Generates(structs, s, f, name) ensures 1 <= s { GeneratedInside(structs, name, s, f); }
    for s := 0 to |structs|
      invariant forall i :: 0 <= i < s ==> |structs[i].fields| <= FIELD_LIMIT
      invariant Searched(structs, name, s + 1, 0, code, found)
    {
      if |structs[s].fields| > FIELD_LIMIT { return 0, found; }
      var several;
      several, code, found := SearchStruct(structs, name, s + 1, code, found);
      if several { return -1, found; }
    }
    forall s: nat, f: nat | Generates(structs, s, f, name) ensures Before(s, f, |structs| + 1, 0) {
      GeneratedInside(structs, name, s, f);
    }
    if code == 1 { ConstantIsGenerated(structs, name, found); }
  }
}
