/** Custom structures that extend a base structure: the validity check, the chain of bases and the
    lookup of a field through it. */
module CustomStructs {
  import opened Wrappers

  const STRUCT_LIMIT: nat := 256
  const FIELD_LIMIT: nat := 32

  datatype Field = Field(name: string, offset: nat, size: nat)

  /** The base is the name of another structure, empty for none. */
  datatype Struct = Struct(name: string, size: nat, base: string, baseOffset: nat, fields: seq<Field>)

  // ---------- the chain of bases ----------

  /** The first structure from `i` on with this name. */
  function FirstNamed(structs: seq<Struct>, name: string, i: nat): (found: Option<nat>)
    ensures found.Some? ==> i <= found.value < |structs| && structs[found.value].name == name
    decreases |structs| - i
  {
    if i >= |structs| || i >= STRUCT_LIMIT then None
    else if structs[i].name == name then Some(i)
    else FirstNamed(structs, name, i + 1)
  }

  function ParentOf(structs: seq<Struct>, record: Struct): (parent: Option<nat>)
    ensures parent.Some? ==> parent.value < |structs|
  {
    if record.base == [] then None else FirstNamed(structs, record.base, 0)
  }

  method CustomStructParent(structs: seq<Struct>, record: Struct) returns (parent: Option<nat>)
    ensures parent == ParentOf(structs, record)
  {
    if record.base == [] { return None; }
    var i := 0;
    while i < |structs| && i < STRUCT_LIMIT
      invariant 0 <= i <= |structs|
      invariant FirstNamed(structs, record.base, 0) == FirstNamed(structs, record.base, i)
    {
      if structs[i].name == record.base { return Some(i); }
      i := i + 1;
    }
    return None;
  }

  /** Level `k` of the chain of structure `r`: its base's base and so on; the structure itself at 0. */
  function Level(structs: seq<Struct>, r: nat, k: nat): (level: Option<nat>)
    requires r < |structs|
    ensures level.Some? ==> level.value < |structs|
  {
    if k == 0 then Some(r)
    else
      var below := Level(structs, r, k - 1);
      if below.None? then None else ParentOf(structs, structs[below.value])
  }

  // ---------- fields ----------

  /** The field starts at the offset, or holds the whole narrower access. */
  predicate Matches(field: Field, offset: nat, width: nat) {
    && field.name != [] && field.size != 0
    && (field.offset == offset
        || (width != 0 && width < field.size && field.offset <= offset && offset + width <= field.offset + field.size))
  }

  /** The first matching field of the record from `i` on. */
  function MatchingField(record: Struct, offset: nat, width: nat, i: nat): (found: Option<nat>)
    ensures found.Some? ==> i <= found.value < |record.fields| && found.value < FIELD_LIMIT
                            && Matches(record.fields[found.value], offset, width)
    ensures found.None? ==> forall f :: i <= f < |record.fields| && f < FIELD_LIMIT ==>
                              !Matches(record.fields[f], offset, width)
    decreases |record.fields| - i
  {
    if i >= |record.fields| || i >= FIELD_LIMIT then None
    else if Matches(record.fields[i], offset, width) then Some(i)
    else MatchingField(record, offset, width, i + 1)
  }

  predicate LevelMatches(structs: seq<Struct>, r: nat, k: nat, offset: nat, width: nat)
    requires r < |structs|
  {
    Level(structs, r, k).Some? && MatchingField(structs[Level(structs, r, k).value], offset, width, 0).Some?
  }

  /** The structure that owns the field, and the field's index in it. */
  function FieldAtFrom(structs: seq<Struct>, r: nat, offset: nat, width: nat, depth: nat): Option<(nat, nat)>
    requires r < |structs| && depth <= |structs| + 1
    decreases |structs| + 1 - depth
  {
    var level := Level(structs, r, depth);
    if depth > |structs| || level.None? then None
    else
      var field := MatchingField(structs[level.value], offset, width, 0);
      if field.Some? then Some((level.value, field.value)) else FieldAtFrom(structs, r, offset, width, depth + 1)
  }

  method CustomStructFieldAt(structs: seq<Struct>, r: nat, offset: nat, width: nat) returns (found: Option<(nat, nat)>)
    requires r < |structs|
    ensures found == FieldAtFrom(structs, r, offset, width, 0)
  {
    var record := Some(r);
    var depth := 0;
    while record.Some? && depth <= |structs|
      invariant 0 <= depth <= |structs| + 1 && record == Level(structs, r, depth)
      invariant FieldAtFrom(structs, r, offset, width, 0) == FieldAtFrom(structs, r, offset, width, depth)
    {
      var owner := structs[record.value];
      var i := 0;
      while i < |owner.fields| && i < FIELD_LIMIT
        invariant 0 <= i <= |owner.fields|
        invariant MatchingField(owner, offset, width, 0) == MatchingField(owner, offset, width, i)
      {
        if Matches(owner.fields[i], offset, width) { return Some((record.value, i)); }
        i := i + 1;
      }
      record := CustomStructParent(structs, owner);
      depth := depth + 1;
    }
    return None;
  }

  // ---------- the validity check ----------

  predicate Inside(field: Field, size: nat) { field.offset <= size && field.size <= size - field.offset }

  predicate Overlap(a: Field, b: Field) {
    a.size != 0 && b.size != 0 && a.offset < b.offset + b.size && b.offset < a.offset + a.size
  }

  /** The fields of the base lie inside it and leave those of the structure alone. */
  predicate FieldsApart(child: Struct, parent: Struct) {
    forall c, p :: 0 <= c < |child.fields| && 0 <= p < |parent.fields| ==> PairApart(child, parent, c, p)
  }

  predicate PairApart(child: Struct, parent: Struct, c: nat, p: nat)
    requires c < |child.fields| && p < |parent.fields|
  {
    Inside(parent.fields[p], parent.size) && !Overlap(child.fields[c], parent.fields[p])
  }

  predicate ParentOk(child: Struct, current: Struct, parent: Struct) {
    parent.size != 0 && parent.size <= current.size && |parent.fields| <= FIELD_LIMIT && FieldsApart(child, parent)
  }

  /** The chain of the child from `depth` bases on is known, short enough and apart from the child. */
  predicate ChainOk(structs: seq<Struct>, child: Struct, current: Struct, depth: nat)
    decreases |structs| - depth
  {
    current.base != [] ==>
      var parent := ParentOf(structs, current);
      && parent.Some? && depth < |structs|
      && ParentOk(child, current, structs[parent.value])
      && ChainOk(structs, child, structs[parent.value], depth + 1)
  }

  predicate ChildOk(child: Struct) {
    && child.size != 0 && child.baseOffset <= child.size && |child.fields| <= FIELD_LIMIT
    && forall f :: 0 <= f < |child.fields| ==>
         child.baseOffset <= child.fields[f].offset && Inside(child.fields[f], child.size)
  }

  predicate StructOk(structs: seq<Struct>, child: Struct) {
    child.base != [] ==> ChildOk(child) && ChainOk(structs, child, child, 0)
  }

  predicate StructsValid(structs: seq<Struct>) {
    |structs| <= STRUCT_LIMIT && forall i :: 0 <= i < |structs| ==> StructOk(structs, structs[i])
  }

  method FieldsAreApart(child: Struct, parent: Struct) returns (apart: bool)
    ensures apart == FieldsApart(child, parent)
  {
    for c := 0 to |child.fields|
      invariant forall i, p :: 0 <= i < c && 0 <= p < |parent.fields| ==> PairApart(child, parent, i, p)
    {
      for p := 0 to |parent.fields|
        invariant forall q :: 0 <= q < p ==> PairApart(child, parent, c, q)
      {
        assert PairApart(child, parent, c, p) <==>
               Inside(parent.fields[p], parent.size) && !Overlap(child.fields[c], parent.fields[p]);
        if !Inside(parent.fields[p], parent.size) { return false; }
        if Overlap(child.fields[c], parent.fields[p]) { return false; }
      }
    }
    return true;
  }

  /** The walk up the chain of one structure. */
  method ChainIsOk(structs: seq<Struct>, child: Struct) returns (ok: bool)
    ensures ok == ChainOk(structs, child, child, 0)
  {
    var current, depth := child, 0;
    while current.base != []
      invariant 0 <= depth <= |structs|
      invariant ChainOk(structs, child, child, 0) == ChainOk(structs, child, current, depth)
      decreases |structs| - depth
    {
      var index := CustomStructParent(structs, current);
      if index.None? { return false; }
      depth := depth + 1;
      var parent := structs[index.value];
      if depth > |structs| || parent.size == 0 || parent.size > current.size || |parent.fields| > FIELD_LIMIT {
        return false;
      }
      var apart := FieldsAreApart(child, parent);
      if !apart { return false; }
      current := parent;
    }
    return true;
  }

  method CustomStructsValid(structs: seq<Struct>) returns (valid: bool)
    ensures valid == StructsValid(structs)
  {
    hide ChainOk, Inside;
    if |structs| > STRUCT_LIMIT { return false; }
    for i := 0 to |structs|
      invariant forall j :: 0 <= j < i ==> StructOk(structs, structs[j])
    {
      var child := structs[i];
      if child.base == [] { continue; }
      if child.size == 0 || child.baseOffset > child.size || |child.fields| > FIELD_LIMIT { return false; }
      for f := 0 to |child.fields|
        invariant forall g :: 0 <= g < f ==>
                    child.baseOffset <= child.fields[g].offset && Inside(child.fields[g], child.size)
      {
        if child.fields[f].offset < child.baseOffset || !Inside(child.fields[f], child.size) { return false; }
      }
      var ok := ChainIsOk(structs, child);
      if !ok { return false; }
    }
    return true;
  }

  // ---------- chains end ----------

  /** What the check says of the chain from one level on. */
  lemma {:induction false} ChainReachesLevel(structs: seq<Struct>, r: nat, k: nat)
    requires r < |structs| && ChainOk(structs, structs[r], structs[r], 0)
    requires Level(structs, r, k).Some?
    ensures k <= |structs|
    ensures ChainOk(structs, structs[r], structs[Level(structs, r, k).value], k)
    ensures k > 0 ==> FieldsApart(structs[r], structs[Level(structs, r, k).value])
                      && |structs[Level(structs, r, k).value].fields| <= FIELD_LIMIT
  {
    if k > 0 { ChainReachesLevel(structs, r, k - 1); }
  }

  lemma ValidChains(structs: seq<Struct>, r: nat)
    requires StructsValid(structs) && r < |structs|
    ensures ChainOk(structs, structs[r], structs[r], 0)
  {
  }

  lemma {:induction false} LevelsCompose(structs: seq<Struct>, r: nat, j: nat, k: nat)
    requires r < |structs| && Level(structs, r, j).Some?
    ensures Level(structs, r, j + k) == Level(structs, Level(structs, r, j).value, k)
  {
    if k > 0 {
      LevelsCompose(structs, r, j, k - 1);
      assert j + k - 1 == j + (k - 1);
    }
  }

  lemma {:induction false} LevelsBelow(structs: seq<Struct>, r: nat, j: nat, k: nat)
    requires r < |structs| && j <= k && Level(structs, r, k).Some?
    ensures Level(structs, r, j).Some?
  {
    if j < k { LevelsBelow(structs, r, j, k - 1); }
  }

  /** A structure that is its own base after some levels has levels without end. */
  lemma {:induction false} CyclesGoOn(structs: seq<Struct>, r: nat, k: nat, n: nat)
    requires r < |structs| && k > 0 && Level(structs, r, k) == Some(r)
    ensures Level(structs, r, n * k) == Some(r)
  {
    if n > 0 {
      CyclesGoOn(structs, r, k, n - 1);
      LevelsCompose(structs, r, (n - 1) * k, k);
      assert (n - 1) * k + k == n * k;
    }
  }

  lemma TimesGrows(n: nat, k: nat)
    requires k > 0
    ensures n * k >= n
  {
  }

  lemma FiniteChainIsAcyclic(structs: seq<Struct>, r: nat, n: nat, k: nat)
    requires r < |structs| && k > 0
    requires forall i: nat :: i >= n ==> Level(structs, r, i).None?
    ensures Level(structs, r, k) != Some(r)
  {
    hide Level;
    if Level(structs, r, k) == Some(r) {
      CyclesGoOn(structs, r, k, n);
      TimesGrows(n, k);
    }
  }

  /** In an accepted policy every chain of bases ends within the number of structures, and no
      structure is among its own bases. */
  lemma ChainsAreFiniteAndAcyclic(structs: seq<Struct>, r: nat)
    requires StructsValid(structs) && r < |structs|
    ensures forall k: nat :: k > |structs| ==> Level(structs, r, k).None?
    ensures forall k: nat :: k > 0 ==> Level(structs, r, k) != Some(r)
  {
    hide Level, ChainOk;
    ValidChains(structs, r);
    forall k: nat | k > |structs| ensures Level(structs, r, k).None? {
      if Level(structs, r, k).Some? { ChainReachesLevel(structs, r, k); }
    }
    forall k: nat | k > 0 ensures Level(structs, r, k) != Some(r) {
      FiniteChainIsAcyclic(structs, r, |structs| + 1, k);
    }
  }

  // ---------- the lookup is exact and unambiguous ----------

  /** A field that matches contains the offset, so fields that do not overlap cannot both match. */
  lemma ApartExcludes(a: Field, b: Field, offset: nat, width: nat)
    requires Matches(a, offset, width) && !Overlap(a, b)
    ensures !Matches(b, offset, width)
  {
  }

  /** When one level of a chain matches, none above it does. */
  lemma LevelsAboveDoNotMatch(structs: seq<Struct>, r: nat, j: nat, k: nat, offset: nat, width: nat)
    requires StructsValid(structs) && r < |structs| && j < k
    requires LevelMatches(structs, r, j, offset, width)
    ensures !LevelMatches(structs, r, k, offset, width)
  {
    hide Matches, Overlap, ChainOk, StructsValid;
    var child := Level(structs, r, j).value;
    ValidChains(structs, child);
    LevelsCompose(structs, r, j, k - j);
    assert j + (k - j) == k;
    if Level(structs, r, k).Some? {
      ChainReachesLevel(structs, child, k - j);
      var parent := Level(structs, r, k).value;
      var c := MatchingField(structs[child], offset, width, 0).value;
      forall p | 0 <= p < |structs[parent].fields| ensures !Matches(structs[parent].fields[p], offset, width) {
        assert PairApart(structs[child], structs[parent], c, p);
        ApartExcludes(structs[child].fields[c], structs[parent].fields[p], offset, width);
      }
    }
  }

  /** At most one level of a chain can match. */
  lemma OneLevelMatches(structs: seq<Struct>, r: nat, j: nat, k: nat, offset: nat, width: nat)
    requires StructsValid(structs) && r < |structs|
    requires LevelMatches(structs, r, j, offset, width) && LevelMatches(structs, r, k, offset, width)
    ensures j == k
  {
    hide LevelMatches, StructsValid;
    if j < k { LevelsAboveDoNotMatch(structs, r, j, k, offset, width); }
    if k < j { LevelsAboveDoNotMatch(structs, r, k, j, offset, width); }
  }

  lemma {:induction false} LookupFrom(structs: seq<Struct>, r: nat, offset: nat, width: nat, depth: nat)
    requires r < |structs| && depth <= |structs| + 1
    requires forall k: nat :: k > |structs| ==> Level(structs, r, k).None?
    ensures var found := FieldAtFrom(structs, r, offset, width, depth);
            && (found.None? ==> forall k: nat :: depth <= k ==> !LevelMatches(structs, r, k, offset, width))
            && (found.Some? ==> exists k: nat :: depth <= k && LevelMatches(structs, r, k, offset, width)
                                  && Level(structs, r, k) == Some(found.value.0)
                                  && MatchingField(structs[found.value.0], offset, width, 0) == Some(found.value.1))
    decreases |structs| + 1 - depth
  {
    var level := Level(structs, r, depth);
    if level.None? {
      forall k: nat | depth <= k ensures !LevelMatches(structs, r, k, offset, width) {
        if Level(structs, r, k).Some? { LevelsBelow(structs, r, depth, k); }
      }
    } else if MatchingField(structs[level.value], offset, width, 0).Some? {
      assert LevelMatches(structs, r, depth, offset, width);
    } else {
      LookupFrom(structs, r, offset, width, depth + 1);
    }
  }

  /** In an accepted policy the lookup finds a field exactly when some level of the chain has a
      match, and then the first match of the only such level. */
  lemma LookupExactly(structs: seq<Struct>, r: nat, offset: nat, width: nat)
    requires StructsValid(structs) && r < |structs|
    ensures var found := FieldAtFrom(structs, r, offset, width, 0);
            && (found.Some? <==> exists k: nat :: LevelMatches(structs, r, k, offset, width))
            && forall k: nat :: LevelMatches(structs, r, k, offset, width) ==>
                 && found.Some? && Level(structs, r, k) == Some(found.value.0)
                 && MatchingField(structs[found.value.0], offset, width, 0) == Some(found.value.1)
  {
    hide MatchingField, Level, StructsValid;
    ChainsAreFiniteAndAcyclic(structs, r);
    LookupFrom(structs, r, offset, width, 0);
    forall j: nat, k: nat | LevelMatches(structs, r, j, offset, width) && LevelMatches(structs, r, k, offset, width)
      ensures j == k
    {
      OneLevelMatches(structs, r, j, k, offset, width);
    }
  }
}
