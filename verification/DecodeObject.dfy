/** Decoding a whole object: every even offset of every section with data is requested once, and the
    candidates are then exactly the successes of direct decoding. */
module DecodeObject {
  import opened Wrappers
  import opened Words
  import opened DecodeStore
  import opened DecodeCache
  import opened DecodeSection

  const COUNTER_LIMIT: nat := 0x1_0000_0000

  /** The successes of direct decoding at the first `n` even offsets. */
  function DirectCandidates<T>(source: Source<T>, maxCpu: nat, n: nat): seq<Candidate<T>> {
    if n == 0 then []
    else
      var direct := Direct(source, 2 * (n - 1), maxCpu);
      DirectCandidates(source, maxCpu, n - 1) + if direct.Some? then [direct.value] else []
  }

  /** A section of an object: where it decodes from and whether it has no contents. */
  datatype ObjectSection<!T> = ObjectSection(source: Source<T>, isBss: bool)

  /** The candidates that building leaves in a section. */
  function BuiltCandidates<T>(section: ObjectSection<T>, maxCpu: nat): seq<Candidate<T>> {
    if section.isBss || section.source.data.None? then [] else DirectCandidates(section.source, maxCpu, section.source.size / 2)
  }

  function TotalCandidates<T>(sections: seq<ObjectSection<T>>, maxCpu: nat, count: nat): nat
    requires count <= |sections|
  {
    if count == 0 then 0
    else TotalCandidates(sections, maxCpu, count - 1) + |BuiltCandidates(sections[count - 1], maxCpu)|
  }

  // ---------- what the candidates are ----------

  lemma {:induction false} DirectCandidatesAre<T>(source: Source<T>, maxCpu: nat, n: nat)
    ensures forall i :: 0 <= i < |DirectCandidates(source, maxCpu, n)| ==>
              var candidate := DirectCandidates(source, maxCpu, n)[i];
              && candidate.offset < 2 * n && candidate.offset % 2 == 0
              && Direct(source, candidate.offset, maxCpu) == Some(candidate)
    ensures forall k: nat :: k < n && Direct(source, 2 * k, maxCpu).Some? ==>
              HasOffset(DirectCandidates(source, maxCpu, n), 2 * k)
    ensures Sorted(DirectCandidates(source, maxCpu, n))
  {
    hide DirectDecode;
    if n > 0 {
      DirectCandidatesAre(source, maxCpu, n - 1);
      var prior := DirectCandidates(source, maxCpu, n - 1);
      var all := DirectCandidates(source, maxCpu, n);
      assert Direct(source, 2 * (n - 1), maxCpu).Some? ==> all[|all| - 1].offset == 2 * (n - 1);
      forall k: nat | k < n && Direct(source, 2 * k, maxCpu).Some? ensures HasOffset(all, 2 * k) {
        if k < n - 1 {
          var i :| 0 <= i < |prior| && prior[i].offset == 2 * k;
          assert all[i].offset == 2 * k;
        }
      }
    }
  }

  /** A section's candidates have strictly increasing offsets and are exactly the even offsets of
      its data where decoding directly succeeds, each with what that yields. */
  lemma BuiltExactly<T>(section: ObjectSection<T>, maxCpu: nat)
    requires section.source.Consistent()
    ensures Sorted(BuiltCandidates(section, maxCpu))
    ensures !section.isBss ==> forall offset: nat :: HasOffset(BuiltCandidates(section, maxCpu), offset) <==>
                                 Direct(section.source, offset, maxCpu).Some?
    ensures forall i :: 0 <= i < |BuiltCandidates(section, maxCpu)| ==>
              var candidate := BuiltCandidates(section, maxCpu)[i];
              Direct(section.source, candidate.offset, maxCpu) == Some(candidate)
  {
    var n := section.source.size / 2;
    DirectCandidatesAre(section.source, maxCpu, n);
    if !section.isBss {
      forall offset: nat ensures HasOffset(BuiltCandidates(section, maxCpu), offset) <==>
                                 Direct(section.source, offset, maxCpu).Some?
      {
        if Direct(section.source, offset, maxCpu).Some? {
          assert offset == 2 * (offset / 2) && offset / 2 < n;
        }
      }
    }
  }

  /** A request at an offset behind all stored candidates appends the direct decode. */
  lemma AppendsDirect<T>(source: Source<T>, cache: Cache<T>, n: nat, maxCpu: nat)
    requires Faithful(source, cache) && cache.stored == DirectCandidates(source, maxCpu, n)
    ensures Ensured(source, cache, 2 * n, maxCpu).0.stored == DirectCandidates(source, maxCpu, n + 1)
  {
    hide DirectDecode;
    DirectCandidatesAre(source, maxCpu, n);
    assert !HasOffset(cache.stored, 2 * n);
    RankIs(cache.stored, 2 * n, |cache.stored|);
    AnswersDirectlyExactly(source, cache, 2 * n, maxCpu);
  }

  /** The 32-bit counter after some more candidates. */
  function Counted(counter: nat, added: nat): (counted: nat)
    ensures counted < COUNTER_LIMIT
  {
    (counter + added) % COUNTER_LIMIT
  }

  lemma CountedTwice(counter: nat, first: nat, second: nat)
    ensures Counted(Counted(counter, first), second) == Counted(counter, first + second)
    ensures counter < COUNTER_LIMIT ==> Counted(counter, 0) == counter
  {
    var total := counter + first;
    var again := Counted(counter, first) + second;
    var wraps := total / COUNTER_LIMIT + again / COUNTER_LIMIT;
    assert total + second == COUNTER_LIMIT * wraps + again % COUNTER_LIMIT;
  }

  class DecodeIR<T(0)> {
    var sections: seq<Section<T>>
    var decodedCount: nat

    constructor ()
      ensures sections == [] && decodedCount == 0
    {
      sections := [];
      decodedCount := 0;
    }

    /** The sections and their arrays are different objects. */
    ghost predicate Separate()
      reads this, sections
    {
      forall j, k :: 0 <= j < k < |sections| ==>
        && sections[j] != sections[k]
        && sections[j].candidates != sections[k].candidates
        && (sections[j].absent != null ==> sections[j].absent != sections[k].absent)
    }

    /** One request against one section; -1 for a section that is not there. */
    method EnsureCandidateAt(k: nat, offset: nat, maxCpu: nat) returns (code: int, found: Option<Candidate<T>>)
      requires k < |sections| ==> sections[k].Valid()
      requires offset < OFFSET_LIMIT && decodedCount < COUNTER_LIMIT
      modifies this`decodedCount
      modifies if k < |sections| then {sections[k], sections[k].candidates} else {}
      modifies if k < |sections| && sections[k].absent != null then {sections[k].absent} else {}
      ensures sections == old(sections)
      ensures k >= |sections| ==> code == -1 && found == None && decodedCount == old(decodedCount)
      ensures k < |sections| ==>
                && code == 0 && sections[k].Valid()
                && (sections[k].candidates == old(sections[k].candidates) || fresh(sections[k].candidates))
                && (sections[k].absent == old(sections[k].absent) || fresh(sections[k].absent))
                && (sections[k].State(), found) == Ensured(sections[k].source, old(sections[k].State()), offset, maxCpu)
                && old(sections[k].count) <= sections[k].count
                && decodedCount == Counted(old(decodedCount), sections[k].count - old(sections[k].count))
    {
      hide Ensured, Counted;
      CountedTwice(decodedCount, 0, 0);
      if k >= |sections| { return -1, None; }
      var added;
      found, added := sections[k].EnsureCandidateAt(offset, maxCpu);
      CountOne(decodedCount);
      if added { decodedCount := (decodedCount + 1) % COUNTER_LIMIT; }
      code := 0;
    }
  
    /** The section holds what direct decoding yields before this offset. */
    ghost predicate BuiltUpTo(section: Section<T>, maxCpu: nat, offset: nat)
      reads section, section.candidates, section.absent
    {
      && section.Valid() && offset % 2 == 0
      && Faithful(section.source, section.State())
      && section.State().stored == DirectCandidates(section.source, maxCpu, offset / 2)
    }

    /** One round of the loop over the offsets of a section. */
    method BuildOffset(k: nat, maxCpu: nat, offset: nat)
      requires k < |sections| && BuiltUpTo(sections[k], maxCpu, offset)
      requires offset < OFFSET_LIMIT && decodedCount < COUNTER_LIMIT
      modifies this`decodedCount, sections[k], sections[k].candidates
      modifies if sections[k].absent != null then {sections[k].absent} else {}
      ensures sections == old(sections) && BuiltUpTo(sections[k], maxCpu, offset + 2)
      ensures sections[k].candidates == old(sections[k].candidates) || fresh(sections[k].candidates)
      ensures sections[k].absent == old(sections[k].absent) || fresh(sections[k].absent)
      ensures old(sections[k].count) <= sections[k].count
      ensures decodedCount == Counted(old(decodedCount), sections[k].count - old(sections[k].count))
    {
      hide Ensured, Counted, Direct, Faithful, DirectCandidates;
      ghost var section := sections[k];
      AppendsDirect(section.source, section.State(), offset / 2, maxCpu);
      EnsuredIsFaithful(section.source, section.State(), offset, maxCpu);
      var code, candidate := EnsureCandidateAt(k, offset, maxCpu);
      assert (offset + 2) / 2 == offset / 2 + 1;
    }

    /** Requests every even offset of a fresh section. */
    method BuildSection(k: nat, maxCpu: nat)
      requires k < |sections| && sections[k].Valid() && sections[k].State() == Cache([], None)
      requires sections[k].source.size < OFFSET_LIMIT && decodedCount < COUNTER_LIMIT
      modifies this`decodedCount, sections[k], sections[k].candidates
      ensures sections == old(sections) && sections[k].Valid()
      ensures sections[k].candidates == old(sections[k].candidates) || fresh(sections[k].candidates)
      ensures sections[k].absent == null || fresh(sections[k].absent)
      ensures Faithful(sections[k].source, sections[k].State())
      ensures sections[k].State().stored
              == BuiltCandidates(ObjectSection(sections[k].source, sections[k].isBss), maxCpu)
      ensures decodedCount == Counted(old(decodedCount), sections[k].count)
    {
      hide Counted, DirectCandidates, CandidateTrue, MarkTrue;
      var section := sections[k];
      CountedTwice(decodedCount, 0, 0);
      if section.isBss || section.source.data.None? { return; }
      var offset := 0;
      NoneBefore(section.source, maxCpu);
      while offset + 2 <= section.source.size
        invariant 0 <= offset <= section.source.size
        invariant sections == old(sections) && BuiltUpTo(section, maxCpu, offset)
        invariant section.candidates == old(sections[k].candidates) || fresh(section.candidates)
        invariant section.absent == null || fresh(section.absent)
        invariant decodedCount == Counted(old(decodedCount), section.count)
      {
        ghost var before := section.count;
        BuildOffset(k, maxCpu, offset);
        CountedTwice(old(decodedCount), before, section.count - before);
        offset := offset + 2;
      }
    }

    /** Section `k` decodes from the object's section and nothing has been requested of it. */
    ghost predicate Untouched(section: Section<T>, from: ObjectSection<T>)
      reads section, section.candidates, section.absent
    {
      section.Valid() && section.source == from.source && section.isBss == from.isBss && section.State() == Cache([], None)
    }

    ghost predicate Built(section: Section<T>, from: ObjectSection<T>, maxCpu: nat)
      reads section, section.candidates, section.absent
    {
      && section.Valid() && section.source == from.source && section.isBss == from.isBss
      && Faithful(section.source, section.State())
      && section.State().stored == BuiltCandidates(from, maxCpu)
    }

    method BuildObjectSections(image: seq<ObjectSection<T>>)
      requires forall k :: 0 <= k < |image| ==> image[k].source.Consistent()
      modifies this
      ensures |sections| == |image| && decodedCount == 0 && Separate()
      ensures forall k :: 0 <= k < |sections| ==> fresh(sections[k]) && fresh(sections[k].candidates)
      ensures forall k :: 0 <= k < |sections| ==> sections[k].absent == null && Untouched(sections[k], image[k])
    {
      hide Sorted;
      sections, decodedCount := [], 0;
      for n := 0 to |image|
        invariant |sections| == n && decodedCount == 0 && Separate()
        invariant forall k :: 0 <= k < n ==> fresh(sections[k]) && fresh(sections[k].candidates)
        invariant forall k :: 0 <= k < n ==> sections[k].absent == null && Untouched(sections[k], image[k])
      {
        var section := new Section<T>(image[n].source, image[n].isBss);
        sections := sections + [section];
      }
    }

    method BuildOne(from: ObjectSection<T>, k: nat, maxCpu: nat)
      requires k < |sections| && Untouched(sections[k], from)
      requires from.source.size < OFFSET_LIMIT && decodedCount < COUNTER_LIMIT
      modifies this`decodedCount, sections[k], sections[k].candidates
      ensures sections == old(sections) && Built(sections[k], from, maxCpu)
      ensures sections[k].candidates == old(sections[k].candidates) || fresh(sections[k].candidates)
      ensures sections[k].absent == null || fresh(sections[k].absent)
      ensures decodedCount == Counted(old(decodedCount), |BuiltCandidates(from, maxCpu)|)
    {
      hide Counted, Faithful, BuiltCandidates, Sorted;
      BuildSection(k, maxCpu);
    }

    /** Decodes a whole object: every section holds exactly the direct successes of its data, and the
        counter is the total over the sections. */
    method BuildObject(image: seq<ObjectSection<T>>, maxCpu: nat)
      requires forall k :: 0 <= k < |image| ==> image[k].source.Consistent() && image[k].source.size < OFFSET_LIMIT
      modifies this
      ensures |sections| == |image|
      ensures forall k :: 0 <= k < |sections| ==> Built(sections[k], image[k], maxCpu)
      ensures decodedCount == Counted(0, TotalCandidates(image, maxCpu, |image|))
    {
      hide Counted, BuiltCandidates, Untouched, Built;
      BuildObjectSections(image);
      CountedTwice(0, 0, 0);
      for n := 0 to |image|
        invariant |sections| == |image| && Separate()
        invariant forall k :: 0 <= k < |image| ==> fresh(sections[k]) && fresh(sections[k].candidates)
        invariant forall k :: 0 <= k < |image| && sections[k].absent != null ==> fresh(sections[k].absent)
        invariant forall k :: 0 <= k < n ==> Built(sections[k], image[k], maxCpu)
        invariant forall k :: n <= k < |image| ==> Untouched(sections[k], image[k])
        invariant decodedCount == Counted(0, TotalCandidates(image, maxCpu, n))
      {
        BuildOne(image[n], n, maxCpu);
        CountedTwice(0, TotalCandidates(image, maxCpu, n), |BuiltCandidates(image[n], maxCpu)|);
      }
    }
  }

  lemma NoneBefore<T>(source: Source<T>, maxCpu: nat)
    ensures DirectCandidates(source, maxCpu, 0) == []
  {
  }

  lemma CountOne(counter: nat)
    ensures Counted(counter, 1) == (counter + 1) % COUNTER_LIMIT
  {
  }
}
