/** The lazy decode cache of a section: what every request keeps, and when it answers like a direct
    decode. */
module DecodeCache {
  import opened Wrappers
  import opened Words
  import opened DecodeStore

  /** The absence marks exist once a failure has been remembered, one for every byte. */
  datatype Cache<T> = Cache(stored: seq<Candidate<T>>, absent: Option<seq<nat>>)

  /** What a section decodes from. The size is that of the data when there is data. */
  datatype Source<!T> = Source(disassemble: Disassembler<T>, data: Option<seq<Byte>>, size: nat) {
    predicate Consistent() { data.Some? ==> |data.value| == size }
  }

  function Direct<T>(source: Source<T>, offset: nat, maxCpu: nat): Option<Candidate<T>> {
    DirectDecode(source.disassemble, source.data, offset, maxCpu)
  }

  predicate KnownAbsent<T>(cache: Cache<T>, offset: nat, maxCpu: nat) {
    cache.absent.Some? && offset < |cache.absent.value| && cache.absent.value[offset] >= Ceiling(maxCpu) + 1
  }

  function Remembered<T>(cache: Cache<T>, size: nat, offset: nat, maxCpu: nat): Cache<T> {
    if offset >= size then cache
    else
      var marks := if cache.absent.None? then seq(size, _ => 0) else cache.absent.value;
      if offset < |marks| && marks[offset] < Ceiling(maxCpu) + 1
      then cache.(absent := Some(marks[offset := Ceiling(maxCpu) + 1])) else cache.(absent := Some(marks))
  }

  /** One request: the new cache and the candidate that is returned. */
  ghost function Ensured<T>(source: Source<T>, cache: Cache<T>, offset: nat, maxCpu: nat): (Cache<T>, Option<Candidate<T>>) {
    var existing := Lookup(cache.stored, offset);
    if existing.Some? then (cache, existing)
    else if KnownAbsent(cache, offset, maxCpu) then (cache, None)
    else
      var direct := Direct(source, offset, maxCpu);
      if direct.None? then (Remembered(cache, source.size, offset, maxCpu), None)
      else (cache.(stored := Inserted(cache.stored, direct.value)), direct)
  }

  // ---------- what the cache knows is true ----------

  /** A stored candidate is the direct decode at every ceiling from its processor on. */
  ghost predicate CandidateTrue<T>(source: Source<T>, candidate: Candidate<T>) {
    forall maxCpu: nat :: Ceiling(maxCpu) >= candidate.cpu ==> Direct(source, candidate.offset, maxCpu) == Some(candidate)
  }

  /** A mark means that decoding fails at every ceiling below it. */
  ghost predicate MarkTrue<T>(source: Source<T>, offset: nat, mark: nat) {
    forall maxCpu: nat :: Ceiling(maxCpu) < mark ==> Direct(source, offset, maxCpu).None?
  }

  ghost predicate Faithful<T>(source: Source<T>, cache: Cache<T>) {
    && Sorted(cache.stored)
    && (forall i :: 0 <= i < |cache.stored| ==>
          cache.stored[i].cpu <= LAST_CPU && CandidateTrue(source, cache.stored[i]))
    && (cache.absent.Some? ==>
          && |cache.absent.value| == source.size
          && forall offset :: 0 <= offset < source.size ==> MarkTrue(source, offset, cache.absent.value[offset]))
  }

  lemma DirectIsTrue<T>(source: Source<T>, offset: nat, maxCpu: nat)
    requires Direct(source, offset, maxCpu).Some?
    ensures CandidateTrue(source, Direct(source, offset, maxCpu).value)
  {
    forall other: nat | Ceiling(other) >= Direct(source, offset, maxCpu).value.cpu
      ensures Direct(source, offset, other) == Direct(source, offset, maxCpu)
    {
      CeilingsAgree(source.disassemble, source.data, offset, maxCpu, other);
    }
  }

  lemma FailureMarks<T>(source: Source<T>, offset: nat, maxCpu: nat)
    requires Direct(source, offset, maxCpu).None?
    ensures MarkTrue(source, offset, Ceiling(maxCpu) + 1)
  {
    forall other: nat | Ceiling(other) < Ceiling(maxCpu) + 1 ensures Direct(source, offset, other).None? {
      FailureIsDownwardClosed(source.disassemble, source.data, offset, maxCpu, other);
    }
  }

  /** A request keeps the cache faithful. */
  lemma EnsuredIsFaithful<T>(source: Source<T>, cache: Cache<T>, offset: nat, maxCpu: nat)
    requires Faithful(source, cache)
    ensures Faithful(source, Ensured(source, cache, offset, maxCpu).0)
  {
    hide CandidateTrue, MarkTrue, DirectDecode;
    var existing := Lookup(cache.stored, offset);
    if existing.None? && !KnownAbsent(cache, offset, maxCpu) {
      var direct := Direct(source, offset, maxCpu);
      if direct.Some? {
        DirectIsTrue(source, offset, maxCpu);
        InsertedIsSorted(cache.stored, direct.value);
        InsertedMembers(cache.stored, direct.value);
        var stored := Inserted(cache.stored, direct.value);
        forall i | 0 <= i < |stored| ensures stored[i].cpu <= LAST_CPU && CandidateTrue(source, stored[i]) {
          assert stored[i] in stored;
        }
      } else {
        FailureMarks(source, offset, maxCpu);
        forall other: nat ensures MarkTrue(source, other, 0) { NoMark(source, other); }
      }
    }
  }

  lemma NoMark<T>(source: Source<T>, offset: nat)
    ensures MarkTrue(source, offset, 0)
  {
  }

  /** A request answers like a direct decode exactly when the candidate it finds stored, if it finds
      one, needs no processor above the ceiling. */
  lemma AnswersDirectlyExactly<T>(source: Source<T>, cache: Cache<T>, offset: nat, maxCpu: nat)
    requires Faithful(source, cache)
    ensures Ensured(source, cache, offset, maxCpu).1 == Direct(source, offset, maxCpu)
            <==> !exists i :: 0 <= i < |cache.stored| && cache.stored[i].offset == offset
                              && cache.stored[i].cpu > Ceiling(maxCpu)
  {
    var existing := Lookup(cache.stored, offset);
    if existing.Some? {
      var k :| 0 <= k < |cache.stored| && cache.stored[k] == existing.value;
      assert CandidateTrue(source, cache.stored[k]);
      assert forall i :: 0 <= i < |cache.stored| && cache.stored[i].offset == offset ==> i == k;
    } else if KnownAbsent(cache, offset, maxCpu) {
      assert offset < source.size && MarkTrue(source, offset, cache.absent.value[offset]);
    }
  }

  // ---------- runs ----------

  datatype Request = Request(offset: nat, maxCpu: nat)

  ghost function RunOf<T>(source: Source<T>, cache: Cache<T>, requests: seq<Request>): (Cache<T>, seq<Option<Candidate<T>>>)
    decreases |requests|
  {
    if requests == [] then (cache, [])
    else
      var first := Ensured(source, cache, requests[0].offset, requests[0].maxCpu);
      var rest := RunOf(source, first.0, requests[1..]);
      (rest.0, [first.1] + rest.1)
  }

  /** After any requests with any ceilings every stored candidate and every mark is true. */
  lemma {:induction false} RunIsFaithful<T>(source: Source<T>, cache: Cache<T>, requests: seq<Request>)
    requires Faithful(source, cache)
    ensures Faithful(source, RunOf(source, cache, requests).0)
    decreases |requests|
  {
    hide Faithful, Ensured;
    if requests != [] {
      EnsuredIsFaithful(source, cache, requests[0].offset, requests[0].maxCpu);
      RunIsFaithful(source, Ensured(source, cache, requests[0].offset, requests[0].maxCpu).0, requests[1..]);
    }
  }

  predicate NonDecreasing(requests: seq<Request>) {
    forall i, j :: 0 <= i < j < |requests| ==> Ceiling(requests[i].maxCpu) <= Ceiling(requests[j].maxCpu)
  }

  /** No stored candidate needs a processor above the ceiling. */
  predicate Within<T>(cache: Cache<T>, ceiling: nat) {
    forall i :: 0 <= i < |cache.stored| ==> cache.stored[i].cpu <= ceiling
  }

  lemma EnsuredStaysWithin<T>(source: Source<T>, cache: Cache<T>, offset: nat, maxCpu: nat)
    requires Within(cache, Ceiling(maxCpu))
    ensures Within(Ensured(source, cache, offset, maxCpu).0, Ceiling(maxCpu))
  {
    var direct := Direct(source, offset, maxCpu);
    if direct.Some? {
      InsertedMembers(cache.stored, direct.value);
      var stored := Inserted(cache.stored, direct.value);
      forall i | 0 <= i < |stored| ensures stored[i].cpu <= Ceiling(maxCpu) { assert stored[i] in stored; }
    }
  }

  /** With ceilings that never fall, every request answers like a direct decode. */
  lemma {:induction false} MonotoneRunAnswersDirectly<T>(source: Source<T>, cache: Cache<T>, requests: seq<Request>)
    requires Faithful(source, cache) && NonDecreasing(requests)
    requires requests != [] ==> Within(cache, Ceiling(requests[0].maxCpu))
    ensures var answers := RunOf(source, cache, requests).1;
            && |answers| == |requests|
            && forall i :: 0 <= i < |requests| ==>
                 answers[i] == Direct(source, requests[i].offset, requests[i].maxCpu)
    decreases |requests|
  {
    hide Faithful, Ensured, Direct;
    if requests != [] {
      var offset, maxCpu := requests[0].offset, requests[0].maxCpu;
      var next := Ensured(source, cache, offset, maxCpu).0;
      AnswersDirectlyExactly(source, cache, offset, maxCpu);
      EnsuredIsFaithful(source, cache, offset, maxCpu);
      EnsuredStaysWithin(source, cache, offset, maxCpu);
      MonotoneRunAnswersDirectly(source, next, requests[1..]);
      forall i | 0 < i < |requests|
        ensures RunOf(source, cache, requests).1[i] == Direct(source, requests[i].offset, requests[i].maxCpu)
      {
        assert requests[i] == requests[1..][i - 1];
      }
    }
  }

  // ---------- a request below a stored processor ----------

  /** Takes any bytes for an instruction that needs processor 2. */
  const NEEDS_PROCESSOR_2: Source<nat> := Source((bytes, cpu) => Decoding(if cpu >= 2 then 2 else 0, 0), Some([0, 0]), 2)

  /** Asked for processor 5 and then for processor 0, the cache answers both times with the candidate for
      processor 2, which a direct decode for processor 0 does not have. */
  lemma LowerRequestIsAnswered()
    ensures var answer := Some(Candidate(0, 2, Decoding(2, 0)));
            && Faithful(NEEDS_PROCESSOR_2, Cache([], None))
            && RunOf(NEEDS_PROCESSOR_2, Cache([], None), [Request(0, 5), Request(0, 0)]).1 == [answer, answer]
            && Direct(NEEDS_PROCESSOR_2, 0, 0) == None
  {
    var source := NEEDS_PROCESSOR_2;
    var candidate := Candidate(0, 2, Decoding(2, 0));
    assert FirstSuccess(source.disassemble, source.data.value[0..], 2, 5) == Some(candidate);
    assert FirstSuccess(source.disassemble, source.data.value[0..], 0, 5) == Some(candidate);
    assert Direct(source, 0, 5) == Some(candidate);
    assert Inserted([], candidate) == [candidate];
    assert Ensured(source, Cache([], None), 0, 5) == (Cache([candidate], None), Some(candidate));
    assert HasOffset([candidate], 0) by { assert [candidate][0].offset == 0; }
    assert Ensured(source, Cache([candidate], None), 0, 0) == (Cache([candidate], None), Some(candidate));
    var requests := [Request(0, 5), Request(0, 0)];
    assert requests[1..] == [Request(0, 0)] && requests[1..][1..] == [];
  }
}
