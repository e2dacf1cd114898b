/** A section of the decode IR: the growable sorted candidate array, the absence array that is made
    on the first failure, and the request that consults both before it decodes. */
module DecodeSection {
  import opened Wrappers
  import opened Words
  import opened DecodeStore
  import opened DecodeCache

  const FIRST_CAPACITY: nat := 32

  /** Offsets are 32 bits wide, and two bytes are added to them. */
  const OFFSET_LIMIT: nat := 0xFFFF_FFFE

  class Section<T(0)> {
    const source: Source<T>
    const isBss: bool
    var candidates: array<Candidate<T>>
    var count: nat
    var absent: array?<nat>

    ghost predicate Valid()
      reads this, candidates, absent
    {
      && source.Consistent()
      && count <= candidates.Length
      && (absent != null ==> absent.Length == source.size)
      && Sorted(candidates[..count])
    }

    ghost function State(): (cache: Cache<T>)
      requires Valid()
      reads this, candidates, absent
      ensures Sorted(cache.stored)
    {
      Cache(candidates[..count], if absent == null then None else Some(absent[..]))
    }

    constructor (source: Source<T>, isBss: bool)
      requires source.Consistent()
      ensures Valid() && fresh(candidates) && this.source == source && this.isBss == isBss
      ensures absent == null && State() == Cache([], None)
    {
      this.source := source;
      this.isBss := isBss;
      count := 0;
      absent := null;
      candidates := new Candidate<T>[0];
    }

    /** Bisection: the candidate of the offset, or the place where it belongs. */
    method CandidateIndexAt(offset: nat) returns (index: nat, found: bool)
      requires Valid()
      ensures found ==> index < count && candidates[index].offset == offset
      ensures !found ==> !HasOffset(candidates[..count], offset)
      ensures !found ==> index == Rank(candidates[..count], offset)
    {
      ghost var stored := candidates[..count];
      var lo, hi := 0, count;
      while lo < hi
        invariant 0 <= lo <= hi <= count
        invariant forall i :: 0 <= i < lo ==> stored[i].offset < offset
        invariant forall i :: hi <= i < count ==> stored[i].offset > offset
      {
        var mid := lo + (hi - lo) / 2;
        assert stored[mid] == candidates[mid];
        if candidates[mid].offset == offset { return mid, true; }
        if candidates[mid].offset < offset { lo := mid + 1; } else { hi := mid; }
      }
      RankIs(stored, offset, lo);
      return lo, false;
    }

    /** Bisection finds an offset exactly when a candidate of it is stored. */
    method FindCandidateAtOffset(offset: nat) returns (found: Option<Candidate<T>>)
      requires Valid()
      ensures found == Lookup(State().stored, offset)
    {
      var index, present := CandidateIndexAt(offset);
      if !present { return None; }
      assert candidates[..count][index] == candidates[index];
      return Some(candidates[index]);
    }

    /** Doubles the array when it is full, keeping its contents. */
    method Grow()
      requires Valid()
      modifies this`candidates
      ensures Valid() && State() == old(State()) && count < candidates.Length
      ensures candidates == old(candidates) || fresh(candidates)
      ensures if count < old(candidates.Length) then candidates == old(candidates)
              else candidates.Length == if count == 0 then FIRST_CAPACITY else 2 * count
    {
      hide Sorted;
      if count == candidates.Length {
        var grown := new Candidate<T>[if candidates.Length == 0 then FIRST_CAPACITY else candidates.Length * 2];
        var full := candidates;
        forall i | 0 <= i < full.Length { grown[i] := full[i]; }
        candidates := grown;
        assert grown[..count] == full[..count];
        assert full[..count] == old(candidates[..count]);
        assert absent == old(absent) && (absent != null ==> absent[..] == old(absent[..]));
      }
    }

    method InsertCandidateSorted(candidate: Candidate<T>) returns (index: nat)
      requires Valid()
      modifies this, candidates
      ensures Valid() && absent == old(absent)
      ensures candidates == old(candidates) || fresh(candidates)
      ensures State() == if HasOffset(old(State().stored), candidate.offset) then old(State())
                         else old(State()).(stored := Inserted(old(State().stored), candidate))
      ensures index < count && candidates[index].offset == candidate.offset
    {
      hide Rank, Sorted;
      var found;
      index, found := CandidateIndexAt(candidate.offset);
      if found {
        assert candidates[..count][index] == candidates[index];
        return;
      }
      Grow();
      InsertAt(index, candidate);
    }

    method InsertAt(index: nat, candidate: Candidate<T>)
      requires Valid() && count < candidates.Length && !HasOffset(candidates[..count], candidate.offset)
      requires index == Rank(candidates[..count], candidate.offset)
      modifies this`count, candidates
      ensures Valid() && absent == old(absent) && candidates == old(candidates)
      ensures State() == old(State()).(stored := Inserted(old(State().stored), candidate))
      ensures index < count && candidates[index] == candidate
    {
      hide Rank, Sorted;
      ghost var stored := candidates[..count];
      InsertedIsSorted(stored, candidate);
      ShiftUp(index);
      candidates[index] := candidate;
      count := count + 1;
      assert candidates[..count] == candidates[..index] + [candidates[index]] + candidates[index + 1..count];
      assert stored[..index] == candidates[..index] && stored[index..] == candidates[index + 1..count];
    }

    /** Moves the candidates from `index` on up by one place, all at once. */
    method ShiftUp(index: nat)
      requires index <= count < candidates.Length
      modifies candidates
      ensures candidates[..index] == old(candidates[..index])
      ensures candidates[index + 1..count + 1] == old(candidates[index..count])
    {
      var shifted := candidates;
      forall i | index <= i < count { shifted[i + 1] := shifted[i]; }
    }

    method AbsentForCpu(offset: nat, maxCpu: nat) returns (known: bool)
      requires Valid()
      ensures known == KnownAbsent(State(), offset, maxCpu)
    {
      if absent == null || offset >= absent.Length { return false; }
      return absent[offset] >= Ceiling(maxCpu) + 1;
    }

    method RememberAbsent(offset: nat, maxCpu: nat)
      requires Valid()
      modifies this`absent, absent
      ensures Valid() && State() == Remembered(old(State()), source.size, offset, maxCpu)
      ensures absent == old(absent) || fresh(absent)
    {
      if offset >= source.size { return; }
      if absent == null {
        absent := new nat[source.size](_ => 0);
        assert absent[..] == seq(source.size, _ => 0);
      }
      if absent[offset] < Ceiling(maxCpu) + 1 { absent[offset] := Ceiling(maxCpu) + 1; }
    }

    method DecodeCandidateAt(offset: nat, maxCpu: nat) returns (decoded: Option<Candidate<T>>)
      requires Valid() && offset < OFFSET_LIMIT
      ensures decoded == Direct(source, offset, maxCpu)
    {
      if source.data.None? || offset % 2 != 0 || offset + 2 > source.size { return None; }
      var first := DisassembleForCpuCeiling(source.disassemble, source.data.value[offset..], maxCpu);
      if first.None? || first.value.decoding.byteCount > BYTE_COUNT_LIMIT
         || first.value.decoding.byteCount > source.size - offset { return None; }
      return Some(first.value.(offset := offset));
    }

    /** One request; the flag says whether a candidate was decoded and stored. */
    method EnsureCandidateAt(offset: nat, maxCpu: nat) returns (found: Option<Candidate<T>>, added: bool)
      requires Valid() && offset < OFFSET_LIMIT
      modifies this, candidates, absent
      ensures Valid()
      ensures candidates == old(candidates) || fresh(candidates)
      ensures absent == old(absent) || fresh(absent)
      ensures (State(), found) == Ensured(source, old(State()), offset, maxCpu)
      ensures count == old(count) + if added then 1 else 0
    {
      added := false;
      found := FindCandidateAtOffset(offset);
      if found.Some? { return; }
      var known := AbsentForCpu(offset, maxCpu);
      if known { return; }
      found := DecodeCandidateAt(offset, maxCpu);
      if found.None? {
        RememberAbsent(offset, maxCpu);
        return;
      }
      var index := InsertCandidateSorted(found.value);
      added := true;
    }
  }
}
