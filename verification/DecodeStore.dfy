/** The lazily decoded candidates of one section as a value: a sorted list of candidates and, for
    every offset, the ceiling below which decoding is known to fail. */
module DecodeStore {
  import opened Wrappers
  import opened Words

  const LAST_CPU: nat := 5

  function Ceiling(maxCpu: nat): (ceiling: nat)
    ensures ceiling <= LAST_CPU
  {
    if maxCpu <= LAST_CPU then maxCpu else LAST_CPU
  }

  /** The result of one disassembly; a byte count of 0 is a failure. */
  datatype Decoding<T> = Decoding(byteCount: nat, detail: T)

  datatype Candidate<T> = Candidate(offset: nat, cpu: nat, decoding: Decoding<T>)

  /** A disassembler: the bytes from the offset on and a processor make a decoding. */
  type Disassembler<!T> = (seq<Byte>, nat) -> Decoding<T>

  // ---------- decoding directly ----------

  /** The first success from processor `cpu` up to the ceiling. */
  function FirstSuccess<T>(disassemble: Disassembler<T>, bytes: seq<Byte>, cpu: nat, ceiling: nat): (first: Option<Candidate<T>>)
    ensures first.Some? ==> cpu <= first.value.cpu <= ceiling && first.value.decoding.byteCount != 0
                            && first.value.decoding == disassemble(bytes, first.value.cpu)
                            && forall c :: cpu <= c < first.value.cpu ==> disassemble(bytes, c).byteCount == 0
    ensures first.None? ==> forall c :: cpu <= c <= ceiling ==> disassemble(bytes, c).byteCount == 0
    decreases ceiling + 1 - cpu
  {
    if cpu > ceiling then None
    else if disassemble(bytes, cpu).byteCount != 0 then Some(Candidate(0, cpu, disassemble(bytes, cpu)))
    else FirstSuccess(disassemble, bytes, cpu + 1, ceiling)
  }

  method DisassembleForCpuCeiling<T>(disassemble: Disassembler<T>, bytes: seq<Byte>, maxCpu: nat)
    returns (first: Option<Candidate<T>>)
    ensures first == FirstSuccess(disassemble, bytes, 0, Ceiling(maxCpu))
  {
    var cpu := 0;
    while cpu <= Ceiling(maxCpu)
      invariant 0 <= cpu <= Ceiling(maxCpu) + 1
      invariant FirstSuccess(disassemble, bytes, 0, Ceiling(maxCpu)) == FirstSuccess(disassemble, bytes, cpu, Ceiling(maxCpu))
    {
      var decoded := disassemble(bytes, cpu);
      if decoded.byteCount != 0 { return Some(Candidate(0, cpu, decoded)); }
      cpu := cpu + 1;
    }
    return None;
  }

  const BYTE_COUNT_LIMIT: nat := 255

  /** What decoding the bytes of a section at an offset yields; no data, no candidate. */
  function DirectDecode<T>(disassemble: Disassembler<T>, data: Option<seq<Byte>>, offset: nat, maxCpu: nat)
    : (direct: Option<Candidate<T>>)
    ensures direct.Some? ==> direct.value.offset == offset && direct.value.cpu <= Ceiling(maxCpu)
  {
    if data.None? || offset % 2 != 0 || offset + 2 > |data.value| then None
    else
      var first := FirstSuccess(disassemble, data.value[offset..], 0, Ceiling(maxCpu));
      if first.None? || first.value.decoding.byteCount > BYTE_COUNT_LIMIT
         || first.value.decoding.byteCount > |data.value| - offset then None
      else Some(first.value.(offset := offset))
  }

  /** The processors below the first success make no difference. */
  lemma {:induction false} SkipFailures<T>(disassemble: Disassembler<T>, bytes: seq<Byte>, cpu: nat, first: nat, ceiling: nat)
    requires cpu <= first <= ceiling && disassemble(bytes, first).byteCount != 0
    requires forall c :: cpu <= c < first ==> disassemble(bytes, c).byteCount == 0
    ensures FirstSuccess(disassemble, bytes, cpu, ceiling) == Some(Candidate(0, first, disassemble(bytes, first)))
    decreases first - cpu
  {
    if cpu < first { SkipFailures(disassemble, bytes, cpu + 1, first, ceiling); }
  }

  /** A candidate stays the same at every ceiling from its processor on, and is there at none below. */
  lemma CeilingsAgree<T>(disassemble: Disassembler<T>, data: Option<seq<Byte>>, offset: nat, maxCpu: nat, other: nat)
    requires DirectDecode(disassemble, data, offset, maxCpu).Some?
    ensures DirectDecode(disassemble, data, offset, other)
            == if Ceiling(other) >= DirectDecode(disassemble, data, offset, maxCpu).value.cpu
               then DirectDecode(disassemble, data, offset, maxCpu) else None
  {
    var direct := DirectDecode(disassemble, data, offset, maxCpu).value;
    if Ceiling(other) >= direct.cpu {
      SkipFailures(disassemble, data.value[offset..], 0, direct.cpu, Ceiling(other));
    }
  }

  /** Failing at a ceiling means failing at every lower one. */
  lemma FailureIsDownwardClosed<T>(disassemble: Disassembler<T>, data: Option<seq<Byte>>, offset: nat, maxCpu: nat, other: nat)
    requires DirectDecode(disassemble, data, offset, maxCpu).None? && Ceiling(other) <= Ceiling(maxCpu)
    ensures DirectDecode(disassemble, data, offset, other).None?
  {
    if DirectDecode(disassemble, data, offset, other).Some? {
      CeilingsAgree(disassemble, data, offset, other, maxCpu);
    }
  }

  // ---------- the sorted list ----------

  predicate Sorted<T>(stored: seq<Candidate<T>>) {
    forall i, j :: 0 <= i < j < |stored| ==> stored[i].offset < stored[j].offset
  }

  predicate HasOffset<T>(stored: seq<Candidate<T>>, offset: nat) {
    exists i :: 0 <= i < |stored| && stored[i].offset == offset
  }

  /** The candidate stored for an offset. */
  ghost function Lookup<T>(stored: seq<Candidate<T>>, offset: nat): (found: Option<Candidate<T>>)
    ensures found.Some? ==> found.value in stored && found.value.offset == offset
    ensures found.None? ==> !HasOffset(stored, offset)
  {
    if HasOffset(stored, offset) then
      var i :| 0 <= i < |stored| && stored[i].offset == offset;
      Some(stored[i])
    else None
  }

  /** The number of candidates before an offset: where a new one belongs. */
  function Rank<T>(stored: seq<Candidate<T>>, offset: nat): (rank: nat)
    ensures rank <= |stored|
  {
    if stored == [] || stored[0].offset >= offset then 0 else 1 + Rank(stored[1..], offset)
  }

  lemma {:induction false} RankSplits<T>(stored: seq<Candidate<T>>, offset: nat)
    requires Sorted(stored)
    ensures forall i :: 0 <= i < Rank(stored, offset) ==> stored[i].offset < offset
    ensures forall i :: Rank(stored, offset) <= i < |stored| ==> stored[i].offset >= offset
  {
    if stored != [] && stored[0].offset < offset {
      RankSplits(stored[1..], offset);
      forall i | Rank(stored, offset) <= i < |stored| ensures stored[i].offset >= offset {
        assert stored[i] == stored[1..][i - 1];
      }
      forall i | 0 < i < Rank(stored, offset) ensures stored[i].offset < offset {
        assert stored[i] == stored[1..][i - 1];
      }
    }
  }

  /** Any index that splits the list at the offset is the rank. */
  lemma {:induction false} RankIs<T>(stored: seq<Candidate<T>>, offset: nat, index: nat)
    requires index <= |stored|
    requires forall i :: 0 <= i < index ==> stored[i].offset < offset
    requires forall i :: index <= i < |stored| ==> stored[i].offset >= offset
    ensures Rank(stored, offset) == index
  {
    if stored != [] && stored[0].offset < offset {
      var rest := stored[1..];
      assert forall i :: 0 <= i < |rest| ==> rest[i] == stored[i + 1];
      RankIs(rest, offset, index - 1);
    }
  }

  function Inserted<T>(stored: seq<Candidate<T>>, candidate: Candidate<T>): (inserted: seq<Candidate<T>>)
    ensures |inserted| == |stored| + 1
  {
    var rank := Rank(stored, candidate.offset);
    stored[..rank] + [candidate] + stored[rank..]
  }

  lemma InsertedIsSorted<T>(stored: seq<Candidate<T>>, candidate: Candidate<T>)
    requires Sorted(stored) && !HasOffset(stored, candidate.offset)
    ensures Sorted(Inserted(stored, candidate))
  {
    RankSplits(stored, candidate.offset);
    var rank := Rank(stored, candidate.offset);
    var inserted := Inserted(stored, candidate);
    forall i, j | 0 <= i < j < |inserted| ensures inserted[i].offset < inserted[j].offset {
      assert forall k :: rank <= k < |stored| ==> stored[k].offset != candidate.offset;
    }
  }

  lemma InsertedMembers<T>(stored: seq<Candidate<T>>, candidate: Candidate<T>)
    ensures forall c :: c in Inserted(stored, candidate) <==> c == candidate || c in stored
  {
    var rank := Rank(stored, candidate.offset);
    assert stored == stored[..rank] + stored[rank..];
  }
}
