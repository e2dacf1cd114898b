/** The range of table offsets that a pointer read inside a counted loop may come from. */
module PointerLoop {
  import opened Wrappers

  const OFFSET_MAX: nat := 0xFFFF_FFFF
  const ITERATION_LIMIT: nat := 65536
  const POINTER_WIDTH: nat := 4
  const PROVED: nat := 1
  const READ: nat := 1

  /** State 0 is a scalar, 1 a proved loop, anything else a conflict. */
  datatype Loop = Loop(headerOffset: nat, tailOffset: nat, count: nat, stride: int, accessWidth: nat,
                       state: nat, counterRegister: nat, accessKind: nat)

  datatype Evidence = Evidence(consumerSection: nat, consumerOffset: nat, operand: nat,
                               originSection: nat, originOffset: nat, targetSection: nat, targetOffset: nat,
                               addend: int, domain: Loop)

  datatype Section = Section(index: nat, size: nat, evidence: seq<Evidence>)

  datatype AddressValue = AddressValue(hasTable: bool, fromStaticData: bool, pointerWidth: nat,
                                       section: nat, offset: nat, operand: nat, tableSection: nat, tableStart: nat)

  /** Offsets from the start of the table, both ends included. */
  datatype Envelope = Envelope(min: int, max: int)

  // ---------- what the evidence says ----------

  /** Where the loop of `e` stands in the table after `k` iterations. */
  function Cursor(e: Evidence, value: AddressValue, k: nat): int {
    e.targetOffset - value.tableStart + e.domain.stride * k
  }

  /** The envelope is the tightest one around every cursor of the loop, all of them on pointer boundaries. */
  ghost predicate Encloses(e: Evidence, value: AddressValue, envelope: Envelope) {
    && (forall k: nat :: k < e.domain.count ==>
          Cursor(e, value, k) % POINTER_WIDTH == 0 && envelope.min <= Cursor(e, value, k) <= envelope.max)
    && (exists k: nat :: k < e.domain.count && Cursor(e, value, k) == envelope.min)
    && (exists k: nat :: k < e.domain.count && Cursor(e, value, k) == envelope.max)
  }

  /** A loop that reads whole pointers of the value's table, inside the section. */
  predicate ReadsTable(e: Evidence, section: Section, value: AddressValue) {
    && e.domain.state == PROVED && 0 < e.domain.count <= ITERATION_LIMIT && e.domain.counterRegister < 8
    && e.domain.headerOffset < e.domain.tailOffset < section.size && e.consumerOffset < section.size
    && e.domain.accessWidth == POINTER_WIDTH && e.domain.accessKind == READ
    && e.domain.stride % POINTER_WIDTH == 0
    && e.originSection == e.targetSection == value.tableSection
    && e.originOffset + e.addend == e.targetOffset
  }

  ghost predicate Proves(e: Evidence, section: Section, value: AddressValue, envelope: Envelope) {
    && ReadsTable(e, section, value)
    && 0 <= envelope.min && envelope.max <= OFFSET_MAX
    && Encloses(e, value, envelope)
  }

  /** The evidence is about the instruction operand that produced the value, and about a loop. */
  predicate Concerns(e: Evidence, value: AddressValue) {
    && e.consumerSection == value.section && e.consumerOffset == value.offset && e.operand == value.operand
    && e.domain.state != 0
  }

  predicate Relevant(analysis: seq<Section>, value: AddressValue, s: nat, i: nat) {
    && s < |analysis| && analysis[s].index == value.section
    && i < |analysis[s].evidence| && Concerns(analysis[s].evidence[i], value)
  }

  predicate Eligible(value: AddressValue) {
    value.hasTable && value.fromStaticData && value.pointerWidth == POINTER_WIDTH
  }

  /** There is evidence, and all of it proves the same envelope. */
  ghost predicate IsDomain(analysis: seq<Section>, value: AddressValue, envelope: Envelope) {
    && Eligible(value)
    && (exists s: nat, i: nat :: Relevant(analysis, value, s, i))
    && (forall s: nat, i: nat :: Relevant(analysis, value, s, i) ==>
          Proves(analysis[s].evidence[i], analysis[s], value, envelope))
  }

  lemma DomainIsUnique(analysis: seq<Section>, value: AddressValue, a: Envelope, b: Envelope)
    requires IsDomain(analysis, value, a) && IsDomain(analysis, value, b)
    ensures a == b
  {
    var s: nat, i: nat :| Relevant(analysis, value, s, i);
    EnclosesOnly(analysis[s].evidence[i], value, a);
    EnclosesOnly(analysis[s].evidence[i], value, b);
  }

  // ---------- the two ends ----------

  function Ends(e: Evidence, value: AddressValue): Envelope
    requires e.domain.count > 0
  {
    var first := e.targetOffset - value.tableStart;
    var last := first + e.domain.stride * (e.domain.count - 1);
    Envelope(if first < last then first else last, if first > last then first else last)
  }

  lemma StepsBetween(stride: int, k: nat, n: nat)
    requires k <= n
    ensures stride >= 0 ==> 0 <= stride * k <= stride * n
    ensures stride <= 0 ==> stride * n <= stride * k <= 0
  {
    var rest: nat := n - k;
    assert stride * n == stride * k + stride * rest;
  }

  lemma StepsAligned(first: int, stride: int, k: nat)
    requires first % 4 == 0 && stride % 4 == 0
    ensures (first + stride * k) % 4 == 0
  {
    var p, q := first / 4, stride / 4;
    assert first + stride * k == 4 * (p + q * k) by {
      assert stride * k == 4 * q * k == 4 * (q * k);
    }
  }

  /** No iteration leaves the range between the first and the last one. */
  lemma CursorBetweenEnds(e: Evidence, value: AddressValue, k: nat)
    requires k < e.domain.count
    ensures Ends(e, value).min <= Cursor(e, value, k) <= Ends(e, value).max
    ensures e.domain.stride % 4 == 0 && Ends(e, value).min % 4 == 0 && Ends(e, value).max % 4 == 0 ==>
              Cursor(e, value, k) % 4 == 0
  {
    var first := e.targetOffset - value.tableStart;
    StepsBetween(e.domain.stride, k, e.domain.count - 1);
    if e.domain.stride % 4 == 0 && first % 4 == 0 {
      StepsAligned(first, e.domain.stride, k);
    }
  }

  /** The two ends are the only envelope there can be. */
  lemma EnclosesOnly(e: Evidence, value: AddressValue, envelope: Envelope)
    requires e.domain.count > 0 && Encloses(e, value, envelope)
    ensures envelope == Ends(e, value)
    ensures envelope.min % 4 == 0 && envelope.max % 4 == 0
  {
    var low: nat :| low < e.domain.count && Cursor(e, value, low) == envelope.min;
    var high: nat :| high < e.domain.count && Cursor(e, value, high) == envelope.max;
    CursorBetweenEnds(e, value, low);
    CursorBetweenEnds(e, value, high);
    assert envelope.min <= Cursor(e, value, 0) <= envelope.max;
    assert envelope.min <= Cursor(e, value, e.domain.count - 1) <= envelope.max;
  }

  lemma EndsEnclose(e: Evidence, value: AddressValue)
    requires e.domain.count > 0 && e.domain.stride % 4 == 0
    requires Ends(e, value).min % 4 == 0 && Ends(e, value).max % 4 == 0
    ensures Encloses(e, value, Ends(e, value))
  {
    forall k: nat | k < e.domain.count
      ensures Cursor(e, value, k) % 4 == 0 && Ends(e, value).min <= Cursor(e, value, k) <= Ends(e, value).max
    {
      CursorBetweenEnds(e, value, k);
    }
    assert Cursor(e, value, 0) == e.targetOffset - value.tableStart;
    var last: nat := e.domain.count - 1;
    assert Cursor(e, value, last) == e.targetOffset - value.tableStart + e.domain.stride * last;
  }

  predicate InRange(envelope: Envelope) {
    0 <= envelope.min && envelope.max <= OFFSET_MAX && envelope.min % 4 == 0 && envelope.max % 4 == 0
  }

  /** Checking the two ends decides what holds of every iteration. */
  lemma EndsDecide(e: Evidence, section: Section, value: AddressValue, envelope: Envelope)
    ensures Proves(e, section, value, envelope) <==>
            ReadsTable(e, section, value) && InRange(Ends(e, value)) && envelope == Ends(e, value)
  {
    if ReadsTable(e, section, value) {
      if Encloses(e, value, envelope) {
        EnclosesOnly(e, value, envelope);
      }
      if InRange(Ends(e, value)) {
        EndsEnclose(e, value);
      }
    }
  }

  // ---------- the search ----------

  predicate Before(s: nat, i: nat, section: nat, index: nat) {
    s < section || (s == section && i < index)
  }

  /** What the evidence seen so far amounts to. */
  ghost predicate Agreed(analysis: seq<Section>, value: AddressValue, found: Option<Envelope>, section: nat, index: nat) {
    && (found.None? ==> forall s: nat, i: nat :: Before(s, i, section, index) ==> !Relevant(analysis, value, s, i))
    && (found.Some? ==>
          && (exists s: nat, i: nat :: Relevant(analysis, value, s, i) && Before(s, i, section, index))
          && (forall s: nat, i: nat :: Relevant(analysis, value, s, i) && Before(s, i, section, index) ==>
                Proves(analysis[s].evidence[i], analysis[s], value, found.value)))
  }

  /** Once a piece of evidence fails, or proves something else than an earlier one, there is no domain. */
  lemma NoDomain(analysis: seq<Section>, value: AddressValue, found: Option<Envelope>, section: nat, index: nat)
    requires Agreed(analysis, value, found, section, index) && Relevant(analysis, value, section, index)
    requires var e := analysis[section].evidence[index];
             !ReadsTable(e, analysis[section], value) || !InRange(Ends(e, value))
             || (found.Some? && found.value != Ends(e, value))
    ensures forall envelope :: !IsDomain(analysis, value, envelope)
  {
    var e := analysis[section].evidence[index];
    forall envelope ensures !IsDomain(analysis, value, envelope) {
      EndsDecide(e, analysis[section], value, envelope);
      if IsDomain(analysis, value, envelope) && found.Some? {
        var s: nat, i: nat :| Relevant(analysis, value, s, i) && Before(s, i, section, index);
        EndsDecide(analysis[s].evidence[i], analysis[s], value, envelope);
        EndsDecide(analysis[s].evidence[i], analysis[s], value, found.value);
      }
    }
  }

  /** The envelope that all the evidence for the value proves, when there is one. */
  method PointerLoopDomain(analysis: seq<Section>, value: AddressValue) returns (domain: Option<Envelope>)
    ensures domain.Some? ==> IsDomain(analysis, value, domain.value)
    ensures domain.None? ==> forall envelope :: !IsDomain(analysis, value, envelope)
  {
    domain := None;
    if !value.hasTable || !value.fromStaticData || value.pointerWidth != POINTER_WIDTH {
      return;
    }
    for s := 0 to |analysis|
      invariant Agreed(analysis, value, domain, s, 0)
    {
      var section := analysis[s];
      if section.index != value.section {
        SectionPassed(analysis, value, domain, s, 0);
        continue;
      }
      for i := 0 to |section.evidence|
        invariant Agreed(analysis, value, domain, s, i)
      {
        var e := section.evidence[i];
        if !Concerns(e, value) {
          EvidencePassed(analysis, value, domain, domain, s, i);
          continue;
        }
        if !ReadsTable(e, section, value) {
          NoDomain(analysis, value, domain, s, i);
          return None;
        }
        var first := e.targetOffset - value.tableStart;
        var last := first + e.domain.stride * (e.domain.count - 1);
        var low := if first < last then first else last;
        var high := if first > last then first else last;
        if low < 0 || high > OFFSET_MAX || low % 4 != 0 || high % 4 != 0 {
          NoDomain(analysis, value, domain, s, i);
          return None;
        }
        if domain.Some? && (domain.value.min != low || domain.value.max != high) {
          NoDomain(analysis, value, domain, s, i);
          return None;
        }
        EndsDecide(e, section, value, Envelope(low, high));
        EvidencePassed(analysis, value, domain, Some(Envelope(low, high)), s, i);
        domain := Some(Envelope(low, high));
      }
      SectionPassed(analysis, value, domain, s, |section.evidence|);
    }
  }

  lemma EvidencePassed(analysis: seq<Section>, value: AddressValue, found: Option<Envelope>, next: Option<Envelope>,
                       s: nat, i: nat)
    requires Agreed(analysis, value, found, s, i)
    requires found.Some? ==> next == found
    requires next != found ==> Relevant(analysis, value, s, i)
    requires Relevant(analysis, value, s, i) ==>
               next.Some? && Proves(analysis[s].evidence[i], analysis[s], value, next.value)
    ensures Agreed(analysis, value, next, s, i + 1)
  {
    forall s': nat, i': nat | Before(s', i', s, i + 1)
      ensures Before(s', i', s, i) || (s' == s && i' == i)
    {}
    if next.Some? {
      if found.Some? {
        var ws: nat, wi: nat :| Relevant(analysis, value, ws, wi) && Before(ws, wi, s, i);
        assert Before(ws, wi, s, i + 1);
      } else {
        assert Before(s, i, s, i + 1);
      }
    }
  }

  lemma SectionPassed(analysis: seq<Section>, value: AddressValue, found: Option<Envelope>, s: nat, i: nat)
    requires s < |analysis| && Agreed(analysis, value, found, s, i)
    requires analysis[s].index != value.section || i == |analysis[s].evidence|
    ensures Agreed(analysis, value, found, s + 1, 0)
  {
    forall s': nat, i': nat | Relevant(analysis, value, s', i') && Before(s', i', s + 1, 0)
      ensures Before(s', i', s, i)
    {}
    if found.Some? {
      var ws: nat, wi: nat :| Relevant(analysis, value, ws, wi) && Before(ws, wi, s, i);
      assert Before(ws, wi, s + 1, 0);
    }
  }
}
