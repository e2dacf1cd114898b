/** The structured data of a source analysis: the authoritative list and the policy's bounded mirror
    of it, over any run of appending, setting a policy and finalizing table conflicts. */
module StructuredMirror {
  import PolicyCopy

  const MIRROR_LIMIT: nat := 32768
  const STATUS_NONE: nat := 0
  const STATUS_MIRROR_INCOMPLETE: nat := 3
  const KIND_UNKNOWN: nat := 0

  datatype ConflictState = Clean | CodeOverlap | UnresolvedCodeTarget

  datatype TableItem = TableItem(item: PolicyCopy.Item, tableKind: nat, conflicted: bool, conflict: ConflictState)

  function Refreshed(item: TableItem): TableItem { item.(item := PolicyCopy.RefreshedItem(item.item)) }

  /** What the analysis knows about the code that an item may be in conflict with. */
  datatype CodeFacts = CodeFacts(overlapsCode: TableItem -> bool, hasUnacceptedTargets: TableItem -> bool)

  function Finalized(item: TableItem, facts: CodeFacts): TableItem {
    if item.tableKind == KIND_UNKNOWN then item
    else if facts.overlapsCode(item) then item.(conflicted := true, conflict := CodeOverlap)
    else if facts.hasUnacceptedTargets(item) then item.(conflicted := true, conflict := UnresolvedCodeTarget)
    else item.(conflicted := false, conflict := Clean)
  }

  function FinalizedAll(items: seq<TableItem>, facts: CodeFacts): (finalized: seq<TableItem>)
    ensures |finalized| == |items|
  {
    seq(|items|, i requires 0 <= i < |items| => Finalized(items[i], facts))
  }

  // ---------- states and steps ----------

  datatype State = State(items: seq<TableItem>, mirror: seq<TableItem>, status: nat)

  const START := State([], [], STATUS_NONE)

  function Prefix(items: seq<TableItem>): seq<TableItem> {
    if |items| <= MIRROR_LIMIT then items else items[..MIRROR_LIMIT]
  }

  /** The mirror is the bounded prefix of the list, and an incomplete one leaves a status. */
  predicate Mirrored(state: State) {
    && state.mirror == Prefix(state.items)
    && (|state.items| > MIRROR_LIMIT ==> state.status != STATUS_NONE)
  }

  /** One item appended; without memory nothing happens. */
  function Appended(state: State, item: TableItem, memory: bool): State {
    if !memory then state
    else if |state.mirror| < MIRROR_LIMIT
    then state.(items := state.items + [Refreshed(item)], mirror := state.mirror + [Refreshed(item)])
    else
      state.(items := state.items + [Refreshed(item)],
             status := if state.status == STATUS_NONE then STATUS_MIRROR_INCOMPLETE else state.status)
  }

  /** The items of a policy appended one by one until memory runs out before item `n`. */
  function AppendedAll(state: State, policyItems: seq<TableItem>, n: nat): State
    requires n <= |policyItems|
  {
    if n == 0 then state else Appended(AppendedAll(state, policyItems, n - 1), policyItems[n - 1], true)
  }

  /** A policy taken over: `copied` tells whether it could be copied, `appended` how many of its items
      were appended before memory ran out. */
  function PolicySet(policyItems: seq<TableItem>, policyStatus: nat, copied: bool, appended: nat): State {
    if !copied || |policyItems| > MIRROR_LIMIT then START
    else AppendedAll(State([], [], policyStatus), policyItems, if appended <= |policyItems| then appended else |policyItems|)
  }

  function ConflictsFinalized(state: State, facts: CodeFacts): State {
    if state.items == [] then state.(mirror := FinalizedAll(Prefix(state.mirror), facts) + state.mirror[|Prefix(state.mirror)|..])
    else
      var items := FinalizedAll(state.items, facts);
      var shared := if |state.mirror| <= |items| then |state.mirror| else |items|;
      state.(items := items, mirror := items[..shared] + state.mirror[shared..])
  }

  datatype Event =
    | AppendItem(item: TableItem, memory: bool)
    | SetPolicy(policyItems: seq<TableItem>, policyStatus: nat, copied: bool, appended: nat)
    | SetOwnPolicy(copied: bool, copiedBack: bool, appended: nat)
    | FinalizeConflicts(facts: CodeFacts)

  function Step(state: State, event: Event): State {
    match event
    case AppendItem(item, memory) => Appended(state, item, memory)
    case SetPolicy(policyItems, policyStatus, copied, appended) => PolicySet(policyItems, policyStatus, copied, appended)
    case SetOwnPolicy(copied, copiedBack, appended) =>
      if copied then PolicySet(state.mirror, state.status, copiedBack, appended) else state
    case FinalizeConflicts(facts) => ConflictsFinalized(state, facts)
  }

  function Run(state: State, events: seq<Event>): State
    decreases |events|
  {
    if events == [] then state else Run(Step(state, events[0]), events[1..])
  }

  // ---------- the invariant ----------

  lemma AppendedStaysMirrored(state: State, item: TableItem, memory: bool)
    requires Mirrored(state)
    ensures Mirrored(Appended(state, item, memory))
  {
    hide Refreshed;
  }

  lemma {:induction false} AppendedAllStaysMirrored(state: State, policyItems: seq<TableItem>, n: nat)
    requires Mirrored(state) && n <= |policyItems|
    ensures Mirrored(AppendedAll(state, policyItems, n))
  {
    hide Appended, Mirrored;
    if n > 0 {
      AppendedAllStaysMirrored(state, policyItems, n - 1);
      AppendedStaysMirrored(AppendedAll(state, policyItems, n - 1), policyItems[n - 1], true);
    }
  }

  lemma FinalizedStaysMirrored(state: State, facts: CodeFacts)
    requires Mirrored(state)
    ensures Mirrored(ConflictsFinalized(state, facts))
  {
    hide Finalized;
  }

  lemma StepStaysMirrored(state: State, event: Event)
    requires Mirrored(state)
    ensures Mirrored(Step(state, event))
  {
    hide Appended, AppendedAll, ConflictsFinalized;
    match event {
      case AppendItem(item, memory) => AppendedStaysMirrored(state, item, memory);
      case SetPolicy(policyItems, policyStatus, copied, appended) =>
        var n := if appended <= |policyItems| then appended else |policyItems|;
        AppendedAllStaysMirrored(State([], [], policyStatus), policyItems, n);
      case SetOwnPolicy(copied, copiedBack, appended) =>
        var n := if appended <= |state.mirror| then appended else |state.mirror|;
        AppendedAllStaysMirrored(State([], [], state.status), state.mirror, n);
      case FinalizeConflicts(facts) => FinalizedStaysMirrored(state, facts);
    }
  }

  /** Over any run the mirror is the prefix of the list of length min(count, limit), and a list
      beyond the limit has left a status. */
  lemma {:induction false} RunStaysMirrored(state: State, events: seq<Event>)
    requires Mirrored(state)
    ensures Mirrored(Run(state, events))
    decreases |events|
  {
    hide Mirrored, Step;
    if events != [] {
      StepStaysMirrored(state, events[0]);
      RunStaysMirrored(Step(state, events[0]), events[1..]);
    }
  }

  /** Setting a policy that fits, with memory, makes list and mirror its refreshed items. */
  lemma {:induction false} AllAppended(policyItems: seq<TableItem>, policyStatus: nat, n: nat)
    requires n <= |policyItems| <= MIRROR_LIMIT
    ensures var state := AppendedAll(State([], [], policyStatus), policyItems, n);
            && state.items == state.mirror && |state.items| == n && state.status == policyStatus
            && forall i :: 0 <= i < n ==> state.items[i] == Refreshed(policyItems[i])
  {
    hide Refreshed;
    if n > 0 { AllAppended(policyItems, policyStatus, n - 1); }
  }

  // ---------- the analysis ----------

  class SourceAnalysis {
    var items: seq<TableItem>
    var mirror: seq<TableItem>
    var status: nat

    function Current(): State
      reads this
    {
      State(items, mirror, status)
    }

    constructor ()
      ensures Current() == START
    {
      items, mirror, status := [], [], STATUS_NONE;
    }

    /** The two flags say whether the mirror could be reserved and the list grown. */
    method AppendStructuredDataItem(item: TableItem, reserved: bool, grown: bool) returns (code: int)
      modifies this
      ensures Current() == Appended(old(Current()), item, code == 0)
      ensures code == 0 <==> (|old(mirror)| < MIRROR_LIMIT ==> reserved) && grown
    {
      if |mirror| < MIRROR_LIMIT && !reserved { return -1; }
      var copy := Refreshed(item);
      if !grown { return -1; }
      items := items + [copy];
      if |mirror| < MIRROR_LIMIT {
        mirror := mirror + [copy];
      } else if status == STATUS_NONE {
        status := STATUS_MIRROR_INCOMPLETE;
      }
      return 0;
    }

    /** Takes over a policy that is not the analysis's own. */
    method SetForeignPolicy(policyItems: seq<TableItem>, policyStatus: nat, copied: bool, memory: nat -> bool)
      returns (code: int, ghost appended: nat)
      modifies this
      ensures Current() == PolicySet(policyItems, policyStatus, copied, appended)
      ensures code == 0 ==> copied && appended == |policyItems| <= MIRROR_LIMIT
      ensures code == 0 || code == -1
    {
      hide Appended;
      items, mirror, status := [], [], STATUS_NONE;
      appended := 0;
      if !copied || |policyItems| > MIRROR_LIMIT { return -1, 0; }
      status := policyStatus;
      for index := 0 to |policyItems|
        invariant Current() == AppendedAll(State([], [], policyStatus), policyItems, index)
      {
        var result := AppendStructuredDataItem(policyItems[index], memory(index), memory(index));
        if result != 0 {
          NothingAppended(AppendedAll(State([], [], policyStatus), policyItems, index), policyItems[index]);
          return -1, index;
        }
      }
      return 0, |policyItems|;
    }

    /** Setting its own policy again goes through a copy of it, so that the mirror is read after the
        analysis has let go of it. Without the first copy nothing happens; when the copy cannot be copied
        back the analysis is left empty. */
    method ResetOwnPolicy(copied: bool, copiedBack: bool, memory: nat -> bool) returns (code: int, ghost appended: nat)
      modifies this
      ensures Current() == Step(old(Current()), SetOwnPolicy(copied, copiedBack, appended))
      ensures code == 0 ==> copied && copiedBack && appended == |old(mirror)| <= MIRROR_LIMIT
      ensures copied && !copiedBack ==> code == -1 && Current() == START
    {
      if !copied { return -1, 0; }
      code, appended := SetForeignPolicy(mirror, status, copiedBack, memory);
    }

    method FinalizeTableConflicts(facts: CodeFacts)
      modifies this
      ensures Current() == ConflictsFinalized(old(Current()), facts)
    {
      hide Finalized;
      var dynamic := items != [];
      if dynamic {
        items := FinalizeItems(items, |items|, facts);
        mirror := RefreshMirror(mirror, items);
      } else {
        var count := if |mirror| > MIRROR_LIMIT then MIRROR_LIMIT else |mirror|;
        mirror := FinalizeItems(mirror, count, facts);
      }
    }
  }

  lemma NothingAppended(state: State, item: TableItem)
    ensures Appended(state, item, false) == state
  {
  }

  /** The mirrored items copied again from the list, as far as both go. */
  method RefreshMirror(mirror: seq<TableItem>, items: seq<TableItem>) returns (refreshed: seq<TableItem>)
    ensures refreshed == var shared := if |mirror| <= |items| then |mirror| else |items|;
                         items[..shared] + mirror[shared..]
  {
    refreshed := mirror;
    var index := 0;
    while index < |mirror| && index < |items|
      invariant 0 <= index <= |refreshed| == |mirror| && index <= |items|
      invariant forall i :: 0 <= i < index ==> refreshed[i] == items[i]
      invariant forall i :: index <= i < |mirror| ==> refreshed[i] == mirror[i]
    {
      refreshed := refreshed[index := items[index]];
      index := index + 1;
    }
  }

  /** The loop over the first `count` items. */
  method FinalizeItems(items: seq<TableItem>, count: nat, facts: CodeFacts) returns (finalized: seq<TableItem>)
    requires count <= |items|
    ensures finalized == FinalizedAll(items[..count], facts) + items[count..]
  {
    finalized := items;
    for index := 0 to count
      invariant |finalized| == |items|
      invariant forall i :: 0 <= i < index ==> finalized[i] == Finalized(items[i], facts)
      invariant forall i :: index <= i < |items| ==> finalized[i] == items[i]
    {
      var item := finalized[index];
      if item.tableKind == KIND_UNKNOWN { continue; }
      if facts.overlapsCode(item) {
        finalized := finalized[index := item.(conflicted := true, conflict := CodeOverlap)];
      } else if facts.hasUnacceptedTargets(item) {
        finalized := finalized[index := item.(conflicted := true, conflict := UnresolvedCodeTarget)];
      } else {
        finalized := finalized[index := item.(conflicted := false, conflict := Clean)];
      }
    }
  }
}
