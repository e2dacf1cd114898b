/** The projection of a frozen render plan onto another memory layout: the declarations and equates
    of root regions are rewritten and every row gets its new place in the text. */
module LayoutProjection {
  import opened Wrappers

  const REGION_LIMIT: nat := 32
  const NAME_LIMIT: nat := 63
  const ROOT_TEXT_CAPACITY: nat := 224
  const LINE_MODULUS: nat := 0x1_0000_0000

  /** A 32-bit runtime address. */
  type Address = a: nat | a < 0x1_0000_0000

  datatype Region = Region(name: string, runtimeAddress: Address, sourceMapped: bool, addressFrameSites: nat)

  /** Where a layout puts each region; a negative parent makes the region a root. */
  datatype Resolved = Resolved(addresses: seq<Address>, parents: seq<int>)

  datatype Layout = Layout(contract: string, chipBytes: nat, forwardDisjoint: bool, sourceHelper: bool)

  /** What the address of a materialized view comes to under one layout. */
  datatype Reference = Reference(result: int, address: Address)

  datatype View = View(before: Reference, after: Reference)

  /** Region 0 is none, region `i + 1` is number `i`. The payload is the rest of the entry. */
  datatype Declaration = Declaration(region: nat, name: string, expression: string, payload: nat)

  datatype Row = Row(region: nat, isEquate: bool, text: string, startByte: nat, byteCount: nat,
                     startLine: nat, lineCount: nat, payload: nat)

  /** A move from the baseline to the selected layout; `before` and `after` are their resolutions. */
  datatype Request = Request(regions: seq<Region>, baseline: Layout, selected: Layout,
                             before: Option<Resolved>, after: Option<Resolved>,
                             widthsFit: bool, views: seq<View>, memory: bool)

  datatype Outcome = Ready | NeedsNewPlan | Refused

  // ---------- hexadecimal ----------

  function HexDigit(digit: nat): char
    requires digit < 16
  {
    if digit < 10 then '0' + digit as char else 'A' + (digit - 10) as char
  }

  function DigitValue(c: char): nat {
    if '0' <= c <= '9' then (c - '0') as nat else if 'A' <= c <= 'F' then (c - 'A') as nat + 10 else 0
  }

  function Hex(n: nat): string {
    if n < 16 then [HexDigit(n)] else Hex(n / 16) + [HexDigit(n % 16)]
  }

  function HexValue(text: string): nat {
    if text == [] then 0 else 16 * HexValue(text[..|text| - 1]) + DigitValue(text[|text| - 1])
  }

  lemma {:induction false} HexReadsBack(n: nat)
    ensures HexValue(Hex(n)) == n
  {
    if n >= 16 {
      HexReadsBack(n / 16);
      assert Hex(n)[..|Hex(n)| - 1] == Hex(n / 16);
    } else {
      assert Hex(n)[..0] == [];
    }
  }

  function Sixteens(digits: nat): nat { if digits == 0 then 1 else 16 * Sixteens(digits - 1) }

  lemma {:induction false} HexLength(n: nat, digits: nat)
    requires digits > 0 && n < Sixteens(digits)
    ensures 0 < |Hex(n)| <= digits
  {
    if n >= 16 {
      HexLength(n / 16, digits - 1);
    }
  }

  // ---------- the admission of a move ----------

  function RootText(name: string, address: Address): string { name + "\tEQU\t$" + Hex(address) + "\n" }

  /** The new equate always fits its buffer, so the overflow branch of the row loop is never taken. */
  lemma RootTextFits(name: string, address: Address)
    requires |name| <= NAME_LIMIT
    ensures |RootText(name, address)| < ROOT_TEXT_CAPACITY
    ensures |"$" + Hex(address)| < 96
  {
    assert Sixteens(8) == 0x1_0000_0000 by {
      assert Sixteens(2) == 0x100;
      assert Sixteens(4) == 0x1_0000;
      assert Sixteens(6) == 0x100_0000;
    }
    HexLength(address, 8);
  }

  /** The address can be read off the new equate. */
  lemma RootTextReadsBack(name: string, address: Address)
    ensures var text := RootText(name, address);
            |name| + 6 < |text| && text[..|name|] == name && HexValue(text[|name| + 6..|text| - 1]) == address
  {
    var text := RootText(name, address);
    assert text[..|name|] == name;
    assert text[|name| + 6..|text| - 1] == Hex(address);
    HexReadsBack(address);
  }

  /** What resolving against the policy's regions guarantees of its result. */
  predicate FromPolicy(resolved: Resolved, regions: seq<Region>) {
    |regions| <= REGION_LIMIT && |resolved.addresses| == |resolved.parents| == |regions|
  }

  predicate WellResolved(request: Request) {
    && (forall i :: 0 <= i < |request.regions| ==> |request.regions[i].name| <= NAME_LIMIT)
    && (request.before.Some? ==> FromPolicy(request.before.value, request.regions))
    && (request.after.Some? ==> FromPolicy(request.after.value, request.regions))
  }

  predicate BothResolved(request: Request) {
    WellResolved(request) && request.before.Some? && request.after.Some?
  }

  predicate Moves(request: Request, i: nat)
    requires BothResolved(request) && i < |request.regions|
  {
    request.before.value.addresses[i] != request.after.value.addresses[i]
  }

  predicate IsRoot(request: Request, i: nat)
    requires BothResolved(request) && i < |request.regions|
  {
    request.after.value.parents[i] < 0
  }

  predicate RootMoves(request: Request, i: nat)
    requires BothResolved(request)
  {
    i < |request.regions| && IsRoot(request, i) && Moves(request, i)
  }

  /** A region with address frames is displaced in both layouts or in neither. */
  predicate FrameKept(request: Request, i: nat)
    requires BothResolved(request) && i < |request.regions|
  {
    var region := request.regions[i];
    region.addressFrameSites != 0 ==>
      (request.before.value.addresses[i] != region.runtimeAddress <==>
       request.after.value.addresses[i] != region.runtimeAddress)
  }

  predicate SameProfile(baseline: Layout, selected: Layout) {
    && baseline.contract != [] && baseline.contract == selected.contract
    && baseline.chipBytes == selected.chipBytes
    && baseline.forwardDisjoint == selected.forwardDisjoint && baseline.sourceHelper == selected.sourceHelper
  }

  predicate MappedStays(request: Request, i: nat)
    requires BothResolved(request) && i < |request.regions|
  {
    request.regions[i].sourceMapped ==> !Moves(request, i)
  }

  // ---------- the declarations and rows of the regions ----------

  predicate DeclarationOk(declarations: seq<Declaration>, regions: seq<Region>, d: nat)
    requires d < |declarations|
  {
    var region := declarations[d].region;
    region != 0 ==>
      && region <= |regions| && declarations[d].name == regions[region - 1].name
      && forall e :: 0 <= e < d ==> declarations[e].region != region
  }

  predicate RowOk(rows: seq<Row>, regions: seq<Region>, r: nat)
    requires r < |rows|
  {
    var region := rows[r].region;
    region != 0 ==>
      && region <= |regions| && rows[r].isEquate
      && forall q :: 0 <= q < r ==> rows[q].region != region
  }

  predicate Declared(declarations: seq<Declaration>, region: nat) {
    exists d :: 0 <= d < |declarations| && declarations[d].region == region
  }

  predicate HasRow(rows: seq<Row>, region: nat) {
    exists r :: 0 <= r < |rows| && rows[r].region == region
  }

  predicate AllAccounted(request: Request, declarations: seq<Declaration>, rows: seq<Row>) {
    forall region: nat :: 0 < region <= |request.regions| ==> Declared(declarations, region) && HasRow(rows, region)
  }

  predicate Usable(request: Request, declarations: seq<Declaration>, rows: seq<Row>) {
    && (forall d :: 0 <= d < |declarations| ==> DeclarationOk(declarations, request.regions, d))
    && (forall r :: 0 <= r < |rows| ==> RowOk(rows, request.regions, r))
  }

  /** Which of the three answers a move gets. */
  function Verdict(request: Request, finalized: bool, declarations: seq<Declaration>, rows: seq<Row>): Outcome
    requires WellResolved(request)
  {
    if !finalized then NeedsNewPlan
    else if request.after.None? || request.before.None? then Refused
    else if exists i :: 0 <= i < |request.regions| && !FrameKept(request, i) then NeedsNewPlan
    else if !request.widthsFit then Refused
    else if !SameProfile(request.baseline, request.selected) then NeedsNewPlan
    else if exists i :: 0 <= i < |request.regions| && !MappedStays(request, i) then NeedsNewPlan
    else if exists v :: 0 <= v < |request.views| && request.views[v].before != request.views[v].after then NeedsNewPlan
    else if !request.memory || !Usable(request, declarations, rows) then Refused
    else if !AllAccounted(request, declarations, rows) then NeedsNewPlan
    else Ready
  }

  /** A ready projection has one declaration, under its own name, and one equate row for each region,
      and moves nothing that is mapped to the source. */
  lemma OneDeclarationAndRowEach(request: Request, finalized: bool, declarations: seq<Declaration>, rows: seq<Row>,
                                 i: nat)
    requires WellResolved(request) && i < |request.regions|
    requires Verdict(request, finalized, declarations, rows) == Ready
    ensures exists d :: 0 <= d < |declarations| && declarations[d].name == request.regions[i].name
                        && forall e :: 0 <= e < |declarations| ==> (declarations[e].region == i + 1 <==> e == d)
    ensures exists r :: 0 <= r < |rows| && rows[r].isEquate
                        && forall q :: 0 <= q < |rows| ==> (rows[q].region == i + 1 <==> q == r)
    ensures request.regions[i].sourceMapped ==> !RootMoves(request, i)
  {
    assert Declared(declarations, i + 1) && HasRow(rows, i + 1);
    var d: nat :| d < |declarations| && declarations[d].region == i + 1;
    forall e: nat | e < |declarations| && declarations[e].region == i + 1
      ensures e == d
    {
      assert DeclarationOk(declarations, request.regions, d) && DeclarationOk(declarations, request.regions, e);
    }
    assert DeclarationOk(declarations, request.regions, d);
    var r: nat :| r < |rows| && rows[r].region == i + 1;
    forall q: nat | q < |rows| && rows[q].region == i + 1
      ensures q == r
    {
      assert RowOk(rows, request.regions, r) && RowOk(rows, request.regions, q);
    }
    assert RowOk(rows, request.regions, r);
    assert MappedStays(request, i);
  }

  // ---------- places in the text ----------

  /** The whole text, row after row. */
  function TextOf(rows: seq<Row>): string {
    if rows == [] then [] else TextOf(rows[..|rows| - 1]) + rows[|rows| - 1].text
  }

  /** Line numbers wrap around at 32 bits. */
  function LinesOf(rows: seq<Row>): nat {
    if rows == [] then 0 else (LinesOf(rows[..|rows| - 1]) + rows[|rows| - 1].lineCount) % LINE_MODULUS
  }

  /** Each row records where the text before it ends. */
  predicate InPlace(rows: seq<Row>, r: nat)
    requires r < |rows|
  {
    && rows[r].startByte == |TextOf(rows[..r])| && rows[r].byteCount == |rows[r].text|
    && rows[r].startLine == LinesOf(rows[..r])
  }

  ghost predicate Placed(rows: seq<Row>) {
    forall r :: 0 <= r < |rows| ==> InPlace(rows, r)
  }

  lemma PlacedExtends(rows: seq<Row>, row: Row)
    requires Placed(rows)
    requires row.startByte == |TextOf(rows)| && row.byteCount == |row.text| && row.startLine == LinesOf(rows)
    ensures Placed(rows + [row])
    ensures TextOf(rows + [row]) == TextOf(rows) + row.text
    ensures LinesOf(rows + [row]) == (LinesOf(rows) + row.lineCount) % LINE_MODULUS
  {
    var more := rows + [row];
    assert more[..|rows|] == rows;
    hide TextOf, LinesOf;
    forall r: nat | r < |more|
      ensures InPlace(more, r)
    {
      if r < |rows| {
        assert InPlace(rows, r);
        assert more[..r] == rows[..r];
      }
    }
  }

  /** The bytes of a row are found in the whole text at the place the row records. */
  lemma {:induction false} RowIsWhereItSays(rows: seq<Row>, r: nat)
    requires Placed(rows) && r < |rows|
    ensures rows[r].startByte + rows[r].byteCount <= |TextOf(rows)|
    ensures TextOf(rows)[rows[r].startByte..rows[r].startByte + rows[r].byteCount] == rows[r].text
    ensures r + 1 == |rows| ==> rows[r].startByte + rows[r].byteCount == |TextOf(rows)|
    ensures r + 1 < |rows| ==> rows[r + 1].startByte == rows[r].startByte + rows[r].byteCount
    decreases |rows|
  {
    var last := |rows| - 1;
    assert InPlace(rows, r) && InPlace(rows, last);
    if r < last {
      var front := rows[..last];
      forall q: nat | q < last
        ensures InPlace(front, q)
      {
        assert InPlace(rows, q);
        assert front[..q] == rows[..q];
      }
      RowIsWhereItSays(front, r);
      assert InPlace(rows, r + 1);
      if r + 1 < last {
        assert front[r + 1] == rows[r + 1];
      }
    }
  }

  // ---------- what is rewritten ----------

  function NewText(request: Request, row: Row): string
    requires BothResolved(request)
  {
    if row.region != 0 && RootMoves(request, row.region - 1) then
      RootText(request.regions[row.region - 1].name, request.after.value.addresses[row.region - 1])
    else row.text
  }

  /** A row keeps everything but its place, and its text unless it is the equate of a moved root. */
  predicate Rewritten(request: Request, old_: Row, new_: Row)
    requires BothResolved(request)
  {
    new_ == old_.(text := NewText(request, old_), startByte := new_.startByte, byteCount := new_.byteCount,
                  startLine := new_.startLine)
  }

  /** Every root is declared at its new address, moved or not. */
  function NewDeclaration(request: Request, declaration: Declaration): Declaration
    requires BothResolved(request)
  {
    var region := declaration.region;
    if 0 < region <= |request.regions| && IsRoot(request, region - 1) then
      declaration.(expression := "$" + Hex(request.after.value.addresses[region - 1]))
    else declaration
  }

  ghost predicate AllRewritten(request: Request, base: seq<Row>, rows: seq<Row>)
    requires BothResolved(request)
  {
    |rows| == |base| && forall r :: 0 <= r < |rows| ==> Rewritten(request, base[r], rows[r])
  }

  ghost function MovedRoots(request: Request): set<nat>
    requires BothResolved(request)
  {
    set i: nat | i < |request.regions| && RootMoves(request, i)
  }

  ghost function MovedWithRow(request: Request, rows: seq<Row>): set<nat>
    requires BothResolved(request)
  {
    set i: nat | i < |request.regions| && RootMoves(request, i) && HasRow(rows, i + 1)
  }

  /** Projecting onto a layout that moves no root gives a plan in its place back as it was. */
  lemma {:induction false} NothingMovedNothingChanged(request: Request, base: seq<Row>, rows: seq<Row>)
    requires BothResolved(request) && MovedRoots(request) == {}
    requires Placed(base) && Placed(rows) && AllRewritten(request, base, rows)
    ensures rows == base
    decreases |rows|
  {
    if rows != [] {
      var last := |rows| - 1;
      forall q: nat | q < last
        ensures InPlace(base[..last], q) && InPlace(rows[..last], q)
      {
        assert InPlace(base, q) && InPlace(rows, q);
        assert base[..last][..q] == base[..q] && rows[..last][..q] == rows[..q];
      }
      NothingMovedNothingChanged(request, base[..last], rows[..last]);
      var region := base[last].region;
      if region != 0 {
        assert region - 1 !in MovedRoots(request);
      }
      assert InPlace(base, last) && InPlace(rows, last);
      assert Rewritten(request, base[last], rows[last]);
      assert rows == rows[..last] + [rows[last]] && base == base[..last] + [base[last]];
    }
  }

  // ---------- regions met so far ----------

  lemma DeclarationOkExactly(regions: seq<Region>, declarations: seq<Declaration>, d: nat)
    requires d < |declarations|
    ensures DeclarationOk(declarations, regions, d) <==>
            (declarations[d].region != 0 ==>
               declarations[d].region <= |regions|
               && declarations[d].name == regions[declarations[d].region - 1].name
               && !Declared(declarations[..d], declarations[d].region))
  {
    assert forall e :: 0 <= e < d ==> declarations[..d][e] == declarations[e];
  }

  lemma NewDeclarationIs(request: Request, declaration: Declaration)
    requires BothResolved(request)
    ensures 0 < declaration.region <= |request.regions| && request.after.value.parents[declaration.region - 1] < 0 ==>
              NewDeclaration(request, declaration)
              == declaration.(expression := "$" + Hex(request.after.value.addresses[declaration.region - 1]))
    ensures 0 < declaration.region <= |request.regions| && request.after.value.parents[declaration.region - 1] >= 0 ==>
              NewDeclaration(request, declaration) == declaration
    ensures declaration.region == 0 ==> NewDeclaration(request, declaration) == declaration
  {}

  lemma SeenAfterDeclaration(declarations: seq<Declaration>, d: nat)
    requires d < |declarations|
    ensures forall region: nat :: Declared(declarations[..d + 1], region) <==>
                                  Declared(declarations[..d], region) || declarations[d].region == region
  {
    forall region: nat
      ensures Declared(declarations[..d + 1], region) <==>
              Declared(declarations[..d], region) || declarations[d].region == region
    {
      assert declarations[..d + 1][d] == declarations[d];
      assert forall e :: 0 <= e < d ==> declarations[..d + 1][e] == declarations[..d][e];
    }
  }

  lemma NoneDeclared(declarations: seq<Declaration>)
    requires declarations == []
    ensures forall region: nat :: !Declared(declarations, region)
  {}

  lemma RowOkExactly(regions: seq<Region>, rows: seq<Row>, r: nat)
    requires r < |rows|
    ensures RowOk(rows, regions, r) <==>
            (rows[r].region != 0 ==>
               rows[r].region <= |regions| && rows[r].isEquate && !HasRow(rows[..r], rows[r].region))
  {
    assert forall q :: 0 <= q < r ==> rows[..r][q] == rows[q];
  }

  lemma SeenAfterRow(rows: seq<Row>, r: nat)
    requires r < |rows|
    ensures forall region: nat :: HasRow(rows[..r + 1], region) <==>
                                  HasRow(rows[..r], region) || rows[r].region == region
  {
    forall region: nat
      ensures HasRow(rows[..r + 1], region) <==> HasRow(rows[..r], region) || rows[r].region == region
    {
      assert rows[..r + 1][r] == rows[r];
      assert forall q :: 0 <= q < r ==> rows[..r + 1][q] == rows[..r][q];
    }
  }

  lemma MovedAfterRow(request: Request, rows: seq<Row>, r: nat)
    requires BothResolved(request) && r < |rows|
    ensures var moved, more := MovedWithRow(request, rows[..r]), MovedWithRow(request, rows[..r + 1]);
            |more| == |moved| + (if rows[r].region != 0 && RootMoves(request, rows[r].region - 1)
                                    && !HasRow(rows[..r], rows[r].region) then 1 else 0)
  {
    hide BothResolved, IsRoot, Moves, HasRow;
    SeenAfterRow(rows, r);
    var moved, more := MovedWithRow(request, rows[..r]), MovedWithRow(request, rows[..r + 1]);
    var region := rows[r].region;
    if region != 0 && RootMoves(request, region - 1) && !HasRow(rows[..r], region) {
      assert more == moved + {region - 1};
    } else {
      assert more == moved;
    }
  }

  lemma NothingDone(request: Request, base: seq<Row>, rows: seq<Row>)
    requires BothResolved(request) && base == rows == []
    ensures AllRewritten(request, base, rows) && Placed(rows) && |TextOf(rows)| == 0 && LinesOf(rows) == 0
    ensures |MovedWithRow(request, base)| == 0
    ensures forall region: nat :: !HasRow(base, region)
  {
    assert MovedWithRow(request, base) == {};
  }

  /** One more row is rewritten and put in its place. */
  lemma RowStep(request: Request, base: seq<Row>, done: seq<Row>, r: nat, row: Row)
    requires BothResolved(request) && r < |base|
    requires AllRewritten(request, base[..r], done) && Placed(done)
    requires row == base[r].(text := NewText(request, base[r]), startByte := |TextOf(done)|,
                             byteCount := |NewText(request, base[r])|, startLine := LinesOf(done))
    ensures AllRewritten(request, base[..r + 1], done + [row]) && Placed(done + [row])
    ensures TextOf(done + [row]) == TextOf(done) + row.text
    ensures LinesOf(done + [row]) == (LinesOf(done) + row.lineCount) % LINE_MODULUS
  {
    hide NewText, Placed, TextOf, LinesOf;
    PlacedExtends(done, row);
    forall q: nat | q < r + 1
      ensures Rewritten(request, base[..r + 1][q], (done + [row])[q])
    {
      if q < r {
        assert Rewritten(request, base[..r][q], done[q]);
      }
    }
  }

  // ---------- the checks before the plan is copied ----------

  /** The checks that need no row or declaration, in their order. */
  method Admission(request: Request) returns (outcome: Outcome)
    requires BothResolved(request)
    ensures outcome == if exists i :: 0 <= i < |request.regions| && !FrameKept(request, i) then NeedsNewPlan
                       else if !request.widthsFit then Refused
                       else if !SameProfile(request.baseline, request.selected) then NeedsNewPlan
                       else if exists i :: 0 <= i < |request.regions| && !MappedStays(request, i) then NeedsNewPlan
                       else if exists v :: 0 <= v < |request.views|
                                           && request.views[v].before != request.views[v].after then NeedsNewPlan
                       else Ready
  {
    for i := 0 to |request.regions|
      invariant forall j :: 0 <= j < i ==> FrameKept(request, j)
    {
      if !FrameKept(request, i) {
        return NeedsNewPlan;
      }
    }
    if !request.widthsFit {
      return Refused;
    }
    if !SameProfile(request.baseline, request.selected) {
      return NeedsNewPlan;
    }
    for i := 0 to |request.regions|
      invariant forall j :: 0 <= j < i ==> MappedStays(request, j)
    {
      if !MappedStays(request, i) {
        return NeedsNewPlan;
      }
    }
    for v := 0 to |request.views|
      invariant forall w :: 0 <= w < v ==> request.views[w].before == request.views[w].after
    {
      if request.views[v].before != request.views[v].after {
        return NeedsNewPlan;
      }
    }
    return Ready;
  }

  /** The new text of a row, whose region is then met once more. */
  method RewriteRow(request: Request, row: Row, seen: array<nat>) returns (text: Option<string>)
    requires BothResolved(request) && seen.Length == REGION_LIMIT
    modifies seen
    ensures text.Some? <==> (row.region != 0 ==> row.region <= |request.regions| && row.isEquate
                                                 && old(seen[..])[row.region - 1] == 0)
    ensures text.Some? ==> text.value == NewText(request, row)
    ensures text.Some? ==>
              seen[..] == if row.region == 0 then old(seen[..]) else old(seen[..])[row.region - 1 := 1]
  {
    if row.region == 0 {
      return Some(row.text);
    }
    var i := row.region - 1;
    if i >= |request.regions| {
      return None;
    }
    seen[i] := seen[i] + 1;
    if seen[i] != 1 || !row.isEquate {
      return None;
    }
    if !RootMoves(request, i) {
      return Some(row.text);
    }
    RootTextFits(request.regions[i].name, request.after.value.addresses[i]);
    var equate := RootText(request.regions[i].name, request.after.value.addresses[i]);
    if |equate| >= ROOT_TEXT_CAPACITY {
      assert false;
      return None;
    }
    text := Some(equate);
  }

  // ---------- the projection ----------

  class Plan {
    const rows: array<Row>
    const declarations: array<Declaration>
    var finalized: bool

    constructor (rows: array<Row>, declarations: array<Declaration>, finalized: bool)
      ensures this.rows == rows && this.declarations == declarations && this.finalized == finalized
    {
      this.rows, this.declarations, this.finalized := rows, declarations, finalized;
    }
  }

  /** The projection owns its rows and declarations. */
  class Projection {
    var rows: array<Row>
    var declarations: array<Declaration>
    var totalBytes: nat
    var totalLines: nat
    var rewrittenRoots: nat

    constructor ()
      ensures fresh(rows) && fresh(declarations)
    {
      rows, declarations := new Row[0], new Declaration[0];
      totalBytes, totalLines, rewrittenRoots := 0, 0, 0;
    }

    /** The rewriting of the declarations: how often each region was met, unless one is invalid. */
    method RewriteDeclarations(base: Plan, request: Request) returns (counts: Option<array<nat>>)
      requires BothResolved(request)
      modifies this`declarations
      ensures fresh(declarations)
      ensures counts.Some? <==> forall d :: 0 <= d < base.declarations.Length ==>
                                  DeclarationOk(base.declarations[..], request.regions, d)
      ensures counts.Some? ==>
                && fresh(counts.value) && counts.value.Length == REGION_LIMIT
                && (forall i :: 0 <= i < REGION_LIMIT ==>
                      (counts.value[i] == 1 <==> Declared(base.declarations[..], i + 1)))
                && declarations.Length == base.declarations.Length
                && forall d :: 0 <= d < declarations.Length ==>
                     declarations[d] == NewDeclaration(request, base.declarations[d])
    {
      hide DeclarationOk, NewDeclaration, Declared, Hex;
      var owned := new Declaration[base.declarations.Length](d requires 0 <= d < base.declarations.Length
                                                               reads base.declarations => base.declarations[d]);
      declarations := owned;
      var seen := new nat[REGION_LIMIT](_ => 0);
      ghost var was := base.declarations[..];
      NoneDeclared(was[..0]);
      for d := 0 to owned.Length
        invariant base.declarations[..] == was && declarations == owned
        invariant forall e :: 0 <= e < d ==> DeclarationOk(was, request.regions, e)
        invariant forall e :: 0 <= e < d ==> owned[e] == NewDeclaration(request, was[e])
        invariant forall e :: d <= e < owned.Length ==> owned[e] == was[e]
        invariant forall i :: 0 <= i < REGION_LIMIT ==> seen[i] == (if Declared(was[..d], i + 1) then 1 else 0)
      {
        var declaration := owned[d];
        DeclarationOkExactly(request.regions, was, d);
        NewDeclarationIs(request, declaration);
        SeenAfterDeclaration(was, d);
        if declaration.region == 0 {
          continue;
        }
        var i := declaration.region - 1;
        if i >= |request.regions| {
          return None;
        }
        seen[i] := seen[i] + 1;
        if seen[i] != 1 || declaration.name != request.regions[i].name {
          assert base.declarations[..] == was && !DeclarationOk(was, request.regions, d);
          return None;
        }
        if request.after.value.parents[i] < 0 {
          owned[d] := declaration.(expression := "$" + Hex(request.after.value.addresses[i]));
        }
      }
      assert was[..|was|] == was;
      counts := Some(seen);
    }

    /** The rewriting of the rows, with their new places. */
    method RewriteRows(base: Plan, request: Request) returns (counts: Option<array<nat>>)
      requires BothResolved(request)
      modifies this`rows, this`totalBytes, this`totalLines, this`rewrittenRoots
      ensures fresh(rows)
      ensures counts.Some? <==> forall r :: 0 <= r < base.rows.Length ==> RowOk(base.rows[..], request.regions, r)
      ensures counts.Some? ==>
                && fresh(counts.value) && counts.value.Length == REGION_LIMIT
                && (forall i :: 0 <= i < REGION_LIMIT ==> (counts.value[i] == 1 <==> HasRow(base.rows[..], i + 1)))
                && AllRewritten(request, base.rows[..], rows[..]) && Placed(rows[..])
                && totalBytes == |TextOf(rows[..])| && totalLines == LinesOf(rows[..])
                && rewrittenRoots == |MovedWithRow(request, base.rows[..])|
    {
      hide AllRewritten, Rewritten, Placed, TextOf, LinesOf, MovedWithRow, HasRow, RootText, RowOk, NewText;
      var owned := new Row[base.rows.Length](r requires 0 <= r < base.rows.Length reads base.rows => base.rows[r]);
      rows, rewrittenRoots := owned, 0;
      var seen := new nat[REGION_LIMIT](_ => 0);
      ghost var was := base.rows[..];
      var byte, line := 0, 0;
      ghost var done: seq<Row> := [];
      NothingDone(request, was[..0], done);
      for r := 0 to owned.Length
        invariant base.rows[..] == was && rows == owned
        invariant forall q :: 0 <= q < r ==> RowOk(was, request.regions, q)
        invariant |done| == r && AllRewritten(request, was[..r], done) && Placed(done)
        invariant forall q :: 0 <= q < r ==> owned[q] == done[q]
        invariant forall q :: r <= q < owned.Length ==> owned[q] == was[q]
        invariant byte == |TextOf(done)| && line == LinesOf(done)
        invariant forall i :: 0 <= i < REGION_LIMIT ==> seen[i] == (if HasRow(was[..r], i + 1) then 1 else 0)
        invariant rewrittenRoots == |MovedWithRow(request, was[..r])|
      {
        var row := owned[r];
        RowOkExactly(request.regions, was, r);
        var text := RewriteRow(request, row, seen);
        if text.None? {
          assert base.rows[..] == was && !RowOk(was, request.regions, r);
          return None;
        }
        if row.region != 0 && RootMoves(request, row.region - 1) {
          rewrittenRoots := rewrittenRoots + 1;
        }
        SeenAfterRow(was, r);
        MovedAfterRow(request, was, r);
        row := row.(text := text.value, startByte := byte, startLine := line, byteCount := |text.value|);
        RowStep(request, was, done, r, row);
        owned[r], done := row, done + [row];
        byte, line := byte + row.byteCount, (line + row.lineCount) % LINE_MODULUS;
      }
      assert was[..|was|] == was && owned[..] == done;
      totalBytes, totalLines := byte, line;
      counts := Some(seen);
    }

    method Build(base: Plan, request: Request) returns (outcome: Outcome)
      requires WellResolved(request)
      modifies this
      ensures outcome == Verdict(request, base.finalized, base.declarations[..], base.rows[..])
      ensures unchanged(base) && unchanged(base.rows) && unchanged(base.declarations)
      ensures outcome.Ready? ==>
                && fresh(rows) && fresh(declarations) && BothResolved(request)
                && AllRewritten(request, base.rows[..], rows[..]) && Placed(rows[..])
                && totalBytes == |TextOf(rows[..])| && totalLines == LinesOf(rows[..])
                && rewrittenRoots == |MovedRoots(request)|
                && declarations.Length == base.declarations.Length
                && forall d :: 0 <= d < declarations.Length ==>
                     declarations[d] == NewDeclaration(request, base.declarations[d])
    {
      totalBytes, totalLines, rewrittenRoots := 0, 0, 0;
      if !base.finalized {
        return NeedsNewPlan;
      }
      if request.after.None? || request.before.None? {
        return Refused;
      }
      var admission := Admission(request);
      if admission != Ready {
        return admission;
      }
      if !request.memory {
        return Refused;
      }
      var declared := RewriteDeclarations(base, request);
      if declared.None? {
        assert !Usable(request, base.declarations[..], base.rows[..]);
        return Refused;
      }
      var rowed := RewriteRows(base, request);
      if rowed.None? {
        assert !Usable(request, base.declarations[..], base.rows[..]);
        return Refused;
      }
      for i := 0 to |request.regions|
        invariant forall region: nat :: 0 < region <= i ==>
                    Declared(base.declarations[..], region) && HasRow(base.rows[..], region)
      {
        if declared.value[i] != 1 || rowed.value[i] != 1 {
          assert !Declared(base.declarations[..], i + 1) || !HasRow(base.rows[..], i + 1);
          return NeedsNewPlan;
        }
      }
      assert MovedWithRow(request, base.rows[..]) == MovedRoots(request);
      outcome := Ready;
    }
  }
}
