/** The section offset that a runtime address stands for, among ranges of different provenance. */
module PointerRanges {
  const OFFSET_MAX: nat := 0xFFFF_FFFF

  /** A range without uses is for every use. */
  datatype Range = Range(hasSection: bool, section: nat, offset: nat, size: nat, runtimeAddress: nat,
                         provenance: nat, anyUse: bool, pointerUse: bool)

  datatype Place = Place(section: nat, offset: nat)

  /** An ambiguous address comes with the first of the places it may stand for. */
  datatype Resolution = Unresolved | Resolved(place: Place) | Ambiguous(place: Place)

  // ---------- what a range says ----------

  predicate Maps(range: Range, address: nat) {
    && range.hasSection && (range.anyUse || range.pointerUse)
    && range.runtimeAddress <= address < range.runtimeAddress + range.size
    && range.offset + (address - range.runtimeAddress) <= OFFSET_MAX
  }

  function PlaceIn(range: Range, address: nat): Place
    requires Maps(range, address)
  {
    Place(range.section, range.offset + (address - range.runtimeAddress))
  }

  /** Range `i` maps the address, and none of the ranges does so with a stronger provenance. */
  predicate IsStrongest(ranges: seq<Range>, address: nat, i: nat) {
    && i < |ranges| && Maps(ranges[i], address)
    && forall j :: 0 <= j < |ranges| && Maps(ranges[j], address) ==> ranges[j].provenance <= ranges[i].provenance
  }

  /** Whether the ranges of the strongest provenance name exactly this place. */
  ghost predicate Agree(ranges: seq<Range>, address: nat, place: Place) {
    forall i: nat :: IsStrongest(ranges, address, i) ==> PlaceIn(ranges[i], address) == place
  }

  /** What the resolution means, whatever order the ranges are in. */
  ghost predicate IsResolution(ranges: seq<Range>, address: nat, resolution: Resolution) {
    match resolution
    case Unresolved => forall i :: 0 <= i < |ranges| ==> !Maps(ranges[i], address)
    case Resolved(place) =>
      && (exists i: nat :: IsStrongest(ranges, address, i))
      && Agree(ranges, address, place)
    case Ambiguous(place) =>
      && (exists i: nat :: IsStrongest(ranges, address, i) && PlaceIn(ranges[i], address) == place)
      && (exists i: nat :: IsStrongest(ranges, address, i) && PlaceIn(ranges[i], address) != place)
  }

  // ---------- the scan ----------

  /** Adding a range to those seen keeps, replaces or contests the strongest ones. */
  lemma StrongestAfter(ranges: seq<Range>, next: Range, address: nat, best: nat)
    requires IsStrongest(ranges, address, best)
    ensures forall i: nat :: IsStrongest(ranges + [next], address, i) <==>
              if i == |ranges| then Maps(next, address) && ranges[best].provenance <= next.provenance
              else IsStrongest(ranges, address, i)
                   && (Maps(next, address) ==> next.provenance <= ranges[best].provenance)
  {
    var more := ranges + [next];
    forall i: nat
      ensures IsStrongest(more, address, i) <==>
              if i == |ranges| then Maps(next, address) && ranges[best].provenance <= next.provenance
              else IsStrongest(ranges, address, i)
                   && (Maps(next, address) ==> next.provenance <= ranges[best].provenance)
    {
      assert more[|ranges|] == next;
      assert forall j :: 0 <= j < |ranges| ==> more[j] == ranges[j];
      if i < |ranges| && IsStrongest(ranges, address, i) {
        assert ranges[i].provenance == ranges[best].provenance;
      }
      if i < |more| && IsStrongest(more, address, i) {
        assert more[best].provenance <= more[i].provenance;
      }
    }
  }

  method ResolvePointerAddress(ranges: seq<Range>, address: nat) returns (resolution: Resolution)
    ensures IsResolution(ranges, address, resolution)
  {
    var best: nat := 0;
    var found, ambiguous := false, false;
    var place := Place(0, 0);
    ghost var b: nat := 0;
    ghost var rival: nat := 0;
    for k := 0 to |ranges|
      invariant !found ==> !ambiguous && forall i :: 0 <= i < k ==> !Maps(ranges[i], address)
      invariant found ==> IsStrongest(ranges[..k], address, b) && PlaceIn(ranges[b], address) == place
                          && ranges[b].provenance == best
      invariant found && !ambiguous ==> Agree(ranges[..k], address, place)
      invariant ambiguous ==> IsStrongest(ranges[..k], address, rival) && PlaceIn(ranges[rival], address) != place
    {
      var range := ranges[k];
      assert ranges[..k + 1] == ranges[..k] + [range];
      if found {
        StrongestAfter(ranges[..k], range, address, b);
      }
      if !range.hasSection || range.size == 0 || address < range.runtimeAddress
         || (!range.anyUse && !range.pointerUse) {
        continue;
      }
      var delta := address - range.runtimeAddress;
      if delta >= range.size || range.offset > OFFSET_MAX - delta {
        continue;
      }
      if found && range.provenance < best {
        continue;
      }
      if !found || range.provenance > best {
        place, best := Place(range.section, range.offset + delta), range.provenance;
        found, ambiguous := true, false;
        b := k;
        assert IsStrongest(ranges[..k + 1], address, k);
      } else if place.section != range.section || place.offset != range.offset + delta {
        ambiguous := true;
        rival := k;
      }
    }
    assert ranges[..|ranges|] == ranges;
    resolution := if ambiguous then Ambiguous(place) else if found then Resolved(place) else Unresolved;
  }

  /** The meaning leaves no choice but which of several places is named first. */
  lemma ResolutionIsUnique(ranges: seq<Range>, address: nat, a: Resolution, b: Resolution)
    requires IsResolution(ranges, address, a) && IsResolution(ranges, address, b)
    ensures a.Unresolved? <==> b.Unresolved?
    ensures a.Resolved? ==> a == b
  {
    if a.Resolved? {
      var i: nat :| IsStrongest(ranges, address, i);
      assert PlaceIn(ranges[i], address) == a.place;
    }
    if b.Resolved? {
      var i: nat :| IsStrongest(ranges, address, i);
      assert PlaceIn(ranges[i], address) == b.place;
    }
  }
}
