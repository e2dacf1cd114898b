/** A collection of the analysis policy that starts in an inline buffer and moves to the heap when
    it outgrows it. Each of the routines of the policy's collections is this one with its own sizes. */
module PolicyStore {
  const CAPACITY_EXCEEDED: int := -2

  class Store<E(0)> {
    const inline: array<E>
    const limit: nat
    var data: array?<E>
    var count: nat
    var capacity: nat
    var owner: bool

    /** The buffers are as long as they are said to be. */
    predicate Sound()
      reads this
    {
      0 < inline.Length <= limit && (data != null ==> capacity <= data.Length)
    }

    /** The check that guards every routine. */
    predicate Valid()
      reads this
    {
      && Sound()
      && count <= capacity <= limit
      && (if data == null then capacity == 0 && !owner
          else if data == inline then capacity <= inline.Length && !owner else true)
    }

    ghost function Contents(): seq<E>
      requires Sound() && count <= capacity && (data == null ==> capacity == 0)
      reads this, data
    {
      if data == null then [] else data[..count]
    }

    /** The contents of a valid store. */
    ghost function Held(): seq<E>
      reads this, data
    {
      if Valid() then Contents() else []
    }

    /** The two stores have no memory in common. */
    ghost predicate ApartFrom(other: Store<E>)
      reads this, other
    {
      && this != other && inline != other.inline
      && inline != other.data && data != other.inline
      && (data != null ==> data != other.data)
    }

    constructor (inlineCapacity: nat, limit: nat)
      requires 0 < inlineCapacity <= limit
      ensures Valid() && Contents() == [] && fresh(inline) && data == inline
      ensures inline.Length == capacity == inlineCapacity && this.limit == limit && count == 0
    {
      this.limit := limit;
      inline := new E[inlineCapacity];
      data := inline;
      count, capacity, owner := 0, inlineCapacity, false;
    }

    /** This store is apart from all of the others. */
    ghost predicate ApartFromAll(others: set<Store<E>>)
      reads this, others
    {
      forall other :: other in others ==> ApartFrom(other)
    }

    /** Room for `required` elements; the flag says whether the heap has room. Stores in memory of
        their own stay as they are. */
    method Reserve(required: nat, canAllocate: bool, ghost others: set<Store<E>>) returns (code: int)
      requires Sound() && ApartFromAll(others)
      modifies this, if owner && data != null then {data} else {}
      ensures required > limit ==> code == CAPACITY_EXCEEDED
      ensures required <= limit && !old(Valid()) ==> code == -1
      ensures required > limit || !old(Valid()) ==>
                data == old(data) && count == old(count) && capacity == old(capacity) && owner == old(owner)
                && (data != null ==> data[..] == old(if data != null then data[..] else []))
      ensures required <= limit && old(Valid()) ==>
                && (code == 0 || code == -1) && Valid()
                && count == old(count) && Contents() == old(Held())
                && (code == 0 ==> required <= capacity)
                && (code == -1 ==> !canAllocate)
                && (data == old(data) || data == inline || fresh(data))
      ensures Sound() && (old(Valid()) ==> Valid() && Held() == old(Held()))
      ensures ApartFromAll(others) && KeptAll(others)
    {
      if required > limit { return CAPACITY_EXCEEDED; }
      if !Valid() { return -1; }
      if data == null && required <= inline.Length { data, capacity := inline, inline.Length; }
      if required <= capacity { return 0; }
      var grownCapacity := Doubled(capacity, inline.Length, required, limit);
      if !canAllocate { return -1; }
      MoveToHeap(grownCapacity);
      return 0;
    }

    method MoveToHeap(grownCapacity: nat)
      requires Valid() && capacity < grownCapacity <= limit
      modifies this, if owner && data != null then {data} else {}
      ensures Valid() && capacity == grownCapacity && fresh(data)
      ensures count == old(count) && Contents() == old(Contents())
    {
      var grown := new E[grownCapacity];
      if count != 0 && data != null {
        var from := data;
        forall i | 0 <= i < count { grown[i] := from[i]; }
      }
      ghost var contents := Contents();
      assert grown[..count] == contents;
      var released, owned := data, owner;
      data, capacity, owner := grown, grownCapacity, true;
      if owned && released != null { Release(released); }
    }

    /** Gives the heap buffer back and returns to the empty inline buffer; stores in memory of their own
        stay as they are. */
    method Destroy(ghost others: set<Store<E>>)
      requires Sound() && ApartFromAll(others)
      modifies this, if owner && data != null then {data} else {}
      ensures Valid() && Contents() == [] && data == inline && capacity == inline.Length
      ensures Sound() && ApartFromAll(others) && KeptAll(others)
    {
      if owner && data != null { Release(data); }
      data, count, capacity, owner := inline, 0, inline.Length, false;
    }

    /** Takes over the contents of another store, from a heap copy when they do not fit inline. */
    method Adopt(from: Store<E>, copy: array?<E>)
      requires from != this && from.Valid() && inline.Length == from.inline.Length <= limit && limit == from.limit
      requires 0 < inline.Length && inline != from.inline && inline != from.data
      requires copy != null <==> from.count > inline.Length
      requires copy != null ==> copy != inline && copy.Length == from.count && copy[..] == from.Contents()
      modifies this, inline
      ensures Valid() && count == from.count && Contents() == from.Contents()
      ensures data == if copy == null then inline else copy
    {
      count, owner, capacity, data := from.count, false, inline.Length, inline;
      if copy != null {
        data, capacity, owner := copy, from.count, true;
      } else if from.count != 0 {
        var source := from.data;
        forall i | 0 <= i < count { inline[i] := source[i]; }
      }
    }
  }

  /** The stores are as they were, with all they hold. */
  twostate predicate KeptAll<E(0)>(others: set<Store<E>>)
    reads others, set other | other in others && other.data != null :: other.data
  {
    forall other :: other in others ==> unchanged(other) && other.Held() == old(other.Held())
  }

  /** A released buffer may hold anything afterwards. */
  method Release<E>(buffer: array<E>)
    modifies buffer
  {
  }

  /** The capacity that the doubling loop arrives at. */
  function DoubledOf(capacity: nat, required: nat, limit: nat): (doubled: nat)
    requires 0 < capacity && required <= limit
    ensures doubled >= required && doubled >= capacity && (capacity <= limit ==> doubled <= limit)
    decreases limit - capacity
  {
    if capacity >= required then capacity
    else DoubledOf(if 2 * capacity <= limit then 2 * capacity else limit, required, limit)
  }

  /** Doubling from the current capacity, or the inline one, up to the limit. */
  method Doubled(current: nat, inlineCapacity: nat, required: nat, limit: nat) returns (capacity: nat)
    requires 0 < inlineCapacity <= limit && current <= limit && current < required <= limit
    ensures required <= capacity <= limit
    ensures capacity == DoubledOf(if current < inlineCapacity then inlineCapacity else current, required, limit)
  {
    capacity := if current < inlineCapacity then inlineCapacity else current;
    while capacity < required
      invariant 0 < capacity <= limit
      invariant DoubledOf(if current < inlineCapacity then inlineCapacity else current, required, limit)
                == DoubledOf(capacity, required, limit)
      decreases limit - capacity
    {
      var next := capacity * 2;
      capacity := if next <= limit then next else limit;
    }
  }

  /** Doubling never goes further than twice what is needed, nor past the limit. */
  lemma {:induction false} DoublingIsBounded(capacity: nat, required: nat, limit: nat)
    requires 0 < capacity < required <= limit
    ensures DoubledOf(capacity, required, limit) < 2 * required
    decreases limit - capacity
  {
    var next := if 2 * capacity <= limit then 2 * capacity else limit;
    if next < required { DoublingIsBounded(next, required, limit); }
  }
}
