/** The deep copy of an analysis policy: six collections that are inline or on the heap, and the
    custom structures that are always on the heap. */
module PolicyCopy {
  import opened PolicyStore
  import CustomStructs

  const STORE_COUNT: nat := 6
  const STRUCTURED_ITEMS: nat := 1
  const REFERENCE_LIMIT: nat := 512

  /** The limits and inline sizes of the collections, in the order in which they are copied. */
  const LIMITS: seq<nat> := [65535, 32768, 65535, 32768, 65533, 4096]
  const INLINE_SIZES: seq<nat> := [256, 4, 4, 4, 4, 4]

  /** A text in a buffer of fixed size, and the length stored beside it. */
  datatype Text = Text(storage: string, length: nat, capacity: nat)

  /** An element of a collection; only the structured items have texts of their own. */
  datatype Item = Item(texts: seq<Text>, rest: seq<int>)

  function TextLength(storage: string, capacity: nat): nat { if |storage| <= capacity then |storage| else capacity }

  /** The stored length cut to the buffer, or measured when it is 0. */
  function RefreshedText(text: Text): Text {
    if text.length > text.capacity then text.(length := text.capacity)
    else if text.length == 0 then text.(length := TextLength(text.storage, text.capacity))
    else text
  }

  function RefreshedItem(item: Item): Item {
    item.(texts := seq(|item.texts|, i requires 0 <= i < |item.texts| => RefreshedText(item.texts[i])))
  }

  /** Room asked for in collection `k`. */
  datatype Request = Request(k: nat, required: nat, canAllocate: bool)

  class Policy {
    const stores: seq<Store<Item>>
    var custom: array?<CustomStructs.Struct>
    var customCount: nat
    var customCapacity: nat
    var customOwner: bool
    var references: seq<Item>
    var status: nat

    /** The collections have their sizes and do not share storage. */
    ghost predicate Sound()
      reads this, stores
    {
      && |stores| == STORE_COUNT
      && (forall k :: 0 <= k < STORE_COUNT ==>
            stores[k].Sound() && stores[k].limit == LIMITS[k] && stores[k].inline.Length == INLINE_SIZES[k])
      && (forall j, k :: 0 <= j < STORE_COUNT && 0 <= k < STORE_COUNT && j != k ==> stores[j].ApartFrom(stores[k]))
      && (custom != null ==> customCount <= custom.Length)
    }

    /** The checks that a copy makes of its source. */
    ghost predicate Valid()
      reads this, stores, if custom != null then {custom} else {}
    {
      && Sound()
      && (forall k :: 0 <= k < STORE_COUNT ==> stores[k].Valid())
      && (customCount != 0 ==> custom != null)
      && CustomStructs.StructsValid(Custom())
      && |references| <= REFERENCE_LIMIT
    }

    ghost function Custom(): seq<CustomStructs.Struct>
      requires custom != null ==> customCount <= custom.Length
      reads this, if custom != null then {custom} else {}
    {
      if custom == null then [] else custom[..customCount]
    }

    /** The two policies have no memory in common. */
    ghost predicate ApartFrom(other: Policy)
      requires |stores| == |other.stores|
      reads this, other, stores, other.stores
    {
      && this != other
      && (forall j, k :: 0 <= j < |stores| && 0 <= k < |stores| ==> stores[j].ApartFrom(other.stores[k]))
      && (custom != null ==> custom != other.custom)
    }

    /** The heap copy of a collection that does not fit inline. */
    static ghost predicate CopyOf(from: Store<Item>, copy: array?<Item>)
      reads from, from.data, copy
    {
      && from.Valid()
      && (copy != null <==> from.count > from.inline.Length)
      && (copy != null ==> copy.Length == from.count && copy[..] == from.Contents())
    }

    lemma ValidParts()
      requires Valid()
      ensures |stores| == STORE_COUNT && forall k :: 0 <= k < STORE_COUNT ==> stores[k].Valid()
      ensures customCount != 0 ==> custom != null
      ensures custom != null ==> customCount <= custom.Length
    {
    }

    /** The heap copies that a copy of this policy needs, or a failure with nothing changed. The
        custom structures are allocated first, then the collections in order. */
    method MakeCopies(available: nat -> bool)
      returns (ok: bool, copies: seq<array?<Item>>, customCopy: array?<CustomStructs.Struct>)
      requires Valid()
      ensures ok ==>
                && |copies| == STORE_COUNT && FreshCopies(copies)
                && (forall k :: 0 <= k < STORE_COUNT ==> CopyOf(stores[k], copies[k]))
                && (customCopy == null <==> customCount == 0)
                && (customCopy != null ==> fresh(customCopy) && customCopy[..] == Custom())
      ensures !ok ==> exists n: nat :: !available(n)
    {
      hide Valid, Sound;
      ValidParts();
      customCopy := null;
      copies := [];
      if customCount != 0 {
        if !available(0) { return false, copies, null; }
        customCopy := CopyPrefix(custom, customCount);
      }
      for n := 0 to STORE_COUNT
        invariant |copies| == n && FreshCopies(copies)
        invariant forall k :: 0 <= k < n ==> CopyOf(stores[k], copies[k])
        invariant customCopy == null <==> customCount == 0
        invariant customCopy != null ==> fresh(customCopy) && customCopy[..] == Custom()
      {
        var copy: array?<Item> := null;
        if stores[n].count > stores[n].inline.Length {
          if !available(n + 1) { return false, copies, customCopy; }
          copy := CopyPrefix(stores[n].data, stores[n].count);
        }
        copies := copies + [copy];
      }
      ok := true;
    }

    /** The inline buffers of the collections. */
    ghost function Inlines(): set<object> { set k | 0 <= k < |stores| :: stores[k].inline }

    /** Collection `k` holds what the source's collection held, inline or in its own copy. */
    ghost predicate Adopted(k: nat, contents: seq<Item>, copies: seq<array?<Item>>)
      requires k < |stores| && k < |copies|
      reads stores[k], stores[k].data
    {
      stores[k].Valid() && stores[k].Held() == contents && Placed(k, copies)
    }

    /** Collection `k` is inline or in its own copy. */
    ghost predicate Placed(k: nat, copies: seq<array?<Item>>)
      requires k < |stores| && k < |copies|
      reads stores[k]
    {
      stores[k].data == if copies[k] == null then stores[k].inline else copies[k]
    }

    /** Collections in their places have no memory in common. */
    lemma PlacedApart(src: Policy, copies: seq<array?<Item>>)
      requires |stores| == |src.stores| == |copies| && Apart(src, copies)
      requires forall j, k :: 0 <= j < |copies| && 0 <= k < |copies| && j != k && copies[j] != null ==> copies[j] != copies[k]
      requires forall k :: 0 <= k < |stores| ==> Placed(k, copies)
      requires forall k :: 0 <= k < |stores| && copies[k] != null ==> copies[k] != stores[k].inline
      ensures forall j, k :: 0 <= j < |stores| && 0 <= k < |stores| && j != k ==>
                stores[j].ApartFrom(stores[k]) && stores[j].data != stores[k].data
      ensures forall j, k :: 0 <= j < |stores| && 0 <= k < |stores| ==>
                stores[j].data != null && stores[j].ApartFrom(src.stores[k])
    {
      forall j, k | 0 <= j < |stores| && 0 <= k < |stores|
        ensures j != k ==> stores[j].ApartFrom(stores[k]) && stores[j].data != stores[k].data
        ensures stores[j].data != null && stores[j].ApartFrom(src.stores[k])
      {
        assert Placed(j, copies) && Placed(k, copies);
      }
    }

    /** Collection `k` can adopt the source's collection, whatever the others are. */
    ghost predicate CanAdopt(src: Policy, k: nat, copies: seq<array?<Item>>)
      requires k < |stores| && k < |src.stores| && k < |copies|
      reads stores[k], src.stores[k]
    {
      && stores[k] != src.stores[k] && stores[k].inline != src.stores[k].inline
      && stores[k].inline != src.stores[k].data
      && stores[k].limit == src.stores[k].limit
      && 0 < stores[k].inline.Length == src.stores[k].inline.Length <= stores[k].limit
      && (copies[k] != null ==> copies[k] != stores[k].inline)
    }

    /** What one collection writes is not what another, or the source, reads. */
    ghost predicate Apart(src: Policy, copies: seq<array?<Item>>)
      requires |stores| == |src.stores| == |copies|
      reads src.stores
    {
      && (forall j, k :: 0 <= j < |stores| && 0 <= k < |stores| && j != k ==>
            stores[j] != stores[k] && stores[j].inline != stores[k].inline)
      && (forall j, k :: 0 <= j < |stores| && 0 <= k < |stores| ==>
            && stores[j] != src.stores[k]
            && stores[j].inline != src.stores[k].data && stores[j].inline != src.stores[k].inline
            && (copies[k] != null ==> copies[k] != stores[j].inline && copies[k] != src.stores[j].data
                                      && copies[k] != src.stores[j].inline))
    }

    /** The source's collection `k` holds this, and its copy too. */
    static ghost predicate Source(from: Store<Item>, copy: array?<Item>, contents: seq<Item>)
      reads from, from.data, copy
    {
      CopyOf(from, copy) && from.Held() == contents
    }

    /** Takes over every collection from the source or from its copies. */
    method AdoptAll(src: Policy, copies: seq<array?<Item>>, ghost contents: seq<seq<Item>>)
      requires |stores| == |src.stores| == |copies| == |contents| == STORE_COUNT
      requires forall k :: 0 <= k < STORE_COUNT ==> Source(src.stores[k], copies[k], contents[k]) && CanAdopt(src, k, copies)
      requires Apart(src, copies)
      modifies stores, Inlines()
      ensures Apart(src, copies)
      ensures forall k :: 0 <= k < STORE_COUNT ==>
                Adopted(k, contents[k], copies) && Source(src.stores[k], copies[k], contents[k])
    {
      hide Source;
      for n := 0 to STORE_COUNT
        invariant Apart(src, copies)
        invariant forall k :: 0 <= k < n ==> Adopted(k, contents[k], copies)
        invariant forall k :: 0 <= k < STORE_COUNT ==> Source(src.stores[k], copies[k], contents[k])
        invariant forall k :: n <= k < STORE_COUNT ==> CanAdopt(src, k, copies)
      {
        AdoptOne(src, n, copies, contents[n]);
      }
    }

    method AdoptOne(src: Policy, n: nat, copies: seq<array?<Item>>, ghost contents: seq<Item>)
      requires |stores| == |src.stores| == |copies| && n < |stores| && Apart(src, copies)
      requires Source(src.stores[n], copies[n], contents) && CanAdopt(src, n, copies)
      modifies stores[n], stores[n].inline
      ensures Adopted(n, contents, copies)
    {
      stores[n].Adopt(src.stores[n], copies[n]);
    }

    /** The heap copies are in nobody's use. */
    ghost predicate Unused(copies: seq<array?<Item>>)
      requires |stores| == |copies|
      reads this, stores
    {
      forall j, k :: 0 <= j < |copies| && 0 <= k < |copies| && copies[j] != null ==>
        copies[j] != stores[k].inline && copies[j] != stores[k].data
    }

    /** The collections of two sound policies in separate memory can be copied into each other. */
    lemma SeparateStores(src: Policy, copies: seq<array?<Item>>)
      requires Sound() && src.Valid() && |copies| == STORE_COUNT && ApartFrom(src) && Unused(copies) && src.Unused(copies)
      ensures |stores| == |src.stores| == STORE_COUNT && Apart(src, copies)
      ensures forall k :: 0 <= k < STORE_COUNT ==> CanAdopt(src, k, copies)
    {
      assert forall k :: 0 <= k < STORE_COUNT ==> stores[k].ApartFrom(src.stores[k]);
    }

    method CheckValid() returns (valid: bool)
      requires Sound()
      ensures valid == Valid()
    {
      for n := 0 to STORE_COUNT
        invariant forall k :: 0 <= k < n ==> stores[k].Valid()
      {
        if !stores[n].Valid() { return false; }
      }
      if customCount != 0 && custom == null { return false; }
      if |references| > REFERENCE_LIMIT { return false; }
      valid := CustomStructs.CustomStructsValid(if custom == null then [] else custom[..customCount]);
    }

    /** The policy holds what the other one holds, its structured items refreshed. */
    ghost predicate Equals(other: Policy)
      requires |stores| == |other.stores| == STORE_COUNT
      requires custom != null ==> customCount <= custom.Length
      requires other.custom != null ==> other.customCount <= other.custom.Length
      reads this, other, stores, other.stores
      reads set k | 0 <= k < |stores| && stores[k].data != null :: stores[k].data
      reads set k | 0 <= k < |other.stores| && other.stores[k].data != null :: other.stores[k].data
      reads if custom != null then {custom} else {}, if other.custom != null then {other.custom} else {}
    {
      && (forall k :: 0 <= k < STORE_COUNT ==>
            stores[k].Held() == Expected(k, other.stores[k].Held()))
      && Custom() == other.Custom() && references == other.references && status == other.status
    }

    /** What collection `k` of a copy holds. */
    static ghost function Expected(k: nat, contents: seq<Item>): seq<Item> {
      if k == STRUCTURED_ITEMS then Refreshed(contents) else contents
    }

    /** The copies are different arrays. */
    static ghost predicate DifferentCopies(copies: seq<array?<Item>>) {
      forall j, k :: 0 <= j < |copies| && 0 <= k < |copies| && j != k && copies[j] != null ==> copies[j] != copies[k]
    }

    /** Refreshes the structured items and leaves the other collections alone. */
    method RefreshStructured(src: Policy, copies: seq<array?<Item>>, ghost contents: seq<seq<Item>>)
      requires |stores| == |src.stores| == |copies| == |contents| == STORE_COUNT
      requires forall k :: 0 <= k < STORE_COUNT ==>
                 Adopted(k, contents[k], copies) && Source(src.stores[k], copies[k], contents[k])
      requires forall j, k :: 0 <= j < STORE_COUNT && 0 <= k < STORE_COUNT && j != k ==>
                 stores[j].ApartFrom(stores[k]) && stores[j].data != stores[k].data
      requires forall j, k :: 0 <= j < STORE_COUNT && 0 <= k < STORE_COUNT ==>
                 stores[j].data != null && stores[j].data != src.stores[k].data
      modifies if stores[STRUCTURED_ITEMS].data != null then {stores[STRUCTURED_ITEMS].data} else {}
      ensures forall k :: 0 <= k < STORE_COUNT ==> Adopted(k, Expected(k, contents[k]), copies)
      ensures forall k :: 0 <= k < STORE_COUNT ==> src.stores[k].Valid() && src.stores[k].Held() == contents[k]
    {
      hide Adopted, Refreshed, CopyOf;
      assert forall k :: 0 <= k < STORE_COUNT ==> src.stores[k].Held() == contents[k];
      SourcesAreValid(src, copies, contents);
      RefreshAdopted(STRUCTURED_ITEMS, contents[STRUCTURED_ITEMS], copies);
    }

    static lemma SourcesAreValid(src: Policy, copies: seq<array?<Item>>, contents: seq<seq<Item>>)
      requires |src.stores| == |copies| == |contents|
      requires forall k :: 0 <= k < |copies| ==> Source(src.stores[k], copies[k], contents[k])
      ensures forall k :: 0 <= k < |copies| ==> src.stores[k].Valid() && src.stores[k].Held() == contents[k]
    {
      forall k | 0 <= k < |copies| ensures src.stores[k].Valid() && src.stores[k].Held() == contents[k] {
        assert Source(src.stores[k], copies[k], contents[k]);
      }
    }

    /** Adopts every collection and refreshes the structured items. */
    method TakeStores(src: Policy, copies: seq<array?<Item>>, ghost contents: seq<seq<Item>>)
      requires |stores| == |src.stores| == |copies| == |contents| == STORE_COUNT
      requires forall k :: 0 <= k < STORE_COUNT ==> Source(src.stores[k], copies[k], contents[k]) && CanAdopt(src, k, copies)
      requires Apart(src, copies) && DifferentCopies(copies)
      modifies stores, Inlines(), set k | 0 <= k < |copies| && copies[k] != null :: copies[k]
      ensures forall k :: 0 <= k < STORE_COUNT ==> Adopted(k, Expected(k, contents[k]), copies)
      ensures forall j, k :: 0 <= j < STORE_COUNT && 0 <= k < STORE_COUNT && j != k ==> stores[j].ApartFrom(stores[k])
      ensures forall j, k :: 0 <= j < STORE_COUNT && 0 <= k < STORE_COUNT ==> stores[j].ApartFrom(src.stores[k])
      ensures forall k :: 0 <= k < STORE_COUNT ==> src.stores[k].Valid() && src.stores[k].Held() == contents[k]
    {
      AllMayBeAdopted(src, copies);
      hide Source, Refreshed, CanAdopt;
      AdoptAll(src, copies, contents);
      AllPlaced(contents, copies);
      PlacedApart(src, copies);
      StructuredIsWritable(copies);
      RefreshStructured(src, copies, contents);
    }

    lemma AllMayBeAdopted(src: Policy, copies: seq<array?<Item>>)
      requires |stores| == |src.stores| == |copies|
      requires forall k :: 0 <= k < |copies| ==> CanAdopt(src, k, copies)
      ensures forall k :: 0 <= k < |copies| && copies[k] != null ==> copies[k] != stores[k].inline
    {
      forall k | 0 <= k < |copies| && copies[k] != null ensures copies[k] != stores[k].inline {
        assert CanAdopt(src, k, copies);
      }
    }

    lemma AllPlaced(contents: seq<seq<Item>>, copies: seq<array?<Item>>)
      requires |stores| == |copies| == |contents|
      requires forall k :: 0 <= k < |stores| ==> Adopted(k, contents[k], copies)
      ensures forall k :: 0 <= k < |stores| ==> Placed(k, copies)
    {
      forall k | 0 <= k < |stores| ensures Placed(k, copies) { assert Adopted(k, contents[k], copies); }
    }

    lemma StructuredIsWritable(copies: seq<array?<Item>>)
      requires |stores| == |copies| == STORE_COUNT && forall k :: 0 <= k < STORE_COUNT ==> Placed(k, copies)
      ensures var data := stores[STRUCTURED_ITEMS].data;
              data in Inlines() || (exists k :: 0 <= k < |copies| && copies[k] == data)
    {
      assert Placed(STRUCTURED_ITEMS, copies);
      assert stores[STRUCTURED_ITEMS].inline in Inlines();
    }

    method RefreshAdopted(k: nat, ghost contents: seq<Item>, ghost copies: seq<array?<Item>>)
      requires k < |stores| && k < |copies| && Adopted(k, contents, copies)
      modifies if stores[k].data != null then {stores[k].data} else {}
      ensures Adopted(k, Refreshed(contents), copies)
    {
      RefreshItems(stores[k]);
    }

    /** Every collection is inline or in memory that is new, and so are the custom structures. */
    twostate predicate InNewMemory()
      reads this, stores
    {
      && (forall k :: 0 <= k < |stores| && stores[k].data != null ==> stores[k].data == stores[k].inline || fresh(stores[k].data))
      && (custom != null ==> fresh(custom))
    }

    lemma ValidIsSound()
      requires Valid()
      ensures Sound()
    {
      hide Sound;
    }

    lemma InlinesOutOfReach(src: Policy)
      requires Sound() && src.Sound() && ApartFrom(src)
      ensures |src.stores| == STORE_COUNT && this != src && (src as object) !in Inlines()
      ensures src.custom != null ==> (src.custom as object) !in Inlines()
      ensures forall k :: 0 <= k < STORE_COUNT ==>
                src.stores[k] !in stores && (src.stores[k] as object) !in Inlines()
                && (src.stores[k].data != null ==> (src.stores[k].data as object) !in Inlines())
    {
    }

    /** Arrays that have just been allocated are in nobody's use. */
    twostate lemma FreshIsUnused(new copies: seq<array?<Item>>)
      requires FreshCopies(copies) && |copies| == |stores|
      requires forall k :: 0 <= k < |stores| ==> unchanged(stores[k])
      ensures Unused(copies)
    {
    }

    /** Collections in their places, with copies that have just been made, are in new memory. */
    twostate lemma PlacedInNewMemory(new copies: seq<array?<Item>>)
      requires |copies| == |stores| && FreshCopies(copies) && forall k :: 0 <= k < |stores| ==> Placed(k, copies)
      requires custom != null ==> fresh(custom)
      ensures InNewMemory()
    {
      forall k | 0 <= k < |stores| && stores[k].data != null
        ensures stores[k].data == stores[k].inline || fresh(stores[k].data)
      {
        assert Placed(k, copies);
      }
    }

    /** The copy: -1 and nothing changed, or 0. Copying a policy onto itself does nothing. */
    method CopyFrom(src: Policy, available: nat -> bool) returns (code: int)
      requires Sound() && src.Sound() && (src == this || ApartFrom(src))
      modifies this, stores, Inlines()
      ensures code == 0 || code == -1
      ensures code == -1 <== !old(src.Valid())
      ensures code == -1 && old(src.Valid()) ==> exists n: nat :: !available(n)
      ensures code == -1 || src == this ==>
                unchanged(this) && forall k :: 0 <= k < STORE_COUNT ==> unchanged(stores[k]) && unchanged(stores[k].inline)
      ensures code == 0 && src != this ==> Valid() && src.Valid() && ApartFrom(src) && Equals(src) && InNewMemory()
      ensures src != this ==> Sound() && ApartFrom(src) && src.Kept()
    {
      hide Valid, Sound, Equals, ApartFrom, Unused, Store.ApartFrom, AllHeld, Custom, KeptAll, CopyOf, Store.Held, Inlines,
           StoreSet, Placed, InNewMemory, Store.Valid;
      StoresArePresent();
      var valid := src.CheckValid();
      if !valid { return -1; }
      if src == this { return 0; }
      InlinesOutOfReach(src);
      var ok, copies, customCopy := src.MakeCopies(available);
      if !ok { return -1; }
      FreshIsUnused(copies);
      src.FreshIsUnused(copies);
      Commit(src, copies, customCopy);
      ValidIsSound();
      PlacedInNewMemory(copies);
      src.NotReached();
      src.StillHolds();
      return 0;
    }

    /** Nothing can fail any more: the policy becomes the copy. */
    method Commit(src: Policy, copies: seq<array?<Item>>, customCopy: array?<CustomStructs.Struct>)
      requires Sound() && src.Valid() && this != src && ApartFrom(src)
      requires |copies| == STORE_COUNT && DifferentCopies(copies)
      requires forall k :: 0 <= k < STORE_COUNT ==> CopyOf(src.stores[k], copies[k])
      requires Unused(copies) && src.Unused(copies)
      requires customCopy == null <==> src.customCount == 0
      requires customCopy != null ==> customCopy != src.custom && customCopy[..] == src.Custom()
      modifies this, stores, Inlines(), set k | 0 <= k < |copies| && copies[k] != null :: copies[k]
      ensures Valid() && src.Valid() && ApartFrom(src) && Equals(src)
      ensures custom == customCopy && |stores| == STORE_COUNT && forall k :: 0 <= k < STORE_COUNT ==> Placed(k, copies)
    {
      hide CopyOf, Refreshed, Adopted, Valid, Sound, Equals, ApartFrom, Unused, DifferentCopies, Store.ApartFrom;
      StoresArePresent();
      src.ValidParts();
      ghost var structs := src.Custom();
      CommitStores(src, copies);
      assert src.Custom() == structs;
      TakeScalars(src, customCopy);
      CommittedIsCopy(src, copies);
    }

    method TakeScalars(src: Policy, customCopy: array?<CustomStructs.Struct>)
      requires src != this
      modifies this
      ensures custom == customCopy && customCount == src.customCount && customCapacity == src.customCount
      ensures references == src.references && status == src.status
    {
      custom, customCount, customCapacity := customCopy, src.customCount, src.customCount;
      customOwner := src.customCount != 0;
      references, status := src.references, src.status;
    }

    lemma StoresArePresent()
      requires Sound()
      ensures |stores| == STORE_COUNT
      ensures forall k :: 0 <= k < STORE_COUNT ==>
                stores[k].limit == LIMITS[k] && stores[k].inline.Length == INLINE_SIZES[k]
    {
    }

    lemma StoreIsSound(k: nat)
      requires Sound() && k < STORE_COUNT
      ensures |stores| == STORE_COUNT && stores[k].Sound() && stores[k].limit == LIMITS[k]
    {
    }

    method CommitStores(src: Policy, copies: seq<array?<Item>>)
      requires Sound() && src.Valid() && ApartFrom(src) && |copies| == STORE_COUNT && DifferentCopies(copies)
      requires forall k :: 0 <= k < STORE_COUNT ==> CopyOf(src.stores[k], copies[k])
      requires Unused(copies) && src.Unused(copies)
      modifies stores, Inlines(), set k | 0 <= k < |copies| && copies[k] != null :: copies[k]
      ensures |stores| == STORE_COUNT && src.Valid()
      ensures forall k :: 0 <= k < STORE_COUNT ==> Adopted(k, Expected(k, src.stores[k].Held()), copies)
      ensures forall j, k :: 0 <= j < STORE_COUNT && 0 <= k < STORE_COUNT && j != k ==> stores[j].ApartFrom(stores[k])
      ensures forall j, k :: 0 <= j < STORE_COUNT && 0 <= k < STORE_COUNT ==> stores[j].ApartFrom(src.stores[k])
    {
      hide CopyOf, Refreshed, Adopted, CanAdopt, Source, Valid, Sound;
      SeparateStores(src, copies);
      ghost var contents := src.AllHeld();
      SourcesHold(src, copies);
      TakeStores(src, copies, contents);
    }

    ghost function AllHeld(): (held: seq<seq<Item>>)
      reads this, stores, set k | 0 <= k < |stores| && stores[k].data != null :: stores[k].data
      ensures |held| == |stores| && forall k :: 0 <= k < |stores| ==> held[k] == stores[k].Held()
    {
      HeldUpTo(|stores|)
    }

    ghost function HeldUpTo(n: nat): (held: seq<seq<Item>>)
      requires n <= |stores|
      reads this, stores, set k | 0 <= k < |stores| && stores[k].data != null :: stores[k].data
      ensures |held| == n && forall k :: 0 <= k < n ==> held[k] == stores[k].Held()
    {
      if n == 0 then [] else HeldUpTo(n - 1) + [stores[n - 1].Held()]
    }

    static lemma SourcesHold(src: Policy, copies: seq<array?<Item>>)
      requires |src.stores| == |copies|
      requires forall k :: 0 <= k < |copies| ==> CopyOf(src.stores[k], copies[k])
      ensures forall k :: 0 <= k < |copies| ==> Source(src.stores[k], copies[k], src.AllHeld()[k])
    {
    }

    /** What the copy has become, put together. */
    lemma CommittedIsCopy(src: Policy, copies: seq<array?<Item>>)
      requires |stores| == STORE_COUNT && src.Valid() && |copies| == STORE_COUNT && this != src
      requires forall k :: 0 <= k < STORE_COUNT ==>
                 && Adopted(k, Expected(k, src.stores[k].Held()), copies)
                 && stores[k].limit == LIMITS[k] && stores[k].inline.Length == INLINE_SIZES[k]
      requires forall j, k :: 0 <= j < STORE_COUNT && 0 <= k < STORE_COUNT && j != k ==> stores[j].ApartFrom(stores[k])
      requires forall j, k :: 0 <= j < STORE_COUNT && 0 <= k < STORE_COUNT ==> stores[j].ApartFrom(src.stores[k])
      requires custom != null ==> custom != src.custom && customCount == custom.Length && custom[..] == src.Custom()
      requires custom == null <==> src.customCount == 0
      requires customCount == src.customCount && references == src.references && status == src.status
      ensures Valid() && ApartFrom(src) && Equals(src)
      ensures forall k :: 0 <= k < STORE_COUNT ==> Placed(k, copies)
    {
      hide Refreshed;
      assert custom != null ==> custom[..customCount] == custom[..];
      forall k | 0 <= k < STORE_COUNT
        ensures stores[k].Valid() && stores[k].Held() == Expected(k, src.stores[k].Held())
      {
        assert Adopted(k, Expected(k, src.stores[k].Held()), copies);
      }
    }

    /** The status that a collection leaves when its limit is exceeded; manual representations
        leave none. */
    static function StatusOf(k: nat): nat {
      if k == 0 then 6 else if k == 1 then 1 else if k == 2 then 7 else if k == 3 then 2 else if k == 4 then 5 else 0
    }

    ghost function StoreSet(): (all: set<Store<Item>>)
      ensures forall k :: 0 <= k < |stores| ==> stores[k] in all
    {
      set k | 0 <= k < |stores| :: stores[k]
    }

    /** The collections besides `k`. */
    ghost function Besides(k: nat): set<Store<Item>>
      requires k < |stores|
    {
      StoreSet() - {stores[k]}
    }

    /** A valid policy is still valid and holds what it held. */
    twostate predicate HoldsTheSame()
      reads this, stores, set k | 0 <= k < |stores| && stores[k].data != null :: stores[k].data,
            if custom != null then {custom} else {}
    {
      old(Valid()) ==> Valid() && AllHeld() == old(AllHeld()) && Custom() == old(Custom())
    }

    /** Collection `k` has its buffers, and when it was valid it still is and holds the same; the other
        collections are as they were. */
    twostate predicate Grown(k: nat)
      requires k < |stores|
      reads stores, set j | 0 <= j < |stores| && stores[j].data != null :: stores[j].data
    {
      && stores[k].Sound() && stores[k].ApartFromAll(Besides(k)) && KeptAll(Besides(k))
      && (old(stores[k].Valid()) ==> stores[k].Valid() && stores[k].Held() == old(stores[k].Held()))
    }

    /** Reserves room in collection `k` and keeps the others, here and elsewhere. */
    method ReserveCollection(k: nat, required: nat, canAllocate: bool, ghost elsewhere: set<Store<Item>>) returns (code: int)
      requires Sound() && k < STORE_COUNT && stores[k].ApartFromAll(Besides(k)) && stores[k].ApartFromAll(elsewhere)
      modifies stores[k], if stores[k].owner && stores[k].data != null then {stores[k].data} else {}
      ensures required > LIMITS[k] ==> code == CAPACITY_EXCEEDED
      ensures required <= LIMITS[k] ==> code == 0 || code == -1
      ensures required <= LIMITS[k] && code == -1 ==> !canAllocate || !old(stores[k].Valid())
      ensures code == 0 ==> required <= stores[k].capacity
      ensures stores[k].data == old(stores[k].data) || stores[k].data == stores[k].inline || fresh(stores[k].data)
      ensures stores[k].ApartFromAll(elsewhere) && KeptAll(elsewhere) && Grown(k)
    {
      hide Valid, Store.ApartFrom, Store.Valid, AllHeld, Store.Held, Custom, StoreSet;
      StoreIsSound(k);
      code := stores[k].Reserve(required, canAllocate, Besides(k) + elsewhere);
    }

    /** The same for the policy as a whole. */
    method ReserveWithin(k: nat, required: nat, canAllocate: bool, ghost elsewhere: set<Store<Item>>) returns (code: int)
      requires Sound() && k < STORE_COUNT && stores[k].ApartFromAll(Besides(k)) && stores[k].ApartFromAll(elsewhere)
      modifies stores[k], if stores[k].owner && stores[k].data != null then {stores[k].data} else {}
      ensures required > LIMITS[k] ==> code == CAPACITY_EXCEEDED
      ensures required <= LIMITS[k] ==> code == 0 || code == -1
      ensures required <= LIMITS[k] && code == -1 ==> !canAllocate || !old(stores[k].Valid())
      ensures code == 0 ==> required <= stores[k].capacity
      ensures stores[k].data == old(stores[k].data) || stores[k].data == stores[k].inline || fresh(stores[k].data)
      ensures stores[k].ApartFromAll(elsewhere) && KeptAll(elsewhere)
      ensures forall j :: 0 <= j < STORE_COUNT && stores[j] != stores[k] ==> unchanged(stores[j])
      ensures Sound()
      ensures HoldsTheSame()
    {
      hide Sound, Valid, Store.ApartFrom, Store.Valid, KeptAll, AllHeld, Store.Held, Store.ApartFromAll, Custom, Grown, StoreSet,
           Besides;
      StoreIsSound(k);
      code := ReserveCollection(k, required, canAllocate, elsewhere);
      StillSound(k);
      GrownKeeps(k);
    }

    /** The policy after one of its collections has grown. */
    twostate lemma StillSound(k: nat)
      requires old(Sound()) && k < STORE_COUNT == |stores| && Grown(k)
      requires custom == old(custom) && customCount == old(customCount) && references == old(references)
      requires custom != null ==> custom[..] == old(if custom != null then custom[..] else [])
      ensures Sound()
      ensures HoldsTheSame()
    {
      forall j | 0 <= j < STORE_COUNT && j != k
        ensures unchanged(stores[j]) && stores[j].Held() == old(stores[j].Held()) && stores[k].ApartFrom(stores[j])
      {
        assert stores[j] in Besides(k);
      }
    }

    /** The policy and everything it holds are as they were. */
    twostate predicate Kept()
      reads this, stores, set k | 0 <= k < |stores| && stores[k].data != null :: stores[k].data,
            if custom != null then {custom} else {}
    {
      && old(Sound()) && Sound() && unchanged(this)
      && AllHeld() == old(AllHeld()) && Custom() == old(Custom()) && (old(Valid()) ==> Valid())
    }

    /** A policy none of whose memory has changed. */
    twostate lemma StillHolds()
      requires old(Sound()) && KeptAll(StoreSet()) && unchanged(this)
      requires custom != null ==> custom[..] == old(if custom != null then custom[..] else [])
      ensures Kept()
    {
      forall j | 0 <= j < STORE_COUNT
        ensures unchanged(stores[j]) && stores[j].Held() == old(stores[j].Held())
      {
        assert stores[j] in StoreSet();
      }
    }

    /** Policies whose collections are kept or still apart are apart. */
    twostate lemma StillApart(other: Policy)
      requires |stores| == |other.stores| && old(ApartFrom(other))
      requires KeptAll(other.StoreSet()) && custom == old(custom) && other.custom == old(other.custom)
      requires forall j :: 0 <= j < |stores| ==> unchanged(stores[j]) || stores[j].ApartFromAll(other.StoreSet())
      ensures ApartFrom(other)
    {
      forall i, j | 0 <= i < |other.stores| && 0 <= j < |stores|
        ensures stores[j].ApartFrom(other.stores[i])
      {
        assert other.stores[i] in other.StoreSet();
      }
    }

    /** Too much has been asked of collection `k`: a status is left, and nothing else changes. */
    method Exceeded(k: nat) returns (code: int)
      requires Sound() && k < STORE_COUNT
      modifies this`status
      ensures code == if StatusOf(k) == 0 then -1 else CAPACITY_EXCEEDED
      ensures status == if StatusOf(k) != 0 then StatusOf(k) else old(status)
      ensures Sound()
      ensures HoldsTheSame()
    {
      if StatusOf(k) == 0 { return -1; }
      status := StatusOf(k);
      code := CAPACITY_EXCEEDED;
    }

    /** Reserves room in collection `k`. The policy keeps everything it holds, and so does a policy in
        memory of its own, such as a copy or the source of one. */
    method Reserve(k: nat, required: nat, canAllocate: bool, ghost other: Policy?) returns (code: int)
      requires Sound() && k < STORE_COUNT && (other != null ==> other.Sound() && ApartFrom(other))
      modifies this`status, stores[k], if stores[k].owner && stores[k].data != null then {stores[k].data} else {}
      ensures required > LIMITS[k] ==> code == if StatusOf(k) == 0 then -1 else CAPACITY_EXCEEDED
      ensures required <= LIMITS[k] ==> code == 0 || code == -1
      ensures required <= LIMITS[k] && code == -1 ==> !canAllocate || !old(stores[k].Valid())
      ensures status == if required > LIMITS[k] && StatusOf(k) != 0 then StatusOf(k) else old(status)
      ensures code == 0 ==> required <= stores[k].capacity
      ensures stores[k].data == old(stores[k].data) || stores[k].data == stores[k].inline || fresh(stores[k].data)
      ensures Sound()
      ensures HoldsTheSame()
      ensures forall j :: 0 <= j < STORE_COUNT && stores[j] != stores[k] ==> unchanged(stores[j])
      ensures other != null ==> ApartFrom(other) && other.Kept()
    {
      hide Sound, Valid, ApartFrom, Store.ApartFrom, Store.Valid, KeptAll, AllHeld, Store.Held, Store.ApartFromAll, Custom,
           StoreSet, Besides, Store.Sound;
      StoreIsSound(k);
      if other != null { other.StoreIsSound(k); }
      ghost var elsewhere := if other == null then {} else other.StoreSet();
      OthersApart(k, other);
      if required > LIMITS[k] {
        code := Exceeded(k);
        NothingChanged(elsewhere);
      } else {
        code := ReserveWithin(k, required, canAllocate, elsewhere);
      }
      if other != null {
        other.StillHolds();
        StillApart(other);
      }
    }

    /** Without a change to a store or its buffer all are kept. */
    twostate lemma NothingChanged(others: set<Store<Item>>)
      requires forall other :: other in others ==> unchanged(other) && (other.data != null ==> unchanged(other.data))
      ensures KeptAll(others)
    {
    }

    twostate lemma GrownKeeps(k: nat)
      requires k < |stores| && Grown(k)
      ensures forall j :: 0 <= j < |stores| && stores[j] != stores[k] ==> unchanged(stores[j])
    {
      forall j | 0 <= j < |stores| && stores[j] != stores[k]
        ensures unchanged(stores[j])
      {
        assert stores[j] in Besides(k);
      }
    }

    /** The heap buffers that the collections own. */
    ghost function OwnBuffers(): set<object>
      reads stores
    {
      set k | 0 <= k < |stores| && stores[k].owner && stores[k].data != null :: stores[k].data
    }

    /** Collection `k` is empty in its inline buffer. */
    ghost predicate Emptied(k: nat)
      requires k < |stores|
      reads stores[k], stores[k].data
    {
      && stores[k].Valid() && stores[k].Held() == [] && stores[k].data == stores[k].inline
      && stores[k].capacity == stores[k].inline.Length && !stores[k].owner
    }

    /** Collection `n` is destroyed, and the buffers of the others are kept. */
    method DestroyOne(n: nat)
      requires |stores| == STORE_COUNT && n < STORE_COUNT && stores[n].Sound()
      requires forall k :: 0 <= k < STORE_COUNT && k != n ==> stores[k].ApartFrom(stores[n])
      modifies stores[n], if stores[n].owner && stores[n].data != null then {stores[n].data} else {}
      ensures Emptied(n) && forall k :: 0 <= k < STORE_COUNT && k != n && old(Emptied(k)) ==> Emptied(k)
    {
      stores[n].Destroy({});
    }

    /** Gives every owned buffer back; every collection is empty in its inline buffer. */
    method DestroyStores()
      requires |stores| == STORE_COUNT && forall k :: 0 <= k < STORE_COUNT ==> stores[k].Sound()
      requires forall j, k :: 0 <= j < STORE_COUNT && 0 <= k < STORE_COUNT && j != k ==> stores[j].ApartFrom(stores[k])
      modifies stores, OwnBuffers()
      ensures forall k :: 0 <= k < STORE_COUNT ==> Emptied(k)
    {
      for n := 0 to STORE_COUNT
        invariant forall k :: 0 <= k < n ==> Emptied(k)
        invariant forall k :: n <= k < STORE_COUNT ==> unchanged(stores[k])
      {
        forall k | 0 <= k < STORE_COUNT && k != n ensures stores[k].ApartFrom(stores[n]) {
          assert old(stores[k].ApartFrom(stores[n])) && (k < n ==> Emptied(k));
        }
        DestroyOne(n);
      }
    }

    /** A policy in memory of its own is out of reach of what is written here. */
    lemma OutOfReach(other: Policy)
      requires Sound() && other.Sound() && ApartFrom(other)
      ensures this != other && (custom != null ==> custom != other.custom)
      ensures forall k :: 0 <= k < STORE_COUNT ==>
                other.stores[k] !in stores
                && (other.stores[k].data != null ==> (other.stores[k].data as object) !in OwnBuffers())
    {
    }

    lemma StoresAreSound()
      requires Sound()
      ensures |stores| == STORE_COUNT && forall k :: 0 <= k < STORE_COUNT ==> stores[k].Sound()
      ensures forall j, k :: 0 <= j < STORE_COUNT && 0 <= k < STORE_COUNT && j != k ==> stores[j].ApartFrom(stores[k])
    {
    }

    twostate lemma NotReached()
      requires forall k :: 0 <= k < |stores| ==>
                 unchanged(stores[k]) && (stores[k].data != null ==> unchanged(stores[k].data))
      ensures KeptAll(StoreSet())
    {
      forall k | 0 <= k < |stores|
        ensures unchanged(stores[k]) && stores[k].Held() == old(stores[k].Held())
      {
      }
    }

    twostate lemma EmptiedIsSound()
      requires old(Sound()) && custom == null && customCount == 0
      requires |stores| == STORE_COUNT && forall k :: 0 <= k < STORE_COUNT ==> Emptied(k)
      ensures Sound() && (Valid() <==> |references| <= REFERENCE_LIMIT)
    {
      assert old(Sound());
      forall k | 0 <= k < STORE_COUNT
        ensures stores[k].Valid() && stores[k].limit == LIMITS[k] && stores[k].inline.Length == INLINE_SIZES[k]
      {
        assert Emptied(k);
      }
      forall j, k | 0 <= j < STORE_COUNT && 0 <= k < STORE_COUNT && j != k
        ensures stores[j].ApartFrom(stores[k])
      {
        assert Emptied(j) && Emptied(k) && old(stores[j].ApartFrom(stores[k]));
      }
    }

    twostate lemma EmptiedStaysApart(other: Policy)
      requires |stores| == |other.stores| && old(ApartFrom(other)) && custom == null
      requires forall k :: 0 <= k < |stores| ==> Emptied(k)
      requires forall k :: 0 <= k < |stores| ==> unchanged(other.stores[k])
      ensures ApartFrom(other)
    {
      forall j, k | 0 <= j < |stores| && 0 <= k < |stores|
        ensures stores[j].ApartFrom(other.stores[k])
      {
        assert Emptied(j) && old(stores[j].ApartFrom(other.stores[k])) && unchanged(other.stores[k]);
      }
    }

    /** Destroys the policy: every buffer it owns is given back, and it is empty and can be used again. A
        policy in memory of its own, such as a copy or the source of one, keeps everything. */
    method Destroy(ghost other: Policy?)
      requires Sound() && (other != null ==> other.Sound() && ApartFrom(other))
      modifies this, stores, OwnBuffers(), if customOwner && custom != null then {custom} else {}
      ensures Sound() && forall k :: 0 <= k < STORE_COUNT ==> Emptied(k)
      ensures custom == null && customCount == 0 && customCapacity == 0 && !customOwner && status == 0
      ensures references == old(references) && (Valid() <==> |references| <= REFERENCE_LIMIT)
      ensures other != null ==> ApartFrom(other) && other.Kept()
    {
      hide Sound, Valid, ApartFrom, Store.ApartFrom, Emptied, Store.Held, Custom, StoreSet, AllHeld, KeptAll;
      StoresArePresent();
      StoresAreSound();
      if other != null {
        OutOfReach(other);
        other.StoresArePresent();
      }
      DestroyStores();
      if customOwner && custom != null { Release(custom); }
      custom, customCount, customCapacity, customOwner, status := null, 0, 0, false, 0;
      EmptiedIsSound();
      if other != null {
        other.NotReached();
        other.StillHolds();
        EmptiedStaysApart(other);
      }
    }

    /** All the buffers of the collections. */
    ghost function Buffers(): set<object>
      reads stores
    {
      Inlines() + set k | 0 <= k < |stores| && stores[k].data != null :: stores[k].data
    }

    /** A collection is where it was, inline or in new memory. */
    twostate predicate SamePlaces()
      reads stores
    {
      forall k :: 0 <= k < |stores| ==>
        stores[k].data == old(stores[k].data) || stores[k].data == stores[k].inline || fresh(stores[k].data)
    }

    /** Reserves room as often as asked, until it fails once. */
    method ReserveAll(src: Policy, requests: seq<Request>) returns (code: int)
      requires Sound() && src.Sound() && ApartFrom(src) && |stores| == STORE_COUNT
      requires forall i :: 0 <= i < |requests| ==> requests[i].k < STORE_COUNT
      modifies this`status, stores, Buffers()
      ensures Sound() && ApartFrom(src) && src.Kept() && SamePlaces()
      ensures HoldsTheSame()
    {
      hide Valid, Sound, ApartFrom, Store.ApartFrom, AllHeld, Custom, Store.Held, Store.Valid;
      src.StoresArePresent();
      code := 0;
      for i := 0 to |requests|
        invariant Sound() && src.Kept() && ApartFrom(src) && SamePlaces()
        invariant HoldsTheSame()
      {
        code := Reserve(requests[i].k, requests[i].required, requests[i].canAllocate, src);
        if code != 0 { return; }
      }
    }

    /** A workflow works on a copy of its caller's policy: it copies, reserves room in the copy any number of
        times and destroys the copy. The caller's policy is as it was. */
    method WorkOnCopy(src: Policy, available: nat -> bool, requests: seq<Request>) returns (code: int)
      requires Sound() && src.Sound() && ApartFrom(src)
      requires forall i :: 0 <= i < |requests| ==> requests[i].k < STORE_COUNT
      modifies this, stores, Inlines(), OwnBuffers(), if customOwner && custom != null then {custom} else {}
      ensures ApartFrom(src) && src.Kept()
      ensures Sound() && custom == null && status == 0 && forall k :: 0 <= k < STORE_COUNT ==> Emptied(k)
    {
      hide Valid, Sound, Equals, ApartFrom, Store.ApartFrom, AllHeld, Custom, Store.Held, Emptied, Store.Valid;
      StoresArePresent();
      InlinesOutOfReach(src);
      code := CopyFrom(src, available);
      if code == 0 { code := ReserveAll(src, requests); }
      Destroy(src);
    }

    lemma OthersApart(k: nat, other: Policy?)
      requires Sound() && k < STORE_COUNT && (other != null ==> other.Sound() && ApartFrom(other))
      ensures stores[k].ApartFromAll(Besides(k))
      ensures stores[k].ApartFromAll(if other == null then {} else other.StoreSet())
      ensures other != this
    {
      hide Store.ApartFrom;
    }
  }

  /** Every element refreshed. */
  function Refreshed(items: seq<Item>): (refreshed: seq<Item>)
    ensures |refreshed| == |items|
  {
    seq(|items|, i requires 0 <= i < |items| => RefreshedItem(items[i]))
  }

  method RefreshItems(store: Store<Item>)
    requires store.Valid()
    modifies if store.data != null then {store.data} else {}
    ensures store.Valid() && store.Held() == Refreshed(old(store.Held()))
  {
    hide RefreshedItem;
    if store.data == null { return; }
    var items := store.data;
    for i := 0 to store.count
      invariant forall k :: 0 <= k < i ==> items[k] == RefreshedItem(old(items[k]))
      invariant forall k :: i <= k < items.Length ==> items[k] == old(items[k])
    {
      items[i] := RefreshedItem(items[i]);
    }
  }

  method CopyPrefix<T(0)>(from: array<T>, count: nat) returns (copy: array<T>)
    requires count <= from.Length
    ensures fresh(copy) && copy.Length == count && copy[..] == from[..count]
  {
    copy := new T[count];
    forall i | 0 <= i < count { copy[i] := from[i]; }
  }

  /** The copies are arrays of their own. */
  twostate predicate FreshCopies(new copies: seq<array?<Item>>) {
    && (forall k :: 0 <= k < |copies| && copies[k] != null ==> fresh(copies[k]))
    && (forall j, k :: 0 <= j < |copies| && 0 <= k < |copies| && j != k && copies[j] != null ==> copies[j] != copies[k])
  }
}
