/** The register list mask of MOVEM, whose bits run the other way in the predecrement mode. */
module RegisterMask {
  import opened Words

  function Bit(index: nat): Word
    requires index < 16
  {
    match index
    case 0 => 0x0001 case 1 => 0x0002 case 2 => 0x0004 case 3 => 0x0008
    case 4 => 0x0010 case 5 => 0x0020 case 6 => 0x0040 case 7 => 0x0080
    case 8 => 0x0100 case 9 => 0x0200 case 10 => 0x0400 case 11 => 0x0800
    case 12 => 0x1000 case 13 => 0x2000 case 14 => 0x4000 case 15 => 0x8000
  }

  /** The mask with the lowest `count` bits already moved to the other end. */
  function ReversedPart(mask: Word, count: nat): Word
    requires count <= 16
  {
    if count == 0 then 0
    else if !Has(mask, count - 1) then ReversedPart(mask, count - 1)
    else Join(ReversedPart(mask, count - 1), Bit(16 - count))
  }

  /** The two words share a set bit. */
  predicate Meets(a: Word, b: Word) { a & b != 0 }

  function Join(a: Word, b: Word): Word { a | b }

  predicate Has(mask: Word, index: nat)
    requires index < 16
  {
    Meets(mask, Bit(index))
  }

  function Reversed(mask: Word): Word { ReversedPart(mask, 16) }

  method ReverseReglistMask(mask: Word) returns (reversed: Word)
    ensures reversed == Reversed(mask)
  {
    hide Has, Bit, Join;
    reversed := 0;
    for bit := 0 to 16
      invariant reversed == ReversedPart(mask, bit)
    {
      if !Has(mask, bit) { continue; }
      reversed := Join(reversed, Bit(15 - bit));
    }
  }

  lemma BitValues()
    ensures Bit(0) == 0x0001 && Bit(1) == 0x0002 && Bit(2) == 0x0004 && Bit(3) == 0x0008
    ensures Bit(4) == 0x0010 && Bit(5) == 0x0020 && Bit(6) == 0x0040 && Bit(7) == 0x0080
    ensures Bit(8) == 0x0100 && Bit(9) == 0x0200 && Bit(10) == 0x0400 && Bit(11) == 0x0800
    ensures Bit(12) == 0x1000 && Bit(13) == 0x2000 && Bit(14) == 0x4000 && Bit(15) == 0x8000
  {
  }

  lemma BitsDisjoint(i: nat, j: nat)
    requires i < 16 && j < 16
    ensures Meets(Bit(i), Bit(i)) && (i != j ==> !Meets(Bit(i), Bit(j)))
  {
  }

  lemma OrIsZero(a: Word, b: Word)
    ensures Join(a, b) == 0 <==> a == 0 && b == 0
  {
  }

  lemma AndDistributes(word: Word, added: Word, test: Word)
    ensures Join(word, added) & test == Join(word & test, added & test)
  {
  }

  lemma MeetsJoin(word: Word, added: Word, test: Word)
    ensures Meets(Join(word, added), test) <==> Meets(added, test) || Meets(word, test)
  {
    hide Join;
    AndDistributes(word, added, test);
    OrIsZero(word & test, added & test);
  }

  /** Setting one bit changes that bit only. */
  lemma SetBit(word: Word, i: nat, j: nat)
    requires i < 16 && j < 16
    ensures Has(Join(word, Bit(i)), j) <==> i == j || Has(word, j)
  {
    hide Bit, Meets, Join;
    BitsDisjoint(i, j);
    MeetsJoin(word, Bit(i), Bit(j));
  }

  lemma NoneInZero(bit: nat)
    requires bit < 16
    ensures !Has(0, bit)
  {
  }

  lemma {:induction false} PartialBits(mask: Word, count: nat, bit: nat)
    requires count <= 16 && bit < 16
    ensures Has(ReversedPart(mask, count), 15 - bit) <==> bit < count && Has(mask, bit)
  {
    hide Has, Bit, Join;
    if count == 0 {
      NoneInZero(15 - bit);
    } else {
      PartialBits(mask, count - 1, bit);
      SetBit(ReversedPart(mask, count - 1), 16 - count, 15 - bit);
    }
  }

  /** Two words with the same sixteen bits are the same word. */
  lemma SixteenBits(a: Word, b: Word)
    requires Meets(a, 0x0001) == Meets(b, 0x0001) && Meets(a, 0x0002) == Meets(b, 0x0002)
    requires Meets(a, 0x0004) == Meets(b, 0x0004) && Meets(a, 0x0008) == Meets(b, 0x0008)
    requires Meets(a, 0x0010) == Meets(b, 0x0010) && Meets(a, 0x0020) == Meets(b, 0x0020)
    requires Meets(a, 0x0040) == Meets(b, 0x0040) && Meets(a, 0x0080) == Meets(b, 0x0080)
    requires Meets(a, 0x0100) == Meets(b, 0x0100) && Meets(a, 0x0200) == Meets(b, 0x0200)
    requires Meets(a, 0x0400) == Meets(b, 0x0400) && Meets(a, 0x0800) == Meets(b, 0x0800)
    requires Meets(a, 0x1000) == Meets(b, 0x1000) && Meets(a, 0x2000) == Meets(b, 0x2000)
    requires Meets(a, 0x4000) == Meets(b, 0x4000) && Meets(a, 0x8000) == Meets(b, 0x8000)
    ensures a == b
  {
  }

  lemma BitsDetermine(a: Word, b: Word)
    requires forall i :: 0 <= i < 16 ==> (Has(a, i) <==> Has(b, i))
    ensures a == b
  {
    BitValues();
    hide Bit, Meets;
    assert Has(a, 0) == Has(b, 0) && Has(a, 1) == Has(b, 1) && Has(a, 2) == Has(b, 2) && Has(a, 3) == Has(b, 3);
    assert Has(a, 4) == Has(b, 4) && Has(a, 5) == Has(b, 5) && Has(a, 6) == Has(b, 6) && Has(a, 7) == Has(b, 7);
    assert Has(a, 8) == Has(b, 8) && Has(a, 9) == Has(b, 9) && Has(a, 10) == Has(b, 10) && Has(a, 11) == Has(b, 11);
    assert Has(a, 12) == Has(b, 12) && Has(a, 13) == Has(b, 13) && Has(a, 14) == Has(b, 14) && Has(a, 15) == Has(b, 15);
    SixteenBits(a, b);
  }

  /** Register n of the reversed mask is register 15 - n of the mask, and reversing twice undoes it. */
  lemma ReversalIsAnInvolution(mask: Word)
    ensures forall bit :: 0 <= bit < 16 ==> (Has(Reversed(mask), bit) <==> Has(mask, 15 - bit))
    ensures Reversed(Reversed(mask)) == mask
  {
    hide Has, Bit, ReversedPart;
    forall bit | 0 <= bit < 16
      ensures Has(Reversed(mask), bit) <==> Has(mask, 15 - bit)
      ensures Has(Reversed(Reversed(mask)), bit) <==> Has(mask, bit)
    {
      PartialBits(mask, 16, 15 - bit);
      PartialBits(mask, 16, bit);
      PartialBits(Reversed(mask), 16, 15 - bit);
    }
    BitsDetermine(Reversed(Reversed(mask)), mask);
  }
}
