/** Bits kept in bytes, lowest first. */
module Bits {

  function Mask(k: nat): bv8
    requires k < 8
  {
    match k
    case 0 => 1
    case 1 => 2
    case 2 => 4
    case 3 => 8
    case 4 => 16
    case 5 => 32
    case 6 => 64
    case 7 => 128
  }

  predicate Test(x: bv8, k: nat)
    requires k < 8
  {
    x & Mask(k) != 0
  }

  function Set(x: bv8, k: nat): bv8
    requires k < 8
  {
    x | Mask(k)
  }

  function Clear(x: bv8, k: nat): bv8
    requires k < 8
  {
    x & !Mask(k)
  }

  predicate BitAt(bytes: seq<bv8>, p: nat)
    requires p < 8 * |bytes|
  {
    Test(bytes[p / 8], p % 8)
  }

  lemma MaskOr(x: bv8, i: nat, j: nat)
    requires i < 8 && j < 8
    ensures Test(Set(x, i), j) <==> i == j || Test(x, j)
  {
    MaskApart(Mask(i), Mask(j), x);
    if i != j {
      MasksDisjoint(i, j);
    }
  }

  lemma MaskApart(a: bv8, b: bv8, x: bv8)
    ensures (x | a) & b == (x & b) | (a & b)
    ensures a & b == 0 ==> (x | a) & b == x & b
    ensures a == b && a != 0 ==> (x | a) & b != 0
  {
  }

  lemma MasksDisjoint(i: nat, j: nat)
    requires i < 8 && j < 8 && i != j
    ensures Mask(i) & Mask(j) == 0
  {
  }

  lemma SetBit(bytes: seq<bv8>, p: nat, q: nat)
    requires p < 8 * |bytes| && q < 8 * |bytes|
    ensures BitAt(bytes[p / 8 := Set(bytes[p / 8], p % 8)], q) <==> p == q || BitAt(bytes, q)
  {
    hide Test, Set;
    MaskOr(bytes[p / 8], p % 8, q % 8);
  }

  lemma MaskAndNot(x: bv8, i: nat, j: nat)
    requires i < 8 && j < 8
    ensures Test(Clear(x, i), j) <==> i != j && Test(x, j)
  {
    MaskCleared(Mask(i), Mask(j), x);
    if i != j {
      MasksDisjoint(i, j);
    }
  }

  lemma MaskCleared(a: bv8, b: bv8, x: bv8)
    ensures a & b == 0 ==> (x & !a) & b == x & b
    ensures a == b ==> (x & !a) & b == 0
  {
  }

  lemma ClearBit(bytes: seq<bv8>, p: nat, q: nat)
    requires p < 8 * |bytes| && q < 8 * |bytes|
    ensures BitAt(bytes[p / 8 := Clear(bytes[p / 8], p % 8)], q) <==> p != q && BitAt(bytes, q)
  {
    hide Test, Clear;
    MaskAndNot(bytes[p / 8], p % 8, q % 8);
  }

  lemma ZeroBits(bytes: seq<bv8>)
    requires forall i :: 0 <= i < |bytes| ==> bytes[i] == 0
    ensures forall q :: 0 <= q < 8 * |bytes| ==> !BitAt(bytes, q)
  {
    hide Mask;
  }

  lemma OneBits(bytes: seq<bv8>)
    requires forall i :: 0 <= i < |bytes| ==> bytes[i] == 0xFF
    ensures forall q :: 0 <= q < 8 * |bytes| ==> BitAt(bytes, q)
  {
    forall q | 0 <= q < 8 * |bytes|
      ensures BitAt(bytes, q)
    {
      assert 0xFF as bv8 & Mask(q % 8) == Mask(q % 8);
    }
  }
}
