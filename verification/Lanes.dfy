/**
 Two-bit lanes across pairs of 64-bit words: lane (w, b) has its low bit at bit `b` of word 2w
 and its high bit at bit `b` of word 2w + 1.
 */
module Lanes {

  predicate Bit(x: bv64, b: bv6) { (x >> b) & 1 == 1 }

  /** The value of a lane, 0 to 3. */
  function Lane(lo: bv64, hi: bv64, b: bv6): nat { (if Bit(lo, b) then 1 else 0) + (if Bit(hi, b) then 2 else 0) }

  function One(b: bv6): bv64 { (1 as bv64) << b }

  /** Bit `b` set to `v`. */
  function Write(x: bv64, b: bv6, v: bool): bv64 { (x & !One(b)) | (if v then One(b) else 0) }

  lemma WriteSame(x: bv64, b: bv6, v: bool)
    ensures Bit(Write(x, b, v), b) == v
  {
  }

  lemma WriteOther(x: bv64, b: bv6, v: bool, c: bv6)
    requires b != c
    ensures Bit(Write(x, b, v), c) == Bit(x, c)
  {
  }

  /** All ones or all zeros, as the negation of 1 or 0. */
  function Fill(v: bool): bv64 { if v then 0xFFFF_FFFF_FFFF_FFFF else 0 }

  function Or(x: bv64, y: bv64): bv64 { x | y }

  function And(x: bv64, y: bv64): bv64 { x & y }

  function Xor(x: bv64, y: bv64): bv64 { x ^ y }

  lemma OrBit(x: bv64, y: bv64, b: bv6)
    ensures Bit(Or(x, y), b) == (Bit(x, b) || Bit(y, b))
  {
    PlainOr(x, y, b);
  }

  lemma PlainOr(x: bv64, y: bv64, b: bv6)
    ensures Bit(x | y, b) == (Bit(x, b) || Bit(y, b))
  {
  }

  lemma AndBit(x: bv64, y: bv64, b: bv6)
    ensures Bit(And(x, y), b) == (Bit(x, b) && Bit(y, b))
  {
    PlainAnd(x, y, b);
  }

  lemma PlainAnd(x: bv64, y: bv64, b: bv6)
    ensures Bit(x & y, b) == (Bit(x, b) && Bit(y, b))
  {
  }

  lemma XorBit(x: bv64, v: bool, b: bv6)
    ensures Bit(Xor(x, Fill(v)), b) == (Bit(x, b) != v)
  {
  }

  function Mask(lo: bv64, hi: bv64, v: bool, w: bool): bv64 { Or(Xor(lo, Fill(v)), Xor(hi, Fill(w))) }

  lemma MaskBit(lo: bv64, hi: bv64, v: bool, w: bool, b: bv6)
    ensures Bit(Mask(lo, hi, v, w), b) == (Bit(lo, b) != v || Bit(hi, b) != w)
  {
    hide Bit, Fill, Or, Xor;
    XorBit(lo, v, b);
    XorBit(hi, w, b);
    OrBit(Xor(lo, Fill(v)), Xor(hi, Fill(w)), b);
  }

  /** Masking clears exactly the lanes of one generation. */
  lemma MaskedLane(lo: bv64, hi: bv64, gen: nat, b: bv6)
    requires 1 <= gen <= 3
    ensures var m := Mask(lo, hi, gen % 2 == 1, gen / 2 == 1);
            Lane(And(lo, m), And(hi, m), b) == if Lane(lo, hi, b) == gen then 0 else Lane(lo, hi, b)
  {
    hide Bit, Mask, And;
    var m := Mask(lo, hi, gen % 2 == 1, gen / 2 == 1);
    MaskBit(lo, hi, gen % 2 == 1, gen / 2 == 1, b);
    AndBit(lo, m, b);
    AndBit(hi, m, b);
  }

  lemma WrittenLane(lo: bv64, hi: bv64, b: bv6, gen: nat, c: bv6)
    requires gen <= 3
    ensures Lane(Write(lo, b, gen % 2 == 1), Write(hi, b, gen / 2 == 1), c) == if b == c then gen else Lane(lo, hi, c)
  {
    hide Bit, Write;
    if b == c {
      WriteSame(lo, b, gen % 2 == 1);
      WriteSame(hi, b, gen / 2 == 1);
    } else {
      WriteOther(lo, b, gen % 2 == 1, c);
      WriteOther(hi, b, gen / 2 == 1, c);
    }
  }
}
