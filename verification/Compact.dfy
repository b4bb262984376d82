/**
 The compact form of 256-bit targets: a byte count and a 23-bit mantissa in 32 bits, with a sign
 bit between them.
 */
module Compact {
  import opened Numbers

  const SIGN: nat := 0x80_0000
  const EXPONENT: nat := 0x100_0000

  lemma ConstantPowers()
    ensures Pow2(23) == SIGN && Pow2(24) == EXPONENT && Pow2(15) == 0x8000 && Pow2(8) == 256 && Pow2(16) == 0x1_0000
  {
    Pow2Values();
    assert Pow2(24) == 2 * Pow2(23);
    assert Pow2(16) == 2 * Pow2(15);
  }

  // ---------- decoding ----------

  function Size(c: nat): nat { c / EXPONENT }

  function Word(c: nat): nat { if Size(c) <= 3 then Quotient(c % SIGN, Pow2(8 * (3 - Size(c)))) else c % SIGN }

  /** The magnitude a compact form stands for, before it is cut to 256 bits. */
  function Magnitude(c: nat): nat { if Size(c) <= 3 then Word(c) else Word(c) * Pow2(8 * (Size(c) - 3)) }

  predicate Negative(c: nat) { Word(c) != 0 && c / SIGN % 2 == 1 }

  predicate Overflow(c: nat) {
    Word(c) != 0 && (Size(c) > 34 || (Word(c) > 0xff && Size(c) > 33) || (Word(c) > 0xffff && Size(c) > 32))
  }

  /** The overflow flag is raised exactly for magnitudes that need more than 256 bits. */
  lemma OverflowExact(c: nat)
    ensures Overflow(c) <==> Magnitude(c) >= Pow2(256)
  {
    hide Size, Word, Pow2;
    ConstantPowers();
    Pow2Mono(24, 256);
    WordSmall(c);
    var w, s := Word(c), Size(c);
    if s > 3 {
      if s <= 32 {
        Pow2Add(24, 8 * (s - 3));
        Pow2Mono(24 + 8 * (s - 3), 256);
        MulMono(w + 1, EXPONENT, Pow2(8 * (s - 3)));
        MulAdd(w, 1, Pow2(8 * (s - 3)));
      } else if s == 33 {
        Pow2Add(16, 240);
        Threshold(w, 0x1_0000, Pow2(240));
      } else if s == 34 {
        Pow2Add(8, 248);
        Threshold(w, 256, Pow2(248));
      } else {
        Pow2Mono(256, 8 * (s - 3));
        Threshold(w, 1, Pow2(8 * (s - 3)));
      }
    }
  }

  lemma WordSmall(c: nat)
    ensures Word(c) < SIGN
  {
    hide Pow2, Quotient;
    if Size(c) <= 3 {
      QuotientLe(c % SIGN, Pow2(8 * (3 - Size(c))));
    }
  }

  lemma QuotientLe(x: nat, d: nat)
    requires d > 0
    ensures Quotient(x, d) <= x && x - d < Quotient(x, d) * d <= x
  {
    DivMod(x, d);
    MulMono(1, d, x / d);
  }

  lemma Threshold(w: nat, t: nat, p: nat)
    requires p > 0
    ensures w >= t ==> w * p >= t * p
    ensures w < t ==> w * p < t * p
    ensures w == 0 ==> w * p == 0
  {
    if w >= t {
      MulMono(t, w, p);
    } else {
      MulMono(w + 1, t, p);
      MulAdd(w, 1, p);
    }
  }

  // ---------- encoding ----------

  function BitLen(v: nat): nat { if v == 0 then 0 else 1 + BitLen(v / 2) }

  lemma {:induction false} BitLenIs(v: nat)
    ensures v < Pow2(BitLen(v)) && (v > 0 ==> v >= Pow2(BitLen(v) - 1))
  {
    if v > 0 {
      BitLenIs(v / 2);
    }
  }

  lemma BitLenUnique(v: nat, n: nat)
    requires v < Pow2(n) && (n > 0 ==> v >= Pow2(n - 1))
    ensures BitLen(v) == n
  {
    hide BitLen;
    BitLenIs(v);
    BitLenZero(v);
    if BitLen(v) < n {
      Pow2Mono(BitLen(v), n - 1);
    } else if BitLen(v) > n {
      Pow2Mono(n, BitLen(v) - 1);
    }
  }

  lemma BitLenZero(v: nat)
    ensures BitLen(v) == 0 <==> v == 0
  {
  }

  lemma BitLenMono(u: nat, v: nat)
    requires u <= v
    ensures BitLen(u) <= BitLen(v)
  {
    hide BitLen;
    BitLenIs(u);
    BitLenIs(v);
    BitLenZero(u);
    if BitLen(u) > BitLen(v) {
      Pow2Mono(BitLen(v), BitLen(u) - 1);
    }
  }

  /** `v` cut or padded to three bytes, given that it has `size` bytes. */
  function ThreeBytes(v: nat, size: nat): nat {
    if size <= 3 then v * Pow2(8 * (3 - size)) else Quotient(v, Pow2(8 * (size - 3)))
  }

  datatype Parts = Parts(mantissa: nat, size: nat)

  /** Three bytes and a byte count; a mantissa that reaches the sign bit gives up its last byte. */
  function Split(v: nat): Parts {
    var size := (BitLen(v) + 7) / 8;
    var m := ThreeBytes(v, size);
    if m / SIGN % 2 == 1 then Parts(m / 256, size + 1) else Parts(m, size)
  }

  function GetCompact(v: nat, negative: bool): nat {
    var p := Split(v);
    p.mantissa + p.size * EXPONENT + if negative && p.mantissa != 0 then SIGN else 0
  }

  /** The number of bytes with room for a sign bit. */
  function Bytes(v: nat): nat { if v == 0 then 0 else BitLen(v) / 8 + 1 }

  lemma BytesBound(v: nat)
    requires v < Pow2(256)
    ensures Bytes(v) <= 33
  {
    hide BitLen, Pow2;
    BitLenIs(v);
    BitLenZero(v);
    if BitLen(v) > 256 {
      Pow2Mono(256, BitLen(v) - 1);
    }
  }

  lemma ScaleUp(v: nat, b: nat, k: nat)
    requires 0 < b && Pow2(b - 1) <= v < Pow2(b)
    ensures Pow2(b - 1 + k) <= v * Pow2(k) < Pow2(b + k)
  {
    Pow2Add(b - 1, k);
    Pow2Add(b, k);
    MulMono(Pow2(b - 1), v, Pow2(k));
    MulMono(v + 1, Pow2(b), Pow2(k));
    MulAdd(v, 1, Pow2(k));
  }

  lemma ScaleDown(v: nat, b: nat, k: nat)
    requires k < b && Pow2(b - 1) <= v < Pow2(b)
    ensures Pow2(b - 1 - k) <= Quotient(v, Pow2(k)) < Pow2(b - k)
  {
    Pow2Add(b - 1 - k, k);
    Pow2Add(b - k, k);
    DivMod(v, Pow2(k));
    var q := v / Pow2(k);
    if q >= Pow2(b - k) {
      MulMono(Pow2(b - k), q, Pow2(k));
    }
    if q < Pow2(b - 1 - k) {
      MulMono(q + 1, Pow2(b - 1 - k), Pow2(k));
      MulAdd(q, 1, Pow2(k));
    }
  }

  lemma ThreeBytesRange(v: nat, size: nat)
    requires v > 0 && size == (BitLen(v) + 7) / 8
    ensures Pow2(BitLen(v) - 1 + 24 - 8 * size) <= ThreeBytes(v, size) < Pow2(BitLen(v) + 24 - 8 * size)
    ensures BitLen(v) > 0 && BitLen(v) - 1 + 24 - 8 * size >= 0
  {
    hide BitLen, Pow2;
    BitLenIs(v);
    BitLenZero(v);
    if size <= 3 {
      ScaleUp(v, BitLen(v), 8 * (3 - size));
    } else {
      ScaleDown(v, BitLen(v), 8 * (size - 3));
    }
  }

  /** What the split comes to: `Bytes` bytes, and a mantissa below the sign bit. */
  lemma SplitShape(v: nat)
    ensures var p := Split(v); p.size == Bytes(v) && p.mantissa == ThreeBytes(v, Bytes(v)) < SIGN
    ensures v > 0 && Bytes(v) >= 3 ==> Split(v).mantissa >= 0x8000
  {
    hide BitLen, Pow2, Quotient, ThreeBytes;
    ConstantPowers();
    BitLenZero(v);
    var b, size := BitLen(v), (BitLen(v) + 7) / 8;
    if v == 0 {
      ThreeBytesZero();
    } else {
      ThreeBytesRange(v, size);
      if b % 8 != 0 {
        Pow2Mono(b + 24 - 8 * size, 23);
        Pow2Mono(15, b - 1 + 24 - 8 * size);
      } else {
        assert b + 24 - 8 * size == 24;
        OneByteLess(v, size);
        ByteOff(ThreeBytes(v, size));
      }
    }
  }

  lemma ThreeBytesZero()
    ensures ThreeBytes(0, 0) == 0
  {
  }

  /** A mantissa that reaches the sign bit, without its last byte. */
  lemma ByteOff(m: nat)
    requires SIGN <= m < EXPONENT
    ensures m / SIGN % 2 == 1 && 0x8000 <= m / 256 < SIGN
  {
  }

  lemma OneByteLess(v: nat, size: nat)
    ensures ThreeBytes(v, size) / 256 == ThreeBytes(v, size + 1)
  {
    ConstantPowers();
    if size <= 2 {
      var p := Pow2(8 * (2 - size));
      Pow2Add(8 * (2 - size), 8);
      MulAssoc(v, p, 256);
      DivUnique(v * Pow2(8 * (3 - size)), v * p, 256, 0);
    } else if size == 3 {
      assert Pow2(0) == 1 && v * 1 == v;
    } else {
      Pow2Add(8 * (size - 3), 8);
      DivDiv(v, Pow2(8 * (size - 3)), 256);
    }
  }

  // ---------- both ways ----------

  /** What is left of a number in compact form. */
  function Truncated(v: nat): nat {
    if Bytes(v) <= 3 then v else ThreeBytes(v, Bytes(v)) * Pow2(8 * (Bytes(v) - 3))
  }

  lemma PartsBack(m: nat, s: nat)
    requires m < SIGN
    ensures Size(m + s * EXPONENT) == s && (m + s * EXPONENT) % SIGN == m && (m + s * EXPONENT) / SIGN % 2 == 0
  {
    DivUnique(m + s * EXPONENT, s, EXPONENT, m);
    DivUnique(m + s * EXPONENT, 2 * s, SIGN, m);
  }

  /** Decoding a compact form gives the truncated number, without sign or overflow. */
  lemma RoundTrip(v: nat)
    requires v < Pow2(256)
    ensures Magnitude(GetCompact(v, false)) == Truncated(v) <= v
    ensures !Negative(GetCompact(v, false)) && !Overflow(GetCompact(v, false)) && GetCompact(v, false) < 0x2200_0000
  {
    hide Pow2, Quotient, BitLen, Split, Size, Overflow, Bytes;
    var c := GetCompact(v, false);
    SplitShape(v);
    BytesBound(v);
    PartsBack(Split(v).mantissa, Split(v).size);
    TruncatedLe(v);
    if Bytes(v) <= 3 {
      Unscale(v, 8 * (3 - Bytes(v)));
    }
    OverflowExact(c);
  }

  lemma Unscale(v: nat, k: nat)
    ensures Quotient(v * Pow2(k), Pow2(k)) == v
  {
    DivUnique(v * Pow2(k), v, Pow2(k), 0);
  }

  lemma TruncatedLe(v: nat)
    ensures Truncated(v) <= v
  {
    hide Pow2, Quotient, Bytes;
    if Bytes(v) > 3 {
      QuotientLe(v, Pow2(8 * (Bytes(v) - 3)));
    }
  }

  /** The compact form rounds down by less than one part in 2^15. */
  lemma RoundsDown(v: nat)
    requires v > 0
    ensures Truncated(v) <= v && (v - Truncated(v)) * 0x8000 < v
  {
    hide Pow2, Quotient, Bytes, Split;
    TruncatedLe(v);
    if Bytes(v) > 3 {
      SplitShape(v);
      var p := Pow2(8 * (Bytes(v) - 3));
      QuotientLe(v, p);
      MulMono(0x8000, ThreeBytes(v, Bytes(v)), p);
    }
  }

  lemma TruncatedBits(v: nat)
    ensures BitLen(Truncated(v)) == BitLen(v) && Bytes(Truncated(v)) == Bytes(v)
    ensures v > 0 ==> Truncated(v) >= Pow2(BitLen(v) - 1) && BitLen(v) > 0
  {
    hide Pow2, Quotient, BitLen, ThreeBytes;
    BitLenIs(v);
    BitLenZero(v);
    TruncatedLe(v);
    if Bytes(v) > 3 {
      KeepsTop(v, BitLen(v), 8 * (Bytes(v) - 3));
      ThreeBytesIs(v, Bytes(v));
      BitLenUnique(Truncated(v), BitLen(v));
    }
  }

  lemma ThreeBytesIs(v: nat, size: nat)
    requires size > 3
    ensures ThreeBytes(v, size) == Quotient(v, Pow2(8 * (size - 3)))
  {
  }

  lemma KeepsTop(v: nat, b: nat, k: nat)
    requires k < b && Pow2(b - 1) <= v < Pow2(b)
    ensures Quotient(v, Pow2(k)) * Pow2(k) >= Pow2(b - 1)
  {
    ScaleDown(v, b, k);
    Pow2Add(b - 1 - k, k);
    MulMono(Pow2(b - 1 - k), Quotient(v, Pow2(k)), Pow2(k));
  }

  /** A number in compact form stays as it is. */
  lemma Idempotent(v: nat)
    ensures Truncated(Truncated(v)) == Truncated(v) && GetCompact(Truncated(v), false) == GetCompact(v, false)
  {
    hide Pow2, Quotient, BitLen, Bytes, Split;
    TruncatedBits(v);
    SplitShape(v);
    SplitShape(Truncated(v));
    if Bytes(v) > 3 {
      Unscale(Quotient(v, Pow2(8 * (Bytes(v) - 3))), 8 * (Bytes(v) - 3));
    }
  }

  /** Larger numbers have larger compact forms and truncations. */
  lemma Monotone(u: nat, v: nat)
    requires u <= v
    ensures GetCompact(u, false) <= GetCompact(v, false) && Truncated(u) <= Truncated(v)
  {
    hide Pow2, Quotient, BitLen, Split, ThreeBytes, Truncated;
    SplitShape(u);
    SplitShape(v);
    BitLenMono(u, v);
    BitLenZero(u);
    BitLenZero(v);
    if Bytes(u) == Bytes(v) {
      SameBytes(u, v, Bytes(u));
      TruncatedSame(u, v);
    } else {
      TruncatedLe(u);
      TruncatedBits(v);
      BitLenIs(u);
      assert BitLen(u) < BitLen(v);
      Pow2Mono(BitLen(u), BitLen(v) - 1);
    }
  }

  lemma SameBytes(u: nat, v: nat, size: nat)
    requires u <= v
    ensures ThreeBytes(u, size) <= ThreeBytes(v, size)
  {
    if size <= 3 {
      MulMono(u, v, Pow2(8 * (3 - size)));
    } else {
      DivMono(u, v, Pow2(8 * (size - 3)));
    }
  }

  lemma TruncatedSame(u: nat, v: nat)
    requires u <= v && Bytes(u) == Bytes(v)
    ensures Truncated(u) <= Truncated(v)
  {
    hide Bytes, Pow2, ThreeBytes;
    if Bytes(u) > 3 {
      SameBytes(u, v, Bytes(u));
      MulMono(ThreeBytes(u, Bytes(u)), ThreeBytes(v, Bytes(v)), Pow2(8 * (Bytes(u) - 3)));
    }
  }
}
