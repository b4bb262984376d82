/** Comparison, bit length and shift-subtract division of 256-bit integers. */
module Division {
  import opened Numbers
  import opened Limbs
  import opened Arith
  import opened Shifts

  method CompareTo(pn: array<Limb>, b: array<Limb>) returns (r: int)
    requires pn.Length == b.Length == WIDTH
    ensures -1 <= r <= 1
    ensures r < 0 <==> Val(pn[..]) < Val(b[..])
    ensures r > 0 <==> Val(pn[..]) > Val(b[..])
  {
    hide Val, Weight;
    var i := WIDTH - 1;
    while i >= 0
      invariant -1 <= i < WIDTH && pn[..][i + 1..] == b[..][i + 1..]
    {
      if pn[i] < b[i] {
        Compare(pn[..], b[..], i);
        return -1;
      }
      if pn[i] > b[i] {
        Compare(b[..], pn[..], i);
        return 1;
      }
      assert pn[..][i..] == [pn[i]] + pn[..][i + 1..];
      assert b[..][i..] == [b[i]] + b[..][i + 1..];
      i := i - 1;
    }
    assert pn[..][0..] == pn[..] && b[..][0..] == b[..];
    return 0;
  }

  // ---------- bit length ----------

  /** `n` bits are needed for `v` and no fewer. */
  ghost predicate IsLength(v: nat, n: nat) {
    v < Pow2(n) && (n > 0 ==> v >= Pow2(n - 1))
  }

  predicate TestBit(x: nat, k: nat) { x / Pow2(k) % 2 == 1 }

  lemma TopBit(x: nat, k: nat)
    requires x < Pow2(k + 1)
    ensures TestBit(x, k) <==> x >= Pow2(k)
  {
    if x >= Pow2(k) {
      DivUnique(x, 1, Pow2(k), x - Pow2(k));
    } else {
      DivUnique(x, 0, Pow2(k), x);
    }
  }

  /** With zero limbs above it, a limb gives the length. */
  lemma LengthFrom(s: seq<Limb>, pos: nat, k: nat)
    requires Uint(s) && pos < WIDTH && forall m :: pos < m < WIDTH ==> s[m] == 0
    requires Pow2(k) <= s[pos] < Pow2(k + 1)
    ensures IsLength(Val(s), 32 * pos + k + 1)
  {
    hide Val, Weight, Pow2;
    ValSplit(s, pos + 1);
    ValZero(s[pos + 1..]);
    ValNext(s, pos);
    ValBound(s[..pos]);
    LengthLimb(Val(s[..pos]), s[pos], pos, k);
  }

  lemma LengthLimb(v: nat, x: nat, pos: nat, k: nat)
    requires v < Weight(pos) && Pow2(k) <= x < Pow2(k + 1)
    ensures IsLength(v + x * Weight(pos), 32 * pos + k + 1)
  {
    var w := Weight(pos);
    Pow2Add(32 * pos, k);
    Pow2Add(32 * pos, k + 1);
    MulComm(w, Pow2(k));
    MulComm(w, Pow2(k + 1));
    MulMono(Pow2(k), x, w);
    MulMono(x + 1, Pow2(k + 1), w);
    MulAdd(x, 1, w);
  }

  method BitLength(pn: array<Limb>) returns (n: nat)
    requires pn.Length == WIDTH
    ensures IsLength(Val(pn[..]), n) && n <= 256
  {
    hide Val, Weight, IsLength, TestBit, Pow2;
    var pos := WIDTH - 1;
    while pos >= 0
      invariant -1 <= pos < WIDTH && forall m :: pos < m < WIDTH ==> pn[m] == 0
    {
      if pn[pos] != 0 {
        Pow2Values();
        SmallPowers();
        var bits := 31;
        while bits > 0
          invariant 0 <= bits <= 31 && pn[pos] < Pow2(bits + 1)
        {
          TopBit(pn[pos], bits);
          if TestBit(pn[pos], bits) {
            LengthFrom(pn[..], pos, bits);
            return 32 * pos + bits + 1;
          }
          bits := bits - 1;
        }
        LengthFrom(pn[..], pos, 0);
        return 32 * pos + 1;
      }
      pos := pos - 1;
    }
    ValZero(pn[..]);
    NoBits();
    return 0;
  }

  lemma SmallPowers()
    ensures Pow2(0) == 1 && Pow2(1) == 2
  {
  }

  lemma NoBits()
    ensures IsLength(0, 0)
  {
  }

  /** More bits, a larger number. */
  lemma Longer(v: nat, m: nat, u: nat, n: nat)
    requires IsLength(v, m) && IsLength(u, n) && m < n
    ensures v < u
  {
    Pow2Mono(m, n - 1);
  }

  // ---------- division ----------

  /** Bit `k` of a quotient whose lower bits are all zero. */
  lemma SetQuotientBit(s: seq<Limb>, k: nat, q: nat)
    requires Uint(s) && k < 256 && Val(s) == q * Pow2(k + 1)
    ensures Or(s[k / 32], Pow2(k % 32)) == s[k / 32] as int + Pow2(k % 32) < BASE
    ensures Weight(k / 32) * Pow2(k % 32) == Pow2(k)
  {
    ShiftWeight(k);
    LowBits(s, k / 32, k % 32, q);
    OrBit(s[k / 32], k % 32);
  }

  /** A value that is a multiple of 2^(32 i + b + 1) has the low b + 1 bits of limb `i` zero. */
  lemma LowBits(s: seq<Limb>, i: nat, b: nat, q: nat)
    requires Uint(s) && i < WIDTH && b < 32 && Val(s) == q * Pow2(32 * i + b + 1)
    ensures s[i] as nat % Pow2(b + 1) == 0
  {
    hide Val, Weight, Pow2;
    var w, d := Weight(i), Pow2(b + 1);
    Pow2Add(32 * i, b + 1);
    assert Val(s) == q * (w * d) by { WeightIs(i); }
    ValSplit(s, i);
    ValSplit(s[i..], 1);
    ValBound(s[..i]);
    ValNext(s[i..], 0);
    ValWhole(s[i..]);
    Unit();
    WeightNext(0);
    Pow2Values();
    Pow2Add(b + 1, 31 - b);
    LowBitsArith(Val(s[..i]), w, s[i], Val(s[i..][1..]), d, Pow2(31 - b), q);
  }

  lemma WeightIs(i: nat)
    ensures Weight(i) == Pow2(32 * i)
  {
  }

  lemma LowBitsArith(v: nat, w: nat, x: nat, u: nat, d: nat, e: nat, q: nat)
    requires v < w && d > 0 && BASE == d * e && v + w * (x + BASE * u) == q * (w * d)
    ensures x % d == 0
  {
    var y := x + BASE * u;
    MulComm(w, y);
    MulComm(w, d);
    MulAssoc(q, d, w);
    DivUnique(y * w + v, y, w, v);
    DivUnique(q * d * w, q * d, w, 0);
    assert y == q * d;
    MulComm(e, d);
    MulAssoc(e, d, u);
    MulComm(d, u);
    MulAssoc(e, u, d);
    assert BASE * u == e * u * d;
    MulAdd(q, -(e * u), d);
    DivUnique(x, q - e * u, d, 0);
  }

  lemma OrBit(x: nat, b: nat)
    requires x < BASE && b < 32 && x % Pow2(b + 1) == 0
    ensures Or(x, Pow2(b)) == x + Pow2(b) < BASE
  {
    hide Or;
    var d := Pow2(b + 1);
    DivMod(x, d);
    OrComm(Pow2(b), x);
    OrAdd(Pow2(b), x / d, b + 1);
    Pow2Values();
    Pow2Add(b + 1, 31 - b);
    MulComm(d, Pow2(31 - b));
    if x / d >= Pow2(31 - b) {
      MulMono(Pow2(31 - b), x / d, d);
    } else {
      MulMono(x / d + 1, Pow2(31 - b), d);
      MulAdd(x / d, 1, d);
    }
  }

  lemma {:induction false} OrComm(x: nat, y: nat)
    ensures Or(x, y) == Or(y, x)
    decreases x
  {
    if x > 0 && y > 0 {
      OrComm(x / 2, y / 2);
    }
  }

  /** The quotient so far has `t` bits to come, and the rest is what is left to divide. */
  ghost predicate Partway(a: nat, b: nat, q: nat, v: nat, num: nat, t: nat) {
    v == q * Pow2(t) && v * b + num == a && num < Scaled(b, t)
  }

  ghost function Scaled(b: nat, t: nat): nat { b * Pow2(t) }

  lemma Aligned(x: nat, b: nat, t: nat)
    requires x == b * Pow2(t) % Modulus() && Scaled(b, t) < Modulus()
    ensures x == Scaled(b, t)
  {
    Small(b * Pow2(t), Modulus());
  }

  lemma PartwayStart(a: nat, n: nat, b: nat, d: nat)
    requires IsLength(a, n) && IsLength(b, d) && 0 < d <= n <= 256
    ensures Partway(a, b, 0, 0, a, n - d + 1) && Scaled(b, n - d) < Modulus()
  {
    Pow2Add(d - 1, n - d + 1);
    MulMono(Pow2(d - 1), b, Pow2(n - d + 1));
    Pow2Add(d, n - d);
    MulMono(b + 1, Pow2(d), Pow2(n - d));
    MulAdd(b, 1, Pow2(n - d));
    Pow2Mono(n, 256);
  }

  lemma PartwayTake(a: nat, b: nat, q: nat, v: nat, num: nat, t: nat)
    requires t > 0 && Partway(a, b, q, v, num, t) && num >= Scaled(b, t - 1)
    ensures Partway(a, b, 2 * q + 1, v + Pow2(t - 1), num - Scaled(b, t - 1), t - 1)
  {
    var p := Pow2(t - 1);
    Halve(q, p);
    Halve(b, p);
    MulAdd(v, p, b);
    MulComm(p, b);
    MulAdd(2 * q, 1, p);
  }

  lemma PartwaySkip(a: nat, b: nat, q: nat, v: nat, num: nat, t: nat)
    requires t > 0 && Partway(a, b, q, v, num, t) && num < Scaled(b, t - 1)
    ensures Partway(a, b, 2 * q, v, num, t - 1)
  {
    Halve(q, Pow2(t - 1));
  }

  lemma Halve(q: nat, p: nat)
    ensures q * (2 * p) == 2 * q * p == q * p + q * p
  {
  }

  lemma PartwayEnd(a: nat, b: nat, q: nat, v: nat, num: nat)
    requires Partway(a, b, q, v, num, 0) && b > 0
    ensures v == Quotient(a, b) && num == Rest(a, b)
  {
    DivUnique(a, v, b, num);
  }

  lemma DivisorBack(b: nat, t: nat)
    requires t > 0
    ensures Quotient(Scaled(b, t), Pow2(1)) == Scaled(b, t - 1)
  {
    Halve(b, Pow2(t - 1));
    DivUnique(b * Pow2(t), b * Pow2(t - 1), 2, 0);
  }

  lemma Small(x: nat, m: nat)
    requires x < m
    ensures x % m == x
  {
  }

  lemma SmallRest(a: nat, b: nat)
    requires a < b
    ensures Rest(a, b) == a
  {
    Small(a, b);
  }

  lemma Lengths(v: nat, n: nat)
    requires IsLength(v, n)
    ensures n == 0 <==> v == 0
  {
  }

  /**
   Divide in place. The remainder is left in `num`. Division by zero is reported; the dividend has
   been cleared by then.
   */
  method Divide(pn: array<Limb>, b: array<Limb>) returns (ok: bool, num: array<Limb>)
    requires pn.Length == b.Length == WIDTH
    modifies pn
    ensures num.Length == WIDTH && fresh(num)
    ensures ok <==> old(Val(b[..])) != 0
    ensures !ok ==> Val(pn[..]) == 0
    ensures ok ==> Val(pn[..]) == Quotient(old(Val(pn[..])), old(Val(b[..])))
    ensures ok ==> Val(num[..]) == Rest(old(Val(pn[..])), old(Val(b[..])))
  {
    hide Val, Weight, Pow2, IsLength, Partway, Quotient, Modulus, Or, Scaled, Rest;
    ghost var a, d := Val(pn[..]), Val(b[..]);
    var div := Copy(b);
    num := Copy(pn);
    Clear(pn);
    ValZero(pn[..]);
    var numBits := BitLength(num);
    var divBits := BitLength(div);
    Lengths(d, divBits);
    if divBits == 0 {
      return false, num;
    }
    if divBits > numBits {
      Longer(a, numBits, d, divBits);
      SmallQuotient(a, d);
      SmallRest(a, d);
      return true, num;
    }
    var shift := numBits - divBits;
    PartwayStart(a, numBits, d, divBits);
    ShiftLeft(div, shift);
    Aligned(Val(div[..]), d, shift);
    LongDivide(pn, num, div, shift, a, d);
    return true, num;
  }

  /** From the highest bit of the quotient down: subtract the divisor where it fits, and shift it back. */
  method LongDivide(pn: array<Limb>, num: array<Limb>, div: array<Limb>, start: nat, ghost a: nat, ghost d: nat)
    requires pn.Length == num.Length == div.Length == WIDTH && pn != num && pn != div && num != div
    requires start < 256 && d > 0 && Partway(a, d, 0, Val(pn[..]), Val(num[..]), start + 1) && Val(div[..]) == Scaled(d, start)
    modifies pn, num, div
    ensures Val(pn[..]) == Quotient(a, d) && Val(num[..]) == Rest(a, d)
  {
    hide Val, Weight, Pow2, Partway, Quotient, Rest, Scaled;
    var shift: int := start;
    ghost var q: nat := 0;
    while shift >= 0
      invariant -1 <= shift < 256 && Partway(a, d, q, Val(pn[..]), Val(num[..]), shift + 1)
      invariant shift >= 0 ==> Val(div[..]) == Scaled(d, shift)
    {
      var c := CompareTo(num, div);
      if c >= 0 {
        TakeBit(pn, num, div, shift, a, d, q);
        q := 2 * q + 1;
      } else {
        PartwaySkip(a, d, q, Val(pn[..]), Val(num[..]), shift + 1);
        q := 2 * q;
      }
      if shift > 0 {
        DivisorBack(d, shift);
      }
      ShiftRight(div, 1);
      shift := shift - 1;
    }
    PartwayEnd(a, d, q, Val(pn[..]), Val(num[..]));
  }

  method TakeBit(pn: array<Limb>, num: array<Limb>, div: array<Limb>, shift: nat, ghost a: nat, ghost d: nat, ghost q: nat)
    requires pn.Length == num.Length == div.Length == WIDTH && pn != num && pn != div && num != div
    requires shift < 256 && Partway(a, d, q, Val(pn[..]), Val(num[..]), shift + 1)
    requires Val(div[..]) == Scaled(d, shift) && Val(num[..]) >= Val(div[..])
    modifies pn, num
    ensures Partway(a, d, 2 * q + 1, Val(pn[..]), Val(num[..]), shift)
  {
    hide Val, Weight, Pow2, Partway, Modulus, Or, Scaled;
    PartwayTake(a, d, q, Val(pn[..]), Val(num[..]), shift + 1);
    PartwayBit(a, d, q, pn[..], Val(num[..]), shift);
    InRange(num[..]);
    Small(Val(num[..]) - Val(div[..]), Modulus());
    Subtract(num, div);
    ghost var before := pn[..];
    pn[shift / 32] := Or(pn[shift / 32], Pow2(shift % 32));
    SetBitValue(before, shift, pn[shift / 32], pn[..]);
  }

  ghost function Rest(a: nat, b: nat): nat
    requires b > 0
  {
    a % b
  }

  lemma PartwayBit(a: nat, b: nat, q: nat, s: seq<Limb>, num: nat, k: nat)
    requires Uint(s) && k < 256 && Partway(a, b, q, Val(s), num, k + 1)
    ensures Or(s[k / 32], Pow2(k % 32)) == s[k / 32] as int + Pow2(k % 32) < BASE
  {
    hide Val, Pow2;
    SetQuotientBit(s, k, q);
  }

  lemma SetBitValue(s: seq<Limb>, k: nat, x: Limb, s': seq<Limb>)
    requires Uint(s) && k < 256 && s' == s[k / 32 := x] && x as int == s[k / 32] as int + Pow2(k % 32)
    ensures Val(s') == Val(s) + Pow2(k)
  {
    hide Val;
    ValSet(s, k / 32, x);
    ShiftWeight(k);
    MulComm(Weight(k / 32), Pow2(k % 32));
  }
}
