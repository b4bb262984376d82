/** Shifts of 256-bit integers, limb by limb: a product and a quotient by a power of two. */
module Shifts {
  import opened Numbers
  import opened Limbs
  import opened Arith

  /** Bitwise or. */
  function Or(x: nat, y: nat): nat
    decreases x
  {
    if x == 0 then y else if y == 0 then x
    else (if x % 2 == 1 || y % 2 == 1 then 1 else 0) + 2 * Or(x / 2, y / 2)
  }

  /** Numbers without common bits are added. */
  lemma {:induction false} OrAdd(x: nat, q: nat, s: nat)
    requires x < Pow2(s)
    ensures Or(x, q * Pow2(s)) == x + q * Pow2(s)
    decreases s
  {
    if s > 0 && x > 0 && q > 0 {
      var h := q * Pow2(s - 1);
      MulAssoc(q, 2, Pow2(s - 1));
      MulAssoc(2, q, Pow2(s - 1));
      assert q * Pow2(s) == 2 * h;
      MulMono(1, q, Pow2(s - 1));
      OrAdd(x / 2, q, s - 1);
    }
  }

  /** A limb shifted left by `s` bits, in two parts. */
  lemma ShiftLimb(x: nat, s: nat)
    requires x < BASE && s <= 32
    ensures var lo, hi := x * Pow2(s) % BASE, x / Pow2(32 - s);
            && lo + hi * BASE == x * Pow2(s) && hi < Pow2(s) && lo == x % Pow2(32 - s) * Pow2(s)
  {
    var d := Pow2(32 - s);
    Pow2Values();
    Pow2Add(32 - s, s);
    DivMod(x, d);
    var hi, r := x / d, x % d;
    MulAdd(hi * d, r, Pow2(s));
    MulAssoc(hi, d, Pow2(s));
    MulMono(r + 1, d, Pow2(s));
    MulAdd(r, 1, Pow2(s));
    MulMono(0, r, Pow2(s));
    DivUnique(x * Pow2(s), hi, BASE, r * Pow2(s));
    if hi >= Pow2(s) {
      MulMono(Pow2(s), hi, d);
      MulComm(Pow2(s), d);
    }
  }

  lemma ShiftWeight(shift: nat)
    ensures Pow2(shift) == Weight(shift / 32) * Pow2(shift % 32)
  {
    Pow2Add(32 * (shift / 32), shift % 32);
  }

  // ---------- left ----------

  /** Adding a multiple of the modulus less does not change the remainder. */
  lemma ModStep(m: nat, v: nat, x: nat, add: nat, q: nat, v': nat)
    requires m > 0 && v == x % m && v' + q * m == v + add && v' < m
    ensures v' == (x + add) % m
  {
    DivMod(x, m);
    MulAdd(x / m, q, m);
    DivUnique(x + add, x / m + q, m, v');
  }

  /** What limb `i` contributes, below the modulus and above it. */
  lemma LeftPart(x: nat, i: nat, k: nat, s: nat)
    ensures x * Weight(i) * (Weight(k) * Pow2(s)) == x * Pow2(s) * Weight(i + k)
  {
    WeightAdd(i, k);
    MulAssoc(x * Weight(i), Weight(k), Pow2(s));
    MulAssoc(x, Weight(i), Weight(k));
    MulComm(x * Weight(i + k), Pow2(s));
    MulAssoc(Pow2(s), x, Weight(i + k));
    MulComm(Pow2(s), x);
  }

  /** What the first `i` limbs come to when shifted. */
  ghost function Total(a: seq<Limb>, i: nat, shift: nat): nat
    requires i <= |a|
  {
    Val(a[..i]) * Pow2(shift)
  }

  /** What a limb shifted by `s` bits comes to at place `p`. */
  ghost function Part(x: nat, s: nat, p: nat): nat { x * Pow2(s) * Weight(p) }

  lemma TotalNext(a: seq<Limb>, i: nat, shift: nat)
    requires i < |a|
    ensures Total(a, i + 1, shift) == Total(a, i, shift) + Part(a[i], shift % 32, i + shift / 32)
  {
    hide Val, Weight, Pow2;
    ShiftWeight(shift);
    LeftPart(a[i], i, shift / 32, shift % 32);
    ValNext(a, i);
    MulAdd(Val(a[..i]), a[i] as nat * Weight(i), Pow2(shift));
  }

  /** Beyond the top limb a part is a multiple of the modulus. */
  lemma PartBeyond(x: nat, s: nat, p: nat)
    requires p >= WIDTH
    ensures Part(x, s, p) == x * Pow2(s) * Weight(p - WIDTH) * Modulus()
  {
    hide Weight, Pow2;
    WeightAdd(p - WIDTH, WIDTH);
    MulAssoc(x * Pow2(s), Weight(p - WIDTH), Modulus());
  }

  ghost predicate LeftInv(pn: seq<Limb>, a: seq<Limb>, i: nat, shift: nat)
    requires i <= |a|
  {
    && Val(pn) == Total(a, i, shift) % Modulus()
    && (forall m :: i + shift / 32 < m < |pn| ==> pn[m] == 0)
    && (i + shift / 32 < |pn| ==> pn[i + shift / 32] < Pow2(shift % 32))
  }

  lemma LeftBeyond(pn: seq<Limb>, a: seq<Limb>, i: nat, shift: nat)
    requires Uint(pn) && Uint(a) && i < WIDTH && LeftInv(pn, a, i, shift) && i + shift / 32 >= WIDTH
    ensures LeftInv(pn, a, i + 1, shift)
  {
    hide Val, Weight, Pow2, Part, Total, Modulus;
    var k, s := shift / 32, shift % 32;
    TotalNext(a, i, shift);
    PartBeyond(a[i], s, i + k);
    InRange(pn);
    ModStep(Modulus(), Val(pn), Total(a, i, shift), Part(a[i], s, i + k), a[i] as nat * Pow2(s) * Weight(i + k - WIDTH), Val(pn));
  }

  /** The parts of a limb shifted left that stay in it and that go to the next. */
  function Low(x: nat, s: nat): nat { x * Pow2(s) % BASE }

  function High(x: nat, s: nat): nat
    requires s <= 32
  {
    Quotient(x, Pow2(32 - s))
  }

  lemma LeftFits(c: nat, x: nat, s: nat)
    requires c < Pow2(s) && s < 32 && x < BASE
    ensures Low(x, s) + c < BASE && High(x, s) < Pow2(s) <= BASE
    ensures Or(c, Low(x, s)) == c + Low(x, s)
    ensures Low(x, s) + High(x, s) * BASE == x * Pow2(s)
  {
    Pow2Values();
    Pow2Mono(s, 32);
    Pow2Add(32 - s, s);
    ShiftLimb(x, s);
    var r := x % Pow2(32 - s);
    OrAdd(c, r, s);
    MulMono(r + 1, Pow2(32 - s), Pow2(s));
    MulAdd(r, 1, Pow2(s));
  }

  /** The value of the limbs after limb `p` took `lo` more and the next limb took `hi`. */
  lemma TwoLimbs(pn: seq<Limb>, p: nat, lo: Limb, hi: Limb)
    requires Uint(pn) && p < WIDTH && (p + 1 < WIDTH ==> pn[p + 1] == 0)
    ensures var pn' := if p + 1 < WIDTH then pn[p + 1 := hi][p := lo] else pn[p := lo];
            Val(pn') + (if p + 1 < WIDTH then 0 else hi * Modulus())
              == Val(pn) + (lo as int - pn[p] as int + hi as int * BASE) * Weight(p)
  {
    hide Val, Weight;
    MulAdd(lo as int - pn[p] as int, hi as int * BASE, Weight(p));
    MulAssoc(hi as int, BASE, Weight(p));
    WeightNext(p);
    if p + 1 < WIDTH {
      ValSet(pn, p + 1, hi);
      ValSet(pn[p + 1 := hi], p, lo);
    } else {
      ValSet(pn, p, lo);
    }
  }

  lemma LeftWithin(pn: seq<Limb>, a: seq<Limb>, i: nat, shift: nat, lo: Limb, hi: Limb, pn': seq<Limb>)
    requires Uint(pn) && Uint(a) && i < WIDTH && LeftInv(pn, a, i, shift) && i + shift / 32 < WIDTH
    requires lo as int == pn[i + shift / 32] as int + Low(a[i], shift % 32) && hi == High(a[i], shift % 32)
    requires var p := i + shift / 32; pn' == if p + 1 < WIDTH then pn[p + 1 := hi][p := lo] else pn[p := lo]
    ensures LeftInv(pn', a, i + 1, shift)
  {
    hide Val, Weight, Low, High, Pow2, Modulus, Or, Part, Total;
    var k, s := shift / 32, shift % 32;
    LeftFits(pn[i + k], a[i], s);
    TotalNext(a, i, shift);
    TwoLimbsPart(pn, i + k, a[i], s, lo, hi, pn');
    InRange(pn');
    ModStep(Modulus(), Val(pn), Total(a, i, shift), Part(a[i], s, i + k), if i + k + 1 < WIDTH then 0 else hi, Val(pn'));
  }

  lemma TwoLimbsPart(pn: seq<Limb>, p: nat, x: Limb, s: nat, lo: Limb, hi: Limb, pn': seq<Limb>)
    requires Uint(pn) && p < WIDTH && s < 32 && (p + 1 < WIDTH ==> pn[p + 1] == 0) && pn[p] < Pow2(s)
    requires lo as int == pn[p] as int + Low(x, s) && hi == High(x, s)
    requires pn' == if p + 1 < WIDTH then pn[p + 1 := hi][p := lo] else pn[p := lo]
    ensures Val(pn') + (if p + 1 < WIDTH then 0 else hi as nat) * Modulus() == Val(pn) + Part(x, s, p)
  {
    hide Val, Weight, Low, High, Pow2, Modulus, Or;
    LeftFits(pn[p], x, s);
    TwoLimbs(pn, p, lo, hi);
    assert 0 * Modulus() == 0;
  }

  method ShiftLeft(pn: array<Limb>, shift: nat)
    requires pn.Length == WIDTH
    modifies pn
    ensures Val(pn[..]) == old(Val(pn[..])) * Pow2(shift) % Modulus()
  {
    hide Val, Weight, Low, High, LeftInv, Or, Pow2, Modulus;
    var a := Copy(pn);
    Clear(pn);
    var k, s := shift / 32, shift % 32;
    LeftStart(pn[..], a[..], shift);
    for i := 0 to WIDTH
      invariant a[..] == old(pn[..]) && LeftInv(pn[..], a[..], i, shift)
    {
      ghost var before := pn[..];
      LeftAt(before, a[..], i, shift);
      ghost var carried: Limb := 0;
      if i + k < WIDTH {
        LeftFits(pn[i + k], a[i], s);
        OrZero(High(a[i], s));
        carried := High(a[i], s);
      }
      if i + k + 1 < WIDTH && s != 0 {
        pn[i + k + 1] := Or(pn[i + k + 1], High(a[i], s));
      }
      if i + k < WIDTH {
        pn[i + k] := Or(pn[i + k], Low(a[i], s));
      }
      if i + k < WIDTH {
        LeftWithin(before, a[..], i, shift, pn[i + k], carried, pn[..]);
      } else {
        LeftBeyond(before, a[..], i, shift);
      }
    }
    LeftEnd(pn[..], a[..], shift);
  }

  lemma LeftStart(pn: seq<Limb>, a: seq<Limb>, shift: nat)
    requires Uint(pn) && Uint(a) && forall m :: 0 <= m < WIDTH ==> pn[m] == 0
    ensures LeftInv(pn, a, 0, shift)
  {
    ValZero(pn);
    ValWhole(a);
    ModZero(Modulus());
    assert 0 * Pow2(shift) == 0;
  }

  lemma LeftAt(pn: seq<Limb>, a: seq<Limb>, i: nat, shift: nat)
    requires Uint(pn) && Uint(a) && i < WIDTH && LeftInv(pn, a, i, shift)
    ensures i + shift / 32 + 1 < WIDTH ==> pn[i + shift / 32 + 1] == 0
    ensures i + shift / 32 < WIDTH ==> pn[i + shift / 32] < Pow2(shift % 32)
    ensures shift % 32 == 0 ==> High(a[i], shift % 32) == 0
  {
    hide Val, Weight;
    Pow2Values();
  }

  lemma LeftEnd(pn: seq<Limb>, a: seq<Limb>, shift: nat)
    requires Uint(pn) && Uint(a) && LeftInv(pn, a, WIDTH, shift)
    ensures Val(pn) == Val(a) * Pow2(shift) % Modulus()
  {
    ValWhole(a);
  }

  method Clear(pn: array<Limb>)
    requires pn.Length == WIDTH
    modifies pn
    ensures forall m :: 0 <= m < WIDTH ==> pn[m] == 0
  {
    for i := 0 to WIDTH
      invariant forall m :: 0 <= m < i ==> pn[m] == 0
    {
      pn[i] := 0;
    }
  }

  // ---------- right ----------

  ghost predicate RightInv(pn: seq<Limb>, a: seq<Limb>, i: nat, shift: nat)
    requires i <= |a|
  {
    && Val(pn) == Quotient(Val(a[..i]), Pow2(shift))
    && (forall m :: 0 <= m < |pn| && i - shift / 32 <= m ==> pn[m] == 0)
    && (0 <= i - shift / 32 - 1 < |pn| ==> pn[i - shift / 32 - 1] < Pow2(32 - shift % 32))
  }

  lemma RightBelow(pn: seq<Limb>, a: seq<Limb>, i: nat, shift: nat)
    requires Uint(pn) && Uint(a) && i < WIDTH && RightInv(pn, a, i, shift) && i < shift / 32
    ensures RightInv(pn, a, i + 1, shift)
  {
    hide Val, Weight;
    assert |a[..i + 1]| == i + 1;
    ValBound(a[..i]);
    ValBound(a[..i + 1]);
    WeightLe(i, i + 1);
    WeightLe(i + 1, shift / 32);
    ShiftWeight(shift);
    MulMono(1, Pow2(shift % 32), Weight(shift / 32));
    MulComm(Weight(shift / 32), Pow2(shift % 32));
    SmallQuotient(Val(a[..i]), Pow2(shift));
    SmallQuotient(Val(a[..i + 1]), Pow2(shift));
  }

  lemma WeightLe(i: nat, j: nat)
    requires i <= j
    ensures Weight(i) <= Weight(j)
  {
    Pow2Mono(32 * i, 32 * j);
  }

  lemma SmallQuotient(x: nat, d: nat)
    requires x < d
    ensures Quotient(x, d) == 0
  {
    DivUnique(x, 0, d, x);
  }

  lemma RightFirst(pn: seq<Limb>, a: seq<Limb>, i: nat, shift: nat, x: Limb)
    requires Uint(pn) && Uint(a) && i < WIDTH && RightInv(pn, a, i, shift) && i == shift / 32
    requires x as int == Quotient(a[i], Pow2(shift % 32))
    ensures RightInv(pn[0 := x], a, i + 1, shift)
  {
    hide Val, Weight, Quotient;
    var s := shift % 32;
    ValBound(a[..i]);
    ValZero(pn);
    ValSet(pn, 0, x);
    Unit();
    ValNext(a, i);
    ShiftWeight(shift);
    TopQuotient(Val(a[..i]), a[i], Weight(i), Pow2(s));
    QuotientFits(a[i], s);
  }

  lemma TopQuotient(v: nat, x: nat, w: nat, d: nat)
    requires v < w && d > 0
    ensures w * d > 0 && Quotient(v + x * w, w * d) == Quotient(x, d)
  {
    DivDiv(v + x * w, w, d);
    DivUnique(v + x * w, x, w, v);
  }

  lemma QuotientFits(x: nat, s: nat)
    requires x < BASE && s < 32
    ensures Quotient(x, Pow2(s)) < Pow2(32 - s) <= BASE
  {
    Pow2Values();
    Pow2Add(32 - s, s);
    Pow2Mono(32 - s, 32);
    DivMod(x, Pow2(s));
    if x / Pow2(s) >= Pow2(32 - s) {
      MulMono(Pow2(32 - s), x / Pow2(s), Pow2(s));
    }
  }

  /** Limb `i` shifted right is limb `i` shifted left the rest of the way, one limb down. */
  lemma RightParts(c: nat, x: nat, s: nat)
    requires s < 32 && x < BASE && c < Pow2(32 - s)
    ensures Quotient(x, Pow2(s)) == High(x, 32 - s) && Or(c, Low(x, 32 - s)) == c + Low(x, 32 - s) < BASE
    ensures Low(x, 32 - s) + High(x, 32 - s) * BASE == x * Pow2(32 - s) && (s == 0 ==> Low(x, 32 - s) == 0)
  {
    Pow2Values();
    Pow2Add(32 - s, s);
    ShiftLimb(x, 32 - s);
    var r := x % Pow2(s);
    OrAdd(c, r, 32 - s);
    MulMono(r + 1, Pow2(s), Pow2(32 - s));
    MulAdd(r, 1, Pow2(32 - s));
    MulComm(Pow2(s), Pow2(32 - s));
    if s == 0 {
      ModAdd(0, x, BASE);
      ModZero(BASE);
    }
  }

  lemma RightWeight(x: nat, i: nat, t: nat, shift: nat)
    requires i == t + 1 + shift / 32
    ensures x * Weight(i) == x * Pow2(32 - shift % 32) * Weight(t) * Pow2(shift)
  {
    var k, s := shift / 32, shift % 32;
    Pow2Add(32 - s, shift);
    assert Pow2(32 - s) * Pow2(shift) == Pow2(32 * (k + 1));
    Pow2Add(32 * (k + 1), 32 * t);
    assert Weight(i) == Pow2(32 - s) * Pow2(shift) * Weight(t);
    Shuffle(x, Pow2(32 - s), Pow2(shift), Weight(t));
  }

  lemma Shuffle(x: nat, a: nat, b: nat, c: nat)
    ensures x * (a * b * c) == x * a * c * b
  {
    MulAssoc(a, b, c);
    MulComm(b, c);
    MulAssoc(a, c, b);
    MulAssoc(x, a * c, b);
    MulAssoc(x, a, c);
  }

  lemma AddQuotient(v: nat, c: nat, d: nat)
    requires d > 0
    ensures Quotient(v + c * d, d) == Quotient(v, d) + c
  {
    DivMod(v, d);
    MulAdd(v / d, c, d);
    DivUnique(v + c * d, v / d + c, d, v % d);
  }

  lemma RightAbove(pn: seq<Limb>, a: seq<Limb>, i: nat, shift: nat, lo: Limb, hi: Limb, pn': seq<Limb>)
    requires Uint(pn) && Uint(a) && i < WIDTH && RightInv(pn, a, i, shift) && i > shift / 32
    requires lo as int == pn[i - shift / 32 - 1] as int + Low(a[i], 32 - shift % 32) && hi == Quotient(a[i], Pow2(shift % 32))
    requires var t := i - shift / 32 - 1; pn' == pn[t + 1 := hi][t := lo]
    ensures RightInv(pn', a, i + 1, shift)
  {
    hide Val, Weight, Quotient, Low, High;
    var s, t := shift % 32, i - shift / 32 - 1;
    RightParts(pn[t], a[i], s);
    TwoLimbs(pn, t, lo, hi);
    ValNext(a, i);
    RightWeight(a[i], i, t, shift);
    AddQuotient(Val(a[..i]), a[i] as nat * Pow2(32 - s) * Weight(t), Pow2(shift));
    QuotientFits(a[i], s);
  }

  method ShiftRight(pn: array<Limb>, shift: nat)
    requires pn.Length == WIDTH
    modifies pn
    ensures Val(pn[..]) == Quotient(old(Val(pn[..])), Pow2(shift))
  {
    hide Val, Weight, Low, High, Quotient, RightInv, Or, Pow2;
    var a := Copy(pn);
    Clear(pn);
    var k, s := shift / 32, shift % 32;
    RightStart(pn[..], a[..], shift);
    for i := 0 to WIDTH
      invariant a[..] == old(pn[..]) && RightInv(pn[..], a[..], i, shift)
    {
      ghost var before := pn[..];
      RightAt(before, a[..], i, shift);
      QuotientFits(a[i], s);
      OrZero(Quotient(a[i], Pow2(s)));
      if i - k - 1 >= 0 {
        RightParts(pn[i - k - 1], a[i], s);
      }
      if i - k - 1 >= 0 && s != 0 {
        pn[i - k - 1] := Or(pn[i - k - 1], Low(a[i], 32 - s));
      }
      if i - k >= 0 {
        pn[i - k] := Or(pn[i - k], Quotient(a[i], Pow2(s)));
      }
      if i < k {
        RightBelow(before, a[..], i, shift);
      } else if i == k {
        RightFirst(before, a[..], i, shift, pn[0]);
        assert pn[..] == before[0 := pn[0]];
      } else {
        RightAbove(before, a[..], i, shift, pn[i - k - 1], pn[i - k], pn[..]);
      }
    }
    RightEnd(pn[..], a[..], shift);
  }

  lemma OrZero(x: nat)
    ensures Or(0, x) == x
  {
  }

  lemma RightStart(pn: seq<Limb>, a: seq<Limb>, shift: nat)
    requires Uint(pn) && Uint(a) && forall m :: 0 <= m < WIDTH ==> pn[m] == 0
    ensures RightInv(pn, a, 0, shift)
  {
    hide Quotient;
    ValZero(pn);
    ValWhole(a);
    SmallQuotient(0, Pow2(shift));
  }

  lemma RightAt(pn: seq<Limb>, a: seq<Limb>, i: nat, shift: nat)
    requires Uint(pn) && Uint(a) && i < WIDTH && RightInv(pn, a, i, shift)
    ensures i - shift / 32 >= 0 ==> pn[i - shift / 32] == 0
    ensures i - shift / 32 - 1 >= 0 ==> pn[i - shift / 32 - 1] < Pow2(32 - shift % 32)
  {
    hide Val, Weight, Quotient;
  }

  lemma RightEnd(pn: seq<Limb>, a: seq<Limb>, shift: nat)
    requires Uint(pn) && Uint(a) && RightInv(pn, a, WIDTH, shift)
    ensures Val(pn) == Quotient(Val(a), Pow2(shift))
  {
    ValWhole(a);
  }
}
