/**
 256-bit unsigned integers as arrays of eight limbs, with the operators that change them in place.
 Every operator is exact modulo 2^256.
 */
module Arith {
  import opened Numbers
  import opened Limbs

  const WIDTH: nat := 8

  /** 2^256. */
  ghost function Modulus(): (m: nat)
    ensures m > 0
  {
    Weight(WIDTH)
  }

  ghost predicate Uint(s: seq<Limb>) { |s| == WIDTH }

  lemma InRange(s: seq<Limb>)
    requires Uint(s)
    ensures Val(s) < Modulus()
  {
    ValBound(s);
  }

  /** A limb value and a multiple of the modulus. */
  lemma Reduce(s: seq<Limb>, carry: int, x: int)
    requires Uint(s) && Val(s) + carry * Modulus() == x
    ensures Val(s) == x % Modulus()
  {
    InRange(s);
    DivUnique(x, carry, Modulus(), Val(s));
  }

  // ---------- addition and negation ----------

  method Add(pn: array<Limb>, b: array<Limb>)
    requires pn.Length == b.Length == WIDTH
    modifies pn
    ensures Val(pn[..]) == (old(Val(pn[..])) + old(Val(b[..]))) % Modulus()
  {
    hide Val, Weight;
    ghost var a, d := pn[..], b[..];
    var carry := 0;
    ValWhole(pn[..]);
    for i := 0 to WIDTH
      invariant 0 <= carry <= 1 && forall k :: i <= k < WIDTH ==> pn[k] == a[k] && b[k] == d[k]
      invariant Val(pn[..][..i]) + carry * Weight(i) == Val(a[..i]) + Val(d[..i])
    {
      ghost var done := pn[..][..i];
      var n := carry + pn[i] as nat + b[i] as nat;
      assert n < 0x1_0000_0000_0000_0000;
      pn[i] := n % BASE;
      assert pn[..][..i] == done;
      ValNext(pn[..], i);
      ValNext(a, i);
      ValNext(d, i);
      AddStep(carry, a[i], d[i], Weight(i));
      WeightNext(i);
      carry := n / BASE;
    }
    ValWhole(pn[..]);
    ValWhole(a);
    ValWhole(d);
    Reduce(pn[..], carry, Val(a) + Val(d));
  }

  lemma AddStep(carry: nat, x: nat, y: nat, w: nat)
    ensures (carry + x + y) % BASE * w + (carry + x + y) / BASE * (BASE * w) == carry * w + x * w + y * w
  {
    Carry(carry + x + y, w);
    MulAdd(carry + x, y, w);
    MulAdd(carry, x, w);
  }

  /** Complement of every limb. */
  method Complement(pn: array<Limb>)
    requires pn.Length == WIDTH
    modifies pn
    ensures Val(pn[..]) == Modulus() - 1 - old(Val(pn[..]))
  {
    hide Val, Weight;
    ghost var a := pn[..];
    ValWhole(pn[..]);
    Unit();
    for i := 0 to WIDTH
      invariant forall k :: i <= k < WIDTH ==> pn[k] == a[k]
      invariant Val(pn[..][..i]) + Val(a[..i]) == Weight(i) - 1
    {
      ghost var done := pn[..][..i];
      pn[i] := 0xFFFF_FFFF - pn[i];
      assert pn[..][..i] == done;
      ValNext(pn[..], i);
      ValNext(a, i);
      WeightNext(i);
      MulAdd(pn[i] as int, a[i] as int, Weight(i));
    }
    ValWhole(pn[..]);
    ValWhole(a);
  }

  lemma Unit()
    ensures Weight(0) == 1
  {
  }

  method Increment(pn: array<Limb>)
    requires pn.Length == WIDTH
    modifies pn
    ensures Val(pn[..]) == (old(Val(pn[..])) + 1) % Modulus()
  {
    hide Val, Weight;
    ghost var a := pn[..];
    var i := 0;
    Unit();
    ghost var before := pn[..];
    StepLimb(before, 0, if pn[0] == 0xFFFF_FFFF then 0 else pn[0] + 1);
    pn[0] := if pn[0] == 0xFFFF_FFFF then 0 else pn[0] + 1;
    assert pn[..] == before[0 := pn[0]];
    WeightNext(0);
    while pn[i] == 0 && i < WIDTH - 1
      invariant 0 <= i < WIDTH && Val(pn[..]) + (if pn[i] == 0 then Weight(i + 1) else 0) == Val(a) + 1
    {
      i := i + 1;
      before := pn[..];
      StepLimb(before, i, if pn[i] == 0xFFFF_FFFF then 0 else pn[i] + 1);
      pn[i] := if pn[i] == 0xFFFF_FFFF then 0 else pn[i] + 1;
      assert pn[..] == before[i := pn[i]];
      WeightNext(i);
    }
    if pn[i] == 0 {
      Reduce(pn[..], 1, Val(a) + 1);
    } else {
      Reduce(pn[..], 0, Val(a) + 1);
    }
  }

  lemma StepLimb(s: seq<Limb>, i: nat, x: Limb)
    requires Uint(s) && i < WIDTH
    requires x as int == if s[i] == 0xFFFF_FFFF then 0 else s[i] as int + 1
    ensures Val(s[i := x]) + (if x == 0 then BASE * Weight(i) else 0) == Val(s) + Weight(i)
  {
    hide Val, Weight;
    ValSet(s, i, x);
    if x == 0 {
      assert (x - s[i]) as int == 1 - BASE;
      MulAdd(1, -(BASE as int), Weight(i));
    } else {
      assert x as int - s[i] as int == 1;
    }
  }

  method Decrement(pn: array<Limb>)
    requires pn.Length == WIDTH
    modifies pn
    ensures Val(pn[..]) == (old(Val(pn[..])) - 1) % Modulus()
  {
    hide Val, Weight;
    ghost var a := pn[..];
    var i := 0;
    Unit();
    ghost var before := pn[..];
    BackLimb(before, 0, if pn[0] == 0 then 0xFFFF_FFFF else pn[0] - 1);
    pn[0] := if pn[0] == 0 then 0xFFFF_FFFF else pn[0] - 1;
    assert pn[..] == before[0 := pn[0]];
    WeightNext(0);
    while pn[i] == 0xFFFF_FFFF && i < WIDTH - 1
      invariant 0 <= i < WIDTH && Val(pn[..]) == Val(a) - 1 + (if pn[i] == 0xFFFF_FFFF then Weight(i + 1) else 0)
    {
      i := i + 1;
      before := pn[..];
      BackLimb(before, i, if pn[i] == 0 then 0xFFFF_FFFF else pn[i] - 1);
      pn[i] := if pn[i] == 0 then 0xFFFF_FFFF else pn[i] - 1;
      assert pn[..] == before[i := pn[i]];
      WeightNext(i);
    }
    if pn[i] == 0xFFFF_FFFF {
      Reduce(pn[..], -1, Val(a) - 1);
    } else {
      Reduce(pn[..], 0, Val(a) - 1);
    }
  }

  lemma BackLimb(s: seq<Limb>, i: nat, x: Limb)
    requires Uint(s) && i < WIDTH
    requires x as int == if s[i] == 0 then 0xFFFF_FFFF else s[i] as int - 1
    ensures Val(s[i := x]) == Val(s) - Weight(i) + (if x == 0xFFFF_FFFF then BASE * Weight(i) else 0)
  {
    hide Val, Weight;
    ValSet(s, i, x);
    if x == 0xFFFF_FFFF {
      MulAdd(BASE as int, -1, Weight(i));
    }
  }

  method Negate(b: array<Limb>) returns (ret: array<Limb>)
    requires b.Length == WIDTH
    ensures fresh(ret) && ret.Length == WIDTH && Val(ret[..]) == (0 - Val(b[..])) % Modulus()
  {
    hide Val, Weight;
    ret := Copy(b);
    Complement(ret);
    Increment(ret);
    ModAdd(0 - Val(b[..]), 1, Modulus());
  }

  method Copy(b: array<Limb>) returns (ret: array<Limb>)
    requires b.Length == WIDTH
    ensures fresh(ret) && ret[..] == b[..]
  {
    ret := new Limb[WIDTH];
    for i := 0 to WIDTH
      invariant ret[..i] == b[..i]
    {
      ret[i] := b[i];
    }
  }

  /** Subtraction by adding the negation. */
  method Subtract(pn: array<Limb>, b: array<Limb>)
    requires pn.Length == b.Length == WIDTH
    modifies pn
    ensures Val(pn[..]) == (old(Val(pn[..])) - old(Val(b[..]))) % Modulus()
  {
    hide Val, Weight;
    ghost var a, d, m := Val(pn[..]), Val(b[..]), Modulus();
    var neg := Negate(b);
    Add(pn, neg);
    DivMod(0 - d, m);
    ModAdd(a - d, -((0 - d) / m), m);
    MulComm((0 - d) / m, m);
    assert a + Val(neg[..]) == a - d + -((0 - d) / m) * m;
  }

  // ---------- multiplication ----------

  /** A prefix of limbs, its carry, and the part of the exact result they stand for. */
  ghost predicate Balance(v: nat, carry: nat, w: nat, base: nat, x: nat, u: nat, y: nat) {
    v + carry * w == Total(base, x, u, y)
  }

  ghost function Total(base: nat, x: nat, u: nat, y: nat): nat { base + x * u * y }

  function Product(x: nat, y: nat): nat { x * y }

  method MultiplySmall(pn: array<Limb>, b32: Limb)
    requires pn.Length == WIDTH
    modifies pn
    ensures Val(pn[..]) == b32 * old(Val(pn[..])) % Modulus()
  {
    hide Val, Weight, Balance, Total, Product;
    ghost var a := pn[..];
    var carry := 0;
    ValWhole(pn[..]);
    BalanceStart(Weight(0), b32, 1);
    for i := 0 to WIDTH
      invariant 0 <= carry < BASE && forall k :: i <= k < WIDTH ==> pn[k] == a[k]
      invariant Balance(Val(pn[..][..i]), carry, Weight(i), 0, b32, 1, Val(a[..i]))
    {
      ghost var done := pn[..];
      SmallProduct(carry, 0, b32, pn[i]);
      var n := carry + Product(b32, pn[i]);
      assert n < 0x1_0000_0000_0000_0000;
      var limb: Limb := n % BASE;
      pn[i] := limb;
      assert pn[..] == done[i := limb];
      SmallNext(done, a, i, b32, carry, n);
      carry := n / BASE;
    }
    ValWhole(pn[..]);
    ValWhole(a);
    BalanceEnd(pn[..], carry, b32, Val(a));
  }

  lemma SmallNext(s: seq<Limb>, a: seq<Limb>, i: nat, b32: Limb, carry: nat, n: nat)
    requires Uint(s) && Uint(a) && i < WIDTH && n == carry + Product(b32, a[i])
    requires Balance(Val(s[..i]), carry, Weight(i), 0, b32, 1, Val(a[..i]))
    ensures var limb: Limb := n % BASE; var s' := s[i := limb];
            Balance(Val(s'[..i + 1]), n / BASE, Weight(i + 1), 0, b32, 1, Val(a[..i + 1]))
  {
    hide Val, Weight, Balance;
    var limb: Limb := n % BASE;
    var s' := s[i := limb];
    assert s'[..i] == s[..i];
    BalanceStep(Val(s[..i]), carry, Weight(i), 0, b32, 1, Val(a[..i]), 0, a[i], Weight(i));
    ValNext(s', i);
    ValNext(a, i);
    WeightNext(i);
  }

  lemma BalanceStart(w: nat, x: nat, u: nat)
    ensures forall base: nat :: Balance(base, 0, w, base, x, u, 0)
  {
  }

  lemma BalanceStep(v: nat, carry: nat, w: nat, base: nat, x: nat, u: nat, y: nat, was: nat, z: nat, t: nat)
    requires Balance(v, carry, w, base, x, u, y) && w == t * u
    ensures var n := carry + was + x * z;
            Balance(v + n % BASE * w, n / BASE, BASE * w, base + was * w, x, u, y + z * t)
  {
    MulStep(carry, was, x, z, w);
    RowStep(x, u, y, z, t);
  }

  lemma BalanceEnd(s: seq<Limb>, carry: nat, x: nat, y: nat)
    requires Uint(s) && Balance(Val(s), carry, Modulus(), 0, x, 1, y)
    ensures Val(s) == x * y % Modulus()
  {
    hide Val, Weight;
    Reduce(s, carry, x * y);
  }

  /** A product of limbs with two limbs added fits in 64 bits, so its carry is a limb. */
  lemma SmallProduct(c: nat, x: nat, y: nat, z: nat)
    requires c < BASE && x < BASE && y < BASE && z < BASE
    ensures c + x + Product(y, z) < 0x1_0000_0000_0000_0000 && (c + x + Product(y, z)) / BASE < BASE
  {
    MulMono(y, BASE - 1, z);
    assert y * z <= (BASE - 1) * z;
  }

  lemma MulStep(carry: nat, x: nat, y: nat, z: nat, w: nat)
    ensures (carry + x + y * z) % BASE * w + (carry + x + y * z) / BASE * (BASE * w) == carry * w + x * w + y * z * w
  {
    AddStep(carry, x, y * z, w);
  }

  /**
   Schoolbook multiplication, row by row; what would go beyond the top limb is dropped. The
   product is built in place, so a number multiplied by itself, as one object, becomes zero.
   */
  method Multiply(pn: array<Limb>, b: array<Limb>)
    requires pn.Length == b.Length == WIDTH
    modifies pn
    ensures pn != b ==> Val(pn[..]) == old(Val(pn[..])) * Val(b[..]) % Modulus()
    ensures pn == b ==> Val(pn[..]) == 0
  {
    hide Val, Weight;
    var a := Copy(pn);
    for i := 0 to WIDTH
      invariant a[..] == old(pn[..]) && forall k :: 0 <= k < i ==> pn[k] == 0
    {
      pn[i] := 0;
    }
    ValZero(pn[..]);
    ValWhole(a[..]);
    ModZero(Modulus());
    assert Val(a[..][..0]) == 0 && Val(a[..][..0]) * Val(b[..]) == 0;
    for j := 0 to WIDTH
      invariant a[..] == old(pn[..]) && (pn != b ==> Val(pn[..]) == Val(a[..][..j]) * Val(b[..]) % Modulus())
      invariant pn == b ==> forall k :: 0 <= k < WIDTH ==> pn[k] == 0
    {
      ghost var before := Val(pn[..]);
      AddRow(pn, b, a[j], j);
      ValNext(a[..], j);
      if pn != b {
        RowMod(Val(a[..][..j]), a[j], Weight(j), Val(b[..]), before, Modulus());
      }
    }
    ValWhole(a[..]);
    if pn == b {
      ValZero(pn[..]);
    }
  }

  lemma ModZero(m: nat)
    requires m > 0
    ensures 0 % m == 0
  {
  }

  lemma RowMod(p: nat, x: nat, w: nat, v: nat, r: nat, m: nat)
    requires m > 0 && r == p * v % m
    ensures (r + x * w * v) % m == (p + x * w) * v % m
  {
    DivMod(p * v, m);
    MulAdd(p, x * w, v);
    ModAdd(r + x * w * v, p * v / m, m);
  }

  /** Add `x` times `b`, shifted by `j` limbs. */
  method AddRow(pn: array<Limb>, b: array<Limb>, x: Limb, j: nat)
    requires pn.Length == b.Length == WIDTH && j < WIDTH && (pn == b ==> forall k :: 0 <= k < WIDTH ==> pn[k] == 0)
    modifies pn
    ensures pn == b ==> forall k :: 0 <= k < WIDTH ==> pn[k] == 0
    ensures pn != b ==> Val(pn[..]) == Total(old(Val(pn[..])), x, Weight(j), Val(b[..])) % Modulus()
  {
    hide Val, Weight, Balance, Total, Product;
    ghost var o := pn[..];
    var carry := 0;
    ValWhole(b[..]);
    BalanceStart(Weight(j), x, Weight(j));
    var i := 0;
    while i + j < WIDTH
      invariant 0 <= i <= WIDTH - j && 0 <= carry < BASE && forall k :: i + j <= k < WIDTH ==> pn[k] == o[k]
      invariant pn == b ==> carry == 0 && forall k :: 0 <= k < WIDTH ==> pn[k] == 0
      invariant pn != b ==> Balance(Val(pn[..][..i + j]), carry, Weight(i + j), Val(o[..i + j]), x, Weight(j), Val(b[..][..i]))
    {
      ghost var done := pn[..];
      SmallProduct(carry, pn[i + j], x, b[i]);
      var n := carry + pn[i + j] as nat + Product(x, b[i]);
      assert n < 0x1_0000_0000_0000_0000;
      var limb: Limb := n % BASE;
      pn[i + j] := limb;
      assert pn[..] == done[i + j := limb];
      ProductZero(x);
      if pn != b {
        RowNext(done, o, b[..], i, j, x, carry, n);
      }
      carry := n / BASE;
      i := i + 1;
    }
    ValWhole(pn[..]);
    ValWhole(o);
    if pn != b {
      BalanceTop(pn[..], carry, Val(o), x, j, b[..], i);
    }
  }

  lemma ProductZero(x: nat)
    ensures Product(x, 0) == 0
  {
  }

  lemma RowNext(s: seq<Limb>, o: seq<Limb>, b: seq<Limb>, i: nat, j: nat, x: Limb, carry: nat, n: nat)
    requires Uint(s) && Uint(o) && Uint(b) && i + j < WIDTH && s[i + j] == o[i + j]
    requires Balance(Val(s[..i + j]), carry, Weight(i + j), Val(o[..i + j]), x, Weight(j), Val(b[..i]))
    requires n == carry + o[i + j] as nat + Product(x, b[i])
    ensures var limb: Limb := n % BASE; var s' := s[i + j := limb];
            Balance(Val(s'[..i + j + 1]), n / BASE, Weight(i + j + 1), Val(o[..i + j + 1]), x, Weight(j), Val(b[..i + 1]))
  {
    hide Val, Weight, Balance;
    var limb: Limb := n % BASE;
    var s' := s[i + j := limb];
    assert s'[..i + j] == s[..i + j];
    WeightAdd(i, j);
    BalanceStep(Val(s[..i + j]), carry, Weight(i + j), Val(o[..i + j]), x, Weight(j), Val(b[..i]), o[i + j], b[i], Weight(i));
    ValNext(s', i + j);
    ValNext(o, i + j);
    ValNext(b, i);
    WeightNext(i + j);
  }

  /** The limbs of `b` that were left out would only add multiples of the modulus. */
  lemma BalanceTop(s: seq<Limb>, carry: nat, base: nat, x: nat, j: nat, b: seq<Limb>, i: nat)
    requires Uint(s) && Uint(b) && i + j == WIDTH && Balance(Val(s), carry, Modulus(), base, x, Weight(j), Val(b[..i]))
    ensures Val(s) == Total(base, x, Weight(j), Val(b)) % Modulus()
  {
    hide Val, Weight;
    ValSplit(b, i);
    WeightAdd(i, j);
    RowTop(x, Weight(j), Val(b[..i]), Weight(i), Val(b[i..]));
    Distribute(carry, x * Val(b[i..]), Modulus());
    Reduce(s, carry + x * Val(b[i..]), base + x * Weight(j) * Val(b));
  }

  lemma Distribute(a: nat, b: nat, m: nat)
    ensures (a + b) * m == a * m + b * m
  {
  }

  lemma RowStep(x: nat, w: nat, v: nat, y: nat, u: nat)
    ensures x * w * (v + y * u) == x * w * v + x * y * (u * w)
  {
    MulComm(x * w, v + y * u);
    MulAdd(v, y * u, x * w);
    MulComm(v, x * w);
    Interchange(y, u, x, w);
  }

  lemma Interchange(y: nat, u: nat, x: nat, w: nat)
    ensures y * u * (x * w) == x * y * (u * w)
  {
    MulAssoc(y * u, x, w);
    MulAssoc(x * y, u, w);
    MulAssoc(x, y, u);
    MulComm(y * u, x);
  }

  lemma RowTop(x: nat, w: nat, low: nat, u: nat, high: nat)
    ensures x * w * (low + u * high) == x * w * low + x * high * (u * w)
  {
    MulComm(u, high);
    RowStep(x, w, low, high, u);
  }
}
