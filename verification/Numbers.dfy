/** Powers of two, division and remainder. */
module Numbers {

  function Pow2(k: nat): (r: nat)
    ensures r > 0
  {
    if k == 0 then 1 else 2 * Pow2(k - 1)
  }

  lemma {:induction false} Pow2Add(a: nat, b: nat)
    ensures Pow2(a + b) == Pow2(a) * Pow2(b)
    decreases b
  {
    if b > 0 {
      Pow2Add(a, b - 1);
      MulAssoc(Pow2(a), 2, Pow2(b - 1));
      assert Pow2(a) * 2 == 2 * Pow2(a);
      MulAssoc(2, Pow2(a), Pow2(b - 1));
    }
  }

  lemma {:induction false} Pow2Mono(a: nat, b: nat)
    requires a <= b
    ensures Pow2(a) <= Pow2(b)
    decreases b - a
  {
    if a < b {
      Pow2Mono(a, b - 1);
    }
  }

  lemma Pow2Values()
    ensures Pow2(8) == 256 && Pow2(16) == 0x1_0000 && Pow2(24) == 0x100_0000 && Pow2(32) == 0x1_0000_0000
  {
    assert Pow2(4) == 16;
    Pow2Add(4, 4);
    Pow2Add(8, 8);
    Pow2Add(16, 8);
    Pow2Add(16, 16);
  }

  lemma MulAssoc(a: int, b: int, c: int)
    ensures a * (b * c) == a * b * c
  {
  }

  lemma MulComm(a: int, b: int)
    ensures a * b == b * a
  {
  }

  lemma MulAdd(a: int, b: int, c: int)
    ensures (a + b) * c == a * c + b * c
  {
  }

  lemma MulMono(a: int, b: int, d: nat)
    requires a <= b
    ensures a * d <= b * d
  {
  }

  lemma DivMod(x: int, d: int)
    requires d > 0
    ensures x == x / d * d + x % d && 0 <= x % d < d
  {
  }

  function Quotient(x: nat, d: nat): nat
    requires d > 0
  {
    x / d
  }

  /** A quotient and a remainder in range are the quotient and the remainder. */
  lemma DivUnique(x: int, q: int, d: int, r: int)
    requires d > 0 && x == q * d + r && 0 <= r < d
    ensures x / d == q && x % d == r
  {
    DivMod(x, d);
    var k := x / d - q;
    MulAdd(q, k, d);
    assert k * d == r - x % d;
    if k >= 1 {
      MulMono(1, k, d);
    } else if k <= -1 {
      MulMono(k, -1, d);
    }
  }

  lemma ModAdd(x: int, k: int, d: int)
    requires d > 0
    ensures (x + k * d) % d == x % d
  {
    DivMod(x, d);
    MulAdd(x / d, k, d);
    DivUnique(x + k * d, x / d + k, d, x % d);
  }

  lemma DivMono(x: int, y: int, d: int)
    requires d > 0 && x <= y
    ensures x / d <= y / d
  {
    DivMod(x, d);
    DivMod(y, d);
    if x / d > y / d {
      MulMono(y / d + 1, x / d, d);
      MulAdd(y / d, 1, d);
    }
  }

  lemma DivDiv(x: int, a: int, b: int)
    requires a > 0 && b > 0
    ensures a * b > 0 && x / a / b == x / (a * b)
  {
    MulMono(1, a, b);
    DivMod(x, a);
    DivMod(x / a, b);
    var q, r := x / a / b, x / a % b;
    MulAdd(q * b, r, a);
    MulAssoc(q, b, a);
    MulComm(a, b);
    MulMono(r, b - 1, a);
    MulAdd(b, -1, a);
    MulMono(0, r, a);
    DivUnique(x, q, a * b, r * a + x % a);
  }
}
