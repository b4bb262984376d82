/** Numbers as big-endian digit sequences in any base. */
module Digits {
  import opened Numbers

  function Pow(b: nat, n: nat): nat { if n == 0 then 1 else Pow(b, n - 1) * b }

  lemma {:induction false} PowPos(b: nat, n: nat)
    requires b > 0
    ensures Pow(b, n) > 0
  {
    if n > 0 {
      PowPos(b, n - 1);
      MulMono(1, Pow(b, n - 1), b);
    }
  }

  lemma {:induction false} PowAdd(b: nat, m: nat, n: nat)
    ensures Pow(b, m + n) == Pow(b, m) * Pow(b, n)
    decreases n
  {
    if n > 0 {
      PowAdd(b, m, n - 1);
      MulAssoc(Pow(b, m), Pow(b, n - 1), b);
    }
  }

  lemma {:induction false} PowMono(b: nat, m: nat, n: nat)
    requires b > 0 && m <= n
    ensures Pow(b, m) <= Pow(b, n)
    decreases n - m
  {
    if m < n {
      PowMono(b, m, n - 1);
      MulMono(1, b, Pow(b, n - 1));
      MulComm(b, Pow(b, n - 1));
    }
  }

  lemma MulBoth(a: nat, b: nat, c: nat, d: nat)
    requires a <= b && c <= d
    ensures a * c <= b * d
  {
    MulMono(a, b, c);
    MulMono(c, d, b);
    MulComm(b, c);
    MulComm(b, d);
  }

  lemma {:induction false} PowBase(a: nat, b: nat, n: nat)
    requires a <= b
    ensures Pow(a, n) <= Pow(b, n)
  {
    if n > 0 {
      PowBase(a, b, n - 1);
      MulBoth(Pow(a, n - 1), Pow(b, n - 1), a, b);
    }
  }

  lemma {:induction false} PowPow(b: nat, m: nat, n: nat)
    ensures Pow(Pow(b, m), n) == Pow(b, m * n)
    decreases n
  {
    if n > 0 {
      PowPow(b, m, n - 1);
      MulAdd(n - 1, 1, m);
      MulComm(m, n - 1);
      MulComm(m, n);
      PowAdd(b, m * (n - 1), m);
    } else {
      assert m * n == 0;
    }
  }

  /** Roots keep order. */
  lemma {:induction false} PowRoot(x: nat, y: nat, n: nat)
    requires n > 0 && Pow(x, n) <= Pow(y, n)
    ensures x <= y
  {
    if x > y {
      PowStrict(y, x, n);
    }
  }

  lemma {:induction false} PowStrict(y: nat, x: nat, n: nat)
    requires n > 0 && y < x
    ensures Pow(y, n) < Pow(x, n)
  {
    if n == 1 {
      assert Pow(y, 1) == y && Pow(x, 1) == x by { PowOne(x); PowOne(y); }
    } else {
      PowStrict(y, x, n - 1);
      MulMono(Pow(y, n - 1), Pow(x, n - 1), y);
      PowPos(x, n - 1);
      MulMono(y + 1, x, Pow(x, n - 1));
      MulAdd(y, 1, Pow(x, n - 1));
      MulComm(y, Pow(x, n - 1));
      MulComm(x, Pow(x, n - 1));
    }
  }

  lemma PowOne(b: nat)
    ensures Pow(b, 1) == b
  {
    assert Pow(b, 0) == 1;
  }

  /** If `p` digits in base `a` fit in `q` digits in base `b`, then any `n` digits fit in n q / p, rounded up. */
  lemma Fits(a: nat, p: nat, b: nat, q: nat, n: nat, size: nat)
    requires p > 0 && b > 0 && Pow(a, p) <= Pow(b, q) && q * n <= size * p
    ensures Pow(a, n) <= Pow(b, size)
  {
    hide Pow;
    PowBase(Pow(a, p), Pow(b, q), n);
    PowPow(a, p, n);
    PowPow(b, q, n);
    PowPow(a, n, p);
    PowPow(b, size, p);
    MulComm(p, n);
    PowMono(b, q * n, size * p);
    PowRoot(Pow(a, n), Pow(b, size), p);
  }

  // ---------- values ----------

  ghost predicate IsDigits(base: nat, s: seq<nat>) { forall i :: 0 <= i < |s| ==> s[i] < base }

  ghost function Value(base: nat, s: seq<nat>): nat {
    if s == [] then 0 else Value(base, s[..|s| - 1]) * base + s[|s| - 1]
  }

  lemma {:induction false} ValueFront(base: nat, s: seq<nat>)
    requires s != []
    ensures Value(base, s) == s[0] * Pow(base, |s| - 1) + Value(base, s[1..])
    decreases |s|
  {
    var n := |s| - 1;
    if n == 0 {
      assert s[..0] == [] && s[1..] == [] && Pow(base, 0) == 1;
    } else {
      ValueFront(base, s[..n]);
      assert s[..n][1..] == s[1..][..n - 1] && s[1..][n - 1] == s[n];
      MulAdd(s[0] * Pow(base, n - 1), Value(base, s[1..n]), base);
      MulAssoc(s[0], Pow(base, n - 1), base);
      assert s[1..n] == s[..n][1..];
    }
  }

  lemma {:induction false} ValueBound(base: nat, s: seq<nat>)
    requires base > 0 && IsDigits(base, s)
    ensures Value(base, s) < Pow(base, |s|)
  {
    if s != [] {
      var n := |s| - 1;
      ValueBound(base, s[..n]);
      MulMono(Value(base, s[..n]) + 1, Pow(base, n), base);
      MulAdd(Value(base, s[..n]), 1, base);
    }
  }

  /** Leading zeros do not count. */
  lemma {:induction false} ValueZeros(base: nat, s: seq<nat>, k: nat)
    requires k <= |s| && forall i :: 0 <= i < k ==> s[i] == 0
    ensures Value(base, s) == Value(base, s[k..])
    decreases k
  {
    if k == 0 {
      assert s[0..] == s;
    } else {
      ValueFront(base, s);
      assert forall i :: 0 <= i < k - 1 ==> s[1..][i] == s[i + 1];
      ValueZeros(base, s[1..], k - 1);
      assert s[1..][k - 1..] == s[k..];
    }
  }

  /** The digits of a number, without leading zeros. */
  function ToDigits(base: nat, v: nat): seq<nat>
    requires base > 1
    decreases v
  {
    if v == 0 then [] else Shrinks(v, base); ToDigits(base, v / base) + [v % base]
  }

  lemma Shrinks(v: nat, base: nat)
    requires v > 0 && base > 1
    ensures 0 <= v / base < v
  {
    DivMod(v, base);
    if v / base >= v {
      MulMono(v, v / base, base);
      MulMono(2, base, v);
      MulComm(base, v);
    }
  }

  ghost predicate Canonical(base: nat, s: seq<nat>) { IsDigits(base, s) && (s != [] ==> s[0] != 0) }

  lemma {:induction false} ToDigitsValue(base: nat, v: nat)
    requires base > 1
    ensures Value(base, ToDigits(base, v)) == v && Canonical(base, ToDigits(base, v))
  {
    if v > 0 {
      Shrinks(v, base);
      ToDigitsValue(base, v / base);
      var d := ToDigits(base, v / base);
      assert (d + [v % base])[..|d|] == d;
      DivMod(v, base);
      if d == [] {
        assert v / base == 0;
      }
    }
  }

  /** Digits without leading zeros are the digits of their value. */
  lemma {:induction false} ValueToDigits(base: nat, s: seq<nat>)
    requires base > 1 && Canonical(base, s)
    ensures ToDigits(base, Value(base, s)) == s && (s != [] ==> Value(base, s) > 0)
  {
    if s != [] {
      hide ToDigits;
      var n := |s| - 1;
      ValueToDigits(base, s[..n]);
      MulMono(if n == 0 then 0 else 1, Value(base, s[..n]), base);
      ToDigitsStep(base, Value(base, s[..n]), s[n]);
      assert s == s[..n] + [s[n]];
    }
  }

  lemma ToDigitsStep(base: nat, q: nat, r: nat)
    requires base > 1 && r < base && q * base + r > 0
    ensures ToDigits(base, q * base + r) == ToDigits(base, q) + [r]
  {
    DivUnique(q * base + r, q, base, r);
  }
}
