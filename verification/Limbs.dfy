/** Numbers as little-endian sequences of 32-bit limbs. */
module Limbs {
  import opened Numbers

  const BASE: nat := 0x1_0000_0000

  type Limb = x: nat | x < 0x1_0000_0000

  /** The weight of limb `i`. */
  ghost function Weight(i: nat): (w: nat)
    ensures w > 0
  {
    Pow2(32 * i)
  }

  lemma WeightNext(i: nat)
    ensures Weight(i + 1) == BASE * Weight(i)
  {
    Pow2Values();
    Pow2Add(32 * i, 32);
  }

  lemma WeightAdd(i: nat, j: nat)
    ensures Weight(i + j) == Weight(i) * Weight(j)
  {
    Pow2Add(32 * i, 32 * j);
  }

  ghost function Val(s: seq<Limb>): nat {
    if s == [] then 0 else Val(s[..|s| - 1]) + s[|s| - 1] * Weight(|s| - 1)
  }

  lemma ValNext(s: seq<Limb>, i: nat)
    requires i < |s|
    ensures Val(s[..i + 1]) == Val(s[..i]) + s[i] * Weight(i)
  {
    assert s[..i + 1][..i] == s[..i];
  }

  lemma ValWhole(s: seq<Limb>)
    ensures Val(s[..|s|]) == Val(s) && Val(s[..0]) == 0
  {
    assert s[..|s|] == s;
  }

  lemma {:induction false} ValBound(s: seq<Limb>)
    ensures Val(s) < Weight(|s|)
  {
    if s != [] {
      var n := |s| - 1;
      ValBound(s[..n]);
      WeightNext(n);
      MulMono(s[n] as int + 1, BASE, Weight(n));
      MulAdd(s[n], 1, Weight(n));
    }
  }

  /** Changing one limb changes the value by its difference times its weight. */
  lemma {:induction false} ValSet(s: seq<Limb>, i: nat, x: Limb)
    requires i < |s|
    ensures Val(s[i := x]) == Val(s) + (x - s[i]) * Weight(i)
  {
    var n := |s| - 1;
    MulAdd(x - s[i], s[i], Weight(i));
    if i < n {
      ValSet(s[..n], i, x);
      assert s[i := x][..n] == s[..n][i := x];
    } else {
      assert s[i := x][..n] == s[..n];
    }
  }

  lemma {:induction false} ValZero(s: seq<Limb>)
    requires forall i :: 0 <= i < |s| ==> s[i] == 0
    ensures Val(s) == 0
  {
    if s != [] {
      ValZero(s[..|s| - 1]);
    }
  }

  lemma {:induction false} ValSplit(s: seq<Limb>, i: nat)
    requires i <= |s|
    ensures Val(s) == Val(s[..i]) + Weight(i) * Val(s[i..])
  {
    if i == |s| {
      assert s[..i] == s && s[i..] == [];
    } else {
      var n := |s| - 1;
      ValSplit(s[..n], i);
      assert s[..n][..i] == s[..i] && s[..n][i..] == s[i..n];
      assert s[i..][..n - i] == s[i..n] && s[i..][n - i] == s[n];
      WeightAdd(i, n - i);
      MulAdd(Val(s[i..n]), s[n] * Weight(n - i), Weight(i));
      MulComm(Weight(i), Val(s[i..]));
      MulComm(Weight(i), Val(s[i..n]));
      MulComm(Weight(n - i), Weight(i));
      MulAssoc(s[n], Weight(n - i), Weight(i));
    }
  }

  /** Splitting a sum into a limb and a carry. */
  lemma Carry(n: nat, w: nat)
    ensures n % BASE * w + n / BASE * (BASE * w) == n * w
  {
    DivMod(n, BASE);
    MulAdd(n / BASE * BASE, n % BASE, w);
    MulAssoc(n / BASE, BASE, w);
  }

  /** The highest limb that differs decides a comparison. */
  lemma {:induction false} Compare(a: seq<Limb>, b: seq<Limb>, i: nat)
    requires |a| == |b| && i < |a| && a[i] < b[i] && a[i + 1..] == b[i + 1..]
    ensures Val(a) < Val(b)
  {
    ValSplit(a, i + 1);
    ValSplit(b, i + 1);
    ValNext(a, i);
    ValNext(b, i);
    ValBound(a[..i]);
    MulMono(a[i] as int + 1, b[i], Weight(i));
    MulAdd(a[i], 1, Weight(i));
  }
}
