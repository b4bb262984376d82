/**
 Compact forms of limb arrays, and the rule that gives the proof-of-work target of the next block.
 */
module Retarget {
  import opened Basics
  import opened Numbers
  import opened Limbs
  import opened Arith
  import opened Shifts
  import opened Division
  import opened Compact

  // ---------- compact forms of limb arrays ----------

  method SetUint64(pn: array<Limb>, b: nat)
    requires pn.Length == WIDTH && b < 0x1_0000_0000_0000_0000
    modifies pn
    ensures Val(pn[..]) == b
  {
    pn[0], pn[1] := b % BASE, b / BASE;
    for i := 2 to WIDTH
      invariant pn[0] == b % BASE && pn[1] == b / BASE && forall k :: 2 <= k < i ==> pn[k] == 0
    {
      pn[i] := 0;
    }
    TwoLow(pn[..]);
  }

  lemma TwoLow(s: seq<Limb>)
    requires Uint(s)
    ensures Val(s) == s[0] as nat + s[1] as nat * BASE + Weight(2) * Val(s[2..])
    ensures (forall k :: 2 <= k < WIDTH ==> s[k] == 0) ==> Val(s[2..]) == 0
    ensures Weight(2) == 0x1_0000_0000_0000_0000
  {
    hide Val, Weight;
    ValSplit(s, 2);
    ValNext(s, 1);
    ValNext(s, 0);
    ValWhole(s);
    Unit();
    WeightNext(0);
    WeightNext(1);
    if forall k :: 2 <= k < WIDTH ==> s[k] == 0 {
      ValZero(s[2..]);
    }
  }

  /** The low 64 bits. */
  method GetLow64(pn: array<Limb>) returns (r: nat)
    requires pn.Length == WIDTH
    ensures r == Val(pn[..]) % 0x1_0000_0000_0000_0000
  {
    hide Val, Weight;
    TwoLow(pn[..]);
    Pow2Values();
    OrAdd(pn[0], pn[1], 32);
    r := Or(pn[0], pn[1] as nat * BASE);
    MulComm(Weight(2), Val(pn[..][2..]));
    DivUnique(Val(pn[..]), Val(pn[..][2..]), 0x1_0000_0000_0000_0000, r);
  }

  method SetCompact(pn: array<Limb>, nCompact: nat) returns (fNegative: bool, fOverflow: bool)
    requires pn.Length == WIDTH && nCompact < 0x1_0000_0000
    modifies pn
    ensures Val(pn[..]) == Magnitude(nCompact) % Modulus()
    ensures fNegative == Negative(nCompact) && fOverflow == Overflow(nCompact)
    ensures fOverflow <==> Magnitude(nCompact) >= Modulus()
  {
    hide Val, Weight, Pow2, Quotient;
    var nSize := nCompact / EXPONENT;
    var nWord := nCompact % SIGN;
    WordSmall(nCompact);
    OverflowExact(nCompact);
    ModulusIs();
    if nSize <= 3 {
      nWord := Quotient(nWord, Pow2(8 * (3 - nSize)));
      SetUint64(pn, nWord);
      Fits(pn[..]);
    } else {
      SetUint64(pn, nWord);
      ShiftLeft(pn, 8 * (nSize - 3));
    }
    fNegative := nWord != 0 && nCompact / SIGN % 2 == 1;
    fOverflow := nWord != 0 && (nSize > 34 || (nWord > 0xff && nSize > 33) || (nWord > 0xffff && nSize > 32));
  }

  lemma ModulusIs()
    ensures Modulus() == Pow2(256)
  {
  }

  lemma Fits(s: seq<Limb>)
    requires Uint(s)
    ensures Val(s) == Val(s) % Modulus()
  {
    InRange(s);
    Small(Val(s), Modulus());
  }

  lemma LengthIs(v: nat, n: nat)
    requires IsLength(v, n)
    ensures BitLen(v) == n
  {
    BitLenUnique(v, n);
  }

  lemma {:induction false} OrAbove(m: nat, h: nat, y: nat, s: nat)
    requires m < Pow2(s)
    ensures Or(m + h * Pow2(s), y * Pow2(s)) == m + Or(h, y) * Pow2(s)
    decreases s
  {
    if s > 0 {
      var p := Pow2(s - 1);
      Halve(h, p);
      Halve(y, p);
      Halve(Or(h, y), p);
      OrAbove(m / 2, h, y, s - 1);
    }
  }

  lemma OrSign(m: nat, size: nat)
    requires m < SIGN
    ensures Or(m, size * EXPONENT) == m + size * EXPONENT
    ensures Or(m + size * EXPONENT, SIGN) == m + size * EXPONENT + SIGN
  {
    ConstantPowers();
    OrAdd(m, size, 24);
    OrAbove(m, 2 * size, 1, 23);
    OrOdd(size);
  }

  lemma OrOdd(k: nat)
    ensures Or(2 * k, 1) == 2 * k + 1
  {
  }

  method Encode(pn: array<Limb>, fNegative: bool) returns (nCompact: nat)
    requires pn.Length == WIDTH
    ensures nCompact == GetCompact(Val(pn[..]), fNegative)
  {
    hide Val, Weight, Pow2, Quotient, BitLen, IsLength, Or, Bytes;
    ghost var v := Val(pn[..]);
    var bits := BitLength(pn);
    LengthIs(v, bits);
    InRange(pn[..]);
    ModulusIs();
    var nSize := (bits + 7) / 8;
    var m := LowThree(pn, nSize);
    nCompact := m;
    SplitShape(v);
    BytesBound(v);
    if nCompact / SIGN % 2 == 1 {
      nCompact := nCompact / 256;
      nSize := nSize + 1;
    }
    assert nCompact < SIGN;
    assert nSize < 256;
    OrSign(nCompact, nSize);
    var mantissa := nCompact;
    nCompact := Or(nCompact, nSize * EXPONENT);
    if fNegative && mantissa != 0 {
      nCompact := Or(nCompact, SIGN);
    }
  }

  /** The number cut or padded to three bytes; nothing is lost when it is narrowed to 32 bits. */
  method LowThree(pn: array<Limb>, nSize: nat) returns (nCompact: nat)
    requires pn.Length == WIDTH && nSize == (BitLen(Val(pn[..])) + 7) / 8
    ensures nCompact == ThreeBytes(Val(pn[..]), nSize)
  {
    hide Val, Weight, Pow2, Quotient, BitLen, ThreeBytes, Product;
    ghost var v := Val(pn[..]);
    ThreeBytesSmall(v, nSize);
    ThreeBytesBy(v, nSize);
    if nSize <= 3 {
      var low := GetLow64(pn);
      Small(v, 0x1_0000_0000_0000_0000);
      nCompact := Product(low, Pow2(8 * (3 - nSize)));
      Narrow(nCompact);
      nCompact := nCompact % 0x1_0000_0000_0000_0000 % 0x1_0000_0000;
    } else {
      var bn := Copy(pn);
      ShiftRight(bn, 8 * (nSize - 3));
      nCompact := GetLow64(bn);
      Narrow(Val(bn[..]));
      nCompact := nCompact % 0x1_0000_0000;
    }
  }

  lemma ThreeBytesBy(v: nat, size: nat)
    ensures size <= 3 ==> ThreeBytes(v, size) == Product(v, Pow2(8 * (3 - size)))
    ensures size > 3 ==> ThreeBytes(v, size) == Quotient(v, Pow2(8 * (size - 3)))
  {
  }

  lemma Narrow(x: nat)
    requires x < EXPONENT
    ensures x % 0x1_0000_0000_0000_0000 % 0x1_0000_0000 == x
  {
  }

  lemma ThreeBytesSmall(v: nat, size: nat)
    requires size == (BitLen(v) + 7) / 8
    ensures ThreeBytes(v, size) < EXPONENT && (size <= 3 ==> v < EXPONENT)
  {
    hide BitLen, Pow2, Quotient, ThreeBytes;
    ConstantPowers();
    BitLenZero(v);
    BitLenIs(v);
    if v == 0 {
      ThreeBytesZero();
    } else {
      ThreeBytesRange(v, size);
      Pow2Mono(BitLen(v) + 24 - 8 * size, 24);
      if size <= 3 {
        Pow2Mono(BitLen(v), 24);
      }
    }
  }

  // ---------- the rule ----------

  /** What the rule takes from the consensus parameters. */
  datatype Params = Params(powLimit: nat, timespan: nat, digishield: bool)

  ghost predicate ValidParams(p: Params) { p.powLimit < Pow2(256) && 0 < p.timespan < 0x1000_0000_0000_0000 }

  /** Division toward zero. */
  function TruncDiv(a: int, b: nat): int
    requires b > 0
  {
    if a >= 0 then a / b else -(-a / b)
  }

  function MinTimespan(p: Params, nextHeight: int): nat {
    if p.digishield then p.timespan - p.timespan / 4
    else if nextHeight > 10000 then p.timespan / 4
    else if nextHeight > 5000 then p.timespan / 8
    else p.timespan / 16
  }

  function MaxTimespan(p: Params): nat { if p.digishield then p.timespan + p.timespan / 2 else p.timespan * 4 }

  function Clamped(p: Params, nextHeight: int, actual: int): nat {
    var t := if p.digishield then p.timespan + TruncDiv(actual - p.timespan, 8) else actual;
    if t < MinTimespan(p, nextHeight) then MinTimespan(p, nextHeight) else if t > MaxTimespan(p) then MaxTimespan(p) else t
  }

  /** The target that the rule is meant to give: in proportion to the time taken, up to the limit. */
  ghost function Ideal(p: Params, prior: nat, t: nat): nat
    requires p.timespan > 0
  {
    Min(Quotient(prior * t, p.timespan), p.powLimit)
  }

  /** What the code computes: the factor narrowed to 32 bits, the product to 256. */
  ghost function Computed(p: Params, prior: nat, t: nat): nat
    requires p.timespan > 0
  {
    Min(if t != p.timespan then Quotient(t % 0x1_0000_0000 * prior % Modulus(), p.timespan) else prior, p.powLimit)
  }

  ghost function NextBits(p: Params, genesis: bool, nextHeight: int, bits: nat, actual: int): nat
    requires p.timespan > 0
  {
    if genesis then GetCompact(p.powLimit, false)
    else GetCompact(Computed(p, Magnitude(bits) % Modulus(), Clamped(p, nextHeight, actual)), false)
  }

  method NextWorkRequired(limit: array<Limb>, p: Params, genesis: bool, nHeight: int, nBits: nat, nActualTimespan: int) returns (nextBits: nat)
    requires limit.Length == WIDTH && Val(limit[..]) == p.powLimit && ValidParams(p) && nBits < 0x1_0000_0000
    ensures nextBits == NextBits(p, genesis, nHeight + 1, nBits, nActualTimespan)
  {
    hide Val, Weight, Pow2, Quotient, GetCompact, Magnitude, Modulus, Computed;
    if genesis {
      nextBits := Encode(limit, false);
      return;
    }
    var retargetTimespan := p.timespan;
    var nModulatedTimespan := ClampTimespan(p, nHeight + 1, nActualTimespan);
    var bn := new Limb[WIDTH];
    var _, _ := SetCompact(bn, nBits);
    ghost var prior := Val(bn[..]);
    if nModulatedTimespan != retargetTimespan {
      MultiplySmall(bn, nModulatedTimespan % 0x1_0000_0000);
      var divisor := new Limb[WIDTH];
      SetUint64(divisor, retargetTimespan);
      var _, _ := Divide(bn, divisor);
    }
    var c := CompareTo(bn, limit);
    ComputedIs(p, prior, nModulatedTimespan, Val(bn[..]));
    if c > 0 {
      nextBits := Encode(limit, false);
    } else {
      nextBits := Encode(bn, false);
    }
  }

  lemma ComputedIs(p: Params, prior: nat, t: nat, v: nat)
    requires ValidParams(p)
    requires v == if t != p.timespan then Quotient(t % 0x1_0000_0000 * prior % Modulus(), p.timespan) else prior
    ensures Computed(p, prior, t) == Min(v, p.powLimit)
  {
  }

  method ClampTimespan(p: Params, nextHeight: int, nActualTimespan: int) returns (nModulatedTimespan: int)
    requires p.timespan > 0
    ensures nModulatedTimespan == Clamped(p, nextHeight, nActualTimespan) && TimespanRule(p, nextHeight, nActualTimespan, nModulatedTimespan)
  {
    var retargetTimespan := p.timespan;
    nModulatedTimespan := nActualTimespan;
    var nMaxTimespan, nMinTimespan;
    if p.digishield {
      nModulatedTimespan := retargetTimespan + TruncDiv(nModulatedTimespan - retargetTimespan, 8);
      nMinTimespan := retargetTimespan - retargetTimespan / 4;
      nMaxTimespan := retargetTimespan + retargetTimespan / 2;
    } else if nextHeight > 10000 {
      nMinTimespan := retargetTimespan / 4;
      nMaxTimespan := retargetTimespan * 4;
    } else if nextHeight > 5000 {
      nMinTimespan := retargetTimespan / 8;
      nMaxTimespan := retargetTimespan * 4;
    } else {
      nMinTimespan := retargetTimespan / 16;
      nMaxTimespan := retargetTimespan * 4;
    }
    if nModulatedTimespan < nMinTimespan {
      nModulatedTimespan := nMinTimespan;
    } else if nModulatedTimespan > nMaxTimespan {
      nModulatedTimespan := nMaxTimespan;
    }
    ClampedExact(p, nextHeight, nActualTimespan, Clamped(p, nextHeight, nActualTimespan));
  }

  // ---------- the rule in numbers ----------

  /**
   The timespan that counts. Digishield takes an eighth of the deviation, toward zero, and stays
   within a quarter below and a half above; before it the timespan itself counts, cut to at most
   four times and at least a quarter, an eighth or a sixteenth.
   */
  predicate TimespanRule(p: Params, nextHeight: int, actual: int, t: nat) {
    var T, d := p.timespan, actual - p.timespan;
    if p.digishield then
      if d <= -8 * (T / 4) then t == T - T / 4
      else if d >= 8 * (T / 2) then t == T + T / 2
      else if d >= 0 then 8 * (t - T) <= d < 8 * (t - T) + 8
      else 8 * (T - t) <= -d < 8 * (T - t) + 8
    else
      var least := if nextHeight > 10000 then T / 4 else if nextHeight > 5000 then T / 8 else T / 16;
      least <= t <= 4 * T && (t < actual ==> t == 4 * T) && (actual < t ==> t == least)
  }

  /** The target in proportion to a timespan, rounded down, but not above the limit. */
  ghost predicate TargetRule(p: Params, prior: nat, t: nat, c: nat) {
    c * p.timespan <= prior * t && c <= p.powLimit && (c < p.powLimit ==> prior * t < c * p.timespan + p.timespan)
  }

  /** The clamped timespan is the one that the rule names. */
  lemma ClampedExact(p: Params, nextHeight: int, actual: int, t: nat)
    ensures TimespanRule(p, nextHeight, actual, t) <==> t == Clamped(p, nextHeight, actual)
  {
    hide TruncDiv;
    if p.digishield {
      var d := actual - p.timespan;
      Eighth(d, TruncDiv(d, 8));
      Eighth(d, t - p.timespan);
    }
  }

  /** An eighth toward zero. */
  lemma Eighth(d: int, e: int)
    ensures e == TruncDiv(d, 8) <==> if d >= 0 then 8 * e <= d < 8 * e + 8 else 8 * -e <= -d < 8 * -e + 8
  {
  }

  lemma IdealExact(p: Params, prior: nat, t: nat, c: nat)
    requires p.timespan > 0
    ensures TargetRule(p, prior, t, c) <==> c == Ideal(p, prior, t)
  {
    var x, d := prior * t, p.timespan;
    var q := Quotient(x, d);
    DivMod(x, d);
    if c <= q {
      MulMono(c, q, d);
      if c < q {
        MulMono(c + 1, q, d);
        MulAdd(c, 1, d);
      }
    } else {
      MulMono(q + 1, c, d);
      MulAdd(q, 1, d);
    }
  }

  // ---------- chains ----------

  /** Parameters under which the product cannot leave 256 bits. */
  ghost predicate Safe(p: Params) {
    ValidParams(p) && MaxTimespan(p) < 0x1_0000_0000 && p.powLimit * MaxTimespan(p) < Pow2(256)
  }

  lemma ClampedRange(p: Params, nextHeight: int, actual: int)
    ensures MinTimespan(p, nextHeight) <= Clamped(p, nextHeight, actual) <= MaxTimespan(p)
  {
  }

  /** Under safe parameters nothing wraps: what is computed is what is meant. */
  lemma ComputedIdeal(p: Params, prior: nat, t: nat)
    requires Safe(p) && prior <= p.powLimit && t <= MaxTimespan(p)
    ensures prior * t < Pow2(256) && Computed(p, prior, t) == Ideal(p, prior, t) <= p.powLimit
  {
    hide Pow2, Weight;
    ModulusIs();
    MulMono(prior, p.powLimit, t);
    MulMono(t, MaxTimespan(p), p.powLimit);
    MulComm(t, p.powLimit);
    MulComm(MaxTimespan(p), p.powLimit);
    MulComm(prior, t);
    Small(prior * t, Modulus());
    DivUnique(prior * p.timespan, prior, p.timespan, 0);
  }

  /** One retarget: nothing wraps, and the new target is the truncation of the one that the rule names. */
  lemma RetargetExact(p: Params, nextHeight: int, bits: nat, actual: int, t: nat, c: nat)
    requires Safe(p) && Magnitude(bits) <= p.powLimit
    requires TimespanRule(p, nextHeight, actual, t) && TargetRule(p, Magnitude(bits), t, c)
    ensures Magnitude(bits) * t < Pow2(256) && Magnitude(NextBits(p, false, nextHeight, bits, actual)) == Truncated(c) <= c
  {
    hide Pow2, Safe, TimespanRule, TargetRule, Clamped, Ideal, Magnitude, Truncated, NextBits;
    SafeValid(p);
    ClampedExact(p, nextHeight, actual, t);
    IdealExact(p, Magnitude(bits), t, c);
    RetargetIdeal(p, nextHeight, bits, actual);
  }

  lemma RetargetIdeal(p: Params, nextHeight: int, bits: nat, actual: int)
    requires Safe(p) && Magnitude(bits) <= p.powLimit
    ensures var t := Clamped(p, nextHeight, actual);
            && Magnitude(bits) * t < Pow2(256)
            && Magnitude(NextBits(p, false, nextHeight, bits, actual)) == Truncated(Ideal(p, Magnitude(bits), t)) <= Ideal(p, Magnitude(bits), t)
  {
    hide Pow2, Weight, Computed, Ideal, Clamped, Magnitude, Truncated;
    var t := Clamped(p, nextHeight, actual);
    ModulusIs();
    ClampedRange(p, nextHeight, actual);
    Small(Magnitude(bits), Modulus());
    ComputedIdeal(p, Magnitude(bits), t);
    RoundTrip(Ideal(p, Magnitude(bits), t));
  }

  /** The block after the first has the easiest target. */
  lemma FirstBits(p: Params, nextHeight: int, bits: nat, actual: int)
    requires ValidParams(p)
    ensures Magnitude(NextBits(p, true, nextHeight, bits, actual)) == Truncated(p.powLimit)
  {
    hide Pow2, Magnitude, Truncated;
    RoundTrip(p.powLimit);
  }

  /** With any parameters the new target is a truncation and at most the limit. */
  lemma RetargetBound(p: Params, nextHeight: int, bits: nat, actual: int)
    requires ValidParams(p)
    ensures var c := Computed(p, Magnitude(bits) % Modulus(), Clamped(p, nextHeight, actual));
            Magnitude(NextBits(p, false, nextHeight, bits, actual)) == Truncated(c) <= c <= p.powLimit
  {
    hide Pow2, Weight, Clamped, Magnitude, Truncated, Modulus;
    RoundTrip(Computed(p, Magnitude(bits) % Modulus(), Clamped(p, nextHeight, actual)));
  }

  /** The bits of the next block: those of an earlier block, reset to the easiest target, or by the rule. */
  datatype Step = Keep(block: nat) | Reset | Retarget(p: Params, nextHeight: int, actual: int)

  ghost predicate StepOk(limit: nat, s: Step, i: nat) {
    match s
    case Keep(block) => block <= i
    case Reset => true
    case Retarget(p, _, _) => ValidParams(p) && p.powLimit == limit
  }

  /** The bits of block `i + 1`, from those of the blocks before it. */
  ghost function After(limit: nat, bits: seq<nat>, s: Step, i: nat): nat
    requires i < |bits| && StepOk(limit, s, i)
  {
    match s
    case Keep(block) => bits[block]
    case Reset => GetCompact(limit, false)
    case Retarget(p, nextHeight, actual) => NextBits(p, false, nextHeight, bits[i], actual)
  }

  /** A chain from a genesis block whose target is within the limit. */
  ghost predicate Follows(limit: nat, bits: seq<nat>, steps: seq<Step>) {
    && |bits| == |steps| + 1 && Magnitude(bits[0]) <= limit
    && (forall i :: 0 <= i < |steps| ==> StepOk(limit, steps[i], i))
    && (forall i :: 0 <= i < |steps| ==> bits[i + 1] == After(limit, bits, steps[i], i))
  }

  /** The product fits 256 bits, and the next target is the truncation of the one that the rule names. */
  ghost predicate Ruled(p: Params, nextHeight: int, actual: int, bits: nat, next: nat) {
    exists t: nat, c: nat ::
      && TimespanRule(p, nextHeight, actual, t) && TargetRule(p, Magnitude(bits), t, c)
      && Magnitude(bits) * t < Pow2(256) && Magnitude(next) == Truncated(c)
  }

  lemma RetargetRuled(p: Params, nextHeight: int, bits: nat, actual: int)
    requires Safe(p) && Magnitude(bits) <= p.powLimit
    ensures Ruled(p, nextHeight, actual, bits, NextBits(p, false, nextHeight, bits, actual))
  {
    hide Pow2, Safe, TimespanRule, TargetRule, Clamped, Ideal, Magnitude, Truncated, NextBits;
    SafeValid(p);
    var t := Clamped(p, nextHeight, actual);
    var c := Ideal(p, Magnitude(bits), t);
    ClampedExact(p, nextHeight, actual, t);
    IdealExact(p, Magnitude(bits), t, c);
    RetargetExact(p, nextHeight, bits, actual, t, c);
  }

  /**
   On every chain no target exceeds the limit, and a retarget with safe parameters neither wraps
   nor is off by more than the truncation.
   */
  lemma {:induction false} EveryTarget(limit: nat, bits: seq<nat>, steps: seq<Step>, i: nat)
    requires limit < Pow2(256) && Follows(limit, bits, steps) && i < |bits|
    ensures Magnitude(bits[i]) <= limit
    ensures i < |steps| && steps[i].Retarget? && Safe(steps[i].p) ==> Ruled(steps[i].p, steps[i].nextHeight, steps[i].actual, bits[i], bits[i + 1])
  {
    hide Pow2, GetCompact, Magnitude, Truncated, Safe, NextBits, ValidParams, Ruled;
    if i > 0 {
      var s := steps[i - 1];
      assert StepOk(limit, s, i - 1) && bits[i - 1 + 1] == After(limit, bits, s, i - 1);
      match s
      case Keep(block) => EveryTarget(limit, bits, steps, block);
      case Reset => RoundTrip(limit);
      case Retarget(p, nextHeight, actual) => RetargetBound(p, nextHeight, bits[i - 1], actual);
    }
    if i < |steps| && steps[i].Retarget? && Safe(steps[i].p) {
      assert StepOk(limit, steps[i], i);
      RetargetRuled(steps[i].p, steps[i].nextHeight, bits[i], steps[i].actual);
      assert bits[i + 1] == After(limit, bits, steps[i], i);
    }
  }

  /** Slower blocks never give a harder target. */
  lemma SlowerIsEasier(p: Params, nextHeight: int, bits: nat, actual: int, slower: int)
    requires Safe(p) && Magnitude(bits) <= p.powLimit && actual <= slower
    ensures NextBits(p, false, nextHeight, bits, actual) <= NextBits(p, false, nextHeight, bits, slower)
  {
    hide Pow2, Weight, Computed, Magnitude, Truncated, Safe, GetCompact, Quotient;
    var prior, t, u := Magnitude(bits), Clamped(p, nextHeight, actual), Clamped(p, nextHeight, slower);
    ModulusIs();
    SafeValid(p);
    ClampedRange(p, nextHeight, actual);
    ClampedRange(p, nextHeight, slower);
    ClampedMono(p, nextHeight, actual, slower);
    Small(prior, Modulus());
    ComputedIdeal(p, prior, t);
    ComputedIdeal(p, prior, u);
    MulMono(t, u, prior);
    MulComm(t, prior);
    MulComm(u, prior);
    QuotientMono(prior * t, prior * u, p.timespan);
    Monotone(Ideal(p, prior, t), Ideal(p, prior, u));
  }

  lemma SafeValid(p: Params)
    requires Safe(p)
    ensures ValidParams(p)
  {
  }

  lemma QuotientMono(x: nat, y: nat, d: nat)
    requires d > 0 && x <= y
    ensures Quotient(x, d) <= Quotient(y, d)
  {
    DivMono(x, y, d);
  }

  lemma ClampedMono(p: Params, nextHeight: int, actual: int, slower: int)
    requires actual <= slower
    ensures Clamped(p, nextHeight, actual) <= Clamped(p, nextHeight, slower)
  {
  }

  // ---------- the main chain and the inu chain ----------

  ghost function MainLimit(): nat { Pow2(236) - 1 }

  ghost function MainParams(digishield: bool): Params { Params(MainLimit(), if digishield then 60 else 4 * 60 * 60, digishield) }

  lemma MainSafe(digishield: bool)
    ensures Safe(MainParams(digishield))
  {
    hide Pow2;
    Pow2Values();
    Pow2Mono(236, 256);
    Pow2Add(236, 16);
    Pow2Mono(252, 256);
    assert MaxTimespan(MainParams(digishield)) <= 57600;
    MulMono(MaxTimespan(MainParams(digishield)), 0x1_0000, Pow2(236) - 1);
    MulComm(MaxTimespan(MainParams(digishield)), Pow2(236) - 1);
  }

  /** The bits of the genesis block of the main and test chains. */
  const GENESIS_BITS: nat := 0x1e0ffff0

  lemma GenesisWithin(digishield: bool)
    ensures Magnitude(GENESIS_BITS) <= MainParams(digishield).powLimit
  {
    hide Pow2;
    ConstantPowers();
    assert GENESIS_BITS / EXPONENT == 30 && GENESIS_BITS % SIGN == 0xffff0;
    assert Pow2(20) == 0x10_0000 by { Pow2Values(); Pow2Twenty(); }
    Pow2Add(20, 216);
    MulMono(0xffff0 + 1, Pow2(20), Pow2(216));
    MulAdd(0xffff0, 1, Pow2(216));
  }

  lemma Pow2Twenty()
    ensures Pow2(20) == 0x10_0000
  {
    Pow2Values();
    assert Pow2(4) == 16;
    Pow2Add(16, 4);
  }

  /** On every main chain no target exceeds the limit, no retarget wraps, and each is the truncation of the one meant. */
  lemma EveryMainTarget(bits: seq<nat>, steps: seq<Step>, i: nat)
    requires |bits| == |steps| + 1 && bits[0] == GENESIS_BITS && i < |bits|
    requires forall k :: 0 <= k < |steps| ==> StepOk(MainLimit(), steps[k], k)
    requires forall k :: 0 <= k < |steps| && steps[k].Retarget? ==> steps[k].p == MainParams(steps[k].p.digishield)
    requires forall k :: 0 <= k < |steps| ==> bits[k + 1] == After(MainLimit(), bits, steps[k], k)
    ensures Magnitude(bits[i]) < Pow2(236)
    ensures i < |steps| && steps[i].Retarget? ==> Ruled(steps[i].p, steps[i].nextHeight, steps[i].actual, bits[i], bits[i + 1])
  {
    hide Pow2, GetCompact, Magnitude, Truncated, Safe, Clamped, Ideal, NextBits, Ruled;
    Pow2Mono(236, 256);
    GenesisWithin(true);
    if i < |steps| && steps[i].Retarget? {
      MainSafe(steps[i].p.digishield);
    }
    EveryTarget(MainLimit(), bits, steps, i);
  }

  /**
   When the computed target is the one that is meant, for any parameters with timespans of 32 bits:
   exactly if nothing was multiplied, or the product stays within 256 bits, or what is left of it
   is still above the limit.
   */
  lemma ComputedExact(p: Params, prior: nat, t: nat)
    requires ValidParams(p) && t < 0x1_0000_0000 && prior <= p.powLimit
    ensures Computed(p, prior, t) == Ideal(p, prior, t) <==>
            t == p.timespan || prior * t < Pow2(256) || Quotient(prior * t % Pow2(256), p.timespan) >= p.powLimit
  {
    hide Pow2, Weight, Quotient;
    ModulusIs();
    MulComm(prior, t);
    Small(t, 0x1_0000_0000);
    Proportion(prior, p.timespan);
    var x := prior * t;
    if x < Pow2(256) {
      Small(x, Pow2(256));
    } else {
      Pow2Mono(60, 256);
      Pow2Sixty();
      WrapLoses(x, Pow2(256), p.timespan);
    }
  }

  lemma Proportion(prior: nat, d: nat)
    requires d > 0
    ensures Quotient(prior * d, d) == prior
  {
    DivUnique(prior * d, prior, d, 0);
  }

  lemma Pow2Sixty()
    ensures Pow2(60) == 0x1000_0000_0000_0000
  {
    Pow2Values();
    Pow2Add(32, 24);
    assert Pow2(4) == 16;
    Pow2Add(56, 4);
  }

  /** A product that wraps has a smaller quotient. */
  lemma WrapLoses(x: nat, m: nat, d: nat)
    requires 0 < d <= m <= x
    ensures Quotient(x % m, d) < Quotient(x, d)
  {
    DivMod(x, m);
    MulMono(1, x / m, m);
    var y := x % m;
    assert y + d <= x;
    DivMono(y + d, x, d);
    DivMod(y, d);
    DivUnique(y + d, y / d + 1, d, y % d);
  }

  ghost function InuParams(): Params { Params(Pow2(250) - 1, 60, true) }

  /**
   With the inu limit the product of a target at the limit and the longest timespan wraps, and a
   slow block makes the next target harder instead of leaving it at the limit.
   */
  lemma InuWraps(nextHeight: int)
    ensures var p := InuParams();
            var bits := GetCompact(p.powLimit, false);
            && Clamped(p, nextHeight, 300) == 90 && Magnitude(bits) * 90 >= Pow2(256)
            && Ideal(p, Magnitude(bits), 90) == p.powLimit
            && Magnitude(NextBits(p, false, nextHeight, bits, 300)) < Magnitude(bits)
  {
    hide Pow2, Weight, GetCompact, Magnitude, Truncated;
    var p := InuParams();
    var v := p.powLimit;
    var prior := Truncated(v);
    Pow2Add(250, 6);
    Pow2Six();
    ModulusIs();
    RoundTrip(v);
    RoundsDown(v);
    Small(prior, Modulus());
    var x := 90 * prior;
    DivUnique(x, 1, Modulus(), x - Modulus());
    var y := Computed(p, prior, 90);
    assert y <= (x - Modulus()) / 60;
    RoundTrip(y);
  }

  /** On the inu chain a target is computed as meant exactly if the product stays within 256 bits. */
  lemma InuComputedExact(prior: nat, t: nat)
    requires prior <= InuParams().powLimit && t <= 90
    ensures Computed(InuParams(), prior, t) == Ideal(InuParams(), prior, t) <==> prior * t < Pow2(256)
    ensures prior * t >= Pow2(256) ==> Ideal(InuParams(), prior, t) == InuParams().powLimit && Computed(InuParams(), prior, t) < Pow2(249)
  {
    hide Pow2, Weight, Quotient;
    var p := InuParams();
    InuPowers();
    ModulusIs();
    ComputedExact(p, prior, t);
    InuProduct(prior, t, p.powLimit);
    var x := prior * t;
    if x >= Pow2(256) {
      MulComm(prior, t);
      Small(t, 0x1_0000_0000);
      DivUnique(x, 1, Pow2(256), x - Pow2(256));
      InuQuotients(x, Pow2(250));
      assert t != p.timespan;
    }
  }

  lemma InuPowers()
    ensures Pow2(256) == 64 * Pow2(250) && Pow2(250) == 2 * Pow2(249) && Pow2(250) > 1000000
  {
    Pow2Add(250, 6);
    Pow2Add(249, 1);
    Pow2Six();
  }

  lemma InuProduct(prior: nat, t: nat, limit: nat)
    requires prior <= limit && t <= 90
    ensures prior * t <= 90 * limit && (t == 60 ==> prior * t <= 60 * limit)
  {
    MulMono(prior, limit, t);
    MulMono(t, 90, limit);
    MulComm(limit, t);
  }

  lemma InuQuotients(x: nat, u: nat)
    requires 64 * u <= x <= 90 * u && u > 1000000
    ensures Quotient(x, 60) >= u && 2 * Quotient(x - 64 * u, 60) < u
  {
  }

  /** The same for the bits of the next block: right exactly if the product stays within 256 bits. */
  lemma InuExact(nextHeight: int, bits: nat, actual: int, t: nat, c: nat)
    requires Magnitude(bits) <= InuParams().powLimit
    requires TimespanRule(InuParams(), nextHeight, actual, t) && TargetRule(InuParams(), Magnitude(bits), t, c)
    ensures NextBits(InuParams(), false, nextHeight, bits, actual) == GetCompact(c, false) <==> Magnitude(bits) * t < Pow2(256)
  {
    hide Pow2, Weight, GetCompact, Magnitude, Truncated, Computed, Ideal, Clamped, BitLen, TimespanRule, TargetRule;
    var p := InuParams();
    ClampedExact(p, nextHeight, actual, t);
    IdealExact(p, Magnitude(bits), t, c);
    var prior := Magnitude(bits);
    ModulusIs();
    InuPowers();
    Small(prior, Modulus());
    ClampedRange(p, nextHeight, actual);
    assert MaxTimespan(p) == 90;
    InuComputedExact(prior, t);
    if prior * t >= Pow2(256) {
      InuApart(Computed(p, prior, t));
    }
  }

  /** Targets below half the limit are told from the limit by their compact forms. */
  lemma InuApart(c: nat)
    requires c < Pow2(249)
    ensures GetCompact(c, false) != GetCompact(InuParams().powLimit, false)
  {
    hide Pow2, GetCompact, Magnitude, Truncated, BitLen;
    var limit := InuParams().powLimit;
    InuPowers();
    RoundTrip(c);
    RoundTrip(limit);
    TruncatedBits(limit);
    BitLenUnique(limit, 250);
  }

  lemma Pow2Six()
    ensures Pow2(6) == 64 && Pow2(250) > 1000000
  {
    assert Pow2(6) == 64;
    Pow2Values();
    Pow2Mono(24, 250);
  }
}
