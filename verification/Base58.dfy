/**
 Base58: bytes written as digits of one large number in base 58, with a '1' for each leading zero
 byte. The conversion works in place on a buffer of digits whose size is fixed beforehand.
 */
module Base58 {
  import opened Basics
  import opened Numbers
  import opened Digits

  // ---------- the alphabet: alphanumerics without '0', 'I', 'O' and 'l', in order ----------

  function CharOf(d: nat): char
    requires d < 58
  {
    if d < 9 then '1' + d as char
    else if d < 17 then 'A' + (d - 9) as char
    else if d < 22 then 'J' + (d - 17) as char
    else if d < 33 then 'P' + (d - 22) as char
    else if d < 44 then 'a' + (d - 33) as char
    else 'm' + (d - 44) as char
  }

  function DigitOf(c: char): int {
    if '1' <= c <= '9' then c as int - '1' as int
    else if 'A' <= c <= 'H' then c as int - 'A' as int + 9
    else if 'J' <= c <= 'N' then c as int - 'J' as int + 17
    else if 'P' <= c <= 'Z' then c as int - 'P' as int + 22
    else if 'a' <= c <= 'k' then c as int - 'a' as int + 33
    else if 'm' <= c <= 'z' then c as int - 'm' as int + 44
    else -1
  }

  lemma Alphabet(d: nat, c: char)
    ensures d < 58 ==> DigitOf(CharOf(d)) == d && CharOf(d) != '\0' && !IsSpace(CharOf(d))
    ensures DigitOf(c) >= 0 ==> DigitOf(c) < 58 && CharOf(DigitOf(c)) == c
    ensures DigitOf(c) == 0 <==> c == '1'
  {
  }

  const ALPHABET := "123456789" + "ABCDEFGHJKLMNPQRSTUVWXYZ" + "abcdefghijkmnopqrstuvwxyz"

  /** A digit is written by its place in the alphabet, and no other character is a digit. */
  lemma AlphabetExact(d: nat, c: char)
    ensures |ALPHABET| == 58 && (d < 58 ==> CharOf(d) == ALPHABET[d])
    ensures DigitOf(c) >= 0 <==> c in ALPHABET
  {
    if d < 58 {
      AlphabetAt(d);
    }
    if DigitOf(c) >= 0 {
      Alphabet(0, c);
      AlphabetAt(DigitOf(c));
    } else if c in ALPHABET {
      var k: nat :| k < |ALPHABET| && ALPHABET[k] == c;
      AlphabetAt(k);
      Alphabet(k, c);
    }
  }

  lemma AlphabetAt(d: nat)
    requires d < 58
    ensures |ALPHABET| == 58 && CharOf(d) == ALPHABET[d]
  {
    match d
    case 0 => case 1 => case 2 => case 3 => case 4 => case 5 => case 6 => case 7 => case 8 =>
    case 9 => case 10 => case 11 => case 12 => case 13 => case 14 => case 15 => case 16 =>
    case 17 => case 18 => case 19 => case 20 => case 21 =>
    case 22 => case 23 => case 24 => case 25 => case 26 => case 27 => case 28 => case 29 => case 30 => case 31 => case 32 =>
    case 33 => case 34 => case 35 => case 36 => case 37 => case 38 => case 39 => case 40 => case 41 => case 42 => case 43 =>
    case 44 => case 45 => case 46 => case 47 => case 48 => case 49 => case 50 => case 51 =>
    case 52 => case 53 => case 54 => case 55 => case 56 => case _ => assert d == 57;
  }

  predicate IsSpace(c: char) { c == ' ' || '\t' <= c <= '\r' }

  /** The spaces of the C locale: blank, tab, line feed, vertical tab, form feed and carriage return. */
  lemma SpacesExact(c: char)
    ensures IsSpace(c) <==> c as int in {0x20, 0x09, 0x0a, 0x0b, 0x0c, 0x0d}
  {
  }

  function Chars(d: seq<nat>): string
    requires forall i :: 0 <= i < |d| ==> d[i] < 58
  {
    seq(|d|, i requires 0 <= i < |d| => CharOf(d[i]))
  }

  predicate AllDigits(s: string) { forall i :: 0 <= i < |s| ==> DigitOf(s[i]) >= 0 }

  function DigitsOf(s: string): seq<nat>
    requires AllDigits(s)
  {
    seq(|s|, i requires 0 <= i < |s| => DigitOf(s[i]))
  }

  lemma CharsBack(d: seq<nat>)
    requires IsDigits(58, d)
    ensures AllDigits(Chars(d)) && DigitsOf(Chars(d)) == d
    ensures forall i :: 0 <= i < |d| ==> Chars(d)[i] != '\0' && !IsSpace(Chars(d)[i])
  {
    forall i | 0 <= i < |d|
      ensures DigitOf(CharOf(d[i])) == d[i] && CharOf(d[i]) != '\0' && !IsSpace(CharOf(d[i]))
    {
      Alphabet(d[i], ' ');
    }
  }

  lemma DigitsBack(s: string)
    requires AllDigits(s)
    ensures IsDigits(58, DigitsOf(s)) && Chars(DigitsOf(s)) == s
  {
    forall i | 0 <= i < |s|
      ensures DigitOf(s[i]) < 58 && CharOf(DigitOf(s[i])) == s[i]
    {
      Alphabet(0, s[i]);
    }
  }

  // ---------- conversion of digits ----------

  function LeadingZeros(s: seq<nat>): (z: nat)
    ensures z <= |s| && (forall i :: 0 <= i < z ==> s[i] == 0) && (z < |s| ==> s[z] != 0)
  {
    if s == [] || s[0] != 0 then 0 else
      var z := LeadingZeros(s[1..]);
      assert forall i :: 1 <= i < 1 + z ==> s[i] == s[1..][i - 1];
      1 + z
  }

  function Zeros(n: nat): seq<nat> { seq(n, _ => 0) }

  /** Leading zeros are kept one for one; the rest is converted as a number. */
  ghost function Converted(s: seq<nat>, from: nat, to: nat): seq<nat>
    requires to > 1
  {
    Zeros(LeadingZeros(s)) + ToDigits(to, Value(from, s[LeadingZeros(s)..]))
  }

  lemma ZerosThen(z: nat, s: seq<nat>)
    requires s != [] ==> s[0] != 0
    ensures LeadingZeros(Zeros(z) + s) == z && (Zeros(z) + s)[z..] == s
  {
    var t := Zeros(z) + s;
    assert forall i :: 0 <= i < z ==> t[i] == 0;
    assert z < |t| ==> t[z] == s[0];
  }

  /** Converting digits to another base and back gives the same digits. */
  lemma ConvertBack(s: seq<nat>, from: nat, to: nat)
    requires from > 1 && to > 1 && IsDigits(from, s)
    ensures IsDigits(to, Converted(s, from, to)) && Converted(Converted(s, from, to), to, from) == s
  {
    hide ToDigits, Value;
    var z := LeadingZeros(s);
    var rest := s[z..];
    var v := Value(from, rest);
    ToDigitsValue(to, v);
    ZerosThen(z, ToDigits(to, v));
    ValueToDigits(from, rest);
    assert Zeros(z) + rest == s;
  }

  // ---------- what is encoded and decoded ----------

  ghost function Encoded(bytes: seq<nat>): string
    requires IsDigits(256, bytes)
  {
    ConvertBack(bytes, 256, 58);
    Chars(Converted(bytes, 256, 58))
  }

  /** A string up to its first null character. */
  function Cut(s: string): (t: string)
    ensures t <= s && '\0' !in t && (t == s || s[|t|] == '\0')
  {
    if s == "" || s[0] == '\0' then "" else [s[0]] + Cut(s[1..])
  }

  function SkipSpaces(s: string): string { if s != "" && IsSpace(s[0]) then SkipSpaces(s[1..]) else s }

  /** The characters before the first space. */
  function Token(s: string): (t: string)
    ensures t <= s
  {
    if s == "" || IsSpace(s[0]) then "" else [s[0]] + Token(s[1..])
  }

  ghost function Decoded(s: string): Option<seq<nat>> {
    var t := SkipSpaces(Cut(s));
    var word := Token(t);
    if AllDigits(word) && SkipSpaces(t[|word|..]) == "" then DigitsBack(word); Some(Converted(DigitsOf(word), 58, 256)) else None
  }

  lemma {:induction false} Plain(s: string)
    requires forall i :: 0 <= i < |s| ==> s[i] != '\0' && !IsSpace(s[i])
    ensures Cut(s) == s && SkipSpaces(s) == s && Token(s) == s
  {
    if s != "" {
      Plain(s[1..]);
    }
  }

  lemma DigitsPlain(s: string)
    requires AllDigits(s)
    ensures forall i :: 0 <= i < |s| ==> s[i] != '\0' && !IsSpace(s[i])
  {
    DigitsBack(s);
    CharsBack(DigitsOf(s));
  }

  predicate AllSpaces(s: string) { forall i :: 0 <= i < |s| ==> IsSpace(s[i]) }

  /** `s`, up to a null character, is a string of digits with nothing but spaces around it. */
  predicate Padded(s: string, before: string, word: string, after: string) {
    Cut(s) == before + word + after && AllSpaces(before) && AllDigits(word) && AllSpaces(after)
  }

  /** A string is decoded exactly if it is padded digits, and then to what the digits stand for. */
  lemma DecodedExact(s: string)
    ensures Decoded(s).Some? <==> exists before, word, after :: Padded(s, before, word, after)
    ensures forall before, word, after :: Padded(s, before, word, after) ==> Decoded(s) == Decoded(word)
  {
    hide Converted, DigitOf;
    if Decoded(s).Some? {
      var t := SkipSpaces(Cut(s));
      var word := Token(t);
      var before := SkippedPart(Cut(s));
      var after := t[|word|..];
      var rest := SkippedPart(after);
      assert Padded(s, before, word, after);
    }
    forall before, word, after | Padded(s, before, word, after)
      ensures Decoded(s).Some? && Decoded(s) == Decoded(word)
    {
      DigitsPlain(word);
      Plain(word);
      Plain("");
      Unpadded(before, word, after);
    }
  }

  lemma {:induction false} SkippedPart(s: string) returns (spaces: string)
    ensures s == spaces + SkipSpaces(s) && AllSpaces(spaces)
  {
    if s != "" && IsSpace(s[0]) {
      var rest := SkippedPart(s[1..]);
      spaces := [s[0]] + rest;
    } else {
      spaces := "";
    }
  }

  lemma {:induction false} SkipAll(before: string, rest: string)
    requires AllSpaces(before) && (rest != "" ==> !IsSpace(rest[0]))
    ensures SkipSpaces(before + rest) == rest
  {
    if before == "" {
      assert before + rest == rest;
    } else {
      assert (before + rest)[1..] == before[1..] + rest;
      SkipAll(before[1..], rest);
    }
  }

  lemma {:induction false} TokenOf(word: string, after: string)
    requires (forall i :: 0 <= i < |word| ==> !IsSpace(word[i])) && AllSpaces(after)
    ensures Token(word + after) == word
  {
    if word == "" {
      assert word + after == after;
    } else {
      assert (word + after)[1..] == word[1..] + after;
      TokenOf(word[1..], after);
    }
  }

  lemma Unpadded(before: string, word: string, after: string)
    requires AllSpaces(before) && (forall i :: 0 <= i < |word| ==> !IsSpace(word[i])) && AllSpaces(after)
    ensures var t := SkipSpaces(before + word + after);
            Token(t) == word && SkipSpaces(t[|word|..]) == ""
  {
    hide SkipSpaces, Token, IsSpace;
    SkipAll(after, "");
    assert after + "" == after;
    if word == "" {
      Plain("");
      assert before + word + after == (before + after) + "";
      SkipAll(before + after, "");
    } else {
      assert before + word + after == before + (word + after);
      SkipAll(before, word + after);
      TokenOf(word, after);
      assert (word + after)[|word|..] == after;
    }
  }

  /** How many times a string starts with '1'. */
  function LeadingOnes(s: string): nat { if s == "" || s[0] != '1' then 0 else 1 + LeadingOnes(s[1..]) }

  /** The encoding is the string of digits that stands for the same number, with as many '1's in front as there are zero bytes. */
  lemma EncodedExact(bytes: seq<nat>, s: string)
    requires IsDigits(256, bytes)
    ensures s == Encoded(bytes) <==>
            AllDigits(s) && Value(58, DigitsOf(s)) == Value(256, bytes) && LeadingOnes(s) == LeadingZeros(bytes)
  {
    hide Value, ToDigits, Converted;
    ConvertBack(bytes, 256, 58);
    var d := Converted(bytes, 256, 58);
    CharsBack(d);
    ConvertedMeans(bytes, 256, 58);
    OnesAreZeros(d);
    if AllDigits(s) && Value(58, DigitsOf(s)) == Value(256, bytes) && LeadingOnes(s) == LeadingZeros(bytes) {
      DigitsBack(s);
      OnesAreZeros(DigitsOf(s));
      SameDigits(58, DigitsOf(s), d);
    }
  }

  lemma ConvertedMeans(s: seq<nat>, from: nat, to: nat)
    requires from > 1 && to > 1 && IsDigits(from, s)
    ensures var d := Converted(s, from, to);
            IsDigits(to, d) && Value(to, d) == Value(from, s) && LeadingZeros(d) == LeadingZeros(s)
  {
    hide ToDigits, Value;
    var z := LeadingZeros(s);
    var v := Value(from, s[z..]);
    ToDigitsValue(to, v);
    ZerosThen(z, ToDigits(to, v));
    ValueZeros(from, s, z);
    ValueZeros(to, Converted(s, from, to), z);
  }

  lemma {:induction false} OnesAreZeros(d: seq<nat>)
    requires IsDigits(58, d)
    ensures LeadingOnes(Chars(d)) == LeadingZeros(d)
  {
    if d != [] {
      assert Chars(d)[1..] == Chars(d[1..]);
      Alphabet(d[0], '1');
      assert CharOf(0) == '1';
      OnesAreZeros(d[1..]);
    }
  }

  /** Digits are determined by the number and the zeros in front. */
  lemma SameDigits(base: nat, a: seq<nat>, b: seq<nat>)
    requires base > 1 && IsDigits(base, a) && IsDigits(base, b)
    requires Value(base, a) == Value(base, b) && LeadingZeros(a) == LeadingZeros(b)
    ensures a == b
  {
    hide Value, ToDigits, LeadingZeros;
    var z := LeadingZeros(a);
    RestDigits(base, a, z);
    RestDigits(base, b, z);
    assert a == a[..z] + a[z..] && b == b[..z] + b[z..];
    assert a[..z] == b[..z];
  }

  /** What follows the zeros in front are the digits of the number. */
  lemma RestDigits(base: nat, s: seq<nat>, z: nat)
    requires base > 1 && IsDigits(base, s) && z == LeadingZeros(s)
    ensures z <= |s| && s[z..] == ToDigits(base, Value(base, s))
  {
    hide Value, ToDigits, LeadingZeros;
    ValueZeros(base, s, z);
    ValueToDigits(base, s[z..]);
  }

  /** Decoding an encoding gives back the bytes. */
  lemma DecodeEncoded(bytes: seq<nat>)
    requires IsDigits(256, bytes)
    ensures Decoded(Encoded(bytes)) == Some(bytes)
  {
    hide Converted, Cut, SkipSpaces, Token, Value, ToDigits;
    ConvertBack(bytes, 256, 58);
    var s := Encoded(bytes);
    CharsBack(Converted(bytes, 256, 58));
    Plain(s);
    assert s[|s|..] == "";
    Plain("");
  }

  /** Encoding what a string of digits decodes to gives back the string. */
  lemma EncodeDecoded(s: string)
    requires AllDigits(s)
    ensures Decoded(s).Some? && IsDigits(256, Decoded(s).value) && Encoded(Decoded(s).value) == s
  {
    hide Converted, Cut, SkipSpaces, Token, Value, ToDigits;
    DigitsPlain(s);
    Plain(s);
    assert s[|s|..] == "";
    Plain("");
    DigitsBack(s);
    ConvertBack(DigitsOf(s), 58, 256);
  }

  // ---------- the buffer ----------

  /** The suffix of `i` digits after the step, with its carry, stands for the same suffix before, scaled and increased. */
  ghost predicate Balance(base: nat, v: nat, carry: nat, i: nat, factor: nat, u: nat, digit: nat) {
    v + carry * Pow(base, i) == factor * u + digit
  }

  lemma BalanceStep(base: nat, v: nat, carry: nat, i: nat, factor: nat, u: nat, digit: nat, x: nat)
    requires base > 0 && Balance(base, v, carry, i, factor, u, digit)
    ensures var n := carry + factor * x;
            Balance(base, n % base * Pow(base, i) + v, n / base, i + 1, factor, x * Pow(base, i) + u, digit)
  {
    var n, w := carry + factor * x, Pow(base, i);
    DivMod(n, base);
    MulAdd(n / base * base, n % base, w);
    MulAssoc(n / base, base, w);
    MulComm(base, w);
    MulAdd(carry, factor * x, w);
    MulAssoc(factor, x, w);
    Spread(factor, x * w, u);
  }

  lemma Spread(f: nat, a: nat, b: nat)
    ensures f * (a + b) == f * a + f * b
  {
  }

  lemma BalanceSmall(base: nat, v: nat, carry: nat, i: nat, factor: nat, u: nat, digit: nat)
    requires base > 0 && Balance(base, v, carry, i, factor, u, digit) && factor * u + digit < Pow(base, i)
    ensures carry == 0
  {
    if carry >= 1 {
      MulMono(1, carry, Pow(base, i));
    }
  }

  lemma SmallCarry(carry: nat, factor: nat, x: nat, base: nat)
    requires base > 1 && x < base && carry < factor
    ensures (carry + factor * x) / base < factor
  {
    var n := carry + factor * x;
    DivMod(n, base);
    MulMono(x, base - 1, factor);
    MulComm(factor, x);
    MulComm(factor, base);
    MulAdd(base, -1, factor);
    if n / base >= factor {
      MulMono(factor, n / base, base);
    }
  }

  ghost predicate Buffer(base: nat, s: seq<nat>, length: nat) {
    length <= |s| && IsDigits(base, s) && forall i :: 0 <= i < |s| - length ==> s[i] == 0
  }

  function Step(carry: nat, factor: nat, x: nat): nat { carry + factor * x }

  function Rem(n: nat, base: nat): nat
    requires base > 0
  {
    n % base
  }

  lemma StepFacts(base: nat, a: seq<nat>, b: seq<nat>, carry: nat, i: nat, factor: nat, digit: nat, b': seq<nat>)
    requires base > 1 && |a| == |b| == |b'| && i < |a| && carry < factor && IsDigits(base, a)
    requires Balance(base, Value(base, b[|b| - i..]), carry, i, factor, Value(base, a[|a| - i..]), digit)
    requires var k := |a| - 1 - i; b[k] == a[k] && b' == b[k := Rem(Step(carry, factor, a[k]), base)]
    ensures var n := Step(carry, factor, a[|a| - 1 - i]);
            && Quotient(n, base) < factor && Rem(n, base) < base
            && Balance(base, Value(base, b'[|a| - i - 1..]), Quotient(n, base), i + 1, factor, Value(base, a[|a| - i - 1..]), digit)
  {
    hide Value, Pow, Balance;
    var k := |a| - 1 - i;
    ValueFront(base, b'[k..]);
    ValueFront(base, a[k..]);
    assert b'[k..][1..] == b[k + 1..] && a[k..][1..] == a[k + 1..];
    BalanceStep(base, Value(base, b[k + 1..]), carry, i, factor, Value(base, a[k + 1..]), digit, a[k]);
    SmallCarry(carry, factor, a[k], base);
  }

  /** Multiply the number in a buffer by `factor` and add `digit`, from the last digit on. The carry runs out. */
  method MulAddInPlace(buf: array<nat>, base: nat, factor: nat, digit: nat, length: nat) returns (length': nat)
    requires base > 1 && digit < factor && Buffer(base, buf[..], length)
    requires factor * Value(base, buf[..]) + digit < Pow(base, buf.Length)
    modifies buf
    ensures Buffer(base, buf[..], length') && Value(base, buf[..]) == factor * old(Value(base, buf[..])) + digit
  {
    hide Value, Pow, Balance, Step, Rem, Quotient;
    ghost var a := buf[..];
    var size := buf.Length;
    var carry: nat, i: nat := digit, 0;
    BalanceStart(base, a, factor, digit);
    while (carry != 0 || i < length) && i < size
      invariant 0 <= i <= size && carry < factor && IsDigits(base, buf[..])
      invariant forall k :: 0 <= k < size - i ==> buf[k] == a[k]
      invariant Balance(base, Value(base, buf[..][size - i..]), carry, i, factor, Value(base, a[size - i..]), digit)
      decreases size - i
    {
      ghost var before := buf[..];
      var n := Step(carry, factor, buf[size - 1 - i]);
      buf[size - 1 - i] := Rem(n, base);
      StepFacts(base, a, before, carry, i, factor, digit, buf[..]);
      carry := Quotient(n, base);
      i := i + 1;
    }
    CarryGone(base, a, buf[..], carry, i, factor, digit, length);
    assert carry == 0;
    length' := i;
  }

  lemma BalanceStart(base: nat, a: seq<nat>, factor: nat, digit: nat)
    ensures Balance(base, Value(base, a[|a|..]), digit, 0, factor, Value(base, a[|a|..]), digit)
  {
    assert a[|a|..] == [];
  }

  lemma CarryGone(base: nat, a: seq<nat>, b: seq<nat>, carry: nat, i: nat, factor: nat, digit: nat, length: nat)
    requires base > 1 && |a| == |b| && i <= |a| && Buffer(base, a, length) && IsDigits(base, b)
    requires factor * Value(base, a) + digit < Pow(base, |a|)
    requires forall k :: 0 <= k < |a| - i ==> b[k] == a[k]
    requires Balance(base, Value(base, b[|b| - i..]), carry, i, factor, Value(base, a[|a| - i..]), digit)
    requires (carry == 0 && i >= length) || i == |a|
    ensures carry == 0 && Buffer(base, b, i) && Value(base, b) == factor * Value(base, a) + digit
  {
    hide Value, Pow;
    var k := |a| - i;
    if i == |a| {
      assert a[0..] == a && b[0..] == b;
      BalanceSmall(base, Value(base, b), carry, i, factor, Value(base, a), digit);
    } else {
      ValueZeros(base, a, k);
      ValueZeros(base, b, k);
    }
  }

  /** The significant part of a buffer is the digits of its value. */
  method Significant(buf: array<nat>, base: nat, length: nat) returns (it: nat)
    requires base > 1 && Buffer(base, buf[..], length)
    ensures it <= buf.Length && buf[..][it..] == ToDigits(base, Value(base, buf[..]))
  {
    hide Value, ToDigits;
    it := buf.Length - length;
    while it != buf.Length && buf[it] == 0
      invariant it <= buf.Length && forall k :: 0 <= k < it ==> buf[k] == 0
      decreases buf.Length - it
    {
      it := it + 1;
    }
    ValueZeros(base, buf[..], it);
    ValueToDigits(base, buf[..][it..]);
  }

  // ---------- buffer sizes ----------

  lemma Powers58()
    ensures Pow(58, 6) == 38068692544 && Pow(58, 11) == 24986644000165537792
    ensures Pow(256, 4) == 0x1_0000_0000 && Pow(256, 5) == 0x100_0000_0000 && Pow(256, 8) == 0x1_0000_0000_0000_0000
  {
    hide Pow;
    PowSmall(58);
    PowSmall(256);
    PowAdd(58, 3, 3);
    PowAdd(58, 6, 3);
    PowAdd(58, 9, 2);
    PowAdd(256, 2, 2);
    PowAdd(256, 3, 2);
    PowAdd(256, 4, 4);
  }

  lemma PowSmall(b: nat)
    ensures Pow(b, 2) == b * b && Pow(b, 3) == b * b * b
  {
    PowOne(b);
  }

  /** 100 bytes fit in 138 digits. */
  lemma BytesInDigits()
    ensures Pow(256, 100) <= Pow(58, 138)
  {
    hide Pow;
    Powers58();
    PowBase(Pow(256, 8), Pow(58, 11), 12);
    PowPow(256, 8, 12);
    PowPow(58, 11, 12);
    PowAdd(256, 96, 4);
    PowAdd(58, 132, 6);
    MulBoth(Pow(256, 96), Pow(58, 132), Pow(256, 4), Pow(58, 6));
  }

  /** 71 digits fit in 52 bytes. */
  lemma DigitsTight()
    ensures Pow(58, 71) <= Pow(256, 52)
  {
    hide Pow;
    Powers58();
    var a, b := 24986644000165537792, 38068692544;
    PowAdd(58, 11, 11);
    PowAdd(58, 22, 11);
    PowAdd(58, 33, 33);
    PowSmall(58);
    PowAdd(58, 3, 2);
    PowAdd(58, 66, 5);
    PowAdd(256, 8, 5);
    PowAdd(256, 13, 13);
    PowAdd(256, 26, 26);
    assert Pow(58, 22) == a * a;
    assert Pow(58, 33) == a * a * a;
    assert Pow(256, 13) == 0x1_0000_0000_0000_0000 * 0x100_0000_0000;
  }

  /** 1000 digits fit in 733 bytes. */
  lemma DigitsInBytes()
    ensures Pow(58, 1000) <= Pow(256, 733)
  {
    hide Pow;
    DigitsTight();
    Powers58();
    PowBase(Pow(58, 71), Pow(256, 52), 14);
    PowPow(58, 71, 14);
    PowPow(256, 52, 14);
    PowAdd(58, 994, 6);
    PowAdd(256, 728, 5);
    MulBoth(Pow(58, 994), Pow(256, 728), Pow(58, 6), Pow(256, 5));
  }

  // ---------- encoding ----------

  method EncodeBase58(bytes: seq<nat>) returns (str: string)
    requires IsDigits(256, bytes)
    ensures str == Encoded(bytes)
  {
    hide Value, ToDigits, Pow, Chars;
    var zeroes := 0;
    while zeroes < |bytes| && bytes[zeroes] == 0
      invariant zeroes <= |bytes| && forall i :: 0 <= i < zeroes ==> bytes[i] == 0
    {
      zeroes := zeroes + 1;
    }
    LeadingUnique(bytes, zeroes);
    var b58, length := FillDigits(bytes[zeroes..]);
    var it := Significant(b58, 58, length);
    ghost var d := ToDigits(58, Value(256, bytes[zeroes..]));
    ToDigitsValue(58, Value(256, bytes[zeroes..]));
    str := seq(zeroes, _ => '1');
    var text := Translate(b58, it);
    str := str + text;
    ConvertBack(bytes, 256, 58);
    OnesThen(zeroes, d);
  }

  lemma LeadingUnique(s: seq<nat>, z: nat)
    requires z <= |s| && (forall i :: 0 <= i < z ==> s[i] == 0) && (z < |s| ==> s[z] != 0)
    ensures z == LeadingZeros(s)
  {
  }

  /** Bytes as a number in base 58; the buffer is long enough. */
  method FillDigits(rest: seq<nat>) returns (b58: array<nat>, length: nat)
    requires IsDigits(256, rest)
    ensures Buffer(58, b58[..], length) && Value(58, b58[..]) == Value(256, rest)
  {
    hide Value, Pow, Buffer;
    var size := |rest| * 138 / 100 + 1;
    b58 := new nat[size](_ => 0);
    BytesInDigits();
    Fits(256, 100, 58, 138, |rest|, size);
    BufferStart(58, b58[..]);
    ValueEmpty(256, rest);
    length := 0;
    for p := 0 to |rest|
      invariant Buffer(58, b58[..], length) && Value(58, b58[..]) == Value(256, rest[..p])
    {
      NextDigit(256, rest, p, 58, size);
      length := MulAddInPlace(b58, 58, 256, rest[p], length);
    }
    assert rest[..|rest|] == rest;
  }

  method Translate(b58: array<nat>, start: nat) returns (text: string)
    requires start <= b58.Length && IsDigits(58, b58[..][start..])
    ensures text == Chars(b58[..][start..])
  {
    ghost var d := b58[..][start..];
    text := "";
    var it := start;
    while it != b58.Length
      invariant start <= it <= b58.Length && |text| == it - start && forall k :: 0 <= k < |text| ==> text[k] == CharOf(d[k])
      decreases b58.Length - it
    {
      assert b58[it] == d[it - start];
      text := text + [CharOf(b58[it])];
      it := it + 1;
    }
  }

  lemma OnesThen(z: nat, d: seq<nat>)
    requires IsDigits(58, d)
    ensures IsDigits(58, Zeros(z) + d) && Chars(Zeros(z) + d) == seq(z, _ => '1') + Chars(d)
  {
    assert CharOf(0) == '1';
  }

  lemma BufferStart(base: nat, s: seq<nat>)
    requires base > 0 && forall i :: 0 <= i < |s| ==> s[i] == 0
    ensures Buffer(base, s, 0) && Value(base, s) == 0
  {
    ValueZeros(base, s, |s|);
    assert s[|s|..] == [];
  }

  lemma ValueEmpty(base: nat, s: seq<nat>)
    ensures Value(base, s[..0]) == 0
  {
  }

  /** One more digit still fits the buffer. */
  lemma NextDigit(base: nat, s: seq<nat>, k: nat, to: nat, size: nat)
    requires base > 0 && k < |s| && IsDigits(base, s) && Pow(base, |s|) <= Pow(to, size)
    ensures Value(base, s[..k + 1]) == base * Value(base, s[..k]) + s[k] < Pow(to, size)
  {
    hide Pow;
    assert s[..k + 1][..k] == s[..k];
    MulComm(base, Value(base, s[..k]));
    ValueBound(base, s[..k + 1]);
    PowMono(base, k + 1, |s|);
  }

  // ---------- decoding ----------

  method SkipFrom(t: string, start: nat) returns (i: nat)
    requires start <= |t|
    ensures start <= i <= |t| && t[i..] == SkipSpaces(t[start..]) && (i < |t| ==> !IsSpace(t[i]))
  {
    i := start;
    while i < |t| && IsSpace(t[i])
      invariant start <= i <= |t| && SkipSpaces(t[i..]) == SkipSpaces(t[start..])
    {
      assert t[i..][1..] == t[i + 1..];
      i := i + 1;
    }
  }

  lemma {:induction false} TokenFrom(u: string, k: nat)
    requires k <= |u| && forall m :: 0 <= m < k ==> !IsSpace(u[m])
    ensures u[..k] <= Token(u) && (k == |u| || IsSpace(u[k]) ==> Token(u) == u[..k])
    ensures k < |u| && !IsSpace(u[k]) ==> k < |Token(u)| && Token(u)[k] == u[k]
  {
    if k > 0 {
      TokenFrom(u[1..], k - 1);
      assert u[..k] == [u[0]] + u[1..][..k - 1];
    }
  }

  /** What the characters after the leading ones decode to, or nothing if one of them is not a digit. */
  method FillBytes(t: string, start: nat) returns (ok: bool, b256: array<nat>, length: nat, psz: nat)
    requires start <= |t|
    ensures start <= psz <= |t| && forall k :: start <= k < psz ==> !IsSpace(t[k]) && DigitOf(t[k]) >= 0
    ensures ok ==> (psz == |t| || IsSpace(t[psz])) && Buffer(256, b256[..], length)
    ensures ok ==> Value(256, b256[..]) == Value(58, Read(t, start, psz))
    ensures !ok ==> psz < |t| && !IsSpace(t[psz]) && DigitOf(t[psz]) < 0
  {
    hide Value, Pow, Buffer, DigitOf, Read;
    var size := (|t| - start) * 733 / 1000 + 1;
    b256 := new nat[size](_ => 0);
    DigitsInBytes();
    Fits(58, 1000, 256, 733, |t| - start, size);
    BufferStart(256, b256[..]);
    ReadStart(t, start);
    length := 0;
    psz := start;
    while psz < |t| && !IsSpace(t[psz])
      invariant start <= psz <= |t| && forall k :: start <= k < psz ==> !IsSpace(t[k]) && DigitOf(t[k]) >= 0
      invariant Buffer(256, b256[..], length) && Value(256, b256[..]) == Value(58, Read(t, start, psz))
    {
      var ch := DigitOf(t[psz]);
      if ch < 0 {
        return false, b256, length, psz;
      }
      ReadNext(t, start, psz, size);
      length := MulAddInPlace(b256, 256, 58, ch, length);
      psz := psz + 1;
    }
    ok := true;
  }

  /** The digits of a stretch of characters. */
  ghost function Read(t: string, i: nat, j: nat): seq<nat>
    requires i <= j <= |t| && forall k :: i <= k < j ==> DigitOf(t[k]) >= 0
  {
    DigitsOf(t[i..j])
  }

  lemma ReadStart(t: string, i: nat)
    requires i <= |t|
    ensures Value(58, Read(t, i, i)) == 0
  {
  }

  lemma ReadNext(t: string, i: nat, j: nat, size: nat)
    requires i <= j < |t| && (forall k :: i <= k < j ==> DigitOf(t[k]) >= 0) && DigitOf(t[j]) >= 0
    requires Pow(58, |t| - i) <= Pow(256, size)
    ensures Value(58, Read(t, i, j + 1)) == 58 * Value(58, Read(t, i, j)) + DigitOf(t[j]) < Pow(256, size) && DigitOf(t[j]) < 58
  {
    hide Value, Pow, DigitOf;
    Alphabet(0, t[j]);
    var s := Read(t, i, j + 1);
    DigitsBack(t[i..j + 1]);
    assert s[..j - i] == Read(t, i, j) && s[j - i] == DigitOf(t[j]);
    assert s[..j - i + 1] == s;
    PowMono(58, j + 1 - i, |t| - i);
    NextDigit(58, s, j - i, 256, size);
  }

  method DecodeBase58(str: string) returns (ok: bool, vch: seq<nat>)
    ensures Decoded(str) == if ok then Some(vch) else None
    ensures !ok ==> vch == []
  {
    hide Value, ToDigits, Pow, Buffer, DigitOf, Token, SkipSpaces, Read, Decoded, Cut, Zeros, IsSpace;
    var t := Cut(str);
    var start := SkipFrom(t, 0);
    assert t[0..] == t;
    var zeroes := 0;
    while start + zeroes < |t| && t[start + zeroes] == '1'
      invariant start + zeroes <= |t| && forall k :: start <= k < start + zeroes ==> t[k] == '1'
    {
      zeroes := zeroes + 1;
    }
    var good, b256, length, psz := FillBytes(t, start + zeroes);
    OnesAreDigits(t, start, zeroes, psz);
    TokenFrom(t[start..], psz - start);
    if !good {
      BadDigit(str, start, psz);
      return false, [];
    }
    var end := SkipFrom(t, psz);
    assert t[start..][..psz - start] == t[start..psz];
    DecodedWord(str, start, zeroes, psz);
    if end < |t| {
      return false, [];
    }
    var it := Significant(b256, 256, length);
    vch := Zeros(zeroes) + b256[it..];
    ok := true;
  }

  lemma OnesAreDigits(t: string, start: nat, z: nat, psz: nat)
    requires start + z <= psz <= |t| && forall k :: start <= k < start + z ==> t[k] == '1'
    requires forall k :: start + z <= k < psz ==> !IsSpace(t[k]) && DigitOf(t[k]) >= 0
    ensures forall k :: start <= k < psz ==> !IsSpace(t[k]) && DigitOf(t[k]) >= 0
    ensures forall m :: 0 <= m < psz - start ==> !IsSpace(t[start..][m])
  {
    assert DigitOf('1') == 0 && !IsSpace('1');
    assert forall m :: 0 <= m < psz - start ==> t[start..][m] == t[start + m];
  }

  lemma BadDigit(str: string, start: nat, psz: nat)
    requires var t := Cut(str);
             && start <= psz < |t| && DigitOf(t[psz]) < 0 && t[start..] == SkipSpaces(t)
             && psz - start < |Token(t[start..])| && Token(t[start..])[psz - start] == t[start..][psz - start]
    ensures Decoded(str) == None
  {
    hide Token, DigitOf, SkipSpaces, Cut, Converted;
    var t := Cut(str);
    assert t[start..][psz - start] == t[psz];
  }

  lemma DecodedWord(str: string, start: nat, z: nat, psz: nat)
    requires var t := Cut(str);
             && start + z <= psz <= |t| && t[start..] == SkipSpaces(t) && Token(t[start..]) == t[start..psz]
             && (forall k :: start <= k < start + z ==> t[k] == '1') && (start + z < |t| ==> t[start + z] != '1')
             && (forall k :: start <= k < psz ==> DigitOf(t[k]) >= 0)
    ensures var t := Cut(str);
            Decoded(str) == if SkipSpaces(t[psz..]) == ""
                            then Some(Zeros(z) + ToDigits(256, Value(58, Read(t, start + z, psz)))) else None
  {
    hide Value, ToDigits, Token, SkipSpaces, DigitOf, Cut, Zeros;
    var t := Cut(str);
    ReadAll(t, start, z, psz);
    assert t[start..][psz - start..] == t[psz..];
  }

  /** The whole word is the leading ones and what follows them. */
  lemma ReadAll(t: string, start: nat, z: nat, psz: nat)
    requires start + z <= psz <= |t| && forall k :: start <= k < start + z ==> t[k] == '1'
    requires forall k :: start <= k < psz ==> DigitOf(t[k]) >= 0
    requires (start + z < |t| ==> t[start + z] != '1')
    ensures AllDigits(t[start..psz]) && LeadingZeros(DigitsOf(t[start..psz])) == z
    ensures DigitsOf(t[start..psz])[z..] == Read(t, start + z, psz)
  {
    hide DigitOf;
    var w := t[start..psz];
    assert forall i :: 0 <= i < |w| ==> w[i] == t[start + i];
    forall i | 0 <= i < |w|
      ensures DigitOf(w[i]) == 0 <==> w[i] == '1'
    {
      Alphabet(0, w[i]);
    }
    var d := DigitsOf(w);
    LeadingUnique(d, z);
    assert d[z..] == DigitsOf(t[start + z..psz]);
  }
}
