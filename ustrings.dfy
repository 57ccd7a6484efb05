/**
  The few OUString operations the inspector panel relies on: substring search
  (`indexOf`) and the rendering of integers and rounded decimals
  (`OUString::number`). Each rendering has a parsing partner so that the
  displayed text can be shown to denote the value it was made from.
 */
module UStrings {

  /** `sub` occurs in `s` starting at position `i`. */
  predicate MatchesAt(s: string, sub: string, i: nat) {
    i + |sub| <= |s| && s[i..i + |sub|] == sub
  }

  /** `OUString::indexOf`: the first position where `sub` occurs in `s`, or -1. */
  function IndexOf(s: string, sub: string): (r: int)
    ensures -1 <= r <= |s|
    ensures r >= 0 ==> MatchesAt(s, sub, r)
    ensures r >= 0 ==> forall i: nat :: i < r ==> !MatchesAt(s, sub, i)
    ensures r == -1 <==> forall i: nat :: !MatchesAt(s, sub, i)
    decreases |s|
  {
    if |s| < |sub| then -1
    else if s[..|sub|] == sub then assert MatchesAt(s, sub, 0); 0
    else
      ShiftMatches(s, sub);
      var r := IndexOf(s[1..], sub);
      if r == -1 then -1 else r + 1
  }

  /** Dropping the first character shifts every occurrence one position left. */
  lemma ShiftMatches(s: string, sub: string)
    requires |s| > 0 && !MatchesAt(s, sub, 0)
    ensures forall i: nat :: MatchesAt(s[1..], sub, i) <==> MatchesAt(s, sub, i + 1)
    ensures forall i: nat :: 0 < i ==> (MatchesAt(s, sub, i) <==> MatchesAt(s[1..], sub, i - 1))
    ensures forall i: nat :: (forall j: nat :: !MatchesAt(s[1..], sub, j)) ==> !MatchesAt(s, sub, i)
  {
    forall i: nat ensures MatchesAt(s[1..], sub, i) <==> MatchesAt(s, sub, i + 1) {
      if i + 1 + |sub| <= |s| {
        assert s[1..][i..i + |sub|] == s[i + 1..i + 1 + |sub|];
      }
    }
  }

  /** The test `s.indexOf(sub) != -1` used throughout the panel. */
  predicate Contains(s: string, sub: string) {
    IndexOf(s, sub) != -1
  }

  /** A digit character of `rtl`'s number rendering, lower case. */
  predicate IsDigitChar(c: char) {
    '0' <= c <= '9' || 'a' <= c <= 'f'
  }

  function DigitChar(d: nat): (c: char)
    requires d < 16
    ensures IsDigitChar(c)
  {
    if d < 10 then ('0' as int + d) as char else ('a' as int + d - 10) as char
  }

  /** Inverse of `DigitChar` on digit characters; other characters read as 0. */
  function DigitValue(c: char): (d: nat)
    ensures d < 16
  {
    if '0' <= c <= '9' then (c - '0') as nat
    else if 'a' <= c <= 'f' then (c - 'a') as nat + 10
    else 0
  }

  /** Quotient and remainder facts for the digit recursion, stated once. */
  lemma DivModRadix(n: nat, radix: nat)
    requires 2 <= radix <= 16 && n >= radix
    ensures 1 <= n / radix < n && n % radix < radix
    ensures n == (n / radix) * radix + n % radix
  {
  }

  /** The digits of `n` in base `radix`, most significant first, without leading zeros. */
  function NatDigits(n: nat, radix: nat): (r: string)
    requires 2 <= radix <= 16
    ensures |r| >= 1
    ensures r[0] == '0' ==> n == 0
    ensures forall i :: 0 <= i < |r| ==> IsDigitChar(r[i])
    decreases n
  {
    if n < radix then [DigitChar(n)]
    else
      DivModRadix(n, radix);
      NatDigits(n / radix, radix) + [DigitChar(n % radix)]
  }

  /** `OUString::number(n, radix)`: a minus sign, then the digits of the magnitude. */
  function IntText(n: int, radix: nat): string
    requires 2 <= radix <= 16
  {
    if n < 0 then "-" + NatDigits(-n, radix) else NatDigits(n, radix)
  }

  /** Reads a digit string in base `radix` back into a number. */
  function ParseDigits(s: string, radix: nat): nat
    decreases |s|
  {
    if s == [] then 0
    else ParseDigits(s[..|s| - 1], radix) * radix + DigitValue(s[|s| - 1])
  }

  /** Reads an optionally signed digit string back into a number. */
  function ParseInt(s: string, radix: nat): int {
    if |s| > 0 && s[0] == '-' then -(ParseDigits(s[1..], radix) as int) else ParseDigits(s, radix)
  }

  /** C's `round`: to the nearest integer, halves away from zero. */
  function RoundHalfAway(x: real): (r: int)
    ensures x - 1.0 / 2.0 <= r as real <= x + 1.0 / 2.0
    ensures x >= 0.0 ==> r >= 0
    ensures x <= 0.0 ==> r <= 0
  {
    if x >= 0.0 then (x + 1.0 / 2.0).Floor else -((-x + 1.0 / 2.0).Floor)
  }

  /**
    `OUString::number(h / 100.00)` for an integral number of hundredths `h`:
    the trailing zeros of the fraction and a bare decimal point are dropped.
   */
  function HundredthsText(h: int): string {
    if h < 0 then "-" + UnsignedHundredthsText(-h) else UnsignedHundredthsText(h)
  }

  function UnsignedHundredthsText(m: nat): (r: string)
    ensures |r| > 0 && IsDigitChar(r[0])
  {
    var whole := NatDigits(m / 100, 10);
    var frac := m % 100;
    if frac == 0 then whole
    else whole + "." + FractionText(frac)
  }

  /** The digits after the decimal point of `frac` hundredths, without a trailing zero. */
  function FractionText(frac: nat): string
    requires 0 < frac < 100
  {
    if frac % 10 == 0 then [DigitChar(frac / 10)] else [DigitChar(frac / 10), DigitChar(frac % 10)]
  }

  /** Padding made of characters foreign to `word` cannot create or hide an occurrence of it. */
  lemma ContainsIgnoresPadding(s: string, word: string, pad: string)
    requires |word| > 0
    requires forall c :: c in pad ==> c !in word
    ensures Contains(s + pad, word) <==> Contains(s, word)
  {
    forall i: nat | MatchesAt(s, word, i) ensures MatchesAt(s + pad, word, i) {
      assert (s + pad)[i..i + |word|] == s[i..i + |word|];
    }
    forall j | |s| <= j < |s + pad| ensures (s + pad)[j] !in word {
      assert (s + pad)[j] == pad[j - |s|];
    }
    forall i: nat | MatchesAt(s + pad, word, i) ensures MatchesAt(s, word, i) {
      var last := i + |word| - 1;
      assert (s + pad)[last] == (s + pad)[i..i + |word|][|word| - 1] == word[|word| - 1];
      assert word[|word| - 1] in word;
      assert (s + pad)[i..i + |word|] == s[i..i + |word|];
    }
  }

  lemma DigitValueOfDigitChar(d: nat)
    requires d < 16
    ensures DigitValue(DigitChar(d)) == d
  {
  }

  /** Reading back the digits of `n` yields `n`. */
  lemma {:induction false} ParseNatDigits(n: nat, radix: nat)
    requires 2 <= radix <= 16
    ensures ParseDigits(NatDigits(n, radix), radix) == n
    decreases n
  {
    if n < radix {
      DigitValueOfDigitChar(n);
      assert [DigitChar(n)][..0] == [];
    } else {
      DivModRadix(n, radix);
      var r := NatDigits(n, radix);
      assert r[..|r| - 1] == NatDigits(n / radix, radix);
      ParseNatDigits(n / radix, radix);
      DigitValueOfDigitChar(n % radix);
    }
  }

  /** Reading back `OUString::number(n, radix)` yields `n`, negative numbers included. */
  lemma ParseIntText(n: int, radix: nat)
    requires 2 <= radix <= 16
    ensures ParseInt(IntText(n, radix), radix) == n
  {
    if n < 0 {
      assert ("-" + NatDigits(-n, radix))[1..] == NatDigits(-n, radix);
      ParseNatDigits(-n, radix);
    } else {
      assert IsDigitChar(NatDigits(n, radix)[0]);
      ParseNatDigits(n, radix);
    }
  }

  /** The hundredths denoted by the digits after a decimal point (at most two are written). */
  function FractionHundredths(f: string): nat {
    if |f| == 0 then 0
    else if |f| == 1 then DigitValue(f[0]) * 10
    else DigitValue(f[0]) * 10 + DigitValue(f[1])
  }

  function ParseUnsignedHundredths(s: string): int {
    var dot := IndexOf(s, ".");
    if dot < 0 then ParseDigits(s, 10) * 100
    else ParseDigits(s[..dot], 10) * 100 + FractionHundredths(s[dot + 1..])
  }

  /** Reads a decimal with an optional sign and fraction back into hundredths. */
  function ParseHundredths(s: string): int {
    if |s| > 0 && s[0] == '-' then -ParseUnsignedHundredths(s[1..]) else ParseUnsignedHundredths(s)
  }

  /** The first decimal point of a digit string followed by a point is right after the digits. */
  lemma PointAfterDigits(whole: string, rest: string)
    requires forall i :: 0 <= i < |whole| ==> IsDigitChar(whole[i])
    ensures IndexOf(whole + "." + rest, ".") == |whole|
  {
    var s := whole + "." + rest;
    assert s[|whole|..|whole| + 1] == ".";
    assert MatchesAt(s, ".", |whole|);
    forall i: nat | i < |whole| ensures !MatchesAt(s, ".", i) {
      assert s[i] == whole[i];
      assert i + 1 <= |s| ==> s[i..i + 1][0] == s[i];
    }
  }

  lemma FractionReadBack(frac: nat)
    requires 0 < frac < 100
    ensures FractionHundredths(FractionText(frac)) == frac
  {
    DigitValueOfDigitChar(frac / 10);
    DigitValueOfDigitChar(frac % 10);
  }

  lemma UnsignedHundredthsReadBack(m: nat)
    ensures ParseUnsignedHundredths(UnsignedHundredthsText(m)) == m
  {
    var whole := NatDigits(m / 100, 10);
    var frac := m % 100;
    ParseNatDigits(m / 100, 10);
    if frac == 0 {
      assert IndexOf(whole, ".") == -1 by {
        forall i: nat | i < |whole| ensures !MatchesAt(whole, ".", i) {
          assert i + 1 <= |whole| ==> whole[i..i + 1][0] == whole[i];
        }
      }
    } else {
      var text := whole + "." + FractionText(frac);
      PointAfterDigits(whole, FractionText(frac));
      assert text[..|whole|] == whole;
      assert text[|whole| + 1..] == FractionText(frac);
      FractionReadBack(frac);
    }
  }

  /** A leading minus sign negates what follows it; unsigned text reads as is. */
  lemma ParseSign(t: string)
    requires |t| > 0 && t[0] != '-'
    ensures ParseHundredths("-" + t) == -ParseUnsignedHundredths(t)
    ensures ParseHundredths(t) == ParseUnsignedHundredths(t)
  {
    assert ("-" + t)[0] == '-' && ("-" + t)[1..] == t;
  }

  /** Reading back the rendering of `h` hundredths yields `h`. */
  lemma ParseHundredthsText(h: int)
    ensures ParseHundredths(HundredthsText(h)) == h
  {
    var m := if h < 0 then -h else h;
    var t := UnsignedHundredthsText(m);
    assert HundredthsText(h) == if h < 0 then "-" + t else t;
    ParseSign(t);
    UnsignedHundredthsReadBack(m);
  }
}
