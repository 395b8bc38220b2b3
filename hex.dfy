/**
 * Base-16 digits: the digit loop of Python's `int(s, 16)` after its `0x`
 * prefix, the positional value it must compute, and Python's `hex(n)` for
 * non-negative `n`, which the JSON report uses for slot indices.
 */
module Hex {
  import opened Wrappers

  predicate IsHexDigit(c: char) {
    '0' <= c <= '9' || 'a' <= c <= 'f' || 'A' <= c <= 'F'
  }

  predicate AllHexDigits(s: string) {
    forall i :: 0 <= i < |s| ==> IsHexDigit(s[i])
  }

  function DigitValue(c: char): (d: nat)
    requires IsHexDigit(c)
    ensures d < 16
  {
    if c <= '9' then c as int - '0' as int
    else if c <= 'F' then c as int - 'A' as int + 10
    else c as int - 'a' as int + 10
  }

  function Pow16(k: nat): (p: nat)
    ensures p > 0
  {
    if k == 0 then 1 else 16 * Pow16(k - 1)
  }

  /** The positional value of a digit string: the last digit has weight 1, the one before it 16, and so on. */
  function HexValue(s: string): nat
    requires AllHexDigits(s)
  {
    if s == [] then 0 else 16 * HexValue(s[..|s| - 1]) + DigitValue(s[|s| - 1])
  }

  /**
   * The digit loop of `int(s, 16)`: read the digits left to right into an
   * accumulator, and fail on the first character that is not a digit.
   */
  function ReadDigits(acc: nat, s: string): (r: Option<nat>)
    ensures r.Some? <==> AllHexDigits(s)
    decreases |s|
  {
    if s == [] then Some(acc)
    else if !IsHexDigit(s[0]) then None
    else ReadDigits(16 * acc + DigitValue(s[0]), s[1..])
  }

  /** `int(digits, 16)`: at least one digit, and only digits. */
  function ParseDigits(s: string): (r: Option<nat>)
    ensures r.Some? <==> s != [] && AllHexDigits(s)
    ensures r.Some? ==> r.value == HexValue(s) && r.value < Pow16(|s|)
  {
    if s == [] then None
    else
      var r := ReadDigits(0, s);
      if r.Some? then ReadDigitsValue(0, s); HexValueBound(s); r else r
  }

  lemma {:induction false} HexValueBound(s: string)
    requires AllHexDigits(s)
    ensures HexValue(s) < Pow16(|s|)
  {
    if s != [] {
      HexValueBound(s[..|s| - 1]);
    }
  }

  lemma ConsDigits(c: char, s: string)
    requires IsHexDigit(c) && AllHexDigits(s)
    ensures AllHexDigits([c] + s)
  {
    var t := [c] + s;
    forall i | 0 <= i < |t| ensures IsHexDigit(t[i]) {
      if i > 0 { assert t[i] == s[i - 1]; }
    }
  }

  /** A digit in front is worth 16 to the power of the number of digits after it. */
  lemma {:induction false} HexValueCons(c: char, s: string)
    requires IsHexDigit(c) && AllHexDigits(s)
    ensures AllHexDigits([c] + s)
    ensures HexValue([c] + s) == DigitValue(c) * Pow16(|s|) + HexValue(s)
  {
    ConsDigits(c, s);
    var t := [c] + s;
    if s != [] {
      var n := |s| - 1;
      var init := s[..n];
      ConsDigits(c, init);
      HexValueCons(c, init);
      var d, p, h, e := DigitValue(c), Pow16(n), HexValue(init), DigitValue(s[n]);
      var ht, ps, hs := HexValue(t), Pow16(|s|), HexValue(s);
      assert ht == 16 * (d * p + h) + e by {
        assert t[..|t| - 1] == [c] + init;
        assert t[|t| - 1] == s[n];
      }
      Distribute(d, p, h, e, ht, ps, hs);
    } else {
      assert t[..|t| - 1] == [];
    }
  }

  lemma Distribute(d: int, p: int, h: int, e: int, ht: int, ps: int, hs: int)
    requires ht == 16 * (d * p + h) + e && ps == 16 * p && hs == 16 * h + e
    ensures ht == d * ps + hs
  {
  }

  lemma Regroup(acc: int, d: int, p: int, h: int)
    ensures (16 * acc + d) * p + h == acc * (16 * p) + (d * p + h)
  {
  }

  /** The left-to-right digit loop computes the positional value. */
  lemma {:induction false} ReadDigitsValue(acc: nat, s: string)
    requires AllHexDigits(s)
    ensures ReadDigits(acc, s) == Some(acc * Pow16(|s|) + HexValue(s))
    decreases |s|
  {
    if s != [] {
      var c, rest := s[0], s[1..];
      assert s == [c] + rest;
      ReadDigitsValue(16 * acc + DigitValue(c), rest);
      HexValueCons(c, rest);
      var d, p, h := DigitValue(c), Pow16(|rest|), HexValue(rest);
      assert Pow16(|s|) == 16 * p;
      assert HexValue(s) == d * p + h;
      Regroup(acc, d, p, h);
    }
  }

  function DigitChar(d: nat): (c: char)
    requires d < 16
    ensures IsHexDigit(c) && DigitValue(c) == d
    ensures '0' <= c <= '9' || 'a' <= c <= 'f'
  {
    if d < 10 then ('0' as int + d) as char else ('a' as int + d - 10) as char
  }

  /** The digits of Python's `hex(n)`: lower case, no leading zero unless `n` is zero. */
  function Digits(n: nat): (s: string)
    ensures s != [] && AllHexDigits(s)
    ensures forall i :: 0 <= i < |s| ==> '0' <= s[i] <= '9' || 'a' <= s[i] <= 'f'
    ensures n > 0 ==> s[0] != '0'
  {
    if n < 16 then [DigitChar(n)] else Digits(n / 16) + [DigitChar(n % 16)]
  }

  /** Python's `hex(n)` for a non-negative `n`. */
  function ToHex(n: nat): string {
    "0x" + Digits(n)
  }

  /** Reading the digits of `hex(n)` gives `n` back. */
  lemma {:induction false} DigitsValue(n: nat)
    ensures HexValue(Digits(n)) == n
  {
    if n >= 16 {
      var s := Digits(n);
      assert s[..|s| - 1] == Digits(n / 16);
      DigitsValue(n / 16);
    }
  }
}
