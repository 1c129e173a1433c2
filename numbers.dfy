/**
 * Number parsing as the JavaScript runtime and the validator library do it:
 * `parseInt(s)` (no radix), the `isInt` check, decimal rendering (`String(n)`),
 * `Math.ceil` of a quotient and `Math.round`.
 */
module Numbers {
  import opened Wrappers
  import opened Text

  /** A character that is a digit of some radix up to 16 (0-9, a-f, A-F). */
  predicate IsHexChar(c: char) {
    ('0' <= c <= '9') || ('a' <= c <= 'f') || ('A' <= c <= 'F')
  }

  function DigitValue(c: char): (d: nat)
    requires IsHexChar(c)
    ensures d < 16
  {
    if '0' <= c <= '9' then c as int - '0' as int
    else if 'a' <= c <= 'f' then c as int - 'a' as int + 10
    else c as int - 'A' as int + 10
  }

  predicate IsRadixDigit(c: char, radix: nat) {
    IsHexChar(c) && DigitValue(c) < radix
  }

  /** The longest prefix of `s` made of digits of the radix. */
  function DigitRun(s: string, radix: nat): (z: string)
    ensures |z| <= |s| && z == s[..|z|]
    ensures forall i :: 0 <= i < |z| ==> IsRadixDigit(z[i], radix)
    ensures |z| < |s| ==> !IsRadixDigit(s[|z|], radix)
  {
    if s != [] && IsRadixDigit(s[0], radix) then [s[0]] + DigitRun(s[1..], radix) else []
  }

  /** The value of a digit string, most significant digit first. */
  function Value(z: string, radix: nat): nat
    requires forall i :: 0 <= i < |z| ==> IsRadixDigit(z[i], radix)
  {
    if z == [] then 0
    else
      var init := z[..|z| - 1];
      assert forall i :: 0 <= i < |init| ==> init[i] == z[i];
      assert IsRadixDigit(z[|z| - 1], radix);
      var high := Value(init, radix);
      ProductIsNat(high, radix);
      high * radix + DigitValue(z[|z| - 1])
  }

  lemma ProductIsNat(a: nat, b: nat)
    ensures a * b >= 0
  {
  }

  /**
   * `parseInt(s)` with no radix: leading white space is skipped, one sign is
   * read, a `0x`/`0X` prefix switches to radix 16, and the longest run of
   * digits that follows is the value; no digit at all is NaN (`None`).
   * JavaScript's `-0` is represented by 0.
   */
  function ParseInt(s: string): Option<int> {
    var t := TrimStart(s);
    var negative := t != [] && t[0] == '-';
    var u := if t != [] && (t[0] == '-' || t[0] == '+') then t[1..] else t;
    var hex := |u| >= 2 && u[0] == '0' && (u[1] == 'x' || u[1] == 'X');
    var radix := if hex then 16 else 10;
    var z := DigitRun(if hex then u[2..] else u, radix);
    if z == [] then None
    else if negative then Some(-(Value(z, radix) as int))
    else Some(Value(z, radix))
  }

  function DigitChar(d: nat): (c: char)
    requires d < 10
    ensures IsRadixDigit(c, 10) && DigitValue(c) == d
  {
    ('0' as int + d) as char
  }

  /** `String(n)` for a non-negative integer. */
  function NatToString(n: nat): (s: string)
    ensures s != [] && forall i :: 0 <= i < |s| ==> IsRadixDigit(s[i], 10)
    ensures s[0] == '0' ==> n == 0 && |s| == 1
  {
    if n < 10 then [DigitChar(n)] else NatToString(n / 10) + [DigitChar(n % 10)]
  }

  lemma {:induction false} ValueOfNatToString(n: nat)
    ensures Value(NatToString(n), 10) == n
  {
    var s := NatToString(n);
    if n >= 10 {
      ValueOfNatToString(n / 10);
      assert s[..|s| - 1] == NatToString(n / 10);
    }
  }

  lemma {:induction false} DigitRunOfDigits(s: string, radix: nat)
    requires forall i :: 0 <= i < |s| ==> IsRadixDigit(s[i], radix)
    ensures DigitRun(s, radix) == s
  {
    if s != [] {
      DigitRunOfDigits(s[1..], radix);
    }
  }

  lemma {:induction false} DigitRunStopsAt(s: string, rest: string, radix: nat)
    requires forall i :: 0 <= i < |s| ==> IsRadixDigit(s[i], radix)
    requires rest == [] || !IsRadixDigit(rest[0], radix)
    ensures DigitRun(s + rest, radix) == s
  {
    if s != [] {
      assert (s + rest)[1..] == s[1..] + rest;
      DigitRunStopsAt(s[1..], rest, radix);
    }
  }

  /** A decimal digit is neither white space nor a sign. */
  lemma DigitIsNotSpaceOrSign(c: char)
    requires IsRadixDigit(c, 10)
    ensures '0' <= c <= '9' && !IsSpace(c) && c != '-' && c != '+'
  {
  }

  /** `parseInt("")` is NaN. */
  lemma ParseIntOfEmpty()
    ensures ParseInt("") == None
  {
    assert TrimStart("") == "";
  }

  /** A string whose first character is neither white space, a sign nor a digit is NaN to `parseInt`. */
  lemma ParseIntOfNonDigit(s: string)
    requires s != [] && !IsSpace(s[0]) && s[0] != '-' && s[0] != '+' && !IsRadixDigit(s[0], 10)
    ensures ParseInt(s) == None
  {
    assert TrimStart(s) == s;
    assert s[0] != '0';
  }

  /** A string that starts with a decimal digit and no `0x` prefix is read as its leading run of decimal digits. */
  lemma ParseIntOfDigitStart(t: string)
    requires t != [] && IsRadixDigit(t[0], 10)
    requires !(|t| >= 2 && t[0] == '0' && (t[1] == 'x' || t[1] == 'X'))
    ensures ParseInt(t) == Some(Value(DigitRun(t, 10), 10))
  {
    DigitIsNotSpaceOrSign(t[0]);
    assert TrimStart(t) == t;
    assert DigitRun(t, 10) != [];
  }

  /**
   * Partner of `ParseInt`: it reads back the decimal rendering of a
   * non-negative integer, and ignores whatever text follows it that cannot
   * continue the number (a `0` followed by `x` would turn into a hex prefix).
   */
  lemma ParseIntOfNatToString(n: nat, rest: string)
    requires rest == [] || (!IsRadixDigit(rest[0], 10) && rest[0] != 'x' && rest[0] != 'X')
    ensures ParseInt(NatToString(n) + rest) == Some(n)
  {
    var s := NatToString(n);
    var t := s + rest;
    assert t[0] == s[0];
    assert !(|t| >= 2 && t[0] == '0' && (t[1] == 'x' || t[1] == 'X')) by {
      if |s| >= 2 {
        assert s[0] != '0';
      } else if |t| >= 2 {
        assert t[1] == rest[0];
      }
    }
    ParseIntOfDigitStart(t);
    DigitRunStopsAt(s, rest, 10);
    ValueOfNatToString(n);
  }

  /** `parseInt` reads the decimal rendering of a natural number back as that number. */
  lemma ParseIntOfNat(n: nat)
    ensures ParseInt(NatToString(n)) == Some(n)
  {
    assert NatToString(n) + "" == NatToString(n);
    ParseIntOfNatToString(n, "");
  }

  /** `s` without one leading sign character. */
  function Unsigned(s: string): string {
    if s != [] && (s[0] == '-' || s[0] == '+') then s[1..] else s
  }

  /**
   * The `isInt` check of the request validator (leading zeros allowed):
   * an optional sign followed by one or more decimal digits, and nothing else.
   */
  predicate IsIntString(s: string) {
    Unsigned(s) != [] && forall i :: 0 <= i < |Unsigned(s)| ==> IsRadixDigit(Unsigned(s)[i], 10)
  }

  /** The integer an `isInt` string denotes. */
  function IntValue(s: string): int
    requires IsIntString(s)
  {
    if s[0] == '-' then -(Value(Unsigned(s), 10) as int) else Value(Unsigned(s), 10)
  }

  /** `isInt({ min })`. */
  predicate IsIntAtLeast(s: string, min: int) {
    IsIntString(s) && IntValue(s) >= min
  }

  /** A string the validator accepts as an integer is read by `parseInt` as that same integer. */
  lemma IntStringParses(s: string)
    requires IsIntString(s)
    ensures ParseInt(s) == Some(IntValue(s))
  {
    var u := Unsigned(s);
    assert s[0] == '-' || s[0] == '+' || s[0] == u[0];
    assert !IsSpace(s[0]);
    assert TrimStart(s) == s;
    assert !(|u| >= 2 && u[0] == '0' && (u[1] == 'x' || u[1] == 'X')) by {
      if |u| >= 2 { assert IsRadixDigit(u[1], 10); }
    }
    DigitRunOfDigits(u, 10);
  }

  /** A natural number printed in decimal is an integer literal for the validator, denoting that number. */
  lemma NatToStringIsInt(n: nat)
    ensures IsIntString(NatToString(n)) && IntValue(NatToString(n)) == n
  {
    var s := NatToString(n);
    assert Unsigned(s) == s by {
      assert IsRadixDigit(s[0], 10);
    }
    ValueOfNatToString(n);
  }

  /** `Math.ceil(total / limit)` for a positive limit. */
  function CeilDiv(total: nat, limit: int): (r: nat)
    requires limit > 0
  {
    (total + limit - 1) / limit
  }

  /** `count` pages of `limit` items hold `total` items, and one page fewer would not. */
  predicate LeastCover(count: int, limit: int, total: int) {
    count * limit >= total && (count == 0 || (count - 1) * limit < total)
  }

  /** `CeilDiv` is the least number of `limit`-sized pages that hold `total` items. */
  lemma CeilDivIsLeastCover(total: nat, limit: int)
    requires limit > 0
    ensures LeastCover(CeilDiv(total, limit), limit, total)
  {
    var q := CeilDiv(total, limit);
    var m := (total + limit - 1) % limit;
    assert total + limit - 1 == q * limit + m;
    assert (q - 1) * limit == q * limit - limit;
  }

  /** `Math.round(x)`: the nearest integer, halves rounded up. */
  function JsRound(x: real): (r: int)
    ensures r as real - 0.5 <= x < r as real + 0.5
  {
    (x + 0.5).Floor
  }
}
