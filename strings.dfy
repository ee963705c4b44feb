/**
  Text helpers that Swift's standard library supplies to JSONJoy: lower-casing a
  string, formatting an `Int` in decimal (string interpolation), parsing an `Int`
  from text (`Int(String)`), and UTF-8 encoding of a string.
 */
module Strings {
  import opened Wrappers

  /** Swift's `Int` on a 64-bit platform. */
  newtype Int64 = x: int | -0x8000_0000_0000_0000 <= x <= 0x7FFF_FFFF_FFFF_FFFF

  /** Swift's `UInt` on a 64-bit platform. */
  newtype UInt64 = x: int | 0 <= x <= 0xFFFF_FFFF_FFFF_FFFF

  newtype Byte = b: int | 0 <= b < 0x100

  const MinInt64: int := -0x8000_0000_0000_0000
  const MaxInt64: int := 0x7FFF_FFFF_FFFF_FFFF

  // ---------------------------------------------------------------- lower case

  predicate IsUpper(c: char) { 'A' <= c <= 'Z' }

  const LowerLetters: string := "abcdefghijklmnopqrstuvwxyz"

  function LowerChar(c: char): char {
    if IsUpper(c) then (c as int + 32) as char else c
  }

  /** `lowercaseString`, restricted to the ASCII letters. */
  function Lower(s: string): (r: string)
    ensures |r| == |s|
    ensures forall i :: 0 <= i < |s| ==> !IsUpper(r[i])
    ensures forall i :: 0 <= i < |s| && !IsUpper(s[i]) ==> r[i] == s[i]
    ensures forall i :: 0 <= i < |s| && IsUpper(s[i]) ==> r[i] == LowerLetters[s[i] as int - 'A' as int]
  {
    seq(|s|, i requires 0 <= i < |s| => LowerChar(s[i]))
  }

  /** Lower-casing twice is lower-casing once. */
  lemma LowerIdempotent(s: string)
    ensures Lower(Lower(s)) == Lower(s)
  {
    var once := Lower(s);
    assert forall i :: 0 <= i < |once| ==> !IsUpper(once[i]);
  }

  /** A string without upper-case letters is its own lower case. */
  lemma LowerUnchanged(s: string)
    requires forall i :: 0 <= i < |s| ==> !IsUpper(s[i])
    ensures Lower(s) == s
  {
  }

  // ---------------------------------------------------------------- decimal digits

  predicate IsDigit(c: char) { '0' <= c <= '9' }

  predicate AllDigits(s: string) { forall i :: 0 <= i < |s| ==> IsDigit(s[i]) }

  function DigitChar(d: nat): (c: char)
    requires d < 10
    ensures IsDigit(c) && c as int - '0' as int == d
  {
    ('0' as int + d) as char
  }

  /** The decimal numeral of `n`, without leading zeros. */
  function NatToDecimal(n: nat): (r: string)
    ensures |r| >= 1 && AllDigits(r)
    ensures r[0] == '0' <==> n == 0
    decreases n
  {
    if n < 10 then [DigitChar(n)] else NatToDecimal(n / 10) + [DigitChar(n % 10)]
  }

  /** `"\(n)"` for an `Int`: the decimal numeral, preceded by a minus sign when negative. */
  function IntToDecimal(n: int): (r: string)
    ensures |r| >= 1
    ensures r[0] == '-' <==> n < 0
    ensures n >= 0 ==> r == NatToDecimal(n)
  {
    if n < 0 then "-" + NatToDecimal(-n) else NatToDecimal(n)
  }

  /** The value of a non-empty run of decimal digits; None for anything else. */
  function DigitsValue(s: string): (r: Option<nat>)
    ensures r.Some? <==> |s| > 0 && AllDigits(s)
    decreases |s|
  {
    if |s| == 0 || !IsDigit(s[|s| - 1]) then None
    else
      var d := s[|s| - 1] as int - '0' as int;
      if |s| == 1 then Some(d)
      else match DigitsValue(s[..|s| - 1])
        case None => None
        case Some(v) => Some(10 * v + d)
  }

  /** Reading back a formatted natural number gives that number. */
  lemma {:induction false} DigitsOfDecimal(n: nat)
    ensures DigitsValue(NatToDecimal(n)) == Some(n)
    decreases n
  {
    if n >= 10 {
      DigitsOfDecimal(n / 10);
      var s := NatToDecimal(n);
      assert s[..|s| - 1] == NatToDecimal(n / 10);
    }
  }

  /**
    Swift's `Int(text)`: an optional sign followed by at least one decimal digit,
    whose value fits in 64 bits; None for any other text.
   */
  function ParseInt(s: string): (r: Option<Int64>)
    ensures r.Some? ==>
      |s| > 0 && (IsDigit(s[0]) || s[0] == '+' || s[0] == '-') && AllDigits(s[1..])
    ensures r.Some? && r.value < 0 ==> s[0] == '-'
  {
    if |s| > 0 && (s[0] == '+' || s[0] == '-') then
      match DigitsValue(s[1..])
      case None => None
      case Some(m) =>
        var v: int := if s[0] == '-' then 0 - (m as int) else m as int;
        if MinInt64 <= v <= MaxInt64 then Some(v as Int64) else None
    else
      match DigitsValue(s)
      case None => None
      case Some(m) => if m <= MaxInt64 then Some(m as Int64) else None
  }

  /** Parsing the decimal form of any 64-bit integer gives it back. */
  lemma ParseIntOfDecimal(v: Int64)
    ensures ParseInt(IntToDecimal(v as int)) == Some(v)
  {
    var n := v as int;
    var s := IntToDecimal(n);
    if n < 0 {
      DigitsOfDecimal(-n);
      assert s == "-" + NatToDecimal(-n);
      assert s[1..] == NatToDecimal(-n);
      assert DigitsValue(s[1..]) == Some(-n);
    } else {
      DigitsOfDecimal(n);
      assert s == NatToDecimal(n);
      assert IsDigit(s[0]);
      assert DigitsValue(s) == Some(n);
    }
  }

  // ---------------------------------------------------------------- UTF-8

  /** A continuation byte: 10 followed by the low six bits of `n`. */
  function Continuation(n: nat): (b: Byte)
    ensures 0x80 <= b < 0xC0
  {
    (0x80 + n % 0x40) as Byte
  }

  /** A leading byte: `tag` followed by the low bits of `n` below `width`. */
  function Leading(tag: nat, n: nat, width: nat): (b: Byte)
    requires 0 < width && tag + width <= 0x100
  {
    (tag + n % width) as Byte
  }

  /** The UTF-8 encoding of one Unicode scalar value (RFC 3629, section 3). */
  function Utf8Char(c: char): (r: seq<Byte>)
    ensures 1 <= |r| <= 4
    ensures |r| == 1 <==> c as int < 0x80
    ensures |r| == 1 ==> r[0] as int == c as int
  {
    var n := c as int;
    if n < 0x80 then [Leading(0, n, 0x80)]
    else if n < 0x800 then [Leading(0xC0, n / 0x40, 0x20), Continuation(n)]
    else if n < 0x1_0000 then [Leading(0xE0, n / 0x1000, 0x10), Continuation(n / 0x40), Continuation(n)]
    else [Leading(0xF0, n / 0x4_0000, 0x08), Continuation(n / 0x1000), Continuation(n / 0x40), Continuation(n)]
  }

  /** `dataUsingEncoding(NSUTF8StringEncoding)`: never fails on a Swift string. */
  function Utf8(s: string): (r: seq<Byte>)
    ensures |s| <= |r| <= 4 * |s|
    decreases |s|
  {
    if |s| == 0 then [] else Utf8(s[..|s| - 1]) + Utf8Char(s[|s| - 1])
  }
}
