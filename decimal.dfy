/**
 * Decimal text of unsigned numbers: the rendering done by std::to_string on an
 * unsigned value and the parsing done by std::stoul (base 10).
 */
module Decimal {
  import opened Wrappers

  /** The largest value of a 64-bit unsigned long. */
  const ULONG_MAX: nat := 0xFFFF_FFFF_FFFF_FFFF

  /** The standard exceptions std::stoul and std::string::substr throw. */
  datatype StdException = InvalidArgument | OutOfRange

  predicate IsDigit(c: char) { '0' <= c <= '9' }

  /** The characters for which C's isspace holds in the "C" locale. */
  predicate IsSpace(c: char) {
    c == ' ' || c == '\t' || c == '\n' || c == '\U{B}' || c == '\U{C}' || c == '\r'
  }

  predicate AllDigits(s: string) { forall i :: 0 <= i < |s| ==> IsDigit(s[i]) }

  function DigitChar(d: nat): (c: char)
    requires d < 10
    ensures IsDigit(c)
  {
    ['0', '1', '2', '3', '4', '5', '6', '7', '8', '9'][d]
  }

  function DigitValue(c: char): (d: nat)
    ensures d < 10
  {
    if IsDigit(c) then (c as int - '0' as int) as nat else 0
  }

  lemma DigitValueOfDigitChar(d: nat)
    requires d < 10
    ensures DigitValue(DigitChar(d)) == d
  {
  }

  /** std::to_string on an unsigned value: the shortest decimal text, most significant digit first. */
  function NatToString(n: nat): (s: string)
    ensures 0 < |s| && AllDigits(s)
    ensures |s| > 1 ==> s[0] != '0'
    decreases n
  {
    if n < 10 then [DigitChar(n)] else NatToString(n / 10) + [DigitChar(n % 10)]
  }

  /** The number a string of decimal digits denotes. */
  function DigitsValue(s: string): nat
  {
    if s == [] then 0 else DigitsValue(s[..|s| - 1]) * 10 + DigitValue(s[|s| - 1])
  }

  /** Reading back the text of a number gives the number. */
  lemma {:induction false} DigitsValueOfNatToString(n: nat)
    ensures DigitsValue(NatToString(n)) == n
    decreases n
  {
    var s := NatToString(n);
    if n < 10 {
      DigitValueOfDigitChar(n);
    } else {
      DigitsValueOfNatToString(n / 10);
      assert s[..|s| - 1] == NatToString(n / 10);
      DigitValueOfDigitChar(n % 10);
    }
  }

  /** s without its leading white space, as skipped by strtoul. */
  function SkipSpace(s: string): string {
    if s != [] && IsSpace(s[0]) then SkipSpace(s[1..]) else s
  }

  /** The length of the longest prefix of s made of digits. */
  function DigitPrefixLength(s: string): (k: nat)
    ensures k <= |s|
  {
    if s != [] && IsDigit(s[0]) then 1 + DigitPrefixLength(s[1..]) else 0
  }

  /** DigitPrefixLength measures the longest run of digits that starts s. */
  lemma {:induction false} DigitPrefixLengthIsLongestRun(s: string)
    ensures AllDigits(s[..DigitPrefixLength(s)])
    ensures DigitPrefixLength(s) < |s| ==> !IsDigit(s[DigitPrefixLength(s)])
  {
    if s != [] && IsDigit(s[0]) {
      var k := DigitPrefixLength(s);
      DigitPrefixLengthIsLongestRun(s[1..]);
      assert s[..k] == [s[0]] + s[1..][..k - 1];
    }
  }

  /** A string made of digits only is one run of digits. */
  lemma {:induction false} DigitPrefixLengthOfDigits(s: string)
    requires AllDigits(s)
    ensures DigitPrefixLength(s) == |s|
  {
    if s != [] {
      assert AllDigits(s[1..]) by {
        forall i | 0 <= i < |s[1..]| ensures IsDigit(s[1..][i]) { assert s[1..][i] == s[i + 1]; }
      }
      DigitPrefixLengthOfDigits(s[1..]);
    }
  }

  /**
   * std::stoul(s) in base 10: skip white space, accept one optional sign, read
   * the longest run of digits. No digit throws invalid_argument, a value above
   * ULONG_MAX throws out_of_range, and a leading '-' negates the value modulo 2^64
   * (written without `%`: for 0 <= v <= ULONG_MAX, -v mod 2^64 is 0 or 2^64 - v).
   */
  function Stoul(s: string): (r: Result<nat, StdException>)
    ensures r.Success? ==> r.value <= ULONG_MAX
  {
    var t := SkipSpace(s);
    var negative := t != [] && t[0] == '-';
    var u := if t != [] && (t[0] == '-' || t[0] == '+') then t[1..] else t;
    var k := DigitPrefixLength(u);
    if k == 0 then Failure(InvalidArgument)
    else
      var v := DigitsValue(u[..k]);
      if v > ULONG_MAX then Failure(OutOfRange)
      else if negative then Success(if v == 0 then 0 else ULONG_MAX + 1 - v)
      else Success(v)
  }

  /** A string of digits alone parses to its value. */
  lemma StoulOfDigits(s: string)
    requires s != [] && AllDigits(s) && DigitsValue(s) <= ULONG_MAX
    ensures Stoul(s) == Success(DigitsValue(s))
  {
    DigitPrefixLengthOfDigits(s);
    assert s[..|s|] == s;
  }

  /** std::stoul(std::to_string(n)) == n for every n that fits in an unsigned long. */
  lemma StoulOfNatToString(n: nat)
    requires n <= ULONG_MAX
    ensures Stoul(NatToString(n)) == Success(n)
  {
    DigitsValueOfNatToString(n);
    StoulOfDigits(NatToString(n));
  }

  /** A string whose first non-blank character is neither a sign nor a digit is rejected. */
  lemma StoulRejectsNonNumber(s: string)
    requires s != [] && !IsSpace(s[0]) && !IsDigit(s[0]) && s[0] != '-' && s[0] != '+'
    ensures Stoul(s) == Failure(InvalidArgument)
  {
  }
}
