/**
 * The registration-number parity rule that picks one of the two question
 * URLs: keep the ASCII digits, read the last two (or the last one) as a
 * number and test it for oddness; no digits, or no number, means odd.
 */
module Parity {
  import opened Wrappers
  import opened JavaText

  /** The 32-bit range of Java's int, which Integer.parseInt enforces. */
  const INT_MIN: int := -0x8000_0000
  const INT_MAX: int := 0x7FFF_FFFF

  /** What Java's `\D` does not match: it is ASCII-only unless UNICODE_CHARACTER_CLASS is set. */
  predicate IsAsciiDigit(c: char) {
    '0' <= c <= '9'
  }

  predicate AllAsciiDigits(s: string) {
    forall i | 0 <= i < |s| :: IsAsciiDigit(s[i])
  }

  /** Character.getNumericValue of an ASCII digit. */
  function DigitValue(c: char): (d: nat)
    requires IsAsciiDigit(c)
    ensures d <= 9
    ensures d % 2 == 1 <==> c in "13579"
  {
    c as int - '0' as int
  }

  /** s.replaceAll("\\D+", ""): the ASCII digits of s, in order. */
  function AsciiDigits(s: string): (digits: string)
    ensures AllAsciiDigits(digits)
    ensures |digits| <= |s|
  {
    if s == [] then ""
    else AsciiDigits(s[..|s| - 1]) + (if IsAsciiDigit(s[|s| - 1]) then [s[|s| - 1]] else "")
  }

  /** The value of a string of ASCII digits read in base 10. */
  function DecimalValue(s: string): nat
    requires AllAsciiDigits(s)
  {
    if s == [] then 0 else 10 * DecimalValue(s[..|s| - 1]) + DigitValue(s[|s| - 1])
  }

  /**
   * Integer.parseInt(s): an optional sign followed by at least one digit,
   * within the 32-bit range; None is a NumberFormatException.
   */
  function ParseInt(s: string): (r: Option<int>)
    ensures r.Some? ==> INT_MIN <= r.value <= INT_MAX
  {
    if |s| == 0 then None
    else
      var body := if s[0] == '-' || s[0] == '+' then s[1..] else s;
      if |body| == 0 || !AllAsciiDigits(body) then None
      else
        var v: int := if s[0] == '-' then -(DecimalValue(body) as int) else DecimalValue(body);
        if INT_MIN <= v <= INT_MAX then Some(v) else None
  }

  /**
   * isRegNoLastTwoDigitsOdd, with the fall-through of its NumberFormatException
   * catch: in effect odd unless the last extracted digit is even.
   */
  predicate IsRegNoLastTwoDigitsOdd(regNo: JString): (odd: bool)
    ensures odd <==> regNo.None? || var digits := AsciiDigits(regNo.value);
                       digits == [] || DigitValue(digits[|digits| - 1]) % 2 == 1
  {
    if regNo.None? then true
    else
      var digits := AsciiDigits(regNo.value);
      var n := |digits|;
      LastTwoDigitsParity(digits);
      if n >= 2 && ParseInt(digits[n - 2..]).Some? then JavaRem(ParseInt(digits[n - 2..]).value, 2) == 1
      else if n >= 1 then JavaRem(DigitValue(digits[n - 1]), 2) == 1
      else true
  }

  /** Reading the last two digits, or the last one alone, gives the parity of the last digit. */
  lemma LastTwoDigitsParity(digits: string)
    requires AllAsciiDigits(digits)
    ensures |digits| >= 2 ==> ParseInt(digits[|digits| - 2..]).Some?
    ensures |digits| >= 2 ==>
              (JavaRem(ParseInt(digits[|digits| - 2..]).value, 2) == 1 <==> DigitValue(digits[|digits| - 1]) % 2 == 1)
    ensures |digits| >= 1 ==> JavaRem(DigitValue(digits[|digits| - 1]), 2) == DigitValue(digits[|digits| - 1]) % 2
  {
    var n := |digits|;
    if n >= 2 {
      assert digits[n - 2..] == [digits[n - 2], digits[n - 1]];
      ParseTwoDigitsNeverFails(digits[n - 2], digits[n - 1]);
      var v := 10 * DigitValue(digits[n - 2]) + DigitValue(digits[n - 1]);
      assert JavaRem(v, 2) == v % 2;
      assert v % 2 == DigitValue(digits[n - 1]) % 2;
    }
  }

  /** Two ASCII digits always parse, so the NumberFormatException catch is never entered. */
  lemma ParseTwoDigitsNeverFails(tens: char, units: char)
    requires IsAsciiDigit(tens) && IsAsciiDigit(units)
    ensures ParseInt([tens, units]) == Some(10 * DigitValue(tens) + DigitValue(units))
  {
    var s := [tens, units];
    assert s[..1] == [tens] && s[..1][..0] == [];
    assert DecimalValue(s[..1]) == DigitValue(tens);
    assert DecimalValue(s) == 10 * DigitValue(tens) + DigitValue(units);
  }

  /** Filtering the digits distributes over concatenation. */
  lemma {:induction false} AsciiDigitsConcat(a: string, b: string)
    ensures AsciiDigits(a + b) == AsciiDigits(a) + AsciiDigits(b)
  {
    if b == [] {
      assert a + b == a;
    } else {
      var ab := a + b;
      assert ab[..|ab| - 1] == a + b[..|b| - 1];
      assert ab[|ab| - 1] == b[|b| - 1];
      AsciiDigitsConcat(a, b[..|b| - 1]);
    }
  }

  /** A string with no ASCII digit has no digits to keep. */
  lemma {:induction false} NoAsciiDigits(s: string)
    requires forall i | 0 <= i < |s| :: !IsAsciiDigit(s[i])
    ensures AsciiDigits(s) == ""
  {
    if s != [] {
      NoAsciiDigits(s[..|s| - 1]);
    }
  }

  /** The last kept digit is the last ASCII digit of the string. */
  lemma {:induction false} LastKeptDigit(s: string, k: nat)
    requires k < |s| && IsAsciiDigit(s[k])
    requires forall j | k < j < |s| :: !IsAsciiDigit(s[j])
    ensures |AsciiDigits(s)| >= 1 && AsciiDigits(s)[|AsciiDigits(s)| - 1] == s[k]
  {
    if k < |s| - 1 {
      LastKeptDigit(s[..|s| - 1], k);
    }
  }

  /** A null registration number, or one without ASCII digits, counts as odd. */
  lemma DefaultsToOdd(regNo: JString)
    requires regNo.Some? ==> forall i | 0 <= i < |regNo.value| :: !IsAsciiDigit(regNo.value[i])
    ensures IsRegNoLastTwoDigitsOdd(regNo)
  {
    if regNo.Some? {
      NoAsciiDigits(regNo.value);
    }
  }

  /**
   * With at least one ASCII digit, the rule is exactly the parity of the
   * last ASCII digit (s[k]); the two-digit reading never changes it.
   */
  lemma ParityOfLastDigit(s: string, k: nat)
    requires k < |s| && IsAsciiDigit(s[k])
    requires forall j | k < j < |s| :: !IsAsciiDigit(s[j])
    ensures IsRegNoLastTwoDigitsOdd(Some(s)) <==> DigitValue(s[k]) % 2 == 1
  {
    LastKeptDigit(s, k);
  }

  /** Characters other than ASCII digits, wherever inserted, never change the result. */
  lemma NonDigitsIgnored(s: string, i: nat, c: char)
    requires i <= |s| && !IsAsciiDigit(c)
    ensures IsRegNoLastTwoDigitsOdd(Some(s[..i] + [c] + s[i..])) == IsRegNoLastTwoDigitsOdd(Some(s))
  {
    var t := s[..i] + [c] + s[i..];
    assert AsciiDigits(t) == AsciiDigits(s) by {
      AsciiDigitsConcat(s[..i] + [c], s[i..]);
      AsciiDigitsConcat(s[..i], [c]);
      AsciiDigitsConcat(s[..i], s[i..]);
      assert [c][..0] == [];
      assert AsciiDigits([c]) == "";
      assert s[..i] + s[i..] == s;
    }
  }

  /** The rule depends only on the digit string: reading it from the digits alone gives the same answer. */
  lemma {:induction false} OnlyDigitsMatter(s: string)
    ensures IsRegNoLastTwoDigitsOdd(Some(s)) == IsRegNoLastTwoDigitsOdd(Some(AsciiDigits(s)))
  {
    AsciiDigitsIdempotent(AsciiDigits(s));
  }

  lemma {:induction false} AsciiDigitsIdempotent(d: string)
    requires AllAsciiDigits(d)
    ensures AsciiDigits(d) == d
  {
    if d != [] {
      AsciiDigitsIdempotent(d[..|d| - 1]);
    }
  }

  /** An odd two-digit ending selects odd, an even one even. */
  lemma TwoDigitExamples()
    ensures IsRegNoLastTwoDigitsOdd(Some("REG12723"))
    ensures !IsRegNoLastTwoDigitsOdd(Some("REG12724"))
  {
    assert IsRegNoLastTwoDigitsOdd(Some("REG12723")) by {
      ParityOfLastDigit("REG12723", 7);
    }
    ParityOfLastDigit("REG12724", 7);
  }

  /** A single digit decides by its own parity; no digits at all, or null, is odd. */
  lemma ShortExamples()
    ensures IsRegNoLastTwoDigitsOdd(Some("A7")) && !IsRegNoLastTwoDigitsOdd(Some("B8"))
    ensures IsRegNoLastTwoDigitsOdd(Some("REG")) && IsRegNoLastTwoDigitsOdd(None)
  {
    assert IsRegNoLastTwoDigitsOdd(Some("A7")) by {
      ParityOfLastDigit("A7", 1);
    }
    assert !IsRegNoLastTwoDigitsOdd(Some("B8")) by {
      ParityOfLastDigit("B8", 1);
    }
    DefaultsToOdd(Some("REG"));
  }
}
